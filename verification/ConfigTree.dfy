/**
  Configuration trees, the order in which write_json_impl walks them, and the form a tree has
  after it was written and read back.
*/
module ConfigTree {

  datatype Config = Config(key: string, value: string, children: seq<Config>) {
    predicate IsEmpty() { key == "" && value == "" && children == [] }
    predicate IsSimple() { key != "" && value != "" && children == [] }
  }

  // ----- the walk: children with a unique key in order, then repeated keys in key order

  function Count(cs: seq<Config>, k: string): nat {
    if cs == [] then 0 else (if cs[0].key == k then 1 else 0) + Count(cs[1..], k)
  }

  /** The children of `cs` whose key occurs once in `all`. */
  function Uniques(cs: seq<Config>, all: seq<Config>): seq<Config> {
    if cs == [] then []
    else (if Count(all, cs[0].key) == 1 then [cs[0]] else []) + Uniques(cs[1..], all)
  }

  function Group(cs: seq<Config>, k: string): seq<Config> {
    if cs == [] then [] else (if cs[0].key == k then [cs[0]] else []) + Group(cs[1..], k)
  }

  /** CText::compare: by code points, a proper prefix first. */
  predicate Less(a: string, b: string) {
    if b == "" then false
    else if a == "" then true
    else if a[0] != b[0] then a[0] < b[0]
    else Less(a[1..], b[1..])
  }

  /** Inserting into an ordered map's keys. */
  function Insert(k: string, ks: seq<string>): seq<string> {
    if ks == [] then [k]
    else if k == ks[0] then ks
    else if Less(k, ks[0]) then [k] + ks
    else [ks[0]] + Insert(k, ks[1..])
  }

  /** The keys of `cs` that occur more than once in `all`, as the map iterates them. */
  function Repeated(cs: seq<Config>, all: seq<Config>): seq<string> {
    if cs == [] then []
    else if Count(all, cs[0].key) > 1 then Insert(cs[0].key, Repeated(cs[1..], all))
    else Repeated(cs[1..], all)
  }

  // ----- sizes, for recursion through filtered children

  function Weight(c: Config): nat { 1 + WeightAll(c.children) }

  function WeightAll(cs: seq<Config>): nat {
    if cs == [] then 0 else Weight(cs[0]) + WeightAll(cs[1..])
  }

  lemma WeightCons(c: Config, cs: seq<Config>)
    ensures WeightAll([c] + cs) == Weight(c) + WeightAll(cs)
  {
    assert ([c] + cs)[1..] == cs;
  }

  lemma {:induction false} UniquesWeight(cs: seq<Config>, all: seq<Config>)
    ensures WeightAll(Uniques(cs, all)) <= WeightAll(cs)
  {
    if cs != [] {
      UniquesWeight(cs[1..], all);
      WeightCons(cs[0], Uniques(cs[1..], all));
      assert [] + Uniques(cs[1..], all) == Uniques(cs[1..], all);
    }
  }

  lemma {:induction false} GroupWeight(cs: seq<Config>, k: string)
    ensures WeightAll(Group(cs, k)) <= WeightAll(cs)
  {
    if cs != [] {
      GroupWeight(cs[1..], k);
      WeightCons(cs[0], Group(cs[1..], k));
      assert [] + Group(cs[1..], k) == Group(cs[1..], k);
    }
  }

  // ----- the form after one round trip

  function Norm(c: Config): Config
    decreases Weight(c), 0
  {
    if c.IsSimple() then c else Config(c.key, "", NormBody(c.children))
  }

  function NormBody(cs: seq<Config>): seq<Config>
    decreases WeightAll(cs), 3
  {
    UniquesWeight(cs, cs);
    NormEach(Uniques(cs, cs)) + NormGroups(cs, Repeated(cs, cs))
  }

  function NormEach(cs: seq<Config>): seq<Config>
    decreases WeightAll(cs), 1, |cs|
  {
    if cs == [] then []
    else (if cs[0].IsEmpty() then [] else [Norm(cs[0])]) + NormEach(cs[1..])
  }

  function NormGroups(cs: seq<Config>, ks: seq<string>): seq<Config>
    decreases WeightAll(cs), 2, |ks|
  {
    if ks == [] then []
    else
      GroupWeight(cs, ks[0]);
      NormEach(Group(cs, ks[0])) + NormGroups(cs, ks[1..])
  }

  /** What reading back the text written for root `c` yields. */
  function NormRoot(c: Config): Config {
    Config("", "",
      if c.IsEmpty() then []
      else if c.key == "" then NormBody(c.children)
      else [Norm(c)])
  }

  /** What the writer demands: every child that is not wholly empty has a key. */
  ghost predicate Keyed(c: Config)
    decreases c, 0
  {
    forall d :: d in c.children ==> KeyedChild(d)
  }

  ghost predicate KeyedChild(d: Config)
    decreases d, 1
  {
    d.IsEmpty() || (d.key != "" && Keyed(d))
  }

  /** No node has two wholly empty children. */
  ghost predicate Tidy(c: Config)
    decreases c
  {
    Count(c.children, "") <= 1 && forall d :: d in c.children ==> Tidy(d)
  }

  ghost predicate AllTidy(cs: seq<Config>) {
    forall d :: d in cs ==> Tidy(d)
  }

  ghost predicate AllKeyed(cs: seq<Config>) {
    forall d :: d in cs ==> KeyedChild(d)
  }

  // ----- membership and counting

  lemma {:induction false} UniquesIn(cs: seq<Config>, all: seq<Config>)
    ensures forall d :: d in Uniques(cs, all) <==> d in cs && Count(all, d.key) == 1
  {
    if cs != [] {
      UniquesIn(cs[1..], all);
    }
  }

  lemma {:induction false} GroupIn(cs: seq<Config>, k: string)
    ensures forall d :: d in Group(cs, k) <==> d in cs && d.key == k
    ensures |Group(cs, k)| == Count(cs, k)
  {
    if cs != [] {
      GroupIn(cs[1..], k);
    }
  }

  lemma {:induction false} CountIn(cs: seq<Config>, k: string)
    ensures Count(cs, k) > 0 <==> exists d :: d in cs && d.key == k
  {
    if cs != [] {
      CountIn(cs[1..], k);
    }
  }

  lemma {:induction false} InsertIn(k: string, ks: seq<string>)
    ensures forall x :: x in Insert(k, ks) <==> x == k || x in ks
  {
    if ks != [] {
      InsertIn(k, ks[1..]);
    }
  }

  lemma {:induction false} RepeatedIn(cs: seq<Config>, all: seq<Config>)
    ensures forall k :: k in Repeated(cs, all) <==> Count(cs, k) > 0 && Count(all, k) > 1
  {
    if cs != [] {
      RepeatedIn(cs[1..], all);
      InsertIn(cs[0].key, Repeated(cs[1..], all));
    }
  }

  ghost predicate Distinct(cs: seq<Config>) {
    forall i, j :: 0 <= i < j < |cs| ==> cs[i].key != cs[j].key
  }

  lemma DistinctCons(c: Config, cs: seq<Config>)
    requires Distinct(cs) && forall d :: d in cs ==> d.key != c.key
    ensures Distinct([c] + cs)
  {
    var all := [c] + cs;
    forall i, j | 0 <= i < j < |all| ensures all[i].key != all[j].key {
      assert all[j] == cs[j - 1] && cs[j - 1] in cs;
      if i > 0 {
        assert all[i] == cs[i - 1];
      }
    }
  }

  lemma {:induction false} UniquesDistinct(cs: seq<Config>, all: seq<Config>)
    requires forall k :: Count(cs, k) <= Count(all, k)
    ensures Distinct(Uniques(cs, all))
  {
    if cs != [] {
      forall k ensures Count(cs[1..], k) <= Count(all, k) {
        assert Count(cs, k) <= Count(all, k);
      }
      UniquesDistinct(cs[1..], all);
      if Count(all, cs[0].key) == 1 {
        UniquesIn(cs[1..], all);
        CountIn(cs[1..], cs[0].key);
        assert Count(cs, cs[0].key) <= Count(all, cs[0].key);
        DistinctCons(cs[0], Uniques(cs[1..], all));
      } else {
        assert [] + Uniques(cs[1..], all) == Uniques(cs[1..], all);
      }
    }
  }

  lemma {:induction false} NormEachSize(cs: seq<Config>)
    requires forall c :: c in cs ==> c.key != ""
    ensures |NormEach(cs)| == |cs|
  {
    if cs != [] {
      NormEachSize(cs[1..]);
    }
  }
}
