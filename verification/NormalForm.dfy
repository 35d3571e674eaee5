/**
  The normal form of a configuration tree: what it keeps of the tree, and that normalising twice
  is normalising once.
*/
module NormalForm {
  import opened ConfigTree

  // ----- filters distribute over concatenation

  lemma {:induction false} GroupConcat(a: seq<Config>, b: seq<Config>, k: string)
    ensures Group(a + b, k) == Group(a, k) + Group(b, k)
  {
    if a == [] {
      assert a + b == b;
    } else {
      var head := if a[0].key == k then [a[0]] else [];
      assert (a + b)[0] == a[0] && (a + b)[1..] == a[1..] + b;
      GroupConcat(a[1..], b, k);
      assert Group(a + b, k) == head + Group(a[1..] + b, k);
      assert Group(a, k) == head + Group(a[1..], k);
    }
  }

  lemma {:induction false} UniquesConcat(a: seq<Config>, b: seq<Config>, all: seq<Config>)
    ensures Uniques(a + b, all) == Uniques(a, all) + Uniques(b, all)
  {
    hide Count;
    if a == [] {
      assert a + b == b;
    } else {
      assert (a + b)[1..] == a[1..] + b;
      var head := if Count(all, a[0].key) == 1 then [a[0]] else [];
      assert Uniques(a + b, all) == head + Uniques(a[1..] + b, all);
      assert Uniques(a, all) == head + Uniques(a[1..], all);
      UniquesConcat(a[1..], b, all);
    }
  }

  lemma {:induction false} UniquesAll(cs: seq<Config>, all: seq<Config>)
    requires forall d :: d in cs ==> Count(all, d.key) == 1
    ensures Uniques(cs, all) == cs
  {
    if cs != [] {
      UniquesAll(cs[1..], all);
    }
  }

  lemma {:induction false} UniquesNone(cs: seq<Config>, all: seq<Config>)
    requires forall d :: d in cs ==> Count(all, d.key) != 1
    ensures Uniques(cs, all) == []
  {
    if cs != [] {
      UniquesNone(cs[1..], all);
    }
  }

  lemma {:induction false} GroupOfGroup(cs: seq<Config>, k: string, k2: string)
    ensures Group(Group(cs, k), k2) == if k == k2 then Group(cs, k) else []
  {
    if cs != [] {
      GroupOfGroup(cs[1..], k, k2);
      if cs[0].key == k {
        GroupConcat([cs[0]], Group(cs[1..], k), k2);
      } else {
        assert [] + Group(cs[1..], k) == Group(cs[1..], k);
      }
    }
  }

  lemma {:induction false} GroupOfUniques(cs: seq<Config>, all: seq<Config>, k: string)
    ensures Group(Uniques(cs, all), k) == if Count(all, k) == 1 then Group(cs, k) else []
  {
    if cs != [] {
      GroupOfUniques(cs[1..], all, k);
      if Count(all, cs[0].key) == 1 {
        GroupConcat([cs[0]], Uniques(cs[1..], all), k);
      } else {
        assert [] + Uniques(cs[1..], all) == Uniques(cs[1..], all);
      }
    }
  }

  lemma {:induction false} GroupOfNormEach(cs: seq<Config>, k: string)
    requires AllKeyed(cs)
    ensures Group(NormEach(cs), k) == NormEach(Group(cs, k))
  {
    if cs != [] {
      var c, rest := cs[0], cs[1..];
      GroupOfNormEach(rest, k);
      assert KeyedChild(c);
      assert cs == [c] + rest;
      NormEachCons(c, rest);
      NormEachCons(c, Group(rest, k));
      assert [] + Group(rest, k) == Group(rest, k) && [] + NormEach(rest) == NormEach(rest);
      if !c.IsEmpty() {
        assert [Norm(c)][1..] == [];
        GroupConcat([Norm(c)], NormEach(rest), k);
        assert Group([Norm(c)], k) == if c.key == k then [Norm(c)] else [];
      }
    }
  }

  lemma NormEachCons(c: Config, cs: seq<Config>)
    ensures NormEach([c] + cs) == (if c.IsEmpty() then [] else [Norm(c)]) + NormEach(cs)
  {
    assert ([c] + cs)[1..] == cs;
  }

  lemma {:induction false} NormEachIn(cs: seq<Config>)
    requires AllKeyed(cs)
    ensures forall d :: d in NormEach(cs) ==> d.key != "" && exists c :: c in cs && c.key == d.key && d == Norm(c)
  {
    if cs != [] {
      NormEachIn(cs[1..]);
      assert KeyedChild(cs[0]);
    }
  }

  lemma {:induction false} NormEachNone(cs: seq<Config>)
    requires forall c :: c in cs ==> c.key == "" && KeyedChild(c)
    ensures NormEach(cs) == []
  {
    if cs != [] {
      NormEachNone(cs[1..]);
      assert KeyedChild(cs[0]);
    }
  }

  // ----- the order of keys

  lemma {:induction false} LessIrreflexive(a: string)
    ensures !Less(a, a)
  {
    if a != "" {
      LessIrreflexive(a[1..]);
    }
  }

  lemma {:induction false} LessTransitive(a: string, b: string, c: string)
    requires Less(a, b) && Less(b, c)
    ensures Less(a, c)
  {
    if a != "" && a[0] == b[0] == c[0] {
      LessTransitive(a[1..], b[1..], c[1..]);
    }
  }

  lemma {:induction false} LessTotal(a: string, b: string)
    ensures a == b || Less(a, b) || Less(b, a)
  {
    if a != "" && b != "" && a[0] == b[0] {
      LessTotal(a[1..], b[1..]);
      assert a == [a[0]] + a[1..] && b == [b[0]] + b[1..];
    }
  }

  /** How far two texts agree. */
  function Agree(a: string, b: string): (k: nat)
    ensures k <= |a| && k <= |b| && a[..k] == b[..k]
    ensures k < |a| && k < |b| ==> a[k] != b[k]
  {
    if a != "" && b != "" && a[0] == b[0] then 1 + Agree(a[1..], b[1..]) else 0
  }

  /** At the first difference the smaller code point comes first; without one, the shorter text. */
  lemma {:induction false} LessByCodePoints(a: string, b: string)
    ensures var k := Agree(a, b); Less(a, b) <==> k < |b| && (k == |a| || a[k] < b[k])
  {
    if a != "" && b != "" && a[0] == b[0] {
      LessByCodePoints(a[1..], b[1..]);
    }
  }

  ghost predicate Ordered(ks: seq<string>) {
    ks == [] || ((forall k :: k in ks[1..] ==> Less(ks[0], k)) && Ordered(ks[1..]))
  }

  lemma {:induction false} InsertOrdered(k: string, ks: seq<string>)
    requires Ordered(ks)
    ensures Ordered(Insert(k, ks))
  {
    if ks != [] && k != ks[0] {
      LessTotal(k, ks[0]);
      if Less(k, ks[0]) {
        forall x | x in ks ensures Less(k, x) {
          if x != ks[0] {
            assert x in ks[1..];
            LessTransitive(k, ks[0], x);
          }
        }
        assert ([k] + ks)[1..] == ks;
      } else {
        InsertOrdered(k, ks[1..]);
        InsertIn(k, ks[1..]);
        assert ([ks[0]] + Insert(k, ks[1..]))[1..] == Insert(k, ks[1..]);
      }
    } else if ks == [] {
      assert [k][1..] == [];
    }
  }

  lemma {:induction false} RepeatedOrdered(cs: seq<Config>, all: seq<Config>)
    ensures Ordered(Repeated(cs, all))
  {
    if cs != [] {
      RepeatedOrdered(cs[1..], all);
      if Count(all, cs[0].key) > 1 {
        InsertOrdered(cs[0].key, Repeated(cs[1..], all));
      }
    }
  }

  lemma OrderedHead(a: seq<string>, b: seq<string>)
    requires Ordered(a) && Ordered(b) && a != [] && b != []
    requires forall k :: k in a <==> k in b
    ensures a[0] == b[0]
  {
    if a[0] != b[0] {
      assert a[0] in b && b[0] in a;
      assert a[0] in b[1..] && b[0] in a[1..];
      LessTransitive(a[0], b[0], a[0]);
      LessIrreflexive(a[0]);
    }
  }

  lemma HeadIn(ks: seq<string>)
    requires ks != []
    ensures exists k :: k in ks
  {
    assert ks[0] in ks;
  }

  /** The map's iteration order depends on the keys alone. */
  lemma {:induction false} OrderedUnique(a: seq<string>, b: seq<string>)
    requires Ordered(a) && Ordered(b)
    requires forall k :: k in a <==> k in b
    ensures a == b
  {
    if a == [] {
      if b != [] {
        HeadIn(b);
      }
    } else {
      assert a[0] in b;
      OrderedHead(a, b);
      LessIrreflexive(a[0]);
      assert forall k :: k in a[1..] <==> k in a && k != a[0];
      assert forall k :: k in b[1..] <==> k in b && k != b[0];
      OrderedUnique(a[1..], b[1..]);
      assert a == [a[0]] + a[1..] && b == [b[0]] + b[1..];
    }
  }

  // ----- what the normal form keeps

  lemma {:induction false} GroupOfGroups(cs: seq<Config>, ks: seq<string>, k: string)
    requires AllKeyed(cs) && Ordered(ks)
    ensures Group(NormGroups(cs, ks), k) == if k in ks then NormEach(Group(cs, k)) else []
  {
    if ks != [] {
      var g := Group(cs, ks[0]);
      GroupOfGroups(cs, ks[1..], k);
      GroupConcat(NormEach(g), NormGroups(cs, ks[1..]), k);
      GroupIn(cs, ks[0]);
      GroupOfNormEach(g, k);
      GroupOfGroup(cs, ks[0], k);
      LessIrreflexive(ks[0]);
      assert k in ks <==> k == ks[0] || k in ks[1..];
    }
  }

  /** For every key, the normal form holds the normal forms of the children with that key, in
      their order, and no others. */
  lemma GroupsKept(cs: seq<Config>, k: string)
    requires AllKeyed(cs)
    ensures Group(NormBody(cs), k) == NormEach(Group(cs, k))
  {
    var us, ks := Uniques(cs, cs), Repeated(cs, cs);
    UniquesIn(cs, cs);
    RepeatedIn(cs, cs);
    RepeatedOrdered(cs, cs);
    GroupConcat(NormEach(us), NormGroups(cs, ks), k);
    GroupOfNormEach(us, k);
    GroupOfUniques(cs, cs, k);
    GroupOfGroups(cs, ks, k);
    if Count(cs, k) == 0 {
      GroupIn(cs, k);
      assert Group(cs, k) == [];
    }
  }

  lemma CountKept(cs: seq<Config>, k: string)
    requires AllKeyed(cs)
    ensures Count(NormBody(cs), k) == if k == "" then 0 else Count(cs, k)
  {
    GroupsKept(cs, k);
    GroupIn(cs, k);
    GroupIn(NormBody(cs), k);
    if k == "" {
      NormEachNone(Group(cs, k));
    } else {
      NormEachSize(Group(cs, k));
    }
  }

  /** Children whose key is unique come first, in their order. */
  lemma UniquesFirst(cs: seq<Config>)
    requires AllKeyed(cs) && Count(cs, "") <= 1
    ensures Uniques(NormBody(cs), NormBody(cs)) == NormEach(Uniques(cs, cs))
    ensures Repeated(NormBody(cs), NormBody(cs)) == Repeated(cs, cs)
  {
    var us, ks, b := Uniques(cs, cs), Repeated(cs, cs), NormBody(cs);
    UniquesIn(cs, cs);
    RepeatedIn(cs, cs);
    NormEachIn(us);
    UniquesConcat(NormEach(us), NormGroups(cs, ks), b);
    forall d | d in NormEach(us) ensures Count(b, d.key) == 1 {
      CountKept(cs, d.key);
    }
    UniquesAll(NormEach(us), b);
    forall d | d in NormGroups(cs, ks) ensures Count(b, d.key) != 1 {
      RepeatedOrdered(cs, cs);
      GroupIn(NormGroups(cs, ks), d.key);
      GroupOfGroups(cs, ks, d.key);
      CountKept(cs, d.key);
    }
    UniquesNone(NormGroups(cs, ks), b);
    RepeatedIn(b, b);
    forall k ensures k in Repeated(b, b) <==> k in ks {
      CountKept(cs, k);
    }
    RepeatedOrdered(cs, cs);
    RepeatedOrdered(b, b);
    OrderedUnique(Repeated(b, b), ks);
  }

  // ----- normalising twice

  lemma {:induction false} NormFixed(c: Config)
    requires Keyed(c) && Tidy(c)
    ensures Norm(Norm(c)) == Norm(c)
    decreases Weight(c), 0
  {
    if !c.IsSimple() {
      BodyFixed(c.children);
    }
  }

  lemma {:induction false} BodyFixed(cs: seq<Config>)
    requires AllKeyed(cs) && AllTidy(cs) && Count(cs, "") <= 1
    ensures NormBody(NormBody(cs)) == NormBody(cs)
    decreases WeightAll(cs), 3
  {
    var us := Uniques(cs, cs);
    UniquesFirst(cs);
    UniquesIn(cs, cs);
    UniquesWeight(cs, cs);
    EachFixed(us);
    GroupsFixed(cs, Repeated(cs, cs));
  }

  lemma {:induction false} EachFixed(cs: seq<Config>)
    requires AllKeyed(cs) && AllTidy(cs)
    ensures NormEach(NormEach(cs)) == NormEach(cs)
    decreases WeightAll(cs), 1, |cs|
  {
    if cs != [] {
      EachFixed(cs[1..]);
      assert KeyedChild(cs[0]);
      if !cs[0].IsEmpty() {
        NormFixed(cs[0]);
        NormEachCons(Norm(cs[0]), NormEach(cs[1..]));
      } else {
        assert [] + NormEach(cs[1..]) == NormEach(cs[1..]);
      }
    }
  }

  lemma {:induction false} GroupsFixed(cs: seq<Config>, ks: seq<string>)
    requires AllKeyed(cs) && AllTidy(cs)
    ensures NormGroups(NormBody(cs), ks) == NormGroups(cs, ks)
    decreases WeightAll(cs), 2, |ks|
  {
    if ks != [] {
      GroupsFixed(cs, ks[1..]);
      GroupsKept(cs, ks[0]);
      GroupIn(cs, ks[0]);
      GroupWeight(cs, ks[0]);
      EachFixed(Group(cs, ks[0]));
    }
  }

  /** Normal forms can be written and read again. */
  lemma {:induction false} NormWritable(c: Config)
    requires Keyed(c) && Tidy(c)
    ensures Keyed(Norm(c)) && Tidy(Norm(c))
    decreases c
  {
    if !c.IsSimple() {
      var b := NormBody(c.children);
      CountKept(c.children, "");
      forall d | d in b ensures KeyedChild(d) && Tidy(d) {
        GroupIn(b, d.key);
        GroupsKept(c.children, d.key);
        GroupIn(c.children, d.key);
        NormEachIn(Group(c.children, d.key));
        var e :| e in Group(c.children, d.key) && e.key == d.key && d == Norm(e);
        assert e in c.children && KeyedChild(e);
        NormWritable(e);
      }
    }
  }

  lemma RootWritable(c: Config)
    requires Keyed(c) && Tidy(c)
    ensures Keyed(NormRoot(c)) && Tidy(NormRoot(c))
  {
    NormWritable(c);
    if !c.IsEmpty() && c.key != "" {
      assert Count([Norm(c)], "") == 0;
    }
  }

  /** A second round trip changes nothing. */
  lemma RootFixed(c: Config)
    requires Keyed(c) && Tidy(c)
    ensures NormRoot(NormRoot(c)) == NormRoot(c)
  {
    if c.IsEmpty() {
    } else if c.key == "" {
      BodyFixed(c.children);
    } else {
      NormFixed(c);
      var n := Norm(c);
      assert [n][1..] == [];
      assert Count([n], n.key) == 1;
      assert Uniques([n], [n]) == [n] && Repeated([n], [n]) == [];
      NormEachCons(n, []);
      assert NormBody([n]) == [Norm(n)] + [] + [];
    }
  }
}
