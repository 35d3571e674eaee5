/**
  The JSON writer as a stream of tokens, and the SAX reader that rebuilds the tree.
*/
module Json {
  import opened ConfigTree

  datatype Token = StartObject | EndObject | StartArray | EndArray | Key(k: string) | Str(v: string)

  // ----- write_json_impl

  function Emit(c: Config, inArray: bool): seq<Token>
    decreases Weight(c), 0
  {
    if c.IsEmpty() then []
    else if c.IsSimple() then (if inArray then [] else [Key(c.key)]) + [Str(c.value)]
    else if c.key != "" then
      (if inArray then [] else [Key(c.key)]) + [StartObject] + EmitBody(c.children) + [EndObject]
    else EmitBody(c.children)
  }

  function EmitBody(cs: seq<Config>): seq<Token>
    decreases WeightAll(cs), 3
  {
    UniquesWeight(cs, cs);
    EmitEach(Uniques(cs, cs), false) + EmitArrays(cs, Repeated(cs, cs))
  }

  function EmitEach(cs: seq<Config>, inArray: bool): seq<Token>
    decreases WeightAll(cs), 1, |cs|
  {
    if cs == [] then []
    else (if cs[0].IsEmpty() then [] else Emit(cs[0], inArray)) + EmitEach(cs[1..], inArray)
  }

  function EmitArrays(cs: seq<Config>, ks: seq<string>): seq<Token>
    decreases WeightAll(cs), 2, |ks|
  {
    if ks == [] then []
    else
      GroupWeight(cs, ks[0]);
      [Key(ks[0]), StartArray] + EmitEach(Group(cs, ks[0]), true) + [EndArray] + EmitArrays(cs, ks[1..])
  }

  /** The text of a whole configuration. */
  function WriteJson(c: Config): seq<Token> {
    [StartObject] + Emit(c, false) + [EndObject]
  }

  // ----- the reader

  /** An entry of FStack; `conf` is the node being filled, not yet hung under its parent. */
  datatype Frame = Frame(conf: Config, arrayKey: string, length: nat, extra: nat)

  /** CJsonReader with the innermost frame first, and the parser's own counts of members and
      elements.  `Rejected`: a check of the reader failed. */
  datatype Reader = Reader(frames: seq<Frame>, key: string, head: Config, counts: seq<nat>) | Rejected

  function Bump(counts: seq<nat>): seq<nat> {
    if counts == [] then [] else counts[0 := counts[0] + 1]
  }

  /** MSet replaces every child with that key; the new one goes to the end. */
  function SetChild(c: Config, k: string, v: string): Config {
    c.(children := Without(c.children, k) + [Config(k, v, [])])
  }

  function Without(cs: seq<Config>, k: string): seq<Config> {
    if cs == [] then [] else (if cs[0].key == k then [] else [cs[0]]) + Without(cs[1..], k)
  }

  function Hang(parent: Frame, c: Config): Frame {
    parent.(conf := parent.conf.(children := parent.conf.children + [c]))
  }

  function Step(r: Reader, t: Token): Reader {
    if r.Rejected? then r else
    match t
    case Key(k) => r.(key := k)
    case StartObject => StartObjectStep(r)
    case EndObject => EndObjectStep(r)
    case StartArray =>
      if r.frames == [] || r.key == "" then Rejected
      else r.(frames := r.frames[0 := r.frames[0].(arrayKey := r.key, length := 0)], counts := [0] + r.counts)
    case EndArray => EndArrayStep(r)
    case Str(v) => LeafStep(r, v)
  }

  function StartObjectStep(r: Reader): Reader
    requires r.Reader?
  {
    var counts := [0] + r.counts;
    if r.frames == [] then r.(frames := [Frame(r.head, "", 0, 0)], counts := counts)
    else
      var top := r.frames[0];
      if top.arrayKey != "" then
        r.(frames := [Frame(Config(top.arrayKey, "", []), "", 0, 0), top.(length := top.length + 1)] + r.frames[1..], counts := counts)
      else
        r.(frames := [Frame(Config(r.key, "", []), "", 0, 0)] + r.frames, counts := counts)
  }

  function EndObjectStep(r: Reader): Reader
    requires r.Reader?
  {
    if r.frames == [] || r.counts == [] then Rejected
    else
      var top, counts := r.frames[0], Bump(r.counts[1..]);
      if |top.conf.children| != r.counts[0] + top.extra then Rejected
      else if |r.frames| == 1 then r.(frames := [], head := top.conf, counts := counts)
      else r.(frames := [Hang(r.frames[1], top.conf)] + r.frames[2..], counts := counts)
  }

  function EndArrayStep(r: Reader): Reader
    requires r.Reader?
  {
    if r.frames == [] || r.counts == [] then Rejected
    else
      var top := r.frames[0];
      if top.length != r.counts[0] then Rejected
      else
        var extra := top.extra + if top.length > 0 then top.length - 1 else 0;
        r.(frames := r.frames[0 := top.(arrayKey := "", extra := extra, length := 0)], counts := Bump(r.counts[1..]))
  }

  function LeafStep(r: Reader, v: string): Reader
    requires r.Reader?
  {
    if r.frames == [] then Rejected
    else
      var top := r.frames[0];
      var filled :=
        if top.arrayKey != "" then Hang(top, Config(top.arrayKey, v, [])).(length := top.length + 1)
        else top.(conf := SetChild(top.conf, r.key, v));
      r.(frames := r.frames[0 := filled], counts := Bump(r.counts))
  }

  function Run(r: Reader, ts: seq<Token>): Reader
    decreases ts
  {
    if ts == [] then r else Run(Step(r, ts[0]), ts[1..])
  }

  const FRESH := Reader([], "", Config("", "", []), [])

  /** MFromJSON into a fresh configuration: the tree, or nothing when a check failed. */
  function ReadJson(ts: seq<Token>): (r: Reader) { Run(FRESH, ts) }

  lemma {:induction false} RunConcat(r: Reader, a: seq<Token>, b: seq<Token>)
    ensures Run(r, a + b) == Run(Run(r, a), b)
    decreases a
  {
    if a == [] {
      assert a + b == b;
    } else {
      assert (a + b)[1..] == a[1..] + b;
      RunConcat(Step(r, a[0]), a[1..], b);
    }
  }

  // ----- reading what was written

  ghost predicate InObject(r: Reader) {
    r.Reader? && r.frames != [] && r.counts != [] && r.frames[0].arrayKey == "" && r.frames[0].length == 0
  }

  ghost predicate InArray(r: Reader, k: string) {
    r.Reader? && r.frames != [] && r.counts != [] && r.frames[0].arrayKey == k != ""
  }

  /** `cs` appended to the node being filled, the parser having counted `members` more, the array
      elements beyond the first of each array being `extra` more. */
  ghost function Added(r: Reader, cs: seq<Config>, members: nat, extra: nat, k: string): Reader
    requires r.Reader? && r.frames != [] && r.counts != []
  {
    var top := r.frames[0];
    var filled := top.(conf := top.conf.(children := top.conf.children + cs), extra := top.extra + extra,
                       length := if top.arrayKey == "" then top.length else top.length + |cs|);
    r.(frames := r.frames[0 := filled], counts := r.counts[0 := r.counts[0] + members], key := k)
  }

  lemma {:induction false} WithoutNothing(cs: seq<Config>, k: string)
    requires forall c :: c in cs ==> c.key != k
    ensures Without(cs, k) == cs
  {
    if cs != [] {
      WithoutNothing(cs[1..], k);
    }
  }

  lemma {:induction false} RejectedStays(ts: seq<Token>)
    ensures Run(Rejected, ts) == Rejected
  {
    if ts != [] {
      RejectedStays(ts[1..]);
    }
  }

  lemma RunOne(r: Reader, t: Token)
    ensures Run(r, [t]) == Step(r, t)
  {
    assert [t][1..] == [];
  }

  lemma AddedTwice(r: Reader, a: seq<Config>, m: nat, e: nat, k: string, b: seq<Config>, m2: nat, e2: nat, k2: string)
    requires r.Reader? && r.frames != [] && r.counts != []
    ensures Added(Added(r, a, m, e, k), b, m2, e2, k2) == Added(r, a + b, m + m2, e + e2, k2)
  {
    assert r.frames[0].conf.children + a + b == r.frames[0].conf.children + (a + b);
  }

  lemma AddedNone(r: Reader)
    requires r.Reader? && r.frames != [] && r.counts != []
    ensures Added(r, [], 0, 0, r.key) == r
  {
    assert r.frames[0].conf.children + [] == r.frames[0].conf.children;
  }

  lemma {:induction false} GroupWithout(cs: seq<Config>, k: string, k2: string)
    ensures Group(Without(cs, k), k2) == if k2 == k then [] else Group(cs, k2)
  {
    if cs != [] {
      var c, rest := cs[0], Without(cs[1..], k);
      GroupWithout(cs[1..], k, k2);
      assert Without(cs, k) == if c.key == k then rest else [c] + rest by {
        assert [] + rest == rest;
      }
      assert ([c] + rest)[1..] == rest;
      hide Without;
      assert [] + Group(cs[1..], k2) == Group(cs[1..], k2);
    }
  }

  /** A value under a key in an object: it becomes the only child of that key, and the children of
      every other key stay, in their order. */
  lemma LeafReplaces(r: Reader, k: string, v: string, k2: string)
    requires InObject(r)
    ensures
      var read := Step(Step(r, Key(k)), Str(v));
      read.Reader? && read.frames != [] &&
      Group(read.frames[0].conf.children, k2) ==
        if k2 == k then [Config(k, v, [])] else Group(r.frames[0].conf.children, k2)
  {
    var cs, leaf := r.frames[0].conf.children, Config(k, v, []);
    GroupWithout(cs, k, k2);
    GroupAppend(Without(cs, k), leaf, k2);
  }

  lemma {:induction false} GroupAppend(cs: seq<Config>, c: Config, k: string)
    ensures Group(cs + [c], k) == Group(cs, k) + if c.key == k then [c] else []
  {
    if cs == [] {
      assert cs + [c] == [c] && [c][1..] == [];
    } else {
      assert (cs + [c])[1..] == cs[1..] + [c];
      GroupAppend(cs[1..], c, k);
    }
  }

  /** Where a value may be read: under its key in an object whose node does not have that key
      yet, or inside an array of that key. */
  ghost predicate Expects(r: Reader, inArray: bool, k: string) {
    if inArray then InArray(r, k)
    else InObject(r) && forall d :: d in r.frames[0].conf.children ==> d.key != k
  }

  /** Reading one written value adds its normal form, or fails when it is not tidy. */
  lemma {:induction false} RunValue(r: Reader, c: Config, inArray: bool) returns (k: string)
    requires c.key != "" && Keyed(c) && Expects(r, inArray, c.key)
    ensures Run(r, Emit(c, inArray)) == if Tidy(c) then Added(r, [Norm(c)], 1, 0, k) else Rejected
    decreases Weight(c), 0
  {
    var prefix := if inArray then [] else [Key(c.key)];
    var r1 := if inArray then r else r.(key := c.key);
    assert Run(r, prefix) == r1 by {
      RunOne(r, Key(c.key));
    }
    k := r1.key;
    if c.IsSimple() {
      RunConcat(r, prefix, [Str(c.value)]);
      RunOne(r1, Str(c.value));
      if !inArray {
        WithoutNothing(r.frames[0].conf.children, c.key);
      }
    } else {
      var body := EmitBody(c.children);
      RunConcat(r, prefix + [StartObject] + body, [EndObject]);
      RunConcat(r, prefix + [StartObject], body);
      RunConcat(r, prefix, [StartObject]);
      RunOne(r1, StartObject);
      var r2 := Step(r1, StartObject);
      var members, extra;
      k, members, extra := RunBody(r2, c.children);
      if Tidy(c) {
        RunOne(Run(r2, body), EndObject);
        ObjectClosed(r, r1, c.key, NormBody(c.children), members, extra, k);
      } else {
        RejectedStays([EndObject]);
      }
    }
  }

  lemma ObjectClosed(r: Reader, r1: Reader, key: string, cs: seq<Config>, members: nat, extra: nat, k: string)
    requires (InArray(r, key) && r1 == r) || (InObject(r) && r1 == r.(key := key))
    requires |cs| == members + extra
    ensures Step(r1, StartObject).Reader?
    ensures Step(Added(Step(r1, StartObject), cs, members, extra, k), EndObject) == Added(r, [Config(key, "", cs)], 1, 0, k)
  {
    assert [] + cs == cs;
  }

  /** Reading the members of one object: the normal form of its children, members and array
      elements adding up to the number of children. */
  lemma {:induction false} RunBody(r: Reader, cs: seq<Config>) returns (k: string, members: nat, extra: nat)
    requires AllKeyed(cs) && InObject(r) && r.frames[0].conf.children == []
    ensures Run(r, EmitBody(cs)) ==
      if Count(cs, "") <= 1 && AllTidy(cs) then Added(r, NormBody(cs), members, extra, k) else Rejected
    ensures Count(cs, "") <= 1 && AllTidy(cs) ==> |NormBody(cs)| == members + extra
    decreases WeightAll(cs), 3
  {
    hide Run, EmitEach, EmitArrays, NormEach, NormGroups, AllTidy, GroupsTidy, Count, Uniques, Repeated, Awaits;
    var us, ks := Uniques(cs, cs), Repeated(cs, cs);
    UniquesWeight(cs, cs);
    BodyStart(r, cs);
    RunConcat(r, EmitEach(us, false), EmitArrays(cs, ks));
    k := RunEach(r, us, false);
    members, extra := |NormEach(us)|, 0;
    BodyTidy(cs);
    if AllTidy(us) {
      var r1, k1 := Added(r, NormEach(us), |NormEach(us)|, 0, k), k;
      k, extra := RunArrays(r1, cs, ks);
      members := members + |ks|;
      AddedTwice(r, NormEach(us), |NormEach(us)|, 0, k1, NormGroups(cs, ks), |ks|, extra, k);
    } else {
      RejectedStays(EmitArrays(cs, ks));
    }
  }

  lemma BodyStart(r: Reader, cs: seq<Config>)
    requires AllKeyed(cs) && InObject(r) && r.frames[0].conf.children == []
    ensures AllKeyed(Uniques(cs, cs)) && Awaits(r, Uniques(cs, cs), false)
    ensures forall x :: x in Repeated(cs, cs) ==> Count(cs, x) > 0
  {
    UniquesIn(cs, cs);
    UniquesDistinct(cs, cs);
    RepeatedIn(cs, cs);
  }

  /** The groups that can be read: a key, and tidy elements. */
  ghost predicate GroupsTidy(cs: seq<Config>, ks: seq<string>) {
    forall k :: k in ks ==> GroupTidy(cs, k)
  }

  ghost predicate GroupTidy(cs: seq<Config>, k: string) {
    k != "" && AllTidy(Group(cs, k))
  }

  lemma BodyTidy(cs: seq<Config>)
    ensures Count(cs, "") <= 1 && AllTidy(cs) <==> AllTidy(Uniques(cs, cs)) && GroupsTidy(cs, Repeated(cs, cs))
  {
    UniquesIn(cs, cs);
    RepeatedIn(cs, cs);
    forall d | d in cs ensures d in Uniques(cs, cs) || (d.key in Repeated(cs, cs) && d in Group(cs, d.key)) {
      CountIn(cs, d.key);
      GroupIn(cs, d.key);
    }
    forall k, d | k in Repeated(cs, cs) && d in Group(cs, k) ensures d in cs {
      GroupIn(cs, k);
    }
  }

  lemma {:induction false} RunEach(r: Reader, cs: seq<Config>, inArray: bool) returns (k: string)
    requires AllKeyed(cs) && Awaits(r, cs, inArray)
    ensures Run(r, EmitEach(cs, inArray)) == if AllTidy(cs) then Added(r, NormEach(cs), |NormEach(cs)|, 0, k) else Rejected
    decreases WeightAll(cs), 1, |cs|
  {
    hide Emit, Tidy, Added;
    k := r.key;
    AddedNone(r);
    if cs != [] {
      var c, rest := cs[0], cs[1..];
      assert AllTidy(cs) <==> Tidy(c) && AllTidy(rest) by {
        assert cs == [c] + rest;
      }
      if c.IsEmpty() {
        EmptyIsTidy(c);
        AwaitsTail(r, cs, inArray);
        assert [] + EmitEach(rest, inArray) == EmitEach(rest, inArray) && [] + NormEach(rest) == NormEach(rest);
        k := RunEach(r, rest, inArray);
      } else {
        RunConcat(r, Emit(c, inArray), EmitEach(rest, inArray));
        assert KeyedChild(c);
        assert Expects(r, inArray, c.key);
        var k1 := RunValue(r, c, inArray);
        if Tidy(c) {
          var r1 := Added(r, [Norm(c)], 1, 0, k1);
          NormKey(c);
          AwaitsRest(r, cs, inArray, Norm(c), k1);
          k := RunRest(r, r1, c, k1, rest, inArray);
        } else {
          RejectedStays(EmitEach(rest, inArray));
        }
      }
    }
  }

  lemma EmptyIsTidy(c: Config)
    requires c.IsEmpty()
    ensures Tidy(c)
  {
  }

  lemma NormKey(c: Config)
    ensures Norm(c).key == c.key
  {
  }

  lemma {:induction false} RunRest(r: Reader, r1: Reader, c: Config, k1: string, rest: seq<Config>, inArray: bool) returns (k: string)
    requires r.Reader? && r.frames != [] && r.counts != [] && r1 == Added(r, [Norm(c)], 1, 0, k1)
    requires AllKeyed(rest) && Awaits(r1, rest, inArray)
    ensures Run(r1, EmitEach(rest, inArray)) ==
      if AllTidy(rest) then Added(r, [Norm(c)] + NormEach(rest), 1 + |NormEach(rest)|, 0, k) else Rejected
    decreases WeightAll(rest), 1, |rest| + 1
  {
    k := RunEach(r1, rest, inArray);
    if AllTidy(rest) {
      AddedTwice(r, [Norm(c)], 1, 0, k1, NormEach(rest), |NormEach(rest)|, 0, k);
    }
  }

  /** Where a run of values may be read. */
  ghost predicate Awaits(r: Reader, cs: seq<Config>, inArray: bool) {
    && r.Reader? && r.frames != [] && r.counts != []
    && (inArray ==> forall c :: c in cs ==> InArray(r, c.key))
    && (!inArray ==> InObject(r) && Fresh(r, cs))
  }

  lemma AwaitsTail(r: Reader, cs: seq<Config>, inArray: bool)
    requires Awaits(r, cs, inArray) && cs != []
    ensures Awaits(r, cs[1..], inArray)
  {
  }

  lemma AwaitsRest(r: Reader, cs: seq<Config>, inArray: bool, d: Config, k: string)
    requires Awaits(r, cs, inArray) && cs != [] && d.key == cs[0].key
    ensures Awaits(Added(r, [d], 1, 0, k), cs[1..], inArray)
  {
    if !inArray {
      forall c | c in cs[1..] ensures c.key != cs[0].key {
        var i :| 0 <= i < |cs| - 1 && cs[1..][i] == c;
        assert cs[0].key != cs[i + 1].key;
      }
    }
  }

  /** The keys of `cs` are distinct and new to the node being filled. */
  ghost predicate Fresh(r: Reader, cs: seq<Config>)
    requires r.Reader? && r.frames != []
  {
    && Distinct(cs)
    && (forall c, d :: c in cs && d in r.frames[0].conf.children ==> c.key != d.key)
  }

  lemma {:induction false} RunArrays(r: Reader, cs: seq<Config>, ks: seq<string>) returns (k: string, extra: nat)
    requires AllKeyed(cs) && InObject(r)
    requires forall x :: x in ks ==> Count(cs, x) > 0
    ensures Run(r, EmitArrays(cs, ks)) == if GroupsTidy(cs, ks) then Added(r, NormGroups(cs, ks), |ks|, extra, k) else Rejected
    ensures GroupsTidy(cs, ks) ==> |NormGroups(cs, ks)| == |ks| + extra
    decreases WeightAll(cs), 2, |ks|
  {
    k, extra := r.key, 0;
    AddedNone(r);
    if ks != [] {
      var k1, n := RunArray(r, cs, ks[0]);
      var g, rest := Group(cs, ks[0]), ks[1..];
      RunConcat(r, ArrayTokens(cs, ks[0]), EmitArrays(cs, rest));
      assert EmitArrays(cs, ks) == ArrayTokens(cs, ks[0]) + EmitArrays(cs, rest);
      GroupsTidyCons(cs, ks);
      if ks[0] != "" && AllTidy(g) {
        var r1 := Added(r, NormEach(g), 1, n, k1);
        k, extra := RunArrays(r1, cs, rest);
        AddedTwice(r, NormEach(g), 1, n, k1, NormGroups(cs, rest), |rest|, extra, k);
        extra := n + extra;
      } else {
        RejectedStays(EmitArrays(cs, rest));
      }
    }
  }

  lemma GroupsTidyCons(cs: seq<Config>, ks: seq<string>)
    requires ks != []
    ensures GroupsTidy(cs, ks) <==> GroupTidy(cs, ks[0]) && GroupsTidy(cs, ks[1..])
  {
    assert ks == [ks[0]] + ks[1..];
    assert forall k :: k in ks <==> k == ks[0] || k in ks[1..];
  }

  /** Leaving an array: the elements were counted by the parser, the array is one member. */
  lemma ArrayClosed(r: Reader, key: string, cs: seq<Config>, k: string)
    requires InObject(r) && key != "" && cs != []
    ensures var open := Step(r.(key := key), StartArray);
      InArray(open, key) &&
      Step(Added(open, cs, |cs|, 0, k), EndArray) == Added(r, cs, 1, |cs| - 1, k)
  {
  }

  function ArrayTokens(cs: seq<Config>, key: string): seq<Token> {
    [Key(key), StartArray] + EmitEach(Group(cs, key), true) + [EndArray]
  }

  /** One array: its elements become children, counted as one member. */
  lemma {:induction false} RunArray(r: Reader, cs: seq<Config>, key: string) returns (k: string, n: nat)
    requires AllKeyed(cs) && InObject(r) && Count(cs, key) > 0
    ensures Run(r, ArrayTokens(cs, key)) ==
      if key != "" && AllTidy(Group(cs, key)) then Added(r, NormEach(Group(cs, key)), 1, n, k) else Rejected
    ensures key != "" ==> |NormEach(Group(cs, key))| == 1 + n
    decreases WeightAll(cs), 2, 0
  {
    k, n := r.key, 0;
    var g := Group(cs, key);
    GroupWeight(cs, key);
    GroupIn(cs, key);
    var r1 := r.(key := key);
    var open := Step(r1, StartArray);
    RunConcat(r, [Key(key), StartArray] + EmitEach(g, true), [EndArray]);
    RunConcat(r, [Key(key), StartArray], EmitEach(g, true));
    assert [Key(key), StartArray] == [Key(key)] + [StartArray];
    RunConcat(r, [Key(key)], [StartArray]);
    RunOne(r, Key(key));
    RunOne(r1, StartArray);
    if key == "" {
      RejectedStays(EmitEach(g, true));
      RejectedStays([EndArray]);
    } else {
      NormEachSize(g);
      n := |NormEach(g)| - 1;
      k := RunEach(open, g, true);
      if AllTidy(g) {
        RunOne(Added(open, NormEach(g), |NormEach(g)|, 0, k), EndArray);
        ArrayClosed(r, key, NormEach(g), k);
      } else {
        RejectedStays([EndArray]);
      }
    }
  }
}
