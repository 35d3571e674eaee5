/**
  Which JSON texts the SAX reader accepts, and as what: every object text, whoever wrote it.
*/
module JsonRead {
  import opened ConfigTree
  import opened Json
  import opened JsonText

  // ----- what a text means

  /** The members in order: a leaf for a string, a node for an object, and for an array one of them for
      each element, all under its key. */
  function Nodes(ms: seq<Member>): seq<Config>
    decreases ms, 1
  {
    if ms == [] then [] else MemberNodes(ms[0]) + Nodes(ms[1..])
  }

  function MemberNodes(m: Member): seq<Config>
    decreases m, 0
  {
    match m.value
    case Array(es) => ElementNodes(m.key, es)
    case Text(t) => [Config(m.key, t, [])]
    case Object(ms) => [Config(m.key, "", Nodes(ms))]
  }

  function ElementNodes(key: string, es: seq<Value>): seq<Config>
    decreases es, 0
  {
    if es == [] then []
    else
      (match es[0]
       case Text(t) => [Config(key, t, [])]
       case Object(ms) => [Config(key, "", Nodes(ms))]
       case Array(_) => []) + ElementNodes(key, es[1..])
  }

  function Extra(ms: seq<Member>): nat {
    if ms == [] then 0
    else (if ms[0].value.Array? && ms[0].value.elements != [] then |ms[0].value.elements| - 1 else 0) + Extra(ms[1..])
  }

  /** Readable behind the children `cs`: no string under a key that is there already, no empty array,
      none without a key and none directly in another one. */
  predicate Good(cs: seq<Config>, ms: seq<Member>)
    decreases ms, 1
  {
    ms == [] || (GoodMember(cs, ms[0]) && Good(cs + MemberNodes(ms[0]), ms[1..]))
  }

  predicate GoodMember(cs: seq<Config>, m: Member)
    decreases m, 0
  {
    match m.value
    case Text(_) => forall d :: d in cs ==> d.key != m.key
    case Object(ms) => Good([], ms)
    case Array(es) => m.key != "" && es != [] && GoodElements(es)
  }

  predicate GoodElements(es: seq<Value>)
    decreases es, 0
  {
    es == [] || (GoodElement(es[0]) && GoodElements(es[1..]))
  }

  predicate GoodElement(e: Value)
    decreases e, 0
  {
    match e
    case Text(_) => true
    case Object(ms) => Good([], ms)
    case Array(_) => false
  }

  lemma {:induction false} ElementsCount(key: string, es: seq<Value>)
    requires GoodElements(es)
    ensures |ElementNodes(key, es)| == |es|
  {
    if es != [] {
      ElementsCount(key, es[1..]);
    }
  }

  // ----- the reader on any text

  /** Members read so far, those array elements that count, less the children there are. */
  function Missing(r: Reader): int
    requires r.Reader? && r.frames != [] && r.counts != []
  {
    r.counts[0] + r.frames[0].extra - |r.frames[0].conf.children|
  }

  /** In the same object as before. */
  ghost predicate Beside(r: Reader, v: Reader) {
    && InObject(r) && InObject(v)
    && |v.frames| == |r.frames| && v.frames[1..] == r.frames[1..] && v.head == r.head
    && v.counts[1..] == r.counts[1..] && v.counts[0] >= r.counts[0]
    && v.frames[0].conf.key == r.frames[0].conf.key && v.frames[0].conf.value == r.frames[0].conf.value
  }

  /** In an array that can no longer be closed. */
  ghost predicate Broken(v: Reader) { InObject(v) && v.counts[0] > 0 }

  function Kids(r: Reader): seq<Config>
    requires r.Reader? && r.frames != []
  {
    r.frames[0].conf.children
  }

  lemma AddedBeside(r: Reader, cs: seq<Config>, members: nat, extra: nat, k: string)
    requires InObject(r)
    ensures Beside(r, Added(r, cs, members, extra, k)) && Kids(Added(r, cs, members, extra, k)) == Kids(r) + cs
    ensures Missing(Added(r, cs, members, extra, k)) == Missing(r) + members + extra - |cs|
    ensures members > 0 ==> Broken(Added(r, cs, members, extra, k))
  {
  }

  /** Reading members: with all of them readable, their nodes are added; otherwise the reader gives up
      or some child is missing from now on. */
  lemma {:induction false} RunMembers(r: Reader, ms: seq<Member>) returns (k: string)
    requires InObject(r)
    ensures var v := Run(r, DerivedMembers(ms));
      if Good(Kids(r), ms) then v == Added(r, Nodes(ms), |ms|, Extra(ms), k) && |Nodes(ms)| == |ms| + Extra(ms)
      else v == Rejected || (Beside(r, v) && Missing(v) > Missing(r))
    decreases ms, 1
  {
    if ms == [] {
      k := r.key;
      AddedNone(r);
      return;
    }
    var m, rest := ms[0], ms[1..];
    var tokens := [Key(m.key)] + Derived(m.value);
    assert DerivedMembers(ms) == tokens + DerivedMembers(rest);
    RunConcat(r, tokens, DerivedMembers(rest));
    k := RunMember(r, m);
    var r1 := Run(r, tokens);
    if r1 == Rejected {
      RejectedStays(DerivedMembers(rest));
      return;
    }
    if GoodMember(Kids(r), m) {
      var x := if m.value.Array? then |m.value.elements| - 1 else 0;
      AddedBeside(r, MemberNodes(m), 1, x, k);
      var k1 := k;
      k := RunMembers(r1, rest);
      AddedTwice(r, MemberNodes(m), 1, x, k1, Nodes(rest), |rest|, Extra(rest), k);
    } else {
      k := RunMembers(r1, rest);
      AddedBeside(r1, Nodes(rest), |rest|, Extra(rest), k);
    }
  }

  lemma {:induction false} RunMember(r: Reader, m: Member) returns (k: string)
    requires InObject(r)
    ensures var v := Run(r, [Key(m.key)] + Derived(m.value));
      if GoodMember(Kids(r), m)
      then v == Added(r, MemberNodes(m), 1, if m.value.Array? then |m.value.elements| - 1 else 0, k)
        && |MemberNodes(m)| == 1 + if m.value.Array? then |m.value.elements| - 1 else 0
      else v == Rejected || (Beside(r, v) && Missing(v) > Missing(r))
    decreases m, 0
  {
    var r1 := r.(key := m.key);
    RunConcat(r, [Key(m.key)], Derived(m.value));
    RunOne(r, Key(m.key));
    k := m.key;
    match m.value {
      case Text(t) =>
        RunOne(r1, Str(t));
        LeafRead(r, m.key, t);
      case Object(ms) =>
        k := RunObject(r, r1, m.key, ms);
      case Array(es) =>
        k := RunArray(r, r1, m.key, es);
    }
  }

  lemma LeafRead(r: Reader, key: string, t: string)
    requires InObject(r)
    ensures var v := Step(r.(key := key), Str(t));
      if forall d :: d in Kids(r) ==> d.key != key then v == Added(r, [Config(key, t, [])], 1, 0, key)
      else Beside(r, v) && Missing(v) > Missing(r)
  {
    WithoutFewer(Kids(r), key);
    if forall d :: d in Kids(r) ==> d.key != key {
      WithoutNothing(Kids(r), key);
    }
  }

  lemma {:induction false} WithoutFewer(cs: seq<Config>, k: string)
    ensures |Without(cs, k)| <= |cs|
    ensures (exists d :: d in cs && d.key == k) ==> |Without(cs, k)| < |cs|
  {
    if cs != [] {
      WithoutFewer(cs[1..], k);
    }
  }

  /** An object, as a member or as an element: one node, or nothing more is read. */
  lemma {:induction false} RunObject(r: Reader, r1: Reader, key: string, ms: seq<Member>) returns (k: string)
    requires (InArray(r, key) && r1 == r) || (InObject(r) && r1 == r.(key := key))
    ensures Run(r1, Derived(Object(ms))) == if Good([], ms) then Added(r, [Config(key, "", Nodes(ms))], 1, 0, k) else Rejected
    decreases ms, 2
  {
    var body := DerivedMembers(ms);
    RunConcat(r1, [StartObject] + body, [EndObject]);
    RunConcat(r1, [StartObject], body);
    RunOne(r1, StartObject);
    var r2 := Step(r1, StartObject);
    k := RunMembers(r2, ms);
    var v := Run(r2, body);
    RunOne(v, EndObject);
    if Good([], ms) {
      ObjectClosed(r, r1, key, Nodes(ms), |ms|, Extra(ms), k);
    }
  }

  /** An array as a member. */
  lemma {:induction false} RunArray(r: Reader, r1: Reader, key: string, es: seq<Value>) returns (k: string)
    requires InObject(r) && r1 == r.(key := key)
    ensures var v := Run(r1, Derived(Array(es)));
      if key != "" && es != [] && GoodElements(es) then v == Added(r, ElementNodes(key, es), 1, |es| - 1, k) && |ElementNodes(key, es)| == |es|
      else v == Rejected || (Beside(r, v) && Missing(v) > Missing(r) && Broken(v))
    decreases es, 2
  {
    var body := DerivedElements(es);
    RunConcat(r1, [StartArray] + body, [EndArray]);
    RunConcat(r1, [StartArray], body);
    RunOne(r1, StartArray);
    k := "";
    if key == "" {
      RejectedStays(body);
      RejectedStays([EndArray]);
      return;
    }
    var r2 := Step(r1, StartArray);
    k := RunElements(r2, key, es);
    RunOne(Run(r2, body), EndArray);
    if GoodElements(es) {
      ElementsCount(key, es);
      if es != [] {
        ArrayClosed(r, key, ElementNodes(key, es), k);
      }
    }
  }

  lemma NoElements(key: string)
    ensures GoodElements([]) && ElementNodes(key, []) == []
  {
  }

  lemma NodesHead(key: string, es: seq<Value>)
    requires es != []
    ensures es[0].Text? ==> ElementNodes(key, es) == [Config(key, es[0].text, [])] + ElementNodes(key, es[1..])
    ensures es[0].Object? ==> ElementNodes(key, es) == [Config(key, "", Nodes(es[0].members))] + ElementNodes(key, es[1..])
  {
  }

  lemma TextElement(r: Reader, key: string, t: string)
    requires InArray(r, key)
    ensures Step(r, Str(t)) == Added(r, [Config(key, t, [])], 1, 0, r.key) && InArray(Step(r, Str(t)), key)
  {
  }

  lemma GoodHead(es: seq<Value>)
    requires es != []
    ensures GoodElements(es) <==> GoodElement(es[0]) && GoodElements(es[1..])
    ensures es[0].Text? ==> GoodElement(es[0])
    ensures es[0].Object? ==> (GoodElement(es[0]) <==> Good([], es[0].members))
    ensures es[0].Array? ==> !GoodElement(es[0])
  {
  }

  lemma {:induction false} RunElements(r: Reader, key: string, es: seq<Value>) returns (k: string)
    requires InArray(r, key)
    ensures var v := Run(r, DerivedElements(es));
      if GoodElements(es) then v == Added(r, ElementNodes(key, es), |es|, 0, k)
      else v == Rejected || Broken(v)
    decreases es, 1
  {
    hide GoodElements, GoodElement, Good, Nodes, Step, ElementNodes;
    if es == [] {
      k := r.key;
      AddedNone(r);
      NoElements(key);
      return;
    }
    var e, rest := es[0], es[1..];
    GoodHead(es);
    NodesHead(key, es);
    RunConcat(r, Derived(e), DerivedElements(rest));
    var r1 := Run(r, Derived(e));
    assert Run(r, DerivedElements(es)) == Run(r1, DerivedElements(rest));
    match e {
      case Text(t) =>
        RunOne(r, Str(t));
        TextElement(r, key, t);
        k := RunElements(r1, key, rest);
        AddedTwice(r, [Config(key, t, [])], 1, 0, r.key, ElementNodes(key, rest), |rest|, 0, k);
      case Object(ms) =>
        var k1 := RunObject(r, r, key, ms);
        if Good([], ms) {
          k := RunElements(r1, key, rest);
          AddedTwice(r, [Config(key, "", Nodes(ms))], 1, 0, k1, ElementNodes(key, rest), |rest|, 0, k);
        } else {
          RejectedStays(DerivedElements(rest));
          k := "";
        }
      case Array(inner) =>
        k := "";
        NestedArray(r, key, inner);
        if r1 == Rejected {
          RejectedStays(DerivedElements(rest));
        } else {
          BrokenStays(r1, rest);
        }
    }
  }

  /** An array directly in an array: the outer one loses its key. */
  lemma {:induction false} NestedArray(r: Reader, key: string, es: seq<Value>)
    requires InArray(r, key)
    ensures var v := Run(r, Derived(Array(es))); v == Rejected || Broken(v)
    decreases es, 2
  {
    var body := DerivedElements(es);
    RunConcat(r, [StartArray] + body, [EndArray]);
    RunConcat(r, [StartArray], body);
    RunOne(r, StartArray);
    if r.key == "" {
      RejectedStays(body);
      RejectedStays([EndArray]);
      return;
    }
    var r2 := Step(r, StartArray);
    var k := RunElements(r2, r.key, es);
    RunOne(Run(r2, body), EndArray);
    if GoodElements(es) {
      ElementsCount(r.key, es);
    }
  }

  lemma {:induction false} BrokenStays(r: Reader, es: seq<Value>)
    requires Broken(r)
    ensures var v := Run(r, DerivedElements(es)); v == Rejected || Broken(v)
    decreases es, 1
  {
    if es != [] {
      var e, rest := es[0], es[1..];
      RunConcat(r, Derived(e), DerivedElements(rest));
      var r1 := Run(r, Derived(e));
      match e {
        case Text(t) =>
          RunOne(r, Str(t));
        case Object(ms) =>
          var k := RunObject(r, r, r.key, ms);
          AddedBeside(r, [Config(r.key, "", Nodes(ms))], 1, 0, k);
        case Array(inner) =>
          var k := RunArray(r, r, r.key, inner);
          if r.key != "" && inner != [] && GoodElements(inner) {
            AddedBeside(r, ElementNodes(r.key, inner), 1, |inner| - 1, k);
          }
      }
      if r1 == Rejected {
        RejectedStays(DerivedElements(rest));
      } else {
        BrokenStays(r1, rest);
      }
    }
  }

  // ----- which texts are readable

  /** In every object no string under a key that an earlier member has, no empty array, no array without a
      key and none directly in another one. */
  ghost predicate Readable(ms: seq<Member>)
    decreases ms, 1
  {
    && (forall m :: m in ms ==> Fine(m))
    && (forall i, j :: 0 <= i < j < |ms| && ms[j].value.Text? ==> ms[i].key != ms[j].key)
  }

  ghost predicate Fine(m: Member)
    decreases m, 0
  {
    match m.value
    case Text(_) => true
    case Object(ms) => Readable(ms)
    case Array(es) => m.key != "" && es != [] && forall e :: e in es ==> FineElement(e)
  }

  ghost predicate FineElement(e: Value)
    decreases e, 0
  {
    match e
    case Text(_) => true
    case Object(ms) => Readable(ms)
    case Array(_) => false
  }

  ghost predicate Unused(cs: seq<Config>, ms: seq<Member>) {
    forall d, m :: d in cs && m in ms && m.value.Text? ==> d.key != m.key
  }

  lemma {:induction false} GoodIsReadable(cs: seq<Config>, ms: seq<Member>)
    ensures Good(cs, ms) <==> Readable(ms) && Unused(cs, ms)
    decreases ms, 1
  {
    if ms != [] {
      var m, rest := ms[0], ms[1..];
      MemberIsFine(cs, m);
      GoodIsReadable(cs + MemberNodes(m), rest);
      ReadableHead(ms);
      if Fine(m) {
        NodesOfKey(m);
        UnusedHead(cs, ms);
      }
    }
  }

  lemma ReadableHead(ms: seq<Member>)
    requires ms != []
    ensures Readable(ms) <==>
      Fine(ms[0]) && Readable(ms[1..]) && forall m :: m in ms[1..] && m.value.Text? ==> m.key != ms[0].key
  {
    hide Fine;
    var rest := ms[1..];
    assert forall j :: 0 <= j < |rest| ==> rest[j] == ms[j + 1];
    assert forall m :: m in ms <==> m == ms[0] || m in rest;
    if Readable(ms) {
      forall m | m in rest && m.value.Text? ensures m.key != ms[0].key {
        var j :| 0 <= j < |rest| && rest[j] == m;
        assert ms[j + 1] == m;
      }
      forall i, j | 0 <= i < j < |rest| && rest[j].value.Text? ensures rest[i].key != rest[j].key {
        assert ms[i + 1].key != ms[j + 1].key;
      }
    }
    if Fine(ms[0]) && Readable(rest) && forall m :: m in rest && m.value.Text? ==> m.key != ms[0].key {
      forall i, j | 0 <= i < j < |ms| && ms[j].value.Text? ensures ms[i].key != ms[j].key {
        assert ms[j] == rest[j - 1] && ms[j] in rest;
        if i > 0 {
          assert ms[i] == rest[i - 1];
        }
      }
    }
  }

  /** Every fine member leaves nodes, all under its key. */
  lemma NodesOfKey(m: Member)
    requires Fine(m)
    ensures MemberNodes(m) != [] && forall d :: d in MemberNodes(m) ==> d.key == m.key
  {
    if m.value.Array? {
      ElementsOfKey(m.key, m.value.elements);
    }
  }

  lemma {:induction false} ElementsOfKey(key: string, es: seq<Value>)
    requires forall e :: e in es ==> FineElement(e)
    ensures |ElementNodes(key, es)| == |es| && forall d :: d in ElementNodes(key, es) ==> d.key == key
  {
    if es != [] {
      assert es[0] in es;
      ElementsOfKey(key, es[1..]);
    }
  }

  lemma UnusedHead(cs: seq<Config>, ms: seq<Member>)
    requires ms != [] && MemberNodes(ms[0]) != [] && forall d :: d in MemberNodes(ms[0]) ==> d.key == ms[0].key
    ensures Unused(cs + MemberNodes(ms[0]), ms[1..]) && (ms[0].value.Text? ==> forall d :: d in cs ==> d.key != ms[0].key) <==>
      Unused(cs, ms) && forall m :: m in ms[1..] && m.value.Text? ==> m.key != ms[0].key
  {
    var head, rest := MemberNodes(ms[0]), ms[1..];
    assert head[0] in head;
    assert forall m :: m in ms <==> m == ms[0] || m in rest;
    assert forall d :: d in cs + head <==> d in cs || d in head;
  }

  lemma {:induction false} MemberIsFine(cs: seq<Config>, m: Member)
    ensures GoodMember(cs, m) <==> Fine(m) && (m.value.Text? ==> forall d :: d in cs ==> d.key != m.key)
    decreases m, 0
  {
    match m.value {
      case Text(_) =>
      case Object(ms) =>
        GoodIsReadable([], ms);
      case Array(es) =>
        ElementsAreFine(es);
    }
  }

  lemma FineIs(e: Value)
    ensures FineElement(e) <==> e.Text? || (e.Object? && Readable(e.members))
  {
  }

  lemma {:induction false} ElementsAreFine(es: seq<Value>)
    ensures GoodElements(es) <==> forall e :: e in es ==> FineElement(e)
    decreases es, 0
  {
    if es != [] {
      GoodHead(es);
      if es[0].Object? {
        GoodIsReadable([], es[0].members);
      }
      ElementsAreFine(es[1..]);
      FineIs(es[0]);
      assert forall e :: e in es <==> e == es[0] || e in es[1..];
    }
  }

  /** Any object text is read as what it means if it is readable, and rejected otherwise. */
  lemma ReadExactly(ms: seq<Member>) returns (k: string)
    ensures ReadJson(Derived(Object(ms))) == if Readable(ms) then Reader([], k, Config("", "", Nodes(ms)), []) else Rejected
  {
    var body := DerivedMembers(ms);
    RunConcat(FRESH, [StartObject] + body, [EndObject]);
    RunConcat(FRESH, [StartObject], body);
    RunOne(FRESH, StartObject);
    var start := Step(FRESH, StartObject);
    k := RunMembers(start, ms);
    GoodIsReadable([], ms);
    RunOne(Run(start, body), EndObject);
    assert [] + Nodes(ms) == Nodes(ms);
  }

  /** An empty array is JSON and is rejected. */
  lemma EmptyArrayIsRefused(key: string)
    ensures ReadJson(Derived(Object([Member(key, Array([]))]))) == Rejected
  {
    var ms := [Member(key, Array([]))];
    var k := ReadExactly(ms);
    assert ms[0] in ms && !Fine(ms[0]);
  }

  /** So is a second string under the same key, instead of replacing the first. */
  lemma SecondValueIsRefused(key: string, a: string, b: string)
    ensures ReadJson(Derived(Object([Member(key, Text(a)), Member(key, Text(b))]))) == Rejected
  {
    var ms := [Member(key, Text(a)), Member(key, Text(b))];
    var k := ReadExactly(ms);
    assert ms[0].key == ms[1].key;
  }
}
