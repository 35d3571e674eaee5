/**
  What write_json_impl writes is JSON: a grammar by derivation trees, what such a tree says about a
  configuration, and that every text written has one.
*/
module JsonText {
  import opened ConfigTree
  import opened NormalForm
  import opened Json

  // ----- the grammar: section 2 of RFC 8259, with strings as the only scalars

  datatype Value = Text(text: string) | Object(members: seq<Member>) | Array(elements: seq<Value>)

  datatype Member = Member(key: string, value: Value)

  function Derived(v: Value): seq<Token> {
    match v
    case Text(t) => [Str(t)]
    case Object(ms) => [StartObject] + DerivedMembers(ms) + [EndObject]
    case Array(es) => [StartArray] + DerivedElements(es) + [EndArray]
  }

  function DerivedMembers(ms: seq<Member>): seq<Token> {
    if ms == [] then [] else [Key(ms[0].key)] + Derived(ms[0].value) + DerivedMembers(ms[1..])
  }

  function DerivedElements(es: seq<Value>): seq<Token> {
    if es == [] then [] else Derived(es[0]) + DerivedElements(es[1..])
  }

  // ----- what a value says

  /** A leaf is its text, any other node an object of what it holds; nothing else of it is written. */
  ghost predicate Says(v: Value, c: Config)
    decreases v, 0
  {
    match v
    case Text(t) => c.IsSimple() && t == c.value
    case Object(ms) => !c.IsSimple() && SaysBody(ms, c.children)
    case Array(_) => false
  }

  /** No key twice; an array for a key that several children have, with those that are not wholly
      empty in their order; the child itself for a key that one child has, unless it is wholly empty;
      and no other key. */
  ghost predicate SaysBody(ms: seq<Member>, cs: seq<Config>)
    decreases ms, 1
  {
    && (forall i, j :: 0 <= i < j < |ms| ==> ms[i].key != ms[j].key)
    && (forall m :: m in ms ==> SaysMember(m, cs))
    && (forall d :: d in cs && (Count(cs, d.key) > 1 || !d.IsEmpty()) ==> exists m :: m in ms && m.key == d.key)
  }

  ghost predicate SaysMember(m: Member, cs: seq<Config>)
    decreases m, 0
  {
    if Count(cs, m.key) > 1 then m.value.Array? && SaysEach(m.value.elements, Group(cs, m.key))
    else exists d :: d in cs && d.key == m.key && !d.IsEmpty() && Says(m.value, d)
  }

  ghost predicate SaysEach(es: seq<Value>, cs: seq<Config>)
    decreases es, |cs|
  {
    if cs == [] then es == []
    else if cs[0].IsEmpty() then SaysEach(es, cs[1..])
    else es != [] && Says(es[0], cs[0]) && SaysEach(es[1..], cs[1..])
  }

  // ----- what the writer writes has a derivation

  lemma {:induction false} MembersConcat(a: seq<Member>, b: seq<Member>)
    ensures DerivedMembers(a + b) == DerivedMembers(a) + DerivedMembers(b)
  {
    if a == [] {
      assert a + b == b;
    } else {
      assert (a + b)[1..] == a[1..] + b;
      MembersConcat(a[1..], b);
    }
  }

  /** A node under a key, or an element of an array. */
  lemma {:induction false} NodeSays(c: Config, inArray: bool) returns (v: Value)
    requires KeyedChild(c) && !c.IsEmpty()
    ensures Emit(c, inArray) == (if inArray then [] else [Key(c.key)]) + Derived(v)
    ensures Says(v, c)
    decreases Weight(c), 0
  {
    if c.IsSimple() {
      v := Text(c.value);
    } else {
      var ms := BodySays(c.children);
      v := Object(ms);
    }
  }

  lemma {:induction false} BodySays(cs: seq<Config>) returns (ms: seq<Member>)
    requires AllKeyed(cs)
    ensures EmitBody(cs) == DerivedMembers(ms) && SaysBody(ms, cs)
    decreases WeightAll(cs), 3
  {
    UniquesWeight(cs, cs);
    UniquesIn(cs, cs);
    RepeatedIn(cs, cs);
    RepeatedOrdered(cs, cs);
    UniquesDistinct(cs, cs);
    var a := UniquesSay(Uniques(cs, cs));
    var b := ArraysSay(cs, Repeated(cs, cs));
    ms := a + b;
    MembersConcat(a, b);
    PartsSay(cs, a, b);
  }

  lemma {:induction false} UniquesSay(us: seq<Config>) returns (ms: seq<Member>)
    requires AllKeyed(us) && Distinct(us)
    ensures EmitEach(us, false) == DerivedMembers(ms) && SaysEachKey(ms, us)
    decreases WeightAll(us), 1, |us|
  {
    if us == [] {
      return [];
    }
    DistinctTail(us);
    var rest := UniquesSay(us[1..]);
    if us[0].IsEmpty() {
      ms := rest;
      EmptyAdds(rest, us);
    } else {
      var v := NodeSays(us[0], false);
      var m := Member(us[0].key, v);
      ms := [m] + rest;
      assert ms[1..] == rest;
      MemberAdds(m, rest, us);
    }
  }

  lemma DistinctTail(us: seq<Config>)
    requires Distinct(us) && us != []
    ensures Distinct(us[1..]) && forall d :: d in us[1..] ==> d.key != us[0].key
  {
    forall i, j | 0 <= i < j < |us[1..]| ensures us[1..][i].key != us[1..][j].key {
      assert us[i + 1].key != us[j + 1].key;
    }
    forall d | d in us[1..] ensures d.key != us[0].key {
      var x :| 0 <= x < |us[1..]| && us[1..][x] == d;
      assert us[0].key != us[x + 1].key;
    }
  }

  lemma EmptyAdds(rest: seq<Member>, us: seq<Config>)
    requires us != [] && us[0].IsEmpty() && SaysEachKey(rest, us[1..])
    ensures SaysEachKey(rest, us)
  {
    hide Says;
    forall x | x in rest ensures SaysOne(x, us) {
      assert SaysOne(x, us[1..]);
      var d :| d in us[1..] && d.key == x.key && !d.IsEmpty() && Says(x.value, d);
      assert d in us;
    }
    assert forall d :: d in us <==> d == us[0] || d in us[1..];
  }

  lemma MemberAdds(m: Member, rest: seq<Member>, us: seq<Config>)
    requires us != [] && !us[0].IsEmpty() && SaysEachKey(rest, us[1..]) && m.key == us[0].key && Says(m.value, us[0])
    requires forall d :: d in us[1..] ==> d.key != us[0].key
    ensures SaysEachKey([m] + rest, us)
  {
    hide Says;
    var ms := [m] + rest;
    assert forall d :: d in us ==> d == us[0] || d in us[1..];
    forall x | x in ms ensures SaysOne(x, us) {
      if x != m {
        assert x in rest && SaysOne(x, us[1..]);
        var d :| d in us[1..] && d.key == x.key && !d.IsEmpty() && Says(x.value, d);
        assert d in us;
      }
    }
    forall d | d in us && !d.IsEmpty() ensures exists x :: x in ms && x.key == d.key {
      if d == us[0] {
        assert m in ms;
      } else {
        var x :| x in rest && x.key == d.key;
        assert x in ms;
      }
    }
    forall j | 0 <= j < |rest| ensures rest[j].key != m.key {
      assert SaysOne(rest[j], us[1..]);
    }
    forall i, j | 0 <= i < j < |ms| ensures ms[i].key != ms[j].key {
      assert ms[j] == rest[j - 1];
      if i > 0 {
        assert ms[i] == rest[i - 1];
      }
    }
  }

  /** One member for each node that is not wholly empty. */
  ghost predicate SaysEachKey(ms: seq<Member>, us: seq<Config>) {
    && (forall i, j :: 0 <= i < j < |ms| ==> ms[i].key != ms[j].key)
    && (forall m :: m in ms ==> SaysOne(m, us))
    && (forall d :: d in us && !d.IsEmpty() ==> exists m :: m in ms && m.key == d.key)
  }

  ghost predicate SaysOne(m: Member, us: seq<Config>) {
    exists d :: d in us && d.key == m.key && !d.IsEmpty() && Says(m.value, d)
  }

  lemma {:induction false} ElementsSay(cs: seq<Config>) returns (es: seq<Value>)
    requires AllKeyed(cs)
    ensures EmitEach(cs, true) == DerivedElements(es) && SaysEach(es, cs)
    decreases WeightAll(cs), 1, |cs|
  {
    hide Says, SaysEach, Emit, KeyedChild, Derived;
    if cs == [] {
      NothingSays();
      return [];
    }
    var rest := ElementsSay(cs[1..]);
    if cs[0].IsEmpty() {
      es := rest;
      EmptySays(es, cs);
    } else {
      var v := NodeSays(cs[0], true);
      es := [v] + rest;
      assert es[1..] == rest;
      ElementSays(v, rest, cs);
    }
  }

  lemma NothingSays()
    ensures SaysEach([], [])
  {
  }

  lemma EmptySays(es: seq<Value>, cs: seq<Config>)
    requires cs != [] && cs[0].IsEmpty() && SaysEach(es, cs[1..])
    ensures SaysEach(es, cs)
  {
  }

  lemma ElementSays(v: Value, rest: seq<Value>, cs: seq<Config>)
    requires cs != [] && !cs[0].IsEmpty() && Says(v, cs[0]) && SaysEach(rest, cs[1..])
    ensures SaysEach([v] + rest, cs)
  {
    hide Says;
    assert ([v] + rest)[1..] == rest;
  }

  lemma {:induction false} ArraysSay(cs: seq<Config>, ks: seq<string>) returns (ms: seq<Member>)
    requires AllKeyed(cs) && Ordered(ks)
    ensures EmitArrays(cs, ks) == DerivedMembers(ms) && SaysArrays(ms, cs, ks)
    decreases WeightAll(cs), 2, |ks|
  {
    hide Says, SaysEach, Group, EmitEach;
    if ks == [] {
      return [];
    }
    GroupWeight(cs, ks[0]);
    GroupIn(cs, ks[0]);
    var es := ElementsSay(Group(cs, ks[0]));
    var rest := ArraysSay(cs, ks[1..]);
    var m := Member(ks[0], Array(es));
    ms := [m] + rest;
    assert ms[1..] == rest;
    ArrayAdds(cs, ks, m, rest);
  }

  lemma ArrayAdds(cs: seq<Config>, ks: seq<string>, m: Member, rest: seq<Member>)
    requires ks != [] && Ordered(ks) && SaysArrays(rest, cs, ks[1..])
    requires m.key == ks[0] && m.value.Array? && SaysEach(m.value.elements, Group(cs, m.key))
    ensures SaysArrays([m] + rest, cs, ks)
  {
    hide Says, SaysEach, Group;
    var ms := [m] + rest;
    LessIrreflexive(ks[0]);
    forall i | 0 <= i < |ms| ensures ms[i].key == ks[i] && (i > 0 ==> ms[i].key != m.key) {
      if i > 0 {
        assert ms[i] == rest[i - 1] && rest[i - 1].key == ks[1..][i - 1];
      }
    }
    forall i, j | 0 <= i < j < |ms| ensures ms[i].key != ms[j].key {
      assert ms[j] == rest[j - 1];
      if i > 0 {
        assert ms[i] == rest[i - 1];
      }
    }
    assert forall x :: x in ms ==> x == m || x in rest;
  }

  /** One array for each of these keys. */
  ghost predicate SaysArrays(ms: seq<Member>, cs: seq<Config>, ks: seq<string>) {
    && |ms| == |ks| && (forall i :: 0 <= i < |ms| ==> ms[i].key == ks[i])
    && (forall i, j :: 0 <= i < j < |ms| ==> ms[i].key != ms[j].key)
    && (forall m :: m in ms ==> m.value.Array? && SaysEach(m.value.elements, Group(cs, m.key)))
  }

  lemma PartsSay(cs: seq<Config>, a: seq<Member>, b: seq<Member>)
    requires SaysEachKey(a, Uniques(cs, cs)) && SaysArrays(b, cs, Repeated(cs, cs))
    ensures SaysBody(a + b, cs)
  {
    hide Says, SaysEach, SaysMember, SaysEachKey, SaysArrays;
    UniquesPart(cs, a);
    ArraysPart(cs, b);
    CountsIn(cs);
    var ms := a + b;
    assert forall m :: m in ms <==> m in a || m in b;
    forall i, j | 0 <= i < j < |ms| ensures ms[i].key != ms[j].key {
      if i < |a| <= j {
        assert ms[i] in a && ms[j] in b;
      } else if j < |a| {
        assert a[i].key != a[j].key;
      } else {
        assert b[i - |a|].key != b[j - |a|].key;
      }
    }
  }

  lemma UniquesPart(cs: seq<Config>, a: seq<Member>)
    requires SaysEachKey(a, Uniques(cs, cs))
    ensures forall i, j :: 0 <= i < j < |a| ==> a[i].key != a[j].key
    ensures forall m :: m in a ==> Count(cs, m.key) == 1 && SaysMember(m, cs)
    ensures forall d :: d in cs && Count(cs, d.key) == 1 && !d.IsEmpty() ==> exists m :: m in a && m.key == d.key
  {
    hide Says, SaysEach;
    UniquesIn(cs, cs);
  }

  lemma ArraysPart(cs: seq<Config>, b: seq<Member>)
    requires SaysArrays(b, cs, Repeated(cs, cs))
    ensures forall i, j :: 0 <= i < j < |b| ==> b[i].key != b[j].key
    ensures forall m :: m in b ==> Count(cs, m.key) > 1 && SaysMember(m, cs)
    ensures forall d :: d in cs && Count(cs, d.key) > 1 ==> exists m :: m in b && m.key == d.key
  {
    hide Says, SaysEach;
    RepeatedIn(cs, cs);
    forall m | m in b ensures Count(cs, m.key) > 1 {
      var i :| 0 <= i < |b| && b[i] == m;
      assert m.key in Repeated(cs, cs);
    }
    forall d | d in cs && Count(cs, d.key) > 1 ensures exists m :: m in b && m.key == d.key {
      var i :| 0 <= i < |b| && Repeated(cs, cs)[i] == d.key;
      assert b[i] in b;
    }
  }

  lemma CountsIn(cs: seq<Config>)
    ensures forall d :: d in cs ==> Count(cs, d.key) > 0
  {
    forall d | d in cs ensures Count(cs, d.key) > 0 {
      CountIn(cs, d.key);
    }
  }

  /** The text of a configuration is one JSON object that says what the configuration holds: the root
      itself as its only member, or, for a root without a key, the root's children as its members. */
  lemma WrittenIsJson(c: Config) returns (ms: seq<Member>)
    requires Keyed(c)
    ensures WriteJson(c) == Derived(Object(ms))
    ensures if c.IsEmpty() then ms == []
      else if c.key == "" then SaysBody(ms, c.children)
      else |ms| == 1 && ms[0].key == c.key && Says(ms[0].value, c)
  {
    if c.IsEmpty() {
      ms := [];
    } else if c.key == "" {
      ms := BodySays(c.children);
    } else {
      var v := NodeSays(c, false);
      ms := [Member(c.key, v)];
      assert ms[1..] == [] && DerivedMembers([]) == [];
    }
  }
}
