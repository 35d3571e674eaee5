/**
  Program names "name@group.subgroup" and how close one address is to another.
*/
module Address {

  const AT := '@'
  const DOT := '.'

  /** The "any group" level: the largest unsigned value. */
  const ANY := 0xFFFF_FFFF

  // ----- paths as text

  function Find(s: string, c: char): (i: nat)
    ensures i <= |s|
    ensures forall j :: 0 <= j < i ==> s[j] != c
    ensures i < |s| ==> s[i] == c
  {
    if s == "" || s[0] == c then 0 else 1 + Find(s[1..], c)
  }

  /** The components between dots; of the empty text, none. */
  function Split(s: string): (cs: seq<string>)
    decreases |s|, 0
  {
    if s == "" then []
    else
      var i := Find(s, DOT);
      if i == |s| then [s] else [s[..i]] + SplitRest(s[i + 1..])
  }

  function SplitRest(s: string): (cs: seq<string>)
    ensures cs != []
    decreases |s|, 1
  {
    if s == "" then [""] else var cs := Split(s); if cs == [] then [""] else cs
  }

  function Join(cs: seq<string>): string {
    if cs == [] then "" else if |cs| == 1 then cs[0] else cs[0] + [DOT] + Join(cs[1..])
  }

  predicate Component(c: string) { c != "" && DOT !in c && AT !in c }

  ghost predicate Path(cs: seq<string>) {
    forall i :: 0 <= i < |cs| ==> Component(cs[i])
  }

  lemma FindIs(s: string, c: char, i: nat)
    requires i <= |s| && c !in s[..i] && (i < |s| ==> s[i] == c)
    ensures Find(s, c) == i
  {
    var k := Find(s, c);
    assert forall j :: 0 <= j < i ==> s[..i][j] == s[j] && s[j] in s[..i];
  }

  /** A path's text starts with its first component, up to the first dot or the end. */
  lemma FirstOfJoin(cs: seq<string>)
    requires cs != [] && Path(cs)
    ensures var s := Join(cs);
      Find(s, DOT) == |cs[0]| && s[..|cs[0]|] == cs[0] && (|cs[0]| == |s| <==> |cs| == 1)
    ensures |cs| > 1 ==> Join(cs)[|cs[0]| + 1..] == Join(cs[1..])
    ensures Join(cs) != ""
  {
    var s := Join(cs);
    assert s[..|cs[0]|] == cs[0];
    FindIs(s, DOT, |cs[0]|);
  }

  /** Splitting the text of a path gives the path back. */
  lemma {:induction false} SplitOfJoin(cs: seq<string>)
    requires Path(cs)
    ensures Split(Join(cs)) == cs
  {
    if cs != [] {
      FirstOfJoin(cs);
      if |cs| > 1 {
        SplitOfJoin(cs[1..]);
        FirstOfJoin(cs[1..]);
        assert [cs[0]] + cs[1..] == cs;
      } else {
        assert cs == [cs[0]];
      }
    }
  }

  /** Joining what was split gives any text back. */
  lemma {:induction false} JoinOfSplit(s: string)
    ensures Join(Split(s)) == s
    decreases |s|
  {
    if s != "" {
      var i := Find(s, DOT);
      if i < |s| {
        JoinOfSplit(s[i + 1..]);
        var rest := SplitRest(s[i + 1..]);
        assert Join(rest) == s[i + 1..];
        assert Split(s)[1..] == rest;
        assert s == s[..i] + [DOT] + s[i + 1..];
      }
    }
  }

  // ----- levels

  function Dots(s: string): nat {
    if s == "" then 0 else (if s[0] == DOT then 1 else 0) + Dots(s[1..])
  }

  /** `w` is the beginning of `s` up to a dot or the end. */
  predicate Leads(w: string, s: string) {
    |w| <= |s| && s[..|w|] == w && (|w| == |s| || s[|w|] == DOT)
  }

  lemma {:induction false} DotsConcat(a: string, b: string)
    ensures Dots(a + b) == Dots(a) + Dots(b)
  {
    if a == "" {
      assert a + b == b;
    } else {
      assert (a + b)[1..] == a[1..] + b;
      DotsConcat(a[1..], b);
    }
  }

  lemma {:induction false} NoDots(s: string)
    requires DOT !in s
    ensures Dots(s) == 0
  {
    if s != "" {
      NoDots(s[1..]);
    }
  }

  lemma {:induction false} DotsOfJoin(cs: seq<string>)
    requires Path(cs) && cs != []
    ensures Dots(Join(cs)) == |cs| - 1
  {
    NoDots(cs[0]);
    if |cs| > 1 {
      DotsOfJoin(cs[1..]);
      DotsConcat(cs[0] + [DOT], Join(cs[1..]));
      DotsConcat(cs[0], [DOT]);
      assert [DOT][1..] == "";
    }
  }

  /** One text leads another exactly when the one path is the beginning of the other; the dots left
      over are the difference in depth. */
  lemma {:induction false} LeadsIsPrefix(ws: seq<string>, cs: seq<string>)
    requires ws != [] && cs != [] && Path(ws) && Path(cs)
    ensures Leads(Join(ws), Join(cs)) <==> ws <= cs
    ensures ws <= cs ==> |Join(ws)| <= |Join(cs)| && Dots(Join(cs)[|Join(ws)|..]) == |cs| - |ws|
    decreases |ws|
  {
    hide Join, Dots;
    var w, s := Join(ws), Join(cs);
    FirstOfJoin(ws);
    FirstOfJoin(cs);
    if ws[0] != cs[0] {
      if Leads(w, s) {
        SameHead(ws, cs);
      }
    } else if |ws| == 1 {
      assert ws == [cs[0]];
      assert ws <= cs;
      DotsOfJoin(cs);
      assert s == w + s[|w|..];
      DotsConcat(w, s[|w|..]);
      NoDots(w);
    } else if |cs| == 1 {
      assert |w| > |s|;
    } else {
      LeadsIsPrefix(ws[1..], cs[1..]);
      var n := |ws[0]| + 1;
      assert w == ws[0] + [DOT] + w[n..] && s == cs[0] + [DOT] + s[n..];
      LeadsShift(ws[0] + [DOT], w[n..], s[n..]);
      assert ws == [ws[0]] + ws[1..] && cs == [cs[0]] + cs[1..];
      assert ws <= cs <==> ws[1..] <= cs[1..];
      if ws <= cs {
        assert s[|w|..] == s[n..][|w[n..]|..];
      }
    }
  }

  lemma LeadsShift(p: string, w: string, s: string)
    ensures Leads(p + w, p + s) <==> Leads(w, s)
  {
    if |w| <= |s| {
      assert (p + s)[..|p + w|] == p + s[..|w|];
      assert (p + w)[|p|..] == w && (p + s[..|w|])[|p|..] == s[..|w|];
    }
  }

  lemma SameHead(ws: seq<string>, cs: seq<string>)
    requires ws != [] && cs != [] && Path(ws) && Path(cs) && Leads(Join(ws), Join(cs))
    ensures ws[0] == cs[0]
  {
    var w, s := Join(ws), Join(cs);
    FirstOfJoin(ws);
    FirstOfJoin(cs);
    var n := |ws[0]|;
    assert s[..n] == w[..n] by {
      assert s[..n] == s[..|w|][..n];
    }
    assert n < |w| ==> w[n] == DOT && s[..|w|][n] == s[n];
    assert DOT !in s[..n];
    FindIs(s, DOT, n);
  }

  // ----- addresses

  /** The raw name of a program in a group; no components: no group. */
  function Full(name: string, cs: seq<string>): string {
    if cs == [] then name else name + [AT] + Join(cs)
  }

  /** CProgramName::sMCompare on raw names. */
  method Compare(what: string, with: string) returns (level: nat)
    ensures level == CompareSpec(what, with)
  {
    if with == "" || what == "" {
      return 0;
    }
    if |with| > |what| {
      return 0;
    }
    var i, isSep := 0, false;
    while i != |with| && with[i] == what[i]
      invariant i <= |with| && with[..i] == what[..i]
      invariant isSep <==> AT in with[..i]
      decreases |with| - i
    {
      if with[i] == AT {
        isSep := true;
      }
      i := i + 1;
    }
    if i != |with| {
      assert what[..|with|][i] == what[i];
      return 0;
    }
    assert with[..i] == with;
    var j := i;
    if j == |what| {
      assert what[..j] == what;
      return 1;
    } else if what[j] == AT {
      return ANY;
    } else if isSep && what[j] == DOT {
      level := 1;
      while j != |what|
        invariant i <= j <= |what| && level + Dots(what[j..]) == 1 + Dots(what[i..])
        decreases |what| - j
      {
        assert what[j..][1..] == what[j + 1..];
        if what[j] == DOT {
          level := level + 1;
        }
        j := j + 1;
      }
    } else {
      level := 0;
    }
  }

  function CompareSpec(what: string, with: string): nat {
    if with == "" || !(with <= what) then 0
    else if what == with then 1
    else if what[|with|] == AT then ANY
    else if AT in with && what[|with|] == DOT then 1 + Dots(what[|with|..])
    else 0
  }

  /** The group of a raw name; a text without '@' is a group itself. */
  function GroupPart(raw: string): string {
    if AT in raw then raw[Find(raw, AT) + 1..] else raw
  }

  function SubGroupSpec(what: string, with: string): nat {
    if with == "" then (if what == "" then 1 else ANY)
    else if what != "" && Leads(with, GroupPart(what)) then 1 + Dots(GroupPart(what)[|with|..])
    else 0
  }

  lemma DotsStep(s: string, i: nat)
    requires i <= |s|
    ensures Dots(s[i..]) == if i == |s| then 0 else (if s[i] == DOT then 1 else 0) + Dots(s[i + 1..])
  {
    assert i < |s| ==> s[i..][1..] == s[i + 1..];
  }

  lemma FindIn(s: string, c: char)
    ensures c in s <==> Find(s, c) < |s|
  {
  }

  lemma GroupFrom(what: string, from: nat)
    requires from == if AT in what then Find(what, AT) + 1 else 0
    ensures from <= |what| && GroupPart(what) == what[from..]
  {
    hide Find;
    FindIn(what, AT);
  }

  lemma LeadsFrom(s: string, from: nat, w: string)
    requires from <= |s|
    ensures Leads(w, s[from..]) <==> from + |w| <= |s| && s[from..from + |w|] == w && (from + |w| == |s| || s[from + |w|] == DOT)
    ensures from + |w| <= |s| ==> s[from..][|w|..] == s[from + |w|..]
  {
    if from + |w| <= |s| {
      assert s[from..][..|w|] == s[from..from + |w|];
    }
  }

  /** The specification in terms of the position at which the group begins. */
  lemma SubGroupFrom(what: string, with: string, from: nat)
    requires with != "" && what != "" && from == if AT in what then Find(what, AT) + 1 else 0
    ensures from <= |what|
    ensures SubGroupSpec(what, with) ==
      var end := from + |with|;
      if end <= |what| && what[from..end] == with && (end == |what| || what[end] == DOT) then 1 + Dots(what[end..]) else 0
  {
    hide Find, Dots, Leads, GroupPart;
    GroupFrom(what, from);
    LeadsFrom(what, from, with);
  }

  /** CProgramGroup::sMIsSubGroupOf. */
  method IsSubGroupOf(what: string, with: string) returns (level: nat)
    ensures level == SubGroupSpec(what, with)
  {
    hide Dots, Find, GroupPart, Leads;
    var pos := Find(what, AT);
    FindIn(what, AT);
    pos := if pos == |what| then 0 else pos + 1;
    if with == "" {
      return if what == "" then 1 else ANY;
    }
    if what == "" || |what| - pos < |with| {
      if what != "" {
        SubGroupFrom(what, with, pos);
      }
      return 0;
    }
    SubGroupFrom(what, with, pos);
    hide SubGroupSpec;
    var group := |what| - pos;
    var end := pos + |with|;
    if what[pos..end] == with && (group == |with| || what[end] == DOT) {
      level := 1;
      var i := end;
      while i < |what|
        invariant end <= i <= |what| && level + Dots(what[i..]) == 1 + Dots(what[end..])
      {
        DotsStep(what, i);
        if what[i] == DOT {
          level := level + 1;
        }
        i := i + 1;
      }
      DotsStep(what, i);
    } else {
      level := 0;
    }
  }

  lemma {:induction false} NoAtInJoin(cs: seq<string>)
    requires Path(cs)
    ensures AT !in Join(cs)
  {
    if |cs| > 1 {
      NoAtInJoin(cs[1..]);
    }
  }

  lemma PartsOfFull(name: string, cs: seq<string>)
    requires AT !in name && Path(cs)
    ensures Find(Full(name, cs), AT) == |name|
    ensures AT in Full(name, cs) <==> cs != []
    ensures cs != [] ==> GroupPart(Full(name, cs)) == Join(cs)
  {
    var s := Full(name, cs);
    assert s[..|name|] == name;
    FindIs(s, AT, |name|);
    if cs != [] {
      assert s[|name| + 1..] == Join(cs);
    }
  }

  /** With a group in both, comparing the names is comparing the groups. */
  lemma CompareGroups(n: string, c1: seq<string>, c2: seq<string>)
    requires AT !in n && Path(c1) && Path(c2) && c1 != [] && c2 != []
    ensures CompareSpec(Full(n, c1), Full(n, c2)) == SubGroupSpec(Full(n, c1), Join(c2))
  {
    PartsOfFull(n, c1);
    FirstOfJoin(c2);
    NoAtInJoin(c1);
    hide Join, CompareSpec;
    CompareShift(n + [AT], Join(c1), Join(c2));
  }

  lemma CompareShift(p: string, g1: string, g2: string)
    requires AT in p && AT !in g1 && g2 != ""
    ensures CompareSpec(p + g1, p + g2) == if Leads(g2, g1) then 1 + Dots(g1[|g2|..]) else 0
  {
    PrefixShift(p, g2, g1);
    if g2 <= g1 {
      AfterPrefix(p, g1, |g2|);
      if |g2| == |g1| {
        assert g1 == g2 && g1[|g2|..] == "";
      }
    }
  }

  lemma AfterPrefix(p: string, g: string, n: nat)
    requires n <= |g|
    ensures (p + g)[|p| + n..] == g[n..]
    ensures n < |g| ==> (p + g)[|p| + n] == g[n]
  {
  }

  lemma PrefixShift(p: string, w: string, s: string)
    ensures p + w <= p + s <==> w <= s
  {
    if p + w <= p + s {
      assert (p + w)[|p|..] == w && (p + s)[|p|..] == s;
      assert (p + s)[..|p + w|] == p + w;
      assert forall i :: 0 <= i < |w| ==> w[i] == (p + s)[..|p + w|][|p| + i];
    }
  }

  /** A beginning that reaches the '@' has the same name. */
  lemma SameName(what: string, with: string)
    requires with <= what && AT in with
    ensures Find(what, AT) == Find(with, AT) < |with| && what[..Find(what, AT)] == with[..Find(with, AT)]
  {
    var i := Find(with, AT);
    assert with[..i] == what[..i];
    FindIs(what, AT, i);
  }

  /** For names without '@' and paths of well-formed components: a finite level says that the names
      are equal and the one group lies in the other, and how much deeper. */
  lemma Levels(n1: string, c1: seq<string>, n2: string, c2: seq<string>)
    requires AT !in n1 && AT !in n2 && Path(c1) && Path(c2)
    requires Full(n2, c2) != ""
    ensures CompareSpec(Full(n1, c1), Full(n2, c2)) ==
      if n1 != n2 || !(c2 <= c1) then 0
      else if c2 == [] && c1 != [] then ANY
      else 1 + (|c1| - |c2|)
  {
    var what, with := Full(n1, c1), Full(n2, c2);
    PartsOfFull(n1, c1);
    PartsOfFull(n2, c2);
    assert what[..|n1|] == n1 && with[..|n2|] == n2;
    if c2 == [] {
      LevelsOfName(n1, c1, n2);
    } else if c1 == [] {
      if with <= what {
        SameName(what, with);
      }
    } else if n1 != n2 {
      if with <= what {
        SameName(what, with);
      }
    } else {
      CompareGroups(n1, c1, c2);
      LeadsIsPrefix(c2, c1);
      FirstOfJoin(c2);
    }
  }

  lemma LevelsOfName(n1: string, c1: seq<string>, n2: string)
    requires AT !in n1 && AT !in n2 && Path(c1) && n2 != ""
    ensures CompareSpec(Full(n1, c1), n2) == if n1 != n2 then 0 else if c1 == [] then 1 else ANY
  {
    var what := Full(n1, c1);
    PartsOfFull(n1, c1);
    assert what[..|n1|] == n1;
    if n2 <= what && what != n2 && what[|n2|] == AT {
      assert n2 == what[..|n2|];
      FindIs(what, AT, |n2|);
    }
  }

  /** Levels add up along a chain of addresses, less the one that every comparison starts from. */
  lemma LevelsAdd(n: string, c1: seq<string>, c2: seq<string>, c3: seq<string>)
    requires AT !in n && Path(c1) && Path(c2) && Path(c3) && c3 != [] && c3 <= c2 <= c1
    ensures CompareSpec(Full(n, c1), Full(n, c3)) + 1 == CompareSpec(Full(n, c1), Full(n, c2)) + CompareSpec(Full(n, c2), Full(n, c3))
  {
    assert c3 <= c1;
    FirstOfJoin(c2);
    FirstOfJoin(c3);
    Levels(n, c1, n, c3);
    Levels(n, c1, n, c2);
    Levels(n, c2, n, c3);
  }

  // ----- validity

  /** CProgramGroup::sMIsValid: no '@', no dot at either end or after another. */
  predicate GroupValid(s: string) {
    s == "" || (s[0] != DOT && s[|s| - 1] != DOT && !HasDoubleDot(s) && AT !in s)
  }

  predicate HasDoubleDot(s: string) {
    exists i :: 0 <= i < |s| - 1 && s[i] == DOT && s[i + 1] == DOT
  }

  /** Valid groups are exactly the texts of paths. */
  lemma {:induction false} GroupIsPath(s: string)
    ensures GroupValid(s) <==> Path(Split(s))
    decreases |s|
  {
    if s != "" {
      var i := Find(s, DOT);
      if i == |s| {
        NoDoubleDot(s);
        assert Split(s) == [s] && [s][0] == s;
      } else {
        var t := s[i + 1..];
        if t == "" {
          assert Split(s)[1] == "";
        } else {
          GroupIsPath(t);
          assert Split(s) == [s[..i]] + Split(t);
          hide Split;
          TailValid(s, i);
          AtInParts(s, i);
          PathCons(s[..i], Split(t));
        }
      }
    }
  }

  lemma NoDoubleDot(s: string)
    requires DOT !in s
    ensures !HasDoubleDot(s)
  {
  }

  lemma AtInParts(s: string, i: nat)
    requires i < |s| && s[i] == DOT
    ensures AT in s <==> AT in s[..i] || AT in s[i + 1..]
    ensures DOT in s[..i] <==> exists j :: 0 <= j < i && s[j] == DOT
  {
    assert s == s[..i] + [DOT] + s[i + 1..];
    assert AT in s <==> AT in s[..i] || AT in [DOT] || AT in s[i + 1..];
  }

  lemma PathCons(c: string, cs: seq<string>)
    ensures Path([c] + cs) <==> Component(c) && Path(cs)
  {
    var all := [c] + cs;
    assert all[0] == c && forall i :: 0 <= i < |cs| ==> all[i + 1] == cs[i];
  }

  lemma TailValid(s: string, i: nat)
    requires i == Find(s, DOT) < |s| - 1
    ensures var t := s[i + 1..]; s[0] != DOT && s[|s| - 1] != DOT && !HasDoubleDot(s) <==> i > 0 && t[0] != DOT && t[|t| - 1] != DOT && !HasDoubleDot(t)
  {
    var t := s[i + 1..];
    forall j | 0 <= j < |t| - 1 && t[j] == DOT && t[j + 1] == DOT ensures HasDoubleDot(s) {
      assert s[i + 1 + j] == DOT && s[i + 1 + j + 1] == DOT;
    }
    forall j | 0 <= j < |s| - 1 && s[j] == DOT && s[j + 1] == DOT ensures HasDoubleDot(t) || t[0] == DOT {
      if j > i {
        assert t[j - i - 1] == DOT && t[j - i - 1 + 1] == DOT;
      }
    }
  }

  lemma SplitWhole(s: string)
    ensures s == "" ==> Split(s) == []
    ensures s != "" ==> Split(s) == SplitRest(s[0..])
  {
    assert s[0..] == s;
  }

  lemma DropTwice(s: string, i: nat, j: nat)
    requires i + j <= |s|
    ensures s[i..][j..] == s[i + j..]
  {
  }

  lemma Regroup(r: seq<string>, c: string, cs: seq<string>)
    ensures r + ([c] + cs) == r + [c] + cs
  {
  }

  lemma SplitRestStep(s: string)
    ensures var i := Find(s, DOT); SplitRest(s) == if i == |s| then [s] else [s[..i]] + SplitRest(s[i + 1..])
  {
    if s != "" {
      var i := Find(s, DOT);
      hide Find;
      assert Split(s) == if i == |s| then [s] else [s[..i]] + SplitRest(s[i + 1..]);
    }
  }

  // ----- the group object

  class CProgramGroup {
    var FAddress: string

    constructor ()
      ensures FAddress == ""
    {
      FAddress := "";
    }

    /** MAddPath. */
    method MAddPath(name: string)
      modifies this
      ensures FAddress == if old(FAddress) == "" then name else if name == "" then old(FAddress) else old(FAddress) + [DOT] + name
      ensures Path(Split(old(FAddress))) && Component(name) ==> Split(FAddress) == Split(old(FAddress)) + [name]
    {
      if FAddress == "" {
        FAddress := name;
      } else if name != "" {
        FAddress := FAddress + [DOT] + name;
      }
      if Path(Split(old(FAddress))) && Component(name) {
        AddedPath(old(FAddress), name);
      }
    }

    /** MSet from components. */
    method MSet(groups: seq<string>)
      modifies this
      ensures Path(groups) ==> FAddress == Join(groups) && Split(FAddress) == groups && GroupValid(FAddress)
    {
      FAddress := "";
      var i := 0;
      while i != |groups|
        invariant i <= |groups|
        invariant Path(groups) ==> Split(FAddress) == groups[..i]
        decreases |groups| - i
      {
        MAddPath(groups[i]);
        assert groups[..i + 1] == groups[..i] + [groups[i]];
        i := i + 1;
      }
      assert groups[..i] == groups;
      JoinOfSplit(FAddress);
      GroupIsPath(FAddress);
    }

    /** MGetPath: one component after each dot. */
    method MGetPath() returns (r: seq<string>)
      ensures r == Split(FAddress)
    {
      hide Split, SplitRest, Find;
      var s := FAddress;
      r := [];
      SplitWhole(s);
      if s != "" {
        var begin := 0;
        while true
          invariant begin <= |s|
          invariant r + SplitRest(s[begin..]) == Split(s)
          decreases |s| - begin
        {
          var rest := s[begin..];
          var pos := Find(rest, DOT);
          SplitRestStep(rest);
          if pos == |rest| {
            r := r + [rest];
            return;
          }
          DropTwice(s, begin, pos + 1);
          Regroup(r, rest[..pos], SplitRest(rest[pos + 1..]));
          r := r + [rest[..pos]];
          begin := begin + pos + 1;
        }
      }
    }

    /** MRemoveLastPath. */
    method MRemoveLastPath()
      requires GroupValid(FAddress)
      modifies this
      ensures GroupValid(FAddress)
      ensures Split(FAddress) == if old(FAddress) == "" then [] else Split(old(FAddress))[..|Split(old(FAddress))| - 1]
    {
      ghost var cs := Split(FAddress);
      GroupIsPath(FAddress);
      JoinOfSplit(FAddress);
      var pos := LastDot(FAddress);
      if pos == -1 {
        FAddress := "";
      } else {
        FAddress := FAddress[..pos];
      }
      if cs != [] {
        LastRemoved(cs);
        GroupIsPath(FAddress);
      }
    }
  }

  function LastDot(s: string): (i: int)
    ensures -1 <= i < |s|
    ensures i >= 0 ==> s[i] == DOT
    ensures forall j :: i < j < |s| ==> s[j] != DOT
  {
    if s == "" then -1 else if s[|s| - 1] == DOT then |s| - 1 else LastDot(s[..|s| - 1])
  }

  lemma {:induction false} JoinAppend(cs: seq<string>, c: string)
    ensures Join(cs + [c]) == if cs == [] then c else Join(cs) + [DOT] + c
  {
    if cs == [] {
      assert cs + [c] == [c];
    } else {
      assert (cs + [c])[1..] == cs[1..] + [c];
      JoinAppend(cs[1..], c);
      if |cs| > 1 {
        assert cs[0] + [DOT] + (Join(cs[1..]) + [DOT] + c) == cs[0] + [DOT] + Join(cs[1..]) + [DOT] + c;
      }
    }
  }

  lemma AddedPath(s: string, name: string)
    requires Path(Split(s)) && Component(name)
    ensures Split(if s == "" then name else s + [DOT] + name) == Split(s) + [name]
  {
    JoinOfSplit(s);
    JoinAppend(Split(s), name);
    var cs := Split(s) + [name];
    SplitOfJoin(cs);
  }

  lemma {:induction false} LastDotIs(s: string, n: int)
    requires -1 <= n < |s| && (n >= 0 ==> s[n] == DOT) && forall j :: n < j < |s| ==> s[j] != DOT
    ensures LastDot(s) == n
  {
    if n < |s| - 1 {
      LastDotIs(s[..|s| - 1], n);
    }
  }

  lemma LastRemoved(cs: seq<string>)
    requires cs != [] && Path(cs)
    ensures var pos := LastDot(Join(cs)); Split(if pos == -1 then "" else Join(cs)[..pos]) == cs[..|cs| - 1]
    ensures Path(cs[..|cs| - 1])
  {
    hide Split, Join, LastDot;
    var init, last := cs[..|cs| - 1], cs[|cs| - 1];
    assert cs == init + [last];
    JoinAppend(init, last);
    SplitOfJoin(init);
    var s := Join(cs);
    if init == [] {
      LastDotIs(s, -1);
      SplitEmpty();
    } else {
      var n := |Join(init)|;
      assert s[..n] == Join(init) && s[n] == DOT && s[n + 1..] == last;
      forall j | n < j < |s| ensures s[j] != DOT {
        assert s[n + 1..][j - n - 1] in last;
      }
      LastDotIs(s, n);
    }
  }

  lemma SplitEmpty()
    ensures Split("") == []
  {
  }

  // ----- valid names

  predicate NameValid(raw: string) {
    if AT in raw then GroupPart(raw) != "" && GroupValid(GroupPart(raw))
    else raw == "" || raw[|raw| - 1] != DOT
  }

  /** The valid names with a group are the names in front of a path. */
  lemma ValidIsFull(raw: string) returns (name: string, cs: seq<string>)
    requires NameValid(raw) && AT in raw
    ensures AT !in name && Path(cs) && cs != [] && raw == Full(name, cs)
  {
    hide Split, GroupValid, Find, Join, Path, HasDoubleDot;
    var i := Find(raw, AT);
    name, cs := raw[..i], Split(GroupPart(raw));
    GroupIsPath(GroupPart(raw));
    JoinOfSplit(GroupPart(raw));
    JoinEmpty();
    ThreeParts(raw, i);
  }

  /** And every name in front of a path is valid. */
  lemma FullIsValid(name: string, cs: seq<string>)
    requires AT !in name && Path(cs) && cs != []
    ensures NameValid(Full(name, cs))
  {
    PartsOfFull(name, cs);
    FirstOfJoin(cs);
    SplitOfJoin(cs);
    GroupIsPath(Join(cs));
  }

  lemma JoinEmpty()
    ensures Join([]) == ""
  {
  }

  lemma ThreeParts(s: string, i: nat)
    requires i < |s|
    ensures s == s[..i] + [s[i]] + s[i + 1..]
  {
  }

  /** After the '@' at k, up to i: no other '@', no leading or double dot; `prev` is the last dot. */
  ghost predicate GroupSoFar(raw: string, k: nat, i: nat, prev: int) {
    && k < i <= |raw| && raw[k] == AT
    && (forall j :: k < j < i ==> raw[j] != AT)
    && (k + 1 < |raw| ==> raw[k + 1] != DOT)
    && (forall j :: k < j < i - 1 && raw[j] == DOT ==> raw[j + 1] != DOT)
    && (forall j :: k < j < i && raw[j] == DOT ==> j <= prev)
    && (prev == -1 || (k < prev < i && raw[prev] == DOT))
  }

  lemma PlainNames(raw: string)
    ensures AT !in raw ==> (NameValid(raw) <==> raw == "" || raw[|raw| - 1] != DOT)
  {
  }

  /** CProgramName::sMIsValid. */
  method NameIsValid(raw: string) returns (r: bool)
    ensures r <==> NameValid(raw)
    ensures AT !in raw ==> (r <==> raw == "" || raw[|raw| - 1] != DOT)
  {
    PlainNames(raw);
    hide NameValid, GroupPart, Find;
    GroupOfRaw(raw);
    if raw == "" {
      return true;
    }
    var last := raw[|raw| - 1];
    if last == DOT || last == AT || (raw[0] == AT && |raw| == 1) || (raw[0] == AT && raw[1] == DOT) {
      return false;
    }
    var i, isSep, prev := 0, false, -1;
    ghost var k := Find(raw, AT);
    while i != |raw|
      invariant i <= |raw|
      invariant isSep <==> k < i
      invariant isSep ==> GroupSoFar(raw, k, i, prev)
      invariant !isSep ==> prev == -1
      decreases |raw| - i
    {
      if raw[i] == AT {
        if isSep {
          return false;
        }
        isSep := true;
        assert i == k;
        if raw[i + 1] == DOT {
          return false;
        }
      } else if raw[i] == DOT {
        if isSep {
          if i - prev == 1 {
            return false;
          }
          prev := i;
        }
      }
      i := i + 1;
    }
    r := true;
  }

  /** What a valid group asks of the raw name, place by place. */
  lemma GroupOfRaw(raw: string)
    ensures raw == "" ==> NameValid(raw)
    ensures raw != "" && Find(raw, AT) == |raw| ==> (NameValid(raw) <==> raw[|raw| - 1] != DOT)
    ensures
      var k := Find(raw, AT);
      k < |raw| ==> (NameValid(raw) <==>
        (k + 1 < |raw| && raw[k + 1] != DOT && raw[|raw| - 1] != DOT
        && (forall j :: k < j < |raw| ==> raw[j] != AT)
        && (forall j :: k < j < |raw| - 1 && raw[j] == DOT ==> raw[j + 1] != DOT)))
  {
    var k := Find(raw, AT);
    hide Find;
    if k < |raw| {
      GroupPlaces(raw, k, GroupPart(raw));
    }
  }

  lemma GroupPlaces(raw: string, k: nat, g: string)
    requires k < |raw| && g == raw[k + 1..]
    ensures AT in g <==> exists j :: k < j < |raw| && raw[j] == AT
    ensures HasDoubleDot(g) <==> exists j :: k < j < |raw| - 1 && raw[j] == DOT && raw[j + 1] == DOT
    ensures g != "" ==> g[0] == raw[k + 1] && g[|g| - 1] == raw[|raw| - 1]
  {
    assert forall m :: 0 <= m < |g| ==> g[m] == raw[k + 1 + m];
    if m :| 0 <= m < |g| && g[m] == AT {
      assert raw[k + 1 + m] == AT;
    }
    if j :| k < j < |raw| && raw[j] == AT {
      assert g[j - k - 1] == AT;
    }
    if m :| 0 <= m < |g| - 1 && g[m] == DOT && g[m + 1] == DOT {
      assert raw[k + 1 + m] == DOT && raw[k + 1 + m + 1] == DOT;
    }
    if j :| k < j < |raw| - 1 && raw[j] == DOT && raw[j + 1] == DOT {
      assert g[j - k - 1] == DOT && g[j - k - 1 + 1] == DOT;
    }
  }
}
