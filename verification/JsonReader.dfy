/**
  CJsonReader as the object the parser calls back, and the parse of a whole token stream.
*/
module JsonReader {
  import opened ConfigTree
  import opened Json

  class CJsonReader {
    var FHead: Config
    var FKey: string
    var FStack: seq<Frame>   // innermost first

    /** The reader together with the counts the parser keeps. */
    ghost function View(counts: seq<nat>): Reader
      reads this
    {
      Reader(FStack, FKey, FHead, counts)
    }

    /** The callback ended with `ok` and did what `t` asks of the state `before`. */
    ghost predicate Did(before: Reader, t: Token, ok: bool, counts: seq<nat>)
      reads this
    {
      Step(before, t) == if ok then View(counts) else Rejected
    }

    constructor (aTo: Config)
      ensures FHead == aTo && FKey == "" && FStack == []
    {
      FHead, FKey, FStack := aTo, "", [];
    }

    method MAddLeaf(aVal: string, ghost counts: seq<nat>) returns (ok: bool)
      modifies this
      ensures Did(old(View(counts)), Str(aVal), ok, Bump(counts))
    {
      if FStack == [] {
        return false;
      }
      var top := FStack[0];
      if top.arrayKey != "" {
        top := Hang(top, Config(top.arrayKey, aVal, []));
        top := top.(length := top.length + 1);
      } else {
        top := top.(conf := SetChild(top.conf, FKey, aVal));
      }
      FStack := FStack[0 := top];
      ok := true;
    }

    method StartObject(ghost counts: seq<nat>)
      modifies this
      ensures Did(old(View(counts)), Token.StartObject, true, [0] + counts)
    {
      if FStack == [] {
        FStack := [Frame(FHead, "", 0, 0)];
        return;
      }
      var top := FStack[0];
      if top.arrayKey != "" {
        FStack := [Frame(Config(top.arrayKey, "", []), "", 0, 0), top.(length := top.length + 1)] + FStack[1..];
      } else {
        FStack := [Frame(Config(FKey, "", []), "", 0, 0)] + FStack;
      }
    }

    method Key(str: string, ghost counts: seq<nat>)
      modifies this
      ensures Did(old(View(counts)), Token.Key(str), true, counts)
    {
      FKey := str;
    }

    method EndObject(memberCount: nat, ghost counts: seq<nat>) returns (ok: bool)
      requires FStack != [] && counts != [] && counts[0] == memberCount
      modifies this
      ensures Did(old(View(counts)), Token.EndObject, ok, Bump(counts[1..]))
    {
      var top := FStack[0];
      if |top.conf.children| != memberCount + top.extra {
        return false;
      }
      if |FStack| == 1 {
        FHead, FStack := top.conf, [];
      } else {
        FStack := [Hang(FStack[1], top.conf)] + FStack[2..];
      }
      ok := true;
    }

    method StartArray(ghost counts: seq<nat>) returns (ok: bool)
      modifies this
      ensures Did(old(View(counts)), Token.StartArray, ok, [0] + counts)
    {
      if FStack == [] || FKey == "" {
        return false;
      }
      FStack := FStack[0 := FStack[0].(arrayKey := FKey, length := 0)];
      ok := true;
    }

    method EndArray(elementCount: nat, ghost counts: seq<nat>) returns (ok: bool)
      requires FStack != [] && counts != [] && counts[0] == elementCount
      modifies this
      ensures Did(old(View(counts)), Token.EndArray, ok, Bump(counts[1..]))
    {
      var top := FStack[0];
      if top.length != elementCount {
        return false;
      }
      var more := if top.length > 0 then top.length - 1 else 0;
      FStack := FStack[0 := top.(arrayKey := "", extra := top.extra + more, length := 0)];
      ok := true;
    }

    /** The parser hands over the tokens one by one, counting members and elements; it stops at the
        first failed check, or at an end with nothing open. */
    method MParse(ts: seq<Token>) returns (ok: bool)
      requires FStack == []
      modifies this
      ensures old(View([])) == FRESH && ok ==> ReadJson(ts).Reader? && ReadJson(ts).head == FHead && ReadJson(ts).frames == FStack
      ensures old(View([])) == FRESH && !ok ==> ReadJson(ts) == Rejected
    {
      var i, counts: seq<nat> := 0, [];
      ghost var start := View([]);
      while i < |ts|
        invariant 0 <= i <= |ts|
        invariant Run(start, ts) == Run(View(counts), ts[i..])
      {
        assert ts[i..][1..] == ts[i + 1..] && ts[i..][0] == ts[i];
        RejectedStays(ts[i + 1..]);
        ok := true;
        match ts[i] {
          case Key(k) =>
            Key(k, counts);
          case StartObject =>
            StartObject(counts);
            counts := [0] + counts;
          case EndObject =>
            if FStack == [] || counts == [] {
              return false;
            }
            ok := EndObject(counts[0], counts);
            counts := Bump(counts[1..]);
          case StartArray =>
            ok := StartArray(counts);
            counts := [0] + counts;
          case EndArray =>
            if FStack == [] || counts == [] {
              return false;
            }
            ok := EndArray(counts[0], counts);
            counts := Bump(counts[1..]);
          case Str(v) =>
            ok := MAddLeaf(v, counts);
            counts := Bump(counts);
        }
        if !ok {
          return;
        }
        i := i + 1;
      }
      ok := true;
    }
  }
}
