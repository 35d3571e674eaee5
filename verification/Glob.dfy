/**
  CText::sMIsMatch, the backtracking matcher for ?, * and \x, against what a pattern means.
*/
module Glob {

  /** `Eps`: a backslash with nothing after it. */
  datatype Token = Lit(c: char) | Any | Star | Eps

  function Tokens(p: string): (ts: seq<Token>)
    ensures ts == [] <==> p == ""
  {
    if p == "" then []
    else if p[0] == '\\' then (if |p| == 1 then [Eps] else [Lit(p[1])] + Tokens(p[2..]))
    else [if p[0] == '?' then Any else if p[0] == '*' then Star else Lit(p[0])] + Tokens(p[1..])
  }

  // ----- what a pattern means

  ghost predicate Denotes(ts: seq<Token>, s: string)
    decreases |ts|
  {
    if ts == [] then s == ""
    else match ts[0]
      case Lit(c) => s != "" && s[0] == c && Denotes(ts[1..], s[1..])
      case Any => s != "" && Denotes(ts[1..], s[1..])
      case Star => exists k :: 0 <= k <= |s| && Denotes(ts[1..], s[k..])
      case Eps => Denotes(ts[1..], s)
  }

  // ----- what the matcher accepts: a star that is not last never takes the whole rest of the text

  ghost predicate Accepts(ts: seq<Token>, s: string)
    decreases |ts|
  {
    if ts == [] then s == ""
    else match ts[0]
      case Lit(c) => s != "" && s[0] == c && Accepts(ts[1..], s[1..])
      case Any => s != "" && Accepts(ts[1..], s[1..])
      case Star => ts[1..] == [] || exists k :: 0 <= k < |s| && Accepts(ts[1..], s[k..])
      case Eps => Accepts(ts[1..], s)
  }

  const NUL := '\0'

  /** The matcher takes the terminator of the text for a character and goes on behind it. */
  ghost predicate RunsPast(ts: seq<Token>, s: string)
    decreases |ts|
  {
    ts != [] &&
    match ts[0]
    case Lit(c) => if s == "" then c == NUL else s[0] == c && RunsPast(ts[1..], s[1..])
    case Any => s != "" && RunsPast(ts[1..], s[1..])
    case Star =>
      ts[1..] != [] &&
      exists k :: 0 <= k < |s| && RunsPast(ts[1..], s[k..]) && forall j :: 0 <= j < k ==> !Accepts(ts[1..], s[j..])
    case Eps => RunsPast(ts[1..], s)
  }

  /** Of the places where the rest is tried, the k-th runs past the end and none before matched. */
  ghost predicate FirstPast(ts: seq<Token>, s: string, k: int) {
    ts != [] && 0 <= k < |s| && RunsPast(ts, s[k..]) && forall j :: 0 <= j < k ==> !Accepts(ts, s[j..])
  }

  /** A NUL of the pattern, escaped or not, that stands first or behind something other than a star. */
  predicate NulReached(ts: seq<Token>) {
    exists i :: 0 <= i < |ts| && ts[i] == Lit(NUL) && (i == 0 || Takes(ts[i - 1]))
  }

  /** One that stands behind a token for one character. */
  predicate NulBehind(ts: seq<Token>) {
    exists i :: 0 < i < |ts| && ts[i] == Lit(NUL) && Takes(ts[i - 1])
  }

  predicate Takes(t: Token) { t.Lit? || t.Any? }

  predicate EpsLast(ts: seq<Token>) {
    forall i :: 0 <= i < |ts| - 1 ==> !ts[i].Eps?
  }

  lemma {:induction false} TokensEpsLast(p: string)
    ensures EpsLast(Tokens(p))
    decreases |p|
  {
    if p != "" && p[0] == '\\' {
      if |p| > 1 {
        TokensEpsLast(p[2..]);
      }
    } else if p != "" {
      TokensEpsLast(p[1..]);
    }
  }

  lemma NulReachedCases(ts: seq<Token>)
    requires ts != []
    ensures NulBehind(ts) <==> if Takes(ts[0]) then NulReached(ts[1..]) else NulBehind(ts[1..])
    ensures NulReached(ts) <==> ts[0] == Lit(NUL) || NulBehind(ts)
  {
    assert forall i :: 0 <= i < |ts| - 1 ==> ts[1..][i] == ts[i + 1];
    if NulBehind(ts) {
      var i :| 0 < i < |ts| && ts[i] == Lit(NUL) && Takes(ts[i - 1]);
      assert ts[1..][i - 1] == Lit(NUL);
    }
    if Takes(ts[0]) && NulReached(ts[1..]) {
      var i :| 0 <= i < |ts| - 1 && ts[1..][i] == Lit(NUL) && (i == 0 || Takes(ts[1..][i - 1]));
      assert ts[i + 1] == Lit(NUL) && Takes(ts[i]);
    }
    if NulBehind(ts[1..]) {
      var i :| 0 < i < |ts| - 1 && ts[1..][i] == Lit(NUL) && Takes(ts[1..][i - 1]);
      assert ts[i + 1] == Lit(NUL) && Takes(ts[i]);
    }
  }

  /** Only such a pattern runs past the end, and past a text that is not empty only with a NUL behind
      a token for one character. */
  lemma {:induction false} PastIsReached(ts: seq<Token>, s: string)
    requires EpsLast(ts) && RunsPast(ts, s)
    ensures if s == "" then NulReached(ts) else NulBehind(ts)
    decreases |ts|
  {
    NulReachedCases(ts);
    if ts[0].Star? {
      var k :| 0 <= k < |s| && RunsPast(ts[1..], s[k..]);
      PastIsReached(ts[1..], s[k..]);
    } else if ts[0].Eps? {
      assert ts[1..] == [];
    } else if s != "" {
      PastIsReached(ts[1..], s[1..]);
      NulReachedCases(ts[1..]);
    }
  }

  /** A text past whose end the matcher runs; it is not empty if that can be had. */
  lemma {:induction false} ReachedIsPast(ts: seq<Token>) returns (s: string)
    requires EpsLast(ts) && NulReached(ts)
    ensures RunsPast(ts, s) && (NulBehind(ts) ==> s != "")
    decreases |ts|
  {
    NulReachedCases(ts);
    if !NulBehind(ts) {
      s := "";
    } else if Takes(ts[0]) {
      var rest := ReachedIsPast(ts[1..]);
      s := [if ts[0].Lit? then ts[0].c else 'x'] + rest;
      assert s[1..] == rest;
    } else {
      NulReachedCases(ts[1..]);
      s := ReachedIsPast(ts[1..]);
      assert s[0..] == s;
    }
  }

  /** The matcher runs past the end of some text exactly for the patterns with a NUL that stands first
      or behind something other than a star. */
  lemma PastExactly(pat: string)
    ensures (exists s :: RunsPast(Tokens(pat), s)) <==> NulReached(Tokens(pat))
  {
    hide Tokens, RunsPast, NulReached;
    var ts := Tokens(pat);
    TokensEpsLast(pat);
    if NulReached(ts) {
      var s := ReachedIsPast(ts);
      assert RunsPast(Tokens(pat), s);
    } else {
      forall s ensures !RunsPast(Tokens(pat), s) {
        if RunsPast(ts, s) {
          PastIsReached(ts, s);
          NulReachedCases(ts);
        }
      }
    }
  }

  /** In particular a pattern without a NUL never does. */
  lemma {:induction false} NeverPast(p: string)
    requires NUL !in p
    ensures !NulReached(Tokens(p))
    decreases |p|
  {
    if p != "" {
      var n := if p[0] == '\\' && |p| > 1 then 2 else 1;
      NeverPast(p[n..]);
      NulReachedCases(Tokens(p));
      assert Tokens(p)[1..] == Tokens(p[n..]);
      NoNulBehind(Tokens(p[n..]));
    }
  }

  lemma NoNulBehind(ts: seq<Token>)
    ensures NulBehind(ts) ==> NulReached(ts)
  {
  }

  /** What the iterator gives, the terminator included. */
  function At(s: string, i: nat): char
    requires i <= |s|
  {
    if i < |s| then s[i] else NUL
  }

  /** pat[i..] against s[j..]; `past`: it went on behind the end of the text, where nothing is
      promised. */
  method IsMatch(pat: string, i: nat, s: string, j: nat) returns (r: bool, past: bool)
    requires i <= |pat| && j <= |s|
    ensures past <==> RunsPast(Tokens(pat[i..]), s[j..])
    ensures !past ==> (r <==> Accepts(Tokens(pat[i..]), s[j..]))
    decreases |pat| - i
  {
    hide Accepts, RunsPast, FirstPast, Tokens, Escaped;
    var p, t := i, j;
    var escape := false;
    while p < |pat|
      invariant i <= p <= |pat| && j <= t <= |s|
      invariant escape ==> p > i
      invariant Accepts(Tokens(pat[i..]), s[j..]) <==> Accepts(Left(pat[p..], escape), s[t..])
      invariant RunsPast(Tokens(pat[i..]), s[j..]) <==> RunsPast(Left(pat[p..], escape), s[t..])
      decreases |pat| - p
    {
      ghost var rest := pat[p..];
      assert rest[0] == pat[p] && rest[1..] == pat[p + 1..];
      if !escape {
        if pat[p] == '\\' {
          TokensOfEscape(rest);
          escape := true;
          p := p + 1;
          continue;
        } else if pat[p] == '?' {
          AcceptsOne(rest, false, s[t..]);
          if t == |s| {
            return false, false;
          }
          assert s[t..][1..] == s[t + 1..];
          p, t := p + 1, t + 1;
          continue;
        } else if pat[p] == '*' {
          AcceptsStar(rest, s[t..]);
          p := p + 1;
          if p == |pat| {
            return true, false;
          }
          ghost var start, text, ts := t, s[t..], Tokens(pat[p..]);
          while t < |s|
            invariant start <= t <= |s| && text == s[start..]
            invariant forall k :: 0 <= k < t - start ==> !Accepts(ts, text[k..]) && !RunsPast(ts, text[k..])
            decreases |s| - t
          {
            assert text[t - start..] == s[t..];
            r, past := IsMatch(pat, p, s, t);
            if past || r {
              PastDecided(ts, text, t - start);
              return;
            }
            t := t + 1;
          }
          PastDecided(ts, text, |text|);
          return false, false;
        }
      }
      AcceptsOne(rest, escape, s[t..]);
      if pat[p] != At(s, t) {
        return false, false;
      }
      if t == |s| {
        return false, true;
      }
      assert s[t..][1..] == s[t + 1..] && s[t..][0] == s[t];
      escape := false;
      p, t := p + 1, t + 1;
    }
    AcceptsEnd(escape, s[t..]);
    r, past := t == |s|, false;
  }

  /** What is left to match, after a backslash or not. */
  function Left(p: string, escape: bool): seq<Token> { if escape then Escaped(p) else Tokens(p) }

  /** The first place that matches or runs past decides whether the star runs past. */
  lemma PastDecided(ts: seq<Token>, s: string, k: nat)
    requires ts != [] && k <= |s|
    requires forall j :: 0 <= j < k ==> !Accepts(ts, s[j..]) && !RunsPast(ts, s[j..])
    requires k < |s| ==> Accepts(ts, s[k..]) || RunsPast(ts, s[k..])
    ensures (exists j :: FirstPast(ts, s, j)) <==> k < |s| && RunsPast(ts, s[k..])
  {
    if k < |s| && RunsPast(ts, s[k..]) {
      assert FirstPast(ts, s, k);
    }
  }

  lemma AcceptsEnd(escape: bool, s: string)
    ensures Accepts(Left("", escape), s) <==> s == ""
    ensures !RunsPast(Left("", escape), s)
  {
    assert [Eps][1..] == [];
  }

  /** A question mark or a plain or escaped character. */
  lemma AcceptsOne(p: string, escape: bool, s: string)
    requires p != "" && (!escape ==> p[0] != '\\' && p[0] != '*')
    ensures
      var one := !escape && p[0] == '?';
      Accepts(Left(p, escape), s) <==> s != "" && (one || s[0] == p[0]) && Accepts(Tokens(p[1..]), s[1..])
    ensures
      var one := !escape && p[0] == '?';
      RunsPast(Left(p, escape), s) <==>
        if s == "" then !one && p[0] == NUL else (one || s[0] == p[0]) && RunsPast(Tokens(p[1..]), s[1..])
  {
    assert Escaped(p)[1..] == Tokens(p[1..]);
    if !escape {
      TokensOfPlain(p);
    }
  }

  lemma AcceptsStar(p: string, s: string)
    requires p != "" && p[0] == '*'
    ensures Accepts(Tokens(p), s) <==> p[1..] == "" || exists k :: 0 <= k < |s| && Accepts(Tokens(p[1..]), s[k..])
    ensures RunsPast(Tokens(p), s) <==> exists k :: FirstPast(Tokens(p[1..]), s, k)
    ensures p[1..] == "" ==> !RunsPast(Tokens(p), s)
  {
    TokensOfPlain(p);
    var rest := Tokens(p[1..]);
    if RunsPast(Tokens(p), s) {
      var k :| 0 <= k < |s| && RunsPast(rest, s[k..]) && forall j :: 0 <= j < k ==> !Accepts(rest, s[j..]);
      assert FirstPast(rest, s, k);
    }
  }

  /** What is left to match after a backslash was read. */
  function Escaped(p: string): seq<Token> {
    if p == "" then [Eps] else [Lit(p[0])] + Tokens(p[1..])
  }

  lemma TokensOfEscape(p: string)
    requires p != "" && p[0] == '\\'
    ensures Tokens(p) == Escaped(p[1..])
  {
    if |p| > 1 {
      assert p[1..][1..] == p[2..];
    }
  }

  lemma TokensOfPlain(p: string)
    requires p != "" && p[0] != '\\'
    ensures Tokens(p) != [] && Tokens(p)[1..] == Tokens(p[1..])
    ensures Tokens(p)[0] == if p[0] == '?' then Any else if p[0] == '*' then Star else Lit(p[0])
  {
  }

  /** MIsMatch of a whole text. */
  method MatchText(s: string, pat: string) returns (r: bool, past: bool)
    requires pat != ""
    ensures past <==> RunsPast(Tokens(pat), s)
    ensures past ==> NulReached(Tokens(pat)) && NUL in pat
    ensures !past && r ==> Denotes(Tokens(pat), s)
    ensures !past && !EndsStarred(Tokens(pat)) ==> (r <==> Denotes(Tokens(pat), s))
  {
    r, past := IsMatch(pat, 0, s, 0);
    assert pat[0..] == pat && s[0..] == s;
    Sound(Tokens(pat), s);
    PastExactly(pat);
    if NUL !in pat {
      NeverPast(pat);
    }
    if !EndsStarred(Tokens(pat)) {
      Complete(Tokens(pat), s);
    }
  }

  // ----- what is accepted is meant

  lemma {:induction false} Sound(ts: seq<Token>, s: string)
    ensures Accepts(ts, s) ==> Denotes(ts, s)
    decreases |ts|
  {
    if ts != [] && Accepts(ts, s) {
      if ts[0].Star? {
        if ts[1..] == [] {
          assert Denotes(ts[1..], s[|s|..]);
        } else {
          var k :| 0 <= k < |s| && Accepts(ts[1..], s[k..]);
          Sound(ts[1..], s[k..]);
        }
      } else if ts[0].Eps? {
        Sound(ts[1..], s);
      } else {
        Sound(ts[1..], s[1..]);
      }
    }
  }

  // ----- when everything meant is accepted

  /** Matches the empty text. */
  predicate Nullable(ts: seq<Token>) {
    forall t :: t in ts ==> t.Star? || t.Eps?
  }

  /** The pattern ends in a star followed by nothing but stars and a lone backslash, at least one. */
  predicate EndsStarred(ts: seq<Token>) {
    ts != [] && ((ts[0].Star? && ts[1..] != [] && Nullable(ts[1..])) || EndsStarred(ts[1..]))
  }

  lemma {:induction false} Complete(ts: seq<Token>, s: string)
    requires !EndsStarred(ts)
    ensures Denotes(ts, s) ==> Accepts(ts, s)
    decreases |ts|
  {
    if ts != [] && Denotes(ts, s) {
      if ts[0].Star? {
        if ts[1..] != [] {
          var k :| 0 <= k <= |s| && Denotes(ts[1..], s[k..]);
          Complete(ts[1..], s[k..]);
          if k == |s| {
            NullableIsEmpty(ts[1..]);
          }
        }
      } else if ts[0].Eps? {
        Complete(ts[1..], s);
      } else {
        Complete(ts[1..], s[1..]);
      }
    }
  }

  lemma {:induction false} NullableIsEmpty(ts: seq<Token>)
    ensures Denotes(ts, "") <==> Nullable(ts)
    decreases |ts|
  {
    if ts != [] {
      NullableIsEmpty(ts[1..]);
      assert ts == [ts[0]] + ts[1..];
      if ts[0].Star? {
        assert ""[0..] == "";
      }
    }
  }

  /** The shortest text a pattern means. */
  function Shortest(ts: seq<Token>): string {
    if ts == [] then ""
    else match ts[0]
      case Lit(c) => [c] + Shortest(ts[1..])
      case Any => ['x'] + Shortest(ts[1..])
      case _ => Shortest(ts[1..])
  }

  lemma {:induction false} ShortestIsMeant(ts: seq<Token>)
    ensures Denotes(ts, Shortest(ts))
    ensures Nullable(ts) ==> Shortest(ts) == ""
    decreases |ts|
  {
    if ts != [] {
      ShortestIsMeant(ts[1..]);
      var s := Shortest(ts);
      if ts[0].Star? {
        assert s[0..] == s;
      } else if ts[0].Lit? || ts[0].Any? {
        assert s[1..] == Shortest(ts[1..]);
      }
    }
  }

  /** Accepted texts are longer than the shortest one when the pattern ends starred. */
  lemma {:induction false} AcceptedIsLonger(ts: seq<Token>, s: string)
    requires Accepts(ts, s)
    ensures |s| >= |Shortest(ts)| + if EndsStarred(ts) then 1 else 0
    decreases |ts|
  {
    if ts != [] {
      if ts[0].Star? {
        if ts[1..] != [] {
          var k :| 0 <= k < |s| && Accepts(ts[1..], s[k..]);
          AcceptedIsLonger(ts[1..], s[k..]);
          ShortestIsMeant(ts[1..]);
        }
      } else if ts[0].Eps? {
        AcceptedIsLonger(ts[1..], s);
      } else {
        AcceptedIsLonger(ts[1..], s[1..]);
      }
    }
  }

  /** The matcher accepts every text that a pattern means exactly when the pattern does not end in a
      star followed by more stars or a lone backslash. */
  lemma ExactlyComplete(pat: string)
    ensures (forall s :: Denotes(Tokens(pat), s) ==> Accepts(Tokens(pat), s)) <==> !EndsStarred(Tokens(pat))
  {
    var ts := Tokens(pat);
    if EndsStarred(ts) {
      ShortestIsMeant(ts);
      var s := Shortest(ts);
      if Accepts(ts, s) {
        AcceptedIsLonger(ts, s);
      }
      assert Denotes(ts, s) && !Accepts(ts, s);
    } else {
      forall s | Denotes(ts, s) ensures Accepts(ts, s) {
        Complete(ts, s);
      }
    }
  }

  /** The pattern a** means the text a and does not match it. */
  lemma DoubleStarMisses()
    ensures Denotes(Tokens("a**"), "a") && !Accepts(Tokens("a**"), "a")
  {
    var ts := Tokens("a**");
    assert "a**"[1..] == "**" && "**"[1..] == "*" && "*"[1..] == "";
    assert ts == [Lit('a'), Star, Star] && ts[1..] == [Star, Star] && [Star, Star][1..] == [Star] && [Star][1..] == [];
    assert EndsStarred([Star, Star]) && EndsStarred(ts);
    assert Shortest([]) == "" && Shortest([Star]) == "" && Shortest([Star, Star]) == "" && Shortest(ts) == "a";
    ShortestIsMeant(ts);
    if Accepts(ts, "a") {
      AcceptedIsLonger(ts, "a");
    }
  }
}
