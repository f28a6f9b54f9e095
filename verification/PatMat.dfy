/** The glob matcher (src/patmat.c), on strings and patterns without NUL and
    on patterns without bracket classes. */
module PatMat {

  const CTLESC := '\\'

  datatype Token = Lit(c: char) | One | Star

  /** A pattern outside brackets whose escapes are complete. */
  predicate Plain(p: string) {
    p == [] ||
    if p[0] == CTLESC then |p| >= 2 && Plain(p[2..])
    else p[0] != '[' && Plain(p[1..])
  }

  /** The meaning of a pattern: literals, `?', `*' and escaped characters. */
  function Tokens(p: string): seq<Token>
    requires Plain(p)
  {
    if p == [] then []
    else if p[0] == CTLESC then [Lit(p[1])] + Tokens(p[2..])
    else [if p[0] == '?' then One else if p[0] == '*' then Star else Lit(p[0])] + Tokens(p[1..])
  }

  /** A backslash takes the next character as it is, `?' and `*' are special,
      every other character stands for itself. */
  lemma TokensAre(c: char, p: string)
    requires Plain(p)
    ensures Plain(['\\', c] + p) && Tokens(['\\', c] + p) == [Lit(c)] + Tokens(p)
    ensures Plain(['?'] + p) && Tokens(['?'] + p) == [One] + Tokens(p)
    ensures Plain(['*'] + p) && Tokens(['*'] + p) == [Star] + Tokens(p)
    ensures c != '\\' && c != '?' && c != '*' && c != '[' ==> Plain([c] + p) && Tokens([c] + p) == [Lit(c)] + Tokens(p)
  {
    assert (['\\', c] + p)[2..] == p && (['?'] + p)[1..] == p && (['*'] + p)[1..] == p && ([c] + p)[1..] == p;
  }

  // ---- What matching means

  /** The strings one token stands for. */
  predicate Fits(t: Token, s: string) {
    match t
    case Lit(c) => s == [c]
    case One => |s| == 1
    case Star => true
  }

  function Concat(pieces: seq<string>): string {
    if pieces == [] then [] else pieces[0] + Concat(pieces[1..])
  }

  /** `s` can be cut into one piece for every token. */
  ghost predicate Matches(ts: seq<Token>, s: string) {
    exists pieces: seq<string> :: IsCut(ts, s, pieces)
  }

  ghost predicate IsCut(ts: seq<Token>, s: string, pieces: seq<string>) {
    && |pieces| == |ts| && Concat(pieces) == s
    && forall i :: 0 <= i < |ts| ==> Fits(ts[i], pieces[i])
  }

  lemma MatchNone(s: string)
    ensures Matches([], s) <==> s == []
  {
    if s == [] {
      assert IsCut([], s, []);
    }
  }

  /** Cutting off the first piece. */
  lemma CutFirst(ts: seq<Token>, s: string, pieces: seq<string>)
    requires ts != [] && IsCut(ts, s, pieces)
    ensures var n := |pieces[0]|;
            n <= |s| && Fits(ts[0], s[..n]) && IsCut(ts[1..], s[n..], pieces[1..])
  {
    var n := |pieces[0]|;
    assert s == pieces[0] + Concat(pieces[1..]);
    assert s[..n] == pieces[0] && s[n..] == Concat(pieces[1..]);
  }

  lemma CutMore(ts: seq<Token>, s: string, n: nat)
    requires ts != [] && n <= |s| && Fits(ts[0], s[..n]) && Matches(ts[1..], s[n..])
    ensures Matches(ts, s)
  {
    var rest :| IsCut(ts[1..], s[n..], rest);
    var pieces := [s[..n]] + rest;
    assert pieces[1..] == rest;
    assert s[..n] + s[n..] == s;
    forall i | 0 <= i < |ts|
      ensures Fits(ts[i], pieces[i])
    {
      assert i > 0 ==> ts[i] == ts[1..][i - 1];
    }
    assert IsCut(ts, s, pieces);
  }

  /** A literal or `?' takes exactly one character. */
  lemma MatchChar(ts: seq<Token>, s: string)
    requires ts != [] && ts[0] != Star
    ensures Matches(ts, s) <==> s != [] && Fits(ts[0], [s[0]]) && Matches(ts[1..], s[1..])
  {
    if Matches(ts, s) {
      var pieces :| IsCut(ts, s, pieces);
      CutFirst(ts, s, pieces);
      assert s[..1] == [s[0]];
    }
    if s != [] && Fits(ts[0], [s[0]]) && Matches(ts[1..], s[1..]) {
      assert s[..1] == [s[0]];
      CutMore(ts, s, 1);
    }
  }

  /** A literal takes itself, a `?' any character. */
  lemma MatchIs(c: char, ts: seq<Token>, s: string)
    ensures Matches([Lit(c)] + ts, s) <==> s != [] && s[0] == c && Matches(ts, s[1..])
    ensures Matches([One] + ts, s) <==> s != [] && Matches(ts, s[1..])
  {
    hide Matches;
    MatchChar([Lit(c)] + ts, s);
    MatchChar([One] + ts, s);
    assert ([Lit(c)] + ts)[1..] == ts && ([One] + ts)[1..] == ts;
  }

  /** A `*' takes nothing, or one character and then itself again. */
  lemma MatchStar(ts: seq<Token>, s: string)
    requires ts != [] && ts[0] == Star
    ensures Matches(ts, s) <==> Matches(ts[1..], s) || (s != [] && Matches(ts, s[1..]))
  {
    if Matches(ts, s) {
      var pieces :| IsCut(ts, s, pieces);
      CutFirst(ts, s, pieces);
      var n := |pieces[0]|;
      if n == 0 {
        assert s[0..] == s;
      } else {
        assert s[1..][n - 1..] == s[n..];
        CutMore(ts, s[1..], n - 1);
      }
    }
    if Matches(ts[1..], s) {
      assert s[0..] == s;
      CutMore(ts, s, 0);
    }
    if s != [] && Matches(ts, s[1..]) {
      var pieces :| IsCut(ts, s[1..], pieces);
      CutFirst(ts, s[1..], pieces);
      var n := |pieces[0]|;
      assert s[1..][n..] == s[n + 1..];
      CutMore(ts, s, n + 1);
    }
  }

  // ---- The matcher

  /** patmat. */
  method PatMat(str: string, pattern: string) returns (yes: bool)
    requires Plain(pattern)
    ensures yes <==> Matches(Tokens(pattern), str)
    decreases |pattern|, 0
  {
    hide Matches;
    var p, q := 0, 0;
    assert pattern[0..] == pattern && str[0..] == str;
    while p < |pattern|
      invariant p <= |pattern| && q <= |str| && Plain(pattern[p..])
      invariant Matches(Tokens(pattern), str) <==> Matches(Tokens(pattern[p..]), str[q..])
      decreases |pattern| - p
    {
      var c := pattern[p];
      TokenStep(pattern, p);
      ghost var ts := Tokens(pattern[p..]);
      p := p + 1;
      if c == CTLESC {
        MatchChar(ts, str[q..]);
        if q == |str| || str[q] != pattern[p] {
          return false;
        }
        q, p := q + 1, p + 1;
      } else if c == '?' {
        MatchChar(ts, str[q..]);
        if q == |str| {
          return false;
        }
        q := q + 1;
      } else if c == '*' {
        yes := StarMatch(str, q, pattern, p);
        return;
      } else {
        MatchChar(ts, str[q..]);
        if q == |str| || str[q] != c {
          return false;
        }
        q := q + 1;
      }
    }
    MatchNone(str[q..]);
    yes := q == |str|;
  }

  /** What the token at `p` is, and where the next one starts. */
  lemma TokenStep(pattern: string, p: nat)
    requires p < |pattern| && Plain(pattern[p..])
    ensures var c := pattern[p];
            && (c == CTLESC ==> p + 1 < |pattern|)
            && var next := if c == CTLESC then p + 2 else p + 1;
            && Plain(pattern[next..])
            && Tokens(pattern[p..]) != [] && Tokens(pattern[p..])[1..] == Tokens(pattern[next..])
            && Tokens(pattern[p..])[0] == (if c == CTLESC then Lit(pattern[p + 1]) else if c == '?' then One
                                           else if c == '*' then Star else Lit(c))
  {
    var t := pattern[p..];
    if pattern[p] == CTLESC {
      assert t[2..] == pattern[p + 2..] && t[1] == pattern[p + 1];
    } else {
      assert t[1..] == pattern[p + 1..];
    }
  }

  /** The part of patmat behind a `*': skips to the first character that can
      match, then tries every suffix. */
  method StarMatch(str: string, q0: nat, pattern: string, p: nat) returns (yes: bool)
    requires 0 < p <= |pattern| && q0 <= |str| && Plain(pattern[p..])
    ensures yes <==> Matches([Star] + Tokens(pattern[p..]), str[q0..])
    decreases |pattern| - p, 1
  {
    hide Matches;
    ghost var rest := Tokens(pattern[p..]);
    ghost var ts := [Star] + rest;
    assert ts[1..] == rest;
    var found, q := SkipAhead(str, q0, pattern, p);
    if !found {
      return false;
    }
    while true
      invariant q <= |str|
      invariant Matches(ts, str[q0..]) <==> Matches(ts, str[q..])
      decreases |str| - q
    {
      MatchStar(ts, str[q..]);
      yes := PatMat(str[q..], pattern[p..]);
      if yes {
        return;
      }
      if q == |str| {
        return false;
      }
      assert str[q..][1..] == str[q + 1..];
      q := q + 1;
    }
  }

  /** Skips to the first occurrence of the literal behind a `*': no suffix
      before it can match, and none at all when there is no occurrence. */
  method SkipAhead(str: string, q0: nat, pattern: string, p: nat) returns (found: bool, q: nat)
    requires p <= |pattern| && q0 <= |str| && Plain(pattern[p..])
    ensures q0 <= q <= |str|
    ensures var ts := [Star] + Tokens(pattern[p..]);
            && (Matches(ts, str[q0..]) <==> Matches(ts, str[q..]))
            && (!found ==> !Matches(ts, str[q0..]))
  {
    hide Matches;
    found, q := true, q0;
    ghost var ts := [Star] + Tokens(pattern[p..]);
    assert ts[1..] == Tokens(pattern[p..]);
    if p == |pattern| {
      AllMatch(str[q0..]);
      AllMatch(str[|str|..]);
      return true, |str|;
    }
    var c := pattern[p];
    if c != CTLESC && c != '?' && c != '*' && c != '[' {
      TokenStep(pattern, p);
      while q < |str| && str[q] != c
        invariant q0 <= q <= |str|
        invariant Matches(ts, str[q0..]) <==> Matches(ts, str[q..])
      {
        MatchStar(ts, str[q..]);
        MatchChar(ts[1..], str[q..]);
        assert str[q..][1..] == str[q + 1..];
        q := q + 1;
      }
      if q == |str| {
        MatchStar(ts, str[q..]);
        MatchChar(ts[1..], str[q..]);
        found := false;
      }
    }
  }

  /** A final `*' matches everything. */
  lemma AllMatch(s: string)
    ensures Matches([Star] + Tokens([]), s)
  {
    MatchNone(s[|s|..]);
    assert ([Star] + Tokens([]))[1..] == [];
    CutMore([Star] + Tokens([]), s, |s|);
  }
}
