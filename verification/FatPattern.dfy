/** Wildcard search: a pattern with ? and * against a file name, without regard to case. */
module FatPattern {

  /** A character of a pattern or a name; the terminator 0 is the end of the sequence. */
  type Char = x: int | 0 < x < 0x1_0000 witness 1

  const ANY: Char := 0x3F
  const MANY: Char := 0x2A

  predicate Wild(c: Char) {
    c == ANY || c == MANY
  }

  /** What a pattern means: ? is one character, * any run of them, and others equal themselves after up-casing. */
  ghost predicate Glob(up: Char -> Char, pat: seq<Char>, nam: seq<Char>)
    decreases |pat|
  {
    if pat == [] then nam == []
    else if pat[0] == MANY then exists k :: 0 <= k <= |nam| && Glob(up, pat[1..], nam[k..])
    else nam != [] && (pat[0] == ANY || up(pat[0]) == up(nam[0])) && Glob(up, pat[1..], nam[1..])
  }

  /** nam matches pat behind skip characters, or behind at least so many. */
  ghost predicate Behind(up: Char -> Char, pat: seq<Char>, nam: seq<Char>, skip: nat, inf: bool) {
    && skip <= |nam|
    && if inf then exists k :: skip <= k <= |nam| && Glob(up, pat, nam[k..]) else Glob(up, pat, nam[skip..])
  }

  lemma AnyAhead(up: Char -> Char, pat: seq<Char>, nam: seq<Char>, skip: nat, inf: bool)
    requires pat != [] && pat[0] == ANY
    ensures Behind(up, pat, nam, skip, inf) <==> Behind(up, pat[1..], nam, skip + 1, inf)
  {
    if inf {
      if Behind(up, pat, nam, skip, inf) {
        var k :| skip <= k <= |nam| && Glob(up, pat, nam[k..]);
        assert nam[k..][1..] == nam[k + 1..];
      }
      if Behind(up, pat[1..], nam, skip + 1, inf) {
        var k :| skip + 1 <= k <= |nam| && Glob(up, pat[1..], nam[k..]);
        assert nam[k - 1..][1..] == nam[k..];
        assert Glob(up, pat, nam[k - 1..]);
      }
    } else if skip < |nam| {
      assert nam[skip..][1..] == nam[skip + 1..];
    }
  }

  lemma ManyAhead(up: Char -> Char, pat: seq<Char>, nam: seq<Char>, skip: nat, inf: bool)
    requires pat != [] && pat[0] == MANY
    ensures Behind(up, pat, nam, skip, inf) <==> Behind(up, pat[1..], nam, skip, true)
  {
    if Behind(up, pat, nam, skip, inf) {
      var k: nat :| skip <= k <= |nam| && (inf || k == skip) && Glob(up, pat, nam[k..]);
      var j :| 0 <= j <= |nam[k..]| && Glob(up, pat[1..], nam[k..][j..]);
      assert nam[k..][j..] == nam[k + j..];
    }
    if Behind(up, pat[1..], nam, skip, true) {
      var k :| skip <= k <= |nam| && Glob(up, pat[1..], nam[k..]);
      assert nam[skip..][k - skip..] == nam[k..];
      assert Glob(up, pat, nam[skip..]);
    }
  }

  /** A pattern that starts with n characters other than * needs at least n characters. */
  lemma {:induction false} Needs(up: Char -> Char, pat: seq<Char>, nam: seq<Char>, n: nat)
    requires n <= |pat| && Glob(up, pat, nam) && forall i :: 0 <= i < n ==> pat[i] != MANY
    ensures n <= |nam|
    decreases |pat|
  {
    if n > 0 {
      Needs(up, pat[1..], nam[1..], n - 1);
    }
  }

  /** A literal character ahead. */
  lemma LiteralAhead(up: Char -> Char, pat: seq<Char>, nam: seq<Char>, p: nat, n: nat)
    requires p < |pat| && n <= |nam| && !Wild(pat[p])
    ensures Glob(up, pat[p..], nam[n..]) <==>
      n < |nam| && up(pat[p]) == up(nam[n]) && Glob(up, pat[p + 1..], nam[n + 1..])
  {
    assert pat[p..][1..] == pat[p + 1..];
    if n < |nam| {
      assert nam[n..][1..] == nam[n + 1..];
    }
  }

  /** A try that used up the name without a wildcard cannot succeed further on. */
  lemma NoLater(up: Char -> Char, pat: seq<Char>, nam: seq<Char>, s: nat, p: nat)
    requires p <= |pat| && s + p == |nam| && forall i :: 0 <= i < p ==> !Wild(pat[i])
    ensures forall k :: s < k <= |nam| ==> !Glob(up, pat, nam[k..])
  {
    forall k | s < k <= |nam|
      ensures !Glob(up, pat, nam[k..])
    {
      if Glob(up, pat, nam[k..]) {
        Needs(up, pat, nam[k..], p);
      }
    }
  }

  /** The run of wildcards at p: how many ? there are and whether there is a *. */
  method Analyze(up: Char -> Char, pat: seq<Char>, p: nat, ghost nam: seq<Char>) returns (pp: nat, nm: nat, nx: bool)
    requires p < |pat| && Wild(pat[p])
    ensures p < pp <= |pat|
    ensures Glob(up, pat[p..], nam) <==> Behind(up, pat[pp..], nam, nm, nx)
  {
    pp, nm, nx := p, 0, false;
    assert nam[0..] == nam;
    while pp == p || (pp < |pat| && Wild(pat[pp]))
      invariant p <= pp <= |pat|
      invariant Glob(up, pat[p..], nam) <==> Behind(up, pat[pp..], nam, nm, nx)
      decreases |pat| - pp
    {
      assert pat[pp..][1..] == pat[pp + 1..];
      if pat[pp] == ANY {
        AnyAhead(up, pat[pp..], nam, nm, nx);
        nm := nm + 1;
      } else {
        ManyAhead(up, pat[pp..], nam, nm, nx);
        nx := true;
      }
      pp := pp + 1;
    }
  }

  /** One try from character s of the name on; nc is the character at which it failed, 0 at the end. */
  method TryAt(up: Char -> Char, pat: seq<Char>, nam: seq<Char>, s: nat) returns (r: bool, nc: int)
    requires s <= |nam|
    ensures r <==> Glob(up, pat, nam[s..])
    ensures !r && nc == 0 ==> forall k :: s < k <= |nam| ==> !Glob(up, pat, nam[k..])
    ensures !r && nc != 0 ==> s < |nam|
    decreases |pat|, 0
  {
    hide Glob, Behind;
    var pp, np := 0, s;
    assert pat[0..] == pat;
    while true
      invariant 0 <= pp <= |pat| && np == s + pp <= |nam| && forall i :: 0 <= i < pp ==> !Wild(pat[i])
      invariant Glob(up, pat, nam[s..]) <==> Glob(up, pat[pp..], nam[np..])
      decreases |pat| - pp
    {
      if pp < |pat| && Wild(pat[pp]) {
        var rest, nm, nx := Analyze(up, pat, pp, nam[np..]);
        r := PatternMatching(up, pat[rest..], nam[np..], nm, nx);
        nc := if np < |nam| then nam[np] else 0;
        if np == |nam| {
          NoLater(up, pat, nam, s, pp);
        }
        return;
      }
      var pc: int := if pp < |pat| then up(pat[pp]) else 0;
      nc := if np < |nam| then up(nam[np]) else 0;
      AtEnd(up, pat, nam, pp, np);
      if pc != nc {
        if np == |nam| {
          NoLater(up, pat, nam, s, pp);
        }
        return false, nc;
      }
      if pc == 0 {
        return true, nc;
      }
      LiteralAhead(up, pat, nam, pp, np);
      pp, np := pp + 1, np + 1;
    }
  }

  lemma AtEnd(up: Char -> Char, pat: seq<Char>, nam: seq<Char>, p: nat, n: nat)
    requires p <= |pat| && n <= |nam| && (p < |pat| ==> !Wild(pat[p]))
    ensures p == |pat| ==> (Glob(up, pat[p..], nam[n..]) <==> n == |nam|)
    ensures p < |pat| && (n == |nam| || up(pat[p]) != up(nam[n])) ==> !Glob(up, pat[p..], nam[n..])
  {
  }

  /** Runs of wildcards are counted and tried at once; a mismatch at the end of the name ends the search. */
  method PatternMatching(up: Char -> Char, pat: seq<Char>, nam: seq<Char>, skip: nat, inf: bool) returns (r: bool)
    ensures r <==> Behind(up, pat, nam, skip, inf)
    decreases |pat|, 1
  {
    var s, left := 0, skip;
    while left > 0
      invariant 0 <= s <= |nam| && s + left == skip
    {
      if s == |nam| {
        return false;
      }
      s, left := s + 1, left - 1;
    }
    if pat == [] && inf {
      assert Glob(up, pat, nam[|nam|..]);
      return true;
    }
    while true
      invariant skip <= s <= |nam| && (inf || s == skip)
      invariant forall k :: skip <= k < s ==> !Glob(up, pat, nam[k..])
      decreases |nam| - s
    {
      hide Glob;
      var matched, nc := TryAt(up, pat, nam, s);
      if matched {
        return true;
      }
      if !inf || nc == 0 {
        return false;
      }
      s := s + 1;
    }
  }
}
