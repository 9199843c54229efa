/** The tokenizer: each call cuts the next token out of the text where it stands. */
module Strtok {

  type Byte = x: int | 0 <= x < 256

  /** The contents of a C string: no terminator inside. */
  predicate NoZero(s: seq<Byte>) {
    0 !in s
  }

  /** The text from start on ends at e, its first 0. */
  predicate EndsAt(b: seq<Byte>, start: nat, e: nat) {
    start <= e < |b| && b[e] == 0 && forall i :: start <= i < e ==> b[i] != 0
  }

  /** A maximal run of characters that are not delimiters, in the text from start to its end e. */
  predicate IsRun(b: seq<Byte>, start: nat, e: nat, delims: seq<Byte>, i: nat, j: nat) {
    && start <= i < j <= e < |b|
    && (forall k :: i <= k < j ==> b[k] !in delims)
    && (i == start || b[i - 1] in delims)
    && (j == e || b[j] in delims)
  }

  datatype Token = None | Token(first: nat, end: nat)

  /** What one call finds in the text b from index from to its end e, and the text after it. */
  predicate Found(b: seq<Byte>, b': seq<Byte>, from: nat, e: nat, delims: seq<Byte>, tok: Token)
    requires from <= e < |b|
  {
    if tok == None then b' == b && forall k :: from <= k < e ==> b[k] in delims
    else
      && IsRun(b, from, e, delims, tok.first, tok.end)
      && (forall k :: from <= k < tok.first ==> b[k] in delims)
      && b' == b[tok.end := 0]
  }

  lemma NoneFound(b: seq<Byte>, from: nat, e: nat, delims: seq<Byte>)
    requires from <= e < |b| && forall k :: from <= k < e ==> b[k] in delims
    ensures Found(b, b, from, e, delims, None)
  {
  }

  lemma OneFound(b: seq<Byte>, from: nat, e: nat, delims: seq<Byte>, i: nat, j: nat)
    requires from <= i < j <= e < |b| && (forall k :: from <= k < i ==> b[k] in delims)
    requires (forall k :: i <= k < j ==> b[k] !in delims) && (j == e || b[j] in delims)
    ensures Found(b, b[j := 0], from, e, delims, Token(i, j))
  {
  }

  class Tokenizer {
    /** Where the next call goes on: nowhere if text is null. */
    var text: array?<Byte>
    var tmp: nat

    constructor ()
      ensures text == null
    {
      text, tmp := null, 0;
    }

    /** Finds the next token of s1, from index start on, or of the text of the call before if s1 is null. */
    method Strtok(s1: array?<Byte>, start: nat, s2: seq<Byte>, ghost e: nat) returns (tok: Token)
      requires NoZero(s2)
      requires s1 != null ==> EndsAt(s1[..], start, e)
      requires s1 == null && text != null ==> EndsAt(text[..], tmp, e)
      modifies this, if s1 != null then s1 else text
      ensures s1 == null && old(text) == null ==> tok == None
      ensures var t, from := if s1 != null then s1 else old(text), if s1 != null then start else old(tmp);
        && (t != null ==> Found(old(t[..]), t[..], from, e, s2, tok))
        && (if tok == None || tok.end == e then text == null else text == t && tmp == tok.end + 1)
    {
      hide IsRun, Found;
      var first := start;
      if s1 != null {
        text, tmp := s1, start;
      } else {
        if text == null {
          return None;
        }
        first := tmp;
      }
      var t := text;
      ghost var from, b := first, t[..];
      assert EndsAt(b, from, e);
      var p := 0;
      while p < |s2| && t[first] != 0
        invariant from <= first <= e && 0 <= p <= |s2|
        invariant forall k :: from <= k < first ==> b[k] in s2
        invariant b[first] !in s2[..p]
        decreases e - first, |s2| - p
      {
        if t[first] == s2[p] {
          first := first + 1;
          p := 0;
          continue;
        }
        p := p + 1;
      }
      if t[first] == 0 {
        text := null;
        NoneFound(b, from, e, s2);
        return None;
      }
      assert s2[..|s2|] == s2;
      tmp := first;
      while t[tmp] != 0
        invariant first <= tmp <= e && text == t && t[..] == b
        invariant forall k :: first <= k < tmp ==> b[k] !in s2
        decreases e - tmp
      {
        p := 0;
        while p < |s2|
          invariant 0 <= p <= |s2| && b[tmp] !in s2[..p]
        {
          p := p + 1;
          if t[tmp] == s2[p - 1] {
            OneFound(b, from, e, s2, first, tmp);
            t[tmp] := 0;
            tmp := tmp + 1;
            return Token(first, tmp - 1);
          }
        }
        tmp := tmp + 1;
      }
      text := null;
      OneFound(b, from, e, s2, first, tmp);
      assert b[tmp := 0] == b;
      tok := Token(first, tmp);
    }
  }

  // ---------- repeated calls ----------

  /** b with the byte behind each token made 0. */
  function Cut(b: seq<Byte>, toks: seq<Token>): (r: seq<Byte>)
    ensures |r| == |b|
  {
    if toks == [] then b
    else
      var last, r := toks[|toks| - 1], Cut(b, toks[..|toks| - 1]);
      if last.Token? && last.end < |b| then r[last.end := 0] else r
  }

  /** toks are the maximal runs of b from start to its end e that lie before from, in order. */
  ghost predicate RunsBefore(b: seq<Byte>, start: nat, e: nat, delims: seq<Byte>, toks: seq<Token>, from: nat) {
    && (forall t :: t in toks ==> t.Token? && t.end < from && IsRun(b, start, e, delims, t.first, t.end))
    && (forall k, l :: 0 <= k < l < |toks| ==> toks[k].Token? && toks[l].Token? && toks[k].end < toks[l].first)
    && (forall i: nat, j: nat :: IsRun(b, start, e, delims, i, j) && i < from ==> Token(i, j) in toks)
  }

  /** The run found from from on comes next. */
  lemma NextRun(b: seq<Byte>, start: nat, e: nat, delims: seq<Byte>, toks: seq<Token>, from: nat, tok: Token)
    requires RunsBefore(b, start, e, delims, toks, from) && start <= from <= e < |b| && tok.Token?
    requires from == start || b[from - 1] in delims
    requires IsRun(b, from, e, delims, tok.first, tok.end) && forall k :: from <= k < tok.first ==> b[k] in delims
    ensures RunsBefore(b, start, e, delims, toks + [tok], tok.end + 1)
  {
    assert IsRun(b, start, e, delims, tok.first, tok.end);
    forall i: nat, j: nat | IsRun(b, start, e, delims, i, j) && i < tok.end + 1
      ensures Token(i, j) in toks + [tok]
    {
      if i >= from {
        assert b[i] !in delims && i >= tok.first;
        assert i == tok.first;
        assert j == tok.end;
      }
    }
    forall k, l | 0 <= k < l < |toks + [tok]|
      ensures (toks + [tok])[k].Token? && (toks + [tok])[l].Token? && (toks + [tok])[k].end < (toks + [tok])[l].first
    {
      assert toks[k] in toks;
    }
  }

  /** Only delimiters are left. */
  lemma NoMoreRuns(b: seq<Byte>, start: nat, e: nat, delims: seq<Byte>, toks: seq<Token>, from: nat)
    requires RunsBefore(b, start, e, delims, toks, from) && start <= from <= e < |b|
    requires forall k :: from <= k < e ==> b[k] in delims
    ensures RunsBefore(b, start, e, delims, toks, e + 1)
  {
    forall i: nat, j: nat | IsRun(b, start, e, delims, i, j)
      ensures i < from
    {
      assert b[i] !in delims;
    }
  }

  /** A call sees the text from its cursor on as it was. */
  lemma FoundInOriginal(b: seq<Byte>, c: seq<Byte>, c': seq<Byte>, from: nat, e: nat, delims: seq<Byte>, tok: Token)
    requires from <= e < |b| == |c| && b[from..] == c[from..] && Found(c, c', from, e, delims, tok)
    ensures forall k :: from <= k < (if tok == None then e else tok.first) ==> b[k] in delims
    ensures tok == None ==> c' == c
    ensures tok != None ==> IsRun(b, from, e, delims, tok.first, tok.end) && c' == c[tok.end := 0]
    ensures tok != None ==> b[tok.end + 1..] == c'[tok.end + 1..]
  {
    assert forall k :: from <= k < |b| ==> b[k] == b[from..][k - from] == c[from..][k - from] == c[k];
  }

  lemma CutMore(b: seq<Byte>, toks: seq<Token>, tok: Token)
    requires tok.Token? && tok.end < |b|
    ensures Cut(b, toks + [tok]) == Cut(b, toks)[tok.end := 0]
  {
    assert (toks + [tok])[..|toks|] == toks;
  }

  /** A call that goes on where the one before stopped, at from. */
  method NextToken(tk: Tokenizer, s1: array<Byte>, s2: seq<Byte>, ghost b: seq<Byte>, ghost toks: seq<Token>,
                   ghost start: nat,
                   ghost e: nat, ghost from: nat) returns (tok: Token)
    requires NoZero(s2) && EndsAt(b, start, e) && start <= from <= e + 1 <= |b| == s1.Length && b[from..] == s1[from..]
    requires if from == e + 1 then tk.text == null else tk.text == s1 && tk.tmp == from
    requires s1[..] == Cut(b, toks) && RunsBefore(b, start, e, s2, toks, from)
    requires (start < from <= e ==> b[from - 1] in s2)
    modifies tk, s1
    ensures tok == None ==> s1[..] == Cut(b, toks) && tk.text == null && RunsBefore(b, start, e, s2, toks, e + 1)
    ensures tok != None ==> from < tok.end
    ensures tok != None ==> Follows(tk, s1, s2, b, toks + [tok], start, e, tok.end + 1)
  {
    hide RunsBefore, Cut;
    ghost var c := s1[..];
    assert from <= e ==> EndsAt(c, from, e) by {
      assert forall k :: from <= k < |b| ==> b[k] == b[from..][k - from] && c[k] == s1[from..][k - from];
    }
    tok := tk.Strtok(null, 0, s2, e);
    if from <= e {
      assert c[from..] == b[from..];
      FoundInOriginal(b, c, s1[..], from, e, s2, tok);
      if tok == None {
        NoMoreRuns(b, start, e, s2, toks, from);
      } else {
        NextRun(b, start, e, s2, toks, from, tok);
        CutMore(b, toks, tok);
      }
    }
  }

  /** Where the tokenizer stands after the tokens toks of the text b. */
  ghost predicate Follows(tk: Tokenizer, s1: array<Byte>, s2: seq<Byte>, b: seq<Byte>, toks: seq<Token>, start: nat,
                          e: nat, from: nat)
    reads tk, s1
  {
    && start <= from <= e + 1 <= |b| == s1.Length && b[from..] == s1[from..]
    && (if from == e + 1 then tk.text == null else tk.text == s1 && tk.tmp == from)
    && s1[..] == Cut(b, toks) && RunsBefore(b, start, e, s2, toks, from) && (start < from <= e ==> b[from - 1] in s2)
  }

  /** Calls Strtok until it answers no token: the answers are all the runs of the text, in order. */
  method AllTokens(tk: Tokenizer, s1: array<Byte>, start: nat, s2: seq<Byte>, ghost e: nat) returns (toks: seq<Token>)
    requires NoZero(s2) && EndsAt(s1[..], start, e)
    modifies tk, s1, tk.text
    ensures RunsBefore(old(s1[..]), start, e, s2, toks, e + 1)
    ensures s1[..] == Cut(old(s1[..]), toks) && tk.text == null
  {
    hide RunsBefore, Cut, Found;
    ghost var b := s1[..];
    toks := [];
    FirstRuns(b, start, e, s2);
    var tok := tk.Strtok(s1, start, s2, e);
    FoundInOriginal(b, b, s1[..], start, e, s2, tok);
    if tok == None {
      NoMoreRuns(b, start, e, s2, [], start);
    } else {
      NextRun(b, start, e, s2, [], start, tok);
      CutMore(b, [], tok);
    }
    while tok != None
      invariant tok != None ==> Follows(tk, s1, s2, b, toks + [tok], start, e, tok.end + 1)
      invariant tok == None ==> s1[..] == Cut(b, toks) && tk.text == null && RunsBefore(b, start, e, s2, toks, e + 1)
      decreases if tok == None then 0 else 1, if tok == None then 0 else e + 1 - tok.end
    {
      toks := toks + [tok];
      tok := NextToken(tk, s1, s2, b, toks, start, e, tok.end + 1);
    }
  }

  lemma FirstRuns(b: seq<Byte>, start: nat, e: nat, delims: seq<Byte>)
    ensures RunsBefore(b, start, e, delims, [], start) && Cut(b, []) == b
  {
  }
}
