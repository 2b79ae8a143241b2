/** The regular expression `"dependencies"\s*:\s*\{([^}]*)\}` that
    `PackageLoader.InsertDependency` runs over the manifest, written out as a
    scanner. `Regex.Match` reports the leftmost start position at which the
    pattern matches; at a given start the match is unique, because `\s*` can
    never swallow the `:` or `{` that follows it and `[^}]*` stops at the
    first `}`. */
module DependencyBlock {
  import opened Wrappers
  import opened Text

  /** The quoted key the pattern begins with. */
  const Key: string := "\"dependencies\""

  /** A match: the key starts at `start`, `colon` and `open` are the indices of
      `:` and `{`, and `close` is the index of the `}` ending the match. The
      captured group 1 is the text strictly between `open` and `close`. */
  datatype BlockMatch = BlockMatch(start: nat, colon: nat, open: nat, close: nat)

  /** `b` describes a match of the pattern in `s`. */
  ghost predicate IsBlockAt(s: string, b: BlockMatch) {
    && b.start + |Key| <= b.colon < b.open < b.close < |s|
    && s[b.start..b.start + |Key|] == Key
    && (forall k | b.start + |Key| <= k < b.colon :: IsWhiteSpace(s[k]))
    && s[b.colon] == ':'
    && (forall k | b.colon < k < b.open :: IsWhiteSpace(s[k]))
    && s[b.open] == '{'
    && (forall k | b.open < k < b.close :: s[k] != '}')
    && s[b.close] == '}'
  }

  /** The whole matched text (`match.Groups[0].Value`). */
  function Matched(s: string, b: BlockMatch): string
    requires b.start <= b.close < |s|
  {
    s[b.start..b.close + 1]
  }

  /** The captured dependency entries (`match.Groups[1].Value`). */
  function Captured(s: string, b: BlockMatch): string
    requires b.open < b.close <= |s|
  {
    s[b.open + 1..b.close]
  }

  /** The first index at or after `i` that is not white space. */
  function SkipWhiteSpace(s: string, i: nat): (j: nat)
    requires i <= |s|
    ensures i <= j <= |s|
    ensures forall k | i <= k < j :: IsWhiteSpace(s[k])
    ensures j < |s| ==> !IsWhiteSpace(s[j])
    decreases |s| - i
  {
    if i < |s| && IsWhiteSpace(s[i]) then SkipWhiteSpace(s, i + 1) else i
  }

  /** The first `}` at or after `i`, or `|s|` when there is none. */
  function FindClose(s: string, i: nat): (j: nat)
    requires i <= |s|
    ensures i <= j <= |s|
    ensures forall k | i <= k < j :: s[k] != '}'
    ensures j < |s| ==> s[j] == '}'
    decreases |s| - i
  {
    if i < |s| && s[i] != '}' then FindClose(s, i + 1) else i
  }

  /** The match of the pattern that starts at index `i`, if there is one. */
  function MatchAt(s: string, i: nat): (m: Option<BlockMatch>)
    ensures m.Some? ==> IsBlockAt(s, m.value) && m.value.start == i
    ensures forall b | IsBlockAt(s, b) && b.start == i :: m == Some(b)
  {
    if i + |Key| > |s| || s[i..i + |Key|] != Key then None
    else
      var colon := SkipWhiteSpace(s, i + |Key|);
      if colon == |s| || s[colon] != ':' then None
      else
        var open := SkipWhiteSpace(s, colon + 1);
        if open == |s| || s[open] != '{' then None
        else
          var close := FindClose(s, open + 1);
          if close == |s| then None
          else Some(BlockMatch(i, colon, open, close))
  }

  /** `Regex.Match(s, pattern)` started at `from`: the match with the leftmost
      start, or `None` when the pattern matches nowhere. */
  function FindBlock(s: string, from: nat): (m: Option<BlockMatch>)
    requires from <= |s|
    ensures m.Some? ==> IsBlockAt(s, m.value) && from <= m.value.start
    ensures forall b | IsBlockAt(s, b) && from <= b.start :: m.Some? && m.value.start <= b.start
    decreases |s| - from
  {
    var here := MatchAt(s, from);
    if here.Some? then here
    else if from == |s| then None
    else FindBlock(s, from + 1)
  }

  /** The match `InsertDependency` works on. */
  function Find(s: string): (m: Option<BlockMatch>)
    ensures m.Some? ==> IsBlockAt(s, m.value)
    ensures forall b | IsBlockAt(s, b) :: m.Some? && m.value.start <= b.start
  {
    FindBlock(s, 0)
  }

  /** The captured group holds no `}`. */
  lemma CapturedHasNoClose(s: string, b: BlockMatch)
    requires IsBlockAt(s, b)
    ensures '}' !in Captured(s, b)
  {
    forall k | 0 <= k < |Captured(s, b)|
      ensures Captured(s, b)[k] != '}'
    {
      assert Captured(s, b)[k] == s[b.open + 1 + k];
    }
  }

  /** `b` moved so that its key starts at `q`. */
  function Moved(b: BlockMatch, q: nat): (c: BlockMatch)
    requires b.start <= b.colon <= b.open <= b.close
    ensures c.start == q && c.close - c.start == b.close - b.start
  {
    BlockMatch(q, b.colon - b.start + q, b.open - b.start + q, b.close - b.start + q)
  }

  /** The `n` characters of `s` from `p` equal those of `t` from `q`. */
  predicate SameWindow(s: string, p: int, t: string, q: int, n: int) {
    0 <= p && 0 <= q && 0 <= n && p + n <= |s| && q + n <= |t| && s[p..p + n] == t[q..q + n]
  }

  /** A character inside a window. */
  lemma WindowChar(s: string, p: int, t: string, q: int, n: int, k: int)
    requires SameWindow(s, p, t, q, n) && p <= k < p + n
    ensures t[k - p + q] == s[k]
  {
    assert s[p..p + n][k - p] == t[q..q + n][k - p];
  }

  /** A part of a window. */
  lemma SubWindow(s: string, p: int, t: string, q: int, n: int, a: int, b: int)
    requires SameWindow(s, p, t, q, n) && 0 <= a <= b <= n
    ensures t[q + a..q + b] == s[p + a..p + b]
  {
    forall k | q + a <= k < q + b
      ensures t[k] == s[k - q + p]
    {
      WindowChar(s, p, t, q, n, k - q + p);
    }
  }

  /** A white-space run inside a window. */
  lemma WhiteMoves(s: string, p: int, t: string, q: int, n: int, lo: int, hi: int)
    requires SameWindow(s, p, t, q, n) && p <= lo && hi <= p + n
    requires forall k | lo <= k < hi :: IsWhiteSpace(s[k])
    ensures forall k | lo - p + q <= k < hi - p + q :: IsWhiteSpace(t[k])
  {
    forall k | lo - p + q <= k < hi - p + q
      ensures IsWhiteSpace(t[k])
    {
      WindowChar(s, p, t, q, n, k + p - q);
    }
  }

  /** A run without `}` inside a window. */
  lemma NoCloseMoves(s: string, p: int, t: string, q: int, n: int, lo: int, hi: int)
    requires SameWindow(s, p, t, q, n) && p <= lo && hi <= p + n
    requires forall k | lo <= k < hi :: s[k] != '}'
    ensures forall k | lo - p + q <= k < hi - p + q :: t[k] != '}'
  {
    forall k | lo - p + q <= k < hi - p + q
      ensures t[k] != '}'
    {
      WindowChar(s, p, t, q, n, k + p - q);
    }
  }

  /** Wherever the text of a match occurs again, the pattern matches there
      too, with the same captured group. */
  lemma BlockMoves(s: string, b: BlockMatch, t: string, q: nat)
    requires IsBlockAt(s, b) && SameWindow(s, b.start, t, q, b.close - b.start + 1)
    ensures IsBlockAt(t, Moved(b, q)) && Captured(t, Moved(b, q)) == Captured(s, b)
  {
    var c := Moved(b, q);
    HeadMoves(s, b, t, q, c);
    TailMoves(s, b, t, q, c);
    SubWindow(s, b.start, t, q, b.close - b.start + 1, b.open + 1 - b.start, b.close - b.start);
  }

  /** The key, the colon and the white space around it move with the window. */
  lemma HeadMoves(s: string, b: BlockMatch, t: string, q: nat, c: BlockMatch)
    requires IsBlockAt(s, b) && SameWindow(s, b.start, t, q, b.close - b.start + 1) && c == Moved(b, q)
    ensures c.start + |Key| <= c.colon < c.open < c.close < |t|
    ensures t[c.start..c.start + |Key|] == Key
    ensures forall k | c.start + |Key| <= k < c.colon :: IsWhiteSpace(t[k])
    ensures t[c.colon] == ':'
  {
    var n := b.close - b.start + 1;
    SubWindow(s, b.start, t, q, n, 0, |Key|);
    WhiteMoves(s, b.start, t, q, n, b.start + |Key|, b.colon);
    WindowChar(s, b.start, t, q, n, b.colon);
  }

  /** The brace, the group and the closing brace move with the window. */
  lemma TailMoves(s: string, b: BlockMatch, t: string, q: nat, c: BlockMatch)
    requires IsBlockAt(s, b) && SameWindow(s, b.start, t, q, b.close - b.start + 1) && c == Moved(b, q)
    ensures c.open < c.close < |t|
    ensures forall k | c.colon < k < c.open :: IsWhiteSpace(t[k])
    ensures t[c.open] == '{'
    ensures forall k | c.open < k < c.close :: t[k] != '}'
    ensures t[c.close] == '}'
  {
    var n := b.close - b.start + 1;
    WhiteMoves(s, b.start, t, q, n, b.colon + 1, b.open);
    NoCloseMoves(s, b.start, t, q, n, b.open + 1, b.close);
    WindowChar(s, b.start, t, q, n, b.open);
    WindowChar(s, b.start, t, q, n, b.close);
  }

  /** Before the leftmost match its text occurs nowhere. */
  lemma FindIsFirstOccurrence(s: string)
    requires Find(s).Some?
    ensures var b := Find(s).value;
      && OccursAt(s, Matched(s, b), b.start)
      && forall j | 0 <= j < b.start :: !OccursAt(s, Matched(s, b), j)
  {
    var b := Find(s).value;
    forall j | 0 <= j < b.start
      ensures !OccursAt(s, Matched(s, b), j)
    {
      if OccursAt(s, Matched(s, b), j) {
        BlockMoves(s, b, s, j);
        assert false;
      }
    }
  }

  /** A match inside a text that occurs in `r` at `i` is a match of `r`,
      shifted by `i`, with the same captured group. */
  lemma MatchShifted(t: string, bb: BlockMatch, r: string, i: nat)
    requires IsBlockAt(t, bb) && OccursAt(r, t, i)
    ensures IsBlockAt(r, Moved(bb, bb.start + i))
    ensures Captured(r, Moved(bb, bb.start + i)) == Captured(t, bb)
  {
    WindowOfOccurrence(t, r, i, bb.start, bb.close - bb.start + 1);
    BlockMoves(t, bb, r, bb.start + i);
  }

  /** A window of a text that occurs in `r` at `i` is the same window of
      `r`, shifted by `i`. */
  lemma WindowOfOccurrence(t: string, r: string, i: nat, p: nat, n: nat)
    requires OccursAt(r, t, i) && p + n <= |t|
    ensures SameWindow(t, p, r, p + i, n)
  {
    SliceOfSlice(r, i, i + |t|, p, p + n);
  }
}
