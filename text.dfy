/** The .NET string operations that the manifest and define-symbol editing
    relies on: `char.IsWhiteSpace`, `string.IsNullOrWhiteSpace`,
    `string.Contains`, `String.Replace`, `String.Trim`, `Split(';')` and
    `string.Join(";", ...)`, all with ordinal (character by character)
    comparison. */
module Text {
  import opened Wrappers

  // ---------------------------------------------------------------------------
  // White space and blank strings

  /** A character that `char.IsWhiteSpace` (and the regular-expression class
      `\s`) treats as white space. */
  predicate IsWhiteSpace(c: char) {
    c == ' ' || ('\t' <= c <= '\r') || c == '\U{85}' || c == '\U{A0}' || c == '\U{1680}'
    || ('\U{2000}' <= c <= '\U{200A}') || c == '\U{2028}' || c == '\U{2029}'
    || c == '\U{202F}' || c == '\U{205F}' || c == '\U{3000}'
  }

  /** Every character of `s` is white space; the empty string is blank. */
  predicate IsBlank(s: string) {
    forall k | 0 <= k < |s| :: IsWhiteSpace(s[k])
  }

  /** `string.IsNullOrWhiteSpace`. */
  predicate IsNullOrWhiteSpace(s: Option<string>) {
    s.None? || IsBlank(s.value)
  }

  /** `string.IsNullOrEmpty`. */
  predicate IsNullOrEmpty(s: Option<string>) {
    s.None? || s.value == ""
  }

  // ---------------------------------------------------------------------------
  // Substrings

  /** `pat` occurs in `s` starting at index `i`. */
  predicate OccursAt(s: string, pat: string, i: int) {
    0 <= i && i + |pat| <= |s| && s[i..i + |pat|] == pat
  }

  /** `s.Contains(pat)`. */
  predicate Contains(s: string, pat: string) {
    exists i | 0 <= i <= |s| - |pat| :: OccursAt(s, pat, i)
  }

  /** A slice of a slice is a slice of the original sequence. */
  lemma SliceOfSlice(s: string, a: int, b: int, c: int, d: int)
    requires 0 <= a <= b <= |s| && 0 <= c <= d <= b - a
    ensures s[a..b][c..d] == s[a + c..a + d]
  {
    forall k | 0 <= k < d - c ensures s[a..b][c..d][k] == s[a + c..a + d][k] {
      assert s[a..b][c..d][k] == s[a..b][c + k] == s[a + c + k];
    }
  }

  /** An occurrence of `b` inside an occurrence of `a` is an occurrence in `s`. */
  lemma OccursWithin(s: string, a: string, i: int, b: string, j: int)
    requires OccursAt(s, a, i) && OccursAt(a, b, j)
    ensures OccursAt(s, b, i + j)
  {
    forall k | 0 <= k < |b| ensures s[i + j + k] == b[k] {
      assert s[i..i + |a|][j + k] == a[j + k];
      assert a[j..j + |b|][k] == b[k];
    }
    assert s[i + j..i + j + |b|] == b;
  }

  lemma ContainsTransitive(s: string, a: string, b: string)
    requires Contains(s, a) && Contains(a, b)
    ensures Contains(s, b)
  {
    var i :| 0 <= i <= |s| - |a| && OccursAt(s, a, i);
    var j :| 0 <= j <= |a| - |b| && OccursAt(a, b, j);
    OccursWithin(s, a, i, b, j);
  }

  /** The middle part of a concatenation occurs where it was put. */
  lemma OccursInMiddle(x: string, a: string, y: string)
    ensures OccursAt(x + a + y, a, |x|)
  {
    var s := x + a + y;
    assert s[|x|..|x| + |a|] == a;
  }

  /** The position of an occurrence of `b` found inside an occurrence of
      `a`. */
  lemma Nested(s: string, a: string, i: int, b: string, j: int) returns (k: int)
    requires OccursAt(s, a, i) && OccursAt(a, b, j)
    ensures OccursAt(s, b, k)
  {
    OccursWithin(s, a, i, b, j);
    k := i + j;
  }

  /** A string contains whatever its middle part contains. */
  lemma ContainsInMiddle(x: string, a: string, y: string, b: string)
    requires Contains(a, b)
    ensures Contains(x + a + y, b)
  {
    OccursInMiddle(x, a, y);
    ContainsTransitive(x + a + y, a, b);
  }

  /** Text contained in `t` is contained in `a + t`. */
  lemma ContainsAfter(a: string, t: string, m: string)
    requires Contains(t, m)
    ensures Contains(a + t, m)
  {
    var i :| 0 <= i <= |t| - |m| && OccursAt(t, m, i);
    assert (a + t)[|a| + i..|a| + i + |m|] == t[i..i + |m|];
    assert OccursAt(a + t, m, |a| + i);
  }

  /** Text contained in `t` is contained in `t + a`. */
  lemma ContainsBefore(t: string, a: string, m: string)
    requires Contains(t, m)
    ensures Contains(t + a, m)
  {
    var i :| 0 <= i <= |t| - |m| && OccursAt(t, m, i);
    assert (t + a)[i..i + |m|] == t[i..i + |m|];
    assert OccursAt(t + a, m, i);
  }

  /** Every string contains itself. */
  lemma ContainsItself(s: string)
    ensures Contains(s, s)
  {
    assert OccursAt(s, s, 0);
  }

  /** The first index in `[from, to)` where `pat` occurs in `s`, or `to`. */
  function FirstOccurrence(s: string, pat: string, from: nat, to: nat): (j: nat)
    requires from <= to
    ensures from <= j <= to
    ensures forall k | from <= k < j :: !OccursAt(s, pat, k)
    ensures j < to ==> OccursAt(s, pat, j)
    decreases (to as int) - from
  {
    if from == to then to
    else if OccursAt(s, pat, from) then from
    else FirstOccurrence(s, pat, from + 1, to)
  }

  // ---------------------------------------------------------------------------
  // Replace

  /** `s.Replace(pat, rep)`: the occurrences of `pat` found scanning left to
      right, never overlapping one another, are each replaced by `rep`. */
  function ReplaceAll(s: string, pat: string, rep: string): string
    requires pat != []
    decreases |s|
  {
    if |s| < |pat| then s
    else if s[..|pat|] == pat then rep + ReplaceAll(s[|pat|..], pat, rep)
    else [s[0]] + ReplaceAll(s[1..], pat, rep)
  }

  /** Without an occurrence of `pat` there is nothing to replace. */
  lemma {:induction false} ReplaceAllWithout(s: string, pat: string, rep: string)
    requires pat != [] && !Contains(s, pat)
    ensures ReplaceAll(s, pat, rep) == s
    decreases |s|
  {
    if |s| >= |pat| {
      assert !OccursAt(s, pat, 0);
      ShiftedOccurrence(s, pat);
      ReplaceAllWithout(s[1..], pat, rep);
    }
  }

  /** An occurrence in the tail of `s` is an occurrence in `s`. */
  lemma ShiftedOccurrence(s: string, pat: string)
    requires s != []
    ensures Contains(s[1..], pat) ==> Contains(s, pat)
  {
    if Contains(s[1..], pat) {
      var i :| 0 <= i <= |s[1..]| - |pat| && OccursAt(s[1..], pat, i);
      assert s[i + 1..i + 1 + |pat|] == s[1..][i..i + |pat|];
      assert OccursAt(s, pat, i + 1);
    }
  }

  /** Replacing an occurrence that exists leaves the replacement text behind. */
  lemma {:induction false} ReplaceIntroduces(s: string, pat: string, rep: string)
    requires pat != [] && Contains(s, pat)
    ensures Contains(ReplaceAll(s, pat, rep), rep)
    decreases |s|
  {
    var r := ReplaceAll(s, pat, rep);
    if s[..|pat|] == pat {
      assert OccursAt(r, rep, 0);
    } else {
      var i :| 0 <= i <= |s| - |pat| && OccursAt(s, pat, i);
      assert i != 0;
      assert s[1..][i - 1..i - 1 + |pat|] == s[i..i + |pat|];
      assert OccursAt(s[1..], pat, i - 1);
      ReplaceIntroduces(s[1..], pat, rep);
      ContainsInMiddle([s[0]], ReplaceAll(s[1..], pat, rep), [], rep);
      assert [s[0]] + ReplaceAll(s[1..], pat, rep) + [] == r;
    }
  }

  /** A prefix in which no occurrence of `pat` begins is copied unchanged. */
  lemma {:induction false} ReplaceAllPrefix(s: string, pat: string, rep: string, k: nat)
    requires pat != [] && k <= |s|
    requires forall j | 0 <= j < k :: !OccursAt(s, pat, j)
    ensures ReplaceAll(s, pat, rep) == s[..k] + ReplaceAll(s[k..], pat, rep)
  {
    if k > 0 {
      assert !OccursAt(s, pat, 0);
      if |s| < |pat| {
        assert s == s[..k] + s[k..];
      } else {
        assert s[..|pat|] != pat;
        NoOccurrenceShifted(s, pat, k);
        ReplaceAllPrefix(s[1..], pat, rep, k - 1);
        assert s[1..][k - 1..] == s[k..];
        ConsPrefix(s, k, ReplaceAll(s[k..], pat, rep));
      }
    }
  }

  /** Dropping the first character moves every occurrence one place left. */
  lemma NoOccurrenceShifted(s: string, pat: string, k: nat)
    requires 0 < k <= |s|
    requires forall j | 0 <= j < k :: !OccursAt(s, pat, j)
    ensures forall j | 0 <= j < k - 1 :: !OccursAt(s[1..], pat, j)
  {
    forall j | 0 <= j < k - 1
      ensures !OccursAt(s[1..], pat, j)
    {
      if OccursAt(s[1..], pat, j) {
        assert s[j + 1..j + 1 + |pat|] == s[1..][j..j + |pat|];
        assert OccursAt(s, pat, j + 1);
      }
    }
  }

  lemma ConsPrefix(s: string, k: nat, t: string)
    requires 0 < k <= |s|
    ensures [s[0]] + (s[1..][..k - 1] + t) == s[..k] + t
  {
    assert [s[0]] + s[1..][..k - 1] == s[..k];
  }

  /** Replacing in a text that begins with `pat` starts with `rep`. */
  lemma ReplaceAtOccurrence(s: string, pat: string, rep: string, k: nat)
    requires pat != [] && OccursAt(s, pat, k)
    ensures ReplaceAll(s[k..], pat, rep) == rep + ReplaceAll(s[k + |pat|..], pat, rep)
  {
    var t := s[k..];
    assert t[..|pat|] == pat;
    assert t[|pat|..] == s[k + |pat|..];
  }

  /** When the first occurrence of `pat` is at `k`, the text before it is
      kept and `rep` takes its place. */
  lemma ReplaceFirstAt(s: string, pat: string, rep: string, k: nat)
    requires pat != [] && OccursAt(s, pat, k)
    requires forall j | 0 <= j < k :: !OccursAt(s, pat, j)
    ensures ReplaceAll(s, pat, rep) == s[..k] + rep + ReplaceAll(s[k + |pat|..], pat, rep)
  {
    ReplaceAllPrefix(s, pat, rep, k);
    ReplaceAtOccurrence(s, pat, rep, k);
    Regroup(ReplaceAll(s, pat, rep), s[..k], ReplaceAll(s[k..], pat, rep), rep, ReplaceAll(s[k + |pat|..], pat, rep));
  }

  lemma Regroup(r: string, a: string, t: string, b: string, c: string)
    requires r == a + t && t == b + c
    ensures r == a + b + c
  {
  }

  /** The replacement of the first occurrence stands where it began. */
  lemma ReplaceFirstPlaces(s: string, pat: string, rep: string, k: nat)
    requires pat != [] && OccursAt(s, pat, k)
    requires forall j | 0 <= j < k :: !OccursAt(s, pat, j)
    ensures OccursAt(ReplaceAll(s, pat, rep), rep, k)
  {
    ReplaceFirstAt(s, pat, rep, k);
    OccursInMiddle(s[..k], rep, ReplaceAll(s[k + |pat|..], pat, rep));
  }

  /** No occurrence of `pat` can begin before an occurrence of `m` and end
      strictly inside it. */
  predicate NoTailOverlap(pat: string, m: string) {
    forall k | 0 < k < |pat| && |pat| - k < |m| :: pat[k..] != m[..|pat| - k]
  }

  /** Whenever a proper tail of `m` is a head of `pat` (an occurrence of `pat`
      beginning strictly inside `m` and ending after it), `rep` begins with
      that same tail. */
  predicate HeadOverlapsKept(m: string, pat: string, rep: string) {
    forall k | 0 < k < |m| && |m| - k < |pat| && m[k..] == pat[..|m| - k] ::
      |m| - k <= |rep| && rep[..|m| - k] == m[k..]
  }

  /** The conditions under which an occurrence of `m` survives
      `Replace(pat, rep)`: the two can only overlap in ways the replacement
      repairs. `m` inside `pat` is also in `rep`, `pat` is never inside `m`,
      `pat` never ends inside `m`, and where `pat` begins inside `m`, `rep`
      begins the same way. */
  predicate SurvivesReplace(m: string, pat: string, rep: string) {
    && pat != [] && m != []
    && (Contains(pat, m) ==> Contains(rep, m))
    && !Contains(m, pat)
    && NoTailOverlap(pat, m)
    && HeadOverlapsKept(m, pat, rep)
  }

  /** A pattern whose last character is not in `m` can neither occur in `m`
      nor end inside it. */
  lemma LastCharExcluded(pat: string, m: string)
    requires pat != [] && pat[|pat| - 1] !in m
    ensures !Contains(m, pat) && NoTailOverlap(pat, m)
  {
    forall i | 0 <= i <= |m| - |pat|
      ensures !OccursAt(m, pat, i)
    {
      assert m[i + |pat| - 1] in m;
      assert m[i..i + |pat|][|pat| - 1] == m[i + |pat| - 1];
    }
    forall k | 0 < k < |pat| && |pat| - k < |m|
      ensures pat[k..] != m[..|pat| - k]
    {
      assert m[|pat| - 1 - k] in m;
      assert m[..|pat| - k][|pat| - 1 - k] == m[|pat| - 1 - k];
      assert pat[k..][|pat| - 1 - k] == pat[|pat| - 1];
    }
  }

  /** A replacement that begins with the pattern repairs every occurrence of
      the pattern that begins inside `m`. */
  lemma ReplacementStartsWithPattern(m: string, pat: string, rep: string)
    requires |pat| <= |rep| && rep[..|pat|] == pat
    ensures HeadOverlapsKept(m, pat, rep)
  {
    forall k | 0 < k < |m| && |m| - k < |pat| && m[k..] == pat[..|m| - k]
      ensures rep[..|m| - k] == m[k..]
    {
      assert rep[..|m| - k] == rep[..|pat|][..|m| - k];
    }
  }

  /** An occurrence of `m` survives `Replace(pat, rep)` under the conditions
      of `SurvivesReplace`. */
  lemma {:induction false} ReplaceKeeps(s: string, pat: string, rep: string, m: string, i: int)
    requires SurvivesReplace(m, pat, rep)
    requires OccursAt(s, m, i)
    ensures Contains(ReplaceAll(s, pat, rep), m)
    decreases |s|
  {
    if |s| < |pat| {
      assert ReplaceAll(s, pat, rep) == s;
    } else if s[..|pat|] == pat {
      var tail := ReplaceAll(s[|pat|..], pat, rep);
      assert ReplaceAll(s, pat, rep) == rep + tail;
      if i >= |pat| {
        assert s[|pat|..][i - |pat|..i - |pat| + |m|] == s[i..i + |m|];
        ReplaceKeeps(s[|pat|..], pat, rep, m, i - |pat|);
        ContainsAfter(rep, tail, m);
      } else {
        KeepsInsideReplaced(s, pat, rep, m, i);
        ContainsBefore(rep, tail, m);
      }
    } else if i >= 1 {
      var tail := ReplaceAll(s[1..], pat, rep);
      assert ReplaceAll(s, pat, rep) == [s[0]] + tail;
      assert s[1..][i - 1..i - 1 + |m|] == s[i..i + |m|];
      ReplaceKeeps(s[1..], pat, rep, m, i - 1);
      ContainsAfter([s[0]], tail, m);
    } else {
      KeepsAtStart(s, pat, rep, m);
    }
  }

  /** `s.Contains(m)` is kept by `Replace(pat, rep)` under the conditions of
      `SurvivesReplace`. */
  lemma ReplaceKeepsContains(s: string, pat: string, rep: string, m: string)
    requires SurvivesReplace(m, pat, rep) && Contains(s, m)
    ensures Contains(ReplaceAll(s, pat, rep), m)
  {
    var i :| 0 <= i <= |s| - |m| && OccursAt(s, m, i);
    ReplaceKeeps(s, pat, rep, m, i);
  }

  /** Case of `ReplaceKeeps`: `s` begins with `pat` and `m` begins inside it,
      so `m` lies inside `pat`. */
  lemma KeepsInsideReplaced(s: string, pat: string, rep: string, m: string, i: int)
    requires SurvivesReplace(m, pat, rep)
    requires OccursAt(s, m, i) && OccursAt(s, pat, 0) && i < |pat|
    ensures Contains(rep, m)
  {
    if i + |m| <= |pat| {
      assert pat[i..i + |m|] == s[i..i + |m|];
      assert OccursAt(pat, m, i);
    } else if i == 0 {
      assert m[..|pat|] == s[..|pat|];
      assert OccursAt(m, pat, 0);
      assert false;
    } else {
      TailOverlap(s, pat, m, i);
      assert false;
    }
  }

  /** An occurrence of `pat` at 0 and of `m` at `i`, with `m` reaching past
      the end of `pat`, overlap in `pat[i..]`. */
  lemma TailOverlap(s: string, pat: string, m: string, i: int)
    requires OccursAt(s, pat, 0) && OccursAt(s, m, i)
    requires 0 < i < |pat| < i + |m|
    ensures pat[i..] == m[..|pat| - i]
  {
    assert pat[i..] == s[i..|pat|];
    assert m[..|pat| - i] == s[i..|pat|];
  }

  /** Case of `ReplaceKeeps`: `m` is at the very start of `s` and `pat` is not. */
  lemma KeepsAtStart(s: string, pat: string, rep: string, m: string)
    requires SurvivesReplace(m, pat, rep)
    requires OccursAt(s, m, 0) && |s| >= |pat| && s[..|pat|] != pat
    ensures Contains(ReplaceAll(s, pat, rep), m)
  {
    var j := FirstOccurrence(s, pat, 1, |m|);
    assert !OccursAt(s, pat, 0);
    ReplaceAllPrefix(s, pat, rep, j);
    if j == |m| {
      KeepsBeforeFirst(s, pat, rep, m);
    } else {
      KeepsFromFirst(s, pat, rep, m, j);
    }
  }

  /** Case of `KeepsAtStart`: the first occurrence of `pat` begins at `j`,
      inside `m`; it cannot end inside `m`, so `rep` begins with the rest of
      `m`. */
  lemma KeepsFromFirst(s: string, pat: string, rep: string, m: string, j: int)
    requires pat != [] && !Contains(m, pat) && HeadOverlapsKept(m, pat, rep)
    requires OccursAt(s, m, 0) && 0 < j < |m| && OccursAt(s, pat, j)
    requires ReplaceAll(s, pat, rep) == s[..j] + ReplaceAll(s[j..], pat, rep)
    ensures Contains(ReplaceAll(s, pat, rep), m)
  {
    if j + |pat| <= |m| {
      assert m[j..j + |pat|] == s[j..j + |pat|];
      assert OccursAt(m, pat, j);
      assert false;
    }
    assert m[j..] == s[j..|m|] == pat[..|m| - j];
    assert |m| - j <= |rep| && rep[..|m| - j] == m[j..];
    KeepsAcrossHead(s, pat, rep, m, j);
  }

  /** Case of `KeepsAtStart`: `m` ends before the first occurrence of `pat`. */
  lemma KeepsBeforeFirst(s: string, pat: string, rep: string, m: string)
    requires pat != [] && OccursAt(s, m, 0)
    requires ReplaceAll(s, pat, rep) == s[..|m|] + ReplaceAll(s[|m|..], pat, rep)
    ensures Contains(ReplaceAll(s, pat, rep), m)
  {
    var r := ReplaceAll(s, pat, rep);
    assert r[..|m|] == s[..|m|] == m;
    assert OccursAt(r, m, 0);
  }

  /** Case of `KeepsAtStart`: the first occurrence of `pat` begins at `j`,
      inside `m`, and `rep` begins with the part of `m` from `j` on. */
  lemma KeepsAcrossHead(s: string, pat: string, rep: string, m: string, j: int)
    requires pat != [] && OccursAt(s, m, 0) && 0 < j < |m|
    requires OccursAt(s, pat, j)
    requires ReplaceAll(s, pat, rep) == s[..j] + ReplaceAll(s[j..], pat, rep)
    requires |m| - j <= |rep| && rep[..|m| - j] == m[j..]
    ensures Contains(ReplaceAll(s, pat, rep), m)
  {
    ReplaceAtOccurrence(s, pat, rep, j);
    assert s[..j] == m[..j];
    HeadThenReplacement(ReplaceAll(s, pat, rep), s[..j], rep, ReplaceAll(s[j + |pat|..], pat, rep), m);
  }

  /** `m` begins a text made of `m`'s first part, then a replacement that
      begins with the rest of `m`. */
  lemma HeadThenReplacement(r: string, a: string, rep: string, t: string, m: string)
    requires r == a + (rep + t) && |a| < |m|
    requires a == m[..|a|] && |m| - |a| <= |rep| && rep[..|m| - |a|] == m[|a|..]
    ensures Contains(r, m)
  {
    assert r[..|m|] == a + rep[..|m| - |a|];
    assert r[..|m|] == m;
    assert OccursAt(r, m, 0);
  }

  // ---------------------------------------------------------------------------
  // Trim

  /** `s.TrimStart()`. */
  function TrimStart(s: string): (r: string)
    ensures |r| <= |s| && r == s[|s| - |r|..]
    ensures forall k | 0 <= k < |s| - |r| :: IsWhiteSpace(s[k])
    ensures r != [] ==> !IsWhiteSpace(r[0])
  {
    if s != [] && IsWhiteSpace(s[0]) then TrimStart(s[1..]) else s
  }

  /** `s.TrimEnd()`. */
  function TrimEnd(s: string): (r: string)
    ensures |r| <= |s| && r == s[..|r|]
    ensures forall k | |r| <= k < |s| :: IsWhiteSpace(s[k])
    ensures r != [] ==> !IsWhiteSpace(r[|r| - 1])
  {
    if s != [] && IsWhiteSpace(s[|s| - 1]) then TrimEnd(s[..|s| - 1]) else s
  }

  /** `s.Trim()`: empty exactly for a blank string; otherwise it begins and
      ends with a character that is not white space. */
  function Trim(s: string): (r: string)
    ensures r == [] <==> IsBlank(s)
    ensures r != [] ==> !IsWhiteSpace(r[0]) && !IsWhiteSpace(r[|r| - 1])
  {
    var u := TrimStart(s);
    var v := TrimEnd(u);
    assert v == [] ==> u == [] by {
      if u != [] { assert v[0] == u[0]; }
    }
    assert u != [] ==> !IsBlank(s) by {
      if u != [] { assert s[|s| - |u|] == u[0]; }
    }
    v
  }

  /** An occurrence that starts and ends with non-white-space characters
      survives trimming. */
  lemma TrimKeeps(s: string, m: string, t: int)
    requires OccursAt(s, m, t) && m != []
    requires !IsWhiteSpace(m[0]) && !IsWhiteSpace(m[|m| - 1])
    ensures Contains(Trim(s), m)
  {
    var j := TrimStartKeeps(s, m, t);
    TrimEndKeeps(TrimStart(s), m, j);
    assert Trim(s) == TrimEnd(TrimStart(s));
  }

  /** Where an occurrence beginning with a non-white-space character stands
      after `TrimStart`. */
  lemma TrimStartKeeps(s: string, m: string, t: int) returns (j: int)
    requires OccursAt(s, m, t) && m != [] && !IsWhiteSpace(m[0])
    ensures OccursAt(TrimStart(s), m, j)
  {
    j := t - (|s| - |TrimStart(s)|);
    SuffixKeeps(s, TrimStart(s), m, t);
  }

  /** An occurrence beginning with a non-white-space character stays in a
      suffix that drops only white space. */
  lemma SuffixKeeps(s: string, u: string, m: string, t: int)
    requires |u| <= |s| && u == s[|s| - |u|..]
    requires forall k | 0 <= k < |s| - |u| :: IsWhiteSpace(s[k])
    requires OccursAt(s, m, t) && m != [] && !IsWhiteSpace(m[0])
    ensures OccursAt(u, m, t - (|s| - |u|))
  {
    var off := |s| - |u|;
    assert s[t] == s[t..t + |m|][0] == m[0];
    assert t >= off;
    var j := t - off;
    forall k | 0 <= k < |m|
      ensures u[j + k] == m[k]
    {
      assert u[j + k] == s[t + k];
      assert s[t + k] == s[t..t + |m|][k];
    }
    assert u[j..j + |m|] == m;
  }

  /** An occurrence ending with a non-white-space character is kept by
      `TrimEnd` at the same place. */
  lemma TrimEndKeeps(u: string, m: string, j: int)
    requires OccursAt(u, m, j) && m != [] && !IsWhiteSpace(m[|m| - 1])
    ensures OccursAt(TrimEnd(u), m, j)
  {
    PrefixKeeps(u, TrimEnd(u), m, j);
  }

  /** An occurrence ending with a non-white-space character stays in a
      prefix that drops only white space. */
  lemma PrefixKeeps(u: string, v: string, m: string, j: int)
    requires |v| <= |u| && v == u[..|v|]
    requires forall k | |v| <= k < |u| :: IsWhiteSpace(u[k])
    requires OccursAt(u, m, j) && m != [] && !IsWhiteSpace(m[|m| - 1])
    ensures OccursAt(v, m, j)
  {
    assert u[j + |m| - 1] == u[j..j + |m|][|m| - 1] == m[|m| - 1];
    assert j + |m| <= |v|;
    forall k | 0 <= k < |m|
      ensures v[j + k] == m[k]
    {
      assert v[j + k] == u[j + k];
      assert u[j + k] == u[j..j + |m|][k];
    }
    assert v[j..j + |m|] == m;
  }

  /** Trimming keeps only characters of the string. */
  lemma TrimWithin(s: string)
    ensures forall c | c in Trim(s) :: c in s
  {
    var u := TrimStart(s);
    var v := TrimEnd(u);
    assert Trim(s) == v;
    forall c | c in v
      ensures c in s
    {
      var k :| 0 <= k < |v| && v[k] == c;
      assert u[k] == c;
      assert s[|s| - |u| + k] == c;
    }
  }

  /** Trimming a text padded with white space on both sides gives the text
      back when it begins and ends with non-white-space characters. */
  lemma TrimPadded(a: string, x: string, c: string)
    requires IsBlank(a) && IsBlank(c) && x != []
    requires !IsWhiteSpace(x[0]) && !IsWhiteSpace(x[|x| - 1])
    ensures Trim(a + x + c) == x
  {
    assert a + x + c == a + (x + c);
    TrimStartPadded(a, x + c);
    TrimEndPadded(x, c);
  }

  /** Leading white space is all that `TrimStart` removes. */
  lemma {:induction false} TrimStartPadded(a: string, y: string)
    requires IsBlank(a) && y != [] && !IsWhiteSpace(y[0])
    ensures TrimStart(a + y) == y
    decreases |a|
  {
    if a != [] {
      assert (a + y)[1..] == a[1..] + y;
      TrimStartPadded(a[1..], y);
    }
  }

  /** Trailing white space is all that `TrimEnd` removes. */
  lemma {:induction false} TrimEndPadded(y: string, c: string)
    requires IsBlank(c) && y != [] && !IsWhiteSpace(y[|y| - 1])
    ensures TrimEnd(y + c) == y
    decreases |c|
  {
    if c != [] {
      assert (y + c)[..|y + c| - 1] == y + c[..|c| - 1];
      TrimEndPadded(y, c[..|c| - 1]);
    } else {
      assert y + c == y;
    }
  }

  // ---------------------------------------------------------------------------
  // Split and Join

  /** `s.Split(sep)`: the pieces between separators, empty pieces included;
      the empty string splits into one empty piece. */
  function Split(s: string, sep: char): (parts: seq<string>)
    ensures |parts| >= 1
    ensures forall p | p in parts :: sep !in p
    decreases |s|
  {
    if s == [] then [[]]
    else
      var rest := Split(s[1..], sep);
      if s[0] == sep then [[]] + rest else [[s[0]] + rest[0]] + rest[1..]
  }

  /** `string.Join(sep, parts)`. */
  function Join(parts: seq<string>, sep: char): string {
    if |parts| == 0 then []
    else if |parts| == 1 then parts[0]
    else parts[0] + [sep] + Join(parts[1..], sep)
  }

  /** Joining the pieces of a split gives back the string. */
  lemma {:induction false} JoinSplit(s: string, sep: char)
    ensures Join(Split(s, sep), sep) == s
    decreases |s|
  {
    if s != [] {
      var rest := Split(s[1..], sep);
      JoinSplit(s[1..], sep);
      if s[0] == sep {
        assert Join([[]] + rest, sep) == [] + [sep] + Join(rest, sep);
      } else if |rest| == 1 {
        assert Join([[s[0]] + rest[0]] + rest[1..], sep) == [s[0]] + rest[0];
      } else {
        var parts := [[s[0]] + rest[0]] + rest[1..];
        assert parts[1..] == rest[1..];
        assert Join(rest, sep) == rest[0] + [sep] + Join(rest[1..], sep);
      }
    }
  }

  /** A string without the separator is a single piece. */
  lemma {:induction false} SplitWithoutSeparator(s: string, sep: char)
    requires sep !in s
    ensures Split(s, sep) == [s]
    decreases |s|
  {
    if s != [] {
      SplitWithoutSeparator(s[1..], sep);
      assert [s[0]] + s[1..] == s;
    }
  }

  /** Splitting at an inner separator splits both sides independently. */
  lemma {:induction false} SplitAppend(a: string, b: string, sep: char)
    ensures Split(a + [sep] + b, sep) == Split(a, sep) + Split(b, sep)
    decreases |a|
  {
    var s := a + [sep] + b;
    if a == [] {
      assert s[1..] == b;
    } else {
      assert s[1..] == a[1..] + [sep] + b;
      SplitAppend(a[1..], b, sep);
    }
  }

  /** Splitting a join of separator-free pieces gives back the pieces. */
  lemma {:induction false} SplitJoin(parts: seq<string>, sep: char)
    requires |parts| >= 1
    requires forall p | p in parts :: sep !in p
    ensures Split(Join(parts, sep), sep) == parts
    decreases |parts|
  {
    if |parts| == 1 {
      SplitWithoutSeparator(parts[0], sep);
    } else {
      SplitJoin(parts[1..], sep);
      SplitAppend(parts[0], Join(parts[1..], sep), sep);
      SplitWithoutSeparator(parts[0], sep);
      assert [parts[0]] + parts[1..] == parts;
    }
  }

  /** Each piece joined into a string occurs in it. */
  lemma {:induction false} JoinContainsParts(parts: seq<string>, sep: char, k: nat)
    requires k < |parts|
    ensures Contains(Join(parts, sep), parts[k])
    decreases |parts|
  {
    if |parts| == 1 {
      ContainsItself(parts[0]);
    } else if k == 0 {
      ContainsItself(parts[0]);
      ContainsInMiddle([], parts[0], [sep] + Join(parts[1..], sep), parts[0]);
      assert [] + parts[0] + ([sep] + Join(parts[1..], sep)) == Join(parts, sep);
    } else {
      JoinContainsParts(parts[1..], sep, k - 1);
      ContainsInMiddle(parts[0] + [sep], Join(parts[1..], sep), [], parts[k]);
      assert parts[0] + [sep] + Join(parts[1..], sep) + [] == Join(parts, sep);
    }
  }

  /** Every piece of a split occurs in the split string. */
  lemma SplitPartsOccur(s: string, sep: char, p: string)
    requires p in Split(s, sep)
    ensures Contains(s, p)
  {
    var parts := Split(s, sep);
    var k :| 0 <= k < |parts| && parts[k] == p;
    JoinContainsParts(parts, sep, k);
    JoinSplit(s, sep);
  }

  // ---------------------------------------------------------------------------
  // Filtering

  /** `xs.Where(t => t != x)`: `xs` with every element equal to `x` dropped,
      the others kept in order. */
  function Without(xs: seq<string>, x: string): (r: seq<string>)
    ensures forall t :: t in r <==> t in xs && t != x
    ensures multiset(r) == multiset(xs)[x := 0]
  {
    if xs == [] then []
    else
      assert xs == [xs[0]] + xs[1..];
      if xs[0] == x then Without(xs[1..], x) else [xs[0]] + Without(xs[1..], x)
  }

  lemma {:induction false} WithoutAppend(xs: seq<string>, ys: seq<string>, x: string)
    ensures Without(xs + ys, x) == Without(xs, x) + Without(ys, x)
    decreases |xs|
  {
    if xs != [] {
      assert (xs + ys)[1..] == xs[1..] + ys;
      WithoutAppend(xs[1..], ys, x);
    } else {
      assert xs + ys == ys;
    }
  }

  /** Dropping an element that does not occur changes nothing. */
  lemma {:induction false} WithoutAbsent(xs: seq<string>, x: string)
    requires x !in xs
    ensures Without(xs, x) == xs
    decreases |xs|
  {
    if xs != [] {
      WithoutAbsent(xs[1..], x);
      assert [xs[0]] + xs[1..] == xs;
    }
  }
}
