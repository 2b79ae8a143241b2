/** What whole runs of the loader do to a manifest. The presence markers of
    packages and registries, once in the manifest, stay there through every
    later insertion. So after one `Load` on a manifest with a dependency
    block every package is present and a second `Load` adds no package
    (`PackagesOnce`). Every registry is present too, and a second `Load`
    writes the same text back and logs nothing, provided the manifest still
    holds a registry insertion point after the package loop (`Anchored`);
    `DefaultLoadTwice` establishes this for the shipped lists when the
    manifest already holds `"scopedRegistries": [`. */
module ManifestInvariants {
  import opened Text
  import opened DependencyData
  import opened PackageLoader
  import opened PackageNames
  import DependencyBlock

  // ---------------------------------------------------------------------------
  // Names and the shape of the markers

  /** `"<name>":` has quotes only at index 0 and just before the final `:`,
      and no brace or bracket. */
  lemma PackageMarkerShape(n: string)
    requires IsName(n)
    ensures var m := DependencyMarker(n);
      && |m| == |n| + 3 && m[0] == '"' && m[|m| - 2] == '"' && m[|m| - 1] == ':'
      && (forall k | 1 <= k < |m| - 2 :: IsNameChar(m[k]))
      && '{' !in m && '}' !in m && '[' !in m
  {
    var m := DependencyMarker(n);
    forall k | 1 <= k < |m| - 2
      ensures m[k] == n[k - 1]
    {
    }
    forall k | 0 <= k < |m|
      ensures m[k] != '{' && m[k] != '}' && m[k] != '['
    {
      if 1 <= k < |m| - 2 {
        assert IsNameChar(n[k - 1]);
      }
    }
  }

  /** `"name": "<name>"` has quotes only at indices 0, 5, 8 and at its end,
      and no brace or bracket. */
  lemma RegistryMarkerShape(n: string)
    requires IsName(n)
    ensures var m := RegistryMarker(n);
      && |m| == |n| + 10 && m[..9] == "\"name\": \"" && m[|m| - 1] == '"'
      && (forall k | 9 <= k < |m| - 1 :: IsNameChar(m[k]))
      && m[9..|m| - 1] == n
      && '{' !in m && '}' !in m && '[' !in m
  {
    var m := RegistryMarker(n);
    forall k | 9 <= k < |m| - 1
      ensures m[k] == n[k - 9]
    {
    }
    forall k | 0 <= k < |m|
      ensures m[k] != '{' && m[k] != '}' && m[k] != '['
    {
      if 9 <= k < |m| - 1 {
        assert IsNameChar(n[k - 9]);
      }
    }
  }

  /** The quotes of a package marker. */
  lemma PackageMarkerQuote(n: string, k: int)
    requires IsName(n) && 0 < k < |DependencyMarker(n)| && DependencyMarker(n)[k] == '"'
    ensures k == |DependencyMarker(n)| - 2
  {
    PackageMarkerShape(n);
  }

  /** The quotes of a registry marker. */
  lemma RegistryMarkerQuote(n: string, k: int)
    requires IsName(n) && 0 <= k < |RegistryMarker(n)| && RegistryMarker(n)[k] == '"'
    ensures k == 0 || k == 5 || k == 8 || k == |RegistryMarker(n)| - 1
  {
    var m := RegistryMarker(n);
    RegistryMarkerShape(n);
    if k < 9 {
      assert m[k] == m[..9][k];
    }
  }

  // ---------------------------------------------------------------------------
  // Where a marker can stand inside a matched dependency block

  /** The quotes of `"dependencies"`. */
  lemma KeyShape()
    ensures |DependencyBlock.Key| == 14
    ensures DependencyBlock.Key[0] == '"' && DependencyBlock.Key[1] == 'd' && DependencyBlock.Key[13] == '"'
    ensures forall i | 0 < i < 13 :: DependencyBlock.Key[i] != '"'
  {
  }

  /** Between the start of a match and its `{` a quote stands only at either
      end of the key. */
  lemma QuoteBeforeBrace(s: string, b: DependencyBlock.BlockMatch, k: int)
    requires DependencyBlock.IsBlockAt(s, b) && b.start <= k < b.open && s[k] == '"'
    ensures k == b.start || k == b.start + 13
  {
    KeyShape();
    if k < b.start + 14 {
      assert s[k] == s[b.start..b.start + 14][k - b.start];
    } else {
      AfterKey(s, b, k);
      assert false;
    }
  }

  /** After the key and before the `{` there is only white space and the `:`. */
  lemma AfterKey(s: string, b: DependencyBlock.BlockMatch, k: int)
    requires DependencyBlock.IsBlockAt(s, b) && b.start + 14 <= k < b.open
    ensures IsWhiteSpace(s[k]) || s[k] == ':'
  {
    KeyShape();
  }

  /** The second character of a match is the `d` of the key. */
  lemma SecondOfMatch(s: string, b: DependencyBlock.BlockMatch)
    requires DependencyBlock.IsBlockAt(s, b)
    ensures s[b.start] == '"' && s[b.start + 1] == 'd'
  {
    KeyShape();
    assert s[b.start + 1] == s[b.start..b.start + 14][1];
    assert s[b.start] == s[b.start..b.start + 14][0];
  }

  /** A text without braces that occurs within a match lies either wholly
      before its `{` or wholly inside its captured group. */
  lemma BraceFreeInBlock(s: string, b: DependencyBlock.BlockMatch, m: string, i: int)
    requires DependencyBlock.IsBlockAt(s, b) && OccursAt(s, m, i)
    requires b.start <= i && i + |m| <= b.close + 1
    requires m != [] && '{' !in m && '}' !in m
    ensures i + |m| <= b.open || (b.open < i && i + |m| <= b.close)
  {
    if i <= b.open < i + |m| {
      assert false;
    }
    if i <= b.close < i + |m| {
      assert false;
    }
  }

  /** An occurrence inside the captured group, in the group's coordinates. */
  lemma InCaptured(s: string, b: DependencyBlock.BlockMatch, m: string, i: int)
    requires b.open < i && i + |m| <= b.close < |s| && OccursAt(s, m, i)
    ensures OccursAt(DependencyBlock.Captured(s, b), m, i - b.open - 1)
  {
    var c := DependencyBlock.Captured(s, b);
    var j := i - b.open - 1;
    forall k | 0 <= k < |m|
      ensures c[j + k] == m[k]
    {
      assert c[j + k] == s[i + k];
      assert s[i + k] == s[i..i + |m|][k];
    }
    assert c[j..j + |m|] == m;
  }

  /** A package marker before the `{` of a match is `"dependencies":` at the
      very start of the match. */
  lemma PackageMarkerInHead(s: string, b: DependencyBlock.BlockMatch, n: string, i: int)
    requires DependencyBlock.IsBlockAt(s, b) && IsName(n)
    requires OccursAt(s, DependencyMarker(n), i) && b.start <= i
    ensures i + |DependencyMarker(n)| <= b.open ==> DependencyMarker(n) == DependencyBlock.Key + ":"
  {
    var m := DependencyMarker(n);
    if i + |m| <= b.open {
      PackageMarkerShape(n);
      assert s[i] == s[i..i + |m|][0] == '"';
      QuoteBeforeBrace(s, b, i);
      assert s[i + 1] == s[i..i + |m|][1] && IsNameChar(m[1]);
      if i == b.start + 13 {
        AfterKey(s, b, i + 1);
        assert false;
      }
      assert s[i + |m| - 2] == s[i..i + |m|][|m| - 2] == '"';
      QuoteBeforeBrace(s, b, i + |m| - 2);
      assert |m| == 15;
      assert m[..14] == s[b.start..b.start + 14] == DependencyBlock.Key;
      assert m == m[..14] + [m[14]];
    }
  }

  /** A registry marker never stands before the `{` of a match. */
  lemma RegistryMarkerInHead(s: string, b: DependencyBlock.BlockMatch, n: string, i: int)
    requires DependencyBlock.IsBlockAt(s, b) && IsName(n)
    requires OccursAt(s, RegistryMarker(n), i) && b.start <= i
    ensures i + |RegistryMarker(n)| > b.open
  {
    var m := RegistryMarker(n);
    if i + |m| <= b.open {
      RegistryMarkerShape(n);
      assert s[i] == s[i..i + |m|][0] == m[..9][0] == '"';
      assert s[i + 1] == s[i..i + |m|][1] == m[..9][1] == 'n';
      QuoteBeforeBrace(s, b, i);
      SecondOfMatch(s, b);
      if i == b.start + 13 {
        AfterKey(s, b, i + 1);
      }
      assert false;
    }
  }

  /** `"scopedRegistries": [` never stands before the `{` of a match. */
  lemma ArrayOpenInHead(s: string, b: DependencyBlock.BlockMatch, i: int)
    requires DependencyBlock.IsBlockAt(s, b)
    requires OccursAt(s, RegistriesOpen, i) && b.start <= i
    ensures i + |RegistriesOpen| > b.open
  {
    var m := RegistriesOpen;
    if i + |m| <= b.open {
      assert s[i] == s[i..i + |m|][0] == '"';
      assert s[i + 1] == s[i..i + |m|][1] == 's';
      QuoteBeforeBrace(s, b, i);
      SecondOfMatch(s, b);
      if i == b.start + 13 {
        AfterKey(s, b, i + 1);
      }
      assert false;
    }
  }

  // ---------------------------------------------------------------------------
  // Markers found inside the matched block reappear in the rewritten block

  /** The rewritten block begins with `"dependencies":`. */
  lemma BlockTextHead(x: string)
    ensures |BlockText(x)| >= 17
    ensures BlockText(x)[..14] == DependencyBlock.Key && BlockText(x)[14] == ':'
    ensures OccursAt(BlockText(x), DependencyBlock.Key + ":", 0)
  {
    assert BlockText(x)[..15] == DependencyBlock.Key + ":";
  }

  /** The matched text begins with the key and ends with `}`. */
  lemma MatchedShape(s: string, b: DependencyBlock.BlockMatch)
    requires DependencyBlock.IsBlockAt(s, b)
    ensures var w := DependencyBlock.Matched(s, b);
      && |w| >= 17 && w[..14] == DependencyBlock.Key && w[0] == '"' && w[1] == 'd' && w[|w| - 1] == '}'
  {
    KeyShape();
    var w := DependencyBlock.Matched(s, b);
    assert w[..14] == s[b.start..b.start + 14];
  }

  /** The rewritten block keeps every text found inside the trimmed old group
      that begins and ends with a non-white-space character. */
  lemma InNewBlock(s: string, b: DependencyBlock.BlockMatch, e: string, m: string, i: int)
    requires b.open < i && i + |m| <= b.close < |s| && OccursAt(s, m, i)
    requires m != [] && !IsWhiteSpace(m[0]) && !IsWhiteSpace(m[|m| - 1])
    ensures Contains(BlockText(AppendEntry(Trim(DependencyBlock.Captured(s, b)), e)), m)
  {
    InCaptured(s, b, m, i);
    TrimKeeps(DependencyBlock.Captured(s, b), m, i - b.open - 1);
    InBlockText(Trim(DependencyBlock.Captured(s, b)), e, m);
  }

  /** Text inside the old entries is inside the rewritten block. */
  lemma InBlockText(d: string, e: string, m: string)
    requires Contains(d, m) && m != []
    ensures Contains(BlockText(AppendEntry(d, e)), m)
  {
    assert d != [];
    ContainsBefore(d, EntrySeparator + e, m);
    assert d + (EntrySeparator + e) == AppendEntry(d, e);
    ContainsInMiddle("\"dependencies\": {\n    ", AppendEntry(d, e), "\n  }", m);
  }

  /** An occurrence inside the matched text, in the manifest's coordinates. */
  lemma FromMatched(s: string, b: DependencyBlock.BlockMatch, m: string) returns (j: int)
    requires b.start <= b.close < |s| && Contains(DependencyBlock.Matched(s, b), m)
    ensures OccursAt(s, m, j) && b.start <= j && j + |m| <= b.close + 1
  {
    var w := DependencyBlock.Matched(s, b);
    var i :| 0 <= i <= |w| - |m| && OccursAt(w, m, i);
    OccursWithin(s, w, b.start, m, i);
    j := b.start + i;
  }

  /** A package marker inside the matched block is also in the rewritten
      block. */
  lemma PackageMarkerInMatched(s: string, b: DependencyBlock.BlockMatch, n: string, e: string)
    requires DependencyBlock.IsBlockAt(s, b) && IsName(n)
    requires Contains(DependencyBlock.Matched(s, b), DependencyMarker(n))
    ensures Contains(BlockText(AppendEntry(Trim(DependencyBlock.Captured(s, b)), e)), DependencyMarker(n))
  {
    var m := DependencyMarker(n);
    var j := FromMatched(s, b, m);
    PackageMarkerShape(n);
    BraceFreeInBlock(s, b, m, j);
    PackageMarkerInHead(s, b, n, j);
    if j + |m| <= b.open {
      HeadKept(AppendEntry(Trim(DependencyBlock.Captured(s, b)), e), m);
    } else {
      InNewBlock(s, b, e, m, j);
    }
  }

  /** The rewritten block holds `"dependencies":`. */
  lemma HeadKept(x: string, m: string)
    requires m == DependencyBlock.Key + ":"
    ensures Contains(BlockText(x), m)
  {
    BlockTextHead(x);
  }

  /** A registry marker inside the matched block is also in the rewritten
      block. */
  lemma RegistryMarkerInMatched(s: string, b: DependencyBlock.BlockMatch, n: string, e: string)
    requires DependencyBlock.IsBlockAt(s, b) && IsName(n)
    requires Contains(DependencyBlock.Matched(s, b), RegistryMarker(n))
    ensures Contains(BlockText(AppendEntry(Trim(DependencyBlock.Captured(s, b)), e)), RegistryMarker(n))
  {
    var m := RegistryMarker(n);
    var j := FromMatched(s, b, m);
    RegistryMarkerShape(n);
    BraceFreeInBlock(s, b, m, j);
    RegistryMarkerInHead(s, b, n, j);
    InNewBlock(s, b, e, m, j);
  }

  /** `"scopedRegistries": [` inside the matched block is also in the
      rewritten block. */
  lemma ArrayOpenInMatched(s: string, b: DependencyBlock.BlockMatch, e: string)
    requires DependencyBlock.IsBlockAt(s, b)
    requires Contains(DependencyBlock.Matched(s, b), RegistriesOpen)
    ensures Contains(BlockText(AppendEntry(Trim(DependencyBlock.Captured(s, b)), e)), RegistriesOpen)
  {
    var j := FromMatched(s, b, RegistriesOpen);
    BraceFreeInBlock(s, b, RegistriesOpen, j);
    ArrayOpenInHead(s, b, j);
    InNewBlock(s, b, e, RegistriesOpen, j);
  }

  // ---------------------------------------------------------------------------
  // Occurrences of a replaced pattern that begin inside a marker

  /** No pattern beginning with a quote and a character other than `:` can
      begin inside a package marker. */
  lemma PackageMarkerOverlaps(n: string, pat: string, rep: string)
    requires IsName(n) && |pat| >= 2 && pat[0] == '"' && pat[1] != ':'
    ensures HeadOverlapsKept(DependencyMarker(n), pat, rep)
  {
    var m := DependencyMarker(n);
    PackageMarkerShape(n);
    forall k | 0 < k < |m| && |m| - k < |pat|
      ensures m[k..] != pat[..|m| - k]
    {
      if k == |m| - 2 {
        assert m[k..][1] == ':' && pat[..|m| - k][1] == pat[1];
      } else {
        assert m[k..][0] == m[k] != '"';
        assert pat[..|m| - k][0] == '"';
      }
    }
  }

  /** Nor inside `"scopedRegistries": [`. */
  lemma ArrayOpenOverlaps(pat: string, rep: string)
    requires |pat| >= 2 && pat[0] == '"' && pat[1] != ':'
    ensures HeadOverlapsKept(RegistriesOpen, pat, rep)
  {
    var m := RegistriesOpen;
    forall k | 0 < k < |m| && |m| - k < |pat|
      ensures m[k..] != pat[..|m| - k]
    {
      if k == 17 {
        assert m[k..][1] == ':' && pat[..|m| - k][1] == pat[1];
      } else {
        assert m[k..][0] == m[k] != '"';
        assert pat[..|m| - k][0] == '"';
      }
    }
  }

  /** Such a pattern can begin inside a registry marker only at its last
      quote or at the quote before the name; a replacement beginning with a
      quote repairs the first, and the second is the condition. */
  lemma RegistryMarkerOverlaps(n: string, pat: string, rep: string)
    requires IsName(n) && |pat| >= 2 && pat[0] == '"' && pat[1] != ':' && rep != [] && rep[0] == '"'
    requires var m := RegistryMarker(n);
      |m| - 8 < |pat| && m[8..] == pat[..|m| - 8] ==> |m| - 8 <= |rep| && rep[..|m| - 8] == m[8..]
    ensures HeadOverlapsKept(RegistryMarker(n), pat, rep)
  {
    var m := RegistryMarker(n);
    RegistryMarkerShape(n);
    forall k | 0 < k < |m| - 1 && |m| - k < |pat| && k != 8
      ensures m[k..] != pat[..|m| - k]
    {
      if k == 5 {
        assert m[k..][1] == m[..9][6] == ':';
        assert pat[..|m| - k][1] == pat[1];
      } else {
        if m[k] == '"' {
          RegistryMarkerQuote(n, k);
        }
        assert m[k..][0] == m[k] != '"';
        assert pat[..|m| - k][0] == '"';
      }
    }
    assert m[|m| - 1..] == ['"'] == rep[..1];
  }

  /** The rewritten block repairs a dependency block that begins at the
      quote before a registry marker's name. */
  lemma RegistryNameAtBlock(s: string, b: DependencyBlock.BlockMatch, n: string, x: string)
    requires DependencyBlock.IsBlockAt(s, b) && IsName(n)
    ensures var m := RegistryMarker(n);
      var w := DependencyBlock.Matched(s, b);
      |m| - 8 < |w| && m[8..] == w[..|m| - 8] ==>
        |m| - 8 <= |BlockText(x)| && BlockText(x)[..|m| - 8] == m[8..]
  {
    var m := RegistryMarker(n);
    var w := DependencyBlock.Matched(s, b);
    var j := |m| - 8;
    MatchedShape(s, b);
    BlockTextHead(x);
    RegistryMarkerShape(n);
    KeyShape();
    if j <= 14 {
      assert BlockText(x)[..j] == BlockText(x)[..14][..j];
      assert w[..j] == w[..14][..j];
    } else if j < |w| {
      assert m[8..][13] == m[21];
      assert IsNameChar(m[21]);
      assert w[..j][13] == w[..14][13] == '"';
    }
  }

  /** No registry marker other than that of a registry named
      `dependencies` holds `"dependencies` from the quote before its name. */
  lemma RegistryNameNotDependencies(n: string)
    requires IsName(n) && n != "dependencies"
    ensures var m := RegistryMarker(n);
      !(|m| - 8 < |DependenciesOpen| && m[8..] == DependenciesOpen[..|m| - 8])
  {
    var m := RegistryMarker(n);
    var j := |m| - 8;
    RegistryMarkerShape(n);
    if j < |DependenciesOpen| {
      assert m[8..][j - 1] == m[|m| - 1] == '"';
      if j == 14 {
        var i :| 0 <= i < 12 && n[i] != "dependencies"[i];
        assert m[8..][i + 1] == m[9..|m| - 1][i] == n[i];
        assert DependenciesOpen[..j][i + 1] == "dependencies"[i];
      } else {
        assert DependenciesOpen[..j][j - 1] != '"';
      }
    }
  }

  // ---------------------------------------------------------------------------
  // Markers survive both kinds of insertion

  /** A text whose presence the loader relies on: a package marker, a
      registry marker, or the head of the registry array. */
  datatype Marker = PackageMark(name: string) | RegistryMark(name: string) | ArrayMark

  /** The text of a marker. */
  function MarkerText(k: Marker): (m: string)
    ensures m != []
  {
    match k
    case PackageMark(n) => DependencyMarker(n)
    case RegistryMark(n) => RegistryMarker(n)
    case ArrayMark => RegistriesOpen
  }

  /** Markers that survive every insertion: names are proper names, and no
      registry is named `dependencies`. */
  predicate WellFormedMarker(k: Marker) {
    match k
    case PackageMark(n) => IsName(n)
    case RegistryMark(n) => IsName(n) && n != "dependencies"
    case ArrayMark => true
  }

  /** A well-formed marker present before `InsertDependency` is present
      after it. */
  lemma MarkerSurvivesInsert(s: string, name: string, version: string, k: Marker)
    requires WellFormedMarker(k) && Contains(s, MarkerText(k))
    ensures Contains(InsertDependency(s, name, version), MarkerText(k))
  {
    if DependencyBlock.Find(s).Some? {
      var b := DependencyBlock.Find(s).value;
      MarkerSurvivesBlock(s, b, DependencyEntry(name, version), k);
      assert InsertDependency(s, name, version)
        == ReplaceAll(s, DependencyBlock.Matched(s, b), NewBlock(s, b, name, version));
    }
  }

  /** A well-formed marker survives the replacement of a matched block by the
      block rewritten with an entry `e` appended. */
  lemma MarkerSurvivesBlock(s: string, b: DependencyBlock.BlockMatch, e: string, k: Marker)
    requires DependencyBlock.IsBlockAt(s, b) && WellFormedMarker(k) && Contains(s, MarkerText(k))
    ensures Contains(ReplaceAll(s, DependencyBlock.Matched(s, b),
      BlockText(AppendEntry(Trim(DependencyBlock.Captured(s, b)), e))), MarkerText(k))
  {
    var nb := BlockText(AppendEntry(Trim(DependencyBlock.Captured(s, b)), e));
    match k {
      case PackageMark(n) => PackageMarkSurvivesBlock(s, b, e, n);
      case RegistryMark(n) => RegistryMarkSurvivesBlock(s, b, e, n);
      case ArrayMark => ArrayMarkSurvivesBlock(s, b, e);
    }
    ReplaceKeepsContains(s, DependencyBlock.Matched(s, b), nb, MarkerText(k));
  }

  /** A package marker and the replacement of a matched block. */
  lemma PackageMarkSurvivesBlock(s: string, b: DependencyBlock.BlockMatch, e: string, n: string)
    requires DependencyBlock.IsBlockAt(s, b) && IsName(n)
    ensures SurvivesReplace(DependencyMarker(n), DependencyBlock.Matched(s, b),
      BlockText(AppendEntry(Trim(DependencyBlock.Captured(s, b)), e)))
  {
    var w := DependencyBlock.Matched(s, b);
    var m := DependencyMarker(n);
    MatchedShape(s, b);
    PackageMarkerShape(n);
    PackageMarkerOverlaps(n, w, BlockText(AppendEntry(Trim(DependencyBlock.Captured(s, b)), e)));
    if Contains(w, m) {
      PackageMarkerInMatched(s, b, n, e);
    }
    LastCharExcluded(w, m);
  }

  /** A registry marker and the replacement of a matched block. */
  lemma RegistryMarkSurvivesBlock(s: string, b: DependencyBlock.BlockMatch, e: string, n: string)
    requires DependencyBlock.IsBlockAt(s, b) && IsName(n)
    ensures SurvivesReplace(RegistryMarker(n), DependencyBlock.Matched(s, b),
      BlockText(AppendEntry(Trim(DependencyBlock.Captured(s, b)), e)))
  {
    var w := DependencyBlock.Matched(s, b);
    var m := RegistryMarker(n);
    var x := AppendEntry(Trim(DependencyBlock.Captured(s, b)), e);
    MatchedShape(s, b);
    BlockTextHead(x);
    KeyShape();
    RegistryMarkerShape(n);
    RegistryNameAtBlock(s, b, n, x);
    RegistryMarkerOverlaps(n, w, BlockText(x));
    if Contains(w, m) {
      RegistryMarkerInMatched(s, b, n, e);
    }
    LastCharExcluded(w, m);
  }

  /** The head of the registry array and the replacement of a matched
      block. */
  lemma ArrayMarkSurvivesBlock(s: string, b: DependencyBlock.BlockMatch, e: string)
    requires DependencyBlock.IsBlockAt(s, b)
    ensures SurvivesReplace(RegistriesOpen, DependencyBlock.Matched(s, b),
      BlockText(AppendEntry(Trim(DependencyBlock.Captured(s, b)), e)))
  {
    var w := DependencyBlock.Matched(s, b);
    var nb := BlockText(AppendEntry(Trim(DependencyBlock.Captured(s, b)), e));
    MatchedShape(s, b);
    if Contains(w, RegistriesOpen) {
      ArrayOpenInMatched(s, b, e);
    }
    ArrayMarkSurvives(w, nb);
  }

  /** The head of the registry array survives replacing a pattern that
      begins with a quote and a letter and ends with `}`, by a text that
      keeps the head wherever the pattern held it. */
  lemma ArrayMarkSurvives(pat: string, rep: string)
    requires |pat| >= 2 && pat[0] == '"' && pat[1] != ':' && pat[|pat| - 1] == '}'
    requires Contains(pat, RegistriesOpen) ==> Contains(rep, RegistriesOpen)
    ensures SurvivesReplace(RegistriesOpen, pat, rep)
  {
    ArrayOpenOverlaps(pat, rep);
    CloseBraceNotInArrayOpen();
    LastCharExcluded(pat, RegistriesOpen);
  }

  /** The head of the registry array holds no `}`. */
  lemma CloseBraceNotInArrayOpen()
    ensures '}' !in RegistriesOpen
  {
    var m := RegistriesOpen;
    forall k | 0 <= k < |m| ensures m[k] != '}' {
    }
  }

  /** The anchor begins with a quote and a letter and ends with `[` or `{`. */
  lemma AnchorShape(s: string)
    ensures var a := Anchor(s);
      |a| >= 2 && a[0] == '"' && a[1] != ':' && (a[|a| - 1] == '[' || a[|a| - 1] == '{')
  {
  }

  /** The replacement begins with a quote and holds the anchor; in the
      first branch it begins with the anchor. */
  lemma ReplacementShape(s: string, g: RegistryData, isLast: bool)
    ensures var rep := RegistryReplacement(s, g, isLast);
      && rep != [] && rep[0] == '"' && Contains(rep, Anchor(s))
      && (Contains(s, RegistriesKey) ==> |RegistriesOpen| <= |rep| && rep[..|RegistriesOpen|] == RegistriesOpen)
  {
    var json := RegistryJson(g);
    var rep := RegistryReplacement(s, g, isLast);
    if Contains(s, RegistriesKey) {
      OccursInMiddle([], RegistriesOpen, json + ",");
      assert [] + RegistriesOpen + (json + ",") == rep;
    } else {
      OccursInMiddle(RegistriesOpen + json + "]" + (if isLast then "" else ",") + "\n  ", DependenciesOpen, []);
      assert RegistriesOpen + json + "]" + (if isLast then "" else ",") + "\n  " + DependenciesOpen + [] == rep;
      assert rep[0] == RegistriesOpen[0];
    }
  }

  /** A package or registry marker present before `InsertScopedRegistry` is
      present after it. */
  lemma MarkerSurvivesRegistry(s: string, g: RegistryData, isLast: bool, k: Marker)
    requires WellFormedMarker(k) && !k.ArrayMark? && Contains(s, MarkerText(k))
    ensures Contains(InsertScopedRegistry(s, g, isLast), MarkerText(k))
  {
    var a := Anchor(s);
    var rep := RegistryReplacement(s, g, isLast);
    var m := MarkerText(k);
    if k.PackageMark? {
      PackageMarkSurvivesAnchor(s, g, isLast, k.name);
    } else {
      RegistryMarkSurvivesAnchor(s, g, isLast, k.name);
    }
    ReplaceKeepsContains(s, a, rep, m);
  }

  /** A package marker and the replacement of the anchor. */
  lemma PackageMarkSurvivesAnchor(s: string, g: RegistryData, isLast: bool, n: string)
    requires IsName(n)
    ensures SurvivesReplace(DependencyMarker(n), Anchor(s), RegistryReplacement(s, g, isLast))
  {
    var a := Anchor(s);
    var rep := RegistryReplacement(s, g, isLast);
    var m := DependencyMarker(n);
    AnchorShape(s);
    ReplacementShape(s, g, isLast);
    PackageMarkerShape(n);
    PackageMarkerOverlaps(n, a, rep);
    LastCharExcluded(a, m);
    if Contains(a, m) {
      ContainsTransitive(rep, a, m);
    }
  }

  /** A registry marker and the replacement of the anchor. */
  lemma RegistryMarkSurvivesAnchor(s: string, g: RegistryData, isLast: bool, n: string)
    requires IsName(n) && n != "dependencies"
    ensures SurvivesReplace(RegistryMarker(n), Anchor(s), RegistryReplacement(s, g, isLast))
  {
    var a := Anchor(s);
    var rep := RegistryReplacement(s, g, isLast);
    var m := RegistryMarker(n);
    AnchorShape(s);
    ReplacementShape(s, g, isLast);
    RegistryMarkerShape(n);
    if Contains(s, RegistriesKey) {
      ReplacementStartsWithPattern(m, a, rep);
    } else {
      RegistryNameNotDependencies(n);
      RegistryMarkerOverlaps(n, a, rep);
    }
    LastCharExcluded(a, m);
    if Contains(a, m) {
      ContainsTransitive(rep, a, m);
    }
  }

  // ---------------------------------------------------------------------------
  // The loops of Load

  /** `InsertScopedRegistry` finds the text it replaces. */
  predicate Anchored(text: string) {
    Contains(text, Anchor(text))
  }

  /** The package loop keeps every well-formed marker. */
  lemma {:induction false} PackagesKeep(text: string, packages: seq<PackageData>, k: Marker)
    requires WellFormedMarker(k) && Contains(text, MarkerText(k))
    ensures Contains(AddPackages(text, packages), MarkerText(k))
    decreases |packages|
  {
    if packages != [] {
      var before := packages[..|packages| - 1];
      var p := packages[|packages| - 1];
      PackagesKeep(text, before, k);
      if !Contains(AddPackages(text, before), DependencyMarker(p.name)) {
        MarkerSurvivesInsert(AddPackages(text, before), p.name, p.version, k);
      }
    }
  }

  /** The registry loop keeps every well-formed package or registry marker. */
  lemma {:induction false} RegistriesKeep(text: string, registries: seq<RegistryData>, k: Marker)
    requires WellFormedMarker(k) && !k.ArrayMark? && Contains(text, MarkerText(k))
    ensures Contains(AddRegistries(text, registries), MarkerText(k))
    decreases |registries|
  {
    if registries != [] {
      var before := registries[..|registries| - 1];
      var g := registries[|registries| - 1];
      RegistriesKeep(text, before, k);
      if !Contains(AddRegistries(text, before), RegistryMarker(g.name)) {
        MarkerSurvivesRegistry(AddRegistries(text, before), g, true, k);
      }
    }
  }

  /** An insertion leaves a dependency block that still matches. */
  lemma InsertKeepsBlock(text: string, name: string, version: string)
    requires DependencyBlock.Find(text).Some? && IsName(name) && '}' !in version
    ensures DependencyBlock.Find(InsertDependency(text, name, version)).Some?
  {
    var r := InsertDependency(text, name, version);
    var b := DependencyBlock.Find(text).value;
    NameHasNoBrace(name);
    InsertDependencyRewritesBlock(text, name, version);
    var m := DependencyBlock.MatchAt(r, b.start);
    assert DependencyBlock.IsBlockAt(r, m.value);
  }

  /** An insertion keeps every package that was present. */
  lemma InsertKeepsPresent(text: string, name: string, version: string, before: seq<PackageData>)
    requires DependencyBlock.Find(text).Some? && PackagesPresent(text, before) && WellFormedPackages(before)
    ensures PackagesPresent(InsertDependency(text, name, version), before)
  {
    forall q | q in before
      ensures Contains(InsertDependency(text, name, version), DependencyMarker(q.name))
    {
      MarkerSurvivesInsert(text, name, version, PackageMark(q.name));
    }
  }

  /** Inserting one more package into a text holding a block and the
      earlier packages keeps the block and adds the package. */
  lemma InsertStep(text: string, p: PackageData, before: seq<PackageData>)
    requires DependencyBlock.Find(text).Some? && PackagesPresent(text, before)
    requires WellFormedPackages(before) && IsName(p.name) && '}' !in p.version
    ensures DependencyBlock.Find(InsertDependency(text, p.name, p.version)).Some?
    ensures PackagesPresent(InsertDependency(text, p.name, p.version), before + [p])
  {
    var r := InsertDependency(text, p.name, p.version);
    InsertKeepsBlock(text, p.name, p.version);
    InsertKeepsPresent(text, p.name, p.version, before);
    InsertDependencyAddsEntry(text, p.name, p.version);
    PresentExtended(r, before, p);
  }

  lemma PresentExtended(text: string, before: seq<PackageData>, p: PackageData)
    requires PackagesPresent(text, before) && Contains(text, DependencyMarker(p.name))
    ensures PackagesPresent(text, before + [p])
  {
    forall q | q in before + [p]
      ensures Contains(text, DependencyMarker(q.name))
    {
      if q != p {
        assert q in before;
      }
    }
  }

  /** After the package loop over a manifest with a dependency block, the
      block still matches and every package is present. */
  lemma {:induction false} PackagesAdded(text: string, packages: seq<PackageData>)
    requires DependencyBlock.Find(text).Some? && WellFormedPackages(packages)
    ensures DependencyBlock.Find(AddPackages(text, packages)).Some?
    ensures PackagesPresent(AddPackages(text, packages), packages)
    decreases |packages|
  {
    if packages != [] {
      var before := packages[..|packages| - 1];
      var p := packages[|packages| - 1];
      assert packages == before + [p];
      assert p in packages;
      PackagesAdded(text, before);
      if !Contains(AddPackages(text, before), DependencyMarker(p.name)) {
        InsertStep(AddPackages(text, before), p, before);
      }
    }
  }

  /** Inserting a registry into an anchored text keeps it anchored and adds
      the registry. */
  lemma RegistryStaysAnchored(text: string, g: RegistryData)
    requires Anchored(text)
    ensures Anchored(InsertScopedRegistry(text, g, true))
    ensures Contains(InsertScopedRegistry(text, g, true), RegistryMarker(g.name))
  {
    var r := InsertScopedRegistry(text, g, true);
    InsertScopedRegistryAdds(text, g, true);
    assert OccursAt(RegistriesOpen, RegistriesKey, 0);
    ContainsTransitive(r, RegistriesOpen, RegistriesKey);
  }

  /** After the registry loop over an anchored text every registry is
      present. */
  lemma {:induction false} RegistriesAdded(text: string, registries: seq<RegistryData>)
    requires Anchored(text) && WellFormedRegistries(registries)
    ensures Anchored(AddRegistries(text, registries))
    ensures RegistriesPresent(AddRegistries(text, registries), registries)
    decreases |registries|
  {
    if registries != [] {
      var before := registries[..|registries| - 1];
      var g := registries[|registries| - 1];
      assert registries == before + [g];
      assert g in registries;
      RegistriesAdded(text, before);
      var t := AddRegistries(text, before);
      if !Contains(t, RegistryMarker(g.name)) {
        RegistryStaysAnchored(t, g);
        forall h | h in before
          ensures Contains(InsertScopedRegistry(t, g, true), RegistryMarker(h.name))
        {
          MarkerSurvivesRegistry(t, g, true, RegistryMark(h.name));
        }
      }
    }
  }

  /** After `Load` every package and every registry is present. */
  lemma LoadInstallsAll(text: string, packages: seq<PackageData>, registries: seq<RegistryData>)
    requires DependencyBlock.Find(text).Some?
    requires WellFormedPackages(packages) && WellFormedRegistries(registries)
    requires Anchored(AddPackages(text, packages))
    ensures PackagesPresent(LoadedManifest(text, packages, registries), packages)
    ensures RegistriesPresent(LoadedManifest(text, packages, registries), registries)
  {
    PackagesAdded(text, packages);
    RegistriesAdded(AddPackages(text, packages), registries);
    forall p | p in packages
      ensures Contains(LoadedManifest(text, packages, registries), DependencyMarker(p.name))
    {
      RegistriesKeep(AddPackages(text, packages), registries, PackageMark(p.name));
    }
  }

  /** The package half of a second `Load` needs no registry anchor: after
      `Load` on a manifest with a dependency block every package is present,
      so the package loop of a second `Load` changes and logs nothing. */
  lemma PackagesOnce(text: string, packages: seq<PackageData>, registries: seq<RegistryData>)
    requires DependencyBlock.Find(text).Some?
    requires WellFormedPackages(packages) && WellFormedRegistries(registries)
    ensures var once := LoadedManifest(text, packages, registries);
      && PackagesPresent(once, packages)
      && AddPackages(once, packages) == once && PackagesLog(once, packages) == []
  {
    var once := LoadedManifest(text, packages, registries);
    PackagesAdded(text, packages);
    forall p | p in packages
      ensures Contains(once, DependencyMarker(p.name))
    {
      RegistriesKeep(AddPackages(text, packages), registries, PackageMark(p.name));
    }
    PackagesPresentUnchanged(once, packages);
  }

  /** With every package present the package loop changes and logs nothing. */
  lemma {:induction false} PackagesPresentUnchanged(text: string, packages: seq<PackageData>)
    requires PackagesPresent(text, packages)
    ensures AddPackages(text, packages) == text && PackagesLog(text, packages) == []
    decreases |packages|
  {
    if packages != [] {
      var before := packages[..|packages| - 1];
      assert packages[|packages| - 1] in packages;
      PackagesPresentUnchanged(text, before);
    }
  }

  /** With every registry present the registry loop changes and logs
      nothing. */
  lemma {:induction false} RegistriesPresentUnchanged(text: string, registries: seq<RegistryData>)
    requires RegistriesPresent(text, registries)
    ensures AddRegistries(text, registries) == text && RegistriesLog(text, registries) == []
    decreases |registries|
  {
    if registries != [] {
      var before := registries[..|registries| - 1];
      assert registries[|registries| - 1] in registries;
      RegistriesPresentUnchanged(text, before);
    }
  }

  /** A second `Load` writes back the text of the first and logs no package
      or registry. */
  lemma LoadTwice(text: string, packages: seq<PackageData>, registries: seq<RegistryData>)
    requires DependencyBlock.Find(text).Some?
    requires WellFormedPackages(packages) && WellFormedRegistries(registries)
    requires Anchored(AddPackages(text, packages))
    ensures var once := LoadedManifest(text, packages, registries);
      LoadedManifest(once, packages, registries) == once && LoadLog(once, packages, registries) == []
  {
    var once := LoadedManifest(text, packages, registries);
    LoadInstallsAll(text, packages, registries);
    PackagesPresentUnchanged(once, packages);
    RegistriesPresentUnchanged(once, registries);
  }

  /** A manifest that already has a properly spaced registry array stays
      anchored through the package loop. */
  lemma ArrayAnchors(text: string, packages: seq<PackageData>)
    requires Contains(text, RegistriesOpen)
    ensures Anchored(AddPackages(text, packages))
  {
    PackagesKeep(text, packages, ArrayMark);
    assert OccursAt(RegistriesOpen, RegistriesKey, 0);
    ContainsTransitive(AddPackages(text, packages), RegistriesOpen, RegistriesKey);
  }

  /** For the installed lists: after `Load` on a manifest with a dependency
      block and a registry array, `CheckDependencies` finds everything, and
      loading again writes the same text and logs nothing. */
  lemma DefaultLoadTwice(text: string)
    requires DependencyBlock.Find(text).Some? && Contains(text, RegistriesOpen)
    ensures var once := LoadedManifest(text, Dependencies, ScopedRegistries);
      && PackagesPresent(once, Dependencies) && RegistriesPresent(once, ScopedRegistries)
      && LoadedManifest(once, Dependencies, ScopedRegistries) == once
      && LoadLog(once, Dependencies, ScopedRegistries) == []
  {
    DefaultDataWellFormed();
    ArrayAnchors(text, Dependencies);
    LoadInstallsAll(text, Dependencies, ScopedRegistries);
    LoadTwice(text, Dependencies, ScopedRegistries);
  }
}
