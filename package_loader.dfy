/** Editing of the package manifest (`Packages/manifest.json`) and of the
    scripting define symbols (PackageLoader.cs). The manifest text and the
    define string are passed in and out: reading and writing the file, the
    asset database refresh and the PlayerSettings store are not modelled. */
module PackageLoader {
  import opened Wrappers
  import opened Text
  import opened DependencyData
  import DependencyBlock

  /** The scripting define symbol the loader adds and removes. */
  const MainDefine: string := "UnityExtensions"

  /** The message logged when the manifest file does not exist. */
  const ManifestMissing: string := "manifest.json not found!"

  /** A line of the editor log: `Debug.Log` or `Debug.LogError`. */
  datatype LogEntry = LogInfo(message: string) | LogError(message: string)

  // ---------------------------------------------------------------------------
  // Presence markers and the text written into the manifest

  /** `"<name>":`, the text whose presence means a package is installed. */
  function DependencyMarker(name: string): string {
    "\"" + name + "\":"
  }

  /** `"name": "<name>"`, the text whose presence means a registry is
      installed. */
  function RegistryMarker(name: string): string {
    "\"name\": \"" + name + "\""
  }

  /** The new dependency entry `"<name>": "<version>"`. */
  function DependencyEntry(name: string, version: string): (e: string)
    ensures OccursAt(e, DependencyMarker(name), 0)
  {
    DependencyMarker(name) + " \"" + version + "\""
  }

  /** What goes between two entries of the rewritten dependency block. */
  const EntrySeparator: string := ",\n    "

  /** The new content of the dependency block: the trimmed old content, then
      the separator when that content is non-empty, then the new entry. */
  function AppendEntry(depsContent: string, entry: string): string {
    if depsContent == "" then entry else depsContent + EntrySeparator + entry
  }

  /** The text of `parts` with `sep` between each two of them. */
  function JoinWith(parts: seq<string>, sep: string): string {
    if |parts| == 0 then ""
    else if |parts| == 1 then parts[0]
    else JoinWith(parts[..|parts| - 1], sep) + sep + parts[|parts| - 1]
  }

  /** A list of entries as `InsertDependency` lays them out. */
  function EntryList(entries: seq<string>): string {
    JoinWith(entries, EntrySeparator)
  }

  /** The replacement text of the whole matched dependency block. */
  function BlockText(entries: string): string {
    "\"dependencies\": {\n    " + entries + "\n  }"
  }

  // ---------------------------------------------------------------------------
  // InsertDependency

  /** The text that replaces the matched block `b`: its trimmed content with
      the new entry appended, laid out afresh. */
  function NewBlock(manifest: string, b: DependencyBlock.BlockMatch, name: string, version: string): string
    requires b.open < b.close <= |manifest|
  {
    var depsContent := Trim(DependencyBlock.Captured(manifest, b));
    BlockText(AppendEntry(depsContent, DependencyEntry(name, version)))
  }

  /** Adds `"<name>": "<version>"` at the end of the first dependency block:
      every occurrence of the matched block text is replaced by the rewritten
      block. Without a block the manifest is returned as it is. */
  function InsertDependency(manifest: string, name: string, version: string): (r: string)
    ensures DependencyBlock.Find(manifest).None? ==> r == manifest
  {
    match DependencyBlock.Find(manifest)
    case None => manifest
    case Some(b) =>
      ReplaceAll(manifest, DependencyBlock.Matched(manifest, b), NewBlock(manifest, b, name, version))
  }

  /** The rewritten block stands where the first match began. */
  lemma InsertDependencyPlacesBlock(manifest: string, name: string, version: string)
    requires DependencyBlock.Find(manifest).Some?
    ensures var b := DependencyBlock.Find(manifest).value;
      OccursAt(InsertDependency(manifest, name, version), NewBlock(manifest, b, name, version), b.start)
  {
    var b := DependencyBlock.Find(manifest).value;
    var w := DependencyBlock.Matched(manifest, b);
    var nb := NewBlock(manifest, b, name, version);
    DependencyBlock.FindIsFirstOccurrence(manifest);
    ReplaceFirstPlaces(manifest, w, nb, b.start);
    assert InsertDependency(manifest, name, version) == ReplaceAll(manifest, w, nb);
  }

  /** When a dependency block matches, the new entry and so the package's
      presence marker occur in the result. */
  lemma InsertDependencyAddsEntry(manifest: string, name: string, version: string)
    requires DependencyBlock.Find(manifest).Some?
    ensures Contains(InsertDependency(manifest, name, version), DependencyEntry(name, version))
    ensures Contains(InsertDependency(manifest, name, version), DependencyMarker(name))
  {
    var q := EntryPosition(manifest, name, version);
    EntryGivesMarker(InsertDependency(manifest, name, version), name, version, q);
  }

  /** Where the new entry stands in the result of an insertion. */
  lemma EntryPosition(manifest: string, name: string, version: string) returns (q: nat)
    requires DependencyBlock.Find(manifest).Some?
    ensures OccursAt(InsertDependency(manifest, name, version), DependencyEntry(name, version), q)
  {
    var b := DependencyBlock.Find(manifest).value;
    InsertDependencyPlacesBlock(manifest, name, version);
    var p := EntryInNewBlock(manifest, b, name, version);
    q := Nested(InsertDependency(manifest, name, version), NewBlock(manifest, b, name, version), b.start,
      DependencyEntry(name, version), p);
  }

  /** A text holding an entry holds the entry's presence marker. */
  lemma EntryGivesMarker(r: string, name: string, version: string, q: nat)
    requires OccursAt(r, DependencyEntry(name, version), q)
    ensures Contains(r, DependencyEntry(name, version)) && Contains(r, DependencyMarker(name))
  {
    OccursWithin(r, DependencyEntry(name, version), q, DependencyMarker(name), 0);
  }

  /** Where the new entry stands in the rewritten block. */
  lemma EntryInNewBlock(manifest: string, b: DependencyBlock.BlockMatch, name: string, version: string)
    returns (p: nat)
    requires b.open < b.close <= |manifest|
    ensures OccursAt(NewBlock(manifest, b, name, version), DependencyEntry(name, version), p)
  {
    var e := DependencyEntry(name, version);
    var x := AppendEntry(Trim(DependencyBlock.Captured(manifest, b)), e);
    OccursInMiddle("\"dependencies\": {\n    ", x, "\n  }");
    EntryAtEnd(Trim(DependencyBlock.Captured(manifest, b)), e);
    OccursWithin(BlockText(x), x, 22, e, |x| - |e|);
    p := 22 + |x| - |e|;
  }

  /** The new entry ends the new entry list. */
  lemma EntryAtEnd(d: string, e: string)
    ensures OccursAt(AppendEntry(d, e), e, |AppendEntry(d, e)| - |e|)
  {
    if d != "" {
      OccursInMiddle(d + EntrySeparator, e, "");
      assert d + EntrySeparator + e + "" == AppendEntry(d, e);
    } else {
      assert AppendEntry(d, e)[0..|e|] == e;
    }
  }

  /** The separator goes only between entries: appending an entry to a laid
      out list of entries is laying out the longer list. */
  lemma AppendExtendsEntryList(entries: seq<string>, e: string)
    requires forall x | x in entries :: x != []
    ensures AppendEntry(EntryList(entries), e) == EntryList(entries + [e])
  {
    var all := entries + [e];
    assert all[..|all| - 1] == entries;
    if |entries| == 1 {
      assert entries[0] in entries;
    }
  }

  /** The rewritten block text is itself a match of the block pattern,
      whose captured group is the new entry list between the padding. */
  lemma BlockTextIsBlock(x: string)
    requires '}' !in x
    ensures DependencyBlock.IsBlockAt(BlockText(x), DependencyBlock.BlockMatch(0, 14, 16, |BlockText(x)| - 1))
    ensures DependencyBlock.Captured(BlockText(x), DependencyBlock.BlockMatch(0, 14, 16, |BlockText(x)| - 1))
      == "\n    " + x + "\n  "
  {
    var nb := BlockText(x);
    var mid := "\n    " + x + "\n  ";
    assert nb == DependenciesOpen + mid + "}";
    assert nb[..14] == DependencyBlock.Key;
    forall k | 16 < k < |nb| - 1
      ensures nb[k] != '}'
    {
      assert nb[k] == mid[k - 17];
      assert mid[k - 17] in mid;
    }
    assert nb[17..|nb| - 1] == mid;
  }

  /** Wherever the rewritten block text occurs, the block pattern matches
      there and captures the padded entry list. */
  lemma BlockTextMatches(r: string, i: nat, nb: string, x: string)
    requires OccursAt(r, nb, i) && nb == BlockText(x) && '}' !in x
    ensures
      var bb := DependencyBlock.BlockMatch(i, i + 14, i + 16, i + |BlockText(x)| - 1);
      && DependencyBlock.MatchAt(r, i) == Some(bb)
      && DependencyBlock.Captured(r, bb) == "\n    " + x + "\n  "
  {
    BlockTextIsBlock(x);
    DependencyBlock.MatchShifted(BlockText(x), DependencyBlock.BlockMatch(0, 14, 16, |BlockText(x)| - 1), r, i);
  }

  /** The new entry list is non-empty, begins and ends with a character that
      is not white space, and holds no `}` when neither part does. */
  lemma AppendEntryShape(d: string, e: string)
    requires d == "" || !IsWhiteSpace(d[0])
    requires e != [] && !IsWhiteSpace(e[0]) && !IsWhiteSpace(e[|e| - 1])
    requires '}' !in d && '}' !in e
    ensures var x := AppendEntry(d, e);
      x != [] && !IsWhiteSpace(x[0]) && !IsWhiteSpace(x[|x| - 1]) && '}' !in x
  {
    var x := AppendEntry(d, e);
    assert x[|x| - 1] == e[|e| - 1];
    if d != "" {
      assert x[0] == d[0];
    }
  }

  /** After an insertion the block pattern still matches where the old block
      began, and the trimmed content of the new block is the old trimmed
      content with the new entry appended. */
  lemma InsertDependencyRewritesBlock(manifest: string, name: string, version: string)
    requires DependencyBlock.Find(manifest).Some?
    requires '}' !in name && '}' !in version
    ensures
      var b := DependencyBlock.Find(manifest).value;
      var m := DependencyBlock.MatchAt(InsertDependency(manifest, name, version), b.start);
      && m.Some?
      && Trim(DependencyBlock.Captured(InsertDependency(manifest, name, version), m.value))
         == AppendEntry(Trim(DependencyBlock.Captured(manifest, b)), DependencyEntry(name, version))
  {
    var b := DependencyBlock.Find(manifest).value;
    var x := AppendEntry(Trim(DependencyBlock.Captured(manifest, b)), DependencyEntry(name, version));
    InsertDependencyPlacesBlock(manifest, name, version);
    NewEntriesShape(manifest, b, name, version);
    RescanBlockText(InsertDependency(manifest, name, version), b.start, NewBlock(manifest, b, name, version), x);
  }

  /** Scanning again where a rewritten block stands finds it, and trimming
      its captured group gives back its entry list. */
  lemma RescanBlockText(r: string, i: nat, nb: string, x: string)
    requires OccursAt(r, nb, i) && nb == BlockText(x) && '}' !in x
    requires x != [] && !IsWhiteSpace(x[0]) && !IsWhiteSpace(x[|x| - 1])
    ensures var m := DependencyBlock.MatchAt(r, i);
      m.Some? && Trim(DependencyBlock.Captured(r, m.value)) == x
  {
    BlockTextMatches(r, i, nb, x);
    TrimPadded("\n    ", x, "\n  ");
  }

  /** The new entry list of a match holds no `}` and begins and ends with a
      character that is not white space. */
  lemma NewEntriesShape(manifest: string, b: DependencyBlock.BlockMatch, name: string, version: string)
    requires DependencyBlock.IsBlockAt(manifest, b)
    requires '}' !in name && '}' !in version
    ensures var x := AppendEntry(Trim(DependencyBlock.Captured(manifest, b)), DependencyEntry(name, version));
      x != [] && !IsWhiteSpace(x[0]) && !IsWhiteSpace(x[|x| - 1]) && '}' !in x
  {
    var c := DependencyBlock.Captured(manifest, b);
    var e := DependencyEntry(name, version);
    DependencyBlock.CapturedHasNoClose(manifest, b);
    TrimWithin(c);
    assert e[0] == '"' && e[|e| - 1] == '"';
    assert '}' !in e;
    AppendEntryShape(Trim(c), e);
  }

  /** The trimmed dependency content read as a list of entries grows by
      exactly the new entry, at the end. */
  lemma InsertDependencyAppendsEntry(manifest: string, name: string, version: string, entries: seq<string>)
    requires DependencyBlock.Find(manifest).Some?
    requires '}' !in name && '}' !in version
    requires forall x | x in entries :: x != []
    requires Trim(DependencyBlock.Captured(manifest, DependencyBlock.Find(manifest).value)) == EntryList(entries)
    ensures
      var b := DependencyBlock.Find(manifest).value;
      var m := DependencyBlock.MatchAt(InsertDependency(manifest, name, version), b.start);
      && m.Some?
      && Trim(DependencyBlock.Captured(InsertDependency(manifest, name, version), m.value))
         == EntryList(entries + [DependencyEntry(name, version)])
  {
    InsertDependencyRewritesBlock(manifest, name, version);
    AppendExtendsEntryList(entries, DependencyEntry(name, version));
  }

  // ---------------------------------------------------------------------------
  // InsertScopedRegistry

  /** Each scope in double quotes. */
  function Quoted(items: seq<string>): seq<string> {
    seq(|items|, i requires 0 <= i < |items| => "\"" + items[i] + "\"")
  }

  /** The JSON object written for a registry. */
  function RegistryJson(registry: RegistryData): (json: string)
    ensures Contains(json, RegistryMarker(registry.name))
  {
    var head := "\n    {\n      ";
    var tail := ",\n      \"url\": \"" + registry.url + "\",\n      \"scopes\": ["
      + JoinWith(Quoted(registry.scopes), ", ") + "]\n    }";
    ContainsItself(RegistryMarker(registry.name));
    ContainsInMiddle(head, RegistryMarker(registry.name), tail, RegistryMarker(registry.name));
    head + RegistryMarker(registry.name) + tail
  }

  /** `"scopedRegistries":`, whose presence selects the first branch. */
  const RegistriesKey: string := "\"scopedRegistries\":"

  /** `"scopedRegistries": [`, the text replaced in the first branch. */
  const RegistriesOpen: string := "\"scopedRegistries\": ["

  /** `"dependencies": {`, the text replaced in the second branch. */
  const DependenciesOpen: string := "\"dependencies\": {"

  /** The text that `InsertScopedRegistry` replaces in `manifest`. */
  function Anchor(manifest: string): string {
    if Contains(manifest, RegistriesKey) then RegistriesOpen else DependenciesOpen
  }

  /** The replacement of `"scopedRegistries": [` when the array exists. */
  function IntoRegistries(json: string): string {
    RegistriesOpen + json + ","
  }

  /** The replacement of `"dependencies": {` when no array exists. */
  function BeforeDependencies(json: string, isLast: bool): string {
    RegistriesOpen + json + "]" + (if isLast then "" else ",") + "\n  " + DependenciesOpen
  }

  /** What replaces the anchor: the registry entry put at the head of the
      existing array, or a new array holding it placed before the
      dependency block. */
  function RegistryReplacement(manifest: string, registry: RegistryData, isLast: bool): string {
    if Contains(manifest, RegistriesKey) then IntoRegistries(RegistryJson(registry))
    else BeforeDependencies(RegistryJson(registry), isLast)
  }

  /** Adds the registry's JSON object: every occurrence of the anchor is
      replaced. `isLast` is `true` at every call in the source. */
  function InsertScopedRegistry(manifest: string, registry: RegistryData, isLast: bool): string {
    ReplaceAll(manifest, Anchor(manifest), RegistryReplacement(manifest, registry, isLast))
  }

  /** Without the anchor the manifest is returned unchanged; in particular a
      `"scopedRegistries":` key not followed by exactly one space and `[`
      blocks every insertion. */
  lemma InsertScopedRegistryWithoutAnchor(manifest: string, registry: RegistryData, isLast: bool)
    requires !Contains(manifest, Anchor(manifest))
    ensures InsertScopedRegistry(manifest, registry, isLast) == manifest
  {
    ReplaceAllWithout(manifest, Anchor(manifest), RegistryReplacement(manifest, registry, isLast));
  }

  /** The replacement holds the registry's presence marker and a properly
      spaced `"scopedRegistries": [`. */
  lemma ReplacementContents(manifest: string, registry: RegistryData, isLast: bool)
    ensures Contains(RegistryReplacement(manifest, registry, isLast), RegistryMarker(registry.name))
    ensures Contains(RegistryReplacement(manifest, registry, isLast), RegistriesOpen)
  {
    var tail := if Contains(manifest, RegistriesKey) then "," else "]" + (if isLast then "" else ",") + "\n  " + DependenciesOpen;
    assert RegistryReplacement(manifest, registry, isLast) == RegistriesOpen + RegistryJson(registry) + tail;
    ArrayHolds(registry, tail);
  }

  /** The array head followed by a registry's JSON object holds the
      registry's presence marker and the array head. */
  lemma ArrayHolds(registry: RegistryData, tail: string)
    ensures Contains(RegistriesOpen + RegistryJson(registry) + tail, RegistryMarker(registry.name))
    ensures Contains(RegistriesOpen + RegistryJson(registry) + tail, RegistriesOpen)
  {
    var json := RegistryJson(registry);
    ContainsInMiddle(RegistriesOpen, json, tail, RegistryMarker(registry.name));
    OccursInMiddle([], RegistriesOpen, json + tail);
    assert [] + RegistriesOpen + (json + tail) == RegistriesOpen + json + tail;
  }

  /** When the anchor occurs, the result holds the replacement chosen by the
      branch (so the registry's presence marker) and a properly spaced
      `"scopedRegistries": [` array. */
  lemma InsertScopedRegistryAdds(manifest: string, registry: RegistryData, isLast: bool)
    requires Contains(manifest, Anchor(manifest))
    ensures Contains(manifest, RegistriesKey) ==>
      Contains(InsertScopedRegistry(manifest, registry, isLast), IntoRegistries(RegistryJson(registry)))
    ensures !Contains(manifest, RegistriesKey) ==>
      Contains(InsertScopedRegistry(manifest, registry, isLast), BeforeDependencies(RegistryJson(registry), isLast))
    ensures Contains(InsertScopedRegistry(manifest, registry, isLast), RegistryMarker(registry.name))
    ensures Contains(InsertScopedRegistry(manifest, registry, isLast), RegistriesOpen)
  {
    var rep := RegistryReplacement(manifest, registry, isLast);
    var r := InsertScopedRegistry(manifest, registry, isLast);
    ReplaceIntroduces(manifest, Anchor(manifest), rep);
    ReplacementContents(manifest, registry, isLast);
    ContainsTransitive(r, rep, RegistryMarker(registry.name));
    ContainsTransitive(r, rep, RegistriesOpen);
  }

  /** What follows the registry array that `InsertScopedRegistry` places
      before the dependency block: `]`, a comma unless `isLast`, and the
      `"dependencies"` key. */
  function ArrayEnd(isLast: bool): string {
    "]" + (if isLast then "" else ",") + "\n  " + DependenciesOpen
  }

  /** In a manifest without registries, the new array is followed by
      `ArrayEnd(isLast)`. */
  lemma SeparatorBeforeDependencies(manifest: string, registry: RegistryData, isLast: bool)
    requires !Contains(manifest, RegistriesKey) && Contains(manifest, DependenciesOpen)
    ensures Contains(InsertScopedRegistry(manifest, registry, isLast), ArrayEnd(isLast))
  {
    var json := RegistryJson(registry);
    InsertScopedRegistryAdds(manifest, registry, isLast);
    TailOfFive(RegistriesOpen + json, "]", if isLast then "" else ",", "\n  ", DependenciesOpen);
    ContainsTransitive(InsertScopedRegistry(manifest, registry, isLast), BeforeDependencies(json, isLast), ArrayEnd(isLast));
  }

  /** A concatenation contains the concatenation of its last four parts. */
  lemma TailOfFive(x: string, a: string, b: string, c: string, d: string)
    ensures Contains(x + a + b + c + d, a + b + c + d)
  {
    OccursInMiddle(x, a + b + c + d, []);
    assert x + (a + b + c + d) + [] == x + a + b + c + d;
  }

  /** As written, `Load` leaves `isLast` at its default `true`: in a manifest
      without registries the new array's `]` is followed directly by the
      `"dependencies"` key, with no comma between the two members, so the
      manifest is no longer valid JSON. */
  lemma MissingCommaBeforeDependencies(manifest: string, registry: RegistryData)
    requires !Contains(manifest, RegistriesKey) && Contains(manifest, DependenciesOpen)
    ensures Contains(InsertScopedRegistry(manifest, registry, true), "]\n  " + DependenciesOpen)
  {
    SeparatorBeforeDependencies(manifest, registry, true);
    assert ArrayEnd(true) == "]\n  " + DependenciesOpen;
  }

  /** The registry insertion `Load` evidently intends: `InsertScopedRegistry`
      with `isLast` false, so that a new array is separated from the
      dependency block by a comma. `Load` is modelled as written, with
      `InsertScopedRegistry(_, _, true)`. */
  function InsertRegistry(manifest: string, registry: RegistryData): (r: string)
    ensures !Contains(manifest, RegistriesKey) && Contains(manifest, DependenciesOpen) ==>
      Contains(r, "],\n  " + DependenciesOpen)
    ensures Contains(manifest, Anchor(manifest)) ==> Contains(r, RegistryMarker(registry.name))
    ensures !Contains(manifest, Anchor(manifest)) ==> r == manifest
  {
    if !Contains(manifest, Anchor(manifest)) then
      InsertScopedRegistryWithoutAnchor(manifest, registry, false);
      InsertScopedRegistry(manifest, registry, false)
    else if Contains(manifest, RegistriesKey) then
      InsertScopedRegistryAdds(manifest, registry, false);
      InsertScopedRegistry(manifest, registry, false)
    else
      InsertScopedRegistryAdds(manifest, registry, false);
      SeparatorBeforeDependencies(manifest, registry, false);
      assert ArrayEnd(false) == "],\n  " + DependenciesOpen;
      InsertScopedRegistry(manifest, registry, false)
  }

  // ---------------------------------------------------------------------------
  // Load

  /** One step of the package loop: insert the package when its marker is
      absent. */
  function AddPackage(text: string, package: PackageData): string {
    if Contains(text, DependencyMarker(package.name)) then text
    else InsertDependency(text, package.name, package.version)
  }

  /** The manifest text after the package loop has run over `packages`. */
  function AddPackages(text: string, packages: seq<PackageData>): string {
    if packages == [] then text
    else AddPackage(AddPackages(text, packages[..|packages| - 1]), packages[|packages| - 1])
  }

  /** The lines the package loop logs. */
  function PackagesLog(text: string, packages: seq<PackageData>): seq<LogEntry> {
    if packages == [] then []
    else
      var before := packages[..|packages| - 1];
      var p := packages[|packages| - 1];
      PackagesLog(text, before)
      + if Contains(AddPackages(text, before), DependencyMarker(p.name)) then []
        else [LogInfo("Added package: " + p.name + "@" + p.version)]
  }

  /** One step of the registry loop. */
  function AddRegistry(text: string, registry: RegistryData): string {
    if Contains(text, RegistryMarker(registry.name)) then text
    else InsertScopedRegistry(text, registry, true)
  }

  /** The manifest text after the registry loop has run over `registries`. */
  function AddRegistries(text: string, registries: seq<RegistryData>): string {
    if registries == [] then text
    else AddRegistry(AddRegistries(text, registries[..|registries| - 1]), registries[|registries| - 1])
  }

  /** The lines the registry loop logs. */
  function RegistriesLog(text: string, registries: seq<RegistryData>): seq<LogEntry> {
    if registries == [] then []
    else
      var before := registries[..|registries| - 1];
      var g := registries[|registries| - 1];
      RegistriesLog(text, before)
      + if Contains(AddRegistries(text, before), RegistryMarker(g.name)) then []
        else [LogInfo("Added registry: " + g.name)]
  }

  /** The manifest text `Load` writes back. */
  function LoadedManifest(text: string, packages: seq<PackageData>, registries: seq<RegistryData>): string {
    AddRegistries(AddPackages(text, packages), registries)
  }

  /** The package loop's text and log after one more package. */
  lemma PackageStep(text: string, packages: seq<PackageData>, i: int)
    requires 0 <= i < |packages|
    ensures AddPackages(text, packages[..i + 1]) == AddPackage(AddPackages(text, packages[..i]), packages[i])
    ensures PackagesLog(text, packages[..i + 1]) == PackagesLog(text, packages[..i])
      + if Contains(AddPackages(text, packages[..i]), DependencyMarker(packages[i].name)) then []
        else [LogInfo("Added package: " + packages[i].name + "@" + packages[i].version)]
  {
    assert packages[..i + 1][..i] == packages[..i];
  }

  /** The registry loop's text and log after one more registry. */
  lemma RegistryStep(text: string, registries: seq<RegistryData>, j: int)
    requires 0 <= j < |registries|
    ensures AddRegistries(text, registries[..j + 1]) == AddRegistry(AddRegistries(text, registries[..j]), registries[j])
    ensures RegistriesLog(text, registries[..j + 1]) == RegistriesLog(text, registries[..j])
      + if Contains(AddRegistries(text, registries[..j]), RegistryMarker(registries[j].name)) then []
        else [LogInfo("Added registry: " + registries[j].name)]
  {
    assert registries[..j + 1][..j] == registries[..j];
  }

  /** Every line `Load` logs for an existing manifest. */
  function LoadLog(text: string, packages: seq<PackageData>, registries: seq<RegistryData>): seq<LogEntry> {
    PackagesLog(text, packages) + RegistriesLog(AddPackages(text, packages), registries)
  }

  /** The "Load Dependencies" menu command on the manifest (`None` when the
      file is missing) and the define string of the selected build target.
      It returns the text written back, the new define string and the log. */
  method Load(manifest: Option<string>, defines: string)
    returns (written: Option<string>, newDefines: string, log: seq<LogEntry>)
    ensures manifest.None? ==> written == None && newDefines == defines && log == [LogError(ManifestMissing)]
    ensures manifest.Some? ==>
      && written == Some(LoadedManifest(manifest.value, Dependencies, ScopedRegistries))
      && newDefines == DefineAdded(defines)
      && log == LoadLog(manifest.value, Dependencies, ScopedRegistries)
  {
    if manifest.None? {
      return None, defines, [LogError(ManifestMissing)];
    }
    var manifestText := manifest.value;
    log := [];
    var i := 0;
    while i < |Dependencies|
      invariant 0 <= i <= |Dependencies|
      invariant manifestText == AddPackages(manifest.value, Dependencies[..i])
      invariant log == PackagesLog(manifest.value, Dependencies[..i])
    {
      var package := Dependencies[i];
      PackageStep(manifest.value, Dependencies, i);
      if !Contains(manifestText, DependencyMarker(package.name)) {
        manifestText := InsertDependency(manifestText, package.name, package.version);
        log := log + [LogInfo("Added package: " + package.name + "@" + package.version)];
      }
      i := i + 1;
    }
    assert Dependencies[..i] == Dependencies;
    var afterPackages := manifestText;
    var j := 0;
    while j < |ScopedRegistries|
      invariant 0 <= j <= |ScopedRegistries|
      invariant manifestText == AddRegistries(afterPackages, ScopedRegistries[..j])
      invariant log == PackagesLog(manifest.value, Dependencies) + RegistriesLog(afterPackages, ScopedRegistries[..j])
    {
      var registry := ScopedRegistries[j];
      RegistryStep(afterPackages, ScopedRegistries, j);
      if !Contains(manifestText, RegistryMarker(registry.name)) {
        manifestText := InsertScopedRegistry(manifestText, registry, true);
        log := log + [LogInfo("Added registry: " + registry.name)];
      }
      j := j + 1;
    }
    assert ScopedRegistries[..j] == ScopedRegistries;
    written := Some(manifestText);
    newDefines := DefineAdded(defines);
  }

  // ---------------------------------------------------------------------------
  // CheckDependencies

  /** Every package marker occurs in `text`. */
  predicate PackagesPresent(text: string, packages: seq<PackageData>) {
    forall p | p in packages :: Contains(text, DependencyMarker(p.name))
  }

  /** Every registry marker occurs in `text`. */
  predicate RegistriesPresent(text: string, registries: seq<RegistryData>) {
    forall g | g in registries :: Contains(text, RegistryMarker(g.name))
  }

  /** The lines `CheckDependencies` logs, in order. */
  function MissingLog(text: string, packages: seq<PackageData>, registries: seq<RegistryData>): seq<LogEntry> {
    if registries != [] then
      MissingLog(text, packages, registries[..|registries| - 1])
      + if Contains(text, RegistryMarker(registries[|registries| - 1].name)) then []
        else [LogInfo("Registry missing: " + registries[|registries| - 1].name)]
    else if packages != [] then
      MissingLog(text, packages[..|packages| - 1], [])
      + if Contains(text, DependencyMarker(packages[|packages| - 1].name)) then []
        else [LogInfo("Package missing: " + packages[|packages| - 1].name)]
    else []
  }

  /** The package check's verdict and log after one more package. */
  lemma MissingPackageStep(text: string, packages: seq<PackageData>, i: int)
    requires 0 <= i < |packages|
    ensures PackagesPresent(text, packages[..i + 1])
      <==> PackagesPresent(text, packages[..i]) && Contains(text, DependencyMarker(packages[i].name))
    ensures MissingLog(text, packages[..i + 1], []) == MissingLog(text, packages[..i], [])
      + if Contains(text, DependencyMarker(packages[i].name)) then []
        else [LogInfo("Package missing: " + packages[i].name)]
  {
    assert packages[..i + 1][..i] == packages[..i];
    assert packages[..i + 1] == packages[..i] + [packages[i]];
  }

  /** The registry check's verdict and log after one more registry. */
  lemma MissingRegistryStep(text: string, packages: seq<PackageData>, registries: seq<RegistryData>, j: int)
    requires 0 <= j < |registries|
    ensures RegistriesPresent(text, registries[..j + 1])
      <==> RegistriesPresent(text, registries[..j]) && Contains(text, RegistryMarker(registries[j].name))
    ensures MissingLog(text, packages, registries[..j + 1]) == MissingLog(text, packages, registries[..j])
      + if Contains(text, RegistryMarker(registries[j].name)) then []
        else [LogInfo("Registry missing: " + registries[j].name)]
  {
    assert registries[..j + 1][..j] == registries[..j];
    assert registries[..j + 1] == registries[..j] + [registries[j]];
  }

  /** Whether every package and registry is present; `false` (and an error
      line) when the manifest is missing. */
  method CheckDependencies(manifest: Option<string>) returns (allPresent: bool, log: seq<LogEntry>)
    ensures manifest.None? ==> !allPresent && log == [LogError(ManifestMissing)]
    ensures manifest.Some? ==>
      (allPresent <==> PackagesPresent(manifest.value, Dependencies) && RegistriesPresent(manifest.value, ScopedRegistries))
    ensures manifest.Some? ==> log == MissingLog(manifest.value, Dependencies, ScopedRegistries)
  {
    if manifest.None? {
      return false, [LogError(ManifestMissing)];
    }
    var manifestText := manifest.value;
    allPresent := true;
    log := [];
    var i := 0;
    while i < |Dependencies|
      invariant 0 <= i <= |Dependencies|
      invariant allPresent <==> PackagesPresent(manifestText, Dependencies[..i])
      invariant log == MissingLog(manifestText, Dependencies[..i], [])
    {
      var package := Dependencies[i];
      MissingPackageStep(manifestText, Dependencies, i);
      if !Contains(manifestText, DependencyMarker(package.name)) {
        log := log + [LogInfo("Package missing: " + package.name)];
        allPresent := false;
      }
      i := i + 1;
    }
    assert Dependencies[..i] == Dependencies;
    var j := 0;
    while j < |ScopedRegistries|
      invariant 0 <= j <= |ScopedRegistries|
      invariant allPresent <==>
        PackagesPresent(manifestText, Dependencies) && RegistriesPresent(manifestText, ScopedRegistries[..j])
      invariant log == MissingLog(manifestText, Dependencies, ScopedRegistries[..j])
    {
      var registry := ScopedRegistries[j];
      MissingRegistryStep(manifestText, Dependencies, ScopedRegistries, j);
      if !Contains(manifestText, RegistryMarker(registry.name)) {
        log := log + [LogInfo("Registry missing: " + registry.name)];
        allPresent := false;
      }
      j := j + 1;
    }
    assert ScopedRegistries[..j] == ScopedRegistries;
  }

  // ---------------------------------------------------------------------------
  // Scripting define symbols

  /** The define string after `AddDefineSymbol`. */
  function DefineAdded(defines: string): (r: string)
    ensures Contains(r, MainDefine)
  {
    if Contains(defines, MainDefine) then defines
    else
      ContainsItself(MainDefine);
      if defines == "" then MainDefine
      else
        ContainsInMiddle(defines + ";", MainDefine, "", MainDefine);
        assert defines + ";" + MainDefine + "" == defines + ";" + MainDefine;
        defines + ";" + MainDefine
  }

  /** The define string after `RemoveDefineSymbol`. */
  function DefineRemoved(defines: string): string {
    if Contains(defines, MainDefine) then Join(Without(Split(defines, ';'), MainDefine), ';')
    else defines
  }

  /** Adding changes nothing when the define string already contains the
      symbol, and otherwise appends exactly one `;`-token, the symbol. */
  lemma DefineAddedTokens(defines: string)
    ensures Contains(defines, MainDefine) ==> DefineAdded(defines) == defines
    ensures !Contains(defines, MainDefine) && defines == "" ==> Split(DefineAdded(defines), ';') == [MainDefine]
    ensures !Contains(defines, MainDefine) && defines != "" ==>
      Split(DefineAdded(defines), ';') == Split(defines, ';') + [MainDefine]
  {
    assert ';' !in MainDefine;
    SplitWithoutSeparator(MainDefine, ';');
    if !Contains(defines, MainDefine) && defines != "" {
      SplitAppend(defines, MainDefine, ';');
    }
  }

  /** Removing drops exactly the tokens equal to the symbol and keeps the
      other tokens in order (an empty list is the empty string, one empty
      token). */
  lemma DefineRemovedTokens(defines: string)
    requires Contains(defines, MainDefine)
    ensures var kept := Without(Split(defines, ';'), MainDefine);
      Split(DefineRemoved(defines), ';') == if kept == [] then [""] else kept
  {
    var kept := Without(Split(defines, ';'), MainDefine);
    forall p | p in kept
      ensures ';' !in p
    {
    }
    if kept != [] {
      SplitJoin(kept, ';');
    }
  }

  /** Removing after adding restores any define string that did not contain
      the symbol. */
  lemma RemoveAfterAdd(defines: string)
    requires !Contains(defines, MainDefine)
    ensures DefineRemoved(DefineAdded(defines)) == defines
  {
    ContainsItself(MainDefine);
    assert ';' !in MainDefine;
    SplitWithoutSeparator(MainDefine, ';');
    if defines == "" {
      assert Without([MainDefine], MainDefine) == [];
    } else {
      var parts := Split(defines, ';');
      SplitAppend(defines, MainDefine, ';');
      WithoutAppend(parts, [MainDefine], MainDefine);
      assert Without([MainDefine], MainDefine) == [];
      if MainDefine in parts {
        SplitPartsOccur(defines, ';', MainDefine);
        assert false;
      }
      WithoutAbsent(parts, MainDefine);
      assert parts + [] == parts;
      JoinSplit(defines, ';');
    }
  }

  /** Adding twice is adding once. */
  lemma AddIdempotent(defines: string)
    ensures DefineAdded(DefineAdded(defines)) == DefineAdded(defines)
  {
  }
}
