# Shooter2D and Unity Extensions: a verified model

This project models in Dafny the parts of the Shooter2D game and its `com.unity.extensions`
package that carry logic rather than engine calls, and proves what they promise.

- **Manifest editing** (`PackageLoader`) installs a fixed list of packages and scoped registries into
  `Packages/manifest.json` and adds or removes the `UnityExtensions` scripting define. The model covers:
  - the `"dependencies"\s*:\s*\{([^}]*)\}` match, as an explicit leftmost scanner;
  - `InsertDependency` and `InsertScopedRegistry`;
  - the `Load` and `CheckDependencies` loops, with the manifest text as input and output;
  - the define-list edits.

  The main theorems:
  - after `Load` on a manifest with a dependency block, every package is present, and a second `Load` adds
    and logs no package;
  - every registry is present too, and a second `Load` changes nothing and logs nothing, provided the
    manifest still has a registry insertion point after the package loop. `DefaultLoadTwice` establishes
    this for the shipped lists whenever the manifest already holds `"scopedRegistries": [`;
  - removing the define after adding it restores the original list.

  `Load` is modelled as written: its registry loop passes the default `isLast = true`, so a new registry
  array is written without the comma before `"dependencies"`. "## Findings" records this, with the
  corrected insertion `InsertRegistry` beside it.
- **Game state and score** (`GameManager` and `UEvent`). `GameManager` is a class whose methods update the
  score, the cached best score, the player's health, the views' visibility and a `PlayerPrefs` key store.
  `UEvent` keeps static subscriber lists and dispatches to them. Every method is proved against a
  function on a snapshot of the state, and the properties are lemmas about those functions.
- **Per-type singleton** (`ReferenceBehaviour<T>`). It covers:
  - the static slot: the first instance enabled takes it, duplicates are reported and deactivated, and
    any destruction empties it;
  - the `Ref` getter's null check.
- **Logging** (`DebugLog`). It covers which calls print, the rich-text line format, the console channel
  each line goes to, and the `OnLogCalled` notification. The console is an object holding the printed
  lines.
- **Texture helpers** (`TextureUtility`). It covers:
  - the argument validators;
  - the early paths of `Resize`;
  - the `ExtractRGB` and `ExtractGrayscale` loops, on arrays;
  - `CalculateCropParams`.
- **Network records** (`NetworkUtility`). It covers:
  - `ErrorData` and `Response`;
  - the routing of the request overloads, including token forwarding and the `PrivateData` early return;
  - the assembly of a request in `ProcessRequest`: headers, upload body and logging.

Modules: `Wrappers` (`Option`, `Outcome`), `Text` (the .NET string operations used), `DependencyData`,
`PackageNames`, `DependencyBlock`, `PackageLoader`, `ManifestInvariants`, `DebugLog`, `ReferenceBehaviour`,
`Game`, `TextureUtility`, `NetworkUtility`.

## Model

| member | source | states |
|---|---|---|
| DependencyBlock.Find | com.unity.extensions/Editor/CustomPackageManager/Dependency/PackageLoader.cs:114-115 | the match found is a `"dependencies"`, white space, `:`, white space, `{`, no `}`, `}` block, and no such block starts earlier (leftmost match) |
| DependencyBlock.MatchAt | com.unity.extensions/Editor/CustomPackageManager/Dependency/PackageLoader.cs:114 | a match at a position is a block, and it is the only block starting there |
| DependencyBlock.SkipWhiteSpace | com.unity.extensions/Editor/CustomPackageManager/Dependency/PackageLoader.cs:114 | `\s*` stops at the first non-white-space character and skips only white space |
| DependencyBlock.FindClose | com.unity.extensions/Editor/CustomPackageManager/Dependency/PackageLoader.cs:114 | `[^}]*\}` stops at the first `}` and skips no `}` |
| DependencyBlock.FindBlock | com.unity.extensions/Editor/CustomPackageManager/Dependency/PackageLoader.cs:114 | the scan from a position finds a block at or after it, and none earlier |
| DependencyBlock.CapturedHasNoClose | com.unity.extensions/Editor/CustomPackageManager/Dependency/PackageLoader.cs:114-117 | the captured group never contains `}` |
| DependencyBlock.FindIsFirstOccurrence | com.unity.extensions/Editor/CustomPackageManager/Dependency/PackageLoader.cs:125-126 | the matched text occurs at the match position, and it occurs nowhere before it, so `Replace` rewrites the match itself first |
| PackageLoader.DependencyEntry | com.unity.extensions/Editor/CustomPackageManager/Dependency/PackageLoader.cs:118 | the new entry `"<name>": "<version>"` starts with the presence marker `"<name>":` |
| PackageLoader.InsertDependency | com.unity.extensions/Editor/CustomPackageManager/Dependency/PackageLoader.cs:112-131 | with no matching block the manifest is returned unchanged |
| PackageLoader.InsertDependencyPlacesBlock | com.unity.extensions/Editor/CustomPackageManager/Dependency/PackageLoader.cs:125-128 | the rewritten block stands where the match started |
| PackageLoader.InsertDependencyAddsEntry | com.unity.extensions/Editor/CustomPackageManager/Dependency/PackageLoader.cs:118-127 | after a match the result contains the new entry and so the marker `"<name>":` |
| PackageLoader.EntryAtEnd | com.unity.extensions/Editor/CustomPackageManager/Dependency/PackageLoader.cs:120-123 | the new entry comes last in the new block content |
| PackageLoader.AppendExtendsEntryList | com.unity.extensions/Editor/CustomPackageManager/Dependency/PackageLoader.cs:120-123 | `,\n    ` comes before the new entry only when the trimmed old content is non-empty, so the entry list grows by exactly one element |
| PackageLoader.InsertDependencyRewritesBlock | com.unity.extensions/Editor/CustomPackageManager/Dependency/PackageLoader.cs:117-127 | re-matching the result at the same place gives, after `Trim`, the old trimmed content with the entry appended |
| PackageLoader.InsertDependencyAppendsEntry | com.unity.extensions/Editor/CustomPackageManager/Dependency/PackageLoader.cs:117-127 | if the old trimmed content is a `,\n    `-separated list of entries, the new content is that list with the new entry at its end |
| PackageLoader.RegistryJson | com.unity.extensions/Editor/CustomPackageManager/Dependency/PackageLoader.cs:145-151 | the registry object contains the marker `"name": "<registry>"` |
| PackageLoader.InsertScopedRegistryWithoutAnchor | com.unity.extensions/Editor/CustomPackageManager/Dependency/PackageLoader.cs:153-166 | when neither `"scopedRegistries": [` (with the key present) nor `"dependencies": {` occurs, the manifest is unchanged |
| PackageLoader.InsertScopedRegistryAdds | com.unity.extensions/Editor/CustomPackageManager/Dependency/PackageLoader.cs:145-167 | with the key present, the entry plus `,` follows `"scopedRegistries": [`; otherwise a new array is placed before `"dependencies": {`; either way the result contains the registry marker and an open registry array |
| PackageLoader.InsertScopedRegistry | com.unity.extensions/Editor/CustomPackageManager/Dependency/PackageLoader.cs:139-168 | definition, as written, with the `isLast` parameter; its properties are `InsertScopedRegistryAdds`, `InsertScopedRegistryWithoutAnchor` and `SeparatorBeforeDependencies` |
| PackageLoader.SeparatorBeforeDependencies | com.unity.extensions/Editor/CustomPackageManager/Dependency/PackageLoader.cs:160-166 | in a manifest without registries the new array is followed by `]`, a comma only when `isLast` is false, and the `"dependencies": {` key |
| PackageLoader.MissingCommaBeforeDependencies | com.unity.extensions/Editor/CustomPackageManager/Dependency/PackageLoader.cs:39 | as written, `Load` uses the default `isLast = true`, so the new array's `]` is followed by the `"dependencies"` key with no comma |
| PackageLoader.InsertRegistry | com.unity.extensions/Editor/CustomPackageManager/Dependency/PackageLoader.cs:139-168 | corrected insertion of the Findings row, not used by `Load`: a new array is followed by `],` before the dependency block; the registry marker is present whenever the anchor occurs; without the anchor the manifest is unchanged |
| PackageLoader.ReplacementContents | com.unity.extensions/Editor/CustomPackageManager/Dependency/PackageLoader.cs:155-166 | both replacement texts hold the registry marker and `"scopedRegistries": [` |
| PackageLoader.PackageStep | com.unity.extensions/Editor/CustomPackageManager/Dependency/PackageLoader.cs:26-33 | one iteration of the package loop inserts and logs `Added package: <name>@<version>` only when the marker is absent |
| PackageLoader.RegistryStep | com.unity.extensions/Editor/CustomPackageManager/Dependency/PackageLoader.cs:35-42 | one iteration of the registry loop inserts and logs `Added registry: <name>` only when the marker is absent |
| PackageLoader.AddPackage | com.unity.extensions/Editor/CustomPackageManager/Dependency/PackageLoader.cs:27-31 | definition of one package iteration; its properties are `PackageStep` and `ManifestInvariants.MarkerSurvivesInsert` |
| PackageLoader.AddRegistry | com.unity.extensions/Editor/CustomPackageManager/Dependency/PackageLoader.cs:36-40 | definition of one registry iteration, as written with `isLast = true`; its properties are `RegistryStep` and `ManifestInvariants.MarkerSurvivesRegistry` |
| PackageLoader.Load | com.unity.extensions/Editor/CustomPackageManager/Dependency/PackageLoader.cs:16-47 | a missing manifest logs `manifest.json not found!` and changes nothing; otherwise the written text, the new define string and the log are those of the two loops, as written, and `AddDefineSymbol` |
| PackageLoader.MissingPackageStep | com.unity.extensions/Editor/CustomPackageManager/Dependency/PackageLoader.cs:85-92 | one iteration keeps `allPresent` exactly when the package marker occurs, logging `Package missing: <name>` otherwise |
| PackageLoader.MissingRegistryStep | com.unity.extensions/Editor/CustomPackageManager/Dependency/PackageLoader.cs:94-101 | the same for a registry marker and `Registry missing: <name>` |
| PackageLoader.CheckDependencies | com.unity.extensions/Editor/CustomPackageManager/Dependency/PackageLoader.cs:72-110 | false with an error when the manifest is missing; otherwise true exactly when every package marker and every registry marker occurs, with one line per missing item |
| PackageLoader.DefineAdded | com.unity.extensions/Editor/CustomPackageManager/Dependency/PackageLoader.cs:183-188 | the result always contains `UnityExtensions` |
| PackageLoader.DefineAddedTokens | com.unity.extensions/Editor/CustomPackageManager/Dependency/PackageLoader.cs:183-188 | no change when the string already contains `UnityExtensions`; otherwise the only token of an empty string, or one more `;`-token at the end |
| PackageLoader.DefineRemoved | com.unity.extensions/Editor/CustomPackageManager/Dependency/PackageLoader.cs:190-207 | definition; its properties are `DefineRemovedTokens` and `RemoveAfterAdd` |
| PackageLoader.DefineRemovedTokens | com.unity.extensions/Editor/CustomPackageManager/Dependency/PackageLoader.cs:199-206 | the `;`-tokens of the result are the old ones without those equal to `UnityExtensions`, in order |
| PackageLoader.RemoveAfterAdd | com.unity.extensions/Editor/CustomPackageManager/Dependency/PackageLoader.cs:183-206 | removing after adding restores any define string that did not contain `UnityExtensions` |
| PackageLoader.AddIdempotent | com.unity.extensions/Editor/CustomPackageManager/Dependency/PackageLoader.cs:183-188 | adding twice is adding once |
| PackageNames.DefaultDataWellFormed | com.unity.extensions/Editor/CustomPackageManager/Dependency/Data/DependencyData.cs:1-37 | the installed names are brace-free package names and no version contains `}` |
| ManifestInvariants.MarkerSurvivesInsert | com.unity.extensions/Editor/CustomPackageManager/Dependency/PackageLoader.cs:125-128 | inserting a dependency keeps every package marker, registry marker and open registry array already present |
| ManifestInvariants.MarkerSurvivesRegistry | com.unity.extensions/Editor/CustomPackageManager/Dependency/PackageLoader.cs:153-166 | inserting a registry keeps every package and registry marker already present |
| ManifestInvariants.PackagesAdded | com.unity.extensions/Editor/CustomPackageManager/Dependency/PackageLoader.cs:26-33 | after the package loop over a manifest with a dependencies block, every package marker occurs |
| ManifestInvariants.RegistriesAdded | com.unity.extensions/Editor/CustomPackageManager/Dependency/PackageLoader.cs:35-42 | after the registry loop every registry marker occurs and the manifest still has an insertion point |
| ManifestInvariants.PackagesKeep | com.unity.extensions/Editor/CustomPackageManager/Dependency/PackageLoader.cs:26-33 | the package loop keeps every package marker, registry marker and open registry array already present |
| ManifestInvariants.RegistriesKeep | com.unity.extensions/Editor/CustomPackageManager/Dependency/PackageLoader.cs:35-42 | the registry loop keeps every package and registry marker already present |
| ManifestInvariants.LoadInstallsAll | com.unity.extensions/Editor/CustomPackageManager/Dependency/PackageLoader.cs:26-42 | after both loops every package and every registry is present, provided the text after the package loop still has a registry insertion point |
| ManifestInvariants.PackagesOnce | com.unity.extensions/Editor/CustomPackageManager/Dependency/PackageLoader.cs:26-33 | with no hypothesis on registries: after `Load` on a manifest with a dependency block every package is present, so the package loop of a second `Load` changes nothing and logs nothing |
| ManifestInvariants.PackagesPresentUnchanged | com.unity.extensions/Editor/CustomPackageManager/Dependency/PackageLoader.cs:26-33 | when all package markers occur, the loop changes nothing and logs nothing |
| ManifestInvariants.RegistriesPresentUnchanged | com.unity.extensions/Editor/CustomPackageManager/Dependency/PackageLoader.cs:35-42 | the same for registries |
| ManifestInvariants.LoadTwice | com.unity.extensions/Editor/CustomPackageManager/Dependency/PackageLoader.cs:16-47 | a second `Load` leaves the manifest unchanged and logs nothing, so each package is inserted only once |
| ManifestInvariants.DefaultLoadTwice | com.unity.extensions/Editor/CustomPackageManager/Dependency/PackageLoader.cs:16-47 | for the shipped package and registry lists and a manifest with a dependencies block and a registry array, `Load` installs everything and a second `Load` is a no-op |
| Text.ReplaceAllWithout | com.unity.extensions/Editor/CustomPackageManager/Dependency/PackageLoader.cs:125-166 | `Replace` with an absent pattern returns the string unchanged |
| Text.ReplaceIntroduces | com.unity.extensions/Editor/CustomPackageManager/Dependency/PackageLoader.cs:125-166 | `Replace` with a present pattern puts the replacement in the result |
| Text.ReplaceKeepsContains | com.unity.extensions/Editor/CustomPackageManager/Dependency/PackageLoader.cs:125-166 | a substring that cannot overlap the pattern, or that reappears in the replacement, survives `Replace` |
| Text.ReplaceAll | com.unity.extensions/Editor/CustomPackageManager/Dependency/PackageLoader.cs:125-166 | definition of `string.Replace`; its properties are `ReplaceAllWithout`, `ReplaceIntroduces` and `ReplaceKeepsContains` |
| Text.Trim | com.unity.extensions/Editor/CustomPackageManager/Dependency/PackageLoader.cs:117 | empty exactly for blank strings; otherwise neither end is white space |
| Text.TrimStart | com.unity.extensions/Editor/CustomPackageManager/Dependency/PackageLoader.cs:117 | drops exactly the leading white space: the result is a suffix that is empty or starts with non-white space |
| Text.TrimEnd | com.unity.extensions/Editor/CustomPackageManager/Dependency/PackageLoader.cs:117 | drops exactly the trailing white space: the result is a prefix that is empty or ends with non-white space |
| Text.TrimPadded | com.unity.extensions/Editor/CustomPackageManager/Dependency/PackageLoader.cs:117 | trimming text padded with white space gives the text back |
| Text.JoinSplit | com.unity.extensions/Editor/CustomPackageManager/Dependency/PackageLoader.cs:201-205 | joining the parts of a split with the same separator gives the string back |
| Text.Split | com.unity.extensions/Editor/CustomPackageManager/Dependency/PackageLoader.cs:201-205 | `Split(';')` gives at least one part, and no part contains the separator |
| Text.SplitJoin | com.unity.extensions/Editor/CustomPackageManager/Dependency/PackageLoader.cs:201-205 | splitting a join of separator-free parts gives the parts back |
| Text.Without | com.unity.extensions/Editor/CustomPackageManager/Dependency/PackageLoader.cs:201 | the filter keeps exactly the tokens different from the removed one, with their multiplicities |
| DebugLog.ColorHex | com.unity.extensions/Runtime/Utilities/DebugLog.cs:17-20 | each kind's colour is an 8-digit RGBA hex code |
| DebugLog.Line | com.unity.extensions/Runtime/Utilities/DebugLog.cs:81 | definition of the rich-text line; `LineRoundTrip` reads the colour and the message back from it |
| DebugLog.LineRoundTrip | com.unity.extensions/Runtime/Utilities/DebugLog.cs:81 | the colour and the message can be read back from a formatted line |
| DebugLog.Route | com.unity.extensions/Runtime/Utilities/DebugLog.cs:83-97 | errors and exceptions go to `Debug.LogError`, infos to `Debug.Log`, warnings to `Debug.LogWarning` |
| DebugLog.Printed | com.unity.extensions/Runtime/Utilities/DebugLog.cs:77-101 | a log call prints one line in the editor and nothing elsewhere |
| DebugLog.Dispatch | com.unity.extensions/Runtime/Utilities/DebugLog.cs:26-71 | each public call logs at its own kind, if at all |
| DebugLog.Output | com.unity.extensions/Runtime/Utilities/DebugLog.cs:26-101 | a public call prints at most one line |
| DebugLog.BlankPrintsNothing | com.unity.extensions/Runtime/Utilities/DebugLog.cs:26-48 | `Info`, `Warning` and `Error` print nothing exactly when the message is null or white space (or outside the editor) |
| DebugLog.OutsideEditorSilent | com.unity.extensions/Runtime/Utilities/DebugLog.cs:79 | outside the editor nothing is printed and nobody is notified |
| DebugLog.ExceptionPrints | com.unity.extensions/Runtime/Utilities/DebugLog.cs:50-56 | a null exception prints nothing; otherwise one error line with message, stack trace and source joined by ` @ ` |
| DebugLog.OutputIsLine | com.unity.extensions/Runtime/Utilities/DebugLog.cs:81-97 | every printed line has the kind's colour, the call's message and the kind's channel |
| DebugLog.AssertFalseIsError | com.unity.extensions/Runtime/Utilities/DebugLog.cs:58-71 | a failed `Assert` is `Error(negative)` |
| DebugLog.AssertTrueIsInfo | com.unity.extensions/Runtime/Utilities/DebugLog.cs:58-68 | a passed `Assert` is `Info(positive)` and never prints an error |
| DebugLog.Console.CallLog | com.unity.extensions/Runtime/Utilities/DebugLog.cs:77-101 | the console gains the formatted line in the editor, and the subscribers receive the same string |
| DebugLog.Console.constructor | com.unity.extensions/Runtime/Utilities/DebugLog.cs:15 | the console starts empty with no notification raised |
| DebugLog.Console.Run | com.unity.extensions/Runtime/Utilities/DebugLog.cs:26-71 | the console and the notifications grow by exactly the output of the call |
| DebugLog.Console.Info | com.unity.extensions/Runtime/Utilities/DebugLog.cs:26-32 | the console and the notifications grow by this call's output |
| DebugLog.Console.Warning | com.unity.extensions/Runtime/Utilities/DebugLog.cs:34-40 | the same for `Warning` |
| DebugLog.Console.Error | com.unity.extensions/Runtime/Utilities/DebugLog.cs:42-48 | the same for `Error` |
| DebugLog.Console.Exception | com.unity.extensions/Runtime/Utilities/DebugLog.cs:50-56 | the same for `Exception` |
| DebugLog.Console.Assert | com.unity.extensions/Runtime/Utilities/DebugLog.cs:58-71 | the same for `Assert` |
| ReferenceBehaviour.Enabled | com.unity.extensions/Runtime/Core/ReferenceBehaviour.cs:41-54 | after enabling, the slot is occupied, and an occupied slot is kept |
| ReferenceBehaviour.EnableTakesOrRejects | com.unity.extensions/Runtime/Core/ReferenceBehaviour.cs:41-54 | an enabled instance takes the slot exactly when it is not a duplicate |
| ReferenceBehaviour.EnableAgain | com.unity.extensions/Runtime/Core/ReferenceBehaviour.cs:41-54 | enabling the registered instance again changes nothing and reports nothing |
| ReferenceBehaviour.FirstEnabledWins | com.unity.extensions/Runtime/Core/ReferenceBehaviour.cs:27-54 | without destruction an occupied slot keeps its instance, and an empty one ends with the first instance enabled |
| ReferenceBehaviour.FirstEnabled | com.unity.extensions/Runtime/Core/ReferenceBehaviour.cs:41-47 | names the first instance enabled in a sequence of events, or none when nothing is enabled |
| ReferenceBehaviour.RunAppend | com.unity.extensions/Runtime/Core/ReferenceBehaviour.cs:27-35 | running two sequences of enable and destroy events is running them one after the other |
| ReferenceBehaviour.DestroyResets | com.unity.extensions/Runtime/Core/ReferenceBehaviour.cs:68-71 | destroying any instance empties the slot, and the next enabled instance takes it |
| ReferenceBehaviour.RefLogsOnlyWhenEmpty | com.unity.extensions/Runtime/Core/ReferenceBehaviour.cs:56-66 | the null check logs `Reference of <T> is null` exactly when the slot is empty (in the editor) |
| ReferenceBehaviour.MessagesNotBlank | com.unity.extensions/Runtime/Core/ReferenceBehaviour.cs:51-62 | the duplicate and null messages are never blank, so the editor always prints them |
| ReferenceBehaviour.Slot.InitializeReference | com.unity.extensions/Runtime/Core/ReferenceBehaviour.cs:41-54 | the slot becomes `Enabled(old slot, b)`; a duplicate is deactivated and reported with `Detected duplicate of <T> on <name>` |
| ReferenceBehaviour.Slot.constructor | com.unity.extensions/Runtime/Core/ReferenceBehaviour.cs:12 | the static slot starts empty |
| ReferenceBehaviour.Slot.Cleanup | com.unity.extensions/Runtime/Core/ReferenceBehaviour.cs:68-71 | the slot is empty |
| ReferenceBehaviour.Slot.ValidateReference | com.unity.extensions/Runtime/Core/ReferenceBehaviour.cs:56-66 | returns whether the slot is occupied and logs the null error otherwise |
| ReferenceBehaviour.Slot.Ref | com.unity.extensions/Runtime/Core/ReferenceBehaviour.cs:14-21 | returns the slot unchanged after validating it |
| Game.Wrap32 | Shooter2D/Assets/Application/Code/Core/GameManager.cs:86 | the 32-bit increment stays in `int` range and is exact when no overflow happens |
| Game.GetBest | Shooter2D/Assets/Application/Code/Core/GameManager.cs:101-109 | with no `BestScore` key it stores 0 and returns 0; otherwise it returns the stored value unchanged |
| Game.ReadBest | Shooter2D/Assets/Application/Code/Core/GameManager.cs:33-35 | reading `BestScore` caches the stored value and touches nothing else |
| Game.WriteBest | Shooter2D/Assets/Application/Code/Core/GameManager.cs:111-115 | writing `BestScore` stores the value and caches it |
| Game.ShowViews | Shooter2D/Assets/Application/Code/Core/GameManager.cs:95-99 | the menu is visible iff the state is `Menu`, the game view iff it is `Game`, never both, and nothing else changes |
| Game.Played | Shooter2D/Assets/Application/Code/Core/GameManager.cs:72-77 | definition of `PlayGame`; its properties are `PlayGameResets` and `HandlersKeepState` |
| Game.Stopped | Shooter2D/Assets/Application/Code/Core/GameManager.cs:79-82 | definition of `StopGame`; its property is `StopGameOnlyViews` |
| Game.Scored | Shooter2D/Assets/Application/Code/Core/GameManager.cs:84-93 | definition of `AddScore`; its properties are `AddScoreIncrements`, `AddScoreKeepsBest` and `BestOnlyRises` |
| Game.PlayGameResets | Shooter2D/Assets/Application/Code/Core/GameManager.cs:72-77 | the score becomes 0, the health becomes the initial health, the views follow the state |
| Game.StopGameOnlyViews | Shooter2D/Assets/Application/Code/Core/GameManager.cs:79-82 | only the views change |
| Game.AddScoreIncrements | Shooter2D/Assets/Application/Code/Core/GameManager.cs:86 | the score grows by exactly 1 (with 32-bit wrap-around) |
| Game.AddScoreKeepsBest | Shooter2D/Assets/Application/Code/Core/GameManager.cs:86-92 | afterwards the stored best score is at least the score and is the cached one |
| Game.BestOnlyRises | Shooter2D/Assets/Application/Code/Core/GameManager.cs:86-90 | the stored best never decreases, changes only when the score exceeds it, and then becomes the score; other keys are kept |
| Game.ReadBestOnce | Shooter2D/Assets/Application/Code/Core/GameManager.cs:101-109 | the first read of a missing key stores 0; reading again changes nothing |
| Game.ApplyAllAppend | Shooter2D/Assets/Application/Code/Utility/UEvent.cs:13 | running a handler list is running its parts in order |
| Game.HandlersKeepState | Shooter2D/Assets/Application/Code/Core/GameManager.cs:72-99 | no handler changes the game state |
| Game.Subscribe | Shooter2D/Assets/Application/Code/Core/GameManager.cs:46-50 | `+=` puts the handler last, and a `-=` of the same handler gives the old list back |
| Game.Unsubscribe | Shooter2D/Assets/Application/Code/Core/GameManager.cs:55-59 | `-=` changes nothing when the handler is absent and otherwise removes exactly one element; which one is stated by `UnsubscribeRemovesLast` |
| Game.UnsubscribeRemovesLast | Shooter2D/Assets/Application/Code/Core/GameManager.cs:55-59 | `-=` removes the last occurrence of the handler and keeps the other handlers in order |
| Game.LastOccurrence | Shooter2D/Assets/Application/Code/Core/GameManager.cs:55-59 | names the removed occurrence: no later element is the handler, and the result is the list without that element |
| Game.DisableAfterEnable | Shooter2D/Assets/Application/Code/Core/GameManager.cs:43-60 | `OnDisable` after `OnEnable` restores all five event lists |
| Game.ObstacleRaised | Shooter2D/Assets/Application/Code/Utility/UEvent.cs:18-26 | raising the obstacle event throws exactly when it has no subscriber |
| Game.ChangeStateUnsubscribed | Shooter2D/Assets/Application/Code/Utility/UEvent.cs:10-14 | with no subscribers only the state is written |
| Game.ChangeStateWithManager | Shooter2D/Assets/Application/Code/Utility/UEvent.cs:10-14 | with the manager subscribed, `Game` runs `PlayGame` and every other state runs `StopGame`, after writing the state |
| Game.ChangeState | Shooter2D/Assets/Application/Code/Utility/UEvent.cs:10-14 | definition of `GameState(state)` on values; its properties are `ChangeStateUnsubscribed` and `ChangeStateWithManager` |
| Game.DamageScores | Shooter2D/Assets/Application/Code/Utility/UEvent.cs:22-26 | with the manager subscribed, destroying an enemy or taking damage adds a point through the obstacle event; with nobody subscribed it throws |
| Game.GameManager.GetBestScore | Shooter2D/Assets/Application/Code/Core/GameManager.cs:101-109 | returns and stores as `GetBest` says |
| Game.GameManager.GetBestScoreProperty | Shooter2D/Assets/Application/Code/Core/GameManager.cs:33-35 | the state becomes `ReadBest` of the old state and the value is the cached best |
| Game.GameManager.SetBestScore | Shooter2D/Assets/Application/Code/Core/GameManager.cs:111-115 | the state becomes `WriteBest` of the old state |
| Game.GameManager.HandleView | Shooter2D/Assets/Application/Code/Core/GameManager.cs:95-99 | the state becomes `ShowViews` of the old state |
| Game.GameManager.PlayGame | Shooter2D/Assets/Application/Code/Core/GameManager.cs:72-77 | the state becomes `Played` of the old state |
| Game.GameManager.StopGame | Shooter2D/Assets/Application/Code/Core/GameManager.cs:79-82 | the state becomes `Stopped` of the old state |
| Game.GameManager.UpdateView | Shooter2D/Assets/Application/Code/UI/GameView.cs:42-49 | the view's refresh reads `BestScore`, so the state becomes `ReadBest` of the old state |
| Game.GameManager.AddScore | Shooter2D/Assets/Application/Code/Core/GameManager.cs:84-93 | the state becomes `Scored` of the old state |
| Game.GameManager.Handle | Shooter2D/Assets/Application/Code/Core/GameManager.cs:43-50 | running one subscribed handler changes the state as `Apply` says |
| Game.GameManager.Invoke | Shooter2D/Assets/Application/Code/Utility/UEvent.cs:13 | invoking a handler list applies its handlers in order |
| Game.Hub.EnableManager | Shooter2D/Assets/Application/Code/Core/GameManager.cs:43-51 | the event lists become `Enabled` of the old ones |
| Game.Hub.DisableManager | Shooter2D/Assets/Application/Code/Core/GameManager.cs:53-60 | the event lists become `Disabled` of the old ones |
| Game.Hub.GameState | Shooter2D/Assets/Application/Code/Utility/UEvent.cs:10-14 | the manager's state becomes `ChangeState` of the old state |
| Game.Hub.constructor | Shooter2D/Assets/Application/Code/Utility/UEvent.cs:7-24 | the events start with no subscribers |
| Game.Hub.RaiseObstacle | Shooter2D/Assets/Application/Code/Utility/UEvent.cs:16-26 | `OnObstacleDestroyed()` throws with no subscriber, and otherwise leaves the state `ObstacleRaised` gives |
| Game.Hub.DestroyObstacle | Shooter2D/Assets/Application/Code/Utility/UEvent.cs:18 | raises the obstacle event: it throws with no subscriber, otherwise the handlers run |
| Game.Hub.DestroyEnemy | Shooter2D/Assets/Application/Code/Utility/UEvent.cs:22 | raises the obstacle event, not the enemy event |
| Game.Hub.PlayerGetDamage | Shooter2D/Assets/Application/Code/Utility/UEvent.cs:26 | raises the obstacle event, not the damage event |
| TextureUtility.ValidateInput | com.unity.extensions/Runtime/Utilities/TextureUtility.cs:315-321 | fails exactly for null, with `ArgumentNullException("input", "Input cannot be null.")` |
| TextureUtility.ValidateDimensions | com.unity.extensions/Runtime/Utilities/TextureUtility.cs:329-343 | passes exactly for positive width and height; the width is checked first |
| TextureUtility.ValidateDataRejects | com.unity.extensions/Runtime/Utilities/TextureUtility.cs:300-313 | rejects exactly null, blank strings and empty byte arrays |
| TextureUtility.ValidateData | com.unity.extensions/Runtime/Utilities/TextureUtility.cs:300-313 | a rejection always carries `<param> cannot be null, empty, or whitespace.` for the checked parameter |
| TextureUtility.ValidateName | com.unity.extensions/Runtime/Utilities/TextureUtility.cs:289-298 | rejects exactly null or white-space names |
| TextureUtility.ResizeStart | com.unity.extensions/Runtime/Utilities/TextureUtility.cs:186-193 | rejects a null source or a non-positive size, returns the source itself when the size already matches, and scales otherwise |
| TextureUtility.Resize | com.unity.extensions/Runtime/Utilities/TextureUtility.cs:182-233 | a rejected call returns null and logs the resize warning; a same-size call returns the source and logs nothing |
| TextureUtility.ResizeWarningPrinted | com.unity.extensions/Runtime/Utilities/TextureUtility.cs:220-222 | the resize warning is never blank, so it is printed in the editor |
| TextureUtility.RgbDataLayout | com.unity.extensions/Runtime/Utilities/TextureUtility.cs:273-279 | element `k` of the RGB data is channel `k % 3` of pixel `k / 3` |
| TextureUtility.RgbData | com.unity.extensions/Runtime/Utilities/TextureUtility.cs:267-283 | the RGB data has three values per pixel |
| TextureUtility.LaidOutIsRgbData | com.unity.extensions/Runtime/Utilities/TextureUtility.cs:273-279 | an array holding each pixel's channels at `3i`, `3i+1`, `3i+2` is the RGB data |
| TextureUtility.RgbDataInRange | com.unity.extensions/Runtime/Utilities/TextureUtility.cs:271-279 | every RGB value lies in [0, 1] |
| TextureUtility.Gray | com.unity.extensions/Runtime/Utilities/TextureUtility.cs:259-260 | the grey value lies in [0, 1] |
| TextureUtility.GrayOfGray | com.unity.extensions/Runtime/Utilities/TextureUtility.cs:259-260 | a grey pixel keeps its level, since the weights sum to 1 |
| TextureUtility.ExtractRgb | com.unity.extensions/Runtime/Utilities/TextureUtility.cs:267-283 | a fresh array of three values per pixel, interleaved as the loop writes them, equal to the RGB data, then one info line |
| TextureUtility.ExtractGrayscale | com.unity.extensions/Runtime/Utilities/TextureUtility.cs:251-265 | a fresh array of one grey value per pixel, all in [0, 1], then one info line |
| TextureUtility.ExtractData | com.unity.extensions/Runtime/Utilities/TextureUtility.cs:239-249 | a null texture throws the null-input error, an unknown conversion type throws `NotSupportedException`, and the known types give the extracted array of the right length |
| TextureUtility.Clamp | com.unity.extensions/Runtime/Utilities/TextureUtility.cs:396-399 | the result lies within the bounds and equals the value when it already does |
| TextureUtility.CropParams | com.unity.extensions/Runtime/Utilities/TextureUtility.cs:388-401 | every crop parameter lies in [0, 1] |
| TextureUtility.CropInsideIsExact | com.unity.extensions/Runtime/Utilities/TextureUtility.cs:388-401 | a crop rectangle inside the texture gives its exact relative coordinates, with the minimum not above the maximum |
| NetworkUtility.NewErrorData | com.unity.extensions/Runtime/Utilities/NetworkUtility.cs:93-97 | a null type or message becomes the empty string, anything else is kept |
| NetworkUtility.IsNull | com.unity.extensions/Runtime/Utilities/NetworkUtility.cs:83-86 | definition; its properties are `IsNullOnlyByType` and `EmptyError` |
| NetworkUtility.ErrorText | com.unity.extensions/Runtime/Utilities/NetworkUtility.cs:102-105 | definition of `ToString`; its properties are `ErrorTextParts` and `ErrorTextInjective` |
| NetworkUtility.EmptyError | com.unity.extensions/Runtime/Utilities/NetworkUtility.cs:88-100 | `Empty` is `new ErrorData()`, which is `IsNull` with an empty message |
| NetworkUtility.IsNullOnlyByType | com.unity.extensions/Runtime/Utilities/NetworkUtility.cs:83-86 | `IsNull` holds exactly when the type is null or white space, whatever the message |
| NetworkUtility.ErrorTextParts | com.unity.extensions/Runtime/Utilities/NetworkUtility.cs:102-105 | `ToString` is `Error: `, the type, ` - `, the message |
| NetworkUtility.ErrorTextInjective | com.unity.extensions/Runtime/Utilities/NetworkUtility.cs:102-105 | for types of equal length, equal texts mean equal errors |
| NetworkUtility.NewResponse | com.unity.extensions/Runtime/Utilities/NetworkUtility.cs:21-31 | a skipped response is successful with an empty body; otherwise the body is the downloaded text and success is the request's result |
| NetworkUtility.SkipIgnoresRequest | com.unity.extensions/Runtime/Utilities/NetworkUtility.cs:21-27 | skipping never reads the request, even a null one |
| NetworkUtility.Converted | com.unity.extensions/Runtime/Utilities/NetworkUtility.cs:33-53 | a blank body throws the blank-body exception; otherwise the chosen deserialiser reads it |
| NetworkUtility.BlankConvertIsDefault | com.unity.extensions/Runtime/Utilities/NetworkUtility.cs:37-52 | a blank body gives `default` without consulting either deserialiser, and logs one error line with the blank-body reason |
| NetworkUtility.ErrorOf | com.unity.extensions/Runtime/Utilities/NetworkUtility.cs:55-74 | a blank body gives `("Request", "Unknown request error")`; otherwise Json.NET reads the body |
| NetworkUtility.BlankBodyErrorIsNotNull | com.unity.extensions/Runtime/Utilities/NetworkUtility.cs:61-64 | the error of a blank body is the unknown request error, which is not `IsNull` |
| NetworkUtility.SkippedResponseIsBlank | com.unity.extensions/Runtime/Utilities/NetworkUtility.cs:61-64 | a skipped response has a blank body, so its error is the unknown request error |
| NetworkUtility.Convert | com.unity.extensions/Runtime/Utilities/NetworkUtility.cs:33-53 | returns the converted value or `default`, logging the exception exactly when the conversion threw |
| NetworkUtility.ExceptionOutput | com.unity.extensions/Runtime/Utilities/NetworkUtility.cs:48-72 | a caught exception prints one error line in the editor; a successful conversion prints nothing |
| NetworkUtility.Error | com.unity.extensions/Runtime/Utilities/NetworkUtility.cs:55-74 | returns the error or null, logging the exception exactly when deserialisation threw |
| NetworkUtility.Route | com.unity.extensions/Runtime/Utilities/NetworkUtility.cs:118-305 | each overload calls `ProcessRequest` with its verb, its serialised data when it has some, and its token only when it has one; only an unauthenticated `PrivateData` sends nothing |
| NetworkUtility.TokenOnlyWhenAuthenticated | com.unity.extensions/Runtime/Utilities/NetworkUtility.cs:175-281 | the overloads taking `isAuthenticated` forward the token exactly when it is true, and `PrivateData` sends nothing when it is false |
| NetworkUtility.NoTokenOverloads | com.unity.extensions/Runtime/Utilities/NetworkUtility.cs:118-238 | the overloads without a token send none |
| NetworkUtility.RequestHeaders | com.unity.extensions/Runtime/Utilities/NetworkUtility.cs:322-333 | `Content-Type: application/json` is always set, `Authorization: Bearer <token>` exactly when the token is non-empty, and no other header |
| NetworkUtility.UploadBody | com.unity.extensions/Runtime/Utilities/NetworkUtility.cs:335-340 | an upload body is attached exactly when the JSON is non-empty, and it is that JSON |
| NetworkUtility.ProcessLog | com.unity.extensions/Runtime/Utilities/NetworkUtility.cs:352-367 | the log ends with `Request <verb> completed!`, and has nothing before it exactly when the request completed |
| NetworkUtility.CatchLog | com.unity.extensions/Runtime/Utilities/NetworkUtility.cs:352-362 | the catch blocks log nothing exactly when the request completed |
| NetworkUtility.Report | com.unity.extensions/Runtime/Utilities/NetworkUtility.cs:352-367 | the console gains the lines of `ProcessLog`, and the subscription is kept |
| NetworkUtility.ReportCatch | com.unity.extensions/Runtime/Utilities/NetworkUtility.cs:352-362 | the console gains the lines of `CatchLog`, and the subscription is kept |
| NetworkUtility.CompletionAlwaysLogged | com.unity.extensions/Runtime/Utilities/NetworkUtility.cs:363-367 | whatever happens, the last printed line is the completion info line |
| NetworkUtility.QuietUnlessInterrupted | com.unity.extensions/Runtime/Utilities/NetworkUtility.cs:352-366 | a completed request prints one line; a cancelled one prints a warning and then the completion line |
| NetworkUtility.OutputAllSplit | com.unity.extensions/Runtime/Utilities/NetworkUtility.cs:352-367 | the lines printed by successive logger calls concatenate |
| NetworkUtility.WebRequest.SetRequestHeader | com.unity.extensions/Runtime/Utilities/NetworkUtility.cs:322-332 | sets or replaces one header and changes nothing else |
| NetworkUtility.WebRequest.constructor | com.unity.extensions/Runtime/Utilities/NetworkUtility.cs:319 | a new request has the URL and verb, no header, no upload body, and is not disposed |
| NetworkUtility.ProcessRequest | com.unity.extensions/Runtime/Utilities/NetworkUtility.cs:309-368 | the request gets the URL, verb, timeout, `RequestHeaders(token)` and `UploadBody(json)` and is disposed; the response is built from the reply; the console gains the lines of `ProcessLog` |
| NetworkUtility.Send | com.unity.extensions/Runtime/Utilities/NetworkUtility.cs:118-305 | an unauthenticated `PrivateData` returns the skipped response without a request or a log line; every other call is `ProcessRequest` with the routed arguments |


## Findings

| source | as written | input that shows it | evidently intended | confidence | as-written member | corrected member |
|---|---|---|---|---|---|---|
| com.unity.extensions/Editor/CustomPackageManager/Dependency/PackageLoader.cs:160-166 | `Load` calls `InsertScopedRegistry` with the default `isLast = true`, so a new `"scopedRegistries"` array is written as `[…]`, a line break and `"dependencies": {`, with no comma between the two members | any manifest holding `"dependencies": {` and no `"scopedRegistries":` key, such as a new project's manifest, with any registry | a comma between the new array and the `"dependencies"` key, as `isLast = false` writes it, so the manifest stays valid JSON | high; not executed | PackageLoader.MissingCommaBeforeDependencies | PackageLoader.InsertRegistry |

## Left out

- The layout container (`LayoutComponent.UpdateLayout`, called by `GameView.UpdateView` and `PauseMenu`) is not part of this model.
- File, editor and engine I/O are parameters or left out:
  - the manifest text and the define string are passed in and returned;
  - `File.Exists` is `None`;
  - `AssetDatabase.Refresh`, `PlayerSettings` storage, `Application.targetFrameRate` and the Unity console are left out.
- `CheckDependencies`' `catch` block is left out. It handles only failures of the file read, which is not modelled.
- `Remove`, `RemoveDependency` and `RemoveScopedRegistry` are left out. The last two are regular-expression removals whose meaning depends on the regex engine (a lazy single-line match with an unescaped name).
- `Text.IsWhiteSpace` lists the Unicode white-space characters of `char.IsWhiteSpace`. The regular-expression class `\s` is taken to be the same set.
- PackageLoader.InsertScopedRegistry: modelled with the `isLast` parameter, as written.
- PackageLoader.InsertScopedRegistry: inserting into an existing empty array `"scopedRegistries": []` leaves a trailing comma (`[{…},]`), as the source does. `InsertRegistry` keeps this behaviour; only the missing comma before `"dependencies"` is corrected.
- ManifestInvariants.LoadInstallsAll: the registry half takes as a hypothesis that the text after the package loop still has a registry insertion point. Nothing proves that the package loop never writes a `"scopedRegistries":` key, because package versions are arbitrary text. `PackagesOnce` proves the package half with no hypothesis. `DefaultLoadTwice` discharges the hypothesis for manifests that already hold `"scopedRegistries": [`. A fresh manifest with no registry array is not covered.
- ManifestInvariants.LoadTwice: takes the same hypothesis as `LoadInstallsAll`, for the same reason.
- `MemoryUtility` is left out entirely (file system only).
- `TextureUtility` GPU and codec work is left out: `ConvertToReadable`, `TextureToFile`/`TextureFromFile`, the `Transform`/`CropResize` shaders, `Blit`/`ReadPixels` and `CreateRotationMatrix`.
- TextureUtility.Resize: the scaled branch (render texture, `Blit`, `ReadPixels`) is left out, and its result is left unconstrained.
- Floats are exact reals: rounding of `float` arithmetic is not modelled.
- TextureUtility.CropParams: requires a positive width and height. A zero-sized render texture, where the source divides by zero, is not modelled.
- The exception stack trace and source are parameters.
- Game: `PlayerPrefs` is a `map<string, int>`. The `GameState` enum declaration is not part of this model; states other than `Menu` and `Game` are `Other(code)`.
- Game: `GameManager.Ref` is assumed non-null when `UEvent.GameState` runs.
- Game.GameManager.UpdateView: the text of the three labels and the layout refresh are left out. Only the `BestScore` read that the refresh performs is modelled.
- `SpawnManager`, `PlayerManager`, `MenuView` and `PauseMenu` are left out (randomness, input, async delays and UI wiring).
- ReferenceBehaviour: Unity's "fake null" for destroyed objects is not modelled; a slot is either empty or holds an instance.
- NetworkUtility: the transfer itself is a parameter:
  - how the awaited send ended, and the text and result the request holds afterwards;
  - async plumbing, progress reports, cancellation tokens, timeouts and disposal.
- NetworkUtility: JSON (de)serialisation through Json.NET and `JsonUtility` is a parameter. Serialising the request data is taken as already done, giving a non-null string.
- NetworkUtility: the UTF-8 encoding of the upload body is left out; the body is the JSON text.
- NetworkUtility.ProcessRequest: the `Bundle size` log line is left out. It reads a response header before the request is sent, where Unity has none.
- `NetworkUtility.Load` (text, texture, bundle and byte downloads), `ProcessResult` and the image-loader fallbacks are left out (foreign library calls and async plumbing).
