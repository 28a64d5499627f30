# Custom Importer — a Dafny model

Custom Importer is a Unity editor extension. Settings assets hold ordered lists of filter
rules. Each rule has a preset, a priority, and tests on the asset's directory part and
file part: contains and/or equals a pattern. When a texture is imported for the first
time, the preset of the first rule that accepts its path is applied. The preset's name is
then recorded in the importer's free-text `userData` after the line
`CustomImporter used`. On later imports, the recorded name is read back and the asset is
flagged `Differ from preset`. Two bulk operations work on the assets of one rule:
re-applying a changed preset, and resetting the rule, which removes the markers so the
assets import as new ones.

The model has these modules:

- `Wrappers`: `Option`, `Result`, and the two .NET exceptions the core can end with (NullReferenceException, ArgumentOutOfRangeException).
- `Lists`: `List<T>.Find`.
- `Strings`: ordinal `String.Contains`, `LastIndexOfAny('/', '\\')`, `String.Replace`, `Split` on `"\r\n"`, `"\r"` and `"\n"`, and decimal `ToString` of integers.
- `Host`: the Unity objects, kept opaque.
  - A `Preset` is a value: an identity handle plus the name of its asset file.
  - An `AssetImporter` is a class with `userData`, the last preset applied, and a re-import count.
- `Rules`: `CIGenericRule` and its `TestCondition`.
- `Markers`: the userData marker protocol, stated as functions of the old text.
- `Settings`: `CISettingsGeneric<T>` as the class `CISettings`.
  - Its rule list and ID list are `seq` fields.
  - The list lookups are functions over those fields.
  - `GetPresetByRule` is a loop method proved against the specification function `SelectPreset`.
  - `SortByPriority` and `OnValidate` update the fields.
  - The static `ApplyNewPresets` and `ResetRule` are loops over the importers of the assets a search returned.
- `TextureSettings`, `ModelSettings`, `AudioSettings`: the per-category copies of the preset lookup.
- `Importer`: the `CustomImporter` postprocessor and its `OnPreprocessTexture`.

Calls into Unity become parameters:
- `AssetDatabase.FindAssets` plus `AssetImporter.GetAtPath` become the importer sequence.
- `Preset.GetDefaultForObject` becomes the `defaultPreset` parameter.
- `new Preset(importer).Equals(preset)` becomes the `equalsPreset` parameter.
- The IDs returned by `CILinks.GetID` become a `supply` sequence.

The properties proved include:
- First match for the preset lookup, with its two error paths.
- Round trips: marker write then parse, marker write then reset, and ID lookup then preset lookup.
- Idempotence of the differing flag.
- Sortedness plus permutation for priority sorting.
- Uniqueness of the IDs `OnValidate` hands out.

## Model

| member | source | states |
|---|---|---|
| Rules.Rule.TestCondition | Assets/CustomImporter/Editor/Classes/CIRule.cs:37-43 | An asset is accepted exactly when each enabled test passes: path contains, path equals, name contains, name equals. |
| Rules.NoTestAcceptsAll | Assets/CustomImporter/Editor/Classes/CIRule.cs:37-43 | A rule with all four tests disabled accepts every asset. |
| Rules.PathExactSubsumesContains | Assets/CustomImporter/Editor/Classes/CIRule.cs:39-40 | While exact path matching is on, toggling path containment never changes the outcome. |
| Rules.NameExactSubsumesContains | Assets/CustomImporter/Editor/Classes/CIRule.cs:41-42 | While exact name matching is on, toggling name containment never changes the outcome. |
| Rules.RelaxingKeepsMatches | Assets/CustomImporter/Editor/Classes/CIRule.cs:37-43 | Disabling tests of a rule never rejects an asset the rule accepted. |
| Rules.NewRuleMatchesOnlyEmpty | Assets/CustomImporter/Editor/Classes/CIRule.cs:23-35 | A rule with the field defaults (empty patterns, all tests on) accepts an asset if and only if both its path and name are empty. |
| Lists.FirstIndex | Assets/CustomImporter/Editor/ScriptableObjects/CISettingsGeneric.cs:99 | `List.Find` semantics: a returned index satisfies the test and no earlier element does; None means no element satisfies it. |
| Strings.Contains | Assets/CustomImporter/Editor/Classes/CIRule.cs:39-42 | Ordinal `String.Contains`: the pattern occurs at some position, so every string contains "". The same test is used at `CISettingsGeneric.cs:37,62` and `CustomImporter.cs:52-53`. `ContainsPrefix` and the other Contains lemmas state its properties. |
| Strings.LastSeparator | Assets/CustomImporter/Editor/ScriptableObjects/CISettingsGeneric.cs:137 | `LastIndexOfAny('/', '\\')`: the result is a separator with none after it, or -1 when there is no separator. |
| Strings.SplitLines | Assets/CustomImporter/Editor/EditorScripts/CustomImporter.cs:63 | Splitting gives at least one line, and no line holds a CR or LF. |
| Strings.SplitLinesAfter | Assets/CustomImporter/Editor/EditorScripts/CustomImporter.cs:63 | Splitting `s + "\n" + t` yields lines found in `s`, followed by the lines of `t`. |
| Strings.ReplaceAll | Assets/CustomImporter/Editor/ScriptableObjects/CISettingsGeneric.cs:65-66 | `String.Replace` with an empty or other replacement: a non-empty pattern is replaced left to right, without overlaps, ordinally. The properties used are `ReplaceAllSkip`, `ReplaceAllAbsent` and `ReplaceAllAfter`. |
| Strings.IntToString | Assets/CustomImporter/Editor/ScriptableObjects/CISettingsGeneric.cs:111 | Decimal `ToString` of an ID, with a leading `-` when negative. `IntToStringInjective` states its property. |
| Strings.IntToStringInjective | Assets/CustomImporter/Editor/ScriptableObjects/CISettingsGeneric.cs:111 | Two IDs with the same decimal text are equal. |
| Settings.SplitPath | Assets/CustomImporter/Editor/ScriptableObjects/CISettingsGeneric.cs:137-139 | Throws ArgumentOutOfRange exactly when the path has no separator. Otherwise the two parts concatenate to the path, the file part starts with a separator, and it holds no other separator. |
| Settings.SplitPathUnique | Assets/CustomImporter/Editor/ScriptableObjects/CISettingsGeneric.cs:137-139 | Any decomposition with those properties is the one the split computes. |
| Settings.SelectPreset | Assets/CustomImporter/Editor/ScriptableObjects/CISettingsGeneric.cs:135-150 | On a path without a separator the lookup fails with ArgumentOutOfRange. Otherwise it returns the preset of the first accepting rule in list order, or the default preset when none accepts. |
| Settings.NameStop | Assets/CustomImporter/Editor/ScriptableObjects/CISettingsGeneric.cs:99 | Where Find's test in GetPresetByName stops: a rule whose preset is null, where the test throws, or whose preset is called `name`. |
| Settings.PrintsAs | Assets/CustomImporter/Editor/ScriptableObjects/CISettingsGeneric.cs:111 | Find's test in GetPresetByRuleID: the rule's ID prints in decimal as `id`. |
| Settings.FreshRulesSelectDefault | Assets/CustomImporter/Editor/ScriptableObjects/CISettingsGeneric.cs:135-150 | Rules left at their defaults never fire on a split path, because its file part is never empty; the default preset is chosen. |
| Settings.CISettings.GetPresetByRule | Assets/CustomImporter/Editor/ScriptableObjects/CISettingsGeneric.cs:135-150 | The split-and-search loop with early return computes exactly `SelectPreset` of the current rules. |
| TextureSettings.GetTexturePresetByRule | Assets/CustomImporter/Editor/ScriptableObjects/CISettingsTexture.cs:24-39 | The texture copy of the lookup gives `SelectPreset` of the settings' rules. |
| ModelSettings.GetPresetByRule | Assets/CustomImporter/Editor/ScriptableObjects/CISettingsModel.cs:22-37 | The model copy of the lookup gives `SelectPreset` of the settings' rules. |
| AudioSettings.GetPresetByRule | Assets/CustomImporter/Editor/ScriptableObjects/CISettingsAudio.cs:22-37 | The audio copy of the lookup gives `SelectPreset` of the settings' rules. |
| Settings.CISettings.GetPresetByName | Assets/CustomImporter/Editor/ScriptableObjects/CISettingsGeneric.cs:97-101 | The search stops at the first rule that has a null preset or a preset called `name`. It throws NullReference if that rule's preset is null, and otherwise returns that preset. Null when it reaches no such rule. A returned preset is called `name`. |
| Settings.CISettings.GetPresetByRuleID | Assets/CustomImporter/Editor/ScriptableObjects/CISettingsGeneric.cs:109-113 | The preset of the first rule whose ID prints as `id`; null when there is none. |
| Settings.CISettings.GetRuleIDstringFromPreset | Assets/CustomImporter/Editor/ScriptableObjects/CISettingsGeneric.cs:121-125 | The printed ID of the first rule using `preset`. Null if and only if no rule uses it. |
| Settings.RuleIdRoundTrip | Assets/CustomImporter/Editor/ScriptableObjects/CISettingsGeneric.cs:109-125 | With distinct rule IDs, looking up the ID string of a preset's rule gives that preset back. |
| Settings.ComparePriority | Assets/CustomImporter/Editor/ScriptableObjects/CISettingsGeneric.cs:161-164 | The intended comparison: negative exactly when `x` has the higher priority, and zero exactly on equal priorities. |
| Settings.InsertByPriority | Assets/CustomImporter/Editor/ScriptableObjects/CISettingsGeneric.cs:161-164 | Inserting into a list sorted by descending priority gives a sorted list one longer, headed by the new rule or by the old head. |
| Settings.InsertByPriorityPermutes | Assets/CustomImporter/Editor/ScriptableObjects/CISettingsGeneric.cs:161-164 | Insertion adds exactly the new rule: the multiset of rules grows by that rule alone. |
| Settings.SortByPriorityDesc | Assets/CustomImporter/Editor/ScriptableObjects/CISettingsGeneric.cs:161-164 | The result is sorted from high to low priority and is a permutation of the input. |
| Settings.CISettings.SortByPriority | Assets/CustomImporter/Editor/ScriptableObjects/CISettingsGeneric.cs:158-165 | When `mother` holds the same rule type, its rules end high priority first as a permutation of the old list. Otherwise the cast yields null, the call throws NullReference, and nothing changes. |
| Settings.CompareAsWrittenAgrees | Assets/CustomImporter/Editor/ScriptableObjects/CISettingsGeneric.cs:163 | When the difference fits in Int32, the 32-bit subtraction equals the intended comparison. |
| Settings.CompareAsWrittenMisorders | Assets/CustomImporter/Editor/ScriptableObjects/CISettingsGeneric.cs:163 | With priorities Int32.MinValue and 1, the wrapped subtraction puts the lower-priority rule first. |
| Settings.CompareAsWritten | Assets/CustomImporter/Editor/ScriptableObjects/CISettingsGeneric.cs:163 | The comparator as written: `y.PRIORITY - x.PRIORITY` in unchecked Int32 arithmetic. The result is always in Int32 range. |
| Settings.Wrap32 | Assets/CustomImporter/Editor/ScriptableObjects/CISettingsGeneric.cs:163 | Unchecked Int32 arithmetic: the result is always in Int32 range, and a value already in range is unchanged. |
| Settings.RegisterExtends | Assets/CustomImporter/Editor/ScriptableObjects/CISettingsGeneric.cs:179-190 | The growth loop keeps one rule per pending rule. It keeps the old ID entries and lists each pending rule's final ID after them, in order. |
| Settings.RegisterShape | Assets/CustomImporter/Editor/ScriptableObjects/CISettingsGeneric.cs:177-191 | A pending rule changes only its ID, and only when that ID is 0 or already listed. The new ID then comes from the `GetID` supply. |
| Settings.Register | Assets/CustomImporter/Editor/ScriptableObjects/CISettingsGeneric.cs:179-190 | The reference definition of the growth loop: each pending rule, in order, keeps its ID or takes the next `GetID` value when its ID is 0 or already listed, and that ID is appended to the list. |
| Settings.NeedsFreshId | Assets/CustomImporter/Editor/ScriptableObjects/CISettingsGeneric.cs:181 | The renumbering test of the growth loop: the rule's ID is already listed or is 0. |
| Settings.RegisterUnique | Assets/CustomImporter/Editor/ScriptableObjects/CISettingsGeneric.cs:169-191 | Suppose the ID list is duplicate-free and each GetID value is nonzero and not yet listed when it is drawn. Then the new list is duplicate-free and every new entry is nonzero. This is the unique-ID promise of OnValidate. |
| Settings.CollidingNewRuleIsRenumbered | Assets/CustomImporter/Editor/ScriptableObjects/CISettingsGeneric.cs:181-188 | Suppose a later new rule already carries the ID that GetID handed to an earlier new rule. The draws still count as fresh, and the later rule gets its own next ID. |
| Settings.CISettings.OnValidate | Assets/CustomImporter/Editor/ScriptableObjects/CISettingsGeneric.cs:173-206 | Nothing changes before OnEnable. After it, there are three cases. If rules were added, the new ones are registered. If rules were removed, the ID list is rebuilt from the rules. If the lengths match, the IDs stay. In every case each rule's caption is recomputed. |
| Settings.CISettings.RegisterNewRules | Assets/CustomImporter/Editor/ScriptableObjects/CISettingsGeneric.cs:177-191 | The growth loop's new ID list and rules are exactly those of `Register` on the rules past the old ID list. |
| Settings.CISettings.RebuildIds | Assets/CustomImporter/Editor/ScriptableObjects/CISettingsGeneric.cs:192-199 | The ID list becomes the rules' IDs in order. |
| Settings.CISettings.RefreshVisibleNames | Assets/CustomImporter/Editor/ScriptableObjects/CISettingsGeneric.cs:201-204 | Every rule's caption becomes "Filter <label> \| Priority : <p> \| ID : <id>", and nothing else in the rules changes. |
| Settings.VisibleName | Assets/CustomImporter/Editor/ScriptableObjects/CISettingsGeneric.cs:203 | The caption format "Filter <label> \| Priority : <p> \| ID : <id>", with the priority and ID in decimal. |
| Settings.CISettings.OnEnable | Assets/CustomImporter/Editor/ScriptableObjects/CISettingsGeneric.cs:209-213 | Sets the enabled flag. |
| Settings.CISettings.constructor | Assets/CustomImporter/Editor/ScriptableObjects/CISettingsGeneric.cs:81-89 | A new settings object has no rules, no IDs, and is not enabled. |
| Settings.ApplyNewPresets | Assets/CustomImporter/Editor/ScriptableObjects/CISettingsGeneric.cs:31-46 | Every importer keeps its userData, because the userData saved before `ApplyTo` is written back. Each selected one gets the preset and one re-import. The others are untouched. An importer is selected when its userData is non-empty and mentions the rule, and either the call is forced or the asset is not flagged as differing. |
| Settings.ResetRule | Assets/CustomImporter/Editor/ScriptableObjects/CISettingsGeneric.cs:56-70 | Each selected importer loses every marker of the rule and every differing flag from its userData, and is re-imported once. The others are untouched, and no preset is applied. An importer is selected when its userData is non-empty and mentions the rule, and either the call is forced or the asset is flagged. |
| Markers.SettingsUsed | Assets/CustomImporter/Editor/EditorScripts/CustomImporter.cs:64-74 | The line after the first line equal to the prefix, or "" when no line before the last is the prefix. |
| Markers.MarkFirstImport | Assets/CustomImporter/Editor/EditorScripts/CustomImporter.cs:122 | The userData a first import leaves: the old userData in front, then a line break, the prefix line, another line break and the name. |
| Markers.MarkDiffering | Assets/CustomImporter/Editor/EditorScripts/CustomImporter.cs:87-102 | The userData a later import leaves on a found preset: the old userData in front, and the differing flag present. |
| Markers.UsedMarker | Assets/CustomImporter/Editor/EditorScripts/CustomImporter.cs:122 | The first-import marker `"\n" + prefix + "\n" + name`, which the reset at `CISettingsGeneric.cs:65` removes. The differing flag `"\n" + Differing` of `CustomImporter.cs:101` and `CISettingsGeneric.cs:66` is the constant `DifferingMarker` beside it. |
| Markers.SelectedForApply | Assets/CustomImporter/Editor/ScriptableObjects/CISettingsGeneric.cs:37 | The re-apply selection: non-empty userData mentioning the rule, not flagged as differing unless forced. |
| Markers.SelectedForReset | Assets/CustomImporter/Editor/ScriptableObjects/CISettingsGeneric.cs:62 | The reset selection. Unforced, it takes exactly the assets of the rule that a forced re-apply reaches and an unforced re-apply skips. |
| Markers.ResetUserData | Assets/CustomImporter/Editor/ScriptableObjects/CISettingsGeneric.cs:65-66 | The userData a reset leaves: every marker of the rule removed, then every differing flag. `ResetAfterFirstImport` states its round trip. |
| Markers.MarkDifferingOnce | Assets/CustomImporter/Editor/EditorScripts/CustomImporter.cs:95-102 | After a later import the differing flag is present, and a second later import adds nothing. |
| Markers.ParseAfterFirstImport | Assets/CustomImporter/Editor/EditorScripts/CustomImporter.cs:63-74 | Round trip: the name written by a first import is read back from the split lines of userData, if the old userData held no prefix and the name no line break. |
| Markers.ResetAfterFirstImport | Assets/CustomImporter/Editor/ScriptableObjects/CISettingsGeneric.cs:65-66 | Round trip: resetting a rule on an asset it marked, whether or not it was later flagged, restores the userData the first-import marker was appended to, which is the userData as `ApplyTo` left it. |
| Markers.ResetSelectsMarked | Assets/CustomImporter/Editor/ScriptableObjects/CISettingsGeneric.cs:62 | A forced reset of a rule selects every asset that rule marked, and an unforced reset selects every such asset flagged as differing. |
| Markers.ApplySkipsDiffering | Assets/CustomImporter/Editor/ScriptableObjects/CISettingsGeneric.cs:37 | An unforced re-apply never selects an asset flagged as differing. |
| Importer.FindSettingsUsed | Assets/CustomImporter/Editor/EditorScripts/CustomImporter.cs:64-74 | The scan loop with `break` computes `SettingsUsed` of the lines. |
| Importer.CustomImporter.OnPreprocessTexture | Assets/CustomImporter/Editor/EditorScripts/CustomImporter.cs:39-135 | With no texture settings nothing changes. An asset with a prefix goes through `PreprocessLinkedAsset`; the applied preset never changes. Any other asset goes through `PreprocessNewAsset`, and its marker is appended to the userData that `ApplyTo` left. |
| Importer.CustomImporter.PreprocessLinkedAsset | Assets/CustomImporter/Editor/EditorScripts/CustomImporter.cs:61-108 | Looks up the recorded name in the rules. A lookup exception propagates with userData unchanged, and no preset leaves it unchanged. When the preset is found, the differing flag is added if absent, and otherwise userData is unchanged. |
| Importer.CustomImporter.PreprocessNewAsset | Assets/CustomImporter/Editor/EditorScripts/CustomImporter.cs:111-133 | Selects a preset by rule. A split exception propagates and nothing changes; a null preset changes nothing. Otherwise the preset is applied, and `"\n" + prefix + "\n" + name` is appended to the userData as `ApplyTo` left it (the ghost result `appliedData`). |
| Importer.SecondImportFindsPreset | Assets/CustomImporter/Editor/EditorScripts/CustomImporter.cs:76-122 | After a first import with rule `i`'s preset, appending its marker to userData as `ApplyTo` left it, the next import finds that preset by name. This needs that userData to hold no prefix, every earlier rule to have a non-null preset of a different name, and the preset name to hold no line break. |
| Importer.CustomImporter.constructor | Assets/CustomImporter/Editor/EditorScripts/CustomImporter.cs:138-143 | The postprocessor starts with the asset path, its importer, and the texture settings it loaded, which may be none. |
| Host.AssetImporter.ApplyPreset | Assets/CustomImporter/Editor/ScriptableObjects/CISettingsGeneric.cs:41 | The importer now carries the preset. `ApplyTo` may also write userData; nothing is promised about it. |
| Host.AssetImporter.SaveAndReimport | Assets/CustomImporter/Editor/ScriptableObjects/CISettingsGeneric.cs:43 | Records one more re-import. |

## Left out

- The remove-customized-flag branch of OnPreprocessTexture (`CustomImporter.cs:87-94`) is modelled as written. The result of `String.Replace` is dropped, so userData does not change. `PreprocessLinkedAsset` states exactly that.
- Importer.CustomImporter.PreprocessLinkedAsset: the add-customized-flag branch (`CustomImporter.cs:95-102`) is modelled as written, too. It adds the flag whenever the flag is absent, including when the importer equals its preset; the comment at lines 84-85 says the flag is set only when the importer differs. The model does not promise the commented intent.
- `OnPreprocessTexture` on the texture settings only. The code has no model or audio callback; `CISettingsModel` and `CISettingsAudio` supply only their lookup copies.
- `ModelSettings.GetPresetByRule`, `AudioSettings.GetPresetByRule`: the casts `importer as ModelImporter` and `importer as AudioImporter` are not modelled. The default preset they lead to is a parameter.
- `CIModelRule` and `CIAudioRule` are treated as `CIGenericRule`. Their definitions are not part of this model, and the lookups use only `TestCondition`.
- The revision of `CIRule.cs` modelled here does not declare `ID`, `LABEL` or `_s_visible_name`. They are modelled as the rule fields `id`, `title` and `visibleName`, from their uses in `CISettingsGeneric.cs`.
- `CILinks.GetID` is not part of this model. Its successive results are the `supply` parameter of `OnValidate`.
- Settings.RegisterUnique: assumes, as the precondition `FreshDraws`, that each GetID value is nonzero and not yet in the ID list when it is drawn. GetID's own uniqueness is not proved.
- `SetLinks` and `GetLinks` (loading the links asset through `AssetDatabase`) are left out; the loaded texture settings are a constructor argument.
- The `_b_debug` flag and every Debug.Log call are left out: logging is output only.
- The editor GUI (`CISettingsGeneric.cs:221-267`, the model settings editor) is left out. It is inspector drawing only.
- `AssetDatabase.FindAssets(filter)` and `AssetImporter.GetAtPath` are not modelled. Their result is the importer sequence given to `ApplyNewPresets` and `ResetRule`. Distinct assets are assumed to have distinct importers (`DistinctImporters`).
- Host.AssetImporter.ApplyPreset: `Preset.ApplyTo` is modelled as recording the applied preset and as free to write userData. Its effect on the importer's other settings is not modelled, and the userData it leaves is unknown.
- Importer.CustomImporter.PreprocessNewAsset: because the userData `ApplyTo` leaves is unknown, the first-import result is stated against the ghost result `appliedData`, not against the userData before the call. The same holds for `OnPreprocessTexture`. `SecondImportFindsPreset` is stated over that userData and needs it to hold no prefix. `ResetAfterFirstImport` likewise restores that userData, which equals the userData from before the import only when `ApplyTo` keeps it. `ApplyNewPresets` needs no such assumption: it writes back the userData saved before `ApplyTo`.
- `SaveAndReimport` is modelled as a counter. The re-import it starts, which runs `OnPreprocessTexture` again, is not chained.
- `Preset.Equals` on a preset built from the importer is not modelled; its result is the `equalsPreset` parameter.
- Settings.ApplyNewPresets: a null `preset` argument, which would throw in `ApplyTo`, is not modelled. The preset parameter is non-null.
- Settings.CISettings.SortByPriority: `List.Sort` is unstable, and the model fixes one sorted permutation (`SortByPriorityDesc`). The post-state promises only what every such sort gives: sorted, and a permutation. The comparator's overflow is under Findings.
- Priorities, IDs and lengths are unbounded integers. Int32 wrap-around is modelled only in the comparator, where it changes the outcome.
- Rule lists are values (`seq`). A rule object shared by two lists, and Unity serialisation, are not modelled.

## Findings

| source | as written | input that shows it | evidently intended | confidence | as-written member | corrected member |
|---|---|---|---|---|---|---|
| Assets/CustomImporter/Editor/ScriptableObjects/CISettingsGeneric.cs:163 | The comparator returns `y.PRIORITY - x.PRIORITY` in unchecked Int32 arithmetic, so large priority gaps wrap around. | x.PRIORITY = Int32.MinValue, y.PRIORITY = 1: 1 − Int32.MinValue wraps to Int32.MinValue + 1, which is negative, so x sorts before y although its priority is lower | Higher priority first for every pair of priorities, for example `y.PRIORITY.CompareTo(x.PRIORITY)`. | not executed | Settings.CompareAsWrittenMisorders | Settings.SortByPriorityDesc |
