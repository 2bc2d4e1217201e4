# Vegas Language Changer — a Dafny model of its core

Vegas Language Changer is a small Windows tool that switches the interface
language of installed VEGAS Pro / Movie Studio versions. It does this in five steps:

1. It finds the installed versions in the registry, trying several base paths and both registry views.
2. It saves a `.reg` script that records every selected version's current `ULangID`.
3. It writes the new `ULangID` into the registry.
4. For newer versions it copies an embedded `local_<suffix>.cfg` file into the install directory.
5. It deletes the plugin caches, so VEGAS rebuilds them.

A combo box offers only the languages that every selected version supports,
and every user-interface text comes from a lookup with an English fallback.

This project models that core, all of it in `VegasLanguageChanger/MainForm.cs`, as
pure functions over immutable values:

- The registry is a map from (view, key path) to a key: its values plus an access mode (read-write, read-only, denied).
- `OpenSubKey` answers with a handle, `null` (`NotFound`) or an exception (`Refused`).
- The file system is a map of files to bytes, a set of directories, and the paths whose deletion or creation throws.
- The embedded resources are a map from manifest resource name to bytes.
- Each step returns one outcome per version, as a datatype, together with the new registry or file system. Log lines are not modelled as localized strings.
- The operator's answers to the two dialogs, the local application data folder and whether the desktop accepts the backup file are parameters.

Modules: `Optional`, `FirstMatch` (the first-hit search over candidates that
discovery, backup and the registry update share), `Strings` (`Path.Combine`,
`Replace`, `Contains`, `ToString("x8")`), `Registry`, `Files`, `Catalog` (the
version descriptors and the two language tables), `Discovery`, `Backup`,
`Mutator`, `LanguageFiles`, `PluginCache`, `LanguageChoice`, `Localization`,
`ChangeLanguage`.

Where the code differs from what its comments, messages or UI text suggest, the model follows the code:

- **Cache clearing.** A version whose cache folder holds no cache file gets no message (lines 491-510). Success is recorded only when something was deleted and nothing failed (line 510). The model's outcome for this case is `NothingToClear`, not a success.
- **Registry write.** When the open for writing throws, that version's failure is final (lines 338-342). The 32-bit view is not tried after a refused 64-bit key. A key missing from both views gives `reg_path_not_found`.
- **Resource folder name.** The comment at line 398 gives `VEGAS_Pro_23_0` as the resource folder. The expression at line 399 turns `.` into `._`, which yields `VEGAS_Pro_23._0`, and the model follows the expression (`LanguageFiles.FolderNamePartExample`).

## Model

| member | source | states |
|---|---|---|
| Strings.CombineInjective | VegasLanguageChanger/MainForm.cs:491-493 | combining one folder with two different file names never gives the same path, so the two cache files are distinct paths |
| Strings.CombineShape | VegasLanguageChanger/MainForm.cs:122-123 | the combination starts with the folder and ends with the name, with at most one separator between; a non-empty name always makes the path longer, and an empty one leaves the folder as it is |
| Strings.ContainsIffOccurs | VegasLanguageChanger/MainForm.cs:480-481 | the ordinal `Contains` scan answers true exactly when the substring occurs at some position |
| Strings.DwordHex | VegasLanguageChanger/MainForm.cs:281 | `ToString("x8")` gives eight lower-case hex digits whose value is the two's-complement pattern of the id, and reading them back as a signed 32-bit value gives the id |
| Registry.WriteOpenImpliesReadOpen | VegasLanguageChanger/MainForm.cs:270-271 | whether a key is found does not depend on the access asked for; a key that opens for writing opens alike for reading, and a key refused for reading is refused for writing |
| Registry.ValueKindsExclusive | VegasLanguageChanger/MainForm.cs:275-276 | a value passes `is int` or `as string`, never both |
| Registry.WriteReplacesValueKind | VegasLanguageChanger/MainForm.cs:330 | after `SetValue("ULangID", id, DWord)` the value passes `is int` as `id` and no longer reads as a string, whatever kind it was; every other value reads as before |
| Registry.WithLangId | VegasLanguageChanger/MainForm.cs:330 | `SetValue("ULangID", id, DWord)` makes `ULangID` read back as `id` and keeps every other value and the access rights |
| Registry.SameShapeSameOpen | VegasLanguageChanger/MainForm.cs:325-328 | writing values never changes how later opens answer |
| Files.CreateDirectoryIdempotent | VegasLanguageChanger/MainForm.cs:428 | creating the destination folder a second time changes nothing |
| Files.CreateFileOverwrites | VegasLanguageChanger/MainForm.cs:431-434 | `FileMode.Create` truncates: writing a file twice leaves exactly what a single write of the second content leaves |
| Files.CreateThenDeleteRestores | VegasLanguageChanger/MainForm.cs:431-434 | a file created where none was and then deleted leaves the file system as it was |
| FirstMatch.FirstSomeSpec | VegasLanguageChanger/MainForm.cs:117-156 | the first-hit search returns the first candidate that answers, and nothing when none does |
| Catalog.KeyOf | VegasLanguageChanger/MainForm.cs:652-653 | the lookup by id finds nothing exactly when no entry has that id, and otherwise finds the key of an entry with that id |
| Catalog.IdOf | VegasLanguageChanger/MainForm.cs:193-194 | `FirstOrDefault(kvp => kvp.Value == key).Key` is 0 when no entry holds the key, and otherwise the id of an entry holding it |
| Catalog.LookupsInverse | VegasLanguageChanger/MainForm.cs:193-194 | in a table with distinct ids and keys, the lookup by id and the lookup by key undo each other |
| Catalog.LangTableDistinct | VegasLanguageChanger/MainForm.cs:930-935 | `LangIdToKey` declares every id and every key once |
| Catalog.LangTableBijective | VegasLanguageChanger/MainForm.cs:930-935 | every id in the table maps to a key whose reverse lookup gives the id back, and the other way round |
| Catalog.EnglishAndKoreanIds | VegasLanguageChanger/MainForm.cs:932-933 | 1033 is `english` and 1042 is `korean` |
| Catalog.KoreanIsId1042 | VegasLanguageChanger/MainForm.cs:193-198 | the key lookup yields 1042 for `korean` and for no other key, so only Korean can raise the Vegas Pro 15 warning |
| Catalog.LanguagesWithoutCfgFile | VegasLanguageChanger/MainForm.cs:932-940 | Polish (1045) and Russian (1049) are selectable but have no `.cfg` suffix |
| Discovery.ProbeHitMeaning | VegasLanguageChanger/MainForm.cs:121-147 | a (base path, view) pair hits exactly when the `Lang` key exists and opens and the parent open does not throw; the recorded path is the `Lang` path and the install path is the parent's string `InstallPath` in the same view, or absent |
| Discovery.FindVersion | VegasLanguageChanger/MainForm.cs:143-147 | an installation found for a descriptor carries that descriptor |
| Discovery.FindFromFirstHit | VegasLanguageChanger/MainForm.cs:114-156 | with base paths outermost and views innermost, the search returns the probe of the first hitting pair |
| Discovery.FindFromNone | VegasLanguageChanger/MainForm.cs:114-163 | the search finds nothing exactly when every pair misses |
| Discovery.FindVersionIsFirstHit | VegasLanguageChanger/MainForm.cs:114-156 | when pair (p, w) hits and every earlier pair misses, the installation is built from that probe whatever later pairs hold |
| Discovery.FindVersionNone | VegasLanguageChanger/MainForm.cs:110-163 | a descriptor yields no installation exactly when every (base path, view) pair misses, exceptions included |
| Discovery.KeepFirstByName | VegasLanguageChanger/MainForm.cs:149-153 | the list never holds two installations of one name, each entry is some descriptor's result, and every hit's name is listed |
| Discovery.KeepFirstByNameSnoc | VegasLanguageChanger/MainForm.cs:149-153 | one more result extends the list by its hit exactly when its name is not listed yet |
| Discovery.KeepFirstByNameKeepsFirst | VegasLanguageChanger/MainForm.cs:149-153 | of several hits with one name the list keeps the first: every listed installation is a hit with no earlier hit of its name |
| Discovery.KeepFirstByNameKeepsDistinct | VegasLanguageChanger/MainForm.cs:149-153 | with distinct names the duplicate check drops nothing: the list is every hit, in order |
| Discovery.DiscoverSound | VegasLanguageChanger/MainForm.cs:104-166 | at most one installation per descriptor, names unique, each listed installation is the first hit of its own descriptor, and every descriptor with a hit is listed by name |
| Discovery.DiscoverListsEveryHit | VegasLanguageChanger/MainForm.cs:104-166 | for a catalog of distinct names discovery lists exactly the hits, in catalog order |
| Discovery.ScanVersion | VegasLanguageChanger/MainForm.cs:112-164 | the two nested loops with their early exits compute the first-hit search |
| Discovery.FindInstalledVegasVersions | VegasLanguageChanger/MainForm.cs:104-166 | the handler's loop over the catalog computes the deduplicated first-hit list |
| Backup.ReadLangIdMeaning | VegasLanguageChanger/MainForm.cs:270-285 | a view yields a value exactly when the key exists, may be read and holds a REG_DWORD `ULangID`, and the value is that DWORD |
| Backup.CurrentLangIdPrefers64 | VegasLanguageChanger/MainForm.cs:262-289 | the recorded value comes from the 64-bit view when it yields one, else from the 32-bit view, else nothing is recorded |
| Backup.SnapshotMeaning | VegasLanguageChanger/MainForm.cs:263-290 | the backup holds one entry per version that yields a value, with its path and value, and nothing else; its length is the number of such versions |
| Backup.SnapshotCount | VegasLanguageChanger/MainForm.cs:263-290 | the number of recorded entries equals the number of selected versions whose key yields a `ULangID` |
| Backup.SnapshotAppend | VegasLanguageChanger/MainForm.cs:263-290 | versions are recorded in selection order: backing up a concatenation records the first list's entries, then the second's |
| Backup.Blocks | VegasLanguageChanger/MainForm.cs:280-282 | every recorded value takes exactly three lines |
| Backup.BackupRegistry | VegasLanguageChanger/MainForm.cs:250-300 | the backup fails exactly when the file cannot be written; a saved script starts with the `Windows Registry Editor Version 5.00` header and a blank line |
| Backup.KeyLineRoundTrip | VegasLanguageChanger/MainForm.cs:280 | the `[HKEY_LOCAL_MACHINE\<path>]` line reads back as the path |
| Backup.ValueLineRoundTrip | VegasLanguageChanger/MainForm.cs:281 | the `"ULangID"=dword:<x8>` line reads back as the id, negative ids included |
| Backup.BlocksRoundTrip | VegasLanguageChanger/MainForm.cs:263-290 | reading the blocks back gives the recorded entries, in order |
| Backup.BackupRoundTrip | VegasLanguageChanger/MainForm.cs:258-294 | a saved script parses back to exactly the recorded (path, `ULangID`) pairs, in order |
| Mutator.OutcomeMeaning | VegasLanguageChanger/MainForm.cs:317-348 | no key in either view gives `reg_path_not_found`; otherwise the first view holding the key decides, success exactly when it grants write access; a refused open is final |
| Mutator.OutcomeSameShape | VegasLanguageChanger/MainForm.cs:320-343 | a version's outcome depends only on which keys exist and their access, never on values written before |
| Mutator.ApplyOutcomeEffect | VegasLanguageChanger/MainForm.cs:326-330 | a success writes `ULangID` at exactly the opened key; a failure writes nothing |
| Mutator.ModifyRegistryIndependent | VegasLanguageChanger/MainForm.cs:317-349 | every version gets exactly one outcome, the one it would get alone on the original registry, and writing adds, removes or re-permissions no key |
| Mutator.ModifyRegistrySucceeded | VegasLanguageChanger/MainForm.cs:312-357 | the returned list is the order-preserving subsequence of the inputs whose outcome is a success |
| Mutator.SucceededMembership | VegasLanguageChanger/MainForm.cs:328-357 | a version is returned exactly when it was an input and its write succeeded |
| Mutator.ModifyRegistryEffect | VegasLanguageChanger/MainForm.cs:317-349 | the keys written now hold the new id with other values kept; every other key is unchanged, and no key appears or disappears |
| Mutator.ModifiedVersionReadsBack | VegasLanguageChanger/MainForm.cs:326-330 | after the run, every successful version's key holds the new id as a DWORD |
| LanguageFiles.FindResource | VegasLanguageChanger/MainForm.cs:401-418 | a resource found is in the bundle |
| LanguageFiles.FindResourceMeaning | VegasLanguageChanger/MainForm.cs:401-418 | `Language` is tried before `language`; with neither resource the lookup fails |
| LanguageFiles.CopyOneOutcome | VegasLanguageChanger/MainForm.cs:385-441 | per version: `no_dest` exactly when the install path is null or empty; skipped exactly when the destination file exists; `no_source` exactly when it does not and no resource exists; none of these touches the file system; a permission failure exactly when a resource exists but the folder or the file cannot be created; a copy writes the resource's bytes to `<install>\<language folder>\local_<suffix>.cfg` |
| LanguageFiles.CopyOneSucceeds | VegasLanguageChanger/MainForm.cs:420-434 | with an install path, no file yet, the resource embedded and nothing blocking the folder or the file, the copy reports success at the destination file |
| LanguageFiles.CopyOneExtends | VegasLanguageChanger/MainForm.cs:392-434 | one version's copy only adds files and directories, never overwrites or removes one |
| LanguageFiles.CopyOneSettled | VegasLanguageChanger/MainForm.cs:396 | a version whose file was copied or already present is skipped on any later state that only added files |
| LanguageFiles.CopyEachExtends | VegasLanguageChanger/MainForm.cs:383-451 | the whole loop only adds files and directories |
| LanguageFiles.CopyLanguageFilesNeverOverwrites | VegasLanguageChanger/MainForm.cs:370-451 | every file present before the copy is present after it with the same content, and no directory disappears |
| LanguageFiles.NoCfgLanguageIsNoOp | VegasLanguageChanger/MainForm.cs:376-377 | choosing Polish or Russian copies nothing and reports nothing |
| LanguageFiles.CopyEachOutcomes | VegasLanguageChanger/MainForm.cs:383 | exactly the versions flagged `CfgCopySupported` are processed, one outcome each |
| LanguageFiles.NoDestinationIffNoInstallPath | VegasLanguageChanger/MainForm.cs:385-389 | a processed version is reported without destination exactly when its install path is null or empty |
| LanguageFiles.CopiedFilesHoldResource | VegasLanguageChanger/MainForm.cs:412-436 | every reported copy names a file that holds, at the end, the bytes of the resource found for that version |
| LanguageFiles.CopyEachIdempotent | VegasLanguageChanger/MainForm.cs:383-451 | on any later state that only added files, the loop processes the same versions and every version copied or present the first time is now skipped |
| LanguageFiles.CopyLanguageFilesIdempotent | VegasLanguageChanger/MainForm.cs:370-451 | a second call on the first call's result overwrites nothing: every version copied or present before is skipped |
| LanguageFiles.ProductPrefixReplaced | VegasLanguageChanger/MainForm.cs:399 | the space in `VEGAS Pro ` becomes `_` |
| LanguageFiles.FolderNamePartShape | VegasLanguageChanger/MainForm.cs:399 | for a registry key without spaces the resource folder is `VEGAS_Pro_` followed by the key with every `.` turned into `._` |
| LanguageFiles.FolderNamePartExample | VegasLanguageChanger/MainForm.cs:398-399 | the resource folder of registry key `23.0` is `VEGAS_Pro_23._0` |
| PluginCache.ProductFolderMeaning | VegasLanguageChanger/MainForm.cs:480-482 | `VEGAS Pro` exactly when the name contains `Pro`; `Movie Studio Platinum` exactly when it contains `Studio` but not `Pro`; skipped exactly when it contains neither |
| PluginCache.DeleteCacheFilesFrame | VegasLanguageChanger/MainForm.cs:491-507 | the inner loop removes exactly the files it reports deleted, each an existing file in the cache folder, and touches nothing else |
| PluginCache.DeleteCacheFilesClears | VegasLanguageChanger/MainForm.cs:491-508 | without a failure no cache file is left in the folder |
| PluginCache.DeleteCacheFilesStops | VegasLanguageChanger/MainForm.cs:496-506 | a failed deletion ends the loop: the failing file is one of the cache files, is still there, and no later cache file is deleted |
| PluginCache.ClearOneFrame | VegasLanguageChanger/MainForm.cs:477-513 | one version's step deletes only its own cache files |
| PluginCache.ClearOneAbsent | VegasLanguageChanger/MainForm.cs:487-513 | a version reported cleared, or found with nothing to clear, has no cache file left |
| PluginCache.ClearOneFailure | VegasLanguageChanger/MainForm.cs:501-506 | a reported failure names a cache file of that version that could not be deleted and is still present |
| PluginCache.ClearOneClears | VegasLanguageChanger/MainForm.cs:491-513 | a version with a product folder, a cache file present and none refusing deletion is reported cleared |
| PluginCache.ClearOneOutcome | VegasLanguageChanger/MainForm.cs:479-513 | a version is skipped exactly when it has no product folder; it has nothing to clear, and no message, exactly when neither cache file exists, and then nothing changes; it is reported cleared exactly when some cache file exists and every existing one may be deleted, and then a cache file that existed is gone |
| PluginCache.ClearEachOutcomes | VegasLanguageChanger/MainForm.cs:477-482 | one outcome per version, skipped exactly when the name contains neither `Pro` nor `Studio` |
| PluginCache.ClearEachFrame | VegasLanguageChanger/MainForm.cs:470-514 | the run changes no directory or permission and no file content; every file that disappears is a cache file of one of the versions |
| PluginCache.ClearEachResults | VegasLanguageChanger/MainForm.cs:477-514 | after the run every version reported cleared or with nothing to clear has no cache file left |
| PluginCache.ClearEachFailures | VegasLanguageChanger/MainForm.cs:477-514 | after the run every failure names a cache file of its version that could not be deleted and is still there |
| PluginCache.NoAppDataIsNoOp | VegasLanguageChanger/MainForm.cs:474-475 | without a local application data folder nothing is deleted or reported |
| PluginCache.OnlyManagerCacheIsCleared | VegasLanguageChanger/MainForm.cs:487-513 | a folder holding only a deletable `plugin_manager_cache.bin` is reported cleared and exactly that file is removed |
| LanguageChoice.CommonIdsMeaning | VegasLanguageChanger/MainForm.cs:643-648 | an id is in the intersection exactly when every selected version supports it |
| LanguageChoice.OfferedEntriesMeaning | VegasLanguageChanger/MainForm.cs:651-653 | the offered entries are exactly the table entries whose id is common |
| LanguageChoice.OfferedKeysMeaning | VegasLanguageChanger/MainForm.cs:651-653 | a key is offered exactly when some common id maps to it |
| LanguageChoice.OfferedIdIsCommon | VegasLanguageChanger/MainForm.cs:651-653 | looking an offered key up by key gives a common id |
| LanguageChoice.IndexOfKey | VegasLanguageChanger/MainForm.cs:670 | the position found holds the key and no earlier entry does; nothing is found exactly when no entry holds it |
| LanguageChoice.NoSelectionShowsHint | VegasLanguageChanger/MainForm.cs:634-641 | with nothing selected the combo box is disabled with the `select_version` hint and the chosen key is kept |
| LanguageChoice.EnabledIffCommonLanguage | VegasLanguageChanger/MainForm.cs:634-677 | the combo box is enabled exactly when versions are selected and some table id is supported by all of them; otherwise it shows one hint entry with an empty key |
| LanguageChoice.EnabledChoice | VegasLanguageChanger/MainForm.cs:666-677 | when enabled the entries are the offered keys, the selection is one of them, and the chosen key is the previous one when still offered, else the first |
| LanguageChoice.ChosenSupportedByAll | VegasLanguageChanger/MainForm.cs:670-675 | the chosen key's id, looked up as the change looks it up, is supported by every selected version and maps back to the key |
| LanguageChoice.CommitSelection | VegasLanguageChanger/MainForm.cs:614-620 | the chosen key after a commit is the previous one or the key of an entry in the combo box |
| LanguageChoice.CommitSelectionRoundTrip | VegasLanguageChanger/MainForm.cs:614-620 | committing the entry the update selected for a key gives that key back |
| LanguageChoice.CommittedKeyIsOffered | VegasLanguageChanger/MainForm.cs:614-620 | committing any entry of an enabled combo box chooses an offered key supported by every selected version |
| LanguageChoice.CommonIdsExample | VegasLanguageChanger/MainForm.cs:643-648 | versions supporting {1033, 1042, 1041}, {1033, 1042} and {1033, 1042, 2052} have exactly {1033, 1042} in common |
| LanguageChoice.OfferedKeysExample | VegasLanguageChanger/MainForm.cs:651-653 | for common ids {1033, 1042} exactly English and Korean are offered |
| Localization.MissingIffNowhere | VegasLanguageChanger/MainForm.cs:725-738 | `MISSING:<key>` comes back exactly when neither the current language nor English has the key |
| Localization.FallbackIsEnglish | VegasLanguageChanger/MainForm.cs:732-736 | a language lacking a key reads exactly what English reads |
| Localization.SetLanguage | VegasLanguageChanger/MainForm.cs:709-716 | the program language only ever switches to a language that has a table |
| Localization.SetLanguageKeepsTable | VegasLanguageChanger/MainForm.cs:709-716 | starting from a language with a table, the program language always has one, and it switches exactly when the new code has one |
| Localization.SampleLookups | VegasLanguageChanger/MainForm.cs:725-738 | on a sample table: a Korean entry is used, a missing Korean entry falls back to English, an unknown key is marked |
| ChangeLanguage.ChangeLanguage | VegasLanguageChanger/MainForm.cs:176-235 | the registry, copy and cache steps run exactly when versions are selected, a language is chosen, the Vegas Pro 15 warning (when shown) is accepted, the change is confirmed and the backup can be written; every early return leaves the registry and files untouched |
| ChangeLanguage.ChangeGates | VegasLanguageChanger/MainForm.cs:179-224 | which early return happens follows the order of the checks, each exactly when the earlier checks pass and its own fails: no versions, then no valid language, then a declined Vegas Pro 15 warning, then a cancelled confirmation, then a backup that cannot be written |
| ChangeLanguage.BackupGate | VegasLanguageChanger/MainForm.cs:219-224 | when the backup cannot be written nothing is modified and no later step runs |
| ChangeLanguage.KoreanOnPro15Warning | VegasLanguageChanger/MainForm.cs:193-203 | the warning is raised exactly for Korean with Vegas Pro 15.0 selected; declining it stops the change |
| ChangeLanguage.CompletedBackupRecords | VegasLanguageChanger/MainForm.cs:219-229 | the saved script parses back to exactly the (path, `ULangID`) pairs of the selected versions as they were before any write |
| ChangeLanguage.WrittenButNotRecorded | VegasLanguageChanger/MainForm.cs:263-290 | a version whose key holds no REG_DWORD `ULangID` gets no backup entry, yet is written when its key accepts the write |
| ChangeLanguage.CompletedRegistry | VegasLanguageChanger/MainForm.cs:229 | after a completed run every successful version reads the chosen id back, and keys nobody wrote are unchanged |
| ChangeLanguage.CompletedCopiesOnlySucceeded | VegasLanguageChanger/MainForm.cs:229-232 | the copy step processes only versions whose registry write succeeded and that take a `.cfg` file, and, for a language with one, every such version |
| ChangeLanguage.CompletedClearsOnlySucceeded | VegasLanguageChanger/MainForm.cs:229-235 | the cache step reports once per version whose registry write succeeded, and not at all without a local application data folder |
| ChangeLanguage.CompletedKeepsOtherFiles | VegasLanguageChanger/MainForm.cs:229-235 | no existing file is overwritten, and the only files removed are cache files of versions whose write succeeded |
| ChangeLanguage.TwoVersionScenario | VegasLanguageChanger/MainForm.cs:219-235 | two versions with recorded ids and writable keys changed to Korean, the first needing a `.cfg` file whose copy nothing blocks, both with a deletable cache of their own: the backup records both, both writes succeed, the one copy succeeds at the destination file, and both caches are reported cleared |

## Left out

- The WinForms user interface is not modelled: the list boxes and their moves, the menus, the message boxes, `ApplyLocalization`, the About dialog, and the float-parsed sorting in `PopulateAvailableList` / `SortListBox`. The two dialogs of the change are boolean answers.
- `DetectAndSetSystemLanguage`: it reads the OS culture, which is outside the model. `Localization.SetLanguageKeepsTable` covers the invariant it shares with `SetLanguage`.
- LanguageChoice.EnabledChoice: the offered languages are kept in `LangIdToKey` order. The source sorts them by localized name with a culture-sensitive `OrderBy`, so "the first entry" here is the first in table order.
- The large localized text tables are not modelled, and neither are the log strings, their success-then-failure order or the exception messages. Only the outcome datatypes and a small sample table remain.
- The timestamped desktop file name (`DateTime.Now`, `GetFolderPath`) and the UTF-16 encoding are left out. The backup is a list of lines plus a "could be written" flag, and the file is not placed into the modelled file system.
- `Path.Combine` is modelled for relative second arguments only. A rooted second argument and invalid path characters are not modelled.
- Windows paths and registry paths are case-insensitive, but the model compares them exactly.
- A resource stream that fails part-way through `CopyTo` is not modelled: a created file holds the whole resource or is not created.
- QWORD and string `ULangID` values exist in the registry model only to be skipped, as `value is int` skips them.
- Backup.BackupRoundTrip: the script is shown to parse back to the recorded pairs. Importing it into the registry is not modelled, so no restore is promised, and a restore would fall short in two ways. A version whose key holds no REG_DWORD `ULangID` gets no entry but is still written (`ChangeLanguage.WrittenButNotRecorded`). The key line names no registry view, so a value read from the 32-bit view cannot be put back where it was read.
- ChangeLanguage.CompletedBackupRecords: states what the script reads back as, not a restore, for the reasons given for `Backup.BackupRoundTrip`.
- The catalog of supported versions is data only. No lemma is stated about the specific versions beyond the language tables.
