/** `btnChangeLanguage_Click`: the checks and the two dialogs that may stop
    a change, then the registry backup that gates every write, then the
    registry update, the language-file copy and the plugin-cache clearing,
    the last two only for the versions whose registry write succeeded. */
module ChangeLanguage {
  import opened Optional
  import opened Strings
  import opened Registry
  import opened Files
  import opened Catalog
  import opened Backup
  import opened Mutator
  import opened LanguageFiles
  import opened PluginCache
  import opened LanguageChoice

  /** The state the change acts on. */
  datatype Machine = Machine(hive: Hive, fs: FileSystem)

  /** What the handler takes from its surroundings: the embedded resources,
      the local application data folder, and whether the backup file on the
      desktop can be written. */
  datatype Environment = Environment(bundle: ResourceBundle, localAppData: string, backupWritable: bool)

  /** The operator's answers: Yes to the Vegas Pro 15 warning, OK to the
      final confirmation. */
  datatype Answers = Answers(acceptsWarning: bool, confirms: bool)

  /** How the handler ended: one of the early returns, or the whole run with
      the saved backup script and every step's outcomes. */
  datatype ChangeResult =
    | NoVersionsSelected
    | NoValidLanguage
    | DeclinedWarning
    | Cancelled
    | BackupNotSaved
    | Completed(backup: seq<string>, registry: MutationRun, copy: CopyRun, cache: CacheRun)

  datatype Change = Change(result: ChangeResult, machine: Machine)

  const WarnedVersionName: string := "Vegas Pro 15.0"
  const WarnedLangId: Int32 := 1042

  /** A language is chosen and the combo box has an entry selected. */
  predicate ValidLanguage(chosen: string, combo: LanguageCombo) {
    chosen != "" && 0 <= combo.selected < |combo.items|
  }

  /** Some selected version is Vegas Pro 15.0 and the target id is Korean's. */
  predicate NeedsWarning(selected: seq<InstalledVersion>, id: Int32) {
    (exists i :: 0 <= i < |selected| && selected[i].Name() == WarnedVersionName) && id == WarnedLangId
  }

  /** Every check and dialog before the registry is written lets the change
      go ahead: versions are selected, a language is chosen, the Vegas Pro 15
      warning (when shown) is accepted, the change is confirmed and the backup
      can be written. */
  predicate GoesAhead(env: Environment, selected: seq<InstalledVersion>,
                      chosen: string, combo: LanguageCombo, answers: Answers) {
    && |selected| > 0
    && ValidLanguage(chosen, combo)
    && (NeedsWarning(selected, IdOfKey(chosen)) ==> answers.acceptsWarning)
    && answers.confirms
    && env.backupWritable
  }

  /** The change as a whole. The target id is looked up by key, 0 when the key
      is not in the table. */
  function ChangeLanguage(m: Machine, env: Environment, selected: seq<InstalledVersion>,
                          chosen: string, combo: LanguageCombo, answers: Answers): (r: Change)
    ensures !r.result.Completed? ==> r.machine == m
    ensures r.result.Completed? <==> GoesAhead(env, selected, chosen, combo, answers)
  {
    if |selected| == 0 then Change(NoVersionsSelected, m)
    else if !ValidLanguage(chosen, combo) then Change(NoValidLanguage, m)
    else
      var id := IdOfKey(chosen);
      if NeedsWarning(selected, id) && !answers.acceptsWarning then Change(DeclinedWarning, m)
      else if !answers.confirms then Change(Cancelled, m)
      else
        match BackupRegistry(m.hive, selected, env.backupWritable)
        case BackupFailed => Change(BackupNotSaved, m)
        case Saved(lines) =>
          var registry := ModifyRegistry(m.hive, selected, id);
          var copy := CopyLanguageFiles(m.fs, env.bundle, registry.succeeded, chosen);
          var cache := ClearPluginCache(copy.fs, env.localAppData, registry.succeeded);
          Change(Completed(lines, registry, copy, cache), Machine(registry.hive, cache.fs))
  }

  /** The run goes ahead exactly when versions are selected, a language is
      chosen, the Vegas Pro 15 warning (when shown) is accepted, the change is
      confirmed and the backup is saved; which early return happens follows
      the order of the checks. */
  lemma ChangeGates(m: Machine, env: Environment, selected: seq<InstalledVersion>,
                    chosen: string, combo: LanguageCombo, answers: Answers)
    ensures var r := ChangeLanguage(m, env, selected, chosen, combo, answers).result;
      && (r == NoVersionsSelected <==> |selected| == 0)
      && (r == NoValidLanguage <==> |selected| > 0 && !ValidLanguage(chosen, combo))
      && (r == DeclinedWarning <==>
            |selected| > 0 && ValidLanguage(chosen, combo) &&
            NeedsWarning(selected, IdOfKey(chosen)) && !answers.acceptsWarning)
      && (r == Cancelled <==>
            |selected| > 0 && ValidLanguage(chosen, combo) &&
            (NeedsWarning(selected, IdOfKey(chosen)) ==> answers.acceptsWarning) && !answers.confirms)
      && (r == BackupNotSaved <==>
            |selected| > 0 && ValidLanguage(chosen, combo) &&
            (NeedsWarning(selected, IdOfKey(chosen)) ==> answers.acceptsWarning) && answers.confirms &&
            !env.backupWritable)
  {
  }

  /** When the backup cannot be written, nothing is modified: the registry
      and the files are exactly as before and no step after the backup runs. */
  lemma BackupGate(m: Machine, env: Environment, selected: seq<InstalledVersion>,
                   chosen: string, combo: LanguageCombo, answers: Answers)
    requires !env.backupWritable
    ensures var r := ChangeLanguage(m, env, selected, chosen, combo, answers);
      && r.machine == m
      && !r.result.Completed?
      && (|selected| > 0 && ValidLanguage(chosen, combo) &&
          (NeedsWarning(selected, IdOfKey(chosen)) ==> answers.acceptsWarning) && answers.confirms
          ==> r.result == BackupNotSaved)
  {
  }

  /** The warning is about Korean on Vegas Pro 15.0 and nothing else:
      declining it stops the change without touching anything, and no other
      language ever raises it. */
  lemma KoreanOnPro15Warning(m: Machine, env: Environment, selected: seq<InstalledVersion>,
                             chosen: string, combo: LanguageCombo, answers: Answers)
    ensures NeedsWarning(selected, IdOfKey(chosen)) <==>
      chosen == "korean" && exists i :: 0 <= i < |selected| && selected[i].Name() == WarnedVersionName
    ensures var r := ChangeLanguage(m, env, selected, chosen, combo, answers);
      r.result == DeclinedWarning <==>
        |selected| > 0 && ValidLanguage(chosen, combo) && !answers.acceptsWarning &&
        chosen == "korean" && exists i :: 0 <= i < |selected| && selected[i].Name() == WarnedVersionName
  {
    KoreanIsId1042(chosen);
  }

  /** After a completed run, the saved backup script reads back as exactly
      the (path, id) pairs of the selected versions as they were before any
      write. */
  lemma CompletedBackupRecords(m: Machine, env: Environment, selected: seq<InstalledVersion>,
                                chosen: string, combo: LanguageCombo, answers: Answers)
    requires GoesAhead(env, selected, chosen, combo, answers)
    ensures ParseScript(ChangeLanguage(m, env, selected, chosen, combo, answers).result.backup)
      == Some(Snapshot(m.hive, selected))
  {
    BackupRoundTrip(m.hive, selected, env.backupWritable);
  }

  /** The backup does not cover every write: a version whose key holds no
      REG_DWORD `ULangID` in either view gets no entry, yet when its key
      accepts the write it is written all the same. */
  lemma WrittenButNotRecorded(h: Hive, v: InstalledVersion, id: Int32)
    requires CurrentLangId(h, v.fullPath).None? && Outcome(h, v.fullPath).Modified?
    ensures Snapshot(h, [v]) == []
    ensures v in ModifyRegistry(h, [v], id).succeeded
  {
    assert [v][1..] == [];
    assert Snapshot(h, []) == [];
    SucceededMembership(h, [v], id, v);
  }

  /** After a completed run every version whose write succeeded reads the
      chosen language's id back, the registry holds the same keys, and a key
      no version wrote is unchanged. */
  lemma CompletedRegistry(m: Machine, env: Environment, selected: seq<InstalledVersion>,
                          chosen: string, combo: LanguageCombo, answers: Answers)
    requires GoesAhead(env, selected, chosen, combo, answers)
    ensures var r := ChangeLanguage(m, env, selected, chosen, combo, answers);
      var run := r.result.registry;
      && |run.outcomes| == |selected|
      && r.machine.hive.Keys == m.hive.Keys
      && (forall loc :: loc in m.hive && !WrittenAt(selected, run.outcomes, loc) ==> r.machine.hive[loc] == m.hive[loc])
      && (forall i :: 0 <= i < |selected| && Outcome(m.hive, selected[i].fullPath).Modified? ==>
            var loc := (Outcome(m.hive, selected[i].fullPath).view, selected[i].fullPath);
            loc in r.machine.hive && DWordValue(r.machine.hive[loc], LangValueName) == Some(IdOfKey(chosen)))
  {
    var id := IdOfKey(chosen);
    ModifyRegistryEffect(m.hive, selected, id);
    forall i | 0 <= i < |selected| && Outcome(m.hive, selected[i].fullPath).Modified?
      ensures var loc := (Outcome(m.hive, selected[i].fullPath).view, selected[i].fullPath);
        loc in ModifyRegistry(m.hive, selected, id).hive &&
        DWordValue(ModifyRegistry(m.hive, selected, id).hive[loc], LangValueName) == Some(id)
    {
      ModifiedVersionReadsBack(m.hive, selected, id, i);
    }
  }

  /** The language files are copied only for versions whose registry write
      succeeded, and, for a language with a `.cfg` file, for every such
      version that needs one. */
  lemma CompletedCopiesOnlySucceeded(m: Machine, env: Environment, selected: seq<InstalledVersion>,
                                     chosen: string, combo: LanguageCombo, answers: Answers, v: InstalledVersion)
    requires GoesAhead(env, selected, chosen, combo, answers)
    ensures var copy := ChangeLanguage(m, env, selected, chosen, combo, answers).result.copy;
      && (v in copy.processed ==>
            v in selected && Outcome(m.hive, v.fullPath).Modified? && v.version.cfgCopySupported)
      && (chosen in LangKeyToCfgSuffix ==>
            (v in copy.processed <==>
               v in selected && Outcome(m.hive, v.fullPath).Modified? && v.version.cfgCopySupported))
  {
    var id := IdOfKey(chosen);
    var succeeded := ModifyRegistry(m.hive, selected, id).succeeded;
    SucceededMembership(m.hive, selected, id, v);
    if chosen in LangKeyToCfgSuffix {
      CopyEachOutcomes(m.fs, env.bundle, succeeded, CfgFileName(LangKeyToCfgSuffix[chosen]));
    }
  }

  /** With a local application data folder, the cache step reports once for
      each version whose registry write succeeded, in order; without one it
      reports nothing. */
  lemma CompletedClearsOnlySucceeded(m: Machine, env: Environment, selected: seq<InstalledVersion>,
                                     chosen: string, combo: LanguageCombo, answers: Answers)
    requires GoesAhead(env, selected, chosen, combo, answers)
    ensures var res := ChangeLanguage(m, env, selected, chosen, combo, answers).result;
      && (env.localAppData != "" ==> |res.cache.outcomes| == |res.registry.succeeded|)
      && (env.localAppData == "" ==> res.cache.outcomes == [])
      && (forall v :: v in res.registry.succeeded <==> v in selected && Outcome(m.hive, v.fullPath).Modified?)
  {
    var id := IdOfKey(chosen);
    var run := ModifyRegistry(m.hive, selected, id);
    var copy := CopyLanguageFiles(m.fs, env.bundle, run.succeeded, chosen);
    if env.localAppData != "" {
      ClearEachLength(copy.fs, env.localAppData, run.succeeded);
    }
    forall v
      ensures v in run.succeeded <==> v in selected && Outcome(m.hive, v.fullPath).Modified?
    {
      SucceededMembership(m.hive, selected, id, v);
    }
  }

  /** Files the change finds on disk are never overwritten by the copy step,
      and the only ones missing afterwards are cache files of versions whose
      registry write succeeded. */
  lemma CompletedKeepsOtherFiles(m: Machine, env: Environment, selected: seq<InstalledVersion>,
                                 chosen: string, combo: LanguageCombo, answers: Answers)
    requires GoesAhead(env, selected, chosen, combo, answers)
    ensures var r := ChangeLanguage(m, env, selected, chosen, combo, answers);
      && (forall p :: p in m.fs.files ==> p in r.result.copy.fs.files && r.result.copy.fs.files[p] == m.fs.files[p])
      && (forall p :: p in m.fs.files && !IsCacheFileOf(env.localAppData, r.result.registry.succeeded, p) ==>
            p in r.machine.fs.files && r.machine.fs.files[p] == m.fs.files[p])
  {
    var run := ModifyRegistry(m.hive, selected, IdOfKey(chosen));
    var copy := CopyLanguageFiles(m.fs, env.bundle, run.succeeded, chosen);
    CopyLanguageFilesNeverOverwrites(m.fs, env.bundle, run.succeeded, chosen);
    if env.localAppData != "" {
      ClearEachFrame(copy.fs, env.localAppData, run.succeeded);
    }
  }

  /** Two versions whose writes both succeed are both returned, in order. */
  lemma BothWritesSucceed(h: Hive, a: InstalledVersion, b: InstalledVersion, id: Int32)
    requires Outcome(h, a.fullPath).Modified? && Outcome(h, b.fullPath).Modified?
    ensures ModifyRegistry(h, [a, b], id).succeeded == [a, b]
  {
    var run := ModifyRegistry(h, [a, b], id);
    var first := ModifyRegistry(h, [a], id);
    assert [a][..0] == [] && [a, b][..1] == [a];
    ModifyRegistryIndependent(h, [a], id);
    ModifyRegistryIndependent(h, [a, b], id);
    assert first.succeeded == [a];
    assert run.outcomes[1] == Outcome(first.hive, b.fullPath);
  }

  /** Of two versions, only the one needing a `.cfg` file is processed, and
      its outcome is the one it would have on the original file system. */
  lemma OnlyFirstCopied(fs: FileSystem, bundle: ResourceBundle, a: InstalledVersion, b: InstalledVersion, cfgFile: string)
    requires a.version.cfgCopySupported && !b.version.cfgCopySupported
    ensures CopyEach(fs, bundle, [a, b], cfgFile).processed == [a]
    ensures CopyEach(fs, bundle, [a, b], cfgFile).outcomes == [CopyOne(fs, bundle, a, cfgFile).outcome]
  {
    assert [a, b][..1] == [a] && [a][..0] == [];
    assert CopyEach(fs, bundle, [], cfgFile) == CopyRun([], [], fs);
    var step := CopyOne(fs, bundle, a, cfgFile);
    assert CopyEach(fs, bundle, [a], cfgFile) == CopyRun([a], [step.outcome], step.fs);
  }

  /** A path that is a cache file of the single version `a` is one of its
      two cache paths. */
  lemma CacheFileOfOne(localAppData: string, a: InstalledVersion, p: string)
    requires IsCacheFileOf(localAppData, [a], p)
    ensures ProductFolder(a.Name()).Some? && p in CachePaths(localAppData, a)
  {
    var i, n :| 0 <= i < |[a]| && n in CacheFileNames && ProductFolder([a][i].Name()).Some? &&
      p == Combine(CacheDir(localAppData, ProductFolder([a][i].Name()).value, [a][i].version.registryKey), n);
    assert [a][i] == a;
  }

  /** Two versions, each with its plugin-manager cache present, no cache file
      refusing deletion, and the second's cache not among the first's, are
      both reported cleared. */
  lemma BothCachesCleared(fs: FileSystem, localAppData: string, a: InstalledVersion, b: InstalledVersion)
    requires ProductFolder(a.Name()).Some? && ProductFolder(b.Name()).Some?
    requires CachePaths(localAppData, a)[0] in fs.files && CachePaths(localAppData, b)[0] in fs.files
    requires forall p :: p in CachePaths(localAppData, a) + CachePaths(localAppData, b) ==> p !in fs.undeletable
    requires CachePaths(localAppData, b)[0] !in CachePaths(localAppData, a)
    ensures ClearEach(fs, localAppData, [a, b]).outcomes == [Cleared, Cleared]
  {
    var pa := CachePaths(localAppData, a);
    var pb := CachePaths(localAppData, b);
    assert pa[0] in pa + pb && pa[1] in pa + pb && pb[0] in pa + pb && pb[1] in pa + pb;
    ClearOneClears(fs, localAppData, a);
    var after := ClearOne(fs, localAppData, a).fs;
    ClearOneFrame(fs, localAppData, a);
    if pb[0] !in after.files {
      CacheFileOfOne(localAppData, a, pb[0]);
      assert false;
    }
    assert after.undeletable == fs.undeletable;
    ClearOneClears(after, localAppData, b);
    ClearEachPair(fs, localAppData, a, b);
  }

  /** The cache run over two versions is the first's step followed by the
      second's on what the first left. */
  lemma ClearEachPair(fs: FileSystem, localAppData: string, a: InstalledVersion, b: InstalledVersion)
    ensures var sa := ClearOne(fs, localAppData, a);
      ClearEach(fs, localAppData, [a, b]).outcomes == [sa.outcome, ClearOne(sa.fs, localAppData, b).outcome]
  {
    assert [a, b][..1] == [a];
    var init := [a][..0];
    assert init == [];
    assert ClearEach(fs, localAppData, init) == CacheRun([], fs);
    assert ClearEach(fs, localAppData, [a]).outcomes == [ClearOne(fs, localAppData, a).outcome];
  }

  /** A run that goes ahead hands the registry step's successes to the copy
      step, and the copy step's file system to the cache step. */
  lemma CompletedSteps(m: Machine, env: Environment, selected: seq<InstalledVersion>,
                       chosen: string, combo: LanguageCombo, answers: Answers)
    requires GoesAhead(env, selected, chosen, combo, answers)
    ensures var res := ChangeLanguage(m, env, selected, chosen, combo, answers).result;
      && res.registry == ModifyRegistry(m.hive, selected, IdOfKey(chosen))
      && res.copy == CopyLanguageFiles(m.fs, env.bundle, res.registry.succeeded, chosen)
      && res.cache == ClearPluginCache(res.copy.fs, env.localAppData, res.registry.succeeded)
  {
  }

  /** Two versions that both yield a language id are both recorded, in
      order. */
  lemma BothRecorded(h: Hive, a: InstalledVersion, b: InstalledVersion)
    requires CurrentLangId(h, a.fullPath).Some? && CurrentLangId(h, b.fullPath).Some?
    ensures Snapshot(h, [a, b]) == [Entry(a.fullPath, CurrentLangId(h, a.fullPath).value),
                                    Entry(b.fullPath, CurrentLangId(h, b.fullPath).value)]
  {
    assert [a, b][1..] == [b] && [b][1..] == [];
    assert Snapshot(h, []) == [];
    assert Snapshot(h, [b]) == [Entry(b.fullPath, CurrentLangId(h, b.fullPath).value)];
  }

  /** Two selected versions, both with a recorded language id and keys that
      accept the write, changed to Korean; the first needs a `.cfg` file and
      nothing stands in the way of its copy, the second needs none; both keep
      a deletable plugin-manager cache of their own. The backup records both,
      both writes succeed, the one copy succeeds, and both caches are
      cleared. */
  lemma TwoVersionScenario(m: Machine, env: Environment, a: InstalledVersion, b: InstalledVersion,
                           combo: LanguageCombo, answers: Answers)
    requires CurrentLangId(m.hive, a.fullPath).Some? && CurrentLangId(m.hive, b.fullPath).Some?
    requires Outcome(m.hive, a.fullPath).Modified? && Outcome(m.hive, b.fullPath).Modified?
    requires a.version.cfgCopySupported && !b.version.cfgCopySupported
    requires CopyUnblocked(m.fs, env.bundle, a, CfgFileName("ko_KR"))
    requires ValidLanguage("korean", combo) && answers.acceptsWarning && answers.confirms
    requires env.backupWritable && env.localAppData != ""
    requires ProductFolder(a.Name()).Some? && ProductFolder(b.Name()).Some?
    requires CachePaths(env.localAppData, a)[0] in m.fs.files && CachePaths(env.localAppData, b)[0] in m.fs.files
    requires forall p :: p in CachePaths(env.localAppData, a) + CachePaths(env.localAppData, b) ==> p !in m.fs.undeletable
    requires CachePaths(env.localAppData, b)[0] !in CachePaths(env.localAppData, a)
    ensures var res := ChangeLanguage(m, env, [a, b], "korean", combo, answers).result;
      && res.Completed?
      && ParseScript(res.backup) == Some([Entry(a.fullPath, CurrentLangId(m.hive, a.fullPath).value),
                                          Entry(b.fullPath, CurrentLangId(m.hive, b.fullPath).value)])
      && res.registry.succeeded == [a, b]
      && res.copy.processed == [a]
      && res.copy.outcomes == [Copied(Combine(DestFolder(m.fs, a.installPath.value), CfgFileName("ko_KR")))]
      && res.cache.outcomes == [Cleared, Cleared]
  {
    var chosen := "korean";
    var res := ChangeLanguage(m, env, [a, b], chosen, combo, answers).result;
    CompletedSteps(m, env, [a, b], chosen, combo, answers);
    CompletedBackupRecords(m, env, [a, b], chosen, combo, answers);
    BothRecorded(m.hive, a, b);
    BothWritesSucceed(m.hive, a, b, IdOfKey(chosen));
    assert LangKeyToCfgSuffix[chosen] == "ko_KR";
    var cfgFile := CfgFileName("ko_KR");
    assert res.copy == CopyEach(m.fs, env.bundle, [a, b], cfgFile);
    OnlyFirstCopied(m.fs, env.bundle, a, b, cfgFile);
    CopyOneSucceeds(m.fs, env.bundle, a, cfgFile);
    CopyLanguageFilesNeverOverwrites(m.fs, env.bundle, [a, b], chosen);
    assert res.cache == ClearEach(res.copy.fs, env.localAppData, [a, b]);
    BothCachesCleared(res.copy.fs, env.localAppData, a, b);
  }

}
