/** `ClearPluginCache`: deleting the plugin cache files a version keeps under
    the local application data folder, so that it rebuilds them in the new
    language. */
module PluginCache {
  import opened Optional
  import opened Strings
  import opened Files
  import opened Catalog

  /** The cache files of one version, in the order they are deleted. */
  const CacheFileNames: seq<string> := ["plugin_manager_cache.bin", "svfx_plugin_cache.bin"]

  /** The product folder under local application data: `VEGAS Pro` when the
      version's name contains `Pro`, else `Movie Studio Platinum` when it
      contains `Studio`; other products have no cache to clear. */
  function ProductFolder(name: string): Option<string> {
    if Contains(name, "Pro") then Some("VEGAS Pro")
    else if Contains(name, "Studio") then Some("Movie Studio Platinum")
    else None
  }

  /** The folder test is a substring test, checked for `Pro` first. */
  lemma ProductFolderMeaning(name: string)
    ensures ProductFolder(name) == Some("VEGAS Pro") <==> exists i :: OccursAt(name, "Pro", i)
    ensures ProductFolder(name) == Some("Movie Studio Platinum") <==>
      (!exists i :: OccursAt(name, "Pro", i)) && (exists i :: OccursAt(name, "Studio", i))
    ensures ProductFolder(name).None? <==>
      (!exists i :: OccursAt(name, "Pro", i)) && (!exists i :: OccursAt(name, "Studio", i))
  {
    ContainsIffOccurs(name, "Pro");
    ContainsIffOccurs(name, "Studio");
  }

  /** `<localAppData>\<product folder>\<registry key>`. */
  function CacheDir(localAppData: string, folder: string, registryKey: string): string {
    Combine(Combine(localAppData, folder), registryKey)
  }

  /** The inner loop over the cache files of one folder: the paths deleted,
      the path whose deletion threw (which ends the loop), and the file
      system after. */
  datatype DeleteRun = DeleteRun(deleted: seq<string>, failedAt: Option<string>, fs: FileSystem)

  function DeleteCacheFiles(fs: FileSystem, dir: string, names: seq<string>): DeleteRun
    decreases |names|
  {
    if |names| == 0 then DeleteRun([], None, fs)
    else
      var path := Combine(dir, names[0]);
      if !FileExists(fs, path) then DeleteCacheFiles(fs, dir, names[1..])
      else match DeleteFile(fs, path)
        case None => DeleteRun([], Some(path), fs)
        case Some(fs1) =>
          var rest := DeleteCacheFiles(fs1, dir, names[1..]);
          DeleteRun([path] + rest.deleted, rest.failedAt, rest.fs)
  }

  /** The inner loop removes exactly the paths it reports deleted, each an
      existing file in `dir`, and touches nothing else. */
  lemma {:induction false} DeleteCacheFilesFrame(fs: FileSystem, dir: string, names: seq<string>)
    ensures var run := DeleteCacheFiles(fs, dir, names);
      && run.fs.dirs == fs.dirs
      && run.fs.undeletable == fs.undeletable && run.fs.uncreatable == fs.uncreatable
      && (forall p :: p in run.fs.files <==> p in fs.files && p !in run.deleted)
      && (forall p :: p in run.fs.files ==> run.fs.files[p] == fs.files[p])
      && (forall p :: p in run.deleted ==> p in fs.files && exists j :: 0 <= j < |names| && p == Combine(dir, names[j]))
    decreases |names|
  {
    if |names| > 0 {
      var path := Combine(dir, names[0]);
      if !FileExists(fs, path) {
        DeleteCacheFilesFrame(fs, dir, names[1..]);
        AfterFirst(dir, names);
      } else if path !in fs.undeletable {
        var fs1 := DeleteFile(fs, path).value;
        DeleteCacheFilesFrame(fs1, dir, names[1..]);
        AfterFirst(dir, names);
      }
    }
  }

  /** A path built from a later name is built from one of `names`. */
  lemma AfterFirst(dir: string, names: seq<string>)
    requires |names| > 0
    ensures forall j :: 0 <= j < |names| - 1 ==> Combine(dir, names[1..][j]) == Combine(dir, names[j + 1])
  {
  }

  /** Without a failure, no cache file is left. */
  lemma {:induction false} DeleteCacheFilesClears(fs: FileSystem, dir: string, names: seq<string>)
    requires DeleteCacheFiles(fs, dir, names).failedAt.None?
    ensures forall j :: 0 <= j < |names| ==> Combine(dir, names[j]) !in DeleteCacheFiles(fs, dir, names).fs.files
    decreases |names|
  {
    if |names| > 0 {
      var path := Combine(dir, names[0]);
      var fs1 := if FileExists(fs, path) then DeleteFile(fs, path).value else fs;
      DeleteCacheFilesClears(fs1, dir, names[1..]);
      DeleteCacheFilesFrame(fs1, dir, names[1..]);
      AfterFirst(dir, names);
    }
  }

  predicate DistinctNames(names: seq<string>) {
    forall a, b :: 0 <= a < b < |names| ==> names[a] != names[b]
  }

  /** A failed deletion ends the loop: the file that could not be deleted is
      one of the cache files and is still there, and no later cache file is
      deleted. */
  lemma {:induction false} DeleteCacheFilesStops(fs: FileSystem, dir: string, names: seq<string>)
    requires DistinctNames(names)
    requires DeleteCacheFiles(fs, dir, names).failedAt.Some?
    ensures var run := DeleteCacheFiles(fs, dir, names);
      && run.failedAt.value in fs.undeletable
      && run.failedAt.value in run.fs.files
      && exists k :: 0 <= k < |names| && run.failedAt.value == Combine(dir, names[k]) &&
           forall j :: k < j < |names| ==> Combine(dir, names[j]) !in run.deleted
    decreases |names|
  {
    var run := DeleteCacheFiles(fs, dir, names);
    var path := Combine(dir, names[0]);
    if FileExists(fs, path) && path in fs.undeletable {
      assert run.failedAt.value == Combine(dir, names[0]);
      assert run.deleted == [];
    } else {
      var fs1 := if FileExists(fs, path) then DeleteFile(fs, path).value else fs;
      var tail := names[1..];
      var rest := DeleteCacheFiles(fs1, dir, tail);
      assert DistinctNames(tail) by {
        forall a, b | 0 <= a < b < |tail| ensures tail[a] != tail[b] {
          assert tail[a] == names[a + 1] && tail[b] == names[b + 1];
        }
      }
      DeleteCacheFilesStops(fs1, dir, tail);
      DeleteCacheFilesFrame(fs1, dir, tail);
      var k :| 0 <= k < |tail| && rest.failedAt.value == Combine(dir, tail[k]) &&
        forall j :: k < j < |tail| ==> Combine(dir, tail[j]) !in rest.deleted;
      assert run.deleted == (if FileExists(fs, path) then [path] else []) + rest.deleted;
      assert run.failedAt.value == Combine(dir, names[k + 1]) by {
        assert tail[k] == names[k + 1];
      }
      forall j | k + 1 < j < |names|
        ensures Combine(dir, names[j]) !in run.deleted
      {
        assert tail[j - 1] == names[j];
        CombineInjective(dir, names[0], names[j]);
      }
    }
  }

  // ---------------------------------------------------------------------------
  // The outer loop
  // ---------------------------------------------------------------------------

  /** What the results list says about one version: nothing for an unknown
      product or a folder without cache files, a success line, or a failure
      line naming the file that could not be deleted. */
  datatype CacheOutcome = NoProductFolder | NothingToClear | Cleared | ClearFailed(path: string)

  datatype CacheStep = CacheStep(outcome: CacheOutcome, fs: FileSystem)

  /** One version: success requires that something was deleted and nothing
      failed. */
  function ClearOne(fs: FileSystem, localAppData: string, v: InstalledVersion): CacheStep {
    match ProductFolder(v.Name())
    case None => CacheStep(NoProductFolder, fs)
    case Some(folder) =>
      var run := DeleteCacheFiles(fs, CacheDir(localAppData, folder, v.version.registryKey), CacheFileNames);
      if run.failedAt.Some? then CacheStep(ClearFailed(run.failedAt.value), run.fs)
      else if |run.deleted| > 0 then CacheStep(Cleared, run.fs)
      else CacheStep(NothingToClear, run.fs)
  }

  datatype CacheRun = CacheRun(outcomes: seq<CacheOutcome>, fs: FileSystem)

  function ClearEach(fs: FileSystem, localAppData: string, versions: seq<InstalledVersion>): CacheRun
    decreases |versions|
  {
    if |versions| == 0 then CacheRun([], fs)
    else
      var prev := ClearEach(fs, localAppData, versions[..|versions| - 1]);
      var step := ClearOne(prev.fs, localAppData, versions[|versions| - 1]);
      CacheRun(prev.outcomes + [step.outcome], step.fs)
  }

  /** `ClearPluginCache`: nothing happens when the local application data
      folder is unknown. */
  function ClearPluginCache(fs: FileSystem, localAppData: string, versions: seq<InstalledVersion>): CacheRun {
    if localAppData == "" then CacheRun([], fs) else ClearEach(fs, localAppData, versions)
  }

  /** A path that is one of the cache files of one of `versions`. */
  ghost predicate IsCacheFileOf(localAppData: string, versions: seq<InstalledVersion>, p: string) {
    exists i, n :: 0 <= i < |versions| && n in CacheFileNames && ProductFolder(versions[i].Name()).Some? &&
      p == Combine(CacheDir(localAppData, ProductFolder(versions[i].Name()).value, versions[i].version.registryKey), n)
  }

  /** The paths of the cache files of `v`. */
  function CachePaths(localAppData: string, v: InstalledVersion): seq<string>
    requires ProductFolder(v.Name()).Some?
  {
    var dir := CacheDir(localAppData, ProductFolder(v.Name()).value, v.version.registryKey);
    [Combine(dir, CacheFileNames[0]), Combine(dir, CacheFileNames[1])]
  }

  /** Neither cache file of `v` is in `fs`. */
  predicate NoCacheLeft(fs: FileSystem, localAppData: string, v: InstalledVersion) {
    ProductFolder(v.Name()).Some? &&
    CachePaths(localAppData, v)[0] !in fs.files && CachePaths(localAppData, v)[1] !in fs.files
  }

  /** Later steps only delete, so a version with no cache file left keeps
      none. */
  lemma NoCacheLeftStays(fs: FileSystem, localAppData: string, v: InstalledVersion, w: InstalledVersion)
    requires NoCacheLeft(fs, localAppData, w)
    ensures NoCacheLeft(ClearOne(fs, localAppData, v).fs, localAppData, w)
  {
    ClearOneShrinks(fs, localAppData, v, CachePaths(localAppData, w)[0]);
    ClearOneShrinks(fs, localAppData, v, CachePaths(localAppData, w)[1]);
  }

  /** One version's step deletes only its own cache files and changes nothing
      else. */
  lemma ClearOneFrame(fs: FileSystem, localAppData: string, v: InstalledVersion)
    ensures var after := ClearOne(fs, localAppData, v).fs;
      && after.dirs == fs.dirs
      && after.undeletable == fs.undeletable && after.uncreatable == fs.uncreatable
      && (forall p :: p in after.files ==> p in fs.files && after.files[p] == fs.files[p])
      && (forall p :: p in fs.files && p !in after.files ==> IsCacheFileOf(localAppData, [v], p))
  {
    if ProductFolder(v.Name()).Some? {
      var dir := CacheDir(localAppData, ProductFolder(v.Name()).value, v.version.registryKey);
      DeleteCacheFilesFrame(fs, dir, CacheFileNames);
      var run := DeleteCacheFiles(fs, dir, CacheFileNames);
      forall p | p in fs.files && p !in run.fs.files
        ensures IsCacheFileOf(localAppData, [v], p)
      {
        var j :| 0 <= j < |CacheFileNames| && p == Combine(dir, CacheFileNames[j]);
        assert [v][0] == v;
        assert CacheFileNames[j] in CacheFileNames;
      }
    }
  }

  lemma ClearOneShrinks(fs: FileSystem, localAppData: string, v: InstalledVersion, p: string)
    requires p !in fs.files
    ensures p !in ClearOne(fs, localAppData, v).fs.files
  {
    ClearOneFrame(fs, localAppData, v);
  }

  /** A successful version, or one with nothing to clear, has no cache file
      left after its step. */
  lemma ClearOneAbsent(fs: FileSystem, localAppData: string, v: InstalledVersion)
    requires ClearOne(fs, localAppData, v).outcome.Cleared? || ClearOne(fs, localAppData, v).outcome.NothingToClear?
    ensures NoCacheLeft(ClearOne(fs, localAppData, v).fs, localAppData, v)
  {
    var dir := CacheDir(localAppData, ProductFolder(v.Name()).value, v.version.registryKey);
    DeleteCacheFilesClears(fs, dir, CacheFileNames);
  }

  /** One version's outcome in terms of its two cache files. Without a
      product folder it is skipped. With one, it has nothing to clear, and
      the file system is untouched, exactly when neither file exists. It is
      reported cleared exactly when some file exists and every existing one
      may be deleted, and then a cache file that existed is gone. */
  lemma ClearOneOutcome(fs: FileSystem, localAppData: string, v: InstalledVersion)
    ensures ClearOne(fs, localAppData, v).outcome == NoProductFolder <==> ProductFolder(v.Name()).None?
    ensures ProductFolder(v.Name()).Some? ==>
      var p := CachePaths(localAppData, v);
      var step := ClearOne(fs, localAppData, v);
      && (step.outcome == NothingToClear <==> p[0] !in fs.files && p[1] !in fs.files)
      && (step.outcome == NothingToClear ==> step.fs == fs)
      && (step.outcome == Cleared <==>
            (p[0] in fs.files || p[1] in fs.files) &&
            (p[0] in fs.files ==> p[0] !in fs.undeletable) &&
            (p[1] in fs.files ==> p[1] !in fs.undeletable))
      && (step.outcome == Cleared ==> exists q :: q in p && q in fs.files && q !in step.fs.files)
  {
    if ProductFolder(v.Name()).Some? {
      var dir := CacheDir(localAppData, ProductFolder(v.Name()).value, v.version.registryKey);
      var names := CacheFileNames;
      var p := CachePaths(localAppData, v);
      assert p[0] == Combine(dir, names[0]) && p[1] == Combine(dir, names[1]);
      CombineInjective(dir, names[0], names[1]);
      assert names[1..][0] == names[1] && names[1..][1..] == [];
      var step := ClearOne(fs, localAppData, v);
      if step.outcome == Cleared {
        var run := DeleteCacheFiles(fs, dir, names);
        DeleteCacheFilesFrame(fs, dir, names);
        assert run.deleted[0] in run.deleted;
        var q := run.deleted[0];
        var j :| 0 <= j < |names| && q == Combine(dir, names[j]);
        assert q in p;
      }
    }
  }

  /** A version with a product folder, at least one cache file present and
      none that refuses deletion is reported cleared. */
  lemma ClearOneClears(fs: FileSystem, localAppData: string, v: InstalledVersion)
    requires ProductFolder(v.Name()).Some?
    requires CachePaths(localAppData, v)[0] in fs.files || CachePaths(localAppData, v)[1] in fs.files
    requires CachePaths(localAppData, v)[0] !in fs.undeletable && CachePaths(localAppData, v)[1] !in fs.undeletable
    ensures ClearOne(fs, localAppData, v).outcome == Cleared
  {
    var dir := CacheDir(localAppData, ProductFolder(v.Name()).value, v.version.registryKey);
    var names := CacheFileNames;
    assert names[1..][1..] == [];
    var run := DeleteCacheFiles(fs, dir, names);
    var fs1 := if Combine(dir, names[0]) in fs.files then DeleteFile(fs, Combine(dir, names[0])).value else fs;
    var rest := DeleteCacheFiles(fs1, dir, names[1..]);
    assert fs1.undeletable == fs.undeletable;
    assert rest.failedAt.None?;
    assert run.failedAt.None? && |run.deleted| > 0;
  }

  lemma {:induction false} ClearEachLength(fs: FileSystem, localAppData: string, versions: seq<InstalledVersion>)
    ensures |ClearEach(fs, localAppData, versions).outcomes| == |versions|
    decreases |versions|
  {
    if |versions| > 0 {
      ClearEachLength(fs, localAppData, versions[..|versions| - 1]);
    }
  }

  /** One outcome per version; a version is skipped for lack of a product
      folder exactly when its name contains neither `Pro` nor `Studio`. */
  lemma {:induction false} ClearEachOutcomes(fs: FileSystem, localAppData: string, versions: seq<InstalledVersion>)
    ensures var run := ClearEach(fs, localAppData, versions);
      && |run.outcomes| == |versions|
      && (forall i :: 0 <= i < |versions| ==>
            (run.outcomes[i].NoProductFolder? <==> ProductFolder(versions[i].Name()).None?))
    decreases |versions|
  {
    if |versions| > 0 {
      var init := versions[..|versions| - 1];
      ClearEachOutcomes(fs, localAppData, init);
      var prev := ClearEach(fs, localAppData, init);
      var step := ClearOne(prev.fs, localAppData, versions[|versions| - 1]);
      assert ClearEach(fs, localAppData, versions).outcomes == prev.outcomes + [step.outcome];
      forall i | 0 <= i < |init|
        ensures versions[i] == init[i]
      {
      }
    }
  }

  /** The whole run deletes nothing but cache files of the versions it was
      given: no directory, permission or file content changes, and every file
      that disappears is such a cache file. */
  lemma {:induction false} ClearEachFrame(fs: FileSystem, localAppData: string, versions: seq<InstalledVersion>)
    ensures var after := ClearEach(fs, localAppData, versions).fs;
      && after.dirs == fs.dirs
      && after.undeletable == fs.undeletable && after.uncreatable == fs.uncreatable
      && (forall p :: p in after.files ==> p in fs.files && after.files[p] == fs.files[p])
      && (forall p :: p in fs.files && p !in after.files ==> IsCacheFileOf(localAppData, versions, p))
    decreases |versions|
  {
    if |versions| > 0 {
      var init := versions[..|versions| - 1];
      var v := versions[|versions| - 1];
      ClearEachFrame(fs, localAppData, init);
      var prev := ClearEach(fs, localAppData, init);
      ClearOneFrame(prev.fs, localAppData, v);
      var after := ClearEach(fs, localAppData, versions).fs;
      forall p | p in fs.files && p !in after.files
        ensures IsCacheFileOf(localAppData, versions, p)
      {
        if p in prev.fs.files {
          assert IsCacheFileOf(localAppData, [v], p);
          var i, n :| 0 <= i < 1 && n in CacheFileNames && ProductFolder([v][i].Name()).Some? &&
            p == Combine(CacheDir(localAppData, ProductFolder([v][i].Name()).value, [v][i].version.registryKey), n);
          assert versions[|versions| - 1] == [v][i];
        } else {
          var i, n :| 0 <= i < |init| && n in CacheFileNames && ProductFolder(init[i].Name()).Some? &&
            p == Combine(CacheDir(localAppData, ProductFolder(init[i].Name()).value, init[i].version.registryKey), n);
          assert versions[i] == init[i];
        }
      }
    }
  }

  /** After the run, every version reported cleared, or found with nothing to
      clear, has no cache file left; every failure names a cache file that is
      still there. */
  lemma {:induction false} ClearEachResults(fs: FileSystem, localAppData: string, versions: seq<InstalledVersion>)
    ensures var run := ClearEach(fs, localAppData, versions);
      && |run.outcomes| == |versions|
      && (forall i :: 0 <= i < |versions| && (run.outcomes[i].Cleared? || run.outcomes[i].NothingToClear?) ==>
            NoCacheLeft(run.fs, localAppData, versions[i]))
    decreases |versions|
  {
    ClearEachLength(fs, localAppData, versions);
    if |versions| > 0 {
      var init := versions[..|versions| - 1];
      var v := versions[|versions| - 1];
      ClearEachResults(fs, localAppData, init);
      ClearEachLength(fs, localAppData, init);
      var prev := ClearEach(fs, localAppData, init);
      var step := ClearOne(prev.fs, localAppData, v);
      var run := ClearEach(fs, localAppData, versions);
      assert run.outcomes == prev.outcomes + [step.outcome] && run.fs == step.fs;
      forall i | 0 <= i < |versions| && (run.outcomes[i].Cleared? || run.outcomes[i].NothingToClear?)
        ensures NoCacheLeft(run.fs, localAppData, versions[i])
      {
        if i < |init| {
          assert versions[i] == init[i] && run.outcomes[i] == prev.outcomes[i];
          NoCacheLeftStays(prev.fs, localAppData, v, versions[i]);
        } else {
          ClearOneAbsent(prev.fs, localAppData, v);
        }
      }
    }
  }

  /** Every failure names a cache file of its version that could not be
      deleted and is still there after the run. */
  lemma {:induction false} ClearEachFailures(fs: FileSystem, localAppData: string, versions: seq<InstalledVersion>)
    ensures var run := ClearEach(fs, localAppData, versions);
      && |run.outcomes| == |versions|
      && run.fs.undeletable == fs.undeletable
      && (forall i :: 0 <= i < |versions| && run.outcomes[i].ClearFailed? ==>
            StuckCacheFile(run.fs, localAppData, versions[i], run.outcomes[i].path))
    decreases |versions|
  {
    ClearEachLength(fs, localAppData, versions);
    ClearEachPermissions(fs, localAppData, versions);
    if |versions| > 0 {
      var init := versions[..|versions| - 1];
      var v := versions[|versions| - 1];
      ClearEachFailures(fs, localAppData, init);
      ClearEachLength(fs, localAppData, init);
      var prev := ClearEach(fs, localAppData, init);
      var step := ClearOne(prev.fs, localAppData, v);
      var run := ClearEach(fs, localAppData, versions);
      assert run.outcomes == prev.outcomes + [step.outcome] && run.fs == step.fs;
      forall i | 0 <= i < |versions| && run.outcomes[i].ClearFailed?
        ensures StuckCacheFile(run.fs, localAppData, versions[i], run.outcomes[i].path)
      {
        if i < |init| {
          assert versions[i] == init[i] && run.outcomes[i] == prev.outcomes[i];
          StuckCacheFileStays(prev.fs, localAppData, v, versions[i], prev.outcomes[i].path);
        } else {
          ClearOneFailure(prev.fs, localAppData, v);
        }
      }
    }
  }

  /** `path` is one of the cache files of `v`, may not be deleted, and is
      present. */
  predicate StuckCacheFile(fs: FileSystem, localAppData: string, v: InstalledVersion, path: string) {
    && ProductFolder(v.Name()).Some?
    && (path == CachePaths(localAppData, v)[0] || path == CachePaths(localAppData, v)[1])
    && path in fs.undeletable
    && path in fs.files
  }

  lemma StuckCacheFileStays(fs: FileSystem, localAppData: string, v: InstalledVersion, w: InstalledVersion, path: string)
    requires StuckCacheFile(fs, localAppData, w, path)
    ensures StuckCacheFile(ClearOne(fs, localAppData, v).fs, localAppData, w, path)
  {
    ClearOneKeepsUndeletable(fs, localAppData, v, path);
    ClearOneFrame(fs, localAppData, v);
  }

  lemma {:induction false} DeleteCacheFilesPermissions(fs: FileSystem, dir: string, names: seq<string>)
    ensures DeleteCacheFiles(fs, dir, names).fs.undeletable == fs.undeletable
    decreases |names|
  {
    if |names| > 0 {
      var path := Combine(dir, names[0]);
      var fs1 := if FileExists(fs, path) && path !in fs.undeletable then DeleteFile(fs, path).value else fs;
      DeleteCacheFilesPermissions(fs1, dir, names[1..]);
    }
  }

  /** The set of files that may not be deleted is the same after the run. */
  lemma {:induction false} ClearEachPermissions(fs: FileSystem, localAppData: string, versions: seq<InstalledVersion>)
    ensures ClearEach(fs, localAppData, versions).fs.undeletable == fs.undeletable
    decreases |versions|
  {
    if |versions| > 0 {
      var init := versions[..|versions| - 1];
      var v := versions[|versions| - 1];
      ClearEachPermissions(fs, localAppData, init);
      var prev := ClearEach(fs, localAppData, init);
      if ProductFolder(v.Name()).Some? {
        DeleteCacheFilesPermissions(prev.fs, CacheDir(localAppData, ProductFolder(v.Name()).value, v.version.registryKey), CacheFileNames);
      }
    }
  }

  /** A file that may not be deleted survives a step. */
  lemma ClearOneKeepsUndeletable(fs: FileSystem, localAppData: string, v: InstalledVersion, p: string)
    requires p in fs.files && p in fs.undeletable
    ensures p in ClearOne(fs, localAppData, v).fs.files
  {
    if ProductFolder(v.Name()).Some? {
      var dir := CacheDir(localAppData, ProductFolder(v.Name()).value, v.version.registryKey);
      DeleteCacheFilesKeepsUndeletable(fs, dir, CacheFileNames);
    }
  }

  lemma {:induction false} DeleteCacheFilesKeepsUndeletable(fs: FileSystem, dir: string, names: seq<string>)
    ensures forall p :: p in fs.files && p in fs.undeletable ==> p in DeleteCacheFiles(fs, dir, names).fs.files
    decreases |names|
  {
    if |names| > 0 {
      var path := Combine(dir, names[0]);
      var fs1 := if FileExists(fs, path) && path !in fs.undeletable then DeleteFile(fs, path).value else fs;
      DeleteCacheFilesKeepsUndeletable(fs1, dir, names[1..]);
    }
  }

  /** A failed step names one of the version's cache files, which could not
      be deleted and is still there. */
  lemma ClearOneFailure(fs: FileSystem, localAppData: string, v: InstalledVersion)
    ensures var step := ClearOne(fs, localAppData, v);
      step.outcome.ClearFailed? ==> StuckCacheFile(step.fs, localAppData, v, step.outcome.path)
  {
    ClearOneFrame(fs, localAppData, v);
    if ProductFolder(v.Name()).Some? {
      var dir := CacheDir(localAppData, ProductFolder(v.Name()).value, v.version.registryKey);
      if DeleteCacheFiles(fs, dir, CacheFileNames).failedAt.Some? {
        assert DistinctNames(CacheFileNames);
        DeleteCacheFilesStops(fs, dir, CacheFileNames);
      }
    }
  }

  /** An unknown local application data folder means no outcome and no
      change. */
  lemma NoAppDataIsNoOp(fs: FileSystem, versions: seq<InstalledVersion>)
    ensures ClearPluginCache(fs, "", versions) == CacheRun([], fs)
  {
  }

  /** A cache folder holding only `plugin_manager_cache.bin`, which may be
      deleted: the version is reported cleared and exactly that file is
      removed. */
  lemma OnlyManagerCacheIsCleared(fs: FileSystem, localAppData: string, v: InstalledVersion)
    requires ProductFolder(v.Name()).Some?
    requires CachePaths(localAppData, v)[0] in fs.files && CachePaths(localAppData, v)[0] !in fs.undeletable
    requires CachePaths(localAppData, v)[1] !in fs.files
    ensures ClearOne(fs, localAppData, v) ==
      CacheStep(Cleared, fs.(files := fs.files - {CachePaths(localAppData, v)[0]}))
  {
    var dir := CacheDir(localAppData, ProductFolder(v.Name()).value, v.version.registryKey);
    CombineInjective(dir, CacheFileNames[0], CacheFileNames[1]);
    assert CacheFileNames[1..][1..] == [];
  }
}
