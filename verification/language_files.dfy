/** `CopyLanguageFiles`: installing the `local_<suffix>.cfg` file of the chosen
    language from the program's embedded resources into the language folder
    of every version that needs one, never replacing a file that is already
    there. */
module LanguageFiles {
  import opened Optional
  import opened Strings
  import opened Files
  import opened Catalog
  import opened FirstMatch

  /** The embedded resources: manifest resource name to content. */
  type ResourceBundle = map<string, Bytes>

  const ResourcePrefix: string := "VegasLanguageChanger.VLC_Source."

  /** Casings of the language folder, in the order the resource lookup tries
      them. */
  const ResourceFolderCases: seq<string> := ["Language", "language"]

  function CfgFileName(suffix: string): string {
    "local_" + suffix + ".cfg"
  }

  /** The version folder as the resource compiler names it: spaces become
      `_`, then every `.` becomes `._`. */
  function FolderNamePart(registryKey: string): string {
    ReplaceAll(ReplaceAll(ProductPrefix + registryKey, ' ', "_"), '.', "._")
  }

  const ProductPrefix: string := "VEGAS Pro "
  const ResourceProductPrefix: string := "VEGAS_Pro_"

  function ResourceName(folderPart: string, nameCase: string, cfgFile: string): string {
    ResourcePrefix + folderPart + "." + nameCase + "." + cfgFile
  }

  /** The lookup of each casing, in order. */
  function ResourceProbes(bundle: ResourceBundle, folderPart: string, cfgFile: string): (r: seq<Option<string>>)
    ensures |r| == |ResourceFolderCases|
  {
    seq(|ResourceFolderCases|, i requires 0 <= i < |ResourceFolderCases| =>
      var name := ResourceName(folderPart, ResourceFolderCases[i], cfgFile);
      if name in bundle then Some(name) else None)
  }

  /** The first casing whose resource exists. */
  function FindResource(bundle: ResourceBundle, folderPart: string, cfgFile: string): (r: Option<string>)
    ensures r.Some? ==> r.value in bundle
  {
    var probes := ResourceProbes(bundle, folderPart, cfgFile);
    FirstSomeSpec(probes);
    FirstSome(probes)
  }

  /** `Language` wins when both resources exist; `language` is used only
      when `Language` is missing; with neither, nothing is found. */
  lemma FindResourceMeaning(bundle: ResourceBundle, folderPart: string, cfgFile: string)
    ensures var upper := ResourceName(folderPart, "Language", cfgFile);
      var lower := ResourceName(folderPart, "language", cfgFile);
      FindResource(bundle, folderPart, cfgFile) ==
        if upper in bundle then Some(upper) else if lower in bundle then Some(lower) else None
  {
    var probes := ResourceProbes(bundle, folderPart, cfgFile);
    if probes[0].Some? {
      FirstSomeStop(probes, 0);
    } else {
      FirstSomeSkip(probes, 0);
      if probes[1].Some? {
        FirstSomeStop(probes, 1);
      } else {
        FirstSomeSkip(probes, 1);
      }
    }
  }

  /** The folder name used on disk: `language` when that directory exists,
      else `Language`. */
  function LangFolderName(fs: FileSystem, installPath: string): string {
    if DirExists(fs, Combine(installPath, "language")) then "language" else "Language"
  }

  function DestFolder(fs: FileSystem, installPath: string): string {
    Combine(installPath, LangFolderName(fs, installPath))
  }

  /** What the results list says about one version. `AlreadyPresent` adds no
      line to it. */
  datatype CopyOutcome = Copied(dest: string) | AlreadyPresent | NoDestination | NoSource | CopyFailed

  datatype CopyStep = CopyStep(outcome: CopyOutcome, fs: FileSystem)

  /** `InstallPath` is null or empty. */
  predicate NoInstallPath(v: InstalledVersion) {
    v.installPath.None? || v.installPath.value == ""
  }

  /** The loop body for one version. When the directory is created but the
      file cannot be, the new directory stays. */
  function CopyOne(fs: FileSystem, bundle: ResourceBundle, v: InstalledVersion, cfgFile: string): CopyStep {
    if NoInstallPath(v) then CopyStep(NoDestination, fs)
    else
      var destFolder := DestFolder(fs, v.installPath.value);
      var destFile := Combine(destFolder, cfgFile);
      if FileExists(fs, destFile) then CopyStep(AlreadyPresent, fs)
      else match FindResource(bundle, FolderNamePart(v.version.registryKey), cfgFile)
        case None => CopyStep(NoSource, fs)
        case Some(name) =>
          match CreateDirectory(fs, destFolder)
          case None => CopyStep(CopyFailed, fs)
          case Some(fs1) =>
            match CreateFile(fs1, destFile, bundle[name])
            case None => CopyStep(CopyFailed, fs1)
            case Some(fs2) => CopyStep(Copied(destFile), fs2)
  }

  /** The outcome of one version in the order of the checks: no install
      path, then a destination file that already exists, then no embedded
      resource (none of these touches the file system), then a folder or
      file that cannot be created; otherwise the copy writes the resource's
      bytes to the `.cfg` file in the destination folder. */
  lemma CopyOneOutcome(fs: FileSystem, bundle: ResourceBundle, v: InstalledVersion, cfgFile: string)
    ensures var step := CopyOne(fs, bundle, v, cfgFile);
      && (step.outcome == NoDestination <==> NoInstallPath(v))
      && (step.outcome == NoDestination ==> step.fs == fs)
      && (!NoInstallPath(v) ==>
            var destFolder := DestFolder(fs, v.installPath.value);
            var destFile := Combine(destFolder, cfgFile);
            var found := FindResource(bundle, FolderNamePart(v.version.registryKey), cfgFile);
            && (step.outcome == AlreadyPresent <==> destFile in fs.files)
            && (step.outcome == AlreadyPresent ==> step.fs == fs)
            && (step.outcome == NoSource <==> destFile !in fs.files && found.None?)
            && (step.outcome == NoSource ==> step.fs == fs)
            && (step.outcome == CopyFailed <==>
                  destFile !in fs.files && found.Some? &&
                  (CreateDirectory(fs, destFolder).None? ||
                   CreateFile(CreateDirectory(fs, destFolder).value, destFile, bundle[found.value]).None?))
            && (step.outcome.Copied? ==>
                  found.Some? && step.outcome.dest == destFile &&
                  destFile in step.fs.files && step.fs.files[destFile] == bundle[found.value]))
  {
  }

  /** Nothing stands in the way of one version's copy: it has an install
      path, the `.cfg` file is not there yet, the resource is embedded, and
      no file and nothing uncreatable sits where the folder or the file
      goes. */
  predicate CopyUnblocked(fs: FileSystem, bundle: ResourceBundle, v: InstalledVersion, cfgFile: string) {
    && !NoInstallPath(v)
    && var destFolder := DestFolder(fs, v.installPath.value);
       var destFile := Combine(destFolder, cfgFile);
       && destFolder !in fs.files && destFolder !in fs.uncreatable
       && destFile !in fs.files && destFile !in fs.dirs && destFile !in fs.uncreatable
       && FindResource(bundle, FolderNamePart(v.version.registryKey), cfgFile).Some?
  }

  /** The copy succeeds whenever nothing stands in its way. */
  lemma CopyOneSucceeds(fs: FileSystem, bundle: ResourceBundle, v: InstalledVersion, cfgFile: string)
    requires cfgFile != ""
    requires CopyUnblocked(fs, bundle, v, cfgFile)
    ensures CopyOne(fs, bundle, v, cfgFile).outcome == Copied(Combine(DestFolder(fs, v.installPath.value), cfgFile))
  {
    var destFolder := DestFolder(fs, v.installPath.value);
    CombineShape(destFolder, cfgFile);
    assert Combine(destFolder, cfgFile) != destFolder;
  }

  /** The versions processed, their outcomes, and the file system after. */
  datatype CopyRun = CopyRun(processed: seq<InstalledVersion>, outcomes: seq<CopyOutcome>, fs: FileSystem)

  /** The loop over the versions that support the copy, in order. */
  function CopyEach(fs: FileSystem, bundle: ResourceBundle, versions: seq<InstalledVersion>, cfgFile: string): CopyRun
    decreases |versions|
  {
    if |versions| == 0 then CopyRun([], [], fs)
    else
      var prev := CopyEach(fs, bundle, versions[..|versions| - 1], cfgFile);
      var v := versions[|versions| - 1];
      if !v.version.cfgCopySupported then prev
      else
        var step := CopyOne(prev.fs, bundle, v, cfgFile);
        CopyRun(prev.processed + [v], prev.outcomes + [step.outcome], step.fs)
  }

  /** `CopyLanguageFiles`: a language without a `.cfg` suffix returns at once,
      doing nothing. */
  function CopyLanguageFiles(fs: FileSystem, bundle: ResourceBundle, versions: seq<InstalledVersion>, langKey: string): CopyRun {
    if langKey !in LangKeyToCfgSuffix then CopyRun([], [], fs)
    else CopyEach(fs, bundle, versions, CfgFileName(LangKeyToCfgSuffix[langKey]))
  }

  // ---------------------------------------------------------------------------
  // What a run may change
  // ---------------------------------------------------------------------------

  /** `after` is `before` with files and directories added: every existing
      file keeps its content, no directory disappears, the permission sets
      stay, and no directory named `language` appears or disappears. */
  ghost predicate Extends(before: FileSystem, after: FileSystem) {
    && (forall p :: p in before.files ==> p in after.files && after.files[p] == before.files[p])
    && before.dirs <= after.dirs
    && after.undeletable == before.undeletable
    && after.uncreatable == before.uncreatable
    && (forall ip :: DirExists(after, Combine(ip, "language")) <==> DirExists(before, Combine(ip, "language")))
  }

  lemma ExtendsTransitive(a: FileSystem, b: FileSystem, c: FileSystem)
    requires Extends(a, b) && Extends(b, c)
    ensures Extends(a, c)
  {
  }

  /** A `Language` folder is never a `language` folder, whatever the parents. */
  lemma UpperFolderIsNotLower(a: string, b: string)
    ensures Combine(a, "Language") != Combine(b, "language")
  {
    CombineShape(a, "Language");
    CombineShape(b, "language");
  }

  /** One version's copy only adds: it never overwrites or removes a file. */
  lemma CopyOneExtends(fs: FileSystem, bundle: ResourceBundle, v: InstalledVersion, cfgFile: string)
    ensures Extends(fs, CopyOne(fs, bundle, v, cfgFile).fs)
  {
    if !NoInstallPath(v) {
      var ip := v.installPath.value;
      var destFolder := DestFolder(fs, ip);
      forall b | true
        ensures destFolder !in fs.dirs ==> destFolder != Combine(b, "language")
      {
        UpperFolderIsNotLower(ip, b);
      }
    }
  }

  /** A version whose file was copied or found stays settled: on any later
      file system that only added to the result, it finds its file present
      and does nothing. */
  lemma CopyOneSettled(fs: FileSystem, bundle: ResourceBundle, v: InstalledVersion, cfgFile: string, later: FileSystem)
    requires CopyOne(fs, bundle, v, cfgFile).outcome.Copied? || CopyOne(fs, bundle, v, cfgFile).outcome.AlreadyPresent?
    requires Extends(CopyOne(fs, bundle, v, cfgFile).fs, later)
    ensures CopyOne(later, bundle, v, cfgFile) == CopyStep(AlreadyPresent, later)
  {
    var step := CopyOne(fs, bundle, v, cfgFile);
    CopyOneExtends(fs, bundle, v, cfgFile);
    ExtendsTransitive(fs, step.fs, later);
    var ip := v.installPath.value;
    assert DirExists(later, Combine(ip, "language")) <==> DirExists(fs, Combine(ip, "language"));
    assert DestFolder(later, ip) == DestFolder(fs, ip);
  }

  lemma {:induction false} CopyEachExtends(fs: FileSystem, bundle: ResourceBundle, versions: seq<InstalledVersion>, cfgFile: string)
    ensures Extends(fs, CopyEach(fs, bundle, versions, cfgFile).fs)
    decreases |versions|
  {
    if |versions| > 0 {
      var init := versions[..|versions| - 1];
      CopyEachExtends(fs, bundle, init, cfgFile);
      var prev := CopyEach(fs, bundle, init, cfgFile);
      CopyOneExtends(prev.fs, bundle, versions[|versions| - 1], cfgFile);
      ExtendsTransitive(fs, prev.fs, CopyEach(fs, bundle, versions, cfgFile).fs);
    }
  }

  /** The copier never overwrites or deletes: every file present before is
      present after with the same content, and no directory is removed. */
  lemma CopyLanguageFilesNeverOverwrites(fs: FileSystem, bundle: ResourceBundle, versions: seq<InstalledVersion>, langKey: string)
    ensures var after := CopyLanguageFiles(fs, bundle, versions, langKey).fs;
      (forall p :: p in fs.files ==> p in after.files && after.files[p] == fs.files[p]) &&
      fs.dirs <= after.dirs &&
      after.undeletable == fs.undeletable
  {
    if langKey in LangKeyToCfgSuffix {
      CopyEachExtends(fs, bundle, versions, CfgFileName(LangKeyToCfgSuffix[langKey]));
    }
  }

  /** Polish and Russian have no `.cfg` file: choosing them copies nothing
      and records nothing. */
  lemma NoCfgLanguageIsNoOp(fs: FileSystem, bundle: ResourceBundle, versions: seq<InstalledVersion>)
    ensures CopyLanguageFiles(fs, bundle, versions, "polish") == CopyRun([], [], fs)
    ensures CopyLanguageFiles(fs, bundle, versions, "russian") == CopyRun([], [], fs)
  {
    LanguagesWithoutCfgFile();
  }

  // ---------------------------------------------------------------------------
  // Per-version outcomes
  // ---------------------------------------------------------------------------

  /** Exactly the versions flagged `CfgCopySupported` are processed, each
      with one outcome. */
  lemma {:induction false} CopyEachOutcomes(fs: FileSystem, bundle: ResourceBundle, versions: seq<InstalledVersion>, cfgFile: string)
    ensures var run := CopyEach(fs, bundle, versions, cfgFile);
      && |run.outcomes| == |run.processed| <= |versions|
      && (forall x :: x in run.processed <==> x in versions && x.version.cfgCopySupported)
    decreases |versions|
  {
    if |versions| > 0 {
      var init := versions[..|versions| - 1];
      CopyEachOutcomes(fs, bundle, init, cfgFile);
      assert versions == init + [versions[|versions| - 1]];
    }
  }

  /** A version is reported as having no destination exactly when its
      install path is missing or empty. */
  lemma {:induction false} NoDestinationIffNoInstallPath(fs: FileSystem, bundle: ResourceBundle, versions: seq<InstalledVersion>, cfgFile: string)
    ensures var run := CopyEach(fs, bundle, versions, cfgFile);
      && |run.outcomes| == |run.processed|
      && (forall i :: 0 <= i < |run.processed| ==>
            (run.outcomes[i].NoDestination? <==> NoInstallPath(run.processed[i])))
    decreases |versions|
  {
    if |versions| > 0 {
      NoDestinationIffNoInstallPath(fs, bundle, versions[..|versions| - 1], cfgFile);
    }
  }

  /** Every `Copied` outcome names a file that holds, at the end of the run,
      the content of the resource the lookup found for that version. */
  lemma {:induction false} CopiedFilesHoldResource(fs: FileSystem, bundle: ResourceBundle, versions: seq<InstalledVersion>, cfgFile: string)
    ensures var run := CopyEach(fs, bundle, versions, cfgFile);
      |run.outcomes| == |run.processed| &&
      forall i :: 0 <= i < |run.outcomes| && run.outcomes[i].Copied? ==>
        var found := FindResource(bundle, FolderNamePart(run.processed[i].version.registryKey), cfgFile);
        found.Some? && run.outcomes[i].dest in run.fs.files && run.fs.files[run.outcomes[i].dest] == bundle[found.value]
    decreases |versions|
  {
    CopyEachOutcomes(fs, bundle, versions, cfgFile);
    if |versions| > 0 {
      var init := versions[..|versions| - 1];
      CopiedFilesHoldResource(fs, bundle, init, cfgFile);
      var prev := CopyEach(fs, bundle, init, cfgFile);
      CopyEachOutcomes(fs, bundle, init, cfgFile);
      var v := versions[|versions| - 1];
      if v.version.cfgCopySupported {
        CopyOneExtends(prev.fs, bundle, v, cfgFile);
      }
    }
  }

  /** Running the copier again on its own result: the same versions are
      processed, and every version whose file was copied or already present
      the first time is found present and left alone. */
  lemma {:induction false} CopyEachIdempotent(fs: FileSystem, later: FileSystem, bundle: ResourceBundle,
                                              versions: seq<InstalledVersion>, cfgFile: string)
    requires Extends(CopyEach(fs, bundle, versions, cfgFile).fs, later)
    ensures var first := CopyEach(fs, bundle, versions, cfgFile);
      var again := CopyEach(later, bundle, versions, cfgFile);
      && again.processed == first.processed
      && |again.outcomes| == |first.outcomes|
      && (forall i :: 0 <= i < |first.outcomes| && (first.outcomes[i].Copied? || first.outcomes[i].AlreadyPresent?) ==>
            again.outcomes[i] == AlreadyPresent)
    decreases |versions|
  {
    CopyEachOutcomes(fs, bundle, versions, cfgFile);
    CopyEachOutcomes(later, bundle, versions, cfgFile);
    if |versions| > 0 {
      var init := versions[..|versions| - 1];
      var v := versions[|versions| - 1];
      var prev := CopyEach(fs, bundle, init, cfgFile);
      var prevAgain := CopyEach(later, bundle, init, cfgFile);
      CopyEachOutcomes(fs, bundle, init, cfgFile);
      CopyEachOutcomes(later, bundle, init, cfgFile);
      if v.version.cfgCopySupported {
        var step := CopyOne(prev.fs, bundle, v, cfgFile);
        CopyOneExtends(prev.fs, bundle, v, cfgFile);
        ExtendsTransitive(prev.fs, step.fs, later);
        CopyEachIdempotent(fs, later, bundle, init, cfgFile);
        CopyEachExtends(later, bundle, init, cfgFile);
        ExtendsTransitive(step.fs, later, prevAgain.fs);
        if step.outcome.Copied? || step.outcome.AlreadyPresent? {
          CopyOneSettled(prev.fs, bundle, v, cfgFile, prevAgain.fs);
        }
      } else {
        CopyEachIdempotent(fs, later, bundle, init, cfgFile);
      }
    }
  }

  /** The copier is idempotent where it succeeded: a second call on the file
      system the first one left copies nothing over a file it placed or
      found. */
  lemma CopyLanguageFilesIdempotent(fs: FileSystem, bundle: ResourceBundle, versions: seq<InstalledVersion>, langKey: string)
    ensures var first := CopyLanguageFiles(fs, bundle, versions, langKey);
      var again := CopyLanguageFiles(first.fs, bundle, versions, langKey);
      && again.processed == first.processed
      && |again.outcomes| == |first.outcomes|
      && (forall i :: 0 <= i < |first.outcomes| && (first.outcomes[i].Copied? || first.outcomes[i].AlreadyPresent?) ==>
            again.outcomes[i] == AlreadyPresent)
  {
    if langKey in LangKeyToCfgSuffix {
      var cfgFile := CfgFileName(LangKeyToCfgSuffix[langKey]);
      CopyEachIdempotent(fs, CopyEach(fs, bundle, versions, cfgFile).fs, bundle, versions, cfgFile);
    }
  }

  lemma ProductPrefixReplaced()
    ensures ReplaceAll(ProductPrefix, ' ', "_") == ResourceProductPrefix
  {
  }

  lemma ResourcePrefixKept()
    ensures ReplaceAll(ResourceProductPrefix, '.', "._") == ResourceProductPrefix
  {
    ReplaceAllAbsent(ResourceProductPrefix, '.', "._");
  }

  /** For a registry key without spaces the resource folder is the product
      prefix with `_` for its spaces, followed by the key with every `.`
      turned into `._`. */
  lemma FolderNamePartShape(registryKey: string)
    requires ' ' !in registryKey
    ensures FolderNamePart(registryKey) == ResourceProductPrefix + ReplaceAll(registryKey, '.', "._")
  {
    var spaced := ResourceProductPrefix + registryKey;
    assert ReplaceAll(ProductPrefix + registryKey, ' ', "_") == spaced by {
      ReplaceAllConcat(ProductPrefix, registryKey, ' ', "_");
      ReplaceAllAbsent(registryKey, ' ', "_");
      ProductPrefixReplaced();
    }
    assert ReplaceAll(spaced, '.', "._") == ResourceProductPrefix + ReplaceAll(registryKey, '.', "._") by {
      ReplaceAllConcat(ResourceProductPrefix, registryKey, '.', "._");
      ResourcePrefixKept();
    }
  }

  /** The resource folder of VEGAS Pro 23.0 is `VEGAS_Pro_23._0`: the dot in
      the version number is doubled, as the resource compiler names the
      folder. */
  lemma FolderNamePartExample()
    ensures FolderNamePart("23.0") == "VEGAS_Pro_23._0"
  {
    FolderNamePartShape("23.0");
  }
}
