/** `BackupRegistry`: the `.reg` script that puts every selected version's
    current `ULangID` back, and whether it could be written. The script is
    modelled as its sequence of lines; the desktop location, the timestamped
    file name and the UTF-16 encoding are left out. */
module Backup {
  import opened Optional
  import opened Strings
  import opened Registry
  import opened Catalog
  import opened FirstMatch

  /** `ULangID` read through a read-only handle on `path` in `view`: present
      when the key opens and the value is a REG_DWORD (`value is int`). A
      missing key, a refused open (swallowed by the handler) or a value of
      another kind gives `None`, and the next view is tried. */
  function ReadLangId(h: Hive, view: View, path: string): Option<Int32> {
    match OpenSubKey(h, view, path, false)
    case Opened(k) => DWordValue(k, LangValueName)
    case _ => None
  }

  /** The reads of `path` in every view, in search order. */
  function ViewReads(h: Hive, path: string): (r: seq<Option<Int32>>)
    ensures |r| == |SearchViews|
  {
    seq(|SearchViews|, w requires 0 <= w < |SearchViews| => ReadLangId(h, SearchViews[w], path))
  }

  /** The value the backup records for `path`: the one read in the first view
      that yields one. */
  function CurrentLangId(h: Hive, path: string): Option<Int32> {
    FirstSome(ViewReads(h, path))
  }

  /** A read succeeds exactly when the key exists, may be read, and holds a
      REG_DWORD `ULangID`; the value read is that REG_DWORD. */
  lemma ReadLangIdMeaning(h: Hive, view: View, path: string)
    ensures ReadLangId(h, view, path).Some? <==>
      ((view, path) in h && h[(view, path)].access != Denied &&
       LangValueName in h[(view, path)].values && h[(view, path)].values[LangValueName].DWord?)
    ensures ReadLangId(h, view, path).Some? ==>
      h[(view, path)].values[LangValueName] == DWord(ReadLangId(h, view, path).value)
  {
  }

  /** The recorded value comes from the 64-bit view when that view yields
      one, and from the 32-bit view only when the 64-bit one does not; with
      neither, nothing is recorded. */
  lemma CurrentLangIdPrefers64(h: Hive, path: string)
    ensures ReadLangId(h, Registry64, path).Some? ==>
      CurrentLangId(h, path) == ReadLangId(h, Registry64, path)
    ensures ReadLangId(h, Registry64, path).None? ==>
      CurrentLangId(h, path) == ReadLangId(h, Registry32, path)
  {
    var results := ViewReads(h, path);
    assert results[0] == ReadLangId(h, Registry64, path);
    assert results[1] == ReadLangId(h, Registry32, path);
    if results[0].Some? {
      FirstSomeStop(results, 0);
    } else {
      FirstSomeSkip(results, 0);
      if results[1].Some? {
        FirstSomeStop(results, 1);
      } else {
        FirstSomeSkip(results, 1);
      }
    }
  }

  // ---------------------------------------------------------------------------
  // The script
  // ---------------------------------------------------------------------------

  /** One recorded value: the full key path and the REG_DWORD it held. */
  datatype Entry = Entry(path: string, langId: Int32)

  /** The values the backup records, one per version that yields one, in the
      order of `versions`. */
  function Snapshot(h: Hive, versions: seq<InstalledVersion>): seq<Entry>
    decreases |versions|
  {
    if |versions| == 0 then []
    else
      var first := match CurrentLangId(h, versions[0].fullPath)
        case Some(id) => [Entry(versions[0].fullPath, id)]
        case None => [];
      first + Snapshot(h, versions[1..])
  }

  const RegHeader: string := "Windows Registry Editor Version 5.00"
  const KeyLinePrefix: string := "[HKEY_LOCAL_MACHINE\\"
  const ValueLinePrefix: string := "\"ULangID\"=dword:"

  /** The section header naming the key under HKEY_LOCAL_MACHINE. */
  function KeyLine(path: string): string {
    KeyLinePrefix + path + "]"
  }

  /** The value assignment, the id written as `x8`. */
  function ValueLine(id: Int32): string {
    ValueLinePrefix + DwordHex(id)
  }

  /** The three lines appended for one recorded value. */
  function Block(e: Entry): seq<string> {
    [KeyLine(e.path), ValueLine(e.langId), ""]
  }

  function Blocks(entries: seq<Entry>): (r: seq<string>)
    ensures |r| == 3 * |entries|
    decreases |entries|
  {
    if |entries| == 0 then [] else Block(entries[0]) + Blocks(entries[1..])
  }

  /** The whole script: the header line, a blank line, then one block per
      recorded value. */
  function BackupText(h: Hive, versions: seq<InstalledVersion>): seq<string> {
    [RegHeader, ""] + Blocks(Snapshot(h, versions))
  }

  /** The backup file path, or `null` when writing it throws. */
  datatype BackupResult = Saved(lines: seq<string>) | BackupFailed

  /** `BackupRegistry`: the script is built from the hive and written; only
      the write can fail, and then nothing is saved. */
  function BackupRegistry(h: Hive, versions: seq<InstalledVersion>, writable: bool): (r: BackupResult)
    ensures r.BackupFailed? <==> !writable
    ensures r.Saved? ==> |r.lines| >= 2 && r.lines[0] == RegHeader && r.lines[1] == ""
  {
    if writable then Saved(BackupText(h, versions)) else BackupFailed
  }

  // ---------------------------------------------------------------------------
  // Reading a script back, the way a `.reg` import does
  // ---------------------------------------------------------------------------

  /** The key path of a section header line. */
  function ParseKeyLine(line: string): Option<string> {
    if |line| >= |KeyLinePrefix| + 1 && line[..|KeyLinePrefix|] == KeyLinePrefix && line[|line| - 1] == ']'
    then Some(line[|KeyLinePrefix|..|line| - 1])
    else None
  }

  /** The signed 32-bit value of a `"ULangID"=dword:` line with exactly eight
      lower-case hex digits. */
  function ParseValueLine(line: string): Option<Int32> {
    if |line| == |ValueLinePrefix| + 8 && line[..|ValueLinePrefix|] == ValueLinePrefix &&
       AllLowerHex(line[|ValueLinePrefix|..])
    then
      assert Pow16(8) == TwoTo32;
      Some(SignedDword(HexValue(line[|ValueLinePrefix|..])))
    else None
  }

  /** Blocks of three lines: header, value, blank. */
  function ParseBlocks(lines: seq<string>): Option<seq<Entry>>
    decreases |lines|
  {
    if |lines| == 0 then Some([])
    else if |lines| < 3 || lines[2] != "" then None
    else match (ParseKeyLine(lines[0]), ParseValueLine(lines[1]), ParseBlocks(lines[3..]))
      case (Some(path), Some(id), Some(rest)) => Some([Entry(path, id)] + rest)
      case _ => None
  }

  /** A whole script: the header, a blank line, then blocks. */
  function ParseScript(lines: seq<string>): Option<seq<Entry>> {
    if |lines| >= 2 && lines[0] == RegHeader && lines[1] == "" then ParseBlocks(lines[2..]) else None
  }

  lemma KeyLineRoundTrip(path: string)
    ensures ParseKeyLine(KeyLine(path)) == Some(path)
  {
    var line := KeyLine(path);
    assert line[..|KeyLinePrefix|] == KeyLinePrefix;
    assert line[|KeyLinePrefix|..|line| - 1] == path;
  }

  /** `x8` loses nothing: reading the eight digits back as a signed 32-bit
      value gives the id, negative ids included. */
  lemma ValueLineRoundTrip(id: Int32)
    ensures ParseValueLine(ValueLine(id)) == Some(id)
  {
    var line := ValueLine(id);
    assert line[..|ValueLinePrefix|] == ValueLinePrefix;
    assert line[|ValueLinePrefix|..] == DwordHex(id);
  }

  lemma {:induction false} BlocksRoundTrip(entries: seq<Entry>)
    ensures ParseBlocks(Blocks(entries)) == Some(entries)
    decreases |entries|
  {
    if |entries| > 0 {
      var lines := Blocks(entries);
      var e := entries[0];
      assert lines[0] == KeyLine(e.path) && lines[1] == ValueLine(e.langId) && lines[2] == "";
      assert lines[3..] == Blocks(entries[1..]);
      KeyLineRoundTrip(e.path);
      ValueLineRoundTrip(e.langId);
      BlocksRoundTrip(entries[1..]);
      assert [Entry(e.path, e.langId)] + entries[1..] == entries;
    }
  }

  /** The saved script reads back as exactly the values the backup
      recorded: every key path with the `ULangID` it held, in order. */
  lemma BackupRoundTrip(h: Hive, versions: seq<InstalledVersion>, writable: bool)
    requires writable
    ensures BackupRegistry(h, versions, writable).Saved?
    ensures ParseScript(BackupRegistry(h, versions, writable).lines) == Some(Snapshot(h, versions))
  {
    var lines := BackupText(h, versions);
    assert lines[2..] == Blocks(Snapshot(h, versions));
    BlocksRoundTrip(Snapshot(h, versions));
  }

  /** How many of the versions yield a current `ULangID`, counted from the
      back of the list. */
  function Valued(h: Hive, versions: seq<InstalledVersion>): nat
  {
    if |versions| == 0 then 0
    else
      var last := if CurrentLangId(h, versions[|versions| - 1].fullPath).Some? then 1 else 0;
      Valued(h, versions[..|versions| - 1]) + last
  }

  /** Backing up two lists one after the other records the same entries, in
      the same order, as backing up their concatenation: the snapshot keeps
      the order of the selection. */
  lemma {:induction false} SnapshotAppend(h: Hive, xs: seq<InstalledVersion>, ys: seq<InstalledVersion>)
    ensures Snapshot(h, xs + ys) == Snapshot(h, xs) + Snapshot(h, ys)
    decreases |xs|
  {
    if |xs| > 0 {
      assert (xs + ys)[1..] == xs[1..] + ys;
      assert (xs + ys)[0] == xs[0];
      SnapshotAppend(h, xs[1..], ys);
    } else {
      assert xs + ys == ys;
    }
  }

  /** The snapshot has exactly one entry per version that yields a value. */
  lemma {:induction false} SnapshotCount(h: Hive, versions: seq<InstalledVersion>)
    ensures |Snapshot(h, versions)| == Valued(h, versions)
    decreases |versions|
  {
    if |versions| > 0 {
      var n := |versions| - 1;
      assert versions == versions[..n] + [versions[n]];
      SnapshotAppend(h, versions[..n], [versions[n]]);
      SnapshotCount(h, versions[..n]);
      assert [versions[n]][1..] == [];
    }
  }

  /** The snapshot holds one entry for each version that yields a value, and
      nothing else: every entry is such a version's path and current value,
      and every such version is represented. */
  lemma {:induction false} SnapshotMeaning(h: Hive, versions: seq<InstalledVersion>)
    ensures |Snapshot(h, versions)| == Valued(h, versions) <= |versions|
    ensures forall e :: e in Snapshot(h, versions) ==>
      exists i :: 0 <= i < |versions| && versions[i].fullPath == e.path &&
        CurrentLangId(h, e.path) == Some(e.langId)
    ensures forall i :: 0 <= i < |versions| && CurrentLangId(h, versions[i].fullPath).Some? ==>
      Entry(versions[i].fullPath, CurrentLangId(h, versions[i].fullPath).value) in Snapshot(h, versions)
    decreases |versions|
  {
    SnapshotCount(h, versions);
    if |versions| > 0 {
      var rest := versions[1..];
      SnapshotMeaning(h, rest);
      forall i | 0 <= i < |rest|
        ensures rest[i] == versions[i + 1]
      {
      }
      var s := Snapshot(h, versions);
      var first := match CurrentLangId(h, versions[0].fullPath)
        case Some(id) => [Entry(versions[0].fullPath, id)]
        case None => [];
      assert s == first + Snapshot(h, rest);
      forall e | e in s
        ensures exists i :: (0 <= i < |versions| && versions[i].fullPath == e.path &&
          CurrentLangId(h, e.path) == Some(e.langId))
      {
        if e in first {
          assert versions[0].fullPath == e.path;
        } else {
          assert e in Snapshot(h, rest);
          var j :| 0 <= j < |rest| && rest[j].fullPath == e.path && CurrentLangId(h, e.path) == Some(e.langId);
          assert versions[j + 1].fullPath == e.path;
        }
      }
      forall i | 0 <= i < |versions| && CurrentLangId(h, versions[i].fullPath).Some?
        ensures Entry(versions[i].fullPath, CurrentLangId(h, versions[i].fullPath).value) in s
      {
        if i > 0 {
          assert rest[i - 1] == versions[i];
        }
      }
    }
  }
}
