/** The static data of the program: the descriptor of every supported VEGAS
    version, the discovered-installation record, and the two language tables
    (registry language id to internal key, internal key to `.cfg` suffix). */
module Catalog {
  import opened Optional
  import opened Strings

  /** A supported product version: display name, candidate registry base
      paths in probe order, version sub-key, supported language ids, and
      whether it needs an extra `local_<suffix>.cfg` file. */
  datatype VegasVersion = VegasVersion(
    name: string,
    registryPaths: seq<string>,
    registryKey: string,
    supportedLangIds: set<int>,
    cfgCopySupported: bool)

  /** A version found on this machine: the descriptor it came from, the full
      path of its `Lang` key, and its install directory when one was read. */
  datatype InstalledVersion = InstalledVersion(
    version: VegasVersion,
    fullPath: string,
    installPath: Option<string>)
  {
    function Name(): string { version.name }
  }

  // ---------------------------------------------------------------------------
  // Language tables
  // ---------------------------------------------------------------------------

  type LangTable = seq<(Int32, string)>

  /** Registry language id to internal language key, in declaration order. */
  const LangIdToKey: LangTable := [
    (1031, "german"), (1033, "english"), (1034, "spanish"), (1036, "french"),
    (1041, "japanese"), (1042, "korean"), (1045, "polish"), (1046, "portuguese"),
    (1049, "russian"), (2052, "chinese_simplified")
  ]

  /** Internal language key to the suffix of its `local_<suffix>.cfg` file;
      languages without an entry need no file. */
  const LangKeyToCfgSuffix: map<string, string> := map[
    "german" := "de_DE", "english" := "en_US", "spanish" := "es_ES", "french" := "fr_FR",
    "japanese" := "ja_JP", "korean" := "ko_KR", "portuguese" := "pt_BR",
    "chinese_simplified" := "zh_CN"
  ]

  predicate DistinctIds(t: LangTable) {
    forall i, j :: 0 <= i < j < |t| ==> t[i].0 != t[j].0
  }

  predicate DistinctKeys(t: LangTable) {
    forall i, j :: 0 <= i < j < |t| ==> t[i].1 != t[j].1
  }

  /** Dictionary lookup by id: the key of the first entry with that id. */
  function KeyOf(t: LangTable, id: int): (r: Option<string>)
    ensures r.None? <==> forall i :: 0 <= i < |t| ==> t[i].0 != id
    ensures r.Some? ==> exists i :: 0 <= i < |t| && t[i] == (id, r.value)
  {
    if |t| == 0 then None
    else if t[0].0 == id then Some(t[0].1)
    else
      var r := KeyOf(t[1..], id);
      assert forall i :: 0 <= i < |t[1..]| ==> t[1..][i] == t[i + 1];
      r
  }

  /** `LangIdToKey.FirstOrDefault(kvp => kvp.Value == key).Key`: the id of the
      first entry holding `key`, or 0 (the default pair's key) when none does. */
  function IdOf(t: LangTable, key: string): (r: Int32)
    ensures (forall i :: 0 <= i < |t| ==> t[i].1 != key) ==> r == 0
    ensures (exists i :: 0 <= i < |t| && t[i].1 == key) ==>
      exists i :: 0 <= i < |t| && t[i] == (r, key)
  {
    if |t| == 0 then 0
    else if t[0].1 == key then t[0].0
    else
      var r := IdOf(t[1..], key);
      assert forall i :: 0 <= i < |t[1..]| ==> t[1..][i] == t[i + 1];
      r
  }

  /** In a table whose ids and keys are both distinct, looking an entry up by
      id and by key lead back to each other. */
  lemma {:induction false} LookupsInverse(t: LangTable, i: int)
    requires DistinctIds(t) && DistinctKeys(t)
    requires 0 <= i < |t|
    ensures KeyOf(t, t[i].0) == Some(t[i].1)
    ensures IdOf(t, t[i].1) == t[i].0
  {
    var r := KeyOf(t, t[i].0);
    var j :| 0 <= j < |t| && t[j] == (t[i].0, r.value);
    assert j == i;
    var k :| 0 <= k < |t| && t[k] == (IdOf(t, t[i].1), t[i].1);
    assert k == i;
  }

  function KeyOfId(id: int): Option<string> { KeyOf(LangIdToKey, id) }

  function IdOfKey(key: string): Int32 { IdOf(LangIdToKey, key) }

  /** The id/key table is a bijection between its ids and its keys: every id
      names one key, and looking that key up gives the id back (and the other
      way round). */
  lemma LangTableBijective()
    ensures forall id :: KeyOfId(id).Some? ==> IdOfKey(KeyOfId(id).value) == id
    ensures forall key :: (exists i :: 0 <= i < |LangIdToKey| && LangIdToKey[i].1 == key) ==>
      KeyOfId(IdOfKey(key)) == Some(key)
  {
    LangTableDistinct();
    forall i | 0 <= i < |LangIdToKey| {
      LookupsInverse(LangIdToKey, i);
    }
  }

  /** In a table with distinct ids, the entry at `i` is what a lookup of its
      id finds. */
  lemma {:induction false} KeyOfEntry(t: LangTable, i: int)
    requires DistinctIds(t)
    requires 0 <= i < |t|
    ensures KeyOf(t, t[i].0) == Some(t[i].1)
  {
    var r := KeyOf(t, t[i].0);
    var j :| 0 <= j < |t| && t[j] == (t[i].0, r.value);
    assert j == i;
  }

  /** The language table declares every id and every key once. */
  lemma LangTableDistinct()
    ensures DistinctIds(LangIdToKey) && DistinctKeys(LangIdToKey)
  {
    var t := LangIdToKey;
    assert t[0].1[0] == 'g' && t[1].1[0] == 'e' && t[2].1[0] == 's' && t[3].1[0] == 'f' && t[4].1[0] == 'j';
    assert t[5].1[0] == 'k' && t[6].1[0] == 'p' && t[7].1[0] == 'p' && t[8].1[0] == 'r' && t[9].1[0] == 'c';
    assert t[6].1[1] == 'o' && t[7].1[1] == 'o' && t[6].1[2] == 'l' && t[7].1[2] == 'r';
    forall i, j | 0 <= i < j < |t|
      ensures t[i].1 != t[j].1
    {
      if i == 6 && j == 7 {
        assert t[i].1[2] != t[j].1[2];
      } else {
        assert t[i].1[0] != t[j].1[0];
      }
    }
  }

  lemma EnglishAndKoreanIds()
    ensures KeyOfId(1033) == Some("english") && KeyOfId(1042) == Some("korean")
  {
    LangTableDistinct();
    KeyOfEntry(LangIdToKey, 1);
    KeyOfEntry(LangIdToKey, 5);
  }

  /** Korean is the only key whose id is 1042. */
  lemma KoreanIsId1042(key: string)
    ensures IdOfKey(key) == 1042 <==> key == "korean"
  {
    LangTableDistinct();
    LookupsInverse(LangIdToKey, 5);
    if IdOfKey(key) == 1042 {
      var i :| 0 <= i < |LangIdToKey| && LangIdToKey[i] == (1042, key);
      assert LangIdToKey[5].0 == 1042;
      assert i == 5;
    }
  }

  /** Polish and Russian are selectable but have no `.cfg` file to install. */
  lemma LanguagesWithoutCfgFile()
    ensures KeyOfId(1045) == Some("polish") && "polish" !in LangKeyToCfgSuffix
    ensures KeyOfId(1049) == Some("russian") && "russian" !in LangKeyToCfgSuffix
  {
    assert "polish" !in LangKeyToCfgSuffix by {
      assert "polish"[0] == 'p';
    }
    assert "russian" !in LangKeyToCfgSuffix by {
      assert "russian"[0] == 'r';
    }
    LangTableDistinct();
    KeyOfEntry(LangIdToKey, 6);
    KeyOfEntry(LangIdToKey, 8);
  }

  // ---------------------------------------------------------------------------
  // Supported versions
  // ---------------------------------------------------------------------------

  const SonyVegasPro: string := "SOFTWARE\\Sony Creative Software\\Vegas Pro"
  const ModernVegasPro: seq<string> := [
    "SOFTWARE\\VEGAS Creative Software\\VEGAS Pro", "SOFTWARE\\MAGIX\\VEGAS Pro",
    "SOFTWARE\\Sony Creative Software\\Vegas Pro"
  ]
  const ModernMovieStudio: seq<string> := [
    "SOFTWARE\\VEGAS\\Movie Studio Platinum", "SOFTWARE\\MAGIX\\Movie Studio Platinum",
    "SOFTWARE\\Sony Creative Software\\Movie Studio Platinum"
  ]

  const Ids5: set<int> := {1031, 1033, 1034, 1036, 1041}
  const Ids6: set<int> := Ids5 + {1049}
  const Ids8: set<int> := Ids5 + {1045, 1049, 2052}
  const ModernIds: set<int> := Ids5 + {1042, 1045, 1046, 2052}

  /** Every version the program knows, in the order discovery visits them. */
  const AllSupportedVersions: seq<VegasVersion> := [
    VegasVersion("Vegas Pro 9.0", [SonyVegasPro], "9.0", Ids5, false),
    VegasVersion("Vegas Pro 10.0", [SonyVegasPro], "10.0", Ids5, false),
    VegasVersion("Vegas Pro 11.0", [SonyVegasPro], "11.0", Ids6, false),
    VegasVersion("Vegas Pro 12.0", [SonyVegasPro], "12.0", Ids6, false),
    VegasVersion("Vegas Pro 13.0", [SonyVegasPro], "13.0", Ids8, false),
    VegasVersion("Vegas Pro 14.0", ModernVegasPro, "14.0", Ids8, true),
    VegasVersion("Vegas Pro 15.0", ModernVegasPro, "15.0", Ids8 + {1042}, true),
    VegasVersion("Vegas Pro 16.0", ModernVegasPro, "16.0", ModernIds + {1049}, true),
    VegasVersion("Vegas Pro 17.0", ModernVegasPro, "17.0", ModernIds, true),
    VegasVersion("Vegas Pro 18.0", ModernVegasPro, "18.0", ModernIds, true),
    VegasVersion("Vegas Pro 19.0", ModernVegasPro, "19.0", ModernIds, true),
    VegasVersion("Vegas Pro 20.0", ModernVegasPro, "20.0", ModernIds, true),
    VegasVersion("Vegas Pro 21.0", ModernVegasPro, "21.0", ModernIds, true),
    VegasVersion("Vegas Pro 22.0", ModernVegasPro, "22.0", ModernIds, true),
    VegasVersion("Vegas Pro 23.0", ModernVegasPro, "23.0", ModernIds, true),
    VegasVersion("Vegas Movie Studio 8.0",
      ["SOFTWARE\\Sony Media Software\\Vegas Movie Studio"], "8.0", Ids5, false),
    VegasVersion("Vegas Movie Studio Platinum 8.0",
      ["SOFTWARE\\Sony Media Software\\Vegas Movie Studio Platinum"], "8.0", Ids5, false),
    VegasVersion("Vegas Movie Studio 9.0",
      ["SOFTWARE\\Sony Creative Software\\Vegas Movie Studio"], "9.0", {1033}, false),
    VegasVersion("Vegas Movie Studio Platinum 9.0",
      ["SOFTWARE\\Sony Creative Software\\Vegas Movie Studio Platinum"], "9.0", Ids5, false),
    VegasVersion("Vegas Movie Studio HD Platinum 10.0",
      ["SOFTWARE\\Sony Creative Software\\Vegas Movie Studio HD Platinum"], "10.0", Ids5, false),
    VegasVersion("Vegas Movie Studio HD Platinum 11.0",
      ["SOFTWARE\\Sony Creative Software\\Vegas Movie Studio HD Platinum"], "11.0", Ids5, false),
    VegasVersion("Vegas Movie Studio Platinum 12.0",
      ["SOFTWARE\\Sony Creative Software\\Movie Studio Platinum"], "12.0", Ids8, false),
    VegasVersion("Vegas Movie Studio Platinum 13.0",
      ["SOFTWARE\\Sony Creative Software\\Movie Studio Platinum"], "13.0", Ids8, false),
    VegasVersion("Vegas Movie Studio Platinum 14.0", ModernMovieStudio, "14.0", Ids8 + {1046}, false),
    VegasVersion("Vegas Movie Studio Platinum 15.0", ModernMovieStudio, "15.0", Ids8 + {1046}, false),
    VegasVersion("Vegas Movie Studio Platinum 16.0", ModernMovieStudio, "16.0", Ids8 + {1042, 1046}, false),
    VegasVersion("Vegas Movie Studio Platinum 17.0", ModernMovieStudio, "17.0", Ids8 + {1042, 1046}, false)
  ]
}
