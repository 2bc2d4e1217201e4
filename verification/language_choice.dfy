/** `UpdateLanguageComboBox` and `cmbLanguage_SelectionChangeCommitted`: the
    languages offered for the versions to change (those every selected
    version supports) and the language key the change will use. */
module LanguageChoice {
  import opened Optional
  import opened Strings
  import opened Catalog
  import opened Localization

  // ---------------------------------------------------------------------------
  // Common languages
  // ---------------------------------------------------------------------------

  /** Every version in `versions` supports language id `id`. */
  predicate SupportedByAll(versions: seq<InstalledVersion>, id: int) {
    forall i :: 0 <= i < |versions| ==> id in versions[i].version.supportedLangIds
  }

  /** The supported ids of the first version, intersected with those of each
      following version in turn. */
  function CommonIds(versions: seq<InstalledVersion>): set<int>
    requires |versions| > 0
    decreases |versions|
  {
    if |versions| == 1 then versions[0].version.supportedLangIds
    else CommonIds(versions[..|versions| - 1]) * versions[|versions| - 1].version.supportedLangIds
  }

  /** The fold computes the ids every selected version supports. */
  lemma {:induction false} CommonIdsMeaning(versions: seq<InstalledVersion>, id: int)
    requires |versions| > 0
    ensures id in CommonIds(versions) <==> SupportedByAll(versions, id)
    decreases |versions|
  {
    if |versions| > 1 {
      var init := versions[..|versions| - 1];
      CommonIdsMeaning(init, id);
      assert forall i :: 0 <= i < |init| ==> init[i] == versions[i];
    }
  }

  /** The table entries whose id is in `common`, in table order. */
  function OfferedEntries(t: LangTable, common: set<int>): seq<(Int32, string)>
    decreases |t|
  {
    if |t| == 0 then []
    else (if t[0].0 in common then [t[0]] else []) + OfferedEntries(t[1..], common)
  }

  /** Filtering keeps exactly the entries with a common id. */
  lemma {:induction false} OfferedEntriesMeaning(t: LangTable, common: set<int>)
    ensures forall e :: e in OfferedEntries(t, common) <==> e in t && e.0 in common
    decreases |t|
  {
    if |t| > 0 {
      OfferedEntriesMeaning(t[1..], common);
      assert t == [t[0]] + t[1..];
    }
  }

  /** Filtering a table whose keys are distinct keeps them distinct. */
  lemma {:induction false} OfferedEntriesDistinct(t: LangTable, common: set<int>)
    requires DistinctKeys(t)
    ensures DistinctKeys(OfferedEntries(t, common))
    decreases |t|
  {
    if |t| > 0 {
      var rest := OfferedEntries(t[1..], common);
      assert DistinctKeys(t[1..]) by {
        forall i, j | 0 <= i < j < |t[1..]| ensures t[1..][i].1 != t[1..][j].1 {
          assert t[1..][i] == t[i + 1] && t[1..][j] == t[j + 1];
        }
      }
      OfferedEntriesDistinct(t[1..], common);
      OfferedEntriesMeaning(t[1..], common);
      if t[0].0 in common {
        var r := OfferedEntries(t, common);
        forall i, j | 0 <= i < j < |r| ensures r[i].1 != r[j].1 {
          if i == 0 {
            assert r[j] == rest[j - 1] && r[j] in t[1..];
            var k :| 0 <= k < |t[1..]| && t[1..][k] == r[j];
            assert t[k + 1] == r[j];
          } else {
            assert r[i] == rest[i - 1] && r[j] == rest[j - 1];
          }
        }
      }
    }
  }

  function Keys(entries: seq<(Int32, string)>): (r: seq<string>)
    ensures |r| == |entries|
  {
    seq(|entries|, i requires 0 <= i < |entries| => entries[i].1)
  }

  /** The language keys offered for a set of common ids: those the id/key
      table maps a common id to, in table order. */
  function OfferedKeys(common: set<int>): seq<string> {
    OfferedKeysOf(LangIdToKey, common)
  }

  function OfferedKeysOf(t: LangTable, common: set<int>): seq<string> {
    Keys(OfferedEntries(t, common))
  }

  /** In any table with distinct ids, a key survives the filter exactly
      when some common id maps to it. */
  lemma OfferedKeysIn(t: LangTable, common: set<int>, key: string)
    requires DistinctIds(t)
    ensures key in OfferedKeysOf(t, common) <==> exists id :: id in common && KeyOf(t, id) == Some(key)
  {
    var entries := OfferedEntries(t, common);
    OfferedEntriesMeaning(t, common);
    if key in Keys(entries) {
      var i :| 0 <= i < |entries| && entries[i].1 == key;
      var k :| 0 <= k < |t| && t[k] == entries[i];
      KeyOfEntry(t, k);
    }
    if exists id :: id in common && KeyOf(t, id) == Some(key) {
      var id :| id in common && KeyOf(t, id) == Some(key);
      var k :| 0 <= k < |t| && t[k] == (id, key);
      assert (id, key) in entries;
      var i :| 0 <= i < |entries| && entries[i] == (id, key);
      assert Keys(entries)[i] == key;
    }
  }

  /** In any table with distinct ids and keys, the id a surviving key looks
      up is common and maps back to the key. */
  lemma OfferedIdIn(t: LangTable, common: set<int>, key: string)
    requires DistinctIds(t) && DistinctKeys(t)
    requires key in OfferedKeysOf(t, common)
    ensures IdOf(t, key) in common
    ensures KeyOf(t, IdOf(t, key)) == Some(key)
  {
    var entries := OfferedEntries(t, common);
    OfferedEntriesMeaning(t, common);
    var i :| 0 <= i < |entries| && entries[i].1 == key;
    var k :| 0 <= k < |t| && t[k] == entries[i];
    LookupsInverse(t, k);
  }

  /** A key is offered exactly when some common id maps to it; and each key
      is offered once. */
  lemma OfferedKeysMeaning(common: set<int>, key: string)
    ensures key in OfferedKeys(common) <==> exists id :: id in common && KeyOfId(id) == Some(key)
    ensures forall i, j :: 0 <= i < j < |OfferedKeys(common)| ==> OfferedKeys(common)[i] != OfferedKeys(common)[j]
  {
    LangTableDistinct();
    OfferedKeysIn(LangIdToKey, common, key);
    OfferedEntriesDistinct(LangIdToKey, common);
  }

  /** Every offered key's id, as the change will look it up, is a common id. */
  lemma OfferedIdIsCommon(common: set<int>, key: string)
    requires key in OfferedKeys(common)
    ensures IdOfKey(key) in common
    ensures KeyOfId(IdOfKey(key)) == Some(key)
  {
    LangTableDistinct();
    OfferedIdIn(LangIdToKey, common, key);
  }

  // ---------------------------------------------------------------------------
  // The combo box
  // ---------------------------------------------------------------------------

  /** A combo box entry: the key behind it and its caption. */
  datatype LanguageItem = LanguageItem(key: string, caption: string)

  /** The combo box: its entries, the selected index, and whether it (and
      the change button) is enabled. */
  datatype LanguageCombo = LanguageCombo(items: seq<LanguageItem>, selected: int, enabled: bool)

  /** The combo box after an update, and the chosen language key. */
  datatype ComboUpdate = ComboUpdate(combo: LanguageCombo, chosen: string)

  /** A single disabled entry with an empty key and a hint as caption. */
  function Placeholder(texts: TextTables, current: string, hint: string): LanguageCombo
    requires HasFallback(texts)
  {
    LanguageCombo([LanguageItem("", GetText(texts, current, hint))], 0, false)
  }

  /** The entries for the offered keys, each captioned with the language's
      name in the program language. */
  function ItemsFor(texts: TextTables, current: string, keys: seq<string>): (r: seq<LanguageItem>)
    requires HasFallback(texts)
    ensures |r| == |keys|
    ensures forall i :: 0 <= i < |keys| ==> r[i].key == keys[i]
  {
    seq(|keys|, i requires 0 <= i < |keys| => LanguageItem(keys[i], GetText(texts, current, keys[i])))
  }

  /** `FirstOrDefault(l => l.Key == key)`, as an index. */
  function IndexOfKey(items: seq<LanguageItem>, key: string): (r: Option<nat>)
    ensures r.None? <==> forall i :: 0 <= i < |items| ==> items[i].key != key
    ensures r.Some? ==> (r.value < |items| && items[r.value].key == key &&
      forall j :: 0 <= j < r.value ==> items[j].key != key)
    decreases |items|
  {
    if |items| == 0 then None
    else if items[0].key == key then Some(0)
    else match IndexOfKey(items[1..], key)
      case None => None
      case Some(j) => Some(j + 1)
  }

  /** `UpdateLanguageComboBox`: a placeholder when no version is selected or
      no language is common to them; otherwise the common languages, keeping
      the chosen key when it is still offered and choosing the first entry
      otherwise. */
  function UpdateLanguageComboBox(texts: TextTables, current: string, selected: seq<InstalledVersion>,
                                  chosen: string): ComboUpdate
    requires HasFallback(texts)
  {
    UpdateWith(LangIdToKey, texts, current, selected, chosen)
  }

  /** The update for any id/key table. */
  function UpdateWith(t: LangTable, texts: TextTables, current: string, selected: seq<InstalledVersion>,
                      chosen: string): ComboUpdate
    requires HasFallback(texts)
  {
    if |selected| == 0 then ComboUpdate(Placeholder(texts, current, "select_version"), chosen)
    else
      var keys := OfferedKeysOf(t, CommonIds(selected));
      if |keys| == 0 then ComboUpdate(Placeholder(texts, current, "no_common_lang"), chosen)
      else
        var items := ItemsFor(texts, current, keys);
        var index := IndexOfKey(items, chosen).GetOr(0);
        ComboUpdate(LanguageCombo(items, index, true), items[index].key)
  }

  /** With nothing selected, the combo box shows the disabled hint and the
      chosen key is kept. */
  lemma NoSelectionShowsHint(texts: TextTables, current: string, chosen: string)
    requires HasFallback(texts)
    ensures var u := UpdateLanguageComboBox(texts, current, [], chosen);
      && !u.combo.enabled
      && u.combo.items == [LanguageItem("", GetText(texts, current, "select_version"))]
      && u.combo.selected == 0
      && u.chosen == chosen
  {
  }

  lemma EnabledIffCommonLanguageWith(t: LangTable, texts: TextTables, current: string,
                                     selected: seq<InstalledVersion>, chosen: string)
    requires DistinctIds(t)
    requires HasFallback(texts)
    ensures var u := UpdateWith(t, texts, current, selected, chosen);
      && (u.combo.enabled <==>
            |selected| > 0 &&
            exists id :: KeyOf(t, id).Some? && SupportedByAll(selected, id))
      && (!u.combo.enabled ==> |u.combo.items| == 1 && u.combo.items[0].key == "" && u.chosen == chosen)
  {
    if |selected| > 0 {
      var common := CommonIds(selected);
      var keys := OfferedKeysOf(t, common);
      if |keys| > 0 {
        OfferedKeysIn(t, common, keys[0]);
        var id :| id in common && KeyOf(t, id) == Some(keys[0]);
        CommonIdsMeaning(selected, id);
        assert KeyOf(t, id).Some? && SupportedByAll(selected, id);
      } else {
        forall id | KeyOf(t, id).Some?
          ensures !SupportedByAll(selected, id)
        {
          CommonIdsMeaning(selected, id);
          OfferedKeysIn(t, common, KeyOf(t, id).value);
        }
      }
    }
  }

  /** The combo box is enabled exactly when some version is selected and some
      id every selected version supports is in the id/key table; when
      disabled it shows a single hint entry with an empty key and the chosen
      key is kept. */
  lemma EnabledIffCommonLanguage(texts: TextTables, current: string, selected: seq<InstalledVersion>, chosen: string)
    requires HasFallback(texts)
    ensures var u := UpdateLanguageComboBox(texts, current, selected, chosen);
      && (u.combo.enabled <==>
            |selected| > 0 &&
            exists id :: KeyOfId(id).Some? && SupportedByAll(selected, id))
      && (!u.combo.enabled ==> |u.combo.items| == 1 && u.combo.items[0].key == "" && u.chosen == chosen)
  {
    LangTableDistinct();
    EnabledIffCommonLanguageWith(LangIdToKey, texts, current, selected, chosen);
  }

  lemma EnabledChoiceWith(t: LangTable, texts: TextTables, current: string, selected: seq<InstalledVersion>, chosen: string)
    requires HasFallback(texts)
    requires UpdateWith(t, texts, current, selected, chosen).combo.enabled
    ensures var u := UpdateWith(t, texts, current, selected, chosen);
      var keys := OfferedKeysOf(t, CommonIds(selected));
      && |u.combo.items| == |keys| > 0
      && (forall i :: 0 <= i < |keys| ==> u.combo.items[i].key == keys[i])
      && 0 <= u.combo.selected < |u.combo.items|
      && u.chosen == u.combo.items[u.combo.selected].key
      && (chosen in keys ==> u.chosen == chosen)
      && (chosen !in keys ==> u.chosen == keys[0])
  {
    var keys := OfferedKeysOf(t, CommonIds(selected));
    var items := ItemsFor(texts, current, keys);
    if chosen in keys {
      var i :| 0 <= i < |keys| && keys[i] == chosen;
      assert items[i].key == chosen;
    } else {
      assert forall i :: 0 <= i < |items| ==> items[i].key != chosen;
    }
  }

  /** When enabled, the entries are the offered languages, the selection is
      one of them, and the chosen key is the selected entry's: the previous
      choice when it is still offered, else the first entry. */
  lemma EnabledChoice(texts: TextTables, current: string, selected: seq<InstalledVersion>, chosen: string)
    requires HasFallback(texts)
    requires UpdateLanguageComboBox(texts, current, selected, chosen).combo.enabled
    ensures var u := UpdateLanguageComboBox(texts, current, selected, chosen);
      var keys := OfferedKeys(CommonIds(selected));
      && |u.combo.items| == |keys| > 0
      && (forall i :: 0 <= i < |keys| ==> u.combo.items[i].key == keys[i])
      && 0 <= u.combo.selected < |u.combo.items|
      && u.chosen == u.combo.items[u.combo.selected].key
      && (chosen in keys ==> u.chosen == chosen)
      && (chosen !in keys ==> u.chosen == keys[0])
  {
    EnabledChoiceWith(LangIdToKey, texts, current, selected, chosen);
  }

  lemma ChosenSupportedByAllWith(t: LangTable, texts: TextTables, current: string, selected: seq<InstalledVersion>, chosen: string)
    requires DistinctIds(t) && DistinctKeys(t)
    requires HasFallback(texts)
    requires UpdateWith(t, texts, current, selected, chosen).combo.enabled
    ensures var k := UpdateWith(t, texts, current, selected, chosen).chosen;
      && KeyOf(t, IdOf(t, k)) == Some(k)
      && SupportedByAll(selected, IdOf(t, k))
  {
    var u := UpdateWith(t, texts, current, selected, chosen);
    EnabledChoiceWith(t, texts, current, selected, chosen);
    var common := CommonIds(selected);
    assert u.chosen in OfferedKeysOf(t, common);
    OfferedIdIn(t, common, u.chosen);
    CommonIdsMeaning(selected, IdOf(t, u.chosen));
  }

  /** The language the change will use is supported by every selected
      version: its id, looked up the way the change looks it up, is in each
      version's supported set and maps back to the key. */
  lemma ChosenSupportedByAll(texts: TextTables, current: string, selected: seq<InstalledVersion>, chosen: string)
    requires HasFallback(texts)
    requires UpdateLanguageComboBox(texts, current, selected, chosen).combo.enabled
    ensures var k := UpdateLanguageComboBox(texts, current, selected, chosen).chosen;
      && KeyOfId(IdOfKey(k)) == Some(k)
      && SupportedByAll(selected, IdOfKey(k))
  {
    LangTableDistinct();
    ChosenSupportedByAllWith(LangIdToKey, texts, current, selected, chosen);
  }

  /** `cmbLanguage_SelectionChangeCommitted`: the key of the committed entry
      becomes the chosen key; without a selected entry it stays. */
  function CommitSelection(combo: LanguageCombo, chosen: string): (r: string)
    ensures r == chosen || IndexOfKey(combo.items, r).Some?
  {
    if 0 <= combo.selected < |combo.items| then combo.items[combo.selected].key else chosen
  }

  /** Selecting the entry found for a key and committing it gives the key
      back, so the update's kept choice survives a commit of its own
      selection. */
  lemma CommitSelectionRoundTrip(items: seq<LanguageItem>, key: string, enabled: bool, chosen: string)
    requires IndexOfKey(items, key).Some?
    ensures CommitSelection(LanguageCombo(items, IndexOfKey(items, key).value, enabled), chosen) == key
  {
  }

  lemma CommittedKeyIsOfferedWith(t: LangTable, texts: TextTables, current: string,
                                  selected: seq<InstalledVersion>, chosen: string, index: int)
    requires DistinctIds(t) && DistinctKeys(t)
    requires HasFallback(texts)
    requires UpdateWith(t, texts, current, selected, chosen).combo.enabled
    requires 0 <= index < |UpdateWith(t, texts, current, selected, chosen).combo.items|
    ensures var combo := UpdateWith(t, texts, current, selected, chosen).combo;
      var k := CommitSelection(combo.(selected := index), chosen);
      && k in OfferedKeysOf(t, CommonIds(selected))
      && SupportedByAll(selected, IdOf(t, k))
  {
    EnabledChoiceWith(t, texts, current, selected, chosen);
    var common := CommonIds(selected);
    var k := OfferedKeysOf(t, common)[index];
    OfferedIdIn(t, common, k);
    CommonIdsMeaning(selected, IdOf(t, k));
  }

  /** Committing any entry of an enabled combo box chooses an offered key,
      one every selected version supports. */
  lemma CommittedKeyIsOffered(texts: TextTables, current: string, selected: seq<InstalledVersion>,
                              chosen: string, index: int)
    requires HasFallback(texts)
    requires UpdateLanguageComboBox(texts, current, selected, chosen).combo.enabled
    requires 0 <= index < |UpdateLanguageComboBox(texts, current, selected, chosen).combo.items|
    ensures var combo := UpdateLanguageComboBox(texts, current, selected, chosen).combo;
      var k := CommitSelection(combo.(selected := index), chosen);
      && k in OfferedKeys(CommonIds(selected))
      && SupportedByAll(selected, IdOfKey(k))
  {
    LangTableDistinct();
    CommittedKeyIsOfferedWith(LangIdToKey, texts, current, selected, chosen, index);
  }

  /** A version with the given supported ids and nothing else of interest. */
  function SupportingOnly(ids: set<int>): InstalledVersion {
    InstalledVersion(VegasVersion("", [], "", ids, false), "", None)
  }

  /** Three versions supporting {1033, 1042, 1041}, {1033, 1042} and
      {1033, 1042, 2052} have exactly English and Korean in common. */
  lemma CommonIdsExample()
    ensures CommonIds([SupportingOnly({1033, 1042, 1041}), SupportingOnly({1033, 1042}),
                       SupportingOnly({1033, 1042, 2052})]) == {1033, 1042}
  {
    var vs := [SupportingOnly({1033, 1042, 1041}), SupportingOnly({1033, 1042}),
               SupportingOnly({1033, 1042, 2052})];
    assert vs[..2][..1] == [vs[0]];
    assert CommonIds(vs[..2]) == {1033, 1042};
  }

  /** With two common ids that the table knows, exactly their two keys are
      offered. */
  lemma OfferedPair(t: LangTable, a: int, b: int, k: string)
    requires DistinctIds(t)
    requires KeyOf(t, a).Some? && KeyOf(t, b).Some?
    ensures k in OfferedKeysOf(t, {a, b}) <==> k == KeyOf(t, a).value || k == KeyOf(t, b).value
  {
    OfferedKeysIn(t, {a, b}, k);
  }

  /** For the common ids {1033, 1042} the offered languages are English and
      Korean and nothing else. */
  lemma OfferedKeysExample(k: string)
    ensures k in OfferedKeys({1033, 1042}) <==> k == "english" || k == "korean"
  {
    LangTableDistinct();
    EnglishAndKoreanIds();
    OfferedPair(LangIdToKey, 1033, 1042, k);
  }
}
