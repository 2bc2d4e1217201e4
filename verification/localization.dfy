/** The program's own user-interface language: the text tables, `GetText`
    with its English fallback, and `SetLanguage`, which only ever switches to
    a language that has a table. */
module Localization {

  /** Two-letter program language code to (text key to text). */
  type TextTables = map<string, map<string, string>>

  const Fallback: string := "en"
  const MissingMarker: string := "MISSING:"

  /** The program's tables always include English. */
  predicate HasFallback(texts: TextTables) {
    Fallback in texts
  }

  /** `GetText(key)` under program language `current`: the entry of the
      current language when it has one, else the English entry, else the key
      behind a marker. */
  function GetText(texts: TextTables, current: string, key: string): (r: string)
    requires HasFallback(texts)
    ensures current in texts && key in texts[current] ==> r == texts[current][key]
    ensures key in texts[Fallback] && (current !in texts || key !in texts[current]) ==> r == texts[Fallback][key]
  {
    if current in texts && key in texts[current] then texts[current][key]
    else if key in texts[Fallback] then texts[Fallback][key]
    else MissingMarker + key
  }

  /** No table entry looks like a missing-text marker. */
  predicate NoMarkerEntries(texts: TextTables) {
    forall lang, key :: lang in texts && key in texts[lang] ==>
      !(|texts[lang][key]| >= |MissingMarker| && texts[lang][key][..|MissingMarker|] == MissingMarker)
  }

  /** The marker comes back exactly when neither the current language nor
      English has the key. */
  lemma MissingIffNowhere(texts: TextTables, current: string, key: string)
    requires HasFallback(texts) && NoMarkerEntries(texts)
    ensures GetText(texts, current, key) == MissingMarker + key <==>
      (current !in texts || key !in texts[current]) && key !in texts[Fallback]
  {
    var r := GetText(texts, current, key);
    if current in texts && key in texts[current] {
      assert !(|r| >= |MissingMarker| && r[..|MissingMarker|] == MissingMarker);
      assert (MissingMarker + key)[..|MissingMarker|] == MissingMarker;
    } else if key in texts[Fallback] {
      assert !(|r| >= |MissingMarker| && r[..|MissingMarker|] == MissingMarker);
      assert (MissingMarker + key)[..|MissingMarker|] == MissingMarker;
    }
  }

  /** A language without the key reads exactly what English reads. */
  lemma FallbackIsEnglish(texts: TextTables, current: string, key: string)
    requires HasFallback(texts)
    requires current !in texts || key !in texts[current]
    ensures GetText(texts, current, key) == GetText(texts, Fallback, key)
  {
  }

  /** `SetLanguage`: switching to a language that has no table is ignored. */
  function SetLanguage(texts: TextTables, current: string, code: string): (r: string)
    ensures r in texts || r == current
  {
    if code in texts then code else current
  }

  /** The program language always names a table: the startup detection
      falls back to English and `SetLanguage` only switches to languages that
      have one, so every lookup starts from an existing table. */
  lemma SetLanguageKeepsTable(texts: TextTables, current: string, code: string)
    requires current in texts
    ensures SetLanguage(texts, current, code) in texts
    ensures code in texts <==> SetLanguage(texts, current, code) == code
  {
  }

  /** A small sample of the program's tables: English and Korean captions
      for the two placeholders and two language names. */
  const SampleTexts: TextTables := map[
    "en" := map[
      "select_version" := "Select a Version", "no_common_lang" := "No Common Language",
      "english" := "English", "korean" := "Korean"],
    "ko" := map["english" := "영어", "korean" := "한국어"]
  ]

  /** A Korean caption is used where Korean has one; the placeholder Korean
      lacks in this sample falls back to English; an unknown key is marked. */
  lemma SampleLookups()
    ensures GetText(SampleTexts, "ko", "korean") == "한국어"
    ensures GetText(SampleTexts, "ko", "select_version") == "Select a Version"
    ensures GetText(SampleTexts, "ko", "title") == "MISSING:title"
  {
  }
}
