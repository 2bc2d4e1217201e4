/** The HKEY_LOCAL_MACHINE hive as the program sees it through
    `RegistryKey.OpenBaseKey(LocalMachine, view).OpenSubKey(path, writable)`:
    an immutable map from (view, sub-key path) to the key found there. */
module Registry {
  import opened Optional
  import opened Strings

  /** The two bit-width projections of the hive the program searches. */
  datatype View = Registry64 | Registry32

  /** Search order of every scan: the 64-bit view before the 32-bit one. */
  const SearchViews: seq<View> := [Registry64, Registry32]

  /** The value kinds `GetValue` can hand back: REG_DWORD as `int`, REG_QWORD
      as `long`, REG_SZ as `string`. */
  datatype Value = DWord(n: Int32) | QWord(q: int) | Str(s: string)

  /** What the current user may do with a key: open it for writing, only for
      reading, or not at all (opening throws a security exception). */
  datatype Access = ReadWrite | ReadOnly | Denied

  datatype Key = Key(values: map<string, Value>, access: Access)

  type Hive = map<(View, string), Key>

  /** Name of the value holding the interface language id. */
  const LangValueName: string := "ULangID"
  /** Name of the value holding the install directory. */
  const InstallPathValueName: string := "InstallPath"

  /** The result of `OpenSubKey`: a handle, `null` for a missing key, or an
      exception. */
  datatype Handle = Opened(key: Key) | NotFound | Refused

  /** `OpenSubKey(path, writable)` in one view. A missing key gives `null`
      whatever the access; an existing key throws when the requested access
      is not granted. */
  function OpenSubKey(h: Hive, view: View, path: string, writable: bool): (r: Handle)
    ensures r.NotFound? <==> (view, path) !in h
    ensures r.Opened? <==> ((view, path) in h &&
      (h[(view, path)].access == ReadWrite || (!writable && h[(view, path)].access == ReadOnly)))
    ensures r.Opened? ==> r.key == h[(view, path)]
  {
    if (view, path) !in h then NotFound
    else
      var k := h[(view, path)];
      if k.access == ReadWrite || (!writable && k.access == ReadOnly) then Opened(k)
      else Refused
  }

  /** `GetValue(name) is int`: the value when it is a REG_DWORD. */
  function DWordValue(k: Key, name: string): (r: Option<Int32>)
    ensures r.Some? <==> name in k.values && k.values[name].DWord?
    ensures r.Some? ==> k.values[name] == DWord(r.value)
  {
    if name in k.values && k.values[name].DWord? then Some(k.values[name].n) else None
  }

  /** `GetValue(name) as string`: the value when it is a string, else null. */
  function StringValue(k: Key, name: string): (r: Option<string>)
    ensures r.Some? <==> name in k.values && k.values[name].Str?
    ensures r.Some? ==> k.values[name] == Str(r.value)
  {
    if name in k.values && k.values[name].Str? then Some(k.values[name].s) else None
  }

  /** Asking for write access never opens more than asking for read access:
      whether a key is found does not depend on the access asked for, a key
      that opens for writing opens alike for reading, and a key refused for
      reading is refused for writing too. */
  lemma WriteOpenImpliesReadOpen(h: Hive, view: View, path: string)
    ensures OpenSubKey(h, view, path, true).NotFound? == OpenSubKey(h, view, path, false).NotFound?
    ensures OpenSubKey(h, view, path, true).Opened? ==>
      OpenSubKey(h, view, path, false) == OpenSubKey(h, view, path, true)
    ensures OpenSubKey(h, view, path, false).Refused? ==> OpenSubKey(h, view, path, true).Refused?
  {
  }

  /** A value reads as a DWORD or as a string, never as both. */
  lemma ValueKindsExclusive(k: Key, name: string)
    ensures !(DWordValue(k, name).Some? && StringValue(k, name).Some?)
  {
  }

  /** The key with `ULangID` set to the REG_DWORD `id`; every other value and
      the access rights are kept. */
  function WithLangId(k: Key, id: Int32): (r: Key)
    ensures r.access == k.access
    ensures DWordValue(r, LangValueName) == Some(id)
    ensures forall name :: name != LangValueName ==>
      (name in r.values <==> name in k.values) &&
      (name in k.values ==> r.values[name] == k.values[name])
  {
    Key(k.values[LangValueName := DWord(id)], k.access)
  }

  /** Writing `ULangID` replaces whatever kind of value it held: afterwards
      it reads as the DWORD and no longer as a string, and every other name
      reads as before through both accessors. */
  lemma WriteReplacesValueKind(k: Key, id: Int32, name: string)
    ensures DWordValue(WithLangId(k, id), LangValueName) == Some(id)
    ensures StringValue(WithLangId(k, id), LangValueName).None?
    ensures name != LangValueName ==>
      DWordValue(WithLangId(k, id), name) == DWordValue(k, name) &&
      StringValue(WithLangId(k, id), name) == StringValue(k, name)
  {
  }

  /** The part of a hive that decides how `OpenSubKey` answers: which keys
      exist and with what access. Writing values never changes it. */
  predicate SameShape(h1: Hive, h2: Hive) {
    h1.Keys == h2.Keys && forall loc :: loc in h1 ==> h1[loc].access == h2[loc].access
  }

  /** Every `OpenSubKey` answers alike, up to the key's values, on two hives of
      the same shape. */
  lemma SameShapeSameOpen(h1: Hive, h2: Hive, view: View, path: string, writable: bool)
    requires SameShape(h1, h2)
    ensures OpenSubKey(h1, view, path, writable).Opened? == OpenSubKey(h2, view, path, writable).Opened?
    ensures OpenSubKey(h1, view, path, writable).NotFound? == OpenSubKey(h2, view, path, writable).NotFound?
  {
  }
}
