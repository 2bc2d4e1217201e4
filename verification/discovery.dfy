/** `FindInstalledVegasVersions`: probing every supported version's candidate
    registry locations, base paths outermost and the 64-bit view before the
    32-bit one, and keeping the first location whose `Lang` key exists. */
module Discovery {
  import opened Optional
  import opened Strings
  import opened Registry
  import opened Catalog
  import opened FirstMatch

  /** `Path.Combine(Path.Combine(base, registryKey), "Lang")` with `/` turned
      into `\`: the key whose existence marks an installation. */
  function LangKeyPath(base: string, registryKey: string): string {
    ReplaceAll(Combine(Combine(base, registryKey), "Lang"), '/', "\\")
  }

  /** The parent of the `Lang` key, where `InstallPath` is read. */
  function ParentKeyPath(base: string, registryKey: string): string {
    ReplaceAll(Combine(base, registryKey), '/', "\\")
  }

  /** Where an installation was found: the full `Lang` key path and the
      install directory read beside it. */
  datatype Location = Location(fullPath: string, installPath: Option<string>)

  /** One pass through the try block for a (base path, view) pair: open
      `Lang`; if it exists, open the parent and read `InstallPath` as a
      string. `None` is a miss: a missing `Lang` key, or an exception (a
      refused open of either key), which the handler swallows. */
  function ProbeCandidate(h: Hive, v: VegasVersion, base: string, view: View): Option<Location> {
    var langPath := LangKeyPath(base, v.registryKey);
    match OpenSubKey(h, view, langPath, false)
    case Opened(_) =>
      (match OpenSubKey(h, view, ParentKeyPath(base, v.registryKey), false)
       case Opened(parent) => Some(Location(langPath, StringValue(parent, InstallPathValueName)))
       case NotFound => Some(Location(langPath, None))
       case Refused => None)
    case _ => None
  }

  /** What a hit means in registry terms: the `Lang` key exists and is
      readable in that view, the parent key is not refused, the recorded path
      is the `Lang` path, and the install path is the parent's string
      `InstallPath` value in the same view (absent when there is none). */
  lemma ProbeHitMeaning(h: Hive, v: VegasVersion, base: string, view: View)
    ensures var r := ProbeCandidate(h, v, base, view);
      var lang := (view, LangKeyPath(base, v.registryKey));
      var parent := (view, ParentKeyPath(base, v.registryKey));
      && (r.Some? <==> (lang in h && h[lang].access != Denied &&
                        (parent in h ==> h[parent].access != Denied)))
      && (r.Some? ==> r.value.fullPath == lang.1)
      && (r.Some? ==> (r.value.installPath.Some? <==>
            (parent in h && InstallPathValueName in h[parent].values &&
             h[parent].values[InstallPathValueName].Str?)))
      && (r.Some? && r.value.installPath.Some? ==>
            h[parent].values[InstallPathValueName] == Str(r.value.installPath.value))
  {
  }

  /** The probes of one base path in every view, in search order. */
  function ViewProbes(h: Hive, v: VegasVersion, base: string): (r: seq<Option<Location>>)
    ensures |r| == |SearchViews|
  {
    seq(|SearchViews|, w requires 0 <= w < |SearchViews| => ProbeCandidate(h, v, base, SearchViews[w]))
  }

  /** The search over `bases`, base paths outermost: the first view of the
      first base path that hits. */
  function FindFrom(h: Hive, v: VegasVersion, bases: seq<string>): Option<Location>
    decreases |bases|
  {
    if |bases| == 0 then None
    else match FirstSome(ViewProbes(h, v, bases[0]))
      case Some(loc) => Some(loc)
      case None => FindFrom(h, v, bases[1..])
  }

  /** The installation found for `v`: built from the first pair that hits. */
  function FindVersion(h: Hive, v: VegasVersion): (r: Option<InstalledVersion>)
    ensures r.Some? ==> r.value.version == v
  {
    match FindFrom(h, v, v.registryPaths)
    case None => None
    case Some(loc) => Some(InstalledVersion(v, loc.fullPath, loc.installPath))
  }

  /** The (base path, view) pair (`q`, `x`) is tried before (`p`, `w`). */
  predicate TriedBefore(q: int, x: int, p: int, w: int) {
    0 <= x < |SearchViews| && 0 <= q && (q < p || (q == p && x < w))
  }

  /** The search returns the probe of the first pair that hits. */
  lemma {:induction false} FindFromFirstHit(h: Hive, v: VegasVersion, bases: seq<string>, p: nat, w: nat)
    requires p < |bases| && w < |SearchViews|
    requires ProbeCandidate(h, v, bases[p], SearchViews[w]).Some?
    requires forall q, x :: TriedBefore(q, x, p, w) ==>
      ProbeCandidate(h, v, bases[q], SearchViews[x]).None?
    ensures FindFrom(h, v, bases) == ProbeCandidate(h, v, bases[p], SearchViews[w])
    decreases p
  {
    var probes := ViewProbes(h, v, bases[0]);
    if p == 0 {
      forall x | 0 <= x < w
        ensures probes[x].None?
      {
        assert TriedBefore(0, x, p, w);
      }
      FirstSomeAt(probes, w);
    } else {
      forall x | 0 <= x < |SearchViews|
        ensures probes[x].None?
      {
        assert TriedBefore(0, x, p, w);
      }
      FirstSomeSpec(probes);
      forall q, x | TriedBefore(q, x, p - 1, w)
        ensures ProbeCandidate(h, v, bases[1..][q], SearchViews[x]).None?
      {
        assert bases[1..][q] == bases[q + 1];
        assert TriedBefore(q + 1, x, p, w);
      }
      assert bases[1..][p - 1] == bases[p];
      FindFromFirstHit(h, v, bases[1..], p - 1, w);
    }
  }

  /** The search over `bases` finds nothing exactly when every pair misses. */
  lemma {:induction false} FindFromNone(h: Hive, v: VegasVersion, bases: seq<string>)
    ensures FindFrom(h, v, bases).None? <==> AllMiss(h, v, bases)
    decreases |bases|
  {
    if |bases| > 0 {
      var probes := ViewProbes(h, v, bases[0]);
      var rest := bases[1..];
      FindFromNone(h, v, rest);
      FirstSomeSpec(probes);
      forall q | 0 <= q < |rest|
        ensures rest[q] == bases[q + 1]
      {
      }
      if AllMiss(h, v, bases) {
        forall x | 0 <= x < |SearchViews|
          ensures probes[x].None?
        {
          assert ProbeCandidate(h, v, bases[0], SearchViews[x]).None?;
        }
        assert AllMiss(h, v, rest);
      }
      if FirstSome(probes).None? && AllMiss(h, v, rest) {
        forall q, x | 0 <= q < |bases| && 0 <= x < |SearchViews|
          ensures ProbeCandidate(h, v, bases[q], SearchViews[x]).None?
        {
          if q == 0 {
            assert probes[x].None?;
          } else {
            assert rest[q - 1] == bases[q];
          }
        }
      }
    }
  }

  /** Every (base path, view) pair over `bases` misses. */
  predicate AllMiss(h: Hive, v: VegasVersion, bases: seq<string>) {
    forall q, x :: 0 <= q < |bases| && 0 <= x < |SearchViews| ==>
      ProbeCandidate(h, v, bases[q], SearchViews[x]).None?
  }

  /** First-match policy: when base path `p` in view `w` hits and every pair
      tried before it misses, the installation found for `v` is built from
      that probe, whatever later pairs hold. */
  lemma FindVersionIsFirstHit(h: Hive, v: VegasVersion, p: nat, w: nat)
    requires p < |v.registryPaths| && w < |SearchViews|
    requires ProbeCandidate(h, v, v.registryPaths[p], SearchViews[w]).Some?
    requires forall q, x :: TriedBefore(q, x, p, w) ==>
      ProbeCandidate(h, v, v.registryPaths[q], SearchViews[x]).None?
    ensures FindVersion(h, v).Some?
    ensures var loc := ProbeCandidate(h, v, v.registryPaths[p], SearchViews[w]).value;
      FindVersion(h, v).value == InstalledVersion(v, loc.fullPath, loc.installPath)
  {
    FindFromFirstHit(h, v, v.registryPaths, p, w);
  }

  /** Nothing is found exactly when every (base path, view) pair misses. */
  lemma FindVersionNone(h: Hive, v: VegasVersion)
    ensures FindVersion(h, v).None? <==> AllMiss(h, v, v.registryPaths)
  {
    FindFromNone(h, v, v.registryPaths);
  }

  predicate HasName(found: seq<InstalledVersion>, name: string) {
    exists i :: 0 <= i < |found| && found[i].Name() == name
  }

  predicate NamesUnique(found: seq<InstalledVersion>) {
    forall i, j :: 0 <= i < j < |found| ==> found[i].Name() != found[j].Name()
  }

  predicate CatalogNamesUnique(catalog: seq<VegasVersion>) {
    forall i, j :: 0 <= i < j < |catalog| ==> catalog[i].name != catalog[j].name
  }

  /** The per-version search results, in catalog order. */
  function ScanResults(h: Hive, catalog: seq<VegasVersion>): (r: seq<Option<InstalledVersion>>)
    ensures |r| == |catalog|
  {
    seq(|catalog|, i requires 0 <= i < |catalog| => FindVersion(h, catalog[i]))
  }

  /** The list the handler builds from per-version results: each hit is
      appended unless an installation of the same name is already listed. */
  function KeepFirstByName(results: seq<Option<InstalledVersion>>): (r: seq<InstalledVersion>)
    ensures |r| <= |results|
    ensures NamesUnique(r)
    ensures forall x :: x in r ==> exists i :: 0 <= i < |results| && results[i] == Some(x)
    ensures forall i :: 0 <= i < |results| && results[i].Some? ==> HasName(r, results[i].value.Name())
    decreases |results|
  {
    if |results| == 0 then []
    else
      var init := results[..|results| - 1];
      var prev := KeepFirstByName(init);
      assert forall i :: 0 <= i < |init| ==> init[i] == results[i];
      match results[|results| - 1]
      case None => prev
      case Some(iv) =>
        if HasName(prev, iv.Name()) then prev
        else
          var r := prev + [iv];
          assert forall i :: 0 <= i < |prev| ==> r[i] == prev[i];
          assert r[|prev|] == iv;
          r
  }

  /** One more result extends the list by its hit exactly when the hit's name
      is not listed yet. */
  lemma KeepFirstByNameSnoc(results: seq<Option<InstalledVersion>>, x: Option<InstalledVersion>)
    ensures KeepFirstByName(results + [x]) ==
      if x.Some? && !HasName(KeepFirstByName(results), x.value.Name())
      then KeepFirstByName(results) + [x.value]
      else KeepFirstByName(results)
  {
    assert (results + [x])[..|results|] == results;
  }

  /** Result `i` is a hit and no earlier result is a hit of the same name. */
  predicate FirstWithName(results: seq<Option<InstalledVersion>>, i: int) {
    && 0 <= i < |results|
    && results[i].Some?
    && forall k :: 0 <= k < i ==> !(results[k].Some? && results[k].value.Name() == results[i].value.Name())
  }

  /** Of several hits with one name, the list keeps the first. */
  lemma {:induction false} KeepFirstByNameKeepsFirst(results: seq<Option<InstalledVersion>>)
    ensures forall x :: x in KeepFirstByName(results) ==>
      exists i :: FirstWithName(results, i) && results[i] == Some(x)
    decreases |results|
  {
    if |results| > 0 {
      var init := results[..|results| - 1];
      var last := results[|results| - 1];
      assert results == init + [last];
      KeepFirstByNameKeepsFirst(init);
      KeepFirstByNameSnoc(init, last);
      var prev := KeepFirstByName(init);
      forall x | x in KeepFirstByName(results)
        ensures exists i :: FirstWithName(results, i) && results[i] == Some(x)
      {
        if x in prev {
          var i :| FirstWithName(init, i) && init[i] == Some(x);
          assert FirstWithName(results, i);
        } else {
          assert last == Some(x) && !HasName(prev, x.Name());
          forall k | 0 <= k < |results| - 1
            ensures !(results[k].Some? && results[k].value.Name() == x.Name())
          {
            assert results[k] == init[k];
          }
          assert FirstWithName(results, |results| - 1);
        }
      }
    }
  }

  /** `FindInstalledVegasVersions`: the installations found, at most one per
      catalog entry and never two with the same name. */
  function Discover(h: Hive, catalog: seq<VegasVersion>): seq<InstalledVersion> {
    KeepFirstByName(ScanResults(h, catalog))
  }

  /** Discovery's guarantees in catalog terms: names are unique, every listed
      installation is the first hit of some catalog entry, and every entry
      with a hit has its name listed. */
  lemma DiscoverSound(h: Hive, catalog: seq<VegasVersion>)
    ensures |Discover(h, catalog)| <= |catalog|
    ensures NamesUnique(Discover(h, catalog))
    ensures forall x :: x in Discover(h, catalog) ==>
      exists i :: 0 <= i < |catalog| && FindVersion(h, catalog[i]) == Some(x) && x.version == catalog[i]
    ensures forall i :: 0 <= i < |catalog| && FindVersion(h, catalog[i]).Some? ==>
      HasName(Discover(h, catalog), catalog[i].name)
  {
    var results := ScanResults(h, catalog);
    assert forall i :: 0 <= i < |catalog| ==> results[i] == FindVersion(h, catalog[i]);
  }

  /** Every result's hit, in order, without the name check. */
  function Hits(results: seq<Option<InstalledVersion>>): (r: seq<InstalledVersion>)
    decreases |results|
  {
    if |results| == 0 then []
    else
      var prev := Hits(results[..|results| - 1]);
      match results[|results| - 1]
      case None => prev
      case Some(iv) => prev + [iv]
  }

  /** Each element of `Hits` is one of the results. */
  lemma {:induction false} HitsComeFromResults(results: seq<Option<InstalledVersion>>)
    ensures forall x :: x in Hits(results) ==>
      exists i :: 0 <= i < |results| && results[i] == Some(x)
    decreases |results|
  {
    if |results| > 0 {
      var init := results[..|results| - 1];
      HitsComeFromResults(init);
      assert forall i :: 0 <= i < |init| ==> init[i] == results[i];
    }
  }

  /** When the results carry distinct names the name check drops nothing:
      every hit is kept, in order. */
  lemma {:induction false} KeepFirstByNameKeepsDistinct(results: seq<Option<InstalledVersion>>)
    requires forall i, j :: 0 <= i < j < |results| && results[i].Some? && results[j].Some? ==>
      results[i].value.Name() != results[j].value.Name()
    ensures KeepFirstByName(results) == Hits(results)
    decreases |results|
  {
    if |results| > 0 {
      var init := results[..|results| - 1];
      assert forall i :: 0 <= i < |init| ==> init[i] == results[i];
      KeepFirstByNameKeepsDistinct(init);
      HitsComeFromResults(init);
      var hits := Hits(init);
      if results[|results| - 1].Some? {
        var name := results[|results| - 1].value.Name();
        forall j | 0 <= j < |hits|
          ensures hits[j].Name() != name
        {
          assert hits[j] in hits;
        }
      }
    }
  }

  /** With a catalog of distinct names (as the program's own catalog is),
      discovery lists exactly one installation per catalog entry that has a
      hit, in catalog order. */
  lemma DiscoverListsEveryHit(h: Hive, catalog: seq<VegasVersion>)
    requires CatalogNamesUnique(catalog)
    ensures Discover(h, catalog) == Hits(ScanResults(h, catalog))
  {
    var results := ScanResults(h, catalog);
    assert forall i :: 0 <= i < |catalog| ==> results[i] == FindVersion(h, catalog[i]);
    KeepFirstByNameKeepsDistinct(results);
  }

  /** The body of the handler's loop for one version: base paths outermost,
      views innermost, leaving both loops at the first hit. */
  method ScanVersion(h: Hive, version: VegasVersion) returns (found: Option<InstalledVersion>)
    ensures found == FindVersion(h, version)
  {
    ghost var bases := version.registryPaths;
    found := None;
    var p := 0;
    while p < |version.registryPaths| && found.None?
      invariant 0 <= p <= |bases|
      invariant found.None? ==> FindFrom(h, version, bases[p..]) == FindFrom(h, version, bases)
      invariant found.Some? ==> found == FindVersion(h, version)
    {
      var base := version.registryPaths[p];
      ghost var probes := ViewProbes(h, version, base);
      assert bases[p..][0] == base && bases[p..][1..] == bases[p + 1..];
      var w := 0;
      while w < |SearchViews| && found.None?
        invariant 0 <= w <= |SearchViews|
        invariant found.None? ==> FirstSome(probes[w..]) == FirstSome(probes)
        invariant found.Some? ==> (FirstSome(probes).Some? &&
          found == Some(InstalledVersion(version, FirstSome(probes).value.fullPath, FirstSome(probes).value.installPath)))
      {
        var probe := ProbeCandidate(h, version, base, SearchViews[w]);
        assert probe == probes[w];
        if probe.Some? {
          FirstSomeStop(probes, w);
          found := Some(InstalledVersion(version, probe.value.fullPath, probe.value.installPath));
        } else {
          FirstSomeSkip(probes, w);
        }
        w := w + 1;
      }
      p := p + 1;
    }
  }

  /** The scan as the event handler performs it: every catalog entry in
      order, each hit appended unless its name is already listed. */
  method FindInstalledVegasVersions(h: Hive, catalog: seq<VegasVersion>)
    returns (installed: seq<InstalledVersion>)
    ensures installed == Discover(h, catalog)
  {
    ghost var results := ScanResults(h, catalog);
    installed := [];
    var n := 0;
    while n < |catalog|
      invariant 0 <= n <= |catalog|
      invariant installed == KeepFirstByName(results[..n])
    {
      var found := ScanVersion(h, catalog[n]);
      assert results[..n + 1] == results[..n] + [found];
      KeepFirstByNameSnoc(results[..n], found);
      if found.Some? && !HasName(installed, found.value.Name()) {
        installed := installed + [found.value];
      }
      n := n + 1;
    }
    assert results[..|catalog|] == results;
  }
}
