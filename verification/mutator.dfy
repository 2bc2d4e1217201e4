/** `ModifyRegistry`: writing the target language id into every selected
    version's `Lang` key. For each version the views are tried in order with a
    writable handle; the first key that exists decides the outcome, whether the
    write is allowed or throws. */
module Mutator {
  import opened Optional
  import opened Strings
  import opened Registry
  import opened Catalog
  import opened FirstMatch

  /** One version's line in the success or failure list: written in `view`,
      failed with an exception in `view`, or `reg_path_not_found`. */
  datatype RegOutcome = Modified(view: View) | WriteFailed(view: View) | PathNotFound

  /** One pass through the try block for `view`: a missing key (`null`) lets
      the next view be tried; an opened key is written; a refused open throws,
      which the handler records as terminal. */
  function TryView(h: Hive, view: View, path: string): Option<RegOutcome> {
    match OpenSubKey(h, view, path, true)
    case NotFound => None
    case Opened(_) => Some(Modified(view))
    case Refused => Some(WriteFailed(view))
  }

  function ViewAttempts(h: Hive, path: string): (r: seq<Option<RegOutcome>>)
    ensures |r| == |SearchViews|
  {
    seq(|SearchViews|, w requires 0 <= w < |SearchViews| => TryView(h, SearchViews[w], path))
  }

  /** The outcome for the key at `path`: the first view that does not answer
      `null` decides it. */
  function Outcome(h: Hive, path: string): RegOutcome {
    FirstSome(ViewAttempts(h, path)).GetOr(PathNotFound)
  }

  /** The view whose key is opened first: the first one in which `path`
      exists. */
  function FirstPresentView(h: Hive, path: string): Option<View> {
    if (Registry64, path) in h then Some(Registry64)
    else if (Registry32, path) in h then Some(Registry32)
    else None
  }

  /** The outcome in registry terms: no key in either view gives
      `reg_path_not_found`; otherwise the first view holding the key is used,
      and the write succeeds exactly when that key grants write access. An
      exception there is final: the 32-bit view is never tried after a refused
      64-bit key, even when it would accept the write. */
  lemma OutcomeMeaning(h: Hive, path: string)
    ensures Outcome(h, path) == match FirstPresentView(h, path)
      case None => PathNotFound
      case Some(view) => if h[(view, path)].access == ReadWrite then Modified(view) else WriteFailed(view)
  {
    var attempts := ViewAttempts(h, path);
    assert attempts[0] == TryView(h, Registry64, path);
    assert attempts[1] == TryView(h, Registry32, path);
    if attempts[0].Some? {
      FirstSomeStop(attempts, 0);
    } else {
      FirstSomeSkip(attempts, 0);
      if attempts[1].Some? {
        FirstSomeStop(attempts, 1);
      } else {
        FirstSomeSkip(attempts, 1);
      }
    }
  }

  /** Writing values never changes which keys exist or their access, so the
      outcome for a path is the same on any hive of the same shape. */
  lemma OutcomeSameShape(h1: Hive, h2: Hive, path: string)
    requires SameShape(h1, h2)
    ensures Outcome(h1, path) == Outcome(h2, path)
  {
    OutcomeMeaning(h1, path);
    OutcomeMeaning(h2, path);
  }

  /** The effect of one version's outcome: `SetValue("ULangID", id)` on the key
      that was opened, nothing otherwise. */
  function ApplyOutcome(h: Hive, path: string, id: Int32, outcome: RegOutcome): Hive {
    match outcome
    case Modified(view) =>
      if (view, path) in h then h[(view, path) := WithLangId(h[(view, path)], id)] else h
    case _ => h
  }

  /** The outcome of every version, the versions written (the returned
      list), and the hive afterwards. */
  datatype MutationRun = MutationRun(outcomes: seq<RegOutcome>, succeeded: seq<InstalledVersion>, hive: Hive)

  /** `ModifyRegistry`: the versions in order, each against the hive as the
      earlier ones left it. */
  function ModifyRegistry(h: Hive, versions: seq<InstalledVersion>, id: Int32): MutationRun
    decreases |versions|
  {
    if |versions| == 0 then MutationRun([], [], h)
    else
      var prev := ModifyRegistry(h, versions[..|versions| - 1], id);
      var v := versions[|versions| - 1];
      var o := Outcome(prev.hive, v.fullPath);
      MutationRun(
        prev.outcomes + [o],
        if o.Modified? then prev.succeeded + [v] else prev.succeeded,
        ApplyOutcome(prev.hive, v.fullPath, id, o))
  }

  /** Positions of the successful outcomes, in increasing order. */
  function ModifiedPositions(outcomes: seq<RegOutcome>): (r: seq<int>)
    ensures forall k :: 0 <= k < |r| ==> 0 <= r[k] < |outcomes| && outcomes[r[k]].Modified?
    ensures forall k, l :: 0 <= k < l < |r| ==> r[k] < r[l]
    decreases |outcomes|
  {
    if |outcomes| == 0 then []
    else
      var init := outcomes[..|outcomes| - 1];
      var prev := ModifiedPositions(init);
      assert forall i :: 0 <= i < |init| ==> init[i] == outcomes[i];
      if outcomes[|outcomes| - 1].Modified? then prev + [|outcomes| - 1] else prev
  }

  /** No successful outcome is missing from the positions. */
  lemma {:induction false} ModifiedPositionsComplete(outcomes: seq<RegOutcome>, i: int)
    requires 0 <= i < |outcomes| && outcomes[i].Modified?
    ensures i in ModifiedPositions(outcomes)
    decreases |outcomes|
  {
    var init := outcomes[..|outcomes| - 1];
    if i < |init| {
      assert init[i] == outcomes[i];
      ModifiedPositionsComplete(init, i);
    }
  }

  /** The key at `loc` was written by some version. */
  predicate WrittenAt(versions: seq<InstalledVersion>, outcomes: seq<RegOutcome>, loc: (View, string))
    requires |outcomes| == |versions|
  {
    exists i :: 0 <= i < |versions| && outcomes[i] == Modified(loc.0) && versions[i].fullPath == loc.1
  }

  /** Applying one outcome touches at most the key it names, keeps every
      key and access right, and sets `ULangID` there. */
  lemma ApplyOutcomeEffect(h: Hive, path: string, id: Int32, outcome: RegOutcome)
    ensures SameShape(ApplyOutcome(h, path, id, outcome), h)
    ensures forall loc :: loc in h ==>
      ApplyOutcome(h, path, id, outcome)[loc] ==
        if outcome == Modified(loc.0) && path == loc.1 then WithLangId(h[loc], id) else h[loc]
  {
  }

  /** Appending one version to the run adds one candidate for `WrittenAt`. */
  lemma WrittenAtSnoc(versions: seq<InstalledVersion>, outcomes: seq<RegOutcome>,
                      v: InstalledVersion, o: RegOutcome, loc: (View, string))
    requires |outcomes| == |versions|
    ensures WrittenAt(versions + [v], outcomes + [o], loc) <==>
      WrittenAt(versions, outcomes, loc) || (o == Modified(loc.0) && v.fullPath == loc.1)
  {
    var vs := versions + [v];
    var os := outcomes + [o];
    if WrittenAt(versions, outcomes, loc) {
      var i :| 0 <= i < |versions| && outcomes[i] == Modified(loc.0) && versions[i].fullPath == loc.1;
      assert vs[i] == versions[i] && os[i] == outcomes[i];
    }
    if o == Modified(loc.0) && v.fullPath == loc.1 {
      assert vs[|versions|] == v && os[|versions|] == o;
    }
    if WrittenAt(vs, os, loc) {
      var i :| 0 <= i < |vs| && os[i] == Modified(loc.0) && vs[i].fullPath == loc.1;
      if i < |versions| {
        assert vs[i] == versions[i] && os[i] == outcomes[i];
      }
    }
  }

  /** Every version gets exactly one outcome, and that outcome depends only
      on the original hive and the version's own path: no version's write
      changes another version's result. Writing never adds, removes or
      re-permissions a key. */
  lemma {:induction false} ModifyRegistryIndependent(h: Hive, versions: seq<InstalledVersion>, id: Int32)
    ensures |ModifyRegistry(h, versions, id).outcomes| == |versions|
    ensures forall i :: 0 <= i < |versions| ==>
      ModifyRegistry(h, versions, id).outcomes[i] == Outcome(h, versions[i].fullPath)
    ensures SameShape(ModifyRegistry(h, versions, id).hive, h)
    decreases |versions|
  {
    if |versions| > 0 {
      var init := versions[..|versions| - 1];
      ModifyRegistryIndependent(h, init, id);
      var prev := ModifyRegistry(h, init, id);
      var v := versions[|versions| - 1];
      var o := Outcome(prev.hive, v.fullPath);
      OutcomeSameShape(prev.hive, h, v.fullPath);
      ApplyOutcomeEffect(prev.hive, v.fullPath, id, o);
      var run := ModifyRegistry(h, versions, id);
      assert run.outcomes == prev.outcomes + [o];
      assert run.hive == ApplyOutcome(prev.hive, v.fullPath, id, o);
      forall i | 0 <= i < |versions|
        ensures run.outcomes[i] == Outcome(h, versions[i].fullPath)
      {
        if i < |init| {
          assert init[i] == versions[i];
        }
      }
    }
  }

  /** The returned list is exactly the versions whose outcome is a success,
      in input order. */
  lemma {:induction false} ModifyRegistrySucceeded(h: Hive, versions: seq<InstalledVersion>, id: Int32)
    ensures var run := ModifyRegistry(h, versions, id);
      |run.outcomes| == |versions| &&
      |run.succeeded| == |ModifiedPositions(run.outcomes)| &&
      forall k :: 0 <= k < |run.succeeded| ==> run.succeeded[k] == versions[ModifiedPositions(run.outcomes)[k]]
    decreases |versions|
  {
    ModifyRegistryIndependent(h, versions, id);
    if |versions| > 0 {
      var init := versions[..|versions| - 1];
      ModifyRegistrySucceeded(h, init, id);
      var prev := ModifyRegistry(h, init, id);
      var run := ModifyRegistry(h, versions, id);
      var o := run.outcomes[|versions| - 1];
      assert run.outcomes == prev.outcomes + [o];
      assert run.outcomes[..|run.outcomes| - 1] == prev.outcomes;
      var pos := ModifiedPositions(run.outcomes);
      var prevPos := ModifiedPositions(prev.outcomes);
      assert pos == if o.Modified? then prevPos + [|versions| - 1] else prevPos;
      assert run.succeeded == if o.Modified? then prev.succeeded + [versions[|versions| - 1]] else prev.succeeded;
      forall k | 0 <= k < |run.succeeded|
        ensures run.succeeded[k] == versions[pos[k]]
      {
        if k < |prev.succeeded| {
          assert run.succeeded[k] == prev.succeeded[k] == init[prevPos[k]];
          assert pos[k] == prevPos[k];
        }
      }
    }
  }

  /** The only change to the hive: each key that some version wrote (in the
      view its outcome names, at its `FullPath`) now holds `ULangID` = `id`,
      with its other values kept; every other key is exactly as before. */
  lemma {:induction false} ModifyRegistryEffect(h: Hive, versions: seq<InstalledVersion>, id: Int32)
    ensures var run := ModifyRegistry(h, versions, id);
      |run.outcomes| == |versions| &&
      run.hive.Keys == h.Keys &&
      forall loc :: loc in h ==>
        run.hive[loc] == if WrittenAt(versions, run.outcomes, loc) then WithLangId(h[loc], id) else h[loc]
    decreases |versions|
  {
    ModifyRegistryIndependent(h, versions, id);
    if |versions| > 0 {
      var init := versions[..|versions| - 1];
      ModifyRegistryEffect(h, init, id);
      var prev := ModifyRegistry(h, init, id);
      var v := versions[|versions| - 1];
      var o := Outcome(prev.hive, v.fullPath);
      ApplyOutcomeEffect(prev.hive, v.fullPath, id, o);
      var run := ModifyRegistry(h, versions, id);
      assert run.outcomes == prev.outcomes + [o];
      assert run.hive == ApplyOutcome(prev.hive, v.fullPath, id, o);
      assert versions == init + [v];
      forall loc | loc in h
        ensures run.hive[loc] ==
          if WrittenAt(versions, run.outcomes, loc) then WithLangId(h[loc], id) else h[loc]
      {
        WrittenAtSnoc(init, prev.outcomes, v, o, loc);
      }
    }
  }

  /** After the run, the backup's reading of every written version yields
      the new id: the view that was written is the first one whose key
      exists, and that key may be read. */
  lemma ModifiedVersionReadsBack(h: Hive, versions: seq<InstalledVersion>, id: Int32, i: int)
    requires 0 <= i < |versions|
    requires Outcome(h, versions[i].fullPath).Modified?
    ensures var view := Outcome(h, versions[i].fullPath).view;
      var hive := ModifyRegistry(h, versions, id).hive;
      (view, versions[i].fullPath) in hive &&
      DWordValue(hive[(view, versions[i].fullPath)], LangValueName) == Some(id)
  {
    var path := versions[i].fullPath;
    var view := Outcome(h, path).view;
    OutcomeMeaning(h, path);
    ModifyRegistryIndependent(h, versions, id);
    ModifyRegistryEffect(h, versions, id);
    var run := ModifyRegistry(h, versions, id);
    assert WrittenAt(versions, run.outcomes, (view, path));
  }

  /** A version is in the returned list exactly when it is one of the inputs
      and its write succeeded. */
  lemma SucceededMembership(h: Hive, versions: seq<InstalledVersion>, id: Int32, v: InstalledVersion)
    ensures v in ModifyRegistry(h, versions, id).succeeded <==> v in versions && Outcome(h, v.fullPath).Modified?
  {
    var run := ModifyRegistry(h, versions, id);
    ModifyRegistryIndependent(h, versions, id);
    ModifyRegistrySucceeded(h, versions, id);
    var pos := ModifiedPositions(run.outcomes);
    if v in run.succeeded {
      var k :| 0 <= k < |run.succeeded| && run.succeeded[k] == v;
      assert run.outcomes[pos[k]].Modified?;
    }
    if v in versions && Outcome(h, v.fullPath).Modified? {
      var i :| 0 <= i < |versions| && versions[i] == v;
      ModifiedPositionsComplete(run.outcomes, i);
      var k :| 0 <= k < |pos| && pos[k] == i;
      assert run.succeeded[k] == v;
    }
  }
}
