/** The control pattern shared by discovery, backup and the registry writer:
    try candidates in a fixed order and stop at the first one that yields a
    result. A candidate that yields `None` ("not found", or an exception the
    caller swallows) passes control to the next one. */
module FirstMatch {
  import opened Optional

  /** The first `Some` in `attempts`, or `None` when every attempt fails. */
  function FirstSome<T>(attempts: seq<Option<T>>): Option<T>
    decreases |attempts|
  {
    if |attempts| == 0 then None
    else if attempts[0].Some? then attempts[0]
    else FirstSome(attempts[1..])
  }

  /** The search fails exactly when every attempt fails, and otherwise
      returns the attempt that is the first to succeed. */
  lemma {:induction false} FirstSomeSpec<T>(attempts: seq<Option<T>>)
    ensures FirstSome(attempts).None? <==> forall i :: 0 <= i < |attempts| ==> attempts[i].None?
    ensures FirstSome(attempts).Some? ==>
      exists i :: IsFirstSome(attempts, i) && attempts[i] == FirstSome(attempts)
    decreases |attempts|
  {
    if |attempts| > 0 {
      if attempts[0].Some? {
        assert IsFirstSome(attempts, 0);
      } else {
        var rest := attempts[1..];
        FirstSomeSpec(rest);
        assert forall i :: 0 <= i < |rest| ==> rest[i] == attempts[i + 1];
        if FirstSome(rest).Some? {
          var i :| IsFirstSome(rest, i) && rest[i] == FirstSome(rest);
          assert IsFirstSome(attempts, i + 1);
        }
      }
    }
  }

  /** Attempt `i` succeeds and every earlier one fails. */
  predicate IsFirstSome<T>(attempts: seq<Option<T>>, i: int) {
    && 0 <= i < |attempts|
    && attempts[i].Some?
    && forall j :: 0 <= j < i ==> attempts[j].None?
  }

  /** The first success is unique: whichever index is first, it is the one
      `FirstSome` returns. */
  lemma FirstSomeAt<T>(attempts: seq<Option<T>>, i: int)
    requires IsFirstSome(attempts, i)
    ensures FirstSome(attempts) == attempts[i]
  {
    FirstSomeSpec(attempts);
    var k :| IsFirstSome(attempts, k) && attempts[k] == FirstSome(attempts);
    assert k == i;
  }

  /** Skipping a failed attempt does not change the outcome of the search from
      that point on. */
  lemma FirstSomeSkip<T>(attempts: seq<Option<T>>, k: int)
    requires 0 <= k < |attempts| && attempts[k].None?
    ensures FirstSome(attempts[k..]) == FirstSome(attempts[k + 1..])
  {
    assert attempts[k..][0] == attempts[k];
    assert attempts[k..][1..] == attempts[k + 1..];
  }

  /** A successful attempt ends the search from that point on. */
  lemma FirstSomeStop<T>(attempts: seq<Option<T>>, k: int)
    requires 0 <= k < |attempts| && attempts[k].Some?
    ensures FirstSome(attempts[k..]) == attempts[k]
  {
    assert attempts[k..][0] == attempts[k];
  }
}
