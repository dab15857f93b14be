/**
 A run of catch and release calls on one user. No transition is ever
 refused and no history is kept, so the state of a species after the run
 is decided by the last call that named it, or is unchanged when no call
 named it.
 */
module CaptureHistory {
  import opened UserRecord
  import opened Users

  /** One catch or release call, by 1-based catalog number. */
  datatype Mark = MarkCaught(number: int) | MarkUncaught(number: int)
  {
    /** The state this call writes. */
    function Target(): CapturedState {
      if MarkCaught? then Caught else Uncaught
    }
  }

  /** Every call in the run names a species of the catalog. */
  predicate ValidMarks(ms: seq<Mark>) {
    forall j :: 0 <= j < |ms| ==> IsCatalogNumber(ms[j].number)
  }

  /** Performs one call: its slot takes the call's state, every other slot is kept. */
  function Apply(u: User, m: Mark): (r: User)
    requires u.Valid() && IsCatalogNumber(m.number)
    ensures r.Valid() && r.SameIdentity(u)
    ensures StateOf(r, m.number) == m.Target()
    ensures forall n :: IsCatalogNumber(n) && n != m.number ==> StateOf(r, n) == StateOf(u, n)
  {
    match m
    case MarkCaught(n) => Catch(u, n)
    case MarkUncaught(n) => Uncatch(u, n)
  }

  /** Performs the calls of `ms`, first to last. */
  function Replay(u: User, ms: seq<Mark>): (r: User)
    requires u.Valid() && ValidMarks(ms)
    ensures r.Valid() && r.SameIdentity(u)
    decreases |ms|
  {
    if |ms| == 0 then u
    else Apply(Replay(u, ms[..|ms| - 1]), ms[|ms| - 1])
  }

  /** No call at position after `j` names species `n`. */
  ghost predicate UntouchedAfter(ms: seq<Mark>, j: int, n: int) {
    forall l :: 0 <= l < |ms| && j < l ==> ms[l].number != n
  }

  /** A species no call names keeps the state it had. */
  lemma {:induction false} ReplayUntouched(u: User, ms: seq<Mark>, n: int)
    requires u.Valid() && ValidMarks(ms) && IsCatalogNumber(n)
    requires UntouchedAfter(ms, -1, n)
    ensures StateOf(Replay(u, ms), n) == StateOf(u, n)
    decreases |ms|
  {
    if |ms| > 0 {
      var init := ms[..|ms| - 1];
      assert UntouchedAfter(init, -1, n) by {
        forall l | 0 <= l < |init| ensures init[l].number != n {
          assert init[l] == ms[l];
        }
      }
      ReplayUntouched(u, init, n);
      assert ms[|ms| - 1].number != n;
    }
  }

  /** The last call naming species `n` decides its state. */
  lemma {:induction false} ReplayLastWriteWins(u: User, ms: seq<Mark>, j: int, n: int)
    requires u.Valid() && ValidMarks(ms) && IsCatalogNumber(n)
    requires 0 <= j < |ms| && ms[j].number == n && UntouchedAfter(ms, j, n)
    ensures StateOf(Replay(u, ms), n) == ms[j].Target()
    decreases |ms|
  {
    var init := ms[..|ms| - 1];
    if j < |ms| - 1 {
      assert init[j] == ms[j];
      assert UntouchedAfter(init, j, n) by {
        forall l | 0 <= l < |init| && j < l ensures init[l].number != n {
          assert init[l] == ms[l];
        }
      }
      ReplayLastWriteWins(u, init, j, n);
      assert ms[|ms| - 1].number != n;
    }
  }

  /** Repeating a call right away has no further effect. */
  lemma ReplayRepeatIdempotent(u: User, ms: seq<Mark>, m: Mark)
    requires u.Valid() && ValidMarks(ms) && IsCatalogNumber(m.number)
    ensures Replay(u, ms + [m, m]) == Replay(u, ms + [m])
  {
    var v := Replay(u, ms);
    assert (ms + [m, m])[..|ms + [m, m]| - 1] == ms + [m];
    assert (ms + [m])[..|ms + [m]| - 1] == ms;
    match m
    case MarkCaught(n) => CatchIdempotent(v, n);
    case MarkUncaught(n) => UncatchIdempotent(v, n);
  }
}
