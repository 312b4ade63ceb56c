/** The helper `stop`: its first call remembers the (second, minute) it is given, and from then on it
    answers 1 exactly for the same second one minute later. Minutes do not wrap at 60. */
module StopClock {

  /** The value both statics start with, meaning "not seeded yet". */
  const UNSET: int := -1

  /** The statics `sec` and `min`. */
  datatype Seed = Seed(sec: int, min: int)

  const UNSEEDED := Seed(UNSET, UNSET)

  /** One call of `stop` on the timestamp (tsec, tmin): the statics afterwards and the answer. */
  function StopStep(s: Seed, tsec: int, tmin: int): (r: (Seed, int))
    ensures r.1 == 0 || r.1 == 1
    ensures s == UNSEEDED ==> r.0 == Seed(tsec, tmin)
    ensures s != UNSEEDED ==> r.0 == s
    ensures r.1 == 1 <==> tsec == r.0.sec && tmin == r.0.min + 1
  {
    var t := if s == UNSEEDED then Seed(tsec, tmin) else s;
    (t, if tsec == t.sec && tmin == t.min + 1 then 1 else 0)
  }

  /** A sequence of calls, oldest first: the statics afterwards and the answers, in order. */
  function StopRun(s: Seed, calls: seq<(int, int)>): (r: (Seed, seq<int>))
    ensures |r.1| == |calls|
    decreases |calls|
  {
    if calls == [] then (s, [])
    else
      var prev := StopRun(s, calls[..|calls| - 1]);
      var step := StopStep(prev.0, calls[|calls| - 1].0, calls[|calls| - 1].1);
      (step.0, prev.1 + [step.1])
  }

  /** The call that seeds the statics never answers 1. */
  lemma SeedingCallAnswersZero(tsec: int, tmin: int)
    ensures StopStep(UNSEEDED, tsec, tmin) == (Seed(tsec, tmin), 0)
  {
  }

  /** After a first call at (s, m) with real clock values, the statics keep (s, m) for good and every
      later call answers 1 exactly at second s of minute m + 1. */
  lemma {:induction false} SeededForGood(first: (int, int), calls: seq<(int, int)>)
    requires 0 <= first.0 && 0 <= first.1
    ensures StopRun(UNSEEDED, [first] + calls).0 == Seed(first.0, first.1)
    ensures forall i :: 0 < i < |[first] + calls| ==>
              (StopRun(UNSEEDED, [first] + calls).1[i] == 1
               <==> ([first] + calls)[i].0 == first.0 && ([first] + calls)[i].1 == first.1 + 1)
    decreases |calls|
  {
    var all := [first] + calls;
    if calls == [] {
      assert all == [first];
      assert all[..0] == [];
    } else {
      var init := calls[..|calls| - 1];
      SeededForGood(first, init);
      assert all[..|all| - 1] == [first] + init;
      var prev := StopRun(UNSEEDED, [first] + init);
      var r := StopRun(UNSEEDED, all);
      assert r.1 == prev.1 + [StopStep(prev.0, all[|all| - 1].0, all[|all| - 1].1).1];
      forall i | 0 < i < |all|
        ensures r.1[i] == 1 <==> all[i].0 == first.0 && all[i].1 == first.1 + 1
      {
        if i < |all| - 1 {
          assert r.1[i] == prev.1[i];
          assert all[i] == ([first] + init)[i];
        }
      }
    }
  }

  /** Seeded during minute 59, `stop` never answers 1 for a timestamp with a minute between 0 and 59:
      the minute it waits for is 60. */
  lemma NeverAfterMinute59(sec: int, tsec: int, tmin: int)
    requires 0 <= tmin <= 59
    ensures StopStep(Seed(sec, 59), tsec, tmin).1 == 0
  {
  }

  /** `stop` with its two statics. */
  class Clock {
    var sec: int
    var min: int

    function State(): Seed
      reads this
    {
      Seed(sec, min)
    }

    constructor ()
      ensures State() == UNSEEDED
    {
      sec, min := UNSET, UNSET;
    }

    method Stop(tsec: int, tmin: int) returns (r: int)
      modifies this
      ensures (State(), r) == StopStep(old(State()), tsec, tmin)
    {
      if sec == UNSET && min == UNSET {
        min := tmin;
        sec := tsec;
      }
      if tsec == sec && tmin == min + 1 {
        return 1;
      } else {
        return 0;
      }
    }
  }
}
