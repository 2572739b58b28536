/** The page-rotation state machine of src/lib.rs: a table from the
    second of the minute (modulo one full cycle) to the page shown. */
module Rotation {
  import opened Wrappers

  const U32Max: nat := 0xFFFF_FFFF

  /** `STATE_COUNT`: the number of pages the displays rotate through. */
  const StateCount: nat := 3

  /** The table `StateMachine::new` is meant to build: every second of one
      cycle of `duration * count` seconds maps to the page it falls in, so
      the lookup in `current_state` always finds a key, and every page it
      finds is a valid page index. */
  function Table(duration: nat, count: nat): (r: map<nat, nat>)
    ensures forall i: nat :: i in r <==> i < duration * count
    ensures forall i :: i in r ==> r[i] < count
  {
    var m := map i: nat | i < duration * count :: i / duration;
    assert forall i :: i in m ==> m[i] < count by {
      forall i | i in m
        ensures m[i] < count
      {
        PageBelowCount(i, duration, count);
      }
    }
    m
  }

  lemma PageBelowCount(i: nat, duration: nat, count: nat)
    requires i < duration * count
    ensures duration > 0 && i / duration < count
  {
  }

  /** Stepping from second `i` to `i + 1` moves to the next page exactly
      when `i + 1` is a multiple of the duration. */
  lemma DivStep(i: nat, d: nat)
    requires d > 0
    ensures (i + 1) / d == if (i + 1) % d == 0 then i / d + 1 else i / d
  {
    var q, r := i / d, i % d;
    assert i == q * d + r && 0 <= r < d;
    if r + 1 < d {
      assert i + 1 == q * d + (r + 1);
      DivUnique(i + 1, d, q, r + 1);
    } else {
      assert i + 1 == (q + 1) * d + 0;
      DivUnique(i + 1, d, q + 1, 0);
    }
  }

  lemma DivUnique(n: nat, d: nat, q: nat, r: nat)
    requires d > 0 && r < d && n == q * d + r
    ensures n / d == q && n % d == r
  {
    var q', r' := n / d, n % d;
    assert q' * d + r' == q * d + r;
    if q' > q {
      MulGrows(q' - q, d);
    } else if q' < q {
      MulGrows(q - q', d);
    }
  }

  lemma MulGrows(k: nat, d: nat)
    requires k >= 1
    ensures k * d >= d
  {
  }

  /** Only `StateMachine::new` sets the fields; nothing changes them
      afterwards. */
  class StateMachine {
    const stateMap: map<nat, nat>
    const stateCount: nat
    const stateDurationSecs: nat

    ghost predicate Valid()
    {
      stateMap == Table(stateDurationSecs, stateCount)
    }

    /** `StateMachine::new`: fills the table in a loop, bumping the page
        counter after each full `state_duration_secs` seconds. The product
        must fit a `u32`, as the source's `u32` arithmetic requires. */
    constructor (stateCount: nat, stateDurationSecs: nat)
      requires stateDurationSecs * stateCount <= U32Max
      ensures Valid()
      ensures this.stateCount == stateCount && this.stateDurationSecs == stateDurationSecs
    {
      var m: map<nat, nat> := map[];
      var currentBuildState: nat := 0;
      var i: nat := 0;
      while i < stateDurationSecs * stateCount
        invariant i <= stateDurationSecs * stateCount
        invariant stateDurationSecs > 0 ==> currentBuildState == i / stateDurationSecs
        invariant m == map j | 0 <= j < i :: j / stateDurationSecs
      {
        m := m[i := currentBuildState];
        if (i + 1) % stateDurationSecs == 0 {
          currentBuildState := currentBuildState + 1;
        }
        DivStep(i, stateDurationSecs);
        i := i + 1;
      }
      this.stateMap := m;
      this.stateCount := stateCount;
      this.stateDurationSecs := stateDurationSecs;
    }

    /** `current_state` for the given second of the minute. `None` stands
        for the two panics: a `% 0` when the cycle is empty, and the
        `unwrap()` of a missing key, which never happens. */
    function CurrentState(second: nat): (r: Option<nat>)
      requires Valid()
      ensures r.Some? <==> stateDurationSecs > 0 && stateCount > 0
      ensures r.Some? ==> r.value < stateCount
      ensures r.Some? ==> r.value == (second % (stateDurationSecs * stateCount)) / stateDurationSecs
    {
      var cycle := stateDurationSecs * stateCount;
      if cycle == 0 then None
      else
        var secondMod := second % cycle;
        if secondMod in stateMap then Some(stateMap[secondMod]) else None
    }
  }

  /** The page index repeats with the cycle length `duration * count`, for
      any second counter. The source passes the second of the minute, so
      the repetition holds between two seconds of the same minute; at each
      new minute the count restarts from page 0 (see
      `RotationSkipsAtMinuteWrap`). */
  lemma CurrentStatePeriodic(sm: StateMachine, second: nat)
    requires sm.Valid()
    ensures sm.CurrentState(second + sm.stateDurationSecs * sm.stateCount) == sm.CurrentState(second)
  {
    var cycle := sm.stateDurationSecs * sm.stateCount;
    if cycle > 0 {
      ModPeriodic(second, cycle);
    }
  }

  lemma ModPeriodic(n: nat, k: nat)
    requires k > 0
    ensures (n + k) % k == n % k
  {
    DivUnique(n + k, k, n / k + 1, n % k);
  }

  /** With three pages of three seconds each: seconds 0-2 show page 0,
      3-5 page 1, 6-8 page 2, and second 9 starts over at page 0. */
  lemma RotationOfThreeByThree(sm: StateMachine)
    requires sm.Valid() && sm.stateCount == StateCount && sm.stateDurationSecs == 3
    ensures forall s :: 0 <= s < 3 ==> sm.CurrentState(s) == Some(0)
    ensures forall s :: 3 <= s < 6 ==> sm.CurrentState(s) == Some(1)
    ensures forall s :: 6 <= s < 9 ==> sm.CurrentState(s) == Some(2)
    ensures sm.CurrentState(9) == Some(0)
  {
  }

  /** The second of the minute wraps at 60 while the cycle need not divide
      60: with three pages of three seconds, seconds 57-59 show page 1 and
      the next second, 0, shows page 0, so page 2 is skipped once a
      minute. */
  lemma RotationSkipsAtMinuteWrap(sm: StateMachine)
    requires sm.Valid() && sm.stateCount == StateCount && sm.stateDurationSecs == 3
    ensures forall s :: 57 <= s < 60 ==> sm.CurrentState(s) == Some(1)
    ensures sm.CurrentState(0) == Some(0)
  {
  }
}
