/**
 * The frame-paced clock `LimitedClock` of src/util/misc.ts.
 *
 * The class keeps a `limit` and the time `lastTime` of its last frame wait.
 * `sync` compares the time elapsed since `lastTime` with `limit`: when at
 * least `limit` has passed it waits for one animation frame and records the
 * time read after the frame; otherwise it returns at once and changes nothing.
 * Clock readings (`performance.now()`) are passed in: `now` is the reading at
 * the call, `resume` the reading after the frame wait (only used when `sync`
 * waits).
 */
module Pacing {

  /** The clock readings of one `sync` call: at the call, and after the frame wait. */
  datatype Reading = Reading(now: int, resume: int)

  /** The two fields of a `LimitedClock`, as a value. */
  datatype ClockState = ClockState(limit: int, lastTime: int)

  /** The constructor's state: the given limit, and the clock reading at construction. */
  function Init(limit: int, now: int): ClockState {
    ClockState(limit, now)
  }

  /** The decision of `sync`: wait for a frame when at least `limit` has elapsed since `lastTime`. */
  predicate ShouldWait(st: ClockState, now: int) {
    now - st.lastTime >= st.limit
  }

  /** The state after one `sync` call. */
  function Step(st: ClockState, r: Reading): ClockState {
    if ShouldWait(st, r.now) then st.(lastTime := r.resume) else st
  }

  /** The clock does not run backwards across the frame wait. */
  predicate WellFormed(r: Reading) {
    r.now <= r.resume
  }

  /** The states after each call of a sequence of `sync` calls. */
  function States(st: ClockState, calls: seq<Reading>): (r: seq<ClockState>)
    ensures |r| == |calls|
    decreases |calls|
  {
    if calls == [] then [] else [Step(st, calls[0])] + States(Step(st, calls[0]), calls[1..])
  }

  /** The resume times of the calls that waited for a frame, in order. */
  function WaitTimes(st: ClockState, calls: seq<Reading>): seq<int>
    decreases |calls|
  {
    if calls == [] then []
    else
      (if ShouldWait(st, calls[0].now) then [calls[0].resume] else [])
      + WaitTimes(Step(st, calls[0]), calls[1..])
  }

  /** A clock that never runs backwards: `t`, then every call's `now` and `resume` in order. */
  predicate MonotoneFrom(t: int, calls: seq<Reading>)
    decreases |calls|
  {
    calls == [] || (t <= calls[0].now <= calls[0].resume && MonotoneFrom(calls[0].resume, calls[1..]))
  }

  /** Each wait time is at least `gap` after the one before it, the first at least `gap` after `from`. */
  predicate SpacedBy(from: int, w: seq<int>, gap: int) {
    && (|w| > 0 ==> w[0] - from >= gap)
    && forall k :: 0 < k < |w| ==> w[k] - w[k - 1] >= gap
  }

  class LimitedClock {
    var limit: int
    var lastTime: int

    /** The fields as a value. */
    function State(): ClockState
      reads this
    {
      ClockState(limit, lastTime)
    }

    /** `new LimitedClock(limit)`, with `now` the clock reading at construction. */
    constructor (limit: int, now: int)
      ensures this.limit == limit && lastTime == now
      ensures State() == Init(limit, now)
    {
      this.limit := limit;
      lastTime := now;
    }

    /**
     * `sync()`. `waited` tells whether the call waited for a frame. `resume`
     * is the clock reading after that frame.
     */
    method Sync(now: int, resume: int) returns (waited: bool)
      requires now <= resume
      modifies this
      ensures waited <==> now - old(lastTime) >= old(limit)
      ensures limit == old(limit)
      ensures lastTime == if waited then resume else old(lastTime)
      ensures waited ==> lastTime >= old(lastTime) + limit
      ensures State() == Step(old(State()), Reading(now, resume))
    {
      var diff := now - lastTime;
      waited := diff >= limit;
      if waited {
        lastTime := resume;
      }
    }
  }

  /** One call: `limit` is kept; with a monotone clock `lastTime` does not go back. */
  lemma StepKeepsLimitAndOrder(st: ClockState, r: Reading)
    requires st.lastTime <= r.now <= r.resume
    ensures Step(st, r).limit == st.limit
    ensures st.lastTime <= Step(st, r).lastTime <= r.resume
  {
  }

  /** Starting the clock later than `t` keeps it monotone. */
  lemma MonotoneFromEarlier(t: int, u: int, calls: seq<Reading>)
    requires t <= u && MonotoneFrom(u, calls)
    ensures MonotoneFrom(t, calls)
  {
  }

  /** Across any sequence of calls, `limit` never changes. */
  lemma {:induction false} LimitNeverChanges(st: ClockState, calls: seq<Reading>)
    ensures forall i :: 0 <= i < |calls| ==> States(st, calls)[i].limit == st.limit
    decreases |calls|
  {
    if calls != [] {
      var next := Step(st, calls[0]);
      LimitNeverChanges(next, calls[1..]);
      assert States(st, calls) == [next] + States(next, calls[1..]);
    }
  }

  /** With a clock that never runs backwards, `lastTime` never decreases across calls. */
  lemma {:induction false} LastTimeNeverDecreases(st: ClockState, calls: seq<Reading>)
    requires MonotoneFrom(st.lastTime, calls)
    ensures forall i :: 0 <= i < |calls| ==> st.lastTime <= States(st, calls)[i].lastTime
    ensures forall i, j :: 0 <= i <= j < |calls| ==>
      States(st, calls)[i].lastTime <= States(st, calls)[j].lastTime
    decreases |calls|
  {
    if calls != [] {
      var next := Step(st, calls[0]);
      StepKeepsLimitAndOrder(st, calls[0]);
      MonotoneFromEarlier(next.lastTime, calls[0].resume, calls[1..]);
      LastTimeNeverDecreases(next, calls[1..]);
      var all := States(st, calls);
      assert all == [next] + States(next, calls[1..]);
      forall i, j | 0 <= i <= j < |calls|
        ensures all[i].lastTime <= all[j].lastTime
      {
        if 0 < i {
          assert all[i] == States(next, calls[1..])[i - 1];
          assert all[j] == States(next, calls[1..])[j - 1];
        } else if 0 < j {
          assert all[j] == States(next, calls[1..])[j - 1];
        }
      }
    }
  }

  /**
   * For calls made one after another (each `sync` finished before the next
   * starts), two frame waits are at least `limit` apart: each wait resumes at
   * least `limit` after the previous one (the first at least `limit` after the
   * initial `lastTime`). Overlapping calls can both wait on the same frame.
   */
  lemma {:induction false} WaitsAreSpaced(st: ClockState, calls: seq<Reading>)
    requires forall i :: 0 <= i < |calls| ==> WellFormed(calls[i])
    ensures SpacedBy(st.lastTime, WaitTimes(st, calls), st.limit)
    decreases |calls|
  {
    if calls != [] {
      var next := Step(st, calls[0]);
      WaitsAreSpaced(next, calls[1..]);
      var rest := WaitTimes(next, calls[1..]);
      assert next.limit == st.limit;
      assert SpacedBy(next.lastTime, rest, next.limit);
      if ShouldWait(st, calls[0].now) {
        assert WellFormed(calls[0]);
        var w := [calls[0].resume] + rest;
        assert WaitTimes(st, calls) == w;
        forall k | 0 < k < |w|
          ensures w[k] - w[k - 1] >= st.limit
        {
          assert w[k] == rest[k - 1];
          if k > 1 {
            assert w[k - 1] == rest[k - 2];
          }
        }
      } else {
        assert next == st && WaitTimes(st, calls) == rest;
      }
    }
  }

  /** After all calls, `lastTime` is the resume time of the last wait, or the initial one if none waited. */
  lemma {:induction false} LastTimeIsLastWait(st: ClockState, calls: seq<Reading>)
    requires calls != []
    ensures var w := WaitTimes(st, calls);
      States(st, calls)[|calls| - 1].lastTime == if w == [] then st.lastTime else w[|w| - 1]
    decreases |calls|
  {
    var next := Step(st, calls[0]);
    assert States(st, calls) == [next] + States(next, calls[1..]);
    if |calls| > 1 {
      LastTimeIsLastWait(next, calls[1..]);
    }
  }

  /** Calls made while less than `limit` has passed since `lastTime` never wait and change nothing. */
  lemma {:induction false} QuickCallsNeverWait(st: ClockState, calls: seq<Reading>)
    requires forall i :: 0 <= i < |calls| ==> calls[i].now - st.lastTime < st.limit
    ensures WaitTimes(st, calls) == []
    ensures forall i :: 0 <= i < |calls| ==> States(st, calls)[i] == st
    decreases |calls|
  {
    if calls != [] {
      assert Step(st, calls[0]) == st;
      QuickCallsNeverWait(st, calls[1..]);
      assert States(st, calls) == [st] + States(st, calls[1..]);
    }
  }

  /** A call that did not wait leaves the state as it was, so repeating it at the same time decides the same. */
  lemma RepeatDecidesAlike(st: ClockState, now: int, resume: int, resume': int)
    requires !ShouldWait(st, now)
    ensures Step(st, Reading(now, resume)) == st
    ensures !ShouldWait(Step(st, Reading(now, resume)), now)
    ensures Step(Step(st, Reading(now, resume)), Reading(now, resume')) == st
  {
  }

  /** With a positive limit, a call within `limit` of the last frame wait does not wait again. */
  lemma NoWaitRightAfterWait(st: ClockState, now: int, resume: int, later: int)
    requires ShouldWait(st, now) && now <= resume
    requires resume <= later < resume + st.limit
    ensures !ShouldWait(Step(st, Reading(now, resume)), later)
  {
  }

  /**
   * With limit 250 built at `t0`: a call at `t0 + 10` returns at once and a
   * call at `t0 + 300` waits and records the resume time.
   */
  method Scenario(t0: int, resume: int) returns (first: bool, second: bool, last: int)
    requires t0 + 300 <= resume
    ensures !first && second && last == resume
  {
    var clock := new LimitedClock(250, t0);
    first := clock.Sync(t0 + 10, t0 + 10);
    second := clock.Sync(t0 + 300, resume);
    last := clock.lastTime;
  }
}
