/** The input handler's debounce: every call cancels the pending timer and
    schedules a new one `wait` milliseconds later; when a timer comes due, the
    wrapped function runs once with the arguments of the call that scheduled
    it. Time is a parameter: `at` is the clock reading in milliseconds. */
module Debounce {

  /** The pending `setTimeout`, if any: when it is due and what it will pass. */
  datatype Timer<A> = Idle | Scheduled(due: int, args: A)

  /** What happens to the debounced function: it is called, or the clock
      reaches a time at which pending timers may run. Traces are not
      constrained: clock readings need not increase, and a call after a
      timer's due time with no clock event between replaces that timer
      without running it. */
  datatype Event<A> = Called(at: int, args: A) | ClockAt(at: int)

  /** The pending timer, and the arguments of every run of the wrapped
      function so far, oldest first. */
  datatype Snapshot<A> = Snapshot(timer: Timer<A>, fired: seq<A>)

  /** One event. A call clears the timer and sets a new one; the clock running
      the timer at or after its due time runs the function. */
  function Step<A>(wait: nat, s: Snapshot<A>, e: Event<A>): Snapshot<A> {
    match e
    case Called(at, args) => Snapshot(Scheduled(at + wait, args), s.fired)
    case ClockAt(at) =>
      if s.timer.Scheduled? && s.timer.due <= at then Snapshot(Idle, s.fired + [s.timer.args])
      else s
  }

  /** The events applied in order, oldest first. */
  function Run<A>(wait: nat, s: Snapshot<A>, events: seq<Event<A>>): Snapshot<A>
    decreases |events|
  {
    if events == [] then s
    else Step(wait, Run(wait, s, events[..|events| - 1]), events[|events| - 1])
  }

  /** The number of calls among the events. */
  function CallCount<A>(events: seq<Event<A>>): nat
    decreases |events|
  {
    if events == [] then 0
    else CallCount(events[..|events| - 1]) + (if events[|events| - 1].Called? then 1 else 0)
  }

  /** Every event is a call: no clock event comes between the calls, so no
      timer gets a chance to run, whatever their times. */
  predicate AllCalls<A>(events: seq<Event<A>>) {
    forall i :: 0 <= i < |events| ==> events[i].Called?
  }

  /** The function runs at most once per call: each run uses up a timer, and
      only a call sets one. */
  lemma {:induction false} AtMostOncePerCall<A>(wait: nat, s: Snapshot<A>, events: seq<Event<A>>)
    ensures var r := Run(wait, s, events);
      |r.fired| + (if r.timer.Scheduled? then 1 else 0)
      <= |s.fired| + (if s.timer.Scheduled? then 1 else 0) + CallCount(events)
    decreases |events|
  {
    if events != [] {
      AtMostOncePerCall(wait, s, events[..|events| - 1]);
    }
  }

  /** Earlier runs are never undone: the runs so far are a prefix of the runs
      after more events. */
  lemma {:induction false} FiredGrows<A>(wait: nat, s: Snapshot<A>, events: seq<Event<A>>)
    ensures s.fired <= Run(wait, s, events).fired
    decreases |events|
  {
    if events != [] {
      FiredGrows(wait, s, events[..|events| - 1]);
    }
  }

  /** A burst of calls runs nothing yet and leaves one timer, set by the last
      call, due `wait` after it. */
  lemma {:induction false} BurstSchedulesLast<A>(wait: nat, s: Snapshot<A>, events: seq<Event<A>>)
    requires events != [] && AllCalls(events)
    ensures var last := events[|events| - 1];
      Run(wait, s, events) == Snapshot(Scheduled(last.at + wait, last.args), s.fired)
    decreases |events|
  {
    if |events| > 1 {
      var front := events[..|events| - 1];
      assert AllCalls(front) by {
        forall i | 0 <= i < |front| ensures front[i].Called? {
          assert front[i] == events[i];
        }
      }
      BurstSchedulesLast(wait, s, front);
    }
  }

  /** Some call among the events passed `args`. */
  ghost predicate CalledWith<A>(events: seq<Event<A>>, args: A) {
    exists i :: 0 <= i < |events| && events[i] == Called(events[i].at, args)
  }

  /** Every argument list the function runs with, and the one a pending
      timer holds, was passed by some call: the debounce invents nothing. */
  ghost predicate FromCalls<A>(r: Snapshot<A>, events: seq<Event<A>>) {
    && (forall k :: 0 <= k < |r.fired| ==> CalledWith(events, r.fired[k]))
    && (r.timer.Scheduled? ==> CalledWith(events, r.timer.args))
  }

  lemma {:induction false} CalledWithExtend<A>(events: seq<Event<A>>, n: nat, args: A)
    requires n <= |events| && CalledWith(events[..n], args)
    ensures CalledWith(events, args)
  {
    var i :| 0 <= i < n && events[..n][i] == Called(events[..n][i].at, args);
    assert events[i] == events[..n][i];
  }

  lemma {:induction false} RunsOnlyCalledArgs<A>(wait: nat, events: seq<Event<A>>)
    ensures FromCalls(Run(wait, Snapshot(Idle, []), events), events)
    decreases |events|
  {
    if events != [] {
      var n := |events| - 1;
      RunsOnlyCalledArgs(wait, events[..n]);
      var p := Run(wait, Snapshot(Idle, []), events[..n]);
      var r := Run(wait, Snapshot(Idle, []), events);
      assert r == Step(wait, p, events[n]);
      forall k | 0 <= k < |p.fired|
        ensures CalledWith(events, p.fired[k])
      {
        CalledWithExtend(events, n, p.fired[k]);
      }
      if p.timer.Scheduled? {
        CalledWithExtend(events, n, p.timer.args);
      }
      if events[n].Called? {
        assert events[n] == Called(events[n].at, r.timer.args);
      } else if p.timer.Scheduled? && p.timer.due <= events[n].at {
        assert r.fired == p.fired + [p.timer.args];
        forall k | 0 <= k < |r.fired|
          ensures CalledWith(events, r.fired[k])
        {
          if k < |p.fired| {
            assert r.fired[k] == p.fired[k];
          }
        }
      }
    }
  }

  /** The clock reaching a time before the timer is due does nothing. */
  lemma {:induction false} EarlyClockNothing<A>(wait: nat, s: Snapshot<A>, at: int)
    requires s.timer.Scheduled? && at < s.timer.due
    ensures Step(wait, s, ClockAt(at)) == s
  {
  }

  /** Typing a burst and then pausing for `wait` runs the function exactly
      once, with the arguments of the last call. */
  lemma {:induction false} BurstThenPause<A>(wait: nat, events: seq<Event<A>>, at: int)
    requires events != [] && AllCalls(events)
    requires at >= events[|events| - 1].at + wait
    ensures Run(wait, Snapshot(Idle, []), events + [ClockAt(at)])
            == Snapshot(Idle, [events[|events| - 1].args])
  {
    var all := events + [ClockAt(at)];
    assert all[..|all| - 1] == events;
    BurstSchedulesLast(wait, Snapshot(Idle, []), events);
  }

  /** The debounced function with its pending timer; `fired` records the
      arguments of each run of the wrapped function. */
  class Debouncer<A> {
    const wait: nat
    var timer: Timer<A>
    var fired: seq<A>

    /** `debounce(func, wait)`: no timer is pending and nothing has run. */
    constructor (wait: nat)
      ensures this.wait == wait && timer == Idle && fired == []
    {
      this.wait := wait;
      timer := Idle;
      fired := [];
    }

    function State(): Snapshot<A>
      reads this
    {
      Snapshot(timer, fired)
    }

    /** `executedFunction(...args)` at time `now`: clearTimeout, then a new
        setTimeout. */
    method Call(now: int, args: A)
      modifies this
      ensures State() == Step(wait, old(State()), Called(now, args))
      ensures timer == Scheduled(now + wait, args) && fired == old(fired)
    {
      timer := Scheduled(now + wait, args);
    }

    /** The clock reaches `now`: a due timer runs `later`, which calls the
        wrapped function with the scheduled arguments. */
    method Tick(now: int)
      modifies this
      ensures State() == Step(wait, old(State()), ClockAt(now))
      ensures old(timer).Scheduled? && old(timer).due <= now ==> fired == old(fired) + [old(timer).args]
      ensures !(old(timer).Scheduled? && old(timer).due <= now) ==> fired == old(fired) && timer == old(timer)
    {
      if timer.Scheduled? && timer.due <= now {
        fired := fired + [timer.args];
        timer := Idle;
      }
    }
  }
}
