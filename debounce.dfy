/**
  The `debounce(wait)` decorator: each decorated function keeps one timer;
  every call of the wrapper cancels that timer and arms a fresh one that
  runs the function `wait` seconds later with the call's arguments. Time is
  a logical clock in whole ticks; the timer thread is the `Advance` step that
  fires a timer whose deadline has come.
*/
module Debounce {
  import opened Wrappers

  /** One call of the wrapper: when it happened and the arguments it got. */
  datatype Request<A> = Request(time: nat, args: A)

  /** One run of the decorated function: when it ran and with which arguments. */
  datatype Fired<A> = Fired(at: nat, args: A)

  /** Calls arrive in time order. */
  predicate Chronological<A>(calls: seq<Request<A>>) {
    forall i | 0 <= i < |calls| - 1 :: calls[i].time <= calls[i + 1].time
  }

  /** The run the timer armed by `c` performs if nothing cancels it. */
  function RunOf<A>(c: Request<A>, wait: nat): Fired<A> {
    Fired(c.time + wait, c.args)
  }

  /**
    The runs of every call but the last: a call's timer survives exactly
    when the next call comes `wait` or more ticks later (a timer due at the
    instant of the next call has already run).
  */
  function Settled<A>(calls: seq<Request<A>>, wait: nat): seq<Fired<A>>
  {
    if |calls| <= 1 then []
    else (if calls[1].time >= calls[0].time + wait then [RunOf(calls[0], wait)] else []) + Settled(calls[1..], wait)
  }

  /** The runs that have happened by time `now`: the settled ones and the last call's, once it is due. */
  function Fires<A>(calls: seq<Request<A>>, wait: nat, now: nat): seq<Fired<A>>
  {
    if |calls| == 0 then []
    else Settled(calls, wait) + (if calls[|calls| - 1].time + wait <= now then [RunOf(calls[|calls| - 1], wait)] else [])
  }

  /** One more call settles the previous last call: its run counts when the new call is late enough. */
  lemma {:induction false} SettledSnoc<A>(calls: seq<Request<A>>, c: Request<A>, wait: nat)
    requires |calls| > 0
    ensures Settled(calls + [c], wait) ==
      Settled(calls, wait) + (if c.time >= calls[|calls| - 1].time + wait then [RunOf(calls[|calls| - 1], wait)] else [])
  {
    var all := calls + [c];
    var last := calls[|calls| - 1];
    var tail: seq<Fired<A>> := if c.time >= last.time + wait then [RunOf(last, wait)] else [];
    if |calls| == 1 {
      assert all[1..] == [c];
      assert all[0] == last && all[1] == c;
    } else {
      var head: seq<Fired<A>> := if calls[1].time >= calls[0].time + wait then [RunOf(calls[0], wait)] else [];
      assert all[0] == calls[0] && all[1] == calls[1];
      assert all[1..] == calls[1..] + [c];
      assert Settled(all, wait) == head + Settled(calls[1..] + [c], wait);
      SettledSnoc(calls[1..], c, wait);
      assert calls[1..][|calls[1..]| - 1] == last;
      assert Settled(calls, wait) == head + Settled(calls[1..], wait);
      assert head + (Settled(calls[1..], wait) + tail) == (head + Settled(calls[1..], wait)) + tail;
    }
  }

  /**
    A burst: when every call comes less than `wait` after the one before,
    nothing runs until the last call is due, and then exactly that call runs.
  */
  lemma {:induction false} BurstRunsOnce<A>(calls: seq<Request<A>>, wait: nat, now: nat)
    requires |calls| > 0
    requires forall i | 0 <= i < |calls| - 1 :: calls[i + 1].time < calls[i].time + wait
    ensures Fires(calls, wait, now) ==
      if calls[|calls| - 1].time + wait <= now then [Fired(calls[|calls| - 1].time + wait, calls[|calls| - 1].args)] else []
  {
    BurstSettlesNothing(calls, wait);
  }

  lemma {:induction false} BurstSettlesNothing<A>(calls: seq<Request<A>>, wait: nat)
    requires forall i | 0 <= i < |calls| - 1 :: calls[i + 1].time < calls[i].time + wait
    ensures Settled(calls, wait) == []
  {
    if |calls| > 1 {
      assert forall i | 0 <= i < |calls| - 1 :: calls[1..][i] == calls[i + 1];
      BurstSettlesNothing(calls[1..], wait);
    }
  }

  /** Every run is of some call, `wait` ticks after it, with that call's arguments. */
  lemma {:induction false} SettledSound<A>(calls: seq<Request<A>>, wait: nat)
    ensures forall f | f in Settled(calls, wait) :: exists i | 0 <= i < |calls| - 1 :: f == RunOf(calls[i], wait)
  {
    if |calls| > 1 {
      SettledSound(calls[1..], wait);
      forall f | f in Settled(calls, wait) ensures exists i | 0 <= i < |calls| - 1 :: f == RunOf(calls[i], wait) {
        if f !in Settled(calls[1..], wait) {
          assert f == RunOf(calls[0], wait);
        } else {
          var i :| 0 <= i < |calls[1..]| - 1 && f == RunOf(calls[1..][i], wait);
          assert f == RunOf(calls[i + 1], wait);
        }
      }
    }
  }

  /** The wrapper never runs the function itself: each run comes `wait` after a call and carries its arguments. */
  lemma RunsComeFromCalls<A>(calls: seq<Request<A>>, wait: nat, now: nat)
    ensures forall f | f in Fires(calls, wait, now) ::
      exists i | 0 <= i < |calls| :: f.at == calls[i].time + wait && f.args == calls[i].args
  {
    SettledSound(calls, wait);
    forall f | f in Fires(calls, wait, now)
      ensures exists i | 0 <= i < |calls| :: f.at == calls[i].time + wait && f.args == calls[i].args
    {
      if f in Settled(calls, wait) {
        var i :| 0 <= i < |calls| - 1 && f == RunOf(calls[i], wait);
      } else {
        assert f == RunOf(calls[|calls| - 1], wait);
      }
    }
  }

  /** Later calls are no earlier than the first. */
  lemma {:induction false} ChronologicalFrom<A>(calls: seq<Request<A>>, i: nat, j: nat)
    requires Chronological(calls) && i <= j < |calls|
    ensures calls[i].time <= calls[j].time
    decreases j - i
  {
    if i < j {
      ChronologicalFrom(calls, i + 1, j);
    }
  }

  /** The tail of a chronological sequence of calls is chronological. */
  lemma ChronologicalTail<A>(calls: seq<Request<A>>)
    requires Chronological(calls) && |calls| > 0
    ensures Chronological(calls[1..])
  {
    assert forall i | 0 <= i < |calls| - 1 :: calls[1..][i] == calls[i + 1];
  }

  /** Settled runs fall between the first call's deadline and the last call. */
  lemma {:induction false} SettledWithin<A>(calls: seq<Request<A>>, wait: nat)
    requires Chronological(calls)
    ensures forall f | f in Settled(calls, wait) :: calls[0].time + wait <= f.at <= calls[|calls| - 1].time
  {
    if |calls| > 1 {
      ChronologicalTail(calls);
      SettledWithin(calls[1..], wait);
      ChronologicalFrom(calls, 1, |calls| - 1);
      assert calls[1..][0] == calls[1] && calls[1..][|calls[1..]| - 1] == calls[|calls| - 1];
    }
  }

  /** Runs happen one at a time, each strictly later than the one before. */
  predicate Increasing<A>(fs: seq<Fired<A>>) {
    forall i, j | 0 <= i < j < |fs| :: fs[i].at < fs[j].at
  }

  /** With a positive `wait`, the runs are in strictly increasing time and none lies in the future. */
  lemma {:induction false} RunsInOrder<A>(calls: seq<Request<A>>, wait: nat, now: nat)
    requires Chronological(calls) && wait > 0
    requires |calls| > 0 ==> calls[|calls| - 1].time <= now
    ensures Increasing(Fires(calls, wait, now))
    ensures forall f | f in Fires(calls, wait, now) :: f.at <= now
  {
    if |calls| > 0 {
      SettledIncreasing(calls, wait);
      SettledWithin(calls, wait);
    }
  }

  lemma {:induction false} SettledIncreasing<A>(calls: seq<Request<A>>, wait: nat)
    requires Chronological(calls) && wait > 0
    ensures Increasing(Settled(calls, wait))
  {
    if |calls| > 1 {
      ChronologicalTail(calls);
      SettledIncreasing(calls[1..], wait);
      SettledWithin(calls[1..], wait);
      assert calls[1..][0] == calls[1];
    }
  }

  /**
    A call that comes after the timer has run starts the same as on a fresh
    wrapper: the runs split into those of the earlier calls and those a
    wrapper that never saw them would make.
  */
  lemma {:induction false} SpentTimerRestarts<A>(earlier: seq<Request<A>>, later: seq<Request<A>>, wait: nat, now: nat)
    requires |earlier| > 0 && |later| > 0
    requires later[0].time >= earlier[|earlier| - 1].time + wait
    ensures Fires(earlier + later, wait, now) == Fires(earlier, wait, later[0].time) + Fires(later, wait, now)
  {
    SettledSplit(earlier, later, wait);
  }

  lemma {:induction false} SettledSplit<A>(earlier: seq<Request<A>>, later: seq<Request<A>>, wait: nat)
    requires |earlier| > 0 && |later| > 0
    requires later[0].time >= earlier[|earlier| - 1].time + wait
    ensures Settled(earlier + later, wait) == Settled(earlier, wait) + [RunOf(earlier[|earlier| - 1], wait)] + Settled(later, wait)
  {
    var all := earlier + later;
    var last := earlier[|earlier| - 1];
    if |earlier| == 1 {
      assert all[1..] == later;
      assert all[0] == last && all[1] == later[0];
    } else {
      var head: seq<Fired<A>> := if earlier[1].time >= earlier[0].time + wait then [RunOf(earlier[0], wait)] else [];
      assert all[0] == earlier[0] && all[1] == earlier[1];
      assert all[1..] == earlier[1..] + later;
      assert Settled(all, wait) == head + Settled(earlier[1..] + later, wait);
      SettledSplit(earlier[1..], later, wait);
      assert earlier[1..][|earlier[1..]| - 1] == last;
      assert Settled(earlier, wait) == head + Settled(earlier[1..], wait);
      assert head + (Settled(earlier[1..], wait) + [RunOf(last, wait)] + Settled(later, wait))
          == (head + Settled(earlier[1..], wait)) + [RunOf(last, wait)] + Settled(later, wait);
    }
  }

  /** Calls at ticks 0, 1 and 2 with a window of 3 run the function once, at tick 5, with the last arguments. */
  lemma BurstExample()
    ensures var calls := [Request(0, "a"), Request(1, "b"), Request(2, "c")];
      && Fires(calls, 3, 4) == []
      && (forall now | now >= 5 :: Fires(calls, 3, now) == [Fired(5, "c")])
  {
    var calls := [Request(0, "a"), Request(1, "b"), Request(2, "c")];
    forall now | true ensures Fires(calls, 3, now) == if 5 <= now then [Fired(5, "c")] else [] {
      BurstRunsOnce(calls, 3, now);
    }
  }

  // ---------------------------------------------------------------------
  // The state one decorated function keeps.
  // ---------------------------------------------------------------------

  /** Whether a timer still waits for its deadline or has run. */
  datatype Status = Armed | Ran

  /** A `threading.Timer`: its deadline, the arguments it passes, and whether it has run. */
  datatype Timer<A> = Timer(deadline: nat, args: A, status: Status)

  /**
    The closure of `deco(fn)`: the `timer` variable, which starts as `None`
    and afterwards always holds the latest timer, even once that has run.
    `clock` is the current tick, `log` the runs of `fn` so far, and the ghost
    `calls` the history of calls of the wrapper.
  */
  class Debounced<A> {
    const wait: nat
    var timer: Option<Timer<A>>
    var clock: nat
    var log: seq<Fired<A>>
    ghost var calls: seq<Request<A>>

    /** The timer is the last call's, it has run exactly when its deadline has passed, and `log` is `Fires` of the history. */
    ghost predicate Valid()
      reads this
    {
      && wait > 0
      && Chronological(calls)
      && (timer.None? <==> calls == [])
      && (calls != [] ==>
            var last := calls[|calls| - 1];
            && last.time <= clock
            && timer == Some(Timer(last.time + wait, last.args, if last.time + wait <= clock then Ran else Armed)))
      && log == Fires(calls, wait, clock)
    }

    /** The timer has not run and its deadline is `now` or earlier. */
    predicate Due(now: nat)
      reads this
    {
      timer.Some? && timer.value.status == Armed && timer.value.deadline <= now
    }

    /** The run a due timer makes. */
    function DueRuns(now: nat): seq<Fired<A>>
      reads this
    {
      if Due(now) then [Fired(timer.value.deadline, timer.value.args)] else []
    }

    /** `debounce(wait)(fn)`: no timer yet, nothing has run. */
    constructor (wait: nat)
      requires wait > 0
      ensures Valid() && this.wait == wait
      ensures timer == None && clock == 0 && log == [] && calls == []
    {
      this.wait := wait;
      timer := None;
      clock := 0;
      log := [];
      calls := [];
    }

    /** The timer thread up to tick `now`: a timer whose deadline has come runs `fn` once. */
    method Advance(now: nat)
      requires Valid() && now >= clock
      modifies this
      ensures Valid() && clock == now && calls == old(calls)
      ensures log == old(log) + old(DueRuns(now))
      ensures timer == if old(Due(now)) then Some(old(timer).value.(status := Ran)) else old(timer)
    {
      if Due(now) {
        log := log + [Fired(timer.value.deadline, timer.value.args)];
        timer := Some(timer.value.(status := Ran));
      }
      clock := now;
    }

    /**
      `wrap(*args)` at tick `now`. A timer due by then has already run on its
      own thread; the wrapper cancels the current timer (no effect on one that
      has run) and arms a new one for the full `wait` with these arguments.
      The wrapper itself runs nothing: the only run it can log is the
      previous timer's.
    */
    method Call(now: nat, args: A)
      requires Valid() && now >= clock
      modifies this
      ensures Valid() && clock == now
      ensures calls == old(calls) + [Request(now, args)]
      ensures timer == Some(Timer(now + wait, args, Armed))
      ensures log == old(log) + old(DueRuns(now))
    {
      Advance(now);
      if calls != [] {
        SettledSnoc(calls, Request(now, args), wait);
      }
      timer := Some(Timer(now + wait, args, Armed));
      calls := calls + [Request(now, args)];
    }
  }

  /**
    Two decorated functions, each with its own timer: the first wrapper is
    called at ticks 0, 1 and 2, the second once at tick 1, both with a
    window of 3; by tick 6 each has run its function once.
  */
  method TwoWrappers() returns (first: seq<Fired<string>>, second: seq<Fired<string>>)
    ensures first == [Fired(5, "c")]
    ensures second == [Fired(4, "x")]
  {
    var d := new Debounced<string>(3);
    var e := new Debounced<string>(3);
    d.Call(0, "a");
    d.Call(1, "b");
    e.Call(1, "x");
    d.Call(2, "c");
    d.Advance(4);
    e.Advance(4);
    assert d.log == [];
    d.Advance(6);
    e.Advance(6);
    first, second := d.log, e.log;
  }
}
