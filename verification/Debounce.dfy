/**
 Debouncing a function (apps/docs/utils/debounce.ts), with the timers of the event loop beside it: a
 timer that has been set fires at its due time or later, unless it is cleared first.
 */
module Debounce {
  import opened Prelude

  datatype Burst<T> = Burst(promise: nat, timeout: nat, latestArgs: T)

  datatype Call<T> = Call(promise: nat, args: T, time: nat)

  /** The promise is settled with what the callback does with these arguments. */
  datatype Settlement<T> = Settlement(promise: nat, args: T, time: nat)

  function LastCall<T>(calls: seq<Call<T>>, promise: nat): Option<Call<T>> {
    if calls == [] then None
    else if calls[|calls| - 1].promise == promise then Some(calls[|calls| - 1])
    else LastCall(calls[..|calls| - 1], promise)
  }

  lemma LastCallAfter<T>(calls: seq<Call<T>>, c: Call<T>, promise: nat)
    ensures LastCall(calls + [c], promise) == if c.promise == promise then Some(c) else LastCall(calls, promise)
  {
    assert (calls + [c])[..|calls|] == calls;
  }

  /** Settled once, with the arguments of the last call of the burst, no earlier than wait after that call. */
  ghost predicate SettledRight<T>(calls: seq<Call<T>>, s: Settlement<T>, wait: nat) {
    var last := LastCall(calls, s.promise);
    last.Some? && s.args == last.value.args && last.value.time + wait <= s.time
  }

  ghost predicate IsSettled<T>(settled: seq<Settlement<T>>, promise: nat) {
    exists i | 0 <= i < |settled| :: settled[i].promise == promise
  }

  lemma SettledAfter<T>(settled: seq<Settlement<T>>, s: Settlement<T>, promise: nat)
    ensures IsSettled(settled + [s], promise) <==> IsSettled(settled, promise) || s.promise == promise
  {
    var longer := settled + [s];
    if IsSettled(settled, promise) {
      var i :| 0 <= i < |settled| && settled[i].promise == promise;
      assert longer[i].promise == promise;
    }
    assert longer[|settled|].promise == s.promise;
  }

  class Debouncer<T(!new)> {
    const wait: nat
    var state: Option<Burst<T>>
    var timers: map<nat, nat>  // the timers that are set, with their due times
    var nextTimer: nat
    var nextPromise: nat
    ghost var calls: seq<Call<T>>
    ghost var settled: seq<Settlement<T>>

    constructor (wait: nat)
      ensures Valid() && this.wait == wait && state == None && calls == [] && settled == []
    {
      this.wait, state, timers, nextTimer, nextPromise, calls, settled := wait, None, map[], 0, 0, [], [];
    }

    /**
     At most one timer is set, and it belongs to the burst in progress; that burst holds the arguments of
     its last call; every other promise handed out has been settled, exactly once and rightly.
     */
    ghost predicate Valid()
      reads this
    {
      && (forall id | id in timers :: state.Some? && id == state.value.timeout)
      && (state.Some? ==>
            && state.value.timeout < nextTimer && state.value.promise < nextPromise
            && LastCall(calls, state.value.promise).Some?
            && LastCall(calls, state.value.promise).value.args == state.value.latestArgs
            && forall id | id in timers :: timers[id] == LastCall(calls, state.value.promise).value.time + wait)
      && (forall i | 0 <= i < |settled| :: settled[i].promise < nextPromise && SettledRight(calls, settled[i], wait))
      && (forall i, j | 0 <= i < j < |settled| :: settled[i].promise != settled[j].promise)
      && (forall p: nat | p < nextPromise :: IsSettled(settled, p) <==> !(state.Some? && state.value.promise == p))
    }

    method Invoke(args: T, now: nat) returns (promise: nat)
      requires Valid()
      modifies this
      ensures Valid()
      ensures promise == if old(state).Some? then old(state).value.promise else old(nextPromise)
      ensures state == Some(Burst(promise, old(nextTimer), args)) && timers == map[old(nextTimer) := now + wait]
      ensures calls == old(calls) + [Call(promise, args, now)] && settled == old(settled)
    {
      if state.None? {
        promise := nextPromise;
        nextPromise := nextPromise + 1;
      } else {
        promise := state.value.promise;
        timers := timers - {state.value.timeout};
      }
      state := Some(Burst(promise, nextTimer, args));
      timers := timers[nextTimer := now + wait];
      nextTimer := nextTimer + 1;
      forall p ensures LastCall(calls + [Call(promise, args, now)], p)
                    == if p == promise then Some(Call(promise, args, now)) else LastCall(calls, p) {
        LastCallAfter(calls, Call(promise, args, now), p);
      }
      forall i | 0 <= i < |settled| ensures settled[i].promise != promise {
        assert IsSettled(settled, settled[i].promise);
      }
      calls := calls + [Call(promise, args, now)];
    }

    /** Cancelling clears the timer but keeps the burst: its promise stays pending until the next call revives it. */
    method Cancel()
      requires Valid()
      modifies this`timers
      ensures Valid()
      ensures timers == map[]
    {
      if state.None? {
        return;
      }
      timers := timers - {state.value.timeout};
    }

    /** The event loop runs a timer that is due; it always finds the burst it belongs to. */
    method Fire(id: nat, now: nat)
      requires Valid() && id in timers && timers[id] <= now
      modifies this
      ensures Valid()
      ensures state == None && timers == map[] && calls == old(calls)
      ensures old(state).Some?
      ensures settled == old(settled) + [Settlement(old(state).value.promise, old(state).value.latestArgs, now)]
    {
      var s := state.value;
      state := None;
      timers := timers - {id};
      forall i | 0 <= i < |settled| ensures settled[i].promise != s.promise {
        assert IsSettled(settled, settled[i].promise);
      }
      forall p ensures IsSettled(settled + [Settlement(s.promise, s.latestArgs, now)], p)
                    <==> IsSettled(settled, p) || s.promise == p {
        SettledAfter(settled, Settlement(s.promise, s.latestArgs, now), p);
      }
      settled := settled + [Settlement(s.promise, s.latestArgs, now)];
      assert SettledRight(calls, settled[|settled| - 1], wait);
    }
  }
}
