/** Timing of one relock loop: how long an operation can outlive its lease, and how often a relock
    may go unanswered before the lease is given up. Sleeps are exact; calls take any time up to a bound. */
module RelockTiming {
  import opened ClusterLock

  /** One relock call as the environment answers it. */
  datatype RelockCall = RelockCall(result: LockResult, duration: real)

  /** One pass of the loop: the deadline it worked under, when the call went out, when the pass ended. */
  datatype Pass = Pass(lockEol: real, calledAt: real, endedAt: real, result: LockResult)

  datatype LoopEnd = Expired(at: real) | Refused(at: real) | ScriptOver(at: real)

  datatype LoopLog = LoopLog(passes: seq<Pass>, end: LoopEnd)

  /** The pass that starts at `now` under deadline `lockEol`; the next relock is due half a lease before it. */
  function PassFrom(now: real, lockEol: real, ttl: real, call: RelockCall): Pass {
    var nextLock := lockEol - ttl / 2.0;
    var t := if now < nextLock then nextLock + 0.01 else now;
    var back := t + call.duration;
    Pass(lockEol, t, if call.result == ResultException then back + ttl / 10.0 else back, call.result)
  }

  /** The deadline in force after a pass. */
  function EolAfter(p: Pass, ttl: real): real {
    if p.result == ResultOk then p.calledAt + ttl else p.lockEol
  }

  /** The loop from its top at time `now`, against a script of answers. */
  function Simulate(now: real, lockEol: real, ttl: real, calls: seq<RelockCall>): LoopLog
    decreases |calls|
  {
    if calls == [] then LoopLog([], ScriptOver(now))
    else if now > lockEol then LoopLog([], Expired(now))
    else
      var p := PassFrom(now, lockEol, ttl, calls[0]);
      if p.result == ResultFailure then LoopLog([p], Refused(p.endedAt))
      else
        var rest := Simulate(p.endedAt, EolAfter(p, ttl), ttl, calls[1..]);
        LoopLog([p] + rest.passes, rest.end)
  }

  /** `while t < next_lock`: sleep until a little after the next relock is due. */
  method SleepUntilDue(now: real, nextLock: real) returns (t: real)
    ensures t == if now < nextLock then nextLock + 0.01 else now
  {
    t := now;
    while t < nextLock
      invariant t == now || (now < nextLock && t == nextLock + 0.01)
      decreases t < nextLock
    {
      var left := nextLock - t + 0.01;
      t := t + left;
    }
  }

  /** `passes` so far and the simulation of the rest make up `whole`. */
  ghost predicate SoFar(whole: LoopLog, passes: seq<Pass>, now: real, lockEol: real, ttl: real, calls: seq<RelockCall>) {
    var rest := Simulate(now, lockEol, ttl, calls);
    whole == LoopLog(passes + rest.passes, rest.end)
  }

  lemma OnePass(whole: LoopLog, passes: seq<Pass>, now: real, lockEol: real, ttl: real, calls: seq<RelockCall>, k: nat)
    requires k < |calls| && now <= lockEol && SoFar(whole, passes, now, lockEol, ttl, calls[k..])
    ensures var p := PassFrom(now, lockEol, ttl, calls[k]);
      && (p.result == ResultFailure ==> whole == LoopLog(passes + [p], Refused(p.endedAt)))
      && (p.result != ResultFailure ==> SoFar(whole, passes + [p], p.endedAt, EolAfter(p, ttl), ttl, calls[k + 1..]))
  {
    var p := PassFrom(now, lockEol, ttl, calls[k]);
    assert calls[k..][0] == calls[k] && calls[k..][1..] == calls[k + 1..];
    var rest := Simulate(p.endedAt, EolAfter(p, ttl), ttl, calls[k + 1..]);
    assert passes + ([p] + rest.passes) == (passes + [p]) + rest.passes;
  }

  lemma NoMorePasses(whole: LoopLog, passes: seq<Pass>, now: real, lockEol: real, ttl: real, calls: seq<RelockCall>)
    requires SoFar(whole, passes, now, lockEol, ttl, calls) && (calls == [] || now > lockEol)
    ensures whole == LoopLog(passes, if calls == [] then ScriptOver(now) else Expired(now))
  {
    assert passes + [] == passes;
  }

  /** The loop as it runs: `lock_eol`, `next_lock` and the clock are updated pass by pass. */
  method NodeRelockLoop(initialLockStart: real, ttl: real, firstCheck: real, calls: seq<RelockCall>) returns (log: LoopLog)
    ensures log == Simulate(firstCheck, initialLockStart + ttl, ttl, calls)
  {
    var lockEol := initialLockStart + ttl;
    var nextLock := initialLockStart + ttl / 2.0;
    var now := firstCheck;
    var passes: seq<Pass> := [];
    ghost var whole := Simulate(now, lockEol, ttl, calls);
    assert calls[0..] == calls;
    for k := 0 to |calls|
      invariant nextLock == lockEol - ttl / 2.0
      invariant SoFar(whole, passes, now, lockEol, ttl, calls[k..])
    {
      if now > lockEol {
        NoMorePasses(whole, passes, now, lockEol, ttl, calls[k..]);
        return LoopLog(passes, Expired(now));
      }
      OnePass(whole, passes, now, lockEol, ttl, calls, k);
      var t := SleepUntilDue(now, nextLock);
      var back := t + calls[k].duration;
      ghost var p := PassFrom(now, lockEol, ttl, calls[k]);
      assert p.calledAt == t && p.lockEol == lockEol && p.result == calls[k].result;
      match calls[k].result {
        case ResultOk =>
          passes := passes + [Pass(lockEol, t, back, ResultOk)];
          now, lockEol, nextLock := back, t + ttl, t + ttl / 2.0;
        case ResultFailure =>
          return LoopLog(passes + [Pass(lockEol, t, back, ResultFailure)], Refused(back));
        case ResultException =>
          passes := passes + [Pass(lockEol, t, back + ttl / 10.0, ResultException)];
          now := back + ttl / 10.0;
      }
    }
    assert calls[|calls|..] == [];
    NoMorePasses(whole, passes, now, lockEol, ttl, calls[|calls|..]);
    return LoopLog(passes, ScriptOver(now));
  }

  function Max(a: real, b: real): real {
    if a < b then b else a
  }

  ghost predicate CallsWithin(calls: seq<RelockCall>, r: real) {
    forall k :: 0 <= k < |calls| ==> 0.0 <= calls[k].duration <= r
  }

  /** The call went out in the second half of its lease, and the pass outlived the lease by at most
      one call and one back-off. */
  ghost predicate InTime(p: Pass, ttl: real, r: real) {
    p.lockEol - ttl / 2.0 <= p.calledAt <= p.lockEol && p.endedAt <= p.lockEol + r + ttl / 10.0
  }

  lemma {:induction false} PassesEndInTime(now: real, lockEol: real, ttl: real, calls: seq<RelockCall>, r: real)
    requires ttl >= 0.02 && CallsWithin(calls, r)
    ensures forall k :: 0 <= k < |Simulate(now, lockEol, ttl, calls).passes| ==>
      InTime(Simulate(now, lockEol, ttl, calls).passes[k], ttl, r)
    decreases |calls|
  {
    if calls != [] && now <= lockEol {
      var p := PassFrom(now, lockEol, ttl, calls[0]);
      assert InTime(p, ttl, r);
      PassesEndInTime(p.endedAt, EolAfter(p, ttl), ttl, calls[1..], r);
    }
  }

  /** The deadline in force when the loop ended. */
  function FinalEol(log: LoopLog, lockEol: real, ttl: real): real {
    if log.passes == [] then lockEol else EolAfter(log.passes[|log.passes| - 1], ttl)
  }

  /** An operation that has not been cancelled is never later than its deadline plus one call and one
      back-off, except that the first check may itself come late. */
  lemma {:induction false} CancelledInTime(now: real, lockEol: real, ttl: real, calls: seq<RelockCall>, r: real)
    requires ttl >= 0.02 && r >= 0.0 && CallsWithin(calls, r)
    ensures var log := Simulate(now, lockEol, ttl, calls);
      log.end.at <= Max(now, FinalEol(log, lockEol, ttl) + r + ttl / 10.0)
    decreases |calls|
  {
    if calls != [] && now <= lockEol {
      var p := PassFrom(now, lockEol, ttl, calls[0]);
      if p.result != ResultFailure {
        CancelledInTime(p.endedAt, EolAfter(p, ttl), ttl, calls[1..], r);
        PassAfterBase(p, ttl, calls[1..], r);
      }
    }
  }

  /** Later deadlines are never earlier than the present one. */
  lemma {:induction false} PassAfterBase(p: Pass, ttl: real, calls: seq<RelockCall>, r: real)
    requires ttl >= 0.02 && CallsWithin(calls, r)
    ensures EolAfter(p, ttl) <= FinalEol(Simulate(p.endedAt, EolAfter(p, ttl), ttl, calls), EolAfter(p, ttl), ttl)
    decreases |calls|
  {
    if calls != [] && p.endedAt <= EolAfter(p, ttl) {
      var q := PassFrom(p.endedAt, EolAfter(p, ttl), ttl, calls[0]);
      if q.result != ResultFailure {
        PassAfterBase(q, ttl, calls[1..], r);
      }
    }
  }

  // ---------------------------------------------------------------- unanswered calls per lease

  ghost predicate AllUnanswered(passes: seq<Pass>) {
    forall k :: 0 <= k < |passes| ==> passes[k].result == ResultException
  }

  /** After an unanswered call the deadline stands and the next call is at least ttl/10 later. */
  ghost predicate Spaced(passes: seq<Pass>, k: nat, ttl: real) {
    k + 1 < |passes| && passes[k].result == ResultException ==>
      passes[k + 1].lockEol == passes[k].lockEol && passes[k + 1].calledAt >= passes[k].calledAt + ttl / 10.0
  }

  lemma {:induction false} UnansweredSpacing(now: real, lockEol: real, ttl: real, calls: seq<RelockCall>, r: real, k: nat)
    requires ttl >= 0.02 && CallsWithin(calls, r)
    ensures Spaced(Simulate(now, lockEol, ttl, calls).passes, k, ttl)
    decreases |calls|
  {
    if calls != [] && now <= lockEol {
      var p := PassFrom(now, lockEol, ttl, calls[0]);
      if k > 0 {
        UnansweredSpacing(p.endedAt, EolAfter(p, ttl), ttl, calls[1..], r, k - 1);
      }
    }
  }

  /** n back-offs in a row. */
  function BackOffs(n: nat, ttl: real): real {
    if n == 0 then 0.0 else BackOffs(n - 1, ttl) + ttl / 10.0
  }

  lemma {:induction false} UnansweredDrift(passes: seq<Pass>, i: nat, j: nat, ttl: real)
    requires i <= j < |passes|
    requires forall k: nat :: i <= k < j ==> passes[k].result == ResultException
    requires forall k: nat :: Spaced(passes, k, ttl)
    ensures passes[j].lockEol == passes[i].lockEol
    ensures passes[j].calledAt >= passes[i].calledAt + BackOffs(j - i, ttl)
  {
    if i < j {
      UnansweredDrift(passes, i, j - 1, ttl);
      assert Spaced(passes, j - 1, ttl);
    }
  }

  lemma {:induction false} SixBackOffsOutlast(n: nat, ttl: real)
    requires ttl > 0.0 && n >= 6
    ensures BackOffs(n, ttl) > ttl / 2.0
  {
    if n > 6 {
      SixBackOffsOutlast(n - 1, ttl);
    } else {
      var u := ttl / 10.0;
      assert BackOffs(1, ttl) == u;
      assert BackOffs(2, ttl) == u + u;
      assert BackOffs(3, ttl) == BackOffs(2, ttl) + u;
      assert BackOffs(4, ttl) == BackOffs(3, ttl) + u;
      assert BackOffs(5, ttl) == BackOffs(4, ttl) + u;
    }
  }

  /** A series of unanswered calls under one deadline fits between half a lease before it and the deadline. */
  lemma SeriesIsShort(passes: seq<Pass>, i: nat, j: nat, ttl: real, r: real)
    requires ttl > 0.0 && i < j <= |passes| && InTime(passes[i], ttl, r) && InTime(passes[j - 1], ttl, r)
    requires forall k: nat :: i <= k < j ==> passes[k].result == ResultException
    requires forall k: nat :: Spaced(passes, k, ttl)
    ensures j - i <= 6
  {
    UnansweredDrift(passes, i, j - 1, ttl);
    if j - 1 - i >= 6 {
      SixBackOffsOutlast(j - 1 - i, ttl);
      assert false;
    }
  }

  /** At most six relock calls in a row go unanswered before the loop gives the lease up. */
  lemma AtMostSixUnanswered(now: real, lockEol: real, ttl: real, calls: seq<RelockCall>, r: real, i: nat, j: nat)
    requires ttl >= 0.02 && CallsWithin(calls, r)
    requires i <= j <= |Simulate(now, lockEol, ttl, calls).passes|
    requires AllUnanswered(Simulate(now, lockEol, ttl, calls).passes[i..j])
    ensures j - i <= 6
  {
    if i < j {
      var passes := Simulate(now, lockEol, ttl, calls).passes;
      PassesEndInTime(now, lockEol, ttl, calls, r);
      forall k: nat ensures Spaced(passes, k, ttl) {
        UnansweredSpacing(now, lockEol, ttl, calls, r, k);
      }
      forall k: nat | i <= k < j ensures passes[k].result == ResultException {
        assert passes[i..j][k - i] == passes[k];
      }
      SeriesIsShort(passes, i, j, ttl, r);
    }
  }

  function Repeated(call: RelockCall, n: nat): seq<RelockCall> {
    if n == 0 then [] else [call] + Repeated(call, n - 1)
  }

  /** Six do happen: a lease renewed by a call that took half of it, then calls that fail at once. */
  lemma SixUnansweredHappen()
    ensures var log := Simulate(30.0, 60.0, 60.0, [RelockCall(ResultOk, 30.0)] + Repeated(RelockCall(ResultException, 0.0), 7));
      |log.passes| == 7 && AllUnanswered(log.passes[1..]) && log.end == Expired(96.0)
  {
    var first, call := RelockCall(ResultOk, 30.0), RelockCall(ResultException, 0.0);
    var calls := [first] + Repeated(call, 7);
    assert calls[1..] == Repeated(call, 7);
    assert PassFrom(30.0, 60.0, 60.0, first) == Pass(60.0, 30.0, 60.0, ResultOk);
    FailingCalls(6);
  }

  /** Calls that fail at once, 6 seconds apart, until the deadline at 90 has passed. */
  lemma {:induction false} FailingCalls(left: nat)
    requires left <= 6
    ensures var log := Simulate(96.0 - 6.0 * (left as real), 90.0, 60.0, Repeated(RelockCall(ResultException, 0.0), left + 1));
      |log.passes| == left && AllUnanswered(log.passes) && log.end == Expired(96.0)
  {
    if left > 0 {
      var call := RelockCall(ResultException, 0.0);
      var now := 96.0 - 6.0 * (left as real);
      assert Repeated(call, left + 1)[1..] == Repeated(call, left);
      var p := PassFrom(now, 90.0, 60.0, call);
      assert p.endedAt == 96.0 - 6.0 * ((left - 1) as real);
      FailingCalls(left - 1);
    }
  }
}
