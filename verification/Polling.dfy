/** The coordinator's polling of the operations it started on the nodes. */
module Polling {
  import opened Basics
  import opened Progress

  /** Which node's poll in which round got which counters; a poll without an entry got no reply. */
  type Replies = map<(nat, nat), Counters>

  datatype WaitError = IncorrectStart(node: nat) | TooManyFailures | OperationFailed | TimedOut

  /** What the coordinator knows of one node: its latest result and how many polls failed since. */
  datatype View = Waiting(result: Option<Counters>, failures: nat) | Finished(counters: Counters) | Broken(error: WaitError)

  function PollNode(v: View, reply: Option<Counters>, maximumFailures: int): View {
    if !v.Waiting? then v
    else if reply.None? then
      if v.failures + 1 >= maximumFailures then Broken(TooManyFailures) else v.(failures := v.failures + 1)
    else if reply.value.FinishedFailed() then Broken(OperationFailed)
    else if reply.value.final then Finished(reply.value)
    else Waiting(reply, 0)
  }

  function ReplyAt(replies: Replies, round: nat, node: nat): Option<Counters> {
    if (round, node) in replies then Some(replies[(round, node)]) else None
  }

  /** The node as seen after the first n rounds, had it been polled until its end. */
  function ViewAfter(replies: Replies, node: nat, maximumFailures: int, n: nat): View {
    if n == 0 then Waiting(None, 0)
    else PollNode(ViewAfter(replies, node, maximumFailures, n - 1), ReplyAt(replies, n - 1, node), maximumFailures)
  }

  lemma {:induction false} ViewSettles(replies: Replies, node: nat, maximumFailures: int, m: nat, n: nat)
    requires m <= n && !ViewAfter(replies, node, maximumFailures, m).Waiting?
    ensures ViewAfter(replies, node, maximumFailures, n) == ViewAfter(replies, node, maximumFailures, m)
  {
    if m < n {
      ViewSettles(replies, node, maximumFailures, m, n - 1);
    }
  }

  // ---------------------------------------------------------------- what a finished view means

  ghost predicate Silent(replies: Replies, node: nat, from: nat, to: nat) {
    forall s: nat {:trigger ReplyAt(replies, s, node)} :: from <= s < to ==> ReplyAt(replies, s, node).None?
  }

  /** Some run of unanswered polls before round n is as long as the limit. */
  ghost predicate LongSilence(replies: Replies, node: nat, maximumFailures: int, n: nat) {
    exists a: nat, b: nat :: a < b <= n && b - a >= maximumFailures && Silent(replies, node, a, b)
  }

  ghost predicate NoFinalReply(replies: Replies, node: nat, n: nat) {
    forall s: nat :: s < n && (s, node) in replies ==> !replies[(s, node)].final
  }

  /** The node's first final reply comes in round t, is a success, and no long silence precedes it. */
  ghost predicate SucceedsAt(replies: Replies, node: nat, maximumFailures: int, t: nat) {
    && (t, node) in replies && replies[(t, node)].FinishedSuccessfully()
    && NoFinalReply(replies, node, t) && !LongSilence(replies, node, maximumFailures, t)
  }

  /** While the node is waited for, its failure count is the length of the silence so far. */
  lemma {:induction false} WaitingMeans(replies: Replies, node: nat, maximumFailures: int, n: nat)
    requires ViewAfter(replies, node, maximumFailures, n).Waiting?
    ensures NoFinalReply(replies, node, n) && !LongSilence(replies, node, maximumFailures, n)
    ensures var f := ViewAfter(replies, node, maximumFailures, n).failures;
      f <= n && Silent(replies, node, n - f, n) && (f < n ==> ReplyAt(replies, n - f - 1, node).Some?)
  {
    if n > 0 {
      WaitingMeans(replies, node, maximumFailures, n - 1);
      var f := ViewAfter(replies, node, maximumFailures, n).failures;
      forall a: nat, b: nat | a < b <= n && Silent(replies, node, a, b) ensures b - a < maximumFailures {
        if b == n {
          assert ReplyAt(replies, n - 1, node).None?;
          assert a >= n - f;
        }
      }
    }
  }

  lemma {:induction false} QuietNodeWaits(replies: Replies, node: nat, maximumFailures: int, n: nat)
    requires NoFinalReply(replies, node, n) && !LongSilence(replies, node, maximumFailures, n)
    ensures ViewAfter(replies, node, maximumFailures, n).Waiting?
  {
    if n > 0 {
      QuietNodeWaits(replies, node, maximumFailures, n - 1);
      WaitingMeans(replies, node, maximumFailures, n - 1);
      var f := ViewAfter(replies, node, maximumFailures, n - 1).failures;
      if ReplyAt(replies, n - 1, node).None? {
        assert Silent(replies, node, n - 1 - f, n);
      }
    }
  }

  /** A node is seen as finished exactly when it succeeds in one of the rounds, with that reply. */
  lemma {:induction false} FinishedIff(replies: Replies, node: nat, maximumFailures: int, n: nat, c: Counters)
    ensures ViewAfter(replies, node, maximumFailures, n) == Finished(c) <==>
      exists t: nat :: t < n && SucceedsAt(replies, node, maximumFailures, t) && replies[(t, node)] == c
  {
    if ViewAfter(replies, node, maximumFailures, n) == Finished(c) && n > 0 {
      var before := ViewAfter(replies, node, maximumFailures, n - 1);
      if before.Waiting? {
        WaitingMeans(replies, node, maximumFailures, n - 1);
        assert SucceedsAt(replies, node, maximumFailures, n - 1);
      } else {
        FinishedIff(replies, node, maximumFailures, n - 1, c);
      }
    }
    if t: nat :| t < n && SucceedsAt(replies, node, maximumFailures, t) && replies[(t, node)] == c {
      QuietNodeWaits(replies, node, maximumFailures, t);
      assert ViewAfter(replies, node, maximumFailures, t + 1) == Finished(c);
      ViewSettles(replies, node, maximumFailures, t + 1, n);
    }
  }

  // ---------------------------------------------------------------- the loop

  /** The loop's arrays hold the view v. */
  ghost predicate Holds(result: Option<Counters>, failures: nat, v: View) {
    match v
    case Waiting(r, f) => result == r && failures == f && (r.Some? ==> !r.value.final)
    case Finished(c) => result == Some(c) && c.FinishedSuccessfully()
    case Broken(_) => false
  }

  /** Nodes below i have been polled in round k, the others not yet. */
  ghost predicate InRound(results: seq<Option<Counters>>, failures: seq<nat>, replies: Replies, maximumFailures: int, k: nat, i: nat) {
    && |results| == |failures|
    && forall j: nat :: j < |results| ==>
         Holds(results[j], failures[j], ViewAfter(replies, j, maximumFailures, if j < i then k + 1 else k))
  }

  ghost predicate AllFinished(replies: Replies, maximumFailures: int, rounds: nat, nodes: nat) {
    forall j: nat :: j < nodes ==> ViewAfter(replies, j, maximumFailures, rounds).Finished?
  }

  ghost predicate SomeBroken(replies: Replies, maximumFailures: int, rounds: nat, nodes: nat, error: WaitError) {
    exists j: nat :: j < nodes && ViewAfter(replies, j, maximumFailures, rounds) == Broken(error)
  }

  /** Polls one node in one round, unless its operation has ended. */
  method PollOne(results: seq<Option<Counters>>, failures: seq<nat>, replies: Replies, maximumFailures: int, k: nat, i: nat)
    returns (r: Result<(seq<Option<Counters>>, seq<nat>), WaitError>)
    requires InRound(results, failures, replies, maximumFailures, k, i) && i < |results|
    ensures r.Ok? ==> |r.value.0| == |results| && InRound(r.value.0, r.value.1, replies, maximumFailures, k, i + 1)
    ensures r.Err? ==> ViewAfter(replies, i, maximumFailures, k + 1) == Broken(r.error) && !r.error.IncorrectStart? && !r.error.TimedOut?
  {
    assert Holds(results[i], failures[i], ViewAfter(replies, i, maximumFailures, k));
    if results[i].Some? && results[i].value.final {
      return Ok((results, failures));
    }
    var reply := ReplyAt(replies, k, i);
    if reply.None? {
      if failures[i] + 1 >= maximumFailures {
        return Err(TooManyFailures);
      }
      return Ok((results, failures[i := failures[i] + 1]));
    }
    if reply.value.FinishedFailed() {
      return Err(OperationFailed);
    }
    return Ok((results[i := reply], failures[i := 0]));
  }

  method PollRound(results: seq<Option<Counters>>, failures: seq<nat>, replies: Replies, maximumFailures: int, k: nat)
    returns (r: Result<(seq<Option<Counters>>, seq<nat>), WaitError>)
    requires InRound(results, failures, replies, maximumFailures, k, 0)
    ensures r.Ok? ==> |r.value.0| == |results| && InRound(r.value.0, r.value.1, replies, maximumFailures, k + 1, 0)
    ensures r.Err? ==> SomeBroken(replies, maximumFailures, k + 1, |results|, r.error) && !r.error.IncorrectStart? && !r.error.TimedOut?
  {
    r := Ok((results, failures));
    for i := 0 to |results|
      invariant r.Ok? && |r.value.0| == |results| && InRound(r.value.0, r.value.1, replies, maximumFailures, k, i)
    {
      r := PollOne(r.value.0, r.value.1, replies, maximumFailures, k, i);
      if r.Err? {
        return;
      }
    }
  }

  /** Returns the nodes' results exactly when every operation was started, there was at least one round
      of polls, and every node was seen to finish successfully. */
  method WaitSuccessfulResults(started: seq<bool>, replies: Replies, rounds: nat, maximumFailures: int)
    returns (r: Result<seq<Counters>, WaitError>)
    ensures r.Ok? <==> false !in started && rounds > 0 && AllFinished(replies, maximumFailures, rounds, |started|)
    ensures r.Ok? ==> |r.value| == |started| && forall j: nat :: j < |started| ==>
      ViewAfter(replies, j, maximumFailures, rounds) == Finished(r.value[j])
    ensures r.Err? && r.error.IncorrectStart? <==> false in started
    ensures r.Err? && !r.error.IncorrectStart? && !r.error.TimedOut? ==>
      SomeBroken(replies, maximumFailures, rounds, |started|, r.error)
    ensures r.Err? && r.error.TimedOut? ==>
      forall j: nat :: j < |started| ==> !ViewAfter(replies, j, maximumFailures, rounds).Broken?
  {
    for i := 0 to |started|
      invariant false !in started[..i]
    {
      if !started[i] {
        return Err(IncorrectStart(i + 1));
      }
    }
    assert started[..|started|] == started;
    var results: seq<Option<Counters>>, failures: seq<nat> := seq(|started|, _ => None), seq(|started|, _ => 0);
    for k := 0 to rounds
      invariant |results| == |started| && InRound(results, failures, replies, maximumFailures, k, 0)
      invariant k > 0 ==> !AllFinished(replies, maximumFailures, k, |started|)
    {
      var polled := PollRound(results, failures, replies, maximumFailures, k);
      if polled.Err? {
        BrokenForGood(replies, maximumFailures, k + 1, rounds, |started|, polled.error);
        return Err(polled.error);
      }
      results, failures := polled.value.0, polled.value.1;
      if forall j :: 0 <= j < |results| ==> results[j].Some? && results[j].value.final {
        var values := seq(|results|, j requires 0 <= j < |results| => results[j].value);
        FinishedForGood(results, failures, replies, maximumFailures, k + 1, rounds);
        return Ok(values);
      }
      StillWaiting(results, failures, replies, maximumFailures, k + 1);
    }
    forall j: nat | j < |started| ensures !ViewAfter(replies, j, maximumFailures, rounds).Broken? {
      assert Holds(results[j], failures[j], ViewAfter(replies, j, maximumFailures, rounds));
    }
    return Err(TimedOut);
  }

  lemma BrokenForGood(replies: Replies, maximumFailures: int, k: nat, rounds: nat, nodes: nat, error: WaitError)
    requires k <= rounds && SomeBroken(replies, maximumFailures, k, nodes, error)
    ensures SomeBroken(replies, maximumFailures, rounds, nodes, error) && !AllFinished(replies, maximumFailures, rounds, nodes)
  {
    var i: nat :| i < nodes && ViewAfter(replies, i, maximumFailures, k) == Broken(error);
    ViewSettles(replies, i, maximumFailures, k, rounds);
  }

  lemma FinishedForGood(results: seq<Option<Counters>>, failures: seq<nat>, replies: Replies, maximumFailures: int, k: nat, rounds: nat)
    requires InRound(results, failures, replies, maximumFailures, k, 0) && k <= rounds
    requires forall j :: 0 <= j < |results| ==> results[j].Some? && results[j].value.final
    ensures forall j: nat :: j < |results| ==> ViewAfter(replies, j, maximumFailures, rounds) == Finished(results[j].value)
  {
    forall j: nat | j < |results| ensures ViewAfter(replies, j, maximumFailures, rounds) == Finished(results[j].value) {
      assert Holds(results[j], failures[j], ViewAfter(replies, j, maximumFailures, k));
      ViewSettles(replies, j, maximumFailures, k, rounds);
    }
  }

  lemma StillWaiting(results: seq<Option<Counters>>, failures: seq<nat>, replies: Replies, maximumFailures: int, k: nat)
    requires InRound(results, failures, replies, maximumFailures, k, 0)
    requires exists j :: 0 <= j < |results| && !(results[j].Some? && results[j].value.final)
    ensures !AllFinished(replies, maximumFailures, k, |results|)
  {
    var j :| 0 <= j < |results| && !(results[j].Some? && results[j].value.final);
    assert Holds(results[j], failures[j], ViewAfter(replies, j, maximumFailures, k));
  }
}
