/** The cluster lock: operations lock every node, then keep each node's lease alive with one relock
    loop per node. Lock calls may be lost, delayed without bound, reordered and even handled twice;
    node clocks run at the coordinator's rate but from any origin. */
module ClusterLock {
  import opened Basics
  import opened NodeLock

  // ---------------------------------------------------------------- combining the answers of the nodes

  datatype LockResult = ResultOk | ResultFailure | ResultException

  /** What the coordinator sees of one node: no answer, an error status, or a body. */
  datatype NodeAnswer = NoAnswer | ErrorStatus | Body(asExpected: bool)

  ghost predicate Refused(a: NodeAnswer) {
    a.ErrorStatus? || (a.Body? && !a.asExpected)
  }

  /** Any refusal makes the call a failure; otherwise any silence makes it an exception. */
  method CombineAnswers(answers: seq<NodeAnswer>) returns (rv: LockResult)
    ensures rv == ResultFailure <==> exists i :: 0 <= i < |answers| && Refused(answers[i])
    ensures rv == ResultOk <==> forall i :: 0 <= i < |answers| ==> answers[i] == Body(true)
  {
    rv := ResultOk;
    for i := 0 to |answers|
      invariant rv == ResultFailure <==> exists j :: 0 <= j < i && Refused(answers[j])
      invariant rv == ResultOk <==> forall j :: 0 <= j < i ==> answers[j] == Body(true)
    {
      match answers[i] {
        case NoAnswer =>
          if rv != ResultFailure {
            rv := ResultException;
          }
        case ErrorStatus =>
          rv := ResultFailure;
        case Body(asExpected) =>
          if !asExpected {
            rv := ResultFailure;
          }
      }
    }
  }

  // ---------------------------------------------------------------- protocol state

  type NodeId = nat
  type Locker = s: string | s != "" witness "host-1"

  datatype Request = Request(call: LockCall, locker: Locker, node: NodeId, ttl: real, sentAt: real)

  /** Where a relock loop is: at its top, holding a clock reading, waiting for an answer, or returned. */
  datatype LoopPc = Top | Reading(t: real) | Asking(t: real, request: Request) | Returned

  datatype RelockLoop = RelockLoop(lockEol: real, nextLock: real, pc: LoopPc)

  datatype Phase = Acquiring | Running(loops: map<NodeId, RelockLoop>) | Ended

  datatype Operation = Operation(ttl: real, initialLockStart: real, nodes: set<NodeId>, phase: Phase)

  datatype State = State(
    now: real,
    locks: map<NodeId, Option<LockEntry>>,
    ops: map<Locker, Operation>,
    sent: set<Request>,
    replies: set<(Request, LockReply)>)

  predicate Init(s: State) {
    s.ops == map[] && s.sent == {} && s.replies == {}
  }

  // ---------------------------------------------------------------- steps

  datatype Step =
    | Tick
    | Create(locker: Locker, ttl: real, nodes: set<NodeId>)
    | SendLock(locker: Locker, node: NodeId)
    | Acquire(locker: Locker)
    | End(locker: Locker)
    | SendUnlock(locker: Locker, node: NodeId)
    | LoopCheck(locker: Locker, node: NodeId)
    | LoopSleep(locker: Locker, node: NodeId)
    | LoopAsk(locker: Locker, node: NodeId)
    | LoopAnswer(locker: Locker, node: NodeId, reply: LockReply)
    | LoopTimeout(locker: Locker, node: NodeId)
    | Handle(request: Request, t1: real, t2: real, t3: real, lock: Option<LockEntry>, reply: LockReply)

  function SetLoop(s: State, l: Locker, n: NodeId, loop: RelockLoop): map<Locker, Operation>
    requires l in s.ops && s.ops[l].phase.Running?
  {
    s.ops[l := s.ops[l].(phase := Running(s.ops[l].phase.loops[n := loop]))]
  }

  predicate HasLoop(s: State, l: Locker, n: NodeId) {
    l in s.ops && s.ops[l].phase.Running? && n in s.ops[l].phase.loops
  }

  function LoopOf(s: State, l: Locker, n: NodeId): RelockLoop
    requires HasLoop(s, l, n)
  {
    s.ops[l].phase.loops[n]
  }

  /** How a node may answer a request; its clock shows `skew` more than the coordinator's. */
  ghost predicate Handled(before: Option<LockEntry>, r: Request, skew: real, t1: real, t2: real, t3: real,
                          after: Option<LockEntry>, reply: LockReply)
  {
    Answered(r.call, before, r.locker, r.ttl, t1 + skew, t2 + skew, t3 + skew, after, reply)
  }

  ghost predicate StepTo(s: State, s': State, step: Step, skew: NodeId -> real) {
    match step
    case Tick =>
      s' == s.(now := s'.now) && s'.now >= s.now
    case Create(l, ttl, nodes) =>
      l !in s.ops && nodes <= s.locks.Keys && s' == s.(ops := s.ops[l := Operation(ttl, s.now, nodes, Acquiring)])
    case SendLock(l, n) =>
      l in s.ops && s.ops[l].phase.Acquiring? && n in s.ops[l].nodes &&
      s' == s.(sent := s.sent + {Request(Lock, l, n, s.ops[l].ttl, s.now)})
    case Acquire(l) =>
      l in s.ops && s.ops[l].phase.Acquiring? && AllLocked(s, l) &&
      s' == s.(ops := s.ops[l := s.ops[l].(phase := Running(FreshLoops(s.ops[l])))])
    case End(l) =>
      l in s.ops && s' == s.(ops := s.ops[l := s.ops[l].(phase := Ended)])
    case SendUnlock(l, n) =>
      l in s.ops && s.ops[l].phase.Ended? && n in s.ops[l].nodes &&
      s' == s.(sent := s.sent + {Request(Unlock, l, n, 0.0, s.now)})
    case LoopCheck(l, n) =>
      HasLoop(s, l, n) && LoopOf(s, l, n).pc.Top? &&
      var loop := LoopOf(s, l, n);
      s' == s.(ops := SetLoop(s, l, n, loop.(pc := if s.now > loop.lockEol then Returned else Reading(s.now))))
    case LoopSleep(l, n) =>
      HasLoop(s, l, n) && LoopOf(s, l, n).pc.Reading? &&
      var loop := LoopOf(s, l, n);
      loop.pc.t < loop.nextLock && s' == s.(ops := SetLoop(s, l, n, loop.(pc := Reading(s.now))))
    case LoopAsk(l, n) =>
      HasLoop(s, l, n) && LoopOf(s, l, n).pc.Reading? &&
      var loop := LoopOf(s, l, n);
      var r := Request(Relock, l, n, s.ops[l].ttl, s.now);
      loop.pc.t >= loop.nextLock &&
      s' == s.(sent := s.sent + {r}, ops := SetLoop(s, l, n, loop.(pc := Asking(loop.pc.t, r))))
    case LoopAnswer(l, n, reply) =>
      HasLoop(s, l, n) && LoopOf(s, l, n).pc.Asking? &&
      var loop := LoopOf(s, l, n);
      var t, ttl := loop.pc.t, s.ops[l].ttl;
      (loop.pc.request, reply) in s.replies &&
      s' == s.(ops := SetLoop(s, l, n,
        if reply == Locked then RelockLoop(t + ttl, t + ttl / 2.0, Top) else loop.(pc := Returned)))
    case LoopTimeout(l, n) =>
      HasLoop(s, l, n) && LoopOf(s, l, n).pc.Asking? &&
      s' == s.(ops := SetLoop(s, l, n, LoopOf(s, l, n).(pc := Top)))
    case Handle(r, t1, t2, t3, lock, reply) =>
      r in s.sent && r.node in s.locks && s.now <= t1 <= t2 <= t3 &&
      Handled(s.locks[r.node], r, skew(r.node), t1, t2, t3, lock, reply) &&
      s' == s.(now := t3, locks := s.locks[r.node := lock], replies := s.replies + {(r, reply)})
  }

  ghost predicate AllLocked(s: State, l: Locker)
    requires l in s.ops
  {
    forall n :: n in s.ops[l].nodes ==> exists r :: LockedReply(s, r) && r.call.Lock? && r.locker == l && r.node == n
  }

  ghost predicate LockedReply(s: State, r: Request) {
    (r, Locked) in s.replies
  }

  function FreshLoops(op: Operation): map<NodeId, RelockLoop> {
    map n | n in op.nodes :: RelockLoop(op.initialLockStart + op.ttl, op.initialLockStart + op.ttl / 2.0, Top)
  }

  ghost predicate Next(s: State, s': State, skew: NodeId -> real) {
    exists step :: StepTo(s, s', step, skew)
  }

  // ---------------------------------------------------------------- what every step keeps

  /** Until `deadline`, node n is held by l for at least that long (in coordinator time). */
  ghost predicate Secured(s: State, l: Locker, n: NodeId, deadline: real, skew: NodeId -> real) {
    s.now > deadline || HeldUntil(s, l, n, deadline, skew)
  }

  ghost predicate HeldUntil(s: State, l: Locker, n: NodeId, deadline: real, skew: NodeId -> real) {
    && n in s.locks && s.locks[n].Some?
    && s.locks[n].value.locker == l
    && s.locks[n].value.lockedUntil - skew(n) >= deadline
  }

  ghost predicate RequestOk(s: State, r: Request) {
    && r.locker in s.ops && r.node in s.ops[r.locker].nodes
    && s.ops[r.locker].initialLockStart <= r.sentAt <= s.now
    && (r.call.Unlock? ==> s.ops[r.locker].phase.Ended?)
    && (!r.call.Unlock? ==> r.ttl == s.ops[r.locker].ttl)
  }

  ghost predicate ReplyOk(s: State, r: Request, skew: NodeId -> real) {
    && r in s.sent && !r.call.Unlock?
    && r.locker in s.ops
    && (s.ops[r.locker].phase.Ended? || Secured(s, r.locker, r.node, r.sentAt + r.ttl, skew))
  }

  ghost predicate LoopOk(s: State, l: Locker, n: NodeId, skew: NodeId -> real)
    requires HasLoop(s, l, n)
  {
    var loop := LoopOf(s, l, n);
    && n in s.ops[l].nodes
    && loop.lockEol <= s.now + s.ops[l].ttl
    && Secured(s, l, n, loop.lockEol, skew)
    && (loop.pc.Reading? ==> loop.pc.t <= s.now)
    && (loop.pc.Asking? ==>
          var r := loop.pc.request;
          r in s.sent && r.call.Relock? && r.locker == l && r.node == n && loop.pc.t <= r.sentAt)
  }

  ghost predicate OpOk(s: State, l: Locker)
    requires l in s.ops
  {
    s.ops[l].nodes <= s.locks.Keys && s.ops[l].initialLockStart <= s.now
  }

  ghost predicate Inv(s: State, skew: NodeId -> real) {
    && (forall l :: l in s.ops ==> OpOk(s, l))
    && (forall r :: r in s.sent ==> RequestOk(s, r))
    && (forall r :: LockedReply(s, r) ==> ReplyOk(s, r, skew))
    && (forall l, n :: HasLoop(s, l, n) ==> LoopOk(s, l, n, skew))
  }

  /** A lease that is still good: the loop has not returned and its own deadline has not passed. */
  ghost predicate HoldsLease(s: State, l: Locker, n: NodeId) {
    HasLoop(s, l, n) && !LoopOf(s, l, n).pc.Returned? && s.now <= LoopOf(s, l, n).lockEol
  }

  /** Steps that touch neither locks nor replies nor any loop's promise. */
  lemma QuietStepKeeps(s: State, s': State, step: Step, skew: NodeId -> real)
    requires Inv(s, skew) && StepTo(s, s', step, skew)
    requires step.Tick? || step.Create? || step.SendLock? || step.SendUnlock? || step.End?
    ensures Inv(s', skew)
  {
    forall l, n | HasLoop(s', l, n) ensures LoopOk(s', l, n, skew) {
      assert HasLoop(s, l, n);
      assert LoopOk(s, l, n, skew);
    }
    forall r | LockedReply(s', r) ensures ReplyOk(s', r, skew) {
      assert LockedReply(s, r);
    }
  }

  lemma AcquireKeeps(s: State, s': State, l: Locker, skew: NodeId -> real)
    requires Inv(s, skew) && StepTo(s, s', Acquire(l), skew)
    ensures Inv(s', skew)
  {
    forall m, n | HasLoop(s', m, n) ensures LoopOk(s', m, n, skew) {
      if m == l {
        var r :| LockedReply(s, r) && r.call.Lock? && r.locker == l && r.node == n;
        assert ReplyOk(s, r, skew) && RequestOk(s, r);
      } else {
        assert HasLoop(s, m, n) && LoopOk(s, m, n, skew);
      }
    }
    forall r | LockedReply(s', r) ensures ReplyOk(s', r, skew) {
      assert LockedReply(s, r);
    }
  }

  /** A loop that moves on without touching its deadline or waiting for an answer. */
  lemma MoveOnKeeps(s: State, s': State, l: Locker, n: NodeId, loop: RelockLoop, skew: NodeId -> real)
    requires Inv(s, skew) && HasLoop(s, l, n) && s' == s.(ops := SetLoop(s, l, n, loop))
    requires loop.lockEol == LoopOf(s, l, n).lockEol && !loop.pc.Asking? && (loop.pc.Reading? ==> loop.pc.t <= s.now)
    ensures Inv(s', skew)
  {
    forall m, k | HasLoop(s', m, k) ensures LoopOk(s', m, k, skew) {
      assert HasLoop(s, m, k) && LoopOk(s, m, k, skew);
    }
    forall r | LockedReply(s', r) ensures ReplyOk(s', r, skew) {
      assert LockedReply(s, r);
    }
  }

  lemma LoopMoveKeeps(s: State, s': State, step: Step, l: Locker, n: NodeId, skew: NodeId -> real)
    requires Inv(s, skew) && StepTo(s, s', step, skew)
    requires step == LoopCheck(l, n) || step == LoopSleep(l, n) || step == LoopTimeout(l, n)
    ensures Inv(s', skew)
  {
    var loop := LoopOf(s, l, n);
    var pc := match step
      case LoopCheck(_, _) => if s.now > loop.lockEol then Returned else Reading(s.now)
      case LoopSleep(_, _) => Reading(s.now)
      case _ => Top;
    MoveOnKeeps(s, s', l, n, loop.(pc := pc), skew);
  }

  lemma LoopAskKeeps(s: State, s': State, l: Locker, n: NodeId, skew: NodeId -> real)
    requires Inv(s, skew) && StepTo(s, s', LoopAsk(l, n), skew)
    ensures Inv(s', skew)
  {
    assert LoopOk(s, l, n, skew);
    forall m, k | HasLoop(s', m, k) ensures LoopOk(s', m, k, skew) {
      assert HasLoop(s, m, k) && LoopOk(s, m, k, skew);
    }
    forall r | LockedReply(s', r) ensures ReplyOk(s', r, skew) {
      assert LockedReply(s, r);
    }
  }

  lemma LoopAnswerKeeps(s: State, s': State, l: Locker, n: NodeId, reply: LockReply, skew: NodeId -> real)
    requires Inv(s, skew) && StepTo(s, s', LoopAnswer(l, n, reply), skew)
    ensures Inv(s', skew)
  {
    forall m, k | HasLoop(s', m, k) ensures LoopOk(s', m, k, skew) {
      assert HasLoop(s, m, k) && LoopOk(s, m, k, skew);
      if m == l && k == n && reply == Locked {
        var r := LoopOf(s, l, n).pc.request;
        assert LockedReply(s, r);
        assert ReplyOk(s, r, skew) && RequestOk(s, r);
      }
    }
    forall r | LockedReply(s', r) ensures ReplyOk(s', r, skew) {
      assert LockedReply(s, r);
    }
  }

  /** Whatever request a node handles, it does not break a promise made to a running operation. */
  lemma HandleKeepsSecured(s: State, s': State, step: Step, skew: NodeId -> real, l: Locker, n: NodeId, deadline: real)
    requires Inv(s, skew) && step.Handle? && StepTo(s, s', step, skew)
    requires l in s.ops && !s.ops[l].phase.Ended?
    requires Secured(s, l, n, deadline, skew) && deadline <= s.now + s.ops[l].ttl
    ensures Secured(s', l, n, deadline, skew)
  {
    var r, k := step.request, skew(step.request.node);
    assert RequestOk(s, r);
    if n == r.node && s'.now <= deadline {
      assert Owns(s.locks[n], l, step.t1 + k, step.t2 + k);
      if step.reply == Locked {
        assert IsLocked(step.lock, step.t3 + k + r.ttl) == Some(r.locker);
      } else if r.locker != l {
        OthersLockStands(r.call, s.locks[n], r.locker, r.ttl, step.t1 + k, step.t2 + k, step.t3 + k, step.lock, step.reply, l);
      }
    }
  }

  lemma HandleKeeps(s: State, s': State, step: Step, skew: NodeId -> real)
    requires Inv(s, skew) && step.Handle? && StepTo(s, s', step, skew)
    ensures Inv(s', skew)
  {
    var r := step.request;
    assert RequestOk(s, r);
    forall q | LockedReply(s', q) ensures ReplyOk(s', q, skew) {
      if LockedReply(s, q) {
        assert ReplyOk(s, q, skew) && RequestOk(s, q);
        if !s.ops[q.locker].phase.Ended? {
          HandleKeepsSecured(s, s', step, skew, q.locker, q.node, q.sentAt + q.ttl);
        }
      } else {
        assert q == r && IsLocked(step.lock, step.t3 + skew(r.node) + r.ttl) == Some(r.locker);
      }
    }
    forall l, n | HasLoop(s', l, n) ensures LoopOk(s', l, n, skew) {
      assert HasLoop(s, l, n) && LoopOk(s, l, n, skew);
      HandleKeepsSecured(s, s', step, skew, l, n, LoopOf(s, l, n).lockEol);
    }
  }

  lemma NextKeeps(s: State, s': State, skew: NodeId -> real)
    requires Inv(s, skew) && Next(s, s', skew)
    ensures Inv(s', skew)
  {
    var step :| StepTo(s, s', step, skew);
    match step {
      case Acquire(l) => AcquireKeeps(s, s', l, skew);
      case Handle(_, _, _, _, _, _) => HandleKeeps(s, s', step, skew);
      case LoopCheck(l, n) => LoopMoveKeeps(s, s', step, l, n, skew);
      case LoopSleep(l, n) => LoopMoveKeeps(s, s', step, l, n, skew);
      case LoopAsk(l, n) => LoopAskKeeps(s, s', l, n, skew);
      case LoopTimeout(l, n) => LoopMoveKeeps(s, s', step, l, n, skew);
      case LoopAnswer(l, n, reply) => LoopAnswerKeeps(s, s', l, n, reply, skew);
      case _ => QuietStepKeeps(s, s', step, skew);
    }
  }

  // ---------------------------------------------------------------- every run

  ghost predicate IsRun(run: seq<State>, skew: NodeId -> real) {
    && run != [] && Init(run[0])
    && forall i :: 0 <= i < |run| - 1 ==> Next(run[i], run[i + 1], skew)
  }

  lemma {:induction false} RunKeepsInv(run: seq<State>, skew: NodeId -> real, i: nat)
    requires IsRun(run, skew) && i < |run|
    ensures Inv(run[i], skew)
  {
    if i > 0 {
      RunKeepsInv(run, skew, i - 1);
      NextKeeps(run[i - 1], run[i], skew);
    }
  }

  /** At every moment of every run, a lease the coordinator still counts on is backed by the node's
      lock, for at least as long as the coordinator believes. */
  lemma LeaseIsBacked(run: seq<State>, skew: NodeId -> real, i: nat, l: Locker, n: NodeId)
    requires IsRun(run, skew) && i < |run| && HoldsLease(run[i], l, n)
    ensures HeldUntil(run[i], l, n, LoopOf(run[i], l, n).lockEol, skew)
    ensures IsLocked(run[i].locks[n], run[i].now + skew(n)) == Some(l)
  {
    RunKeepsInv(run, skew, i);
    assert LoopOk(run[i], l, n, skew);
  }

  /** Two operations never hold a good lease on one node at the same moment. */
  lemma LeaseIsExclusive(run: seq<State>, skew: NodeId -> real, i: nat, l: Locker, m: Locker, n: NodeId)
    requires IsRun(run, skew) && i < |run|
    requires HoldsLease(run[i], l, n) && HoldsLease(run[i], m, n)
    ensures l == m
  {
    LeaseIsBacked(run, skew, i, l, n);
    LeaseIsBacked(run, skew, i, m, n);
  }

  // ---------------------------------------------------------------- leases last as long as they are renewed

  /** A run together with its steps. */
  ghost predicate IsTrace(run: seq<State>, steps: seq<Step>, skew: NodeId -> real) {
    && |run| == |steps| + 1 && Init(run[0])
    && forall i :: 0 <= i < |steps| ==> StepTo(run[i], run[i + 1], steps[i], skew)
  }

  /** The loop got a granted relock in this step. */
  ghost predicate Renewed(s: State, step: Step, l: Locker, n: NodeId) {
    step == LoopAnswer(l, n, Locked) && HasLoop(s, l, n) && LoopOf(s, l, n).pc.Asking?
  }

  /** The reading of the clock that went before the last granted relock; before the first one, the start of
      the operation. */
  ghost function LeaseStart(run: seq<State>, steps: seq<Step>, l: Locker, n: NodeId, i: nat): real
    requires |run| == |steps| + 1 && i <= |steps|
  {
    if i == 0 then 0.0
    else if Renewed(run[i - 1], steps[i - 1], l, n) then LoopOf(run[i - 1], l, n).pc.t
    else if steps[i - 1] == Acquire(l) && l in run[i - 1].ops then run[i - 1].ops[l].initialLockStart
    else LeaseStart(run, steps, l, n, i - 1)
  }

  /** What one step does to a loop's two deadlines. */
  lemma StepMovesDeadlines(s: State, s': State, step: Step, skew: NodeId -> real, l: Locker, n: NodeId)
    requires StepTo(s, s', step, skew) && HasLoop(s', l, n)
    ensures l in s.ops && s'.ops[l].ttl == s.ops[l].ttl
    ensures step == Acquire(l) ==>
      LoopOf(s', l, n) == RelockLoop(s.ops[l].initialLockStart + s.ops[l].ttl, s.ops[l].initialLockStart + s.ops[l].ttl / 2.0, Top)
    ensures step != Acquire(l) ==> HasLoop(s, l, n)
    ensures Renewed(s, step, l, n) ==>
      var t, ttl := LoopOf(s, l, n).pc.t, s.ops[l].ttl; LoopOf(s', l, n) == RelockLoop(t + ttl, t + ttl / 2.0, Top)
    ensures step != Acquire(l) && !Renewed(s, step, l, n) ==>
      LoopOf(s', l, n).lockEol == LoopOf(s, l, n).lockEol && LoopOf(s', l, n).nextLock == LoopOf(s, l, n).nextLock
  {
  }

  /** A loop's lease runs for one ttl from that reading, and the next relock is due after half of it. */
  lemma {:induction false} LeaseRunsFrom(run: seq<State>, steps: seq<Step>, skew: NodeId -> real, l: Locker, n: NodeId, i: nat)
    requires IsTrace(run, steps, skew) && i <= |steps| && HasLoop(run[i], l, n)
    ensures var start, ttl, loop := LeaseStart(run, steps, l, n, i), run[i].ops[l].ttl, LoopOf(run[i], l, n);
      loop.lockEol == start + ttl && loop.nextLock == start + ttl / 2.0
  {
    if i > 0 {
      StepMovesDeadlines(run[i - 1], run[i], steps[i - 1], skew, l, n);
      if steps[i - 1] != Acquire(l) {
        LeaseRunsFrom(run, steps, skew, l, n, i - 1);
      }
    }
  }

  /** A loop gives its lease up only on an answer that is no grant, or when more than a ttl has passed since
      the reading before its last grant; within that time a check never gives it up. */
  lemma GivesUpOnlyIf(run: seq<State>, steps: seq<Step>, skew: NodeId -> real, l: Locker, n: NodeId, i: nat)
    requires IsTrace(run, steps, skew) && i < |steps| && HasLoop(run[i], l, n) && HasLoop(run[i + 1], l, n)
    requires !LoopOf(run[i], l, n).pc.Returned?
    ensures LoopOf(run[i + 1], l, n).pc.Returned? <==>
      || (steps[i].LoopAnswer? && steps[i].locker == l && steps[i].node == n && steps[i].reply != Locked)
      || (steps[i] == LoopCheck(l, n) && run[i].now > LeaseStart(run, steps, l, n, i) + run[i].ops[l].ttl)
  {
    LeaseRunsFrom(run, steps, skew, l, n, i);
    assert StepTo(run[i], run[i + 1], steps[i], skew);
  }

  /** A loop asks for a new lease exactly when it has read a time in the second half of the old one or later;
      before that it sleeps. */
  lemma AsksFromHalfTime(run: seq<State>, steps: seq<Step>, skew: NodeId -> real, l: Locker, n: NodeId, i: nat)
    requires IsTrace(run, steps, skew) && i < |steps| && HasLoop(run[i], l, n) && LoopOf(run[i], l, n).pc.Reading?
    ensures var half := LeaseStart(run, steps, l, n, i) + run[i].ops[l].ttl / 2.0;
      && (steps[i] == LoopAsk(l, n) ==> LoopOf(run[i], l, n).pc.t >= half)
      && (steps[i] == LoopSleep(l, n) ==> LoopOf(run[i], l, n).pc.t < half)
  {
    LeaseRunsFrom(run, steps, skew, l, n, i);
    assert StepTo(run[i], run[i + 1], steps[i], skew);
  }

  lemma TraceIsRun(run: seq<State>, steps: seq<Step>, skew: NodeId -> real)
    requires IsTrace(run, steps, skew)
    ensures IsRun(run, skew)
  {
    forall i | 0 <= i < |run| - 1 ensures Next(run[i], run[i + 1], skew) {
      assert StepTo(run[i], run[i + 1], steps[i], skew);
    }
  }

  // ---------------------------------------------------------------- a renewed lease

  const holder: Locker := "host-1"

  ghost function Asked(call: LockCall, at: real): Request {
    Request(call, holder, 0, 60.0, at)
  }

  ghost function Op60(phase: Phase): map<Locker, Operation> {
    map[holder := Operation(60.0, 0.0, {0}, phase)]
  }

  ghost function Looping(lockEol: real, nextLock: real, pc: LoopPc): Phase {
    Running(map[0 := RelockLoop(lockEol, nextLock, pc)])
  }

  ghost function Held(until: real): map<NodeId, Option<LockEntry>> {
    map[0 := Some(LockEntry(holder, until))]
  }

  /** One node, a ttl of 60: locked at 0, and renewed by a relock read and answered at 31. */
  ghost function RenewedRun(): seq<State> {
    var lockedOnce, renewed := {(Asked(Lock, 0.0), Locked)}, {(Asked(Lock, 0.0), Locked), (Asked(Relock, 31.0), Locked)};
    var one, two := {Asked(Lock, 0.0)}, {Asked(Lock, 0.0), Asked(Relock, 31.0)};
    [State(0.0, map[0 := None], map[], {}, {}),
     State(0.0, map[0 := None], Op60(Acquiring), {}, {}),
     State(0.0, map[0 := None], Op60(Acquiring), one, {}),
     State(0.0, Held(60.0), Op60(Acquiring), one, lockedOnce),
     State(0.0, Held(60.0), Op60(Looping(60.0, 30.0, Top)), one, lockedOnce),
     State(31.0, Held(60.0), Op60(Looping(60.0, 30.0, Top)), one, lockedOnce),
     State(31.0, Held(60.0), Op60(Looping(60.0, 30.0, Reading(31.0))), one, lockedOnce),
     State(31.0, Held(60.0), Op60(Looping(60.0, 30.0, Asking(31.0, Asked(Relock, 31.0)))), two, lockedOnce),
     State(31.0, Held(91.0), Op60(Looping(60.0, 30.0, Asking(31.0, Asked(Relock, 31.0)))), two, renewed),
     State(31.0, Held(91.0), Op60(Looping(91.0, 61.0, Top)), two, renewed),
     State(90.0, Held(91.0), Op60(Looping(91.0, 61.0, Top)), two, renewed)]
  }

  ghost function RenewedSteps(): seq<Step> {
    [Create(holder, 60.0, {0}), SendLock(holder, 0),
     Handle(Asked(Lock, 0.0), 0.0, 0.0, 0.0, Some(LockEntry(holder, 60.0)), Locked), Acquire(holder), Tick,
     LoopCheck(holder, 0), LoopAsk(holder, 0),
     Handle(Asked(Relock, 31.0), 31.0, 31.0, 31.0, Some(LockEntry(holder, 91.0)), Locked), LoopAnswer(holder, 0, Locked), Tick]
  }

  lemma SetsLoop(s: State, was: RelockLoop, loop: RelockLoop)
    requires s.ops == Op60(Running(map[0 := was]))
    ensures HasLoop(s, holder, 0) && LoopOf(s, holder, 0) == was && SetLoop(s, holder, 0, loop) == Op60(Running(map[0 := loop]))
  {
    assert map[0 := was][0 := loop] == map[0 := loop];
    assert s.ops[holder := s.ops[holder].(phase := Running(map[0 := loop]))] == Op60(Running(map[0 := loop]));
  }

  ghost predicate StepHolds(i: nat, skew: NodeId -> real)
    requires i < 10
  {
    StepTo(RenewedRun()[i], RenewedRun()[i + 1], RenewedSteps()[i], skew)
  }

  lemma CreatingSteps(skew: NodeId -> real)
    ensures StepHolds(0, skew) && StepHolds(1, skew)
  {
    var run := RenewedRun();
    assert run[0].ops[holder := Operation(60.0, 0.0, {0}, Acquiring)] == Op60(Acquiring);
    assert run[1].sent + {Asked(Lock, 0.0)} == run[2].sent;
  }

  /** The node grants the first lease at 0. */
  lemma LockingStep(skew: NodeId -> real)
    requires skew(0) == 0.0
    ensures StepHolds(2, skew)
  {
    var run := RenewedRun();
    assert Answered(Lock, None, holder, 60.0, 0.0, 0.0, 0.0, Some(LockEntry(holder, 60.0)), Locked);
    assert run[2].locks[0 := Some(LockEntry(holder, 60.0))] == Held(60.0);
    assert run[2].replies + {(Asked(Lock, 0.0), Locked)} == run[3].replies;
  }

  lemma AcquiringSteps(skew: NodeId -> real)
    ensures StepHolds(3, skew) && StepHolds(4, skew)
  {
    var s := RenewedRun()[3];
    assert AllLocked(s, holder) by { assert LockedReply(s, Asked(Lock, 0.0)); }
    assert FreshLoops(s.ops[holder]) == map[0 := RelockLoop(60.0, 30.0, Top)];
    assert s.ops[holder := s.ops[holder].(phase := Looping(60.0, 30.0, Top))] == Op60(Looping(60.0, 30.0, Top));
  }

  lemma AskingSteps(skew: NodeId -> real)
    ensures StepHolds(5, skew) && StepHolds(6, skew)
  {
    var run := RenewedRun();
    SetsLoop(run[5], RelockLoop(60.0, 30.0, Top), RelockLoop(60.0, 30.0, Reading(31.0)));
    SetsLoop(run[6], RelockLoop(60.0, 30.0, Reading(31.0)), RelockLoop(60.0, 30.0, Asking(31.0, Asked(Relock, 31.0))));
    assert run[6].sent + {Asked(Relock, 31.0)} == run[7].sent;
  }

  /** The node renews it at 31. */
  lemma RenewingStep(skew: NodeId -> real)
    requires skew(0) == 0.0
    ensures StepHolds(7, skew)
  {
    var run := RenewedRun();
    var was, now := Some(LockEntry(holder, 60.0)), Some(LockEntry(holder, 91.0));
    assert Taken(was, 31.0) by { assert IsLocked(was, 31.0) == Some(holder); }
    assert Answered(Relock, was, holder, 60.0, 31.0, 31.0, 31.0, now, Locked);
    assert run[7].locks[0 := now] == Held(91.0);
    assert run[7].replies + {(Asked(Relock, 31.0), Locked)} == run[8].replies;
  }

  lemma AnsweredSteps(skew: NodeId -> real)
    ensures StepHolds(8, skew) && StepHolds(9, skew)
  {
    SetsLoop(RenewedRun()[8], RelockLoop(60.0, 30.0, Asking(31.0, Asked(Relock, 31.0))), RelockLoop(91.0, 61.0, Top));
  }

  lemma RenewedTrace(skew: NodeId -> real)
    requires skew(0) == 0.0
    ensures IsTrace(RenewedRun(), RenewedSteps(), skew)
  {
    CreatingSteps(skew);
    LockingStep(skew);
    AcquiringSteps(skew);
    AskingSteps(skew);
    RenewingStep(skew);
    AnsweredSteps(skew);
    forall i | 0 <= i < 10 ensures StepTo(RenewedRun()[i], RenewedRun()[i + 1], RenewedSteps()[i], skew) {
      assert StepHolds(i, skew);
    }
  }

  /** A lease is held at 90, half a minute after the one it began with would have run out. */
  lemma RenewedLeaseIsHeld(skew: NodeId -> real)
    requires skew(0) == 0.0
    ensures IsTrace(RenewedRun(), RenewedSteps(), skew) && IsRun(RenewedRun(), skew)
    ensures var s := RenewedRun()[10]; HoldsLease(s, holder, 0) && s.now > s.ops[holder].initialLockStart + s.ops[holder].ttl
  {
    RenewedTrace(skew);
    TraceIsRun(RenewedRun(), RenewedSteps(), skew);
  }
}
