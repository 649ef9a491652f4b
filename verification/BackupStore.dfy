/** Object storage over whole runs: backups with retried attempts, delta backups and cleanups, one
    operation at a time, each of which may stop after any storage call. */
module BackupStore {
  import opened UploadBalance
  import opened UploadStep

  /** Manifest names by their prefix. */
  datatype Name = Base(stamp: string) | Delta(stamp: string)

  /** What matters of a manifest here: the hexdigests its snapshot results refer to. */
  datatype Manifest = Manifest(digests: set<string>)

  type Json = map<Name, Manifest>

  ghost predicate Referenced(json: Json, d: string) {
    exists n :: n in json && d in json[n].digests
  }

  /** Every hexdigest of every stored manifest is in digest storage. */
  ghost predicate Present(json: Json, digests: set<string>) {
    forall n :: n in json ==> json[n].digests <= digests
  }

  ghost function AllDigests(snapshots: Snapshots): set<string> {
    set i, h | 0 <= i < |snapshots| && h in snapshots[i] :: h.hexdigest
  }

  // ---------------------------------------------------------------- the machine

  /** One digest of one node's package: not uploaded, uploaded and to be checked again, or settled. */
  datatype Phase = Waiting | Rechecking | Succeeded | Failed

  type Worker = (nat, string)

  datatype Op =
    | Idle
    | BackupStarted(delta: bool)
    | Snapshotted(delta: bool, snapshots: Snapshots)
    | Listed(delta: bool, snapshots: Snapshots, listed: set<string>)
    | Uploading(delta: bool, snapshots: Snapshots, listed: set<string>, workers: map<Worker, Phase>)
    | CleanupStarted
    | DeletingManifests(kept: set<Name>, todo: set<Name>)
    | Discarding(kept: set<Name>, pending: set<Name>, extra: set<string>)
    | DeletingDigests(kept: set<Name>, extra: set<string>)
  {
    predicate IsBackup() {
      BackupStarted? || Snapshotted? || Listed? || Uploading?
    }

    predicate Cleaning() {
      Discarding? || DeletingDigests?
    }
  }

  /** A worker whose attempt has ended. The threads of one package of one attempt belong to one upload loop. */
  datatype Thread = Thread(attempt: nat, delta: bool, package: nat, digest: string)

  /** `deltas`: whether the plugin makes delta backups, and so cleans them up as well.
      `attempts`: how many attempts have ended; `stale`: their workers, with the phase each is in. */
  datatype State = State(deltas: bool, json: Json, digests: set<string>, op: Op, attempts: nat, stale: map<Thread, Phase>)

  datatype Step =
    | BeginBackup(delta: bool)
    | TakeSnapshot(snapshots: Snapshots)
    | ListHexdigests
    | AssignUploads(packages: seq<NodeIndexData>)
    | Upload(w: Worker)
    | UploadRaises(w: Worker, arrives: bool)
    | RecheckAgrees(w: Worker)
    | RecheckDiffers(w: Worker)
    | ReportMissing(w: Worker)
    | UploadManifest(name: Name)
    | BeginCleanup
    | ComputeKept(kept: set<Name>)
    | DeleteManifest(name: Name)
    | ListExtra
    | DiscardReferenced(name: Name)
    | StartDeleting
    | DeleteExtra(d: string)
    | NextAttempt
    | Stop
    | StaleUpload(t: Thread)
    | StaleDelete(t: Thread)
    | StaleSettle(t: Thread, p: Phase)

  function NodeIndices(n: nat): seq<nat> {
    seq(n, i => i)
  }

  ghost function WorkersFor(packages: seq<NodeIndexData>): map<Worker, Phase> {
    map a, d | 0 <= a < |packages| && d in DigestsOf(packages[a].sshashes) :: (a, d) := Waiting
  }

  /** The workers an attempt leaves behind when it ends. */
  ghost function LeftBehind(op: Op, attempt: nat): map<Thread, Phase> {
    if op.Uploading? then map w | w in op.workers :: Thread(attempt, op.delta, w.0, w.1) := op.workers[w] else map[]
  }

  predicate Settled(p: Phase) {
    p == Succeeded || p == Failed
  }

  predicate SameLoop(t: Thread, u: Thread) {
    t.attempt == u.attempt && t.delta == u.delta && t.package == u.package
  }

  /** An upload loop holds its node's snapshot lock until it is left, and it is left only after some
      worker's result: then other workers may still be at it. Delta snapshots have a lock of their own. */
  ghost predicate LoopsLeft(stale: map<Thread, Phase>, delta: bool) {
    forall t :: t in stale && t.delta == delta ==> LoopLeft(stale, t)
  }

  ghost predicate LoopLeft(stale: map<Thread, Phase>, t: Thread) {
    exists u :: u in stale && SameLoop(t, u) && Settled(stale[u])
  }

  ghost predicate ThreadIn(s: State, t: Thread, p: Phase) {
    t in s.stale && s.stale[t] == p
  }

  ghost predicate WorkerIn(s: State, w: Worker, p: Phase) {
    s.op.Uploading? && w in s.op.workers && s.op.workers[w] == p
  }

  ghost predicate Enabled(s: State, step: Step) {
    match step
    case BeginBackup(delta) => s.op.Idle? && (delta ==> s.deltas)
    case TakeSnapshot(snapshots) => s.op.BackupStarted? && OneSize(snapshots) && LoopsLeft(s.stale, s.op.delta)
    case ListHexdigests => s.op.Snapshotted?
    case AssignUploads(packages) => s.op.Listed? && Covers(packages, s.op.snapshots, s.op.listed, NodeIndices(|s.op.snapshots|))
    case Upload(w) => WorkerIn(s, w, Waiting)
    case UploadRaises(w, _) => WorkerIn(s, w, Waiting)
    case RecheckAgrees(w) => WorkerIn(s, w, Rechecking)
    case RecheckDiffers(w) => WorkerIn(s, w, Rechecking)
    case ReportMissing(w) => WorkerIn(s, w, Waiting)
    case UploadManifest(name) =>
      s.op.Uploading? && (name.Delta? <==> s.op.delta) && forall w :: w in s.op.workers ==> s.op.workers[w] == Succeeded
    case BeginCleanup => s.op.Idle?
    case ComputeKept(kept) => s.op.CleanupStarted? && kept <= s.json.Keys
    case DeleteManifest(name) => s.op.DeletingManifests? && name in s.op.todo
    case ListExtra => s.op.DeletingManifests? && s.op.todo == {}
    case DiscardReferenced(name) => s.op.Discarding? && name in s.op.pending && name in s.json
    case StartDeleting => s.op.Discarding? && s.op.pending == {}
    case DeleteExtra(d) => s.op.DeletingDigests? && d in s.op.extra
    case NextAttempt => s.op.IsBackup()
    case Stop => true
    case StaleUpload(t) => ThreadIn(s, t, Waiting)
    case StaleDelete(t) => ThreadIn(s, t, Rechecking)
    case StaleSettle(t, p) => t in s.stale && !Settled(s.stale[t]) && Settled(p) && (p == Succeeded ==> s.stale[t] == Rechecking)
  }

  /** What cleanup lists: base backups, and delta backups where the plugin has them. */
  function ListedNames(s: State): set<Name> {
    set n | n in s.json && (n.Base? || s.deltas)
  }

  ghost function WithWorker(s: State, w: Worker, p: Phase): State
    requires s.op.Uploading?
  {
    s.(op := s.op.(workers := s.op.workers[w := p]))
  }

  ghost function Apply(s: State, step: Step): State
    requires Enabled(s, step)
  {
    match step
    case BeginBackup(delta) => s.(op := BackupStarted(delta))
    case TakeSnapshot(snapshots) => s.(op := Snapshotted(s.op.delta, snapshots))
    // a delta backup does not list: its data is taken to be new
    case ListHexdigests => s.(op := Listed(s.op.delta, s.op.snapshots, if s.op.delta then {} else s.digests))
    case AssignUploads(packages) => s.(op := Uploading(s.op.delta, s.op.snapshots, s.op.listed, WorkersFor(packages)))
    case Upload(w) => WithWorker(s, w, Rechecking).(digests := s.digests + {w.1})
    case UploadRaises(w, arrives) => WithWorker(s, w, Failed).(digests := if arrives then s.digests + {w.1} else s.digests)
    case RecheckAgrees(w) => WithWorker(s, w, Succeeded)
    case RecheckDiffers(w) => WithWorker(s, w, Waiting).(digests := s.digests - {w.1})
    case ReportMissing(w) => WithWorker(s, w, Failed)
    case UploadManifest(name) => s.(json := s.json[name := Manifest(AllDigests(s.op.snapshots))])
    case BeginCleanup => s.(op := CleanupStarted)
    case ComputeKept(kept) => s.(op := DeletingManifests(kept, ListedNames(s) - kept))
    case DeleteManifest(name) => s.(json := s.json - {name}, op := s.op.(todo := s.op.todo - {name}))
    case ListExtra => s.(op := Discarding(s.op.kept, s.op.kept, s.digests))
    case DiscardReferenced(name) => s.(op := s.op.(pending := s.op.pending - {name}, extra := s.op.extra - s.json[name].digests))
    case StartDeleting => s.(op := DeletingDigests(s.op.kept, s.op.extra))
    case DeleteExtra(d) => s.(digests := s.digests - {d}, op := s.op.(extra := s.op.extra - {d}))
    case NextAttempt => AttemptEnded(s).(op := BackupStarted(s.op.delta))
    case Stop => AttemptEnded(s).(op := Idle)
    case StaleUpload(t) => s.(digests := s.digests + {t.digest}, stale := s.stale[t := Rechecking])
    case StaleDelete(t) => s.(digests := s.digests - {t.digest}, stale := s.stale[t := Waiting])
    case StaleSettle(t, p) => s.(stale := s.stale[t := p])
  }

  ghost function AttemptEnded(s: State): State {
    s.(attempts := s.attempts + 1, stale := s.stale + LeftBehind(s.op, s.attempts))
  }

  // ---------------------------------------------------------------- the invariant

  ghost predicate NoneFailed(workers: map<Worker, Phase>) {
    forall w :: w in workers ==> workers[w] != Failed
  }

  /** The digest is expected in storage by a worker that has uploaded it. */
  ghost predicate Delivered(workers: map<Worker, Phase>, d: string) {
    exists a: nat :: (a, d) in workers && (workers[(a, d)] == Rechecking || workers[(a, d)] == Succeeded)
  }

  /** The running attempt can still write a manifest, and takes it for granted that this digest is stored. */
  ghost predicate ReliedOn(op: Op, d: string) {
    match op
    case Listed(_, snapshots, listed) => d in AllDigests(snapshots) && d in listed
    case Uploading(_, snapshots, listed, workers) =>
      NoneFailed(workers) && d in AllDigests(snapshots) && (d in listed || Delivered(workers, d))
    case _ => false
  }

  ghost predicate HasWorker(workers: set<Worker>, d: string) {
    exists a: nat :: (a, d) in workers
  }

  /** Every unlisted digest has exactly one worker, and no listed one has any. */
  ghost predicate OneWorkerEach(snapshots: Snapshots, listed: set<string>, workers: set<Worker>) {
    && (forall a: nat, b: nat, d :: (a, d) in workers && (b, d) in workers ==> a == b)
    && (forall d :: HasWorker(workers, d) <==> d in AllDigests(snapshots) && d !in listed)
  }

  /** What the attempt's workers may still delete is in no manifest. */
  ghost predicate Free(json: Json, op: Op) {
    match op
    case Listed(_, snapshots, listed) => forall d :: d in AllDigests(snapshots) && d !in listed ==> !Referenced(json, d)
    case Uploading(_, _, _, workers) => forall w :: w in workers && workers[w] != Succeeded ==> !Referenced(json, w.1)
    case _ => true
  }

  ghost predicate OpHolds(json: Json, op: Op) {
    match op
    case Snapshotted(_, snapshots) => OneSize(snapshots)
    case Listed(delta, snapshots, listed) => OneSize(snapshots) && (!delta ==> Free(json, op))
    case Uploading(delta, snapshots, listed, workers) => OneWorkerEach(snapshots, listed, workers.Keys) && (!delta ==> Free(json, op))
    case DeletingManifests(kept, todo) => json.Keys == kept + todo && kept !! todo
    case Discarding(kept, pending, extra) =>
      json.Keys == kept && pending <= kept && forall n :: n in kept - pending ==> json[n].digests !! extra
    case DeletingDigests(kept, extra) => json.Keys == kept && forall n :: n in json ==> json[n].digests !! extra
    case _ => true
  }

  ghost predicate Inv(s: State) {
    && Present(s.json, s.digests)
    && (forall d :: ReliedOn(s.op, d) ==> d in s.digests)
    && (!s.deltas ==> forall n :: n in s.json ==> n.Base?)
    && (s.op.IsBackup() && s.op.delta ==> s.deltas)
    && OpHolds(s.json, s.op)
  }

  // ---------------------------------------------------------------- each step keeps it

  /** The assignment gives each unlisted digest to one node. */
  lemma AssignedToOne(packages: seq<NodeIndexData>, snapshots: Snapshots, listed: set<string>)
    requires Covers(packages, snapshots, listed, NodeIndices(|snapshots|)) && OneSize(snapshots)
    ensures OneWorkerEach(snapshots, listed, WorkersFor(packages).Keys)
  {
    var indices := NodeIndices(|snapshots|);
    PackagesFit(packages, snapshots, listed, indices);
    forall d ensures SomePackage(packages, |packages|, d) <==> d in AllDigests(snapshots) && d !in listed {
      PackageDigests(packages, snapshots, listed, indices, d);
    }
    WorkersOfPackages(packages, snapshots, listed);
  }

  lemma WorkersOfPackages(packages: seq<NodeIndexData>, snapshots: Snapshots, listed: set<string>)
    requires Apart(packages)
    requires forall d :: SomePackage(packages, |packages|, d) <==> d in AllDigests(snapshots) && d !in listed
    ensures OneWorkerEach(snapshots, listed, WorkersFor(packages).Keys)
  {
    var keys := WorkersFor(packages).Keys;
    forall d ensures HasWorker(keys, d) <==> SomePackage(packages, |packages|, d) {
      if SomePackage(packages, |packages|, d) {
        var a :| 0 <= a < |packages| && d in DigestsOf(packages[a].sshashes);
        assert (a, d) in keys;
      }
    }
  }

  lemma FreshWorkersKeep(s: State, workers: map<Worker, Phase>)
    requires Inv(s) && s.op.Listed? && OneWorkerEach(s.op.snapshots, s.op.listed, workers.Keys)
    requires forall w :: w in workers ==> workers[w] == Waiting
    ensures Inv(s.(op := Uploading(s.op.delta, s.op.snapshots, s.op.listed, workers)))
  {
    var t := s.(op := Uploading(s.op.delta, s.op.snapshots, s.op.listed, workers));
    forall d | ReliedOn(t.op, d) ensures d in t.digests {
      assert ReliedOn(s.op, d);
    }
    if !s.op.delta {
      FreshWorkersFree(s.json, s.op, workers);
    }
  }

  lemma FreshWorkersFree(json: Json, op: Op, workers: map<Worker, Phase>)
    requires op.Listed? && Free(json, op) && OneWorkerEach(op.snapshots, op.listed, workers.Keys)
    ensures Free(json, Uploading(op.delta, op.snapshots, op.listed, workers))
  {
    forall w | w in workers ensures !Referenced(json, w.1) {
      assert (w.0, w.1) in workers.Keys;
      assert HasWorker(workers.Keys, w.1);
    }
  }

  ghost predicate IsWorkerStep(step: Step) {
    step.Upload? || step.UploadRaises? || step.RecheckAgrees? || step.RecheckDiffers? || step.ReportMissing?
  }

  /** A digest that is relied on after one worker has moved is either that worker's or was relied on before. */
  lemma RelianceBefore(op: Op, w: Worker, p: Phase, d: string)
    requires op.Uploading? && w in op.workers && op.workers[w] != Failed
    requires ReliedOn(op.(workers := op.workers[w := p]), d)
    ensures ReliedOn(op, d) || (w.1 == d && d !in op.listed && op.workers[w] == Waiting)
  {
    var after := op.workers[w := p];
    assert NoneFailed(op.workers) by {
      forall v | v in op.workers ensures op.workers[v] != Failed {
        assert v in after;
      }
    }
    if d !in op.listed {
      var a: nat :| (a, d) in after && (after[(a, d)] == Rechecking || after[(a, d)] == Succeeded);
      assert (a, d) in op.workers;
      if op.workers[(a, d)] != Waiting {
        assert Delivered(op.workers, d);
      }
    }
  }

  /** One worker moves and at most its own digest comes, or goes if it is in no manifest. */
  lemma WorkerMoves(s: State, w: Worker, p: Phase, digests: set<string>)
    requires Inv(s) && s.op.Uploading? && w in s.op.workers && s.op.workers[w] != Failed && s.op.workers[w] != Succeeded
    requires digests - {w.1} == s.digests - {w.1}
    requires w.1 in digests || digests == s.digests || !Referenced(s.json, w.1)
    requires p == Rechecking ==> w.1 in digests
    requires p == Succeeded ==> digests == s.digests && s.op.workers[w] == Rechecking
    ensures Inv(WithWorker(s, w, p).(digests := digests))
  {
    var t := WithWorker(s, w, p).(digests := digests);
    assert t.op.workers.Keys == s.op.workers.Keys;
    assert forall d :: d != w.1 ==> (d in digests <==> d in digests - {w.1});
    assert forall d :: d != w.1 ==> (d in s.digests <==> d in s.digests - {w.1});
    forall d | ReliedOn(t.op, d) ensures d in digests {
      RelianceBefore(s.op, w, p, d);
      if d == w.1 {
        OwnDigest(s.op, w, p);
      }
    }
    forall n | n in s.json ensures s.json[n].digests <= digests {
      assert s.json[n].digests <= s.digests;
    }
  }

  /** A worker that goes back to waiting, or fails, leaves its own digest with nobody relying on it. */
  lemma OwnDigest(op: Op, w: Worker, p: Phase)
    requires op.Uploading? && OneWorkerEach(op.snapshots, op.listed, op.workers.Keys) && w in op.workers
    requires ReliedOn(op.(workers := op.workers[w := p]), w.1)
    ensures p == Rechecking || p == Succeeded
  {
    var after := op.workers[w := p];
    assert (w.0, w.1) in op.workers.Keys;
    assert HasWorker(op.workers.Keys, w.1);
    var a: nat :| (a, w.1) in after && (after[(a, w.1)] == Rechecking || after[(a, w.1)] == Succeeded);
    assert (a, w.1) in op.workers.Keys;
  }

  lemma WorkerKeeps(s: State, step: Step)
    requires Inv(s) && Enabled(s, step) && IsWorkerStep(step)
    requires step.RecheckDiffers? ==> !Referenced(s.json, step.w.1)
    ensures Inv(Apply(s, step))
  {
    var w := step.w;
    match step
    case Upload(_) => WorkerMoves(s, w, Rechecking, s.digests + {w.1});
    case UploadRaises(_, arrives) => WorkerMoves(s, w, Failed, if arrives then s.digests + {w.1} else s.digests);
    case RecheckAgrees(_) => WorkerMoves(s, w, Succeeded, s.digests);
    case RecheckDiffers(_) => WorkerMoves(s, w, Waiting, s.digests - {w.1});
    case ReportMissing(_) => WorkerMoves(s, w, Failed, s.digests);
  }

  /** The manifest is written only when each of its digests is stored. */
  lemma ManifestKeeps(s: State, name: Name)
    requires Inv(s) && Enabled(s, UploadManifest(name))
    ensures Inv(Apply(s, UploadManifest(name)))
  {
    var t := Apply(s, UploadManifest(name));
    forall d | d in AllDigests(s.op.snapshots) ensures d in s.digests {
      if d !in s.op.listed {
        assert HasWorker(s.op.workers.Keys, d);
        var a: nat :| (a, d) in s.op.workers.Keys;
        assert Delivered(s.op.workers, d);
      }
      assert ReliedOn(s.op, d);
    }
  }

  ghost predicate IsCleanupStep(step: Step) {
    step.ComputeKept? || step.DeleteManifest? || step.ListExtra? || step.DiscardReferenced? || step.StartDeleting? || step.DeleteExtra?
  }

  lemma CleanupKeeps(s: State, step: Step)
    requires Inv(s) && Enabled(s, step) && IsCleanupStep(step)
    ensures Inv(Apply(s, step))
  {
    var t := Apply(s, step);
    if step.ComputeKept? {
      assert ListedNames(s) == s.json.Keys;
    } else if step.DiscardReferenced? {
      forall n | n in t.op.kept - t.op.pending ensures t.json[n].digests !! t.op.extra {
        assert n != step.name ==> n in s.op.kept - s.op.pending;
      }
    }
  }

  /** A delete by a worker that outlived its attempt, of a digest nobody counts on. */
  lemma StaleDeleteKeeps(s: State, t: Thread)
    requires Inv(s) && Enabled(s, StaleDelete(t)) && !Referenced(s.json, t.digest) && !ReliedOn(s.op, t.digest)
    ensures Inv(Apply(s, StaleDelete(t)))
  {
    forall n | n in s.json ensures t.digest !in s.json[n].digests {
    }
  }

  /** A delete, after a failed recheck or by a late worker, is of a digest that nobody counts on. */
  ghost predicate Harmless(s: State, step: Step) {
    && (step.RecheckDiffers? ==> !Referenced(s.json, step.w.1))
    && (step.StaleDelete? ==> !Referenced(s.json, step.t.digest) && !ReliedOn(s.op, step.t.digest))
  }

  lemma StepKeeps(s: State, step: Step)
    requires Inv(s) && Enabled(s, step) && Harmless(s, step)
    ensures Inv(Apply(s, step))
  {
    if IsWorkerStep(step) {
      WorkerKeeps(s, step);
    } else if IsCleanupStep(step) {
      CleanupKeeps(s, step);
    } else {
      match step
      case AssignUploads(packages) =>
        AssignedToOne(packages, s.op.snapshots, s.op.listed);
        FreshWorkersKeep(s, WorkersFor(packages));
      case UploadManifest(name) => ManifestKeeps(s, name);
      case StaleDelete(t) => StaleDeleteKeeps(s, t);
      case _ =>
    }
  }

  // ---------------------------------------------------------------- whole runs

  function Fresh(deltas: bool): State {
    State(deltas, map[], {}, Idle, 0, map[])
  }

  ghost predicate IsRun(s: State, steps: seq<Step>)
    decreases |steps|
  {
    steps == [] || (Enabled(s, steps[0]) && IsRun(Apply(s, steps[0]), steps[1..]))
  }

  ghost predicate HarmlessRun(s: State, steps: seq<Step>)
    requires IsRun(s, steps)
    decreases |steps|
  {
    steps == [] || (Harmless(s, steps[0]) && HarmlessRun(Apply(s, steps[0]), steps[1..]))
  }

  ghost function End(s: State, steps: seq<Step>): State
    requires IsRun(s, steps)
    decreases |steps|
  {
    if steps == [] then s else End(Apply(s, steps[0]), steps[1..])
  }

  lemma {:induction false} RunKeeps(s: State, steps: seq<Step>)
    requires Inv(s) && IsRun(s, steps) && HarmlessRun(s, steps)
    ensures Inv(End(s, steps))
    decreases |steps|
  {
    if steps != [] {
      StepKeeps(s, steps[0]);
      RunKeeps(Apply(s, steps[0]), steps[1..]);
    }
  }

  /** After any run from an empty store whose deletes are harmless, wherever it stops, every stored
      manifest's hexdigests are stored. */
  lemma ManifestsAreComplete(deltas: bool, steps: seq<Step>)
    requires IsRun(Fresh(deltas), steps) && HarmlessRun(Fresh(deltas), steps)
    ensures Present(End(Fresh(deltas), steps).json, End(Fresh(deltas), steps).digests)
  {
    RunKeeps(Fresh(deltas), steps);
  }

  // ---------------------------------------------------------------- rechecks that do no harm

  /** A recheck of a base attempt deletes nothing that a manifest refers to, whatever happened before. */
  lemma BaseRechecksAreHarmless(deltas: bool, steps: seq<Step>, w: Worker)
    requires IsRun(Fresh(deltas), steps) && HarmlessRun(Fresh(deltas), steps)
    requires var s := End(Fresh(deltas), steps); Enabled(s, RecheckDiffers(w)) && !s.op.delta
    ensures Harmless(End(Fresh(deltas), steps), RecheckDiffers(w))
  {
    RunKeeps(Fresh(deltas), steps);
  }

  /** A delta attempt goes past its skipped listing only with digests that no manifest refers to. */
  ghost predicate BringsNew(s: State, step: Step) {
    step.ListHexdigests? && s.op.Snapshotted? && s.op.delta ==> forall d :: d in AllDigests(s.op.snapshots) ==> !Referenced(s.json, d)
  }

  /** Workers stay free while their attempt lasts; at the listing they are free if the data is new. */
  lemma StaysFree(s: State, step: Step)
    requires Inv(s) && Free(s.json, s.op) && Enabled(s, step) && BringsNew(s, step)
    ensures Free(Apply(s, step).json, Apply(s, step).op)
  {
    var t := Apply(s, step);
    match step
    case AssignUploads(packages) =>
      AssignedToOne(packages, s.op.snapshots, s.op.listed);
      FreshWorkersFree(s.json, s.op, WorkersFor(packages));
    case _ =>
  }

  ghost predicate NewDataRun(s: State, steps: seq<Step>)
    requires IsRun(s, steps)
    decreases |steps|
  {
    steps == [] || (BringsNew(s, steps[0]) && NewDataRun(Apply(s, steps[0]), steps[1..]))
  }

  /** When delta attempts bring new data and no late worker deletes, every delete is harmless. */
  lemma {:induction false} NewDataIsHarmless(s: State, steps: seq<Step>)
    requires Inv(s) && Free(s.json, s.op) && IsRun(s, steps) && NewDataRun(s, steps)
    requires forall i :: 0 <= i < |steps| ==> !steps[i].StaleDelete?
    ensures HarmlessRun(s, steps)
    decreases |steps|
  {
    if steps != [] {
      StepKeeps(s, steps[0]);
      StaysFree(s, steps[0]);
      NewDataIsHarmless(Apply(s, steps[0]), steps[1..]);
    }
  }

  // ---------------------------------------------------------------- completed cleanups

  /** What cleanup has not marked for deletion is referenced by the manifests it has read. */
  ghost predicate Tidy(s: State) {
    match s.op
    case Discarding(kept, pending, extra) =>
      forall d :: d in s.digests && d !in extra ==> exists n :: n in kept - pending && n in s.json && d in s.json[n].digests
    case DeletingDigests(_, extra) => forall d :: d in s.digests && d !in extra ==> Referenced(s.json, d)
    case _ => true
  }

  /** What a worker of an earlier attempt uploads between cleanup's listing and its end is stored already
      or about to be deleted. */
  ghost predicate Unhurried(s: State, step: Step) {
    step.StaleUpload? && s.op.Cleaning() ==> step.t.digest in s.digests || step.t.digest in s.op.extra
  }

  lemma StepTidies(s: State, step: Step)
    requires Inv(s) && Tidy(s) && Enabled(s, step) && Unhurried(s, step)
    ensures Tidy(Apply(s, step))
  {
    var t := Apply(s, step);
    if step.DiscardReferenced? {
      forall d | d in t.digests && d !in t.op.extra
        ensures exists n :: n in t.op.kept - t.op.pending && n in t.json && d in t.json[n].digests
      {
        if d in s.op.extra {
          assert step.name in t.op.kept - t.op.pending;
        } else {
          var n :| n in s.op.kept - s.op.pending && n in s.json && d in s.json[n].digests;
          assert n in t.op.kept - t.op.pending;
        }
      }
    }
  }

  ghost predicate UnhurriedRun(s: State, steps: seq<Step>)
    requires IsRun(s, steps)
    decreases |steps|
  {
    steps == [] || (Unhurried(s, steps[0]) && UnhurriedRun(Apply(s, steps[0]), steps[1..]))
  }

  lemma {:induction false} RunTidies(s: State, steps: seq<Step>)
    requires Inv(s) && Tidy(s) && IsRun(s, steps) && HarmlessRun(s, steps) && UnhurriedRun(s, steps)
    ensures Tidy(End(s, steps))
    decreases |steps|
  {
    if steps != [] {
      StepKeeps(s, steps[0]);
      StepTidies(s, steps[0]);
      RunTidies(Apply(s, steps[0]), steps[1..]);
    }
  }

  /** When a cleanup has deleted all it marked, the manifests are those kept and the digests are
      exactly those the manifests refer to. */
  lemma CompletedCleanupIsExact(deltas: bool, steps: seq<Step>)
    requires IsRun(Fresh(deltas), steps) && HarmlessRun(Fresh(deltas), steps) && UnhurriedRun(Fresh(deltas), steps)
    requires var op := End(Fresh(deltas), steps).op; op.DeletingDigests? && op.extra == {}
    ensures var s := End(Fresh(deltas), steps);
      s.json.Keys == s.op.kept && forall d :: d in s.digests <==> Referenced(s.json, d)
  {
    RunKeeps(Fresh(deltas), steps);
    RunTidies(Fresh(deltas), steps);
  }
}
