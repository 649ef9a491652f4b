/** Deletes after failed rechecks, and workers that outlive their attempt: exactly when they do harm. */
module LateWorkers {
  import opened Basics
  import opened UploadBalance
  import opened UploadStep
  import opened BackupStore

  // ---------------------------------------------------------------- runs end to end

  lemma {:induction false} RunAppend(s: State, a: seq<Step>, b: seq<Step>)
    requires IsRun(s, a) && IsRun(End(s, a), b)
    ensures IsRun(s, a + b) && End(s, a + b) == End(End(s, a), b)
    decreases |a|
  {
    if a == [] {
      assert a + b == b;
    } else {
      assert (a + b)[1..] == a[1..] + b;
      RunAppend(Apply(s, a[0]), a[1..], b);
    }
  }

  lemma Extend(s: State, steps: seq<Step>, step: Step) returns (t: State)
    requires IsRun(s, steps) && Enabled(End(s, steps), step)
    ensures IsRun(s, steps + [step]) && t == End(s, steps + [step]) == Apply(End(s, steps), step)
    ensures NoRiskySteps(steps) && !IsRisky(step) ==> NoRiskySteps(steps + [step])
  {
    var before := End(s, steps);
    var last := [step];
    assert last[1..] == [];
    assert End(Apply(before, step), []) == Apply(before, step);
    RunAppend(s, steps, last);
    t := End(s, steps + [step]);
  }

  /** One step, then a run. */
  lemma Prepend(s: State, step: Step, rest: seq<Step>)
    requires Enabled(s, step) && IsRun(Apply(s, step), rest)
    ensures IsRun(s, [step] + rest) && End(s, [step] + rest) == End(Apply(s, step), rest)
  {
    assert ([step] + rest)[1..] == rest;
  }

  /** A step of a late worker, or a delete after a failed recheck. */
  predicate IsRisky(step: Step) {
    step.StaleDelete? || step.StaleUpload? || step.StaleSettle? || step.RecheckDiffers?
  }

  /** Steps of the running operation only, none of them a delete after a failed recheck. */
  ghost predicate NoRiskySteps(steps: seq<Step>) {
    forall i :: 0 <= i < |steps| ==> !IsRisky(steps[i])
  }

  lemma {:induction false} NoRiskIsHarmless(s: State, steps: seq<Step>)
    requires IsRun(s, steps) && NoRiskySteps(steps)
    ensures HarmlessRun(s, steps) && UnhurriedRun(s, steps)
    decreases |steps|
  {
    if steps != [] {
      NoRiskIsHarmless(Apply(s, steps[0]), steps[1..]);
    }
  }

  // ---------------------------------------------------------------- attempts that can finish

  ghost function Unsettled(workers: map<Worker, Phase>): set<Worker> {
    set w | w in workers && workers[w] != Succeeded
  }

  /** A worker that has not failed can settle. */
  lemma SettleOne(s: State, w: Worker) returns (steps: seq<Step>)
    requires s.op.Uploading? && w in s.op.workers && (s.op.workers[w] == Waiting || s.op.workers[w] == Rechecking)
    ensures NoRiskySteps(steps) && IsRun(s, steps)
    ensures StepsOf(steps, w)
    ensures End(s, steps) == WithWorker(s, w, Succeeded).(digests := if s.op.workers[w] == Waiting then s.digests + {w.1} else s.digests)
  {
    if s.op.workers[w] == Waiting {
      var t := Extend(s, [], Upload(w));
      t := Extend(s, [Upload(w)], RecheckAgrees(w));
      steps := [Upload(w), RecheckAgrees(w)];
      assert s.op.workers[w := Rechecking][w := Succeeded] == s.op.workers[w := Succeeded];
    } else {
      var t := Extend(s, [], RecheckAgrees(w));
      steps := [RecheckAgrees(w)];
    }
  }

  lemma SettlingShrinks(workers: map<Worker, Phase>, w: Worker)
    requires w in workers && workers[w] != Succeeded
    ensures |Unsettled(workers[w := Succeeded])| < |Unsettled(workers)|
  {
    assert Unsettled(workers[w := Succeeded]) == Unsettled(workers) - {w};
    assert w in Unsettled(workers);
  }

  /** The digest's workers, if any, have delivered it. */
  ghost predicate NotUploadedAgain(workers: map<Worker, Phase>, d: string) {
    forall w :: w in workers && w.1 == d ==> workers[w] == Rechecking || workers[w] == Succeeded
  }

  /** An attempt with no failed worker can finish: each worker uploads and rechecks. A digest that its
      worker has delivered, or that was listed, is not uploaded again on the way. */
  lemma {:induction false} CanFinish(s: State, d: string, name: Name) returns (steps: seq<Step>)
    requires s.op.Uploading? && NoneFailed(s.op.workers) && (name.Delta? <==> s.op.delta) && NotUploadedAgain(s.op.workers, d)
    ensures NoRiskySteps(steps) && IsRun(s, steps)
    ensures var t := End(s, steps);
      name in t.json && t.json[name].digests == AllDigests(s.op.snapshots) && (d in t.digests <==> d in s.digests)
    decreases |Unsettled(s.op.workers)|
  {
    if w :| w in s.op.workers && s.op.workers[w] != Succeeded {
      var first := SettleOne(s, w);
      var t := End(s, first);
      SettlingShrinks(s.op.workers, w);
      var rest := CanFinish(t, d, name);
      RunAppend(s, first, rest);
      steps := first + rest;
    } else {
      steps := [UploadManifest(name)];
      assert steps[1..] == [];
    }
  }

  /** Steps of one worker only. */
  ghost predicate StepsOf(steps: seq<Step>, w: Worker) {
    forall i :: 0 <= i < |steps| ==> IsWorkerStep(steps[i]) && steps[i].w == w
  }

  /** The worker has settled, with the digest stored or not. */
  ghost function SettledAs(s: State, w: Worker, ends: (Attempt, bool)): State
    requires s.op.Uploading?
  {
    WithWorker(s, w, if ends.0 == UploadSuccess then Succeeded else Failed)
      .(digests := if ends.1 then s.digests + {w.1} else s.digests - {w.1})
  }

  /** What a node's upload thread does with a digest is a run of the machine's worker for it. */
  lemma {:induction false} ThreadIsWorker(s: State, w: Worker, files: seq<LocalFile>, validate: bool) returns (steps: seq<Step>)
    requires WorkerIn(s, w, Waiting)
    ensures IsRun(s, steps) && StepsOf(steps, w)
    ensures End(s, steps) == SettledAs(s, w, ThreadEnds(files, w.1, validate, w.1 in s.digests))
    decreases |files|
  {
    if files == [] {
      steps := FailsAsIs(s, w);
    } else if !files[0].isFile || (validate && files[0].digestBefore != w.1) {
      steps := ThreadIsWorker(s, w, files[1..], validate);
    } else if !files[0].call.Completes? {
      steps := FailsRaising(s, w, files[0].call.arrives);
    } else if validate && files[0].digestAfter != w.1 {
      var first := UploadAndDelete(s, w);
      var t := End(s, first);
      var rest := ThreadIsWorker(t, w, files[1..], validate);
      RunAppend(s, first, rest);
      steps := first + rest;
      SettlesTheSame(s, w, ThreadEnds(files[1..], w.1, validate, false));
    } else {
      steps := SettleOne(s, w);
    }
  }

  lemma SettlesTheSame(s: State, w: Worker, ends: (Attempt, bool))
    requires s.op.Uploading?
    ensures SettledAs(s.(digests := s.digests - {w.1}), w, ends) == SettledAs(s, w, ends)
  {
    assert s.digests - {w.1} + {w.1} == s.digests + {w.1} && s.digests - {w.1} - {w.1} == s.digests - {w.1};
  }

  lemma FailsAsIs(s: State, w: Worker) returns (steps: seq<Step>)
    requires WorkerIn(s, w, Waiting)
    ensures IsRun(s, steps) && StepsOf(steps, w) && End(s, steps) == SettledAs(s, w, (UploadMissing, w.1 in s.digests))
  {
    steps := OneStep(s, ReportMissing(w));
    assert s.digests == if w.1 in s.digests then s.digests + {w.1} else s.digests - {w.1};
  }

  lemma FailsRaising(s: State, w: Worker, arrives: bool) returns (steps: seq<Step>)
    requires WorkerIn(s, w, Waiting)
    ensures IsRun(s, steps) && StepsOf(steps, w)
    ensures End(s, steps) == SettledAs(s, w, (UploadFailure, arrives || w.1 in s.digests))
    ensures End(s, steps) == SettledAs(s, w, (UploadCrash, arrives || w.1 in s.digests))
  {
    steps := OneStep(s, UploadRaises(w, arrives));
    assert w.1 in s.digests ==> s.digests == s.digests + {w.1};
    assert w.1 !in s.digests ==> s.digests == s.digests - {w.1};
  }

  lemma UploadAndDelete(s: State, w: Worker) returns (steps: seq<Step>)
    requires WorkerIn(s, w, Waiting)
    ensures IsRun(s, steps) && StepsOf(steps, w) && End(s, steps) == s.(digests := s.digests - {w.1})
  {
    var t := Extend(s, [], Upload(w));
    t := Extend(s, [Upload(w)], RecheckDiffers(w));
    steps := [Upload(w), RecheckDiffers(w)];
    assert s.op.workers[w := Rechecking][w := Waiting] == s.op.workers;
    assert s.digests + {w.1} - {w.1} == s.digests - {w.1};
  }

  lemma OneStep(s: State, step: Step) returns (steps: seq<Step>)
    requires Enabled(s, step)
    ensures steps == [step] && IsRun(s, steps) && End(s, steps) == Apply(s, step)
  {
    var t := Extend(s, [], step);
    steps := [step];
  }

  // ---------------------------------------------------------------- late deletes

  /** Whatever follows, as long as it is harmless in itself, leaves every manifest complete. */
  ghost predicate StaysComplete(s: State) {
    forall steps :: IsRun(s, steps) && HarmlessRun(s, steps) ==> Present(End(s, steps).json, End(s, steps).digests)
  }

  /** A digest that an attempt relies on while uploading has no worker that would upload it again. */
  lemma ReliedOnIsDelivered(s: State, d: string)
    requires Inv(s) && s.op.Uploading? && ReliedOn(s.op, d)
    ensures NotUploadedAgain(s.op.workers, d)
  {
    forall w | w in s.op.workers && w.1 == d ensures s.op.workers[w] == Rechecking || s.op.workers[w] == Succeeded {
      assert (w.0, w.1) in s.op.workers.Keys;
      assert HasWorker(s.op.workers.Keys, d);
      var a: nat :| (a, d) in s.op.workers && (s.op.workers[(a, d)] == Rechecking || s.op.workers[(a, d)] == Succeeded);
      assert (a, d) in s.op.workers.Keys;
    }
  }

  /** While uploads are under way, the attempt can go on and write a manifest that lacks the digest. */
  lemma LosesWhileUploading(s: State, d: string) returns (steps: seq<Step>)
    requires s.op.Uploading? && NoneFailed(s.op.workers) && NotUploadedAgain(s.op.workers, d)
    requires d in AllDigests(s.op.snapshots) && d !in s.digests
    ensures NoRiskySteps(steps) && IsRun(s, steps) && !Present(End(s, steps).json, End(s, steps).digests)
  {
    var name := if s.op.delta then Delta("next") else Base("next");
    steps := CanFinish(s, d, name);
    var e := End(s, steps);
    assert d in e.json[name].digests && d !in e.digests;
  }

  /** Just after the listing, the attempt can assign the rest, upload it, and do the same. */
  lemma LosesAfterListing(s: State, d: string) returns (steps: seq<Step>)
    requires s.op.Listed? && OneSize(s.op.snapshots)
    requires d in AllDigests(s.op.snapshots) && d in s.op.listed && d !in s.digests
    ensures NoRiskySteps(steps) && IsRun(s, steps) && !Present(End(s, steps).json, End(s, steps).digests)
  {
    var packages := AssignmentExists(s.op.snapshots, s.op.listed, NodeIndices(|s.op.snapshots|));
    AssignedToOne(packages, s.op.snapshots, s.op.listed);
    var t := Apply(s, AssignUploads(packages));
    forall w | w in t.op.workers ensures w.1 != d {
      assert (w.0, w.1) in t.op.workers.Keys;
      assert HasWorker(t.op.workers.Keys, w.1);
    }
    var rest := LosesWhileUploading(t, d);
    Prepend(s, AssignUploads(packages), rest);
    steps := [AssignUploads(packages)] + rest;
  }

  /** After a late delete of a digest that is counted on, a manifest is or can become incomplete,
      without any further late step. */
  lemma LateDeleteLoses(s: State, t: Thread) returns (steps: seq<Step>)
    requires Inv(s) && Enabled(s, StaleDelete(t)) && (Referenced(s.json, t.digest) || ReliedOn(s.op, t.digest))
    ensures var after := Apply(s, StaleDelete(t));
      NoRiskySteps(steps) && IsRun(after, steps) && !Present(End(after, steps).json, End(after, steps).digests)
  {
    var d, after := t.digest, Apply(s, StaleDelete(t));
    if Referenced(s.json, d) {
      var n :| n in s.json && d in s.json[n].digests;
      assert d in after.json[n].digests && d !in after.digests;
      steps := [];
    } else if s.op.Listed? {
      steps := LosesAfterListing(after, d);
    } else {
      ReliedOnIsDelivered(s, d);
      steps := LosesWhileUploading(after, d);
    }
  }

  /** A delete by a worker that outlived its attempt leaves everything that can follow complete, exactly
      when the digest is in no manifest and the running attempt does not rely on it. */
  lemma StaleDeleteIff(s: State, t: Thread)
    requires Inv(s) && Enabled(s, StaleDelete(t))
    ensures StaysComplete(Apply(s, StaleDelete(t))) <==> !Referenced(s.json, t.digest) && !ReliedOn(s.op, t.digest)
  {
    var after := Apply(s, StaleDelete(t));
    if Referenced(s.json, t.digest) || ReliedOn(s.op, t.digest) {
      var steps := LateDeleteLoses(s, t);
      NoRiskIsHarmless(after, steps);
    } else {
      StaleDeleteKeeps(s, t);
      forall steps | IsRun(after, steps) && HarmlessRun(after, steps)
        ensures Present(End(after, steps).json, End(after, steps).digests)
      {
        RunKeeps(after, steps);
      }
    }
  }

  // ---------------------------------------------------------------- deletes after failed rechecks

  /** The delete after a failed recheck leaves everything that can follow complete, exactly when the
      digest is in no manifest. */
  lemma RecheckDiffersIff(s: State, w: Worker)
    requires Inv(s) && Enabled(s, RecheckDiffers(w))
    ensures StaysComplete(Apply(s, RecheckDiffers(w))) <==> !Referenced(s.json, w.1)
  {
    var after := Apply(s, RecheckDiffers(w));
    if Referenced(s.json, w.1) {
      var n :| n in s.json && w.1 in s.json[n].digests;
      assert w.1 in after.json[n].digests && w.1 !in after.digests;
      var nothing: seq<Step> := [];
      assert IsRun(after, nothing) && HarmlessRun(after, nothing) && End(after, nothing) == after;
    } else {
      StepKeeps(s, RecheckDiffers(w));
      forall steps | IsRun(after, steps) && HarmlessRun(after, steps)
        ensures Present(End(after, steps).json, End(after, steps).digests)
      {
        RunKeeps(after, steps);
      }
    }
  }

  // ---------------------------------------------------------------- late uploads during cleanup

  /** A cleanup that has deleted all it marked. */
  ghost predicate CleanupDone(op: Op) {
    op.DeletingDigests? && op.extra == {}
  }

  /** The digests are exactly those the manifests refer to. */
  ghost predicate Exact(s: State) {
    forall d :: d in s.digests <==> Referenced(s.json, d)
  }

  /** Whenever a cleanup is done in what follows, it is exact. */
  ghost predicate StaysExact(s: State) {
    forall steps :: IsRun(s, steps) && HarmlessRun(s, steps) && UnhurriedRun(s, steps) ==>
      CleanupDone(End(s, steps).op) ==> Exact(End(s, steps))
  }

  lemma TidyStaysExact(s: State)
    requires Inv(s) && Tidy(s)
    ensures StaysExact(s)
  {
    forall steps | IsRun(s, steps) && HarmlessRun(s, steps) && UnhurriedRun(s, steps) && CleanupDone(End(s, steps).op)
      ensures Exact(End(s, steps))
    {
      RunKeeps(s, steps);
      RunTidies(s, steps);
    }
  }

  /** A cleanup that is past its listing can finish; what it has not marked stays. */
  lemma {:induction false} CleanupCanFinish(s: State, d: string) returns (steps: seq<Step>)
    requires Inv(s) && s.op.Cleaning() && d in s.digests && d !in s.op.extra
    ensures NoRiskySteps(steps) && IsRun(s, steps)
    ensures var e := End(s, steps); CleanupDone(e.op) && e.json == s.json && d in e.digests
    decreases s.op.Discarding?, if s.op.Discarding? then |s.op.pending| else |s.op.extra|
  {
    if s.op.DeletingDigests? && s.op.extra == {} {
      steps := [];
    } else {
      var step;
      if s.op.DeletingDigests? {
        var x :| x in s.op.extra;
        step := DeleteExtra(x);
      } else if s.op.pending == {} {
        step := StartDeleting;
      } else {
        var n :| n in s.op.pending;
        step := DiscardReferenced(n);
      }
      StepKeeps(s, step);
      var rest := CleanupCanFinish(Apply(s, step), d);
      Prepend(s, step, rest);
      steps := [step] + rest;
    }
  }

  lemma StaleUploadTidyIff(s: State, t: Thread)
    requires Inv(s) && Tidy(s) && s.op.Cleaning() && Enabled(s, StaleUpload(t))
    ensures Tidy(Apply(s, StaleUpload(t))) <==> t.digest in s.digests || t.digest in s.op.extra
  {
    if t.digest !in s.digests && t.digest !in s.op.extra {
      assert !Referenced(s.json, t.digest);
      assert t.digest in Apply(s, StaleUpload(t)).digests;
    } else {
      StepTidies(s, StaleUpload(t));
    }
  }

  /** An upload by a worker that outlived its attempt, after cleanup has listed the digests, leaves that
      cleanup and all later ones exact, exactly when the digest is stored already or still marked. */
  lemma StaleUploadIff(s: State, t: Thread)
    requires Inv(s) && Tidy(s) && s.op.Cleaning() && Enabled(s, StaleUpload(t))
    ensures StaysExact(Apply(s, StaleUpload(t))) <==> t.digest in s.digests || t.digest in s.op.extra
  {
    var after := Apply(s, StaleUpload(t));
    StepKeeps(s, StaleUpload(t));
    StaleUploadTidyIff(s, t);
    if Tidy(after) {
      TidyStaysExact(after);
    } else {
      var steps := CleanupCanFinish(after, t.digest);
      NoRiskIsHarmless(after, steps);
      assert !Referenced(s.json, t.digest);
      assert !Exact(End(after, steps));
    }
  }

  // ---------------------------------------------------------------- a run that loses a digest

  const big := SnapshotHash("e", 2)
  const small := SnapshotHash("d", 1)

  /** The worker of the small file, once its attempt has ended. */
  const late := Thread(0, false, 0, "d")

  /** One node, two files: while the small one is between upload and recheck, the worker of the large one
      crashes. The pool raises that in the upload loop, which is left at once, the node's operation fails
      and the attempt is given up. The second attempt snapshots the small file only, finds it listed, and
      writes its manifest. Then the first attempt's worker sees that the file has changed and deletes
      its digest. */
  lemma ManifestLosesDigest() returns (before: seq<Step>)
    ensures NoRiskySteps(before) && IsRun(Fresh(false), before + [StaleDelete(late)])
    ensures var s := End(Fresh(false), before + [StaleDelete(late)]); !Present(s.json, s.digests)
  {
    before := SecondAttempt();
    var s := Extend(Fresh(false), before, UploadManifest(Base("b")));
    before := before + [UploadManifest(Base("b"))];
    OneFileListed();
    s := Extend(Fresh(false), before, StaleDelete(late));
    assert "d" in s.json[Base("b")].digests && "d" !in s.digests;
  }

  /** The second attempt has nothing to upload. */
  lemma SecondAttempt() returns (steps: seq<Step>)
    ensures IsRun(Fresh(false), steps) && NoRiskySteps(steps)
    ensures End(Fresh(false), steps) == State(false, map[], {"d"}, Uploading(false, [[small]], {"d"}, map[]), 1, GivenUp())
  {
    steps := InterruptedAttempt();
    OneFileListed();
    LoopIsLeft();
    var s := Extend(Fresh(false), steps, TakeSnapshot([[small]]));
    steps := steps + [TakeSnapshot([[small]])];
    s := Extend(Fresh(false), steps, ListHexdigests);
    steps := steps + [ListHexdigests];
    s := Extend(Fresh(false), steps, AssignUploads([]));
    steps := steps + [AssignUploads([])];
    assert s.op.workers == map[];
  }

  /** The two workers of the attempt that was given up. */
  ghost function GivenUp(): map<Thread, Phase> {
    map[late := Rechecking, Thread(0, false, 0, "e") := Failed]
  }

  lemma LoopIsLeft()
    ensures LoopsLeft(GivenUp(), false)
  {
    var u := Thread(0, false, 0, "e");
    assert u in GivenUp() && Settled(GivenUp()[u]) && SameLoop(late, u) && SameLoop(u, u);
  }

  /** An attempt that ends while one worker is between upload and recheck and the other has crashed. */
  lemma InterruptedAttempt() returns (steps: seq<Step>)
    ensures IsRun(Fresh(false), steps) && NoRiskySteps(steps)
    ensures End(Fresh(false), steps) == State(false, map[], {"d"}, BackupStarted(false), 1, GivenUp())
  {
    steps := OneCrashes();
    LeavesBoth(End(Fresh(false), steps).op);
    var s := Extend(Fresh(false), steps, NextAttempt);
    steps := steps + [NextAttempt];
    assert map[] + GivenUp() == GivenUp();
  }

  lemma OneCrashes() returns (steps: seq<Step>)
    ensures IsRun(Fresh(false), steps) && NoRiskySteps(steps)
    ensures End(Fresh(false), steps) ==
      State(false, map[], {"d"}, Uploading(false, [[big, small]], {}, map[(0, "d") := Rechecking, (0, "e") := Failed]), 0, map[])
  {
    steps := FirstAttempt();
    var s := Extend(Fresh(false), steps, Upload((0, "d")));
    steps := steps + [Upload((0, "d"))];
    s := Extend(Fresh(false), steps, UploadRaises((0, "e"), false));
    steps := steps + [UploadRaises((0, "e"), false)];
    assert s.op.workers == map[(0, "d") := Rechecking, (0, "e") := Failed];
  }

  lemma LeavesBoth(op: Op)
    requires op.Uploading? && !op.delta && op.workers == map[(0, "d") := Rechecking, (0, "e") := Failed]
    ensures LeftBehind(op, 0) == GivenUp()
  {
    var left := LeftBehind(op, 0);
    forall t ensures t in left <==> t in GivenUp() {
      if t in GivenUp() {
        assert (t.package, t.digest) in op.workers;
      }
    }
    forall t | t in left ensures left[t] == GivenUp()[t] {
      assert (t.package, t.digest) in op.workers;
    }
  }

  lemma FirstAttempt() returns (steps: seq<Step>)
    ensures IsRun(Fresh(false), steps) && NoRiskySteps(steps)
    ensures End(Fresh(false), steps) ==
      State(false, map[], {}, Uploading(false, [[big, small]], {}, map[(0, "d") := Waiting, (0, "e") := Waiting]), 0, map[])
  {
    var snapshots, packages := [[big, small]], [NodeIndexData(0, [big, small], 3)];
    TwoFilesNeeded();
    var s := Extend(Fresh(false), [], BeginBackup(false));
    steps := [BeginBackup(false)];
    s := Extend(Fresh(false), steps, TakeSnapshot(snapshots));
    steps := steps + [TakeSnapshot(snapshots)];
    s := Extend(Fresh(false), steps, ListHexdigests);
    steps := steps + [ListHexdigests];
    s := Extend(Fresh(false), steps, AssignUploads(packages));
    steps := steps + [AssignUploads(packages)];
  }

  lemma TwoFilesNeeded()
    ensures Covers([NodeIndexData(0, [big, small], 3)], [[big, small]], {}, NodeIndices(1)) && OneSize([[big, small]])
    ensures WorkersFor([NodeIndexData(0, [big, small], 3)]) == map[(0, "d") := Waiting, (0, "e") := Waiting]
  {
    TwoFilesCovered();
    TwoSizes([[big, small]]);
    TwoWorkers([NodeIndexData(0, [big, small], 3)]);
  }

  lemma TwoFilesCovered()
    ensures Covers([NodeIndexData(0, [big, small], 3)], [[big, small]], {}, NodeIndices(1))
  {
    var snapshots, packages := [[big, small]], [NodeIndexData(0, [big, small], 3)];
    NeededElements(snapshots, {});
    assert big in snapshots[0] && small in snapshots[0];
    assert WellFilled(packages[0], snapshots, NodeIndices(1)) by {
      var sizes := Sizes([big, small]);
      assert sizes[..1] == [2] && sizes[..1][..0] == [];
      assert Total(sizes[..1]) == 2;
      assert Elements([big, small]) <= Elements(snapshots[0]);
    }
    assert big in packages[0].sshashes && small in packages[0].sshashes;
    assert InSome(packages, big) && InSome(packages, small);
  }

  lemma TwoSizes(snapshots: Snapshots)
    requires snapshots == [[big, small]]
    ensures OneSize(snapshots)
  {
    forall i, j, g, h | 0 <= i < |snapshots| && 0 <= j < |snapshots| && g in snapshots[i] && h in snapshots[j] && g.hexdigest == h.hexdigest
      ensures g == h
    {
      assert (g == big || g == small) && (h == big || h == small);
    }
  }

  lemma TwoWorkers(packages: seq<NodeIndexData>)
    requires packages == [NodeIndexData(0, [big, small], 3)]
    ensures WorkersFor(packages) == map[(0, "d") := Waiting, (0, "e") := Waiting]
  {
    assert DigestsOf(packages[0].sshashes) == {"d", "e"} by {
      assert big in packages[0].sshashes && small in packages[0].sshashes;
    }
  }

  lemma OneFileListed()
    ensures Covers([], [[small]], {"d"}, NodeIndices(1)) && OneSize([[small]]) && AllDigests([[small]]) == {"d"}
  {
    NeededElements([[small]], {"d"});
    assert small in [[small]][0];
  }

  // ---------------------------------------------------------------- a cleanup that leaves a digest behind

  /** A backup stops before anything is uploaded, a cleanup finds nothing to do, and then a worker of the
      backup uploads its digest: the cleanup ends with a stored digest that no manifest refers to. */
  lemma CleanupLeavesDigest() returns (before: seq<Step>)
    ensures NoRiskySteps(before) && IsRun(Fresh(false), before + [StaleUpload(late)])
    ensures var s := End(Fresh(false), before + [StaleUpload(late)]); CleanupDone(s.op) && !Exact(s) && s.json == map[]
  {
    before := FirstAttempt();
    var s := Extend(Fresh(false), before, Stop);
    before := before + [Stop];
    assert ThreadIn(s, late, Waiting) by {
      assert (0, "d") in map[(0, "d") := Waiting, (0, "e") := Waiting];
    }
    s := Extend(Fresh(false), before, BeginCleanup);
    before := before + [BeginCleanup];
    s := Extend(Fresh(false), before, ComputeKept({}));
    before := before + [ComputeKept({})];
    s := Extend(Fresh(false), before, ListExtra);
    before := before + [ListExtra];
    s := Extend(Fresh(false), before, StartDeleting);
    before := before + [StartDeleting];
    s := Extend(Fresh(false), before, StaleUpload(late));
    assert "d" in s.digests && !Referenced(s.json, "d");
  }

  // ---------------------------------------------------------------- a retried delta backup

  /** The one worker of a delta attempt, once that attempt has ended. */
  ghost function DoneWorker(): map<Thread, Phase> {
    map[Thread(0, true, 0, "d") := Succeeded]
  }

  /** A delta attempt writes its manifest and then fails to clear its files. The next attempt snapshots
      them again, skips the listing and uploads the digest again; the file changes, and the delete after
      the failed recheck takes the digest from the manifest. No late worker takes part. */
  lemma DeltaRetryLosesDigest() returns (before: seq<Step>)
    ensures NoRiskySteps(before) && IsRun(Fresh(true), before + [RecheckDiffers((0, "d"))])
    ensures var s := End(Fresh(true), before + [RecheckDiffers((0, "d"))]); !Present(s.json, s.digests)
  {
    before := DeltaRetried();
    OneFileUnlisted();
    var s := Extend(Fresh(true), before, AssignUploads([NodeIndexData(0, [small], 1)]));
    before := before + [AssignUploads([NodeIndexData(0, [small], 1)])];
    s := Extend(Fresh(true), before, Upload((0, "d")));
    before := before + [Upload((0, "d"))];
    s := Extend(Fresh(true), before, RecheckDiffers((0, "d")));
    assert "d" in s.json[Delta("a")].digests && "d" !in s.digests;
  }

  /** The second attempt, past the listing it does not make. */
  lemma DeltaRetried() returns (steps: seq<Step>)
    ensures IsRun(Fresh(true), steps) && NoRiskySteps(steps)
    ensures End(Fresh(true), steps) ==
      State(true, map[Delta("a") := Manifest({"d"})], {"d"}, Listed(true, [[small]], {}), 1, DoneWorker())
  {
    steps := DeltaGivenUp();
    OneFileListed();
    var s := Extend(Fresh(true), steps, TakeSnapshot([[small]]));
    steps := steps + [TakeSnapshot([[small]])];
    s := Extend(Fresh(true), steps, ListHexdigests);
    steps := steps + [ListHexdigests];
  }

  lemma DeltaGivenUp() returns (steps: seq<Step>)
    ensures IsRun(Fresh(true), steps) && NoRiskySteps(steps) && LoopsLeft(DoneWorker(), true)
    ensures End(Fresh(true), steps) ==
      State(true, map[Delta("a") := Manifest({"d"})], {"d"}, BackupStarted(true), 1, DoneWorker())
  {
    steps := DeltaStored();
    OneWorkerLeft(End(Fresh(true), steps).op);
    var s := Extend(Fresh(true), steps, NextAttempt);
    steps := steps + [NextAttempt];
  }

  lemma OneWorkerLeft(op: Op)
    requires op.Uploading? && op.delta && op.workers == map[(0, "d") := Succeeded]
    ensures map[] + LeftBehind(op, 0) == DoneWorker() && LoopsLeft(DoneWorker(), true)
  {
    var t := Thread(0, true, 0, "d");
    assert LeftBehind(op, 0) == DoneWorker() by {
      assert (0, "d") in op.workers && t in DoneWorker();
    }
    assert t in DoneWorker() && SameLoop(t, t) && Settled(DoneWorker()[t]);
  }

  /** The first attempt, with its manifest written. */
  lemma DeltaStored() returns (steps: seq<Step>)
    ensures IsRun(Fresh(true), steps) && NoRiskySteps(steps)
    ensures End(Fresh(true), steps) ==
      State(true, map[Delta("a") := Manifest({"d"})], {"d"}, Uploading(true, [[small]], {}, map[(0, "d") := Succeeded]), 0, map[])
  {
    steps := DeltaAssigned();
    OneFileUnlisted();
    var s := Extend(Fresh(true), steps, Upload((0, "d")));
    steps := steps + [Upload((0, "d"))];
    s := Extend(Fresh(true), steps, RecheckAgrees((0, "d")));
    steps := steps + [RecheckAgrees((0, "d"))];
    assert s.op.workers == map[(0, "d") := Succeeded];
    s := Extend(Fresh(true), steps, UploadManifest(Delta("a")));
    steps := steps + [UploadManifest(Delta("a"))];
  }

  lemma DeltaAssigned() returns (steps: seq<Step>)
    ensures IsRun(Fresh(true), steps) && NoRiskySteps(steps)
    ensures End(Fresh(true), steps) == State(true, map[], {}, Uploading(true, [[small]], {}, map[(0, "d") := Waiting]), 0, map[])
  {
    var packages := [NodeIndexData(0, [small], 1)];
    OneFileUnlisted();
    var s := Extend(Fresh(true), [], BeginBackup(true));
    steps := [BeginBackup(true)];
    s := Extend(Fresh(true), steps, TakeSnapshot([[small]]));
    steps := steps + [TakeSnapshot([[small]])];
    s := Extend(Fresh(true), steps, ListHexdigests);
    steps := steps + [ListHexdigests];
    s := Extend(Fresh(true), steps, AssignUploads(packages));
    steps := steps + [AssignUploads(packages)];
  }

  lemma OneFileUnlisted()
    ensures Covers([NodeIndexData(0, [small], 1)], [[small]], {}, NodeIndices(1)) && OneSize([[small]]) && AllDigests([[small]]) == {"d"}
    ensures WorkersFor([NodeIndexData(0, [small], 1)]) == map[(0, "d") := Waiting]
  {
    OneFileListed();
    OneFileCovered();
    OneWorker([NodeIndexData(0, [small], 1)]);
  }

  lemma OneFileCovered()
    ensures Covers([NodeIndexData(0, [small], 1)], [[small]], {}, NodeIndices(1))
  {
    var snapshots, packages := [[small]], [NodeIndexData(0, [small], 1)];
    NeededElements(snapshots, {});
    assert small in snapshots[0];
    assert WellFilled(packages[0], snapshots, NodeIndices(1)) by {
      assert Sizes([small])[..0] == [];
      assert Elements([small]) <= Elements(snapshots[0]);
    }
    assert small in packages[0].sshashes;
    assert InSome(packages, small);
  }

  lemma OneWorker(packages: seq<NodeIndexData>)
    requires packages == [NodeIndexData(0, [small], 1)]
    ensures WorkersFor(packages) == map[(0, "d") := Waiting]
  {
    assert DigestsOf(packages[0].sshashes) == {"d"} by { assert small in packages[0].sshashes; }
  }
}
