/** The upload step: work packages to nodes, each node's upload loop, the coordinator's wait. */
module UploadStep {
  import opened Basics
  import opened Progress
  import opened UploadBalance
  import opened Polling

  /** The digests present in object storage. */
  class HexDigestStorage {
    var digests: set<string>

    constructor ()
      ensures digests == {}
    {
      digests := {};
    }

    method ListHexdigests() returns (listed: set<string>)
      ensures listed == digests
    {
      listed := digests;
    }

    /** `arrives`: whether the object is stored; an upload that raises may have stored it or not. */
    method UploadHexdigest(d: string, arrives: bool)
      modifies this
      ensures digests == if arrives then old(digests) + {d} else old(digests)
    {
      if arrives {
        digests := digests + {d};
      }
    }

    method DeleteHexdigest(d: string)
      modifies this
      ensures digests == old(digests) - {d}
    {
      digests := digests - {d};
    }
  }

  // ---------------------------------------------------------------- one digest

  /** An upload either completes, raises an Astacus exception, or raises something else. */
  datatype UploadCall = Completes | Raises(arrives: bool) | Crashes(arrives: bool)

  /** One of the files of a digest, as the upload loop finds it. */
  datatype LocalFile = LocalFile(size: nat, isFile: bool, digestBefore: string, call: UploadCall, digestAfter: string)

  datatype Attempt = UploadSuccess | UploadFailure | UploadMissing | UploadCrash

  predicate Usable(f: LocalFile, d: string, validate: bool) {
    f.isFile && (validate ==> f.digestBefore == d)
  }

  /** The loop goes on to the next file. */
  predicate PassedOver(f: LocalFile, d: string, validate: bool) {
    Usable(f, d, validate) ==> f.call.Completes? && validate && f.digestAfter != d
  }

  predicate Good(f: LocalFile, d: string, validate: bool) {
    Usable(f, d, validate) && f.call.Completes? && (validate ==> f.digestAfter == d)
  }

  ghost predicate AllPassedOver(files: seq<LocalFile>, d: string, validate: bool) {
    forall j :: 0 <= j < |files| ==> PassedOver(files[j], d, validate)
  }

  /** The first file that is not passed over is good. */
  ghost predicate Uploads(files: seq<LocalFile>, d: string, validate: bool) {
    exists i :: 0 <= i < |files| && Good(files[i], d, validate) && AllPassedOver(files[..i], d, validate)
  }

  /** File i is the first that is not passed over, and so decides. */
  ghost predicate DecisiveAt(files: seq<LocalFile>, d: string, validate: bool, i: nat) {
    i < |files| && !PassedOver(files[i], d, validate) && AllPassedOver(files[..i], d, validate)
  }

  function Verdict(call: UploadCall): Attempt {
    match call
    case Completes => UploadSuccess
    case Raises(_) => UploadFailure
    case Crashes(_) => UploadCrash
  }

  predicate Arrives(call: UploadCall) {
    call.Completes? || call.arrives
  }

  ghost predicate UsableBefore(files: seq<LocalFile>, d: string, validate: bool, n: nat) {
    exists j :: 0 <= j < n <= |files| && Usable(files[j], d, validate)
  }

  /** How the attempts with these files end, and whether the digest is stored then. */
  ghost function ThreadEnds(files: seq<LocalFile>, d: string, validate: bool, stored: bool): (Attempt, bool) {
    if files == [] then (UploadMissing, stored)
    else if !files[0].isFile || (validate && files[0].digestBefore != d) then ThreadEnds(files[1..], d, validate, stored)
    else match files[0].call
      case Completes =>
        if validate && files[0].digestAfter != d then ThreadEnds(files[1..], d, validate, false) else (UploadSuccess, true)
      case Raises(arrives) => (UploadFailure, arrives || stored)
      case Crashes(arrives) => (UploadCrash, arrives || stored)
  }

  /** Tries the files of a digest in turn. A file uploaded and passed over has taken the digest with it. */
  method UploadInThread(storage: HexDigestStorage, d: string, files: seq<LocalFile>, validate: bool) returns (r: Attempt)
    modifies storage
    ensures r.UploadSuccess? <==> Uploads(files, d, validate)
    ensures r.UploadMissing? <==> AllPassedOver(files, d, validate)
    ensures r.UploadSuccess? ==> storage.digests == old(storage.digests) + {d}
    ensures r.UploadMissing? ==>
      (d in storage.digests <==> d in old(storage.digests) && !UsableBefore(files, d, validate, |files|))
    ensures forall i: nat :: DecisiveAt(files, d, validate, i) ==>
      && r == Verdict(files[i].call)
      && (d in storage.digests <==> Arrives(files[i].call) || (d in old(storage.digests) && !UsableBefore(files, d, validate, i)))
    ensures storage.digests - {d} == old(storage.digests) - {d}
    ensures (r, d in storage.digests) == ThreadEnds(files, d, validate, d in old(storage.digests))
  {
    assert files[0..] == files;
    for i := 0 to |files|
      invariant ThreadEnds(files, d, validate, d in old(storage.digests)) == ThreadEnds(files[i..], d, validate, d in storage.digests)
      invariant AllPassedOver(files[..i], d, validate)
      invariant storage.digests == old(storage.digests) - if UsableBefore(files, d, validate, i) then {d} else {}
    {
      PrefixStep(files, i);
      assert files[i..][0] == files[i] && files[i..][1..] == files[i + 1..];
      var f := files[i];
      if !f.isFile {
        continue;
      }
      if validate && f.digestBefore != d {
        continue;
      }
      if !f.call.Completes? {
        storage.UploadHexdigest(d, f.call.arrives);
        DecidedAt(files, d, validate, i);
        return if f.call.Raises? then UploadFailure else UploadCrash;
      }
      storage.UploadHexdigest(d, true);
      if validate && f.digestAfter != d {
        storage.DeleteHexdigest(d);
        continue;
      }
      DecidedAt(files, d, validate, i);
      return UploadSuccess;
    }
    assert files[..|files|] == files;
    NoneUploads(files, d, validate);
    return UploadMissing;
  }

  lemma DecidedAt(files: seq<LocalFile>, d: string, validate: bool, i: nat)
    requires i < |files| && AllPassedOver(files[..i], d, validate) && !PassedOver(files[i], d, validate)
    ensures Uploads(files, d, validate) <==> Good(files[i], d, validate)
    ensures forall k: nat :: DecisiveAt(files, d, validate, k) <==> k == i
  {
    assert forall k :: 0 <= k < i ==> files[..i][k] == files[k];
    assert forall k :: i < k <= |files| ==> files[..k][i] == files[i];
  }

  lemma NoneUploads(files: seq<LocalFile>, d: string, validate: bool)
    requires AllPassedOver(files, d, validate)
    ensures !Uploads(files, d, validate)
  {
  }

  // ---------------------------------------------------------------- one node

  /** What one node brings: the files of each digest, whether it validates, after which result its
      callback says to stop, and which results beyond that the pool had produced. */
  datatype Node = Node(filesOf: map<string, seq<LocalFile>>, validate: bool, stopAfter: nat, ahead: set<nat>)
  {
    function Files(d: string): seq<LocalFile> {
      if d in filesOf then filesOf[d] else []
    }

    function FirstSize(d: string): nat {
      if Files(d) == [] then 0 else Files(d)[0].size
    }
  }

  ghost function DigestsOf(hashes: seq<SnapshotHash>): set<string> {
    set h | h in hashes :: h.hexdigest
  }

  /** The node's part goes well: it has a file for each digest, each digest uploads, nothing stops it. */
  ghost predicate NodeSucceeds(node: Node, ds: set<string>) {
    && |ds| <= node.stopAfter
    && forall d :: d in ds ==> node.Files(d) != [] && Uploads(node.Files(d), d, node.validate)
  }

  ghost predicate PrefixUploads(node: Node, todo: seq<string>, k: nat)
    requires k <= |todo|
  {
    forall j :: 0 <= j < k ==> Uploads(node.Files(todo[j]), todo[j], node.validate)
  }

  /** How many of the first k digests upload. */
  ghost function Uploaded(node: Node, todo: seq<string>, k: nat): nat
    requires k <= |todo|
  {
    if k == 0 then 0 else Uploaded(node, todo, k - 1) + if Uploads(node.Files(todo[k - 1]), todo[k - 1], node.validate) then 1 else 0
  }

  /** The digests, each once, those of larger files first. */
  ghost predicate LargestFirst(node: Node, todo: seq<string>) {
    && Distinct(todo) && (forall d :: d in todo ==> node.Files(d) != [])
    && forall i, j :: 0 <= i < j < |todo| ==> SizeNotLess(node.Files(todo[i]), node.Files(todo[j]))
  }

  ghost predicate SizeNotLess(a: seq<LocalFile>, b: seq<LocalFile>) {
    a != [] && b != [] && a[0].size >= b[0].size
  }

  /** What the counters show when the loop ends without raising: the successes among the digests it got to,
      the others as failures, and one more failure if it was stopped. */
  ghost function Counted(node: Node, todo: seq<string>): Counters {
    if |todo| <= node.stopAfter then
      var n := Uploaded(node, todo, |todo|);
      UploadedAtMost(node, todo, |todo|);
      Counters(n, |todo| - n, |todo|, false)
    else
      var n := Uploaded(node, todo, node.stopAfter + 1);
      UploadedAtMost(node, todo, node.stopAfter + 1);
      Counters(n, node.stopAfter + 1 - n + 1, |todo|, false)
  }

  lemma {:induction false} UploadedAtMost(node: Node, todo: seq<string>, k: nat)
    requires k <= |todo|
    ensures Uploaded(node, todo, k) <= k
  {
    if k > 0 {
      UploadedAtMost(node, todo, k - 1);
    }
  }

  /** The first k digests have been worked on: the counters, and the storage as far as it is known. */
  ghost predicate WorkedOn(node: Node, todo: seq<string>, k: nat, before: set<string>, after: set<string>, value: Counters)
    requires k <= |todo|
  {
    && value.total == |todo| && value.handled + value.failed == k && !value.final
    && value.handled == Uploaded(node, todo, k)
    && (value.failed == 0 <==> PrefixUploads(node, todo, k))
    && (value.failed == 0 ==> Elements(todo[..k]) <= after)
    && before - Elements(todo) == after - Elements(todo)
  }

  lemma WorkedOnStep(node: Node, todo: seq<string>, k: nat, before: set<string>, mid: set<string>, after: set<string>,
                     value: Counters, r: Attempt)
    requires k < |todo| && WorkedOn(node, todo, k, before, mid, value) && !r.UploadCrash?
    requires r.UploadSuccess? <==> Uploads(node.Files(todo[k]), todo[k], node.validate)
    requires r.UploadSuccess? ==> todo[k] in after
    requires after - {todo[k]} == mid - {todo[k]} && Distinct(todo)
    ensures WorkedOn(node, todo, k + 1, before, after,
                     if r.UploadSuccess? then value.(handled := value.handled + 1) else value.(failed := value.failed + 1))
  {
    PrefixStep(todo, k);
    assert PrefixUploads(node, todo, k + 1) <==> PrefixUploads(node, todo, k) && Uploads(node.Files(todo[k]), todo[k], node.validate);
    assert Elements(todo[..k + 1]) == Elements(todo[..k]) + {todo[k]};
    assert todo[k] in Elements(todo);
    assert before - Elements(todo) == after - Elements(todo) by {
      forall d | d !in Elements(todo) ensures d in before <==> d in after {
        assert d in before - Elements(todo) <==> d in mid - Elements(todo);
        assert d in after - {todo[k]} <==> d in mid - {todo[k]};
      }
    }
    if r.UploadSuccess? && value.failed == 0 {
      forall d | d in Elements(todo[..k]) ensures d in after {
        assert d != todo[k];
        assert d in mid - {todo[k]};
      }
    }
  }

  /** The later digests that the pool had already worked on when the loop stopped. */
  method RunAhead(storage: HexDigestStorage, node: Node, todo: seq<string>, from: nat)
    requires from <= |todo|
    modifies storage
    ensures storage.digests - Elements(todo) == old(storage.digests) - Elements(todo)
  {
    for j := from to |todo|
      invariant storage.digests - Elements(todo) == old(storage.digests) - Elements(todo)
    {
      if j in node.ahead {
        ghost var before := storage.digests;
        var _ := UploadInThread(storage, todo[j], node.Files(todo[j]), node.validate);
        assert todo[j] in Elements(todo);
        OnlyOneChanges(before, storage.digests, todo[j], Elements(todo));
      }
    }
  }

  lemma OnlyOneChanges(before: set<string>, after: set<string>, d: string, ds: set<string>)
    requires after - {d} == before - {d} && d in ds
    ensures after - ds == before - ds
  {
    forall x | x !in ds ensures x in after <==> x in before {
      assert x in after - {d} <==> x in before - {d};
    }
  }

  /** The node's upload loop; `ok` is false when it raises. */
  method WriteHashesToStorage(storage: HexDigestStorage, node: Node, hashes: seq<SnapshotHash>, progress: Meter)
    returns (ok: bool, ghost order: seq<string>)
    requires progress.Value() == Counters(0, 0, 0, false)
    modifies storage, progress
    ensures ok ==> LargestFirst(node, order) && Elements(order) == DigestsOf(hashes) && progress.Value() == Counted(node, order)
    ensures progress.handled <= progress.total && !progress.final
    ensures ok && progress.failed == 0 && progress.handled == progress.total <==> NodeSucceeds(node, DigestsOf(hashes))
    ensures NodeSucceeds(node, DigestsOf(hashes)) ==> DigestsOf(hashes) <= storage.digests
    ensures storage.digests - DigestsOf(hashes) == old(storage.digests) - DigestsOf(hashes)
  {
    var todo := ListOf(set h | h in hashes :: h.hexdigest);
    assert Elements(todo) == DigestsOf(hashes);
    if exists d :: d in todo && node.Files(d) == [] {
      return false, [];
    }
    SortsByFirstSize(node, todo);
    var sorted := SortBy(todo, (a, b) => node.FirstSize(a) >= node.FirstSize(b));
    assert Elements(sorted) == DigestsOf(hashes);
    progress.Start(|sorted|);
    ok := UploadAll(storage, node, sorted, progress);
    order := sorted;
  }

  lemma SortsByFirstSize(node: Node, todo: seq<string>)
    requires Distinct(todo) && forall d :: d in todo ==> node.Files(d) != []
    ensures var sorted := SortBy(todo, (a, b) => node.FirstSize(a) >= node.FirstSize(b));
      LargestFirst(node, sorted) && Elements(sorted) == Elements(todo)
  {
    var leq := (a, b) => node.FirstSize(a) >= node.FirstSize(b);
    SortByPermutes(todo, leq);
    SortByDistinct(todo, leq);
    SortBySorted(todo, leq);
    var sorted := SortBy(todo, leq);
    forall i, j | 0 <= i < j < |sorted| ensures SizeNotLess(node.Files(sorted[i]), node.Files(sorted[j])) {
      assert leq(sorted[i], sorted[j]);
      assert sorted[i] in sorted && sorted[j] in sorted;
    }
  }

  /** The loop over the sorted list. */
  method UploadAll(storage: HexDigestStorage, node: Node, todo: seq<string>, progress: Meter) returns (ok: bool)
    requires LargestFirst(node, todo) && progress.Value() == Counters(0, 0, |todo|, false)
    modifies storage, progress
    ensures ok ==> progress.Value() == Counted(node, todo)
    ensures progress.handled <= progress.total && !progress.final
    ensures ok && progress.failed == 0 && progress.handled == progress.total <==> NodeSucceeds(node, Elements(todo))
    ensures NodeSucceeds(node, Elements(todo)) ==> Elements(todo) <= storage.digests
    ensures storage.digests - Elements(todo) == old(storage.digests) - Elements(todo)
  {
    DistinctSize(todo);
    for k := 0 to |todo|
      invariant k <= node.stopAfter
      invariant WorkedOn(node, todo, k, old(storage.digests), storage.digests, progress.Value())
    {
      ghost var before, mid, value := old(storage.digests), storage.digests, progress.Value();
      var r := UploadInThread(storage, todo[k], node.Files(todo[k]), node.validate);
      if r.UploadCrash? {
        Stopped(node, todo, k);
        OnlyOneChanges(mid, storage.digests, todo[k], Elements(todo));
        RunAhead(storage, node, todo, k + 1);
        return false;
      }
      WorkedOnStep(node, todo, k, before, mid, storage.digests, value, r);
      if r.UploadSuccess? {
        progress.AddSuccess(1);
      } else {
        progress.AddFail(1);
      }
      if k == node.stopAfter {
        RunAhead(storage, node, todo, k + 1);
        progress.AddFail(1);
        return true;
      }
    }
    assert todo[..|todo|] == todo;
    AllWorkedOn(node, todo);
    return true;
  }

  lemma Stopped(node: Node, todo: seq<string>, k: nat)
    requires k < |todo| && !Uploads(node.Files(todo[k]), todo[k], node.validate)
    ensures !NodeSucceeds(node, Elements(todo)) && todo[k] in Elements(todo)
  {
    assert todo[k] in Elements(todo);
  }

  lemma AllWorkedOn(node: Node, todo: seq<string>)
    requires |Elements(todo)| == |todo| <= node.stopAfter && forall d :: d in Elements(todo) ==> node.Files(d) != []
    ensures PrefixUploads(node, todo, |todo|) <==> NodeSucceeds(node, Elements(todo))
  {
    if NodeSucceeds(node, Elements(todo)) {
      forall j | 0 <= j < |todo| ensures Uploads(node.Files(todo[j]), todo[j], node.validate) {
        assert todo[j] in Elements(todo);
      }
    }
  }

  /** The node's operation around the loop: an exception counts as one failure. */
  method UploadOp(storage: HexDigestStorage, node: Node, hashes: seq<SnapshotHash>) returns (final: Counters)
    modifies storage
    ensures final.final && (final.FinishedSuccessfully() <==> NodeSucceeds(node, DigestsOf(hashes)))
    ensures final.FinishedSuccessfully() ==> DigestsOf(hashes) <= storage.digests
    ensures storage.digests - DigestsOf(hashes) == old(storage.digests) - DigestsOf(hashes)
  {
    var progress := new Meter();
    var ok, _ := WriteHashesToStorage(storage, node, hashes, progress);
    if !ok {
      progress.AddFail(1);
    }
    progress.Done();
    final := progress.Value();
  }

  // ---------------------------------------------------------------- the coordinator's step

  /** One digest means one size. */
  ghost predicate OneSize(snapshots: Snapshots) {
    forall i, j, g, h :: 0 <= i < |snapshots| && 0 <= j < |snapshots| && g in snapshots[i] && h in snapshots[j] ==>
      g.hexdigest == h.hexdigest ==> g == h
  }

  /** What a poll can get: counters of a running operation, or the final ones. */
  datatype Poll = Running(handled: nat, failed: nat, total: nat) | Ended

  function RepliesFrom(polls: map<(nat, nat), Poll>, finals: seq<Counters>): Replies {
    map key | key in polls && key.1 < |finals| ::
      match polls[key]
      case Running(handled, failed, total) => Counters(handled, failed, total, false)
      case Ended => finals[key.1]
  }

  lemma PackagesApart(packages: seq<NodeIndexData>, snapshots: Snapshots, stored: set<string>, nodeIndices: seq<nat>, a: nat, b: nat)
    requires |snapshots| == |nodeIndices| && Covers(packages, snapshots, stored, nodeIndices) && OneSize(snapshots)
    requires a < b < |packages|
    ensures DigestsOf(packages[a].sshashes) !! DigestsOf(packages[b].sshashes)
  {
    forall g, h | g in packages[a].sshashes && h in packages[b].sshashes ensures g.hexdigest != h.hexdigest {
      assert WellFilled(packages[a], snapshots, nodeIndices) && WellFilled(packages[b], snapshots, nodeIndices);
      assert g in Elements(packages[a].sshashes) && h in Elements(packages[b].sshashes);
      assert g != h;
    }
  }

  ghost predicate Apart(packages: seq<NodeIndexData>) {
    forall a, b :: 0 <= a < b < |packages| ==> DigestsOf(packages[a].sshashes) !! DigestsOf(packages[b].sshashes)
  }

  ghost predicate SomePackage(packages: seq<NodeIndexData>, k: nat, d: string) {
    exists a :: 0 <= a < k <= |packages| && d in DigestsOf(packages[a].sshashes)
  }

  /** The package was started and its node's part goes well. */
  ghost predicate PackageSucceeds(packages: seq<NodeIndexData>, nodes: seq<Node>, started: set<nat>, a: nat)
    requires a < |packages|
  {
    a in started && packages[a].nodeIndex < |nodes| && NodeSucceeds(nodes[packages[a].nodeIndex], DigestsOf(packages[a].sshashes))
  }

  ghost predicate FinalsAre(packages: seq<NodeIndexData>, nodes: seq<Node>, started: set<nat>, finals: seq<Counters>) {
    && |finals| <= |packages|
    && forall a :: 0 <= a < |finals| ==> (finals[a].FinishedSuccessfully() <==> PackageSucceeds(packages, nodes, started, a))
  }

  /** The first packages have been worked on, with these final counters. */
  ghost predicate Ran(packages: seq<NodeIndexData>, finals: seq<Counters>, before: set<string>, after: set<string>) {
    && |finals| <= |packages|
    && (forall a :: 0 <= a < |finals| && finals[a].FinishedSuccessfully() ==> DigestsOf(packages[a].sshashes) <= after)
    && (forall d :: !SomePackage(packages, |finals|, d) ==> (d in before <==> d in after))
  }

  lemma RanStep(packages: seq<NodeIndexData>, finals: seq<Counters>, before: set<string>, mid: set<string>, after: set<string>, f: Counters)
    requires Apart(packages) && |finals| < |packages| && Ran(packages, finals, before, mid)
    requires var ds := DigestsOf(packages[|finals|].sshashes); (f.FinishedSuccessfully() ==> ds <= after) && after - ds == mid - ds
    ensures Ran(packages, finals + [f], before, after)
  {
    var k := |finals|;
    var ds := DigestsOf(packages[k].sshashes);
    assert forall d :: d !in ds ==> (d in after <==> d in after - ds);
    assert forall d :: d !in ds ==> (d in mid <==> d in mid - ds);
    forall a | 0 <= a < k + 1 && (finals + [f])[a].FinishedSuccessfully() ensures DigestsOf(packages[a].sshashes) <= after {
      if a < k {
        assert DigestsOf(packages[a].sshashes) !! ds;
      }
    }
    forall d | !SomePackage(packages, k + 1, d) ensures d in before <==> d in after {
      assert d !in ds;
      assert !SomePackage(packages, k, d);
    }
  }

  // ---------------------------------------------------------------- polls and final counters

  ghost predicate NoReply(polls: map<(nat, nat), Poll>, a: nat, from: nat, to: nat) {
    forall s: nat {:trigger (s, a)} :: from <= s < to ==> (s, a) !in polls
  }

  /** The poll in round t is the first to find the operation ended, and no run of unanswered polls
      before it reached the limit. */
  ghost predicate EndSeenAt(polls: map<(nat, nat), Poll>, a: nat, maximumFailures: int, t: nat) {
    && (t, a) in polls && polls[(t, a)].Ended?
    && (forall s: nat :: s < t && (s, a) in polls ==> polls[(s, a)].Running?)
    && !(exists u: nat, v: nat :: u < v <= t && v - u >= maximumFailures && NoReply(polls, a, u, v))
  }

  ghost predicate EndSeen(polls: map<(nat, nat), Poll>, a: nat, maximumFailures: int, rounds: nat) {
    exists t: nat :: t < rounds && EndSeenAt(polls, a, maximumFailures, t)
  }

  lemma SilenceIs(polls: map<(nat, nat), Poll>, finals: seq<Counters>, a: nat, from: nat, to: nat)
    requires a < |finals|
    ensures Silent(RepliesFrom(polls, finals), a, from, to) <==> NoReply(polls, a, from, to)
  {
    var replies := RepliesFrom(polls, finals);
    forall s: nat ensures ReplyAt(replies, s, a).None? <==> (s, a) !in polls {
    }
  }

  lemma LongSilenceIs(polls: map<(nat, nat), Poll>, finals: seq<Counters>, a: nat, maximumFailures: int, t: nat)
    requires a < |finals|
    ensures LongSilence(RepliesFrom(polls, finals), a, maximumFailures, t) <==>
      exists u: nat, v: nat :: u < v <= t && v - u >= maximumFailures && NoReply(polls, a, u, v)
  {
    forall u: nat, v: nat ensures Silent(RepliesFrom(polls, finals), a, u, v) <==> NoReply(polls, a, u, v) {
      SilenceIs(polls, finals, a, u, v);
    }
  }

  /** The coordinator sees a success in round t exactly when it first sees the end there and the
      operation ended well. */
  lemma SuccessSeenIff(polls: map<(nat, nat), Poll>, finals: seq<Counters>, a: nat, maximumFailures: int, t: nat)
    requires a < |finals| && finals[a].final
    ensures SucceedsAt(RepliesFrom(polls, finals), a, maximumFailures, t) <==>
      finals[a].FinishedSuccessfully() && EndSeenAt(polls, a, maximumFailures, t)
  {
    LongSilenceIs(polls, finals, a, maximumFailures, t);
    var replies := RepliesFrom(polls, finals);
    forall s: nat ensures (s, a) in replies <==> (s, a) in polls {
    }
    forall s: nat | (s, a) in polls ensures replies[(s, a)].final <==> polls[(s, a)].Ended? {
    }
  }

  lemma FinishedViewIff(polls: map<(nat, nat), Poll>, finals: seq<Counters>, a: nat, maximumFailures: int, rounds: nat)
    requires a < |finals| && finals[a].final
    ensures ViewAfter(RepliesFrom(polls, finals), a, maximumFailures, rounds).Finished? <==>
      finals[a].FinishedSuccessfully() && EndSeen(polls, a, maximumFailures, rounds)
  {
    var replies := RepliesFrom(polls, finals);
    var view := ViewAfter(replies, a, maximumFailures, rounds);
    if view.Finished? {
      FinishedIff(replies, a, maximumFailures, rounds, view.counters);
      var t: nat :| t < rounds && SucceedsAt(replies, a, maximumFailures, t);
      SuccessSeenIff(polls, finals, a, maximumFailures, t);
    }
    if finals[a].FinishedSuccessfully() && EndSeen(polls, a, maximumFailures, rounds) {
      var t: nat :| t < rounds && EndSeenAt(polls, a, maximumFailures, t);
      SuccessSeenIff(polls, finals, a, maximumFailures, t);
      FinishedIff(replies, a, maximumFailures, rounds, replies[(t, a)]);
    }
  }

  /** Everything goes well: each package is started, its node's part succeeds, and its end is seen. */
  ghost predicate AllGoesWell(packages: seq<NodeIndexData>, nodes: seq<Node>, started: set<nat>, polls: map<(nat, nat), Poll>,
                              rounds: nat, maximumFailures: int)
  {
    rounds > 0 && forall a: nat :: a < |packages| ==>
      PackageSucceeds(packages, nodes, started, a) && EndSeen(polls, a, maximumFailures, rounds)
  }

  lemma WaitEndsWellIff(packages: seq<NodeIndexData>, nodes: seq<Node>, started: set<nat>, polls: map<(nat, nat), Poll>,
                        rounds: nat, maximumFailures: int, finals: seq<Counters>)
    requires |finals| == |packages| && FinalsAre(packages, nodes, started, finals)
    requires forall a :: 0 <= a < |finals| ==> finals[a].final
    ensures (forall a: nat :: a < |packages| ==> a in started) && rounds > 0 &&
            AllFinished(RepliesFrom(polls, finals), maximumFailures, rounds, |packages|) <==>
            AllGoesWell(packages, nodes, started, polls, rounds, maximumFailures)
  {
    forall a: nat | a < |packages|
      ensures ViewAfter(RepliesFrom(polls, finals), a, maximumFailures, rounds).Finished? <==>
        PackageSucceeds(packages, nodes, started, a) && EndSeen(polls, a, maximumFailures, rounds)
    {
      FinishedViewIff(polls, finals, a, maximumFailures, rounds);
    }
    if AllGoesWell(packages, nodes, started, polls, rounds, maximumFailures) {
      forall a: nat | a < |packages|
        ensures a in started && ViewAfter(RepliesFrom(polls, finals), a, maximumFailures, rounds).Finished?
      {
        assert PackageSucceeds(packages, nodes, started, a) && EndSeen(polls, a, maximumFailures, rounds);
      }
    }
  }

  /** Starts one operation per package and waits for all of them; one that is not started counts as failed. */
  method UploadNodeIndexDatas(storage: HexDigestStorage, packages: seq<NodeIndexData>, nodes: seq<Node>, started: set<nat>,
                              polls: map<(nat, nat), Poll>, rounds: nat, maximumFailures: int) returns (r: Result<seq<Counters>, WaitError>)
    requires Apart(packages) && forall a :: 0 <= a < |packages| ==> packages[a].nodeIndex < |nodes|
    modifies storage
    ensures r.Ok? <==> AllGoesWell(packages, nodes, started, polls, rounds, maximumFailures)
    ensures r.Ok? ==> forall d :: SomePackage(packages, |packages|, d) ==> d in storage.digests
    ensures forall d :: !SomePackage(packages, |packages|, d) ==> (d in old(storage.digests) <==> d in storage.digests)
  {
    var finals: seq<Counters> := [];
    for a := 0 to |packages|
      invariant |finals| == a && Ran(packages, finals, old(storage.digests), storage.digests)
      invariant FinalsAre(packages, nodes, started, finals)
      invariant forall b :: 0 <= b < |finals| ==> finals[b].final
    {
      ghost var mid := storage.digests;
      var final := Counters(0, 1, 0, true);
      if a in started {
        final := UploadOp(storage, nodes[packages[a].nodeIndex], packages[a].sshashes);
      }
      RanStep(packages, finals, old(storage.digests), mid, storage.digests, final);
      finals := finals + [final];
    }
    r := WaitForAll(packages, nodes, started, polls, rounds, maximumFailures, finals);
    if r.Ok? {
      forall d | SomePackage(packages, |packages|, d) ensures d in storage.digests {
        var a: nat :| 0 <= a < |packages| && d in DigestsOf(packages[a].sshashes);
        assert PackageSucceeds(packages, nodes, started, a);
        assert finals[a].FinishedSuccessfully();
      }
    }
  }

  method WaitForAll(packages: seq<NodeIndexData>, ghost nodes: seq<Node>, started: set<nat>, polls: map<(nat, nat), Poll>, rounds: nat,
                    maximumFailures: int, finals: seq<Counters>) returns (r: Result<seq<Counters>, WaitError>)
    requires |finals| == |packages| && FinalsAre(packages, nodes, started, finals)
    requires forall a :: 0 <= a < |finals| ==> finals[a].final
    ensures r.Ok? <==> AllGoesWell(packages, nodes, started, polls, rounds, maximumFailures)
  {
    var starts := seq(|packages|, a => a in started);
    r := WaitSuccessfulResults(starts, RepliesFrom(polls, finals), rounds, maximumFailures);
    assert false !in starts <==> forall a: nat :: a < |packages| ==> a in started by {
      assert forall a: nat :: a < |packages| ==> starts[a] == (a in started);
    }
    WaitEndsWellIff(packages, nodes, started, polls, rounds, maximumFailures, finals);
  }

  /** The step returns normally exactly when all goes well for every package of the assignment, and then
      every digest of every snapshot that was not listed before is in storage; digests that need no
      upload are not touched. */
  method UploadBlocksStep(storage: HexDigestStorage, listed: set<string>, snapshots: Snapshots, nodes: seq<Node>, started: set<nat>,
                          polls: map<(nat, nat), Poll>, rounds: nat, maximumFailures: int)
    returns (r: Result<seq<Counters>, WaitError>, ghost packages: seq<NodeIndexData>)
    requires |snapshots| == |nodes| && OneSize(snapshots)
    modifies storage
    ensures Covers(packages, snapshots, listed, seq(|nodes|, i => i))
    ensures r.Ok? <==> AllGoesWell(packages, nodes, started, polls, rounds, maximumFailures)
    ensures r.Ok? ==> forall i, h :: 0 <= i < |snapshots| && h in snapshots[i] ==> h.hexdigest in listed || h.hexdigest in storage.digests
    ensures forall d :: d !in NeededDigests(snapshots, listed) ==> (d in old(storage.digests) <==> d in storage.digests)
  {
    var nodeIndices := seq(|nodes|, i => i);
    var datas, _ := BuildNodeIndexDatas(listed, snapshots, nodeIndices);
    packages := datas;
    PackagesFit(packages, snapshots, listed, nodeIndices);
    r := UploadNodeIndexDatas(storage, datas, nodes, started, polls, rounds, maximumFailures);
    forall d ensures SomePackage(packages, |packages|, d) <==> d in NeededDigests(snapshots, listed) {
      PackageDigests(packages, snapshots, listed, nodeIndices, d);
    }
    forall i, h | 0 <= i < |snapshots| && h in snapshots[i] && h.hexdigest !in listed
      ensures h.hexdigest in NeededDigests(snapshots, listed)
    {
    }
  }

  ghost function NeededDigests(snapshots: Snapshots, listed: set<string>): set<string> {
    set i, h | 0 <= i < |snapshots| && h in snapshots[i] && h.hexdigest !in listed :: h.hexdigest
  }

  lemma PackagesFit(packages: seq<NodeIndexData>, snapshots: Snapshots, stored: set<string>, nodeIndices: seq<nat>)
    requires |snapshots| == |nodeIndices| && Covers(packages, snapshots, stored, nodeIndices) && OneSize(snapshots)
    requires forall i :: 0 <= i < |nodeIndices| ==> nodeIndices[i] == i
    ensures Apart(packages) && forall a :: 0 <= a < |packages| ==> packages[a].nodeIndex < |snapshots|
  {
    forall a, b | 0 <= a < b < |packages| ensures DigestsOf(packages[a].sshashes) !! DigestsOf(packages[b].sshashes) {
      PackagesApart(packages, snapshots, stored, nodeIndices, a, b);
    }
    forall a | 0 <= a < |packages| ensures packages[a].nodeIndex < |snapshots| {
      assert WellFilled(packages[a], snapshots, nodeIndices);
    }
  }

  lemma PackageDigests(packages: seq<NodeIndexData>, snapshots: Snapshots, stored: set<string>, nodeIndices: seq<nat>, d: string)
    requires |snapshots| == |nodeIndices| && Covers(packages, snapshots, stored, nodeIndices)
    ensures SomePackage(packages, |packages|, d) <==> d in NeededDigests(snapshots, stored)
  {
    NeededElements(snapshots, stored);
    if SomePackage(packages, |packages|, d) {
      var a :| 0 <= a < |packages| && d in DigestsOf(packages[a].sshashes);
      var h :| h in packages[a].sshashes && h.hexdigest == d;
      assert InSome(packages, h);
      assert h in Needed(snapshots, stored);
    }
    if d in NeededDigests(snapshots, stored) {
      var i, h :| 0 <= i < |snapshots| && h in snapshots[i] && h.hexdigest !in stored && h.hexdigest == d;
      assert h in Needed(snapshots, stored);
      assert InSome(packages, h);
      var a :| 0 <= a < |packages| && h in packages[a].sshashes;
      assert d in DigestsOf(packages[a].sshashes);
    }
  }
}
