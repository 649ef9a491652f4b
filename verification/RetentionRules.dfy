/** Which backups and delta backups a cleanup keeps. Times are microseconds since the epoch. */
module RetentionRules {
  import opened Basics

  datatype ManifestMin = ManifestMin(start: int, end: int, filename: string)

  datatype Retention = Retention(minimumBackups: Option<int>, maximumBackups: Option<int>, keepDays: Option<int>)

  const MICROSECONDS_PER_DAY := 86_400_000_000

  /** `(now - end).days`, rounded down. */
  function DaysSince(now: int, end: int): int {
    (now - end) / MICROSECONDS_PER_DAY
  }

  /** Descending order of (start, end, filename). */
  predicate NewerFirst(a: ManifestMin, b: ManifestMin) {
    a.start > b.start || (a.start == b.start && (a.end > b.end || (a.end == b.end && TextLeq(b.filename, a.filename))))
  }

  lemma NewerFirstOrders()
    ensures TotalPreorder(NewerFirst)
  {
    TextLeqOrders();
  }

  function NewestFirst(manifests: seq<ManifestMin>): seq<ManifestMin> {
    SortBy(manifests, NewerFirst)
  }

  predicate TooOld(m: ManifestMin, r: Retention, now: int) {
    r.keepDays.Some? && DaysSince(now, m.end) > r.keepDays.value
  }

  /** Some whole days more than `days` have passed since the backup ended. */
  ghost predicate Outlived(m: ManifestMin, days: int, now: int) {
    now - m.end >= (days + 1) * 86_400_000_000
  }

  lemma TooOldIff(m: ManifestMin, r: Retention, now: int)
    ensures TooOld(m, r, now) <==> r.keepDays.Some? && Outlived(m, r.keepDays.value, now)
  {
  }

  /** Enough backups that one more may go. */
  predicate AboveMinimum(r: Retention, n: nat) {
    r.minimumBackups.None? || r.minimumBackups.value < n
  }

  predicate AboveMaximum(r: Retention, n: nat) {
    r.maximumBackups.Some? && r.maximumBackups.value < n
  }

  /** What is left of a newest-first list when the oldest is dropped as long as a rule says so. */
  function Trim(kept: seq<ManifestMin>, r: Retention, now: int): seq<ManifestMin> {
    if kept == [] then []
    else
      var shorter := kept[..|kept| - 1];
      if AboveMaximum(r, |kept|) then Trim(shorter, r, now)
      else if !AboveMinimum(r, |kept|) then kept
      else if TooOld(kept[|kept| - 1], r, now) then Trim(shorter, r, now)
      else kept
  }

  function PruneAt(manifests: seq<ManifestMin>, r: Retention, now: int): seq<ManifestMin> {
    if !AboveMinimum(r, |manifests|) then NewestFirst(manifests) else Trim(NewestFirst(manifests), r, now)
  }

  function Max(a: int, b: int): int {
    if a < b then b else a
  }

  function Min(a: int, b: int): int {
    if a < b then a else b
  }

  /** Some look at the clock found the backup too old. */
  ghost predicate FoundOld(m: ManifestMin, r: Retention, clock: nat -> int, looks: nat) {
    r.keepDays.Some? && exists i: nat :: i < looks && Outlived(m, r.keepDays.value, clock(i))
  }

  /** Why the backup at position k of the newest-first order may be dropped. */
  ghost predicate Droppable(sorted: seq<ManifestMin>, r: Retention, clock: nat -> int, looks: nat, k: nat)
    requires k < |sorted|
  {
    || (r.maximumBackups.Some? && k >= r.maximumBackups.value)
    || FoundOld(sorted[k], r, clock, looks)
  }

  ghost predicate AllDroppable(sorted: seq<ManifestMin>, r: Retention, clock: nat -> int, looks: nat, from: nat) {
    forall k :: from <= k < |sorted| ==> Droppable(sorted, r, clock, looks, k)
  }

  lemma LookAgain(sorted: seq<ManifestMin>, r: Retention, clock: nat -> int, looks: nat, from: nat)
    requires AllDroppable(sorted, r, clock, looks, from)
    ensures AllDroppable(sorted, r, clock, looks + 1, from)
    ensures 0 < from <= |sorted| && TooOld(sorted[from - 1], r, clock(looks)) ==>
      AllDroppable(sorted, r, clock, looks + 1, from - 1)
  {
    var after := looks + 1;
    forall k | from <= k < |sorted| ensures Droppable(sorted, r, clock, after, k) {
      assert Droppable(sorted, r, clock, looks, k);
      if r.keepDays.Some? {
        if i: nat :| i < looks && Outlived(sorted[k], r.keepDays.value, clock(i)) {
          assert i < after;
        }
      }
    }
    if 0 < from <= |sorted| {
      TooOldIff(sorted[from - 1], r, clock(looks));
    }
  }

  ghost predicate Steady(clock: nat -> int, now: int) {
    forall i: nat :: clock(i) == now
  }

  ghost predicate SameTrim(sorted: seq<ManifestMin>, kept: seq<ManifestMin>, r: Retention, clock: nat -> int) {
    forall now :: Steady(clock, now) ==> Trim(kept, r, now) == Trim(sorted, r, now)
  }

  ghost predicate MinimumHeld(r: Retention, all: nat, kept: nat) {
    r.minimumBackups.Some? && (r.maximumBackups.Some? ==> r.minimumBackups.value <= r.maximumBackups.value) ==>
      kept >= Min(all, r.minimumBackups.value)
  }

  /** Backup d is not newer than backup m. */
  ghost predicate NotNewer(d: ManifestMin, m: ManifestMin) {
    d.start < m.start || (d.start == m.start && d.end <= m.end)
  }

  /** Every backup that is not kept is no newer than every one that is. */
  ghost predicate NewestKept(manifests: seq<ManifestMin>, kept: seq<ManifestMin>) {
    forall m, d :: m in kept && d in manifests && d !in kept ==> NotNewer(d, m)
  }

  lemma PrefixIsNewest(manifests: seq<ManifestMin>, kept: seq<ManifestMin>)
    requires kept <= NewestFirst(manifests)
    ensures NewestKept(manifests, kept)
  {
    NewerFirstOrders();
    SortBySorted(manifests, NewerFirst);
    SortByPermutes(manifests, NewerFirst);
    var sorted := NewestFirst(manifests);
    forall m, d | m in kept && d in manifests && d !in kept ensures NotNewer(d, m) {
      assert d in sorted;
      var i :| 0 <= i < |kept| && kept[i] == m;
      var j :| 0 <= j < |sorted| && sorted[j] == d;
      assert sorted[i] == m;
      assert j >= |kept|;
      assert NewerFirst(sorted[i], sorted[j]);
    }
  }

  /** The loop's invariant: what is kept is a prefix, and each drop so far was allowed. */
  ghost predicate Pruning(sorted: seq<ManifestMin>, kept: seq<ManifestMin>, r: Retention, clock: nat -> int, looks: nat) {
    && kept <= sorted && AllDroppable(sorted, r, clock, looks, |kept|)
    && MinimumHeld(r, |sorted|, |kept|) && SameTrim(sorted, kept, r, clock)
  }

  lemma DropAboveMaximum(sorted: seq<ManifestMin>, kept: seq<ManifestMin>, r: Retention, clock: nat -> int, looks: nat)
    requires Pruning(sorted, kept, r, clock, looks) && kept != [] && AboveMaximum(r, |kept|)
    ensures Pruning(sorted, kept[..|kept| - 1], r, clock, looks)
  {
  }

  lemma DropTooOld(sorted: seq<ManifestMin>, kept: seq<ManifestMin>, r: Retention, clock: nat -> int, looks: nat)
    requires Pruning(sorted, kept, r, clock, looks) && kept != [] && !AboveMaximum(r, |kept|) && AboveMinimum(r, |kept|)
    ensures Pruning(sorted, kept, r, clock, looks + 1)
    ensures TooOld(kept[|kept| - 1], r, clock(looks)) ==> Pruning(sorted, kept[..|kept| - 1], r, clock, looks + 1)
  {
    LookAgain(sorted, r, clock, looks, |kept|);
    assert kept[|kept| - 1] == sorted[|kept| - 1];
    var shorter := kept[..|kept| - 1];
    if TooOld(kept[|kept| - 1], r, clock(looks)) {
      forall now | Steady(clock, now) ensures Trim(shorter, r, now) == Trim(sorted, r, now) {
        assert clock(looks) == now;
      }
    }
  }

  /** The pruning loop; the clock is read anew each time an age is checked. */
  method PruneManifests(manifests: seq<ManifestMin>, r: Retention, clock: nat -> int)
    returns (kept: seq<ManifestMin>, looks: nat)
    ensures kept <= NewestFirst(manifests) && NewestKept(manifests, kept)
    ensures r.maximumBackups.Some? && (r.minimumBackups.Some? ==> r.minimumBackups.value < |manifests|) ==>
      |kept| <= Max(0, r.maximumBackups.value)
    ensures MinimumHeld(r, |manifests|, |kept|)
    ensures |NewestFirst(manifests)| == |manifests|
    ensures AllDroppable(NewestFirst(manifests), r, clock, looks, |kept|)
    ensures kept != [] && (r.minimumBackups.Some? ==> r.minimumBackups.value < |kept|) && r.keepDays.Some? ==>
      looks > 0 && !Outlived(kept[|kept| - 1], r.keepDays.value, clock(looks - 1))
    ensures forall now :: Steady(clock, now) ==> kept == PruneAt(manifests, r, now)
  {
    kept, looks := SortBy(manifests, NewerFirst), 0;
    ghost var sorted := kept;
    SortByPermutes(manifests, NewerFirst);
    if !AboveMinimum(r, |kept|) {
      PrefixIsNewest(manifests, kept);
      return;
    }
    while kept != []
      invariant Pruning(sorted, kept, r, clock, looks)
      decreases |kept|
    {
      if AboveMaximum(r, |kept|) {
        DropAboveMaximum(sorted, kept, r, clock, looks);
        kept := kept[..|kept| - 1];
        continue;
      }
      if !AboveMinimum(r, |kept|) {
        break;
      }
      if r.keepDays.Some? {
        DropTooOld(sorted, kept, r, clock, looks);
        var now := clock(looks);
        looks := looks + 1;
        var oldest := kept[|kept| - 1];
        TooOldIff(oldest, r, now);
        if DaysSince(now, oldest.end) > r.keepDays.value {
          kept := kept[..|kept| - 1];
          continue;
        }
      }
      break;
    }
    PrefixIsNewest(manifests, kept);
  }

  /** Keeping the minimum fails exactly when the maximum is below it and there are more than the minimum. */
  lemma MinimumKeptIff(manifests: seq<ManifestMin>, r: Retention, now: int)
    requires r.minimumBackups.Some? && r.maximumBackups.Some?
    ensures |PruneAt(manifests, r, now)| >= Min(|manifests|, r.minimumBackups.value) <==>
      (r.minimumBackups.value <= Max(0, r.maximumBackups.value) || |manifests| <= r.minimumBackups.value)
  {
    SortByPermutes(manifests, NewerFirst);
    TrimBounds(NewestFirst(manifests), r, now);
  }

  lemma {:induction false} TrimBounds(kept: seq<ManifestMin>, r: Retention, now: int)
    ensures Trim(kept, r, now) <= kept
    ensures r.maximumBackups.Some? ==> |Trim(kept, r, now)| <= Max(0, r.maximumBackups.value)
    ensures r.minimumBackups.Some? && (r.maximumBackups.Some? ==> r.minimumBackups.value <= Max(0, r.maximumBackups.value)) ==>
      |Trim(kept, r, now)| >= Min(|kept|, r.minimumBackups.value)
  {
    if kept != [] {
      TrimBounds(kept[..|kept| - 1], r, now);
    }
  }

  /** Three backups, minimum 2, maximum 1: fewer than the minimum are left. */
  lemma MinimumLost()
    ensures var backups := [ManifestMin(3, 4, "backup-c"), ManifestMin(2, 2, "backup-b"), ManifestMin(1, 1, "backup-a")];
      |PruneAt(backups, Retention(Some(2), Some(1), None), 5)| < 2
  {
    var backups := [ManifestMin(3, 4, "backup-c"), ManifestMin(2, 2, "backup-b"), ManifestMin(1, 1, "backup-a")];
    MinimumKeptIff(backups, Retention(Some(2), Some(1), None), 5);
  }

  lemma {:induction false} TrimTwice(kept: seq<ManifestMin>, r: Retention, now: int)
    ensures Trim(Trim(kept, r, now), r, now) == Trim(kept, r, now)
  {
    if kept != [] {
      TrimTwice(kept[..|kept| - 1], r, now);
    }
  }

  lemma {:induction false} SortAgain(s: seq<ManifestMin>)
    requires SortedBy(s, NewerFirst)
    ensures NewestFirst(s) == s
  {
    if s != [] {
      SortAgain(s[1..]);
      if |s| > 1 {
        assert s[1..][0] == s[1];
      }
      assert [s[0]] + s[1..] == s;
    }
  }

  /** Pruning what was kept, at the same time and under the same rules, drops nothing more. */
  lemma PruneTwice(manifests: seq<ManifestMin>, r: Retention, now: int)
    ensures PruneAt(PruneAt(manifests, r, now), r, now) == PruneAt(manifests, r, now)
  {
    NewerFirstOrders();
    SortBySorted(manifests, NewerFirst);
    SortByPermutes(manifests, NewerFirst);
    TrimBounds(NewestFirst(manifests), r, now);
    TrimTwice(NewestFirst(manifests), r, now);
    SortAgain(PruneAt(manifests, r, now));
  }

  // ---------------------------------------------------------------- deltas

  /** `min(kept, key=start)`: the first backup with the smallest start. */
  function Oldest(kept: seq<ManifestMin>): (m: ManifestMin)
    requires kept != []
    ensures m in kept && forall b :: b in kept ==> m.start <= b.start
  {
    if |kept| == 1 then kept[0]
    else
      var rest := Oldest(kept[1..]);
      assert kept == [kept[0]] + kept[1..];
      if kept[0].start <= rest.start then kept[0] else rest
  }

  /** Of several that started together it is the first. */
  lemma {:induction false} OldestIsFirst(kept: seq<ManifestMin>) returns (i: nat)
    requires kept != []
    ensures i < |kept| && kept[i] == Oldest(kept) && forall j :: 0 <= j < i ==> kept[j].start > Oldest(kept).start
  {
    if |kept| == 1 || kept[0].start <= Oldest(kept[1..]).start {
      i := 0;
    } else {
      i := OldestIsFirst(kept[1..]);
      i := i + 1;
    }
  }

  method ComputeKeptDeltas(kept: seq<ManifestMin>, deltas: seq<ManifestMin>) returns (keptDeltas: seq<ManifestMin>)
    ensures kept == [] ==> keptDeltas == []
    ensures kept != [] ==> forall d :: d in keptDeltas <==> d in deltas && CleanupKeeps(kept, d)
  {
    if kept == [] {
      return [];
    }
    var oldest := Oldest(kept);
    keptDeltas := [];
    for i := 0 to |deltas|
      invariant forall d :: d in keptDeltas <==> d in deltas[..i] && d.end >= oldest.end
    {
      PrefixStep(deltas, i);
      if deltas[i].end < oldest.end {
        continue;
      }
      keptDeltas := keptDeltas + [deltas[i]];
    }
    assert deltas[..|deltas|] == deltas;
  }

  /** The deltas that a restore replays, in order of their start. */
  method MatchingDeltas(backup: ManifestMin, deltas: seq<ManifestMin>) returns (selected: seq<ManifestMin>)
    ensures forall d :: d in selected <==> d in deltas && RestoreSelects(backup, d)
    ensures forall i, j :: 0 <= i < j < |selected| ==> selected[i].start <= selected[j].start
    ensures |selected| <= |deltas|
  {
    selected := [];
    for i := 0 to |deltas|
      invariant |selected| <= i && forall d :: d in selected <==> d in deltas[..i] && RestoreSelects(backup, d)
    {
      PrefixStep(deltas, i);
      if deltas[i].start >= backup.start {
        selected := selected + [deltas[i]];
      }
    }
    assert deltas[..|deltas|] == deltas;
    var byStart := (a: ManifestMin, b: ManifestMin) => a.start <= b.start;
    SortByPermutes(selected, byStart);
    SortBySorted(selected, byStart);
    selected := SortBy(selected, byStart);
    forall i, j | 0 <= i < j < |selected| ensures selected[i].start <= selected[j].start {
      assert byStart(selected[i], selected[j]);
    }
  }

  /** Restore of a base backup replays the deltas that start no earlier than it does. */
  predicate RestoreSelects(backup: ManifestMin, delta: ManifestMin) {
    delta.start >= backup.start
  }

  predicate CleanupKeeps(kept: seq<ManifestMin>, delta: ManifestMin)
    requires kept != []
  {
    delta.end >= Oldest(kept).end
  }

  /** Cleanup keeps every delta that a restore of a kept backup would replay, exactly when no delta
      began at or after the start of the oldest kept backup and ended before that backup ended. */
  lemma NeededDeltasKeptIff(kept: seq<ManifestMin>, deltas: seq<ManifestMin>)
    requires kept != []
    ensures (forall b, d :: b in kept && d in deltas && RestoreSelects(b, d) ==> CleanupKeeps(kept, d)) <==>
      !(exists d :: d in deltas && RestoreSelects(Oldest(kept), d) && d.end < Oldest(kept).end)
  {
    var o := Oldest(kept);
    if d :| d in deltas && RestoreSelects(o, d) && d.end < o.end {
      assert o in kept;
    }
  }

  /** The delta begins no earlier than the backup ended, or ended before the backup began. */
  ghost predicate Apart(backup: ManifestMin, delta: ManifestMin) {
    backup.end <= delta.start || delta.end < backup.start
  }

  /** A delta taken while the only kept backup was being made: a restore would replay it, cleanup drops it. */
  lemma DeltaInsideBackupIsLost()
    ensures var backup, delta := ManifestMin(0, 10, "backup-a"), ManifestMin(5, 7, "delta-b");
      RestoreSelects(backup, delta) && !CleanupKeeps([backup], delta)
  {
  }

  /** Backups and deltas that never overlap in time: no needed delta is lost. */
  lemma NeededDeltasKept(kept: seq<ManifestMin>, deltas: seq<ManifestMin>, b: ManifestMin, d: ManifestMin)
    requires forall x, y :: x in kept && y in deltas ==> Apart(x, y)
    requires forall y :: y in deltas ==> y.start <= y.end
    requires b in kept && d in deltas && RestoreSelects(b, d)
    ensures CleanupKeeps(kept, d)
  {
    NeededDeltasKeptIff(kept, deltas);
    assert Apart(Oldest(kept), d);
  }
}
