/** How far from optimal the upload distribution can be when every node holds every hash. */
module UploadMakespan {
  import opened Basics
  import opened UploadBalance

  /** Sum of f(0) .. f(n-1). */
  function SumTo(n: nat, f: nat -> nat): nat {
    if n == 0 then 0 else SumTo(n - 1, f) + f(n - 1)
  }

  lemma {:induction false} SumToPointwise(n: nat, f: nat -> nat, g: nat -> nat)
    requires forall i: nat :: i < n ==> f(i) <= g(i)
    ensures SumTo(n, f) <= SumTo(n, g)
  {
    if n > 0 {
      SumToPointwise(n - 1, f, g);
    }
  }

  lemma {:induction false} SumToConstant(n: nat, c: nat)
    ensures SumTo(n, _ => c) == n * c
  {
    if n > 0 {
      SumToConstant(n - 1, c);
      assert (n - 1) * c + c == n * c;
    }
  }

  lemma {:induction false} SumToBump(n: nat, f: nat -> nat, g: nat -> nat, at: nat, w: nat)
    requires at < n
    requires forall i: nat :: i < n ==> g(i) == f(i) + if i == at then w else 0
    ensures SumTo(n, g) == SumTo(n, f) + w
  {
    if at == n - 1 {
      SumToPointwise(n - 1, f, g);
      SumToPointwise(n - 1, g, f);
    } else {
      SumToBump(n - 1, f, g, at, w);
    }
  }

  /** However the items are distributed, the loads add up to the total. */
  lemma {:induction false} LoadsAddUp(weights: seq<nat>, choice: seq<nat>, n: nat)
    requires |weights| == |choice| && forall k :: 0 <= k < |choice| ==> choice[k] < n
    ensures SumTo(n, i => Load(weights, choice, i)) == Total(weights)
  {
    if weights == [] {
      SumToPointwise(n, i => Load(weights, choice, i), _ => 0);
      SumToConstant(n, 0);
    } else {
      var last := |weights| - 1;
      LoadsAddUp(weights[..last], choice[..last], n);
      SumToBump(n, i => Load(weights[..last], choice[..last], i), i => Load(weights, choice, i), choice[last], weights[last]);
    }
  }

  lemma LoadsAtMost(weights: seq<nat>, choice: seq<nat>, n: nat, c: nat)
    requires |weights| == |choice| && forall k :: 0 <= k < |choice| ==> choice[k] < n
    requires forall i: nat :: i < n ==> Load(weights, choice, i) <= c
    ensures Total(weights) <= n * c
  {
    LoadsAddUp(weights, choice, n);
    SumToPointwise(n, i => Load(weights, choice, i), _ => c);
    SumToConstant(n, c);
  }

  lemma LoadsAtLeast(weights: seq<nat>, choice: seq<nat>, n: nat, c: nat)
    requires |weights| == |choice| && forall k :: 0 <= k < |choice| ==> choice[k] < n
    requires forall i: nat :: i < n ==> c <= Load(weights, choice, i)
    ensures n * c <= Total(weights)
  {
    LoadsAddUp(weights, choice, n);
    SumToPointwise(n, _ => c, i => Load(weights, choice, i));
    SumToConstant(n, c);
  }

  lemma {:induction false} TotalMonotone(weights: seq<nat>, k: nat)
    requires k < |weights|
    ensures Total(weights[..k]) + weights[k] <= Total(weights)
    decreases |weights|
  {
    var last := |weights| - 1;
    if k < last {
      TotalMonotone(weights[..last], k);
      assert weights[..last][..k] == weights[..k];
    }
  }

  // ---------------------------------------------------------------- the general bound

  /** `other` distributes the same items over the n nodes with no node above `m`. */
  ghost predicate Achieves(hashes: seq<SnapshotHash>, other: seq<nat>, n: nat, m: nat) {
    && |other| == |hashes|
    && (forall k :: 0 <= k < |other| ==> other[k] < n)
    && (forall i: nat :: i < n ==> Load(Sizes(hashes), other, i) <= m)
  }

  ghost predicate FullyReplicated(snapshots: Snapshots, hashes: seq<SnapshotHash>) {
    forall h, i :: h in hashes && 0 <= i < |snapshots| ==> h in snapshots[i]
  }

  lemma ChoicesInRange(snapshots: Snapshots, hashes: seq<SnapshotHash>, choice: seq<nat>)
    requires IsGreedy(snapshots, hashes, choice)
    ensures forall k :: 0 <= k < |choice| ==> choice[k] < |snapshots|
  {
    forall k | 0 <= k < |choice| ensures choice[k] < |snapshots| {
      assert GreedyAt(snapshots, hashes, choice, k);
      HoldersHold(snapshots, hashes[k], choice[k]);
    }
  }

  /** When item k is placed, its node is the least loaded of all n, so n times that load and the
      item itself fit in what any distribution has to carry. */
  lemma PlacedOnLeastLoaded(snapshots: Snapshots, hashes: seq<SnapshotHash>, choice: seq<nat>, other: seq<nat>, m: nat, k: nat)
    requires IsGreedy(snapshots, hashes, choice) && FullyReplicated(snapshots, hashes)
    requires Achieves(hashes, other, |snapshots|, m) && k < |hashes|
    ensures forall j: nat :: j < |snapshots| ==>
      Load(Sizes(hashes)[..k], choice[..k], choice[k]) <= Load(Sizes(hashes)[..k], choice[..k], j)
    ensures |snapshots| * Load(Sizes(hashes)[..k], choice[..k], choice[k]) + hashes[k].size <= |snapshots| * m
    ensures hashes[k].size <= m
  {
    var n, sizes := |snapshots|, Sizes(hashes);
    var low := Load(sizes[..k], choice[..k], choice[k]);
    assert GreedyAt(snapshots, hashes, choice, k);
    ChoicesInRange(snapshots, hashes, choice);
    forall j: nat | j < n ensures low <= Load(sizes[..k], choice[..k], j) {
      assert hashes[k] in hashes;
      HoldersHold(snapshots, hashes[k], j);
      assert j in HoldersOf(snapshots, hashes[k]);
    }
    LoadsAtLeast(sizes[..k], choice[..k], n, low);
    TotalMonotone(sizes, k);
    LoadsAtMost(sizes, other, n, m);
    LoadMonotone(sizes, other, other[k], k);
  }

  lemma MulLe(c: nat, a: int, b: int)
    requires a <= b
    ensures c * a <= c * b
  {
  }

  lemma Distribute(c: int, a: int, b: int)
    ensures c * (a + b) == c * a + c * b
  {
  }

  lemma ScaleBySmall(n: nat, low: nat, s: nat, m: nat, c: nat)
    requires n >= 1 && n * low + s <= n * m && c * s <= m
    ensures c * (n * (low + s)) <= c * (n * m) + (n - 1) * m
  {
    Distribute(n, low, s);
    Distribute(s, n - 1, 1);
    var r := (n - 1) * s;
    assert n * (low + s) <= n * m + r;
    MulLe(c, n * (low + s), n * m + r);
    Distribute(c, n * m, r);
    assert c * r == (n - 1) * (c * s);
    MulLe(n - 1, c * s, m);
  }

  /** No node is loaded beyond (2 - 1/N) times the heaviest load of any distribution at all. */
  lemma ListBound(snapshots: Snapshots, hashes: seq<SnapshotHash>, choice: seq<nat>, other: seq<nat>, m: nat, i: nat)
    requires IsGreedy(snapshots, hashes, choice) && FullyReplicated(snapshots, hashes)
    requires Achieves(hashes, other, |snapshots|, m) && i < |snapshots|
    ensures |snapshots| * Load(Sizes(hashes), choice, i) <= |snapshots| * m + (|snapshots| - 1) * m
  {
    MulLe(|snapshots|, 0, m);
    MulLe(|snapshots| - 1, 0, m);
    LoadIsSumOfPicked(hashes, choice, i);
    if Pick(hashes, choice, i) != [] {
      var k := LastPicked(hashes, choice, i);
      PlacedOnLeastLoaded(snapshots, hashes, choice, other, m, k);
      ScaleBySmall(|snapshots|, Load(Sizes(hashes)[..k], choice[..k], i), hashes[k].size, m, 1);
    }
  }

  // ---------------------------------------------------------------- the bound for equal listings

  /** Weight 2 for an item too big to share a node with one of size s under limit m, else 1. */
  function Weight(size: nat, s: nat, m: nat): nat {
    if size + s > m then 2 else 1
  }

  function Weights(sizes: seq<nat>, s: nat, m: nat): seq<nat> {
    seq(|sizes|, k requires 0 <= k < |sizes| => Weight(sizes[k], s, m))
  }

  /** Items of at least s > m/3: a node within limit m carries weight at most 2. */
  lemma {:induction false} LightNode(sizes: seq<nat>, choice: seq<nat>, i: nat, s: nat, m: nat)
    requires |sizes| == |choice| && 3 * s > m
    requires forall k :: 0 <= k < |sizes| ==> s <= sizes[k]
    ensures var w, l := Load(Weights(sizes, s, m), choice, i), Load(sizes, choice, i);
      (w == 1 ==> l >= s) && (w == 2 ==> l + s > m) && (w > 2 ==> l > m)
  {
    if sizes == [] {
    } else {
      var last := |sizes| - 1;
      LightNode(sizes[..last], choice[..last], i, s, m);
      assert Weights(sizes, s, m)[..last] == Weights(sizes[..last], s, m);
    }
  }

  /** A node too loaded for one more item of size s carries weight at least 2. */
  lemma {:induction false} HeavyNode(sizes: seq<nat>, choice: seq<nat>, i: nat, s: nat, m: nat)
    requires |sizes| == |choice| && s <= m
    ensures var w, l := Load(Weights(sizes, s, m), choice, i), Load(sizes, choice, i);
      (w == 0 ==> l == 0) && (w == 1 ==> l + s <= m)
  {
    if sizes == [] {
    } else {
      var last := |sizes| - 1;
      HeavyNode(sizes[..last], choice[..last], i, s, m);
      assert Weights(sizes, s, m)[..last] == Weights(sizes[..last], s, m);
    }
  }

  /** If item k is larger than a third of m and no earlier item is smaller, its node stays within m:
      otherwise all nodes together would carry more weight than any distribution within m can. */
  lemma LargeLastItemFits(snapshots: Snapshots, hashes: seq<SnapshotHash>, choice: seq<nat>, other: seq<nat>, m: nat, k: nat)
    requires IsGreedy(snapshots, hashes, choice) && FullyReplicated(snapshots, hashes)
    requires Achieves(hashes, other, |snapshots|, m) && k < |hashes|
    requires forall t :: 0 <= t < k ==> hashes[t].size >= hashes[k].size
    requires 3 * hashes[k].size > m
    ensures Load(Sizes(hashes)[..k], choice[..k], choice[k]) + hashes[k].size <= m
  {
    var n, sizes, s := |snapshots|, Sizes(hashes), hashes[k].size;
    PlacedOnLeastLoaded(snapshots, hashes, choice, other, m, k);
    ChoicesInRange(snapshots, hashes, choice);
    if Load(sizes[..k], choice[..k], choice[k]) + s > m {
      var before, upTo, rest := Weights(sizes[..k], s, m), Weights(sizes[..k + 1], s, m), other[..k + 1];
      assert upTo[..k] == before;
      forall i: nat | i < n ensures 2 <= Load(before, choice[..k], i) {
        HeavyNode(sizes[..k], choice[..k], i, s, m);
      }
      LoadsAtLeast(before, choice[..k], n, 2);
      forall i: nat | i < n ensures Load(upTo, rest, i) <= 2 {
        LightNode(sizes[..k + 1], rest, i, s, m);
        LoadMonotone(sizes, other, i, k + 1);
      }
      LoadsAtMost(upTo, rest, n, 2);
      assert false;
    }
  }

  /** When each node lists each hash equally often the work list is in order of falling size. */
  ghost predicate EqualListings(snapshots: Snapshots, hashes: seq<SnapshotHash>) {
    forall g, h :: g in hashes && h in hashes ==> |HoldersOf(snapshots, g)| == |HoldersOf(snapshots, h)|
  }

  lemma NeededFalls(snapshots: Snapshots, stored: set<string>, t: nat, k: nat)
    requires EqualListings(snapshots, Needed(snapshots, stored))
    requires t < k < |Needed(snapshots, stored)|
    ensures Needed(snapshots, stored)[t].size >= Needed(snapshots, stored)[k].size
  {
    var leq := (a, b) => TodoLeq(snapshots, a, b);
    TodoOrders(snapshots);
    SortBySorted(FirstSeen(Flatten(snapshots)), leq);
    MissingSorted(Todo(snapshots), stored, leq);
    var needed := Needed(snapshots, stored);
    assert leq(needed[t], needed[k]);
  }

  lemma LoadWithinThird(snapshots: Snapshots, hashes: seq<SnapshotHash>, choice: seq<nat>, other: seq<nat>, m: nat, k: nat,
                        load: nat)
    requires IsGreedy(snapshots, hashes, choice) && FullyReplicated(snapshots, hashes)
    requires Achieves(hashes, other, |snapshots|, m) && k < |hashes| && |snapshots| >= 1
    requires forall t :: 0 <= t < k ==> hashes[t].size >= hashes[k].size
    requires load == Load(Sizes(hashes)[..k], choice[..k], choice[k]) + hashes[k].size
    ensures 3 * (|snapshots| * load) <= 3 * (|snapshots| * m) + (|snapshots| - 1) * m
  {
    var n, low, s := |snapshots|, Load(Sizes(hashes)[..k], choice[..k], choice[k]), hashes[k].size;
    if 3 * s <= m {
      PlacedOnLeastLoaded(snapshots, hashes, choice, other, m, k);
      ScaleBySmall(n, low, s, m, 3);
    } else {
      LargeLastItemFits(snapshots, hashes, choice, other, m, k);
      MulLe(n, low + s, m);
      MulLe(n - 1, 0, m);
    }
  }

  /** No node is loaded beyond (4/3 - 1/(3N)) times the heaviest load of any distribution at all. */
  lemma LongestFirstBound(snapshots: Snapshots, stored: set<string>, choice: seq<nat>, other: seq<nat>, m: nat, i: nat)
    requires IsGreedy(snapshots, Needed(snapshots, stored), choice)
    requires FullyReplicated(snapshots, Needed(snapshots, stored)) && EqualListings(snapshots, Needed(snapshots, stored))
    requires Achieves(Needed(snapshots, stored), other, |snapshots|, m) && i < |snapshots|
    ensures 3 * (|snapshots| * Load(Sizes(Needed(snapshots, stored)), choice, i)) <= 3 * (|snapshots| * m) + (|snapshots| - 1) * m
  {
    var hashes := Needed(snapshots, stored);
    LoadIsSumOfPicked(hashes, choice, i);
    MulLe(|snapshots|, 0, m);
    MulLe(|snapshots| - 1, 0, m);
    if Pick(hashes, choice, i) != [] {
      var k := LastPicked(hashes, choice, i);
      forall t: nat | t < k ensures hashes[t].size >= hashes[k].size {
        NeededFalls(snapshots, stored, t, k);
      }
      LoadWithinThird(snapshots, hashes, choice, other, m, k, Load(Sizes(hashes), choice, i));
    }
  }

  /** The same bounds for the packages as they are handed out. */
  lemma PackagesWithinBounds(packages: seq<NodeIndexData>, snapshots: Snapshots, stored: set<string>, nodeIndices: seq<nat>,
                             choice: seq<nat>, other: seq<nat>, m: nat, a: nat)
    requires |snapshots| == |nodeIndices| && Packaged(packages, snapshots, stored, nodeIndices, choice) && a < |packages|
    requires FullyReplicated(snapshots, Needed(snapshots, stored))
    requires Achieves(Needed(snapshots, stored), other, |snapshots|, m)
    ensures |snapshots| * packages[a].totalSize <= |snapshots| * m + (|snapshots| - 1) * m
    ensures EqualListings(snapshots, Needed(snapshots, stored)) ==>
      3 * (|snapshots| * packages[a].totalSize) <= 3 * (|snapshots| * m) + (|snapshots| - 1) * m
  {
    var needed := Needed(snapshots, stored);
    assert GivenToOneNode(packages[a], needed, nodeIndices, choice);
    var i :| 0 <= i < |nodeIndices| &&
      packages[a] == NodeIndexData(nodeIndices[i], Pick(needed, choice, i), Load(Sizes(needed), choice, i));
    ListBound(snapshots, needed, choice, other, m, i);
    if EqualListings(snapshots, needed) {
      LongestFirstBound(snapshots, stored, choice, other, m, i);
    }
  }
}
