/** Distribution of upload work over the nodes: rarest hashes first, then largest first, each to
    the least loaded of the nodes that hold it. */
module UploadBalance {
  import opened Basics

  datatype SnapshotHash = SnapshotHash(hexdigest: string, size: nat)

  datatype NodeIndexData = NodeIndexData(nodeIndex: nat, sshashes: seq<SnapshotHash>, totalSize: nat)
  {
    function Append(h: SnapshotHash): NodeIndexData {
      this.(totalSize := totalSize + h.size, sshashes := sshashes + [h])
    }
  }

  /** Hashes listed by each node of the cluster; a node may list one hash several times. */
  type Snapshots = seq<seq<SnapshotHash>>

  // ---------------------------------------------------------------- who holds what

  function Repeat(i: nat, n: nat): seq<nat> {
    seq(n, _ => i)
  }

  /** Positions of the nodes listing `h`, once per listing. */
  function HoldersOf(snapshots: Snapshots, h: SnapshotHash): seq<nat> {
    if snapshots == [] then []
    else
      var last := |snapshots| - 1;
      HoldersOf(snapshots[..last], h) + Repeat(last, multiset(snapshots[last])[h])
  }

  function Flatten(snapshots: Snapshots): seq<SnapshotHash> {
    if snapshots == [] then [] else Flatten(snapshots[..|snapshots| - 1]) + snapshots[|snapshots| - 1]
  }

  lemma {:induction false} HoldersHold(snapshots: Snapshots, h: SnapshotHash, i: nat)
    ensures i in HoldersOf(snapshots, h) <==> i < |snapshots| && h in snapshots[i]
  {
    if snapshots == [] {
    } else {
      var last := |snapshots| - 1;
      HoldersHold(snapshots[..last], h, i);
      var n := multiset(snapshots[last])[h];
      assert n > 0 ==> Repeat(last, n)[0] == last;
    }
  }

  lemma {:induction false} FlattenHolds(snapshots: Snapshots, h: SnapshotHash)
    ensures h in Flatten(snapshots) <==> exists i :: 0 <= i < |snapshots| && h in snapshots[i]
  {
    if snapshots == [] {
    } else {
      var last := |snapshots| - 1;
      FlattenHolds(snapshots[..last], h);
      if i :| 0 <= i < |snapshots| && h in snapshots[i] {
        assert i < last ==> h in snapshots[..last][i];
      }
    }
  }

  /** The dictionary from hash to listing nodes, with its insertion order. */
  method IndexHolders(snapshots: Snapshots) returns (order: seq<SnapshotHash>, holders: map<SnapshotHash, seq<nat>>)
    ensures order == FirstSeen(Flatten(snapshots))
    ensures holders.Keys == Elements(order)
    ensures forall h :: h in holders ==> holders[h] == HoldersOf(snapshots, h)
  {
    order, holders := [], map[];
    for i := 0 to |snapshots|
      invariant Indexed(order, holders, snapshots[..i], [])
    {
      PrefixStep(snapshots, i);
      order, holders := IndexNode(order, holders, snapshots[i], i, snapshots[..i]);
    }
    assert snapshots[..|snapshots|] == snapshots;
    assert Flatten(snapshots) + [] == Flatten(snapshots);
    forall h | h in holders ensures holders[h] == HoldersOf(snapshots, h) {
      assert Lookup(holders, h) == PartHolders(snapshots, [], h);
    }
  }

  /** Listings by the nodes of `done` and then by node |done| through the prefix `hashes`. */
  ghost function PartHolders(done: Snapshots, hashes: seq<SnapshotHash>, h: SnapshotHash): seq<nat> {
    HoldersOf(done, h) + Repeat(|done|, multiset(hashes)[h])
  }

  function Lookup(holders: map<SnapshotHash, seq<nat>>, h: SnapshotHash): seq<nat> {
    if h in holders then holders[h] else []
  }

  ghost predicate OrderIndexed(order: seq<SnapshotHash>, keys: set<SnapshotHash>, done: Snapshots, hashes: seq<SnapshotHash>) {
    order == FirstSeen(Flatten(done) + hashes) && keys == Elements(order)
  }

  ghost predicate ListsIndexed(holders: map<SnapshotHash, seq<nat>>, done: Snapshots, hashes: seq<SnapshotHash>) {
    forall h :: Lookup(holders, h) == PartHolders(done, hashes, h)
  }

  ghost predicate Indexed(order: seq<SnapshotHash>, holders: map<SnapshotHash, seq<nat>>, done: Snapshots,
                          hashes: seq<SnapshotHash>)
  {
    OrderIndexed(order, holders.Keys, done, hashes) && ListsIndexed(holders, done, hashes)
  }

  lemma PartHoldersStep(done: Snapshots, hashes: seq<SnapshotHash>, x: SnapshotHash, h: SnapshotHash)
    ensures PartHolders(done, hashes + [x], h) == PartHolders(done, hashes, h) + if h == x then [|done|] else []
  {
    var n := multiset(hashes)[h];
    assert multiset(hashes + [x])[h] == n + if h == x then 1 else 0;
    assert Repeat(|done|, n + 1) == Repeat(|done|, n) + [|done|];
  }

  lemma OrderStep(order: seq<SnapshotHash>, keys: set<SnapshotHash>, done: Snapshots, hashes: seq<SnapshotHash>, x: SnapshotHash)
    requires OrderIndexed(order, keys, done, hashes)
    ensures OrderIndexed(if x in keys then order else order + [x], keys + {x}, done, hashes + [x])
  {
    var seen := Flatten(done) + (hashes + [x]);
    assert seen[..|seen| - 1] == Flatten(done) + hashes;
    assert Elements(order + [x]) == Elements(order) + {x};
  }

  lemma ListsStep(holders: map<SnapshotHash, seq<nat>>, done: Snapshots, hashes: seq<SnapshotHash>, x: SnapshotHash)
    requires ListsIndexed(holders, done, hashes)
    ensures ListsIndexed(holders[x := Lookup(holders, x) + [|done|]], done, hashes + [x])
  {
    forall h ensures Lookup(holders[x := Lookup(holders, x) + [|done|]], h) == PartHolders(done, hashes + [x], h) {
      LookupStep(holders, done, hashes, x, h);
    }
  }

  lemma LookupStep(holders: map<SnapshotHash, seq<nat>>, done: Snapshots, hashes: seq<SnapshotHash>, x: SnapshotHash, h: SnapshotHash)
    requires Lookup(holders, h) == PartHolders(done, hashes, h)
    ensures Lookup(holders[x := Lookup(holders, x) + [|done|]], h) == PartHolders(done, hashes + [x], h)
  {
    PartHoldersStep(done, hashes, x, h);
  }

  lemma IndexedStep(order: seq<SnapshotHash>, holders: map<SnapshotHash, seq<nat>>, done: Snapshots,
                    hashes: seq<SnapshotHash>, j: nat)
    requires j < |hashes| && Indexed(order, holders, done, hashes[..j])
    ensures var h := hashes[j];
      Indexed(if h in holders then order else order + [h], holders[h := Lookup(holders, h) + [|done|]], done, hashes[..j + 1])
  {
    var h := hashes[j];
    assert hashes[..j + 1] == hashes[..j] + [h];
    OrderStep(order, holders.Keys, done, hashes[..j], h);
    ListsStep(holders, done, hashes[..j], h);
    assert holders[h := Lookup(holders, h) + [|done|]].Keys == holders.Keys + {h};
  }

  lemma IndexedNode(order: seq<SnapshotHash>, holders: map<SnapshotHash, seq<nat>>, done: Snapshots, hashes: seq<SnapshotHash>)
    ensures Indexed(order, holders, done, hashes) <==> Indexed(order, holders, done + [hashes], [])
  {
    var all := done + [hashes];
    assert all[..|all| - 1] == done;
    assert Flatten(all) + [] == Flatten(done) + hashes;
    forall h ensures PartHolders(all, [], h) == PartHolders(done, hashes, h) {
      assert PartHolders(all, [], h) == HoldersOf(all, h);
    }
  }

  /** Appends node |done| to the entry of each hash it lists. */
  method IndexNode(order0: seq<SnapshotHash>, holders0: map<SnapshotHash, seq<nat>>, hashes: seq<SnapshotHash>, i: nat,
                   ghost done: Snapshots)
    returns (order: seq<SnapshotHash>, holders: map<SnapshotHash, seq<nat>>)
    requires i == |done| && Indexed(order0, holders0, done, [])
    ensures Indexed(order, holders, done + [hashes], [])
  {
    order, holders := order0, holders0;
    for j := 0 to |hashes|
      invariant Indexed(order, holders, done, hashes[..j])
    {
      var h := hashes[j];
      IndexedStep(order, holders, done, hashes, j);
      order := if h in holders then order else order + [h];
      holders := holders[h := Lookup(holders, h) + [i]];
    }
    assert hashes[..|hashes|] == hashes;
    IndexedNode(order, holders, done, hashes);
  }

  // ---------------------------------------------------------------- order of work

  /** Fewest listings first; among equals, larger hashes first. */
  predicate TodoLeq(snapshots: Snapshots, a: SnapshotHash, b: SnapshotHash) {
    var la, lb := |HoldersOf(snapshots, a)|, |HoldersOf(snapshots, b)|;
    la < lb || (la == lb && a.size >= b.size)
  }

  function Todo(snapshots: Snapshots): seq<SnapshotHash> {
    SortBy(FirstSeen(Flatten(snapshots)), (a, b) => TodoLeq(snapshots, a, b))
  }

  /** The part of a work list that is not stored yet. */
  function Missing(todo: seq<SnapshotHash>, stored: set<string>): seq<SnapshotHash> {
    if todo == [] then []
    else
      var last := |todo| - 1;
      Missing(todo[..last], stored) + if todo[last].hexdigest in stored then [] else [todo[last]]
  }

  function Needed(snapshots: Snapshots, stored: set<string>): seq<SnapshotHash> {
    Missing(Todo(snapshots), stored)
  }

  lemma {:induction false} MissingElements(todo: seq<SnapshotHash>, stored: set<string>)
    requires Distinct(todo)
    ensures forall h :: h in Missing(todo, stored) <==> h in todo && h.hexdigest !in stored
    ensures Distinct(Missing(todo, stored))
  {
    if todo == [] {
    } else {
      var last := |todo| - 1;
      MissingElements(todo[..last], stored);
      assert todo == todo[..last] + [todo[last]];
    }
  }

  lemma {:induction false} MissingSorted(todo: seq<SnapshotHash>, stored: set<string>, leq: (SnapshotHash, SnapshotHash) -> bool)
    requires SortedBy(todo, leq)
    ensures SortedBy(Missing(todo, stored), leq)
    ensures forall h :: h in Missing(todo, stored) ==> h in todo
  {
    if todo == [] {
    } else {
      var last := |todo| - 1;
      MissingSorted(todo[..last], stored, leq);
      var before := Missing(todo[..last], stored);
      forall h | h in before ensures leq(h, todo[last]) && h in todo {
        assert h in todo[..last];
        var i :| 0 <= i < last && todo[i] == h;
      }
    }
  }

  lemma TodoDistinct(snapshots: Snapshots)
    ensures Distinct(Todo(snapshots))
    ensures forall h :: h in Todo(snapshots) <==> h in Flatten(snapshots)
  {
    var leq := (a, b) => TodoLeq(snapshots, a, b);
    FirstSeenElements(Flatten(snapshots));
    SortByDistinct(FirstSeen(Flatten(snapshots)), leq);
    SortByPermutes(FirstSeen(Flatten(snapshots)), leq);
  }

  /** Exactly the listed hashes that are not stored are needed, each once. */
  lemma NeededElements(snapshots: Snapshots, stored: set<string>)
    ensures Distinct(Needed(snapshots, stored))
    ensures forall h :: h in Needed(snapshots, stored) <==>
      h.hexdigest !in stored && exists i :: 0 <= i < |snapshots| && h in snapshots[i]
  {
    TodoDistinct(snapshots);
    MissingElements(Todo(snapshots), stored);
    forall h ensures h in Flatten(snapshots) <==> exists i :: 0 <= i < |snapshots| && h in snapshots[i] {
      FlattenHolds(snapshots, h);
    }
  }

  lemma TodoOrders(snapshots: Snapshots)
    ensures TotalPreorder((a, b) => TodoLeq(snapshots, a, b))
  {
  }

  /** As many holders as the hash has listings in the cluster. */
  lemma {:induction false} HoldersCounted(snapshots: Snapshots, h: SnapshotHash)
    ensures |HoldersOf(snapshots, h)| == multiset(Flatten(snapshots))[h]
  {
    if snapshots == [] {
    } else {
      HoldersCounted(snapshots[..|snapshots| - 1], h);
    }
  }

  /** Hash a is worked on before hash b: it has fewer listings; with equally many it is larger; and if it is
      as large it was listed first. */
  ghost predicate ComesFirst(snapshots: Snapshots, a: SnapshotHash, b: SnapshotHash) {
    var listed := Flatten(snapshots);
    var la, lb := multiset(listed)[a], multiset(listed)[b];
    && a in listed && b in listed
    && (la < lb || (la == lb && (a.size > b.size || (a.size == b.size && First(listed, a) < First(listed, b)))))
  }

  ghost predicate WorkOrder(snapshots: Snapshots, hashes: seq<SnapshotHash>) {
    forall i, j :: 0 <= i < j < |hashes| ==> ComesFirst(snapshots, hashes[i], hashes[j])
  }

  lemma TodoInOrder(snapshots: Snapshots)
    ensures WorkOrder(snapshots, Todo(snapshots))
  {
    var listed := Flatten(snapshots);
    var leq := (a, b) => TodoLeq(snapshots, a, b);
    var ord := (a, b) => a in listed && b in listed && First(listed, a) < First(listed, b);
    TodoOrders(snapshots);
    TodoDistinct(snapshots);
    FirstSeenInOrder(listed);
    var keys := FirstSeen(listed);
    forall i, j | 0 <= i < j < |keys| ensures ord(keys[i], keys[j]) {
      assert First(listed, keys[i]) < First(listed, keys[j]);
    }
    SortByStable(keys, leq, ord);
    var todo := Todo(snapshots);
    forall i, j | 0 <= i < j < |todo| ensures ComesFirst(snapshots, todo[i], todo[j]) {
      assert leq(todo[i], todo[j]) && (leq(todo[j], todo[i]) ==> ord(todo[i], todo[j]));
      assert todo[i] in todo && todo[j] in todo;
      HoldersCounted(snapshots, todo[i]);
      HoldersCounted(snapshots, todo[j]);
    }
  }

  /** The needed hashes are worked on in that order. */
  lemma NeededInOrder(snapshots: Snapshots, stored: set<string>)
    ensures WorkOrder(snapshots, Needed(snapshots, stored))
  {
    var order := (a, b) => ComesFirst(snapshots, a, b);
    TodoInOrder(snapshots);
    var todo := Todo(snapshots);
    forall i, j | 0 <= i < j < |todo| ensures order(todo[i], todo[j]) {
      assert ComesFirst(snapshots, todo[i], todo[j]);
    }
    MissingSorted(todo, stored, order);
    var needed := Needed(snapshots, stored);
    forall i, j | 0 <= i < j < |needed| ensures ComesFirst(snapshots, needed[i], needed[j]) {
      assert order(needed[i], needed[j]);
    }
  }

  // ---------------------------------------------------------------- loads

  function Sizes(hashes: seq<SnapshotHash>): seq<nat> {
    seq(|hashes|, k requires 0 <= k < |hashes| => hashes[k].size)
  }

  function Total(weights: seq<nat>): nat {
    if weights == [] then 0 else Total(weights[..|weights| - 1]) + weights[|weights| - 1]
  }

  /** What node `i` gets when item k goes to node choice[k]. */
  function Load(weights: seq<nat>, choice: seq<nat>, i: nat): nat
    requires |weights| == |choice|
  {
    if weights == [] then 0
    else
      var last := |weights| - 1;
      Load(weights[..last], choice[..last], i) + if choice[last] == i then weights[last] else 0
  }

  function Pick(hashes: seq<SnapshotHash>, choice: seq<nat>, i: nat): seq<SnapshotHash>
    requires |hashes| == |choice|
  {
    if hashes == [] then []
    else
      var last := |hashes| - 1;
      Pick(hashes[..last], choice[..last], i) + if choice[last] == i then [hashes[last]] else []
  }

  lemma {:induction false} LoadIsSumOfPicked(hashes: seq<SnapshotHash>, choice: seq<nat>, i: nat)
    requires |hashes| == |choice|
    ensures Load(Sizes(hashes), choice, i) == Total(Sizes(Pick(hashes, choice, i)))
  {
    if hashes == [] {
    } else {
      var last := |hashes| - 1;
      LoadIsSumOfPicked(hashes[..last], choice[..last], i);
      assert Sizes(hashes)[..last] == Sizes(hashes[..last]);
      var before := Pick(hashes[..last], choice[..last], i);
      if choice[last] == i {
        assert Sizes(before + [hashes[last]])[..|before|] == Sizes(before);
      } else {
        assert before + [] == before;
      }
    }
  }

  lemma {:induction false} PickedWhere(hashes: seq<SnapshotHash>, choice: seq<nat>, i: nat, h: SnapshotHash)
    requires |hashes| == |choice|
    ensures h in Pick(hashes, choice, i) <==> exists k :: 0 <= k < |hashes| && hashes[k] == h && choice[k] == i
  {
    if hashes == [] {
    } else {
      var last := |hashes| - 1;
      PickedWhere(hashes[..last], choice[..last], i, h);
      if k :| 0 <= k < |hashes| && hashes[k] == h && choice[k] == i {
        assert k < last ==> hashes[..last][k] == h && choice[..last][k] == i;
      }
    }
  }

  lemma {:induction false} PickedDistinct(hashes: seq<SnapshotHash>, choice: seq<nat>, i: nat)
    requires |hashes| == |choice| && Distinct(hashes)
    ensures Distinct(Pick(hashes, choice, i))
  {
    if hashes == [] {
    } else {
      var last := |hashes| - 1;
      PickedDistinct(hashes[..last], choice[..last], i);
      PickedWhere(hashes[..last], choice[..last], i, hashes[last]);
    }
  }

  lemma {:induction false} LoadMonotone(weights: seq<nat>, choice: seq<nat>, i: nat, k: nat)
    requires |weights| == |choice| && k <= |weights|
    ensures Load(weights[..k], choice[..k], i) <= Load(weights, choice, i)
    ensures k < |weights| && choice[k] == i ==>
      Load(weights[..k], choice[..k], i) + weights[k] <= Load(weights, choice, i)
    decreases |weights|
  {
    if k == |weights| {
      assert weights[..k] == weights && choice[..k] == choice;
    } else {
      var last := |weights| - 1;
      if k < last {
        LoadMonotone(weights[..last], choice[..last], i, k);
        assert weights[..last][..k] == weights[..k] && choice[..last][..k] == choice[..k];
      }
    }
  }

  // ---------------------------------------------------------------- the greedy rule

  /** Item k goes to the holder that is least loaded by items 0..k-1, the first such on ties. */
  ghost predicate IsGreedy(snapshots: Snapshots, hashes: seq<SnapshotHash>, choice: seq<nat>) {
    && |hashes| == |choice|
    && forall k :: 0 <= k < |hashes| ==> GreedyAt(snapshots, hashes, choice, k)
  }

  ghost predicate GreedyAt(snapshots: Snapshots, hashes: seq<SnapshotHash>, choice: seq<nat>, k: nat)
    requires |hashes| == |choice| && k < |hashes|
  {
    var sizes := Sizes(hashes);
    var holders := HoldersOf(snapshots, hashes[k]);
    && choice[k] in holders
    && forall j :: j in holders ==>
         var mine, theirs := Load(sizes[..k], choice[..k], choice[k]), Load(sizes[..k], choice[..k], j);
         mine < theirs || (mine == theirs && choice[k] <= j)
  }

  /** Node i comes no later than node j in the order of (total size, index). */
  predicate NotHeavier(datas: seq<NodeIndexData>, i: nat, j: nat)
    requires i < |datas| && j < |datas|
  {
    datas[i].totalSize < datas[j].totalSize || (datas[i].totalSize == datas[j].totalSize && i <= j)
  }

  ghost predicate InRange(candidates: seq<nat>, n: nat) {
    forall t :: 0 <= t < |candidates| ==> candidates[t] < n
  }

  ghost predicate IsLeast(datas: seq<NodeIndexData>, candidates: seq<nat>, best: nat) {
    && best < |datas| && best in candidates
    && forall j :: j in candidates ==> j < |datas| && NotHeavier(datas, best, j)
  }

  /** `min((total_size, node_index) ...)` over a non-empty list of nodes. */
  method LeastLoaded(datas: seq<NodeIndexData>, candidates: seq<nat>) returns (best: nat)
    requires candidates != [] && InRange(candidates, |datas|)
    ensures IsLeast(datas, candidates, best)
  {
    best := candidates[0];
    for k := 1 to |candidates|
      invariant best in candidates
      invariant forall t :: 0 <= t < k ==> NotHeavier(datas, best, candidates[t])
    {
      var c := candidates[k];
      if datas[c].totalSize < datas[best].totalSize || (datas[c].totalSize == datas[best].totalSize && c < best) {
        best := c;
      }
    }
  }

  ghost predicate Describes(datas: seq<NodeIndexData>, nodeIndices: seq<nat>, hashes: seq<SnapshotHash>, choice: seq<nat>)
    requires |hashes| == |choice|
  {
    && |datas| == |nodeIndices|
    && forall i :: 0 <= i < |datas| ==>
         datas[i] == NodeIndexData(nodeIndices[i], Pick(hashes, choice, i), Load(Sizes(hashes), choice, i))
  }

  lemma DescribesAppend(datas: seq<NodeIndexData>, nodeIndices: seq<nat>, hashes: seq<SnapshotHash>, choice: seq<nat>,
                        h: SnapshotHash, i: nat)
    requires |hashes| == |choice| && Describes(datas, nodeIndices, hashes, choice) && i < |datas|
    ensures Describes(datas[i := datas[i].Append(h)], nodeIndices, hashes + [h], choice + [i])
  {
    var hs, ch := hashes + [h], choice + [i];
    assert hs[..|hashes|] == hashes && ch[..|hashes|] == choice && Sizes(hs)[..|hashes|] == Sizes(hashes);
    forall j | 0 <= j < |datas|
      ensures datas[i := datas[i].Append(h)][j] == NodeIndexData(nodeIndices[j], Pick(hs, ch, j), Load(Sizes(hs), ch, j))
    {
      assert j != i ==> Pick(hs, ch, j) == Pick(hashes, choice, j) + [] == Pick(hashes, choice, j);
    }
  }

  lemma GreedyAppend(snapshots: Snapshots, hashes: seq<SnapshotHash>, choice: seq<nat>, h: SnapshotHash, i: nat)
    requires IsGreedy(snapshots, hashes, choice)
    requires i in HoldersOf(snapshots, h)
    requires forall j :: j in HoldersOf(snapshots, h) ==>
      var mine, theirs := Load(Sizes(hashes), choice, i), Load(Sizes(hashes), choice, j);
      mine < theirs || (mine == theirs && i <= j)
    ensures IsGreedy(snapshots, hashes + [h], choice + [i])
  {
    var hs, ch := hashes + [h], choice + [i];
    forall k | 0 <= k < |hs| ensures GreedyAt(snapshots, hs, ch, k) {
      assert Sizes(hs)[..k] == Sizes(hashes)[..k] && ch[..k] == choice[..k];
      if k < |hashes| {
        assert GreedyAt(snapshots, hashes, choice, k);
        assert hs[k] == hashes[k];
      } else {
        assert Sizes(hashes)[..k] == Sizes(hashes) && choice[..k] == choice;
      }
    }
  }

  /** The first k items of the work list have been assigned. */
  ghost predicate Assigned(datas: seq<NodeIndexData>, choice: seq<nat>, snapshots: Snapshots, stored: set<string>,
                           nodeIndices: seq<nat>, done: seq<SnapshotHash>)
  {
    var hashes := Missing(done, stored);
    |hashes| == |choice| && IsGreedy(snapshots, hashes, choice) && Describes(datas, nodeIndices, hashes, choice)
  }

  lemma AssignedStored(datas: seq<NodeIndexData>, choice: seq<nat>, snapshots: Snapshots, stored: set<string>,
                       nodeIndices: seq<nat>, done: seq<SnapshotHash>, h: SnapshotHash)
    requires Assigned(datas, choice, snapshots, stored, nodeIndices, done) && h.hexdigest in stored
    ensures Assigned(datas, choice, snapshots, stored, nodeIndices, done + [h])
  {
    assert (done + [h])[..|done|] == done;
    assert Missing(done + [h], stored) == Missing(done, stored);
  }

  lemma AssignedNext(datas: seq<NodeIndexData>, choice: seq<nat>, snapshots: Snapshots, stored: set<string>,
                     nodeIndices: seq<nat>, done: seq<SnapshotHash>, h: SnapshotHash, node: nat)
    requires Assigned(datas, choice, snapshots, stored, nodeIndices, done) && h.hexdigest !in stored
    requires IsLeast(datas, HoldersOf(snapshots, h), node)
    ensures Assigned(datas[node := datas[node].Append(h)], choice + [node], snapshots, stored, nodeIndices, done + [h])
  {
    var hashes := Missing(done, stored);
    assert (done + [h])[..|done|] == done;
    assert Missing(done + [h], stored) == hashes + [h];
    forall j | j in HoldersOf(snapshots, h)
      ensures var mine, theirs := Load(Sizes(hashes), choice, node), Load(Sizes(hashes), choice, j);
        mine < theirs || (mine == theirs && node <= j)
    {
      assert j < |datas| && NotHeavier(datas, node, j);
    }
    DescribesAppend(datas, nodeIndices, hashes, choice, h, node);
    GreedyAppend(snapshots, hashes, choice, h, node);
  }

  /** Each item of the work list is listed by some node. */
  lemma TodoUsable(snapshots: Snapshots, h: SnapshotHash)
    requires h in Todo(snapshots)
    ensures h in FirstSeen(Flatten(snapshots))
    ensures HoldersOf(snapshots, h) != [] && InRange(HoldersOf(snapshots, h), |snapshots|)
  {
    TodoDistinct(snapshots);
    FirstSeenElements(Flatten(snapshots));
    ListedSomewhere(snapshots, h);
    var holders := HoldersOf(snapshots, h);
    forall t | 0 <= t < |holders| ensures holders[t] < |snapshots| {
      HoldersHold(snapshots, h, holders[t]);
    }
  }

  /** One pass over the work list. */
  method AssignHashes(stored: set<string>, snapshots: Snapshots, nodeIndices: seq<nat>)
    returns (datas: seq<NodeIndexData>, ghost choice: seq<nat>)
    requires |snapshots| == |nodeIndices|
    ensures IsGreedy(snapshots, Needed(snapshots, stored), choice)
    ensures Describes(datas, nodeIndices, Needed(snapshots, stored), choice)
  {
    var order, holders := IndexHolders(snapshots);
    datas := seq(|nodeIndices|, i requires 0 <= i < |nodeIndices| => NodeIndexData(nodeIndices[i], [], 0));
    choice := [];
    var todo := SortBy(order, (a, b) => TodoLeq(snapshots, a, b));
    for k := 0 to |todo|
      invariant |datas| == |nodeIndices| && Assigned(datas, choice, snapshots, stored, nodeIndices, todo[..k])
    {
      var h := todo[k];
      PrefixStep(todo, k);
      if h.hexdigest in stored {
        AssignedStored(datas, choice, snapshots, stored, nodeIndices, todo[..k], h);
      } else {
        TodoUsable(snapshots, h);
        var node := LeastLoaded(datas, holders[h]);
        AssignedNext(datas, choice, snapshots, stored, nodeIndices, todo[..k], h, node);
        datas := datas[node := datas[node].Append(h)];
        choice := choice + [node];
      }
    }
    assert todo[..|todo|] == todo;
  }

  lemma ListedSomewhere(snapshots: Snapshots, h: SnapshotHash)
    requires h in Flatten(snapshots)
    ensures HoldersOf(snapshots, h) != []
  {
    FlattenHolds(snapshots, h);
    var i :| 0 <= i < |snapshots| && h in snapshots[i];
    HoldersHold(snapshots, h, i);
  }

  // ---------------------------------------------------------------- what the assignment promises

  /** Every needed hash goes to exactly one node, that node holds it, and nothing else is assigned. */
  lemma AssignedOnce(snapshots: Snapshots, stored: set<string>, choice: seq<nat>, h: SnapshotHash)
    requires IsGreedy(snapshots, Needed(snapshots, stored), choice)
    ensures var needed := Needed(snapshots, stored);
      && (h in needed ==> exists i ::
            && 0 <= i < |snapshots| && h in snapshots[i] && h in Pick(needed, choice, i)
            && forall j: nat :: j != i ==> h !in Pick(needed, choice, j))
      && (h !in needed ==> forall j: nat :: h !in Pick(needed, choice, j))
  {
    var needed := Needed(snapshots, stored);
    NeededElements(snapshots, stored);
    if h in needed {
      var k :| 0 <= k < |needed| && needed[k] == h;
      assert GreedyAt(snapshots, needed, choice, k);
      HoldersHold(snapshots, h, choice[k]);
      PickedOnce(needed, choice, k);
    } else {
      forall j: nat ensures h !in Pick(needed, choice, j) {
        PickedWhere(needed, choice, j, h);
      }
    }
  }

  lemma PickedOnce(hashes: seq<SnapshotHash>, choice: seq<nat>, k: nat)
    requires |hashes| == |choice| && Distinct(hashes) && k < |hashes|
    ensures forall j: nat :: hashes[k] in Pick(hashes, choice, j) <==> j == choice[k]
  {
    forall j: nat ensures hashes[k] in Pick(hashes, choice, j) <==> j == choice[k] {
      PickedWhere(hashes, choice, j, hashes[k]);
    }
  }

  lemma {:induction false} LastPicked(hashes: seq<SnapshotHash>, choice: seq<nat>, i: nat) returns (k: nat)
    requires |hashes| == |choice| && Pick(hashes, choice, i) != []
    ensures k < |hashes| && choice[k] == i
    ensures var p := Pick(hashes, choice, i); hashes[k] == p[|p| - 1]
    ensures Load(Sizes(hashes), choice, i) == Load(Sizes(hashes)[..k], choice[..k], i) + hashes[k].size
  {
    var last := |hashes| - 1;
    assert Sizes(hashes)[..last] == Sizes(hashes[..last]);
    if choice[last] == i {
      k := last;
    } else {
      k := LastPicked(hashes[..last], choice[..last], i);
      assert Sizes(hashes)[..last][..k] == Sizes(hashes)[..k] && choice[..last][..k] == choice[..k];
      var p := Pick(hashes[..last], choice[..last], i);
      assert p + [] == p;
    }
  }

  /** A node's load without its last hash is at most the load of every other holder of that hash. */
  lemma LastHashRule(snapshots: Snapshots, hashes: seq<SnapshotHash>, choice: seq<nat>, i: nat, j: nat)
    requires IsGreedy(snapshots, hashes, choice) && Pick(hashes, choice, i) != []
    requires var p := Pick(hashes, choice, i); j < |snapshots| && p[|p| - 1] in snapshots[j]
    ensures var p := Pick(hashes, choice, i);
      Load(Sizes(hashes), choice, i) - p[|p| - 1].size <= Load(Sizes(hashes), choice, j)
  {
    var k := LastPicked(hashes, choice, i);
    HoldersHold(snapshots, hashes[k], j);
    assert GreedyAt(snapshots, hashes, choice, k);
    LoadMonotone(Sizes(hashes), choice, j, k);
  }

  /** The content of a list of work packages, each hash in one package of a node that holds it. */
  ghost predicate Covers(packages: seq<NodeIndexData>, snapshots: Snapshots, stored: set<string>, nodeIndices: seq<nat>)
    requires |snapshots| == |nodeIndices|
  {
    && (forall a :: 0 <= a < |packages| ==> WellFilled(packages[a], snapshots, nodeIndices))
    && (forall h :: h in Needed(snapshots, stored) <==> InSome(packages, h))
    && (forall a, b :: 0 <= a < b < |packages| ==> Elements(packages[a].sshashes) !! Elements(packages[b].sshashes))
  }

  ghost predicate WellFilled(p: NodeIndexData, snapshots: Snapshots, nodeIndices: seq<nat>)
    requires |snapshots| == |nodeIndices|
  {
    && p.sshashes != [] && Distinct(p.sshashes)
    && p.totalSize == Total(Sizes(p.sshashes))
    && exists i :: 0 <= i < |snapshots| && nodeIndices[i] == p.nodeIndex && Elements(p.sshashes) <= Elements(snapshots[i])
  }

  ghost predicate InSome(packages: seq<NodeIndexData>, h: SnapshotHash) {
    exists a :: 0 <= a < |packages| && h in packages[a].sshashes
  }

  /** The package of node i: what it picked. */
  lemma PackageWellFilled(snapshots: Snapshots, stored: set<string>, choice: seq<nat>, nodeIndices: seq<nat>, i: nat)
    requires |snapshots| == |nodeIndices| && IsGreedy(snapshots, Needed(snapshots, stored), choice) && i < |snapshots|
    requires Pick(Needed(snapshots, stored), choice, i) != []
    ensures var needed := Needed(snapshots, stored);
      WellFilled(NodeIndexData(nodeIndices[i], Pick(needed, choice, i), Load(Sizes(needed), choice, i)), snapshots, nodeIndices)
  {
    var needed := Needed(snapshots, stored);
    var picked := Pick(needed, choice, i);
    NeededElements(snapshots, stored);
    PickedDistinct(needed, choice, i);
    LoadIsSumOfPicked(needed, choice, i);
    forall h | h in picked ensures h in snapshots[i] {
      PickedWhere(needed, choice, i, h);
      var k :| 0 <= k < |needed| && needed[k] == h && choice[k] == i;
      assert GreedyAt(snapshots, needed, choice, k);
      HoldersHold(snapshots, h, i);
    }
    assert Elements(picked) <= Elements(snapshots[i]);
  }

  /** Different nodes pick different hashes. */
  lemma PicksDisjoint(hashes: seq<SnapshotHash>, choice: seq<nat>, i: nat, j: nat)
    requires |hashes| == |choice| && Distinct(hashes) && i != j
    ensures Elements(Pick(hashes, choice, i)) !! Elements(Pick(hashes, choice, j))
  {
    forall h ensures !(h in Pick(hashes, choice, i) && h in Pick(hashes, choice, j)) {
      PickedWhere(hashes, choice, i, h);
      PickedWhere(hashes, choice, j, h);
    }
  }

  /** The needed hashes are taken in order, each goes to its least loaded holder, and each package is what
      these choices give to one node. */
  ghost predicate Packaged(packages: seq<NodeIndexData>, snapshots: Snapshots, stored: set<string>, nodeIndices: seq<nat>, choice: seq<nat>)
    requires |snapshots| == |nodeIndices|
  {
    var needed := Needed(snapshots, stored);
    && WorkOrder(snapshots, needed) && IsGreedy(snapshots, needed, choice)
    && forall a :: 0 <= a < |packages| ==> GivenToOneNode(packages[a], needed, nodeIndices, choice)
  }

  ghost predicate GivenToOneNode(p: NodeIndexData, needed: seq<SnapshotHash>, nodeIndices: seq<nat>, choice: seq<nat>)
    requires |needed| == |choice|
  {
    exists i :: 0 <= i < |nodeIndices| && p == NodeIndexData(nodeIndices[i], Pick(needed, choice, i), Load(Sizes(needed), choice, i))
  }

  /** The packages for all nodes, with the idle nodes left out. */
  method BuildNodeIndexDatas(stored: set<string>, snapshots: Snapshots, nodeIndices: seq<nat>)
    returns (packages: seq<NodeIndexData>, ghost choice: seq<nat>)
    requires |snapshots| == |nodeIndices|
    ensures Covers(packages, snapshots, stored, nodeIndices)
    ensures Packaged(packages, snapshots, stored, nodeIndices, choice)
    ensures forall a :: 0 <= a < |packages| ==> WorkOrder(snapshots, packages[a].sshashes)
  {
    var datas;
    datas, choice := AssignHashes(stored, snapshots, nodeIndices);
    packages := [];
    ghost var from: seq<nat> := [];
    for i := 0 to |datas|
      invariant SelectsBusy(packages, from, datas, i)
    {
      SelectsNext(packages, from, datas, i);
      if datas[i].sshashes != [] {
        packages, from := packages + [datas[i]], from + [i];
      }
    }
    PackagesCover(packages, from, datas, choice, snapshots, stored, nodeIndices);
    forall a | 0 <= a < |packages| ensures WorkOrder(snapshots, packages[a].sshashes) {
      assert packages[a] == datas[from[a]];
      PickedInOrder(snapshots, Needed(snapshots, stored), choice, from[a]);
    }
  }

  /** A node's hashes keep the order of work. */
  lemma {:induction false} PickedInOrder(snapshots: Snapshots, hashes: seq<SnapshotHash>, choice: seq<nat>, i: nat)
    requires |hashes| == |choice| && WorkOrder(snapshots, hashes)
    ensures WorkOrder(snapshots, Pick(hashes, choice, i))
  {
    if hashes == [] {
    } else {
      var last := |hashes| - 1;
      PickedInOrder(snapshots, hashes[..last], choice[..last], i);
      var before := Pick(hashes[..last], choice[..last], i);
      forall k | 0 <= k < |before| ensures ComesFirst(snapshots, before[k], hashes[last]) {
        PickedWhere(hashes[..last], choice[..last], i, before[k]);
        var m :| 0 <= m < last && hashes[..last][m] == before[k];
      }
    }
  }

  /** `packages` are the non-idle ones among the first n of `datas`, taken from positions `from`. */
  ghost predicate SelectsBusy(packages: seq<NodeIndexData>, from: seq<nat>, datas: seq<NodeIndexData>, n: nat)
    requires n <= |datas|
  {
    && |from| == |packages|
    && (forall a :: 0 <= a < |packages| ==> from[a] < n && packages[a] == datas[from[a]] && packages[a].sshashes != [])
    && (forall a, b :: 0 <= a < b < |packages| ==> from[a] < from[b])
    && (forall j: nat :: j < n && datas[j].sshashes != [] ==> j in from)
  }

  lemma SelectsNext(packages: seq<NodeIndexData>, from: seq<nat>, datas: seq<NodeIndexData>, n: nat)
    requires n < |datas| && SelectsBusy(packages, from, datas, n)
    ensures datas[n].sshashes == [] ==> SelectsBusy(packages, from, datas, n + 1)
    ensures datas[n].sshashes != [] ==> SelectsBusy(packages + [datas[n]], from + [n], datas, n + 1)
  {
    assert (from + [n])[|from|] == n;
  }

  lemma PackagesCover(packages: seq<NodeIndexData>, from: seq<nat>, datas: seq<NodeIndexData>, choice: seq<nat>,
                      snapshots: Snapshots, stored: set<string>, nodeIndices: seq<nat>)
    requires |snapshots| == |nodeIndices| && IsGreedy(snapshots, Needed(snapshots, stored), choice)
    requires Describes(datas, nodeIndices, Needed(snapshots, stored), choice)
    requires SelectsBusy(packages, from, datas, |datas|)
    ensures Covers(packages, snapshots, stored, nodeIndices)
    ensures Packaged(packages, snapshots, stored, nodeIndices, choice)
  {
    var needed := Needed(snapshots, stored);
    NeededElements(snapshots, stored);
    NeededInOrder(snapshots, stored);
    forall a | 0 <= a < |packages| ensures WellFilled(packages[a], snapshots, nodeIndices) {
      PackageWellFilled(snapshots, stored, choice, nodeIndices, from[a]);
    }
    forall a | 0 <= a < |packages|
      ensures GivenToOneNode(packages[a], needed, nodeIndices, choice)
    {
      assert packages[a] == datas[from[a]];
    }
    forall h ensures h in needed <==> InSome(packages, h) {
      PackagesHoldNeeded(packages, from, datas, choice, snapshots, stored, nodeIndices, h);
    }
    forall a, b | 0 <= a < b < |packages| ensures Elements(packages[a].sshashes) !! Elements(packages[b].sshashes) {
      PicksDisjoint(needed, choice, from[a], from[b]);
    }
  }

  lemma PackagesHoldNeeded(packages: seq<NodeIndexData>, from: seq<nat>, datas: seq<NodeIndexData>, choice: seq<nat>,
                           snapshots: Snapshots, stored: set<string>, nodeIndices: seq<nat>, h: SnapshotHash)
    requires |snapshots| == |nodeIndices| && IsGreedy(snapshots, Needed(snapshots, stored), choice)
    requires Describes(datas, nodeIndices, Needed(snapshots, stored), choice)
    requires SelectsBusy(packages, from, datas, |datas|)
    ensures h in Needed(snapshots, stored) <==> InSome(packages, h)
  {
    var needed := Needed(snapshots, stored);
    if h in needed {
      var k :| 0 <= k < |needed| && needed[k] == h;
      var i := choice[k];
      assert GreedyAt(snapshots, needed, choice, k);
      HoldersHold(snapshots, h, i);
      PickedWhere(needed, choice, i, h);
      assert h in datas[i].sshashes;
      assert i in from;
      var a :| 0 <= a < |from| && from[a] == i;
      assert h in packages[a].sshashes;
    }
    if InSome(packages, h) {
      var a :| 0 <= a < |packages| && h in packages[a].sshashes;
      PickedWhere(needed, choice, from[a], h);
    }
  }

  // ---------------------------------------------------------------- an assignment always exists

  lemma {:induction false} LeastHolder(sizes: seq<nat>, choice: seq<nat>, candidates: seq<nat>) returns (best: nat)
    requires |sizes| == |choice| && candidates != []
    ensures best in candidates
    ensures forall j :: j in candidates ==>
      Load(sizes, choice, best) < Load(sizes, choice, j) || (Load(sizes, choice, best) == Load(sizes, choice, j) && best <= j)
  {
    var last := |candidates| - 1;
    best := candidates[last];
    assert candidates == candidates[..last] + [best];
    if last > 0 {
      var other := LeastHolder(sizes, choice, candidates[..last]);
      var mine, theirs := Load(sizes, choice, best), Load(sizes, choice, other);
      if theirs < mine || (theirs == mine && other <= best) {
        best := other;
      }
    }
  }

  lemma {:induction false} GreedyChoice(snapshots: Snapshots, hashes: seq<SnapshotHash>) returns (choice: seq<nat>)
    requires forall k :: 0 <= k < |hashes| ==> HoldersOf(snapshots, hashes[k]) != []
    ensures IsGreedy(snapshots, hashes, choice)
  {
    if hashes == [] {
      choice := [];
    } else {
      var last := |hashes| - 1;
      var before := GreedyChoice(snapshots, hashes[..last]);
      var i := LeastHolder(Sizes(hashes[..last]), before, HoldersOf(snapshots, hashes[last]));
      GreedyAppend(snapshots, hashes[..last], before, hashes[last], i);
      choice := before + [i];
      assert hashes == hashes[..last] + [hashes[last]];
    }
  }

  lemma {:induction false} SelectExists(datas: seq<NodeIndexData>, n: nat) returns (packages: seq<NodeIndexData>, from: seq<nat>)
    requires n <= |datas|
    ensures SelectsBusy(packages, from, datas, n)
  {
    if n == 0 {
      packages, from := [], [];
    } else {
      var before, positions := SelectExists(datas, n - 1);
      SelectsNext(before, positions, datas, n - 1);
      if datas[n - 1].sshashes == [] {
        packages, from := before, positions;
      } else {
        packages, from := before + [datas[n - 1]], positions + [n - 1];
      }
    }
  }

  /** Whatever is listed and stored, there is an assignment. */
  lemma AssignmentExists(snapshots: Snapshots, stored: set<string>, nodeIndices: seq<nat>) returns (packages: seq<NodeIndexData>)
    requires |snapshots| == |nodeIndices|
    ensures Covers(packages, snapshots, stored, nodeIndices)
  {
    var needed := Needed(snapshots, stored);
    NeededElements(snapshots, stored);
    forall k | 0 <= k < |needed| ensures HoldersOf(snapshots, needed[k]) != [] {
      assert needed[k] in needed;
      FlattenHolds(snapshots, needed[k]);
      ListedSomewhere(snapshots, needed[k]);
    }
    var choice := GreedyChoice(snapshots, needed);
    var datas := seq(|nodeIndices|, i requires 0 <= i < |nodeIndices| =>
      NodeIndexData(nodeIndices[i], Pick(needed, choice, i), Load(Sizes(needed), choice, i)));
    var from;
    packages, from := SelectExists(datas, |datas|);
    PackagesCover(packages, from, datas, choice, snapshots, stored, nodeIndices);
  }
}
