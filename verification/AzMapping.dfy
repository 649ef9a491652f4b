/** Which backed-up node is restored onto which configured node (full restore).

    Availability zones of the backup and of the cluster are each ranked by how many nodes they
    hold, paired rank by rank, and the backups of one zone are spread over the nodes of its pair. */
module AzMapping {
  import opened Basics

  datatype MappingError =
    | InsufficientNodes
    | InsufficientAzs

  /** Number of occurrences, as `Counter` keeps it. */
  function Count(azs: seq<string>, az: string): nat {
    multiset(azs)[az]
  }

  /** The keys of `Counter.most_common()`: larger counts first, ties in order of first appearance. */
  function MostCommon(azs: seq<string>): seq<string> {
    SortBy(FirstSeen(azs), (a, b) => Count(azs, a) >= Count(azs, b))
  }

  /** `ranking` lists each zone once, larger zones first. */
  ghost predicate Ranks(ranking: seq<string>, azs: seq<string>) {
    && Distinct(ranking)
    && (forall az :: az in ranking <==> az in azs)
    && (forall i, j :: 0 <= i < j < |ranking| ==> Count(azs, ranking[i]) >= Count(azs, ranking[j]))
  }

  lemma MostCommonRanks(azs: seq<string>)
    ensures Ranks(MostCommon(azs), azs)
  {
    var leq := (a, b) => Count(azs, a) >= Count(azs, b);
    FirstSeenElements(azs);
    SortByPermutes(FirstSeen(azs), leq);
    SortByDistinct(FirstSeen(azs), leq);
    SortBySorted(FirstSeen(azs), leq);
    var r := MostCommon(azs);
    forall i, j | 0 <= i < j < |r| ensures Count(azs, r[i]) >= Count(azs, r[j]) {
      assert leq(r[i], r[j]);
    }
  }

  /** Zone y ranks before zone z: it is larger, or as large and seen first. */
  ghost predicate RanksBefore(azs: seq<string>, y: string, z: string) {
    && y in azs && z in azs
    && (Count(azs, y) > Count(azs, z) || (Count(azs, y) == Count(azs, z) && First(azs, y) < First(azs, z)))
  }

  ghost predicate InRankOrder(ranking: seq<string>, azs: seq<string>) {
    forall i, j :: 0 <= i < j < |ranking| ==> RanksBefore(azs, ranking[i], ranking[j])
  }

  lemma MostCommonInOrder(azs: seq<string>)
    ensures InRankOrder(MostCommon(azs), azs)
  {
    var leq := (a, b) => Count(azs, a) >= Count(azs, b);
    var ord := (a, b) => a in azs && b in azs && First(azs, a) < First(azs, b);
    MostCommonRanks(azs);
    FirstSeenInOrder(azs);
    var keys := FirstSeen(azs);
    forall i, j | 0 <= i < j < |keys| ensures ord(keys[i], keys[j]) {
      assert First(azs, keys[i]) < First(azs, keys[j]);
    }
    SortByStable(keys, leq, ord);
    var r := MostCommon(azs);
    forall i, j | 0 <= i < j < |r| ensures RanksBefore(azs, r[i], r[j]) {
      assert leq(r[i], r[j]) && (leq(r[j], r[i]) ==> ord(r[i], r[j]));
      assert r[i] in r && r[j] in r;
    }
  }

  // ---------------------------------------------------------------- when a placement exists

  /** `f` sends each backup zone to its own node zone, which has at least as many nodes. */
  ghost predicate IsPlacement(f: map<string, string>, backups: seq<string>, nodes: seq<string>) {
    && f.Keys == Elements(backups)
    && (forall az :: az in f ==> f[az] in nodes && Count(backups, az) <= Count(nodes, f[az]))
    && Injective(f)
  }

  ghost predicate Injective(f: map<string, string>) {
    forall a, b :: a in f && b in f && f[a] == f[b] ==> a == b
  }

  ghost predicate Placeable(backups: seq<string>, nodes: seq<string>) {
    exists f :: IsPlacement(f, backups, nodes)
  }

  /** Pairing the rankings leaves no backup zone without a pair or with too small a pair. */
  ghost predicate PairsFit(backups: seq<string>, b: seq<string>, nodes: seq<string>, n: seq<string>) {
    && |b| <= |n|
    && forall k :: 0 <= k < |b| ==> Count(backups, b[k]) <= Count(nodes, n[k])
  }

  ghost predicate RanksFit(backups: seq<string>, nodes: seq<string>) {
    PairsFit(backups, MostCommon(backups), nodes, MostCommon(nodes))
  }

  ghost function Pairing(b: seq<string>, n: seq<string>): (f: map<string, string>)
    requires |b| <= |n| && Distinct(b)
    ensures f.Keys == Elements(b)
    ensures forall k :: 0 <= k < |b| ==> f[b[k]] == n[k]
  {
    map k | 0 <= k < |b| :: b[k] := n[k]
  }

  lemma PairingInjective(b: seq<string>, n: seq<string>)
    requires |b| <= |n| && Distinct(b) && Distinct(n)
    ensures Injective(Pairing(b, n))
  {
    var f := Pairing(b, n);
    forall x, y | x in f && y in f && f[x] == f[y] ensures x == y {
      var i :| 0 <= i < |b| && b[i] == x;
      var j :| 0 <= j < |b| && b[j] == y;
      assert n[i] == n[j];
    }
  }

  lemma PairingIsPlacement(backups: seq<string>, b: seq<string>, nodes: seq<string>, n: seq<string>)
    requires Ranks(b, backups) && Ranks(n, nodes) && PairsFit(backups, b, nodes, n)
    ensures IsPlacement(Pairing(b, n), backups, nodes)
  {
    var f := Pairing(b, n);
    PairingInjective(b, n);
    assert Elements(b) == Elements(backups);
    forall az | az in f ensures f[az] in nodes && Count(backups, az) <= Count(nodes, f[az]) {
      var k :| 0 <= k < |b| && b[k] == az;
      assert f[az] == n[k] && n[k] in n;
    }
  }

  /** A zone at least as large as the k-th backup zone, and too large for the k-th node zone,
      is sent into the first k node zones. */
  lemma LargeZoneGoesEarly(f: map<string, string>, backups: seq<string>, b: seq<string>,
                           nodes: seq<string>, n: seq<string>, k: nat, i: nat, upTo: nat)
    requires IsPlacement(f, backups, nodes) && Ranks(b, backups) && Ranks(n, nodes)
    requires i <= k < |b| && upTo <= |n|
    requires upTo < |n| ==> Count(backups, b[k]) > Count(nodes, n[upTo])
    ensures b[i] in f && f[b[i]] in Elements(n[..upTo])
  {
    assert b[i] in b;
    assert Count(backups, b[i]) >= Count(backups, b[k]);
    var target := f[b[i]];
    assert target in n;
    var j :| 0 <= j < |n| && n[j] == target;
    if j >= upTo {
      assert false;
    }
    assert n[..upTo][j] == target;
  }

  lemma ImagesFit(f: map<string, string>, from: seq<string>, into: seq<string>)
    requires Injective(f) && Distinct(from) && Distinct(into)
    requires forall az :: az in from ==> az in f && f[az] in Elements(into)
    ensures |from| <= |into|
  {
    var g := map az | az in from :: f[az];
    assert g.Keys == Elements(from);
    assert |g| == |g.Keys|;
    Pigeonhole(g, Elements(into));
    DistinctSize(from);
    DistinctSize(into);
  }

  /** A placement sends the k+1 largest backup zones to k+1 zones of that size or more, so
      the k-th largest node zone is large enough. */
  lemma PlacementFitsRank(f: map<string, string>, backups: seq<string>, b: seq<string>,
                          nodes: seq<string>, n: seq<string>, k: nat)
    requires IsPlacement(f, backups, nodes) && Ranks(b, backups) && Ranks(n, nodes)
    requires k < |b|
    ensures k < |n| && Count(backups, b[k]) <= Count(nodes, n[k])
  {
    if k >= |n| || Count(backups, b[k]) > Count(nodes, n[k]) {
      var upTo := if k < |n| then k else |n|;
      var top := b[..k + 1];
      forall az | az in top ensures az in f && f[az] in Elements(n[..upTo]) {
        var i :| 0 <= i <= k && b[i] == az;
        LargeZoneGoesEarly(f, backups, b, nodes, n, k, i, upTo);
      }
      ImagesFit(f, top, n[..upTo]);
      assert false;
    }
  }

  /** Ranked pairing succeeds exactly when some placement exists at all. */
  lemma RanksFitIffPlaceable(backups: seq<string>, nodes: seq<string>)
    ensures RanksFit(backups, nodes) <==> Placeable(backups, nodes)
  {
    MostCommonRanks(backups);
    MostCommonRanks(nodes);
    var b, n := MostCommon(backups), MostCommon(nodes);
    if RanksFit(backups, nodes) {
      PairingIsPlacement(backups, b, nodes, n);
    }
    if Placeable(backups, nodes) {
      var f :| IsPlacement(f, backups, nodes);
      forall k | 0 <= k < |b| ensures k < |n| && Count(backups, b[k]) <= Count(nodes, n[k]) {
        PlacementFitsRank(f, backups, b, nodes, n, k);
      }
      if |b| > 0 {
        PlacementFitsRank(f, backups, b, nodes, n, |b| - 1);
      }
    }
  }

  // ---------------------------------------------------------------- total node count

  function SumCounts(azs: seq<string>, keys: seq<string>): nat {
    if keys == [] then 0 else Count(azs, keys[0]) + SumCounts(azs, keys[1..])
  }

  lemma {:induction false} SumCountsExtend(azs: seq<string>, az: string, keys: seq<string>)
    requires Distinct(keys)
    ensures SumCounts(azs + [az], keys) == SumCounts(azs, keys) + if az in keys then 1 else 0
  {
    if keys == [] {
    } else {
      SumCountsExtend(azs, az, keys[1..]);
    }
  }

  lemma {:induction false} SumCountsIsLength(azs: seq<string>, keys: seq<string>)
    requires Distinct(keys)
    requires forall az :: az in azs ==> az in keys
    ensures SumCounts(azs, keys) == |azs|
    decreases |azs| + |keys|
  {
    if azs == [] {
      if keys != [] {
        SumCountsIsLength(azs, keys[1..]);
      }
    } else {
      var last := |azs| - 1;
      assert azs == azs[..last] + [azs[last]];
      SumCountsIsLength(azs[..last], keys);
      SumCountsExtend(azs[..last], azs[last], keys);
    }
  }

  lemma {:induction false} SumCountsMonotone(backups: seq<string>, b: seq<string>, nodes: seq<string>, n: seq<string>)
    requires |b| <= |n|
    requires forall k :: 0 <= k < |b| ==> Count(backups, b[k]) <= Count(nodes, n[k])
    ensures SumCounts(backups, b) <= SumCounts(nodes, n)
  {
    if b == [] {
    } else {
      SumCountsMonotone(backups, b[1..], nodes, n[1..]);
    }
  }

  /** The up-front node count check never turns down a cluster that has a placement. */
  lemma PlaceableHasEnoughNodes(backups: seq<string>, nodes: seq<string>)
    requires Placeable(backups, nodes)
    ensures |backups| <= |nodes|
    ensures |MostCommon(backups)| <= |MostCommon(nodes)|
  {
    RanksFitIffPlaceable(backups, nodes);
    var b, n := MostCommon(backups), MostCommon(nodes);
    MostCommonRanks(backups);
    MostCommonRanks(nodes);
    SumCountsMonotone(backups, b, nodes, n);
    SumCountsIsLength(backups, b);
    SumCountsIsLength(nodes, n);
  }

  // ---------------------------------------------------------------- filling the mapping

  /** Nodes of a zone that have no backup yet. */
  function FreeCount(mapping: seq<Option<nat>>, nodes: seq<string>, az: string): nat
    requires |mapping| == |nodes|
  {
    if nodes == [] then 0
    else
      (if nodes[0] == az && mapping[0].None? then 1 else 0) + FreeCount(mapping[1..], nodes[1..], az)
  }

  lemma {:induction false} FreeCountUpdate(mapping: seq<Option<nat>>, nodes: seq<string>, az: string, i: nat, b: nat)
    requires |mapping| == |nodes| && i < |nodes|
    requires nodes[i] == az && mapping[i].None?
    ensures FreeCount(mapping[i := Some(b)], nodes, az) == FreeCount(mapping, nodes, az) - 1
  {
    if i == 0 {
      assert mapping[0 := Some(b)][1..] == mapping[1..];
    } else {
      assert mapping[i := Some(b)][1..] == mapping[1..][i - 1 := Some(b)];
      FreeCountUpdate(mapping[1..], nodes[1..], az, i - 1, b);
    }
  }

  lemma {:induction false} FreeCountFull(mapping: seq<Option<nat>>, nodes: seq<string>, az: string)
    requires |mapping| == |nodes|
    ensures (forall i :: 0 <= i < |nodes| && nodes[i] == az ==> mapping[i].None?) ==>
      FreeCount(mapping, nodes, az) == Count(nodes, az)
    ensures (forall i :: 0 <= i < |nodes| && nodes[i] == az ==> mapping[i].Some?) ==>
      FreeCount(mapping, nodes, az) == 0
  {
    if nodes == [] {
    } else {
      FreeCountFull(mapping[1..], nodes[1..], az);
      assert nodes == [nodes[0]] + nodes[1..];
    }
  }

  /** What is true of a partly filled mapping: the backups placed so far are exactly those of
      `placed`, each on one node, and each on a node of the zone paired with its own. */
  ghost predicate Fills(mapping: seq<Option<nat>>, place: map<nat, nat>, f: map<string, string>,
                        backups: seq<string>, nodes: seq<string>)
  {
    && |mapping| == |nodes|
    && (forall b :: b in place ==> b < |backups| && place[b] < |nodes| && mapping[place[b]] == Some(b))
    && (forall i :: 0 <= i < |mapping| && mapping[i].Some? ==>
          var b := mapping[i].value; b in place && place[b] == i && backups[b] in f && nodes[i] == f[backups[b]])
  }

  /** First node of the zone without a backup; the source's innermost loop. */
  method FindFreeNode(mapping: seq<Option<nat>>, nodes: seq<string>, az: string) returns (found: Option<nat>)
    requires |mapping| == |nodes|
    ensures found.Some? ==> found.value < |nodes| && nodes[found.value] == az && mapping[found.value].None?
    ensures found.Some? ==>
      forall i :: 0 <= i < found.value ==> !(nodes[i] == az && mapping[i].None?)
    ensures found.None? <==> FreeCount(mapping, nodes, az) == 0
  {
    for i := 0 to |nodes|
      invariant forall j :: 0 <= j < i ==> !(nodes[j] == az && mapping[j].None?)
    {
      if nodes[i] == az && mapping[i].None? {
        FreeCountUpdate(mapping, nodes, az, i, 0);
        return Some(i);
      }
    }
    FreeCountFull(mapping, nodes, az);
    return None;
  }

  lemma PlaceOne(mapping: seq<Option<nat>>, place: map<nat, nat>, f: map<string, string>,
                 backups: seq<string>, nodes: seq<string>, b: nat, i: nat)
    requires Fills(mapping, place, f, backups, nodes)
    requires b < |backups| && b !in place && i < |nodes| && mapping[i].None?
    requires backups[b] in f && f[backups[b]] == nodes[i]
    ensures Fills(mapping[i := Some(b)], place[b := i], f, backups, nodes)
  {
  }

  ghost function InZone(backups: seq<string>, upTo: nat, az: string): set<nat>
    requires upTo <= |backups|
  {
    set b: nat | b < upTo && backups[b] == az
  }

  /** Spreads the backups of `backupAz` over the nodes of `nodeAz`. */
  method FillZone(mapping: seq<Option<nat>>, ghost place: map<nat, nat>, ghost f: map<string, string>,
                  backups: seq<string>, nodes: seq<string>, backupAz: string, nodeAz: string)
    returns (filled: seq<Option<nat>>, ghost newPlace: map<nat, nat>)
    requires Fills(mapping, place, f, backups, nodes)
    requires backupAz in f && f[backupAz] == nodeAz
    requires forall b :: b in place ==> backups[b] != backupAz
    requires forall i :: 0 <= i < |nodes| && nodes[i] == nodeAz ==> mapping[i].None?
    requires Count(backups, backupAz) <= Count(nodes, nodeAz)
    requires InNodeOrder(mapping, nodes)
    ensures Fills(filled, newPlace, f, backups, nodes)
    ensures newPlace.Keys == place.Keys + InZone(backups, |backups|, backupAz)
    ensures forall i :: 0 <= i < |nodes| && nodes[i] != nodeAz ==> filled[i] == mapping[i]
    ensures InNodeOrder(filled, nodes)
  {
    filled, newPlace := mapping, place;
    FreeCountFull(mapping, nodes, nodeAz);
    for b := 0 to |backups|
      invariant Filling(filled, newPlace, mapping, place, f, backups, nodes, backupAz, nodeAz, b)
      invariant InNodeOrder(filled, nodes) && ZoneBelow(filled, nodes, nodeAz, b)
    {
      if backups[b] == backupAz {
        var node := FindFreeNode(filled, nodes, nodeAz);
        OrderStep(filled, nodes, nodeAz, b, node);
        FillingStep(filled, newPlace, mapping, place, f, backups, nodes, backupAz, nodeAz, b, node);
        if node.Some? {
          filled := filled[node.value := Some(b)];
          newPlace := newPlace[b := node.value];
        }
      } else {
        FillingSkip(filled, newPlace, mapping, place, f, backups, nodes, backupAz, nodeAz, b);
      }
    }
  }

  /** In each zone the first nodes are taken, in the order of the backups. */
  ghost predicate InNodeOrder(mapping: seq<Option<nat>>, nodes: seq<string>) {
    && |mapping| == |nodes|
    && forall i, j :: 0 <= i < j < |nodes| && nodes[i] == nodes[j] && mapping[j].Some? ==>
         mapping[i].Some? && mapping[i].value < mapping[j].value
  }

  ghost predicate ZoneBelow(mapping: seq<Option<nat>>, nodes: seq<string>, az: string, b: nat) {
    |mapping| == |nodes| && forall i :: 0 <= i < |nodes| && nodes[i] == az && mapping[i].Some? ==> mapping[i].value < b
  }

  lemma OrderStep(mapping: seq<Option<nat>>, nodes: seq<string>, az: string, b: nat, node: Option<nat>)
    requires InNodeOrder(mapping, nodes) && ZoneBelow(mapping, nodes, az, b)
    requires node.Some? ==>
      && node.value < |nodes| && nodes[node.value] == az && mapping[node.value].None?
      && forall i :: 0 <= i < node.value ==> !(nodes[i] == az && mapping[i].None?)
    ensures node.Some? ==>
      InNodeOrder(mapping[node.value := Some(b)], nodes) && ZoneBelow(mapping[node.value := Some(b)], nodes, az, b + 1)
  {
  }

  /** The backups below b that belong to the zone have been placed. */
  ghost predicate Filling(filled: seq<Option<nat>>, newPlace: map<nat, nat>, mapping: seq<Option<nat>>, place: map<nat, nat>,
                          f: map<string, string>, backups: seq<string>, nodes: seq<string>, backupAz: string, nodeAz: string, b: nat)
  {
    && b <= |backups| && |mapping| == |nodes|
    && Fills(filled, newPlace, f, backups, nodes)
    && newPlace.Keys == place.Keys + InZone(backups, b, backupAz)
    && (forall i :: 0 <= i < |nodes| && nodes[i] != nodeAz ==> filled[i] == mapping[i])
    && FreeCount(filled, nodes, nodeAz) == Count(nodes, nodeAz) - Count(backups[..b], backupAz)
  }

  lemma FillingSkip(filled: seq<Option<nat>>, newPlace: map<nat, nat>, mapping: seq<Option<nat>>, place: map<nat, nat>,
                    f: map<string, string>, backups: seq<string>, nodes: seq<string>, backupAz: string, nodeAz: string, b: nat)
    requires Filling(filled, newPlace, mapping, place, f, backups, nodes, backupAz, nodeAz, b)
    requires b < |backups| && backups[b] != backupAz
    ensures Filling(filled, newPlace, mapping, place, f, backups, nodes, backupAz, nodeAz, b + 1)
  {
    CountStep(backups, b, backupAz);
    assert InZone(backups, b + 1, backupAz) == InZone(backups, b, backupAz);
  }

  /** There is a free node, and placing the backup there keeps everything in order. */
  lemma FillingStep(filled: seq<Option<nat>>, newPlace: map<nat, nat>, mapping: seq<Option<nat>>, place: map<nat, nat>,
                    f: map<string, string>, backups: seq<string>, nodes: seq<string>, backupAz: string, nodeAz: string, b: nat,
                    node: Option<nat>)
    requires Filling(filled, newPlace, mapping, place, f, backups, nodes, backupAz, nodeAz, b)
    requires b < |backups| && backups[b] == backupAz && b !in place && backupAz in f && f[backupAz] == nodeAz
    requires Count(backups, backupAz) <= Count(nodes, nodeAz)
    requires node.Some? ==> node.value < |nodes| && nodes[node.value] == nodeAz && filled[node.value].None?
    requires node.None? <==> FreeCount(filled, nodes, nodeAz) == 0
    ensures node.Some?
    ensures Filling(filled[node.value := Some(b)], newPlace[b := node.value], mapping, place, f, backups, nodes, backupAz, nodeAz, b + 1)
  {
    CountStep(backups, b, backupAz);
    FreeCountUpdate(filled, nodes, nodeAz, node.value, b);
    PlaceOne(filled, newPlace, f, backups, nodes, b, node.value);
    assert InZone(backups, b + 1, backupAz) == InZone(backups, b, backupAz) + {b};
  }

  lemma CountStep(azs: seq<string>, k: nat, az: string)
    requires k < |azs|
    ensures Count(azs[..k + 1], az) == Count(azs[..k], az) + if azs[k] == az then 1 else 0
    ensures Count(azs[..k + 1], az) <= Count(azs, az)
  {
    assert azs[..k + 1] == azs[..k] + [azs[k]];
    assert azs == azs[..k + 1] + azs[k + 1..];
  }

  /** A complete mapping: every backup on exactly one node, zones kept together and apart. */
  ghost predicate IsFullMapping(mapping: seq<Option<nat>>, backups: seq<string>, nodes: seq<string>) {
    && |mapping| == |nodes|
    && (forall i :: 0 <= i < |mapping| && mapping[i].Some? ==> mapping[i].value < |backups|)
    && (forall b: nat :: b < |backups| ==> Some(b) in mapping)
    && (forall i, j :: 0 <= i < j < |mapping| && mapping[i].Some? ==> mapping[i] != mapping[j])
    && (forall i, j :: 0 <= i < |mapping| && 0 <= j < |mapping| && mapping[i].Some? && mapping[j].Some? ==>
          (backups[mapping[i].value] == backups[mapping[j].value] <==> nodes[i] == nodes[j]))
  }

  /** Zones are paired rank by rank: a zone that ranks before another goes to a zone that does, and zones
      left over rank after all that are used. */
  ghost predicate PairedByRank(mapping: seq<Option<nat>>, backups: seq<string>, nodes: seq<string>)
    requires |mapping| == |nodes| && forall i :: 0 <= i < |mapping| && mapping[i].Some? ==> mapping[i].value < |backups|
  {
    && (forall i, j :: 0 <= i < |mapping| && 0 <= j < |mapping| && mapping[i].Some? && mapping[j].Some? ==>
          RanksBefore(backups, backups[mapping[i].value], backups[mapping[j].value]) ==> RanksBefore(nodes, nodes[i], nodes[j]))
    && (forall i, k :: 0 <= i < |mapping| && 0 <= k < |mapping| && mapping[i].Some? && ZoneUnused(mapping, nodes, nodes[k]) ==>
          RanksBefore(nodes, nodes[i], nodes[k]))
  }

  ghost predicate ZoneUnused(mapping: seq<Option<nat>>, nodes: seq<string>, az: string)
    requires |mapping| == |nodes|
  {
    forall i :: 0 <= i < |nodes| && nodes[i] == az ==> mapping[i].None?
  }

  lemma RanksPair(mapping: seq<Option<nat>>, place: map<nat, nat>, backups: seq<string>, b: seq<string>, nodes: seq<string>, n: seq<string>)
    requires Ranks(b, backups) && Ranks(n, nodes) && |b| <= |n| && InRankOrder(b, backups) && InRankOrder(n, nodes)
    requires Fills(mapping, place, Pairing(b, n), backups, nodes) && IsFullMapping(mapping, backups, nodes)
    ensures PairedByRank(mapping, backups, nodes)
  {
    forall i, j | 0 <= i < |mapping| && 0 <= j < |mapping| && mapping[i].Some? && mapping[j].Some? &&
                  RanksBefore(backups, backups[mapping[i].value], backups[mapping[j].value])
      ensures RanksBefore(nodes, nodes[i], nodes[j])
    {
      var k := RankOf(mapping, place, backups, b, nodes, n, i);
      var m := RankOf(mapping, place, backups, b, nodes, n, j);
      RankedEarlier(b, backups, k, m);
    }
    forall i, z | 0 <= i < |mapping| && 0 <= z < |mapping| && mapping[i].Some? && ZoneUnused(mapping, nodes, nodes[z])
      ensures RanksBefore(nodes, nodes[i], nodes[z])
    {
      var k := RankOf(mapping, place, backups, b, nodes, n, i);
      var m := UnusedRank(mapping, place, backups, b, nodes, n, z);
    }
  }

  lemma RankedEarlier(ranking: seq<string>, azs: seq<string>, k: nat, m: nat)
    requires InRankOrder(ranking, azs) && k < |ranking| && m < |ranking| && RanksBefore(azs, ranking[k], ranking[m])
    ensures k < m
  {
  }

  /** A node's zone and its backup's zone have the same rank. */
  lemma RankOf(mapping: seq<Option<nat>>, place: map<nat, nat>, backups: seq<string>, b: seq<string>, nodes: seq<string>, n: seq<string>, i: nat)
    returns (k: nat)
    requires Ranks(b, backups) && Ranks(n, nodes) && |b| <= |n| && Fills(mapping, place, Pairing(b, n), backups, nodes)
    requires i < |mapping| && mapping[i].Some?
    ensures mapping[i].value < |backups| && k < |b| && b[k] == backups[mapping[i].value] && n[k] == nodes[i]
  {
    var az := backups[mapping[i].value];
    assert az in Pairing(b, n);
    k :| 0 <= k < |b| && b[k] == az;
  }

  lemma UnusedRank(mapping: seq<Option<nat>>, place: map<nat, nat>, backups: seq<string>, b: seq<string>, nodes: seq<string>, n: seq<string>, z: nat)
    returns (m: nat)
    requires Ranks(b, backups) && Ranks(n, nodes) && |b| <= |n|
    requires Fills(mapping, place, Pairing(b, n), backups, nodes) && IsFullMapping(mapping, backups, nodes)
    requires z < |mapping| && ZoneUnused(mapping, nodes, nodes[z])
    ensures |b| <= m < |n| && n[m] == nodes[z]
  {
    assert nodes[z] in nodes;
    m :| 0 <= m < |n| && n[m] == nodes[z];
    forall k | 0 <= k < |b| ensures !ZoneUnused(mapping, nodes, n[k]) {
      PairedZoneIsUsed(mapping, place, backups, b, nodes, n, k);
    }
  }

  lemma PairedZoneIsUsed(mapping: seq<Option<nat>>, place: map<nat, nat>, backups: seq<string>, b: seq<string>, nodes: seq<string>, n: seq<string>, k: nat)
    requires Ranks(b, backups) && Ranks(n, nodes) && k < |b| <= |n|
    requires Fills(mapping, place, Pairing(b, n), backups, nodes) && IsFullMapping(mapping, backups, nodes)
    ensures !ZoneUnused(mapping, nodes, n[k])
  {
    assert b[k] in b;
    var x :| 0 <= x < |backups| && backups[x] == b[k];
    assert Some(x) in mapping;
    var i :| 0 <= i < |mapping| && mapping[i] == Some(x);
    assert nodes[i] == Pairing(b, n)[b[k]] == n[k];
  }

  lemma FilledIsFullMapping(mapping: seq<Option<nat>>, place: map<nat, nat>, f: map<string, string>,
                            backups: seq<string>, nodes: seq<string>)
    requires Fills(mapping, place, f, backups, nodes) && Injective(f)
    requires forall b: nat :: b < |backups| ==> b in place
    ensures IsFullMapping(mapping, backups, nodes)
  {
    forall b: nat | b < |backups| ensures Some(b) in mapping {
      assert mapping[place[b]] == Some(b);
    }
  }

  method FromAzs(backups: seq<string>, nodes: seq<string>) returns (r: Result<seq<Option<nat>>, MappingError>)
    requires |MostCommon(backups)| <= |MostCommon(nodes)|
    ensures r.Ok? <==> RanksFit(backups, nodes)
    ensures r.Ok? ==> IsFullMapping(r.value, backups, nodes) && PairedByRank(r.value, backups, nodes) && InNodeOrder(r.value, nodes)
    ensures r.Err? ==> r.error == InsufficientNodes
  {
    var b, n := MostCommon(backups), MostCommon(nodes);
    MostCommonRanks(backups);
    MostCommonRanks(nodes);
    MostCommonInOrder(backups);
    MostCommonInOrder(nodes);
    ghost var place;
    r, place := PairZones(backups, b, nodes, n);
    if r.Ok? {
      RanksPair(r.value, place, backups, b, nodes, n);
    }
  }

  ghost function InZones(backups: seq<string>, azs: seq<string>): set<nat> {
    set b: nat | b < |backups| && backups[b] in azs
  }

  lemma InZonesStep(backups: seq<string>, azs: seq<string>, k: nat)
    requires k < |azs|
    ensures InZones(backups, azs[..k + 1]) == InZones(backups, azs[..k]) + InZone(backups, |backups|, azs[k])
  {
    assert azs[..k + 1] == azs[..k] + [azs[k]];
  }

  lemma InZonesAll(backups: seq<string>, azs: seq<string>)
    requires forall az :: az in backups ==> az in azs
    ensures forall b: nat :: b < |backups| ==> b in InZones(backups, azs[..|azs|])
  {
    assert azs[..|azs|] == azs;
  }

  /** The first k pairs are done: their backups are placed and no other zone is touched. */
  ghost predicate PairsDone(mapping: seq<Option<nat>>, place: map<nat, nat>, f: map<string, string>,
                            backups: seq<string>, b: seq<string>, nodes: seq<string>, n: seq<string>, k: nat)
    requires k <= |b| && k <= |n|
  {
    && Fills(mapping, place, f, backups, nodes)
    && InNodeOrder(mapping, nodes) && place.Keys == InZones(backups, b[..k])
    && forall i :: 0 <= i < |nodes| && nodes[i] !in n[..k] ==> mapping[i].None?
  }

  method PairZone(mapping: seq<Option<nat>>, ghost place: map<nat, nat>, ghost f: map<string, string>,
                  backups: seq<string>, b: seq<string>, nodes: seq<string>, n: seq<string>, k: nat)
    returns (filled: seq<Option<nat>>, ghost newPlace: map<nat, nat>)
    requires Distinct(b) && Distinct(n) && k < |b| && k < |n|
    requires b[k] in f && f[b[k]] == n[k]
    requires PairsDone(mapping, place, f, backups, b, nodes, n, k)
    requires Count(backups, b[k]) <= Count(nodes, n[k])
    ensures PairsDone(filled, newPlace, f, backups, b, nodes, n, k + 1)
  {
    PrefixStep(b, k);
    PrefixStep(n, k);
    InZonesStep(backups, b, k);
    filled, newPlace := FillZone(mapping, place, f, backups, nodes, b[k], n[k]);
  }

  /** The loop over the zipped rankings. */
  method PairZones(backups: seq<string>, b: seq<string>, nodes: seq<string>, n: seq<string>)
    returns (r: Result<seq<Option<nat>>, MappingError>, ghost place: map<nat, nat>)
    requires Ranks(b, backups) && Ranks(n, nodes) && |b| <= |n|
    ensures r.Ok? <==> PairsFit(backups, b, nodes, n)
    ensures r.Ok? ==> IsFullMapping(r.value, backups, nodes) && InNodeOrder(r.value, nodes)
    ensures r.Ok? ==> Fills(r.value, place, Pairing(b, n), backups, nodes)
    ensures r.Err? ==> r.error == InsufficientNodes
  {
    ghost var f := Pairing(b, n);
    var mapping: seq<Option<nat>> := seq(|nodes|, i => None);
    place := map[];
    for k := 0 to |b|
      invariant forall j :: 0 <= j < k ==> Count(backups, b[j]) <= Count(nodes, n[j])
      invariant PairsDone(mapping, place, f, backups, b, nodes, n, k)
    {
      if Count(backups, b[k]) > Count(nodes, n[k]) {
        return Err(InsufficientNodes), place;
      }
      mapping, place := PairZone(mapping, place, f, backups, b, nodes, n, k);
    }
    AllPairsDone(mapping, place, backups, b, nodes, n);
    return Ok(mapping), place;
  }

  lemma AllPairsDone(mapping: seq<Option<nat>>, place: map<nat, nat>, backups: seq<string>, b: seq<string>, nodes: seq<string>, n: seq<string>)
    requires Ranks(b, backups) && Ranks(n, nodes) && |b| <= |n|
    requires PairsDone(mapping, place, Pairing(b, n), backups, b, nodes, n, |b|)
    ensures IsFullMapping(mapping, backups, nodes)
  {
    InZonesAll(backups, b);
    PairingInjective(b, n);
    FilledIsFullMapping(mapping, place, Pairing(b, n), backups, nodes);
  }

  /** A full restore is mapped exactly when some placement of zones exists, and then every
      backup lands on exactly one node, zone by zone. */
  method GetNodeToBackupIndex(backups: seq<string>, nodes: seq<string>)
    returns (r: Result<seq<Option<nat>>, MappingError>)
    ensures r.Ok? <==> Placeable(backups, nodes)
    ensures r.Ok? ==> IsFullMapping(r.value, backups, nodes) && PairedByRank(r.value, backups, nodes) && InNodeOrder(r.value, nodes)
    ensures r == Err(InsufficientAzs) <==> |Elements(backups)| > |Elements(nodes)| && |backups| <= |nodes|
  {
    RanksFitIffPlaceable(backups, nodes);
    ZonesCounted(backups);
    ZonesCounted(nodes);
    if |nodes| < |backups| {
      if Placeable(backups, nodes) { PlaceableHasEnoughNodes(backups, nodes); }
      return Err(InsufficientNodes);
    }
    if |MostCommon(backups)| > |MostCommon(nodes)| {
      return Err(InsufficientAzs);
    }
    r := FromAzs(backups, nodes);
  }

  lemma ZonesCounted(azs: seq<string>)
    ensures |MostCommon(azs)| == |Elements(azs)|
  {
    MostCommonRanks(azs);
    DistinctSize(MostCommon(azs));
    assert Elements(MostCommon(azs)) == Elements(azs);
  }
}
