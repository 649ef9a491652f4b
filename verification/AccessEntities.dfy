/** Backup and restore of the replicated access entities (users, roles, ...) kept in ZooKeeper. */
module AccessEntities {
  import opened Basics
  import opened Escaping
  import opened ZooKeeper
  import PartPaths

  datatype AccessEntity = AccessEntity(etype: string, uuid: string, name: Bytes, attachQuery: string)

  // ---------------------------------------------------------------- where an entity lives

  function TypePath(b: Parts, e: AccessEntity): Parts {
    b + [e.etype]
  }

  function UuidsPath(b: Parts): Parts {
    b + ["uuid"]
  }

  /** Holds the uuid, under the entity's type and escaped name. */
  function NamePath(b: Parts, e: AccessEntity): Parts {
    b + [e.etype, NameToText(e.name)]
  }

  /** Holds the query, under the entity's uuid. */
  function EntityPath(b: Parts, e: AccessEntity): Parts {
    b + ["uuid", e.uuid]
  }

  /** Distinct uuids, distinct (type, name), non-empty names, and no type called "uuid". */
  ghost predicate Proper(es: set<AccessEntity>) {
    && (forall e :: e in es ==> Restorable(e))
    && (forall e, f :: e in es && f in es && e.uuid == f.uuid ==> e == f)
    && (forall e, f :: e in es && f in es && e.etype == f.etype && e.name == f.name ==> e == f)
  }

  lemma NamePathInjective(b: Parts, es: set<AccessEntity>, e: AccessEntity, f: AccessEntity)
    requires Proper(es) && e in es && f in es && NamePath(b, e) == NamePath(b, f)
    ensures e == f
  {
    assert NamePath(b, e)[|b|] == e.etype && NamePath(b, f)[|b|] == f.etype;
    assert NamePath(b, e)[|b| + 1] == NameToText(e.name) && NamePath(b, f)[|b| + 1] == NameToText(f.name);
    NameTextRoundTrip(e.name);
    NameTextRoundTrip(f.name);
  }

  lemma EntityPathInjective(b: Parts, es: set<AccessEntity>, e: AccessEntity, f: AccessEntity)
    requires Proper(es) && e in es && f in es && EntityPath(b, e) == EntityPath(b, f)
    ensures e == f
  {
    assert EntityPath(b, e)[|b| + 1] == e.uuid && EntityPath(b, f)[|b| + 1] == f.uuid;
  }

  // ---------------------------------------------------------------- the tree a complete restore leaves

  /** Nodes that only hold other nodes: the path down to the base, the type nodes and the uuid node. */
  ghost predicate IsStructure(b: Parts, es: set<AccessEntity>, q: Parts) {
    es != {} && ((q != [] && q <= b) || q == UuidsPath(b) || exists e :: e in es && q == TypePath(b, e))
  }

  ghost predicate IsNameNode(b: Parts, es: set<AccessEntity>, q: Parts, value: string) {
    exists e :: e in es && q == NamePath(b, e) && value == e.uuid
  }

  ghost predicate IsEntityNode(b: Parts, es: set<AccessEntity>, q: Parts, value: string) {
    exists e :: e in es && q == EntityPath(b, e) && value == e.attachQuery
  }

  /** The restore wants node q with this value. */
  ghost predicate Wanted(b: Parts, es: set<AccessEntity>, q: Parts, value: string) {
    (IsStructure(b, es, q) && value == "") || IsNameNode(b, es, q, value) || IsEntityNode(b, es, q, value)
  }

  /** Nothing below the base yet. */
  ghost predicate Fresh(s0: Storage, b: Parts) {
    Closed(s0) && b != [] && forall q :: q in s0 && b <= q ==> q == b
  }

  ghost predicate Keeps(s: Storage, s0: Storage) {
    forall q :: q in s0 ==> q in s && s[q] == s0[q]
  }

  ghost predicate OnlyWanted(s: Storage, s0: Storage, b: Parts, es: set<AccessEntity>) {
    forall q :: q in s ==> q in s0 || Wanted(b, es, q, s[q])
  }

  /** `s` is `s0` with all the wanted nodes added, and nothing else. */
  ghost predicate IsRestored(s: Storage, s0: Storage, b: Parts, es: set<AccessEntity>) {
    && Keeps(s, s0)
    && OnlyWanted(s, s0, b, es)
    && (forall q, value :: Wanted(b, es, q, value) ==> q in s)
  }

  lemma WantedShape(b: Parts, es: set<AccessEntity>, q: Parts, value: string)
    requires Proper(es)
    ensures IsStructure(b, es, q) ==> |q| <= |b| + 1
    ensures IsNameNode(b, es, q, value) ==> |q| == |b| + 2 && q[|b|] != "uuid"
    ensures IsEntityNode(b, es, q, value) ==> |q| == |b| + 2 && q[|b|] == "uuid"
  {
  }

  lemma WantedIsUnique(b: Parts, es: set<AccessEntity>, q: Parts, v: string, w: string)
    requires Proper(es) && Wanted(b, es, q, v) && Wanted(b, es, q, w)
    ensures v == w
  {
    WantedShape(b, es, q, v);
    WantedShape(b, es, q, w);
    if IsNameNode(b, es, q, v) {
      var e :| e in es && q == NamePath(b, e) && v == e.uuid;
      var f :| f in es && q == NamePath(b, f) && w == f.uuid;
      NamePathInjective(b, es, e, f);
    } else if IsEntityNode(b, es, q, v) {
      var e :| e in es && q == EntityPath(b, e) && v == e.attachQuery;
      var f :| f in es && q == EntityPath(b, f) && w == f.attachQuery;
      EntityPathInjective(b, es, e, f);
    }
  }

  /** Whatever the order and the interruptions, there is only one restored tree. */
  lemma RestoredIsUnique(s: Storage, t: Storage, s0: Storage, b: Parts, es: set<AccessEntity>)
    requires Proper(es) && IsRestored(s, s0, b, es) && IsRestored(t, s0, b, es)
    ensures s == t
  {
    forall q ensures q in s <==> q in t {
      if q in s && q !in s0 { assert Wanted(b, es, q, s[q]); }
      if q in t && q !in s0 { assert Wanted(b, es, q, t[q]); }
    }
    forall q | q in s ensures s[q] == t[q] {
      if q !in s0 {
        WantedIsUnique(b, es, q, s[q], t[q]);
      }
    }
  }

  // ---------------------------------------------------------------- what every step keeps

  /** Each entity is there with both its nodes or with none. */
  ghost predicate Paired(s: Storage, b: Parts, es: set<AccessEntity>) {
    forall e :: e in es ==> (NamePath(b, e) in s <==> EntityPath(b, e) in s)
  }

  /** A restore that got somewhere: only wanted nodes were added, entities pair by pair. */
  ghost predicate Partial(s: Storage, s0: Storage, b: Parts, es: set<AccessEntity>) {
    Closed(s) && Keeps(s, s0) && OnlyWanted(s, s0, b, es) && Paired(s, b, es)
  }

  lemma FreshIsPartial(s0: Storage, b: Parts, es: set<AccessEntity>)
    requires Fresh(s0, b)
    ensures Partial(s0, s0, b, es)
  {
    forall e | e in es ensures NamePath(b, e) !in s0 && EntityPath(b, e) !in s0 {
      assert b <= NamePath(b, e) && b <= EntityPath(b, e);
    }
  }

  lemma StructureWanted(s: Storage, s0: Storage, b: Parts, es: set<AccessEntity>, x: string)
    requires Keeps(s, s0) && OnlyWanted(s, s0, b, es) && IsStructure(b, es, b + [x]) && b + [x] !in s
    ensures Keeps(Created(s, b + [x], ""), s0) && OnlyWanted(Created(s, b + [x], ""), s0, b, es)
  {
    var p := b + [x];
    forall q | q in Ancestors(p) ensures IsStructure(b, es, q) {
      var k :| 1 <= k < |p| && q == p[..k];
      assert q == b[..k];
    }
  }

  lemma StructurePaired(s: Storage, b: Parts, es: set<AccessEntity>, x: string)
    requires Paired(s, b, es)
    ensures Paired(Created(s, b + [x], ""), b, es)
  {
    var p := b + [x];
    forall q | |q| == |b| + 2 ensures q in Created(s, p, "") <==> q in s {
    }
    forall e | e in es ensures NamePath(b, e) in Created(s, p, "") <==> EntityPath(b, e) in Created(s, p, "") {
      assert |NamePath(b, e)| == |EntityPath(b, e)| == |b| + 2;
    }
  }

  /** Creating a type node or the uuid node, with the path down to it. */
  lemma StructureStep(s: Storage, s0: Storage, b: Parts, es: set<AccessEntity>, x: string)
    requires Partial(s, s0, b, es) && IsStructure(b, es, b + [x]) && b + [x] !in s
    ensures Partial(Created(s, b + [x], ""), s0, b, es)
  {
    CreatedClosed(s, b + [x], "");
    StructureWanted(s, s0, b, es, x);
    StructurePaired(s, b, es, x);
  }

  ghost function Pair(b: Parts, e: AccessEntity): seq<Creation> {
    [Creation(NamePath(b, e), e.uuid), Creation(EntityPath(b, e), e.attachQuery)]
  }

  lemma PairParents(b: Parts, e: AccessEntity)
    ensures Parent(NamePath(b, e)) == TypePath(b, e) && Parent(EntityPath(b, e)) == UuidsPath(b)
  {
  }

  /** With both parents there, the transaction succeeds exactly when neither node is. */
  lemma PairCommits(s: Storage, b: Parts, e: AccessEntity)
    requires TypePath(b, e) in s && UuidsPath(b) in s && e.etype != "uuid"
    ensures RunCreations(s, Pair(b, e)).Some? <==> NamePath(b, e) !in s && EntityPath(b, e) !in s
    ensures RunCreations(s, Pair(b, e)).Some? ==>
      RunCreations(s, Pair(b, e)).value == s[NamePath(b, e) := e.uuid][EntityPath(b, e) := e.attachQuery]
  {
    PairParents(b, e);
    assert NamePath(b, e)[|b|] == e.etype && EntityPath(b, e)[|b|] == "uuid";
    var first := s[NamePath(b, e) := e.uuid];
    var rest := [Creation(EntityPath(b, e), e.attachQuery)];
    assert Pair(b, e)[1..] == rest && rest[1..] == [];
    assert UuidsPath(b) in first && Parent(rest[0].parts) in first;
    assert RunCreations(first[EntityPath(b, e) := e.attachQuery], rest[1..]) == Some(first[EntityPath(b, e) := e.attachQuery]);
    assert RunCreations(first, rest) == if EntityPath(b, e) in s then None else Some(first[EntityPath(b, e) := e.attachQuery]);
  }

  lemma PairStep(s: Storage, s0: Storage, b: Parts, es: set<AccessEntity>, e: AccessEntity)
    requires Proper(es) && Partial(s, s0, b, es) && e in es
    requires TypePath(b, e) in s && UuidsPath(b) in s
    ensures var r := RunCreations(s, Pair(b, e));
      if r.Some? then Partial(r.value, s0, b, es) && NamePath(b, e) in r.value && s.Keys <= r.value.Keys
      else NamePath(b, e) in s
  {
    PairCommits(s, b, e);
    PairParents(b, e);
    if RunCreations(s, Pair(b, e)).Some? {
      PairAdded(s, s0, b, es, e);
    }
  }

  lemma PairAdded(s: Storage, s0: Storage, b: Parts, es: set<AccessEntity>, e: AccessEntity)
    requires Proper(es) && Partial(s, s0, b, es) && e in es
    requires TypePath(b, e) in s && UuidsPath(b) in s && NamePath(b, e) !in s
    ensures Partial(s[NamePath(b, e) := e.uuid][EntityPath(b, e) := e.attachQuery], s0, b, es)
  {
    var n, u := NamePath(b, e), EntityPath(b, e);
    PairParents(b, e);
    PairsApart(b, es, e, e);
    assert IsNameNode(b, es, n, e.uuid) && IsEntityNode(b, es, u, e.attachQuery);
    AddOne(s, s0, b, es, n, e.uuid);
    AddOne(s[n := e.uuid], s0, b, es, u, e.attachQuery);
    var t := s[n := e.uuid][u := e.attachQuery];
    forall f | f in es ensures NamePath(b, f) in t <==> EntityPath(b, f) in t {
      PairsApart(b, es, e, f);
    }
  }

  lemma AddOne(s: Storage, s0: Storage, b: Parts, es: set<AccessEntity>, q: Parts, value: string)
    requires Closed(s) && Keeps(s, s0) && OnlyWanted(s, s0, b, es)
    requires q !in s && |q| > 1 && Parent(q) in s && Wanted(b, es, q, value)
    ensures Closed(s[q := value]) && Keeps(s[q := value], s0) && OnlyWanted(s[q := value], s0, b, es)
  {
  }

  lemma PairsApart(b: Parts, es: set<AccessEntity>, e: AccessEntity, f: AccessEntity)
    requires Proper(es) && e in es && f in es
    ensures NamePath(b, f) != EntityPath(b, e) && EntityPath(b, f) != NamePath(b, e)
    ensures NamePath(b, f) == NamePath(b, e) <==> f == e
    ensures EntityPath(b, f) == EntityPath(b, e) <==> f == e
  {
    assert NamePath(b, e)[|b|] == e.etype && EntityPath(b, e)[|b|] == "uuid";
    assert NamePath(b, f)[|b|] == f.etype && EntityPath(b, f)[|b|] == "uuid";
    if NamePath(b, f) == NamePath(b, e) { NamePathInjective(b, es, e, f); }
    if EntityPath(b, f) == EntityPath(b, e) { EntityPathInjective(b, es, e, f); }
  }

  lemma StructurePresent(s: Storage, b: Parts, es: set<AccessEntity>, q: Parts)
    requires Closed(s) && Paired(s, b, es) && IsStructure(b, es, q)
    requires forall e :: e in es ==> NamePath(b, e) in s
    ensures q in s
  {
    var e :| e in es;
    if f :| f in es && q == TypePath(b, f) {
      PairParents(b, f);
      assert NamePath(b, f) in s;
    } else if q == UuidsPath(b) {
      PairParents(b, e);
      assert EntityPath(b, e) in s;
    } else {
      assert NamePath(b, e) in s;
      ClosedHasAncestors(s, NamePath(b, e), |q|);
      assert NamePath(b, e)[..|q|] == q;
    }
  }

  /** Once every entity is there, the tree is the restored one. */
  lemma AllPresentIsRestored(s: Storage, s0: Storage, b: Parts, es: set<AccessEntity>)
    requires Partial(s, s0, b, es)
    requires forall e :: e in es ==> NamePath(b, e) in s
    ensures IsRestored(s, s0, b, es)
  {
    forall q, value | Wanted(b, es, q, value) ensures q in s {
      if IsStructure(b, es, q) {
        StructurePresent(s, b, es, q);
      } else if IsNameNode(b, es, q, value) {
      } else {
        var e :| e in es && q == EntityPath(b, e);
        assert NamePath(b, e) in s;
      }
    }
  }

  // ---------------------------------------------------------------- the restore step

  ghost function TryCreated(s: Storage, p: Parts): Storage {
    if p in s then s else Created(s, p, "")
  }

  ghost function Committed(s: Storage, b: Parts, e: AccessEntity): Storage {
    if RunCreations(s, Pair(b, e)).Some? then RunCreations(s, Pair(b, e)).value else s
  }

  /** The tree after the first n of the three calls that restore one entity: its type node, the uuid
      node, then both its own nodes in one transaction. */
  ghost function AfterCalls(s: Storage, b: Parts, e: AccessEntity, n: nat): Storage {
    if n == 0 then s
    else if n == 1 then TryCreated(s, TypePath(b, e))
    else if n == 2 then TryCreated(TryCreated(s, TypePath(b, e)), UuidsPath(b))
    else Committed(TryCreated(TryCreated(s, TypePath(b, e)), UuidsPath(b)), b, e)
  }

  /** A pass over the entities that is cut off after `budget` calls. */
  ghost function AfterPass(s: Storage, b: Parts, order: seq<AccessEntity>, budget: nat): Storage
    decreases |order|
  {
    if order == [] then s
    else if budget < 3 then AfterCalls(s, b, order[0], budget)
    else AfterPass(AfterCalls(s, b, order[0], 3), b, order[1..], budget - 3)
  }

  datatype Attempt = Attempt(order: seq<AccessEntity>, budget: nat)

  ghost function AfterAttempts(s: Storage, b: Parts, attempts: seq<Attempt>): Storage
    decreases |attempts|
  {
    if attempts == [] then s
    else AfterAttempts(AfterPass(s, b, attempts[0].order, attempts[0].budget), b, attempts[1..])
  }

  lemma TryCreatedKeeps(s: Storage, s0: Storage, b: Parts, es: set<AccessEntity>, x: string)
    requires Partial(s, s0, b, es) && IsStructure(b, es, b + [x])
    ensures Partial(TryCreated(s, b + [x]), s0, b, es)
    ensures s.Keys <= TryCreated(s, b + [x]).Keys && b + [x] in TryCreated(s, b + [x])
  {
    if b + [x] !in s {
      StructureStep(s, s0, b, es, x);
    }
  }

  lemma CallsKeep(s: Storage, s0: Storage, b: Parts, es: set<AccessEntity>, e: AccessEntity, n: nat)
    requires Partial(s, s0, b, es) && Proper(es) && e in es
    ensures Partial(AfterCalls(s, b, e, n), s0, b, es)
    ensures s.Keys <= AfterCalls(s, b, e, n).Keys
    ensures n >= 3 ==> NamePath(b, e) in AfterCalls(s, b, e, n)
  {
    TryCreatedKeeps(s, s0, b, es, e.etype);
    var s1 := TryCreated(s, TypePath(b, e));
    TryCreatedKeeps(s1, s0, b, es, "uuid");
    var s2 := TryCreated(s1, UuidsPath(b));
    PairStep(s2, s0, b, es, e);
  }

  /** A property of trees that the calls for each entity keep; the full set of calls adds its name. */
  ghost predicate KeptByCalls(inv: Storage -> bool, b: Parts, es: set<AccessEntity>) {
    forall s: Storage, e, n: nat {:trigger AfterCalls(s, b, e, n)} :: inv(s) && e in es ==>
      && inv(AfterCalls(s, b, e, n)) && s.Keys <= AfterCalls(s, b, e, n).Keys
      && (n >= 3 ==> NamePath(b, e) in AfterCalls(s, b, e, n).Keys)
  }

  lemma {:induction false} PassKeepsAny(inv: Storage -> bool, s: Storage, b: Parts, es: set<AccessEntity>, order: seq<AccessEntity>, budget: nat)
    requires KeptByCalls(inv, b, es) && inv(s) && forall i :: 0 <= i < |order| ==> order[i] in es
    ensures inv(AfterPass(s, b, order, budget)) && s.Keys <= AfterPass(s, b, order, budget).Keys
    ensures budget >= 3 * |order| ==> forall e :: e in order ==> NamePath(b, e) in AfterPass(s, b, order, budget).Keys
    decreases |order|
  {
    if order != [] {
      if budget < 3 {
        assert inv(AfterCalls(s, b, order[0], budget));
      } else {
        var t := AfterCalls(s, b, order[0], 3);
        PassKeepsAny(inv, t, b, es, order[1..], budget - 3);
        assert forall e :: e in order ==> e == order[0] || e in order[1..];
      }
    }
  }

  lemma PartialIsKept(s0: Storage, b: Parts, es: set<AccessEntity>)
    requires Proper(es)
    ensures KeptByCalls(s => Partial(s, s0, b, es), b, es)
  {
    forall s: Storage, e, n: nat | Partial(s, s0, b, es) && e in es
      ensures Partial(AfterCalls(s, b, e, n), s0, b, es) && s.Keys <= AfterCalls(s, b, e, n).Keys
      ensures n >= 3 ==> NamePath(b, e) in AfterCalls(s, b, e, n).Keys
    {
      CallsKeep(s, s0, b, es, e, n);
    }
  }

  lemma PassKeeps(s: Storage, s0: Storage, b: Parts, es: set<AccessEntity>, order: seq<AccessEntity>, budget: nat)
    requires Partial(s, s0, b, es) && Proper(es) && forall i :: 0 <= i < |order| ==> order[i] in es
    ensures Partial(AfterPass(s, b, order, budget), s0, b, es)
    ensures s.Keys <= AfterPass(s, b, order, budget).Keys
    ensures budget >= 3 * |order| ==> forall e :: e in order ==> NamePath(b, e) in AfterPass(s, b, order, budget).Keys
  {
    PartialIsKept(s0, b, es);
    PassKeepsAny(s => Partial(s, s0, b, es), s, b, es, order, budget);
  }

  /** A pass over all entities that was not cut off leaves the restored tree. */
  lemma FullPassRestores(s: Storage, s0: Storage, b: Parts, es: set<AccessEntity>, order: seq<AccessEntity>, budget: nat)
    requires Partial(s, s0, b, es) && Proper(es) && Elements(order) == es && budget >= 3 * |order|
    ensures IsRestored(AfterPass(s, b, order, budget), s0, b, es)
  {
    assert forall i :: 0 <= i < |order| ==> order[i] in Elements(order);
    PassKeeps(s, s0, b, es, order, budget);
    var t := AfterPass(s, b, order, budget);
    assert forall e :: e in es ==> e in Elements(order);
    AllPresentIsRestored(t, s0, b, es);
  }

  lemma StillRestored(s: Storage, t: Storage, s0: Storage, b: Parts, es: set<AccessEntity>)
    requires IsRestored(s, s0, b, es) && s.Keys <= t.Keys && Partial(t, s0, b, es)
    ensures IsRestored(t, s0, b, es)
  {
  }

  ghost predicate Uncut(a: Attempt) {
    a.budget >= 3 * |a.order|
  }

  lemma {:induction false} AttemptsKeep(s: Storage, s0: Storage, b: Parts, es: set<AccessEntity>, attempts: seq<Attempt>)
    requires Partial(s, s0, b, es) && Proper(es)
    requires forall i :: 0 <= i < |attempts| ==> Elements(attempts[i].order) == es
    ensures Partial(AfterAttempts(s, b, attempts), s0, b, es)
    ensures IsRestored(s, s0, b, es) || (exists i :: 0 <= i < |attempts| && Uncut(attempts[i])) ==>
      IsRestored(AfterAttempts(s, b, attempts), s0, b, es)
    decreases |attempts|
  {
    if attempts != [] {
      var a := attempts[0];
      var t := AfterPass(s, b, a.order, a.budget);
      assert forall i :: 0 <= i < |a.order| ==> a.order[i] in Elements(a.order);
      PassKeeps(s, s0, b, es, a.order, a.budget);
      if Uncut(a) {
        FullPassRestores(s, s0, b, es, a.order, a.budget);
      }
      if IsRestored(s, s0, b, es) {
        StillRestored(s, t, s0, b, es);
      }
      AttemptsKeep(t, s0, b, es, attempts[1..]);
      if i :| 0 < i < |attempts| && Uncut(attempts[i]) {
        assert Uncut(attempts[1..][i - 1]);
      }
    }
  }

  /** Any number of attempts, each in its own order and cut off anywhere: once one of them has gone
      through, the tree is the restored one, whatever came before or after. */
  lemma AttemptsConverge(s0: Storage, b: Parts, es: set<AccessEntity>, attempts: seq<Attempt>)
    requires Fresh(s0, b) && Proper(es)
    requires forall i :: 0 <= i < |attempts| ==> Elements(attempts[i].order) == es
    requires exists i :: 0 <= i < |attempts| && Uncut(attempts[i])
    ensures IsRestored(AfterAttempts(s0, b, attempts), s0, b, es)
  {
    FreshIsPartial(s0, b, es);
    AttemptsKeep(s0, s0, b, es, attempts);
  }

  /** Two histories of attempts that each went through once end in the same tree. */
  lemma HistoriesAgree(s0: Storage, b: Parts, es: set<AccessEntity>, one: seq<Attempt>, two: seq<Attempt>)
    requires Fresh(s0, b) && Proper(es)
    requires forall i :: 0 <= i < |one| ==> Elements(one[i].order) == es
    requires forall i :: 0 <= i < |two| ==> Elements(two[i].order) == es
    requires exists i :: 0 <= i < |one| && Uncut(one[i])
    requires exists i :: 0 <= i < |two| && Uncut(two[i])
    ensures AfterAttempts(s0, b, one) == AfterAttempts(s0, b, two)
  {
    AttemptsConverge(s0, b, es, one);
    AttemptsConverge(s0, b, es, two);
    RestoredIsUnique(AfterAttempts(s0, b, one), AfterAttempts(s0, b, two), s0, b, es);
  }

  // ---------------------------------------------------------------- the step as it runs

  ghost predicate Restorable(e: AccessEntity) {
    NodeName(e.etype) && e.etype != "uuid" && e.name != [] && PartPaths.IsUuidText(e.uuid)
  }

  lemma ParseEntityPaths(base: string, e: AccessEntity)
    requires NoTrailingSlash(base) && Restorable(e)
    ensures var b := ParsePath(base);
      && ParsePath(Child(base, e.etype)) == TypePath(b, e)
      && ParsePath(Child(base, "uuid")) == UuidsPath(b)
      && ParsePath(Child(Child(base, e.etype), NameToText(e.name))) == NamePath(b, e)
      && ParsePath(Child(Child(base, "uuid"), e.uuid)) == EntityPath(b, e)
  {
    NameTextRoundTrip(e.name);
    PartPaths.UuidTextNoSlash(e.uuid);
    ParseChild(base, e.etype);
    ParseChild(base, "uuid");
    ParseChild(Child(base, e.etype), NameToText(e.name));
    ParseChild(Child(base, "uuid"), e.uuid);
  }

  /** The client may be cut off before any call; `budget` is how many still go through. */
  method RestoreEntity(zk: FakeZooKeeper, base: string, e: AccessEntity, budget: nat) returns (finished: bool)
    requires zk.Valid() && NoTrailingSlash(base)
    requires Restorable(e)
    modifies zk
    ensures zk.Valid()
    ensures zk.storage == AfterCalls(old(zk.storage), ParsePath(base), e, if budget < 3 then budget else 3)
    ensures finished <==> budget >= 3
  {
    ParseEntityPaths(base, e);
    if budget == 0 { return false; }
    var _ := zk.TryCreate(Child(base, e.etype), "");
    if budget == 1 { return false; }
    var _ := zk.TryCreate(Child(base, "uuid"), "");
    if budget == 2 { return false; }
    var ops := [(Child(Child(base, e.etype), NameToText(e.name)), e.uuid), (Child(Child(base, "uuid"), e.uuid), e.attachQuery)];
    assert Creations(ops) == Pair(ParsePath(base), e);
    var _ := zk.CommitTransaction(ops);
    return true;
  }

  lemma PassStep(s: Storage, b: Parts, order: seq<AccessEntity>, k: nat, budget: nat)
    requires k < |order|
    ensures AfterPass(s, b, order[k..], budget) ==
      if budget < 3 then AfterCalls(s, b, order[k], budget)
      else AfterPass(AfterCalls(s, b, order[k], 3), b, order[k + 1..], budget - 3)
  {
    assert order[k..][0] == order[k] && order[k..][1..] == order[k + 1..];
  }

  method RestoreAccessEntities(zk: FakeZooKeeper, base: string, order: seq<AccessEntity>, budget: nat) returns (finished: bool)
    requires zk.Valid() && NoTrailingSlash(base) && forall i :: 0 <= i < |order| ==> Restorable(order[i])
    modifies zk
    ensures zk.Valid() && zk.storage == AfterPass(old(zk.storage), ParsePath(base), order, budget)
    ensures finished <==> budget >= 3 * |order|
  {
    var left := budget;
    assert order[0..] == order;
    for k := 0 to |order|
      invariant zk.Valid() && left == budget - 3 * k
      invariant AfterPass(old(zk.storage), ParsePath(base), order, budget) == AfterPass(zk.storage, ParsePath(base), order[k..], left)
    {
      PassStep(zk.storage, ParsePath(base), order, k, left);
      var done := RestoreEntity(zk, base, order[k], left);
      if !done {
        return false;
      }
      left := left - 3;
    }
    return true;
  }

  // ---------------------------------------------------------------- retrieval

  datatype RetrieveError = MissingNode | BadUuid

  /** How the library reads a uuid from text: it gives the canonical form, and accepts at least that form. */
  type UuidParser = string -> Option<string>

  ghost predicate IsUuidParser(parse: UuidParser) {
    && (forall text :: parse(text).Some? ==> PartPaths.IsUuidText(parse(text).value))
    && (forall text :: PartPaths.IsUuidText(text) ==> parse(text) == Some(text))
  }

  /** Node names below the base are names: not empty and without slashes. */
  ghost predicate WellNamed(s: Storage, b: Parts) {
    forall q, i :: q in s && b <= q && |b| <= i < |q| ==> NodeName(q[i])
  }

  /** `e` is what the tree says about the node `name` of type `t`. */
  ghost predicate Reads(parse: UuidParser, s: Storage, b: Parts, pair: (string, string), e: AccessEntity) {
    var p := b + [pair.0, pair.1];
    && p in s && e.etype == pair.0 && e.name == TextToName(pair.1) && parse(s[p]) == Some(e.uuid)
    && EntityPath(b, e) in s && e.attachQuery == s[EntityPath(b, e)]
  }

  /** The entities read, one for each of the distinct (type, node name) pairs. */
  ghost predicate Listing(parse: UuidParser, s: Storage, b: Parts, pairs: seq<(string, string)>, entities: seq<AccessEntity>) {
    && |pairs| == |entities| && Distinct(pairs)
    && forall i :: 0 <= i < |pairs| ==> Reads(parse, s, b, pairs[i], entities[i])
  }

  /** A name node whose text is no uuid, or whose uuid leads nowhere. */
  ghost predicate BrokenAt(parse: UuidParser, s: Storage, b: Parts, t: string, n: string) {
    && b + [t, n] in s
    && (parse(s[b + [t, n]]).None? || b + ["uuid", parse(s[b + [t, n]]).value] !in s)
  }

  /** Reads the entity of one name node. */
  method RetrieveOne(parse: UuidParser, zk: FakeZooKeeper, base: string, t: string, n: string) returns (r: Result<AccessEntity, RetrieveError>)
    requires IsUuidParser(parse) && NoTrailingSlash(base) && NodeName(t) && NodeName(n) && ParsePath(base) + [t, n] in zk.storage
    ensures r.Ok? ==> Reads(parse, zk.storage, ParsePath(base), (t, n), r.value)
    ensures r.Err? <==> BrokenAt(parse, zk.storage, ParsePath(base), t, n)
  {
    ghost var b := ParsePath(base);
    ParseChild(base, t);
    ParseChild(Child(base, t), n);
    assert b + [t] + [n] == b + [t, n];
    var uuidText := zk.Get(Child(Child(base, t), n));
    var parsed := parse(uuidText.value);
    if parsed.None? {
      return Err(BadUuid);
    }
    var uuid := parsed.value;
    PartPaths.UuidTextNoSlash(uuid);
    ParseChild(base, "uuid");
    ParseChild(Child(base, "uuid"), uuid);
    assert b + ["uuid"] + [uuid] == b + ["uuid", uuid];
    var query := zk.Get(Child(Child(base, "uuid"), uuid));
    if query.Err? {
      return Err(MissingNode);
    }
    return Ok(AccessEntity(t, uuid, TextToName(n), query.value));
  }

  /** Reads all entities of one type. */
  method RetrieveType(parse: UuidParser, zk: FakeZooKeeper, base: string, t: string, before: seq<AccessEntity>, ghost pairs0: seq<(string, string)>)
    returns (r: Result<seq<AccessEntity>, RetrieveError>, ghost pairs: seq<(string, string)>)
    requires IsUuidParser(parse) && NoTrailingSlash(base) && NodeName(t) && WellNamed(zk.storage, ParsePath(base))
    requires Listing(parse, zk.storage, ParsePath(base), pairs0, before)
    requires forall p :: p in pairs0 ==> p.0 != t
    ensures r.Ok? ==> Listing(parse, zk.storage, ParsePath(base), pairs, r.value)
    ensures r.Ok? ==> forall p :: p in pairs <==> p in pairs0 || (p.0 == t && ParsePath(base) + [t, p.1] in zk.storage)
    ensures r.Err? ==> ParsePath(base) + [t] !in zk.storage || exists n :: BrokenAt(parse, zk.storage, ParsePath(base), t, n)
  {
    ghost var b := ParsePath(base);
    ParseChild(base, t);
    var children := zk.GetChildren(Child(base, t));
    if children.Err? {
      return Err(MissingNode), [];
    }
    var names := children.value;
    forall n ensures n in names <==> b + [t, n] in zk.storage {
      assert b + [t] + [n] == b + [t, n];
    }
    var entities := before;
    pairs := pairs0;
    for k := 0 to |names|
      invariant Listing(parse, zk.storage, b, pairs, entities)
      invariant forall p :: p in pairs <==> p in pairs0 || (p.0 == t && p.1 in names[..k])
    {
      var n := names[k];
      PrefixStep(names, k);
      assert n in names;
      NamedBelow(zk.storage, b, t, n);
      var e := RetrieveOne(parse, zk, base, t, n);
      if e.Err? {
        return Err(e.error), [];
      }
      ListingAppend(parse, zk.storage, b, pairs, entities, (t, n), e.value);
      entities, pairs := entities + [e.value], pairs + [(t, n)];
    }
    assert names[..|names|] == names;
    return Ok(entities), pairs;
  }

  lemma NamedBelow(s: Storage, b: Parts, t: string, n: string)
    requires WellNamed(s, b) && b + [t, n] in s
    ensures NodeName(n)
  {
    var q := b + [t, n];
    assert b <= q && q[|b| + 1] == n;
  }

  lemma ListingAppend(parse: UuidParser, s: Storage, b: Parts, pairs: seq<(string, string)>, entities: seq<AccessEntity>,
                      pair: (string, string), e: AccessEntity)
    requires Listing(parse, s, b, pairs, entities) && Reads(parse, s, b, pair, e) && pair !in pairs
    ensures Listing(parse, s, b, pairs + [pair], entities + [e])
  {
  }

  ghost predicate Broken(parse: UuidParser, s: Storage, b: Parts) {
    b !in s || exists t, n :: t != "uuid" && BrokenAt(parse, s, b, t, n)
  }

  /** All entities of all types, one per name node; it fails exactly on a broken tree. */
  method RetrieveAccessEntities(parse: UuidParser, zk: FakeZooKeeper, base: string)
    returns (r: Result<seq<AccessEntity>, RetrieveError>, ghost pairs: seq<(string, string)>)
    requires IsUuidParser(parse) && NoTrailingSlash(base) && zk.Valid() && WellNamed(zk.storage, ParsePath(base))
    ensures r.Ok? ==> Listing(parse, zk.storage, ParsePath(base), pairs, r.value)
    ensures r.Ok? ==> forall p :: p in pairs <==> p.0 != "uuid" && ParsePath(base) + [p.0, p.1] in zk.storage
    ensures r.Err? <==> Broken(parse, zk.storage, ParsePath(base))
  {
    ghost var b := ParsePath(base);
    pairs := [];
    var children := zk.GetChildren(base);
    if children.Err? {
      return Err(MissingNode), [];
    }
    var types := children.value;
    var entities: seq<AccessEntity> := [];
    for k := 0 to |types|
      invariant Listing(parse, zk.storage, b, pairs, entities)
      invariant forall p :: p in pairs <==> p.0 != "uuid" && p.0 in types[..k] && b + [p.0, p.1] in zk.storage
    {
      PrefixStep(types, k);
      var t := types[k];
      assert t in types;
      ghost var q := b + [t];
      assert q in zk.storage && b <= q && q[|b|] == t;
      if t != "uuid" {
        var r1;
        r1, pairs := RetrieveType(parse, zk, base, t, entities, pairs);
        if r1.Err? {
          return Err(r1.error), [];
        }
        entities := r1.value;
      }
    }
    assert types[..|types|] == types;
    forall p: (string, string) | b + [p.0, p.1] in zk.storage ensures p.0 in types {
      assert Parent(b + [p.0, p.1]) == b + [p.0];
    }
    forall t, n | t != "uuid" && b + [t, n] in zk.storage ensures !BrokenAt(parse, zk.storage, b, t, n) {
      assert (t, n) in pairs;
      var i :| 0 <= i < |pairs| && pairs[i] == (t, n);
      assert Reads(parse, zk.storage, b, pairs[i], entities[i]);
    }
    return Ok(entities), pairs;
  }

  lemma RestoredIsWellNamed(s: Storage, s0: Storage, b: Parts, es: set<AccessEntity>)
    requires Proper(es) && Fresh(s0, b) && IsRestored(s, s0, b, es)
    ensures WellNamed(s, b)
  {
    forall q, i | q in s && b <= q && |b| <= i < |q| ensures NodeName(q[i]) {
      assert q !in s0;
      assert Wanted(b, es, q, s[q]);
      WantedIsWellNamed(b, es, q, s[q], i);
    }
  }

  lemma WantedIsWellNamed(b: Parts, es: set<AccessEntity>, q: Parts, value: string, i: nat)
    requires Proper(es) && Wanted(b, es, q, value) && b <= q && |b| <= i < |q|
    ensures NodeName(q[i])
  {
    if e :| e in es && (q == NamePath(b, e) || q == EntityPath(b, e)) {
      NameTextRoundTrip(e.name);
      PartPaths.UuidTextNoSlash(e.uuid);
    }
  }

  lemma RestoredNames(s: Storage, s0: Storage, b: Parts, es: set<AccessEntity>, t: string, n: string) returns (e: AccessEntity)
    requires Proper(es) && Fresh(s0, b) && IsRestored(s, s0, b, es)
    requires t != "uuid" && b + [t, n] in s
    ensures e in es && t == e.etype && n == NameToText(e.name) && s[b + [t, n]] == e.uuid
    ensures EntityPath(b, e) in s && s[EntityPath(b, e)] == e.attachQuery
  {
    var q := b + [t, n];
    assert b <= q && q != b && q[|b|] == t && q[|b| + 1] == n;
    assert q !in s0;
    assert Wanted(b, es, q, s[q]);
    WantedShape(b, es, q, s[q]);
    e :| e in es && q == NamePath(b, e) && s[q] == e.uuid;
    assert NamePath(b, e)[|b|] == e.etype && NamePath(b, e)[|b| + 1] == NameToText(e.name);
    RestoredEntity(s, s0, b, es, e);
  }

  lemma RestoredEntity(s: Storage, s0: Storage, b: Parts, es: set<AccessEntity>, e: AccessEntity)
    requires Proper(es) && Fresh(s0, b) && IsRestored(s, s0, b, es) && e in es
    ensures NamePath(b, e) in s && s[NamePath(b, e)] == e.uuid
    ensures EntityPath(b, e) in s && s[EntityPath(b, e)] == e.attachQuery
  {
    var n, u := NamePath(b, e), EntityPath(b, e);
    assert IsNameNode(b, es, n, e.uuid) && IsEntityNode(b, es, u, e.attachQuery);
    assert Wanted(b, es, n, e.uuid) && Wanted(b, es, u, e.attachQuery);
    assert b <= n && n != b && b <= u && u != b;
    WantedIsUnique(b, es, n, e.uuid, s[n]);
    WantedIsUnique(b, es, u, e.attachQuery, s[u]);
  }

  /** Retrieving from the restored tree does not fail, and reads exactly the restored entities, once each. */
  lemma RetrieveAfterRestore(parse: UuidParser, s: Storage, s0: Storage, b: Parts, es: set<AccessEntity>,
                             pairs: seq<(string, string)>, entities: seq<AccessEntity>)
    requires IsUuidParser(parse) && Proper(es) && Fresh(s0, b) && IsRestored(s, s0, b, es)
    requires Listing(parse, s, b, pairs, entities)
    requires forall p :: p in pairs <==> p.0 != "uuid" && b + [p.0, p.1] in s
    ensures Elements(entities) == es && Distinct(entities)
  {
    forall i | 0 <= i < |entities| ensures entities[i] in es && pairs[i] == (entities[i].etype, NameToText(entities[i].name)) {
      assert pairs[i] in pairs;
      var e := RestoredNames(s, s0, b, es, pairs[i].0, pairs[i].1);
      NameTextRoundTrip(e.name);
      assert Reads(parse, s, b, pairs[i], entities[i]);
      assert entities[i] == e;
    }
    forall e | e in es ensures e in entities {
      RestoredEntity(s, s0, b, es, e);
      assert (e.etype, NameToText(e.name)) in pairs;
      var i :| 0 <= i < |pairs| && pairs[i] == (e.etype, NameToText(e.name));
      assert Reads(parse, s, b, pairs[i], entities[i]);
      NameTextRoundTrip(e.name);
      assert entities[i] == e;
    }
  }

  /** The restored tree can be read, unless nothing was restored and the base node was not there either. */
  lemma RestoredIsNotBroken(parse: UuidParser, s: Storage, s0: Storage, b: Parts, es: set<AccessEntity>)
    requires IsUuidParser(parse) && Proper(es) && Fresh(s0, b) && IsRestored(s, s0, b, es)
    ensures Broken(parse, s, b) <==> es == {} && b !in s0
  {
    assert es != {} ==> IsStructure(b, es, b) && Wanted(b, es, b, "");
    assert es == {} && b !in s0 ==> b !in s;
    forall t, n | t != "uuid" && b + [t, n] in s ensures !BrokenAt(parse, s, b, t, n) {
      var e := RestoredNames(s, s0, b, es, t, n);
      assert Restorable(e);
    }
  }

  /** Restore attempts one after another, each in its own order and cut off anywhere. */
  method RestoreAttempts(zk: FakeZooKeeper, base: string, attempts: seq<Attempt>)
    requires zk.Valid() && NoTrailingSlash(base)
    requires forall i, e :: 0 <= i < |attempts| && e in attempts[i].order ==> Restorable(e)
    modifies zk
    ensures zk.Valid() && zk.storage == AfterAttempts(old(zk.storage), ParsePath(base), attempts)
  {
    assert attempts[0..] == attempts;
    for k := 0 to |attempts|
      invariant zk.Valid()
      invariant AfterAttempts(old(zk.storage), ParsePath(base), attempts) == AfterAttempts(zk.storage, ParsePath(base), attempts[k..])
    {
      assert attempts[k..][0] == attempts[k] && attempts[k..][1..] == attempts[k + 1..];
      forall i | 0 <= i < |attempts[k].order| ensures Restorable(attempts[k].order[i]) {
        assert attempts[k].order[i] in attempts[k].order;
      }
      var _ := RestoreAccessEntities(zk, base, attempts[k].order, attempts[k].budget);
    }
  }

  /** Restore into an empty place, interrupted and repeated at will but going through once, then retrieve:
      exactly the entities come back, each once. Only without entities and without a base node does it fail. */
  method RestoreThenRetrieve(parse: UuidParser, zk: FakeZooKeeper, base: string, ghost es: set<AccessEntity>, attempts: seq<Attempt>)
    returns (r: Result<seq<AccessEntity>, RetrieveError>)
    requires IsUuidParser(parse)
    requires zk.Valid() && NoTrailingSlash(base) && Fresh(zk.storage, ParsePath(base)) && Proper(es)
    requires forall i :: 0 <= i < |attempts| ==> Elements(attempts[i].order) == es
    requires exists i :: 0 <= i < |attempts| && Uncut(attempts[i])
    modifies zk
    ensures r.Ok? <==> es != {} || ParsePath(base) in old(zk.storage)
    ensures r.Ok? ==> Elements(r.value) == es && Distinct(r.value)
  {
    ghost var s0, b := zk.storage, ParsePath(base);
    forall i, e | 0 <= i < |attempts| && e in attempts[i].order ensures Restorable(e) {
      assert e in Elements(attempts[i].order);
    }
    RestoreAttempts(zk, base, attempts);
    AttemptsConverge(s0, b, es, attempts);
    RestoredIsWellNamed(zk.storage, s0, b, es);
    ghost var pairs;
    r, pairs := RetrieveAccessEntities(parse, zk, base);
    RestoredIsNotBroken(parse, zk.storage, s0, b, es);
    if r.Ok? {
      RetrieveAfterRestore(parse, zk.storage, s0, b, es, pairs, r.value);
    }
  }
}
