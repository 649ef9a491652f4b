/** The in-memory ZooKeeper: a tree of nodes named by their path components. Values are text standing
    for bytes. Watches are not part of this model. */
module ZooKeeper {
  import opened Basics

  type Parts = seq<string>
  type Storage = map<Parts, string>

  datatype ZkError = NoNode | NodeExists | NotEmpty

  // ---------------------------------------------------------------- paths

  function StripSlashes(path: string): string {
    if path != "" && path[|path| - 1] == '/' then StripSlashes(path[..|path| - 1]) else path
  }

  function ParsePath(path: string): (parts: Parts)
    ensures |parts| > 0
  {
    Split(StripSlashes(path))
  }

  predicate NodeName(name: string) {
    name != "" && NoSlash(name)
  }

  predicate NoTrailingSlash(path: string) {
    path != "" ==> path[|path| - 1] != '/'
  }

  /** `f"{path}/{name}"` names the child `name` of `path`. */
  function Child(path: string, name: string): string {
    path + "/" + name
  }

  lemma ParseChild(path: string, name: string)
    requires NoTrailingSlash(path) && NodeName(name)
    ensures ParsePath(Child(path, name)) == ParsePath(path) + [name]
    ensures NoTrailingSlash(Child(path, name))
  {
    var p := Child(path, name);
    assert p[|p| - 1] == name[|name| - 1];
    assert name[|name| - 1] in name;
    SplitAppend(path, name);
  }

  /** A path is the list of its names, with or without slashes at its end. */
  lemma {:induction false} ParseNames(names: seq<string>, slashes: nat)
    requires names != [] && (forall n :: n in names ==> NoSlash(n)) && names[|names| - 1] != ""
    ensures ParsePath(Join(names) + seq(slashes, _ => '/')) == names
    decreases slashes
  {
    var path := Join(names) + seq(slashes, _ => '/');
    if slashes == 0 {
      JoinEnds(names);
      assert path == Join(names);
      SplitJoin(names);
    } else {
      assert path[..|path| - 1] == Join(names) + seq(slashes - 1, _ => '/');
      ParseNames(names, slashes - 1);
    }
  }

  lemma {:induction false} JoinEnds(names: seq<string>)
    requires names != [] && (forall n :: n in names ==> NoSlash(n)) && names[|names| - 1] != ""
    ensures Join(names) != "" && Join(names)[|Join(names)| - 1] != '/'
  {
    if |names| == 1 {
      assert names[0] in names && names[0][|names[0]| - 1] in names[0];
    } else {
      JoinEnds(names[1..]);
    }
  }

  // ---------------------------------------------------------------- trees

  function Parent(p: Parts): Parts
    requires p != []
  {
    p[..|p| - 1]
  }

  /** Every node but a root has its parent in the store. */
  ghost predicate Closed(s: Storage) {
    && (forall p :: p in s ==> p != [])
    && (forall p {:trigger Parent(p)} :: p in s && |p| > 1 ==> Parent(p) in s)
  }

  ghost function Ancestors(p: Parts): set<Parts> {
    set k | 1 <= k < |p| :: p[..k]
  }

  lemma {:induction false} ClosedHasAncestors(s: Storage, p: Parts, k: nat)
    requires Closed(s) && p in s && 1 <= k <= |p|
    ensures p[..k] in s
    decreases |p|
  {
    if k < |p| {
      ClosedHasAncestors(s, Parent(p), k);
      assert Parent(p)[..k] == p[..k];
    } else {
      assert p[..k] == p;
    }
  }

  /** The store after creating `p`: missing ancestors are created empty. */
  ghost function Created(s: Storage, p: Parts, value: string): Storage {
    WithEmpty(s, Ancestors(p) - s.Keys, p, value)
  }

  lemma CreatedClosed(s: Storage, p: Parts, value: string)
    requires Closed(s) && p != []
    ensures Closed(Created(s, p, value))
  {
    var t := Created(s, p, value);
    forall q | q in t ensures q != [] && (|q| > 1 ==> Parent(q) in t) {
      if q == p || q in Ancestors(p) {
        if |q| > 1 {
          var k :| 1 <= k <= |p| && q == p[..k];
          assert Parent(q) == p[..k - 1];
          assert p[..k - 1] in Ancestors(p);
        }
      }
    }
  }

  // ---------------------------------------------------------------- create and delete

  function CreateError(s: Storage, p: Parts, makepath: bool): Option<ZkError>
    requires p != []
  {
    if p in s then Some(NodeExists)
    else if !makepath && |p| > 1 && Parent(p) !in s then Some(NoNode)
    else None
  }

  /** `create_locked` on a dictionary: the node first, then its missing parents. On a missing parent
      without `makepath` the node is left behind, as in the source; callers discard that dictionary. */
  method CreateLocked(s: Storage, p: Parts, value: string, makepath: bool) returns (r: Option<ZkError>, t: Storage)
    requires Closed(s) && p != []
    ensures r == CreateError(s, p, makepath)
    ensures r == None ==> t == Created(s, p, value)
    ensures r == Some(NodeExists) ==> t == s
  {
    if p in s {
      return Some(NodeExists), s;
    }
    t := s[p := value];
    var parent := Parent(p);
    ghost var n := |p| - 1;
    FilledStart(s, p, value);
    while |parent| > 0 && parent !in t
      invariant 0 <= n < |p| && parent == p[..n]
      invariant !makepath ==> n == |p| - 1
      invariant t == Filled(s, p, n, value)
      decreases |parent|
    {
      FilledHas(s, p, n, value);
      if makepath {
        FilledStep(s, p, n, value);
        t := t[parent := ""];
        assert Parent(parent) == p[..n - 1];
        parent := Parent(parent);
        n := n - 1;
      } else {
        return Some(NoNode), t;
      }
    }
    FilledHas(s, p, n, value);
    FilledEnd(s, p, n, value);
    return None, t;
  }

  /** Proper ancestors of p longer than n that are not in the store. */
  ghost function MissingFrom(s: Storage, p: Parts, n: nat): set<Parts> {
    set k | n < k < |p| && p[..k] !in s :: p[..k]
  }

  /** The store with p created and those ancestors made. */
  ghost function Filled(s: Storage, p: Parts, n: nat, value: string): Storage {
    WithEmpty(s, MissingFrom(s, p, n), p, value)
  }

  ghost function WithEmpty(s: Storage, empty: set<Parts>, p: Parts, value: string): Storage {
    s + (map q | q in empty :: "") + map[p := value]
  }

  lemma WithOneMore(s: Storage, empty: set<Parts>, p: Parts, value: string, x: Parts)
    requires x != p
    ensures WithEmpty(s, empty, p, value)[x := ""] == WithEmpty(s, empty + {x}, p, value)
  {
  }

  lemma MissingStep(s: Storage, p: Parts, n: nat)
    requires 1 <= n < |p| && p[..n] !in s
    ensures MissingFrom(s, p, n - 1) == MissingFrom(s, p, n) + {p[..n]}
  {
    forall q | q in MissingFrom(s, p, n - 1) ensures q in MissingFrom(s, p, n) + {p[..n]} {
      var k :| n - 1 < k < |p| && p[..k] !in s && q == p[..k];
    }
  }

  lemma FilledStart(s: Storage, p: Parts, value: string)
    requires p != []
    ensures Filled(s, p, |p| - 1, value) == s[p := value]
  {
  }

  lemma FilledHas(s: Storage, p: Parts, n: nat, value: string)
    requires n < |p|
    ensures p[..n] in Filled(s, p, n, value) <==> p[..n] in s
  {
    assert |p[..n]| == n;
  }

  lemma FilledStep(s: Storage, p: Parts, n: nat, value: string)
    requires 1 <= n < |p| && p[..n] !in s
    ensures Filled(s, p, n, value)[p[..n] := ""] == Filled(s, p, n - 1, value)
  {
    assert |p[..n]| == n;
    MissingStep(s, p, n);
    WithOneMore(s, MissingFrom(s, p, n), p, value, p[..n]);
  }

  lemma FilledEnd(s: Storage, p: Parts, n: nat, value: string)
    requires Closed(s) && n < |p| && (n == 0 || p[..n] in s)
    ensures Filled(s, p, n, value) == Created(s, p, value)
  {
    forall k | 1 <= k < |p| && p[..k] !in s ensures k > n {
      if k <= n {
        assert p[..n][..k] == p[..k];
        ClosedHasAncestors(s, p[..n], k);
        assert false;
      }
    }
    assert MissingFrom(s, p, n) == Ancestors(p) - s.Keys;
  }

  ghost function Below(s: Storage, p: Parts): set<Parts> {
    set q | q in s && p <= q
  }

  lemma DeletedClosed(s: Storage, p: Parts)
    requires Closed(s)
    ensures Closed(s - Below(s, p))
  {
    var t := s - Below(s, p);
    forall q | q in t ensures q != [] && (|q| > 1 ==> Parent(q) in t) {
      if |q| > 1 {
        assert Parent(q) <= q;
        assert !(p <= q);
      }
    }
  }

  // ---------------------------------------------------------------- transactions

  datatype Creation = Creation(parts: Parts, value: string)

  datatype OpResult = Done | RolledBack | Failed(error: ZkError) | RuntimeInconsistency

  /** Creations in order, without making parents. */
  ghost function RunCreations(s: Storage, ops: seq<Creation>): Option<Storage>
    requires forall i :: 0 <= i < |ops| ==> ops[i].parts != []
    decreases |ops|
  {
    if ops == [] then Some(s)
    else if CreateError(s, ops[0].parts, false).Some? then None
    else RunCreations(s[ops[0].parts := ops[0].value], ops[1..])
  }

  lemma CreatedUnderParent(s: Storage, p: Parts, value: string)
    requires Closed(s) && p != [] && (|p| > 1 ==> Parent(p) in s)
    ensures Created(s, p, value) == s[p := value]
  {
    forall q | q in Ancestors(p) ensures q in s {
      var k :| 1 <= k < |p| && q == p[..k];
      ClosedHasAncestors(s, Parent(p), k);
      assert Parent(p)[..k] == q;
    }
  }

  /** The part of `commit` under the lock: all creations on a copy, which replaces the store only if
      none failed. */
  method Commit(s: Storage, ops: seq<Creation>) returns (results: seq<OpResult>, t: Storage)
    requires Closed(s) && forall i :: 0 <= i < |ops| ==> ops[i].parts != []
    ensures |results| == |ops| && Closed(t)
    ensures RunCreations(s, ops).Some? ==> t == RunCreations(s, ops).value && forall i :: 0 <= i < |ops| ==> results[i] == Done
    ensures RunCreations(s, ops).None? ==> t == s && exists k :: 0 <= k < |ops| && FailsAt(results, k)
  {
    var copy := s;
    assert ops[0..] == ops;
    for k := 0 to |ops|
      invariant Closed(copy)
      invariant RunCreations(s, ops) == RunCreations(copy, ops[k..])
    {
      assert ops[k..][0] == ops[k] && ops[k..][1..] == ops[k + 1..];
      var error, next := CreateLocked(copy, ops[k].parts, ops[k].value, false);
      if error.Some? {
        results := seq(k, _ => RolledBack) + [Failed(error.value)] + seq(|ops| - k - 1, _ => RuntimeInconsistency);
        assert FailsAt(results, k);
        return results, s;
      }
      CreatedUnderParent(copy, ops[k].parts, ops[k].value);
      CreatedClosed(copy, ops[k].parts, ops[k].value);
      copy := next;
    }
    return seq(|ops|, _ => Done), copy;
  }

  /** Operation k failed: those before are rolled back, those after are not tried. */
  ghost predicate FailsAt(results: seq<OpResult>, k: nat) {
    && k < |results| && results[k].Failed?
    && (forall i :: 0 <= i < k ==> results[i] == RolledBack)
    && (forall i :: k < i < |results| ==> results[i] == RuntimeInconsistency)
  }

  // ---------------------------------------------------------------- the client

  class FakeZooKeeper {
    var storage: Storage

    ghost predicate Valid()
      reads this
    {
      Closed(storage)
    }

    constructor ()
      ensures Valid() && storage == map[[""] := ""]
    {
      storage := map[[""] := ""];
    }

    method Create(path: string, value: string) returns (error: Option<ZkError>)
      requires Valid()
      modifies this
      ensures Valid()
      ensures error == if ParsePath(path) in old(storage) then Some(NodeExists) else None
      ensures storage == if error.None? then Created(old(storage), ParsePath(path), value) else old(storage)
    {
      var t;
      error, t := CreateLocked(storage, ParsePath(path), value, true);
      CreatedClosed(storage, ParsePath(path), value);
      storage := t;
    }

    method TryCreate(path: string, value: string) returns (created: bool)
      requires Valid()
      modifies this
      ensures Valid()
      ensures created <==> ParsePath(path) !in old(storage)
      ensures storage == if created then Created(old(storage), ParsePath(path), value) else old(storage)
    {
      var error := Create(path, value);
      created := error.None?;
    }

    method Set(path: string, value: string) returns (error: Option<ZkError>)
      requires Valid()
      modifies this
      ensures Valid()
      ensures error == if ParsePath(path) in old(storage) then None else Some(NoNode)
      ensures storage == if error.None? then old(storage)[ParsePath(path) := value] else old(storage)
    {
      if ParsePath(path) !in storage {
        return Some(NoNode);
      }
      storage := storage[ParsePath(path) := value];
      return None;
    }

    method Delete(path: string, recursive: bool) returns (error: Option<ZkError>)
      requires Valid()
      modifies this
      ensures Valid()
      ensures error == Some(NoNode) <==> ParsePath(path) !in old(storage)
      ensures error == Some(NotEmpty) <==>
        ParsePath(path) in old(storage) && !recursive && |Below(old(storage), ParsePath(path))| > 1
      ensures error == None ==> storage == old(storage) - Below(old(storage), ParsePath(path))
      ensures error != None ==> storage == old(storage)
    {
      var parts := ParsePath(path);
      var deleted := set q | q in storage && parts <= q;
      forall q | q in deleted ensures parts in deleted {
        ClosedHasAncestors(storage, q, |parts|);
        assert q[..|parts|] == parts;
      }
      assert parts in storage ==> parts in deleted;
      if |deleted| == 0 {
        return Some(NoNode);
      }
      if |deleted| > 1 && !recursive {
        return Some(NotEmpty);
      }
      DeletedClosed(storage, parts);
      assert deleted == Below(storage, parts);
      storage := storage - deleted;
      return None;
    }

    method Get(path: string) returns (r: Result<string, ZkError>)
      ensures r == if ParsePath(path) in storage then Ok(storage[ParsePath(path)]) else Err(NoNode)
    {
      if ParsePath(path) !in storage {
        return Err(NoNode);
      }
      return Ok(storage[ParsePath(path)]);
    }

    method Exists(path: string) returns (r: bool)
      ensures r <==> ParsePath(path) in storage
    {
      return ParsePath(path) in storage;
    }

    method GetChildren(path: string) returns (r: Result<seq<string>, ZkError>)
      ensures r.Err? <==> ParsePath(path) !in storage
      ensures r.Ok? ==> Distinct(r.value) && SortedBy(r.value, TextLeq)
      ensures r.Ok? ==> forall name :: name in r.value <==> ParsePath(path) + [name] in storage
    {
      var parts := ParsePath(path);
      if parts !in storage {
        return Err(NoNode);
      }
      var names := set q | q in storage && |q| == |parts| + 1 && q[..|parts|] == parts :: q[|parts|];
      forall name ensures name in names <==> parts + [name] in storage {
        if parts + [name] in storage {
          var q := parts + [name];
          assert q[..|parts|] == parts && q[|parts|] == name;
        }
        if name in names {
          var q :| q in storage && |q| == |parts| + 1 && q[..|parts|] == parts && q[|parts|] == name;
          assert q == parts + [name];
        }
      }
      var list := ListOf(names);
      TextLeqOrders();
      SortBySorted(list, TextLeq);
      SortByPermutes(list, TextLeq);
      SortByDistinct(list, TextLeq);
      return Ok(SortBy(list, TextLeq));
    }

    method CommitTransaction(ops: seq<(string, string)>) returns (results: seq<OpResult>)
      requires Valid()
      modifies this
      ensures Valid()
      ensures var creations := Creations(ops);
        && |results| == |ops|
        && (RunCreations(old(storage), creations).Some? ==>
              storage == RunCreations(old(storage), creations).value && forall i :: 0 <= i < |ops| ==> results[i] == Done)
        && (RunCreations(old(storage), creations).None? ==>
              storage == old(storage) && exists k :: 0 <= k < |ops| && FailsAt(results, k))
    {
      var t;
      results, t := Commit(storage, Creations(ops));
      storage := t;
    }
  }

  function Creations(ops: seq<(string, string)>): (creations: seq<Creation>)
    ensures |creations| == |ops|
    ensures forall i :: 0 <= i < |ops| ==> creations[i] == Creation(ParsePath(ops[i].0), ops[i].1)
  {
    seq(|ops|, i requires 0 <= i < |ops| => Creation(ParsePath(ops[i].0), ops[i].1))
  }
}
