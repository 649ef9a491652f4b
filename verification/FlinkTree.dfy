/** Backup and restore of ZooKeeper subtrees as nested dictionaries. */
module FlinkTree {
  import opened Basics
  import opened ZooKeeper

  /** A dictionary, or the text of a node without children. */
  datatype Data = Leaf(text: string) | Dict(children: map<string, Data>)

  /** Keys are node names, all the way down. */
  ghost predicate GoodKeys(d: Data)
    decreases d
  {
    d.Dict? ==> forall k :: k in d.children ==> NodeName(k) && GoodKeys(d.children[k])
  }

  /** No leaf is the empty string. */
  ghost predicate NoEmptyLeaf(d: Data)
    decreases d
  {
    match d
    case Leaf(text) => text != ""
    case Dict(children) => forall k :: k in children ==> NoEmptyLeaf(children[k])
  }

  /** The node that `d`, placed somewhere, puts at `suffix` below that place. Empty leaves put none. */
  ghost function At(d: Data, suffix: Parts): Option<string>
    decreases |suffix|
  {
    match d
    case Leaf(text) => if suffix == [] && text != "" then Some(text) else None
    case Dict(children) =>
      if suffix == [] then Some("")
      else if suffix[0] in children then At(children[suffix[0]], suffix[1..])
      else None
  }

  ghost function Lookup(s: Storage, q: Parts): Option<string> {
    if q in s then Some(s[q]) else None
  }

  /** Nothing at or below p. */
  ghost predicate Vacant(s: Storage, p: Parts) {
    forall q :: q in s ==> !(p <= q)
  }

  /** Below p the store is exactly `d`. */
  ghost predicate Holds(s: Storage, p: Parts, d: Data) {
    forall q :: p <= q ==> Lookup(s, q) == At(d, q[|p|..])
  }

  /** Outside the subtree of p nothing changed, except that missing ancestors of p were made. */
  ghost predicate OnlyBelow(s: Storage, t: Storage, p: Parts) {
    && (forall q :: q in s && !(p <= q) ==> q in t && t[q] == s[q])
    && (forall q :: q in t && !(p <= q) ==> q in s || q in Ancestors(p))
  }

  // ---------------------------------------------------------------- restore

  lemma CreateHolds(s: Storage, p: Parts, value: string)
    requires Vacant(s, p) && p != []
    ensures var t := Created(s, p, value);
      && OnlyBelow(s, t, p)
      && forall q :: p <= q ==> Lookup(t, q) == if q == p then Some(value) else None
  {
    forall q | q in Ancestors(p) ensures !(p <= q) {
      assert |q| < |p|;
    }
  }

  /** The dictionary with only the keys done so far. */
  ghost function Part(children: map<string, Data>, done: set<string>): Data {
    Dict(map k | k in children && k in done :: children[k])
  }

  /** One more child restored under p extends what p holds by that key. */
  lemma ChildRestored(s: Storage, t: Storage, p: Parts, children: map<string, Data>, done: set<string>, k: string)
    requires Closed(s) && p in s && k in children && k !in done
    requires Holds(s, p, Part(children, done))
    requires Holds(t, p + [k], children[k]) && OnlyBelow(s, t, p + [k])
    ensures Holds(t, p, Part(children, done + {k}))
    ensures forall q :: !(p <= q) ==> Lookup(t, q) == Lookup(s, q)
  {
    forall q | q in Ancestors(p + [k]) ensures q in s {
      var n :| 1 <= n < |p + [k]| && q == (p + [k])[..n];
      assert q == p[..n];
      ClosedHasAncestors(s, p, n);
    }
    forall q | p <= q ensures Lookup(t, q) == At(Part(children, done + {k}), q[|p|..]) {
      var rest := q[|p|..];
      if rest != [] && rest[0] == k {
        assert q[..|p| + 1] == p + [k];
        assert q[|p + [k]|..] == rest[1..];
      } else {
        assert !(p + [k] <= q);
        assert Lookup(t, q) == Lookup(s, q);
        assert Lookup(s, q) == At(Part(children, done), rest);
      }
    }
  }

  lemma StillVacant(s: Storage, p: Parts, children: map<string, Data>, done: set<string>, k: string)
    requires Holds(s, p, Part(children, done)) && k !in done
    ensures Vacant(s, p + [k])
  {
    forall q | q in s ensures !(p + [k] <= q) {
      if p <= q && q != p {
        assert Lookup(s, q) == At(Part(children, done), q[|p|..]);
        assert q[|p|] in done;
      }
    }
  }

  lemma KeepsOutside(s: Storage, t: Storage, u: Storage, p: Parts)
    requires OnlyBelow(s, t, p) && forall q :: !(p <= q) ==> Lookup(u, q) == Lookup(t, q)
    ensures OnlyBelow(s, u, p)
  {
    forall q | q in s && !(p <= q) ensures q in u && u[q] == s[q] {
      assert Lookup(u, q) == Lookup(t, q);
    }
    forall q | q in u && !(p <= q) ensures q in s || q in Ancestors(p) {
      assert Lookup(u, q) == Lookup(t, q);
    }
  }

  /** In a store closed under parents a missing node has nothing below it. */
  lemma MissingIsVacant(s: Storage, p: Parts)
    requires Closed(s) && p != [] && p !in s
    ensures Vacant(s, p)
  {
    forall q | q in s ensures !(p <= q) {
      if |p| <= |q| {
        assert p <= q <==> q[..|p|] == p;
        ClosedHasAncestors(s, q, |p|);
      }
    }
  }

  /** The first `done` children are restored below p, and outside p all is as it was when p was made. */
  ghost predicate ChildrenDone(s: Storage, made: Storage, p: Parts, children: map<string, Data>, done: set<string>) {
    && p in s && Holds(s, p, Part(children, done))
    && forall q :: !(p <= q) ==> Lookup(s, q) == Lookup(made, q)
  }

  /** `_restore_data` on one value: a dictionary becomes a node with children, in any order of keys; text
      becomes a node unless it is empty. It fails exactly when a node is to be made where one is, and
      then nothing has changed. */
  method RestoreNode(zk: FakeZooKeeper, path: string, d: Data) returns (error: Option<ZkError>)
    requires zk.Valid() && NoTrailingSlash(path) && GoodKeys(d)
    modifies zk
    ensures zk.Valid()
    ensures error == if ParsePath(path) in old(zk.storage) && d != Leaf("") then Some(NodeExists) else None
    ensures error.Some? || d == Leaf("") ==> zk.storage == old(zk.storage)
    ensures ParsePath(path) !in old(zk.storage) ==>
      Holds(zk.storage, ParsePath(path), d) && OnlyBelow(old(zk.storage), zk.storage, ParsePath(path))
    decreases d
  {
    ghost var p := ParsePath(path);
    ghost var s := zk.storage;
    if p !in s { MissingIsVacant(s, p); }
    match d {
      case Leaf(text) =>
        if text == "" {
          return None;
        }
        if p !in s { CreateHolds(s, p, text); }
        error := zk.Create(path, text);
      case Dict(children) =>
        if p !in s { CreateHolds(s, p, ""); }
        error := zk.Create(path, "");
        if error.Some? {
          return;
        }
        ghost var made := zk.storage;
        DictStarted(made, p, children);
        RestoreChildren(zk, path, children, d);
        DictFinished(zk.storage, p, children, children.Keys);
        KeepsOutside(s, made, zk.storage, p);
        error := None;
    }
  }

  method RestoreChildren(zk: FakeZooKeeper, path: string, children: map<string, Data>, ghost d: Data)
    requires zk.Valid() && NoTrailingSlash(path) && d == Dict(children) && GoodKeys(d)
    requires ChildrenDone(zk.storage, zk.storage, ParsePath(path), children, {})
    modifies zk
    ensures zk.Valid() && ChildrenDone(zk.storage, old(zk.storage), ParsePath(path), children, children.Keys)
    decreases d, 0
  {
    ghost var p := ParsePath(path);
    var todo := children.Keys;
    ghost var done: set<string> := {};
    while todo != {}
      invariant zk.Valid() && todo <= children.Keys && done == children.Keys - todo
      invariant ChildrenDone(zk.storage, old(zk.storage), p, children, done)
      decreases todo
    {
      var k :| k in todo;
      ghost var before := zk.storage;
      ParseChild(path, k);
      StillVacant(before, p, children, done, k);
      assert p + [k] !in before;
      var error := RestoreNode(zk, Child(path, k), children[k]);
      ChildDone(before, zk.storage, old(zk.storage), p, children, done, k);
      todo := todo - {k};
      done := done + {k};
    }
    assert done == children.Keys;
  }

  lemma DictStarted(s: Storage, p: Parts, children: map<string, Data>)
    requires forall q :: p <= q ==> Lookup(s, q) == if q == p then Some("") else None
    ensures ChildrenDone(s, s, p, children, {})
  {
    assert Lookup(s, p) == Some("");
  }

  lemma DictFinished(s: Storage, p: Parts, children: map<string, Data>, done: set<string>)
    requires Holds(s, p, Part(children, done)) && done == children.Keys
    ensures Holds(s, p, Dict(children))
  {
    assert Part(children, done) == Dict(children);
  }

  lemma ChildDone(s: Storage, t: Storage, made: Storage, p: Parts, children: map<string, Data>, done: set<string>, k: string)
    requires Closed(s) && k in children && k !in done && ChildrenDone(s, made, p, children, done)
    requires Holds(t, p + [k], children[k]) && OnlyBelow(s, t, p + [k])
    ensures ChildrenDone(t, made, p, children, done + {k})
  {
    ChildRestored(s, t, p, children, done, k);
    assert !(p + [k] <= p);
  }

  // ---------------------------------------------------------------- retrieve

  ghost function ChildNames(s: Storage, p: Parts): set<string> {
    set q | q in s && |q| == |p| + 1 && p <= q :: q[|p|]
  }

  lemma ChildNamesAre(s: Storage, p: Parts, k: string)
    ensures k in ChildNames(s, p) <==> p + [k] in s
  {
    if p + [k] in s {
      var q := p + [k];
      assert p <= q && q[|p|] == k;
    }
    if k in ChildNames(s, p) {
      var q :| q in s && |q| == |p| + 1 && p <= q && q[|p|] == k;
      assert q == p + [k];
    }
  }

  /** The dictionary read below p: a child with a value is a leaf, whatever is below it. */
  ghost function ReadBelow(s: Storage, p: Parts): map<string, Data>
    requires p in s
    decreases Below(s, p)
  {
    map k | k in ChildNames(s, p) :: ReadChild(s, p, k)
  }

  ghost function ReadChild(s: Storage, p: Parts, k: string): Data
    requires p in s && k in ChildNames(s, p)
    decreases Below(s, p), 0
  {
    ChildNamesAre(s, p, k);
    var c := p + [k];
    assert p !in Below(s, c) && p in Below(s, p);
    assert Below(s, c) < Below(s, p);
    if s[c] != "" then Leaf(s[c]) else Dict(ReadBelow(s, c))
  }

  ghost predicate WellNamedBelow(s: Storage, p: Parts) {
    forall q, i :: q in s && p <= q && |p| <= i < |q| ==> NodeName(q[i])
  }

  /** The children below i have been read. */
  ghost predicate ReadSoFar(s: Storage, p: Parts, children: seq<string>, i: nat, result: map<string, Data>)
    requires p in s && i <= |children|
  {
    && result.Keys == Elements(children[..i])
    && forall k :: k in result ==> k in ChildNames(s, p) && result[k] == ReadChild(s, p, k)
  }

  /** `_get_data_recursively`, child by child. */
  method GetDataRecursively(zk: FakeZooKeeper, node: string) returns (result: map<string, Data>)
    requires NoTrailingSlash(node) && ParsePath(node) in zk.storage && WellNamedBelow(zk.storage, ParsePath(node))
    ensures result == ReadBelow(zk.storage, ParsePath(node))
    decreases Below(zk.storage, ParsePath(node)), 1
  {
    ghost var p := ParsePath(node);
    ghost var s := zk.storage;
    result := map[];
    var names := zk.GetChildren(node);
    var children := names.value;
    forall k ensures k in children <==> k in ChildNames(s, p) {
      ChildNamesAre(s, p, k);
    }
    for i := 0 to |children|
      invariant ReadSoFar(s, p, children, i, result)
    {
      PrefixStep(children, i);
      var d := GetChildData(zk, node, children[i]);
      result := result[children[i] := d];
    }
    assert children[..|children|] == children;
    assert result.Keys == ChildNames(s, p);
  }

  /** A child with a value is a leaf, one without is a folder. */
  method GetChildData(zk: FakeZooKeeper, node: string, k: string) returns (d: Data)
    requires NoTrailingSlash(node) && ParsePath(node) in zk.storage && WellNamedBelow(zk.storage, ParsePath(node))
    requires k in ChildNames(zk.storage, ParsePath(node))
    ensures d == ReadChild(zk.storage, ParsePath(node), k)
    decreases Below(zk.storage, ParsePath(node)), 0
  {
    ChildStep(zk.storage, ParsePath(node), k);
    ParseChild(node, k);
    var value := zk.Get(Child(node, k));
    if value.value != "" {
      return Leaf(value.value);
    }
    var below := GetDataRecursively(zk, Child(node, k));
    return Dict(below);
  }

  lemma ChildStep(s: Storage, p: Parts, k: string)
    requires p in s && k in ChildNames(s, p) && WellNamedBelow(s, p)
    ensures var c := p + [k];
      c in s && NodeName(k) && WellNamedBelow(s, c) && Below(s, c) < Below(s, p) &&
      ReadChild(s, p, k) == if s[c] != "" then Leaf(s[c]) else Dict(ReadBelow(s, c))
  {
    ChildNamesAre(s, p, k);
    var c := p + [k];
    assert c[|p|] == k;
    assert p !in Below(s, c) && p in Below(s, p);
    forall q | q in s && c <= q ensures p <= q {
    }
  }

  /** The data without its empty leaves: their keys are gone. */
  ghost function WithoutEmpty(d: Data): Data
    decreases d
  {
    match d
    case Leaf(_) => d
    case Dict(children) => Dict(map k | k in children && children[k] != Leaf("") :: WithoutEmpty(children[k]))
  }

  lemma ChildThere(s: Storage, p: Parts, children: map<string, Data>, k: string)
    requires Holds(s, p, Dict(children))
    ensures k in ChildNames(s, p) <==> k in children && children[k] != Leaf("")
    ensures k in children ==> Lookup(s, p + [k]) == At(children[k], [])
  {
    ChildNamesAre(s, p, k);
    var c := p + [k];
    assert c[|p|..] == [k] && [k][1..] == [];
    assert Lookup(s, c) == At(Dict(children), [k]);
  }

  /** What a restored dictionary reads back as: itself without its empty leaves. */
  lemma {:induction false} ReadBack(s: Storage, p: Parts, d: Data)
    requires d.Dict? && Holds(s, p, d)
    ensures p in s && Dict(ReadBelow(s, p)) == WithoutEmpty(d)
    decreases d
  {
    var children := d.children;
    assert Lookup(s, p) == At(Dict(children), p[|p|..]);
    var kept := WithoutEmpty(d).children;
    forall k ensures k in ReadBelow(s, p) <==> k in kept {
      ChildThere(s, p, children, k);
    }
    forall k | k in kept ensures ReadBelow(s, p)[k] == kept[k] {
      ChildThere(s, p, children, k);
      ChildNamesAre(s, p, k);
      HoldsChild(s, p, children, k);
      assert ReadBelow(s, p)[k] == ReadChild(s, p, k);
      assert kept[k] == WithoutEmpty(children[k]);
      if children[k].Dict? {
        assert s[p + [k]] == "";
        ReadBack(s, p + [k], children[k]);
        assert ReadChild(s, p, k) == Dict(ReadBelow(s, p + [k]));
      } else {
        assert s[p + [k]] == children[k].text;
      }
    }
  }

  lemma {:induction false} WithoutEmptyIff(d: Data)
    requires d.Dict?
    ensures WithoutEmpty(d) == d <==> NoEmptyLeaf(d)
    decreases d
  {
    var children := d.children;
    var kept := WithoutEmpty(d).children;
    if kept == children {
      forall k | k in children ensures NoEmptyLeaf(children[k]) {
        assert k in kept && children[k] != Leaf("") && kept[k] == WithoutEmpty(children[k]);
        if children[k].Dict? {
          WithoutEmptyIff(children[k]);
        }
      }
    }
    if NoEmptyLeaf(d) {
      forall k | k in children ensures children[k] != Leaf("") && WithoutEmpty(children[k]) == children[k] {
        assert NoEmptyLeaf(children[k]);
        if children[k].Dict? {
          WithoutEmptyIff(children[k]);
        }
      }
      assert forall k :: k in children ==> k in kept && kept[k] == WithoutEmpty(children[k]);
      assert kept == children;
    }
  }

  lemma HoldsChild(s: Storage, p: Parts, children: map<string, Data>, k: string)
    requires Holds(s, p, Dict(children)) && k in children
    ensures Holds(s, p + [k], children[k])
  {
    forall q | p + [k] <= q ensures Lookup(s, q) == At(children[k], q[|p + [k]|..]) {
      assert p <= q && q[|p|] == k;
      assert q[|p|..][1..] == q[|p + [k]|..];
      assert Lookup(s, q) == At(Dict(children), q[|p|..]);
    }
  }

  // ---------------------------------------------------------------- the two steps over the configured paths

  /** Configured paths: no one is the path of another or of an ancestor of another. */
  ghost predicate Separate(paths: seq<string>) {
    forall i, j :: 0 <= i < |paths| && 0 <= j < |paths| && i != j ==> !(ParsePath(paths[i]) <= ParsePath(paths[j]))
  }

  ghost predicate AllVacant(s: Storage, paths: seq<string>, from: nat) {
    forall i :: from <= i < |paths| ==> Vacant(s, ParsePath(paths[i]))
  }

  /** The first n configured paths hold their data, or nothing where there is no data. */
  ghost predicate HoldsAll(s: Storage, paths: seq<string>, data: map<string, Data>, n: nat)
    requires n <= |paths|
  {
    forall i :: 0 <= i < n ==>
      if paths[i] in data then Holds(s, ParsePath(paths[i]), data[paths[i]]) else Vacant(s, ParsePath(paths[i]))
  }

  lemma OutsideHolds(s: Storage, t: Storage, p: Parts, r: Parts, d: Data)
    requires OnlyBelow(s, t, p) && !(p <= r) && !(r <= p)
    ensures Holds(s, r, d) ==> Holds(t, r, d)
    ensures Vacant(s, r) ==> Vacant(t, r)
  {
    forall q | r <= q ensures Lookup(t, q) == Lookup(s, q) {
      Incomparable(p, r, q);
    }
    if Holds(s, r, d) {
      forall q | r <= q ensures Lookup(t, q) == At(d, q[|r|..]) {
        assert Lookup(t, q) == Lookup(s, q);
      }
    }
    if Vacant(s, r) {
      forall q | q in t ensures !(r <= q) {
        assert r <= q ==> Lookup(t, q) == Lookup(s, q);
      }
    }
  }

  /** Below r there is neither p, nor anything below p, nor an ancestor of p. */
  lemma Incomparable(p: Parts, r: Parts, q: Parts)
    requires !(p <= r) && !(r <= p) && r <= q
    ensures !(p <= q) && q !in Ancestors(p)
  {
  }

  /** There is data for the path that makes a node, and a node is there already. */
  ghost predicate Blocked(s: Storage, paths: seq<string>, data: map<string, Data>, i: nat)
    requires i < |paths|
  {
    paths[i] in data && data[paths[i]] != Leaf("") && ParsePath(paths[i]) in s
  }

  /** What is at the configured paths from i on is what was there. */
  ghost predicate SameFrom(s: Storage, s0: Storage, paths: seq<string>, i: nat) {
    forall j :: i <= j < |paths| ==> (ParsePath(paths[j]) in s <==> ParsePath(paths[j]) in s0)
  }

  /** Restores path after path; with separate paths it fails exactly when one is blocked, and on vacant
      paths all hold their data in the end. */
  method RestoreData(zk: FakeZooKeeper, paths: seq<string>, data: map<string, Data>) returns (error: Option<ZkError>)
    requires zk.Valid() && forall i :: 0 <= i < |paths| ==> NoTrailingSlash(paths[i])
    requires forall k :: k in data ==> GoodKeys(data[k])
    modifies zk
    ensures zk.Valid()
    ensures Separate(paths) ==> (error.Some? <==> exists i :: 0 <= i < |paths| && Blocked(old(zk.storage), paths, data, i))
    ensures Separate(paths) && AllVacant(old(zk.storage), paths, 0) ==>
      error.None? && HoldsAll(zk.storage, paths, data, |paths|)
  {
    ghost var vacant := AllVacant(zk.storage, paths, 0);
    for i := 0 to |paths|
      invariant zk.Valid()
      invariant Separate(paths) ==> SameFrom(zk.storage, old(zk.storage), paths, i)
      invariant Separate(paths) ==> forall j :: 0 <= j < i ==> !Blocked(old(zk.storage), paths, data, j)
      invariant Separate(paths) && vacant ==> HoldsAll(zk.storage, paths, data, i) && AllVacant(zk.storage, paths, i)
    {
      ghost var before := zk.storage;
      if paths[i] in data {
        error := RestoreNode(zk, paths[i], data[paths[i]]);
        if error.Some? {
          assert Separate(paths) ==> Blocked(old(zk.storage), paths, data, i);
          return;
        }
        if Separate(paths) {
          SameBeyond(before, zk.storage, old(zk.storage), paths, data, i);
          if vacant {
            assert ParsePath(paths[i]) <= ParsePath(paths[i]);
            PathRestored(before, zk.storage, paths, data, i);
          }
        }
      }
    }
    error := None;
  }

  lemma SameBeyond(s: Storage, t: Storage, s0: Storage, paths: seq<string>, data: map<string, Data>, i: nat)
    requires Separate(paths) && i < |paths| && paths[i] in data && SameFrom(s, s0, paths, i)
    requires ParsePath(paths[i]) !in s ==> OnlyBelow(s, t, ParsePath(paths[i]))
    requires ParsePath(paths[i]) in s ==> t == s
    ensures SameFrom(t, s0, paths, i + 1)
  {
    forall j | i + 1 <= j < |paths| ensures ParsePath(paths[j]) in t <==> ParsePath(paths[j]) in s0 {
      var p, r := ParsePath(paths[i]), ParsePath(paths[j]);
      assert !(p <= r) && !(r <= p);
      Incomparable(p, r, r);
    }
  }

  lemma PathRestored(s: Storage, t: Storage, paths: seq<string>, data: map<string, Data>, i: nat)
    requires Separate(paths) && i < |paths| && paths[i] in data
    requires HoldsAll(s, paths, data, i) && AllVacant(s, paths, i)
    requires Holds(t, ParsePath(paths[i]), data[paths[i]]) && OnlyBelow(s, t, ParsePath(paths[i]))
    ensures HoldsAll(t, paths, data, i + 1) && AllVacant(t, paths, i + 1)
  {
    forall j | 0 <= j < |paths| && j != i
      ensures (j < i && paths[j] in data ==> Holds(t, ParsePath(paths[j]), data[paths[j]]))
           && ((j < i && paths[j] !in data) || j > i ==> Vacant(t, ParsePath(paths[j])))
    {
      OutsideHolds(s, t, ParsePath(paths[i]), ParsePath(paths[j]), if paths[j] in data then data[paths[j]] else Leaf(""));
    }
  }

  method RetrieveData(zk: FakeZooKeeper, paths: seq<string>) returns (results: map<string, Data>)
    requires forall i :: 0 <= i < |paths| ==> NoTrailingSlash(paths[i]) && WellNamedBelow(zk.storage, ParsePath(paths[i]))
    ensures forall path :: path in results <==> path in paths && ParsePath(path) in zk.storage
    ensures forall path :: path in results ==> results[path] == Dict(ReadBelow(zk.storage, ParsePath(path)))
  {
    results := map[];
    for i := 0 to |paths|
      invariant forall path :: path in results <==> path in paths[..i] && ParsePath(path) in zk.storage
      invariant forall path :: path in results ==> results[path] == Dict(ReadBelow(zk.storage, ParsePath(path)))
    {
      PrefixStep(paths, i);
      var exists_ := zk.Exists(paths[i]);
      if exists_ {
        var below := GetDataRecursively(zk, paths[i]);
        results := results[paths[i] := Dict(below)];
      }
    }
    assert paths[..|paths|] == paths;
  }

  /** What retrieval finds where `d` was restored: a dictionary without its empty leaves, and for a bare
      text, which retrieval reads as a node without children, an empty dictionary. */
  ghost function ReadsAs(d: Data): Data {
    if d.Dict? then WithoutEmpty(d) else Dict(map[])
  }

  lemma PathReads(s: Storage, p: Parts, d: Data)
    requires Holds(s, p, d)
    ensures p in s <==> d != Leaf("")
    ensures d != Leaf("") ==> Dict(ReadBelow(s, p)) == ReadsAs(d)
  {
    assert Lookup(s, p) == At(d, p[|p|..]);
    if d.Dict? {
      ReadBack(s, p, d);
    } else if d != Leaf("") {
      forall k ensures k !in ChildNames(s, p) {
        ChildNamesAre(s, p, k);
        assert Lookup(s, p + [k]) == At(d, (p + [k])[|p|..]);
      }
      assert ReadBelow(s, p) == map[];
    }
  }

  /** What is retrieved after `data` was restored at vacant paths. */
  ghost function Retrieved(paths: seq<string>, data: map<string, Data>): map<string, Data> {
    map path | path in data && path in paths && data[path] != Leaf("") :: ReadsAs(data[path])
  }

  /** Retrieving what was restored, path by path. */
  lemma RetrieveAfterRestore(s: Storage, paths: seq<string>, data: map<string, Data>, results: map<string, Data>)
    requires HoldsAll(s, paths, data, |paths|)
    requires forall path :: path in results <==> path in paths && ParsePath(path) in s
    requires forall path :: path in results ==> results[path] == Dict(ReadBelow(s, ParsePath(path)))
    ensures results == Retrieved(paths, data)
  {
    forall path | path in paths
      ensures path in results <==> path in Retrieved(paths, data)
      ensures path in results ==> results[path] == Retrieved(paths, data)[path]
    {
      var i :| 0 <= i < |paths| && paths[i] == path;
      var p := ParsePath(path);
      if path in data {
        PathReads(s, p, data[path]);
      } else {
        assert Vacant(s, p);
        assert p <= p;
      }
    }
  }

  /** Restore, then retrieve: every dictionary comes back without its empty leaves. */
  method RestoreThenRetrieve(zk: FakeZooKeeper, paths: seq<string>, data: map<string, Data>) returns (results: map<string, Data>)
    requires zk.Valid() && Separate(paths) && AllVacant(zk.storage, paths, 0)
    requires forall i :: 0 <= i < |paths| ==> NoTrailingSlash(paths[i])
    requires forall k :: k in data ==> GoodKeys(data[k])
    modifies zk
    ensures results == Retrieved(paths, data)
    ensures (forall path :: path in data ==> path in paths && data[path].Dict? && NoEmptyLeaf(data[path])) ==> results == data
  {
    var error := RestoreData(zk, paths, data);
    forall i | 0 <= i < |paths| ensures WellNamedBelow(zk.storage, ParsePath(paths[i])) {
      if paths[i] in data {
        HeldIsWellNamed(zk.storage, ParsePath(paths[i]), data[paths[i]]);
      }
    }
    results := RetrieveData(zk, paths);
    RetrieveAfterRestore(zk.storage, paths, data, results);
    if forall path :: path in data ==> path in paths && data[path].Dict? && NoEmptyLeaf(data[path]) {
      forall path | path in data ensures ReadsAs(data[path]) == data[path] {
        WithoutEmptyIff(data[path]);
      }
    }
  }

  /** A restored dictionary reads back as itself exactly when it has no empty leaf. */
  lemma ReadBackIff(s: Storage, p: Parts, d: Data)
    requires d.Dict? && Holds(s, p, d)
    ensures p in s && (Dict(ReadBelow(s, p)) == d <==> NoEmptyLeaf(d))
  {
    ReadBack(s, p, d);
    WithoutEmptyIff(d);
  }

  /** An empty leaf makes no node, so its key is not there any more. */
  lemma EmptyLeafVanishes(s: Storage, p: Parts)
    requires Holds(s, p, Dict(map["a" := Leaf(""), "b" := Leaf("x")]))
    ensures p in s && ReadBelow(s, p) == map["b" := Leaf("x")]
  {
    var d := Dict(map["a" := Leaf(""), "b" := Leaf("x")]);
    ReadBack(s, p, d);
    assert WithoutEmpty(d).children == map["b" := Leaf("x")];
  }

  lemma {:induction false} PlacedNamesAreGood(d: Data, suffix: Parts, i: nat)
    requires GoodKeys(d) && At(d, suffix).Some? && i < |suffix|
    ensures NodeName(suffix[i])
    decreases |suffix|
  {
    if i > 0 {
      PlacedNamesAreGood(d.children[suffix[0]], suffix[1..], i - 1);
    }
  }

  /** A subtree that holds data with good keys can be read. */
  lemma HeldIsWellNamed(s: Storage, p: Parts, d: Data)
    requires Holds(s, p, d) && GoodKeys(d)
    ensures WellNamedBelow(s, p)
  {
    forall q, i | q in s && p <= q && |p| <= i < |q| ensures NodeName(q[i]) {
      assert Lookup(s, q) == At(d, q[|p|..]);
      PlacedNamesAreGood(d, q[|p|..], i - |p|);
    }
  }
}
