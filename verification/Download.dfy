/** Restore of a node's files from object storage into a directory that may already hold files. */
module Download {
  import opened Basics
  import opened Escaping
  import opened SnapshotTable
  import opened Progress

  type Directory = map<string, SourceFile>
  type Store = map<string, Bytes>

  /** These are the bytes the manifest means: those with the digest, or those it carries itself. */
  ghost predicate RightBytes(cfg: Config, f: SnapshotFile, content: Bytes) {
    if f.hexdigest != "" then cfg.hash(content) == f.hexdigest
    else f.contentB64.Some? && content == cfg.decode(f.contentB64.value)
  }

  ghost predicate DistinctPaths(files: seq<SnapshotFile>) {
    forall i, j :: 0 <= i < j < |files| ==> files[i].relativePath != files[j].relativePath
  }

  /** One digest means one size. */
  ghost predicate SizesMatch(files: seq<SnapshotFile>) {
    forall f, g :: f in files && g in files && f.hexdigest == g.hexdigest != "" ==> f.fileSize == g.fileSize
  }

  /** The store holds each digest's true bytes. */
  ghost predicate TrueBytes(cfg: Config, store: Store) {
    forall d :: d in store ==> cfg.hash(store[d]) == d
  }

  predicate EqualsExcludingMtime(a: SnapshotFile, b: SnapshotFile) {
    a.relativePath == b.relativePath && a.fileSize == b.fileSize && a.hexdigest == b.hexdigest && a.contentB64 == b.contentB64
  }

  predicate AlreadyExists(table: Table, f: SnapshotFile) {
    f.relativePath in table && EqualsExcludingMtime(table[f.relativePath], f)
  }

  /** The file is believed to be there, or can be fetched or decoded. */
  predicate Available(store: Store, table: Table, f: SnapshotFile) {
    AlreadyExists(table, f) || (if f.hexdigest != "" then f.hexdigest in store else f.contentB64.Some?)
  }

  /** A file believed to be there is there, with the right bytes. */
  lemma ExistingHasRightBytes(cfg: Config, listed: set<string>, dir: Directory, f: SnapshotFile)
    requires Sound(cfg) && listed <= dir.Keys && AlreadyExists(FromScratch(cfg, listed, dir), f)
    ensures Placed(cfg, dir, f)
  {
    var p := f.relativePath;
    assert FromScratch(cfg, listed, dir)[p] == FreshRow(cfg, p, dir[p]);
  }

  /** The old file would get the manifest's row, whatever its modification time. */
  ghost predicate Matches(cfg: Config, dir: Directory, f: SnapshotFile) {
    f.relativePath in dir && FreshRow(cfg, f.relativePath, dir[f.relativePath]).(mtimeNs := f.mtimeNs) == f
  }

  lemma ExistsIff(cfg: Config, listed: set<string>, dir: Directory, f: SnapshotFile)
    requires listed <= dir.Keys
    ensures AlreadyExists(FromScratch(cfg, listed, dir), f) <==> f.relativePath in listed && Matches(cfg, dir, f)
  {
    if f.relativePath in listed {
      assert FromScratch(cfg, listed, dir)[f.relativePath] == FreshRow(cfg, f.relativePath, dir[f.relativePath]);
    }
  }

  // ---------------------------------------------------------------- placing files

  ghost predicate Placed(cfg: Config, dir: Directory, f: SnapshotFile) {
    f.relativePath in dir && RightBytes(cfg, f, dir[f.relativePath].content)
  }

  ghost predicate SameAt(dir: Directory, dir0: Directory, p: string) {
    (p in dir <==> p in dir0) && (p in dir ==> dir[p] == dir0[p])
  }

  /** If the table says the file exists, it does. */
  ghost predicate Believable(cfg: Config, table: Table, dir: Directory, f: SnapshotFile) {
    AlreadyExists(table, f) ==> Placed(cfg, dir, f)
  }

  ghost predicate AllBelievable(cfg: Config, table: Table, dir: Directory, files: seq<SnapshotFile>) {
    forall f :: f in files ==> Believable(cfg, table, dir, f)
  }

  ghost function PathsOf(files: seq<SnapshotFile>): set<string> {
    set f | f in files :: f.relativePath
  }

  /** The file is placed: as it was, or with the manifest's modification time; certainly as it was if it was
      believed to be there. */
  ghost predicate Arrived(cfg: Config, table: Table, dir0: Directory, dir1: Directory, f: SnapshotFile) {
    && Placed(cfg, dir1, f)
    && (SameAt(dir1, dir0, f.relativePath) || (!AlreadyExists(table, f) && dir1[f.relativePath].mtimeNs == f.mtimeNs))
  }

  /** All files of a list are placed and no path outside it changed. */
  ghost predicate AllDone(cfg: Config, table: Table, dir0: Directory, dir1: Directory, files: seq<SnapshotFile>) {
    && (forall f :: f in files ==> Arrived(cfg, table, dir0, dir1, f))
    && (forall p :: p !in PathsOf(files) ==> SameAt(dir1, dir0, p))
  }

  lemma DoneChains(cfg: Config, table: Table, d0: Directory, d1: Directory, d2: Directory, a: seq<SnapshotFile>, b: seq<SnapshotFile>)
    requires AllDone(cfg, table, d0, d1, a) && AllDone(cfg, table, d1, d2, b) && PathsOf(a) !! PathsOf(b)
    ensures AllDone(cfg, table, d0, d2, a + b)
  {
    forall f | f in a + b ensures Arrived(cfg, table, d0, d2, f) {
      if f in a {
        assert f.relativePath in PathsOf(a);
        assert SameAt(d2, d1, f.relativePath);
      } else {
        assert f.relativePath in PathsOf(b);
        assert SameAt(d1, d0, f.relativePath);
      }
    }
    assert PathsOf(a + b) == PathsOf(a) + PathsOf(b);
    forall p | p !in PathsOf(a + b) ensures SameAt(d2, d0, p) {
      assert SameAt(d2, d1, p) && SameAt(d1, d0, p);
    }
  }

  lemma NextIsNew(files: seq<SnapshotFile>, i: nat)
    requires DistinctPaths(files) && i < |files|
    ensures PathsOf(files[..i]) !! PathsOf([files[i]]) && files[..i + 1] == files[..i] + [files[i]]
  {
  }

  // ---------------------------------------------------------------- grouping by digest

  function WithDigest(files: seq<SnapshotFile>, d: string): seq<SnapshotFile> {
    if files == [] then []
    else
      var last := |files| - 1;
      WithDigest(files[..last], d) + if files[last].hexdigest == d then [files[last]] else []
  }

  function Digests(files: seq<SnapshotFile>): seq<string> {
    if files == [] then []
    else
      var last := |files| - 1;
      Digests(files[..last]) + if files[last].hexdigest != "" then [files[last].hexdigest] else []
  }

  lemma {:induction false} WithDigestElements(files: seq<SnapshotFile>, d: string)
    ensures forall f :: f in WithDigest(files, d) <==> f in files && f.hexdigest == d
  {
    if files == [] {
    } else {
      var last := |files| - 1;
      WithDigestElements(files[..last], d);
      assert files == files[..last] + [files[last]];
    }
  }

  lemma {:induction false} WithDigestDistinct(files: seq<SnapshotFile>, d: string)
    requires DistinctPaths(files)
    ensures DistinctPaths(WithDigest(files, d))
  {
    if files == [] {
    } else {
      var last := |files| - 1;
      WithDigestDistinct(files[..last], d);
      WithDigestElements(files[..last], d);
      forall f | f in WithDigest(files[..last], d) ensures f.relativePath != files[last].relativePath {
        var i :| 0 <= i < last && files[..last][i] == f;
      }
    }
  }

  lemma {:induction false} DigestsElements(files: seq<SnapshotFile>, d: string)
    ensures d in Digests(files) <==> d != "" && WithDigest(files, d) != []
  {
    if files != [] {
      DigestsElements(files[..|files| - 1], d);
    }
  }

  function Lookup(groups: map<string, seq<SnapshotFile>>, d: string): seq<SnapshotFile> {
    if d in groups then groups[d] else []
  }

  ghost predicate KeysGrouped(keys: seq<string>, present: set<string>, files: seq<SnapshotFile>) {
    keys == FirstSeen(Digests(files)) && present == Elements(keys)
  }

  ghost predicate FilesGrouped(groups: map<string, seq<SnapshotFile>>, files: seq<SnapshotFile>) {
    forall d :: d != "" ==> Lookup(groups, d) == WithDigest(files, d)
  }

  lemma KeysStep(keys: seq<string>, present: set<string>, files: seq<SnapshotFile>, f: SnapshotFile)
    requires KeysGrouped(keys, present, files)
    ensures f.hexdigest == "" ==> KeysGrouped(keys, present, files + [f])
    ensures f.hexdigest != "" ==>
      KeysGrouped(if f.hexdigest in present then keys else keys + [f.hexdigest], present + {f.hexdigest}, files + [f])
  {
    var now := files + [f];
    assert now[..|files|] == files;
    var ds := Digests(now);
    if f.hexdigest == "" {
      assert ds == Digests(files);
    } else {
      assert ds[..|ds| - 1] == Digests(files);
      assert Elements(keys + [f.hexdigest]) == Elements(keys) + {f.hexdigest};
    }
  }

  lemma FilesStep(groups: map<string, seq<SnapshotFile>>, files: seq<SnapshotFile>, f: SnapshotFile)
    requires FilesGrouped(groups, files)
    ensures f.hexdigest == "" ==> FilesGrouped(groups, files + [f])
    ensures f.hexdigest != "" ==> FilesGrouped(groups[f.hexdigest := Lookup(groups, f.hexdigest) + [f]], files + [f])
  {
    var now := files + [f];
    assert now[..|files|] == files;
    forall d ensures WithDigest(now, d) == WithDigest(files, d) + if d == f.hexdigest then [f] else [] {
    }
  }

  ghost predicate Grouped(keys: seq<string>, groups: map<string, seq<SnapshotFile>>, files: seq<SnapshotFile>) {
    KeysGrouped(keys, groups.Keys, files) && FilesGrouped(groups, files)
  }

  lemma GroupedStep(keys: seq<string>, groups: map<string, seq<SnapshotFile>>, files: seq<SnapshotFile>, i: nat)
    requires i < |files| && Grouped(keys, groups, files[..i])
    ensures var d := files[i].hexdigest;
      if d == "" then Grouped(keys, groups, files[..i + 1])
      else Grouped(if d in groups then keys else keys + [d], groups[d := Lookup(groups, d) + [files[i]]], files[..i + 1])
  {
    assert files[..i + 1] == files[..i] + [files[i]];
    KeysStep(keys, groups.Keys, files[..i], files[i]);
    FilesStep(groups, files[..i], files[i]);
    var d := files[i].hexdigest;
    assert groups[d := Lookup(groups, d) + [files[i]]].Keys == groups.Keys + {d};
  }

  /** The dictionary from digest to the files that have it, with its insertion order. */
  method GroupByDigest(files: seq<SnapshotFile>) returns (keys: seq<string>, groups: map<string, seq<SnapshotFile>>)
    ensures Grouped(keys, groups, files)
  {
    keys, groups := [], map[];
    for i := 0 to |files|
      invariant Grouped(keys, groups, files[..i])
    {
      GroupedStep(keys, groups, files, i);
      var d := files[i].hexdigest;
      if d != "" {
        keys, groups := if d in groups then keys else keys + [d], groups[d := Lookup(groups, d) + [files[i]]];
      }
    }
    assert files[..|files|] == files;
  }

  // ---------------------------------------------------------------- progress arithmetic

  function Weight(files: seq<SnapshotFile>): nat {
    if files == [] then 0 else Weight(files[..|files| - 1]) + files[|files| - 1].fileSize + 1
  }

  /** What the embedded files and the groups of these digests weigh together. */
  function WeightOf(files: seq<SnapshotFile>, keys: seq<string>): nat {
    if keys == [] then Weight(WithDigest(files, ""))
    else WeightOf(files, keys[..|keys| - 1]) + Weight(WithDigest(files, keys[|keys| - 1]))
  }

  lemma {:induction false} WeightStep(files: seq<SnapshotFile>, f: SnapshotFile, keys: seq<string>)
    requires Distinct(keys) && "" !in keys
    ensures WeightOf(files + [f], keys) ==
      WeightOf(files, keys) + if f.hexdigest == "" || f.hexdigest in keys then f.fileSize + 1 else 0
  {
    if keys == [] {
      GroupWeightStep(files, f, "");
    } else {
      var last := |keys| - 1;
      WeightStep(files, f, keys[..last]);
      GroupWeightStep(files, f, keys[last]);
      assert keys == keys[..last] + [keys[last]];
    }
  }

  lemma GroupWeightStep(files: seq<SnapshotFile>, f: SnapshotFile, d: string)
    ensures Weight(WithDigest(files + [f], d)) == Weight(WithDigest(files, d)) + if d == f.hexdigest then f.fileSize + 1 else 0
  {
    assert (files + [f])[..|files|] == files;
    WeightAppend(WithDigest(files, d), f);
    assert WithDigest(files, d) + [] == WithDigest(files, d);
  }

  lemma WeightAppend(files: seq<SnapshotFile>, f: SnapshotFile)
    ensures Weight(files + [f]) == Weight(files) + f.fileSize + 1
  {
    assert (files + [f])[..|files|] == files;
  }

  /** All groups and the embedded files together weigh as much as all files. */
  lemma {:induction false} GroupsWeighAll(files: seq<SnapshotFile>, keys: seq<string>)
    requires Distinct(keys) && "" !in keys
    requires forall f :: f in files && f.hexdigest != "" ==> f.hexdigest in keys
    ensures WeightOf(files, keys) == Weight(files)
    decreases |files| + |keys|
  {
    if files == [] {
      if keys != [] {
        GroupsWeighAll(files, keys[..|keys| - 1]);
      }
    } else {
      var last := |files| - 1;
      assert files == files[..last] + [files[last]];
      GroupsWeighAll(files[..last], keys);
      WeightStep(files[..last], files[last], keys);
    }
  }

  lemma {:induction false} WeightOfPrefix(files: seq<SnapshotFile>, keys: seq<string>, k: nat)
    requires k <= |keys|
    ensures WeightOf(files, keys[..k]) <= WeightOf(files, keys)
    ensures k < |keys| ==> WeightOf(files, keys[..k]) + Weight(WithDigest(files, keys[k])) <= WeightOf(files, keys)
    decreases |keys|
  {
    if k == |keys| {
      assert keys[..k] == keys;
    } else {
      var last := |keys| - 1;
      if k < last {
        WeightOfPrefix(files, keys[..last], k);
        assert keys[..last][..k] == keys[..k] && keys[..last][k] == keys[k];
      }
    }
  }

  lemma {:induction false} EqualSizesWeigh(group: seq<SnapshotFile>, size: nat)
    requires forall i :: 0 <= i < |group| ==> group[i].fileSize == size
    ensures Weight(group) == (size + 1) * |group|
  {
    if group == [] {
    } else {
      var last := |group| - 1;
      EqualSizesWeigh(group[..last], size);
      assert (size + 1) * last + (size + 1) == (size + 1) * (last + 1);
    }
  }

  lemma {:induction false} GroupWeighsLess(files: seq<SnapshotFile>, d: string)
    ensures Weight(WithDigest(files, d)) <= Weight(files)
  {
    if files == [] {
    } else {
      var last := |files| - 1;
      GroupWeighsLess(files[..last], d);
      assert files == files[..last] + [files[last]];
      GroupWeightStep(files[..last], files[last], d);
    }
  }

  lemma {:induction false} PrefixWeighsLess(files: seq<SnapshotFile>, i: nat)
    requires i <= |files|
    ensures Weight(files[..i]) <= Weight(files)
    decreases |files|
  {
    if i == |files| {
      assert files[..i] == files;
    } else {
      PrefixWeighsLess(files[..|files| - 1], i);
      assert files[..|files| - 1][..i] == files[..i];
    }
  }

  /** The next embedded file adds its weight and stays within the total. */
  lemma EmbeddedWeight(files: seq<SnapshotFile>, i: nat)
    requires i < |files| && files[i].hexdigest == ""
    ensures Weight(WithDigest(files[..i + 1], "")) == Weight(WithDigest(files[..i], "")) + files[i].fileSize + 1
    ensures Weight(WithDigest(files[..i + 1], "")) <= Weight(files)
  {
    assert files[..i + 1] == files[..i] + [files[i]];
    GroupWeightStep(files[..i], files[i], "");
    GroupWeighsLess(files[..i + 1], "");
    PrefixWeighsLess(files, i + 1);
  }

  // ---------------------------------------------------------------- groups one after another

  /** The embedded files, then the files of each digest in turn. */
  function Chain(files: seq<SnapshotFile>, keys: seq<string>): seq<SnapshotFile> {
    if keys == [] then WithDigest(files, "")
    else Chain(files, keys[..|keys| - 1]) + WithDigest(files, keys[|keys| - 1])
  }

  lemma {:induction false} ChainElements(files: seq<SnapshotFile>, keys: seq<string>)
    ensures forall f :: f in Chain(files, keys) <==> f in files && (f.hexdigest == "" || f.hexdigest in keys)
  {
    if keys == [] {
      WithDigestElements(files, "");
    } else {
      var last := |keys| - 1;
      ChainElements(files, keys[..last]);
      WithDigestElements(files, keys[last]);
      assert keys == keys[..last] + [keys[last]];
    }
  }

  lemma SamePathSameFile(files: seq<SnapshotFile>, f: SnapshotFile, g: SnapshotFile)
    requires DistinctPaths(files) && f in files && g in files && f.relativePath == g.relativePath
    ensures f == g
  {
  }

  /** A file that the chain leaves out has a path that the chain leaves out. */
  lemma OutsideChain(files: seq<SnapshotFile>, ran: seq<string>, f: SnapshotFile)
    requires DistinctPaths(files) && f in files && f.hexdigest != "" && f.hexdigest !in ran
    ensures f.relativePath !in PathsOf(Chain(files, ran))
  {
    ChainElements(files, ran);
    if g :| g in Chain(files, ran) && g.relativePath == f.relativePath {
      SamePathSameFile(files, f, g);
      assert false;
    }
  }

  /** What one group needs, when the groups in `ran` have run and no other. */
  lemma GroupReady(cfg: Config, table: Table, dir0: Directory, dir1: Directory, files: seq<SnapshotFile>,
                   ran: seq<string>, d: string)
    requires DistinctPaths(files) && AllBelievable(cfg, table, dir0, files)
    requires AllDone(cfg, table, dir0, dir1, Chain(files, ran))
    requires d != "" && d !in ran
    ensures PathsOf(Chain(files, ran)) !! PathsOf(WithDigest(files, d))
    ensures CanRun(cfg, table, dir1, WithDigest(files, d), d)
  {
    var group := WithDigest(files, d);
    WithDigestElements(files, d);
    WithDigestDistinct(files, d);
    forall f | f in group
      ensures f.hexdigest == d && f.relativePath !in PathsOf(Chain(files, ran)) && Believable(cfg, table, dir1, f)
    {
      OutsideChain(files, ran, f);
      assert SameAt(dir1, dir0, f.relativePath);
    }
  }

  ghost predicate CanRun(cfg: Config, table: Table, dir: Directory, group: seq<SnapshotFile>, d: string) {
    && DistinctPaths(group)
    && forall i :: 0 <= i < |group| ==> group[i].hexdigest == d && Believable(cfg, table, dir, group[i])
  }

  /** Each listed file is in place or as it was; nothing else changed. */
  ghost predicate PartlyDone(cfg: Config, table: Table, dir0: Directory, dir1: Directory, files: seq<SnapshotFile>) {
    && (forall f :: f in files ==> SameAt(dir1, dir0, f.relativePath) || (Placed(cfg, dir1, f) && !AlreadyExists(table, f)))
    && (forall p :: p !in PathsOf(files) ==> SameAt(dir1, dir0, p))
  }

  /** Having placed some of the files is having placed a part. */
  lemma SomeIsPart(cfg: Config, table: Table, dir0: Directory, dir1: Directory, files: seq<SnapshotFile>, done: seq<SnapshotFile>)
    requires DistinctPaths(files) && AllDone(cfg, table, dir0, dir1, done) && forall f :: f in done ==> f in files
    ensures PartlyDone(cfg, table, dir0, dir1, files)
  {
    forall f | f in files ensures SameAt(dir1, dir0, f.relativePath) || (Placed(cfg, dir1, f) && !AlreadyExists(table, f)) {
      if f !in done {
        OutsideDone(files, done, f);
      }
    }
    assert PathsOf(done) <= PathsOf(files);
  }

  lemma OutsideDone(files: seq<SnapshotFile>, done: seq<SnapshotFile>, f: SnapshotFile)
    requires DistinctPaths(files) && f in files && f !in done && forall g :: g in done ==> g in files
    ensures f.relativePath !in PathsOf(done)
  {
    forall g | g in done ensures g.relativePath != f.relativePath {
      if g.relativePath == f.relativePath {
        SamePathSameFile(files, f, g);
        assert false;
      }
    }
  }

  lemma ChainIsPart(cfg: Config, table: Table, dir0: Directory, dir1: Directory, files: seq<SnapshotFile>, ran: seq<string>)
    requires DistinctPaths(files) && AllDone(cfg, table, dir0, dir1, Chain(files, ran))
    ensures PartlyDone(cfg, table, dir0, dir1, files)
  {
    ChainElements(files, ran);
    SomeIsPart(cfg, table, dir0, dir1, files, Chain(files, ran));
  }

  lemma ChainIsAll(cfg: Config, table: Table, dir0: Directory, dir1: Directory, files: seq<SnapshotFile>, ran: seq<string>)
    requires AllDone(cfg, table, dir0, dir1, Chain(files, ran)) && DigestsIn(files, ran)
    ensures AllDone(cfg, table, dir0, dir1, files)
  {
    ChainElements(files, ran);
    assert PathsOf(Chain(files, ran)) == PathsOf(files);
  }

  /** `keys` are the digests of these files, each once. */
  ghost predicate DigestsIn(files: seq<SnapshotFile>, keys: seq<string>) {
    && Distinct(keys) && "" !in keys
    && (forall f :: f in files && f.hexdigest != "" ==> f.hexdigest in keys)
    && (forall d :: d in keys ==> WithDigest(files, d) != [])
  }

  function FirstSize(groups: map<string, seq<SnapshotFile>>, d: string): nat {
    var group := Lookup(groups, d);
    if group == [] then 0 else group[0].fileSize
  }

  lemma SortedDigests(files: seq<SnapshotFile>, keys: seq<string>, groups: map<string, seq<SnapshotFile>>)
    requires Grouped(keys, groups, files)
    ensures var order := SortBy(keys, (a, b) => FirstSize(groups, a) >= FirstSize(groups, b));
      LargestFirst(files, order) && |order| == |keys|
  {
    var leq := (a, b) => FirstSize(groups, a) >= FirstSize(groups, b);
    DigestsSorted(files, keys, leq);
    SortBySorted(keys, leq);
    var order := SortBy(keys, leq);
    forall i, j | 0 <= i < j < |order| ensures WithDigest(files, order[i])[0].fileSize >= WithDigest(files, order[j])[0].fileSize {
      assert leq(order[i], order[j]);
      assert order[i] in order && order[j] in order;
      assert Lookup(groups, order[i]) == WithDigest(files, order[i]) && Lookup(groups, order[j]) == WithDigest(files, order[j]);
    }
  }

  lemma DigestsSorted(files: seq<SnapshotFile>, keys: seq<string>, leq: (string, string) -> bool)
    requires keys == FirstSeen(Digests(files))
    ensures DigestsIn(files, SortBy(keys, leq)) && |SortBy(keys, leq)| == |keys|
  {
    FirstSeenElements(Digests(files));
    SortByDistinct(keys, leq);
    SortByPermutes(keys, leq);
    forall d ensures d in keys <==> d != "" && WithDigest(files, d) != [] {
      DigestsElements(files, d);
    }
    forall f | f in files && f.hexdigest != "" ensures f.hexdigest in keys {
      WithDigestElements(files, f.hexdigest);
      assert f in WithDigest(files, f.hexdigest);
    }
  }

  /** The progress reported for one group. */
  function Amount(group: seq<SnapshotFile>): nat {
    if group == [] then 0 else (group[0].fileSize + 1) * |group|
  }

  lemma GroupWeight(files: seq<SnapshotFile>, d: string)
    requires SizesMatch(files) && d != "" && WithDigest(files, d) != []
    ensures Amount(WithDigest(files, d)) == Weight(WithDigest(files, d)) && Weight(WithDigest(files, d)) > 0
  {
    WithDigestElements(files, d);
    var group := WithDigest(files, d);
    assert group[0] in group;
    forall i | 0 <= i < |group| ensures group[i].fileSize == group[0].fileSize {
      assert group[i] in group;
    }
    EqualSizesWeigh(group, group[0].fileSize);
  }

  /** One more group has run. */
  lemma GroupRan(cfg: Config, table: Table, d0: Directory, d1: Directory, d2: Directory, files: seq<SnapshotFile>,
                 ran: seq<string>, d: string)
    requires AllDone(cfg, table, d0, d1, Chain(files, ran)) && AllDone(cfg, table, d1, d2, WithDigest(files, d))
    requires PathsOf(Chain(files, ran)) !! PathsOf(WithDigest(files, d))
    ensures AllDone(cfg, table, d0, d2, Chain(files, ran + [d]))
  {
    assert (ran + [d])[..|ran|] == ran;
    DoneChains(cfg, table, d0, d1, d2, Chain(files, ran), WithDigest(files, d));
  }

  // ---------------------------------------------------------------- the operation

  /** `Raised`: a file could neither be fetched nor decoded. */
  datatype Outcome = SnapshotFailed | Raised | Stopped | Completed

  /** Everything the download relies on. */
  ghost predicate Restorable(cfg: Config, store: Store, files: seq<SnapshotFile>) {
    Sound(cfg) && TrueBytes(cfg, store) && DistinctPaths(files) && SizesMatch(files)
  }

  /** A group can be had: its first file is there or its digest is stored. */
  ghost predicate GroupAvailable(store: Store, table: Table, files: seq<SnapshotFile>, d: string) {
    var group := WithDigest(files, d);
    group != [] && Available(store, table, group[0])
  }

  ghost predicate EmbeddedAvailable(store: Store, table: Table, files: seq<SnapshotFile>, n: nat) {
    forall i :: 0 <= i < n <= |files| && files[i].hexdigest == "" ==> Available(store, table, files[i])
  }

  ghost predicate GroupsAvailable(store: Store, table: Table, files: seq<SnapshotFile>, order: seq<string>, n: nat) {
    forall k :: 0 <= k < n <= |order| ==> GroupAvailable(store, table, files, order[k])
  }

  /** Everything that is to be fetched or decoded can be. */
  ghost predicate AllAvailable(store: Store, table: Table, files: seq<SnapshotFile>) {
    && EmbeddedAvailable(store, table, files, |files|)
    && forall d :: d in Digests(files) ==> GroupAvailable(store, table, files, d)
  }

  /** The file is there already, or its digest is stored, or the manifest carries its content. */
  ghost predicate ToBeHad(cfg: Config, store: Store, listed: set<string>, dir: Directory, f: SnapshotFile) {
    || (f.relativePath in listed && Matches(cfg, dir, f))
    || (if f.hexdigest != "" then f.hexdigest in store else f.contentB64.Some?)
  }

  /** This is so for every embedded file and for the first file of every digest. */
  ghost predicate AllToBeHad(cfg: Config, store: Store, listed: set<string>, dir: Directory, files: seq<SnapshotFile>) {
    forall i :: 0 <= i < |files| && (files[i].hexdigest == "" || NewDigest(files, i)) ==> ToBeHad(cfg, store, listed, dir, files[i])
  }

  /** No earlier file has this file's digest. */
  ghost predicate NewDigest(files: seq<SnapshotFile>, i: nat)
    requires i < |files|
  {
    forall j :: 0 <= j < i ==> files[j].hexdigest != files[i].hexdigest
  }

  /** The digests, each once, those of larger files first. */
  ghost predicate LargestFirst(files: seq<SnapshotFile>, order: seq<string>) {
    && DigestsIn(files, order)
    && forall i, j :: 0 <= i < j < |order| ==> WithDigest(files, order[i])[0].fileSize >= WithDigest(files, order[j])[0].fileSize
  }

  /** All files of the first n digests are in place. */
  ghost predicate PlacedUpTo(cfg: Config, dir: Directory, files: seq<SnapshotFile>, order: seq<string>, n: nat)
    requires n <= |order|
  {
    forall f :: f in files && f.hexdigest in order[..n] ==> Placed(cfg, dir, f)
  }

  class Downloader {
    var dst: Directory
    const store: Store
    const snapshotter: SQLiteSnapshotter

    constructor (dst: Directory, store: Store, snapshotter: SQLiteSnapshotter)
      ensures this.dst == dst && this.store == store && this.snapshotter == snapshotter
    {
      this.dst, this.store, this.snapshotter := dst, store, snapshotter;
    }

    /** Downloads or decodes one file unless it is believed to be there; fails without a trace. */
    method DownloadSnapshotfile(f: SnapshotFile) returns (ok: bool)
      requires TrueBytes(snapshotter.cfg, store) && Believable(snapshotter.cfg, snapshotter.table, dst, f)
      modifies this`dst
      ensures ok <==> Available(store, snapshotter.table, f)
      ensures ok ==> AllDone(snapshotter.cfg, snapshotter.table, old(dst), dst, [f])
      ensures !ok ==> dst == old(dst)
    {
      assert PathsOf([f]) == {f.relativePath} by { assert f in [f]; }
      if AlreadyExists(snapshotter.table, f) {
        return true;
      }
      var content;
      if f.hexdigest != "" {
        if f.hexdigest !in store {
          return false;
        }
        content := store[f.hexdigest];
      } else {
        if f.contentB64.None? {
          return false;
        }
        content := snapshotter.cfg.decode(f.contentB64.value);
      }
      dst := dst[f.relativePath := SourceFile(f.mtimeNs, content)];
      return true;
    }

    /** Copies a file already placed, for a second path with the same digest. */
    method CopySnapshotfile(from: SnapshotFile, f: SnapshotFile)
      requires Believable(snapshotter.cfg, snapshotter.table, dst, f)
      requires from.hexdigest == f.hexdigest != "" && Placed(snapshotter.cfg, dst, from)
      modifies this`dst
      ensures AllDone(snapshotter.cfg, snapshotter.table, old(dst), dst, [f])
    {
      assert PathsOf([f]) == {f.relativePath} by { assert f in [f]; }
      if AlreadyExists(snapshotter.table, f) {
        return;
      }
      dst := dst[f.relativePath := SourceFile(f.mtimeNs, dst[from.relativePath].content)];
    }

    /** One digest: the first file from storage, the others copied from it. */
    method DownloadSnapshotfilesFromStorage(group: seq<SnapshotFile>, ghost d: string) returns (ok: bool)
      requires TrueBytes(snapshotter.cfg, store)
      requires group != [] && d != "" && CanRun(snapshotter.cfg, snapshotter.table, dst, group, d)
      modifies this`dst
      ensures ok <==> Available(store, snapshotter.table, group[0])
      ensures ok ==> AllDone(snapshotter.cfg, snapshotter.table, old(dst), dst, group)
      ensures !ok ==> dst == old(dst)
    {
      ok := DownloadSnapshotfile(group[0]);
      if !ok {
        return;
      }
      assert [group[0]] == group[..1];
      for i := 1 to |group|
        invariant AllDone(snapshotter.cfg, snapshotter.table, old(dst), dst, group[..i])
      {
        NextIsNew(group, i);
        ghost var before := dst;
        assert SameAt(dst, old(dst), group[i].relativePath) by {
          assert group[i] in [group[i]];
          assert group[i].relativePath in PathsOf([group[i]]);
        }
        assert group[..i][0] in group[..i];
        CopySnapshotfile(group[0], group[i]);
        DoneChains(snapshotter.cfg, snapshotter.table, old(dst), before, dst, group[..i], [group[i]]);
      }
      assert group[..|group|] == group;
    }

    /** A file whose content the manifest itself carries, when those before it are done. */
    method PlaceEmbedded(files: seq<SnapshotFile>, i: nat, ghost dir0: Directory) returns (ok: bool)
      requires TrueBytes(snapshotter.cfg, store)
      requires i < |files| && files[i].hexdigest == "" && DistinctPaths(files)
      requires AllBelievable(snapshotter.cfg, snapshotter.table, dir0, files)
      requires AllDone(snapshotter.cfg, snapshotter.table, dir0, dst, WithDigest(files[..i], ""))
      modifies this`dst
      ensures ok <==> Available(store, snapshotter.table, files[i])
      ensures ok ==> AllDone(snapshotter.cfg, snapshotter.table, dir0, dst, WithDigest(files[..i + 1], ""))
      ensures !ok ==> dst == old(dst)
    {
      ghost var before := dst;
      NewEmbedded(files, i);
      StillBelievable(snapshotter.cfg, snapshotter.table, dir0, dst, WithDigest(files[..i], ""), files[i]);
      ok := DownloadSnapshotfile(files[i]);
      if ok {
        EmbeddedChains(snapshotter.cfg, snapshotter.table, dir0, before, dst, files, i);
      }
    }

    /** The same with its progress. */
    method DownloadEmbedded(files: seq<SnapshotFile>, i: nat, progress: Meter, ghost dir0: Directory) returns (ok: bool)
      requires TrueBytes(snapshotter.cfg, store)
      requires i < |files| && files[i].hexdigest == "" && DistinctPaths(files)
      requires AllBelievable(snapshotter.cfg, snapshotter.table, dir0, files)
      requires EmbeddedDone(snapshotter.cfg, snapshotter.table, dir0, dst, files, i, progress.Value())
      modifies this`dst, progress
      ensures ok <==> Available(store, snapshotter.table, files[i])
      ensures ok ==> EmbeddedDone(snapshotter.cfg, snapshotter.table, dir0, dst, files, i + 1, progress.Value())
      ensures !ok ==> EmbeddedDone(snapshotter.cfg, snapshotter.table, dir0, dst, files, i, progress.Value())
    {
      ghost var before, value := dst, progress.Value();
      EmbeddedRoom(snapshotter.cfg, snapshotter.table, dir0, before, files, i, value);
      ok := PlaceEmbedded(files, i, dir0);
      if ok {
        progress.AddSuccess(files[i].fileSize + 1);
        EmbeddedCounted(snapshotter.cfg, snapshotter.table, dir0, before, dst, files, i, value);
      }
    }

    /** One digest's files, when those of the digests in `ran` are done. */
    method RunGroup(files: seq<SnapshotFile>, groups: map<string, seq<SnapshotFile>>, ghost ran: seq<string>, d: string,
                    ghost dir0: Directory) returns (ok: bool)
      requires TrueBytes(snapshotter.cfg, store)
      requires DistinctPaths(files) && AllBelievable(snapshotter.cfg, snapshotter.table, dir0, files)
      requires FilesGrouped(groups, files)
      requires d != "" && d !in ran && WithDigest(files, d) != []
      requires AllDone(snapshotter.cfg, snapshotter.table, dir0, dst, Chain(files, ran))
      modifies this`dst
      ensures ok <==> GroupAvailable(store, snapshotter.table, files, d)
      ensures ok ==> AllDone(snapshotter.cfg, snapshotter.table, dir0, dst, Chain(files, ran + [d]))
      ensures !ok ==> dst == old(dst)
    {
      ghost var before := dst;
      assert Lookup(groups, d) == WithDigest(files, d);
      GroupReady(snapshotter.cfg, snapshotter.table, dir0, dst, files, ran, d);
      ok := DownloadSnapshotfilesFromStorage(Lookup(groups, d), d);
      if !ok {
        return;
      }
      GroupRan(snapshotter.cfg, snapshotter.table, dir0, before, dst, files, ran, d);
    }

    /** The next group in order, with its progress. */
    method AdvanceGroup(files: seq<SnapshotFile>, groups: map<string, seq<SnapshotFile>>, order: seq<string>, k: nat,
                        progress: Meter, ghost dir0: Directory) returns (ok: bool)
      requires TrueBytes(snapshotter.cfg, store)
      requires DistinctPaths(files) && SizesMatch(files)
      requires AllBelievable(snapshotter.cfg, snapshotter.table, dir0, files)
      requires FilesGrouped(groups, files) && DigestsIn(files, order) && k < |order|
      requires GroupsDone(snapshotter.cfg, snapshotter.table, dir0, dst, files, order, k, progress.Value())
      modifies this`dst, progress
      ensures ok <==> GroupAvailable(store, snapshotter.table, files, order[k])
      ensures ok ==> GroupsDone(snapshotter.cfg, snapshotter.table, dir0, dst, files, order, k + 1, progress.Value())
      ensures !ok ==> GroupsDone(snapshotter.cfg, snapshotter.table, dir0, dst, files, order, k, progress.Value())
    {
      PrefixStep(order, k);
      NextWeight(files, order, k);
      ok := RunGroup(files, groups, order[..k], order[k], dir0);
      if !ok {
        return;
      }
      GroupWeight(files, order[k]);
      assert Lookup(groups, order[k]) == WithDigest(files, order[k]);
      progress.AddSuccess(Amount(Lookup(groups, order[k])));
    }

    /** Groups in order, until one cannot be had or the callback says to stop after group `stopAfter`; the
        pool may then have run any later groups as well. */
    method DownloadGroups(files: seq<SnapshotFile>, groups: map<string, seq<SnapshotFile>>, order: seq<string>,
                          stopAfter: nat, ahead: set<nat>, progress: Meter, ghost dir0: Directory) returns (outcome: Outcome)
      requires TrueBytes(snapshotter.cfg, store)
      requires DistinctPaths(files) && SizesMatch(files)
      requires AllBelievable(snapshotter.cfg, snapshotter.table, dir0, files)
      requires FilesGrouped(groups, files) && DigestsIn(files, order)
      requires GroupsDone(snapshotter.cfg, snapshotter.table, dir0, dst, files, order, 0, progress.Value())
      modifies this`dst, progress
      ensures outcome.Completed? <==> |order| <= stopAfter && GroupsAvailable(store, snapshotter.table, files, order, |order|)
      ensures outcome.Completed? ==> GroupsDone(snapshotter.cfg, snapshotter.table, dir0, dst, files, order, |order|, progress.Value())
      ensures outcome.Stopped? <==> stopAfter < |order| && GroupsAvailable(store, snapshotter.table, files, order, stopAfter + 1)
      ensures !outcome.SnapshotFailed?
      ensures !outcome.Completed? ==> PartlyDone(snapshotter.cfg, snapshotter.table, dir0, dst, files)
      ensures !outcome.Completed? ==> progress.handled <= progress.total && !progress.final
      ensures outcome.Stopped? ==> PlacedUpTo(snapshotter.cfg, dst, files, order, stopAfter + 1)
    {
      for k := 0 to |order|
        invariant k <= stopAfter
        invariant GroupsAvailable(store, snapshotter.table, files, order, k)
        invariant GroupsDone(snapshotter.cfg, snapshotter.table, dir0, dst, files, order, k, progress.Value())
      {
        var ok := AdvanceGroup(files, groups, order, k, progress, dir0);
        PrefixWithin(order, k);
        if !ok {
          RunAhead(files, groups, order, order[..k], k + 1, ahead, dir0);
          assert progress.Value().handled <= progress.Value().total by { DoneIsBounded(files, order, k); }
          return Raised;
        }
        if k == stopAfter {
          RunAhead(files, groups, order, order[..k + 1], k + 1, ahead, dir0);
          ChainElements(files, order[..k + 1]);
          assert progress.Value().handled <= progress.Value().total by { DoneIsBounded(files, order, k + 1); }
          return Stopped;
        }
      }
      return Completed;
    }

    /** The later groups that the pool had already run, as far as they could be had. */
    method RunAhead(files: seq<SnapshotFile>, groups: map<string, seq<SnapshotFile>>, order: seq<string>, ghost before: seq<string>,
                    from: nat, ahead: set<nat>, ghost dir0: Directory)
      requires TrueBytes(snapshotter.cfg, store)
      requires DistinctPaths(files) && Within(before, order, from)
      requires AllBelievable(snapshotter.cfg, snapshotter.table, dir0, files)
      requires FilesGrouped(groups, files) && DigestsIn(files, order)
      requires AllDone(snapshotter.cfg, snapshotter.table, dir0, dst, Chain(files, before))
      modifies this`dst
      ensures PartlyDone(snapshotter.cfg, snapshotter.table, dir0, dst, files)
      ensures forall f :: f in Chain(files, before) ==> Placed(snapshotter.cfg, dst, f)
    {
      ghost var ran := before;
      for j := from to |order|
        invariant Within(ran, order, j) && forall d :: d in before ==> d in ran
        invariant AllDone(snapshotter.cfg, snapshotter.table, dir0, dst, Chain(files, ran))
      {
        WithinStep(ran, order, j);
        if j in ahead {
          var ok := RunGroup(files, groups, ran, order[j], dir0);
          ran := if ok then ran + [order[j]] else ran;
        }
      }
      ChainIsPart(snapshotter.cfg, snapshotter.table, dir0, dst, files, ran);
      ChainElements(files, before);
      ChainElements(files, ran);
    }

    /** Removes the tracked paths that are not listed. */
    method DeleteUnlisted(tracked: set<string>, valid: set<string>)
      modifies this`dst
      ensures dst == old(dst) - (tracked - valid)
    {
      var todo := tracked - valid;
      while todo != {}
        invariant todo <= tracked - valid
        invariant dst == old(dst) - (tracked - valid - todo)
        decreases todo
      {
        var p :| p in todo;
        dst := dst - {p};
        todo := todo - {p};
      }
    }

    /** The files that the manifest carries itself. */
    method DownloadAllEmbedded(files: seq<SnapshotFile>, progress: Meter) returns (ok: bool)
      requires TrueBytes(snapshotter.cfg, store)
      requires DistinctPaths(files) && AllBelievable(snapshotter.cfg, snapshotter.table, dst, files)
      requires progress.Value() == Counters(0, 0, Weight(files), false)
      modifies this`dst, progress
      ensures ok <==> EmbeddedAvailable(store, snapshotter.table, files, |files|)
      ensures ok ==> EmbeddedDone(snapshotter.cfg, snapshotter.table, old(dst), dst, files, |files|, progress.Value())
      ensures !ok ==> PartlyDone(snapshotter.cfg, snapshotter.table, old(dst), dst, files)
      ensures !ok ==> progress.handled <= progress.total && !progress.final
    {
      ghost var dir0 := dst;
      for i := 0 to |files|
        invariant EmbeddedAvailable(store, snapshotter.table, files, i)
        invariant EmbeddedDone(snapshotter.cfg, snapshotter.table, dir0, dst, files, i, progress.Value())
      {
        if files[i].hexdigest == "" {
          ok := DownloadEmbedded(files, i, progress, dir0);
          if !ok {
            EmbeddedIsPart(snapshotter.cfg, snapshotter.table, dir0, dst, files, i, progress.Value());
            return;
          }
        } else {
          SkipsHashed(snapshotter.cfg, snapshotter.table, dir0, dst, files, i, progress.Value());
        }
      }
      return true;
    }

    /** All listed files, embedded ones first, then digest by digest with the largest first. */
    method DownloadFiles(files: seq<SnapshotFile>, keys: seq<string>, groups: map<string, seq<SnapshotFile>>, stopAfter: nat,
                         ahead: set<nat>, progress: Meter) returns (outcome: Outcome, ghost order: seq<string>)
      requires TrueBytes(snapshotter.cfg, store)
      requires DistinctPaths(files) && SizesMatch(files)
      requires AllBelievable(snapshotter.cfg, snapshotter.table, dst, files)
      requires Grouped(keys, groups, files) && progress.Value() == Counters(0, 0, 0, false)
      modifies this`dst, progress
      ensures outcome.Completed? <==> |keys| <= stopAfter && AllAvailable(store, snapshotter.table, files)
      ensures LargestFirst(files, order) && |order| == |keys|
      ensures outcome.Stopped? ==> stopAfter < |order| && PlacedUpTo(snapshotter.cfg, dst, files, order, stopAfter + 1)
      ensures outcome.Raised? ==> !AllAvailable(store, snapshotter.table, files)
      ensures !outcome.SnapshotFailed?
      ensures outcome.Completed? ==> AllDone(snapshotter.cfg, snapshotter.table, old(dst), dst, files)
      ensures outcome.Completed? ==> progress.Value() == Counters(Weight(files), 0, Weight(files), false)
      ensures !outcome.Completed? ==> PartlyDone(snapshotter.cfg, snapshotter.table, old(dst), dst, files)
      ensures !outcome.Completed? ==> progress.handled <= progress.total && !progress.final
    {
      ghost var dir0 := dst;
      var sorted := SortBy(keys, (a, b) => FirstSize(groups, a) >= FirstSize(groups, b));
      SortedDigests(files, keys, groups);
      order := sorted;
      var total := TotalWeight(files);
      progress.Start(total);
      var ok := DownloadAllEmbedded(files, progress);
      if !ok {
        return Raised, order;
      }
      GroupsAvailableIff(store, snapshotter.table, files, order);
      EmbeddedThenGroups(snapshotter.cfg, snapshotter.table, dir0, dst, files, order, progress.Value());
      outcome := DownloadGroups(files, groups, sorted, stopAfter, ahead, progress, dir0);
      if outcome.Completed? {
        AllGroupsDone(snapshotter.cfg, snapshotter.table, dir0, dst, files, order, progress.Value());
      }
    }

    /** The whole download. `listed` are the paths the snapshotter matches in the directory;
        `stopAfter` is the first group after which the callback says to stop, `ahead` the groups the
        pool has run by then beyond it. */
    method DownloadFromStorage(files: seq<SnapshotFile>, listed: seq<string>, stopAfter: nat, ahead: set<nat>, progress: Meter)
      returns (outcome: Outcome, ghost order: seq<string>)
      requires Restorable(snapshotter.cfg, store, files) && Elements(listed) <= dst.Keys
      requires After(snapshotter.cfg, snapshotter.table, Elements(listed), dst) == FromScratch(snapshotter.cfg, Elements(listed), dst)
      requires progress.Value() == Counters(0, 0, 0, false)
      modifies this`dst, snapshotter, progress
      ensures outcome.SnapshotFailed? <==> Fails(snapshotter.cfg, old(snapshotter.table), Elements(listed), old(dst))
      ensures outcome.SnapshotFailed? ==> dst == old(dst) && progress.Value() == old(progress.Value())
      ensures !outcome.SnapshotFailed? ==> snapshotter.table == FromScratch(snapshotter.cfg, Elements(listed), old(dst))
      ensures forall f :: f in files && f.relativePath in listed && Matches(snapshotter.cfg, old(dst), f) ==>
        SameAt(dst, old(dst), f.relativePath)
      ensures !outcome.SnapshotFailed? ==> LargestFirst(files, order)
      ensures outcome.Completed? <==>
        && !outcome.SnapshotFailed? && |FirstSeen(Digests(files))| <= stopAfter
        && AllToBeHad(snapshotter.cfg, store, Elements(listed), old(dst), files)
      ensures outcome.Completed? ==> Restored(snapshotter.cfg, snapshotter.table, old(dst), dst, files, Elements(listed))
      ensures outcome.Completed? ==> progress.Value() == Counters(Weight(files), 0, Weight(files), true)
      ensures outcome.Stopped? ==>
        && stopAfter < |order| && PlacedUpTo(snapshotter.cfg, dst, files, order, stopAfter + 1)
        && progress.Value().FinishedFailed()
      ensures outcome.Raised? ==> !AllToBeHad(snapshotter.cfg, store, Elements(listed), old(dst), files) && !progress.final
      ensures outcome.Stopped? || outcome.Raised? ==> PartlyDone(snapshotter.cfg, snapshotter.table, old(dst), dst, files)
    {
      ghost var dir0 := dst;
      var keys, groups := GroupByDigest(files);
      var ok := snapshotter.PerformSnapshot(listed, dst);
      if !ok {
        return SnapshotFailed, [];
      }
      TableBelievable(snapshotter.cfg, Elements(listed), dir0, files);
      AvailableIff(snapshotter.cfg, store, Elements(listed), dir0, files);
      assert snapshotter.table.Keys == Elements(listed);
      outcome, order := DownloadFiles(files, keys, groups, stopAfter, ahead, progress);
      ghost var dir1 := dst;
      KeepsMatching(snapshotter.cfg, Elements(listed), dir0, dir1, files, outcome.Completed?);
      if outcome.Stopped? {
        progress.AddFail(1);
        progress.Done();
      }
      if !outcome.Completed? {
        return;
      }
      DeleteUnlisted(snapshotter.table.Keys, set f | f in files :: f.relativePath);
      DeletedRight(snapshotter.cfg, snapshotter.table, dir0, dir1, dst, files, Elements(listed));
      progress.Done();
    }
  }

  /** What the table believes, said of the directory the table was made from. */
  lemma AvailableIff(cfg: Config, store: Store, listed: set<string>, dir: Directory, files: seq<SnapshotFile>)
    requires listed <= dir.Keys
    ensures AllAvailable(store, FromScratch(cfg, listed, dir), files) <==> AllToBeHad(cfg, store, listed, dir, files)
  {
    var table := FromScratch(cfg, listed, dir);
    forall f ensures Available(store, table, f) <==> ToBeHad(cfg, store, listed, dir, f) {
      ExistsIff(cfg, listed, dir, f);
    }
    if AllToBeHad(cfg, store, listed, dir, files) {
      forall d | d in Digests(files) ensures GroupAvailable(store, table, files, d) {
        var i := GroupStarts(files, d);
        assert NewDigest(files, i);
      }
    }
    if AllAvailable(store, table, files) {
      forall i | 0 <= i < |files| && (files[i].hexdigest == "" || NewDigest(files, i)) ensures ToBeHad(cfg, store, listed, dir, files[i]) {
        if files[i].hexdigest != "" {
          FirstOfGroup(files, i);
          assert GroupAvailable(store, table, files, files[i].hexdigest);
        }
      }
    }
  }

  /** The first file with its digest is the first of its group. */
  lemma {:induction false} FirstOfGroup(files: seq<SnapshotFile>, i: nat)
    requires i < |files| && NewDigest(files, i) && files[i].hexdigest != ""
    ensures var d := files[i].hexdigest; d in Digests(files) && WithDigest(files, d) != [] && WithDigest(files, d)[0] == files[i]
    decreases |files|
  {
    var last, d := |files| - 1, files[i].hexdigest;
    DigestsElements(files, d);
    if i < last {
      FirstOfGroup(files[..last], i);
    } else {
      NoneWithDigest(files[..last], d);
    }
  }

  lemma {:induction false} NoneWithDigest(files: seq<SnapshotFile>, d: string)
    requires forall j :: 0 <= j < |files| ==> files[j].hexdigest != d
    ensures WithDigest(files, d) == []
  {
    if files != [] {
      NoneWithDigest(files[..|files| - 1], d);
    }
  }

  lemma {:induction false} GroupStarts(files: seq<SnapshotFile>, d: string) returns (i: nat)
    requires d in Digests(files)
    ensures i < |files| && files[i].hexdigest == d != "" && forall j :: 0 <= j < i ==> files[j].hexdigest != d
    ensures WithDigest(files, d) != [] && WithDigest(files, d)[0] == files[i]
  {
    var last := |files| - 1;
    DigestsElements(files, d);
    if d in Digests(files[..last]) {
      i := GroupStarts(files[..last], d);
    } else {
      i := last;
      DigestsElements(files[..last], d);
      WithDigestElements(files[..last], d);
      forall j | 0 <= j < last ensures files[j].hexdigest != d {
        assert files[..last][j] in files[..last];
      }
    }
  }

  /** A matching file is as it was. */
  lemma KeepsMatching(cfg: Config, listed: set<string>, dir0: Directory, dir1: Directory, files: seq<SnapshotFile>, all: bool)
    requires listed <= dir0.Keys
    requires all ==> AllDone(cfg, FromScratch(cfg, listed, dir0), dir0, dir1, files)
    requires !all ==> PartlyDone(cfg, FromScratch(cfg, listed, dir0), dir0, dir1, files)
    ensures forall f :: f in files && f.relativePath in listed && Matches(cfg, dir0, f) ==> SameAt(dir1, dir0, f.relativePath)
  {
    forall f | f in files && f.relativePath in listed && Matches(cfg, dir0, f) ensures SameAt(dir1, dir0, f.relativePath) {
      ExistsIff(cfg, listed, dir0, f);
    }
  }

  lemma EmbeddedIsPart(cfg: Config, table: Table, dir0: Directory, dir1: Directory, files: seq<SnapshotFile>, i: nat, value: Counters)
    requires i < |files| && DistinctPaths(files) && EmbeddedDone(cfg, table, dir0, dir1, files, i, value)
    ensures PartlyDone(cfg, table, dir0, dir1, files) && value.handled <= value.total
  {
    WithDigestElements(files[..i], "");
    SomeIsPart(cfg, table, dir0, dir1, files, WithDigest(files[..i], ""));
    GroupWeighsLess(files[..i], "");
    PrefixWeighsLess(files, i);
  }

  lemma GroupsAvailableIff(store: Store, table: Table, files: seq<SnapshotFile>, order: seq<string>)
    requires DigestsIn(files, order)
    ensures GroupsAvailable(store, table, files, order, |order|) <==> forall d :: d in Digests(files) ==> GroupAvailable(store, table, files, d)
  {
    forall d ensures d in order <==> d in Digests(files) {
      DigestsElements(files, d);
      WithDigestElements(files, d);
      if d in Digests(files) {
        var f := WithDigest(files, d)[0];
        assert f in WithDigest(files, d);
      }
    }
    if forall d :: d in Digests(files) ==> GroupAvailable(store, table, files, d) {
      forall k | 0 <= k < |order| ensures GroupAvailable(store, table, files, order[k]) {
        assert order[k] in order;
      }
    }
    if GroupsAvailable(store, table, files, order, |order|) {
      forall d | d in Digests(files) ensures GroupAvailable(store, table, files, d) {
        var k :| 0 <= k < |order| && order[k] == d;
      }
    }
  }

  /** Listed files have their bytes, tracked paths that are not listed are gone, all else is as it was. */
  ghost predicate Restored(cfg: Config, table: Table, dir0: Directory, dir1: Directory, files: seq<SnapshotFile>, tracked: set<string>) {
    && (forall f :: f in files ==> Arrived(cfg, table, dir0, dir1, f))
    && (forall p :: p !in PathsOf(files) ==> if p in tracked then p !in dir1 else SameAt(dir1, dir0, p))
  }

  lemma NewEmbedded(files: seq<SnapshotFile>, i: nat)
    requires DistinctPaths(files) && i < |files|
    ensures PathsOf(WithDigest(files[..i], "")) !! PathsOf([files[i]]) && files[i].relativePath !in PathsOf(WithDigest(files[..i], ""))
  {
    WithDigestElements(files[..i], "");
    assert PathsOf(WithDigest(files[..i], "")) <= PathsOf(files[..i]);
    NextIsNew(files, i);
    assert files[i] in [files[i]];
    assert files[i].relativePath in PathsOf([files[i]]);
  }

  lemma StillBelievable(cfg: Config, table: Table, dir0: Directory, dir1: Directory, done: seq<SnapshotFile>, f: SnapshotFile)
    requires AllDone(cfg, table, dir0, dir1, done) && Believable(cfg, table, dir0, f)
    requires f.relativePath !in PathsOf(done)
    ensures Believable(cfg, table, dir1, f)
  {
    assert SameAt(dir1, dir0, f.relativePath);
  }

  /** The embedded files among the first i files are in place and counted. */
  ghost predicate EmbeddedDone(cfg: Config, table: Table, dir0: Directory, dir1: Directory, files: seq<SnapshotFile>, i: nat, value: Counters)
    requires i <= |files|
  {
    && AllDone(cfg, table, dir0, dir1, WithDigest(files[..i], ""))
    && value == Counters(Weight(WithDigest(files[..i], "")), 0, Weight(files), false)
  }

  /** The embedded files and the first k groups are in place and counted. */
  ghost predicate GroupsDone(cfg: Config, table: Table, dir0: Directory, dir1: Directory, files: seq<SnapshotFile>, order: seq<string>, k: nat, value: Counters)
    requires k <= |order|
  {
    && AllDone(cfg, table, dir0, dir1, Chain(files, order[..k]))
    && value == Counters(WeightOf(files, order[..k]), 0, Weight(files), false)
  }

  lemma EmbeddedChains(cfg: Config, table: Table, d0: Directory, d1: Directory, d2: Directory, files: seq<SnapshotFile>, i: nat)
    requires i < |files| && files[i].hexdigest == "" && PathsOf(WithDigest(files[..i], "")) !! PathsOf([files[i]])
    requires AllDone(cfg, table, d0, d1, WithDigest(files[..i], "")) && AllDone(cfg, table, d1, d2, [files[i]])
    ensures AllDone(cfg, table, d0, d2, WithDigest(files[..i + 1], ""))
  {
    assert files[..i + 1][..i] == files[..i];
    DoneChains(cfg, table, d0, d1, d2, WithDigest(files[..i], ""), [files[i]]);
  }

  lemma EmbeddedRoom(cfg: Config, table: Table, dir0: Directory, dir1: Directory, files: seq<SnapshotFile>, i: nat, value: Counters)
    requires i < |files| && files[i].hexdigest == "" && EmbeddedDone(cfg, table, dir0, dir1, files, i, value)
    ensures AllDone(cfg, table, dir0, dir1, WithDigest(files[..i], ""))
    ensures !value.final && value.handled + files[i].fileSize + 1 <= value.total
  {
    EmbeddedWeight(files, i);
  }

  lemma EmbeddedCounted(cfg: Config, table: Table, dir0: Directory, dir1: Directory, dir2: Directory, files: seq<SnapshotFile>, i: nat, value: Counters)
    requires i < |files| && files[i].hexdigest == "" && EmbeddedDone(cfg, table, dir0, dir1, files, i, value)
    requires AllDone(cfg, table, dir0, dir2, WithDigest(files[..i + 1], ""))
    ensures EmbeddedDone(cfg, table, dir0, dir2, files, i + 1, value.(handled := value.handled + files[i].fileSize + 1))
  {
    EmbeddedWeight(files, i);
  }

  lemma SkipsHashed(cfg: Config, table: Table, dir0: Directory, dir1: Directory, files: seq<SnapshotFile>, i: nat, value: Counters)
    requires i < |files| && files[i].hexdigest != "" && EmbeddedDone(cfg, table, dir0, dir1, files, i, value)
    ensures EmbeddedDone(cfg, table, dir0, dir1, files, i + 1, value)
  {
    assert files[..i + 1][..i] == files[..i];
    assert WithDigest(files[..i], "") + [] == WithDigest(files[..i], "");
  }

  lemma EmbeddedThenGroups(cfg: Config, table: Table, dir0: Directory, dir1: Directory, files: seq<SnapshotFile>, order: seq<string>, value: Counters)
    requires EmbeddedDone(cfg, table, dir0, dir1, files, |files|, value)
    ensures GroupsDone(cfg, table, dir0, dir1, files, order, 0, value)
  {
    assert files[..|files|] == files;
  }

  lemma AllGroupsDone(cfg: Config, table: Table, dir0: Directory, dir1: Directory, files: seq<SnapshotFile>, order: seq<string>, value: Counters)
    requires GroupsDone(cfg, table, dir0, dir1, files, order, |order|, value) && DigestsIn(files, order)
    ensures AllDone(cfg, table, dir0, dir1, files) && value == Counters(Weight(files), 0, Weight(files), false)
  {
    assert order[..|order|] == order;
    ChainIsAll(cfg, table, dir0, dir1, files, order);
    GroupsWeighAll(files, order);
  }

  lemma DoneIsBounded(files: seq<SnapshotFile>, order: seq<string>, k: nat)
    requires k <= |order| && DigestsIn(files, order)
    ensures WeightOf(files, order[..k]) <= Weight(files)
  {
    GroupsWeighAll(files, order);
    WeightOfPrefix(files, order, k);
  }

  lemma NextWeight(files: seq<SnapshotFile>, order: seq<string>, k: nat)
    requires DigestsIn(files, order) && k < |order|
    ensures WeightOf(files, order[..k]) + Weight(WithDigest(files, order[k])) == WeightOf(files, order[..k + 1])
    ensures WeightOf(files, order[..k + 1]) <= Weight(files)
  {
    DoneIsBounded(files, order, k + 1);
    assert order[..k + 1][..k] == order[..k];
  }

  ghost predicate Within(ran: seq<string>, order: seq<string>, j: nat) {
    j <= |order| && forall d :: d in ran ==> d in order[..j]
  }

  lemma PrefixWithin(order: seq<string>, k: nat)
    requires k < |order|
    ensures Within(order[..k], order, k + 1) && Within(order[..k + 1], order, k + 1)
  {
    PrefixStep(order, k);
  }

  lemma WithinStep(ran: seq<string>, order: seq<string>, j: nat)
    requires Within(ran, order, j) && j < |order| && Distinct(order)
    ensures order[j] !in ran && Within(ran, order, j + 1) && Within(ran + [order[j]], order, j + 1)
  {
    PrefixStep(order, j);
  }

  method TotalWeight(files: seq<SnapshotFile>) returns (total: nat)
    ensures total == Weight(files)
  {
    total := 0;
    for i := 0 to |files|
      invariant total == Weight(files[..i])
    {
      assert files[..i + 1][..i] == files[..i];
      total := total + 1 + files[i].fileSize;
    }
    assert files[..|files|] == files;
  }

  /** After the snapshot every listed file that the table calls present is present. */
  lemma TableBelievable(cfg: Config, listed: set<string>, dir: Directory, files: seq<SnapshotFile>)
    requires Sound(cfg) && listed <= dir.Keys
    ensures AllBelievable(cfg, FromScratch(cfg, listed, dir), dir, files)
  {
    forall f | f in files ensures Believable(cfg, FromScratch(cfg, listed, dir), dir, f) {
      if AlreadyExists(FromScratch(cfg, listed, dir), f) {
        ExistingHasRightBytes(cfg, listed, dir, f);
      }
    }
  }

  lemma DeletedRight(cfg: Config, table: Table, dir0: Directory, dir1: Directory, dir2: Directory, files: seq<SnapshotFile>,
                     tracked: set<string>)
    requires AllDone(cfg, table, dir0, dir1, files) && dir2 == dir1 - (tracked - PathsOf(files))
    ensures Restored(cfg, table, dir0, dir2, files, tracked)
  {
    forall f | f in files ensures Arrived(cfg, table, dir0, dir2, f) {
      assert f.relativePath in PathsOf(files);
      assert Arrived(cfg, table, dir0, dir1, f);
    }
    forall p | p !in PathsOf(files) ensures if p in tracked then p !in dir2 else SameAt(dir2, dir0, p) {
      assert SameAt(dir1, dir0, p);
    }
  }

  /** Snapshot on one node and download on another: the files come out with the bytes they had. */
  lemma SnapshotThenDownload(cfg: Config, table: Table, listed: set<string>, src: Source, files: seq<SnapshotFile>,
                             dir0: Directory, dir1: Directory, tracked: set<string>)
    requires Sound(cfg) && listed <= src.Keys
    requires Elements(files) == FromScratch(cfg, listed, src).Values
    requires Restored(cfg, table, dir0, dir1, files, tracked)
    ensures forall p :: p in listed ==> p in dir1 && dir1[p].content == src[p].content
    ensures forall p :: p in tracked && p !in listed ==> p !in dir1
  {
    forall p | p in listed ensures p in dir1 && dir1[p].content == src[p].content {
      var row := FreshRow(cfg, p, src[p]);
      assert FromScratch(cfg, listed, src)[p] == row;
      assert row in Elements(files);
      assert Arrived(cfg, table, dir0, dir1, row);
    }
    RowsArePaths(cfg, listed, src, files);
  }

  lemma RowsArePaths(cfg: Config, listed: set<string>, src: Source, files: seq<SnapshotFile>)
    requires listed <= src.Keys && Elements(files) == FromScratch(cfg, listed, src).Values
    ensures PathsOf(files) <= listed
  {
    var table := FromScratch(cfg, listed, src);
    forall f | f in files ensures f.relativePath in listed {
      assert f in Elements(files);
      var q :| q in table && table[q] == f;
    }
  }

  // ---------------------------------------------------------------- the next snapshot

  /** The manifest's file has other bytes than the tracked file it meets, but the same size and modification
      time. */
  ghost predicate SilentlyReplaced(cfg: Config, dir0: Directory, dir1: Directory, f: SnapshotFile) {
    var p := f.relativePath;
    && p in dir0 && p in dir1 && dir0[p].mtimeNs == f.mtimeNs && |dir0[p].content| == |dir1[p].content|
    && !RightBytes(cfg, f, dir0[p].content)
  }

  lemma ReplacedIff(cfg: Config, table: Table, dir0: Directory, dir1: Directory, f: SnapshotFile)
    requires Sound(cfg) && Arrived(cfg, table, dir0, dir1, f) && f.relativePath in dir0
    ensures var p := f.relativePath;
      SilentlyReplaced(cfg, dir0, dir1, f) <==>
      SameUnderlyingFile(Stat(p, dir0[p]), Stat(p, dir1[p])) && dir0[p].content != dir1[p].content
  {
  }

  lemma RowTellsContent(cfg: Config, p: string, f: SourceFile, g: SourceFile)
    requires Sound(cfg) && SameUnderlyingFile(Stat(p, f), Stat(p, g))
    ensures FreshRow(cfg, p, f) == FreshRow(cfg, p, g) <==> f.content == g.content
  {
    assert cfg.decode(cfg.encode(f.content)) == f.content && cfg.decode(cfg.encode(g.content)) == g.content;
  }

  /** After a download the next incremental snapshot makes the table that a fresh one would make, exactly
      when no tracked file was replaced by one of equal size and modification time with other bytes. */
  lemma NextSnapshotIff(cfg: Config, dir0: Directory, dir1: Directory, files: seq<SnapshotFile>, listed: set<string>, next: set<string>)
    requires Sound(cfg) && listed <= dir0.Keys && next <= dir1.Keys && Restored(cfg, FromScratch(cfg, listed, dir0), dir0, dir1, files, listed)
    ensures After(cfg, FromScratch(cfg, listed, dir0), next, dir1) == FromScratch(cfg, next, dir1) <==>
      forall f :: f in files && f.relativePath in listed && f.relativePath in next ==> !SilentlyReplaced(cfg, dir0, dir1, f)
  {
    var table := FromScratch(cfg, listed, dir0);
    IncrementalIff(cfg, table, next, dir1);
    forall f | f in files && f.relativePath in listed && f.relativePath in next
      ensures SilentlyReplaced(cfg, dir0, dir1, f) <==> Misleads(cfg, table, dir1, f.relativePath)
    {
      TrackedFile(cfg, dir0, dir1, f, listed);
    }
    forall p | p in next && p in table ensures p in PathsOf(files) {
      assert p in listed && p in dir1;
    }
    if forall f :: f in files && f.relativePath in listed && f.relativePath in next ==> !SilentlyReplaced(cfg, dir0, dir1, f) {
      forall p | p in next && p in table ensures !Misleads(cfg, table, dir1, p) {
        var f :| f in files && f.relativePath == p;
      }
    }
  }

  /** The row looks unchanged but is not what reading the file gives. */
  ghost predicate Misleads(cfg: Config, table: Table, dir: Directory, p: string) {
    p in table && p in dir && !Stale(table, dir, p) && table[p] != FreshRow(cfg, p, dir[p])
  }

  lemma TrackedFile(cfg: Config, dir0: Directory, dir1: Directory, f: SnapshotFile, listed: set<string>)
    requires Sound(cfg) && listed <= dir0.Keys && Arrived(cfg, FromScratch(cfg, listed, dir0), dir0, dir1, f) && f.relativePath in listed
    ensures SilentlyReplaced(cfg, dir0, dir1, f) <==> Misleads(cfg, FromScratch(cfg, listed, dir0), dir1, f.relativePath)
  {
    var p := f.relativePath;
    assert FromScratch(cfg, listed, dir0)[p] == FreshRow(cfg, p, dir0[p]);
    ReplacedIff(cfg, FromScratch(cfg, listed, dir0), dir0, dir1, f);
    if SameUnderlyingFile(Stat(p, dir0[p]), Stat(p, dir1[p])) {
      RowTellsContent(cfg, p, dir0[p], dir1[p]);
    }
  }

  /** Such a replacement: one byte for another, at the same modification time. */
  lemma ReplacementGoesUnnoticed(cfg: Config, x: Bytes, y: Bytes, f: SnapshotFile)
    requires Sound(cfg) && x != y && |x| == |y|
    requires f == SnapshotFile("a", |y|, 7, cfg.hash(y), None)
    ensures var dir0, dir1: Directory := map["a" := SourceFile(7, x)], map["a" := SourceFile(7, y)];
      && Restored(cfg, FromScratch(cfg, {"a"}, dir0), dir0, dir1, [f], {"a"})
      && After(cfg, FromScratch(cfg, {"a"}, dir0), {"a"}, dir1) != FromScratch(cfg, {"a"}, dir1)
  {
    var dir0: Directory, dir1: Directory := map["a" := SourceFile(7, x)], map["a" := SourceFile(7, y)];
    assert PathsOf([f]) == {"a"} by { assert f in [f]; }
    assert Restored(cfg, FromScratch(cfg, {"a"}, dir0), dir0, dir1, [f], {"a"});
    assert f in [f] && SilentlyReplaced(cfg, dir0, dir1, f);
    NextSnapshotIff(cfg, dir0, dir1, [f], {"a"}, {"a"});
  }
}
