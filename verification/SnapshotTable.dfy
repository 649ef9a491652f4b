/** The node's table of snapshotted files, brought up to date incrementally from the source tree. */
module SnapshotTable {
  import opened Basics
  import opened Escaping

  datatype SnapshotFile = SnapshotFile(
    relativePath: string,
    fileSize: nat,
    mtimeNs: int,
    hexdigest: string,
    contentB64: Option<string>)

  datatype SourceFile = SourceFile(mtimeNs: int, content: Bytes)

  /** What stays fixed: the digest, base64, and for each path the size limits of the groups it matches. */
  datatype Config = Config(
    hash: Bytes -> string,
    encode: Bytes -> string,
    decode: string -> Bytes,
    limits: string -> seq<Option<int>>)

  /** The digest has no collisions and is never empty; base64 decodes to what was encoded. */
  ghost predicate Sound(cfg: Config) {
    && (forall x, y :: cfg.hash(x) == cfg.hash(y) ==> x == y)
    && (forall x :: cfg.hash(x) != "")
    && (forall x :: cfg.decode(cfg.encode(x)) == x)
  }

  type Table = map<string, SnapshotFile>
  type Source = map<string, SourceFile>

  // ---------------------------------------------------------------- one row

  /** The file matches no group, or its groups disagree about the size up to which it is embedded. */
  predicate Conflicts(cfg: Config, path: string) {
    var ms := cfg.limits(path);
    ms == [] || exists i :: 0 <= i < |ms| && ms[i] != ms[0]
  }

  predicate Embedded(cfg: Config, path: string, size: nat) {
    var ms := cfg.limits(path);
    ms != [] && (ms[0].None? || size <= ms[0].value)
  }

  function Stat(path: string, f: SourceFile): SnapshotFile {
    SnapshotFile(path, |f.content|, f.mtimeNs, "", None)
  }

  /** The row of a file whose digest or content is read now. */
  function FreshRow(cfg: Config, path: string, f: SourceFile): SnapshotFile {
    if Embedded(cfg, path, |f.content|) then Stat(path, f).(contentB64 := Some(cfg.encode(f.content)))
    else Stat(path, f).(hexdigest := cfg.hash(f.content))
  }

  predicate SameUnderlyingFile(a: SnapshotFile, b: SnapshotFile) {
    a.mtimeNs == b.mtimeNs && a.relativePath == b.relativePath && a.fileSize == b.fileSize
  }

  // ---------------------------------------------------------------- one snapshot

  /** The row is new or its file changed since the row was made. */
  predicate Stale(table: Table, src: Source, path: string)
    requires path in src
  {
    path !in table || !SameUnderlyingFile(table[path], Stat(path, src[path]))
  }

  /** The snapshot stops with an error: a file that has to be read has conflicting groups. */
  ghost predicate Fails(cfg: Config, table: Table, listed: set<string>, src: Source) {
    exists p :: p in listed && p in src && Stale(table, src, p) && Conflicts(cfg, p)
  }

  /** The table after an error-free snapshot; a listed file that has vanished keeps its old row. */
  function After(cfg: Config, table: Table, listed: set<string>, src: Source): Table {
    map p | p in listed && (p in src || p in table) ::
      if p in src && Stale(table, src, p) then FreshRow(cfg, p, src[p]) else table[p]
  }

  ghost function Step(cfg: Config, table: Table, listed: set<string>, src: Source): Table {
    if Fails(cfg, table, listed, src) then table else After(cfg, table, listed, src)
  }

  // ---------------------------------------------------------------- what a table tells

  /** The file has a row from the same path, size and modification time. */
  ghost predicate Unchanged(table: Table, src: Source, p: string)
    requires p in src
  {
    p in table && table[p].relativePath == p && table[p].fileSize == |src[p].content| && table[p].mtimeNs == src[p].mtimeNs
  }

  ghost predicate OneLimit(cfg: Config, p: string) {
    var ms := cfg.limits(p);
    ms != [] && forall i :: 0 <= i < |ms| ==> ms[i] == ms[0]
  }

  /** The row of a file read now: beyond its limit the digest and no content, otherwise the content and no
      digest. */
  ghost predicate TellsOf(cfg: Config, p: string, f: SourceFile, row: SnapshotFile) {
    && OneLimit(cfg, p)
    && row.relativePath == p && row.fileSize == |f.content| && row.mtimeNs == f.mtimeNs
    && var limit := cfg.limits(p)[0];
       if limit.Some? && |f.content| > limit.value then row.hexdigest == cfg.hash(f.content) && row.contentB64 == None
       else row.hexdigest == "" && row.contentB64 == Some(cfg.encode(f.content))
  }

  /** Listed files that are there have a row: the old one if they are unchanged, else one read now. A listed
      file that has vanished keeps its row, and no other row stays. */
  ghost predicate Tells(cfg: Config, before: Table, listed: set<string>, src: Source, after: Table) {
    && (forall p :: p in after <==> p in listed && (p in src || p in before))
    && (forall p :: p in after && p in src && !Unchanged(before, src, p) ==> TellsOf(cfg, p, src[p], after[p]))
    && (forall p :: p in after && (p in src ==> Unchanged(before, src, p)) ==> p in before && after[p] == before[p])
  }

  lemma AfterTells(cfg: Config, table: Table, listed: set<string>, src: Source)
    requires !Fails(cfg, table, listed, src)
    ensures Tells(cfg, table, listed, src, After(cfg, table, listed, src))
  {
    var after := After(cfg, table, listed, src);
    forall p | p in after && p in src ensures Unchanged(table, src, p) <==> !Stale(table, src, p) {
    }
    forall p | p in after && p in src && !Unchanged(table, src, p) ensures TellsOf(cfg, p, src[p], after[p]) {
      assert !Conflicts(cfg, p);
    }
  }

  lemma FailsIff(cfg: Config, table: Table, listed: set<string>, src: Source)
    ensures Fails(cfg, table, listed, src) <==>
      exists p :: p in listed && p in src && !Unchanged(table, src, p) && !OneLimit(cfg, p)
  {
    forall p | p in src ensures Unchanged(table, src, p) <==> !Stale(table, src, p) {
    }
    forall p ensures OneLimit(cfg, p) <==> !Conflicts(cfg, p) {
    }
  }

  /** No row made now carries more bytes than its file's limit allows, and what it carries is the file. */
  lemma EmbeddedIsSmall(cfg: Config, p: string, f: SourceFile, row: SnapshotFile)
    requires Sound(cfg) && TellsOf(cfg, p, f, row) && row.contentB64.Some?
    ensures cfg.decode(row.contentB64.value) == f.content
    ensures cfg.limits(p)[0].Some? ==> |f.content| <= cfg.limits(p)[0].value
  {
  }

  /** The pipeline, in the source's stages. */
  class SQLiteSnapshotter {
    var table: Table
    const cfg: Config

    constructor (cfg: Config)
      ensures table == map[] && this.cfg == cfg
    {
      this.cfg := cfg;
      table := map[];
    }

    /** Works on the table inside a transaction: an error leaves it as it was. */
    method PerformSnapshot(files: seq<string>, src: Source) returns (ok: bool)
      modifies this
      ensures ok <==> !Fails(cfg, old(table), Elements(files), src)
      ensures table == Step(cfg, old(table), Elements(files), src)
      ensures ok <==> forall p :: p in files && p in src ==> Unchanged(old(table), src, p) || OneLimit(cfg, p)
      ensures if ok then Tells(cfg, old(table), Elements(files), src, table) else table == old(table)
    {
      var kept := map p | p in table && p in files :: table[p];
      var newOrExisting := CompareCurrentSnapshot(kept, files);
      var forUpsert := CompareWithSrc(newOrExisting, src, kept, files);
      var withDigests;
      ok, withDigests := ComputeDigests(cfg, forUpsert, src);
      StaleRows(table, kept, files, src);
      FailsIff(cfg, table, Elements(files), src);
      if !ok {
        return;
      }
      var updated := Upsert(kept, withDigests);
      UpsertedIsAfter(cfg, table, kept, files, src, forUpsert, withDigests, updated);
      AfterTells(cfg, table, Elements(files), src);
      table := updated;
    }
  }

  /** Pairs every listed path with its row, if it has one. */
  method CompareCurrentSnapshot(kept: Table, files: seq<string>) returns (pairs: seq<(string, Option<SnapshotFile>)>)
    ensures |pairs| == |files|
    ensures forall i :: 0 <= i < |files| ==> pairs[i] == (files[i], if files[i] in kept then Some(kept[files[i]]) else None)
  {
    pairs := [];
    for i := 0 to |files|
      invariant |pairs| == i
      invariant forall j :: 0 <= j < i ==> pairs[j] == (files[j], if files[j] in kept then Some(kept[files[j]]) else None)
    {
      pairs := pairs + [(files[i], if files[i] in kept then Some(kept[files[i]]) else None)];
    }
  }

  /** The files that have to be read: new ones and changed ones; vanished ones are passed over. */
  method CompareWithSrc(pairs: seq<(string, Option<SnapshotFile>)>, src: Source, ghost kept: Table, ghost files: seq<string>)
    returns (forUpsert: set<SnapshotFile>)
    requires |pairs| == |files|
    requires forall i :: 0 <= i < |files| ==> pairs[i] == (files[i], if files[i] in kept then Some(kept[files[i]]) else None)
    ensures forUpsert == ToRead(kept, files, src)
  {
    forUpsert := {};
    for i := 0 to |pairs|
      invariant forUpsert == ToRead(kept, files[..i], src)
    {
      PrefixStep(files, i);
      var (path, existing) := pairs[i];
      if path in src {
        var new_ := Stat(path, src[path]);
        if existing.None? || !(existing.value.mtimeNs == new_.mtimeNs && existing.value.relativePath == new_.relativePath
                               && existing.value.fileSize == new_.fileSize) {
          forUpsert := forUpsert + {new_};
        }
      }
    }
    assert files[..|pairs|] == files;
  }

  ghost function ToRead(kept: Table, files: seq<string>, src: Source): set<SnapshotFile> {
    set p | p in files && p in src && Stale(kept, src, p) :: Stat(p, src[p])
  }

  /** The limit that all groups of a file agree on; no answer when they do not, or when there is no group. */
  method EmbeddedFileSizeMax(limits: seq<Option<int>>) returns (max: Result<Option<int>, ()>)
    ensures max.Ok? <==> limits != [] && forall i :: 0 <= i < |limits| ==> limits[i] == limits[0]
    ensures max.Ok? ==> max.value == limits[0]
  {
    if limits == [] {
      return Err(());
    }
    for i := 1 to |limits|
      invariant forall j :: 0 <= j < i ==> limits[j] == limits[0]
    {
      if limits[i] != limits[0] {
        return Err(());
      }
    }
    return Ok(limits[0]);
  }

  /** Reads each file and fills in its content or its digest. */
  method ComputeDigests(cfg: Config, forUpsert: set<SnapshotFile>, src: Source) returns (ok: bool, rows: set<SnapshotFile>)
    requires forall f :: f in forUpsert ==> f.relativePath in src && f == Stat(f.relativePath, src[f.relativePath])
    ensures ok <==> forall f :: f in forUpsert ==> !Conflicts(cfg, f.relativePath)
    ensures ok ==> rows == set f | f in forUpsert :: FreshRow(cfg, f.relativePath, src[f.relativePath])
  {
    rows := {};
    var todo := forUpsert;
    while todo != {}
      invariant todo <= forUpsert
      invariant forall f :: f in forUpsert - todo ==> !Conflicts(cfg, f.relativePath)
      invariant rows == set f | f in forUpsert - todo :: FreshRow(cfg, f.relativePath, src[f.relativePath])
      decreases todo
    {
      var f :| f in todo;
      var max := EmbeddedFileSizeMax(cfg.limits(f.relativePath));
      if max.Err? {
        return false, {};
      }
      var content := src[f.relativePath].content;
      var row := if max.value.None? || f.fileSize <= max.value.value then f.(contentB64 := Some(cfg.encode(content)))
                 else f.(hexdigest := cfg.hash(content));
      todo := todo - {f};
      rows := rows + {row};
      assert forUpsert - todo == (forUpsert - (todo + {f})) + {f};
    }
    return true, rows;
  }

  /** `insert or replace`, in whatever order the rows arrive. */
  method Upsert(kept: Table, rows: set<SnapshotFile>) returns (updated: Table)
    requires forall f, g :: f in rows && g in rows && f.relativePath == g.relativePath ==> f == g
    ensures forall p :: p in updated <==> p in kept || exists f :: f in rows && f.relativePath == p
    ensures forall f :: f in rows ==> updated[f.relativePath] == f
    ensures forall p :: p in kept && (forall f :: f in rows ==> f.relativePath != p) ==> updated[p] == kept[p]
  {
    updated := kept;
    var todo := rows;
    while todo != {}
      invariant todo <= rows
      invariant forall p :: p in updated <==> p in kept || exists f :: f in rows - todo && f.relativePath == p
      invariant forall f :: f in rows - todo ==> updated[f.relativePath] == f
      invariant forall p :: p in kept && (forall f :: f in rows - todo ==> f.relativePath != p) ==> updated[p] == kept[p]
      decreases todo
    {
      var f :| f in todo;
      updated := updated[f.relativePath := f];
      todo := todo - {f};
    }
  }

  lemma StaleRows(table: Table, kept: Table, files: seq<string>, src: Source)
    requires kept == map p | p in table && p in files :: table[p]
    ensures forall p :: p in files && p in src ==> (Stale(kept, src, p) <==> Stale(table, src, p))
    ensures forall p :: p in files && p in src && Stale(table, src, p) ==> Stat(p, src[p]) in ToRead(kept, files, src)
    ensures forall f :: f in ToRead(kept, files, src) ==> f.relativePath in files && f.relativePath in src && Stale(table, src, f.relativePath)
  {
  }

  lemma UpsertedIsAfter(cfg: Config, table: Table, kept: Table, files: seq<string>, src: Source,
                        read: set<SnapshotFile>, rows: set<SnapshotFile>, updated: Table)
    requires kept == map p | p in table && p in files :: table[p]
    requires read == ToRead(kept, files, src)
    requires rows == set f | f in read :: FreshRow(cfg, f.relativePath, src[f.relativePath])
    requires forall p :: p in updated <==> p in kept || exists f :: f in rows && f.relativePath == p
    requires forall f :: f in rows ==> updated[f.relativePath] == f
    requires forall p :: p in kept && (forall f :: f in rows ==> f.relativePath != p) ==> updated[p] == kept[p]
    ensures updated == After(cfg, table, Elements(files), src)
  {
    StaleRows(table, kept, files, src);
    var after := After(cfg, table, Elements(files), src);
    forall p ensures p in updated <==> p in after {
      RowsAre(cfg, table, kept, files, src, read, rows, p);
    }
    forall p | p in after ensures updated[p] == after[p] {
      RowsAre(cfg, table, kept, files, src, read, rows, p);
      if p in src && Stale(table, src, p) {
        assert FreshRow(cfg, p, src[p]).relativePath == p;
      } else {
        assert p in kept;
      }
    }
  }

  /** The rows read for path p: one if p is listed, there and stale, otherwise none. */
  lemma RowsAre(cfg: Config, table: Table, kept: Table, files: seq<string>, src: Source,
                read: set<SnapshotFile>, rows: set<SnapshotFile>, p: string)
    requires kept == map p | p in table && p in files :: table[p]
    requires read == ToRead(kept, files, src)
    requires rows == set f | f in read :: FreshRow(cfg, f.relativePath, src[f.relativePath])
    ensures p in files && p in src && Stale(table, src, p) ==> FreshRow(cfg, p, src[p]) in rows
    ensures (exists f :: f in rows && f.relativePath == p) <==> p in files && p in src && Stale(table, src, p)
  {
    StaleRows(table, kept, files, src);
    if p in files && p in src && Stale(table, src, p) {
      assert Stat(p, src[p]) in read;
      assert FreshRow(cfg, p, src[p]).relativePath == p;
    }
    if f :| f in rows && f.relativePath == p {
      var g :| g in read && f == FreshRow(cfg, g.relativePath, src[g.relativePath]);
      assert g.relativePath == p;
    }
  }

  // ---------------------------------------------------------------- incremental against from scratch

  /** What a snapshot into an empty table makes. */
  function FromScratch(cfg: Config, listed: set<string>, src: Source): Table {
    After(cfg, map[], listed, src)
  }

  /** An incremental snapshot equals one from scratch exactly when no listed file has vanished while
      it had a row, and every row that looks unchanged is what reading the file would give. */
  lemma IncrementalIff(cfg: Config, table: Table, listed: set<string>, src: Source)
    ensures After(cfg, table, listed, src) == FromScratch(cfg, listed, src) <==>
      forall p :: p in listed && p in table ==> p in src && (!Stale(table, src, p) ==> table[p] == FreshRow(cfg, p, src[p]))
  {
    var a, b := After(cfg, table, listed, src), FromScratch(cfg, listed, src);
    if a == b {
      forall p | p in listed && p in table
        ensures p in src && (!Stale(table, src, p) ==> table[p] == FreshRow(cfg, p, src[p]))
      {
        assert p in a && p in b && a[p] == b[p];
      }
    }
  }

  datatype Scan = Scan(listed: set<string>, src: Source)

  /** The table after a series of scans, starting empty. */
  ghost function AfterScans(cfg: Config, scans: seq<Scan>): Table {
    if scans == [] then map[]
    else
      var last := scans[|scans| - 1];
      Step(cfg, AfterScans(cfg, scans[..|scans| - 1]), last.listed, last.src)
  }

  /** Path, size and modification time determine the content, across all scans. */
  ghost predicate ContentDetermined(scans: seq<Scan>) {
    forall i, j, p :: 0 <= i < |scans| && 0 <= j < |scans| && p in scans[i].src && p in scans[j].src ==>
      SameUnderlyingFile(Stat(p, scans[i].src[p]), Stat(p, scans[j].src[p])) ==>
      scans[i].src[p].content == scans[j].src[p].content
  }

  ghost predicate NothingVanished(scans: seq<Scan>) {
    forall i :: 0 <= i < |scans| ==> scans[i].listed <= scans[i].src.Keys
  }

  /** The scan at `at` is the last one that did not fail, and the table is what it makes from scratch. */
  ghost predicate TableIsFrom(cfg: Config, table: Table, scans: seq<Scan>, at: int)
    requires -1 <= at < |scans|
  {
    if at == -1 then table == map[]
    else table == FromScratch(cfg, scans[at].listed, scans[at].src) && !Fails(cfg, map[], scans[at].listed, scans[at].src)
  }

  /** A table made from scratch by an earlier scan serves the next one as well as an empty table. */
  lemma OneMoreScan(cfg: Config, table: Table, scans: seq<Scan>, at: int, now: nat)
    requires -1 <= at < |scans| && now < |scans| && TableIsFrom(cfg, table, scans, at)
    requires ContentDetermined(scans) && NothingVanished(scans)
    ensures Fails(cfg, table, scans[now].listed, scans[now].src) <==> Fails(cfg, map[], scans[now].listed, scans[now].src)
    ensures After(cfg, table, scans[now].listed, scans[now].src) == FromScratch(cfg, scans[now].listed, scans[now].src)
  {
    var listed, src := scans[now].listed, scans[now].src;
    assert listed <= src.Keys;
    forall p | p in listed && p in table ensures !Conflicts(cfg, p) && (!Stale(table, src, p) ==> table[p] == FreshRow(cfg, p, src[p])) {
      assert p in scans[at].listed && p in scans[at].src;
      assert table[p] == FreshRow(cfg, p, scans[at].src[p]);
      assert Stale(map[], scans[at].src, p);
    }
    IncrementalIff(cfg, table, listed, src);
    if p :| p in listed && p in src && Stale(map[], src, p) && Conflicts(cfg, p) {
      assert Stale(table, src, p);
    }
  }

  /** Every scan after `at` fails. */
  ghost predicate FailsAfter(cfg: Config, scans: seq<Scan>, at: int) {
    forall i :: -1 <= at < i < |scans| ==> Fails(cfg, map[], scans[i].listed, scans[i].src)
  }

  lemma StillFails(cfg: Config, scans: seq<Scan>, at: int)
    requires scans != [] && FailsAfter(cfg, scans[..|scans| - 1], at)
    requires var last := scans[|scans| - 1]; Fails(cfg, map[], last.listed, last.src)
    ensures FailsAfter(cfg, scans, at)
  {
    var before := scans[..|scans| - 1];
    forall i | -1 <= at < i < |scans| ensures Fails(cfg, map[], scans[i].listed, scans[i].src) {
      if i < |before| {
        assert before[i] == scans[i];
      }
    }
  }

  /** After any series of source changes and scans, the table is the one that the last successful scan
      would have made from scratch. */
  lemma {:induction false} IncrementalEqualsFromScratch(cfg: Config, scans: seq<Scan>) returns (at: int)
    requires ContentDetermined(scans) && NothingVanished(scans)
    ensures -1 <= at < |scans| && TableIsFrom(cfg, AfterScans(cfg, scans), scans, at)
    ensures FailsAfter(cfg, scans, at)
  {
    if scans == [] {
      at := -1;
    } else {
      var n := |scans| - 1;
      var before := scans[..n];
      at := IncrementalEqualsFromScratch(cfg, before);
      var table := AfterScans(cfg, before);
      assert at >= 0 ==> before[at] == scans[at];
      OneMoreScan(cfg, table, scans, at, n);
      if Fails(cfg, table, scans[n].listed, scans[n].src) {
        StillFails(cfg, scans, at);
      } else {
        at := n;
      }
    }
  }
}
