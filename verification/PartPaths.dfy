/** Paths of table part files on the disks of a database node: printing, parsing, and moving frozen
    parts out of their freeze folder. */
module PartPaths {
  import opened Basics
  import opened Escaping

  datatype Disk = Disk(name: string, pathParts: seq<string>)

  datatype ParsedPath = ParsedPath(
    disk: Disk,
    freezeName: Option<Bytes>,
    tableUuid: string,
    detached: bool,
    partName: Bytes,
    fileParts: seq<string>)

  datatype PathError = NoDisk | NotStoreOrShadow | InvalidUuid | WrongFolder | TooShort

  /** The text form of a UUID: lower-case hexadecimal in groups of 8, 4, 4, 4 and 12. */
  predicate IsUuidText(s: string) {
    |s| == 36 && forall i :: 0 <= i < 36 ==>
      if i == 8 || i == 13 || i == 18 || i == 23 then s[i] == '-' else '0' <= s[i] <= '9' || 'a' <= s[i] <= 'f'
  }

  lemma UuidTextNoSlash(s: string)
    requires IsUuidText(s)
    ensures NoSlash(s) && NoSlash(s[..3])
  {
  }

  // ---------------------------------------------------------------- printing

  function FreezeParts(freezeName: Option<Bytes>): seq<string> {
    if freezeName.Some? then ["shadow", NameToText(freezeName.value)] else []
  }

  function DetachedParts(detached: bool): seq<string> {
    if detached then ["detached"] else []
  }

  /** The components after the disk's own path. */
  function PartsOnDisk(p: ParsedPath): seq<string>
    requires IsUuidText(p.tableUuid)
  {
    FreezeParts(p.freezeName) + ["store", p.tableUuid[..3], p.tableUuid] + DetachedParts(p.detached)
    + [NameToText(p.partName)] + p.fileParts
  }

  function PathParts(p: ParsedPath): seq<string>
    requires IsUuidText(p.tableUuid)
  {
    p.disk.pathParts + PartsOnDisk(p)
  }

  function PathOf(p: ParsedPath): string
    requires IsUuidText(p.tableUuid)
  {
    Join(PathParts(p))
  }

  /** `to_path`, appending to a list. */
  method ToPath(p: ParsedPath) returns (path: string)
    requires IsUuidText(p.tableUuid)
    ensures path == PathOf(p)
  {
    var parts: seq<string> := [];
    if p.freezeName.Some? {
      parts := parts + ["shadow"];
      parts := parts + [NameToText(p.freezeName.value)];
    }
    parts := parts + ["store"];
    parts := parts + [p.tableUuid[..3]];
    parts := parts + [p.tableUuid];
    if p.detached {
      parts := parts + ["detached"];
    }
    parts := parts + [NameToText(p.partName)];
    assert parts + p.fileParts == PartsOnDisk(p);
    path := Join(p.disk.pathParts + (parts + p.fileParts));
  }

  // ---------------------------------------------------------------- parsing

  function FirstDisk(disks: seq<Disk>, parts: seq<string>): (d: Option<Disk>)
    ensures d.Some? ==> d.value in disks && d.value.pathParts <= parts
  {
    if disks == [] then None
    else if disks[0].pathParts <= parts then Some(disks[0])
    else FirstDisk(disks[1..], parts)
  }

  /** `_get_disk`: the search loop. */
  method GetDisk(disks: seq<Disk>, parts: seq<string>) returns (d: Option<Disk>)
    ensures d == FirstDisk(disks, parts)
  {
    assert disks[0..] == disks;
    for i := 0 to |disks|
      invariant FirstDisk(disks, parts) == FirstDisk(disks[i..], parts)
    {
      if |disks[i].pathParts| <= |parts| && parts[..|disks[i].pathParts|] == disks[i].pathParts {
        return Some(disks[i]);
      }
      assert disks[i..][1..] == disks[i + 1..];
    }
    return None;
  }

  /** Parsing from the component after the disk path on. */
  function ParseOnDisk(disk: Disk, parts: seq<string>): Result<ParsedPath, PathError>
    requires disk.pathParts <= parts
  {
    var at := |disk.pathParts|;
    if at >= |parts| then Err(TooShort)
    else if parts[at] == "store" then ParseTable(disk, None, parts, at + 2)
    else if parts[at] == "shadow" then
      if at + 1 >= |parts| then Err(TooShort) else ParseTable(disk, Some(TextToName(parts[at + 1])), parts, at + 4)
    else Err(NotStoreOrShadow)
  }

  function ParseTable(disk: Disk, freezeName: Option<Bytes>, parts: seq<string>, uuidIndex: nat): Result<ParsedPath, PathError>
    requires uuidIndex >= 2
  {
    if uuidIndex >= |parts| then Err(TooShort)
    else if !IsUuidText(parts[uuidIndex]) then Err(InvalidUuid)
    else if parts[uuidIndex - 1] != parts[uuidIndex][..3] then Err(WrongFolder)
    else if uuidIndex + 1 >= |parts| then Err(TooShort)
    else
      var detached := parts[uuidIndex + 1] == "detached";
      var partNameIndex := uuidIndex + if detached then 2 else 1;
      if partNameIndex >= |parts| then Err(TooShort)
      else Ok(ParsedPath(disk, freezeName, parts[uuidIndex], detached, TextToName(parts[partNameIndex]), parts[partNameIndex + 1..]))
  }

  function Parse(disks: seq<Disk>, path: string): Result<ParsedPath, PathError> {
    var parts := Split(path);
    var disk := FirstDisk(disks, parts);
    if disk.None? then Err(NoDisk) else ParseOnDisk(disk.value, parts)
  }

  // ---------------------------------------------------------------- round trip

  ghost predicate NoSlashes(parts: seq<string>) {
    forall p :: p in parts ==> NoSlash(p)
  }

  ghost predicate WellFormed(p: ParsedPath) {
    IsUuidText(p.tableUuid) && NoSlashes(p.disk.pathParts) && NoSlashes(p.fileParts)
  }

  lemma PathPartsNoSlash(p: ParsedPath)
    requires WellFormed(p)
    ensures NoSlashes(PathParts(p))
  {
    UuidTextNoSlash(p.tableUuid);
    NameTextRoundTrip(p.partName);
    if p.freezeName.Some? {
      NameTextRoundTrip(p.freezeName.value);
    }
  }

  /** A part is told apart from the "detached" folder by its escaped name. */
  ghost predicate Unambiguous(p: ParsedPath) {
    p.detached || NameToText(p.partName) != "detached"
  }

  lemma TableIndexes(p: ParsedPath, at: nat)
    requires IsUuidText(p.tableUuid)
    requires at == |p.disk.pathParts| + |FreezeParts(p.freezeName)|
    ensures var parts := PathParts(p);
      var d := |DetachedParts(p.detached)|;
      && |parts| == at + 4 + d + |p.fileParts|
      && parts[at] == "store" && parts[at + 1] == p.tableUuid[..3] && parts[at + 2] == p.tableUuid
      && (p.detached ==> parts[at + 3] == "detached")
      && parts[at + 3 + d] == NameToText(p.partName)
      && parts[at + 4 + d..] == p.fileParts
  {
  }

  lemma FreezeIndexes(p: ParsedPath)
    requires IsUuidText(p.tableUuid) && p.freezeName.Some?
    ensures var parts, at := PathParts(p), |p.disk.pathParts|;
      |parts| > at + 1 && parts[at] == "shadow" && parts[at + 1] == NameToText(p.freezeName.value)
  {
  }

  /** The part of a printed path from "store" on parses to what was printed, unless the part is called "detached". */
  lemma ParseTablePrinted(p: ParsedPath, at: nat)
    requires IsUuidText(p.tableUuid) && at == |p.disk.pathParts| + |FreezeParts(p.freezeName)|
    ensures var r := ParseTable(p.disk, p.freezeName, PathParts(p), at + 2);
      (r == Ok(p) <==> Unambiguous(p)) && (r.Ok? ==> r.value.disk == p.disk)
  {
    TableIndexes(p, at);
    NameTextRoundTrip(p.partName);
  }

  /** On its own disk, a printed path parses to what was printed exactly when it is unambiguous. */
  lemma ParsePrintedOnDisk(p: ParsedPath)
    requires WellFormed(p)
    ensures p.disk.pathParts <= PathParts(p)
    ensures ParseOnDisk(p.disk, PathParts(p)) == Ok(p) <==> Unambiguous(p)
    ensures var r := ParseOnDisk(p.disk, PathParts(p)); r.Ok? ==> r.value.disk == p.disk
  {
    var at := |p.disk.pathParts| + |FreezeParts(p.freezeName)|;
    TableIndexes(p, at);
    ParseTablePrinted(p, at);
    if p.freezeName.Some? {
      FreezeIndexes(p);
      NameTextRoundTrip(p.freezeName.value);
    }
  }

  /** Parsing gives back a printed path exactly when its own disk is the first that matches it and the
      part is not an attached part called "detached". */
  lemma ParsePrintedIff(disks: seq<Disk>, p: ParsedPath)
    requires WellFormed(p)
    ensures Parse(disks, PathOf(p)) == Ok(p) <==> FirstDisk(disks, PathParts(p)) == Some(p.disk) && Unambiguous(p)
  {
    PathPartsNoSlash(p);
    SplitJoin(PathParts(p));
    ParsePrintedOnDisk(p);
    var d := FirstDisk(disks, PathParts(p));
    if d.Some? && d.value != p.disk {
      ParseKeepsDisk(d.value, PathParts(p));
    }
  }

  lemma ParseKeepsDisk(disk: Disk, parts: seq<string>)
    requires disk.pathParts <= parts
    ensures var r := ParseOnDisk(disk, parts); r.Ok? ==> r.value.disk == disk
  {
  }

  /** An attached part called "detached" never comes back. */
  lemma PartCalledDetachedIsLost(disks: seq<Disk>, disk: Disk, tableUuid: string, fileParts: seq<string>)
    requires IsUuidText(tableUuid) && NoSlashes(disk.pathParts) && NoSlashes(fileParts)
    ensures var p := ParsedPath(disk, None, tableUuid, false, TextToName("detached"), fileParts);
      Parse(disks, PathOf(p)) != Ok(p)
  {
    var word := "detached";
    var p := ParsedPath(disk, None, tableUuid, false, TextToName(word), fileParts);
    PlainWord(word);
    assert NameToText(p.partName) == word;
    ParsePrintedIff(disks, p);
  }

  ghost predicate LowerCase(w: string) {
    forall c :: c in w ==> 'a' <= c <= 'z'
  }

  lemma {:induction false} PlainText(w: string)
    requires LowerCase(w)
    ensures ToText(FromText(w)) == w && forall b :: b in FromText(w) ==> 97 <= b <= 122
  {
    if w != "" {
      assert w[0] in w && forall c :: c in w[1..] ==> c in w;
      PlainText(w[1..]);
      ToTextStep(w[0] as int as byte, FromText(w[1..]));
      assert w == [w[0]] + w[1..];
    }
  }

  lemma ToTextStep(b: byte, rest: Bytes)
    ensures ToText([b] + rest) == [b as char] + ToText(rest)
  {
  }

  lemma PlainBytes(s: Bytes)
    requires forall b :: b in s ==> 97 <= b <= 122
    ensures EscapeForFileName(s) == s && UnescapeFromFileName(s) == s
  {
    PlainNameIff(s);
    FileNameRoundTrip(s);
  }

  /** Lower-case words are their own escaped form. */
  lemma PlainWord(w: string)
    requires LowerCase(w)
    ensures FromText(w) == EscapeForFileName(FromText(w)) == UnescapeFromFileName(FromText(w))
    ensures ToText(FromText(w)) == w
  {
    PlainText(w);
    PlainBytes(FromText(w));
  }

  /** A component that is the escaped form of what it unescapes to. */
  ghost predicate Canonical(component: string) {
    NameToText(TextToName(component)) == component
  }

  ghost function NameIndex(p: ParsedPath): nat {
    |p.disk.pathParts| + |FreezeParts(p.freezeName)| + 3 + |DetachedParts(p.detached)|
  }

  /** How the components of a path relate to what is parsed from it. */
  ghost predicate Fits(p: ParsedPath, parts: seq<string>) {
    var at := |p.disk.pathParts|;
    var start := at + |FreezeParts(p.freezeName)|;
    && IsUuidText(p.tableUuid) && p.disk.pathParts <= parts && NameIndex(p) < |parts|
    && (p.freezeName.Some? ==> parts[at] == "shadow" && p.freezeName == Some(TextToName(parts[at + 1])))
    && (p.freezeName.None? ==> parts[at] == "store")
    && parts[start + 1] == p.tableUuid[..3] && parts[start + 2] == p.tableUuid
    && (p.detached <==> parts[start + 3] == "detached")
    && p.partName == TextToName(parts[NameIndex(p)]) && p.fileParts == parts[NameIndex(p) + 1..]
  }

  ghost predicate AsPrinted(p: ParsedPath, parts: seq<string>)
    requires Fits(p, parts)
  {
    && Canonical(parts[NameIndex(p)])
    && (p.freezeName.Some? ==> Canonical(parts[|p.disk.pathParts| + 1]) && parts[|p.disk.pathParts| + 2] == "store")
  }

  lemma ParsedFits(disk: Disk, parts: seq<string>)
    requires disk.pathParts <= parts && ParseOnDisk(disk, parts).Ok?
    ensures ParseOnDisk(disk, parts).value.disk == disk && Fits(ParseOnDisk(disk, parts).value, parts)
  {
    var at := |disk.pathParts|;
    if parts[at] == "store" {
      TableParsed(disk, None, parts, at + 2);
    } else {
      TableParsed(disk, Some(TextToName(parts[at + 1])), parts, at + 4);
    }
  }

  lemma TableParsed(disk: Disk, freezeName: Option<Bytes>, parts: seq<string>, uuidIndex: nat)
    requires uuidIndex >= 2 && ParseTable(disk, freezeName, parts, uuidIndex).Ok?
    ensures var p := ParseTable(disk, freezeName, parts, uuidIndex).value;
      var name := uuidIndex + 1 + |DetachedParts(p.detached)|;
      && p.disk == disk && p.freezeName == freezeName && IsUuidText(p.tableUuid) && name < |parts|
      && parts[uuidIndex - 1] == p.tableUuid[..3] && parts[uuidIndex] == p.tableUuid
      && (p.detached <==> parts[uuidIndex + 1] == "detached")
      && p.partName == TextToName(parts[name]) && p.fileParts == parts[name + 1..]
  {
    var detached := parts[uuidIndex + 1] == "detached";
    var name := uuidIndex + if detached then 2 else 1;
    assert ParseTable(disk, freezeName, parts, uuidIndex) ==
      Ok(ParsedPath(disk, freezeName, parts[uuidIndex], detached, TextToName(parts[name]), parts[name + 1..]));
  }

  /** Printing a parsed path gives the path back exactly when its part name, and its freeze name if it has
      one, are in escaped form and the folder below the freeze folder, which parsing does not look at, is
      "store". Nothing else parses. */
  lemma PrintParsedIff(disks: seq<Disk>, path: string)
    requires Parse(disks, path).Ok?
    ensures var p := Parse(disks, path).value;
      Fits(p, Split(path)) && (PathOf(p) == path <==> AsPrinted(p, Split(path)))
  {
    var p, parts := Parse(disks, path).value, Split(path);
    ParsedIsWellFormed(disks, path);
    ParsedFits(FirstDisk(disks, parts).value, parts);
    PathPartsNoSlash(p);
    SplitJoin(PathParts(p));
    JoinSplit(path);
    assert PathOf(p) == path <==> PathParts(p) == parts;
    PartsPrinted(p, parts);
    if AsPrinted(p, parts) {
      PrintedParts(p, parts);
    }
  }

  lemma PartsPrinted(p: ParsedPath, parts: seq<string>)
    requires Fits(p, parts)
    ensures PathParts(p) == parts ==> AsPrinted(p, parts)
  {
    TableIndexes(p, |p.disk.pathParts| + |FreezeParts(p.freezeName)|);
    if p.freezeName.Some? {
      FreezeIndexes(p);
    }
  }

  lemma PrintedParts(p: ParsedPath, parts: seq<string>)
    requires Fits(p, parts) && AsPrinted(p, parts)
    ensures PathParts(p) == parts
  {
    var disk := |p.disk.pathParts|;
    var at := disk + |FreezeParts(p.freezeName)|;
    var name := NameIndex(p);
    FreezeFits(p, parts);
    TableFits(p, parts);
    Glue(parts, disk, at, at + 3, name, p.disk.pathParts, FreezeParts(p.freezeName), ["store", p.tableUuid[..3], p.tableUuid],
         DetachedParts(p.detached), [NameToText(p.partName)], p.fileParts);
  }

  /** A list put together from its pieces. */
  lemma Glue(parts: seq<string>, i: nat, j: nat, k: nat, m: nat, a: seq<string>, b: seq<string>, c: seq<string>, d: seq<string>,
             e: seq<string>, f: seq<string>)
    requires i <= j <= k <= m < |parts|
    requires parts[..i] == a && parts[i..j] == b && parts[j..k] == c && parts[k..m] == d && parts[m..m + 1] == e && parts[m + 1..] == f
    ensures parts == a + (b + c + d + e + f)
  {
    Cut(parts, i, j);
    Cut(parts, j, k);
    Cut(parts, k, m);
    Cut(parts, m, m + 1);
    Regroup(b, c, d, e, f);
    assert parts == parts[..i] + parts[i..];
  }

  lemma FreezeFits(p: ParsedPath, parts: seq<string>)
    requires Fits(p, parts) && AsPrinted(p, parts)
    ensures parts[|p.disk.pathParts|..|p.disk.pathParts| + |FreezeParts(p.freezeName)|] == FreezeParts(p.freezeName)
  {
  }

  lemma TableFits(p: ParsedPath, parts: seq<string>)
    requires Fits(p, parts) && AsPrinted(p, parts)
    ensures var at := |p.disk.pathParts| + |FreezeParts(p.freezeName)|;
      && parts[at..at + 3] == ["store", p.tableUuid[..3], p.tableUuid]
      && parts[at + 3..NameIndex(p)] == DetachedParts(p.detached) && parts[NameIndex(p)..NameIndex(p) + 1] == [NameToText(p.partName)]
  {
    var at := |p.disk.pathParts| + |FreezeParts(p.freezeName)|;
    Three(parts, at, "store", p.tableUuid[..3], p.tableUuid);
    One(parts, NameIndex(p));
    if p.detached {
      One(parts, at + 3);
    } else {
      assert NameIndex(p) == at + 3 && parts[at + 3..at + 3] == [];
    }
  }

  lemma Three(parts: seq<string>, i: nat, a: string, b: string, c: string)
    requires i + 2 < |parts| && parts[i] == a && parts[i + 1] == b && parts[i + 2] == c
    ensures parts[i..i + 3] == [a, b, c]
  {
  }

  lemma One(parts: seq<string>, i: nat)
    requires i < |parts|
    ensures parts[i..i + 1] == [parts[i]]
  {
  }

  lemma Cut(s: seq<string>, i: nat, j: nat)
    requires i <= j <= |s|
    ensures s[i..] == s[i..j] + s[j..]
  {
  }

  lemma Regroup(a: seq<string>, b: seq<string>, c: seq<string>, d: seq<string>, e: seq<string>)
    ensures a + b + c + d + e == a + (b + (c + (d + e)))
  {
  }

  /** The folder between a freeze folder and the table's is not looked at. */
  lemma FolderIsIgnored(p: ParsedPath, folder: string)
    requires WellFormed(p) && p.freezeName.Some? && Unambiguous(p)
    ensures var parts, at := PathParts(p), |p.disk.pathParts| + 2;
      at < |parts| && p.disk.pathParts <= parts[at := folder] && ParseOnDisk(p.disk, parts[at := folder]) == Ok(p)
  {
    ParsePrintedOnDisk(p);
    FreezeIndexes(p);
    TableIndexes(p, |p.disk.pathParts| + 2);
    NameTextRoundTrip(p.partName);
    NameTextRoundTrip(p.freezeName.value);
  }

  // ---------------------------------------------------------------- moving frozen parts

  lemma {:induction false} SplitNoSlashes(s: string)
    ensures NoSlashes(Split(s))
  {
    if s == "" {
    } else {
      SplitNoSlashes(s[1..]);
      var rest := Split(s[1..]);
      assert rest[0] in rest;
      if s[0] != '/' {
        assert NoSlash([s[0]] + rest[0]);
      }
    }
  }

  lemma ParsedIsWellFormed(disks: seq<Disk>, path: string)
    requires Parse(disks, path).Ok?
    ensures WellFormed(Parse(disks, path).value)
  {
    SplitNoSlashes(path);
  }

  function Moved(p: ParsedPath): ParsedPath {
    p.(freezeName := None, detached := false)
  }

  /** Position of the first disk that a path is on; |disks| if none. */
  function DiskIndex(disks: seq<Disk>, parts: seq<string>): (i: nat)
    ensures i <= |disks|
    ensures i < |disks| ==> FirstDisk(disks, parts) == Some(disks[i])
    ensures i == |disks| ==> FirstDisk(disks, parts) == None
  {
    if disks == [] then 0
    else if disks[0].pathParts <= parts then 0
    else 1 + DiskIndex(disks[1..], parts)
  }

  /** A disk listed before the path's own one is mounted inside the own one's store folder, on the way of
      the moved path. */
  ghost predicate Captured(disks: seq<Disk>, disk: Disk, parts: seq<string>, moved: seq<string>) {
    exists i :: 0 <= i < DiskIndex(disks, parts) && disk.pathParts + ["store"] <= disks[i].pathParts <= moved
  }

  /** A prefix of one path that is no prefix of another is longer than what the two have in common. */
  lemma OnlyLongerDiffers(own: seq<string>, other: seq<string>, parts: seq<string>, moved: seq<string>)
    requires own <= parts && own <= moved && other <= moved && !(other <= parts)
    ensures |other| > |own|
  {
    assert |other| <= |own| ==> other <= own;
  }

  lemma {:induction false} StaysOnDiskIff(disks: seq<Disk>, disk: Disk, parts: seq<string>, moved: seq<string>)
    requires FirstDisk(disks, parts) == Some(disk) && disk.pathParts + ["store"] <= moved
    ensures FirstDisk(disks, moved) == Some(disk) <==> !Captured(disks, disk, parts, moved)
  {
    var own := disk.pathParts;
    assert own <= moved;
    if disks[0].pathParts <= parts {
    } else if disks[0].pathParts <= moved {
      var other := disks[0].pathParts;
      OnlyLongerDiffers(own, other, parts, moved);
      assert own + ["store"] == moved[..|own| + 1] == other[..|own| + 1];
    } else {
      StaysOnDiskIff(disks[1..], disk, parts, moved);
      CapturedLater(disks, disk, parts, moved);
    }
  }

  lemma CapturedLater(disks: seq<Disk>, disk: Disk, parts: seq<string>, moved: seq<string>)
    requires disks != [] && !(disks[0].pathParts <= parts) && !(disks[0].pathParts <= moved)
    ensures Captured(disks, disk, parts, moved) <==> Captured(disks[1..], disk, parts, moved)
  {
    if Captured(disks[1..], disk, parts, moved) {
      var i :| 0 <= i < DiskIndex(disks[1..], parts) && disk.pathParts + ["store"] <= disks[1..][i].pathParts <= moved;
      assert disks[i + 1] == disks[1..][i];
    }
    if Captured(disks, disk, parts, moved) {
      var i :| 0 <= i < DiskIndex(disks, parts) && disk.pathParts + ["store"] <= disks[i].pathParts <= moved;
      assert disks[1..][i - 1] == disks[i];
    }
  }

  /** Moving a frozen part keeps disk, table, part name and file on re-parsing, exactly when the part is
      not called "detached" and no earlier disk captures the moved path. */
  lemma MoveReparsesIff(disks: seq<Disk>, path: string)
    requires Parse(disks, path).Ok?
    ensures var p := Parse(disks, path).value;
      IsUuidText(p.tableUuid) &&
      (Parse(disks, PathOf(Moved(p))) == Ok(Moved(p)) <==>
       NameToText(p.partName) != "detached" && !Captured(disks, p.disk, Split(path), PathParts(Moved(p))))
  {
    var p := Parse(disks, path).value;
    ParsedIsWellFormed(disks, path);
    ParseKeepsDisk(FirstDisk(disks, Split(path)).value, Split(path));
    var moved := PathParts(Moved(p));
    assert moved[..|p.disk.pathParts| + 1] == p.disk.pathParts + ["store"];
    StaysOnDiskIff(disks, p.disk, Split(path), moved);
    ParsePrintedIff(disks, Moved(p));
  }

  /** A frozen file on the outer of two disks lands on the inner one when that is listed first. */
  lemma NestedDiskCaptures(outer: Disk, inner: Disk, p: ParsedPath)
    requires WellFormed(p) && p.disk == outer && p.freezeName.Some? && Unambiguous(p)
    requires inner.pathParts == outer.pathParts + ["store"]
    ensures Parse([inner, outer], PathOf(p)) == Ok(p)
    ensures Parse([inner, outer], PathOf(Moved(p))) != Ok(Moved(p))
  {
    var disks, parts := [inner, outer], PathParts(p);
    FreezeIndexes(p);
    assert inner.pathParts[|outer.pathParts|] == "store";
    assert !(inner.pathParts <= parts);
    assert outer.pathParts <= parts;
    assert disks[1..] == [outer];
    ParsePrintedIff(disks, p);
    var moved := PathParts(Moved(p));
    assert moved[..|outer.pathParts| + 1] == inner.pathParts;
    assert FirstDisk(disks, moved) == Some(inner);
    ParsePrintedIff(disks, Moved(p));
  }

  /** Two files of one disk moved to one path were the same file of the same part, up to freeze and
      detached folders. Files of two disks meet only if one disk is mounted in the other's store folder. */
  lemma MoveMergesOnlyCopies(disks: seq<Disk>, a: string, b: string)
    requires Parse(disks, a).Ok? && Parse(disks, b).Ok?
    ensures var p, q := Parse(disks, a).value, Parse(disks, b).value;
      && IsUuidText(p.tableUuid) && IsUuidText(q.tableUuid)
      && (PathOf(Moved(p)) == PathOf(Moved(q)) ==>
            if p.disk == q.disk then Moved(p) == Moved(q)
            else p.disk.pathParts + ["store"] <= q.disk.pathParts || q.disk.pathParts + ["store"] <= p.disk.pathParts)
  {
    var p, q := Parse(disks, a).value, Parse(disks, b).value;
    ParsedIsWellFormed(disks, a);
    ParsedIsWellFormed(disks, b);
    if PathOf(Moved(p)) == PathOf(Moved(q)) {
      PathPartsNoSlash(Moved(p));
      PathPartsNoSlash(Moved(q));
      SplitJoin(PathParts(Moved(p)));
      SplitJoin(PathParts(Moved(q)));
      if p.disk == q.disk {
        SamePartsSamePath(Moved(p), Moved(q));
      } else {
        ParsedFoldersDiffer(disks, a, b);
        InStoreFolder(Moved(p));
        InStoreFolder(Moved(q));
        FoldersNest(p.disk.pathParts, q.disk.pathParts, PathParts(Moved(p)));
      }
    }
  }

  lemma SamePartsSamePath(p: ParsedPath, q: ParsedPath)
    requires IsUuidText(p.tableUuid) && IsUuidText(q.tableUuid) && p.disk == q.disk
    requires p.freezeName == None == q.freezeName && !p.detached && !q.detached && PathParts(p) == PathParts(q)
    ensures p == q
  {
    TableIndexes(p, |p.disk.pathParts|);
    TableIndexes(q, |q.disk.pathParts|);
    NameTextRoundTrip(p.partName);
    NameTextRoundTrip(q.partName);
  }

  /** Different disks of parsed paths have different folders. */
  lemma {:induction false} FirstDisksDiffer(disks: seq<Disk>, a: seq<string>, b: seq<string>)
    requires FirstDisk(disks, a).Some? && FirstDisk(disks, b).Some? && FirstDisk(disks, a) != FirstDisk(disks, b)
    ensures FirstDisk(disks, a).value.pathParts != FirstDisk(disks, b).value.pathParts
  {
    if !(disks[0].pathParts <= a) && !(disks[0].pathParts <= b) {
      FirstDisksDiffer(disks[1..], a, b);
    }
  }

  lemma ParsedFoldersDiffer(disks: seq<Disk>, a: string, b: string)
    requires Parse(disks, a).Ok? && Parse(disks, b).Ok? && Parse(disks, a).value.disk != Parse(disks, b).value.disk
    ensures Parse(disks, a).value.disk.pathParts != Parse(disks, b).value.disk.pathParts
  {
    ParseKeepsDisk(FirstDisk(disks, Split(a)).value, Split(a));
    ParseKeepsDisk(FirstDisk(disks, Split(b)).value, Split(b));
    FirstDisksDiffer(disks, Split(a), Split(b));
  }

  lemma InStoreFolder(p: ParsedPath)
    requires IsUuidText(p.tableUuid) && p.freezeName == None
    ensures p.disk.pathParts + ["store"] <= PathParts(p)
  {
    assert PathParts(p)[..|p.disk.pathParts| + 1] == p.disk.pathParts + ["store"];
  }

  lemma FoldersNest(x: seq<string>, y: seq<string>, parts: seq<string>)
    requires x + ["store"] <= parts && y + ["store"] <= parts && x != y
    ensures x + ["store"] <= y || y + ["store"] <= x
  {
    assert x <= parts && y <= parts;
    if |x| < |y| {
      assert x + ["store"] == parts[..|x| + 1] == y[..|x| + 1];
    } else if |y| < |x| {
      assert y + ["store"] == parts[..|y| + 1] == x[..|y| + 1];
    }
  }

  /** The step: rewrites the paths in place, stopping at the first that does not parse. */
  method MoveFrozenParts(disks: seq<Disk>, paths: array<string>) returns (failed: Option<nat>)
    modifies paths
    ensures failed.Some? <==> exists i :: 0 <= i < paths.Length && Parse(disks, old(paths[i])).Err?
    ensures failed.Some? ==> failed.value < paths.Length && Parse(disks, old(paths[failed.value])).Err?
    ensures forall i :: 0 <= i < (if failed.Some? then failed.value else paths.Length) ==>
      var r := Parse(disks, old(paths[i]));
      r.Ok? && IsUuidText(r.value.tableUuid) && paths[i] == PathOf(Moved(r.value))
    ensures failed.Some? ==> forall i :: failed.value <= i < paths.Length ==> paths[i] == old(paths[i])
  {
    for k := 0 to paths.Length
      invariant forall i :: 0 <= i < k ==>
        var r := Parse(disks, old(paths[i]));
        r.Ok? && IsUuidText(r.value.tableUuid) && paths[i] == PathOf(Moved(r.value))
      invariant forall i :: k <= i < paths.Length ==> paths[i] == old(paths[i])
    {
      var r := Parse(disks, paths[k]);
      if r.Err? {
        return Some(k);
      }
      ParsedIsWellFormed(disks, paths[k]);
      var path := ToPath(Moved(r.value));
      paths[k] := path;
    }
    return None;
  }
}
