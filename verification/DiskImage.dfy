/** The persistence image of RamFS: the serializer, the deserializer and the disk area
    between them, and exactly which trees survive the trip. */
module DiskImage {
  import opened Bytes
  import opened Sectors
  import opened RamFsModel
  import opened RamFsNames
  import Utf8

  const SUPER_MAGIC: u64 := 0x41455445524E41
  const MAGIC: seq<byte> := [0x41, 0x45, 0x54, 0x45, 0x52, 0x4E, 0x41, 0x5F, 0x46, 0x53]
  const VERSION: u32 := 1
  const TAG_FILE: byte := 0
  const TAG_DIR: byte := 1
  const LBA_BASE: nat := 2048
  const SECTOR: nat := 512
  const HEADER: nat := 30
  const MAX_FS_BYTES: nat := 8 * 1024 * 1024
  const MAX_FILE: nat := MAX_FS_BYTES / 2
  const MAX_SECTORS: nat := MAX_FS_BYTES / SECTOR
  const MAX_PATH: nat := 0xFFFF

  // ---- Serialization ----------------------------------------------------------------------

  /** The keys of the tree in the order the serializer visits them. */
  ghost predicate Enumerates(order: seq<Path>, t: Tree) {
    && (forall k :: k in t <==> k in order)
    && (forall i, j :: 0 <= i < j < |order| ==> order[i] != order[j])
  }

  /** Bytes `required_size` counts for one entry. */
  function EntryNeed(path: Path, node: Node): nat {
    2 + |path| + 1 + (match node case Dir => 0 case File(data) => 4 + |data|)
  }

  function RequiredSize(t: Tree, order: seq<Path>): (r: nat)
    requires forall k :: k in order ==> k in t
    ensures r >= HEADER
  {
    if order == [] then HEADER else EntryNeed(order[0], t[order[0]]) + RequiredSize(t, order[1..])
  }

  /** What a node becomes on disk: files are cut at 4 MiB. */
  function Clip(node: Node): Node {
    match node
    case Dir => Dir
    case File(data) => if |data| <= MAX_FILE then node else File(data[..MAX_FILE])
  }

  function EncodeNode(node: Node): (r: seq<byte>)
    requires node.File? ==> |node.data| < 0x1_0000_0000
    ensures |r| == NodeLen(node)
  {
    match node
    case Dir => [TAG_DIR]
    case File(data) => [TAG_FILE] + ToLe(4, |data|) + data
  }

  function NodeLen(node: Node): nat {
    match node case Dir => 1 case File(data) => 5 + |data|
  }

  function EncodeEntry(path: Path, node: Node): (r: seq<byte>)
    requires |path| <= MAX_PATH
    ensures |r| == 2 + |path| + NodeLen(Clip(node))
  {
    ToLe(2, |path|) + path + EncodeNode(Clip(node))
  }

  /** Entries with longer paths are skipped. */
  function Body(t: Tree, order: seq<Path>): (r: seq<byte>)
    requires forall k :: k in order ==> k in t
  {
    if order == [] then []
    else (if |order[0]| <= MAX_PATH then EncodeEntry(order[0], t[order[0]]) else []) + Body(t, order[1..])
  }

  function Count(order: seq<Path>): (r: nat)
    ensures r <= |order|
  {
    if order == [] then 0 else (if |order[0]| <= MAX_PATH then 1 else 0) + Count(order[1..])
  }

  function Header(sectors: u32, count: u32): (r: seq<byte>)
    ensures |r| == HEADER
  {
    ToLe(8, SUPER_MAGIC) + ToLe(4, sectors) + MAGIC + ToLe(4, VERSION) + ToLe(4, count)
  }

  /** The serialized tree never outgrows a buffer of the computed size. */
  lemma {:induction false} BodyFits(t: Tree, order: seq<Path>)
    requires forall k :: k in order ==> k in t
    ensures HEADER + |Body(t, order)| <= RequiredSize(t, order)
  {
    if order != [] { BodyFits(t, order[1..]); }
  }

  function SectorsNeeded(required: nat): (r: nat)
    ensures r >= 1 && r * SECTOR >= required && (required > 0 ==> (r - 1) * SECTOR < required)
  {
    var n := (required + SECTOR - 1) / SECTOR;
    if n >= 1 then n else 1
  }

  /** The tree can be counted in 32 bits, entries and sectors. */
  ghost predicate Countable(t: Tree, order: seq<Path>) {
    && Enumerates(order, t) && |order| < 0x1_0000_0000
    && SectorsNeeded(RequiredSize(t, order)) < 0x1_0000_0000
  }

  /** The zero-padded image that is written to disk. */
  function Image(t: Tree, order: seq<Path>): (r: seq<byte>)
    requires (forall k :: k in order ==> k in t) && |order| < 0x1_0000_0000
    requires SectorsNeeded(RequiredSize(t, order)) < 0x1_0000_0000
    ensures |r| == SectorsNeeded(RequiredSize(t, order)) * SECTOR
  {
    var n := SectorsNeeded(RequiredSize(t, order));
    BodyFits(t, order);
    var raw := Header(n, Count(order)) + Body(t, order);
    raw + Zeros(n * SECTOR - |raw|)
  }

  // ---- Deserialization ---------------------------------------------------------------------

  datatype Parsed = Stop | Entry(path: Path, node: Node, cursor: nat)

  datatype ParsedNode = NoNode | GotNode(node: Node, cursor: nat)

  /** The tag and the data behind a path. */
  function ParseNode(buf: seq<byte>, at: nat): (r: ParsedNode)
    ensures r.GotNode? ==> at < r.cursor <= |buf|
  {
    if at >= |buf| then NoNode
    else if buf[at] == TAG_DIR then GotNode(Dir, at + 1)
    else if buf[at] != TAG_FILE || at + 5 > |buf| then NoNode else
    var dataLen := FromLe32(buf[at + 1..at + 5]);
    if at + 5 + dataLen > |buf| then NoNode else GotNode(File(buf[at + 5..at + 5 + dataLen]), at + 5 + dataLen)
  }

  /** One turn of the entry loop; every irregularity ends the loop. */
  function ParseEntry(buf: seq<byte>, cursor: nat): (r: Parsed)
    ensures r.Entry? ==> cursor < r.cursor <= |buf|
  {
    if cursor + 2 > |buf| then Stop else
    var pathLen := FromLe16(buf[cursor..cursor + 2]);
    if cursor + 2 + pathLen > |buf| then Stop else
    var path := buf[cursor + 2..cursor + 2 + pathLen];
    if !Utf8.Valid(path) then Stop else
    match ParseNode(buf, cursor + 2 + pathLen)
    case NoNode => Stop
    case GotNode(node, next) => Entry(path, node, next)
  }

  /** The entry loop over any way of reading one entry. */
  function ReadEntries(step: nat -> Parsed, cursor: nat, count: nat, t: Tree): (r: Tree)
    decreases count
  {
    if count == 0 then t else
    match step(cursor)
    case Stop => t
    case Entry(path, node, next) => ReadEntries(step, next, count - 1, t[path := node])
  }

  function Parser(buf: seq<byte>): nat -> Parsed { (at: nat) => ParseEntry(buf, at) }

  /** `deserialize_ramfs` */
  function Deserialize(buf: seq<byte>): (r: Option<Tree>) {
    if |buf| < HEADER then None
    else if FromLe64(buf[0..8]) != SUPER_MAGIC then None
    else if buf[12..22] != MAGIC then None
    else if FromLe32(buf[22..26]) != VERSION then None
    else Some(ReadEntries(Parser(buf), HEADER, FromLe32(buf[26..30]), map[]))
  }

  // ---- Serialize, then deserialize -------------------------------------------------------------

  /** What survives: entries with a path of at most 65535 bytes, files cut at 4 MiB. */
  ghost function Survives(t: Tree): Tree { map k | k in t && |k| <= MAX_PATH :: Clip(t[k]) }

  /** The fields of an entry that lies at `cursor`. */
  lemma EntryFields(buf: seq<byte>, cursor: nat, path: Path, node: Node)
    requires |path| <= MAX_PATH
    requires Holds(buf, cursor, EncodeEntry(path, node))
    ensures Holds(buf, cursor, ToLe(2, |path|)) && Holds(buf, cursor + 2, path)
    ensures Holds(buf, cursor + 2 + |path|, EncodeNode(Clip(node)))
  {
    HoldsThree(buf, cursor, ToLe(2, |path|), path, EncodeNode(Clip(node)));
  }

  lemma NodeFields(buf: seq<byte>, q: nat, data: seq<byte>)
    requires |data| < 0x1_0000_0000 && Holds(buf, q, EncodeNode(File(data)))
    ensures buf[q] == TAG_FILE && Holds(buf, q + 1, ToLe(4, |data|)) && Holds(buf, q + 5, data)
  {
    HoldsThree(buf, q, [TAG_FILE], ToLe(4, |data|), data);
    assert buf[q..q + 1][0] == TAG_FILE;
  }

  lemma NodeBack(buf: seq<byte>, q: nat, c: Node)
    requires c.File? ==> |c.data| < 0x1_0000_0000
    requires Holds(buf, q, EncodeNode(c))
    ensures ParseNode(buf, q) == GotNode(c, q + NodeLen(c))
  {
    match c
    case Dir => assert buf[q..q + 1][0] == TAG_DIR;
    case File(data) =>
      NodeFields(buf, q, data);
      LeRoundTrip32(|data|);
  }

  lemma EntryBack(buf: seq<byte>, cursor: nat, path: Path, node: Node, next: nat)
    requires Utf8.Valid(path) && cursor + 2 + |path| <= |buf|
    requires FromLe16(buf[cursor..cursor + 2]) == |path| && Holds(buf, cursor + 2, path)
    requires ParseNode(buf, cursor + 2 + |path|) == GotNode(node, next)
    ensures ParseEntry(buf, cursor) == Entry(path, node, next)
  {
  }

  /** The entry at `cursor` is read as `path` with `node`. */
  ghost predicate ReadsAs(step: nat -> Parsed, cursor: nat, path: Path, node: Node) {
    step(cursor) == Entry(path, node, cursor + 2 + |path| + NodeLen(node))
  }

  /** One entry read back from anywhere in a buffer. */
  lemma ParseOne(buf: seq<byte>, cursor: nat, path: Path, node: Node)
    requires |path| <= MAX_PATH && Utf8.Valid(path)
    requires Holds(buf, cursor, EncodeEntry(path, node))
    ensures ParseEntry(buf, cursor) == Entry(path, Clip(node), cursor + 2 + |path| + NodeLen(Clip(node)))
  {
    EntryFields(buf, cursor, path, node);
    LeRoundTrip16(|path|);
    var q := cursor + 2 + |path|;
    NodeBack(buf, q, Clip(node));
    EntryBack(buf, cursor, path, Clip(node), q + NodeLen(Clip(node)));
  }

  /** The kept entries of `order` lie one behind the other from `cursor` on. */
  ghost predicate AllHeld(t: Tree, order: seq<Path>, buf: seq<byte>, cursor: nat)
    requires forall k :: k in order ==> k in t
    decreases |order|
  {
    order == [] ||
    var k := order[0];
    if |k| > MAX_PATH then AllHeld(t, order[1..], buf, cursor)
    else Holds(buf, cursor, EncodeEntry(k, t[k]))
         && AllHeld(t, order[1..], buf, cursor + 2 + |k| + NodeLen(Clip(t[k])))
  }

  lemma {:induction false} BodyHeld(t: Tree, order: seq<Path>, buf: seq<byte>, cursor: nat)
    requires (forall k :: k in order ==> k in t) && Holds(buf, cursor, Body(t, order))
    ensures AllHeld(t, order, buf, cursor)
    decreases |order|
  {
    if order != [] {
      var k, rest := order[0], order[1..];
      if |k| <= MAX_PATH {
        HoldsParts(buf, cursor, EncodeEntry(k, t[k]), Body(t, rest));
        BodyHeld(t, rest, buf, cursor + 2 + |k| + NodeLen(Clip(t[k])));
      } else {
        assert Body(t, order) == Body(t, rest);
        BodyHeld(t, rest, buf, cursor);
      }
    }
  }

  /** An entry as it will be read. */
  datatype Piece = Piece(path: Path, node: Node)

  ghost function Kept(t: Tree, order: seq<Path>): (r: seq<Piece>)
    requires forall k :: k in order ==> k in t
    ensures |r| == Count(order)
  {
    if order == [] then []
    else (if |order[0]| <= MAX_PATH then [Piece(order[0], Clip(t[order[0]]))] else []) + Kept(t, order[1..])
  }

  lemma KeptSplit(t: Tree, order: seq<Path>)
    requires (forall k :: k in order ==> k in t) && order != []
    ensures var r, rest := Kept(t, order), Kept(t, order[1..]);
            if |order[0]| <= MAX_PATH then r != [] && r[0] == Piece(order[0], Clip(t[order[0]])) && r[1..] == rest
            else r == rest
  {
  }

  /** The pieces as the parser meets them. */
  ghost predicate AllRead(es: seq<Piece>, step: nat -> Parsed, cursor: nat)
    decreases |es|
  {
    es == [] ||
    (ReadsAs(step, cursor, es[0].path, es[0].node)
     && AllRead(es[1..], step, cursor + 2 + |es[0].path| + NodeLen(es[0].node)))
  }

  /** `step` reads every entry that lies in the buffer. */
  ghost predicate Reader(step: nat -> Parsed, buf: seq<byte>) {
    forall at: nat, path, node | |path| <= MAX_PATH && Utf8.Valid(path) && Holds(buf, at, EncodeEntry(path, node)) ::
      ReadsAs(step, at, path, Clip(node))
  }

  lemma ParserReads(buf: seq<byte>)
    ensures Reader(Parser(buf), buf)
  {
    forall at: nat, path, node | |path| <= MAX_PATH && Utf8.Valid(path) && Holds(buf, at, EncodeEntry(path, node))
      ensures ReadsAs(Parser(buf), at, path, Clip(node))
    {
      ParseOne(buf, at, path, node);
    }
  }

  lemma {:induction false} HeldIsRead(t: Tree, order: seq<Path>, step: nat -> Parsed, buf: seq<byte>, cursor: nat)
    requires Strings(t) && (forall k :: k in order ==> k in t) && AllHeld(t, order, buf, cursor)
    requires Reader(step, buf)
    ensures AllRead(Kept(t, order), step, cursor)
    decreases |order|
  {
    if order != [] {
      var k, rest := order[0], order[1..];
      KeptSplit(t, order);
      if |k| <= MAX_PATH {
        HeldIsRead(t, rest, step, buf, cursor + 2 + |k| + NodeLen(Clip(t[k])));
      } else {
        HeldIsRead(t, rest, step, buf, cursor);
      }
    }
  }

  /** The pieces laid over `acc`, in order. */
  ghost function Laid(es: seq<Piece>, acc: Tree): Tree
    decreases |es|
  {
    if es == [] then acc else Laid(es[1..], acc[es[0].path := es[0].node])
  }

  lemma {:induction false} ReadBody(es: seq<Piece>, step: nat -> Parsed, cursor: nat, acc: Tree)
    requires AllRead(es, step, cursor)
    ensures ReadEntries(step, cursor, |es|, acc) == Laid(es, acc)
    decreases |es|
  {
    if es != [] {
      var e := es[0];
      ReadBody(es[1..], step, cursor + 2 + |e.path| + NodeLen(e.node), acc[e.path := e.node]);
    }
  }

  lemma {:induction false} LaidAt(t: Tree, order: seq<Path>, acc: Tree, k: Path)
    requires forall k :: k in order ==> k in t
    ensures var r := Laid(Kept(t, order), acc);
            && (k in r <==> k in acc || (k in order && |k| <= MAX_PATH))
            && (k in r ==> r[k] == if k in order && |k| <= MAX_PATH then Clip(t[k]) else acc[k])
    decreases |order|
  {
    if order != [] {
      KeptSplit(t, order);
      LaidAt(t, order[1..], if |order[0]| <= MAX_PATH then acc[order[0] := Clip(t[order[0]])] else acc, k);
    }
  }

  lemma LaidIsSurvives(t: Tree, order: seq<Path>)
    requires Enumerates(order, t)
    ensures Laid(Kept(t, order), map[]) == Survives(t)
  {
    var r := Laid(Kept(t, order), map[]);
    forall k ensures k in r <==> k in Survives(t) { LaidAt(t, order, map[], k); }
    forall k | k in r ensures r[k] == Survives(t)[k] { LaidAt(t, order, map[], k); }
  }

  lemma HeaderFields(buf: seq<byte>, sectors: u32, count: u32)
    requires Holds(buf, 0, Header(sectors, count))
    ensures |buf| >= HEADER
    ensures FromLe64(buf[0..8]) == SUPER_MAGIC && FromLe32(buf[8..12]) == sectors && buf[12..22] == MAGIC
    ensures FromLe32(buf[22..26]) == VERSION && FromLe32(buf[26..30]) == count
  {
    HoldsFive(buf, 0, ToLe(8, SUPER_MAGIC), ToLe(4, sectors), MAGIC, ToLe(4, VERSION), ToLe(4, count));
    LeRoundTrip64(SUPER_MAGIC);
    LeRoundTrip32(VERSION);
    LeRoundTrip32(sectors);
    LeRoundTrip32(count);
  }

  /** Deserializing the padded image gives the surviving part of the tree. */
  lemma ImageRoundTrip(t: Tree, order: seq<Path>)
    requires Countable(t, order) && Strings(t)
    ensures Deserialize(Image(t, order)) == Some(Survives(t))
  {
    var n := SectorsNeeded(RequiredSize(t, order));
    var h := Header(n, Count(order));
    var buf := Image(t, order);
    ImageHolds(t, order);
    HeaderFields(buf, n, Count(order));
    BodyHeld(t, order, buf, HEADER);
    ParserReads(buf);
    HeldIsRead(t, order, Parser(buf), buf, HEADER);
    ReadBody(Kept(t, order), Parser(buf), HEADER, map[]);
    LaidIsSurvives(t, order);
  }

  lemma ImageHolds(t: Tree, order: seq<Path>)
    requires Countable(t, order)
    ensures var n := SectorsNeeded(RequiredSize(t, order));
            Holds(Image(t, order), 0, Header(n, Count(order))) && Holds(Image(t, order), HEADER, Body(t, order))
  {
    BodyFits(t, order);
  }

  // ---- Through the disk ------------------------------------------------------------------------------

  /** `read_from_disk` followed by `deserialize_ramfs`, as at boot. */
  ghost function Load(disk: Disk): (r: Option<Tree>) {
    match ReadImage(disk)
    case None => None
    case Some(buf) => Deserialize(buf)
  }

  /** `read_from_disk` */
  ghost function ReadImage(disk: Disk): (r: Option<seq<byte>>) {
    if LBA_BASE >= |disk| || |disk[LBA_BASE]| != SECTOR then None else
    var hdr := disk[LBA_BASE];
    if FromLe64(hdr[0..8]) != SUPER_MAGIC then None else
    var n := FromLe32(hdr[8..12]);
    if n == 0 || n > MAX_SECTORS || LBA_BASE + n > |disk| then None
    else Some(Join(disk, LBA_BASE, n))
  }

  /** The disk after the image of `t` has been written. */
  ghost function Saved(disk: Disk, t: Tree, order: seq<Path>): Disk
    requires Countable(t, order) && LBA_BASE + SectorsNeeded(RequiredSize(t, order)) <= |disk|
  {
    Store(disk, LBA_BASE, SectorsNeeded(RequiredSize(t, order)), SECTOR, Image(t, order))
  }

  /** What boot finds after the image of `t` has been written. */
  ghost function Loaded(t: Tree, order: seq<Path>): Option<Tree>
    requires forall k :: k in order ==> k in t
  {
    if SectorsNeeded(RequiredSize(t, order)) > MAX_SECTORS then None else Some(Survives(t))
  }

  lemma SavedHeader(disk: Disk, t: Tree, order: seq<Path>)
    requires Countable(t, order) && LBA_BASE + SectorsNeeded(RequiredSize(t, order)) <= |disk|
    ensures var d := Saved(disk, t, order); var n := SectorsNeeded(RequiredSize(t, order));
            && d[LBA_BASE] == Image(t, order)[0..SECTOR]
            && FromLe64(d[LBA_BASE][0..8]) == SUPER_MAGIC && FromLe32(d[LBA_BASE][8..12]) == n
            && Join(d, LBA_BASE, n) == Image(t, order)
  {
    var n := SectorsNeeded(RequiredSize(t, order));
    var img := Image(t, order);
    StoreThenJoin(disk, LBA_BASE, n, SECTOR, img);
    StoredSlice(disk, LBA_BASE, n, SECTOR, img, 0);
    assert img[..n * SECTOR] == img;
    ImageHolds(t, order);
    HeaderFields(img, n, Count(order));
    var hdr := img[0..SECTOR];
    assert hdr[0..8] == img[0..8] && hdr[8..12] == img[8..12];
  }

  /** Write the image of any tree and read it back: boot finds the surviving part of the tree, or
      nothing at all when the image is larger than 8 MiB. */
  lemma SaveThenLoad(disk: Disk, t: Tree, order: seq<Path>)
    requires Countable(t, order) && Strings(t)
    requires LBA_BASE + SectorsNeeded(RequiredSize(t, order)) <= |disk|
    ensures Load(Saved(disk, t, order)) == Loaded(t, order)
  {
    SavedHeader(disk, t, order);
    ImageRoundTrip(t, order);
  }

  /** The limits of the format. */
  ghost predicate WithinLimits(t: Tree, order: seq<Path>)
    requires forall k :: k in order ==> k in t
  {
    && (forall k :: k in t ==> |k| <= MAX_PATH && (t[k].File? ==> |t[k].data| <= MAX_FILE))
    && SectorsNeeded(RequiredSize(t, order)) <= MAX_SECTORS
  }

  /** The persistence round trip gives back exactly the same tree if and only if every path has at most
      65535 bytes, every file at most 4 MiB and the image at most 8 MiB. */
  lemma RoundTripExact(disk: Disk, t: Tree, order: seq<Path>)
    requires Countable(t, order) && Strings(t)
    requires LBA_BASE + SectorsNeeded(RequiredSize(t, order)) <= |disk|
    ensures Load(Saved(disk, t, order)) == Some(t) <==> WithinLimits(t, order)
  {
    SaveThenLoad(disk, t, order);
    SurvivesWhole(t);
  }

  lemma SurvivesWhole(t: Tree)
    ensures Survives(t) == t <==> forall k :: k in t ==> |k| <= MAX_PATH && (t[k].File? ==> |t[k].data| <= MAX_FILE)
  {
    if Survives(t) == t {
      forall k | k in t ensures |k| <= MAX_PATH && (t[k].File? ==> |t[k].data| <= MAX_FILE) {
        assert k in Survives(t) && Survives(t)[k] == Clip(t[k]);
      }
    }
  }
}
