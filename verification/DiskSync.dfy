/** Persistence in its own form: the raw writer, the serializer and deserializer loops,
    and the sync and restore of RamFS on a drive. */
module DiskSync {
  import opened Bytes
  import opened Sectors
  import opened RamFsModel
  import opened DiskImage
  import opened RamFsNames
  import Drives
  import RamFs
  import Utf8

  const NEVER: u64 := 0xFFFF_FFFF_FFFF_FFFF
  const FRAME: nat := 4096

  // ---- Serialization -----------------------------------------------------------------------

  class RawWriter {
    const buf: array<byte>
    const cap: nat
    var len: nat

    ghost predicate Valid()
      reads this
    {
      len <= cap <= buf.Length
    }

    constructor (buf: array<byte>, cap: nat)
      requires cap <= buf.Length
      ensures Valid() && this.buf == buf && this.cap == cap && len == 0
    {
      this.buf := buf;
      this.cap := cap;
      len := 0;
    }

    method Write(data: seq<byte>) returns (ok: bool)
      requires Valid()
      modifies this`len, buf
      ensures Valid() && ok == (old(len) + |data| <= cap)
      ensures ok ==> len == old(len) + |data| && buf[..len] == old(buf[..len]) + data && buf[len..] == old(buf[..])[len..]
      ensures !ok ==> len == old(len) && buf[..] == old(buf[..])
    {
      if |data| > cap - len { return false; }
      Drives.CopyIn(buf, len, data);
      len := len + |data|;
      ok := true;
    }

    /** Exactly `out` has been written over `was`. */
    ghost predicate Holding(was: seq<byte>, out: seq<byte>)
      reads this, buf
    {
      |was| == buf.Length && len == |out| <= buf.Length && buf[..len] == out && buf[len..] == was[len..]
    }

    /** Append behind what has been written since the buffer held `was`. */
    method Append(data: seq<byte>, ghost was: seq<byte>, ghost out: seq<byte>) returns (ok: bool)
      requires Valid() && Holding(was, out)
      modifies this`len, buf
      ensures Valid() && ok == (|out| + |data| <= cap)
      ensures ok ==> Holding(was, out + data)
    {
      ghost var before := buf[..];
      assert before == out + was[|out|..];
      ok := Write(data);
      if ok { assert before[len..] == was[len..]; }
    }

    method WriteEntry(path: Path, node: Node, ghost was: seq<byte>, ghost out: seq<byte>) returns (ok: bool)
      requires Valid() && Holding(was, out) && |path| <= MAX_PATH
      modifies this`len, buf
      ensures Valid() && ok == (|out| + |EncodeEntry(path, node)| <= cap)
      ensures ok ==> Holding(was, out + EncodeEntry(path, node))
    {
      ghost var a := ToLe(2, |path|);
      ok := Append(ToLe(2, |path|), was, out);
      if !ok { return; }
      ok := Append(path, was, out + a);
      if !ok { return; }
      ok := WriteNode(Clip(node), was, out + a + path);
      if !ok { return; }
      assert out + a + path + EncodeNode(Clip(node)) == out + EncodeEntry(path, node);
    }

    method WriteNode(node: Node, ghost was: seq<byte>, ghost out: seq<byte>) returns (ok: bool)
      requires Valid() && Holding(was, out) && (node.File? ==> |node.data| < 0x1_0000_0000)
      modifies this`len, buf
      ensures Valid() && ok == (|out| + |EncodeNode(node)| <= cap)
      ensures ok ==> Holding(was, out + EncodeNode(node))
    {
      match node
      case Dir => ok := Append([TAG_DIR], was, out);
      case File(data) =>
        ok := Append([TAG_FILE], was, out);
        if !ok { return; }
        ok := Append(ToLe(4, |data|), was, out + [TAG_FILE]);
        if !ok { return; }
        ok := Append(data, was, out + [TAG_FILE] + ToLe(4, |data|));
        assert out + [TAG_FILE] + ToLe(4, |data|) + data == out + EncodeNode(node);
    }

    /** Superblock, magic, version and a zero count. */
    method WriteHeader(sectors: u32, ghost was: seq<byte>) returns (ok: bool)
      requires Valid() && Holding(was, [])
      modifies this`len, buf
      ensures Valid() && ok == (HEADER <= cap)
      ensures ok ==> Holding(was, Header(sectors, 0))
    {
      ok := Append(ToLe(8, SUPER_MAGIC), was, []);
      if !ok { return; }
      ghost var a := [] + ToLe(8, SUPER_MAGIC);
      assert a == ToLe(8, SUPER_MAGIC);
      ok := Append(ToLe(4, sectors), was, a);
      if !ok { return; }
      ok := Append(MAGIC, was, a + ToLe(4, sectors));
      if !ok { return; }
      ok := Append(ToLe(4, VERSION), was, a + ToLe(4, sectors) + MAGIC);
      if !ok { return; }
      ok := Append(ToLe(4, 0), was, a + ToLe(4, sectors) + MAGIC + ToLe(4, VERSION));
    }
  }

  /** The entries not yet visited. */
  lemma BodyNext(t: Tree, order: seq<Path>, i: nat, out: seq<byte>)
    requires (forall k :: k in order ==> k in t) && i < |order|
    ensures (forall k :: k in order[i..] ==> k in t) && (forall k :: k in order[i + 1..] ==> k in t)
    ensures var k := order[i];
            && Count(order[i..]) == (if |k| <= MAX_PATH then 1 else 0) + Count(order[i + 1..])
            && out + Body(t, order[i..])
               == (if |k| <= MAX_PATH then out + EncodeEntry(k, t[k]) else out) + Body(t, order[i + 1..])
  {
    assert order[i..][0] == order[i] && order[i..][1..] == order[i + 1..];
    if |order[i]| <= MAX_PATH {
      var e := EncodeEntry(order[i], t[order[i]]);
      assert out + (e + Body(t, order[i + 1..])) == out + e + Body(t, order[i + 1..]);
    }
  }

  lemma CountPatched(sectors: u32, count: u32, body: seq<byte>)
    ensures Patch(Header(sectors, 0) + body, 26, ToLe(4, count)) == Header(sectors, count) + body
  {
    var h := ToLe(8, SUPER_MAGIC) + ToLe(4, sectors) + MAGIC + ToLe(4, VERSION);
    assert |h| == 26;
    assert Header(sectors, 0) + body == h + ToLe(4, 0) + body;
    assert Header(sectors, count) + body == h + ToLe(4, count) + body;
  }

  /** `serialize_ramfs_into`: succeeds if and only if the buffer is large enough. */
  method Serialize(t: Tree, order: seq<Path>, dest: array<byte>, cap: nat, sectors: u32) returns (r: Option<nat>)
    requires (forall k :: k in order ==> k in t) && |order| < 0x1_0000_0000 && cap <= dest.Length
    modifies dest
    ensures r.Some? <==> HEADER + |Body(t, order)| <= cap
    ensures r.Some? ==> r.value == HEADER + |Body(t, order)|
    ensures r.Some? ==> dest[..r.value] == Header(sectors, Count(order)) + Body(t, order)
    ensures r.Some? ==> dest[r.value..] == old(dest[..])[r.value..]
  {
    ghost var was := dest[..];
    var w: RawWriter := new RawWriter(dest, cap);
    var ok := w.WriteHeader(sectors, was);
    if !ok { return None; }
    ghost var head, out := Header(sectors, 0), Header(sectors, 0);
    var count := 0;
    assert order[0..] == order;
    for i := 0 to |order|
      invariant w.Valid() && w.Holding(was, out)
      invariant forall k :: k in order[i..] ==> k in t
      invariant out + Body(t, order[i..]) == head + Body(t, order)
      invariant count + Count(order[i..]) == Count(order)
      modifies w`len, dest
    {
      var k := order[i];
      BodyNext(t, order, i, out);
      if |k| > MAX_PATH { continue; }
      ok := w.WriteEntry(k, t[k], was, out);
      if !ok {
        assert |out + EncodeEntry(k, t[k])| <= |head + Body(t, order)|;
        return None;
      }
      out := out + EncodeEntry(k, t[k]);
      count := count + 1;
    }
    assert order[|order|..] == [] && out + [] == out;
    PatchCount(dest, w.len, sectors, count, Body(t, order));
    r := Some(w.len);
  }

  method PatchCount(dest: array<byte>, len: nat, sectors: u32, count: u32, ghost body: seq<byte>)
    requires len <= dest.Length && dest[..len] == Header(sectors, 0) + body
    modifies dest
    ensures dest[..len] == Header(sectors, count) + body && dest[len..] == old(dest[..])[len..]
  {
    Drives.CopyIn(dest, 26, ToLe(4, count));
    CountPatched(sectors, count, body);
    assert dest[..len] == Patch(old(dest[..len]), 26, ToLe(4, count));
  }

  // ---- Deserialization ---------------------------------------------------------------------------

  method ReadNode(buf: seq<byte>, at: nat) returns (r: ParsedNode)
    ensures r == ParseNode(buf, at)
  {
    if at >= |buf| { return NoNode; }
    var tag := buf[at];
    var cursor := at + 1;
    if tag == TAG_DIR { return GotNode(Dir, cursor); }
    if tag != TAG_FILE || cursor + 4 > |buf| { return NoNode; }
    var dataLen := FromLe32(buf[cursor..cursor + 4]);
    cursor := cursor + 4;
    if cursor + dataLen > |buf| { return NoNode; }
    r := GotNode(File(buf[cursor..cursor + dataLen]), cursor + dataLen);
  }

  method ReadEntry(buf: seq<byte>, at: nat) returns (r: Parsed)
    ensures r == Parser(buf)(at)
  {
    var cursor := at;
    if cursor + 2 > |buf| { return Stop; }
    var pathLen := FromLe16(buf[cursor..cursor + 2]);
    cursor := cursor + 2;
    if cursor + pathLen > |buf| { return Stop; }
    var path := buf[cursor..cursor + pathLen];
    if !Utf8.Valid(path) { return Stop; }
    var n := ReadNode(buf, cursor + pathLen);
    match n
    case NoNode => r := Stop;
    case GotNode(node, next) => r := Entry(path, node, next);
  }

  /** `deserialize_ramfs` */
  method DeserializeLoop(buf: seq<byte>) returns (r: Option<Tree>)
    ensures r == Deserialize(buf)
  {
    if |buf| < HEADER { return None; }
    if FromLe64(buf[0..8]) != SUPER_MAGIC { return None; }
    if buf[12..22] != MAGIC { return None; }
    if FromLe32(buf[22..26]) != VERSION { return None; }
    var count := FromLe32(buf[26..30]);
    var tree := ReadAll(buf, HEADER, count);
    r := Some(tree);
  }

  method ReadAll(buf: seq<byte>, start: nat, count: nat) returns (tree: Tree)
    ensures tree == ReadEntries(Parser(buf), start, count, map[])
  {
    tree := map[];
    var cursor := start;
    for i := 0 to count
      invariant ReadEntries(Parser(buf), cursor, count - i, tree) == ReadEntries(Parser(buf), start, count, map[])
    {
      var e := ReadEntry(buf, cursor);
      if e.Stop? { break; }
      tree := tree[e.path := e.node];
      cursor := e.cursor;
    }
  }

  // ---- Reading the image -----------------------------------------------------------------------------

  lemma OneSector(disk: Disk, lba: nat)
    requires lba < |disk|
    ensures Join(disk, lba, 1) == disk[lba]
  {
    assert Join(disk, lba, 1) == Join(disk, lba, 0) + disk[lba];
  }

  method ReadHeader(drive: Drives.Drive) returns (r: Option<seq<byte>>)
    requires drive.Valid()
    ensures r == if LBA_BASE < |drive.sectors| then Some(drive.sectors[LBA_BASE]) else None
  {
    var hdr := new byte[SECTOR](_ => 0);
    var ok := drive.Read(LBA_BASE, 1, hdr, 0, SECTOR);
    if !ok { return None; }
    OneSector(drive.sectors, LBA_BASE);
    assert hdr[..] == hdr[0..SECTOR];
    r := Some(hdr[..]);
  }

  /** The batched read of the image. */
  method ReadSectors(drive: Drives.Drive, n: nat) returns (r: Option<seq<byte>>)
    requires drive.Valid() && 0 < n <= MAX_SECTORS && LBA_BASE < |drive.sectors|
    ensures r == if LBA_BASE + n <= |drive.sectors| then Some(Join(drive.sectors, LBA_BASE, n)) else None
  {
    var buf := new byte[n * SECTOR](_ => 0);
    var done := 0;
    while done < n
      invariant done <= n && LBA_BASE + done <= |drive.sectors|
      invariant buf[..done * SECTOR] == Join(drive.sectors, LBA_BASE, done)
    {
      var batch := Min(n - done, Drives.BATCH);
      var ok := drive.Read(LBA_BASE + done, batch, buf, done * SECTOR, batch * SECTOR);
      if !ok { return None; }
      JoinGrows(drive.sectors, done, batch, buf[..]);
      done := done + batch;
    }
    assert buf[..n * SECTOR] == buf[..];
    r := Some(buf[..]);
  }

  lemma JoinGrows(disk: Disk, done: nat, batch: nat, buf: seq<byte>)
    requires Drives.Whole(disk) && LBA_BASE + done + batch <= |disk| && (done + batch) * SECTOR <= |buf|
    requires buf[..done * SECTOR] == Join(disk, LBA_BASE, done)
    requires buf[done * SECTOR..done * SECTOR + batch * SECTOR] == Join(disk, LBA_BASE + done, batch)
    ensures buf[..(done + batch) * SECTOR] == Join(disk, LBA_BASE, done + batch)
  {
    Drives.JoinJoin(disk, LBA_BASE, done, batch);
    assert buf[..(done + batch) * SECTOR] == buf[..done * SECTOR] + buf[done * SECTOR..done * SECTOR + batch * SECTOR];
  }

  /** `read_from_disk` */
  method ReadFromDisk(drive: Drives.Drive) returns (r: Option<seq<byte>>)
    requires drive.Valid()
    ensures r == ReadImage(drive.sectors)
  {
    var h := ReadHeader(drive);
    if h.None? { return None; }
    var hdr := h.value;
    if FromLe64(hdr[0..8]) != SUPER_MAGIC { return None; }
    var n := FromLe32(hdr[8..12]);
    if n == 0 || n > MAX_SECTORS { return None; }
    r := ReadSectors(drive, n);
  }

  // ---- Sync ---------------------------------------------------------------------------------------------

  /** RamFS and its disk. */
  datatype Machine = Machine(fs: RamFs.State, disk: Disk)

  /** The tree can be serialized: any visiting order, a size within the addresses of the disk driver. */
  ghost predicate Syncable(t: Tree, order: seq<Path>) {
    && Enumerates(order, t) && |order| < 0x1_0000_0000
    && LBA_BASE + SectorsNeeded(RequiredSize(t, order)) <= Drives.LBA32
  }

  /** What `sync_filesystem` does: nothing when clean; nothing without a tree or a buffer; otherwise it writes
      the image and clears the marks, unless the image does not fit on the disk. */
  ghost predicate SyncResult(m: Machine, m': Machine, order: seq<Path>, buffer: bool, ok: bool)
    requires Syncable(m.fs.nodes, order)
  {
    if !m.fs.dirty then ok && m' == m
    else if !m.fs.ready || m.fs.nodes == map[] || !buffer then !ok && m' == m
    else if LBA_BASE + SectorsNeeded(RequiredSize(m.fs.nodes, order)) <= |m.disk|
    then ok && m' == Machine(m.fs.(dirty := false, lastDirty := NEVER), Saved(m.disk, m.fs.nodes, order))
    else !ok && m'.fs == m.fs && |m'.disk| == |m.disk|
  }

  /** `required_size` */
  method ComputeSize(t: Tree, order: seq<Path>) returns (total: nat)
    requires forall k :: k in order ==> k in t
    ensures total == RequiredSize(t, order)
  {
    total := HEADER;
    var i := |order|;
    assert order[i..] == [];
    while i > 0
      invariant 0 <= i <= |order| && (forall k :: k in order[i..] ==> k in t) && total == RequiredSize(t, order[i..])
    {
      i := i - 1;
      assert order[i..][1..] == order[i + 1..];
      total := total + EntryNeed(order[i], t[order[i]]);
    }
    assert order[0..] == order;
  }

  /** A zeroed buffer with the serialized tree in front is the image. */
  lemma BufferIsImage(t: Tree, order: seq<Path>, buf: seq<byte>, n: nat, len: nat)
    requires Syncable(t, order) && n == SectorsNeeded(RequiredSize(t, order)) && n * SECTOR <= |buf|
    requires len == HEADER + |Body(t, order)|
    requires len <= |buf| && buf[..len] == Header(n, Count(order)) + Body(t, order)
    requires forall i :: len <= i < |buf| ==> buf[i] == 0
    ensures Patch(buf, 8, ToLe(4, n))[..n * SECTOR] == Image(t, order)
  {
    BodyFits(t, order);
    var img := Image(t, order);
    assert buf[..n * SECTOR] == img by {
      assert forall i :: 0 <= i < n * SECTOR ==> buf[i] == if i < len then buf[..len][i] else 0;
    }
    var h := Header(n, Count(order));
    assert h[8..12] == ToLe(4, n);
    assert buf[8..12] == buf[..len][8..12] == h[8..12];
    assert Patch(buf, 8, ToLe(4, n)) == buf;
  }

  class Persistence {
    const fs: RamFs.RamFs
    const drive: Drives.Drive
    var med: array<byte>
    var snapshotBytes: nat

    constructor (fs: RamFs.RamFs, drive: Drives.Drive)
      ensures this.fs == fs && this.drive == drive && fresh(med) && med.Length == 0 && snapshotBytes == 0
    {
      this.fs := fs;
      this.drive := drive;
      med := new byte[0];
      snapshotBytes := 0;
    }

    ghost function Value(): Machine
      reads this, fs, drive
    {
      Machine(fs.Value(), drive.sectors)
    }

    /** The scratch buffer: kept while it is large enough, else taken anew if frames can be had. */
    method TakeBuffer(total: nat, frames: bool) returns (ok: bool)
      modifies this`med
      ensures ok == (old(med).Length >= total || frames)
      ensures ok ==> med.Length >= total && (med == old(med) || fresh(med))
      ensures !ok ==> med == old(med)
    {
      if med.Length >= total { return true; }
      if !frames { return false; }
      med := new byte[(total + FRAME - 1) / FRAME * FRAME];
      ok := true;
    }

    /** Serialize the tree into the buffer and write it out. */
    method WriteOut(order: seq<Path>, n: u32) returns (ok: bool)
      requires drive.Valid() && Syncable(fs.nodes, order) && n == SectorsNeeded(RequiredSize(fs.nodes, order))
      requires med.Length >= n * SECTOR
      modifies drive`sectors, med
      ensures drive.Valid() && |drive.sectors| == |old(drive.sectors)|
      ensures ok == (LBA_BASE + n <= |drive.sectors|)
      ensures ok ==> drive.sectors == Saved(old(drive.sectors), fs.nodes, order)
    {
      forall i | 0 <= i < med.Length { med[i] := 0; }
      ghost var zeros := med[..];
      BodyFits(fs.nodes, order);
      var written := Serialize(fs.nodes, order, med, med.Length, n);
      if written.None? { assert false; return false; }
      ghost var len := written.value;
      assert forall i :: len <= i < med.Length ==> med[i] == med[len..][i - len] == 0;
      BufferIsImage(fs.nodes, order, med[..], n, len);
      Drives.CopyIn(med, 8, ToLe(4, n));
      ok := drive.Write(LBA_BASE, n, med[..n * SECTOR]);
    }

    method Sync(order: seq<Path>, frames: bool) returns (ok: bool)
      requires drive.Valid() && Syncable(fs.nodes, order)
      modifies this, fs`dirty, fs`lastDirty, drive`sectors, med
      ensures drive.Valid()
      ensures var n := SectorsNeeded(RequiredSize(fs.nodes, order));
              SyncResult(old(Value()), Value(), order, old(med).Length >= n * SECTOR || frames, ok)
      ensures ok && old(fs.dirty) ==> snapshotBytes == SectorsNeeded(RequiredSize(fs.nodes, order)) * SECTOR
    {
      if !fs.dirty { return true; }
      if !fs.ready || fs.nodes == map[] { return false; }
      var required := ComputeSize(fs.nodes, order);
      var n := SectorsNeeded(required);
      ok := TakeBuffer(n * SECTOR, frames);
      if !ok { return; }
      ok := WriteOut(order, n);
      if !ok { return; }
      SavedHeader(old(drive.sectors), fs.nodes, order);
      var h := ReadHeader(drive);
      if h.None? || FromLe64(h.value[0..8]) != SUPER_MAGIC { return false; }
      fs.lastDirty := NEVER;
      fs.dirty := false;
      snapshotBytes := n * SECTOR;
    }

    /** Boot recovery: the tree on disk, if there is one, replaces the tree in memory. */
    method Recover() returns (ok: bool)
      requires drive.Valid()
      modifies fs
      ensures ok == Load(drive.sectors).Some?
      ensures Value() == if ok then old(Value()).(fs := old(Value()).fs.(ready := true, nodes := Load(drive.sectors).value))
                         else old(Value())
    {
      var data := ReadFromDisk(drive);
      if data.None? { return false; }
      var tree := DeserializeLoop(data.value);
      if tree.None? { return false; }
      fs.Restore(tree.value);
      ok := true;
    }
  }
}
