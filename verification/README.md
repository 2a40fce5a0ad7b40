# Verified model of the AETERNA kernel's storage, network and install paths

A Dafny 4.11 model of the parts of the kernel that keep data: the AeternaFS disk filesystem, the TCP
connection, RamFS with its persistence on disk, the installer's GPT and FAT32 writers with the GPT parser,
the NVMe completion queues, the file descriptor layer, and the small pieces that go with them (block layer,
checksums, ARP cache, audio resampler). `dafny verify dfyconfig.toml` checks the project.

Every operation exists twice where the kernel changes things in place: as a class or method with the kernel's
own fields and loops, and as a function on values that says what it does. The methods are proved against the
functions, and the theorems are about the functions, so they hold of the methods.

| files | what they hold |
|---|---|
| `Bytes`, `Paths`, `Sectors`, `Utf8` | little-endian fields, slices, disks as sequences of sectors, strings |
| `AeternaModel`, `AeternaSound`, `AeternaDirs`, `AeternaFiles`, `AeternaTree`, `AeternaMkdir`, `AeternaLaws` | AeternaFS as a value; block ownership; directories as maps; write and read; the directory tree; what mkdir changes and when its report is true; what each write leaves to read and which blocks it takes |
| `AeternaLayout`, `AeternaFs` | its bytes on disk, and the filesystem object that works on them |
| `TcpModel`, `TcpDelivery`, `TcpConn` | a connection as a value with its runs; what segments and pairs of connections do; ring buffer and connection objects |
| `RamFsModel`, `RamFsLaws`, `RamFsInit`, `RamFsNames`, `RamFs` | RamFS as a map of paths; what each operation leaves in it; the tree it starts from; its keys as strings; the object |
| `Drives`, `AtaWrap` | batched disk access; what it does with addresses beyond 32 bits |
| `DiskImage`, `DiskSync`, `CleanSaved` | the persistence image; serializer, loader and sync; "clean means saved" and the deferred flush over runs |
| `Fat32`, `Installer`, `EspGeometry`, `EspDirs`, `EspOverrun`, `EspInstall` | cluster chains and files; the installer's writes; the computed geometry and the boot sector; directories and a reader; chains past the table; the system partition by path |
| `Gpt`, `GptDisk`, `Install` | partition table writer and parser; everything on one disk, and a reader that knows nothing but the disk |
| `NvmeModel`, `Nvme` | phase-bit protocol over every interleaving; the queue pair |
| `VfsModel`, `Descriptors`, `Vfs` | mounts, resolution, descriptor calls; the abstract machine they refine over every run; the tables |
| `Resampler`, `Checksum`, `ArpCache` | one module each |

Disks are arrays of sectors that never fail inside their bounds. Numbers are unbounded unless a width matters:
sequence numbers, checksums, ticks, 32-bit disk addresses and stored fields have their width written out.

Some properties one would expect do not hold of the code. The model keeps the code as it is, states the failing
case and says when the property does hold:

- the root directory of AeternaFS is given block 0, which reads as no block, so its dot entries are never seen (`AeternaFs.RootIsBlockZero`);
- mkdir on AeternaFS reports success although nothing was entered (`AeternaMkdir.MkdirTruth`, `AeternaMkdir.LongNameLies`);
- a TCP connection in CloseWait takes any acknowledgment (`TcpModel.CloseWaitWindow`, `TcpModel.CloseWaitAcceptsUnsent`);
- a FIN is taken whatever its sequence number, so one that overtakes data ends the stream early (`TcpDelivery.FinExact`, `TcpDelivery.EarlyFin`);
- only the last chunk is kept for retransmission, and it is resent at `snd_una` (`TcpModel.ResendExact`, `TcpModel.RetransmitAfterSend`);
- a tree beyond the limits of the image format does not survive a reboot (`DiskImage.RoundTripExact`);
- a write below a file leaves RamFS no tree (`RamFsModel.WriteBelowFileBreaksTree`, `RamFsModel.WriteKeepsTreeExactly`);
- renames alone are never flushed by the deferred tick (`CleanSaved.DeferredFlushExact`, `CleanSaved.RenamesAreNotFlushed`);
- ATA addresses beyond 32 bits wrap, for reads and for writes (`AtaWrap.ReadExact`, `AtaWrap.WriteExact`, `Drives.HighAddressAliases`, `AtaWrap.HighWriteOverwrites`);
- the computed FAT covers about half of the clusters, and a kernel whose chain leaves it cannot be read (`EspGeometry.TableIsShort`, `EspInstall.InstallEsp`, `EspInstall.KernelLost`);
- after a timeout an NVMe poll returns the status of an earlier command (`NvmeModel.TimeoutsShiftAnswers`, `NvmeModel.LateAnswer`);
- opening with flag 2 allows reading only, where the comment in the source promises reading and writing (`VfsModel.OpenModes`);
- a call with too many frames makes the resampler lose input (`Resampler.NoDrift`, `Resampler.TruncatedExact`), and the last frame of a call is held instead of blended (`Resampler.ValueInStream`);
- an ARP insertion evicts a fresh entry although slots are free, against its comment (`ArpCache.InsertionEvicts`, `ArpCache.EvictsFreshEntry`).

## Model

| member | source | states |
|---|---|---|
| `AeternaFiles.WriteThenRead` | vfs/aeternafs.rs:537-624 | after a successful write to a path that names no directory, the path resolves to the written file and reads as the first min(len, 8 sectors) bytes of the data; every path that resolved before still resolves to the same inode; and every path reads what it read before, unless it resolves to the written file |
| `AeternaFiles.WriteFrame` | vfs/aeternafs.rs:561-624 | also for writes that fail half way for lack of space: every path that resolved to another inode still does, and reads the same |
| `AeternaLaws.AppendThenRead` | vfs/aeternafs.rs:626-632 | after a successful append to a path that names no directory the path reads as what it read before, then the bytes of the data, cut at 8 sectors; every other path resolves and reads as before |
| `AeternaLaws.WriteAtThenRead` | vfs/aeternafs.rs:528-535 | after a successful write at an offset it reads, byte by byte up to 8 sectors: the data where it was written, else the old byte, else zero; other paths as before |
| `AeternaLaws.TouchThenRead` | vfs/aeternafs.rs:727-730 | a touch changes nothing at an existing path, and makes a missing one read as empty; other paths as before |
| `AeternaLaws.ReadLength` | vfs/aeternafs.rs:537-559 | no path ever reads longer than 8 sectors |
| `AeternaLaws.OverwriteExact` | vfs/aeternafs.rs:571-624 | overwriting succeeds if and only if the blocks the data needs (one a sector, at most eight) are clear or the file's own; then exactly that many fewer are clear |
| `AeternaLaws.CreateAndFillExact` | vfs/aeternafs.rs:585-624 | a missing path is written if and only if it can be created and the blocks left then suffice; block accounting is exact |
| `AeternaLaws.RemoveGivesBack` | vfs/aeternafs.rs:756-783 | removing what a path resolves to makes as many blocks clear as it had pointers, and its inode free |
| `AeternaSound.ApplySound` | vfs/aeternafs.rs:245-312 | every operation with any arguments and any outcome, running out of space included, keeps: used pointers in range and marked, no block pointed to twice, block 0 marked, used pointers contiguous, unused inodes free |
| `AeternaSound.FormattedSound` | vfs/aeternafs.rs:866-881 | what `mkfs` leaves behind has that property |
| `AeternaSound.OwnershipOverRuns` | vfs/aeternafs.rs:292-305 | it holds in every state of every run, and there an allocation never hands out block 0 or a block any inode points to |
| `AeternaSound.Owns` | vfs/aeternafs.rs:245-312 | a used pointer of any inode is in range and its block is marked |
| `AeternaSound.Apart` | vfs/aeternafs.rs:245-312 | two different pointer slots never name the same block |
| `AeternaDirs.LookupIsMapLookup` | vfs/aeternafs.rs:413-435 | lookup over the packed 32-byte entries is lookup in the finite map the directory stands for, first entry first |
| `AeternaDirs.AddIsMapInsert` | vfs/aeternafs.rs:438-484 | adding a new storable name is map insertion of exactly that pair, and keeps pointers contiguous |
| `AeternaDirs.RemoveIsMapDelete` | vfs/aeternafs.rs:487-513 | removing is map deletion, and reports whether the name was there |
| `AeternaDirs.AddFailsWhenFull` | vfs/aeternafs.rs:438-484 | with a name of at most 27 bytes adding fails if and only if all reachable slots are taken and either all eight pointers or all blocks are in use |
| `AeternaTree.PathsAreLive` | vfs/aeternafs.rs:399-410 | in a tidy filesystem a path resolves to nothing, a directory or an allocated regular file |
| `AeternaTree.RemoveSpec` | vfs/aeternafs.rs:756-783 | removing a regular file takes away exactly the paths that resolved to it; every other path resolves and reads as before |
| `AeternaMkdir.MkdirFrame` | vfs/aeternafs.rs:680-725 | mkdir through directories, with missing parents and also when space runs out, keeps the tree tidy; for every path: one that resolved leads to the same inode and reads the same, and one without dot components that did not resolve still does not, or leads to a directory made by the call and reads as nothing |
| `AeternaTree.ApplyTidy` | vfs/aeternafs.rs:561-783 | every operation in scope keeps: entries name allocated inodes, a regular file is entered under one name, names are unique in a directory |
| `AeternaTree.TreeOverRuns` | vfs/aeternafs.rs:561-783 | this holds over every run from a formatted disk |
| `AeternaMkdir.MkdirTruth` | vfs/aeternafs.rs:680-725 | mkdir reports success even when it could not enter the new directory: the path exists afterwards if and only if, before the call, the name has at most 27 bytes and the parent has a free slot, or a free pointer and two blocks are clear, since the dot entry takes one |
| `AeternaMkdir.LongNameLies` | vfs/aeternafs.rs:680-725 | the failing input: a name of 28 bytes on any freshly formatted disk |
| `AeternaMkdir.CreateExact` | vfs/aeternafs.rs:585-603 | a missing path in an existing directory is created if and only if an inode is free, the name has at most 27 bytes, and the directory has a free slot, or a free pointer and a block is clear |
| `AeternaTree.FirstFile` | vfs/aeternafs.rs:561-624 | so on every formatted disk with a block to spare a first file with any name that fits can be written and is read back |
| `AeternaModel.SplitIsLastComponent` | vfs/aeternafs.rs:925-936 | `split_path` gives the last component as the name and a parent with exactly the components before it |
| `AeternaModel.LookupThroughParent` | vfs/aeternafs.rs:399-410 | a path resolves exactly as its last name does in the directory its parent resolves to |
| `AeternaLayout.InodeRoundTrip` | vfs/aeternafs.rs:317-375 | decoding the bytes of an encoded inode gives the inode back |
| `AeternaLayout.BitmapSetSets` | vfs/aeternafs.rs:230-243 | setting a bit of a bitmap changes that bit and no other |
| `AeternaLayout.ViewFrame` | vfs/aeternafs.rs:183-212 | tables and blocks that none of the changed sectors holds are read as before |
| `AeternaLayout.WriteInodeBit` | vfs/aeternafs.rs:215-263 | rewriting the inode bitmap with one bit changed changes one allocation mark of the filesystem and nothing else |
| `AeternaLayout.WriteBlockBit` | vfs/aeternafs.rs:266-312 | the same for the block bitmap, which spans several sectors |
| `AeternaLayout.WriteInodeSlot` | vfs/aeternafs.rs:351-375 | read-modify-write of an inode sector changes one inode and none of its neighbours |
| `AeternaLayout.WriteDataSector` | vfs/aeternafs.rs:386-395 | writing a data block changes that block and nothing else |
| `AeternaLayout.WriteSuperblock` | vfs/aeternafs.rs:905-915 | flushing the superblock changes nothing the filesystem consists of |
| `AeternaFs.AeternaFs.ReadLba` | vfs/aeternafs.rs:183-196 | returns the sector at the partition-relative address |
| `AeternaFs.AeternaFs.WriteLba` | vfs/aeternafs.rs:198-212 | replaces exactly that sector |
| `AeternaFs.AeternaFs.AllocInode` | vfs/aeternafs.rs:245-256 | takes the first clear inode bit from 2 on, or 0 when there is none |
| `AeternaFs.AeternaFs.FreeInode` | vfs/aeternafs.rs:258-263 | clears one inode bit |
| `AeternaFs.AeternaFs.ReadBlockBmap` | vfs/aeternafs.rs:266-275 | joins the sectors of the block bitmap |
| `AeternaFs.AeternaFs.WriteBlockBmap` | vfs/aeternafs.rs:277-290 | writes them back, so that the marks of the filesystem are those of the buffer |
| `AeternaFs.AeternaFs.AllocBlock` | vfs/aeternafs.rs:292-305 | takes the first clear block bit, or reports that there is none |
| `AeternaFs.AeternaFs.FreeBlock` | vfs/aeternafs.rs:307-312 | clears one block bit |
| `AeternaFs.AeternaFs.ReadInodeRaw` | vfs/aeternafs.rs:317-348 | returns the decoded inode of the table |
| `AeternaFs.AeternaFs.WriteInodeRaw` | vfs/aeternafs.rs:351-375 | stores an inode in its slot |
| `AeternaFs.AeternaFs.ReadBlock` | vfs/aeternafs.rs:380-384 | returns a data block |
| `AeternaFs.AeternaFs.WriteBlock` | vfs/aeternafs.rs:386-395 | stores a data block, padded with zeros |
| `AeternaFs.AeternaFs.FlushSuperblock` | vfs/aeternafs.rs:905-915 | rewrites the superblock and leaves the filesystem as it is |
| `AeternaFs.AeternaFs.LookupPath` | vfs/aeternafs.rs:399-410 | the loop over components resolves the path |
| `AeternaFs.AeternaFs.DirLookup` | vfs/aeternafs.rs:413-435 | the loops over blocks and slots find the first entry of that name |
| `AeternaFs.AeternaFs.DirAddEntry` | vfs/aeternafs.rs:438-484 | stores the entry in the first unused slot or in a new block; the disk afterwards stands for exactly the filesystem the operation specifies |
| `AeternaFs.AeternaFs.GrowDir` | vfs/aeternafs.rs:466-482 | adds one zeroed block with one entry to a directory |
| `AeternaFs.AeternaFs.DirRemoveEntry` | vfs/aeternafs.rs:487-513 | clears the entry of that name; the disk afterwards stands for exactly the filesystem the operation specifies |
| `AeternaFs.AeternaFs.ReadFile` | vfs/aeternafs.rs:537-559 | returns the bytes of a regular file |
| `AeternaFs.AeternaFs.WriteFile` | vfs/aeternafs.rs:561-624 | creates or truncates, then fills; the disk afterwards stands for exactly the filesystem the operation specifies |
| `AeternaFs.AeternaFs.FillBlocks` | vfs/aeternafs.rs:604-617 | allocates and writes block after block until the data or the pointers end, or space runs out; the disk afterwards stands for exactly the filesystem the operation specifies |
| `AeternaFs.AeternaFs.Truncate` | vfs/aeternafs.rs:571-583 | frees the blocks of a file |
| `AeternaFs.AeternaFs.AppendFile` | vfs/aeternafs.rs:626-632 | read, extend, write; the disk afterwards stands for exactly the filesystem the operation specifies |
| `AeternaFs.AeternaFs.WriteAt` | vfs/aeternafs.rs:528-535 | read, overlay with zero fill, write; the disk afterwards stands for exactly the filesystem the operation specifies |
| `AeternaFs.AeternaFs.Touch` | vfs/aeternafs.rs:727-730 | creates an empty file, or does nothing if the path exists; the disk afterwards stands for exactly the filesystem the operation specifies |
| `AeternaFs.AeternaFs.Mkdir` | vfs/aeternafs.rs:680-725 | makes missing parents first; the disk afterwards stands for exactly the filesystem the operation specifies |
| `AeternaFs.AeternaFs.Remove` | vfs/aeternafs.rs:756-783 | frees the blocks and the inode, then drops the name; the disk afterwards stands for exactly the filesystem the operation specifies |
| `AeternaFs.AeternaFs.Mount` | vfs/aeternafs.rs:149-173 | accepts a superblock with the right magic and takes over its fields |
| `AeternaFs.AeternaFs.Mkfs` | vfs/aeternafs.rs:791-902 | succeeds if and only if there is a data block, and leaves a formatted filesystem: all inodes free but the root, which has no readable block, and only block 0 marked |
| `AeternaFs.RootIsBlockZero` | vfs/aeternafs.rs:866-881 | `mkfs` always gets block 0 for the root directory, so the first root pointer reads as no block |
| `TcpModel.StreamSafety` | net/tcp.rs:450-483 | for any loss, duplication and reordering of segments of a peer's stream shorter than 2^32 bytes, over every run, the bytes read followed by the ring are a prefix of the stream, bytes read are never taken back, and while established `rcv_nxt` is irs + 1 plus their number modulo 2^32 |
| `TcpModel.OpensInSync` | net/tcp.rs:416-448 | both ways of opening a connection start in that relation |
| `TcpModel.AckInRangeExact` | net/tcp.rs:546-553 | `ack_in_range` is membership in the circular interval from una to nxt modulo 2^32, both ways |
| `TcpModel.ArriveWindow` | net/tcp.rs:415-543 | for an arbitrary segment in every state but CloseWait `snd_una` moves forward or stays and never passes `snd_nxt` |
| `TcpModel.WindowSafety` | net/tcp.rs:415-543 | over every run before CloseWait the acknowledged count never decreases and never passes the sent count, and the two sequence numbers stand for them |
| `TcpModel.OpensWindow` | net/tcp.rs:559-575 | a new connection has one sequence number sent and none acknowledged |
| `TcpModel.CloseWaitWindow` | net/tcp.rs:534-538 | in CloseWait the window survives a segment if and only if it is a reset, carries no acknowledgment or acknowledges something in range |
| `TcpModel.CloseWaitAcceptsUnsent` | net/tcp.rs:534-538 | the segment that breaks it there: an acknowledgment of one number past everything sent |
| `TcpModel.SendIsFaithful` | net/tcp.rs:700-736 | the payloads sent are exactly the data in order, each at its place in the stream, none too large for the segment builder, each acknowledging `rcv_nxt` and telling the room in the ring, and `snd_nxt` advances by their length |
| `TcpModel.CloseSendsOneFin` | net/tcp.rs:809-862 | however the peer behaves while an open connection is closed, exactly one FIN goes out, first and at `snd_nxt` with an acknowledgment of `rcv_nxt`, and the block is free afterwards |
| `TcpModel.ResendExact` | net/tcp.rs:773-782 | resending the last chunk at `snd_una` is faithful for all streams if and only if nothing before it is unacknowledged |
| `TcpModel.RetransmitAfterSend` | net/tcp.rs:728-731 | a retransmission after a send is faithful for all data of that length if and only if it went out as one chunk and everything before is acknowledged |
| `TcpDelivery.InOrderTaken` | net/tcp.rs:461-470 | in Established, in-order data goes behind the ring's contents as far as there is room, `rcv_nxt` advances by as many bytes, and exactly one segment answers: a pure acknowledgment of the new `rcv_nxt` at `snd_nxt` that tells the room left |
| `TcpDelivery.OthersIgnored` | net/tcp.rs:450-483 | any other segment without RST and FIN changes neither ring nor `rcv_nxt` and is not answered |
| `TcpDelivery.AckTaken` | net/tcp.rs:451-458 | an acknowledgment sets the window, and exactly one between una and nxt on the circle sets `snd_una` and drops the kept chunk |
| `TcpDelivery.ReceivesExactly` | net/tcp.rs:415-543 | in every state but SynSent: which bytes are taken, when a FIN counts, the new `rcv_nxt`, when there is an answer, and that it acknowledges all of it |
| `TcpDelivery.Transitions` | net/tcp.rs:415-543 | for every state, when a segment without RST leads to it, both ways |
| `TcpDelivery.ResetCloses` | net/tcp.rs:409-413 | a reset closes in every state and is not answered |
| `TcpDelivery.WrongAnswer` | net/tcp.rs:431-438 | a SYN-ACK of anything but our SYN is answered by one reset and closes |
| `TcpDelivery.InOrderDelivers` | net/tcp.rs:450-483 | if the segments of a stream arrive in order, each fitting when it arrives, with any reads and writes in between, the whole stream is received, and an application that reads everything has got exactly the stream |
| `TcpDelivery.FinExact` | net/tcp.rs:473-482 | at the FIN behind the last byte the stream is complete if and only if that segment was the next one expected or nothing was missing |
| `TcpDelivery.EarlyFin` | net/tcp.rs:473-482 | the failing input: the FIN of any non-empty stream before its data |
| `TcpDelivery.Handshake` | net/tcp.rs:416-448 | for all initial numbers, SYN-ACK and its answer establish both sides, each expecting what the other sends next |
| `TcpDelivery.Transfer` | net/tcp.rs:700-742 | data sent over such a pair, in as many chunks as the window asks for, is read whole and in order on the other side, and the acknowledgments that come back leave nothing outstanding and nothing kept |
| `TcpDelivery.Teardown` | net/tcp.rs:809-845 | an orderly close, state by state and number by number: FinWait1, FinWait2, TimeWait on one side, CloseWait, LastAck, Closed on the other |
| `TcpDelivery.SimultaneousClose` | net/tcp.rs:485-507 | when the FINs cross, both sides answer and end in TimeWait |
| `TcpConn.RxRing.Write` | net/tcp.rs:97-106 | appends as much of the data as fits behind the contents of the ring, over the wrap-around |
| `TcpConn.RxRing.Read` | net/tcp.rs:108-116 | takes the oldest bytes out of the ring in order |
| `TcpConn.TcpConn.Connect` | net/tcp.rs:559-575 | a connection in SynSent with its initial numbers |
| `TcpConn.TcpConn.HandleSegment` | net/tcp.rs:394-543 | the state machine for one segment: state, numbers, ring contents and segments sent are those of `TcpModel.Handle`, which `TcpDelivery.ReceivesExactly`, `TcpDelivery.Transitions` and `TcpDelivery.AckTaken` describe |
| `TcpConn.TcpConn.HandleEstablished` | net/tcp.rs:450-483 | acknowledgment, data and FIN in Established, as `TcpModel.Handle` says; what that leaves in ring and numbers is `TcpDelivery.InOrderTaken` and `TcpDelivery.OthersIgnored` |
| `TcpConn.TcpConn.Send` | net/tcp.rs:700-742 | the chunk loop: segments sent, numbers, kept chunk and result |
| `TcpConn.TcpConn.Recv` | net/tcp.rs:744-758 | hands out the oldest bytes of the ring |
| `TcpConn.TcpConn.Close` | net/tcp.rs:809-845 | the part before the wait: in Established and CloseWait a FIN, one sequence number and the next state; in every other state a fresh block |
| `TcpConn.TcpConn.CloseFully` | net/tcp.rs:809-862 | FIN, the polls until the peer has answered or the time is over, and the reset: everything sent, and a fresh block |
| `TcpConn.TcpConn.Reset` | net/tcp.rs:175-177 | a fresh connection block with an empty ring |
| `RamFsModel.RenameMoves` | vfs/ramfs.rs:559-613 | on a tree, with a source other than the root and a destination that is no existing directory and has no file above it: every key from+s appears at to+s with its node, every other key keeps its node but for a file overwritten at the destination, and new keys are directories on the way; also into the moved subtree |
| `RamFsModel.RenameIsTree` | vfs/ramfs.rs:559-613 | such a rename keeps the tree a tree |
| `RamFsModel.ApplyIsTree` | vfs/ramfs.rs:286-393 | every operation in scope keeps: each key but the root has a parent that is the root or a directory |
| `RamFsModel.TreeOverRuns` | vfs/ramfs.rs:286-632 | this holds over every run in scope |
| `RamFsInit.InitTreeIsTree` | vfs/ramfs.rs:75-199 | the tree that `init` builds, key by key and for any texts of its files, is a tree |
| `RamFsInit.TreeSinceInit` | vfs/ramfs.rs:75-632 | so it stays one in every state of every run in scope since `init` |
| `RamFsModel.WriteBelowFileBreaksTree` | vfs/ramfs.rs:342-363 | the scope is needed: a write below a file leaves a key whose parent is a file |
| `RamFsModel.WriteKeepsTreeExactly` | vfs/ramfs.rs:342-363 | a write keeps the tree if and only if its path is not the root, no ancestor of it is a file, and nothing lies below it |
| `RamFsModel.MkdirAllAdds` | vfs/ramfs.rs:618-632 | creating a directory with its parents adds directories only, at the path and its ancestors, and changes no node |
| `RamFsModel.NormalizeExact` | vfs/ramfs.rs:217-231 | the normalized path is the one path that is the root or does not end in a slash and from which the given one, with a slash put before it if it has none, differs by trailing slashes only |
| `RamFsModel.Parent` | vfs/ramfs.rs:242-251 | the path up to its last slash, or the root |
| `RamFs.ChangesAreMarked` | vfs/ramfs.rs:324-613 | an operation that leaves the tree unmarked has not changed it, and no operation takes a mark back |
| `RamFsLaws.WriteStores` | vfs/ramfs.rs:342-363 | after a write the normalized path holds exactly the data; every other key keeps its node, and new keys are directories above the path |
| `RamFsLaws.AppendStores` | vfs/ramfs.rs:365-393 | after an append it holds what the file held, followed by the data, or just the data if there was no file |
| `RamFsLaws.WriteAtStores` | vfs/ramfs.rs:286-326 | a write at an offset fails exactly on a directory and then changes nothing; else the file holds, byte by byte, the data where it was written, the old byte, or zero |
| `RamFsLaws.TouchStores` | vfs/ramfs.rs:466-489 | a touch changes nothing where something is, and else makes an empty file |
| `RamFsLaws.MkdirStores` | vfs/ramfs.rs:452-464 | after a mkdir the path holds what it held, or a directory if it held nothing; every other key keeps its node |
| `RamFsLaws.RemoveExact` | vfs/ramfs.rs:527-557 | a removal succeeds if and only if the path is a file, or a directory with nothing below it, and is not the root; then exactly that key is gone |
| `RamFsLaws.RenameStores` | vfs/ramfs.rs:559-613 | the moves of a rename as the filesystem object shows them, with flag and tick |
| `RamFsLaws.NothingWithoutTree` | vfs/ramfs.rs:286-613 | before `init` every operation changes nothing, and fails unless it renames a path to itself |
| `RamFs.RamFs.MkdirInternal` | vfs/ramfs.rs:618-632 | inserts the missing directories recursively |
| `RamFs.RamFs.WriteFile` | vfs/ramfs.rs:342-363 | replaces the file, making parents: tree, flag and tick afterwards are those of the specification |
| `RamFs.RamFs.AppendFile` | vfs/ramfs.rs:365-393 | extends or creates: tree, flag and tick afterwards are those of the specification |
| `RamFs.RamFs.WriteAt` | vfs/ramfs.rs:286-326 | overlays with zero fill, refuses a directory, creates otherwise: tree, flag and tick afterwards are those of the specification |
| `RamFs.RamFs.Touch` | vfs/ramfs.rs:466-489 | creates if absent: tree, flag and tick afterwards are those of the specification |
| `RamFs.RamFs.Mkdir` | vfs/ramfs.rs:452-464 | directory with parents: tree, flag and tick afterwards are those of the specification |
| `RamFs.RamFs.Remove` | vfs/ramfs.rs:527-557 | refuses the root, a missing path and a directory with children: tree, flag and tick afterwards are those of the specification |
| `RamFs.RamFs.TakeSubtree` | vfs/ramfs.rs:574-595 | the removal loop, whatever its order: the subtree is gone and the list holds each node at its new key |
| `RamFs.RamFs.Rename` | vfs/ramfs.rs:559-613 | the whole move; it sets the flag without stamping the tick: tree, flag and tick afterwards are those of the specification |
| `RamFs.RamFs.Restore` | vfs/ramfs.rs:779-791 | replaces the tree |
| `RamFsNames.ApplyStrings` | vfs/ramfs.rs:217-251 | operations with UTF-8 arguments keep every key UTF-8, although paths are cut and joined as bytes |
| `Utf8.Cut` | vfs/ramfs.rs:242-251 | cutting a UTF-8 string before an ASCII byte leaves two UTF-8 strings |
| `Utf8.ValidExact` | vfs/disk_sync.rs:234 | the UTF-8 check accepts exactly the encodings (section 3 of RFC 3629) of sequences of Unicode scalar values |
| `DiskImage.RoundTripExact` | vfs/disk_sync.rs:111-194 | serialize, pad, write, read the header, read and deserialize gives the same tree if and only if every path has at most 65535 bytes, every file at most 4 MiB and the image at most 8 MiB |
| `DiskImage.SaveThenLoad` | vfs/disk_sync.rs:200-264 | for any other tree boot finds exactly the entries with shorter paths, files cut at 4 MiB, or nothing when the image is too large |
| `DiskImage.BodyFits` | vfs/disk_sync.rs:111-127 | a buffer of the computed size is always large enough for the serializer |
| `DiskImage.ImageRoundTrip` | vfs/disk_sync.rs:148-194 | deserializing the image of a tree gives its surviving part |
| `CleanSaved.CleanMeansSaved` | vfs/disk_sync.rs:391-477 | once a sync or a recovery has succeeded, in every later state of every run of file operations, syncs and recoveries in which the tree is unmarked, boot would find exactly the live tree, if it is within the limits |
| `CleanSaved.SyncExact` | vfs/disk_sync.rs:391-477 | a sync of a marked tree succeeds if and only if there is a tree, a buffer and room on the disk; then the mark is gone, boot finds the tree exactly if it is within the limits, and the disk around the image is kept; a failed one leaves tree and mark |
| `CleanSaved.SizeAnyOrder` | vfs/disk_sync.rs:111-127 | the computed size does not depend on the order in which the tree is visited |
| `CleanSaved.DeferredFlushExact` | vfs/disk_sync.rs:365-380 | over every run of operations, syncs and recoveries that starts unstamped, the deferred tick syncs if and only if the latest successful operation other than a rename has not been saved since, carries a real tick and lies at least 1000 ticks back |
| `CleanSaved.RenamesAreNotFlushed` | vfs/disk_sync.rs:365-380 | so a rename with no other change around it leaves the tree marked and is never flushed, however long the tick waits |
| `DiskSync.RawWriter.Write` | vfs/disk_sync.rs:129-146 | appends if and only if the rest of the buffer is large enough, and touches nothing else |
| `DiskSync.Serialize` | vfs/disk_sync.rs:151-194 | succeeds if and only if header and entries fit; then the buffer starts with exactly these bytes, with the count patched in, and the rest is untouched |
| `DiskSync.DeserializeLoop` | vfs/disk_sync.rs:200-264 | the cursor loop computes the deserializer's specification, with every early end |
| `DiskSync.ReadFromDisk` | vfs/disk_sync.rs:291-339 | header sector, checks, then batches of 128 sectors: exactly the stored sectors, or nothing |
| `DiskSync.ComputeSize` | vfs/disk_sync.rs:111-127 | the loop computes the size |
| `DiskSync.Persistence.Sync` | vfs/disk_sync.rs:391-477 | when clean nothing happens; without tree or buffer it fails and changes nothing; otherwise it succeeds if and only if the image fits on the disk, and then the disk holds exactly the image and the marks are cleared; when it fails the marks stay |
| `DiskSync.Persistence.Recover` | src/main.rs:233-245 | the tree on the disk, if there is one, replaces the tree in memory |
| `AtaWrap.ReadExact` | drivers/mod.rs:108-135 | on an ATA disk of at most 2^32 sectors, reading in batches is reading at once if and only if the addresses fit in 32 bits or some wrapped batch leaves the disk |
| `AtaWrap.ReadWraps` | drivers/mod.rs:118-130 | when no batch leaves the disk, what is read is the disk at every address cut to 32 bits |
| `AtaWrap.WriteExact` | drivers/mod.rs:140-168 | whatever the address, the sectors of the batches before the first that leaves the disk go to their addresses cut to 32 bits and nothing else changes; success if and only if no batch leaves; all of it stays within the run if and only if the stored batches end below 2^32, and then success means that the run lies on the disk |
| `Drives.HighAddressAliases` | drivers/mod.rs:121-126 | the failing input for reads: behind the end of the disk, a sector from its start |
| `AtaWrap.HighWriteOverwrites` | drivers/mod.rs:153-158 | the failing input for writes: a sector written behind the end of the disk replaces one at its start |
| `Drives.Drive.Read` | drivers/mod.rs:108-135 | fills exactly the given part of the buffer with the run, for both kinds of disk; beyond 32 bits on an ATA disk, with what the batches read |
| `Drives.Drive.Write` | drivers/mod.rs:140-168 | stores exactly the run, for both kinds of disk, and says what a failed write has stored; beyond 32 bits on an ATA disk, what the batches write |
| `Fat32.FollowChain` | src/installer.rs:1254-1268 | a reader that follows a written chain visits exactly its clusters, first to last, then end of chain |
| `Fat32.LinksChain` | src/installer.rs:1254-1268 | within the table, the links written are the chain in both copies and nothing else |
| `Fat32.ChainDone` | src/installer.rs:1254-1268 | a finished chain is there, and chains of other clusters are kept |
| `Fat32.ReadRun` | src/installer.rs:832-834 | consecutive clusters are consecutive sectors |
| `Fat32.ClustersHold` | src/installer.rs:846-850 | the computed number of clusters holds the file |
| `Installer.Target.WriteChain` | src/installer.rs:1254-1268 | every link goes to both copies in turn, wherever the copies end |
| `Installer.Target.WriteClusters` | src/installer.rs:1236-1253 | the clusters hold the file, the last sector padded with zeros, and nothing else has changed |
| `EspGeometry.PickSpc` | src/installer.rs:753-765 | the largest of 8, 4, 2 and 1 sectors per cluster with at least 65600 data clusters, else 1 |
| `EspGeometry.EndInside` | src/installer.rs:767-771 | clusters up to the computed number lie within the partition |
| `EspGeometry.TableIsShort` | src/installer.rs:767-771 | the computed table has entries for about half of the data clusters only |
| `EspGeometry.BuildVbr` | src/installer.rs:784-799 | a reader that knows only where the partition starts gets the geometry back from the boot sector |
| `EspDirs.ItemStored` | src/installer.rs:1179-1183 | name, attribute, cluster and size stored in a directory entry are read from it, and no other entry changes |
| `EspDirs.LfnEntry` | src/installer.rs:1202-1235 | every code unit of the long name is where a reader looks for it, then a zero, then filler |
| `EspDirs.RootDir` | src/installer.rs:860-883 | the root directory leads to both directories and to the configuration, under its short and its long name |
| `EspDirs.SubDir` | src/installer.rs:884-904 | a subdirectory leads to itself, its parent and its one entry |
| `EspInstall.InitTables` | src/installer.rs:809-822 | both copies of the table start out equal |
| `EspInstall.WriteConf` | src/installer.rs:958-969 | the configuration is stored, whole sectors first, the rest padded |
| `EspInstall.DoneInstalled` | src/installer.rs:832-969 | in the finished partition both copies of the table agree, every chain is exactly the clusters of its directory or file, and every file is read back by its path through either copy |
| `EspInstall.InstallEsp` | src/installer.rs:732-969 | for every file size and cluster size, with clusters on the disk: nothing outside the partition changes, and with a kernel both copies agree and every file is read back by its path through either copy if and only if the last cluster used has an entry in the table |
| `EspInstall.ChainsApart` | src/installer.rs:836-851 | files share no cluster, whichever way their chains are followed |
| `EspInstall.KernelLost` | src/installer.rs:941-951 | a kernel whose chain has left the table is not found at its path, although its links have run over the second copy and the directories |
| `EspOverrun.OverrunHitsSecondCopy` | src/installer.rs:1254-1268 | an entry past the first copy lands in the second copy |
| `EspOverrun.ChainSweeps` | src/installer.rs:1254-1268 | links past the second copy overwrite the directory sectors of the data area word by word from their start, and leave the entries behind as they were |
| `EspOverrun.SweptFind` | src/installer.rs:1254-1268 | in a directory run over like that a name is found as it was or not at all |
| `EspOverrun.TooShort` | src/installer.rs:1254-1268 | a chain that leaves the table gives a reader fewer bytes than the file has |
| `Gpt.HeaderRoundTrip` | drivers/gpt.rs:214-291 | for any checksum function the parser accepts the written header and reads every field back |
| `Gpt.PartRoundTrip` | drivers/gpt.rs:343-375 | the parser reads an entry's GUIDs, bounds, attributes and name as written |
| `Gpt.NameRoundTrip` | drivers/gpt.rs:102-120 | names of plain characters survive UTF-16 |
| `GptDisk.PrimaryParses` | drivers/gpt.rs:145-182 | the parser finds exactly the two written partitions |
| `GptDisk.BackupParses` | drivers/gpt.rs:185-200 | if the primary header is rejected, whatever it holds, the backup gives the same list |
| `GptDisk.NothingOverlaps` | src/installer.rs:571-576 | no sector belongs to two of: protective record, headers, entries, the two partitions, backups; none lies behind the disk |
| `GptDisk.ParseEntries` | drivers/gpt.rs:295-402 | the loop over entries computes the parser's specification, with the out-of-range slice as an outcome |
| `GptDisk.ParseTable` | drivers/gpt.rs:145-200 | the parser with its fallback |
| `GptDisk.BuildEntries` | src/installer.rs:676-688 | the entry array holds the two partitions and zeros |
| `GptDisk.HeaderFields` | src/installer.rs:707-713 | the header fields in order, with a zero checksum |
| `GptDisk.TurnIntoBackup` | src/installer.rs:717-720 | the patches turn the primary header into the backup header |
| `Install.BuildMbr` | src/installer.rs:658-664 | protective type, signature, and a size cut to 32 bits |
| `Install.InstallTable` | src/installer.rs:653-724 | afterwards primary and backup headers and entries are in place |
| `Install.TableReadable` | src/installer.rs:653-724 | the parser reads the installed table |
| `Install.BackupReadable` | drivers/gpt.rs:185-200 | it still does after the primary header has been replaced by anything it rejects |
| `Install.InstallAll` | src/installer.rs:567-999 | for every disk of up to 2^64 sectors and every partition size, with the geometry computed from it and files that fit: partition table, boot sector, system partition and identity record are all in place on the final disk |
| `Install.InstalledBoots` | src/installer.rs:567-999 | a reader that knows nothing but the disk (partition table, system partition, boot sector, directories, chain) finds every file, with a kernel if and only if the last cluster used has an entry in the table |
| `Install.BackupBoots` | drivers/gpt.rs:185-200 | the same after the primary header has been replaced by anything the parser rejects |
| `NvmeModel.EntryRoundTrip` | drivers/nvme.rs:145-157 | phase and status are read from the bits the controller writes them to |
| `NvmeModel.TakeExact` | drivers/nvme.rs:297-316 | a look at the queue finds something if and only if a completion is unread, then it is the oldest unread one; nothing stale is ever taken |
| `NvmeModel.PutInStep` | drivers/nvme.rs:297-316 | a post by the controller keeps head, phase and slots in step, over wrap-around |
| `NvmeModel.FreshInStep` | drivers/nvme.rs:206-211 | zeroed slots, head 0 and phase 1 start in step |
| `NvmeModel.EachOnceInOrder` | drivers/nvme.rs:279-367 | over every interleaving of submissions, posts, looks and timeouts the driver receives every completion once, in posting order, and nothing else |
| `NvmeModel.AnswersTheLastCommand` | drivers/nvme.rs:279-367 | in a run without timeouts a poll returns the completion of the command just submitted, even if the controller may complete out of order |
| `NvmeModel.TimeoutsShiftAnswers` | drivers/nvme.rs:279-367 | with a controller that answers in order, a poll returns the answer of the command as many submissions back as polls have timed out; it is the last command's if and only if none has |
| `NvmeModel.LateAnswer` | drivers/nvme.rs:279-367 | a run in which that happens: the poll for the second command returns the status of the first |
| `Nvme.QueuePair.TryTake` | drivers/nvme.rs:297-316 | one look: status and result of the oldest unread completion, head and phase advanced |
| `Nvme.QueuePair.SubmitPoll` | drivers/nvme.rs:279-367 | the polling loop under any schedule of posts: the oldest completion not taken yet, or a timeout, which no status can be mistaken for |
| `VfsModel.ResolveLongest` | vfs/mod.rs:296-318 | `resolve` picks the longest mount point that is the root, the path itself or followed in it by a slash, gives the rest of the path, and fails exactly when none is |
| `VfsModel.SliceIs` | vfs/ramfs.rs:273-275 | a read returns the bytes from the cursor on, as many as were asked for or are left |
| `VfsModel.ReadsJoin` | vfs/mod.rs:470-500 | reads of any sizes return, joined, the next bytes of the file, as many as they ask for together or are left |
| `VfsModel.ReadsToTheEnd` | vfs/mod.rs:470-500 | so as many reads with non-empty buffers as bytes are left return exactly the rest, and the next read returns nothing |
| `VfsModel.OpenModes` | vfs/mod.rs:411-418 | flags 0 and 2 open for reading only, 1 for writing only, 3 for both, for every open that succeeds |
| `VfsModel.AddMountKeeps` | vfs/mod.rs:240-278 | mounting keeps the list longest first, without duplicates and within its size |
| `VfsModel.AddMountAdds` | vfs/mod.rs:240-278 | a successful mount adds exactly one entry |
| `VfsModel.OpenFailsWhenFull` | vfs/mod.rs:438-466 | opening an existing file fails only when all 64 descriptors are in use |
| `Descriptors.RunRefines` | vfs/mod.rs:414-618 | in every state of every run of open, read, write, seek, close and close-all, descriptor table and file systems are what the abstract machine (bytes of each file, a cursor for each open descriptor) says after the calls and replies so far, and every reply is one the machine gives |
| `Descriptors.ReadOverRuns` | vfs/mod.rs:470-500 | in every run, whatever other descriptors did in between, a read returns, byte by byte and as many as asked for or left, what lies under the cursor folded from the calls on its own descriptor, in the overlays folded from all writes to its file |
| `Descriptors.CursorIsItsOwn` | vfs/mod.rs:414-618 | a cursor is moved by the calls that name its descriptor and by nothing else |
| `Descriptors.BytesAreOverlays` | vfs/mod.rs:503-541 | the bytes of a file are its creation and the writes to it, overlaid in order |
| `Descriptors.OpenRefines` | vfs/mod.rs:414-468 | open makes an empty file only where none was, keeps the bytes of all files, and hands out a closed descriptor from 3 on with its cursor at 0; on a file it fails only when all are open |
| `Descriptors.SeekRefines` | vfs/mod.rs:591-618 | seek sets the cursor from the start, the cursor or the end of the shared bytes, or fails before the start |
| `VfsModel.WriteIsOverlay` | vfs/mod.rs:503-541 | a write overlays the shared bytes at the cursor, zero-filling a hole, and moves the cursor; other files and cursors are untouched |
| `VfsModel.WriteThenRead` | vfs/mod.rs:470-541 | bytes written through one descriptor are read through any other on the same file |
| `VfsModel.NeverReissued` | vfs/mod.rs:414-618 | over every run the first three descriptors stay open, and an open descriptor is not handed out again before it is closed |
| `VfsModel.RamFsBehaves` | vfs/ramfs.rs:263-489 | RamFS gives descriptors what they need: a write overlays one name with zero fill, fails on no file and changes nothing when it fails; a touch makes an empty file where nothing is and changes no other bytes; spellings of one name read the same |
| `Vfs.Table.Mount` | vfs/mod.rs:240-278 | refuses duplicates and overflow, else inserts in order |
| `Vfs.Table.Resolve` | vfs/mod.rs:296-318 | the search loop |
| `Vfs.Table.Open` | vfs/mod.rs:414-468 | creates a missing file in write mode, then takes the first free slot or a new one: table and file systems afterwards are those of the specification |
| `Vfs.Table.Read` | vfs/mod.rs:470-500 | returns the bytes under the cursor (`VfsModel.SliceIs`) and moves it by their number: table and file systems afterwards are those of the specification |
| `Vfs.Table.Write` | vfs/mod.rs:503-541 | cursor write; 1 and 2 go to the console: table and file systems afterwards are those of the specification |
| `Vfs.Table.Seek` | vfs/mod.rs:591-618 | from start, cursor or end; before the start is an error: table and file systems afterwards are those of the specification |
| `Vfs.Table.Close` | vfs/mod.rs:566-585 | frees the slot: table and file systems afterwards are those of the specification |
| `Vfs.Table.CloseAll` | vfs/mod.rs:547-562 | frees all slots but the first three: table and file systems afterwards are those of the specification |
| `Resampler.NoDrift` | src/doom.rs:760-816 | the total output is the exact ratio 160/147 of the total input, rounded up, however the input was cut into calls, if and only if no call ran out of output buffer |
| `Resampler.SmallCallsFit` | src/doom.rs:776-782 | calls of at most 1411 frames never do |
| `Resampler.TruncatedExact` | src/doom.rs:785-786 | the exact limit of one call |
| `Resampler.PositionInStream` | src/doom.rs:804-811 | the input position of an output depends only on its number in the whole stream |
| `Resampler.ValueInStream` | src/doom.rs:793-811 | on both channels every sample lies on the line between its two neighbours at its place in the whole stream, cut toward the first of them: it is the one the uncut stream would give, except that the last frame of a call is held instead of being blended with the first frame of the next |
| `Resampler.InterpolateExact` | src/doom.rs:797-799 | a sample is the exact point on the line between its two neighbours, cut to an integer toward the first of them |
| `Resampler.Interpolate` | src/doom.rs:797-799 | every sample lies between its two neighbours |
| `Resampler.Bridge.WritePcm` | src/doom.rs:769-816 | number and position of every output frame of a call, its value on both channels as the point on the line between its neighbours, and the fraction carried on |
| `Checksum.SelfVerifies` | net/ipv4.rs:160-174 | storing the computed checksum in its zeroed, even-aligned field makes the checksum of the whole zero |
| `Checksum.OnlyTheChecksumVerifies` | net/ipv4.rs:160-174 | no other value does, but for the two forms of zero |
| `Checksum.Fold` | net/ipv4.rs:170-172 | the folded sum is the sum modulo 65535, and zero only for zero |
| `Checksum.ChecksumLoop` | net/ipv4.rs:160-174 | word loop, odd byte and folding loop compute it without overflow up to 128 KiB |
| `Checksum.TcpChecksum` | net/tcp.rs:305-332 | the TCP checksum is the checksum of pseudo-header plus segment |
| `Checksum.PseudoHeaderFields` | net/tcp.rs:305-318 | source, destination, zero, protocol 6 and length, each at its place in section 3.1 of RFC 793 |
| `Checksum.KnownChecksum` | net/ipv4.rs:160-174 | the worked example of section 3 of RFC 1071 has the checksum given there |
| `Checksum.BuildHeader` | net/ipv4.rs:53-94 | version, length, identification, Don't Fragment, time to live, protocol and addresses are at their offsets, the checksum is zero, and exactly oversized packets are refused |
| `ArpCache.CacheOverRuns` | net/arp.rs:23-57 | from the empty cache, over every run, at most one valid entry exists per address, and it is the latest update of that address |
| `ArpCache.HitIsLatest` | net/arp.rs:23-38 | a hit is the MAC of the latest update of that address, made less than 3000 ticks ago |
| `ArpCache.LookupExact` | net/arp.rs:23-38 | a lookup answers if and only if a fresh entry exists, and otherwise drops just the stale entry |
| `ArpCache.FreshEntriesStay` | net/arp.rs:41-57 | in every run from the empty cache, whatever the clock does: as long as no lookup has found it stale and fewer than sixteen insertions came after its own, an entry answers with the latest MAC exactly while its latest update is less than 3000 ticks old; updates of the address extend its life |
| `ArpCache.SixteenthEvicts` | net/arp.rs:53-55 | the sixteenth later insertion makes the address unknown |
| `ArpCache.InsertionEvicts` | net/arp.rs:53-55 | an insertion replaces an entry if and only if it lies in the next slot of the circle, free slots or not |
| `ArpCache.EvictsFreshEntry` | net/arp.rs:53-55 | so it can evict the only fresh entry of a cache that is otherwise free, although the comment speaks of the next free slot |
| `ArpCache.ArpTable.CacheLookup` | net/arp.rs:23-38 | the loop computes the lookup |
| `ArpCache.ArpTable.CacheUpdate` | net/arp.rs:41-57 | the loop computes the update |

## Left out

- Device failures: a sector inside the disk is always read and written; the branches for failed transfers inside AeternaFS and the read-back check after a sync are therefore never taken.
- Choice of the persistence disk, the per-kind drive index and AHCI's 128 KiB transfer buffer: one drive of either kind stands for them.
- Locks, interrupts, timers, port and memory-mapped I/O, serial and framebuffer output.
- AeternaFS free counters, mtime and the inode checksum field; `readdir`, `stat` and `exists`, which read the same entries as lookup; names are compared as bytes, without the UTF-8 check of stored names.
- AeternaFs.AeternaFs.Mkfs: says nothing about the contents of data blocks, which no pointer names after formatting.
- AeternaTree.ApplyTidy: writes name no directory, removals name a regular file, mkdir does not go through a file; removal of directories and writes to directories are only covered by block ownership.
- The texts of the files that RamFS `init` writes: its tree is modelled key by key, for any texts.
- `refresh_proc_files`, which changes the tree without marking it, `readdir` and `stat` of RamFS.
- CleanSaved.CleanMeansSaved: runs do not contain `refresh_proc_files`.
- DiskSync.Persistence.Sync: asks for an image below 2 TiB, so that its sector count and addresses fit in 32 bits.
- TCP connection table, listeners, ports, timers and the wire format of segments; `TcpModel.StreamSafety` claims a prefix and `TcpDelivery.InOrderDelivers` the whole for in-order arrival, since nothing recovers lost segments but the one kept chunk.
- TcpModel.WindowSafety: runs before CloseWait, with fewer than 2^32 sequence numbers outstanding.
- The FSInfo counters, the identity record's fields and the long-name checksum: these sectors and that byte are arguments of the installer's methods.
- EspInstall.InstallEsp: asks that the clusters used lie on the disk and number fewer than 2^28 - 8, which the code does not check; without a kernel, only that the files are readable when the table is long enough.
- Install.InstallAll: asks for a disk that holds both partitions, a system partition of at least 1 MiB after the cut of its size to 32 bits, and files that fit in it; the code checks none of these.
- `make_uuid` and CRC-32 itself: GUIDs are arguments, and the GPT theorems hold for any checksum function that both sides share.
- GptDisk.BackupParses: the parser stops the kernel on a header that declares more than 92 bytes (`Panics`) and on entries larger than its buffer (`Broken`); these are outcomes of the model and excluded by "rejected".
- NVMe submission queue contents, PRP lists, doorbells and the identify and read or write commands built on the poll.
- Descriptors over file systems other than RamFS, `/dev/audio`, and user-space file servers; seeking uses unbounded numbers instead of 64-bit ones.
- Descriptors.RunRefines: runs consist of descriptor calls; removals, renames and mounts in between are not part of them.
- AeternaMkdir.MkdirFrame: paths through the dot entries of a directory just made are not described.
- Resampler.Bridge.WritePcm: works on frames; splitting the byte buffer into 16-bit samples is not modelled.
- Internet checksum of received packets, fragmentation, routing and loopback delivery; ARP packets on the wire.
- DHCP, DNS, SNTP, ICMP, the hosts file, klog, ProcFS, the scheduler, memory management, the terminal and the DOOM engine.
