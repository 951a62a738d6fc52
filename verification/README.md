# The fatcrypt storage stack in Dafny

A model of the FAT/exFAT storage stack of fatcrypt and of the encryption layer
above it, with proofs of what each layer promises to the next, and three
smaller cores: the relocation normaliser and the vector-register protocol of the
kernel module, and the path canonicaliser.

The stack, from the device up:

| files | layer | shown as |
|---|---|---|
| Wrappers | a value that may be missing | |
| Bytes, Geometry, Mount | boot record to layout | disjoint areas inside the volume |
| FatEntry, Volume | one-sector write-back window, FAT mirror, FAT12/16/32 entries, FSInfo, free count | an abstract disk and a map from clusters to entries |
| Chains, Allocator | create_chain and remove_chain | a set of disjoint chains |
| FileImage, Isolation, File, FileRuns | f_open, f_read, f_write, f_lseek, f_truncate, f_sync with the private dirty sector | a flat byte string and a position |
| CryptLayout, Crypt, CryptSession, CryptRuns | 41-byte header and 512-byte AEAD blocks | a second flat byte string |
| ExBitmap, ExChain, ExCursor, ExFat | exFAT allocation: bitmap, contiguous chains, growing edge | a chain per file and the set of clusters in use |
| LfnEntry, LfnDir, LfnNames | long names in directories | the name stored is the name read and found |
| Reloc | text normalisation before the hash | one pass, independent of chunks and load address |
| VectorRegisters | nested saves and restores | outstanding saves per thread |
| Path | normalize_path | a fold over a stack of components |

Objects the program updates in place are classes with its fields (`Volume` is
FATFS, `Fil` is FIL, `CryptFil` the handle of the encryption layer, `ExFile` a
FIL with its FFOBJID on exFAT, `FpuStates` the slot array); ghost fields hold
what they represent and `Valid` ties the two. The build configuration is that
of `fuse/ffconf.h`.

What the code does where it departs from its comments, kept in the model:

- A write inside an encrypted file cuts the tail: the size becomes the end of
  the write whenever the two differ (`fuse/fatfs/source/ff.c:4560-4563`).
- The seek that comes before the first write to a new encrypted file makes it
  grow to bytes that are no header. From offset 496 on they are more than a
  header, and every later call takes the file for one with a bad header
  (`fuse/fatfs/source/ff.c:5187-5195`, CryptSession.WriteBehindSeek). If the
  clusters it gets begin with the header of a deleted encrypted file, that header,
  nonce included, is taken for the file's own.
- A write aborted by a bad FAT does not mark the file as modified
  (`fuse/fatfs/source/ff.c:4619-4683`); unless the file was marked before,
  f_sync does not record what it wrote (FileRuns.WriteThenSync).
- A read past the end of an encrypted file wraps the available count
  (`fuse/fatfs/source/ff.c:4222-4223`).
- The block position in the read and write loops is a 32-bit product
  (`fuse/fatfs/source/ff.c:4244`); no block of a file below 4 GiB is out of its
  reach, which the proofs of reading and writing use.
- A truncation of a file opened without read access takes its header for
  missing, rewrites it and drops the blocks; the only caller opens so
  (`fuse/fusefatfs.c:397`). The content survives exactly when the handle has seen
  the header or the file is cut to nothing (Crypt.CryptFil.Truncate,
  CryptSession.TruncateCloseRead). A write through such a handle begins a new
  file, too; its only caller adds read access (`fuse/fusefatfs.c:256-260`).
- `put_lfn` takes the unit 0xFFFF for padding and for the end of the name
  (`fuse/fatfs/source/ff.c:1980-1987`). A name reads back exactly when it has
  none, or fills its last part and ends in all of them there
  (LfnNames.StoreAndRead, LfnEntry.PadAtPartEnd).
- `find_bitmap` lets a run pass the end of the bitmap, for every start but the
  first cluster and every length but one (ExBitmap.FoundIsFree,
  ExBitmap.FoundPassesEnd); the only caller asks for runs of one.
- On an exFAT volume of exactly 0x7FFFFFFD clusters, freeing a chain that ends in
  the last cluster leaves its last run marked in use, because the end mark is
  that cluster's number plus one (`fuse/fatfs/source/ff.c:1471-1485`,
  ExFat.ExFile.RemoveChain); every other removal frees all.
- With a single reserved sector the FSInfo sector a FAT32 volume rewrites is the
  first sector of its FAT (Mount.FsInfoInFat).
- `normalize_path` cuts a component at 255 characters (Path.CanonicalIsCut,
  Path.LongNameCut), and lets the last component fill the 256th slot only when
  no slash follows it.

## Model

| member | source | states |
|---|---|---|
| Mount.MountFat | fuse/fatfs/source/ff.c:3516-3560 | the FAT branch of the mount: when the 32-bit sums do not wrap it succeeds exactly if some cluster count and FAT type are consistent with the boot record (fields, sizes, FAT large enough, root directory present or absent by type) |
| Mount.MountedWellFormed | fuse/fatfs/source/ff.c:3533-3560 | a mounted layout has disjoint FATs, root area and data area inside the volume and clusters inside the data area **if and only if** the 32-bit sums fit and the FSInfo sector, if kept, is a reserved sector; with one reserved sector the FSInfo sector is the first FAT sector |
| Mount.FsInfoInFat | fuse/fatfs/source/ff.c:3562-3575 | such a volume mounts: one reserved sector, 70605 clusters, FAT32, and its FSInfo sector is in the first FAT |
| Mount.WrappedSum | fuse/fatfs/source/ff.c:3519-3534 | where the 32-bit sum wraps, the data area starts inside the FATs |
| Mount.ClusterCount | fuse/fatfs/source/ff.c:3536-3537 | the computed cluster count is the one number of clusters that fills the data area |
| Mount.PowerOfTwoByMask | fuse/fatfs/source/ff.c:3521-3522 | `csize & (csize - 1)` is zero for the powers of two only |
| Mount.TypeLimits | fuse/fatfs/source/ff.c:3543-3547 | a count above 65525 is FAT32, above 4085 FAT16, else FAT12; above 268435445 none |
| Volume.Volume.Mount | fuse/fatfs/source/ff.c:3562-3585 | after the mount the window is coherent, the disk unchanged, the free count taken from FSInfo when its three signatures are there, else unknown |
| Volume.FsInfoSignatures | fuse/fatfs/source/ff.c:3577-3579 | the three signatures of an FSInfo sector, byte by byte |
| Volume.FsInfoReadsBack | fuse/fatfs/source/ff.c:1120-1131 | the FSInfo sector a sync composes carries the signatures and the two counts a mount looks for, and zeros everywhere else |
| Volume.Remount | fuse/fatfs/source/ff.c:1112-1138 | sync then mount again: same disk, same FAT entries and, where the volume keeps FSInfo, same counts, due or not |
| Geometry.ClusterInData | fuse/fatfs/source/ff.c:1148-1156 | a valid cluster's sectors lie in the data area and on the device |
| Geometry.NoSector | fuse/fatfs/source/ff.c:1148-1156 | a number that is no cluster has the answer 0 |
| Geometry.SectorOwner | fuse/fatfs/source/ff.c:1148-1156 | a data sector determines its cluster, so distinct clusters have disjoint sectors |
| FatEntry.EntryInFat | fuse/fatfs/source/ff.c:1181-1199 | every byte of every entry, both bytes of a FAT12 entry included, lies inside the first FAT |
| FatEntry.EntryBytes | fuse/fatfs/source/ff.c:1181-1199 | an entry spelled out from the bytes of the FAT: one and a half, two or four each, the low one first, without the top four bits of a FAT32 entry |
| Volume.Volume.SyncWindow | fuse/fatfs/source/ff.c:1059-1074 | no sector of the abstract disk (device overlaid by the dirty window and its FAT mirror) changes, and nothing stays pending |
| Volume.Volume.MoveWindow | fuse/fatfs/source/ff.c:1081-1106 | the window shows the requested sector of the unchanged abstract disk |
| Volume.Volume.SyncFs | fuse/fatfs/source/ff.c:1112-1138 | the device equals the abstract disk, which changes in the FSInfo sector at most, and only when that is due |
| Volume.Volume.DirClear | fuse/fatfs/source/ff.c:1662-1693 | exactly the cluster's sectors become zero and the window is left coherent on them |
| FatEntry.PutEntryCorrect | fuse/fatfs/source/ff.c:1243-1292 | writing entry c and reading entry k: the value under the mask of the FAT type for k = c, the old value for every other k, FAT12 neighbours sharing a byte and entries across two sectors included |
| FatEntry.PutEntryFrame | fuse/fatfs/source/ff.c:1243-1292 | a FAT write changes nothing outside the FATs and keeps two FAT copies equal |
| FatEntry.Fat32ReservedBits | fuse/fatfs/source/ff.c:1277-1281 | the top four bits of a FAT32 entry survive every write |
| FatEntry.EocReadsBack | fuse/fatfs/source/ff.c:43-48 | because of the cluster caps, a stored 0xFFFFFFFF reads back at or above the entry count and never as the disk error code |
| FatEntry.LinkReadsBack | fuse/fatfs/source/ff.c:43-48 | a cluster number is stored without loss under every mask |
| Volume.Volume.GetFat | fuse/fatfs/source/ff.c:1165-1201 | the entry of the abstract disk, 1 for a number out of range; only the window moves |
| Volume.Volume.PutFat | fuse/fatfs/source/ff.c:1243-1292 | the abstract disk and its entries change as the codec says; a number out of range is refused and changes nothing |
| Volume.Volume.CountBySector | fuse/fatfs/source/ff.c:5512-5530 | the sector-striding scan counts the zero entries among all entries, 0 and 1 included |
| Volume.Volume.CountByEntry | fuse/fatfs/source/ff.c:5487-5494 | the FAT12 scan counts the free clusters, and fails exactly when an entry is the reserved value 1 |
| Volume.Volume.GetFree | fuse/fatfs/source/ff.c:5479-5542 | a known count is returned unchanged; otherwise the answer is the number of free clusters, on FAT16/32 plus the zero ones of entries 0 and 1, and becomes the known count; it fails exactly when a FAT12 scan meets the reserved value 1 |
| Volume.CountZeroIsFree | fuse/fatfs/source/ff.c:5512-5530 | zero entries of the whole FAT are the free clusters plus the zero entries among the first two |
| Volume.CountFreeUpdate | fuse/fatfs/source/ff.c:1463-1466 | one entry written changes the free count by exactly one or not at all |
| Chains.ChainIsAcyclic | fuse/fatfs/source/ff.c:1454-1490 | a sequence that follows the FAT to an end mark visits no cluster twice |
| Chains.ChainIsUnique | fuse/fatfs/source/ff.c:1454-1490 | a start cluster has one chain |
| Chains.SameTail | fuse/fatfs/source/ff.c:1454-1490 | two chains that meet in a cluster agree from there on |
| Chains.WalkFreesChain | fuse/fatfs/source/ff.c:1454-1490 | the freeing walk on a chain frees exactly its clusters |
| Chains.WalkOnlyFrees | fuse/fatfs/source/ff.c:1454-1490 | on any FAT content, cyclic or not, the freeing walk changes entries to zero only |
| Chains.RemoveCutsChain | fuse/fatfs/source/ff.c:1447-1490 | removing from position k frees exactly the suffix, one cluster for each of its length, ends the kept part at k - 1, changes no other entry, and leaves a well-formed chain |
| Chains.NewChainKeeps | fuse/fatfs/source/ff.c:1538-1613 | a new chain joins a set of pairwise disjoint, acyclic, terminated chains, which stays one |
| Chains.StretchKeeps | fuse/fatfs/source/ff.c:1541-1613 | stretching one chain keeps all chains acyclic, terminated and pairwise disjoint |
| Chains.CutKeeps | fuse/fatfs/source/ff.c:1447-1490 | cutting one chain keeps the others and the set |
| Chains.LinkedTakesOne | fuse/fatfs/source/ff.c:1592-1613 | a cluster linked to a chain is one free cluster less, and no entry turns bad or good |
| Chains.RemoveKeeps | fuse/fatfs/source/ff.c:1447-1490 | removing a whole chain keeps the others and the set |
| Allocator.SearchFree | fuse/fatfs/source/ff.c:1592-1605 | the circular search terminates at the first entry behind its start that is free or reserved, or finds that all clusters are in use |
| Allocator.CreateChain | fuse/fatfs/source/ff.c:1528-1619 | the existing successor if there is one; else exactly the cluster the program is to choose (right behind the last, else the first free one behind the one taken last), or 0 when none is free, or 1 when a reserved entry comes first. A chosen cluster was free, is an end mark linked from the given one, and every other entry is unchanged; free count, last cluster and the FSInfo flag follow; mirror and the rest of the disk are kept |
| Allocator.RemoveChain | fuse/fatfs/source/ff.c:1433-1490 | terminates for every FAT content and computes the specified removal; arguments out of range are refused; the free count stays exact, or unknown |
| FileImage.ShowsUnique | fuse/fatfs/source/ff.c:4300-4390 | clusters, sectors and dirty buffer determine the bytes of the file |
| FileImage.SectorOfRun | fuse/fatfs/source/ff.c:4345-4365 | a multi-sector transfer inside a cluster touches exactly the consecutive sectors of the file it should |
| FileImage.ShowsBypass | fuse/fatfs/source/ff.c:4632-4655 | a direct multi-sector write together with the update of the buffer splices the file bytes |
| FileImage.ShowsPatched | fuse/fatfs/source/ff.c:4671-4681 | a write into the buffered sector splices the file bytes |
| FileImage.ShowsCut | fuse/fatfs/source/ff.c:5571-5580 | what is left of a cut chain shows the prefix of the file |
| FileImage.ShowsExtended | fuse/fatfs/source/ff.c:5105-5120 | a cluster appended to the chain adds bytes and changes none |
| File.EntryReadsBack | fuse/fatfs/source/ff.c:4745-4757 | the directory entry a sync stores reads back as the start cluster and the size, exactly, below 4 GiB |
| File.StoreEntryRefreshes | fuse/fatfs/source/ff.c:4745-4757 | byte by byte: bit 5 of the attribute at offset 11 set and its other bits kept, 18 and 19 zero, the time at 22, the start cluster at 26 and, on FAT32, 20, the size at 28; no other byte of the sector changes |
| File.OtherEntriesStay | fuse/fatfs/source/ff.c:4745-4757 | so no other entry of the directory sector changes |
| File.Fil.Open | fuse/fatfs/source/ff.c:4116-4130 | a file opened through its entry satisfies the invariant at position 0 |
| File.Fil.Read | fuse/fatfs/source/ff.c:4300-4390 | exactly the bytes from the position, as many as asked or left; refused without read mode; file unchanged |
| File.Fil.Write | fuse/fatfs/source/ff.c:4574-4686 | the file becomes the splice of the first bw bytes at the position; all are written, up to the 4 GiB limit, unless the position stands at the end of the last cluster and none is free or the FAT is bad; the chain gets the clusters the position needs and no more; a refused write changes nothing |
| File.Fil.WriteLimit | fuse/fatfs/source/ff.c:4595-4597 | the 32-bit overflow test caps the request exactly at 4 GiB - 1 |
| File.Fil.Seek | fuse/fatfs/source/ff.c:4995-5150 | the file keeps all its bytes and grows to the position reached; the target (clipped when not writing, and at 4 GiB - 1) is reached exactly inside the file, and beyond it unless the position stands at the end of the last cluster and none is free or the FAT is bad |
| File.Fil.Truncate | fuse/fatfs/source/ff.c:5556-5597 | the file becomes its prefix up to the position, the chain its prefix, and the clusters behind it are free |
| File.Fil.Sync | fuse/fatfs/source/ff.c:4695-4762 | of a marked file device equals abstract disk, no FSInfo change is due, and the directory sector changes in exactly the bytes f_sync stores: archive attribute, time, zero access date, start cluster and size at their offsets; of another file nothing changes; no sector but metadata and the file's own is touched, and equal FAT copies stay equal |
| File.Fil.SettleBuffer | fuse/fatfs/source/ff.c:5125-5138 | the private sector is written back and reloaded without a change of the file bytes |
| Isolation.OtherFileKept | fuse/fatfs/source/ff.c:4574-4686 | an operation that touches own and free clusters only leaves another file its chain, its separation and its bytes, those in its own dirty buffer included |
| FileRuns.Perform | fuse/fatfs/source/ff.c:4300-5597 | each request acts on the file as on a flat byte string with position, error and mode: exact result code, count, bytes and clusters; what it takes comes from the free clusters and what it gives back is free; it stops short only at the end of the last cluster, when none is free or the FAT has a reserved entry; every other file keeps its chain and its bytes |
| FileRuns.RunAll | fuse/fatfs/source/ff.c:4300-5597 | every run of reads, writes, seeks, truncations and syncs is a run of the flat byte string, in which the clusters of the file and the free ones keep their sum and the FAT stays as sound as it was; at its end every other file has its chain and its bytes; equal FAT copies stay equal, and are equal on the device after a sync |
| FileRuns.WriteFills | fuse/fatfs/source/ff.c:4595-4630 | on a sound FAT a write succeeds and moves exactly what is asked or what the clusters of the file and the free ones hold below 4 GiB |
| FileRuns.SeekReaches | fuse/fatfs/source/ff.c:5013-5123 | on a sound FAT a seek succeeds and reaches its target or the end of what those clusters hold |
| FileRuns.RunDetermined | fuse/fatfs/source/ff.c:4300-5597 | on a volume with a sound FAT, full or not, the requests determine every answer and every state, as long as no seek makes the file grow: two runs from the same flat file agree throughout |
| FileRuns.BytePersists | fuse/fatfs/source/ff.c:4300-5597 | over any run a byte that is neither overwritten nor cut off stays |
| FileRuns.ReadYourWrites | fuse/fatfs/source/ff.c:4300-5597 | in any run a byte written and not overwritten or cut off since is read back as written |
| FileRuns.Reopen | fuse/fatfs/source/ff.c:4695-4762 | sync and open again: same chain, same size, same bytes, for a file that is marked as modified or saved already |
| FileRuns.SyncAndMount | fuse/fatfs/source/ff.c:4695-4762 | after any run, sync a marked file, mount the device again, ask for the free clusters: same disk, same FAT, and the answer is the number of free clusters that the allocations and removals of the run left, where FSInfo keeps it |
| FileRuns.WriteThenSync | fuse/fatfs/source/ff.c:4619-4683 | a write and a sync save the file, unless the write was aborted in a file not marked before: then **if and only if** the file filled its clusters when the write began, got none, and the position was not strictly inside its last sector |
| FileRuns.AbortedWriteLost | fuse/fatfs/source/ff.c:4619-4683 | one such write: 412 bytes get into a file of 100, and the sync does not save them |
| CryptLayout.BlockNoncesDistinct | fuse/fatcrypt.c:891-897 | no two block indices below 2^32 share a nonce |
| CryptLayout.BlockNonceBits | fuse/fatcrypt.c:891-897 | the first twenty bytes of a block nonce are those of the base nonce; in the last four, exactly the bits are flipped that are set in the block index, the highest byte first |
| CryptLayout.BlockPosAgree | fuse/fatfs/source/ff.c:4244-4244 | the 32-bit and the 64-bit block position agree exactly below block 2^23, where the 32-bit one comes back to block 0 |
| CryptLayout.BlocksDisjoint | fuse/fatfs/source/ff.c:5187-5188 | blocks lie behind the header, in order and without overlap, and logical order is (block, offset) order |
| CryptLayout.PhysicalSizeFits | fuse/fatfs/source/ff.c:5629-5632 | the 64-bit file size a truncation computes is the true one if and only if that is below 2^64 |
| CryptLayout.HeaderRoundTrip | fuse/fatfs/source/ff.c:3794-3836 | the bytes of a header parse to that header |
| CryptLayout.ParsedHeader | fuse/fatfs/source/ff.c:3695-3785 | a header that parses is spelled by the bytes it was parsed from |
| CryptLayout.ParsedBytes | fuse/fatfs/source/ff.c:3695-3785 | the answer of the header parser, from the magic bytes, the version byte and the length of the file |
| CryptLayout.EncryptedForm | fuse/fatfs/source/ff.c:4183-4295 | an encrypted file byte by byte: magic, version 1, the length of the text in bytes 9 to 16, the base nonce in 17 to 40, and for every 496 bytes of the text a block of 512 bytes from 41 + 512 b on that decrypts to them under the nonce of the block |
| CryptLayout.SizeFieldUpdate | fuse/fatfs/source/ff.c:3838-3875 | rewriting the size field yields the header with the new size and touches no block byte |
| CryptLayout.BlockWritten | fuse/fatfs/source/ff.c:4457-4547 | storing one re-encrypted block splices the plaintext, partly covered blocks and blocks behind the last valid one included |
| CryptLayout.GapFilled | fuse/fatfs/source/ff.c:4480-4512 | a gap between the end of the plaintext and the position, inside one block, is filled with what that block held |
| CryptLayout.GapOfNothing | fuse/fatfs/source/ff.c:4486-4493 | and with zeros where the file has no such block or may not be read |
| CryptLayout.BlocksExtend | fuse/fatfs/source/ff.c:5640-5655 | up to the end of its last block a plaintext can be lengthened by what the block holds |
| CryptLayout.BlockAttempted | fuse/fatfs/source/ff.c:4530-4541 | a block write that stops half way loses no other block |
| CryptLayout.BlocksKept | fuse/fatfs/source/ff.c:5640-5655 | cutting the file at a block boundary keeps the blocks in front, and so does a file that grows |
| CryptLayout.DecryptsUnique | fuse/fatfs/source/ff.c:4183-4295 | the plaintext of an encrypted file is determined by its bytes |
| CryptLayout.InteriorWriteCutsTail | fuse/fatfs/source/ff.c:4560-4563 | what the write leaves is the spliced plaintext if and only if it reaches the end of the file; otherwise the tail is gone |
| CryptLayout.BareHeader | fuse/fatfs/source/ff.c:3726-3729 | a bare header is the encrypted form of the empty text if it claims no bytes, and of nothing if it claims any |
| Crypt.CryptFil.Parse | fuse/fatfs/source/ff.c:3695-3785 | the answer depends on the file bytes alone if the file may be read, and is 'no header' for any file that may not; position kept |
| Crypt.CryptFil.InitHeader | fuse/fatfs/source/ff.c:3672-3690 | a fresh header of size 0 around the random nonce, unless one was parsed |
| Crypt.CryptFil.WriteHeader | fuse/fatfs/source/ff.c:3794-3836 | the file begins with the header bytes, the rest unchanged |
| Crypt.CryptFil.UpdateLsize | fuse/fatfs/source/ff.c:3838-3875 | eight bytes of the file change, to the little-endian size; position kept |
| Crypt.CryptFil.DeriveKey | fuse/fatfs/source/ff.c:3880-3908 | the key of the header that is parsed already, found in the file, or, where none is found, written afresh around the random nonce, which fails only without nonce, write mode or room; a malformed header is reported and kept |
| Crypt.CryptFil.ReadBlock | fuse/fatfs/source/ff.c:4242-4290 | one round inside the plaintext yields exactly the plaintext of its range |
| Crypt.CryptFil.Read | fuse/fatfs/source/ff.c:4183-4295 | from a position inside the plaintext exactly the plaintext from there, over any number of partly covered blocks; from one past the end it answers 'no bytes' only when none are asked; a file whose header is not seen reads as empty, a malformed header is reported, a bare header that claims bytes fails |
| Crypt.CryptFil.WriteBlock | fuse/fatfs/source/ff.c:4457-4547 | one round splices the plaintext, a gap in front of the chunk filled, or leaves it; it succeeds where the file has the block or, on a sound FAT, room for it; the header stays in any case |
| Crypt.CryptFil.Write | fuse/fatfs/source/ff.c:4400-4568 | for every handle: the file becomes the encrypted form of everything before the position (nothing, if the handle finds no header) followed by the data, a gap inside the last block filled with what that block held, with zeros where there was none. With write mode, and a header or a nonce, it succeeds where the file has or, on a sound FAT, can get the room, and the file is then as large as its blocks; otherwise it ends before the first block there is no room for, and the file is the encrypted form of the old length with what was written in place. The nonce is the file's, or the fresh one of a new header |
| Crypt.CryptFil.Seek | fuse/fatfs/source/ff.c:5157-5196 | no byte and no plaintext is lost by a seek to any offset, and none changes inside the file; on a sound FAT it succeeds, and the file grows to the block of the offset or as far as it can |
| Crypt.CryptFil.Truncate | fuse/fatfs/source/ff.c:5604-5663 | for every handle: to n within the length it leaves the encrypted form of the first n bytes **if and only if** the handle sees the header (may read, or has parsed it) or n is zero; up to the end of the last block the text grows by what the block holds; beyond, it succeeds on a sound FAT, with the exact size where there is room. Not seen, a fresh header that claims n bytes and no block is left, which decrypts to nothing unless n is zero |
| CryptSession.WriteCloseRead | fuse/fatfs/source/ff.c:4400-4568 | write, close, open, decrypt gives what was written, through every layer down to the sectors, on handles with and without read access: always where the file has or can get the room |
| CryptSession.SeekNew | fuse/fusefatfs.c:256-285 | a seek in a new file with room for it leaves a file as long as the position of its block, of which the handle knows no header |
| CryptSession.WriteBehindSeek | fuse/fusefatfs.c:256-285 | the write after it: over bytes that do not begin like a header it is accepted **if and only if** the offset is below 496 (further on the file is taken for one with a bad header); bytes that begin like a header of the right version become the header of the file, their nonce included; of another version, a bad header |
| CryptSession.TruncateCloseRead | fuse/fusefatfs.c:380-410 | truncate, close, open, decrypt gives the first n bytes **if and only if** the handle saw the header or n is zero; through a handle opened for writing alone the truncation answers success and the file cannot be read again |
| CryptRuns.Perform | fuse/fatfs/source/ff.c:4183-5663 | each request on an encrypted file acts on its plaintext: exact bytes, result, file size and failures, and the four ways to lose the plaintext; the room for the file and the state of the FAT never change, and an error sticks on a bad FAT only; every other file of the volume keeps its chain and its bytes |
| CryptRuns.RunAll | fuse/fatfs/source/ff.c:4183-5663 | every run of reads, writes, seeks and truncations of an encrypted file is a run of its plaintext, at the end of which the handle serves the last text, unless a write or truncation just failed, and every other file has its chain and its bytes |
| CryptRuns.WriteFits | fuse/fatfs/source/ff.c:4400-4568 | on a sound FAT a write succeeds **if and only if** the file can get as large as its header and blocks |
| CryptRuns.RunDetermined | fuse/fatfs/source/ff.c:4183-5663 | on a sound FAT, full or not, the requests determine every answer and every state, as long as they stay where the text can be foreseen: two runs from the same plaintext agree throughout, failed writes included |
| CryptRuns.BytePersists | fuse/fatfs/source/ff.c:4183-5663 | over any run a byte of the plaintext that no write has reached or passed and no truncation has cut off stays |
| CryptRuns.ReadYourWrites | fuse/fatfs/source/ff.c:4183-5663 | in any run a byte written and not reached, passed or cut off since is read back as written |
| ExBitmap.FindBitmap | fuse/fatfs/source/ff.c:1308-1341 | terminates after one turn; the first run of free clusters on the circle from the hint, 0 if the turn has none; a run may pass the end of the bitmap |
| ExBitmap.OneFree | fuse/fatfs/source/ff.c:1553-1554 | with a run of one, 0 means every cluster is in use |
| ExBitmap.FoundIsNearest | fuse/fatfs/source/ff.c:1545-1556 | of all free clusters the found one takes the fewest steps on the circle from the hint |
| ExBitmap.FoundIsFree | fuse/fatfs/source/ff.c:1553-1554 | the found cluster is free; a run of one, or one searched from the first cluster, is a run of free clusters that does not pass the end |
| ExBitmap.FoundPassesEnd | fuse/fatfs/source/ff.c:1328-1331 | every other search can go wrong: for any later start and any longer run there is a bitmap whose first free run passes the end |
| ExBitmap.ChangeBitmap | fuse/fatfs/source/ff.c:1348-1376 | a run turns into the value exactly if none of it has it already; otherwise exactly the part in front of the first that has |
| ExBitmap.FlipBits | fuse/fatfs/source/ff.c:1367-1367 | flipping one bit leaves the other bits of the byte |
| ExChain.GetFatFollows | fuse/fatfs/source/ff.c:1201-1226 | on its callers' arguments get_fat follows the chain in every allocation status, whether the link is implied or in the FAT |
| ExChain.GetFatElsewhere | fuse/fatfs/source/ff.c:1172-1226 | on other arguments get_fat answers 1: a number out of range, an empty object that is not status 0, a cluster behind the end of a contiguous file |
| ExChain.EdgeGrows | fuse/fatfs/source/ff.c:1566-1569 | a cluster right behind the last one is added without touching the FAT |
| ExChain.EdgeLinked | fuse/fatfs/source/ff.c:1570-1573 | a cluster elsewhere is added by writing exactly the last fragment to the FAT |
| ExChain.BreaksOff | fuse/fatfs/source/ff.c:1561-1564 | a contiguous file becomes a first fragment of n_cont + 1 clusters |
| ExChain.EdgeEnded | fuse/fatfs/source/ff.c:1407-1422 | writing the last fragment with an end mark makes the FAT complete behind the first fragment |
| ExChain.FirstFilled | fuse/fatfs/source/ff.c:1384-1400 | writing the first fragment makes the FAT spell the whole chain |
| ExChain.CutStatus | fuse/fatfs/source/ff.c:1493-1516 | the status of what a removal leaves, contiguous again where it falls into the first fragment |
| ExChain.FreeCount | fuse/fatfs/source/ff.c:1550-1550 | free clusters are what chain and other objects leave |
| ExFat.ExFile.CreateChain | fuse/fatfs/source/ff.c:1528-1619 | the successor, or a new cluster: the first free one on the circle from the given cluster or, for a new chain, the one taken last, now the last of the chain, marked in the bitmap and remembered as the one taken last; 0 only on a full volume; free count and FSInfo flag follow |
| ExFat.ExFile.FreeRuns | fuse/fatfs/source/ff.c:1454-1490 | the removal loop clears the bits of every removed cluster if and only if the last cluster plus one is not the end mark 0x7FFFFFFF; otherwise of every cluster but the last run |
| ExFat.ExFile.RemoveChain | fuse/fatfs/source/ff.c:1433-1520 | the chain is its prefix, no FAT entry outside the old chain changes, and the bitmap shows exactly the prefix, the clusters of other objects and what is lost: the last run **if and only if** it ends in the cluster below the end mark |
| ExFat.LastClusterLost | fuse/fatfs/source/ff.c:1471-1485 | a volume and a file that meet the invariant and lose their last cluster to a removal exist |
| ExFat.ExFile.Write | fuse/fatfs/source/ff.c:4599-4630 | the chain grows by what the size needs and is never shortened; short only at the end of the file on a full volume; the file is marked as modified |
| ExFat.ExFile.Seek | fuse/fatfs/source/ff.c:5013-5123 | the last fragment is written, the chain follows or grows; short of the offset only at the end of the file, on a full volume or when not writing; the file is marked exactly when its size changes |
| ExFat.ExFile.Truncate | fuse/fatfs/source/ff.c:5567-5580 | chain and bitmap shrink to the clusters the position has passed; clusters are lost if and only if some are cut and the last one is the cluster below the end mark; the file is marked exactly when its size changes |
| ExFat.ExFile.Sync | fuse/fatfs/source/ff.c:4716-4742 | afterwards the status is 2 and the chain contiguous, or it is 0 and the FAT spells exactly the chain; the directory entry holds status, start and size; of a file that is not marked nothing changes |
| ExFat.Run | fuse/fatfs/source/ff.c:4574-5597 | on every volume size the mount accepts, any run of writes, seeks, truncations and syncs keeps the invariant and is a run of sizes, positions and chains: a write marks the file, a seek or truncation exactly when the size changes, and a sync of a marked file refreshes the entry and clears the mark |
| ExFat.GrowingEdge | fuse/fatfs/source/ff.c:1566-1573 | what the invariant says: with n_frag > 0 the file object is at the last cluster and the last n_frag clusters are consecutive; set bits are exactly the clusters in use or lost, and none is lost below 0x7FFFFFFF entries; FAT entries of other objects are untouched |
| ExFat.Reopen | fuse/fatfs/source/ff.c:2185-2194 | a synchronised file reopens with the chain it had |
| LfnEntry.PutLfn | fuse/fatfs/source/ff.c:1963-1989 | all bytes of the entry that dir_register stores for one part, last-part flag included |
| LfnEntry.PartBytes | fuse/fatfs/source/ff.c:1963-1989 | the 32 bytes of a part of a readable name: order and flag, attribute, type, checksum, and its 13 units, a zero and 0xFFFF behind the name, at their offsets |
| LfnEntry.FaithfulPart | fuse/fatfs/source/ff.c:1980-1987 | the units of a part are stored faithfully if and only if a 0xFFFF in it is followed by nothing but 0xFFFF in that part; the flag is another matter |
| LfnEntry.ReadablePart | fuse/fatfs/source/ff.c:1972-1987 | for every part of a name that reads back, units and last-part flag are as both scans need |
| LfnEntry.PadAtPartEnd | fuse/fatfs/source/ff.c:1980-1987 | a name of 14 units with 0xFFFF at the end of its first part: both parts are stored faithfully, yet the first carries the last-part flag and the name does not read back |
| LfnEntry.PickLfn | fuse/fatfs/source/ff.c:1925-1957 | succeeds exactly on an entry with zero cluster field, padding behind the terminator and room in the 256-unit buffer; writes that part and its terminator, nothing else |
| LfnEntry.CmpLfn | fuse/fatfs/source/ff.c:1889-1917 | accepts exactly the entries whose part equals the searched name there, up to case, and ends where it ends |
| LfnDir.SumSfn | fuse/fatfs/source/ff.c:2057-2068 | the rotating checksum over the eleven bytes |
| LfnDir.RotatedBits | fuse/fatfs/source/ff.c:2065-2065 | each step of the checksum rotates it right by one bit, before the next byte of the name is added |
| LfnDir.EntryKinds | fuse/fatfs/source/ff.c:2329-2345 | which entries are parts of long names, and which each scan passes over, from the first byte and the attribute byte |
| LfnDir.DirRead | fuse/fatfs/source/ff.c:2310-2373 | over any directory content: stops at the first file entry, and reports a long name exactly when a complete, ordered sequence with the right checksum precedes it; the buffer then holds its parts |
| LfnDir.DirFind | fuse/fatfs/source/ff.c:2388-2458 | over any directory content: the first entry that matches by long name or by short name, none before it; between the reported start and it lie long-name entries only |
| LfnDir.TracksLfn | fuse/fatfs/source/ff.c:2346-2356 | one long-name entry: the order and checksum variables describe exactly the sequence that ends there |
| LfnNames.StoreEntries | fuse/fatfs/source/ff.c:2529-2565 | the parts, highest first, and the short entry; no other entry of the directory changes |
| LfnNames.PartFacts | fuse/fatfs/source/ff.c:1972-1987 | for every name of 1..255 units: order bytes never collide with the end, deleted or dot marks, and a part has the flag exactly if it is the last or ends in 0xFFFF |
| LfnNames.BlockRead | fuse/fatfs/source/ff.c:1935-1955 | reading the parts restores the name, lengths that are multiples of 13 and 255 units included |
| LfnNames.StoredIsRead | fuse/fatfs/source/ff.c:2346-2365 | after a stored block, for every name of 1..255 units without zero, dir_read reports the beginning of the block and its name **if and only if** the name has no 0xFFFF, or fills its last part and ends in all of them there |
| LfnNames.StoredIsFound | fuse/fatfs/source/ff.c:2420-2440 | the short entry of a stored block that reads back matches by long name if and only if the searched name differs in case only |
| LfnNames.OwnNameFound | fuse/fatfs/source/ff.c:2420-2440 | a stored name is found under itself, at the beginning of its block, if and only if it reads back |
| LfnNames.StoreAndRead | fuse/fatfs/source/ff.c:2529-2565 | store then read, with stale long-name entries in front: the name comes back if and only if it is one that reads back |
| Reloc.FindIndex | fuse/wolfssl/linuxkm/linuxkm_memory.c:76-122 | the halving search stays inside the table and ends at the true lower bound; fails exactly past the last record or the text |
| Reloc.NormalizeText | fuse/wolfssl/linuxkm/linuxkm_memory.c:131-470 | the bytes of a chunk up to the first record it would cut are those of the whole pass; a chunk of 8 bytes or more makes progress; it fails behind the last record, and **if and only if** the scan of the chunk comes to a record of unknown type |
| Reloc.FeedText | fuse/wolfssl/linuxkm/linuxkm_memory.c:741-763 | any buffer of at least 8 bytes feeds the hash exactly the normalised text; the loop fails **if and only if** it starts behind the last record or some record of unknown type at or after the start has no active record at or behind the end in front of it, one behind the end of the text included |
| Reloc.LaterRecords | fuse/wolfssl/linuxkm/linuxkm_memory.c:196-252 | records behind a point do not touch what lies in front of it |
| Reloc.LiveBase32 | fuse/wolfssl/linuxkm/linuxkm_memory.c:330-450 | a live 32-bit record normalises to its destination offset for every load address |
| Reloc.Record32 | fuse/wolfssl/linuxkm/linuxkm_memory.c:330-450 | the four bytes of a 32-bit record in the normalised text: destination segment in the top three bits, type in the next five, and below them the offset of the destination, or nothing for a record of another segment or machine |
| Reloc.RecordBits32 | fuse/wolfssl/linuxkm/linuxkm_memory.c:330-450 | the same bit by bit for every destination offset, those that reach into the label included |
| Reloc.Record16 | fuse/wolfssl/linuxkm/linuxkm_memory.c:330-450 | the 16-bit record: segment, type and nothing else |
| Reloc.RecordBits64 | fuse/wolfssl/linuxkm/linuxkm_memory.c:330-450 | a 64-bit record: the destination offset, or nothing, under the label |
| Reloc.OutsideRecords | fuse/wolfssl/linuxkm/linuxkm_memory.c:196-450 | bytes outside the active records stay as they are |
| Reloc.KnownTypes | fuse/wolfssl/linuxkm/linuxkm_memory.c:40-74 | the types 2 to 25 have a layout, no others |
| Reloc.NormalizedIndependent | fuse/wolfssl/linuxkm/linuxkm_memory.c:330-450 | the normalised text is the same for every load address of the segments, and the same as the offline one |
| Reloc.LinkedIs | fuse/wolfssl/linuxkm/linuxkm_memory.c:330-450 | what a loader stores at a record: segment start, destination offset and addend, less the address of the record for a relative one |
| VectorRegisters.FpuStates.Save | fuse/wolfssl/linuxkm/x86_vector_register_glue.c:326-473 | which saves succeed, exactly, and the code of every failure: nested ones below the mask and not inside an inhibiting one, outermost ones on a free slot; a failed save changes nothing |
| VectorRegisters.FpuStates.Restore | fuse/wolfssl/linuxkm/x86_vector_register_glue.c:475-528 | one save fewer is outstanding; the outermost restore returns the CPU to its initial state |
| VectorRegisters.FpuStates.CanSave | fuse/wolfssl/linuxkm/x86_vector_register_glue.c:287-317 | the answer is exactly that a save on a free slot without a signal succeeds |
| VectorRegisters.FpuStates.Nest | fuse/wolfssl/linuxkm/x86_vector_register_glue.c:347-371 | count and flag of a nested save; an inhibiting save rejects every inner one |
| VectorRegisters.FpuStates.Enter | fuse/wolfssl/linuxkm/x86_vector_register_glue.c:385-466 | kernel_fpu_begin, softirq, migration and preemption are balanced on success and undone on failure |
| VectorRegisters.FpuStates.Leave | fuse/wolfssl/linuxkm/x86_vector_register_glue.c:494-522 | a restore takes back exactly what the matching save did |
| VectorRegisters.FpuStates.SlotFacts | fuse/wolfssl/linuxkm/x86_vector_register_glue.c:215-268 | a slot is owned exactly by a thread with outstanding saves, its masked count is their number, its flag says that the innermost inhibits |
| VectorRegisters.FpuStates.Balanced | fuse/wolfssl/linuxkm/x86_vector_register_glue.c:475-528 | with nothing outstanding every CPU is as at the start, whatever the interleaving was |
| Path.NormalizePath | fuse/fatcrypt.c:23-143 | succeeds exactly when the path stays below the root, its components fit the 256-slot stack and the result the buffer; the result is the canonical path |
| Path.Collect | fuse/fatcrypt.c:29-106 | the component stack is the fold over the components, inside its 256 slots |
| Path.SlotLimit | fuse/fatcrypt.c:36-106 | plain components fit exactly if there are 256, or 255 when a slash follows the last |
| Path.ResolveIsProper | fuse/fatcrypt.c:48-72 | no component left is empty, "." or ".." |
| Path.Idempotent | fuse/fatcrypt.c:23-143 | a canonical path is its own canonical path |
| Path.CanonicalIsCut | fuse/fatcrypt.c:75-79 | the canonical path is the one without a length limit, every component cut at 255 characters: the same **if and only if** no component left is longer |
| Path.LongNameCut | fuse/fatcrypt.c:75-79 | a name of 256 characters loses its last one |
| Path.PartsJoin | fuse/fatcrypt.c:108-128 | the spelled result falls into the components it was joined from |
| Path.IsMetadataPath | fuse/fatcrypt.c:147-176 | 1 exactly if the first canonical component is `.fat_crypt`, -1 exactly if the path cannot be normalised |

## Left out

- Device errors: disk_read and disk_write succeed; the paths that report FR_DISK_ERR are not modelled.
- Volume.Volume.Mount: the free count found in FSInfo is taken as it is; that it is exact on a foreign volume is an assumption of the later results, as it is in the program.
- Mount.MountFat: the fields of the boot record are parameters; finding the volume on the device and the exFAT branch of the mount are not modelled.
- Crypt.CryptFil.Write: what the file decrypts to is stated for a position inside the plaintext or in the block right behind it, and, without read access, for blocks the plaintext does not reach; a write further on leaves blocks between that were never encrypted, and one that cannot read a block it shares replaces the rest of it by zeros.
- Crypt.CryptFil.Read: for a position past the end it is stated when the call answers with no bytes, not which bytes it would return otherwise.
- Crypt.CryptFil.Seek: the stale clusters that a seek past the end may allocate have no plaintext meaning.
- Crypt.CryptFil.Truncate: for a size beyond the last block the blocks in front are kept under a header that claims more, up to where the 64-bit file size wraps; the bytes between are whatever the new clusters hold.
- CryptRuns.RunAll: for handles that may read and write; nothing is said of a file after it has lost its plaintext, and a run ends with a failed write or truncation of a file whose header the handle had not seen.
- FileRuns.Perform: a seek that extends a file adds bytes of whatever the new clusters hold; their value is left open. Of a FAT with a reserved entry the flat file says only that it has one; which cluster a write meets first is in Allocator.CreateChain. The other files are those none of whose clusters holds the directory entry or FSInfo.
- Cryptographic strength, key derivation, randomness: an abstract pair of functions whose decryption undoes encryption, and a parameter for fresh nonces.
- ExFat: data sectors of exFAT files, whose transfer code is that of FAT files, and the checksummed entry set of an exFAT directory; the FAT of an exFAT volume is a sequence of 32-bit entries, the window below it is not modelled again.
- ExFat.ExFile.Write: no file bytes, see above; the loop takes one step per cluster, where the program takes several inside a cluster; the allocation code runs at cluster boundaries only.
- ExFat.ExFile.Seek: the transfer of the private sector is left out; it is that of a FAT file (File.Fil.SettleBuffer).
- ExFat.ExFile.Truncate: the write-back of the dirty sector is left out; it is that of a FAT file (File.Fil.Truncate).
- ExFat.ExFile.Sync: of the directory entry set only status, start cluster and size are kept, without its checksum, names and times.
- LfnNames.StoreEntries: finding room in the directory, growing it and the numbered short name are not modelled; a directory is a sequence of 32-byte entries, and positions count entries.
- LfnDir.DirFind: case folding is a function; nothing else is assumed of it but, in LfnNames.StoredIsFound and OwnNameFound, that only the terminator folds to the terminator and, in OwnNameFound, that only 0xFFFF folds to 0xFFFF.
- Several open files at a time, file locks, sub-directories, renaming, labels, timestamps beyond a parameter: not modelled.
- Reloc.NormalizedIndependent: for 64-bit records the label is a parameter, because its shift is wider than the type it shifts; ARM records normalise to bare labels, as in the program.
- Reloc.NormalizeText: a table out of order is excluded, and the counters of relocation kinds are not modelled.
- VectorRegisters.FpuStates.Save: threads stay on their CPU; migration, orphaned slots of dead threads and the messages about both are not modelled, nor is a CPU whose preempt count is zero after softirqs were disabled.
- VectorRegisters.FpuStates.Restore: stated for the flag of the innermost save; what unbalanced callers get is not modelled.
- Path.NormalizePath: null arguments and failing allocations are not modelled.
- Everything in the repository outside the files cited above.
