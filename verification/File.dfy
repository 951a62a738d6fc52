/** The FIL object: a file pointer over a cluster chain, with a private
    one-sector buffer, on a FAT12/16/32 volume. */
module File {
  import opened Bytes
  import opened Geometry
  import opened FatEntry
  import opened Volume
  import opened Chains
  import opened Allocator
  import opened FileImage
  import opened Isolation

  datatype FResult = FR_OK | FR_INT_ERR | FR_DENIED | FR_NO_HEADER | FR_BAD_HEADER

  const MAX_SIZE: nat := 0xFFFF_FFFF

  lemma FatIsNotFile(g: Geometry, chain: seq<nat>, s: nat)
    requires g.FatArea() && s < g.database
    ensures !InFile(g, chain, s)
  {
  }

  lemma FatBelowData(g: Geometry, s: nat)
    requires g.FatArea() && g.InFat1(s)
    ensures s < g.database
  {
  }

  lemma InFileBound(g: Geometry, chain: seq<nat>, s: nat)
    requires Clusters(g, chain) && InFile(g, chain, s)
    ensures g.database <= s < g.nSectors
  {
    var q, r := (s - g.database) / g.csize, (s - g.database) % g.csize;
    assert s - g.database == q * g.csize + r;
    SectorOwner(g, q + 2, r);
    assert g.csize * q == q * g.csize;
  }

  lemma ChainClusters(g: Geometry, fat: Fat, chain: seq<nat>)
    requires g.WellFormed() && |fat| == g.nFatent && (chain == [] || IsChain(fat, chain))
    ensures Clusters(g, chain)
  {
    if chain != [] { ChainIsAcyclic(fat, chain); }
  }

  lemma OneSector(vol: Image, s: nat, b: Sector)
    requires s < |vol|
    ensures WriteSectors(vol, s, b) == vol[s := b]
  {
    forall i: nat | i < |vol| ensures WriteSectors(vol, s, b)[i] == vol[s := b][i] {
      WriteSectorsAt(vol, s, b, i);
    }
  }

  /** A run of file sectors inside one cluster is a run of device sectors,
      all of them the file's. */
  lemma RunInFile(g: Geometry, chain: seq<nat>, k: nat, cc: nat)
    requires Clusters(g, chain) && k / g.csize < |chain| && cc > 0 && k % g.csize + cc <= g.csize
    ensures g.database <= SectorOf(g, chain, k) && SectorOf(g, chain, k) + cc <= g.nSectors
    ensures forall s: nat :: SectorOf(g, chain, k) <= s < SectorOf(g, chain, k) + cc ==> InFile(g, chain, s)
  {
    var a := SectorOf(g, chain, k);
    forall s: nat | a <= s < a + cc ensures InFile(g, chain, s) {
      SectorOfInverse(g, chain, k, s - a);
    }
    assert InFile(g, chain, a + (cc - 1));
    InFileBound(g, chain, a + (cc - 1));
    InFileBound(g, chain, a);
  }

  /** Laying the dirty buffer over a run read from the device. */
  lemma OverlayRun(vol: Image, s: nat, cc: nat, sect: nat, buf: Sector, data: seq<byte>)
    requires s + cc <= |vol| && |data| == 512 * cc && s <= sect < s + cc
    requires forall i :: 0 <= i < cc ==> data[512 * i..512 * i + 512] == vol[s + i]
    ensures var o := (sect - s) * 512;
            var r := data[..o] + buf + data[o + 512..];
            |r| == |data| && forall i: nat :: i < cc ==> r[512 * i..512 * i + 512] == Seen(vol, true, sect, buf, s + i)
  {
    var o := (sect - s) * 512;
    var r := data[..o] + buf + data[o + 512..];
    forall i: nat | i < cc ensures r[512 * i..512 * i + 512] == Seen(vol, true, sect, buf, s + i) {
      if s + i != sect {
        assert r[512 * i..512 * i + 512] == data[512 * i..512 * i + 512];
      }
    }
  }

  /** After a run of whole sectors inside a cluster the cursor is still in, or
      just past, that cluster. */
  lemma AdvanceRun(g: Geometry, pos: nat, n: nat)
    requires g.csize > 0 && pos % 512 == 0 && n % 512 == 0 && n > 0
    requires pos / 512 % g.csize + n / 512 <= g.csize
    ensures Idx(g, pos + n - 1) == Idx(g, pos) && (pos + n) % 512 == 0
  {
    var k, m := pos / 512, n / 512;
    DivUnique(pos + n, 512, k + m, 0);
    DivUnique(pos + n - 1, 512, k + m - 1, 511);
    assert k == k / g.csize * g.csize + k % g.csize;
    DivUnique(k + m - 1, g.csize, k / g.csize, k % g.csize + m - 1);
  }

  lemma AdvanceInSector(g: Geometry, pos: nat, n: nat)
    requires g.csize > 0 && n > 0 && pos % 512 + n <= 512
    ensures Idx(g, pos + n - 1) == Idx(g, pos)
    ensures (pos + n) % 512 != 0 ==> (pos + n) / 512 == pos / 512 && Idx(g, pos + n) == Idx(g, pos)
  {
    DivUnique(pos + n - 1, 512, pos / 512, pos % 512 + n - 1);
  }

  lemma CachedRun(content: seq<byte>, pos: nat, n: nat, buf: Sector)
    requires pos + n <= |content| && pos % 512 + n <= 512 && Caches(content, pos / 512, buf)
    ensures buf[pos % 512..pos % 512 + n] == content[pos..pos + n]
  {
    var o := pos % 512;
    var a, b := buf[o..o + n], content[pos..pos + n];
    forall j: nat | j < n ensures a[j] == b[j] {
      DivUnique(pos + j, 512, pos / 512, o + j);
      assert content[pos + j] == buf[(pos + j) % 512];
    }
  }

  lemma SectorOfIs(g: Geometry, chain: seq<nat>, k: nat)
    requires g.csize > 0 && k / g.csize < |chain|
    ensures SectorOf(g, chain, k) == g.Clst2Sect(chain[k / g.csize]) + k % g.csize
  {
  }

  lemma UnsignedBelow(a: nat, b: nat, n: nat, m: nat)
    requires a < m && b + n <= m && m < 0x1_0000_0000_0000_0000
    ensures Sub64(a, b) < n <==> b <= a < b + n
  {
  }

  lemma PatchIs(b: Sector, o: nat, data: seq<byte>, r: Sector)
    requires o + |data| <= 512
    requires forall i :: 0 <= i < 512 ==> r[i] == if o <= i < o + |data| then data[i - o] else b[i]
    ensures r == Patch(b, o, data)
  {
    forall i: nat | i < 512 ensures r[i] == Patch(b, o, data)[i] { PatchAt(b, o, data, i); }
  }

  /** Positions reached from the start of a cluster. */
  lemma WithinCluster(g: Geometry, pos: nat, n: nat)
    requires g.csize > 0 && pos == Idx(g, pos) * ClusterBytes(g) && 0 < n <= ClusterBytes(g)
    ensures Idx(g, pos + n - 1) == Idx(g, pos)
    ensures n == ClusterBytes(g) ==> Idx(g, pos + n) == Idx(g, pos) + 1 && pos + n == Idx(g, pos + n) * ClusterBytes(g)
  {
    hide Idx;
    var a, cb := Idx(g, pos), ClusterBytes(g);
    IdxOfProduct(g, pos + n - 1);
    DivUnique(pos + n - 1, cb, a, n - 1);
    if n == cb {
      IdxOfProduct(g, pos + n);
      assert pos + n == (a + 1) * cb;
      DivUnique(pos + n, cb, a + 1, 0);
    }
  }

  lemma SectorWithinCluster(g: Geometry, pos: nat, n: nat)
    requires g.csize > 0 && pos == Idx(g, pos) * ClusterBytes(g) && 0 < n <= ClusterBytes(g)
    ensures (pos + n) % 512 == n % 512
    ensures n % 512 != 0 ==>
      (pos + n) / 512 / g.csize == Idx(g, pos) && (pos + n) / 512 % g.csize == n / 512
  {
    hide Idx;
    var a, c := Idx(g, pos), g.csize;
    assert pos == (a * c) * 512 by { assert a * (c * 512) == (a * c) * 512; }
    DivUnique(pos + n, 512, a * c + n / 512, n % 512);
    if n % 512 != 0 {
      assert n / 512 < c;
      DivUnique(a * c + n / 512, c, a, n / 512);
    }
  }

  lemma ZeroPosition(g: Geometry)
    requires g.csize > 0
    ensures Idx(g, 0) == 0
  {
  }

  lemma SameOrFollowing(g: Geometry, ifptr: nat, ofs: nat)
    requires g.csize > 0 && ifptr > 0 && ofs > 0
    requires (ofs - 1) / (g.csize * 512) >= (ifptr - 1) / (g.csize * 512)
    ensures var p := (ifptr - 1) / (g.csize * 512) * (g.csize * 512);
            0 <= p < ifptr && p < ofs && Idx(g, p) == Idx(g, ifptr - 1) && p == Idx(g, p) * ClusterBytes(g)
  {
    var cb := g.csize * 512;
    var q := (ifptr - 1) / cb;
    IdxOfProduct(g, ifptr - 1);
    IdxOfProduct(g, q * cb);
    DivUnique(q * cb, cb, q, 0);
    assert ifptr - 1 == q * cb + (ifptr - 1) % cb;
    assert ofs - 1 == (ofs - 1) / cb * cb + (ofs - 1) % cb;
    MulMonotone(q, (ofs - 1) / cb, cb);
  }

  /** The first k clusters hold the first k clusters' worth of bytes. */
  lemma CutCapacity(g: Geometry, chain: seq<nat>, pos: nat)
    requires g.csize > 0 && (pos > 0 ==> Idx(g, pos - 1) < |chain|)
    ensures var n := if pos == 0 then 0 else Idx(g, pos - 1) + 1;
            n <= |chain| && pos <= Capacity(g, chain[..n])
  {
    if pos > 0 {
      CapacityOfIdx(g, chain[..Idx(g, pos - 1) + 1], pos - 1);
    }
  }

  lemma WindowShows(fs: Volume)
    requires fs.WindowOk()
    ensures fs.win.Length == 512 && fs.winsect < |fs.vol| && fs.win[..] == fs.vol[fs.winsect]
    ensures fs.geo.FatArea() && |fs.vol| == fs.geo.nSectors
  {
  }

  // --- the directory entry --------------------------------------------------

  const DIR_ATTR: nat := 11
  const DIR_FSTCLUSHI: nat := 20
  const DIR_MODTIME: nat := 22
  const DIR_LSTACCDATE: nat := 18
  const DIR_FSTCLUSLO: nat := 26
  const DIR_FILESIZE: nat := 28

  /** ld_clust. */
  function LdClust(t: FsType, w: seq<byte>, p: nat): nat
    requires p + 32 <= |w|
  {
    LoadAt(w, p + DIR_FSTCLUSLO, 2) + (if t == Fat32 then 0x1_0000 * LoadAt(w, p + DIR_FSTCLUSHI, 2) else 0)
  }

  function LdSize(w: seq<byte>, p: nat): nat
    requires p + 32 <= |w|
  {
    LoadAt(w, p + DIR_FILESIZE, 4)
  }

  lemma LdSizeBound(w: seq<byte>, p: nat)
    requires p + 32 <= |w|
    ensures LdSize(w, p) <= MAX_SIZE
  {
    StoreLoad(w[p + DIR_FILESIZE..p + DIR_FILESIZE + 4]);
    Pow256Values();
  }

  /** `dir[DIR_Attr] |= AM_ARC`. */
  function SetArchive(b: byte): byte { if b / 32 % 2 == 1 then b else b + 32 }

  /** The sector with the entry at `p` updated as f_sync does. */
  function StoreEntry(t: FsType, w: Sector, p: nat, cl: nat, size: nat, tm: nat): Sector
    requires p + 32 <= 512
  {
    var w1 := w[p + DIR_ATTR := SetArchive(w[p + DIR_ATTR])];
    var w2 := StoreAt(w1, p + DIR_FSTCLUSLO, cl % 0x1_0000, 2);
    var w3 := if t == Fat32 then StoreAt(w2, p + DIR_FSTCLUSHI, cl / 0x1_0000, 2) else w2;
    var w4 := StoreAt(w3, p + DIR_FILESIZE, size, 4);
    var w5 := StoreAt(w4, p + DIR_MODTIME, tm, 4);
    StoreAt(w5, p + DIR_LSTACCDATE, 0, 2)
  }

  /** The entry reads back the start cluster and the size exactly. */
  lemma EntryReadsBack(t: FsType, w: Sector, p: nat, cl: nat, size: nat, tm: nat)
    requires p + 32 <= 512 && size <= MAX_SIZE
    requires cl < if t == Fat32 then 0x1_0000_0000 else 0x1_0000
    ensures LdClust(t, StoreEntry(t, w, p, cl, size, tm), p) == cl
    ensures LdSize(StoreEntry(t, w, p, cl, size, tm), p) == size
  {
    hide StoreAt;
    hide LoadAt;
    Pow256Values();
    var w1 := w[p + DIR_ATTR := SetArchive(w[p + DIR_ATTR])];
    var w2 := StoreAt(w1, p + DIR_FSTCLUSLO, cl % 0x1_0000, 2);
    var w3 := if t == Fat32 then StoreAt(w2, p + DIR_FSTCLUSHI, cl / 0x1_0000, 2) else w2;
    var w4 := StoreAt(w3, p + DIR_FILESIZE, size, 4);
    var w5 := StoreAt(w4, p + DIR_MODTIME, tm, 4);
    // the size
    LoadAfterStore(w3, p + DIR_FILESIZE, size, 4, p, 0);
    LoadAfterStore(w4, p + DIR_MODTIME, tm, 4, p + DIR_FILESIZE, 4);
    LoadAfterStore(w5, p + DIR_LSTACCDATE, 0, 2, p + DIR_FILESIZE, 4);
    // the low word of the cluster
    LoadAfterStore(w1, p + DIR_FSTCLUSLO, cl % 0x1_0000, 2, p, 0);
    LoadAfterStore(w2, p + DIR_FSTCLUSHI, cl / 0x1_0000, 2, p + DIR_FSTCLUSLO, 2);
    LoadAfterStore(w3, p + DIR_FILESIZE, size, 4, p + DIR_FSTCLUSLO, 2);
    LoadAfterStore(w4, p + DIR_MODTIME, tm, 4, p + DIR_FSTCLUSLO, 2);
    LoadAfterStore(w5, p + DIR_LSTACCDATE, 0, 2, p + DIR_FSTCLUSLO, 2);
    // the high word
    if t == Fat32 {
      LoadAfterStore(w3, p + DIR_FILESIZE, size, 4, p + DIR_FSTCLUSHI, 2);
      LoadAfterStore(w4, p + DIR_MODTIME, tm, 4, p + DIR_FSTCLUSHI, 2);
      LoadAfterStore(w5, p + DIR_LSTACCDATE, 0, 2, p + DIR_FSTCLUSHI, 2);
    }
  }

  /** The bytes of a directory entry that f_sync writes. */
  ghost predicate InEntry(t: FsType, p: nat, i: nat) {
    i == p + 11 || p + 18 <= i < p + 20 || p + 22 <= i < p + 32 || (t == Fat32 && p + 20 <= i < p + 22)
  }

  /** The entry at `p` in sector `r` is the one in `w` as f_sync leaves it: the
      archive attribute set, the time of modification, no date of access, the
      start cluster and the size stored. No other byte of the sector changes. */
  ghost predicate Refreshed(t: FsType, w: Sector, r: Sector, p: nat, cl: nat, size: nat, tm: nat)
    requires p + 32 <= 512
  {
    && (forall i :: 0 <= i < 512 && !InEntry(t, p, i) ==> r[i] == w[i])
    && Archived(w[p + 11], r[p + 11])
    && r[p + 18] == r[p + 19] == 0
    && LdLE(r[p + 22..p + 26]) == tm % 0x1_0000_0000
    && LdLE(r[p + 26..p + 28]) == cl % 0x1_0000
    && (t == Fat32 ==> LdLE(r[p + 20..p + 22]) == cl / 0x1_0000 % 0x1_0000)
    && LdLE(r[p + 28..p + 32]) == size % 0x1_0000_0000
  }

  /** Bit 5 is set, the other bits are as they were. */
  ghost predicate Archived(b: byte, a: byte) {
    forall k: nat {:trigger Bit(a, k)} :: Bit(a, k) <==> k == 5 || Bit(b, k)
  }

  lemma OddBits(q: nat, k: nat)
    requires q % 2 == 0
    ensures Bit(q + 1, k) <==> k == 0 || Bit(q, k)
  {
  }

  lemma ArchiveBit(b: byte, k: nat)
    ensures Bit(SetArchive(b), k) <==> k == 5 || Bit(b, k)
  {
    hide Bit;
    assert Pow2(5) == 2 * Pow2(4) == 4 * Pow2(3) == 8 * Pow2(2) == 16 * Pow2(1) == 32;
    var a := SetArchive(b);
    if k < 5 {
      BitLow(a, 5, k);
      BitLow(b, 5, k);
    } else {
      BitShift(a, 5, k - 5, 32, a / 32);
      BitShift(b, 5, k - 5, 32, b / 32);
      if b / 32 % 2 == 0 { OddBits(b / 32, k - 5); } else { OddBits(b / 32 - 1, k - 5); }
    }
  }

  lemma AttributeArchived(b: byte)
    ensures Archived(b, SetArchive(b))
  {
    hide SetArchive;
    forall k: nat ensures Bit(SetArchive(b), k) <==> k == 5 || Bit(b, k) { ArchiveBit(b, k); }
  }

  lemma StoreEntryRefreshes(t: FsType, w: Sector, p: nat, cl: nat, size: nat, tm: nat)
    requires p + 32 <= 512
    ensures Refreshed(t, w, StoreEntry(t, w, p, cl, size, tm), p, cl, size, tm)
  {
    hide StoreAt, SetArchive, Bit;
    Pow256Values();
    var w1 := w[p + DIR_ATTR := SetArchive(w[p + DIR_ATTR])];
    var w2 := StoreAt(w1, p + DIR_FSTCLUSLO, cl % 0x1_0000, 2);
    var w3 := if t == Fat32 then StoreAt(w2, p + DIR_FSTCLUSHI, cl / 0x1_0000, 2) else w2;
    var w4 := StoreAt(w3, p + DIR_FILESIZE, size, 4);
    var w5 := StoreAt(w4, p + DIR_MODTIME, tm, 4);
    var r := StoreAt(w5, p + DIR_LSTACCDATE, 0, 2);
    forall i: nat | i < 512 && (!InEntry(t, p, i) || i == p + 11) ensures r[i] == w1[i] {
      StoreAtByte(w1, p + DIR_FSTCLUSLO, cl % 0x1_0000, 2, i);
      if t == Fat32 { StoreAtByte(w2, p + DIR_FSTCLUSHI, cl / 0x1_0000, 2, i); }
      StoreAtByte(w3, p + DIR_FILESIZE, size, 4, i);
      StoreAtByte(w4, p + DIR_MODTIME, tm, 4, i);
      StoreAtByte(w5, p + DIR_LSTACCDATE, 0, 2, i);
    }
    AttributeArchived(w[p + 11]);
    FieldsStored(t, w1, p, cl, size, tm);
  }

  lemma FieldsStored(t: FsType, w1: Sector, p: nat, cl: nat, size: nat, tm: nat)
    requires p + 32 <= 512
    ensures var w2 := StoreAt(w1, p + DIR_FSTCLUSLO, cl % 0x1_0000, 2);
            var w3 := if t == Fat32 then StoreAt(w2, p + DIR_FSTCLUSHI, cl / 0x1_0000, 2) else w2;
            var w4 := StoreAt(w3, p + DIR_FILESIZE, size, 4);
            var w5 := StoreAt(w4, p + DIR_MODTIME, tm, 4);
            var r := StoreAt(w5, p + DIR_LSTACCDATE, 0, 2);
            && r[p + 18] == r[p + 19] == 0
            && LoadAt(r, p + 22, 4) == tm % 0x1_0000_0000 && LoadAt(r, p + 28, 4) == size % 0x1_0000_0000
            && LoadAt(r, p + 26, 2) == cl % 0x1_0000
            && (t == Fat32 ==> LoadAt(r, p + 20, 2) == cl / 0x1_0000 % 0x1_0000)
  {
    hide StoreAt, LoadAt;
    Pow256Values();
    var w2 := StoreAt(w1, p + DIR_FSTCLUSLO, cl % 0x1_0000, 2);
    var w3 := if t == Fat32 then StoreAt(w2, p + DIR_FSTCLUSHI, cl / 0x1_0000, 2) else w2;
    var w4 := StoreAt(w3, p + DIR_FILESIZE, size, 4);
    var w5 := StoreAt(w4, p + DIR_MODTIME, tm, 4);
    LoadAfterStore(w1, p + DIR_FSTCLUSLO, cl % 0x1_0000, 2, p, 0);
    if t == Fat32 {
      LoadAfterStore(w2, p + DIR_FSTCLUSHI, cl / 0x1_0000, 2, p + 26, 2);
      LoadAfterStore(w3, p + DIR_FILESIZE, size, 4, p + 20, 2);
      LoadAfterStore(w4, p + DIR_MODTIME, tm, 4, p + 20, 2);
      LoadAfterStore(w5, p + DIR_LSTACCDATE, 0, 2, p + 20, 2);
    }
    LoadAfterStore(w3, p + DIR_FILESIZE, size, 4, p + 26, 2);
    LoadAfterStore(w4, p + DIR_MODTIME, tm, 4, p + 26, 2);
    LoadAfterStore(w4, p + DIR_MODTIME, tm, 4, p + 28, 4);
    LoadAfterStore(w5, p + DIR_LSTACCDATE, 0, 2, p + 22, 4);
    LoadAfterStore(w5, p + DIR_LSTACCDATE, 0, 2, p + 26, 2);
    LoadAfterStore(w5, p + DIR_LSTACCDATE, 0, 2, p + 28, 4);
    ZeroWord(w5, p + DIR_LSTACCDATE);
  }

  lemma ZeroWord(s: Sector, o: nat)
    requires o + 2 <= 512
    ensures StoreAt(s, o, 0, 2)[o] == StoreAt(s, o, 0, 2)[o + 1] == 0
  {
    StoreAtBytes(s, o, 0, 2);
    var r := StoreAt(s, o, 0, 2);
    assert r[o] == r[o..o + 2][0] && r[o + 1] == r[o..o + 2][1];
    assert StLE(0, 2) == [0, 0];
  }

  /** Every other entry of the sector is as it was. */
  lemma OtherEntriesStay(t: FsType, w: Sector, r: Sector, p: nat, cl: nat, size: nat, tm: nat, q: nat)
    requires p + 32 <= 512 && q + 32 <= 512 && Refreshed(t, w, r, p, cl, size, tm)
    requires p % 32 == 0 && q % 32 == 0 && q != p
    ensures r[q..q + 32] == w[q..q + 32]
  {
  }

  /** What f_lseek changes on its way. */
  datatype Moment = Moment(snap: Snapshot, content: seq<byte>, objsize: nat, fptr: nat, modified: bool)

  /** From `a` the position went on to `b`: the size follows the position, what
      was in the file stays, and before the old end nothing changes at all. */
  ghost predicate Onward(g: Geometry, a: Moment, b: Moment) {
    && a.content <= b.content && a.fptr <= b.fptr && b.objsize == Max(a.objsize, b.fptr)
    && b.modified == (a.modified || b.objsize > a.objsize)
    && a.snap.chain <= b.snap.chain && Isolated(g, a.snap, b.snap)
    && (b.fptr < a.objsize ==> b.snap == a.snap)
  }

  lemma OnwardTwice(g: Geometry, a: Moment, b: Moment, c: Moment)
    requires Onward(g, a, b) && Onward(g, b, c)
    ensures Onward(g, a, c)
  {
    hide Isolated;
    IsolatedTransitive(g, a.snap, b.snap, c.snap);
  }

  lemma OnwardSizes(g: Geometry, a: Moment, b: Moment)
    requires Onward(g, a, b)
    ensures b.objsize == Max(a.objsize, b.fptr) && a.snap.chain <= b.snap.chain
  {
  }

  class Fil {
    const fs: Volume
    const canRead: bool         // FA_READ
    const canWrite: bool        // FA_WRITE
    const dirSect: nat          // sector of the directory entry
    const dirPtr: nat           // and its offset in it
    var modified: bool          // FA_MODIFIED
    var dirty: bool             // FA_DIRTY
    var err: FResult
    var sclust: nat
    var objsize: nat
    var fptr: nat
    var clust: nat
    var sect: nat
    const buf: array<byte>
    ghost var chain: seq<nat>   // the clusters of the file
    ghost var content: seq<byte>

    /** f_open of an existing file whose directory entry is in the window. */
    constructor Open(fs: Volume, dirPtr: nat, canRead: bool, canWrite: bool, ghost ch: seq<nat>)
      requires fs.Valid() && fs.CountOk() && dirPtr + 32 <= 512
      requires ch == [] <==> LdClust(fs.geo.fsType, fs.win[..], dirPtr) == 0
      requires ch != [] ==> IsChain(fs.fat, ch) && ch[0] == LdClust(fs.geo.fsType, fs.win[..], dirPtr)
      requires LdSize(fs.win[..], dirPtr) <= Capacity(fs.geo, ch)
      requires !InFile(fs.geo, ch, fs.winsect)
      ensures Valid() && this.fs == fs && chain == ch && err == FR_OK && fptr == 0 && !modified
      ensures this.canRead == canRead && this.canWrite == canWrite
      ensures dirSect == fs.winsect && this.dirPtr == dirPtr
      ensures objsize == LdSize(fs.win[..], dirPtr) && sect == 0 && !dirty
      ensures fresh(buf) && Saved()
    {
      this.fs, this.canRead, this.canWrite := fs, canRead, canWrite;
      dirSect, this.dirPtr := fs.winsect, dirPtr;
      sclust := LdClust(fs.geo.fsType, fs.win[..], dirPtr);
      objsize := LdSize(fs.win[..], dirPtr);
      modified, dirty, err := false, false, FR_OK;
      sect, fptr, clust := 0, 0, 0;
      buf := new byte[512](_ => 0);
      chain := ch;
      new;
      ChainClusters(fs.geo, fs.fat, ch);
      LdSizeBound(fs.win[..], dirPtr);
      PrefixShows(fs.geo, ch, fs.vol, false, 0, buf[..], objsize);
      content := Prefix(fs.geo, ch, fs.vol, false, 0, buf[..], objsize);
    }

    ghost function Snap(): Snapshot
      reads `chain, fs`fat, fs`vol
    {
      Snapshot(fs.fat, fs.vol, chain)
    }

    /** The directory entry names the start cluster and the size. */
    ghost predicate Recorded()
      reads `sclust, `objsize, fs`vol
    {
      && dirPtr + 32 <= 512 && dirSect < |fs.vol|
      && LdClust(fs.geo.fsType, fs.vol[dirSect], dirPtr) == sclust && LdSize(fs.vol[dirSect], dirPtr) == objsize
    }

    /** The volume has the whole file: the entry and all of its bytes. */
    ghost predicate Saved()
      reads `sclust, `objsize, `dirty, fs`vol
    {
      Recorded() && !dirty
    }

    /** The file is saved, or marked for f_sync; a write that was aborted may
        leave it neither. */
    ghost predicate Tied()
      reads `sclust, `objsize, `modified, `dirty, `err, fs`vol
    {
      modified || err != FR_OK || Saved()
    }

    ghost function Here(): Moment
      reads `chain, `content, `objsize, `fptr, `modified, fs`fat, fs`vol
    {
      Moment(Snap(), content, objsize, fptr, modified)
    }

    /** The chain is the file's chain on the FAT. */
    ghost predicate ChainOk()
      reads `chain, `sclust, fs`fat
    {
      if chain == [] then sclust == 0 else sclust == chain[0] && IsChain(fs.fat, chain)
    }

    /** A dirty buffer belongs to the file; a clean one equals the disk, if its
        sector is the file's or could become the file's. */
    ghost predicate BufferOk()
      reads `dirty, `sect, `chain, fs`vol, fs`fat, buf
    {
      && buf.Length == 512 && sect < |fs.vol|
      && (dirty ==> InFile(fs.geo, chain, sect))
      && (!dirty && OwnSector(fs.geo, fs.fat, chain, sect) ==> buf[..] == fs.vol[sect])
    }

    ghost predicate ContentOk()
      reads `content, `objsize, `chain, `dirty, `sect, fs`vol, buf
    {
      && buf.Length == 512
      && |content| == objsize <= MAX_SIZE
      && Shows(fs.geo, chain, fs.vol, dirty, sect, buf[..], content)
    }

    /** Everything but the position. */
    ghost predicate Core()
      reads `sclust, `objsize, `chain, `content, `dirty, `sect, buf
      reads fs`disk, fs`winsect, fs`wflag, fs`vol, fs`fat, fs`freeClst, fs`lastClst, fs`fsiDirty, fs.win
    {
      && fs.Valid() && fs.CountOk() && buf != fs.win
      && ChainOk() && BufferOk() && ContentOk()
      && !InFile(fs.geo, chain, fs.winsect)
    }

    /** The cursor: the current cluster holds the byte before fptr, and the
        buffer holds the sector of an unaligned fptr. */
    ghost predicate Cursor()
      reads `fptr, `objsize, `clust, `sect, `chain
    {
      && fptr <= objsize && fs.geo.csize > 0
      && (fptr > 0 ==> Idx(fs.geo, fptr - 1) < |chain| && clust == chain[Idx(fs.geo, fptr - 1)])
      && (fptr % 512 != 0 ==> Idx(fs.geo, fptr) < |chain| && sect == SectorOf(fs.geo, chain, fptr / 512))
    }

    ghost predicate Valid()
      reads this, fs, fs.win, buf
    {
      Core() && Cursor()
    }

    /** What follows from Core; an implication, so that it is cheap to use. */
    lemma CoreFits()
      ensures Core() ==>
        && Clusters(fs.geo, chain) && fs.geo.WellFormed() && fs.geo.csize > 0 && |fs.vol| == fs.geo.nSectors
        && |content| == objsize <= MAX_SIZE && objsize <= Capacity(fs.geo, chain) && buf.Length == 512
        && forall i: nat :: i < objsize ==> Idx(fs.geo, i) < |chain|
    {
      if Core() { ShowsFits(fs.geo, chain, fs.vol, dirty, sect, buf[..], content); }
    }

    /** A file without a start cluster is empty. */
    lemma NoClusters()
      requires Core() && sclust < 2
      ensures content == []
    {
      assert chain != [] ==> InRange(fs.fat, chain[0]);
      CoreFits();
    }

    // --- the private buffer -------------------------------------------------

    /** Write the dirty buffer back. */
    method WriteBack()
      requires Core()
      modifies `dirty, fs`disk, fs`vol
      ensures Core() && !dirty
      ensures |fs.vol| == |old(fs.vol)|
      ensures forall s: nat :: s < |fs.vol| && !InFile(fs.geo, chain, s) ==> fs.vol[s] == old(fs.vol[s])
      ensures Isolated(fs.geo, old(Snap()), Snap())
    {
      IsolatedReflexive(fs.geo, Snap());
      if dirty {
        ghost var vol := fs.vol;
        ChainClusters(fs.geo, fs.fat, chain);
        InFileBound(fs.geo, chain, sect);
        OneSector(fs.vol, sect, buf[..]);
        ShowsFlushed(fs.geo, chain, fs.vol, sect, buf[..], content);
        IsolatedWrite(fs.geo, fs.fat, vol, vol[sect := buf[..]], chain);
        fs.DiskWrite(sect, buf[..]);
        dirty := false;
      }
    }

    /** Fill the clean buffer from a sector of the file. */
    method Load(s: nat)
      requires Core() && !dirty && InFile(fs.geo, chain, s)
      modifies `sect, buf
      ensures Core() && sect == s
    {
      ChainClusters(fs.geo, fs.fat, chain);
      InFileBound(fs.geo, chain, s);
      ShowsClean(fs.geo, chain, fs.vol, sect, buf[..], s, fs.vol[s], content);
      var data := fs.DiskRead(s, 1);
      assert data == data[512 * 0..512 * 0 + 512];
      forall i | 0 <= i < 512 { buf[i] := data[i]; }
      assert buf[..] == fs.vol[s];
      sect := s;
    }

    // --- f_read -------------------------------------------------------------

    /** The cluster of byte fptr becomes current, following the chain. */
    method Follow()
      requires Valid() && fptr % 512 == 0 && fptr < objsize
      modifies `clust, fs`disk, fs`wflag, fs`winsect, fs.win
      ensures Core() && Idx(fs.geo, fptr) < |chain| && clust == chain[Idx(fs.geo, fptr)]
    {
      hide Core, Shows, InFile, Capacity, Idx, Clusters;
      CoreFits();
      StartCluster();
      var csect := fptr / 512 % fs.geo.csize;
      if fptr > 0 { BoundaryIdx(fs.geo, fptr); }
      if csect == 0 {
        var clst;
        if fptr == 0 {
          clst := sclust;
        } else {
          clst := NextInChain(Idx(fs.geo, fptr));
        }
        assert clst == chain[Idx(fs.geo, fptr)];   // so the FR_INT_ERR exits are not taken
        clust := clst;
      }
    }

    /** Read whole sectors of one cluster straight from the device, with the
        dirty buffer laid over them. */
    method ReadDirect(sec: nat, cc: nat) returns (data: seq<byte>)
      requires Core() && fptr % 512 == 0 && fptr + 512 * cc <= objsize && cc > 0
      requires Idx(fs.geo, fptr) < |chain| && sec == SectorOf(fs.geo, chain, fptr / 512)
      requires fptr / 512 % fs.geo.csize + cc <= fs.geo.csize
      ensures data == content[fptr..fptr + 512 * cc] && |data| == 512 * cc
    {
      hide Core, Shows, InFile, Capacity, SectorOf, Clusters, Seen;
      CoreFits();
      CoreBuffer();
      RunInFile(fs.geo, chain, fptr / 512, cc);
      data := fs.DiskRead(sec, cc);
      data := Overlay(sec, cc, data);
      ShowsRun(fs.geo, chain, fs.vol, dirty, sect, buf[..], content, fptr, data);
    }

    /** The dirty buffer goes over what was read, if its sector was read. */
    method Overlay(sec: nat, cc: nat, data: seq<byte>) returns (r: seq<byte>)
      requires buf.Length == 512 && sec + cc <= |fs.vol| < 0x1_0000_0000_0000_0000 && sect < |fs.vol|
      requires |data| == 512 * cc && forall i :: 0 <= i < cc ==> data[512 * i..512 * i + 512] == fs.vol[sec + i]
      ensures |r| == 512 * cc
      ensures forall i: nat :: i < cc ==> r[512 * i..512 * i + 512] == Seen(fs.vol, dirty, sect, buf[..], sec + i)
    {
      r := data;
      if dirty {
        UnsignedRangeTest(sect, sec, cc);
        if Sub64(sect, sec) < cc {
          var o := (sect - sec) * 512;
          OverlayRun(fs.vol, sec, cc, sect, buf[..], data);
          r := data[..o] + buf[..] + data[o + 512..];
        }
      }
    }

    /** f_read at a sector boundary: either whole sectors are transferred, or
        the buffer is loaded with the sector of fptr. */
    method ReadBoundary(btr: nat) returns (data: seq<byte>)
      requires Valid() && fptr % 512 == 0 && 0 < btr <= objsize - fptr
      modifies `clust, `sect, `dirty, buf, fs`disk, fs`wflag, fs`winsect, fs`vol, fs.win
      ensures Core() && Idx(fs.geo, fptr) < |chain| && clust == chain[Idx(fs.geo, fptr)]
      ensures |data| <= btr && data == content[fptr..fptr + |data|]
      ensures |data| % 512 == 0 && fptr / 512 % fs.geo.csize + |data| / 512 <= fs.geo.csize
      ensures data == [] ==> sect == SectorOf(fs.geo, chain, fptr / 512)
      ensures Isolated(fs.geo, old(Snap()), Snap())
      ensures dirty ==> old(dirty)
    {
      hide Core, Clusters, SectorOf, Isolated, Idx;
      IsolatedReflexive(fs.geo, Snap());
      CoreFits();
      Follow();
      CurrentSector();
      var sec := fs.geo.Clst2Sect(clust) + fptr / 512 % fs.geo.csize;
      data := [];
      if btr / 512 > 0 {
        data := ReadRun(sec, btr);
      } else if sect != sec {
        ReplaceBuffer(sec);
      }
    }

    /** As many whole sectors as are asked for and as the current cluster has. */
    method ReadRun(sec: nat, btr: nat) returns (data: seq<byte>)
      requires Core() && fptr % 512 == 0 && 512 <= btr <= objsize - fptr && fs.geo.csize > 0
      requires fptr / 512 / fs.geo.csize < |chain| && sec == SectorOf(fs.geo, chain, fptr / 512)
      requires Idx(fs.geo, fptr) < |chain|
      ensures 0 < |data| <= btr && data == content[fptr..fptr + |data|]
      ensures |data| % 512 == 0 && fptr / 512 % fs.geo.csize + |data| / 512 <= fs.geo.csize
    {
      hide Core, Clusters, SectorOf, Idx;
      CoreFits();
      var csect := fptr / 512 % fs.geo.csize;
      var cc := btr / 512;
      if csect + cc > fs.geo.csize { cc := fs.geo.csize - csect; }
      WholeSectors(cc);
      data := ReadDirect(sec, cc);
    }

    /** The buffer moves to another sector of the file. */
    method ReplaceBuffer(sec: nat)
      requires Core() && fs.geo.csize > 0 && fptr / 512 / fs.geo.csize < |chain|
      requires sec == SectorOf(fs.geo, chain, fptr / 512)
      modifies `sect, `dirty, buf, fs`disk, fs`vol
      ensures Core() && sect == sec && !dirty && Isolated(fs.geo, old(Snap()), Snap())
    {
      hide Core, SectorOf, Isolated;
      CoreFits();
      SectorOfOwner(fs.geo, chain, fptr / 512);
      WriteBack();
      Load(sec);
    }

    /** The cluster and sector of byte fptr are current. */
    ghost predicate OnSector()
      reads `fptr, `objsize, `clust, `sect, `chain
    {
      && fptr <= objsize && fs.geo.csize > 0
      && Idx(fs.geo, fptr) < |chain| && clust == chain[Idx(fs.geo, fptr)]
      && sect == SectorOf(fs.geo, chain, fptr / 512)
    }

    lemma CursorOnSector()
      requires Cursor() && fptr % 512 != 0
      ensures OnSector()
    {
      BoundaryIdx(fs.geo, fptr);
    }

    /** The tail of a round: copy from the buffer. */
    method ReadBuffered(btr: nat) returns (chunk: seq<byte>)
      requires Core() && OnSector() && 0 < btr <= objsize - fptr
      modifies `fptr
      ensures Valid()
      ensures 0 < |chunk| <= btr && fptr == old(fptr) + |chunk|
      ensures chunk == content[old(fptr)..fptr]
    {
      hide Core;
      hide SectorOf;
      hide Idx;
      CoreFits();
      var rcnt := 512 - fptr % 512;
      if rcnt > btr { rcnt := btr; }
      chunk := buf[fptr % 512..fptr % 512 + rcnt];
      BufferedBytes(rcnt);
      AdvanceInSector(fs.geo, fptr, rcnt);
      fptr := fptr + rcnt;
    }

    /** One round of the loop of f_read. */
    method ReadChunk(btr: nat) returns (chunk: seq<byte>)
      requires Valid() && 0 < btr <= objsize - fptr
      modifies `fptr, `clust, `sect, `dirty, buf, fs`disk, fs`wflag, fs`winsect, fs`vol, fs.win
      ensures Valid()
      ensures 0 < |chunk| <= btr && fptr == old(fptr) + |chunk|
      ensures chunk == content[old(fptr)..fptr]
      ensures Isolated(fs.geo, old(Snap()), Snap())
      ensures dirty ==> old(dirty)
    {
      hide Core;
      hide Isolated;
      hide SectorOf;
      CoreFits();
      IsolatedReflexive(fs.geo, Snap());
      if fptr % 512 == 0 {
        chunk := ReadBoundary(btr);
        if chunk != [] {
          AdvanceRun(fs.geo, fptr, |chunk|);
          fptr := fptr + |chunk|;
          return;
        }
      } else {
        CursorOnSector();
      }
      chunk := ReadBuffered(btr);
    }

    /** f_read: exactly the bytes from the position, as many as there are. */
    method Read(btr: nat) returns (res: FResult, data: seq<byte>)
      requires Valid()
      modifies `fptr, `clust, `sect, `dirty, buf, fs`disk, fs`wflag, fs`winsect, fs`vol, fs.win
      ensures Valid()
      ensures res == if err != FR_OK then err else if canRead then FR_OK else FR_DENIED
      ensures res == FR_OK ==> fptr == old(fptr) + Min(btr, objsize - old(fptr))
      ensures res != FR_OK ==> fptr == old(fptr)
      ensures data == content[old(fptr)..fptr]
      ensures Isolated(fs.geo, old(Snap()), Snap())
      ensures dirty ==> old(dirty)
    {
      hide Core;
      hide Isolated;
      CoreFits();
      data := [];
      IsolatedReflexive(fs.geo, Snap());
      if err != FR_OK { return err, data; }
      if !canRead { return FR_DENIED, data; }
      var n := btr;
      var remain := objsize - fptr;
      if n > remain { n := remain; }
      while n > 0
        invariant Valid()
        invariant 0 <= n && fptr == old(fptr) + |data| && n + |data| == Min(btr, objsize - old(fptr))
        invariant |content| == objsize && data == content[old(fptr)..fptr] && (dirty ==> old(dirty))
        invariant Isolated(fs.geo, old(Snap()), Snap())
        decreases n
      {
        ghost var was, pos := Snap(), fptr;
        var chunk := ReadChunk(n);
        IsolatedTransitive(fs.geo, old(Snap()), was, Snap());
        data := data + chunk;
        n := n - |chunk|;
      }
      return FR_OK, data;
    }

    /** The buffer of the current sector holds the file's bytes. */
    lemma BufferedBytes(n: nat)
      requires Core() && fptr + n <= objsize && fptr % 512 + n <= 512
      requires Idx(fs.geo, fptr) < |chain| && sect == SectorOf(fs.geo, chain, fptr / 512)
      ensures buf[fptr % 512..fptr % 512 + n] == content[fptr..fptr + n]
    {
      SectorOfOwner(fs.geo, chain, fptr / 512);
      SeenCaches(fs.geo, chain, fs.vol, dirty, sect, buf[..], content, fptr / 512);
      CachedRun(content, fptr, n, buf[..]);
    }

    // --- stretching ---------------------------------------------------------

    /** create_chain at position k of the file's chain (or for an empty chain,
        k == 0): the next cluster, appended to the chain if there was none. */
    method Stretch(ghost k: nat, c: nat) returns (r: nat)
      requires Core()
      requires if chain == [] then c == 0 && k == 0 else 1 <= k <= |chain| && c == chain[k - 1]
      modifies `sclust, `chain
      modifies fs`disk, fs`wflag, fs`winsect, fs.win, fs`vol, fs`fat, fs`freeClst, fs`lastClst, fs`fsiDirty
      ensures Core()
      ensures r > INTERNAL_ERROR ==> k < |chain| && r == chain[k]
      ensures chain == old(chain) || (k == |old(chain)| && chain == old(chain) + [r])
      ensures k < |old(chain)| ==> r == old(chain)[k] > INTERNAL_ERROR && fs.fat == old(fs.fat) && fs.vol == old(fs.vol)
      ensures r <= INTERNAL_ERROR ==> chain == old(chain) && fs.fat == old(fs.fat) && fs.vol == old(fs.vol)
      ensures r == 0 ==> NoFree(fs.fat)
      ensures r == INTERNAL_ERROR ==> HasReserved(fs.fat)
      ensures Isolated(fs.geo, old(Snap()), Snap())
    {
      hide Core, Shows, Isolated, InFile, Capacity, Clusters, BufferOk, OwnSector, SameOutsideFats, Mirrored;
      hide fs.Valid, fs.CountOk, ChainOk, IsChain;
      CoreFits();
      CoreBuffer();
      VolumeSizes();
      IsolatedReflexive(fs.geo, Snap());
      ghost var was := Snap();
      InChain(k);
      r := CreateChain(fs, c);
      VolumeSizes();
      if k == |chain| && r > INTERNAL_ERROR {
        Extend(was.fat, was.vol, c, r);
        chain := chain + [r];
      }
      if sclust == 0 && r > INTERNAL_ERROR { sclust := r; }
      ChainIs();
      if fs.geo.InFat1(fs.winsect) {
        FatBelowData(fs.geo, fs.winsect);
        FatIsNotFile(fs.geo, chain, fs.winsect);
      }
      StretchedCore(was);
    }

    lemma VolumeSizes()
      ensures fs.Valid() && fs.CountOk() ==> |fs.fat| == fs.geo.nFatent && |fs.vol| == fs.geo.nSectors
    {
    }

    /** Everything is in order again after the chain was stretched. */
    lemma StretchedCore(was: Snapshot)
      requires fs.Valid() && fs.CountOk() && buf != fs.win && buf.Length == 512 && ChainOk()
      requires sect < |was.vol| && |content| == objsize <= MAX_SIZE && was.chain <= chain
      requires dirty ==> InFile(fs.geo, was.chain, sect)
      requires !dirty && OwnSector(fs.geo, was.fat, was.chain, sect) ==> buf[..] == was.vol[sect]
      requires SameOutsideFats(fs.geo, was.vol, fs.vol) && Isolated(fs.geo, was, Snap())
      requires Shows(fs.geo, chain, fs.vol, dirty, sect, buf[..], content)
      requires !InFile(fs.geo, chain, fs.winsect)
      ensures Core()
    {
      hide Shows, Isolated, fs.FatOk, fs.WindowOk, Clusters, OwnSector, fs.CountOk;
      OwnSectorKept(was, sect);
    }

    lemma ChainIs()
      ensures (if chain == [] then sclust == 0 else sclust == chain[0] && IsChain(fs.fat, chain)) ==> ChainOk()
    {
    }

    /** The clusters around position k of the chain are clusters in use. */
    lemma InChain(k: nat)
      requires ChainOk() && (chain != [] ==> 1 <= k <= |chain|)
      ensures chain != [] ==> IsChain(fs.fat, chain) && sclust == chain[0] && sclust > INTERNAL_ERROR
      ensures chain != [] ==> InRange(fs.fat, chain[k - 1]) && 2 <= fs.fat[chain[k - 1]]
      ensures k < |chain| ==> InRange(fs.fat, chain[k]) && fs.fat[chain[k - 1]] == chain[k]
      ensures chain != [] && k == |chain| ==> fs.fat[chain[k - 1]] >= |fs.fat|
      ensures chain == [] ==> sclust == 0
    {
      if chain != [] { ChainInUse(fs.fat, chain, k - 1); }
    }


    /** Appending a freshly linked cluster keeps everything that is visible. */
    lemma Extend(fat: Fat, vol: Image, c: nat, ncl: nat)
      requires fs.geo.WellFormed() && |fat| == |fs.fat| == fs.geo.nFatent && |vol| == |fs.vol| == fs.geo.nSectors
      requires Linked(fat, fs.fat, c, ncl, Eoc(fs.geo)) && SameOutsideFats(fs.geo, vol, fs.vol)
      requires if chain == [] then c == 0 else IsChain(fat, chain) && c == chain[|chain| - 1]
      requires Mirrored(fs.geo, vol) ==> Mirrored(fs.geo, fs.vol)
      requires buf.Length == 512 && Shows(fs.geo, chain, vol, dirty, sect, buf[..], content)
      ensures IsChain(fs.fat, chain + [ncl])
      ensures Shows(fs.geo, chain + [ncl], fs.vol, dirty, sect, buf[..], content)
      ensures Isolated(fs.geo, Snapshot(fat, vol, chain), Snapshot(fs.fat, fs.vol, chain + [ncl]))
      ensures forall s: nat :: InFile(fs.geo, chain, s) ==> InFile(fs.geo, chain + [ncl], s)
    {
      if chain == [] {
        LinkedStarts(fat, fs.fat, ncl, Eoc(fs.geo));
        assert chain + [ncl] == [ncl];
      } else {
        LinkedExtends(fat, fs.fat, chain, ncl, Eoc(fs.geo));
      }
      ChainClusters(fs.geo, fs.fat, chain + [ncl]);
      ShowsExtended(fs.geo, chain, ncl, vol, fs.vol, dirty, sect, buf[..], content);
      IsolatedLink(fs.geo, fat, fs.fat, vol, fs.vol, chain, c, ncl, Eoc(fs.geo));
    }

    // --- f_write ------------------------------------------------------------

    /** The cluster of byte fptr becomes current, following or stretching the
        chain. 0: the disk is full; 1: the FAT holds a reserved value. */
    method FollowOrStretch() returns (r: nat)
      requires Valid() && fptr % 512 == 0
      modifies `clust, `sclust, `chain
      modifies fs`disk, fs`wflag, fs`winsect, fs.win, fs`vol, fs`fat, fs`freeClst, fs`lastClst, fs`fsiDirty
      ensures Core()
      ensures r > INTERNAL_ERROR ==> Idx(fs.geo, fptr) < |chain| && clust == chain[Idx(fs.geo, fptr)]
      ensures r <= INTERNAL_ERROR ==> Valid() && fs.vol == old(fs.vol) && fs.fat == old(fs.fat) && chain == old(chain)
      ensures r <= INTERNAL_ERROR ==> fptr == Capacity(fs.geo, chain)
      ensures r > INTERNAL_ERROR ==>
        old(chain) <= chain && |chain| == Max(|old(chain)|, Idx(fs.geo, fptr) + 1)
      ensures fptr < objsize ==> r > INTERNAL_ERROR
      ensures r == 0 ==> NoFree(fs.fat)
      ensures r == INTERNAL_ERROR ==> HasReserved(fs.fat)
      ensures Isolated(fs.geo, old(Snap()), Snap())
    {
      hide Core;
      hide Isolated;
      hide Clusters;
      hide SectorOf;
      IsolatedReflexive(fs.geo, Snap());
      CoreFits();
      if fptr > 0 { BoundaryIdx(fs.geo, fptr); }
      if fptr / 512 % fs.geo.csize != 0 {
        return 2;
      }
      if fptr == 0 {
        r := sclust;
        StartCluster();
        if r == 0 { r := Stretch(0, 0); }
      } else {
        r := Stretch(Idx(fs.geo, fptr), clust);
      }
      if r > INTERNAL_ERROR { clust := r; }
    }

    lemma StartCluster()
      requires Core()
      ensures if chain == [] then sclust == 0 else sclust == chain[0] && sclust > INTERNAL_ERROR
      ensures fs.geo.csize > 0 && Idx(fs.geo, 0) == 0
    {
      if chain != [] { assert InRange(fs.fat, chain[0]); }
    }

    /** disk_write of whole sectors, then the refill of the clean buffer if it
        holds one of them. */
    method PutSectors(sec: nat, data: seq<byte>)
      requires fs.Valid() && BufferOk() && !dirty && buf != fs.win
      requires |data| % 512 == 0 && fs.geo.database <= sec && sec + |data| / 512 <= fs.geo.nSectors
      requires !(sec <= fs.winsect < sec + |data| / 512)
      modifies buf, fs`disk, fs`vol
      ensures fs.Valid() && BufferOk()
      ensures fs.vol == WriteSectors(old(fs.vol), sec, data)
    {
      hide WriteSectors;
      hide fs.FatOk;
      hide fs.WindowOk;
      var cc := |data| / 512;
      WriteSectorsAt(fs.vol, sec, data, sect);
      fs.DiskWrite(sec, data);
      UnsignedBelow(sect, sec, cc, fs.geo.nSectors);
      if Sub64(sect, sec) < cc {
        var o := (sect - sec) * 512;
        forall i | 0 <= i < 512 { buf[i] := data[o + i]; }
        assert buf[..] == data[o..o + 512];
      }
    }

    /** Write whole sectors of one cluster straight to the device. */
    method WriteDirect(sec: nat, data: seq<byte>)
      requires Core() && !dirty && fptr <= objsize && fptr % 512 == 0
      requires |data| % 512 == 0 && |data| > 0 && fptr + |data| <= MAX_SIZE
      requires Idx(fs.geo, fptr) < |chain| && clust == chain[Idx(fs.geo, fptr)]
      requires sec == SectorOf(fs.geo, chain, fptr / 512) && fptr / 512 % fs.geo.csize + |data| / 512 <= fs.geo.csize
      modifies `fptr, `objsize, `content, buf, fs`disk, fs`vol
      ensures Valid() && !dirty
      ensures content == Splice(old(content), old(fptr), data) && fptr == old(fptr) + |data|
      ensures Idx(fs.geo, fptr - 1) == Idx(fs.geo, old(fptr))
      ensures Isolated(fs.geo, old(Snap()), Snap())
    {
      hide Shows;
      hide InFile;
      hide Isolated;
      hide Clusters;
      hide Capacity;
      hide SectorOf;
      hide Splice;
      hide WriteSectors;
      hide BufferOk;
      hide ChainOk;
      hide ContentOk;
      hide Core;
      hide fs.Valid;
      hide fs.CountOk;
      hide fs.geo.WellFormed;
      CoreFits();
      CoreBuffer();
      RunInFile(fs.geo, chain, fptr / 512, |data| / 512);
      ghost var vol, buf0 := fs.vol, buf[..];
      WriteIsolated(sec, data);
      PutSectors(sec, data);
      ShowsBypass(fs.geo, chain, vol, sect, buf0, sect, buf[..], content, fptr, data);
      AdvanceRun(fs.geo, fptr, |data|);
      content := Splice(content, fptr, data);
      Advance(|data|);
    }

    /** The increment of the loop of f_write: the position moves on and the
        size follows it. */
    method Advance(n: nat)
      requires fs.Valid() && fs.CountOk() && buf != fs.win && ChainOk() && BufferOk()
      requires Shows(fs.geo, chain, fs.vol, dirty, sect, buf[..], content)
      requires !InFile(fs.geo, chain, fs.winsect)
      requires |content| == Max(objsize, fptr + n) <= MAX_SIZE
      modifies `fptr, `objsize
      ensures Core() && fptr == old(fptr) + n && objsize == Max(old(objsize), fptr)
    {
      hide Shows;
      hide InFile;
      hide fs.Valid;
      hide fs.CountOk;
      hide ChainOk;
      fptr := fptr + n;
      if fptr > objsize { objsize := fptr; }
    }

    lemma CoreBuffer()
      ensures Core() ==>
        && buf.Length == 512 && Shows(fs.geo, chain, fs.vol, dirty, sect, buf[..], content) && sect < |fs.vol|
        && (!dirty && OwnSector(fs.geo, fs.fat, chain, sect) ==> buf[..] == fs.vol[sect])
        && (dirty ==> InFile(fs.geo, chain, sect))
        && !InFile(fs.geo, chain, fs.winsect)
        && fs.Valid() && fs.CountOk() && buf != fs.win && ChainOk() && BufferOk()
    {
    }

    /** At a sector boundary the buffer moves to the sector of fptr; it is
        loaded unless it is there already or the file ends here. */
    method FillForWrite(sec: nat)
      requires Core() && fptr <= objsize
      requires Idx(fs.geo, fptr) < |chain| && sec == SectorOf(fs.geo, chain, fptr / 512)
      requires if fptr % 512 == 0 then !dirty else sect == sec
      modifies `sect, buf
      ensures sect == sec && Caches(content, fptr / 512, buf[..])
    {
      hide Core;
      hide Shows;
      hide InFile;
      hide Clusters;
      hide SectorOf;
      hide fs.FatOk;
      hide fs.WindowOk;
      CoreFits();
      CoreBuffer();
      SectorOfOwner(fs.geo, chain, fptr / 512);
      CachedCases(sec);
      if fptr % 512 == 0 && sect != sec && fptr < objsize {
        var data := fs.DiskRead(sec, 1);
        assert data == data[512 * 0..512 * 0 + 512];
        forall i | 0 <= i < 512 { buf[i] := data[i]; }
        assert buf[..] == fs.vol[sec];
      }
      sect := sec;
    }

    /** What the buffer caches, in the cases FillForWrite tells apart. */
    lemma CachedCases(sec: nat)
      requires Core() && fptr <= objsize
      requires Idx(fs.geo, fptr) < |chain| && sec == SectorOf(fs.geo, chain, fptr / 512)
      ensures sec < |fs.vol| && buf.Length == 512
      ensures sect == sec ==> Caches(content, fptr / 512, buf[..])
      ensures !dirty ==> Caches(content, fptr / 512, fs.vol[sec])
      ensures fptr % 512 == 0 && fptr == objsize ==> Caches(content, fptr / 512, buf[..])
    {
      SectorOfOwner(fs.geo, chain, fptr / 512);
      if sect == sec {
        SeenCaches(fs.geo, chain, fs.vol, dirty, sect, buf[..], content, fptr / 512);
      }
      if !dirty {
        ShowsClean(fs.geo, chain, fs.vol, sect, buf[..], sec, fs.vol[sec], content);
        SeenCaches(fs.geo, chain, fs.vol, false, sec, fs.vol[sec], content, fptr / 512);
      }
    }

    lemma WriteIsolated(sec: nat, data: seq<byte>)
      requires fs.geo.WellFormed() && |data| % 512 == 0 && sec + |data| / 512 <= |fs.vol|
      requires forall s: nat :: sec <= s < sec + |data| / 512 ==> InFile(fs.geo, chain, s)
      ensures Isolated(fs.geo, Snap(), Snap().(vol := WriteSectors(fs.vol, sec, data)))
    {
      var vol' := WriteSectors(fs.vol, sec, data);
      forall s: nat | s < |fs.vol| && !InFile(fs.geo, chain, s) ensures vol'[s] == fs.vol[s] {
        WriteSectorsAt(fs.vol, sec, data, s);
      }
      IsolatedWrite(fs.geo, fs.fat, fs.vol, vol', chain);
    }

    method PatchBuffer(o: nat, data: seq<byte>)
      requires buf.Length == 512 && o + |data| <= 512
      modifies buf
      ensures buf[..] == Patch(old(buf[..]), o, data)
    {
      forall i | 0 <= i < |data| { buf[o + i] := data[i]; }
      PatchIs(old(buf[..]), o, data, buf[..]);
    }

    /** Copy `data` into the buffer of the sector of fptr, loading it first if
        it is not there and holds file data. */
    method WriteBuffered(sec: nat, data: seq<byte>)
      requires Core() && fptr <= objsize
      requires 0 < |data| && fptr % 512 + |data| <= 512 && fptr + |data| <= MAX_SIZE
      requires Idx(fs.geo, fptr) < |chain| && clust == chain[Idx(fs.geo, fptr)]
      requires sec == SectorOf(fs.geo, chain, fptr / 512)
      requires if fptr % 512 == 0 then !dirty else sect == sec
      modifies `fptr, `objsize, `content, `sect, `dirty, buf
      ensures Valid() && dirty
      ensures content == Splice(old(content), old(fptr), data) && fptr == old(fptr) + |data|
      ensures Idx(fs.geo, fptr - 1) == Idx(fs.geo, old(fptr))
    {
      hide Core, Cursor;
      hide Shows;
      hide InFile;
      hide Caches;
      hide Clusters;
      hide SectorOf;
      hide Splice;
      hide Patch;
      hide Idx;
      hide ChainOk;
      hide ContentOk;
      hide fs.Valid;
      hide fs.CountOk;
      hide fs.geo.WellFormed;
      CoreFits();
      CoreBuffer();
      IdxIs(fs.geo, fptr);
      SectorOfOwner(fs.geo, chain, fptr / 512);
      ghost var dirty0, sect0, buf0 := dirty, sect, buf[..];
      FillForWrite(sec);
      ShowsPatched(fs.geo, chain, fs.vol, dirty0, sect0, buf0, sec, buf[..], content, fptr, data);
      PatchBuffer(fptr % 512, data);
      dirty := true;
      content := Splice(content, fptr, data);
      ghost var pos := fptr;
      Advance(|data|);
      BufferedCursor(pos, |data|);
    }

    /** The cursor after a write into the buffered sector. */
    lemma BufferedCursor(pos: nat, n: nat)
      requires fs.geo.csize > 0 && 0 < n && pos % 512 + n <= 512 && fptr == pos + n <= objsize
      requires Idx(fs.geo, pos) < |chain| && clust == chain[Idx(fs.geo, pos)] && pos / 512 / fs.geo.csize < |chain|
      requires sect == SectorOf(fs.geo, chain, pos / 512)
      ensures Cursor() && Idx(fs.geo, fptr - 1) == Idx(fs.geo, pos)
    {
      AdvanceInSector(fs.geo, pos, n);
    }

    /** The sector of the position, in the current cluster. */
    lemma CurrentSector()
      requires fs.geo.csize > 0 && Idx(fs.geo, fptr) < |chain| && clust == chain[Idx(fs.geo, fptr)]
      ensures fptr / 512 / fs.geo.csize < |chain|
      ensures fs.geo.Clst2Sect(clust) + fptr / 512 % fs.geo.csize == SectorOf(fs.geo, chain, fptr / 512)
    {
    }

    lemma WholeSectors(cc: nat)
      ensures 512 * cc % 512 == 0 && 512 * cc / 512 == cc
    {
    }

    /** As many whole sectors as there are and as the current cluster has. */
    method WriteRun(sec: nat, data: seq<byte>) returns (n: nat)
      requires Core() && !dirty && fptr <= objsize && |data| >= 512 && fptr + |data| <= MAX_SIZE && fptr % 512 == 0
      requires Idx(fs.geo, fptr) < |chain| && clust == chain[Idx(fs.geo, fptr)] && fs.geo.csize > 0
      requires fptr / 512 / fs.geo.csize < |chain| && sec == SectorOf(fs.geo, chain, fptr / 512)
      modifies `fptr, `objsize, `content, buf, fs`disk, fs`vol
      ensures Valid() && 0 < n <= |data|
      ensures content == Splice(old(content), old(fptr), data[..n]) && fptr == old(fptr) + n
      ensures Idx(fs.geo, fptr - 1) == Idx(fs.geo, old(fptr))
      ensures Isolated(fs.geo, old(Snap()), Snap())
      ensures n % 512 == 0
    {
      hide Core, Isolated, Clusters, SectorOf, Splice, Idx;
      CoreFits();
      var csect := fptr / 512 % fs.geo.csize;
      var cc := |data| / 512;
      if csect + cc > fs.geo.csize { cc := fs.geo.csize - csect; }
      n := 512 * cc;
      WholeSectors(cc);
      WriteDirect(sec, data[..n]);
    }

    /** A round of f_write at a sector boundary, in the current cluster: whole
        sectors go straight to the device, the rest to the buffer. */
    method WriteAligned(data: seq<byte>) returns (n: nat)
      requires Core() && fptr <= objsize && |data| > 0 && fptr + |data| <= MAX_SIZE && fptr % 512 == 0
      requires Idx(fs.geo, fptr) < |chain| && clust == chain[Idx(fs.geo, fptr)]
      modifies `fptr, `objsize, `sect, `dirty, `content, buf, fs`disk, fs`vol
      ensures Valid() && 0 < n <= |data|
      ensures content == Splice(old(content), old(fptr), data[..n]) && fptr == old(fptr) + n
      ensures Idx(fs.geo, fptr - 1) == Idx(fs.geo, old(fptr))
      ensures Isolated(fs.geo, old(Snap()), Snap())
      ensures n < |data| ==> !dirty && n % 512 == 0
    {
      hide Core, Isolated, Clusters, SectorOf, Splice, Idx;
      CoreFits();
      WriteBack();
      ghost var mid := Snap();
      CurrentSector();
      var sec := fs.geo.Clst2Sect(clust) + fptr / 512 % fs.geo.csize;
      if |data| / 512 > 0 {
        n := WriteRun(sec, data);
        IsolatedTransitive(fs.geo, old(Snap()), mid, Snap());
      } else {
        n := |data|;
        assert data == data[..n];
        WriteBuffered(sec, data);
      }
    }

    /** A round of f_write at a sector boundary. */
    method WriteBoundary(data: seq<byte>) returns (r: nat, n: nat)
      requires Valid() && |data| > 0 && fptr + |data| <= MAX_SIZE && fptr % 512 == 0
      modifies `fptr, `clust, `sclust, `objsize, `sect, `dirty, `chain, `content, buf
      modifies fs`disk, fs`wflag, fs`winsect, fs.win, fs`vol, fs`fat, fs`freeClst, fs`lastClst, fs`fsiDirty
      ensures Valid() && n <= |data|
      ensures content == Splice(old(content), old(fptr), data[..n]) && fptr == old(fptr) + n
      ensures if r > INTERNAL_ERROR then n > 0 else n == 0 && fptr == Capacity(fs.geo, chain)
      ensures old(fptr < objsize) ==> n > 0
      ensures Stretched(old(chain))
      ensures r == 0 ==> NoFree(fs.fat)
      ensures r == INTERNAL_ERROR ==> HasReserved(fs.fat)
      ensures Isolated(fs.geo, old(Snap()), Snap())
      ensures if n == 0 then dirty == old(dirty) else n < |data| ==> !dirty && n % 512 == 0
    {
      hide Core;
      hide Isolated;
      hide Splice;
      hide Idx;
      hide Capacity;
      CoreFits();
      SpliceNothing(content, fptr);
      StretchedNot();
      ghost var was := Snap();
      r := FollowOrStretch();
      if r <= INTERNAL_ERROR { return r, 0; }
      ghost var mid := Snap();
      n := WriteAligned(data);
      IsolatedTransitive(fs.geo, was, mid, Snap());
    }

    /** The chain got no clusters but those that the position needs. */
    ghost predicate Stretched(was: seq<nat>)
      reads `chain, `fptr
    {
      fs.geo.csize > 0 && was <= chain && |chain| == Max(|was|, ClustersFor(fs.geo, fptr))
    }

    lemma StretchedNot()
      requires Cursor()
      ensures Stretched(chain)
    {
    }

    lemma StretchedHere(was: seq<nat>, pos: nat)
      requires fs.geo.csize > 0 && was <= chain && |chain| == Max(|was|, Idx(fs.geo, pos) + 1)
      requires ClustersFor(fs.geo, fptr) == Idx(fs.geo, pos) + 1
      ensures Stretched(was)
    {
    }

    lemma StretchedTwice(was: seq<nat>, mid: seq<nat>, pos: nat)
      requires Stretched(mid) && pos <= fptr && was <= mid && |mid| == Max(|was|, ClustersFor(fs.geo, pos))
      ensures Stretched(was)
    {
      ClustersForMonotone(fs.geo, pos, fptr);
    }

    /** After a write of `n` bytes from `pos` on that is not at its end, what it
        wrote waits in the buffer exactly if it filled up a sector it found in
        part. */
    ghost predicate Pending(pos: nat, n: nat)
      reads `fptr, `dirty
    {
      fptr == pos + n && fptr % 512 == 0 && (dirty <==> pos % 512 != 0 && n < 512)
    }

    lemma PendingSectors(pos: nat, n: nat)
      ensures pos % 512 == 0 && n % 512 == 0 && fptr == pos + n && !dirty ==> Pending(pos, n)
    {
    }

    lemma PendingPart(pos: nat, n: nat)
      ensures pos % 512 != 0 && n == 512 - pos % 512 && fptr == pos + n && dirty ==> Pending(pos, n)
    {
    }

    /** One round of the loop of f_write: `n` bytes are written, or the chain
        could not be stretched (r as for FollowOrStretch). */
    method WriteChunk(data: seq<byte>) returns (r: nat, n: nat)
      requires Valid() && |data| > 0 && fptr + |data| <= MAX_SIZE
      modifies `fptr, `clust, `sclust, `objsize, `sect, `dirty, `chain, `content, buf
      modifies fs`disk, fs`wflag, fs`winsect, fs.win, fs`vol, fs`fat, fs`freeClst, fs`lastClst, fs`fsiDirty
      ensures Valid() && n <= |data|
      ensures content == Splice(old(content), old(fptr), data[..n]) && fptr == old(fptr) + n
      ensures if r > INTERNAL_ERROR then n > 0 else n == 0 && fptr == Capacity(fs.geo, chain)
      ensures Stretched(old(chain))
      ensures old(fptr < objsize) ==> n > 0
      ensures r == 0 ==> NoFree(fs.fat)
      ensures r == INTERNAL_ERROR ==> HasReserved(fs.fat)
      ensures Isolated(fs.geo, old(Snap()), Snap())
      ensures if n == 0 then dirty == old(dirty) else n < |data| ==> Pending(old(fptr), n)
    {
      hide Core, Cursor, Isolated, SectorOf, Splice, Idx, Capacity, Pending, Stretched, NoFree, HasReserved;
      CoreFits();
      IsolatedReflexive(fs.geo, Snap());
      if fptr % 512 == 0 {
        r, n := WriteBoundary(data);
        PendingSectors(old(fptr), n);
      } else {
        r, n := 2, Min(512 - fptr % 512, |data|);
        CursorOnSector();
        WriteBuffered(sect, data[..n]);
        StretchedNot();
        PendingPart(old(fptr), n);
      }
    }

    /** The position is at the end of the last cluster. */
    ghost predicate AtEnd()
      reads `fptr, `objsize, `chain
    {
      fptr == objsize == Capacity(fs.geo, chain)
    }

    /** How long the file can get: as its clusters and all the free ones hold,
        below 4 GiB. */
    ghost function Room(): nat
      reads `chain, fs`fat
    {
      Min(MAX_SIZE, (|chain| + Free(fs.fat)) * ClusterBytes(fs.geo))
    }

    /** The file has `n` bytes, or room for them on a volume with a sound FAT. */
    ghost predicate HasRoom(n: nat)
      reads `chain, `content, fs`fat
    {
      n <= |content| || (n <= Room() && !HasReserved(fs.fat))
    }

    /** The FAT is bad, or the file is as long as it can get. */
    ghost predicate Spent()
      reads `chain, `content, fs`fat
    {
      HasReserved(fs.fat) || |content| == Room()
    }

    /** No free cluster is left behind the last one. */
    lemma RoomReached()
      ensures Core() ==> objsize <= Room() <= MAX_SIZE
      ensures Core() && AtEnd() && NoFree(fs.fat) ==> Room() == objsize
    {
      NoneFree(fs.fat);
      CoreFits();
      MulMonotone(|chain|, |chain| + Free(fs.fat), ClusterBytes(fs.geo));
    }

    lemma CapacityReached()
      requires Core() && fptr <= objsize && fptr == Capacity(fs.geo, chain)
      ensures AtEnd()
    {
      CoreFits();
    }

    lemma PositionFits()
      ensures Valid() ==> fptr <= objsize == |content| <= MAX_SIZE
    {
      CoreFits();
    }

    /** How many bytes f_write sets out to write: a FAT file stays below 4 GiB.
        The test is the 32-bit overflow test of the program. */
    function WriteLimit(pos: nat, btw: nat): (n: nat)
      requires pos <= MAX_SIZE && btw <= MAX_SIZE
      ensures n == Min(btw, MAX_SIZE - pos)
    {
      if (pos + btw) % 0x1_0000_0000 < pos then MAX_SIZE - pos else btw
    }

    /** Two writes are one. */
    lemma PendingOn(pos: nat, n: nat, k: nat)
      ensures Pending(pos + n, k) ==> fptr % 512 == 0
      ensures Pending(pos + n, k) && k > 0 && (n > 0 ==> (pos + n) % 512 == 0) ==> Pending(pos, n + k)
    {
    }

    /** The loop of f_write: r as for FollowOrStretch, at least 2 when all is
        written. */
    method WriteAll(data: seq<byte>) returns (r: nat, bw: nat)
      requires Valid() && fptr + |data| <= MAX_SIZE
      modifies `fptr, `clust, `sclust, `objsize, `sect, `dirty, `chain, `content, buf
      modifies fs`disk, fs`wflag, fs`winsect, fs.win, fs`vol, fs`fat, fs`freeClst, fs`lastClst, fs`fsiDirty
      ensures Valid() && bw <= |data| && old(fptr) <= |old(content)| <= |content|
      ensures content == Splice(old(content), old(fptr), data[..bw]) && fptr == old(fptr) + bw
      ensures if r > INTERNAL_ERROR then bw == |data| else bw < |data| && AtEnd()
      ensures r == 0 ==> NoFree(fs.fat)
      ensures r == INTERNAL_ERROR ==> HasReserved(fs.fat)
      ensures Stretched(old(chain)) && Isolated(fs.geo, old(Snap()), Snap())
      ensures r <= INTERNAL_ERROR ==> if bw == 0 then dirty == old(dirty) else Pending(old(fptr), bw)
    {
      hide Core, Isolated, Splice, Cursor, HasReserved, NoFree, Capacity, ClustersFor, AtEnd, Pending;
      StretchedNot();
      PositionFits();
      IsolatedReflexive(fs.geo, Snap());
      SpliceNothing(content, fptr);
      r, bw := 2, 0;
      while bw < |data|
        invariant 0 <= bw <= |data| && Valid() && |old(content)| <= |content| == objsize && r > INTERNAL_ERROR
        invariant content == Splice(old(content), old(fptr), data[..bw]) && fptr == old(fptr) + bw
        invariant Isolated(fs.geo, old(Snap()), Snap()) && Stretched(old(chain))
        invariant bw == 0 ==> dirty == old(dirty)
        invariant 0 < bw < |data| ==> Pending(old(fptr), bw) && fptr % 512 == 0
      {
        ghost var was, pos := Snap(), fptr;
        var k;
        r, k := WriteChunk(data[bw..]);
        IsolatedTransitive(fs.geo, old(Snap()), was, Snap());
        StretchedTwice(old(chain), was.chain, pos);
        SpliceCompose(old(content), old(fptr), data[..bw], data[bw..][..k]);
        assert data[..bw] + data[bw..][..k] == data[..bw + k];
        PendingOn(old(fptr), bw, k);
        bw := bw + k;
        PositionFits();
        if r <= INTERNAL_ERROR {
          CapacityReached();
          return;
        }
      }
    }

    /** f_write: the file is spliced with what was written. Fewer bytes than
        asked are written only when the last cluster is full and none is free,
        or the FAT turns out bad. In this case the bytes written show and the
        chain is sound, but the file does not count as modified by them. */
    method Write(data: seq<byte>) returns (res: FResult, bw: nat)
      requires Valid() && |data| <= MAX_SIZE
      modifies `fptr, `clust, `sclust, `objsize, `sect, `dirty, `modified, `err, `chain, `content, buf
      modifies fs`disk, fs`wflag, fs`winsect, fs.win, fs`vol, fs`fat, fs`freeClst, fs`lastClst, fs`fsiDirty
      ensures Valid()
      ensures bw <= |data| && old(fptr) <= |old(content)|
      ensures content == Splice(old(content), old(fptr), data[..bw]) && fptr == old(fptr) + bw
      ensures old(err) != FR_OK ==> res == old(err) == err && bw == 0
      ensures old(err) == FR_OK && !canWrite ==> res == FR_DENIED && bw == 0 && err == FR_OK
      ensures old(err) == FR_OK && canWrite ==>
        && res in {FR_OK, FR_INT_ERR} && err == res
        && (res == FR_OK ==> modified)
        && (res == FR_OK && bw != Min(|data|, MAX_SIZE - old(fptr)) ==> AtEnd() && NoFree(fs.fat))
        && (res == FR_INT_ERR ==> bw < Min(|data|, MAX_SIZE - old(fptr)) && AtEnd() && HasReserved(fs.fat))
        && (old(fptr) + |data| <= |old(content)| ==> res == FR_OK && bw == |data|)
        && (res == FR_INT_ERR ==> if bw == 0 then dirty == old(dirty) else Pending(old(fptr), bw))
      ensures old(err) != FR_OK || !canWrite ==> Snap() == old(Snap()) && dirty == old(dirty)
      ensures Stretched(old(chain)) && |old(content)| <= |content|
      ensures res != FR_OK ==> modified == old(modified)
      ensures Isolated(fs.geo, old(Snap()), Snap())
    {
      hide Core, Isolated, Splice, Cursor, HasReserved, NoFree, Capacity, ClustersFor;
      StretchedNot();
      PositionFits();
      IsolatedReflexive(fs.geo, Snap());
      SpliceNothing(content, fptr);
      bw := 0;
      if err != FR_OK { return err, bw; }
      if !canWrite { return FR_DENIED, bw; }
      var r;
      r, bw := WriteAll(data[..WriteLimit(fptr, |data|)]);
      assert data[..WriteLimit(old(fptr), |data|)][..bw] == data[..bw];
      PositionFits();
      if r == INTERNAL_ERROR {
        err := FR_INT_ERR;
        return err, bw;
      }
      modified := true;
      return FR_OK, bw;
    }

    // --- f_lseek ------------------------------------------------------------

    /** The position is the start of the current cluster. */
    ghost predicate AtCluster()
      reads `fptr, `objsize, `clust, `chain
    {
      && fs.geo.csize > 0 && fptr <= objsize
      && Idx(fs.geo, fptr) < |chain| && clust == chain[Idx(fs.geo, fptr)]
      && fptr == Idx(fs.geo, fptr) * ClusterBytes(fs.geo)
    }

    /** Where f_lseek starts to follow the chain: the current cluster when the
        target is not before it, else the first one (created if need be). */
    method SeekStart(ofs: nat) returns (r: nat, rest: nat)
      requires Valid() && ofs > 0
      modifies `fptr, `clust, `sclust, `chain
      modifies fs`disk, fs`wflag, fs`winsect, fs.win, fs`vol, fs`fat, fs`freeClst, fs`lastClst, fs`fsiDirty
      ensures Core()
      ensures r > INTERNAL_ERROR ==> AtCluster() && fptr + rest == ofs && rest > 0
      ensures r <= INTERNAL_ERROR ==> Valid() && fptr == 0 && rest == ofs && AtEnd() && Stretched(old(chain))
      ensures r > INTERNAL_ERROR ==> if old(chain) == [] then |chain| == 1 && fptr == 0 else chain == old(chain)
      ensures r == 0 ==> NoFree(fs.fat)
      ensures r == INTERNAL_ERROR ==> HasReserved(fs.fat)
      ensures objsize > 0 ==>
        r > INTERNAL_ERROR && fs.fat == old(fs.fat) && chain == old(chain) && fs.vol == old(fs.vol)
      ensures Isolated(fs.geo, old(Snap()), Snap())
    {
      hide Core;
      hide Isolated;
      hide Clusters;
      hide SectorOf;
      hide Capacity;
      CoreFits();
      if chain == [] { EmptyChain(); }
      IsolatedReflexive(fs.geo, Snap());
      var ifptr := fptr;
      var bcs := fs.geo.csize * 512;
      ZeroPosition(fs.geo);
      if ifptr > 0 && (ofs - 1) / bcs >= (ifptr - 1) / bcs {
        SameOrFollowing(fs.geo, ifptr, ofs);
        fptr := (ifptr - 1) / bcs * bcs;
        return 2, ofs - fptr;
      }
      fptr := 0;
      StartCluster();
      r := sclust;
      if r == 0 { r := Stretch(0, 0); }
      if r != INTERNAL_ERROR { clust := r; }
      return r, ofs;
    }

    lemma EmptyChain()
      requires Core() && chain == []
      ensures objsize == 0 == Capacity(fs.geo, chain)
    {
      CoreFits();
    }

    /** The size grows to the position; what lies on the disk there shows. */
    method GrowTo(n: nat)
      requires Core() && objsize <= n <= MAX_SIZE && n <= Capacity(fs.geo, chain)
      modifies `objsize, `content, `modified
      ensures Core() && objsize == n && |content| == n && content[..old(objsize)] == old(content) && modified
    {
      hide Shows;
      CoreFits();
      content := ShowsLonger(fs.geo, chain, fs.vol, dirty, sect, buf[..], content, n);
      objsize := n;
      modified := true;
    }

    /** At the end of cluster k - 1: the size follows the position, and the k-th
        cluster becomes current. */
    method NextCluster(ghost k: nat) returns (r: nat)
      requires Core() && 0 < k <= |chain| && clust == chain[k - 1] && fptr <= MAX_SIZE
      requires fptr <= Capacity(fs.geo, chain)
      requires (canWrite || fptr < objsize) && (fptr < objsize ==> k < |chain|)
      modifies `clust, `sclust, `objsize, `chain, `content, `modified
      modifies fs`disk, fs`wflag, fs`winsect, fs.win, fs`vol, fs`fat, fs`freeClst, fs`lastClst, fs`fsiDirty
      ensures Core() && Onward(fs.geo, old(Here()), Here())
      ensures r > INTERNAL_ERROR ==> k < |chain| && clust == chain[k] && |chain| == Max(|old(chain)|, k + 1)
      ensures r <= INTERNAL_ERROR ==> chain == old(chain) && clust == old(clust) && k == |chain|
      ensures r == 0 ==> NoFree(fs.fat)
      ensures r == INTERNAL_ERROR ==> HasReserved(fs.fat)
    {
      hide Core, Isolated, SectorOf, Idx, Capacity, Clusters, NoFree, HasReserved;
      IsolatedReflexive(fs.geo, Snap());
      if canWrite {
        if fptr > objsize { GrowTo(fptr); }
        r := Stretch(k, clust);
      } else {
        r := NextInChain(k);
      }
      if r > INTERNAL_ERROR { clust := r; }
    }

    /** One round of the cluster following loop of f_lseek. */
    method SeekStep() returns (r: nat)
      requires Core() && AtCluster() && fptr + ClusterBytes(fs.geo) <= MAX_SIZE
      requires canWrite || fptr + ClusterBytes(fs.geo) < objsize
      modifies `fptr, `clust, `sclust, `objsize, `chain, `content, `modified
      modifies fs`disk, fs`wflag, fs`winsect, fs.win, fs`vol, fs`fat, fs`freeClst, fs`lastClst, fs`fsiDirty
      ensures Core() && fptr == old(fptr) + ClusterBytes(fs.geo) && fptr % 512 == 0
      ensures Onward(fs.geo, old(Here()), Here())
      ensures if r > INTERNAL_ERROR then AtCluster() else Cursor() && AtEnd() && chain == old(chain)
      ensures ClustersFor(fs.geo, fptr) == Idx(fs.geo, old(fptr)) + 1 == Idx(fs.geo, fptr)
      ensures r > INTERNAL_ERROR ==> |chain| == Max(|old(chain)|, Idx(fs.geo, fptr) + 1)
      ensures r == 0 ==> NoFree(fs.fat)
      ensures r == INTERNAL_ERROR ==> HasReserved(fs.fat)
      ensures fptr < old(objsize) ==> r > INTERNAL_ERROR
    {
      hide Core, Isolated, SectorOf, Idx, Capacity, Clusters, NoFree, HasReserved;
      CoreFits();
      ghost var start, a := Here(), Idx(fs.geo, fptr);
      StepAhead();
      fptr := fptr + fs.geo.csize * 512;
      ghost var mid := Here();
      r := NextCluster(a + 1);
      StepOnward(start, mid, Here());
      if r <= INTERNAL_ERROR { LastEnds(a); }
    }

    /** One cluster on from the beginning of the current one. */
    lemma StepAhead()
      requires Core() && AtCluster()
      ensures var a, pos := Idx(fs.geo, fptr), fptr + ClusterBytes(fs.geo);
        && pos == (a + 1) * ClusterBytes(fs.geo) && pos <= Capacity(fs.geo, chain) && pos % 512 == 0
        && Idx(fs.geo, pos) == a + 1 && Idx(fs.geo, pos - 1) == a && pos > fptr
        && (pos < objsize ==> a + 1 < |chain|)
    {
      hide Core;
      CoreFits();
      WithinCluster(fs.geo, fptr, ClusterBytes(fs.geo));
      CapacityOfIdx(fs.geo, chain, fptr);
      ZeroMod(fs.geo, Idx(fs.geo, fptr) + 1);
    }

    /** Moving the position on before that changes nothing of it. */
    lemma StepOnward(a: Moment, b: Moment, c: Moment)
      requires Onward(fs.geo, b, c) && b == a.(fptr := b.fptr) && a.fptr <= b.fptr
      ensures Onward(fs.geo, a, c)
    {
    }

    /** Behind the last cluster there is nothing. */
    lemma LastEnds(a: nat)
      requires Core() && |chain| == a + 1 && fptr == (a + 1) * ClusterBytes(fs.geo) && objsize >= fptr
      requires fptr % 512 == 0
      requires fptr > 0 && Idx(fs.geo, fptr - 1) == a && clust == chain[a]
      ensures Cursor() && AtEnd()
    {
      CoreFits();
    }

    lemma ZeroMod(g: Geometry, a: nat)
      ensures a * ClusterBytes(g) % 512 == 0
    {
      assert a * (g.csize * 512) == (a * g.csize) * 512;
      DivUnique(a * g.csize * 512, 512, a * g.csize, 0);
    }

    /** get_fat inside the chain. */
    method NextInChain(ghost k: nat) returns (r: nat)
      requires Core() && 0 < k < |chain| && clust == chain[k - 1]
      modifies fs`disk, fs`wflag, fs`winsect, fs.win
      ensures Core() && r == chain[k] && r > INTERNAL_ERROR
    {
      hide Shows;
      hide InFile;
      r := fs.GetFat(clust);
      FatBelowData(fs.geo, fs.winsect);
      FatIsNotFile(fs.geo, chain, fs.winsect);
    }

    /** `ofs` bytes are left to go of the `rest` from `start` on. */
    ghost predicate Following(start: Moment, rest: nat, ofs: nat)
      reads `fptr, `objsize, `clust, `chain, `content, `modified, fs`fat, fs`vol
    {
      && AtCluster() && 0 < ofs && fptr + ofs == start.fptr + rest <= MAX_SIZE
      && (canWrite || fptr + ofs <= objsize)
      && Onward(fs.geo, start, Here()) && |chain| == Max(|start.snap.chain|, Idx(fs.geo, fptr) + 1)
    }

    /** No cluster could be had on the way from `start`. */
    ghost predicate Halted(start: Moment, rest: nat, r: nat)
      reads `fptr, `objsize, `clust, `sect, `chain, `content, `modified, fs`fat, fs`vol
    {
      && Cursor() && 0 < fptr && start.objsize <= fptr < start.fptr + rest && AtEnd()
      && Onward(fs.geo, start, Here()) && Stretched(start.snap.chain)
      && (r == 0 ==> NoFree(fs.fat)) && (r == INTERNAL_ERROR ==> HasReserved(fs.fat))
    }

    /** One round of the cluster following loop of f_lseek. */
    method SeekRound(ghost start: Moment, ghost rest: nat, ofs: nat) returns (r: nat)
      requires Core() && Following(start, rest, ofs) && ofs > ClusterBytes(fs.geo)
      modifies `fptr, `clust, `sclust, `objsize, `chain, `content, `modified
      modifies fs`disk, fs`wflag, fs`winsect, fs.win, fs`vol, fs`fat, fs`freeClst, fs`lastClst, fs`fsiDirty
      ensures Core()
      ensures if r > INTERNAL_ERROR then Following(start, rest, ofs - ClusterBytes(fs.geo)) else Halted(start, rest, r)
    {
      hide Core, Isolated, Idx, Cursor, ClustersFor, Capacity, NoFree, HasReserved, AtEnd, AtCluster, Stretched, Onward;
      FollowingOn(start, rest, ofs);
      ghost var was := Here();
      OnwardSizes(fs.geo, start, was);
      r := SeekStep();
      OnwardTwice(fs.geo, start, was, Here());
      OnwardSizes(fs.geo, was, Here());
      OnwardSizes(fs.geo, start, Here());
      if r <= INTERNAL_ERROR { StretchedHere(start.snap.chain, was.fptr); }
    }

    /** The cluster following loop of f_lseek: stops in the cluster that holds
        the target, or at the end of the last cluster that could be had. */
    method SeekFollow(rest: nat) returns (r: nat, ofs: nat)
      requires Core() && Following(Here(), rest, rest)
      modifies `fptr, `clust, `sclust, `objsize, `chain, `content, `modified
      modifies fs`disk, fs`wflag, fs`winsect, fs.win, fs`vol, fs`fat, fs`freeClst, fs`lastClst, fs`fsiDirty
      ensures Core()
      ensures if r > INTERNAL_ERROR then ofs <= ClusterBytes(fs.geo) && Following(old(Here()), rest, ofs)
              else Halted(old(Here()), rest, r)
    {
      hide Core, Halted, Following;
      ghost var start := Here();
      var bcs := ClusterBytes(fs.geo);
      ofs := rest;
      r := 2;
      while ofs > bcs
        invariant Core() && Following(start, rest, ofs)
        decreases ofs
      {
        FollowingOn(start, rest, ofs);
        r := SeekRound(start, rest, ofs);
        ofs := ofs - bcs;
        if r <= INTERNAL_ERROR { return; }
      }
      r := 2;
    }

    lemma FollowingOn(start: Moment, rest: nat, ofs: nat)
      requires Following(start, rest, ofs)
      ensures ClusterBytes(fs.geo) > 0 && fs.geo.csize > 0 && AtCluster()
    {
    }

    /** The buffer moves to the sector of an unaligned position. */
    method SettleBuffer(nsect: nat)
      requires Core() && (fptr % 512 != 0 ==> InFile(fs.geo, chain, nsect))
      modifies `sect, `dirty, buf, fs`disk, fs`vol
      ensures Core() && (fptr % 512 != 0 ==> sect == nsect)
      ensures Isolated(fs.geo, old(Snap()), Snap())
      ensures dirty ==> old(dirty)
    {
      hide Core;
      hide Isolated;
      hide InFile;
      IsolatedReflexive(fs.geo, Snap());
      if fptr % 512 != 0 && nsect != sect {
        WriteBack();
        Load(nsect);
      }
    }

    /** The end of f_lseek: the size follows the position, and the buffer holds
        the sector of an unaligned position. */
    method SeekEnd(ofs: nat)
      requires Core() && AtCluster() && 0 < ofs <= ClusterBytes(fs.geo) && fptr + ofs <= MAX_SIZE
      modifies `fptr, `objsize, `content, `modified, `sect, `dirty, buf, fs`disk, fs`vol
      ensures Valid() && fptr == old(fptr) + ofs
      ensures old(content) <= content && objsize == Max(old(objsize), fptr)
      ensures modified == (old(modified) || objsize > old(objsize))
      ensures ClustersFor(fs.geo, fptr) == Idx(fs.geo, old(fptr)) + 1
      ensures Isolated(fs.geo, old(Snap()), Snap())
      ensures dirty ==> old(dirty)
    {
      hide Core;
      hide Isolated;
      hide SectorOf;
      hide Idx;
      hide InFile;
      hide Clusters;
      hide fs.geo.WellFormed;
      CoreFits();
      WithinCluster(fs.geo, fptr, ofs);
      SectorWithinCluster(fs.geo, fptr, ofs);
      CapacityOfIdx(fs.geo, chain, fptr + ofs - 1);
      ghost var k := (fptr + ofs) / 512;
      IdxIs(fs.geo, fptr + ofs);
      fptr := fptr + ofs;
      var nsect := 0;
      if ofs % 512 != 0 {
        SectorOfIs(fs.geo, chain, k);
        SectorOfOwner(fs.geo, chain, k);
        nsect := fs.geo.Clst2Sect(clust) + ofs / 512;
      }
      if fptr > objsize { GrowTo(fptr); }
      SettleBuffer(nsect);
    }

    /** The position f_lseek aims at: clipped at 4 GiB - 1, and at the file
        size when the file is not open for writing. */
    function SeekTarget(ofs: nat): nat
      reads `objsize
    {
      var o := if ofs >= 0x1_0000_0000 then 0xFFFF_FFFF else ofs;
      if o > objsize && !canWrite then objsize else o
    }

    /** f_lseek from the beginning of a cluster on, by `rest` bytes. */
    method SeekTail(rest: nat) returns (r: nat)
      requires Core() && Following(Here(), rest, rest)
      modifies `fptr, `clust, `sclust, `objsize, `sect, `dirty, `modified, `chain, `content, buf
      modifies fs`disk, fs`wflag, fs`winsect, fs.win, fs`vol, fs`fat, fs`freeClst, fs`lastClst, fs`fsiDirty
      ensures Valid()
      ensures if r > INTERNAL_ERROR then Arrived(old(Here()), rest) else Halted(old(Here()), rest, r)
      ensures dirty ==> old(dirty)
    {
      hide Core, Isolated, SectorOf, Idx, Capacity, NoFree, HasReserved;
      var ofs;
      r, ofs := SeekFollow(rest);
      if r > INTERNAL_ERROR {
        ghost var mid := Snap();
        SeekEnd(ofs);
        IsolatedTransitive(fs.geo, old(Snap()), mid, Snap());
      }
    }

    /** The position is `rest` bytes on from `start`. */
    ghost predicate Arrived(start: Moment, rest: nat)
      reads `fptr, `objsize, `chain, `content, `modified, fs`fat, fs`vol
    {
      && fptr == start.fptr + rest && start.content <= content && objsize == Max(start.objsize, fptr)
      && modified == (start.modified || objsize > start.objsize)
      && Stretched(start.snap.chain) && Isolated(fs.geo, start.snap, Snap())
      && (fptr <= start.objsize ==> fs.fat == start.snap.fat && chain == start.snap.chain)
    }

    /** f_lseek to a target it does not clip: r as for Stretch. */
    method SeekFrom(ofs: nat) returns (r: nat)
      requires Valid() && 0 < ofs <= MAX_SIZE && (canWrite || ofs <= objsize)
      modifies `fptr, `clust, `sclust, `objsize, `sect, `dirty, `modified, `chain, `content, buf
      modifies fs`disk, fs`wflag, fs`winsect, fs.win, fs`vol, fs`fat, fs`freeClst, fs`lastClst, fs`fsiDirty
      ensures Valid() && old(content) <= content && objsize == Max(old(objsize), fptr) && fptr <= ofs
      ensures r > INTERNAL_ERROR ==> fptr == ofs
      ensures r <= INTERNAL_ERROR ==> fptr < ofs && AtEnd()
      ensures r == 0 ==> NoFree(fs.fat)
      ensures r == INTERNAL_ERROR ==> HasReserved(fs.fat)
      ensures ofs <= old(objsize) ==>
        r > INTERNAL_ERROR && content == old(content) && fs.fat == old(fs.fat) && chain == old(chain)
      ensures modified == (old(modified) || objsize > old(objsize)) && Stretched(old(chain))
      ensures Isolated(fs.geo, old(Snap()), Snap())
      ensures dirty ==> old(dirty)
    {
      hide Core, Isolated, SectorOf, Idx, Capacity, NoFree, HasReserved;
      CoreFits();
      ghost var was := Snap();
      var rest;
      r, rest := SeekStart(ofs);
      if r <= INTERNAL_ERROR { return; }
      ghost var start := Here();
      IsolatedReflexive(fs.geo, Snap());
      r := SeekTail(rest);
      IsolatedTransitive(fs.geo, was, start.snap, Snap());
      CoreFits();
    }

    /** f_lseek: no existing byte changes. The position is the target, or,
        when the disk fills up on the way, the end of what could be had; the
        file grows to a position past its end. */
    method Seek(target: nat) returns (res: FResult)
      requires Valid()
      modifies `fptr, `clust, `sclust, `objsize, `sect, `dirty, `modified, `err, `chain, `content, buf
      modifies fs`disk, fs`wflag, fs`winsect, fs.win, fs`vol, fs`fat, fs`freeClst, fs`lastClst, fs`fsiDirty
      ensures Valid()
      ensures old(err) != FR_OK ==> res == old(err) == err && fptr == old(fptr) && content == old(content)
      ensures old(err) == FR_OK ==> res in {FR_OK, FR_INT_ERR} && err == res
      ensures old(content) <= content
      ensures old(err) == FR_OK ==> objsize == Max(old(objsize), fptr) && fptr <= old(SeekTarget(target))
      ensures res == FR_OK ==> fptr == old(SeekTarget(target)) || (AtEnd() && NoFree(fs.fat))
      ensures old(err) == FR_OK && res == FR_INT_ERR ==>
        fptr < old(SeekTarget(target)) && AtEnd() && HasReserved(fs.fat)
      ensures old(err) == FR_OK && old(SeekTarget(target) <= objsize) ==>
        && res == FR_OK && fptr == old(SeekTarget(target)) && content == old(content)
        && fs.fat == old(fs.fat) && chain == old(chain)
      ensures old(err) != FR_OK ==> Snap() == old(Snap())
      ensures modified == (old(modified) || objsize > old(objsize)) && Stretched(old(chain))
      ensures Isolated(fs.geo, old(Snap()), Snap())
      ensures dirty ==> old(dirty)
    {
      hide Core;
      hide Isolated;
      hide Capacity;
      hide NoFree;
      hide HasReserved;
      StretchedNot();
      CoreFits();
      IsolatedReflexive(fs.geo, Snap());
      if err != FR_OK { return err; }
      var ofs := SeekTarget(target);
      if ofs == 0 {
        fptr := 0;
        return FR_OK;
      }
      var r := SeekFrom(ofs);
      if r == INTERNAL_ERROR {
        err := FR_INT_ERR;
        return err;
      }
      return FR_OK;
    }

    // --- f_truncate ---------------------------------------------------------

    /** How many clusters f_truncate keeps. */
    ghost function KeptClusters(): nat
      reads `fptr
      requires fs.geo.csize > 0
    {
      ClustersFor(fs.geo, fptr)
    }

    /** Free the clusters after the position. */
    method CutChain()
      requires Valid() && fptr < objsize
      modifies `sclust, `chain
      modifies fs`disk, fs`wflag, fs`winsect, fs.win, fs`vol, fs`fat, fs`freeClst, fs`fsiDirty
      ensures fs.Valid() && fs.CountOk() && buf != fs.win && ChainOk() && fs.geo.csize > 0
      ensures chain == old(chain)[..KeptClusters()] && KeptClusters() <= |old(chain)|
      ensures forall c: nat :: c in old(chain)[KeptClusters()..] ==> InRange(fs.fat, c) && fs.fat[c] == 0
      ensures SameOutsideFats(fs.geo, old(fs.vol), fs.vol)
      ensures fs.winsect < fs.geo.database
      ensures Isolated(fs.geo, old(Snap()), Snap())
    {
      hide Shows, InFile, Isolated, CutAt, Clusters, Mirrored, HasReserved, Free, SameOutsideFats;
      CoreFits();
      CutCapacity(fs.geo, chain, fptr);
      ghost var fat, vol, whole, k := fs.fat, fs.vol, chain, KeptClusters();
      FreeTail(whole, k);
      FatBelowData(fs.geo, fs.winsect);
      CutFacts(fat, fs.fat, whole, k, Eoc(fs.geo));
      if fptr == 0 { sclust := 0; }
      chain := whole[..k];
      IsolatedCut(fs.geo, fat, fs.fat, vol, fs.vol, whole, k);
    }

    /** The calls of get_fat and remove_chain that f_truncate makes. */
    method FreeTail(ghost whole: seq<nat>, ghost k: nat)
      requires fs.Valid() && fs.CountOk() && IsChain(fs.fat, whole) && sclust == whole[0]
      requires if fptr == 0 then k == 0 else 0 < k <= |whole| && clust == whole[k - 1]
      modifies fs`disk, fs`wflag, fs`winsect, fs.win, fs`vol, fs`fat, fs`freeClst, fs`fsiDirty
      ensures fs.Valid() && fs.CountOk() && fs.geo.InFat1(fs.winsect)
      ensures CutAt(old(fs.fat), fs.fat, whole, k, Eoc(fs.geo))
      ensures SameOutsideFats(fs.geo, old(fs.vol), fs.vol)
      ensures Mirrored(fs.geo, old(fs.vol)) ==> Mirrored(fs.geo, fs.vol)
    {
      hide fs.FatOk;
      hide fs.WindowOk;
      hide Removed;
      hide SameOutsideFats;
      hide Mirrored;
      SameOutsideReflexive(fs.geo, fs.vol);
      if fptr == 0 {
        CutSucceeds(fs.fat, whole, 0, Eoc(fs.geo));
        var ok := RemoveChain(fs, sclust, 0);
        assert ok;
      } else {
        ChainInUse(fs.fat, whole, k - 1);
        var ncl := fs.GetFat(clust);
        assert k < |whole| ==> ncl == whole[k];
        if ncl < fs.geo.nFatent {
          CutSucceeds(fs.fat, whole, k, Eoc(fs.geo));
          var ok := RemoveChain(fs, ncl, clust);
          assert ok;
        }
      }
    }

    /** f_truncate: the file keeps exactly its prefix up to the position, and
        every cluster after it becomes free. */
    method Truncate() returns (res: FResult)
      requires Valid()
      modifies `sclust, `chain, `objsize, `content, `modified, `dirty
      modifies fs`disk, fs`wflag, fs`winsect, fs.win, fs`vol, fs`fat, fs`freeClst, fs`fsiDirty
      ensures Valid()
      ensures res == if err != FR_OK then err else if canWrite then FR_OK else FR_DENIED
      ensures res != FR_OK || fptr == old(objsize) ==> content == old(content) && Snap() == old(Snap())
      ensures modified == (old(modified) || (res == FR_OK && fptr < old(objsize)))
      ensures res == FR_OK ==> old(fptr) <= |old(content)| && content == old(content)[..fptr]
      ensures res == FR_OK && fptr < old(objsize) ==>
        && modified && !dirty
        && fs.geo.csize > 0 && KeptClusters() <= |old(chain)|
        && chain == old(chain)[..KeptClusters()]
        && (forall c: nat :: c in old(chain)[KeptClusters()..] ==> InRange(fs.fat, c) && fs.fat[c] == 0)
      ensures Isolated(fs.geo, old(Snap()), Snap())
      ensures dirty ==> old(dirty)
    {
      hide Core;
      hide Isolated;
      CoreFits();
      IsolatedReflexive(fs.geo, Snap());
      if err != FR_OK { return err; }
      if !canWrite { return FR_DENIED; }
      if fptr < objsize { TruncateHere(); }
      return FR_OK;
    }

    method TruncateHere()
      requires Valid() && fptr < objsize
      modifies `sclust, `chain, `objsize, `content, `modified, `dirty
      modifies fs`disk, fs`wflag, fs`winsect, fs.win, fs`vol, fs`fat, fs`freeClst, fs`fsiDirty
      ensures Valid() && modified && !dirty && objsize == fptr
      ensures old(fptr) <= |old(content)| && content == old(content)[..fptr]
      ensures fs.geo.csize > 0 && KeptClusters() <= |old(chain)| && chain == old(chain)[..KeptClusters()]
      ensures forall c: nat :: c in old(chain)[KeptClusters()..] ==> InRange(fs.fat, c) && fs.fat[c] == 0
      ensures Isolated(fs.geo, old(Snap()), Snap())
    {
      hide Core;
      hide Isolated;
      hide SectorOf;
      hide Shows;
      hide InFile;
      hide ChainOk;
      hide fs.Valid;
      hide fs.CountOk;
      hide SameOutsideFats;
      hide OwnSector;
      hide Idx;
      hide Cursor;
      ghost var was := Snap();
      CutFile();
      modified := true;
      FlushCut(was);
    }

    /** The chain, the size and the content are cut; the buffer is as it was. */
    method CutFile()
      requires Valid() && fptr < objsize
      modifies `sclust, `chain, `objsize, `content
      modifies fs`disk, fs`wflag, fs`winsect, fs.win, fs`vol, fs`fat, fs`freeClst, fs`fsiDirty
      ensures fs.Valid() && fs.CountOk() && buf != fs.win && ChainOk() && ContentOk() && Cursor() && fptr == objsize
      ensures fs.winsect < fs.geo.database
      ensures sect < |fs.vol| && (dirty ==> InFile(fs.geo, old(chain), sect))
      ensures !dirty && OwnSector(fs.geo, fs.fat, chain, sect) ==> buf[..] == fs.vol[sect]
      ensures old(fptr) <= |old(content)| && content == old(content)[..fptr]
      ensures fs.geo.csize > 0 && KeptClusters() <= |old(chain)| && chain == old(chain)[..KeptClusters()]
      ensures forall c: nat :: c in old(chain)[KeptClusters()..] ==> InRange(fs.fat, c) && fs.fat[c] == 0
      ensures Isolated(fs.geo, old(Snap()), Snap())
    {
      hide Core;
      hide Isolated;
      hide Clusters;
      hide SectorOf;
      hide Shows;
      hide InFile;
      hide ChainOk;
      hide fs.Valid;
      hide fs.CountOk;
      hide SameOutsideFats;
      hide OwnSector;
      hide Idx;
      CoreFits();
      CoreBuffer();
      ghost var was := Snap();
      CutChain();
      CutShows(was);
      OwnSectorKept(was, sect);
      objsize := fptr;
      content := content[..fptr];
      CursorCut(was.chain);
    }

    lemma CursorCut(whole: seq<nat>)
      requires fs.geo.csize > 0 && fptr <= objsize && KeptClusters() <= |whole| && chain == whole[..KeptClusters()]
      requires fptr > 0 ==> Idx(fs.geo, fptr - 1) < |whole| && clust == whole[Idx(fs.geo, fptr - 1)]
      requires fptr % 512 != 0 ==> Idx(fs.geo, fptr) < |whole| && sect == SectorOf(fs.geo, whole, fptr / 512)
      ensures Cursor()
    {
      if fptr > 0 { BoundaryIdx(fs.geo, fptr); }
    }

    /** A sector the file may use now it might have used before, and changes
        of the FATs do not touch it. */
    lemma OwnSectorKept(was: Snapshot, s: nat)
      requires SameOutsideFats(fs.geo, was.vol, fs.vol) && fs.geo.FatArea() && s < |was.vol|
      requires Isolated(fs.geo, was, Snap())
      ensures OwnSector(fs.geo, fs.fat, chain, s) ==>
        OwnSector(fs.geo, was.fat, was.chain, s) && fs.vol[s] == was.vol[s]
    {
      if OwnSector(fs.geo, fs.fat, chain, s) {
        OwnBackwards(fs.geo, was, Snap(), fs.geo.ClusterOf(s));
      }
    }

    lemma FileSectorIsOwn(s: nat)
      requires InFile(fs.geo, chain, s)
      ensures OwnSector(fs.geo, fs.fat, chain, s)
    {
    }

    /** Cutting the chain keeps showing the part that is kept. */
    lemma CutShows(was: Snapshot)
      requires buf.Length == 512 && Shows(fs.geo, was.chain, was.vol, dirty, sect, buf[..], content)
      requires SameOutsideFats(fs.geo, was.vol, fs.vol) && fs.geo.csize > 0
      requires fptr <= |content| && (fptr > 0 ==> Idx(fs.geo, fptr - 1) < |was.chain|)
      requires chain == was.chain[..KeptClusters()]
      ensures Shows(fs.geo, chain, fs.vol, dirty, sect, buf[..], content[..fptr])
    {
      CutCapacity(fs.geo, was.chain, fptr);
      ShowsShorter(fs.geo, was.chain, was.vol, dirty, sect, buf[..], content, fptr);
      ShowsCut(fs.geo, was.chain, KeptClusters(), was.vol, dirty, sect, buf[..], content[..fptr]);
      ShowsElsewhere(fs.geo, chain, was.vol, fs.vol, dirty, sect, buf[..], content[..fptr]);
    }

    /** The write-back after the cut: the buffer may hold a freed sector. */
    method FlushCut(ghost was: Snapshot)
      requires fs.Valid() && fs.CountOk() && buf != fs.win && ChainOk() && ContentOk() && fptr == objsize
      requires fs.winsect < fs.geo.database
      requires sect < |fs.vol| && (dirty ==> InFile(fs.geo, was.chain, sect))
      requires !dirty && OwnSector(fs.geo, fs.fat, chain, sect) ==> buf[..] == fs.vol[sect]
      requires Isolated(fs.geo, was, Snap())
      modifies `dirty, fs`disk, fs`vol
      ensures Core() && !dirty
      ensures Isolated(fs.geo, was, Snap())
    {
      hide Shows;
      hide Isolated;
      hide fs.FatOk;
      hide fs.WindowOk;
      FatIsNotFile(fs.geo, chain, fs.winsect);
      if dirty {
        OneSector(fs.vol, sect, buf[..]);
        ShowsFlushed(fs.geo, chain, fs.vol, sect, buf[..], content);
        IsolatedOwnWrite(fs.geo, was, Snap(), sect, buf[..]);
        fs.DiskWrite(sect, buf[..]);
        dirty := false;
      }
    }

    // --- f_sync -------------------------------------------------------------

    /** The directory entry lies on a sector of its own: not in the FATs, not
        in the FSInfo sector, and in no cluster this file has or could get. */
    ghost predicate DirOk()
      reads `chain, fs`fat
    {
      && dirPtr + 32 <= 512 && dirSect < fs.geo.nSectors && !fs.geo.InFats(dirSect)
      && (fs.geo.fsInfo ==> dirSect != fs.geo.volbase + 1)
      && !OwnSector(fs.geo, fs.fat, chain, dirSect)
    }

    /** An error sticks only when the FAT is bad. */
    ghost predicate Ready()
      reads this, fs, fs.win, buf
    {
      Valid() && DirOk() && (err != FR_OK ==> HasReserved(fs.fat))
    }

    /** The directory entry stays apart over any operation on this file. */
    twostate lemma DirOkKept()
      requires old(DirOk()) && Isolated(fs.geo, old(Snap()), Snap())
      ensures DirOk() && (old(fs.geo.nSectors == |fs.vol|) ==> fs.vol[dirSect] == old(fs.vol[dirSect]))
    {
      if OwnSector(fs.geo, fs.fat, chain, dirSect) {
        OwnBackwards(fs.geo, old(Snap()), Snap(), fs.geo.ClusterOf(dirSect));
      }
    }

    /** The start cluster follows from the chain. */
    twostate lemma StartKept()
      requires old(ChainOk()) && ChainOk()
      requires chain == old(chain) || (old(chain) != [] && old(chain) <= chain)
      ensures sclust == old(sclust)
    {
    }

    /** A file that did not grow kept its start cluster. */
    twostate lemma SameStart()
      requires old(Core()) && Core() && Cursor() && Stretched(old(chain)) && objsize == old(objsize)
      ensures sclust == old(sclust)
    {
      CoreFits();
      if old(chain) == [] { assert old(objsize) == 0 && fptr == 0; }
      StartKept();
    }

    /** The entry goes on naming start and size as long as these stay. */
    twostate lemma RecordKept()
      requires old(DirOk()) && Isolated(fs.geo, old(Snap()), Snap()) && old(|fs.vol|) == fs.geo.nSectors
      requires sclust == old(sclust) && objsize == old(objsize)
      ensures Recorded() <==> old(Recorded())
    {
      hide LdClust, LdSize, Isolated;
      DirOkKept();
      assert |fs.vol| == |old(fs.vol)| by { SameLength(fs.geo, old(Snap()), Snap()); }
    }

    /** Store the entry in the window, which shows its sector. */
    method PutEntryFields(tm: nat)
      requires fs.WindowOk() && fs.winsect == dirSect && dirPtr + 32 <= 512
      modifies fs.win, fs`wflag, fs`vol
      ensures fs.WindowOk()
      ensures fs.vol == Reflect(fs.geo, old(fs.vol), dirSect,
                                StoreEntry(fs.geo.fsType, old(fs.vol[dirSect]), dirPtr, sclust, objsize, tm))
    {
      hide StoreAt, Reflect, fs.WindowOk;
      WindowShows(fs);
      ghost var vol, w0: Sector := fs.vol, fs.win[..];
      fs.SetWin(dirPtr + DIR_ATTR, SetArchive(fs.win[dirPtr + DIR_ATTR]));
      ghost var w1: Sector := w0[dirPtr + DIR_ATTR := SetArchive(w0[dirPtr + DIR_ATTR])];
      var w := PutField(vol, w1, DIR_FSTCLUSLO, sclust % 0x1_0000, 2);
      if fs.geo.fsType == Fat32 { w := PutField(vol, w, DIR_FSTCLUSHI, sclust / 0x1_0000, 2); }
      w := PutField(vol, w, DIR_FILESIZE, objsize, 4);
      w := PutField(vol, w, DIR_MODTIME, tm, 4);
      w := PutField(vol, w, DIR_LSTACCDATE, 0, 2);
    }

    /** One field of the entry; `w` is the sector so far. */
    method PutField(ghost vol: Image, ghost w: Sector, o: nat, v: nat, n: nat) returns (ghost w': Sector)
      requires fs.WindowOk() && fs.winsect == dirSect && dirPtr + o + n <= 512 && dirSect < |vol| == fs.geo.nSectors
      requires fs.vol == Reflect(fs.geo, vol, dirSect, w)
      modifies fs.win, fs`wflag, fs`vol
      ensures fs.WindowOk() && w' == StoreAt(w, dirPtr + o, v, n)
      ensures fs.vol == Reflect(fs.geo, vol, dirSect, w')
    {
      hide StoreAt;
      WindowShows(fs);
      ReflectTwice(fs.geo, vol, dirSect, w, w);
      fs.StoreWin(dirPtr + o, v, n);
      w' := StoreAt(w, dirPtr + o, v, n);
      ReflectTwice(fs.geo, vol, dirSect, w, w');
    }

    /** The sectors f_sync writes besides the file's own. */
    ghost predicate Metadata(s: nat) {
      s == dirSect || (fs.geo.fsInfo && s == fs.geo.volbase + 1)
    }

    lemma MetadataApart()
      requires DirOk() && fs.geo.FatArea()
      ensures forall s: nat :: Metadata(s) ==> !OwnSector(fs.geo, fs.fat, chain, s) && !InFile(fs.geo, chain, s)
    {
      forall s: nat | Metadata(s) ensures !OwnSector(fs.geo, fs.fat, chain, s) && !InFile(fs.geo, chain, s) {
        if InFile(fs.geo, chain, s) { FileSectorIsOwn(s); }
      }
    }

    /** Another file of the volume, none of whose clusters holds a sector that
        f_sync writes. */
    ghost predicate Apart(o: Neighbour)
      reads `chain, fs`fat, fs`vol
    {
      Beside(fs.geo, Snap(), o) && forall s: nat :: Metadata(s) ==> !InFile(fs.geo, o.chain, s)
    }

    /** Every other file keeps its chain, stays apart and shows the same bytes;
        equal copies of the FAT stay equal. */
    twostate predicate OthersStay()
      reads this, fs
    {
      && (forall o: Neighbour :: old(Apart(o)) ==> Apart(o))
      && (Mirrored(fs.geo, old(fs.vol)) ==> Mirrored(fs.geo, fs.vol))
    }

    /** And so do the room of this file and the state of the FAT. */
    twostate predicate Confined()
      reads this, fs
    {
      OthersStay() && Room() == old(Room()) && (HasReserved(fs.fat) <==> old(HasReserved(fs.fat)))
    }

    /** Every other file survives an operation that touches own clusters only. */
    twostate lemma OthersKept()
      requires Isolated(fs.geo, old(Snap()), Snap())
      ensures Confined() && Free(fs.fat) + |chain| == old(Free(fs.fat) + |chain|)
      ensures old(DirOk()) ==> DirOk()
    {
      IsolatedKeeps(fs.geo, old(Snap()), Snap());
      if old(DirOk()) { DirOkKept(); }
      hide Isolated, Beside, InFile;
      forall o: Neighbour | old(Apart(o)) ensures Apart(o) {
        OtherFileKept(fs.geo, old(Snap()), Snap(), o);
      }
    }

    /** Every other file survives f_sync. */
    twostate lemma OthersSynced()
      requires |old(fs.vol)| == |fs.vol| && fs.fat == old(fs.fat) && chain == old(chain)
      requires forall s: nat :: s < |fs.vol| && !Metadata(s) && !InFile(fs.geo, chain, s) ==>
        fs.vol[s] == old(fs.vol[s])
      requires Mirrored(fs.geo, old(fs.vol)) ==> Mirrored(fs.geo, fs.vol)
      ensures Confined()
    {
      hide Shows;
      forall o: Neighbour | old(Apart(o)) ensures Apart(o) {
        forall s: nat | s < |fs.vol| && InFile(fs.geo, o.chain, s) ensures fs.vol[s] == old(fs.vol[s]) {
          assert fs.geo.ClusterOf(s) !in chain;
        }
        ShowsElsewhere(fs.geo, o.chain, old(fs.vol), fs.vol, o.dirty, o.sect, o.buf, o.content);
      }
    }

    /** f_sync writes no FAT sector of its own. */
    lemma FatsApart()
      requires DirOk() && fs.geo.WellFormed()
      ensures forall s: nat :: fs.geo.InFats(s) ==> !Metadata(s) && !InFile(fs.geo, chain, s)
    {
    }

    /** The start cluster fits in the fields of the entry. */
    lemma StartFits()
      requires fs.Valid() && ChainOk()
      ensures sclust < if fs.geo.fsType == Fat32 then 0x1_0000_0000 else 0x1_0000
    {
      if chain != [] { assert InRange(fs.fat, chain[0]); }
    }

    /** Everything of Core survives a change of sectors that no cluster of this
        file, and no free cluster, occupies. */
    lemma CoreElsewhere(vol: Image)
      requires fs.Valid() && fs.CountOk() && buf != fs.win && ChainOk() && buf.Length == 512
      requires |vol| == |fs.vol| == fs.geo.nSectors && !dirty && sect < |vol| && |content| == objsize <= MAX_SIZE
      requires Shows(fs.geo, chain, vol, dirty, sect, buf[..], content)
      requires OwnSector(fs.geo, fs.fat, chain, sect) ==> buf[..] == vol[sect]
      requires forall s: nat :: s < |vol| && OwnSector(fs.geo, fs.fat, chain, s) ==> fs.vol[s] == vol[s]
      requires !InFile(fs.geo, chain, fs.winsect)
      ensures Core()
    {
      forall s: nat | s < |vol| && InFile(fs.geo, chain, s) ensures fs.vol[s] == vol[s] {
        FileSectorIsOwn(s);
      }
      ShowsElsewhere(fs.geo, chain, vol, fs.vol, dirty, sect, buf[..], content);
    }

    /** The directory entry, in a sector that was `w`, is as f_sync leaves it. */
    ghost predicate Stored(w: Sector, tm: nat)
      reads `sclust, `objsize, fs`vol
    {
      && dirPtr + 32 <= 512 && dirSect < |fs.vol|
      && Refreshed(fs.geo.fsType, w, fs.vol[dirSect], dirPtr, sclust, objsize, tm)
    }

    /** The directory entry goes to the device. */
    method StoreDirEntry(tm: nat)
      requires fs.Valid() && DirOk()
      modifies fs`disk, fs`wflag, fs`winsect, fs.win, fs`vol, fs`fsiDirty
      ensures fs.Valid() && !fs.wflag && fs.disk == fs.vol
      ensures |fs.vol| == |old(fs.vol)|
      ensures fs.vol[dirSect] == StoreEntry(fs.geo.fsType, old(fs.vol[dirSect]), dirPtr, sclust, objsize, tm)
      ensures forall s: nat :: s < |fs.vol| && !Metadata(s) ==> fs.vol[s] == old(fs.vol[s])
      ensures Metadata(fs.winsect)
      ensures !fs.FsInfoDue()
    {
      hide StoreEntry;
      hide FsInfoSector;
      fs.MoveWindow(dirSect);
      ghost var e := StoreEntry(fs.geo.fsType, fs.vol[dirSect], dirPtr, sclust, objsize, tm);
      fs.FatKept(fs.vol[dirSect := e]);
      PutEntryFields(tm);
      fs.SyncFs();
    }

    /** f_sync: the buffer, the directory entry and the window reach the device;
        the entry names the start cluster and the exact size. */
    method Sync(tm: nat) returns (res: FResult)
      requires Valid() && DirOk()
      modifies `dirty, `modified, fs`disk, fs`wflag, fs`winsect, fs.win, fs`vol, fs`fsiDirty
      ensures Valid() && DirOk() && res == FR_OK && !modified
      ensures old(modified) ==> !dirty && !fs.wflag && fs.disk == fs.vol && Saved() && !fs.FsInfoDue()
      ensures old(modified) ==> Stored(old(fs.vol[dirSect]), tm)
      ensures !old(modified) ==> Snap() == old(Snap()) && dirty == old(dirty)
      ensures |fs.vol| == |old(fs.vol)| && (Mirrored(fs.geo, old(fs.vol)) ==> Mirrored(fs.geo, fs.vol))
      ensures forall s: nat :: s < |fs.vol| && !Metadata(s) && !InFile(fs.geo, chain, s) ==> fs.vol[s] == old(fs.vol[s])
    {
      hide Core, Cursor, InFile, Mirrored, Saved, OwnSector, Stored;
      CoreFits();
      if modified { SyncModified(tm); }
      return FR_OK;
    }

    method SyncModified(tm: nat)
      requires Valid() && DirOk() && modified
      modifies `dirty, `modified, fs`disk, fs`wflag, fs`winsect, fs.win, fs`vol, fs`fsiDirty
      ensures Valid() && !modified && !dirty && !fs.wflag && fs.disk == fs.vol && Saved() && !fs.FsInfoDue()
      ensures Stored(old(fs.vol[dirSect]), tm)
      ensures |fs.vol| == |old(fs.vol)| && (Mirrored(fs.geo, old(fs.vol)) ==> Mirrored(fs.geo, fs.vol))
      ensures forall s: nat :: s < |fs.vol| && !Metadata(s) && !InFile(fs.geo, chain, s) ==> fs.vol[s] == old(fs.vol[s])
    {
      hide Core, InFile, Mirrored, StoreEntry, Refreshed, LdClust, LdSize, Shows, Isolated, OwnSector, Cursor;
      hide fs.Valid, fs.CountOk;
      CoreFits();
      ghost var vol0 := fs.vol;
      WriteBack();
      CoreBuffer();
      ghost var vol := fs.vol;
      StoreDirEntry(tm);
      StartFits();
      EntryReadsBack(fs.geo.fsType, vol[dirSect], dirPtr, sclust, objsize, tm);
      StoreEntryRefreshes(fs.geo.fsType, vol[dirSect], dirPtr, sclust, objsize, tm);
      MetadataApart();
      CoreElsewhere(vol);
      FatsApart();
      MirroredElsewhere(fs.geo, vol0, fs.vol);
      modified := false;
    }
  }
}
