/** The FATFS object: a one-sector write-back window over the device, the FAT
    accesses made through it, and the free-cluster count. */
module Volume {
  import opened Bytes
  import opened Geometry
  import opened FatEntry

  const NO_COUNT: nat := 0xFFFF_FFFF

  const INTERNAL_ERROR: nat := 1

  /** Number of free entries among clusters 2..n-1. */
  function CountFree(fat: seq<nat>, n: nat): (k: nat)
    requires n <= |fat|
    ensures n >= 2 ==> k <= n - 2
  {
    if n <= 2 then 0 else CountFree(fat, n - 1) + (if fat[n - 1] == 0 then 1 else 0)
  }

  lemma {:induction false} CountFreeUpdate(fat: seq<nat>, n: nat, c: nat, v: nat)
    requires n <= |fat| && 2 <= c < |fat|
    ensures CountFree(fat[c := v], n) ==
            CountFree(fat, n) + (if c < n then (if v == 0 then 1 else 0) - (if fat[c] == 0 then 1 else 0) else 0)
  {
    if n > 2 {
      CountFreeUpdate(fat, n - 1, c, v);
    }
  }

  lemma {:induction false} CountFreeZero(fat: seq<nat>, n: nat)
    requires n <= |fat|
    ensures CountFree(fat, n) == 0 <==> forall c :: 2 <= c < n ==> fat[c] != 0
  {
    if n > 2 {
      CountFreeZero(fat, n - 1);
    }
  }

  /** Number of zero entries among 0..n-1, the two reserved ones included. */
  function CountZero(fat: seq<nat>, n: nat): (k: nat)
    requires n <= |fat|
    ensures k <= n
  {
    if n == 0 then 0 else CountZero(fat, n - 1) + (if fat[n - 1] == 0 then 1 else 0)
  }

  lemma {:induction false} CountZeroIsFree(fat: seq<nat>, n: nat)
    requires 2 <= n <= |fat|
    ensures CountZero(fat, n) == CountFree(fat, n) + CountZero(fat, 2)
    ensures CountZero(fat, 2) == 0 <==> fat[0] != 0 && fat[1] != 0
  {
    assert CountZero(fat, 2) == CountZero(fat, 1) + (if fat[1] == 0 then 1 else 0);
    assert CountZero(fat, 1) == CountZero(fat, 0) + (if fat[0] == 0 then 1 else 0);
    if n > 2 {
      CountZeroIsFree(fat, n - 1);
    }
  }

  /** The image after writing whole sectors at `s`. */
  function WriteSectors(d: Image, s: nat, data: seq<byte>): (r: Image)
    requires |data| % 512 == 0 && s + |data| / 512 <= |d|
    ensures |r| == |d|
  {
    seq(|d|, i requires 0 <= i < |d| =>
      if s <= i < s + |data| / 512 then data[512 * (i - s)..512 * (i - s) + 512] else d[i])
  }

  lemma WriteSectorsAt(d: Image, s: nat, data: seq<byte>, i: nat)
    requires |data| % 512 == 0 && s + |data| / 512 <= |d| && i < |d|
    ensures s <= i < s + |data| / 512 ==> WriteSectors(d, s, data)[i] == data[512 * (i - s)..512 * (i - s) + 512]
    ensures !(s <= i < s + |data| / 512) ==> WriteSectors(d, s, data)[i] == d[i]
  {
  }

  /** The FSInfo sector sync_fs composes in the window. */
  function FsInfoSector(freeClst: nat, lastClst: nat): (s: Sector) {
    var s0 := StoreAt(seq(512, _ => 0), 510, 0xAA55, 2);
    var s1 := StoreAt(s0, 0, 0x41615252, 4);
    var s2 := StoreAt(s1, 484, 0x61417272, 4);
    StoreAt(StoreAt(s2, 488, freeClst, 4), 492, lastClst, 4)
  }

  /** The FSInfo sector carries its signatures. */
  predicate HasFsInfo(s: Sector) {
    LoadAt(s, 510, 2) == 0xAA55 && LoadAt(s, 0, 4) == 0x41615252 && LoadAt(s, 484, 4) == 0x61417272
  }

  /** The three signatures, byte by byte. */
  lemma FsInfoSignatures(s: Sector)
    ensures HasFsInfo(s) <==>
      && s[0] == s[1] == 0x52 && s[2] == 0x61 && s[3] == 0x41
      && s[484] == s[485] == 0x72 && s[486] == 0x41 && s[487] == 0x61
      && s[510] == 0x55 && s[511] == 0xAA
  {
    hide LdLE;
    assert s[0..4] == [s[0], s[1], s[2], s[3]];
    assert s[484..488] == [s[484], s[485], s[486], s[487]];
    assert s[510..512] == [s[510], s[511]];
    LittleEndian(s[0], s[1], s[2], s[3]);
    LittleEndian(s[484], s[485], s[486], s[487]);
    LittleEndian(s[510], s[511], 0, 0);
  }

  /** What sync_fs writes there is what a mount finds there. */
  lemma FsInfoReadsBack(freeClst: nat, lastClst: nat)
    requires freeClst < 0x1_0000_0000 && lastClst < 0x1_0000_0000
    ensures HasFsInfo(FsInfoSector(freeClst, lastClst))
    ensures LoadAt(FsInfoSector(freeClst, lastClst), 488, 4) == freeClst
    ensures LoadAt(FsInfoSector(freeClst, lastClst), 492, 4) == lastClst
    ensures forall i | 4 <= i < 484 || 496 <= i < 510 :: FsInfoSector(freeClst, lastClst)[i] == 0
  {
    FsInfoZeros(freeClst, lastClst);
    hide StoreAt, LoadAt;
    var z: Sector := seq(512, _ => 0);
    var s0 := StoreAt(z, 510, 0xAA55, 2);
    var s1 := StoreAt(s0, 0, 0x41615252, 4);
    var s2 := StoreAt(s1, 484, 0x61417272, 4);
    var s3 := StoreAt(s2, 488, freeClst, 4);
    Pow256Values();
    LoadAfterStore(z, 510, 0xAA55, 2, 510, 2);
    LoadAfterStore(s0, 0, 0x41615252, 4, 510, 2);
    LoadAfterStore(s1, 484, 0x61417272, 4, 510, 2);
    LoadAfterStore(s1, 484, 0x61417272, 4, 0, 4);
    LoadAfterStore(s2, 488, freeClst, 4, 510, 2);
    LoadAfterStore(s2, 488, freeClst, 4, 0, 4);
    LoadAfterStore(s2, 488, freeClst, 4, 484, 4);
    LoadAfterStore(s3, 492, lastClst, 4, 510, 2);
    LoadAfterStore(s3, 492, lastClst, 4, 0, 4);
    LoadAfterStore(s3, 492, lastClst, 4, 484, 4);
    LoadAfterStore(s3, 492, lastClst, 4, 488, 4);
  }

  lemma FsInfoZeros(freeClst: nat, lastClst: nat)
    ensures forall i | 4 <= i < 484 || 496 <= i < 510 :: FsInfoSector(freeClst, lastClst)[i] == 0
  {
    hide StoreAt;
    var z: Sector := seq(512, _ => 0);
    var s0 := StoreAt(z, 510, 0xAA55, 2);
    var s1 := StoreAt(s0, 0, 0x41615252, 4);
    var s2 := StoreAt(s1, 484, 0x61417272, 4);
    var s3 := StoreAt(s2, 488, freeClst, 4);
    forall i | 4 <= i < 484 || 496 <= i < 510 ensures StoreAt(s3, 492, lastClst, 4)[i] == 0 {
      StoreAtByte(z, 510, 0xAA55, 2, i);
      StoreAtByte(s0, 0, 0x41615252, 4, i);
      StoreAtByte(s1, 484, 0x61417272, 4, i);
      StoreAtByte(s2, 488, freeClst, 4, i);
      StoreAtByte(s3, 492, lastClst, 4, i);
    }
  }

  lemma LoadBound(s: Sector, o: nat)
    requires o + 4 <= 512
    ensures LoadAt(s, o, 4) < 0x1_0000_0000
  {
    StoreLoad(s[o..o + 4]);
    Pow256Values();
  }

  /** The counts a mount takes from an FSInfo sector. */
  ghost predicate Carries(s: Sector, freeClst: nat, lastClst: nat) {
    if HasFsInfo(s) then LoadAt(s, 488, 4) == freeClst && LoadAt(s, 492, 4) == lastClst
    else freeClst == lastClst == NO_COUNT
  }

  class Volume {
    const geo: Geometry
    const fsiDisabled: bool     // bit 7 of fsi_flag
    var disk: Image             // the device
    const win: array<byte>      // FATFS.win
    var winsect: nat
    var wflag: bool
    var fsiDirty: bool          // bit 0 of fsi_flag
    var freeClst: nat
    var lastClst: nat
    ghost var vol: Image        // the device with the pending window written
    ghost var fat: seq<nat>     // the FAT entries spelled by vol

    /** The window is coherent: it shows sector `winsect` of the abstract disk,
        and the abstract disk is the device plus the pending write. */
    ghost predicate WindowOk()
      reads `disk, `winsect, `wflag, `vol, win
    {
      && geo.FatArea()
      && win.Length == 512
      && |disk| == |vol| == geo.nSectors
      && winsect < geo.nSectors
      && win[..] == vol[winsect]
      && vol == (if wflag then Reflect(geo, disk, winsect, vol[winsect]) else disk)
    }

    ghost predicate FatOk()
      reads `vol, `fat
      requires geo.FatArea() && |vol| == geo.nSectors
    {
      && |fat| == geo.nFatent
      && forall c: nat {:trigger Entry(geo, vol, c)} :: c < geo.nFatent ==> fat[c] == Entry(geo, vol, c)
    }

    /** The counts fit their fields; unless a change is noted, the FSInfo sector
        carries them, or has no signatures and they are unknown. */
    ghost predicate InfoOk()
      reads `vol, `freeClst, `lastClst, `fsiDirty
      requires geo.FatArea() && |vol| == geo.nSectors
    {
      && freeClst < 0x1_0000_0000 && lastClst < 0x1_0000_0000
      && (geo.fsInfo && !fsiDirty ==> Carries(vol[geo.volbase + 1], freeClst, lastClst))
    }

    ghost predicate Valid()
      reads `disk, `winsect, `wflag, `vol, `fat, `freeClst, `lastClst, `fsiDirty, win
    {
      && geo.WellFormed()
      && |vol| == geo.nSectors && |fat| == geo.nFatent
      && WindowOk()
      && FatOk()
      && InfoOk()
      && fsiDisabled == !geo.fsInfo
    }

    /** free_clst is marked unknown or is the number of free entries. */
    ghost predicate CountOk()
      reads `fat, `freeClst
    {
      && |fat| == geo.nFatent >= 2
      && (freeClst <= geo.nFatent - 2 ==> freeClst == CountFree(fat, geo.nFatent))
    }

    /** The end of mount_volume: the window is on the sector read last, and the
        free count comes from the FSInfo sector where there is one. */
    constructor Mount(geo: Geometry, disk: Image)
      requires geo.WellFormed() && |disk| == geo.nSectors
      ensures Valid() && this.geo == geo && this.disk == vol == disk && !wflag && !fsiDirty
      ensures fsiDisabled == !geo.fsInfo
      ensures freeClst == if geo.fsInfo && HasFsInfo(disk[geo.volbase + 1]) then LoadAt(disk[geo.volbase + 1], 488, 4)
        else 0xFFFF_FFFF
      ensures lastClst == if geo.fsInfo && HasFsInfo(disk[geo.volbase + 1]) then LoadAt(disk[geo.volbase + 1], 492, 4)
        else 0xFFFF_FFFF
      ensures CountOk() <==> (freeClst <= geo.nFatent - 2 ==> freeClst == CountFree(fat, geo.nFatent))
      ensures fresh(win)
    {
      hide HasFsInfo, LoadAt;
      var sect := if geo.fsInfo then geo.volbase + 1 else geo.volbase;
      LoadBound(disk[sect], 488);
      LoadBound(disk[sect], 492);
      var s := disk[sect];
      this.geo, this.disk, winsect, wflag, fsiDirty, fsiDisabled := geo, disk, sect, false, false, !geo.fsInfo;
      win := new byte[512](i requires 0 <= i < 512 => s[i]);
      var found := geo.fsInfo && HasFsInfo(s);
      freeClst := if found then LoadAt(s, 488, 4) else NO_COUNT;
      lastClst := if found then LoadAt(s, 492, 4) else NO_COUNT;
      vol := disk;
      fat := seq(geo.nFatent, c requires 0 <= c < geo.nFatent => Entry(geo, disk, c));
      new;
      assert win[..] == s;
    }

    // --- the window ---------------------------------------------------------

    /** sync_window: no abstract sector changes, and nothing stays pending. */
    method SyncWindow()
      requires WindowOk()
      modifies `disk, `wflag
      ensures WindowOk()
      ensures !wflag && disk == vol
    {
      if wflag {
        disk := disk[winsect := win[..]];
        wflag := false;
        UnsignedRangeTest(winsect, geo.fatbase, geo.fsize);
        if Sub64(winsect, geo.fatbase) < geo.fsize {
          if geo.nFats == 2 {
            disk := disk[winsect + geo.fsize := win[..]];
          }
        }
      }
    }

    /** move_window: no abstract sector changes, and the window shows `sect`. */
    method MoveWindow(sect: nat)
      requires WindowOk() && sect < geo.nSectors
      modifies `disk, `wflag, `winsect, win
      ensures WindowOk()
      ensures winsect == sect
      ensures sect == old(winsect) ==> wflag == old(wflag) && disk == old(disk)
      ensures sect != old(winsect) ==> !wflag
    {
      if sect != winsect {
        SyncWindow();
        var s := disk[sect];
        forall i | 0 <= i < 512 { win[i] := s[i]; }
        assert win[..] == s;
        winsect := sect;
      }
    }

    /** `win[i] = b; wflag = 1`. */
    method SetWin(i: nat, b: byte)
      requires WindowOk() && i < 512
      modifies win, `wflag, `vol
      ensures WindowOk() && wflag
      ensures vol == Reflect(geo, old(vol), winsect, old(vol[winsect])[i := b])
    {
      ghost var w := vol[winsect];
      win[i] := b;
      wflag := true;
      assert win[..] == w[i := b];
      vol := Reflect(geo, vol, winsect, w[i := b]);
    }

    /** st_word / st_dword into the window, which becomes dirty. */
    method StoreWin(ofs: nat, v: nat, n: nat)
      requires WindowOk() && ofs + n <= 512
      modifies win, `wflag, `vol
      ensures WindowOk() && wflag
      ensures vol == Reflect(geo, old(vol), winsect, StoreAt(old(vol[winsect]), ofs, v, n))
    {
      ghost var w := vol[winsect];
      var b := StLE(v, n);
      forall i | 0 <= i < n { win[ofs + i] := b[i]; }
      wflag := true;
      assert win[..] == StoreAt(w, ofs, v, n);
      vol := Reflect(geo, vol, winsect, StoreAt(w, ofs, v, n));
    }

    /** Byte `b` of the first FAT, read from the window that shows it. */
    function WinByte(b: nat): (x: byte)
      reads this, win
      requires WindowOk() && b / 512 < geo.fsize && winsect == geo.fatbase + b / 512
      ensures x == FatByte(geo, vol, b)
    {
      win[b % 512]
    }

    // --- FAT accesses -------------------------------------------------------

    /** get_fat on a FAT volume. The window moves, nothing else does. */
    method GetFat(clst: nat) returns (val: nat)
      requires Valid()
      modifies `disk, `wflag, `winsect, win
      ensures Valid()
      ensures val == if geo.IsCluster(clst) then fat[clst] else INTERNAL_ERROR
      ensures geo.IsCluster(clst) ==> geo.InFat1(winsect)
      ensures !geo.IsCluster(clst) ==> winsect == old(winsect)
    {
      if clst < 2 || clst >= geo.nFatent {
        return INTERNAL_ERROR;
      }
      match geo.fsType {
        case Fat12 => val := GetFat12(clst);
        case Fat16 => val := GetFat16(clst);
        case Fat32 => val := GetFat32(clst);
      }
      assert val == Entry(geo, vol, clst);
    }

    method GetFat12(clst: nat) returns (val: nat)
      requires WindowOk() && Fits(geo, vol) && clst < geo.nFatent && geo.fsType == Fat12
      modifies `disk, `wflag, `winsect, win
      ensures WindowOk()
      ensures val == Entry12(geo, vol, clst) && geo.InFat1(winsect)
    {
      hide WindowOk;
      hide FatByte;
      EntryInFat(geo, clst, 0);
      EntryInFat(geo, clst, 1);
      var bc := clst + clst / 2;
      MoveWindow(geo.fatbase + bc / 512);
      var b0: nat := WinByte(bc);
      bc := bc + 1;
      MoveWindow(geo.fatbase + bc / 512);
      var b1: nat := WinByte(bc);
      var wc := b0 + 256 * b1;
      val := if clst % 2 == 1 then wc / 16 else wc % 0x1000;
    }

    method GetFat16(clst: nat) returns (val: nat)
      requires WindowOk() && Fits(geo, vol) && clst < geo.nFatent && geo.fsType == Fat16
      modifies `disk, `wflag, `winsect, win
      ensures WindowOk()
      ensures val == Entry16(geo, vol, clst) && geo.InFat1(winsect)
    {
      hide WindowOk;
      hide FatByte;
      EntryInFat(geo, clst, 0);
      EntryInFat(geo, clst, 1);
      MoveWindow(geo.fatbase + clst / 256);
      var b0: nat, b1: nat := WinByte(clst * 2), WinByte(clst * 2 + 1);
      val := b0 + 256 * b1;
    }

    method GetFat32(clst: nat) returns (val: nat)
      requires WindowOk() && Fits(geo, vol) && clst < geo.nFatent && geo.fsType == Fat32
      modifies `disk, `wflag, `winsect, win
      ensures WindowOk()
      ensures val == Entry32(geo, vol, clst) && geo.InFat1(winsect)
    {
      hide WindowOk;
      hide FatByte;
      QuadSector(geo, clst);
      MoveWindow(geo.fatbase + clst / 128);
      var o := clst * 4;
      var b0: nat, b1: nat, b2: nat, b3: nat := WinByte(o), WinByte(o + 1), WinByte(o + 2), WinByte(o + 3);
      val := (b0 + 256 * b1 + 0x1_0000 * b2 + 0x100_0000 * b3) % 0x1000_0000;
    }

    /** put_fat: exactly one entry changes, to the value under the type's mask;
        nothing outside the FATs changes and the copies stay equal. */
    method PutFat(clst: nat, val: nat) returns (ok: bool)
      requires Valid()
      modifies `disk, `wflag, `winsect, win, `vol, `fat
      ensures Valid()
      ensures ok == geo.IsCluster(clst)
      ensures fat == if ok then old(fat)[clst := Mask(geo.fsType, val)] else old(fat)
      ensures vol == if ok then PutEntry(geo, old(vol), clst, val) else old(vol)
      ensures SameOutsideFats(geo, old(vol), vol)
      ensures Mirrored(geo, old(vol)) ==> Mirrored(geo, vol)
      ensures if ok then geo.InFat1(winsect) else winsect == old(winsect)
    {
      if clst < 2 || clst >= geo.nFatent {
        return false;
      }
      match geo.fsType {
        case Fat12 => PutFat12(clst, val);
        case Fat16 => PutFat16(clst, val);
        case Fat32 => PutFat32(clst, val);
      }
      fat := fat[clst := Mask(geo.fsType, val)];
      PutEntryFrame(geo, old(vol), clst, val);
      EntryPut(old(vol), old(fat), clst, val);
      return true;
    }

    lemma EntryPut(d: Image, was: seq<nat>, clst: nat, val: nat)
      requires Fits(geo, d) && clst < geo.nFatent && |was| == geo.nFatent
      requires forall c: nat {:trigger Entry(geo, d, c)} :: c < geo.nFatent ==> was[c] == Entry(geo, d, c)
      ensures forall c: nat {:trigger Entry(geo, PutEntry(geo, d, clst, val), c)} :: c < geo.nFatent ==>
        was[clst := Mask(geo.fsType, val)][c] == Entry(geo, PutEntry(geo, d, clst, val), c)
    {
      hide Entry, PutEntry;
      forall c: nat | c < geo.nFatent
        ensures was[clst := Mask(geo.fsType, val)][c] == Entry(geo, PutEntry(geo, d, clst, val), c)
      {
        PutEntryCorrect(geo, d, clst, val, c);
        assert was[c] == Entry(geo, d, c);
      }
    }

    /** Store a byte of the first FAT in the window that shows it. */
    method SetFatByte(b: nat, x: byte)
      requires WindowOk() && b / 512 < geo.fsize && winsect == geo.fatbase + b / 512
      modifies win, `wflag, `vol
      ensures WindowOk() && wflag
      ensures vol == PokeFat(geo, old(vol), b, x)
    {
      SetWin(b % 512, x);
    }

    method PutFat12(clst: nat, val: nat)
      requires WindowOk() && Fits(geo, vol) && clst < geo.nFatent && geo.fsType == Fat12
      modifies `disk, `wflag, `winsect, win, `vol
      ensures WindowOk()
      ensures vol == PutEntry12(geo, old(vol), clst, val) && geo.InFat1(winsect)
    {
      hide WindowOk;
      hide FatByte;
      hide PokeFat;
      EntryInFat(geo, clst, 0);
      EntryInFat(geo, clst, 1);
      var bc := clst + clst / 2;
      MoveWindow(geo.fatbase + bc / 512);
      var p := WinByte(bc);
      SetFatByte(bc, Fat12First(clst, val, p));
      bc := bc + 1;
      MoveWindow(geo.fatbase + bc / 512);
      p := WinByte(bc);
      SetFatByte(bc, Fat12Second(clst, val, p));
    }

    method PutFat16(clst: nat, val: nat)
      requires WindowOk() && Fits(geo, vol) && clst < geo.nFatent && geo.fsType == Fat16
      modifies `disk, `wflag, `winsect, win, `vol
      ensures WindowOk()
      ensures vol == PutEntry16(geo, old(vol), clst, val) && geo.InFat1(winsect)
    {
      hide WindowOk;
      hide FatByte;
      hide PokeFat;
      EntryInFat(geo, clst, 0);
      EntryInFat(geo, clst, 1);
      MoveWindow(geo.fatbase + clst / 256);
      SetFatByte(clst * 2, val % 256);
      SetFatByte(clst * 2 + 1, val / 256 % 256);
    }

    method PutFat32(clst: nat, val: nat)
      requires WindowOk() && Fits(geo, vol) && clst < geo.nFatent && geo.fsType == Fat32
      modifies `disk, `wflag, `winsect, win, `vol
      ensures WindowOk()
      ensures vol == PutEntry32(geo, old(vol), clst, val) && geo.InFat1(winsect)
    {
      hide WindowOk;
      hide FatByte;
      hide PokeFat;
      QuadSector(geo, clst);
      MoveWindow(geo.fatbase + clst / 128);
      var o := clst * 4;
      var p := WinByte(o + 3);
      var w := Fat32Value(val, p);
      SetFatByte(o, w % 256);
      SetFatByte(o + 1, w / 256 % 256);
      SetFatByte(o + 2, w / 0x1_0000 % 256);
      SetFatByte(o + 3, w / 0x100_0000 % 256);
    }

    // --- whole sectors ------------------------------------------------------

    lemma FatKept(d: Image)
      requires Fits(geo, vol) && FatOk() && SameFat1(geo, d, vol)
      ensures forall c: nat {:trigger Entry(geo, d, c)} :: c < geo.nFatent ==> fat[c] == Entry(geo, d, c)
    {
      forall c: nat | c < geo.nFatent ensures fat[c] == Entry(geo, d, c) {
        EntryFrame(geo, d, vol, c);
        assert fat[c] == Entry(geo, vol, c);
      }
    }

    /** Copy a sector into the window. */
    method FillWin(s: Sector)
      requires win.Length == 512
      modifies win
      ensures win[..] == s
    {
      forall i | 0 <= i < 512 { win[i] := s[i]; }
    }

    ghost predicate FsInfoDue()
      reads this
    {
      geo.fsType == Fat32 && !fsiDisabled && fsiDirty
    }

    /** sync_fs: everything reaches the device; the FSInfo sector is the only
        abstract sector that changes, and only when it is due. */
    method SyncFs()
      requires Valid()
      modifies `disk, `wflag, `winsect, win, `vol, `fsiDirty
      ensures Valid()
      ensures !wflag && disk == vol
      ensures vol == if old(FsInfoDue()) then old(vol)[geo.volbase + 1 := FsInfoSector(freeClst, lastClst)]
                     else old(vol)
      ensures old(FsInfoDue()) ==> winsect == geo.volbase + 1
      ensures !old(FsInfoDue()) ==> winsect == old(winsect)
      ensures !FsInfoDue()
    {
      hide FsInfoSector, HasFsInfo, LoadAt, Entry;
      SyncWindow();
      if geo.fsType == Fat32 && !fsiDisabled && fsiDirty {
        var s := FsInfoSector(freeClst, lastClst);
        FatKept(vol[geo.volbase + 1 := s]);
        FsInfoReadsBack(freeClst, lastClst);
        FillWin(s);
        winsect := geo.volbase + 1;
        disk := disk[winsect := s];
        vol := disk;
        fsiDirty := false;
      }
    }

    /** dir_clear: the cluster's sectors become zero, nothing else changes, and
        the window is left coherent on the first of them. */
    method DirClear(clst: nat)
      requires Valid() && geo.IsCluster(clst)
      modifies `disk, `wflag, `winsect, win, `vol
      ensures Valid()
      ensures !wflag && winsect == geo.Clst2Sect(clst)
      ensures forall s :: 0 <= s < |vol| ==>
        vol[s] == if winsect <= s < winsect + geo.csize then seq(512, _ => 0) else old(vol)[s]
    {
      SyncWindow();
      var sect := geo.Clst2Sect(clst);
      ClusterInData(geo, clst);
      winsect := sect;
      var z: Sector := seq(512, _ => 0);
      FillWin(z);
      ghost var d := disk;
      for n := 0 to geo.csize
        invariant |disk| == |d| && vol == d && fat == old(fat)
        invariant winsect == sect && !wflag && win[..] == z
        invariant forall s :: 0 <= s < |d| ==> disk[s] == if sect <= s < sect + n then z else d[s]
      {
        disk := disk[sect + n := win[..]];
      }
      FatKept(disk);
      vol := disk;
    }

    /** Read `n` whole sectors of the data area past the window. */
    method DiskRead(sect: nat, n: nat) returns (data: seq<byte>)
      requires Valid() && geo.database <= sect && sect + n <= geo.nSectors
      requires !(sect <= winsect < sect + n)
      ensures |data| == 512 * n
      ensures forall i :: 0 <= i < n ==> data[512 * i..512 * i + 512] == vol[sect + i]
    {
      data := [];
      for i := 0 to n
        invariant |data| == 512 * i
        invariant forall k :: 0 <= k < i ==> data[512 * k..512 * k + 512] == vol[sect + k]
      {
        ghost var old_data := data;
        data := data + disk[sect + i];
        assert disk[sect + i] == vol[sect + i];
        forall k | 0 <= k <= i ensures data[512 * k..512 * k + 512] == vol[sect + k] {
          if k < i {
            assert data[512 * k..512 * k + 512] == old_data[512 * k..512 * k + 512];
          }
        }
      }
    }

    /** Write whole sectors of the data area past the window. */
    method DiskWrite(sect: nat, data: seq<byte>)
      requires Valid() && |data| % 512 == 0
      requires geo.database <= sect && sect + |data| / 512 <= geo.nSectors
      requires !(sect <= winsect < sect + |data| / 512)
      modifies `disk, `vol
      ensures Valid()
      ensures vol == WriteSectors(old(vol), sect, data)
    {
      FatKept(WriteSectors(vol, sect, data));
      disk := WriteSectors(disk, sect, data);
      vol := WriteSectors(vol, sect, data);
    }

    // --- f_getfree ----------------------------------------------------------

    /** FAT12: ask get_fat for every cluster. */
    method CountByEntry() returns (ok: bool, nfree: nat)
      requires Valid()
      modifies `disk, `wflag, `winsect, win
      ensures Valid()
      ensures ok ==> nfree == CountFree(fat, geo.nFatent)
      ensures ok <==> forall c: nat :: geo.IsCluster(c) ==> fat[c] != INTERNAL_ERROR
    {
      nfree := 0;
      var clst := 2;
      while clst < geo.nFatent
        invariant 2 <= clst <= geo.nFatent && Valid()
        invariant nfree == CountFree(fat, clst)
        invariant forall c :: 2 <= c < clst ==> fat[c] != INTERNAL_ERROR
      {
        var stat := GetFat(clst);
        if stat == INTERNAL_ERROR { return false, nfree; }
        if stat == 0 { nfree := nfree + 1; }
        clst := clst + 1;
      }
      return true, nfree;
    }

    method Word(ghost k: nat, i: nat) returns (val: nat)
      requires WindowOk() && Fits(geo, vol) && k < geo.nFatent && geo.fsType == Fat16
      requires i == k * 2 % 512 && winsect == geo.fatbase + k * 2 / 512
      ensures val == Entry16(geo, vol, k)
    {
      EntryInFat(geo, k, 0);
      EntryInFat(geo, k, 1);
      var b0: nat, b1: nat := win[i], win[i + 1];
      assert b0 == WinByte(k * 2) && b1 == WinByte(k * 2 + 1);
      val := b0 + 256 * b1;
    }

    method Dword(ghost k: nat, i: nat) returns (val: nat)
      requires WindowOk() && Fits(geo, vol) && k < geo.nFatent && geo.fsType == Fat32
      requires i == k * 4 % 512 && winsect == geo.fatbase + k * 4 / 512
      ensures val == Entry32(geo, vol, k)
    {
      hide FatByte;
      hide Reflect;
      EntryInFat(geo, k, 0);
      EntryInFat(geo, k, 1);
      EntryInFat(geo, k, 2);
      EntryInFat(geo, k, 3);
      Aligned(k * 4, 4, 0);
      Aligned(k * 4, 4, 1);
      Aligned(k * 4, 4, 2);
      Aligned(k * 4, 4, 3);
      var b0: nat, b1: nat, b2: nat, b3: nat := win[i], win[i + 1], win[i + 2], win[i + 3];
      assert b0 == WinByte(k * 4) && b1 == WinByte(k * 4 + 1);
      assert b2 == WinByte(k * 4 + 2) && b3 == WinByte(k * 4 + 3);
      val := (b0 + 256 * b1 + 0x1_0000 * b2 + 0x100_0000 * b3) % 0x1000_0000;
    }

    /** The entry at byte `i` of the window, for entry number `k`. */
    method EntryInWindow(ghost k: nat, i: nat) returns (val: nat)
      requires Valid() && k < geo.nFatent && geo.fsType != Fat12
      requires i == EntryOffset(geo.fsType, k) % 512
      requires winsect == geo.fatbase + EntryOffset(geo.fsType, k) / 512
      ensures val == fat[k]
    {
      hide Entry16;
      hide Entry32;
      hide Reflect;
      if geo.fsType == Fat16 { val := Word(k, i); } else { val := Dword(k, i); }
      assert val == Entry(geo, vol, k);
    }

    /** FAT16/32: stride over the FAT sector by sector. */
    method CountBySector() returns (nfree: nat)
      requires Valid() && geo.fsType != Fat12
      modifies `disk, `wflag, `winsect, win
      ensures Valid()
      ensures nfree == CountZero(fat, geo.nFatent)
    {
      hide WindowOk;
      hide EntryOffset;
      var clst, sect, i: nat := geo.nFatent, geo.fatbase, 0;
      nfree := 0;
      StrideStart(geo.fsType);
      while clst > 0
        invariant 0 <= clst <= geo.nFatent == |fat| && Valid()
        invariant Stride(geo.nFatent - clst, sect, i)
        invariant nfree == CountZero(fat, geo.nFatent - clst)
      {
        ghost var k := geo.nFatent - clst;
        StrideInFat(k, sect, i);
        if i == 0 {
          MoveWindow(sect);
          sect := sect + 1;
        }
        var val := EntryInWindow(k, i);
        if val == 0 { nfree := nfree + 1; }
        StrideNext(k, sect, i);
        i := if geo.fsType == Fat16 then (i + 2) % 512 else (i + 4) % 512;
        clst := clst - 1;
      }
    }

    /** Where the scan stands before it looks at entry `k`. */
    ghost predicate Stride(k: nat, sect: nat, i: nat)
      reads `winsect
    {
      var o := EntryOffset(geo.fsType, k);
      i == o % 512 && if i == 0 then sect == geo.fatbase + o / 512 else sect == geo.fatbase + o / 512 + 1 == winsect + 1
    }

    lemma StrideInFat(k: nat, sect: nat, i: nat)
      requires geo.FatArea() && Stride(k, sect, i) && k < geo.nFatent && geo.fsType != Fat12
      ensures i == 0 ==> sect < geo.nSectors
    {
      EntryInFat(geo, k, 0);
    }

    lemma StrideStart(t: FsType)
      ensures EntryOffset(t, 0) == 0
    {
    }

    lemma StrideNext(k: nat, sect: nat, i: nat)
      requires geo.fsType != Fat12
      requires var o := EntryOffset(geo.fsType, k);
               i == o % 512 && winsect == geo.fatbase + o / 512 && sect == winsect + 1
      ensures Stride(k + 1, sect, if geo.fsType == Fat16 then (i + 2) % 512 else (i + 4) % 512)
    {
      NextOffset(k, if geo.fsType == Fat16 then 2 else 4);
    }

    /** f_getfree: the known count, or a fresh scan. The sector scan also looks
        at entries 0 and 1, so it counts the zero ones of these two as free. */
    method GetFree() returns (ok: bool, nclst: nat)
      requires Valid() && CountOk()
      modifies `disk, `wflag, `winsect, win, `freeClst, `fsiDirty
      ensures Valid()
      ensures old(freeClst) <= geo.nFatent - 2 ==>
        ok && nclst == CountFree(fat, geo.nFatent) && freeClst == old(freeClst) == nclst && fsiDirty == old(fsiDirty)
      ensures old(freeClst) > geo.nFatent - 2 && ok ==>
        && nclst == CountFree(fat, geo.nFatent) + (if geo.fsType == Fat12 then 0 else CountZero(fat, 2))
        && freeClst == nclst && fsiDirty
      ensures ok ==> (CountOk() <==> nclst == CountFree(fat, geo.nFatent) || nclst > geo.nFatent - 2)
      ensures ok <==> old(freeClst) <= geo.nFatent - 2 || geo.fsType != Fat12 ||
                      (forall c: nat :: geo.IsCluster(c) ==> fat[c] != INTERNAL_ERROR)
      ensures !ok ==> freeClst == old(freeClst) && fsiDirty == old(fsiDirty)
    {
      if freeClst <= geo.nFatent - 2 {
        return true, freeClst;
      }
      if geo.fsType == Fat12 {
        ok, nclst := CountByEntry();
      } else {
        nclst := CountBySector();
        ok := true;
        CountZeroIsFree(fat, geo.nFatent);
      }
      if ok {
        freeClst := nclst;
        fsiDirty := true;
      }
    }
  }

  /** After a sync, mounting again finds the same disk, the same entries and
      the same counts, where the volume keeps them in FSInfo; elsewhere they
      are unknown. */
  method Remount(v: Volume) returns (w: Volume)
    requires v.Valid() && v.CountOk()
    modifies v`disk, v`wflag, v`winsect, v.win, v`vol, v`fsiDirty
    ensures fresh(w) && fresh(w.win) && w.Valid() && w.CountOk()
    ensures w.geo == v.geo && w.vol == v.vol && w.fat == v.fat
    ensures (w.freeClst, w.lastClst) == if v.geo.fsInfo then (v.freeClst, v.lastClst) else (NO_COUNT, NO_COUNT)
  {
    v.SyncFs();
    w := MountSynced(v);
  }

  /** mount_volume of a device that has everything. */
  method MountSynced(v: Volume) returns (w: Volume)
    requires v.Valid() && v.CountOk() && v.disk == v.vol && !v.FsInfoDue()
    ensures fresh(w) && fresh(w.win) && w.Valid() && w.CountOk()
    ensures w.geo == v.geo && w.vol == v.vol && w.fat == v.fat
    ensures (w.freeClst, w.lastClst) == if v.geo.fsInfo then (v.freeClst, v.lastClst) else (NO_COUNT, NO_COUNT)
  {
    hide HasFsInfo, LoadAt, Entry, CountFree;
    w := new Volume.Mount(v.geo, v.disk);
    SameEntries(v, w);
  }

  /** mount_volume, then f_getfree: a count that FSInfo keeps is the answer. */
  method MountAndCount(v: Volume) returns (w: Volume, ok: bool, free: nat)
    requires v.Valid() && v.CountOk() && v.disk == v.vol && !v.FsInfoDue()
    ensures fresh(w) && fresh(w.win) && w.Valid() && w.geo == v.geo && w.vol == v.vol && w.fat == v.fat
    ensures v.geo.fsInfo ==> w.lastClst == v.lastClst
    ensures v.geo.fsInfo && v.freeClst <= v.geo.nFatent - 2 ==>
      ok && free == CountFree(v.fat, v.geo.nFatent) == w.freeClst == v.freeClst
  {
    w := MountSynced(v);
    ok, free := w.GetFree();
  }

  lemma SameEntries(v: Volume, w: Volume)
    requires v.Valid() && w.Valid() && v.geo == w.geo && v.vol == w.vol
    ensures v.fat == w.fat
  {
    hide Entry;
    assert forall c: nat :: c < v.geo.nFatent ==> v.fat[c] == Entry(v.geo, v.vol, c) == w.fat[c];
  }
}
