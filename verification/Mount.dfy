/** The FAT branch of mount_volume: from the boot record to the layout. */
module Mount {
  import opened Bytes
  import opened Geometry

  const WRAP32: nat := 0x1_0000_0000

  /** The fields of the BIOS parameter block that the mount reads. */
  datatype Bpb = Bpb(
    bytsPerSec: nat, secPerClus: nat, rsvdSecCnt: nat, numFats: nat, rootEntCnt: nat,
    totSec16: nat, fatSz16: nat, totSec32: nat, fatSz32: nat, fsVer32: nat, fsInfo32: nat)
  {
    /** The field widths on disk. */
    predicate Fits() {
      && bytsPerSec < 0x1_0000 && secPerClus < 0x100 && rsvdSecCnt < 0x1_0000 && numFats < 0x100
      && rootEntCnt < 0x1_0000 && totSec16 < 0x1_0000 && fatSz16 < 0x1_0000
      && totSec32 < 0x1_0000_0000 && fatSz32 < 0x1_0000_0000 && fsVer32 < 0x1_0000 && fsInfo32 < 0x1_0000
    }

    function FatSize(): nat { if fatSz16 == 0 then fatSz32 else fatSz16 }

    function Sectors(): nat { if totSec16 == 0 then totSec32 else totSec16 }

    function RootSectors(): nat { rootEntCnt / 16 }

    /** Sectors in front of the data area, in unbounded arithmetic. */
    function SystemSectors(): nat { rsvdSecCnt + FatSize() * numFats + RootSectors() }

    /** The FAT area is small enough for the 32-bit sums of the program. */
    predicate SumsFit() { SystemSectors() < 0x1_0000_0000 }

    /** `n` clusters fill the data area: there is no room for one more. */
    predicate HoldsClusters(n: nat) {
      SystemSectors() + n * secPerClus <= Sectors() < SystemSectors() + (n + 1) * secPerClus
    }
  }

  datatype Mounted = Mounted(g: Geometry) | NoFilesystem

  predicate TypeOf(t: FsType, n: nat) {
    match t
    case Fat12 => n <= MAX_FAT12
    case Fat16 => MAX_FAT12 < n <= MAX_FAT16
    case Fat32 => MAX_FAT16 < n <= MAX_FAT32
  }

  /** The FAT type follows from the number of clusters alone. */
  lemma TypeLimits(n: nat)
    ensures TypeOf(Fat12, n) <==> n <= 4085
    ensures TypeOf(Fat16, n) <==> 4085 < n <= 65525
    ensures TypeOf(Fat32, n) <==> 65525 < n <= 268435445
  {
  }

  /** The fields alone. */
  predicate FieldsOk(b: Bpb) {
    && b.bytsPerSec == 512 && (b.numFats == 1 || b.numFats == 2) && PowerOfTwo(b.secPerClus)
    && b.rootEntCnt % 16 == 0 && b.rsvdSecCnt > 0
  }

  /** What a volume must satisfy: `n` clusters, whose FAT entries fit the FAT. */
  predicate Consistent(b: Bpb, t: FsType, n: nat) {
    && FieldsOk(b) && n > 0 && b.HoldsClusters(n) && TypeOf(t, n)
    && (t == Fat32 ==> b.fsVer32 == 0)
    && (t == Fat32 <==> b.rootEntCnt == 0)
    && FatBytes(t, n + 2) <= b.FatSize() * 512
  }

  function AndBits(a: nat, b: nat): nat {
    if a == 0 || b == 0 then 0 else 2 * AndBits(a / 2, b / 2) + if a % 2 == 1 && b % 2 == 1 then 1 else 0
  }

  lemma {:induction false} AndSelf(a: nat)
    ensures AndBits(a, a) == a
  {
    if a > 0 { AndSelf(a / 2); }
  }

  /** csize & (csize - 1) is zero for the powers of two only. */
  lemma {:induction false} PowerOfTwoByMask(c: nat)
    requires 0 < c < 256
    ensures AndBits(c, c - 1) == 0 <==> PowerOfTwo(c)
  {
    if c % 2 == 1 {
      assert (c - 1) / 2 == c / 2;
      AndSelf(c / 2);
    } else {
      assert (c - 1) / 2 == c / 2 - 1;
      PowerOfTwoByMask(c / 2);
      assert PowerOfTwo(c) <==> PowerOfTwo(c / 2);
    }
  }

  function Quotient(d: nat, c: nat): nat
    requires c > 0
  {
    d / c
  }

  /** The number of clusters is the quotient the program computes. */
  lemma ClusterCount(b: Bpb, n: nat)
    requires b.secPerClus > 0
    ensures b.HoldsClusters(n) <==>
      b.SystemSectors() <= b.Sectors() && n == Quotient(b.Sectors() - b.SystemSectors(), b.secPerClus)
  {
    var c := b.secPerClus;
    assert n * c + c == (n + 1) * c;
    if b.SystemSectors() <= b.Sectors() {
      var d := b.Sectors() - b.SystemSectors();
      assert d == d / c * c + d % c;
      assert (d / c + 1) * c == d / c * c + c;
      if b.HoldsClusters(n) {
        assert n * c >= 0;
        DivUnique(d, c, n, d - n * c);
      }
    } else {
      assert n * c >= 0;
    }
  }

  /** The program's 32-bit value of SystemSectors. */
  function WrappedSystemSectors(b: Bpb): nat {
    (b.rsvdSecCnt + b.FatSize() * b.numFats % WRAP32 + b.rootEntCnt / 16) % WRAP32
  }

  /** A 32-bit sum that wraps puts the data area inside the FATs. */
  lemma WrappedSum(b: Bpb)
    requires b.Fits() && (b.numFats == 1 || b.numFats == 2)
    ensures b.SumsFit() ==> WrappedSystemSectors(b) == b.SystemSectors()
    ensures !b.SumsFit() ==>
      WrappedSystemSectors(b) < b.rsvdSecCnt + b.FatSize() * b.numFats
  {
    var f := b.FatSize() * b.numFats;
    assert f == if b.numFats == 1 then b.FatSize() else b.FatSize() + b.FatSize();
    var q := f % WRAP32;
    assert q <= f;
    assert f < WRAP32 ==> q == f;
    var sum := b.rsvdSecCnt + q + b.rootEntCnt / 16;
    assert sum >= WRAP32 ==> sum % WRAP32 <= sum - WRAP32;
  }

  function TypeFor(n: nat): FsType {
    if n <= MAX_FAT12 then Fat12 else if n <= MAX_FAT16 then Fat16 else Fat32
  }

  /** One cluster count and one type can be consistent with a boot record. */
  lemma OneLayout(b: Bpb)
    ensures forall t, n: nat :: Consistent(b, t, n) ==>
      && b.SystemSectors() <= b.Sectors() && n == Quotient(b.Sectors() - b.SystemSectors(), b.secPerClus)
      && 0 < n <= MAX_FAT32 && t == TypeFor(n)
  {
    forall t, n: nat | Consistent(b, t, n)
      ensures b.SystemSectors() <= b.Sectors() && n == Quotient(b.Sectors() - b.SystemSectors(), b.secPerClus)
      ensures 0 < n <= MAX_FAT32 && t == TypeFor(n)
    {
      ClusterCount(b, n);
    }
  }

  /** The number of sectors that `n` bytes take. */
  lemma SectorsHold(n: nat, fsize: nat)
    ensures fsize >= (n + 511) / 512 <==> n <= fsize * 512
  {
    var q, r := (n + 511) / 512, (n + 511) % 512;
    assert n + 511 == q * 512 + r;
  }

  /** No FAT needs 2^32 bytes. */
  lemma SizeFits(t: FsType, n: nat)
    requires n <= MaxClusters(t) + 2
    ensures t == Fat32 ==> n * 4 % WRAP32 == FatBytes(t, n)
    ensures t == Fat16 ==> n * 2 % WRAP32 == FatBytes(t, n)
    ensures t == Fat12 ==> n * 3 % WRAP32 / 2 + n % 2 == FatBytes(t, n)
  {
  }

  /** The FAT size check, with the needed size in 32-bit arithmetic. */
  method FatHolds(t: FsType, nFatent: nat, fsize: nat) returns (enough: bool)
    requires nFatent <= MaxClusters(t) + 2
    ensures enough <==> FatBytes(t, nFatent) <= fsize * 512
  {
    hide FatBytes;
    var szbfat;
    SizeFits(t, nFatent);
    if t == Fat32 {
      szbfat := nFatent * 4 % WRAP32;
    } else {
      szbfat := if t == Fat16 then nFatent * 2 % WRAP32 else nFatent * 3 % WRAP32 / 2 + nFatent % 2;
    }
    SectorsHold(szbfat, fsize);
    enough := fsize >= (szbfat + 511) / 512;
  }

  lemma QuotientHolds(b: Bpb, n: nat)
    requires b.secPerClus > 0 && b.SystemSectors() <= b.Sectors()
    requires 0 < n <= MAX_FAT32 && n == Quotient(b.Sectors() - b.SystemSectors(), b.secPerClus)
    ensures b.HoldsClusters(n) && TypeOf(TypeFor(n), n)
  {
    ClusterCount(b, n);
  }

  /** A mount of the volume at sector `bsect` succeeds with the layout the boot
      record describes, exactly when that is consistent. */
  method MountFat(b: Bpb, bsect: nat) returns (r: Mounted)
    requires b.Fits()
    ensures b.SumsFit() ==> (r.Mounted? <==> exists t, n: nat :: Consistent(b, t, n))
    ensures r.Mounted? ==> Described(b, bsect, r.g)
  {
    hide b.HoldsClusters, TypeOf, Described, FatBytes;
    if b.bytsPerSec != 512 { return NoFilesystem; }
    var fasize := b.fatSz16;
    if fasize == 0 { fasize := b.fatSz32; }
    var fsize := fasize;
    if b.numFats != 1 && b.numFats != 2 { return NoFilesystem; }
    fasize := fasize * b.numFats % WRAP32;
    var csize := b.secPerClus;
    if csize > 0 { PowerOfTwoByMask(csize); }
    if csize == 0 || AndBits(csize, csize - 1) != 0 { return NoFilesystem; }
    if b.rootEntCnt % 16 != 0 { return NoFilesystem; }
    var tsect := b.totSec16;
    if tsect == 0 { tsect := b.totSec32; }
    var nrsv := b.rsvdSecCnt;
    if nrsv == 0 { return NoFilesystem; }
    var sysect := (nrsv + fasize + b.rootEntCnt / 16) % WRAP32;
    r := SubType(b, bsect, fsize, sysect, tsect);
  }

  /** Its second half: the cluster count, the FAT type and the limits. */
  method SubType(b: Bpb, bsect: nat, fsize: nat, sysect: nat, tsect: nat) returns (r: Mounted)
    requires b.Fits() && FieldsOk(b)
    requires fsize == b.FatSize() && tsect == b.Sectors()
    requires sysect == WrappedSystemSectors(b)
    ensures b.SumsFit() ==> (r.Mounted? <==> exists t, n: nat :: Consistent(b, t, n))
    ensures r.Mounted? ==> Described(b, bsect, r.g)
  {
    assert b.secPerClus > 0;
    hide b.HoldsClusters, TypeOf, PowerOfTwo, Quotient, Described, WrappedSystemSectors, b.SystemSectors, b.SumsFit;
    OneLayout(b);
    WrappedSum(b);
    hide b.FatSize, b.Sectors;
    if tsect < sysect { return NoFilesystem; }
    var nclst := Quotient(tsect - sysect, b.secPerClus);
    if nclst == 0 || nclst > MAX_FAT32 { return NoFilesystem; }
    var t := Fat32;
    if nclst <= MAX_FAT16 { t := Fat16; }
    if nclst <= MAX_FAT12 { t := Fat12; }
    var nFatent := nclst + 2;
    assert t == TypeFor(nclst);
    hide FatBytes, TypeFor;
    if t == Fat32 {
      if b.fsVer32 != 0 { return NoFilesystem; }
      if b.rootEntCnt != 0 { return NoFilesystem; }
    } else {
      if b.rootEntCnt == 0 { return NoFilesystem; }
    }
    var enough := FatHolds(t, nFatent, fsize);
    if !enough { return NoFilesystem; }
    if b.SumsFit() { QuotientHolds(b, nclst); }
    assert b.SumsFit() ==> Consistent(b, t, nclst);
    r := Mounted(Layout(b, t, bsect, nFatent, fsize, sysect, tsect));
    LayoutDescribed(b, t, bsect, nFatent, fsize, sysect, tsect);
  }

  /** The fields of the filesystem object after the mount. */
  function Layout(b: Bpb, t: FsType, bsect: nat, nFatent: nat, fsize: nat, sysect: nat, tsect: nat): Geometry {
    Geometry(t, b.numFats, b.secPerClus, nFatent, fsize, bsect, bsect + b.rsvdSecCnt, bsect + sysect, bsect + tsect,
             t == Fat32 && b.fsInfo32 == 1)
  }

  lemma LayoutDescribed(b: Bpb, t: FsType, bsect: nat, nFatent: nat, fsize: nat, sysect: nat, tsect: nat)
    requires b.Fits() && FieldsOk(b) && nFatent > 2 && fsize == b.FatSize() && tsect == b.Sectors()
    requires sysect == WrappedSystemSectors(b)
    requires b.SumsFit() ==> Consistent(b, t, nFatent - 2)
    ensures Described(b, bsect, Layout(b, t, bsect, nFatent, fsize, sysect, tsect))
  {
    hide Consistent, WrappedSystemSectors;
    WrappedSum(b);
    assert b.FatSize() * b.numFats == if b.numFats == 1 then b.FatSize() else b.FatSize() + b.FatSize();
  }

  /** The layout `g` is the one `b` describes; where the 32-bit sums wrap, the
      data area begins inside the FATs. */
  ghost predicate Described(b: Bpb, bsect: nat, g: Geometry) {
    && g.nFatent > 2 && g.nFats == b.numFats && g.fsize == b.FatSize() && g.csize == b.secPerClus
    && g.volbase == bsect && g.fatbase == bsect + b.rsvdSecCnt && g.nSectors == bsect + b.Sectors()
    && (g.fsInfo <==> g.fsType == Fat32 && b.fsInfo32 == 1)
    && (b.SumsFit() ==> Consistent(b, g.fsType, g.nFatent - 2) && g.database == bsect + b.SystemSectors())
    && (!b.SumsFit() ==> g.database < g.FatEnd())
  }

  /** A mounted layout is well formed exactly when the 32-bit sums fit and the
      FSInfo sector, if the volume keeps one, is a reserved sector. */
  lemma MountedWellFormed(b: Bpb, bsect: nat, g: Geometry)
    requires b.Fits() && Described(b, bsect, g) && g.nSectors < WRAP32 * WRAP32
    ensures g.WellFormed() <==> b.SumsFit() && (g.fsInfo ==> b.rsvdSecCnt >= 2)
    ensures g.WellFormed() ==> g.database == g.FatEnd() + b.rootEntCnt / 16
    ensures g.fsInfo && b.SumsFit() && b.rsvdSecCnt == 1 ==> g.InFat1(g.volbase + 1)
  {
    if b.SumsFit() {
      var f := b.FatSize();
      assert f * b.numFats == if b.numFats == 1 then f else f + f;
      assert (g.nFatent - 2) * g.csize == g.csize * (g.nFatent - 2);
      assert (g.nFatent - 2) * g.csize > 0;
    }
  }

  /** The program mounts such a volume: one reserved sector, and an FSInfo
      sector that is the first sector of the FAT. */
  method FsInfoInFat(bsect: nat) returns (r: Mounted)
    requires bsect + 71158 < WRAP32 * WRAP32
    ensures r.Mounted? && r.g.fsInfo && r.g.nFatent == 70607
    ensures r.g.InFat1(r.g.volbase + 1) && !r.g.WellFormed()
  {
    var b := Bpb(512, 1, 1, 1, 0, 0, 0, 71158, 552, 0, 1);
    assert Consistent(b, Fat32, 70605);
    OneLayout(b);
    r := MountFat(b, bsect);
    MountedWellFormed(b, bsect, r.g);
  }
}
