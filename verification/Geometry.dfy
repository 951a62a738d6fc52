/** Layout of a FAT12/16/32 volume as mount_volume computes it. */
module Geometry {
  import opened Bytes

  datatype FsType = Fat12 | Fat16 | Fat32

  const MAX_FAT12: nat := 0xFF5
  const MAX_FAT16: nat := 0xFFF5
  const MAX_FAT32: nat := 0x0FFF_FFF5

  predicate PowerOfTwo(c: nat) { c in {1, 2, 4, 8, 16, 32, 64, 128} }

  /** Bytes the entries 0..n-1 of a FAT occupy. */
  function FatBytes(t: FsType, n: nat): nat {
    match t
    case Fat12 => n * 3 / 2 + n % 2
    case Fat16 => n * 2
    case Fat32 => n * 4
  }

  function MaxClusters(t: FsType): nat {
    match t
    case Fat12 => MAX_FAT12
    case Fat16 => MAX_FAT16
    case Fat32 => MAX_FAT32
  }

  datatype Geometry = Geometry(
    fsType: FsType,
    nFats: nat,      // number of FAT copies
    csize: nat,      // sectors per cluster
    nFatent: nat,    // number of clusters + 2
    fsize: nat,      // sectors per FAT
    volbase: nat,    // first sector of the volume
    fatbase: nat,    // first sector of the first FAT
    database: nat,   // first sector of cluster 2
    nSectors: nat,   // sectors of the device
    fsInfo: bool)    // FAT32 volume whose FSInfo sector may be rewritten
  {
    /** First sector after the last FAT copy. */
    function FatEnd(): nat { if nFats == 2 then fatbase + fsize + fsize else fatbase + fsize }

    /** The part of the layout that FAT accesses depend on. */
    ghost predicate FatArea() {
      && (nFats == 1 || nFats == 2)
      && 3 <= nFatent <= MaxClusters(fsType) + 2
      && volbase < fatbase
      && (fsInfo ==> fsType == Fat32 && volbase + 1 < fatbase)
      && FatBytes(fsType, nFatent) <= fsize * 512
      && FatEnd() <= database < nSectors < 0x1_0000_0000_0000_0000
    }

    ghost predicate WellFormed() {
      && FatArea()
      && PowerOfTwo(csize)
      && database + csize * (nFatent - 2) <= nSectors
    }

    predicate InFat1(s: nat) { fatbase <= s < fatbase + fsize }

    predicate InFats(s: nat) { fatbase <= s < FatEnd() }

    predicate IsCluster(c: nat) { 2 <= c < nFatent }

    /** Sector number of a cluster, 0 for an invalid cluster number; the
        subtraction is the 32-bit one of the program. */
    function Clst2Sect(c: nat): nat {
      var k := if c >= 2 then c - 2 else 0x1_0000_0000 + c - 2;
      if k >= nFatent - 2 then 0 else database + csize * k
    }

    /** The cluster a sector of the data area belongs to. */
    function ClusterOf(s: nat): nat
      requires csize > 0 && database <= s
    {
      2 + (s - database) / csize
    }
  }

  /** A cluster's sectors lie in the data area and inside the device. */
  lemma ClusterInData(g: Geometry, c: nat)
    requires g.WellFormed() && g.IsCluster(c)
    ensures g.Clst2Sect(c) == g.database + g.csize * (c - 2)
    ensures g.database <= g.Clst2Sect(c) && g.Clst2Sect(c) + g.csize <= g.nSectors
  {
    MulMonotone(c - 1, g.nFatent - 2, g.csize);
    assert (c - 1) * g.csize == g.csize * (c - 2) + g.csize;
    assert g.csize * (g.nFatent - 2) == (g.nFatent - 2) * g.csize;
    assert g.csize * (c - 2) >= 0;
  }

  /** No other number has a sector: the answer is 0. */
  lemma NoSector(g: Geometry, c: nat)
    requires g.FatArea() && c < 0x1_0000_0000 && !g.IsCluster(c)
    ensures g.Clst2Sect(c) == 0
  {
  }

  /** The sectors of distinct clusters are distinct: a sector of the data area
      determines its cluster. */
  lemma SectorOwner(g: Geometry, c: nat, j: nat)
    requires g.WellFormed() && g.IsCluster(c) && j < g.csize
    ensures g.database <= g.Clst2Sect(c) + j < g.nSectors
    ensures g.ClusterOf(g.Clst2Sect(c) + j) == c
    ensures (g.Clst2Sect(c) + j - g.database) % g.csize == j
  {
    ClusterInData(g, c);
    assert g.csize * (c - 2) == (c - 2) * g.csize;
    DivUnique(g.csize * (c - 2) + j, g.csize, c - 2, j);
  }
}
