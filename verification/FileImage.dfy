/** How a chain of clusters, the abstract disk and a private sector buffer show
    a flat byte string; everything here is on values. */
module FileImage {
  import opened Bytes
  import opened Geometry
  import opened FatEntry
  import opened Volume
  import opened Chains

  // --- splicing -------------------------------------------------------------

  /** `s` with `data` written over it at `pos`, growing at the end if needed. */
  function Splice(s: seq<byte>, pos: nat, data: seq<byte>): (r: seq<byte>)
    requires pos <= |s|
    ensures |r| == Max(|s|, pos + |data|)
  {
    s[..pos] + data + (if pos + |data| < |s| then s[pos + |data|..] else [])
  }

  lemma SpliceAt(s: seq<byte>, pos: nat, data: seq<byte>, i: nat)
    requires pos <= |s| && i < |Splice(s, pos, data)|
    ensures Splice(s, pos, data)[i] == if pos <= i < pos + |data| then data[i - pos] else s[i]
  {
  }

  lemma SpliceCompose(s: seq<byte>, pos: nat, a: seq<byte>, b: seq<byte>)
    requires pos <= |s|
    ensures Splice(Splice(s, pos, a), pos + |a|, b) == Splice(s, pos, a + b)
  {
  }

  lemma SpliceNothing(s: seq<byte>, pos: nat)
    requires pos <= |s|
    ensures Splice(s, pos, []) == s
  {
  }

  // --- placement ------------------------------------------------------------

  /** Index in the chain of the cluster that holds byte `i`. */
  function Idx(g: Geometry, i: nat): nat
    requires g.csize > 0
  {
    i / 512 / g.csize
  }

  lemma IdxIs(g: Geometry, i: nat)
    requires g.csize > 0
    ensures Idx(g, i) == i / 512 / g.csize
  {
  }

  function ClusterBytes(g: Geometry): nat { g.csize * 512 }

  function Capacity(g: Geometry, chain: seq<nat>): nat { |chain| * ClusterBytes(g) }

  /** How many clusters `n` bytes take. */
  function ClustersFor(g: Geometry, n: nat): nat
    requires g.csize > 0
  {
    if n == 0 then 0 else Idx(g, n - 1) + 1
  }

  lemma ClustersForMonotone(g: Geometry, n: nat, m: nat)
    requires g.csize > 0 && n <= m
    ensures ClustersFor(g, n) <= ClustersFor(g, m)
  {
    if n > 0 {
      DivMonotone(n - 1, m - 1, 512);
      DivMonotone((n - 1) / 512, (m - 1) / 512, g.csize);
    }
  }

  /** The clusters of a chain exist and are distinct. */
  ghost predicate Clusters(g: Geometry, chain: seq<nat>) {
    && g.WellFormed()
    && (forall i :: 0 <= i < |chain| ==> g.IsCluster(chain[i]))
    && Distinct(chain)
  }

  /** Sector of the device that holds sector `k` of the file. */
  function SectorOf(g: Geometry, chain: seq<nat>, k: nat): nat
    requires g.csize > 0 && k / g.csize < |chain|
  {
    g.Clst2Sect(chain[k / g.csize]) + k % g.csize
  }

  /** Sector `s` belongs to one of the clusters of the chain. */
  ghost predicate InFile(g: Geometry, chain: seq<nat>, s: nat) {
    g.csize > 0 && g.database <= s && g.ClusterOf(s) in chain
  }

  lemma IdxOfProduct(g: Geometry, i: nat)
    requires g.csize > 0
    ensures Idx(g, i) == i / ClusterBytes(g)
  {
    var q, r := i / 512, i % 512;
    var a, b := q / g.csize, q % g.csize;
    assert q == a * g.csize + b;
    assert i == (a * g.csize + b) * 512 + r;
    assert (a * g.csize + b) * 512 == a * (g.csize * 512) + b * 512;
    DivUnique(i, ClusterBytes(g), a, b * 512 + r);
  }

  /** Bytes inside the capacity lie in clusters of the chain. */
  lemma IdxInChain(g: Geometry, chain: seq<nat>, i: nat)
    requires g.csize > 0 && i < Capacity(g, chain)
    ensures Idx(g, i) < |chain|
  {
    IdxOfProduct(g, i);
    var q := i / ClusterBytes(g);
    assert i == q * ClusterBytes(g) + i % ClusterBytes(g);
    if q >= |chain| {
      MulMonotone(|chain|, q, ClusterBytes(g));
    }
  }

  lemma CapacityOfIdx(g: Geometry, chain: seq<nat>, i: nat)
    requires g.csize > 0 && Idx(g, i) < |chain|
    ensures i < Capacity(g, chain)
    ensures (Idx(g, i) + 1) * ClusterBytes(g) <= Capacity(g, chain)
  {
    IdxOfProduct(g, i);
    var q := i / ClusterBytes(g);
    assert i == q * ClusterBytes(g) + i % ClusterBytes(g);
    assert (q + 1) * ClusterBytes(g) == q * ClusterBytes(g) + ClusterBytes(g);
    MulMonotone(q + 1, |chain|, ClusterBytes(g));
  }

  /** A byte on a cluster boundary is the first of the next cluster. */
  lemma BoundaryIdx(g: Geometry, i: nat)
    requires g.csize > 0 && i > 0
    ensures i % 512 == 0 && i / 512 % g.csize == 0 ==>
      Idx(g, i) == Idx(g, i - 1) + 1 && i == Idx(g, i) * ClusterBytes(g)
    ensures i % 512 != 0 || i / 512 % g.csize != 0 ==> Idx(g, i) == Idx(g, i - 1)
  {
    var q, r := i / 512, i % 512;
    var a, b := q / g.csize, q % g.csize;
    assert q == a * g.csize + b;
    if r != 0 {
      DivUnique(i - 1, 512, q, r - 1);
    } else {
      DivUnique(i - 1, 512, q - 1, 511);
      if b != 0 {
        DivUnique(q - 1, g.csize, a, b - 1);
      } else {
        assert a >= 1;
        assert q - 1 == (a - 1) * g.csize + (g.csize - 1);
        DivUnique(q - 1, g.csize, a - 1, g.csize - 1);
        assert i == a * g.csize * 512;
        assert a * g.csize * 512 == a * (g.csize * 512);
      }
    }
  }

  /** Sector k of the file lies in the data area, in the cluster the chain
      names for it. */
  lemma SectorOfOwner(g: Geometry, chain: seq<nat>, k: nat)
    requires Clusters(g, chain) && k / g.csize < |chain|
    ensures g.database <= SectorOf(g, chain, k) < g.nSectors
    ensures g.ClusterOf(SectorOf(g, chain, k)) == chain[k / g.csize]
    ensures InFile(g, chain, SectorOf(g, chain, k))
  {
    SectorOwner(g, chain[k / g.csize], k % g.csize);
  }

  lemma SectorOfRunForward(g: Geometry, chain: seq<nat>, k: nat, cc: nat, j: nat)
    requires g.csize > 0 && k / g.csize < |chain|
    requires k % g.csize + cc <= g.csize && k <= j < k + cc
    ensures j / g.csize == k / g.csize
    ensures SectorOf(g, chain, j) == SectorOf(g, chain, k) + (j - k)
  {
    var a, b := k / g.csize, k % g.csize;
    assert k == a * g.csize + b;
    DivUnique(j, g.csize, a, b + (j - k));
  }

  /** A device sector determines the file sector it holds. */
  lemma SectorOfInverse(g: Geometry, chain: seq<nat>, k: nat, t: nat)
    requires Clusters(g, chain) && k / g.csize < |chain| && k % g.csize + t < g.csize
    ensures g.database <= SectorOf(g, chain, k) + t
    ensures g.ClusterOf(SectorOf(g, chain, k) + t) == chain[k / g.csize]
    ensures (SectorOf(g, chain, k) + t - g.database) % g.csize == k % g.csize + t
  {
    SectorOwner(g, chain[k / g.csize], k % g.csize + t);
  }

  lemma DistinctIndex(g: Geometry, chain: seq<nat>, a: nat, c: nat)
    requires Clusters(g, chain) && a < |chain| && c < |chain| && chain[a] == chain[c]
    ensures a == c
  {
  }

  lemma SectorOfRunBackward(g: Geometry, chain: seq<nat>, k: nat, cc: nat, j: nat)
    requires g.csize > 0 && Clusters(g, chain) && k / g.csize < |chain| && j / g.csize < |chain|
    requires k % g.csize + cc <= g.csize
    requires SectorOf(g, chain, k) <= SectorOf(g, chain, j) < SectorOf(g, chain, k) + cc
    ensures k <= j < k + cc
  {
    hide Clusters;
    hide SectorOf;
    var t := SectorOf(g, chain, j) - SectorOf(g, chain, k);
    SectorOfInverse(g, chain, k, t);
    SectorOfInverse(g, chain, j, 0);
    DistinctIndex(g, chain, k / g.csize, j / g.csize);
    var a, b, d := k / g.csize, k % g.csize, j % g.csize;
    assert k == a * g.csize + b;
    assert j == j / g.csize * g.csize + d;
  }

  /** Distinct file sectors live in distinct device sectors, and a run inside
      one cluster is a run on the device. */
  lemma SectorOfRun(g: Geometry, chain: seq<nat>, k: nat, cc: nat, j: nat)
    requires g.csize > 0 && Clusters(g, chain) && k / g.csize < |chain| && j / g.csize < |chain|
    requires k % g.csize + cc <= g.csize
    ensures SectorOf(g, chain, k) <= SectorOf(g, chain, j) < SectorOf(g, chain, k) + cc <==> k <= j < k + cc
    ensures k <= j < k + cc ==> SectorOf(g, chain, j) == SectorOf(g, chain, k) + (j - k)
  {
    hide Clusters;
    hide SectorOf;
    if k <= j < k + cc {
      SectorOfRunForward(g, chain, k, cc, j);
    } else if SectorOf(g, chain, k) <= SectorOf(g, chain, j) < SectorOf(g, chain, k) + cc {
      SectorOfRunBackward(g, chain, k, cc, j);
    }
  }

  // --- what a chain shows ---------------------------------------------------

  /** A sector of the disk, seen through the private buffer. */
  function Seen(vol: Image, dirty: bool, sect: nat, buf: Sector, s: nat): Sector
    requires s < |vol|
  {
    if dirty && s == sect then buf else vol[s]
  }

  /** Byte `i` of the chain. */
  ghost function FileByte(g: Geometry, chain: seq<nat>, vol: Image, dirty: bool, sect: nat, buf: Sector, i: nat): byte
    requires Clusters(g, chain) && |vol| == g.nSectors && Idx(g, i) < |chain|
  {
    SectorOfOwner(g, chain, i / 512);
    Seen(vol, dirty, sect, buf, SectorOf(g, chain, i / 512))[i % 512]
  }

  /** The chain shows `content`. */
  ghost predicate Shows(g: Geometry, chain: seq<nat>, vol: Image, dirty: bool, sect: nat, buf: Sector,
                        content: seq<byte>) {
    && Clusters(g, chain) && |vol| == g.nSectors
    && |content| <= Capacity(g, chain)
    && forall i: nat {:trigger Idx(g, i)} :: i < |content| ==>
         Idx(g, i) < |chain| && content[i] == FileByte(g, chain, vol, dirty, sect, buf, i)
  }

  lemma ShowsFits(g: Geometry, chain: seq<nat>, vol: Image, dirty: bool, sect: nat, buf: Sector, content: seq<byte>)
    requires Shows(g, chain, vol, dirty, sect, buf, content)
    ensures Clusters(g, chain) && g.csize > 0 && |content| <= Capacity(g, chain)
    ensures forall i: nat :: i < |content| ==> Idx(g, i) < |chain|
  {
  }

  /** What a chain shows is determined by the chain and the disk. */
  lemma ShowsUnique(g: Geometry, chain: seq<nat>, vol: Image, dirty: bool, sect: nat, buf: Sector,
                    dirty': bool, sect': nat, buf': Sector, a: seq<byte>, b: seq<byte>)
    requires Shows(g, chain, vol, dirty, sect, buf, a) && Shows(g, chain, vol, dirty', sect', buf', b)
    requires dirty ==> dirty' && sect == sect' && buf == buf'
    requires dirty' ==> dirty
    ensures |a| <= |b| ==> a == b[..|a|]
  {
    forall i | 0 <= i < |a| && i < |b| ensures a[i] == b[i] {
      var c := Idx(g, i);
    }
  }

  /** The exact string of the first `n` bytes of the chain. */
  ghost function Prefix(g: Geometry, chain: seq<nat>, vol: Image, dirty: bool, sect: nat, buf: Sector,
                        n: nat): (s: seq<byte>)
    requires Clusters(g, chain) && |vol| == g.nSectors && n <= Capacity(g, chain)
    ensures |s| == n
  {
    seq(n, i requires 0 <= i < n => IdxInChain(g, chain, i); FileByte(g, chain, vol, dirty, sect, buf, i))
  }

  lemma PrefixShows(g: Geometry, chain: seq<nat>, vol: Image, dirty: bool, sect: nat, buf: Sector, n: nat)
    requires Clusters(g, chain) && |vol| == g.nSectors && n <= Capacity(g, chain)
    ensures Shows(g, chain, vol, dirty, sect, buf, Prefix(g, chain, vol, dirty, sect, buf, n))
  {
    forall i: nat | i < n ensures Idx(g, i) < |chain| { IdxInChain(g, chain, i); }
  }

  /** A chain that shows `content` shows any prefix of it. */
  lemma ShowsShorter(g: Geometry, chain: seq<nat>, vol: Image, dirty: bool, sect: nat, buf: Sector,
                     content: seq<byte>, n: nat)
    requires Shows(g, chain, vol, dirty, sect, buf, content) && n <= |content|
    ensures Shows(g, chain, vol, dirty, sect, buf, content[..n])
  {
  }

  /** Growing the visible length keeps the bytes that were visible. */
  lemma ShowsLonger(g: Geometry, chain: seq<nat>, vol: Image, dirty: bool, sect: nat, buf: Sector, content: seq<byte>,
                    n: nat)
    returns (longer: seq<byte>)
    requires Shows(g, chain, vol, dirty, sect, buf, content) && |content| <= n <= Capacity(g, chain)
    ensures Shows(g, chain, vol, dirty, sect, buf, longer)
    ensures |longer| == n && longer[..|content|] == content
  {
    longer := Prefix(g, chain, vol, dirty, sect, buf, n);
    PrefixShows(g, chain, vol, dirty, sect, buf, n);
    ShowsUnique(g, chain, vol, dirty, sect, buf, dirty, sect, buf, content, longer);
  }

  /** Appending a cluster to the chain changes nothing that is visible. */
  lemma ShowsExtended(g: Geometry, chain: seq<nat>, c: nat, vol: Image, vol': Image, dirty: bool, sect: nat,
                      buf: Sector, content: seq<byte>)
    requires Shows(g, chain, vol, dirty, sect, buf, content)
    requires Clusters(g, chain + [c]) && SameOutsideFats(g, vol, vol')
    ensures Shows(g, chain + [c], vol', dirty, sect, buf, content)
  {
    var chain' := chain + [c];
    MulMonotone(|chain|, |chain'|, ClusterBytes(g));
    forall i: nat | i < |content|
      ensures Idx(g, i) < |chain'| && content[i] == FileByte(g, chain', vol', dirty, sect, buf, i)
    {
      SectorOfOwner(g, chain, i / 512);
      assert SectorOf(g, chain', i / 512) == SectorOf(g, chain, i / 512);
    }
  }

  /** Changes of the disk outside the file's clusters do not show. */
  lemma ShowsElsewhere(g: Geometry, chain: seq<nat>, vol: Image, vol': Image, dirty: bool, sect: nat, buf: Sector,
                       content: seq<byte>)
    requires Shows(g, chain, vol, dirty, sect, buf, content) && |vol'| == |vol|
    requires forall s: nat :: s < |vol| && InFile(g, chain, s) ==> vol'[s] == vol[s]
    ensures Shows(g, chain, vol', dirty, sect, buf, content)
  {
    forall i: nat | i < |content|
      ensures Idx(g, i) < |chain| && content[i] == FileByte(g, chain, vol', dirty, sect, buf, i)
    {
      SectorOfOwner(g, chain, i / 512);
    }
  }

  /** A shorter chain shows a content that fits in it. */
  lemma ShowsCut(g: Geometry, chain: seq<nat>, n: nat, vol: Image, dirty: bool, sect: nat, buf: Sector,
                 content: seq<byte>)
    requires Shows(g, chain, vol, dirty, sect, buf, content)
    requires n <= |chain| && |content| <= Capacity(g, chain[..n])
    ensures Shows(g, chain[..n], vol, dirty, sect, buf, content)
  {
    var chain' := chain[..n];
    assert Clusters(g, chain');
    forall i: nat | i < |content|
      ensures Idx(g, i) < |chain'| && content[i] == FileByte(g, chain', vol, dirty, sect, buf, i)
    {
      IdxInChain(g, chain', i);
      assert SectorOf(g, chain', i / 512) == SectorOf(g, chain, i / 512);
    }
  }

  /** Writing the dirty buffer back does not show. */
  lemma ShowsFlushed(g: Geometry, chain: seq<nat>, vol: Image, sect: nat, buf: Sector, content: seq<byte>)
    requires Shows(g, chain, vol, true, sect, buf, content) && sect < |vol|
    ensures Shows(g, chain, vol[sect := buf], false, sect, buf, content)
  {
    forall i: nat | i < |content|
      ensures Idx(g, i) < |chain| && content[i] == FileByte(g, chain, vol[sect := buf], false, sect, buf, i)
    {
      SectorOfOwner(g, chain, i / 512);
    }
  }

  /** A clean buffer does not matter. */
  lemma ShowsClean(g: Geometry, chain: seq<nat>, vol: Image, sect: nat, buf: Sector, sect': nat, buf': Sector,
                   content: seq<byte>)
    requires Shows(g, chain, vol, false, sect, buf, content)
    ensures Shows(g, chain, vol, false, sect', buf', content)
  {
    forall i: nat | i < |content|
      ensures Idx(g, i) < |chain| && content[i] == FileByte(g, chain, vol, false, sect', buf', i)
    {
    }
  }

  /** The buffer of the sector that holds byte `pos` carries, below the end of
      the file, what the file shows there. */
  ghost predicate Caches(content: seq<byte>, k: nat, buf: Sector) {
    forall i: nat {:trigger content[i]} :: i < |content| && i / 512 == k ==> content[i] == buf[i % 512]
  }

  lemma SeenCaches(g: Geometry, chain: seq<nat>, vol: Image, dirty: bool, sect: nat, buf: Sector, content: seq<byte>,
                   k: nat)
    requires Shows(g, chain, vol, dirty, sect, buf, content)
    requires k / g.csize < |chain| && sect == SectorOf(g, chain, k) && sect < |vol|
    requires dirty || buf == vol[sect]
    ensures Caches(content, k, buf)
  {
    forall i: nat | i < |content| && i / 512 == k ensures content[i] == buf[i % 512] {
      var c := Idx(g, i);
    }
  }

  /** `buf` with `data` copied over it from offset `o`. */
  function Patch(buf: Sector, o: nat, data: seq<byte>): (r: Sector)
    requires o + |data| <= 512
  {
    buf[..o] + data + buf[o + |data|..]
  }

  /** A partial-sector write: copying `data` into the buffer of the sector of
      byte `pos` and marking it dirty splices `data` into the file. The buffer
      may have been dirty for that sector or clean; at the growing edge it may
      hold anything. */
  lemma ShowsPatched(g: Geometry, chain: seq<nat>, vol: Image, dirty: bool, sect: nat, buf: Sector,
                     sect': nat, buf': Sector, content: seq<byte>, pos: nat, data: seq<byte>)
    requires Shows(g, chain, vol, dirty, sect, buf, content)
    requires pos <= |content| && |data| > 0 && pos % 512 + |data| <= 512
    requires Idx(g, pos) < |chain| && sect' == SectorOf(g, chain, pos / 512)
    requires dirty ==> sect == sect'
    requires Caches(content, pos / 512, buf')
    ensures Shows(g, chain, vol, true, sect', Patch(buf', pos % 512, data), Splice(content, pos, data))
  {
    var content' := Splice(content, pos, data);
    var k := pos / 512;
    var last := pos + |data| - 1;
    assert last / 512 == k by { DivUnique(last, 512, k, pos % 512 + |data| - 1); }
    CapacityOfIdx(g, chain, last);
    var p := Patch(buf', pos % 512, data);
    forall i: nat | i < |content'|
      ensures Idx(g, i) < |chain| && content'[i] == FileByte(g, chain, vol, true, sect', p, i)
    {
      SpliceAt(content, pos, data, i);
      IdxInChain(g, chain, i);
      SectorOfRun(g, chain, k, 1, i / 512);
      if i / 512 == k {
        assert i == 512 * k + i % 512 && pos == 512 * k + pos % 512;
        PatchAt(buf', pos % 512, data, i % 512);
      }
    }
  }

  lemma PatchAt(buf: Sector, o: nat, data: seq<byte>, i: nat)
    requires o + |data| <= 512 && i < 512
    ensures Patch(buf, o, data)[i] == if o <= i < o + |data| then data[i - o] else buf[i]
  {
  }

  lemma BypassByte(g: Geometry, chain: seq<nat>, vol: Image, sect: nat, buf: Sector,
                   content: seq<byte>, pos: nat, data: seq<byte>, i: nat)
    requires Shows(g, chain, vol, false, sect, buf, content)
    requires pos <= |content| && pos % 512 == 0 && |data| % 512 == 0
    requires Idx(g, pos) < |chain| && pos / 512 % g.csize + |data| / 512 <= g.csize
    requires SectorOf(g, chain, pos / 512) + |data| / 512 <= |vol|
    requires i < |Splice(content, pos, data)| && Idx(g, i) < |chain|
    ensures Splice(content, pos, data)[i] ==
            FileByte(g, chain, WriteSectors(vol, SectorOf(g, chain, pos / 512), data), false, sect, buf, i)
  {
    hide Splice;
    hide WriteSectors;
    hide SectorOf;
    var k, cc := pos / 512, |data| / 512;
    var s := SectorOf(g, chain, k);
    var t := SectorOf(g, chain, i / 512);
    SpliceAt(content, pos, data, i);
    SectorOfRun(g, chain, k, cc, i / 512);
    SectorOfOwner(g, chain, i / 512);
    WriteSectorsAt(vol, s, data, t);
    assert i == 512 * (i / 512) + i % 512;
    if k <= i / 512 < k + cc {
      assert data[512 * (t - s)..512 * (t - s) + 512][i % 512] == data[i - pos];
    }
  }

  /** A whole-sector write past the buffer: writing `data` over a run of file
      sectors inside one cluster splices it into the file. */
  lemma ShowsBypass(g: Geometry, chain: seq<nat>, vol: Image, sect: nat, buf: Sector, sect': nat, buf': Sector,
                    content: seq<byte>, pos: nat, data: seq<byte>)
    requires Shows(g, chain, vol, false, sect, buf, content)
    requires pos <= |content| && pos % 512 == 0 && |data| % 512 == 0 && |data| > 0
    requires Idx(g, pos) < |chain| && pos / 512 % g.csize + |data| / 512 <= g.csize
    requires SectorOf(g, chain, pos / 512) + |data| / 512 <= |vol|
    ensures Shows(g, chain, WriteSectors(vol, SectorOf(g, chain, pos / 512), data), false, sect', buf',
      Splice(content, pos, data))
  {
    hide Splice;
    hide WriteSectors;
    hide SectorOf;
    var content' := Splice(content, pos, data);
    var k, cc := pos / 512, |data| / 512;
    var last := pos + |data| - 1;
    assert last / 512 == k + cc - 1 by { DivUnique(last, 512, k + cc - 1, 511); }
    SectorOfRunForward(g, chain, k, cc, k + cc - 1);
    CapacityOfIdx(g, chain, last);
    var vol' := WriteSectors(vol, SectorOf(g, chain, k), data);
    forall i: nat | i < |content'|
      ensures Idx(g, i) < |chain| && content'[i] == FileByte(g, chain, vol', false, sect', buf', i)
    {
      IdxInChain(g, chain, i);
      BypassByte(g, chain, vol, sect, buf, content, pos, data, i);
    }
  }

  /** Reading a run of whole sectors of one cluster reads the file. */
  lemma ShowsRun(g: Geometry, chain: seq<nat>, vol: Image, dirty: bool, sect: nat, buf: Sector, content: seq<byte>,
                 pos: nat, data: seq<byte>)
    requires Shows(g, chain, vol, dirty, sect, buf, content)
    requires pos % 512 == 0 && |data| % 512 == 0 && pos + |data| <= |content|
    requires Idx(g, pos) < |chain| && pos / 512 % g.csize + |data| / 512 <= g.csize
    requires SectorOf(g, chain, pos / 512) + |data| / 512 <= |vol|
    requires forall i: nat :: i < |data| / 512 ==>
      data[512 * i..512 * i + 512] == Seen(vol, dirty, sect, buf, SectorOf(g, chain, pos / 512) + i)
    ensures data == content[pos..pos + |data|]
  {
    forall j: nat | j < |data| ensures data[j] == content[pos + j] {
      ShowsRunByte(g, chain, vol, dirty, sect, buf, content, pos, data, j);
    }
  }

  lemma ShowsByte(g: Geometry, chain: seq<nat>, vol: Image, dirty: bool, sect: nat, buf: Sector, content: seq<byte>,
                  i: nat)
    requires Shows(g, chain, vol, dirty, sect, buf, content) && i < |content|
    ensures g.csize > 0 && Idx(g, i) < |chain| && i / 512 / g.csize < |chain|
    ensures content[i] == FileByte(g, chain, vol, dirty, sect, buf, i)
  {
    var c := Idx(g, i);
  }

  lemma ShowsRunByte(g: Geometry, chain: seq<nat>, vol: Image, dirty: bool, sect: nat, buf: Sector, content: seq<byte>,
                     pos: nat, data: seq<byte>, j: nat)
    requires Shows(g, chain, vol, dirty, sect, buf, content)
    requires pos % 512 == 0 && |data| % 512 == 0 && pos + |data| <= |content|
    requires Idx(g, pos) < |chain| && pos / 512 % g.csize + |data| / 512 <= g.csize
    requires SectorOf(g, chain, pos / 512) + |data| / 512 <= |vol|
    requires forall i: nat :: i < |data| / 512 ==>
      data[512 * i..512 * i + 512] == Seen(vol, dirty, sect, buf, SectorOf(g, chain, pos / 512) + i)
    requires j < |data|
    ensures data[j] == content[pos + j]
  {
    hide Shows, SectorOf;
    var k, m := pos / 512, j / 512;
    InRun(pos, j);
    ShowsByte(g, chain, vol, dirty, sect, buf, content, pos + j);
    SectorOfRunForward(g, chain, k, |data| / 512, k + m);
    assert data[512 * m..512 * m + 512][j % 512] == data[j];
  }

  /** Byte `j` of a run that begins at a sector boundary. */
  lemma InRun(pos: nat, j: nat)
    requires pos % 512 == 0
    ensures (pos + j) / 512 == pos / 512 + j / 512 && (pos + j) % 512 == j % 512
  {
    DivUnique(pos + j, 512, pos / 512 + j / 512, j % 512);
  }
}
