/** What an operation on one file may touch: its own clusters and free ones. */
module Isolation {
  import opened Bytes
  import opened Geometry
  import opened FatEntry
  import opened Chains
  import opened FileImage

  datatype Snapshot = Snapshot(fat: Fat, vol: Image, chain: seq<nat>)

  /** Cluster `c` is the file's own, or free. */
  ghost predicate Own(fat: Fat, chain: seq<nat>, c: nat) {
    c in chain || (c < |fat| && fat[c] == 0)
  }

  /** Sector `s` lies in a cluster that is the file's own, or free. */
  ghost predicate OwnSector(g: Geometry, fat: Fat, chain: seq<nat>, s: nat) {
    g.csize > 0 && g.database <= s && Own(fat, chain, g.ClusterOf(s))
  }

  /** The clusters the file has or could have. */
  ghost function Total(a: Snapshot): nat { |a.chain| + Free(a.fat) }

  /** From `a` to `b` nothing changed except the FAT entries of own clusters,
      the FAT sectors that spell them, and sectors of own clusters; copies of
      the FAT that were equal still are, no cluster was lost or gained, and
      none turned bad. */
  ghost predicate Isolated(g: Geometry, a: Snapshot, b: Snapshot) {
    && Total(a) == Total(b) && (HasReserved(a.fat) <==> HasReserved(b.fat))
    && |a.fat| == |b.fat| && |a.vol| == |b.vol| && (Mirrored(g, a.vol) ==> Mirrored(g, b.vol))
    && (forall c: nat {:trigger b.fat[c]} :: c < |a.fat| && !Own(a.fat, a.chain, c) ==> b.fat[c] == a.fat[c])
    && (forall c: nat {:trigger c in b.chain} :: c in b.chain ==> Own(a.fat, a.chain, c))
    && (forall s: nat {:trigger b.vol[s]} :: s < |a.vol| && !g.InFats(s) && !OwnSector(g, a.fat, a.chain, s) ==>
      b.vol[s] == a.vol[s])
  }

  lemma IsolatedReflexive(g: Geometry, a: Snapshot)
    ensures Isolated(g, a, a)
  {
  }

  lemma SameLength(g: Geometry, a: Snapshot, b: Snapshot)
    requires Isolated(g, a, b)
    ensures |b.vol| == |a.vol|
  {
  }

  lemma IsolatedKeeps(g: Geometry, a: Snapshot, b: Snapshot)
    requires Isolated(g, a, b)
    ensures Total(a) == Total(b) && (HasReserved(a.fat) <==> HasReserved(b.fat))
    ensures Mirrored(g, a.vol) ==> Mirrored(g, b.vol)
  {
  }

  lemma OwnBackwards(g: Geometry, a: Snapshot, b: Snapshot, c: nat)
    requires Isolated(g, a, b) && Own(b.fat, b.chain, c)
    ensures Own(a.fat, a.chain, c)
  {
    if c !in b.chain {
      assert b.fat[c] == 0;
    }
  }

  lemma IsolatedTransitive(g: Geometry, a: Snapshot, b: Snapshot, c: Snapshot)
    requires Isolated(g, a, b) && Isolated(g, b, c)
    ensures Isolated(g, a, c)
  {
    hide Own;
    forall k: nat | k < |a.fat| && !Own(a.fat, a.chain, k) ensures c.fat[k] == a.fat[k] {
      if Own(b.fat, b.chain, k) { OwnBackwards(g, a, b, k); }
      assert b.fat[k] == a.fat[k];
    }
    forall k: nat | k in c.chain ensures Own(a.fat, a.chain, k) {
      OwnBackwards(g, a, b, k);
    }
    forall s: nat | s < |a.vol| && !g.InFats(s) && !OwnSector(g, a.fat, a.chain, s) ensures c.vol[s] == a.vol[s] {
      if OwnSector(g, b.fat, b.chain, s) { OwnBackwards(g, a, b, g.ClusterOf(s)); }
      assert b.vol[s] == a.vol[s];
    }
  }

  /** Moving the window changes nothing at all; writing own sectors is fine. */
  lemma IsolatedWrite(g: Geometry, fat: Fat, vol: Image, vol': Image, chain: seq<nat>)
    requires |vol| == |vol'| && g.WellFormed()
    requires forall s: nat :: s < |vol| && !InFile(g, chain, s) ==> vol'[s] == vol[s]
    ensures Isolated(g, Snapshot(fat, vol, chain), Snapshot(fat, vol', chain))
  {
    MirroredElsewhere(g, vol, vol');
  }

  /** The copies of the FAT stay as they are when no FAT sector changes. */
  lemma MirroredElsewhere(g: Geometry, vol: Image, vol': Image)
    requires |vol| == |vol'| && g.FatArea()
    requires forall s: nat :: s < |vol| && g.InFats(s) ==> vol'[s] == vol[s]
    ensures Mirrored(g, vol) ==> Mirrored(g, vol')
  {
    if g.nFats == 2 && Mirrored(g, vol) {
      forall s: nat | g.InFat1(s) && s + g.fsize < |vol'| ensures vol'[s] == vol'[s + g.fsize] {
        assert g.InFats(s) && g.InFats(s + g.fsize) && vol[s] == vol[s + g.fsize];
      }
    }
  }

  /** Stretching the file's chain is isolated. */
  lemma IsolatedLink(g: Geometry, fat: Fat, fat': Fat, vol: Image, vol': Image, chain: seq<nat>, clst: nat, ncl: nat,
                     eoc: nat)
    requires Linked(fat, fat', clst, ncl, eoc) && SameOutsideFats(g, vol, vol')
    requires clst == 0 || (clst in chain && fat[clst] >= 2)
    requires (Mirrored(g, vol) ==> Mirrored(g, vol')) && eoc >= 2
    ensures Isolated(g, Snapshot(fat, vol, chain), Snapshot(fat', vol', chain + [ncl]))
  {
    LinkedTakesOne(fat, fat', clst, ncl, eoc);
  }

  /** Cutting the file's chain is isolated. */
  lemma IsolatedCut(g: Geometry, fat: Fat, fat': Fat, vol: Image, vol': Image, chain: seq<nat>, n: nat)
    requires |fat'| == |fat| && n <= |chain| && SameOutsideFats(g, vol, vol')
    requires forall c: nat :: c < |fat| && c !in chain ==> fat'[c] == fat[c]
    requires Mirrored(g, vol) ==> Mirrored(g, vol')
    requires Free(fat') + n == Free(fat) + |chain| && (HasReserved(fat) <==> HasReserved(fat'))
    ensures Isolated(g, Snapshot(fat, vol, chain), Snapshot(fat', vol', chain[..n]))
  {
  }

  /** Another file of the volume, open or not: its chain, its private buffer
      (dirty when it holds bytes not on the disk yet) and its bytes. */
  datatype Neighbour = Neighbour(chain: seq<nat>, dirty: bool, sect: nat, buf: Sector, content: seq<byte>)

  /** The other file has a chain of its own and shows its bytes. */
  ghost predicate Beside(g: Geometry, a: Snapshot, o: Neighbour) {
    && IsChain(a.fat, o.chain) && Disjoint(a.chain, o.chain)
    && Shows(g, o.chain, a.vol, o.dirty, o.sect, o.buf, o.content)
  }

  /** Any other file, on a chain of its own, keeps its chain, keeps apart from
      this file, and keeps showing exactly what it showed. */
  lemma OtherFileKept(g: Geometry, a: Snapshot, b: Snapshot, o: Neighbour)
    requires Isolated(g, a, b) && Beside(g, a, o)
    ensures Beside(g, b, o)
  {
    var other := o.chain;
    forall i | 0 <= i < |other| ensures !Own(a.fat, a.chain, other[i]) {
      ChainInUse(a.fat, other, i);
    }
    ChainKept(a.fat, b.fat, other);
    forall i, j | 0 <= i < |b.chain| && 0 <= j < |other| ensures b.chain[i] != other[j] {
      assert b.chain[i] in b.chain;
    }
    forall s: nat | s < |a.vol| && InFile(g, other, s) ensures b.vol[s] == a.vol[s] {
      var i :| 0 <= i < |other| && other[i] == g.ClusterOf(s);
      assert !OwnSector(g, a.fat, a.chain, s) && !g.InFats(s);
    }
    ShowsElsewhere(g, other, a.vol, b.vol, o.dirty, o.sect, o.buf, o.content);
  }

  /** Writing a sector that was the file's own to begin with. */
  lemma IsolatedOwnWrite(g: Geometry, a: Snapshot, b: Snapshot, s: nat, w: Sector)
    requires Isolated(g, a, b) && s < |b.vol| && InFile(g, a.chain, s) && g.FatArea()
    ensures Isolated(g, a, b.(vol := b.vol[s := w]))
  {
    assert OwnSector(g, a.fat, a.chain, s);
    MirroredElsewhere(g, b.vol, b.vol[s := w]);
  }
}
