/** The clusters of an exFAT file as the allocation status, the FAT and the
    bitmap describe them together. */
module ExChain {
  import opened Bytes
  import opened ExBitmap

  const EOC: nat := 0x7FFF_FFFF
  const END_MARK: nat := 0xFFFF_FFFF

  /** Clusters `a` up to `b` of the chain follow each other on the volume. */
  ghost predicate Consecutive(chain: seq<nat>, a: nat, b: nat)
    requires b <= |chain|
  {
    forall i :: a <= i < b ==> chain[i] == chain[a] + (i - a)
  }

  /** Clusters are numbers of the volume, no two the same, none of another object. */
  ghost predicate Clean(chain: seq<nat>, others: set<nat>, n: nat) {
    && (forall i :: 0 <= i < |chain| ==> 2 <= chain[i] < n && chain[i] !in others)
    && (forall i, j :: 0 <= i < j < |chain| ==> chain[i] != chain[j])
    && (forall c :: c in others ==> 2 <= c < n)
  }

  /** The set bits are exactly the clusters in use. */
  ghost predicate BitmapShows(bits: seq<byte>, n: nat, chain: seq<nat>, others: set<nat>) {
    && n > 2 && Covers(bits, n - 2)
    && forall v: nat :: v < n - 2 ==> (Used(bits, v) <==> v + 2 in chain || v + 2 in others)
  }

  /** The FAT entry of the i-th cluster leads to the next one, or ends the chain. */
  ghost predicate FatLink(fat: seq<nat>, chain: seq<nat>, i: nat)
    requires i < |chain|
  {
    chain[i] < |fat| && fat[chain[i]] % 0x8000_0000 == if i + 1 < |chain| then chain[i + 1] else EOC
  }

  ghost predicate FatLinks(fat: seq<nat>, chain: seq<nat>, a: nat, b: nat)
    requires b <= |chain|
  {
    forall i :: a <= i < b ==> FatLink(fat, chain, i)
  }

  /** What the allocation status says about the chain. 2: it is one piece and the
      FAT is not used. 3: its first n_cont + 1 clusters are one piece, of which
      the FAT has the last only. 0: the FAT has it all. The last n_frag clusters
      are one piece that the FAT does not have yet. */
  ghost predicate Status(fat: seq<nat>, chain: seq<nat>, stat: nat, nCont: nat, nFrag: nat) {
    && stat in {0, 2, 3} && (chain == [] || stat == 2 ==> nFrag == 0)
    && (chain != [] && stat == 2 ==> Consecutive(chain, 0, |chain|))
    && (stat == 3 ==> nCont + 1 + nFrag <= |chain| && nCont + 1 < |chain| && Consecutive(chain, 0, nCont + 1))
    && (chain != [] && stat != 2 ==>
          && nFrag <= |chain| && Consecutive(chain, |chain| - nFrag, |chain|)
          && FatLinks(fat, chain, if stat == 3 then nCont else 0, |chain| - nFrag))
  }

  /** The file is described by the directory entry alone: contiguous, or spelled
      out by the FAT. */
  ghost predicate OnDisk(fat: seq<nat>, chain: seq<nat>, stat: nat) {
    chain == [] || (stat == 2 && Consecutive(chain, 0, |chain|)) || (stat == 0 && FatLinks(fat, chain, 0, |chain|))
  }

  lemma SettledIsOnDisk(fat: seq<nat>, chain: seq<nat>, stat: nat, nCont: nat)
    requires Status(fat, chain, stat, nCont, 0) && stat != 3
    ensures OnDisk(fat, chain, stat)
  {
  }

  /** Number of clusters of a file of `size` bytes. */
  function Clusters(size: nat, csize: nat): nat
    requires csize > 0
  {
    if size == 0 then 0 else (size - 1) / 512 / csize + 1
  }

  /** Number of clusters less one, in 32 bits. */
  function IndexOfLast(objsize: nat, csize: nat): nat
    requires objsize > 0 && csize > 0
  {
    (objsize - 1) / 512 / csize % 0x1_0000_0000
  }

  lemma LastIndex(objsize: nat, csize: nat, k: nat)
    requires csize > 0 && 0 < k < 0x8000_0000 && Clusters(objsize, csize) == k
    ensures objsize > 0 && IndexOfLast(objsize, csize) == k - 1
  {
  }

  /** get_fat on an exFAT volume. */
  function GetFat(fat: seq<nat>, sclust: nat, objsize: nat, stat: nat, nCont: nat, nFrag: nat, csize: nat,
                  clst: nat): nat
    requires csize > 0
  {
    if clst < 2 || clst >= |fat| then 1
    else if (objsize != 0 && sclust != 0) || stat == 0 then
      var cofs := if sclust <= clst then clst - sclust else clst + 0x1_0000_0000 - sclust;
      var clen := if objsize == 0 then -1 else IndexOfLast(objsize, csize);
      if stat == 2 && cofs <= clen then (if cofs == clen then EOC else clst + 1)
      else if stat == 3 && cofs < nCont then clst + 1
      else if stat != 2 then (if nFrag != 0 then EOC else fat[clst] % 0x8000_0000)
      else 1
    else 1
  }

  /** Elsewhere it answers 1: for a number out of range, for a file that has no
      clusters, and outside the clusters of a contiguous file. */
  lemma GetFatElsewhere(fat: seq<nat>, sclust: nat, objsize: nat, stat: nat, nCont: nat, nFrag: nat, csize: nat,
                        clst: nat)
    requires csize > 0 && sclust < 0x8000_0000 && |fat| < 0x8000_0000
    ensures clst < 2 || clst >= |fat| ==> GetFat(fat, sclust, objsize, stat, nCont, nFrag, csize, clst) == 1
    ensures stat != 0 && (objsize == 0 || sclust == 0) ==>
      GetFat(fat, sclust, objsize, stat, nCont, nFrag, csize, clst) == 1
    ensures (stat == 2 && objsize > 0 && (objsize - 1) / 512 / csize < 0x8000_0000
             && (clst < sclust || clst - sclust > (objsize - 1) / 512 / csize)) ==>
      GetFat(fat, sclust, objsize, stat, nCont, nFrag, csize, clst) == 1
  {
    if objsize > 0 {
      var x := (objsize - 1) / 512 / csize;
      if x < 0x8000_0000 { DivUnique(x, 0x1_0000_0000, 0, x); }
    }
  }

  /** Within the range of its callers get_fat follows the chain. */
  lemma GetFatFollows(fat: seq<nat>, chain: seq<nat>, others: set<nat>, objsize: nat, stat: nat, nCont: nat,
                      nFrag: nat, csize: nat, i: nat)
    requires csize > 0 && i < |chain| && |chain| < 0x8000_0000 && |fat| < 0x8000_0000
    requires Clean(chain, others, |fat|) && Status(fat, chain, stat, nCont, nFrag)
    requires stat != 0 ==> Clusters(objsize, csize) == |chain|
    requires nFrag != 0 ==> i == |chain| - 1
    ensures GetFat(fat, chain[0], objsize, stat, nCont, nFrag, csize, chain[i])
         == if i + 1 < |chain| then chain[i + 1] else EOC
  {
    hide Clusters, IndexOfLast;
    if stat != 0 { LastIndex(objsize, csize, |chain|); }
    if stat == 3 {
      InFirstPiece(chain, nCont, i);
      assert nCont <= i < |chain| - nFrag ==> FatLink(fat, chain, i);
    } else if stat == 0 {
      assert i < |chain| - nFrag ==> FatLink(fat, chain, i);
    }
  }

  /** A cluster's number tells whether it belongs to the first piece. */
  lemma InFirstPiece(chain: seq<nat>, nCont: nat, i: nat)
    requires i < |chain| && nCont < |chain| && Consecutive(chain, 0, nCont + 1)
    requires forall i, j :: 0 <= i < j < |chain| ==> chain[i] != chain[j]
    ensures chain[0] <= chain[i] <= chain[0] + nCont <==> i <= nCont
    ensures i <= nCont ==> chain[i] == chain[0] + i
  {
    if chain[0] <= chain[i] <= chain[0] + nCont {
      var j := chain[i] - chain[0];
      assert chain[j] == chain[i];
    }
  }

  // ---- what the writers of the FAT do to the status ----

  /** The last `k` clusters up to `lcl` lead to the next one, `lcl` to `term`. */
  ghost predicate Filled(was: seq<nat>, fat: seq<nat>, lcl: nat, k: nat, term: nat) {
    && |fat| == |was| && k <= lcl < |fat|
    && forall c: nat :: c < |fat| ==> fat[c] == if lcl - k < c <= lcl then (if c < lcl then c + 1 else term) else was[c]
  }

  /** The piece at the growing edge, by cluster number. */
  lemma EdgeClusters(chain: seq<nat>, nFrag: nat, others: set<nat>, n: nat)
    requires Clean(chain, others, n) && 0 < nFrag <= |chain| && Consecutive(chain, |chain| - nFrag, |chain|)
    ensures nFrag < chain[|chain| - 1]
    ensures forall i :: 0 <= i < |chain| ==>
      (i < |chain| - nFrag <==> !(chain[|chain| - 1] - nFrag < chain[i] <= chain[|chain| - 1]))
    ensures forall i :: |chain| - nFrag <= i < |chain| - 1 ==> chain[i + 1] == chain[i] + 1
  {
    var e, last := |chain| - nFrag, chain[|chain| - 1];
    assert last == chain[e] + nFrag - 1;
    forall i | 0 <= i < |chain| ensures i < e <==> !(last - nFrag < chain[i] <= last) {
      if last - nFrag < chain[i] <= last {
        var j := e + chain[i] - chain[e];
        assert chain[j] == chain[i];
      }
    }
  }

  /** fill_last_frag with an end mark. */
  lemma EdgeEnded(was: seq<nat>, fat: seq<nat>, chain: seq<nat>, others: set<nat>, stat: nat, nCont: nat, nFrag: nat)
    requires Clean(chain, others, |was|) && chain != [] && |was| < 0x8000_0000 && Status(was, chain, stat, nCont, nFrag)
    requires Filled(was, fat, chain[|chain| - 1], nFrag, END_MARK)
    ensures Status(fat, chain, stat, nCont, 0)
  {
    if nFrag > 0 {
      EdgeClusters(chain, nFrag, others, |was|);
      forall i | (if stat == 3 then nCont else 0) <= i < |chain| ensures FatLink(fat, chain, i) {
        assert i < |chain| - nFrag ==> FatLink(was, chain, i);
      }
    } else {
      assert fat == was;
    }
  }

  /** fill_last_frag with a link to a cluster elsewhere. */
  lemma EdgeLinked(was: seq<nat>, fat: seq<nat>, chain: seq<nat>, others: set<nat>, stat: nat, nCont: nat, nFrag: nat,
                   ncl: nat)
    requires Clean(chain + [ncl], others, |was|) && chain != [] && stat != 2 && |was| < 0x8000_0000
    requires Status(was, chain, stat, nCont, nFrag)
    requires Filled(was, fat, chain[|chain| - 1], if nFrag == 0 then 1 else nFrag, ncl)
    ensures Status(fat, chain + [ncl], stat, nCont, 1)
  {
    CleanPrefix(chain, ncl, others, |was|);
    var k := if nFrag == 0 then 1 else nFrag;
    EdgeClusters(chain, k, others, |was|);
    var next := chain + [ncl];
    forall i | (if stat == 3 then nCont else 0) <= i < |chain| ensures FatLink(fat, next, i) {
      assert i < |chain| - k ==> FatLink(was, chain, i) && next[i + 1] == chain[i + 1];
      assert next[|chain|] == ncl;
    }
    assert stat == 3 ==> Consecutive(next, 0, nCont + 1);
  }

  lemma CleanPrefix(chain: seq<nat>, ncl: nat, others: set<nat>, n: nat)
    requires Clean(chain + [ncl], others, n)
    ensures Clean(chain, others, n)
    ensures forall i :: 0 <= i < |chain| ==> chain[i] != ncl
  {
    var next := chain + [ncl];
    assert forall i :: 0 <= i < |chain| ==> next[i] == chain[i];
    assert next[|chain|] == ncl;
  }

  /** A contiguous file breaks: its one piece becomes the first fragment. */
  lemma BreaksOff(was: seq<nat>, fat: seq<nat>, chain: seq<nat>, others: set<nat>, nFrag: nat, ncl: nat)
    requires Clean(chain + [ncl], others, |was|) && chain != [] && |was| < 0x8000_0000
    requires Status(was, chain, 2, 0, nFrag)
    requires Filled(was, fat, chain[|chain| - 1], 1, ncl)
    ensures Status(fat, chain + [ncl], 3, |chain| - 1, 1)
  {
    var next := chain + [ncl];
    CleanPrefix(chain, ncl, others, |was|);
    assert forall i :: 0 <= i < |chain| ==> next[i] == chain[i];
    assert FatLink(fat, next, |chain| - 1);
  }

  /** The next cluster follows the last: the FAT need not be touched. */
  lemma EdgeGrows(fat: seq<nat>, chain: seq<nat>, stat: nat, nCont: nat, nFrag: nat, ncl: nat)
    requires chain != [] && Status(fat, chain, stat, nCont, nFrag) && ncl == chain[|chain| - 1] + 1
    ensures Status(fat, chain + [ncl], stat, nCont, if stat == 2 then 0 else if nFrag > 0 then nFrag + 1 else 2)
  {
    var next := chain + [ncl];
    assert forall i :: 0 <= i < |chain| ==> next[i] == chain[i];
    if stat != 2 {
      var k := if nFrag > 0 then nFrag + 1 else 2;
      var a := if stat == 3 then nCont else 0;
      assert Consecutive(next, |next| - k, |next|);
      forall i | a <= i < |next| - k ensures FatLink(fat, next, i) {
        assert FatLink(fat, chain, i);
      }
    }
  }

  /** fill_first_frag. */
  lemma FirstFilled(was: seq<nat>, fat: seq<nat>, chain: seq<nat>, others: set<nat>, nCont: nat, nFrag: nat)
    requires Clean(chain, others, |was|) && chain != [] && |was| < 0x8000_0000 && Status(was, chain, 3, nCont, nFrag)
    requires |fat| == |was|
    requires forall c: nat :: c < |fat| ==> fat[c] == if chain[0] <= c < chain[0] + nCont then c + 1 else was[c]
    ensures Status(fat, chain, 0, nCont, nFrag)
  {
    forall i | 0 <= i < |chain| - nFrag ensures FatLink(fat, chain, i) {
      InFirstPiece(chain, nCont, i);
      assert nCont <= i ==> FatLink(was, chain, i);
      assert i < nCont ==> chain[i + 1] == chain[0] + (i + 1);
      assert chain[nCont] == chain[0] + nCont;
    }
  }

  /** remove_chain: the status of what is left. */
  lemma CutStatus(was: seq<nat>, fat: seq<nat>, chain: seq<nat>, others: set<nat>, stat: nat, nCont: nat, k: nat)
    requires Clean(chain, others, |was|) && 0 < k < |chain| && Status(was, chain, stat, nCont, 0)
    requires fat == if stat == 2 then was else was[chain[k - 1] := END_MARK]
    ensures stat == 2 ==> Status(fat, chain[..k], 2, nCont, 0)
    ensures stat == 0 ==> Status(fat, chain[..k], 0, nCont, 0)
    ensures stat == 0 && Consecutive(chain, 0, k) ==> Status(fat, chain[..k], 2, nCont, 0)
    ensures stat == 3 ==>
      Status(fat, chain[..k], if chain[0] <= chain[k - 1] <= chain[0] + nCont then 2 else 3, nCont, 0)
  {
    var cut := chain[..k];
    if stat != 2 {
      forall i | (if stat == 3 then nCont else 0) <= i < k ensures FatLink(fat, cut, i) {
        assert FatLink(was, chain, i);
      }
      if stat == 3 { InFirstPiece(chain, nCont, k - 1); }
    }
  }

  // ---- the bitmap ----

  lemma BitSet(was: seq<byte>, bits: seq<byte>, n: nat, chain: seq<nat>, others: set<nat>, ncl: nat)
    requires BitmapShows(was, n, chain, others) && 2 <= ncl < n && Changed(was, bits, ncl - 2, 1, true)
    ensures BitmapShows(bits, n, chain + [ncl], others)
  {
  }

  /** The bitmap while remove_chain is between two runs: the clusters in front of
      `k` and from `a` on are in use. */
  ghost predicate Freeing(bits: seq<byte>, n: nat, chain: seq<nat>, others: set<nat>, k: nat, a: nat)
    requires k <= a <= |chain|
  {
    && n > 2 && Covers(bits, n - 2)
    && forall v: nat :: v < n - 2 ==> (Used(bits, v) <==> v + 2 in chain[..k] || v + 2 in chain[a..] || v + 2 in others)
  }

  lemma FreeingStart(bits: seq<byte>, n: nat, chain: seq<nat>, others: set<nat>, k: nat)
    requires k <= |chain| && BitmapShows(bits, n, chain, others)
    ensures Freeing(bits, n, chain, others, k, k)
  {
    assert chain == chain[..k] + chain[k..];
  }

  lemma RunBits(bits: seq<byte>, n: nat, chain: seq<nat>, others: set<nat>, k: nat, a: nat, b: nat, v: nat)
    requires Clean(chain, others, n) && k <= a < b <= |chain| && Consecutive(chain, a, b)
    requires Freeing(bits, n, chain, others, k, a)
    requires chain[a] - 2 <= v < chain[a] - 2 + (b - a)
    ensures v < n - 2 && Used(bits, v) && v + 2 !in chain[..k] && v + 2 !in chain[b..] && v + 2 !in others
  {
    var i := a + (v + 2 - chain[a]);
    assert chain[i] == v + 2 && chain[a..][i - a] == v + 2;
  }

  lemma RunFreed(was: seq<byte>, bits: seq<byte>, n: nat, chain: seq<nat>, others: set<nat>, k: nat, a: nat, b: nat)
    requires Clean(chain, others, n) && k <= a < b <= |chain| && Consecutive(chain, a, b)
    requires Freeing(was, n, chain, others, k, a)
    requires Changed(was, bits, chain[a] - 2, b - a, false)
    ensures Freeing(bits, n, chain, others, k, b)
  {
    assert chain[a..] == chain[a..b] + chain[b..];
    forall v: nat | v < n - 2
      ensures Used(bits, v) <==> v + 2 in chain[..k] || v + 2 in chain[b..] || v + 2 in others
    {
      if chain[a] - 2 <= v < chain[a] - 2 + (b - a) {
        RunBits(was, n, chain, others, k, a, b, v);
      } else {
        assert forall i :: a <= i < b ==> chain[i] == chain[a] + (i - a);
        assert v + 2 !in chain[a..b];
      }
    }
  }

  // ---- counting ----

  function Elements(chain: seq<nat>, k: nat): set<nat>
    requires k <= |chain|
  {
    if k == 0 then {} else Elements(chain, k - 1) + {chain[k - 1]}
  }

  lemma {:induction false} InElements(chain: seq<nat>, k: nat, c: nat)
    requires k <= |chain|
    ensures c in Elements(chain, k) <==> c in chain[..k]
  {
    if k > 0 {
      InElements(chain, k - 1, c);
      assert chain[..k] == chain[..k - 1] + [chain[k - 1]];
    }
  }

  lemma {:induction false} CountElements(chain: seq<nat>, k: nat)
    requires k <= |chain| && forall i, j :: 0 <= i < j < |chain| ==> chain[i] != chain[j]
    ensures |Elements(chain, k)| == k
  {
    if k > 0 {
      CountElements(chain, k - 1);
      InElements(chain, k - 1, chain[k - 1]);
      assert chain[k - 1] !in chain[..k - 1];
    }
  }

  function Numbers(n: nat): set<nat> {
    if n <= 2 then {} else Numbers(n - 1) + {n - 1}
  }

  lemma {:induction false} CountNumbers(n: nat)
    requires n >= 2
    ensures |Numbers(n)| == n - 2
    ensures forall c :: c in Numbers(n) <==> 2 <= c < n
  {
    if n > 2 { CountNumbers(n - 1); }
  }

  lemma Subset(a: set<nat>, b: set<nat>)
    requires a <= b
    ensures |a| <= |b| && (|a| == |b| ==> a == b)
  {
    assert b == a + (b - a) && |b| == |a| + |b - a|;
  }

  /** The free clusters are as many as the chain and the other objects leave. */
  lemma FreeCount(chain: seq<nat>, others: set<nat>, n: nat)
    requires Clean(chain, others, n) && n >= 2
    ensures |chain| + |others| <= n - 2
    ensures |chain| + |others| == n - 2 <==> forall c: nat :: 2 <= c < n ==> c in chain || c in others
  {
    var used := Elements(chain, |chain|);
    CountElements(chain, |chain|);
    forall c ensures c in used <==> c in chain {
      InElements(chain, |chain|, c);
      assert chain[..|chain|] == chain;
    }
    CountNumbers(n);
    assert used !! others;
    assert |used + others| == |chain| + |others|;
    Subset(used + others, Numbers(n));
    assert (forall c: nat :: 2 <= c < n ==> c in chain || c in others) ==> Numbers(n) == used + others;
  }
}
