/** Where the read/write pointer of an exFAT file stands in its chain. */
module ExCursor {
  import opened Bytes
  import opened ExChain

  /** Bytes in `k` clusters. */
  function Span(k: nat, csize: nat): nat { k * (512 * csize) }

  function ClusterBytes(csize: nat): nat { 512 * csize }

  /** Offset in the cluster: the sector of it, and the byte of that. */
  function InCluster(ofs: nat, csize: nat): nat
    requires csize > 0
  {
    ofs / 512 % csize * 512 + ofs % 512
  }

  lemma Split(ofs: nat, csize: nat)
    requires csize > 0
    ensures ofs == Span(IndexOf(ofs, csize), csize) + InCluster(ofs, csize)
    ensures InCluster(ofs, csize) < ClusterBytes(csize)
    ensures Span(IndexOf(ofs, csize) + 1, csize) == Span(IndexOf(ofs, csize), csize) + ClusterBytes(csize)
  {
    var sect := ofs / 512;
    var q, r := sect / csize, sect % csize;
    assert sect == q * csize + r;
    assert Span(q, csize) == 512 * (q * csize);
    assert (q + 1) * csize == q * csize + csize;
    assert Span(q + 1, csize) == 512 * ((q + 1) * csize);
  }

  function IndexOf(ofs: nat, csize: nat): nat
    requires csize > 0
  {
    ofs / 512 / csize
  }

  lemma IndexIs(ofs: nat, csize: nat, i: nat)
    requires csize > 0
    ensures Span(i, csize) <= ofs < Span(i + 1, csize) <==> IndexOf(ofs, csize) == i
    ensures Span(i + 1, csize) == Span(i, csize) + ClusterBytes(csize)
  {
    var b := 512 * csize;
    var q, r := ofs / b, ofs % b;
    assert ofs == q * b + r;
    assert (i + 1) * b == i * b + b;
    DivUnique(r, 512, r / 512, r % 512);
    assert ofs == (q * csize + r / 512) * 512 + r % 512 by { assert q * b == q * csize * 512; }
    DivUnique(ofs, 512, q * csize + r / 512, r % 512);
    assert r / 512 < csize;
    DivUnique(ofs / 512, csize, q, r / 512);
    if i * b <= ofs < (i + 1) * b { DivUnique(ofs, b, i, ofs - i * b); }
  }

  lemma ClustersIs(size: nat, csize: nat, k: nat)
    requires csize > 0
    ensures k > 0 ==> (Clusters(size, csize) == k <==> Span(k - 1, csize) < size <= Span(k, csize))
    ensures Clusters(size, csize) == 0 <==> size == 0
    ensures Span(0, csize) == 0
  {
    if size > 0 && k > 0 { IndexIs(size - 1, csize, k - 1); }
    assert k > 0 ==> Span(k - 1, csize) >= 0;
  }

  lemma SpanMonotone(i: nat, k: nat, csize: nat)
    ensures i <= k ==> Span(i, csize) <= Span(k, csize)
    ensures i < k && csize > 0 ==> Span(i, csize) + ClusterBytes(csize) <= Span(k, csize)
  {
    if i <= k { MulMonotone(i, k, 512 * csize); }
    if i < k {
      MulMonotone(i + 1, k, 512 * csize);
      assert (i + 1) * (512 * csize) == i * (512 * csize) + 512 * csize;
    }
  }

  /** The size covers the chain exactly; `clust` holds the byte before the
      pointer; a growing edge is at the end of the file, and so is the pointer. */
  ghost predicate Cursor(chain: seq<nat>, csize: nat, objsize: nat, fptr: nat, clust: nat, nFrag: nat) {
    && csize > 0 && Clusters(objsize, csize) == |chain| && fptr <= objsize
    && (fptr > 0 ==> IndexOf(fptr - 1, csize) < |chain| && clust == chain[IndexOf(fptr - 1, csize)])
    && (nFrag > 0 ==> fptr == objsize && fptr > 0)
  }

  lemma EdgeIsLast(chain: seq<nat>, csize: nat, objsize: nat, fptr: nat, clust: nat, nFrag: nat)
    requires Cursor(chain, csize, objsize, fptr, clust, nFrag) && nFrag > 0
    ensures chain != [] && IndexOf(fptr - 1, csize) == |chain| - 1 && clust == chain[|chain| - 1]
  {
  }

  /** Moving `w` bytes on inside the cluster of the last byte. */
  lemma MoveInside(chain: seq<nat>, csize: nat, objsize: nat, fptr: nat, clust: nat, nFrag: nat, w: nat)
    requires Cursor(chain, csize, objsize, fptr, clust, nFrag) && InCluster(fptr, csize) != 0
    requires w <= ClusterBytes(csize) - InCluster(fptr, csize)
    ensures Cursor(chain, csize, Max(objsize, fptr + w), fptr + w, clust, nFrag)
  {
    hide Span, IndexOf, Clusters, InCluster, ClusterBytes;
    InsideCluster(fptr, csize, w);
    var i := IndexOf(fptr - 1, csize);
    ClustersIs(objsize, csize, |chain|);
    ClustersIs(Max(objsize, fptr + w), csize, |chain|);
    SpanMonotone(i + 1, |chain|, csize);
  }

  lemma InsideCluster(fptr: nat, csize: nat, w: nat)
    requires csize > 0 && InCluster(fptr, csize) != 0 && w <= ClusterBytes(csize) - InCluster(fptr, csize)
    ensures fptr > 0 && IndexOf(fptr + w - 1, csize) == IndexOf(fptr - 1, csize)
    ensures fptr + w <= Span(IndexOf(fptr - 1, csize) + 1, csize)
  {
    hide InCluster, IndexOf, Span, ClusterBytes;
    Split(fptr, csize);
    var q := IndexOf(fptr, csize);
    IndexIs(fptr - 1, csize, q);
    IndexIs(fptr + w - 1, csize, q);
  }

  /** Moving on into the next cluster: the next of the chain, or a new one. */
  lemma MoveNext(chain: seq<nat>, next: seq<nat>, csize: nat, objsize: nat, fptr: nat, clust: nat, nFrag: nat,
                 nFrag': nat, w: nat)
    requires Cursor(chain, csize, objsize, fptr, clust, nFrag) && InCluster(fptr, csize) == 0
    requires 0 < w <= ClusterBytes(csize)
    requires if IndexOf(fptr, csize) < |chain| then next == chain && nFrag' == nFrag else |next| == |chain| + 1
    ensures IndexOf(fptr, csize) < |next|
    ensures Cursor(next, csize, Max(objsize, fptr + w), fptr + w, next[IndexOf(fptr, csize)], nFrag')
  {
    hide Span, IndexOf, Clusters, InCluster, ClusterBytes;
    var i := IndexOf(fptr, csize);
    Split(fptr, csize);
    BeforeBoundary(chain, csize, objsize, fptr, clust, nFrag, i);
    IndexIs(fptr + w - 1, csize, i);
    ClustersIs(objsize, csize, |chain|);
    ClustersIs(Max(objsize, fptr + w), csize, |next|);
    SpanMonotone(i + 1, |next|, csize);
    SpanMonotone(|chain|, i, csize);
  }

  /** The last byte before a cluster boundary. */
  lemma BeforeBoundary(chain: seq<nat>, csize: nat, objsize: nat, fptr: nat, clust: nat, nFrag: nat, i: nat)
    requires Cursor(chain, csize, objsize, fptr, clust, nFrag) && fptr == Span(i, csize)
    ensures i <= |chain| && (i > 0 ==> clust == chain[i - 1] && IndexOf(fptr - 1, csize) == i - 1)
    ensures (i == |chain| ==> objsize == fptr) && (i == 0 <==> fptr == 0)
    ensures nFrag > 0 ==> i == |chain|
  {
    ClustersIs(objsize, csize, |chain|);
    if i > 0 {
      IndexIs(fptr - 1, csize, i - 1);
    } else {
      assert fptr == 0;
    }
    SpanMonotone(|chain| + 1, i, csize);
    SpanMonotone(|chain|, i, csize);
  }

  /** f_lseek at the beginning of the i-th cluster: the size covers the chain but
      for a last cluster it has just taken. */
  ghost predicate SeekAt(chain: seq<nat>, csize: nat, objsize: nat, i: nat, nFrag: nat) {
    && csize > 0 && i < |chain|
    && Span(|chain| - 1, csize) <= objsize <= Span(|chain|, csize)
    && (objsize == Span(|chain| - 1, csize) || nFrag > 0 ==> i == |chain| - 1 && objsize == Span(i, csize))
  }

  lemma SeekFromHere(chain: seq<nat>, csize: nat, objsize: nat, fptr: nat, clust: nat)
    requires Cursor(chain, csize, objsize, fptr, clust, 0) && fptr > 0
    ensures SeekAt(chain, csize, objsize, IndexOf(fptr - 1, csize), 0)
    ensures fptr - 1 - InCluster(fptr - 1, csize) == Span(IndexOf(fptr - 1, csize), csize)
  {
    ClustersIs(objsize, csize, |chain|);
    Split(fptr - 1, csize);
  }

  lemma SeekFromTop(chain: seq<nat>, csize: nat, objsize: nat, nFrag: nat)
    requires csize > 0 && chain != []
    requires (if objsize == 0 then |chain| == 1 else Clusters(objsize, csize) == |chain| && nFrag == 0)
    ensures SeekAt(chain, csize, objsize, 0, nFrag) && Span(0, csize) == 0
  {
    ClustersIs(objsize, csize, |chain|);
  }

  /** One cluster on: the size is raised to the new position first. */
  lemma SeekRaise(chain: seq<nat>, csize: nat, objsize: nat, i: nat, nFrag: nat)
    requires SeekAt(chain, csize, objsize, i, nFrag)
    ensures Span(i + 1, csize) == Span(i, csize) + ClusterBytes(csize)
    ensures Clusters(Max(objsize, Span(i + 1, csize)), csize) == |chain|
    ensures i + 1 < |chain| ==>
      objsize >= Span(i + 1, csize) && SeekAt(chain, csize, objsize, i + 1, nFrag) && nFrag == 0
    ensures i + 1 == |chain| ==> objsize <= Span(i + 1, csize)
  {
    hide Span, Clusters, ClusterBytes;
    IndexSpan(i, csize);
    IndexSpan(|chain| - 1, csize);
    SpanMonotone(i + 1, |chain| - 1, csize);
    ClustersIs(Max(objsize, Span(i + 1, csize)), csize, |chain|);
    SpanGrows(|chain| - 1, csize);
  }

  lemma IndexSpan(i: nat, csize: nat)
    ensures Span(i + 1, csize) == Span(i, csize) + ClusterBytes(csize)
  {
  }

  lemma SpanGrows(i: nat, csize: nat)
    requires csize > 0
    ensures Span(i, csize) < Span(i + 1, csize)
  {
    IndexSpan(i, csize);
  }

  lemma SeekExtended(chain: seq<nat>, csize: nat, i: nat, nFrag: nat)
    requires csize > 0 && |chain| == i + 1
    ensures SeekAt(chain, csize, Span(i, csize), i, nFrag)
  {
    SpanGrows(i, csize);
  }

  lemma SeekEnd(chain: seq<nat>, csize: nat, objsize: nat, i: nat, nFrag: nat, ofs: nat)
    requires SeekAt(chain, csize, objsize, i, nFrag) && 0 < ofs <= ClusterBytes(csize)
    ensures Cursor(chain, csize, Max(objsize, Span(i, csize) + ofs), Span(i, csize) + ofs, chain[i], nFrag)
  {
    hide Span, Clusters, ClusterBytes, IndexOf;
    var p := Span(i, csize) + ofs;
    IndexSpan(i, csize);
    IndexIs(p - 1, csize, i);
    SpanMonotone(i + 1, |chain|, csize);
    ClustersIs(Max(objsize, p), csize, |chain|);
  }

  lemma CursorFacts(chain: seq<nat>, csize: nat, objsize: nat, fptr: nat, clust: nat, nFrag: nat)
    requires Cursor(chain, csize, objsize, fptr, clust, nFrag)
    ensures csize > 0 && fptr <= objsize && (chain == [] <==> objsize == 0)
    ensures fptr > 0 ==> IndexOf(fptr - 1, csize) < |chain| && clust == chain[IndexOf(fptr - 1, csize)]
    ensures fptr < objsize ==> nFrag == 0
    ensures Clusters(objsize, csize) == |chain|
  {
  }

  /** Cutting the file at the pointer. */
  lemma CutFacts(chain: seq<nat>, csize: nat, objsize: nat, fptr: nat, clust: nat, nFrag: nat)
    requires Cursor(chain, csize, objsize, fptr, clust, nFrag)
    ensures Clusters(fptr, csize) <= |chain|
    ensures fptr == 0 <==> Clusters(fptr, csize) == 0
    ensures fptr > 0 ==> clust == chain[Clusters(fptr, csize) - 1]
    ensures Cursor(chain[..Clusters(fptr, csize)], csize, fptr, fptr, clust, 0)
    ensures fptr == objsize ==> chain[..Clusters(fptr, csize)] == chain
  {
    hide IndexOf;
    assert fptr > 0 ==>
      IndexOf(fptr - 1, csize) == Clusters(fptr, csize) - 1 by { if fptr > 0 { IndexClusters(fptr, csize); } }
  }

  lemma IndexClusters(fptr: nat, csize: nat)
    requires csize > 0 && fptr > 0
    ensures IndexOf(fptr - 1, csize) == Clusters(fptr, csize) - 1
  {
  }
}
