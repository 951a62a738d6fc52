/** Cluster chains on a value-level FAT, and what freeing a chain does. */
module Chains {
  import opened Volume

  /** A FAT: entry k describes cluster k; values of at least |fat| end a chain. */
  type Fat = seq<nat>

  predicate InRange(fat: Fat, c: nat) { 2 <= c < |fat| }

  /** `chain` follows the links of the FAT and ends at an end mark. */
  ghost predicate IsChain(fat: Fat, chain: seq<nat>) {
    && |chain| > 0
    && (forall i :: 0 <= i < |chain| ==> InRange(fat, chain[i]))
    && (forall i :: 0 <= i < |chain| - 1 ==> fat[chain[i]] == chain[i + 1])
    && fat[chain[|chain| - 1]] >= |fat|
  }

  ghost predicate Distinct(chain: seq<nat>) {
    forall i, j :: 0 <= i < j < |chain| ==> chain[i] != chain[j]
  }

  ghost predicate Disjoint(a: seq<nat>, b: seq<nat>) {
    forall i, j :: 0 <= i < |a| && 0 <= j < |b| ==> a[i] != b[j]
  }

  lemma {:induction false} SameTail(fat: Fat, a: seq<nat>, b: seq<nat>, i: nat, j: nat)
    requires IsChain(fat, a) && IsChain(fat, b)
    requires i < |a| && j < |b| && a[i] == b[j]
    ensures a[i..] == b[j..]
    decreases |a| - i
  {
    assert i < |a| - 1 ==> fat[a[i]] == a[i + 1];
    assert j < |b| - 1 ==> fat[b[j]] == b[j + 1];
    if i < |a| - 1 && j < |b| - 1 {
      SameTail(fat, a, b, i + 1, j + 1);
      assert a[i..] == [a[i]] + a[i + 1..];
      assert b[j..] == [b[j]] + b[j + 1..];
    }
  }

  /** A chain that ends at an end mark has no cycle. */
  lemma ChainIsAcyclic(fat: Fat, chain: seq<nat>)
    requires IsChain(fat, chain)
    ensures Distinct(chain)
  {
    forall i, j | 0 <= i < j < |chain| ensures chain[i] != chain[j] {
      assert |chain[i..]| != |chain[j..]|;
      if chain[i] == chain[j] {
        SameTail(fat, chain, chain, i, j);
      }
    }
  }

  /** The chain from a start cluster is unique. */
  lemma ChainIsUnique(fat: Fat, a: seq<nat>, b: seq<nat>)
    requires IsChain(fat, a) && IsChain(fat, b) && a[0] == b[0]
    ensures a == b
  {
    SameTail(fat, a, b, 0, 0);
    assert a[0..] == a && b[0..] == b;
  }

  /** Clusters of a chain are in use. */
  lemma ChainInUse(fat: Fat, chain: seq<nat>, i: nat)
    requires IsChain(fat, chain) && i < |chain|
    ensures fat[chain[i]] >= 2
  {
    assert i < |chain| - 1 ==> fat[chain[i]] == chain[i + 1];
  }

  // --- create_chain ---------------------------------------------------------

  /** `ncl` was free, is now the end of a chain, and follows `clst` if any. */
  ghost predicate Linked(fat: Fat, fat': Fat, clst: nat, ncl: nat, eoc: nat) {
    && InRange(fat, ncl) && fat[ncl] == 0
    && (clst == 0 || InRange(fat, clst))
    && fat' == if clst == 0 then fat[ncl := eoc] else fat[ncl := eoc][clst := ncl]
  }

  ghost predicate NoFree(fat: Fat) { forall c: nat :: InRange(fat, c) ==> fat[c] != 0 }

  /** Some entry holds the reserved value 1, the internal-error code. */
  ghost predicate HasReserved(fat: Fat) { exists c: nat :: InRange(fat, c) && fat[c] == INTERNAL_ERROR }

  function Free(fat: Fat): nat { CountFree(fat, |fat|) }

  lemma NoneFree(fat: Fat)
    ensures NoFree(fat) <==> Free(fat) == 0
  {
    CountFreeZero(fat, |fat|);
  }

  /** What create_chain answers and does, by the state of the FAT. */
  ghost predicate Created(fat: Fat, fat': Fat, clst: nat, r: nat, eoc: nat) {
    if clst != 0 && (!InRange(fat, clst) || fat[clst] < 2) then r == INTERNAL_ERROR && fat' == fat
    else if clst != 0 && fat[clst] < |fat| then r == fat[clst] && fat' == fat
    else if r == 0 then NoFree(fat) && fat' == fat
    else if r == INTERNAL_ERROR then HasReserved(fat) && fat' == fat
    else Linked(fat, fat', clst, r, eoc)
  }

  /** A cluster that is linked is one free cluster less. */
  lemma LinkedTakesOne(fat: Fat, fat': Fat, clst: nat, ncl: nat, eoc: nat)
    requires Linked(fat, fat', clst, ncl, eoc) && eoc >= 2 && (clst != 0 ==> fat[clst] >= 2)
    ensures Free(fat) == Free(fat') + 1 && (HasReserved(fat) <==> HasReserved(fat'))
  {
    CountFreeUpdate(fat, |fat|, ncl, eoc);
    if clst != 0 { CountFreeUpdate(fat[ncl := eoc], |fat|, clst, ncl); }
    SameReserved(fat, fat');
  }

  lemma SameReserved(fat: Fat, fat': Fat)
    requires |fat| == |fat'|
    requires forall c: nat :: InRange(fat, c) ==> (fat[c] == INTERNAL_ERROR <==> fat'[c] == INTERNAL_ERROR)
    ensures HasReserved(fat) <==> HasReserved(fat')
  {
    if HasReserved(fat) {
      var c: nat :| InRange(fat, c) && fat[c] == INTERNAL_ERROR;
      assert InRange(fat', c);
    }
    if HasReserved(fat') {
      var c: nat :| InRange(fat', c) && fat'[c] == INTERNAL_ERROR;
      assert InRange(fat, c);
    }
  }

  /** Stretching the end of a chain appends the new cluster to it. */
  lemma LinkedExtends(fat: Fat, fat': Fat, chain: seq<nat>, ncl: nat, eoc: nat)
    requires IsChain(fat, chain) && eoc >= |fat|
    requires Linked(fat, fat', chain[|chain| - 1], ncl, eoc)
    ensures IsChain(fat', chain + [ncl])
  {
    ChainIsAcyclic(fat, chain);
    var chain' := chain + [ncl];
    forall i | 0 <= i < |chain| ensures chain[i] != ncl { ChainInUse(fat, chain, i); }
    forall i | 0 <= i < |chain'| - 1 ensures fat'[chain'[i]] == chain'[i + 1] {
      if i < |chain| - 1 { assert fat[chain[i]] == chain[i + 1]; }
    }
  }

  lemma LinkedStarts(fat: Fat, fat': Fat, ncl: nat, eoc: nat)
    requires Linked(fat, fat', 0, ncl, eoc) && eoc >= |fat|
    ensures IsChain(fat', [ncl])
  {
  }

  /** Every chain that does not contain the touched clusters stays a chain. */
  lemma ChainKept(fat: Fat, fat': Fat, chain: seq<nat>)
    requires IsChain(fat, chain) && |fat'| == |fat|
    requires forall i :: 0 <= i < |chain| ==> fat'[chain[i]] == fat[chain[i]]
    ensures IsChain(fat', chain)
  {
  }

  // --- remove_chain ---------------------------------------------------------

  datatype Walked = Walked(fat: Fat, ok: bool)

  /** The loop of remove_chain: free entries from `clst` along the links. */
  function Walk(fat: Fat, clst: nat): (w: Walked)
    requires InRange(fat, clst)
    ensures |w.fat| == |fat|
    decreases |fat| - CountFree(fat, |fat|)
  {
    CountFreeUpdate(fat, |fat|, clst, 0);
    var nxt := fat[clst];
    if nxt == 0 then Walked(fat, true)
    else if nxt == INTERNAL_ERROR then Walked(fat, false)
    else if nxt < |fat| then Walk(fat[clst := 0], nxt)
    else Walked(fat[clst := 0], true)
  }

  /** Entries of `chain` become free, all others are as before. */
  ghost predicate Freed(fat: Fat, fat': Fat, chain: seq<nat>) {
    && |fat'| == |fat|
    && forall c: nat :: c < |fat| ==> fat'[c] == if c in chain then 0 else fat[c]
  }

  /** On a well-formed chain the walk frees exactly that chain. */
  lemma {:induction false} WalkFreesChain(fat: Fat, chain: seq<nat>)
    requires IsChain(fat, chain)
    ensures Walk(fat, chain[0]).ok
    ensures Freed(fat, Walk(fat, chain[0]).fat, chain) && Free(Walk(fat, chain[0]).fat) == Free(fat) + |chain|
    decreases |chain|
  {
    ChainIsAcyclic(fat, chain);
    ChainInUse(fat, chain, 0);
    var c := chain[0];
    CountFreeUpdate(fat, |fat|, c, 0);
    if |chain| > 1 {
      var rest := chain[1..];
      var fat1 := fat[c := 0];
      forall i | 0 <= i < |rest| - 1 ensures fat1[rest[i]] == rest[i + 1] {
        assert fat[chain[i + 1]] == chain[i + 2];
      }
      WalkFreesChain(fat1, rest);
      assert chain == [c] + rest;
      assert fat[chain[0]] == chain[1];
    }
  }

  /** Whatever the FAT contains, cycles included, the walk ends (each step
      lowers the number of entries in use) and writes nothing but zeros. */
  lemma {:induction false} WalkOnlyFrees(fat: Fat, clst: nat, c: nat)
    requires InRange(fat, clst) && c < |fat|
    ensures Walk(fat, clst).fat[c] == fat[c] || Walk(fat, clst).fat[c] == 0
    decreases |fat| - CountFree(fat, |fat|)
  {
    CountFreeUpdate(fat, |fat|, clst, 0);
    var nxt := fat[clst];
    if nxt != 0 && nxt != INTERNAL_ERROR && nxt < |fat| {
      WalkOnlyFrees(fat[clst := 0], nxt, c);
    }
  }

  /** The FAT after remove_chain(clst, pclst) has walked. */
  function Removed(fat: Fat, clst: nat, pclst: nat, eoc: nat): (w: Walked)
    requires InRange(fat, clst) && (pclst == 0 || InRange(fat, pclst))
  {
    Walk(if pclst == 0 then fat else fat[pclst := eoc], clst)
  }

  /** Cutting a chain at position k frees exactly the suffix and leaves the
      prefix a chain; cutting it at 0 frees it all. */
  lemma RemoveCutsChain(fat: Fat, chain: seq<nat>, k: nat, eoc: nat)
    requires IsChain(fat, chain) && k < |chain| && eoc >= |fat|
    ensures var w := Removed(fat, chain[k], if k == 0 then 0 else chain[k - 1], eoc);
            && w.ok
            && |w.fat| == |fat|
            && (forall c: nat :: c < |fat| ==>
                 w.fat[c] == if c in chain[k..] then 0
                             else if k > 0 && c == chain[k - 1] then eoc else fat[c])
            && (k > 0 ==> IsChain(w.fat, chain[..k]))
            && Free(w.fat) == Free(fat) + |chain[k..]|
  {
    ChainIsAcyclic(fat, chain);
    var pclst := if k == 0 then 0 else chain[k - 1];
    var fat1 := if k == 0 then fat else fat[pclst := eoc];
    var tail := chain[k..];
    forall i | 0 <= i < |tail| - 1 ensures fat1[tail[i]] == tail[i + 1] {
      assert fat[chain[k + i]] == chain[k + i + 1];
    }
    WalkFreesChain(fat1, tail);
    if k > 0 { CountFreeUpdate(fat, |fat|, pclst, eoc); }
    var w := Removed(fat, chain[k], pclst, eoc);
    if k > 0 {
      var head := chain[..k];
      forall i | 0 <= i < |head| ensures head[i] !in tail {
        forall j | 0 <= j < |tail| ensures tail[j] != head[i] {
          assert chain[i] != chain[k + j];
        }
      }
      forall i | 0 <= i < |head| - 1 ensures w.fat[head[i]] == head[i + 1] {
        assert fat[chain[i]] == chain[i + 1];
      }
    }
  }

  /** `fat'` is the FAT after `chain` has been cut at position k. */
  ghost predicate CutAt(fat: Fat, fat': Fat, chain: seq<nat>, k: nat, eoc: nat)
    requires IsChain(fat, chain) && k <= |chain|
  {
    if k == |chain| then fat' == fat
    else fat' == Removed(fat, chain[k], if k == 0 then 0 else chain[k - 1], eoc).fat
  }

  lemma CutFacts(fat: Fat, fat': Fat, chain: seq<nat>, k: nat, eoc: nat)
    requires IsChain(fat, chain) && k <= |chain| && eoc >= |fat| && CutAt(fat, fat', chain, k, eoc)
    ensures |fat'| == |fat|
    ensures k > 0 ==> IsChain(fat', chain[..k])
    ensures forall c: nat :: c in chain[k..] ==> InRange(fat', c) && fat'[c] == 0
    ensures forall c: nat :: c < |fat| && c !in chain ==> fat'[c] == fat[c]
    ensures Free(fat') + k == Free(fat) + |chain| && (HasReserved(fat) <==> HasReserved(fat'))
  {
    if k == |chain| {
      assert chain[..k] == chain;
    } else {
      RemoveCutsChain(fat, chain, k, eoc);
      forall c: nat | InRange(fat, c) ensures fat[c] == INTERNAL_ERROR <==> fat'[c] == INTERNAL_ERROR {
        if c in chain {
          var i :| 0 <= i < |chain| && chain[i] == c;
          ChainInUse(fat, chain, i);
          if i < k {
            assert chain[..k][i] == c;
            ChainInUse(fat', chain[..k], i);
          } else {
            assert chain[k..][i - k] == c;
          }
        }
      }
      SameReserved(fat, fat');
    }
  }

  /** remove_chain at a cluster of a chain meets no bad entry. */
  lemma CutSucceeds(fat: Fat, chain: seq<nat>, k: nat, eoc: nat)
    requires IsChain(fat, chain) && k < |chain| && eoc >= |fat|
    ensures Removed(fat, chain[k], if k == 0 then 0 else chain[k - 1], eoc).ok
  {
    RemoveCutsChain(fat, chain, k, eoc);
  }

  // --- the volume invariant -------------------------------------------------

  /** All chains of the volume: each ends at an end mark, no two share a
      cluster. */
  ghost predicate ChainSet(fat: Fat, chains: seq<seq<nat>>) {
    && (forall i :: 0 <= i < |chains| ==> IsChain(fat, chains[i]))
    && (forall i, j :: 0 <= i < j < |chains| ==> Disjoint(chains[i], chains[j]))
  }

  /** create_chain(0): one more chain. */
  lemma NewChainKeeps(fat: Fat, fat': Fat, chains: seq<seq<nat>>, ncl: nat, eoc: nat)
    requires ChainSet(fat, chains) && Linked(fat, fat', 0, ncl, eoc) && eoc >= |fat|
    ensures ChainSet(fat', chains + [[ncl]])
  {
    forall i | 0 <= i < |chains| ensures IsChain(fat', chains[i]) && Disjoint(chains[i], [ncl]) {
      NotInChain(fat, chains[i], ncl);
      ChainKept(fat, fat', chains[i]);
    }
  }

  lemma NotInChain(fat: Fat, chain: seq<nat>, c: nat)
    requires IsChain(fat, chain) && InRange(fat, c) && fat[c] == 0
    ensures forall i :: 0 <= i < |chain| ==> chain[i] != c
  {
    forall i | 0 <= i < |chain| ensures chain[i] != c { ChainInUse(fat, chain, i); }
  }

  /** create_chain at the end of chain k: that chain grows by one cluster. */
  lemma StretchKeeps(fat: Fat, fat': Fat, chains: seq<seq<nat>>, k: nat, ncl: nat, eoc: nat)
    requires ChainSet(fat, chains) && k < |chains| && eoc >= |fat|
    requires Linked(fat, fat', chains[k][|chains[k]| - 1], ncl, eoc)
    ensures ChainSet(fat', chains[k := chains[k] + [ncl]])
  {
    var last := chains[k][|chains[k]| - 1];
    LinkedExtends(fat, fat', chains[k], ncl, eoc);
    forall i | 0 <= i < |chains| && i != k ensures IsChain(fat', chains[i]) && Disjoint(chains[i], chains[k] + [ncl]) {
      NotInChain(fat, chains[i], ncl);
      assert if i < k then Disjoint(chains[i], chains[k]) else Disjoint(chains[k], chains[i]);
      ChainKept(fat, fat', chains[i]);
    }
    var chains' := chains[k := chains[k] + [ncl]];
    forall i, j | 0 <= i < j < |chains'| ensures Disjoint(chains'[i], chains'[j])
    {
      if i != k && j != k { assert Disjoint(chains[i], chains[j]); }
    }
  }

  /** remove_chain cutting chain k at position p > 0: the chain shrinks. */
  lemma CutKeeps(fat: Fat, chains: seq<seq<nat>>, k: nat, p: nat, eoc: nat)
    requires ChainSet(fat, chains) && k < |chains| && 0 < p < |chains[k]| && eoc >= |fat|
    ensures ChainSet(Removed(fat, chains[k][p], chains[k][p - 1], eoc).fat, chains[k := chains[k][..p]])
  {
    RemoveCutsChain(fat, chains[k], p, eoc);
    var fat' := Removed(fat, chains[k][p], chains[k][p - 1], eoc).fat;
    forall i | 0 <= i < |chains| && i != k ensures IsChain(fat', chains[i]) && Disjoint(chains[i], chains[k]) {
      assert if i < k then Disjoint(chains[i], chains[k]) else Disjoint(chains[k], chains[i]);
      ChainKept(fat, fat', chains[i]);
    }
    var chains' := chains[k := chains[k][..p]];
    forall i, j | 0 <= i < j < |chains'| ensures Disjoint(chains'[i], chains'[j])
    {
      if i != k && j != k { assert Disjoint(chains[i], chains[j]); }
    }
  }

  /** remove_chain of all of chain k: the chain disappears. */
  lemma RemoveKeeps(fat: Fat, chains: seq<seq<nat>>, k: nat, eoc: nat)
    requires ChainSet(fat, chains) && k < |chains| && eoc >= |fat|
    ensures ChainSet(Removed(fat, chains[k][0], 0, eoc).fat, chains[..k] + chains[k + 1..])
  {
    RemoveCutsChain(fat, chains[k], 0, eoc);
    assert chains[k][0..] == chains[k];
    var fat' := Removed(fat, chains[k][0], 0, eoc).fat;
    forall i | 0 <= i < |chains| && i != k ensures IsChain(fat', chains[i]) {
      assert if i < k then Disjoint(chains[i], chains[k]) else Disjoint(chains[k], chains[i]);
      ChainKept(fat, fat', chains[i]);
    }
  }
}
