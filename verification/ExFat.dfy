/** One open file on an exFAT volume: allocation status, FAT and bitmap through
    stretching, seeking, truncating and synchronising. */
module ExFat {
  import opened Bytes
  import opened ExBitmap
  import opened ExChain
  import opened ExCursor

  /** The allocation part of a directory entry. */
  datatype Entry = Entry(stat: nat, sclust: nat, size: nat)

  /** What the mounted volume gives to a file that is opened. */
  datatype Volume = Volume(n: nat, csize: nat, bits: array<byte>, fat: seq<nat>, freeClst: nat, lastClst: nat)

  /** Everything the allocation of one file is made of: the volume's FAT and
      bitmap, the clusters of the file, those of other objects, those taken
      (the others' and lost ones), the status of the chain, the free count. */
  datatype State = State(
    n: nat, fat: seq<nat>, bits: seq<byte>, chain: seq<nat>, others: set<nat>, taken: set<nat>,
    stat: nat, nCont: nat, nFrag: nat, freeClst: nat)

  /** Chain, status, FAT, bitmap and free count agree. Clusters are lost only on
      the one volume that has a cluster numbered just below the end mark; the
      free count counts them as free. */
  ghost predicate Alloc(s: State) {
    && 2 < s.n <= EOC && |s.fat| == s.n
    && Clean(s.chain, s.taken, s.n) && BitmapShows(s.bits, s.n, s.chain, s.taken)
    && Status(s.fat, s.chain, s.stat, s.nCont, s.nFrag)
    && s.others <= s.taken && (s.taken == s.others || EOC - 1 in s.taken - s.others)
    && Counted(s.freeClst, s.n, |s.chain| + |s.others|)
  }

  class ExFile {
    const n: nat                 // n_fatent
    const csize: nat
    const bits: array<byte>      // the allocation bitmap
    var fat: seq<nat>            // the FAT, 32-bit entries
    var freeClst: nat
    var lastClst: nat
    var sclust: nat
    var stat: nat
    var nCont: nat
    var nFrag: nat
    var objsize: nat
    var fptr: nat
    var clust: nat
    var modified: bool
    var entry: Entry             // the directory entry on the volume
    ghost var chain: seq<nat>    // the clusters create_chain handed out
    ghost const others: set<nat> // clusters of other objects
    ghost var taken: set<nat>    // these and the clusters that are lost
    ghost const firstFat: seq<nat> // the FAT when the file was opened

    ghost function Now(): State
      reads `fat, `freeClst, `stat, `nCont, `nFrag, `chain, `taken, bits
    {
      State(n, fat, bits[..], chain, others, taken, stat, nCont, nFrag, freeClst)
    }

    /** The invariant of the allocation. */
    ghost predicate Core()
      reads `fat, `freeClst, `stat, `nCont, `nFrag, `chain, `taken, bits
    {
      csize > 0 && Alloc(Now()) && OthersKept(firstFat, fat, others)
    }

    /** Clusters marked in the bitmap that belong to no object. */
    ghost function Lost(): set<nat>
      reads `taken
    {
      taken - others
    }

    /** fill_last_frag. */
    method FillLastFrag(lcl: nat, term: nat)
      requires nFrag > 0 ==> nFrag <= lcl < |fat|
      modifies `fat, `nFrag
      ensures nFrag == 0 && if old(nFrag) > 0 then Filled(old(fat), fat, lcl, old(nFrag), term) else fat == old(fat)
    {
      while nFrag > 0
        invariant nFrag <= old(nFrag) && |fat| == |old(fat)|
        invariant forall c: nat :: c < |fat| ==>
          fat[c] == if lcl - old(nFrag) < c <= lcl - nFrag then (if c < lcl then c + 1 else term) else old(fat)[c]
        decreases nFrag
      {
        var c := lcl - nFrag + 1;
        fat := fat[c := if nFrag > 1 then lcl - nFrag + 2 else term];
        nFrag := nFrag - 1;
      }
    }

    /** fill_first_frag. */
    method FillFirstFrag()
      requires stat == 3 ==> sclust + nCont <= |fat|
      modifies `fat, `stat
      ensures stat == if old(stat) == 3 then 0 else old(stat)
      ensures |fat| == |old(fat)|
      ensures forall c: nat :: c < |fat| ==>
        fat[c] == if old(stat) == 3 && sclust <= c < sclust + nCont then c + 1 else old(fat)[c]
    {
      if stat == 3 {
        var cl, k := sclust, nCont;
        while k > 0
          invariant 0 <= k <= nCont && cl == sclust + nCont - k && |fat| == |old(fat)|
          invariant forall c: nat :: c < |fat| ==> fat[c] == if sclust <= c < cl then c + 1 else old(fat)[c]
          decreases k
        {
          fat := fat[cl := cl + 1];
          cl, k := cl + 1, k - 1;
        }
        stat := 0;
      }
    }

    /** The part of create_chain that records the new cluster `ncl` after `clst`. */
    method Attach(clst: nat, ncl: nat)
      requires chain != [] && clst == chain[|chain| - 1] && sclust == chain[0] && |fat| <= EOC
      requires Clean(chain + [ncl], taken, |fat|) && Status(fat, chain, stat, nCont, nFrag)
      modifies `fat, `stat, `nCont, `nFrag
      ensures Status(fat, chain + [ncl], stat, nCont, nFrag) && |fat| == |old(fat)|
      ensures SameOutside(old(fat), fat, chain)
    {
      CleanPrefix(chain, ncl, taken, |fat|);
      EdgeInRange(fat, chain, taken, stat, nCont, nFrag);
      ghost var was, stat0, nCont0, nFrag0 := fat, stat, nCont, nFrag;
      hide Status, Clean, Consecutive, SameOutside, Filled;
      SameFat(was, chain);
      if stat == 2 && ncl != clst + 1 {
        WholePiece(fat, chain, nCont, nFrag);
        nCont := clst - sclust;
        stat := 3;
      }
      if ncl == clst + 1 {
        EdgeGrows(fat, chain, stat0, nCont0, nFrag0, ncl);
      }
      if stat != 2 {
        if ncl == clst + 1 {
          nFrag := if nFrag > 0 then nFrag + 1 else 2;
        } else {
          if nFrag == 0 { nFrag := 1; }
          FillLastFrag(clst, ncl);
          NewFragment(was, fat, chain, taken, stat0, nCont0, nFrag0, ncl);
          nFrag := 1;
        }
      }
    }

    /** The directory's and the size's view of the chain. */
    ghost predicate Sized()
      reads `sclust, `objsize, `chain
      requires csize > 0
    {
      sclust == (if chain == [] then 0 else chain[0]) && Clusters(objsize, csize) == |chain|
    }

    function Follow(clst: nat): nat
      reads `fat, `sclust, `objsize, `stat, `nCont, `nFrag
      requires csize > 0
    {
      GetFat(fat, sclust, objsize, stat, nCont, nFrag, csize, clst)
    }

    /** create_chain: the next cluster of the chain if there is one; else a free
        cluster, now in use and at its end; 0 only if none is free. */
    method CreateChain(clst: nat, ghost i: nat) returns (r: nat)
      requires Core()
      requires if clst == 0 then chain == []
        else Sized() && i < |chain| && clst == chain[i] && (nFrag != 0 ==> i == |chain| - 1)
      modifies `fat, `freeClst, `lastClst, `stat, `nCont, `nFrag, `chain, bits
      ensures Core() && (r == 0 || 2 <= r < n)
      ensures r == 0 ==>
        fat == old(fat) && stat == old(stat) && nFrag == old(nFrag) && nCont == old(nCont) && chain == old(chain)
      ensures r == 0 ==> Full()
      ensures clst != 0 && i + 1 < |old(chain)| ==>
        r == old(chain)[i + 1] && chain == old(chain) && fat == old(fat) && stat == old(stat) && nFrag == old(nFrag)
          && nCont == old(nCont)
      ensures r != 0 && (clst == 0 || i + 1 == |old(chain)|) ==>
        chain == old(chain) + [r] && r !in old(chain) && r !in taken
      ensures chain != old(chain) ==> Nearest(old(bits[..]), n, if clst == 0 then old(lastClst) else clst, r)
      ensures if chain == old(chain) then lastClst == old(lastClst) && freeClst == old(freeClst)
              else lastClst == r && freeClst == if old(freeClst) <= n - 2 then old(freeClst) - 1 else old(freeClst)
      ensures SameOutside(old(fat), fat, chain)
    {
      hide Alloc, SameOutside, Clusters, GetFat, OthersKept, Nearest, Full;
      var scl: nat;
      SameFat(fat, chain);
      r := 1;
      if clst == 0 {
        scl := lastClst;
        if scl == 0 || scl >= n {
          scl := 1;
          NoHint(bits[..], n, lastClst);
        }
      } else {
        AllocFollows(Now(), objsize, csize, i);
        var cs := Follow(clst);
        if cs < 2 { return; }
        if cs < n { return cs; }
        scl := clst;
      }
      r := NewCluster(clst, scl);
    }

    /** create_chain behind the last cluster, or for a new chain: the free cluster
        nearest to `scl`. */
    method NewCluster(clst: nat, scl: nat) returns (r: nat)
      requires Core()
      requires if clst == 0 then chain == [] else chain != [] && clst == chain[|chain| - 1] && sclust == chain[0]
      modifies `fat, `freeClst, `lastClst, `stat, `nCont, `nFrag, `chain, bits
      ensures Core() && (r == 0 || 2 <= r < n) && SameOutside(old(fat), fat, chain)
      ensures r == 0 ==> Full() && unchanged(this, bits)
      ensures r != 0 ==>
        && chain == old(chain) + [r] && r !in old(chain) && r !in taken && Nearest(old(bits[..]), n, scl, r)
        && lastClst == r && freeClst == if old(freeClst) <= n - 2 then old(freeClst) - 1 else old(freeClst)
    {
      hide Status, Clean, BitmapShows, SameOutside, Counted, OthersKept, Nearest;
      SameFat(fat, chain);
      ghost var bits0: seq<byte> := bits[..];
      ghost var start := ScanStart(scl, n - 2);
      BitmapCovers(bits0, n, chain, taken);
      if freeClst == 0 {
        AllUsed(Now(), start);
        return 0;
      }
      var ncl, pos := FindBitmap(bits, n, scl, 1);
      if ncl == 0 {
        AllUsed(Now(), start);
        return 0;
      }
      FoundIsNearest(bits0, n, scl, pos, ncl);
      FoundIsFree(bits0, start, n - 2, 1, pos, ncl - 2);
      r := TakeCluster(clst, ncl);
    }

    /** create_chain once the free cluster `ncl` is found. */
    method TakeCluster(clst: nat, ncl: nat) returns (r: nat)
      requires Core() && 2 <= ncl < n && (ncl - 2) / 8 < bits.Length && !Used(bits[..], ncl - 2)
      requires if clst == 0 then chain == [] else chain != [] && clst == chain[|chain| - 1] && sclust == chain[0]
      modifies `fat, `freeClst, `lastClst, `stat, `nCont, `nFrag, `chain, bits
      ensures Core() && r == ncl && chain == old(chain) + [ncl] && ncl !in old(chain) && ncl !in taken
      ensures lastClst == ncl && freeClst == if old(freeClst) <= n - 2 then old(freeClst) - 1 else old(freeClst)
      ensures SameOutside(old(fat), fat, chain)
    {
      hide Status, Clean, BitmapShows, SameOutside, Counted, Clusters, GetFat, OthersKept, Alloc;
      ghost var was := Now();
      Unused(was, ncl);
      SameFat(fat, chain);
      r := 1;
      var changed, done := ChangeBitmap(bits, ncl, 1, true);
      if !changed { return; }
      if clst == 0 {
        FirstStatus(fat, stat, nCont, nFrag, ncl);
        stat := 2;
      } else {
        Attach(clst, ncl);
      }
      lastClst := ncl;
      if freeClst <= n - 2 { freeClst := freeClst - 1; }
      chain := chain + [ncl];
      Grown(was, Now(), ncl);
      OutsideMore(was.fat, fat, was.chain, ncl);
      OthersStay(firstFat, was.fat, fat, was.chain, others, taken);
      return ncl;
    }

    /** One run of the chain is marked free. */
    method FreeRun(scl: nat, ecl: nat, ghost k: nat, ghost a: nat, ghost b: nat) returns (ok: bool)
      requires Clean(chain, taken, n) && k <= a < b <= |chain| && Consecutive(chain, a, b) && n > 2
      requires scl == chain[a] && ecl == chain[a] + (b - a) - 1 && Freeing(bits[..], n, chain, taken, k, a)
      modifies bits
      ensures ok && Freeing(bits[..], n, chain, taken, k, b)
    {
      ghost var was: seq<byte> := bits[..];
      assert chain[b - 1] == ecl;
      InRange(chain, taken, n);
      var changed, done := ChangeBitmap(bits, scl, ecl - scl + 1, false);
      RunChanged(was, bits[..], n, chain, taken, k, a, b, changed, done);
      return changed;
    }

    /** The run goes on to the next cluster, or is freed and a new one begins. */
    method Turn(scl0: nat, ecl0: nat, nxt: nat, ghost k: nat, ghost a0: nat, ghost j: nat)
      returns (ok: bool, scl: nat, ecl: nat, ghost a: nat)
      requires Clean(chain, taken, n) && n > 2 && InRun(chain, k, a0, j) && Freeing(bits[..], n, chain, taken, k, a0)
      requires scl0 == chain[a0] && ecl0 == chain[j] && nxt == if j + 1 < |chain| then chain[j + 1] else EOC
      modifies bits
      ensures ok && ecl == nxt && k <= a <= j + 1 <= |chain| && Freeing(bits[..], n, chain, taken, k, a)
      ensures if j + 1 < |chain| then InRun(chain, k, a, j + 1) && scl == chain[a] else LastRun(chain, k, a)
    {
      RunStep(chain, k, a0, j);
      ok, scl, ecl, a := true, scl0, nxt, a0;
      hide Consecutive, InRun, LastRun, Clean, Freeing;
      if ecl0 + 1 != nxt {
        ok := FreeRun(scl0, ecl0, k, a0, j + 1);
        scl, a := nxt, j + 1;
      }
    }

    /** remove_chain's loop: frees the clusters from the k-th on, run by run. The
        clusters from the `left`-th on stay marked: the last run, exactly when
        the end mark is taken for the cluster behind it. */
    method FreeRuns(clst0: nat, ghost k: nat) returns (ok: bool, ghost left: nat)
      requires csize > 0 && k < |chain| && clst0 == chain[k] && sclust == chain[0] && 2 < n <= EOC
      requires Leads(Now(), objsize, csize, k)
      requires Clean(chain, taken, n) && BitmapShows(bits[..], n, chain, taken)
      requires Counted(freeClst, n, |chain| + |others|)
      modifies `freeClst, bits
      ensures ok && k <= left <= |chain| && Freeing(bits[..], n, chain, taken, k, left)
      ensures Counted(freeClst, n, k + |others|)
      ensures LastRun(chain, k, left)
      ensures old(freeClst) > n - 2 ==> freeClst == old(freeClst)
    {
      var clst, scl, ecl := clst0, clst0, clst0;
      ghost var a: nat, j: nat := k, k;
      ghost var now := Now();
      RemovalBegins(now, k);
      hide Clean, BitmapShows, Freeing, GetFat, Consecutive, LastRun, Counted, InRun;
      ok, left := false, k;
      while true
        invariant k <= a <= j < |chain| && clst == ecl == chain[j] && scl == chain[a] && InRun(chain, k, a, j)
        invariant Freeing(bits[..], n, chain, taken, k, a) && Counted(freeClst, n, |chain| - (j - k) + |others|)
        invariant old(freeClst) > n - 2 ==> freeClst == old(freeClst)
        decreases |chain| - j
      {
        assert LeadsOn(now, objsize, csize, j);
        assert Follow(chain[j]) == if j + 1 < |chain| then chain[j + 1] else EOC;
        var nxt := Follow(clst);
        if nxt == 0 { break; }
        if nxt == 1 { return; }
        CountedMore(freeClst, n, |chain| - (j - k) + |others|);
        if freeClst < n - 2 { freeClst := freeClst + 1; }
        var good;
        good, scl, ecl, a := Turn(scl, ecl, nxt, k, a, j);
        if !good { return; }
        clst := nxt;
        j := j + 1;
        if clst >= n { return true, a; }
      }
    }

    /** remove_chain as far as the FAT and the bitmap go. */
    method Release(clst: nat, pclst: nat, ghost k: nat) returns (ok: bool, ghost left: nat)
      requires Core() && Sized() && nFrag == 0
      requires k < |chain| && clst == chain[k] && pclst == if k == 0 then 0 else chain[k - 1]
      modifies `fat, `freeClst, bits
      ensures ok && k <= left <= |chain| && LastRun(chain, k, left)
      ensures Freeing(bits[..], n, chain, taken, k, left) && Counted(freeClst, n, k + |others|)
      ensures if k > 0 && stat != 2 then pclst < |old(fat)| && fat == old(fat)[pclst := END_MARK] else fat == old(fat)
      ensures OthersKept(firstFat, fat, others) && SameOutside(old(fat), fat, chain)
      ensures old(freeClst) > n - 2 ==> freeClst == old(freeClst)
    {
      ghost var was := Now();
      hide Clusters, Status, Clean, BitmapShows, Counted, GetFat, Freeing, SameOutside, Leads, OthersKept, LastRun;
      InRange(chain, taken, n);
      AllLead(was, objsize, csize, k);
      SameFat(fat, chain);
      if pclst != 0 && stat != 2 {
        StillLeads(was, objsize, csize, k);
        OneInside(fat, chain, k - 1, END_MARK);
        fat := fat[pclst := END_MARK];
      }
      OthersStay(firstFat, was.fat, fat, chain, others, taken);
      ok, left := FreeRuns(clst, k);
    }

    /** remove_chain: cuts the chain in front of its k-th cluster. All of the
        rest becomes free, but for the last run if that ends in the cluster
        below the end mark: this run is lost. */
    method RemoveChain(clst: nat, pclst: nat, ghost k: nat) returns (ok: bool, ghost left: nat)
      requires Core() && Sized() && nFrag == 0
      requires k < |chain| && clst == chain[k] && pclst == if k == 0 then 0 else chain[k - 1]
      modifies `fat, `freeClst, `stat, `chain, `taken, bits
      ensures ok && Core() && chain == old(chain)[..k] && SameOutside(old(fat), fat, old(chain))
      ensures k <= left <= |old(chain)| && LastRun(old(chain), k, left)
      ensures Lost() == old(Lost()) + Members(old(chain)[left..])
      ensures Lost() == old(Lost()) <==> !LosesRun(old(chain), k)
      ensures forall c :: c in Lost() - old(Lost()) ==> c in old(chain)[k..]
      ensures k == 0 ==> stat == 0
      ensures old(freeClst) > n - 2 ==> freeClst == old(freeClst)
    {
      ghost var was := Now();
      hide Clusters, Status, Clean, Alloc, Freeing, SameOutside, Consecutive, OthersKept, LastRun, LosesRun, Members;
      InVolume(was);
      ok, left := Release(clst, pclst, k);
      Settling(was, fat, k);
      chain := chain[..k];
      taken := taken + Members(was.chain[left..]);
      if pclst == 0 {
        stat := 0;
      } else {
        ok := Resettle(pclst, was.chain, was.taken);
      }
      CutAlloc(was, Now(), k, left);
    }

    /** The status after a cut: contiguous again where the rest is one piece. */
    method Resettle(pclst: nat, ghost whole: seq<nat>, ghost inUse: set<nat>) returns (ok: bool)
      requires csize > 0 && 2 < n <= EOC && |fat| == n && Clean(whole, inUse, n) && nFrag == 0
      requires chain != [] && chain <= whole && sclust == chain[0] && pclst == chain[|chain| - 1]
      requires stat in {0, 2, 3}
      requires stat == 2 ==> Status(fat, chain, 2, nCont, 0)
      requires stat == 0 ==>
        Status(fat, chain, 0, nCont, 0) && (Consecutive(whole, 0, |chain|) ==> Status(fat, chain, 2, nCont, 0))
      requires stat == 3 ==> Status(fat, chain, if chain[0] <= pclst <= chain[0] + nCont then 2 else 3, nCont, 0)
      modifies `stat
      ensures ok && Status(fat, chain, stat, nCont, nFrag)
      ensures old(stat) == 0 && Consecutive(chain, 0, |chain|) ==> stat == 2
    {
      if stat == 0 {
        var clst := sclust;
        ghost var i: nat := 0;
        CleanCut(whole, inUse, n, |chain|);
        assert whole[..|chain|] == chain;
        InRange(chain, inUse, n);
        FreeCount(chain, inUse, n);
        RunOne(chain, 0);
        hide Status, Clean, GetFat;
        while clst != pclst
          invariant stat == 0 && i < |chain| && clst == chain[i] == sclust + i && Consecutive(chain, 0, i + 1)
          decreases |chain| - i
        {
          GetFatFollows(fat, chain, inUse, objsize, stat, nCont, nFrag, csize, i);
          var nxt := Follow(clst);
          if nxt < 2 { return false; }
          if nxt != clst + 1 { break; }
          RunLonger(chain, 0, i);
          clst := clst + 1;
          i := i + 1;
        }
        if clst == pclst {
          LastOnce(chain, inUse, n, i);
          stat := 2;
        }
      } else {
        if stat == 3 && pclst >= sclust && pclst <= sclust + nCont { stat := 2; }
      }
      return true;
    }

    /** The file as it is between two calls. */
    ghost predicate Valid()
      reads this, bits
    {
      Core() && Started() && Cursor(chain, csize, objsize, fptr, clust, nFrag) && (modified || Recorded())
    }

    ghost predicate Started()
      reads `sclust, `chain
    {
      sclust == if chain == [] then 0 else chain[0]
    }

    /** The directory entry and the FAT describe the file. */
    ghost predicate Recorded()
      reads `entry, `stat, `sclust, `objsize, `nFrag
    {
      entry == Entry(stat, sclust, objsize) && stat != 3 && nFrag == 0
    }

    /** Every cluster of the volume is in use. */
    ghost predicate Full()
      reads `chain, `taken
    {
      forall c: nat :: 2 <= c < n ==> c in chain || c in taken
    }

    /** f_open: the allocation from the directory entry. */
    constructor (v: Volume, entry: Entry, ghost chain: seq<nat>, ghost others: set<nat>, ghost taken: set<nat>)
      requires 2 < v.n <= EOC && v.csize > 0 && |v.fat| == v.n
      requires Clean(chain, taken, v.n) && BitmapShows(v.bits[..], v.n, chain, taken)
      requires others <= taken && (taken == others || EOC - 1 in taken - others)
      requires Counted(v.freeClst, v.n, |chain| + |others|)
      requires entry.stat in {0, 2} && OnDisk(v.fat, chain, entry.stat)
      requires entry.sclust == (if chain == [] then 0 else chain[0]) && Clusters(entry.size, v.csize) == |chain|
      ensures Valid() && !modified && fptr == 0 && this.chain == chain && this.others == others && this.taken == taken
      ensures bits == v.bits && n == v.n && firstFat == v.fat && objsize == entry.size
    {
      n, csize, bits, fat, freeClst, lastClst := v.n, v.csize, v.bits, v.fat, v.freeClst, v.lastClst;
      this.sclust, this.stat, this.objsize, this.entry := entry.sclust, entry.stat, entry.size, entry;
      nCont, nFrag, fptr, clust, modified := 0, 0, 0, 0, false;
      this.chain, this.others, this.taken, firstFat := chain, others, taken, v.fat;
    }

    /** At the end of a cluster: the next one, or a new one. */
    method EnterCluster() returns (ok: bool)
      requires Core() && Started() && Cursor(chain, csize, objsize, fptr, clust, nFrag) && InCluster(fptr, csize) == 0
      modifies `fat, `freeClst, `lastClst, `stat, `nCont, `nFrag, `chain, `sclust, `clust, bits
      ensures Core() && Started() && old(chain) <= chain
      ensures ok ==> IndexOf(fptr, csize) < |chain| && clust == chain[IndexOf(fptr, csize)]
      ensures ok ==>
        if IndexOf(fptr, csize) < |old(chain)| then chain == old(chain) && nFrag == old(nFrag)
          else |chain| == |old(chain)| + 1
      ensures !ok ==> Full() && chain == old(chain) && clust == old(clust) && nFrag == old(nFrag) && fptr == objsize
    {
      hide Clusters, IndexOf, InCluster, Span, ClusterBytes, Alloc, SameOutside, OthersKept, Cursor, Full;
      CursorFacts(chain, csize, objsize, fptr, clust, nFrag);
      ghost var i: nat := IndexOf(fptr, csize);
      Split(fptr, csize);
      BeforeBoundary(chain, csize, objsize, fptr, clust, nFrag, i);
      if fptr == 0 { TopOfFile(chain, csize, objsize, fptr, clust, nFrag, i); }
      if fptr == 0 {
        var c := sclust;
        if c == 0 {
          FirstInRange(Now());
          c := CreateChain(0, 0);
        }
        if c == 0 { return false; }
        clust := c;
        if sclust == 0 { sclust := c; }
        return true;
      } else {
        ok := FollowOrStretch(i - 1);
      }
    }

    /** One round of f_write's loop: into the next cluster if the pointer is at
        the end of one, then on by what fits in it. 0 bytes only on a full volume. */
    method WriteRound(left: nat) returns (w: nat)
      requires Core() && Started() && Cursor(chain, csize, objsize, fptr, clust, nFrag) && left > 0
      modifies `fat, `freeClst, `lastClst, `stat, `nCont, `nFrag, `chain, `sclust, `clust, `fptr, `objsize, bits
      ensures Core() && Started() && Cursor(chain, csize, objsize, fptr, clust, nFrag)
      ensures w <= left && fptr == old(fptr) + w && objsize == Max(old(objsize), fptr) && old(chain) <= chain
      ensures w == 0 ==> Full() && chain == old(chain) && fptr == objsize
    {
      hide Core, Full, Cursor, Clusters, IndexOf, InCluster, Started, ClusterBytes;
      ghost var was, clust0, nFrag0 := chain, clust, nFrag;
      CursorFacts(chain, csize, objsize, fptr, clust, nFrag);
      if InCluster(fptr, csize) == 0 {
        Split(fptr, csize);
        var ok := EnterCluster();
        if !ok { return 0; }
        w := if left < ClusterBytes(csize) then left else ClusterBytes(csize);
        MoveNext(was, chain, csize, objsize, fptr, clust0, nFrag0, nFrag, w);
        Advance(w);
      } else {
        Split(fptr, csize);
        var room := ClusterBytes(csize) - InCluster(fptr, csize);
        w := if left < room then left else room;
        MoveInside(chain, csize, objsize, fptr, clust, nFrag, w);
        Advance(w);
      }
    }

    method Advance(w: nat)
      requires csize > 0
      modifies `fptr, `objsize
      ensures fptr == old(fptr) + w && objsize == Max(old(objsize), fptr)
    {
      fptr := fptr + w;
      objsize := if fptr > objsize then fptr else objsize;
    }

    /** f_write as far as the allocation goes: all of it, or up to where the
        volume is full. */
    method Write(btw: nat) returns (bw: nat)
      requires Valid()
      modifies `fat, `freeClst, `lastClst, `stat, `nCont, `nFrag, `chain, `sclust, `clust, `fptr, `objsize, `modified
      modifies bits
      ensures Valid() && old(chain) <= chain && bw <= btw && (bw < btw ==> Full() && fptr == objsize)
      ensures fptr == old(fptr) + bw && objsize == Max(old(objsize), fptr)
      ensures modified
    {
      hide Cursor, Core, Full, Recorded, Clusters, IndexOf;
      bw := 0;
      CursorFacts(chain, csize, objsize, fptr, clust, nFrag);
      while bw < btw
        invariant Core() && Started() && Cursor(chain, csize, objsize, fptr, clust, nFrag)
        invariant bw <= btw && fptr == old(fptr) + bw && objsize == Max(old(objsize), fptr) && old(chain) <= chain
        decreases btw - bw
      {
        var w := WriteRound(btw - bw);
        if w == 0 { break; }
        bw := bw + w;
      }
      modified := true;
    }

    /** fill_last_frag as f_lseek and f_sync call it: the FAT then ends the chain. */
    method EndEdge()
      requires Core() && Cursor(chain, csize, objsize, fptr, clust, nFrag)
      modifies `fat, `nFrag
      ensures Core() && Cursor(chain, csize, objsize, fptr, clust, nFrag) && nFrag == 0
      ensures old(nFrag) == 0 ==> fat == old(fat)
      ensures SameOutside(old(fat), fat, chain)
    {
      ghost var was, nFrag0 := fat, nFrag;
      if nFrag > 0 {
        EdgeIsLast(chain, csize, objsize, fptr, clust, nFrag);
        EdgeInRange(fat, chain, taken, stat, nCont, nFrag);
      }
      hide Status, Clean, BitmapShows, Filled, Clusters, IndexOf, SameOutside, OthersKept;
      FillLastFrag(clust, END_MARK);
      if nFrag0 > 0 {
        EdgeEnded(was, fat, chain, taken, stat, nCont, nFrag0);
        EdgeOnly(was, fat, chain, taken, stat, nCont, nFrag0, END_MARK);
        FilledLength(was, fat, clust, nFrag0, END_MARK);
        OthersStay(firstFat, was, fat, chain, others, taken);
      } else {
        SameFat(fat, chain);
      }
    }

    /** f_sync: afterwards the entry and the FAT describe the file. */
    method Sync()
      requires Valid()
      modifies `fat, `stat, `nFrag, `entry, `modified
      ensures Valid() && !modified && Recorded() && OnDisk(fat, chain, stat)
      ensures SameOutside(old(fat), fat, chain)
      ensures !old(modified) ==> unchanged(this)
    {
      SameFat(fat, chain);
      if modified { SyncModified(); }
      hide Cursor, SameOutside, OthersKept, Clean, Status, OnDisk, BitmapShows, Counted;
      SettledAlloc(Now());
    }

    method SyncModified()
      requires Valid()
      modifies `fat, `stat, `nFrag, `entry, `modified
      ensures Valid() && !modified && Recorded()
      ensures SameOutside(old(fat), fat, chain)
    {
      ghost var was, before := fat, Now();
      hide Cursor, SameOutside, OthersKept, Clean, BitmapShows, Counted, Status;
      FirstPieceInRange(before);
      hide Alloc;
      FillFirstFrag();
      if before.stat == 3 {
        FillFirst(before, fat);
        OthersStay(firstFat, was, fat, chain, others, taken);
      } else {
        SameFat(was, chain);
        assert fat == was;
      }
      ghost var mid := fat;
      EndEdge();
      OutsideTwice(was, mid, fat, chain);
      entry := Entry(stat, sclust, objsize);
      modified := false;
    }

    /** f_truncate of a file open for writing: the chain keeps the clusters the
        pointer has passed; the rest is free unless it ends in the cluster below
        the end mark. */
    method Truncate()
      requires Valid()
      modifies `fat, `freeClst, `stat, `chain, `taken, `sclust, `objsize, `modified, bits
      ensures Valid() && chain <= old(chain) && |chain| == Clusters(objsize, csize)
      ensures objsize == Min(old(objsize), fptr)
      ensures SameOutside(old(fat), fat, old(chain))
      ensures Lost() == old(Lost()) <==> !LosesRun(old(chain), |chain|)
      ensures forall c :: c in Lost() - old(Lost()) ==> c in old(chain)[|chain|..]
      ensures modified == (old(modified) || old(fptr < objsize)) && (old(fptr == objsize) ==> chain == old(chain))
      ensures old(freeClst) > n - 2 ==> freeClst == old(freeClst)
    {
      SameFat(fat, chain);
      CursorFacts(chain, csize, objsize, fptr, clust, nFrag);
      hide Core, Cursor, Clusters, SameOutside;
      if fptr < objsize { TruncateHere(); }
    }

    method TruncateHere()
      requires Valid() && fptr < objsize
      modifies `fat, `freeClst, `stat, `chain, `taken, `sclust, `objsize, `modified, bits
      ensures Valid() && chain <= old(chain) && |chain| == Clusters(objsize, csize) && objsize == fptr
      ensures SameOutside(old(fat), fat, old(chain))
      ensures Lost() == old(Lost()) <==> !LosesRun(old(chain), |chain|)
      ensures forall c :: c in Lost() - old(Lost()) ==> c in old(chain)[|chain|..]
      ensures modified
      ensures old(freeClst) > n - 2 ==> freeClst == old(freeClst)
    {
      hide Core, Cursor, Clusters, IndexOf, SameOutside, Lost, Recorded, LosesRun;
      CursorFacts(chain, csize, objsize, fptr, clust, nFrag);
      CutFacts(chain, csize, objsize, fptr, clust, nFrag);
      CutBehind(Clusters(fptr, csize));
      objsize := fptr;
      modified := true;
    }

    /** The calls of get_fat and remove_chain that f_truncate makes. */
    method CutBehind(ghost k: nat)
      requires Core() && Sized() && nFrag == 0 && chain != []
      requires if fptr == 0 then k == 0 else 0 < k <= |chain| && clust == chain[k - 1]
      modifies `fat, `freeClst, `stat, `chain, `taken, `sclust, bits
      ensures Core() && k <= |old(chain)| && chain == old(chain)[..k] && Started()
      ensures SameOutside(old(fat), fat, old(chain))
      ensures Lost() == old(Lost()) <==> !LosesRun(old(chain), k)
      ensures forall c :: c in Lost() - old(Lost()) ==> c in old(chain)[k..]
      ensures old(freeClst) > n - 2 ==> freeClst == old(freeClst)
    {
      hide Alloc, Clusters, SameOutside, OthersKept, LastRun, Lost;
      ghost var left: nat := 0;
      SameFat(fat, chain);
      var ok := true;
      if fptr == 0 {
        ok, left := RemoveChain(sclust, 0, 0);
        sclust := 0;
      } else {
        AllocFollows(Now(), objsize, csize, k - 1);
        var ncl := Follow(clust);
        if ncl < n { ok, left := RemoveChain(ncl, clust, k); }
      }
    }

    /** The file in the middle of a seek, at the beginning of its i-th cluster:
        a change is noted, or will be when the size is raised past here. */
    ghost predicate Seeking(i: nat)
      reads this, bits
    {
      && Core() && Started() && SeekAt(chain, csize, objsize, i, nFrag)
      && clust == chain[i] && fptr == Span(i, csize)
      && (modified || Recorded() || objsize <= Span(i, csize))
    }

    /** f_lseek, with or without write mode: the chain only grows; the pointer
        falls short of the offset only on a full volume, or at the end of a file
        not open for writing. */
    method Seek(ofs0: nat, write: bool)
      requires Valid()
      modifies `fat, `freeClst, `lastClst, `stat, `nCont, `nFrag, `chain, `sclust, `clust, `fptr, `objsize, `modified
      modifies bits
      ensures Valid() && old(chain) <= chain
      ensures objsize == if write then Max(old(objsize), fptr) else old(objsize)
      ensures fptr <= ofs0 && (fptr < ofs0 ==> fptr == objsize && (write ==> Full()))
      ensures !write ==> chain == old(chain)
      ensures modified == (old(modified) || objsize > old(objsize))
      ensures ofs0 <= old(objsize) ==> chain == old(chain)
    {
      EndEdge();
      CursorFacts(chain, csize, objsize, fptr, clust, nFrag);
      var ofs := ofs0;
      if ofs > objsize && !write { ofs := objsize; }
      if ofs == 0 {
        fptr := 0;
        return;
      }
      SeekFrom(ofs, write);
    }

    lemma PointerIn()
      ensures Valid() ==> csize > 0 && fptr <= objsize
    {
      if Valid() { CursorFacts(chain, csize, objsize, fptr, clust, nFrag); }
    }

    /** f_lseek to an offset it does not clip: from the current cluster if that is
        on the way, else from the first. */
    method SeekFrom(ofs: nat, write: bool)
      requires Valid() && nFrag == 0 && ofs > 0 && (!write ==> ofs <= objsize)
      modifies `fat, `freeClst, `lastClst, `stat, `nCont, `nFrag, `chain, `sclust, `clust, `fptr, `objsize, `modified
      modifies bits
      ensures Valid() && old(chain) <= chain && objsize == Max(old(objsize), fptr)
      ensures fptr <= ofs && (fptr < ofs ==> write && Full() && fptr == objsize)
      ensures !write ==> chain == old(chain)
      ensures modified == (old(modified) || objsize > old(objsize))
    {
      hide Seeking, Valid, IndexOf, InCluster, Full, ClusterBytes, Span, Cursor, Recorded;
      PointerIn();
      ghost var i: nat := 0;
      if fptr > 0 && IndexOf(ofs - 1, csize) >= IndexOf(fptr - 1, csize) {
        SameOrLater(ofs, fptr, csize);
        i := IndexOf(fptr - 1, csize);
        SeekBack(i);
      } else {
        var ok := SeekTop();
        if !ok { return; }
      }
      SeekLoop(ofs - fptr, write, i);
    }

    /** A seek from the current cluster: back to its beginning. */
    method SeekBack(ghost i: nat)
      requires Valid() && nFrag == 0 && fptr > 0 && i == IndexOf(fptr - 1, csize)
      modifies `fptr
      ensures Seeking(i) && fptr == Span(i, csize) < old(fptr)
    {
      hide Alloc, Cursor, SeekAt, Clusters, Span, IndexOf, InCluster, Core;
      CursorFacts(chain, csize, objsize, fptr, clust, nFrag);
      SeekFromHere(chain, csize, objsize, fptr, clust);
      fptr := fptr - 1 - InCluster(fptr - 1, csize);
    }

    /** A seek from the first cluster, which it creates if there is none. */
    method SeekTop() returns (ok: bool)
      requires Valid() && nFrag == 0
      modifies `fat, `freeClst, `lastClst, `stat, `nCont, `nFrag, `chain, `sclust, `clust, `fptr, bits
      ensures fptr == 0 && old(chain) <= chain
      ensures ok ==> Seeking(0) && (old(objsize) > 0 ==> chain == old(chain) && nFrag == 0)
      ensures !ok ==> Valid() && Full() && objsize == 0
    {
      CursorFacts(chain, csize, objsize, fptr, clust, nFrag);
      FirstInRange(Now());
      hide Alloc, Clusters, Span, IndexOf, SameOutside, SeekAt, OthersKept;
      fptr := 0;
      var clst := sclust;
      if clst == 0 {
        clst := CreateChain(0, 0);
        sclust := clst;
      }
      clust := clst;
      if clst == 0 { return false; }
      SeekFromTop(chain, csize, objsize, nFrag);
      return true;
    }

    /** One round of it in write mode: one cluster on, stretching the chain. */
    method SeekStretch(ghost i: nat) returns (more: bool)
      requires Seeking(i)
      modifies `fat, `freeClst, `lastClst, `stat, `nCont, `nFrag, `chain, `clust, `fptr, `objsize, `modified, bits
      ensures fptr == old(fptr) + ClusterBytes(csize) && objsize == Max(old(objsize), fptr) && old(chain) <= chain
      ensures if more then Seeking(i + 1) else Valid() && Full() && fptr == objsize
      ensures modified == (old(modified) || objsize > old(objsize))
    {
      SeekRaiseSize(i);
      hide Core, SeekAt, Span, ClusterBytes, Clusters, Cursor, Full, Seeking, Valid, Recorded;
      more := SeekNext(i);
    }

    /** Its second half: the next cluster of the chain, or a new one. */
    method SeekNext(ghost i: nat) returns (more: bool)
      requires Core() && Sized() && i < |chain| && clust == chain[i] && (modified || Recorded())
      requires fptr == Span(i + 1, csize)
      requires if i + 1 < |chain| then SeekAt(chain, csize, objsize, i + 1, nFrag) && nFrag == 0
        else objsize == Span(|chain|, csize)
      requires Cursor(chain, csize, objsize, fptr, clust, nFrag)
      modifies `fat, `freeClst, `lastClst, `stat, `nCont, `nFrag, `chain, `clust, bits
      ensures old(chain) <= chain
      ensures if more then Seeking(i + 1) else Valid() && Full() && fptr == objsize
    {
      hide SeekAt, Span, ClusterBytes, Clusters, IndexOf, Core, Cursor, Full, Recorded;
      CursorFacts(chain, csize, objsize, fptr, clust, nFrag);
      more := FollowOrStretch(i);
      if more && i + 1 == |old(chain)| { SeekExtended(chain, csize, i + 1, nFrag); }
    }

    /** create_chain on the i-th cluster, and on to the result. */
    method FollowOrStretch(ghost i: nat) returns (ok: bool)
      requires Core() && Sized() && i < |chain| && clust == chain[i] && (i + 1 < |chain| ==> nFrag == 0)
      modifies `fat, `freeClst, `lastClst, `stat, `nCont, `nFrag, `chain, `clust, bits
      ensures Core() && Started() && old(chain) <= chain
      ensures if ok then i + 1 < |chain| && clust == chain[i + 1] else Full() && clust == old(clust) && i + 1 == |chain|
      ensures if ok && i + 1 == |old(chain)| then |chain| == i + 2
              else chain == old(chain) && nFrag == old(nFrag) && (old(Recorded()) ==> Recorded())
    {
      hide Alloc, SameOutside, Clusters, Full, OthersKept;
      InVolume(Now());
      var clst := CreateChain(clust, i);
      if clst == 0 { return false; }
      clust := clst;
      return true;
    }

    /** The size is raised to the next cluster, so that it covers the chain; the
        file is in order there, should the volume be full. */
    method SeekRaiseSize(ghost i: nat)
      requires Seeking(i)
      modifies `fptr, `objsize, `modified
      ensures fptr == old(fptr) + ClusterBytes(csize) == Span(i + 1, csize) && objsize == Max(old(objsize), fptr)
      ensures Core() && Sized() && i < |chain| && clust == chain[i] && (modified || Recorded())
      ensures if i + 1 < |chain| then SeekAt(chain, csize, objsize, i + 1, nFrag) && nFrag == 0
        else objsize == Span(|chain|, csize)
      ensures Cursor(chain, csize, objsize, fptr, clust, nFrag)
      ensures modified == (old(modified) || objsize > old(objsize))
    {
      SeekFacts(chain, csize, objsize, i, nFrag);
      SeekRaise(chain, csize, objsize, i, nFrag);
      SpanGrows(i, csize);
      FullSeek(chain, csize, objsize, i, nFrag);
      hide SeekAt, Span, ClusterBytes, Clusters, Alloc, Cursor;
      fptr := fptr + ClusterBytes(csize);
      if fptr > objsize {
        objsize := fptr;
        modified := true;
      }
    }

    /** One round of it outside write mode: one cluster on. */
    method SeekFollow(ghost i: nat)
      requires Seeking(i) && fptr + ClusterBytes(csize) < objsize && nFrag == 0
      modifies `clust, `fptr
      ensures fptr == old(fptr) + ClusterBytes(csize) && Seeking(i + 1)
    {
      SeekFacts(chain, csize, objsize, i, nFrag);
      SeekRaise(chain, csize, objsize, i, nFrag);
      AllocFollows(Now(), objsize, csize, i);
      hide SeekAt, Span, ClusterBytes, Clusters, Alloc, GetFat;
      fptr := fptr + ClusterBytes(csize);
      clust := Follow(clust);
    }

    /** One round of it, with or without write mode. */
    method SeekRound(write: bool, ghost i: nat) returns (more: bool)
      requires Seeking(i) && (!write ==> fptr + ClusterBytes(csize) < objsize && nFrag == 0)
      modifies `fat, `freeClst, `lastClst, `stat, `nCont, `nFrag, `chain, `clust, `fptr, `objsize, `modified, bits
      ensures fptr == old(fptr) + ClusterBytes(csize) && objsize == Max(old(objsize), fptr) && old(chain) <= chain
      ensures if more then Seeking(i + 1) else write && Valid() && Full() && fptr == objsize
      ensures !write ==> chain == old(chain) && nFrag == 0
      ensures modified == (old(modified) || objsize > old(objsize))
    {
      hide Seeking, Valid, ClusterBytes, Full;
      more := true;
      if write { more := SeekStretch(i); } else { SeekFollow(i); }
    }

    lemma SeekingFacts(i: nat)
      ensures Seeking(i) ==> ClusterBytes(csize) > 0 && fptr <= objsize
    {
      if Seeking(i) { SeekFacts(chain, csize, objsize, i, nFrag); }
    }

    /** f_lseek's cluster following loop, from the beginning of the i-th cluster
        by `rest` bytes. */
    method SeekLoop(rest: nat, write: bool, ghost i0: nat)
      requires Seeking(i0) && 0 < rest && (!write ==> fptr + rest <= objsize && nFrag == 0)
      modifies `fat, `freeClst, `lastClst, `stat, `nCont, `nFrag, `chain, `clust, `fptr, `objsize, `modified, bits
      ensures Valid() && old(chain) <= chain
      ensures objsize == Max(old(objsize), fptr)
      ensures fptr <= old(fptr) + rest && (fptr < old(fptr) + rest ==> write && Full() && fptr == objsize)
      ensures !write ==> chain == old(chain)
      ensures modified == (old(modified) || objsize > old(objsize))
    {
      var ofs := rest;
      ghost var i := i0;
      hide Seeking, Valid, ClusterBytes, Full;
      SeekingFacts(i);
      while ofs > ClusterBytes(csize)
        invariant Seeking(i) && ofs > 0 && fptr + ofs == old(fptr) + rest
        invariant objsize == Max(old(objsize), fptr) && old(chain) <= chain
        invariant modified == (old(modified) || objsize > old(objsize))
        invariant !write ==> fptr + ofs <= objsize && nFrag == 0 && chain == old(chain)
        decreases ofs
      {
        ofs := ofs - ClusterBytes(csize);
        var more := SeekRound(write, i);
        if !more { return; }
        i := i + 1;
      }
      SeekRest(ofs, i);
    }

    /** The rest of a seek, inside the i-th cluster. */
    method SeekRest(ofs: nat, ghost i: nat)
      requires Seeking(i) && 0 < ofs <= ClusterBytes(csize)
      modifies `fptr, `objsize, `modified
      ensures Valid() && fptr == old(fptr) + ofs && objsize == Max(old(objsize), fptr)
      ensures modified == (old(modified) || objsize > old(objsize))
    {
      SeekFacts(chain, csize, objsize, i, nFrag);
      SeekEnd(chain, csize, objsize, i, nFrag, ofs);
      hide SeekAt, Span, ClusterBytes, Cursor;
      fptr := fptr + ofs;
      if fptr > objsize {
        objsize := fptr;
        modified := true;
      }
    }
  }

  lemma InVolume(s: State)
    requires Alloc(s)
    ensures forall i :: 0 <= i < |s.chain| ==> 2 <= s.chain[i] < s.n
  {
  }

  /** Out of space while seeking: the pointer stays at the end of the chain. */
  lemma FullSeek(chain: seq<nat>, csize: nat, objsize: nat, i: nat, nFrag: nat)
    requires SeekAt(chain, csize, objsize, i, nFrag)
    ensures Cursor(chain, csize, Max(objsize, Span(i + 1, csize)), Span(i + 1, csize), chain[i], nFrag)
  {
    IndexSpan(i, csize);
    SpanGrows(i, csize);
    SeekEnd(chain, csize, objsize, i, nFrag, ClusterBytes(csize));
  }

  lemma SeekFacts(chain: seq<nat>, csize: nat, objsize: nat, i: nat, nFrag: nat)
    requires SeekAt(chain, csize, objsize, i, nFrag)
    ensures csize > 0 && i < |chain| && Span(i, csize) <= objsize && (nFrag != 0 ==> i == |chain| - 1)
  {
    SpanMonotone(i, |chain| - 1, csize);
  }

  /** The offset is not in front of the current cluster. */
  lemma SameOrLater(ofs: nat, ifptr: nat, csize: nat)
    requires csize > 0 && ofs > 0 && ifptr > 0 && IndexOf(ofs - 1, csize) >= IndexOf(ifptr - 1, csize)
    ensures Span(IndexOf(ifptr - 1, csize), csize) < ofs
  {
    Split(ofs - 1, csize);
    SpanMonotone(IndexOf(ifptr - 1, csize), IndexOf(ofs - 1, csize), csize);
  }

  lemma FilledLength(was: seq<nat>, fat: seq<nat>, lcl: nat, k: nat, term: nat)
    requires Filled(was, fat, lcl, k, term)
    ensures |fat| == |was|
  {
  }

  lemma OutsideTwice(a: seq<nat>, b: seq<nat>, c: seq<nat>, chain: seq<nat>)
    requires SameOutside(a, b, chain) && SameOutside(b, c, chain)
    ensures SameOutside(a, c, chain)
  {
  }

  lemma FirstPieceInRange(s: State)
    requires Alloc(s)
    ensures s.stat == 3 ==> s.chain != [] && s.chain[0] + s.nCont < |s.fat|
    ensures s.stat in {0, 2, 3}
  {
    assert s.stat == 3 ==> s.chain[s.nCont] == s.chain[0] + s.nCont;
  }

  lemma FillFirst(s: State, fat: seq<nat>)
    requires Alloc(s) && s.stat == 3 && |fat| == |s.fat| && s.chain != []
    requires forall c: nat :: c < |fat| ==>
      fat[c] == if s.chain[0] <= c < s.chain[0] + s.nCont then c + 1 else s.fat[c]
    ensures Alloc(s.(fat := fat, stat := 0)) && SameOutside(s.fat, fat, s.chain)
    ensures Clean(s.chain, s.taken, |s.fat|)
  {
    FirstFilled(s.fat, fat, s.chain, s.taken, s.nCont, s.nFrag);
    forall c: nat | c < |fat| && s.chain[0] <= c < s.chain[0] + s.nCont ensures c in s.chain {
      assert s.chain[c - s.chain[0]] == c;
    }
  }

  lemma SettledAlloc(s: State)
    requires Alloc(s) && s.nFrag == 0 && s.stat != 3
    ensures OnDisk(s.fat, s.chain, s.stat)
  {
    SettledIsOnDisk(s.fat, s.chain, s.stat, s.nCont);
  }

  lemma FirstInRange(s: State)
    requires Alloc(s)
    ensures s.chain != [] ==> 2 <= s.chain[0] < s.n
  {
  }

  lemma TopOfFile(chain: seq<nat>, csize: nat, objsize: nat, fptr: nat, clust: nat, nFrag: nat, i: nat)
    requires Cursor(chain, csize, objsize, fptr, clust, nFrag) && fptr == 0 && i == IndexOf(fptr, csize)
    ensures nFrag == 0 && i == 0
  {
  }

  /** The links that remove_chain follows, from the k-th cluster on. */
  ghost predicate Leads(s: State, objsize: nat, csize: nat, k: nat)
    requires csize > 0
  {
    forall i: nat :: k <= i < |s.chain| ==> LeadsOn(s, objsize, csize, i)
  }

  /** The link that get_fat reads at the i-th cluster. */
  ghost predicate LeadsOn(s: State, objsize: nat, csize: nat, i: nat)
    requires csize > 0 && i < |s.chain|
  {
    GetFat(s.fat, s.chain[0], objsize, s.stat, s.nCont, s.nFrag, csize, s.chain[i])
    == if i + 1 < |s.chain| then s.chain[i + 1] else EOC
  }

  lemma AllLead(s: State, objsize: nat, csize: nat, k: nat)
    requires Alloc(s) && s.nFrag == 0 && csize > 0 && k < |s.chain|
    requires s.stat != 0 ==> Clusters(objsize, csize) == |s.chain|
    ensures Leads(s, objsize, csize, k) && s.stat in {0, 2, 3}
  {
    hide GetFat;
    forall i: nat | k <= i < |s.chain| ensures LeadsOn(s, objsize, csize, i) {
      AllocFollows(s, objsize, csize, i);
    }
  }

  lemma StillLeads(s: State, objsize: nat, csize: nat, k: nat)
    requires csize > 0 && Clean(s.chain, s.taken, |s.fat|) && 0 < k < |s.chain| && Leads(s, objsize, csize, k)
    ensures Leads(s.(fat := s.fat[s.chain[k - 1] := END_MARK]), objsize, csize, k)
  {
    var s' := s.(fat := s.fat[s.chain[k - 1] := END_MARK]);
    forall i: nat | k <= i < |s.chain| ensures LeadsOn(s', objsize, csize, i) {
      assert LeadsOn(s, objsize, csize, i);
    }
  }

  lemma OneInside(was: seq<nat>, chain: seq<nat>, i: nat, v: nat)
    requires i < |chain| && chain[i] < |was|
    ensures SameOutside(was, was[chain[i] := v], chain)
  {
  }

  lemma EmptyStatus(fat: seq<nat>, nCont: nat)
    ensures Status(fat, [], 0, nCont, 0)
  {
  }

  lemma CleanCut(chain: seq<nat>, others: set<nat>, n: nat, k: nat)
    requires Clean(chain, others, n) && k <= |chain|
    ensures Clean(chain[..k], others, n)
  {
  }

  lemma LastOnce(chain: seq<nat>, others: set<nat>, n: nat, i: nat)
    requires Clean(chain, others, n) && i < |chain| && chain[i] == chain[|chain| - 1]
    ensures i == |chain| - 1
  {
  }

  ghost function Members(s: seq<nat>): set<nat> { set c | c in s }

  /** The end mark is taken for the cluster behind the last one. */
  ghost predicate LosesRun(chain: seq<nat>, k: nat)
    requires k <= |chain|
  {
    k < |chain| && chain[|chain| - 1] + 1 == EOC
  }

  /** The last run of the clusters from the k-th on begins at `left`, if the end
      mark is taken for the cluster behind it; otherwise there is none left. */
  ghost predicate LastRun(chain: seq<nat>, k: nat, left: nat)
    requires k <= left <= |chain| && k < |chain|
  {
    if LosesRun(chain, k) then
      && left < |chain| && Consecutive(chain, left, |chain|)
      && (left > k ==> chain[left - 1] + 1 != chain[left])
    else left == |chain|
  }

  lemma CountedMore(freeClst: nat, n: nat, used: nat)
    requires Counted(freeClst, n, used) && used > 0 && n > 2
    ensures Counted(if freeClst < n - 2 then freeClst + 1 else freeClst, n, used - 1)
  {
  }

  lemma RemovalBegins(s: State, k: nat)
    requires k < |s.chain| && Clean(s.chain, s.taken, s.n) && BitmapShows(s.bits, s.n, s.chain, s.taken)
    ensures Freeing(s.bits, s.n, s.chain, s.taken, k, k) && InRun(s.chain, k, k, k)
    ensures forall i :: 0 <= i < |s.chain| ==> 2 <= s.chain[i] < s.n
  {
    FreeingStart(s.bits, s.n, s.chain, s.taken, k);
  }

  /** The j-th cluster lies in a run that begins with the a-th, cut at the k-th. */
  ghost predicate InRun(chain: seq<nat>, k: nat, a: nat, j: nat) {
    k <= a <= j < |chain| && Consecutive(chain, a, j + 1) && (a > k ==> chain[a - 1] + 1 != chain[a])
  }

  lemma RunStep(chain: seq<nat>, k: nat, a: nat, j: nat)
    requires InRun(chain, k, a, j)
    ensures Consecutive(chain, a, j + 1) && chain[j] == chain[a] + (j - a)
    ensures j + 1 < |chain| ==> InRun(chain, k, if chain[j + 1] == chain[j] + 1 then a else j + 1, j + 1)
    ensures j + 1 == |chain| ==> LastRun(chain, k, if chain[j] + 1 == EOC then a else j + 1)
  {
  }

  /** What the status says of a cut chain, whatever it was before. */
  lemma Settling(s: State, fat: seq<nat>, k: nat)
    requires Alloc(s) && s.nFrag == 0 && k < |s.chain|
    requires fat == if k > 0 && s.stat != 2 then s.fat[s.chain[k - 1] := END_MARK] else s.fat
    ensures Clean(s.chain, s.taken, s.n) && |fat| == s.n && s.stat in {0, 2, 3} && 2 < s.n <= EOC
    ensures k == 0 ==> Status(fat, s.chain[..k], 0, s.nCont, 0)
    ensures k > 0 && s.stat == 2 ==> Status(fat, s.chain[..k], 2, s.nCont, 0)
    ensures k > 0 && s.stat == 0 ==> Status(fat, s.chain[..k], 0, s.nCont, 0)
    ensures k > 0 && s.stat == 0 && Consecutive(s.chain, 0, k) ==> Status(fat, s.chain[..k], 2, s.nCont, 0)
    ensures k > 0 && s.stat == 3 ==>
      Status(fat, s.chain[..k], if s.chain[0] <= s.chain[k - 1] <= s.chain[0] + s.nCont then 2 else 3, s.nCont, 0)
  {
    if k == 0 { EmptyStatus(fat, s.nCont); } else { CutStatus(s.fat, fat, s.chain, s.taken, s.stat, s.nCont, k); }
  }

  /** The allocation after a removal. */
  lemma CutAlloc(s: State, s': State, k: nat, left: nat)
    requires Alloc(s) && k <= left <= |s.chain| && k < |s.chain| && LastRun(s.chain, k, left)
    requires s'.chain == s.chain[..k] && s'.taken == s.taken + Members(s.chain[left..])
    requires (s'.n, s'.others) == (s.n, s.others) && |s'.fat| == s.n
    requires Freeing(s'.bits, s.n, s.chain, s.taken, k, left) && Counted(s'.freeClst, s.n, k + |s.others|)
    requires Status(s'.fat, s'.chain, s'.stat, s'.nCont, s'.nFrag)
    ensures Alloc(s')
    ensures s'.taken - s.others == (s.taken - s.others) + Members(s.chain[left..])
    ensures s'.taken - s.others == s.taken - s.others <==> !LosesRun(s.chain, k)
    ensures forall c :: c in (s'.taken - s.others) - (s.taken - s.others) ==> c in s.chain[k..]
  {
    hide LosesRun, LastRun, Freeing, Clean, BitmapShows, Status, Members;
    FreedShows(s'.bits, s.n, s.chain, s.taken, k, left);
    LostRun(s.chain, s.others, s.taken, s.n, k, left);
  }

  /** Such a volume and file exist: one cluster, the last one of the volume. */
  lemma LastClusterLost() returns (s: State)
    ensures Alloc(s) && s.chain == [EOC - 1] && LosesRun(s.chain, 0)
  {
    var bits := Marked(0x1000_0000, EOC - 3, 1);
    s := State(EOC, seq(EOC, _ => 0), bits, [EOC - 1], {}, {}, 2, 0, 0, 0xFFFF_FFFF);
  }

  /** What remove_chain leaves marked joins the clusters taken. */
  lemma FreedShows(bits: seq<byte>, n: nat, chain: seq<nat>, taken: set<nat>, k: nat, left: nat)
    requires k <= left <= |chain| && Freeing(bits, n, chain, taken, k, left) && Clean(chain, taken, n)
    ensures BitmapShows(bits, n, chain[..k], taken + Members(chain[left..]))
    ensures Clean(chain[..k], taken + Members(chain[left..]), n)
  {
    CleanCut(chain, taken, n, k);
    var tail := chain[left..];
    forall c | c in tail ensures 2 <= c < n && c !in chain[..k] {
      var j :| 0 <= j < |tail| && tail[j] == c;
      assert chain[left + j] == c;
    }
  }

  /** The lost clusters grow by the last run, if that is left. */
  lemma LostRun(chain: seq<nat>, others: set<nat>, taken: set<nat>, n: nat, k: nat, left: nat)
    requires Clean(chain, taken, n) && others <= taken && (taken == others || EOC - 1 in taken - others)
    requires k <= left <= |chain| && k < |chain| && LastRun(chain, k, left)
    ensures var now := taken + Members(chain[left..]);
      && others <= now && (now == others || EOC - 1 in now - others)
      && now - others == (taken - others) + Members(chain[left..])
      && (now - others == taken - others <==> !LosesRun(chain, k))
      && forall c :: c in (now - others) - (taken - others) ==> c in chain[k..]
  {
    if left < |chain| {
      assert chain[|chain| - 1] == chain[left..][|chain| - 1 - left];
      assert chain[|chain| - 1] in Members(chain[left..]) && chain[|chain| - 1] !in taken;
    }
    forall c | c in chain[left..] ensures c !in others && c in chain[k..] {
      var j :| 0 <= j < |chain| - left && chain[left..][j] == c;
      assert chain[left + j] == c && chain[k..][left - k + j] == c;
    }
  }

  lemma InRange(chain: seq<nat>, others: set<nat>, n: nat)
    requires Clean(chain, others, n)
    ensures forall i :: 0 <= i < |chain| ==> 2 <= chain[i] < n
  {
  }

  lemma RunOne(chain: seq<nat>, j: nat)
    requires j < |chain|
    ensures Consecutive(chain, j, j + 1)
  {
  }

  lemma RunLonger(chain: seq<nat>, a: nat, j: nat)
    requires a <= j < |chain| && Consecutive(chain, a, j + 1)
    ensures j + 1 < |chain| && chain[j + 1] == chain[j] + 1 ==> Consecutive(chain, a, j + 2)
  {
  }

  /** change_bitmap frees a run of the chain without finding a clear bit. */
  lemma RunChanged(was: seq<byte>, bits: seq<byte>, n: nat, chain: seq<nat>, others: set<nat>, k: nat, a: nat, b: nat,
                   ok: bool, done: nat)
    requires Clean(chain, others, n) && k <= a < b <= |chain| && Consecutive(chain, a, b)
    requires Freeing(was, n, chain, others, k, a)
    requires Changed(was, bits, chain[a] - 2, done, false) && done <= b - a && (ok <==> done == b - a)
    requires !ok ==> Has(was, chain[a] - 2 + done, false)
    ensures ok && Freeing(bits, n, chain, others, k, b)
  {
    if ok {
      RunFreed(was, bits, n, chain, others, k, a, b);
    } else {
      RunBits(was, n, chain, others, k, a, b, chain[a] - 2 + done);
      assert false;
    }
  }

  lemma BitmapCovers(bits: seq<byte>, n: nat, chain: seq<nat>, others: set<nat>)
    requires BitmapShows(bits, n, chain, others)
    ensures n > 2 && Covers(bits, n - 2)
  {
  }

  lemma OutsideMore(was: seq<nat>, fat: seq<nat>, chain: seq<nat>, ncl: nat)
    requires SameOutside(was, fat, chain)
    ensures SameOutside(was, fat, chain + [ncl])
  {
  }

  lemma Unused(s: State, ncl: nat)
    requires Alloc(s) && 2 <= ncl < s.n && (ncl - 2) / 8 < |s.bits| && !Used(s.bits, ncl - 2)
    ensures ncl !in s.chain && ncl !in s.taken && Clean(s.chain + [ncl], s.taken, s.n) && s.freeClst != 0
    ensures |s.fat| == s.n <= EOC && Status(s.fat, s.chain, s.stat, s.nCont, s.nFrag)
    ensures Clean(s.chain, s.taken, s.n) && s.others <= s.taken && BitmapShows(s.bits, s.n, s.chain, s.taken)
  {
    FreeCount(s.chain, s.taken, s.n);
    Subset(s.others, s.taken);
  }

  lemma AllUsed(s: State, start: nat)
    requires Alloc(s)
    requires s.freeClst == 0 || (start < s.n - 2 && Covers(s.bits, s.n - 2)
        && NoRun(s.bits, start, s.n - 2, 1, s.n - 2))
    ensures forall c: nat :: 2 <= c < s.n ==> c in s.chain || c in s.taken
  {
    FreeCount(s.chain, s.taken, s.n);
    Subset(s.others, s.taken);
    if s.freeClst != 0 {
      forall c: nat | 2 <= c < s.n ensures c in s.chain || c in s.taken {
        OneFree(s.bits, start, s.n - 2, c - 2);
      }
    }
  }

  lemma Grown(s: State, s': State, ncl: nat)
    requires Alloc(s) && 2 <= ncl < s.n && (ncl - 2) / 8 < |s.bits| && !Used(s.bits, ncl - 2)
    requires s'.chain == s.chain + [ncl] && (s'.n, s'.others, s'.taken) == (s.n, s.others, s.taken) && |s'.fat| == s.n
    requires Changed(s.bits, s'.bits, ncl - 2, 1, true) && Status(s'.fat, s'.chain, s'.stat, s'.nCont, s'.nFrag)
    requires s'.freeClst == if s.freeClst <= s.n - 2 then s.freeClst - 1 else s.freeClst
    ensures Alloc(s')
  {
    Unused(s, ncl);
    BitSet(s.bits, s'.bits, s.n, s.chain, s.taken, ncl);
  }

  /** A hint out of range is as good as none. */
  lemma NoHint(bits: seq<byte>, n: nat, hint: nat)
    requires hint == 0 || hint >= n
    ensures forall c: nat :: Nearest(bits, n, 1, c) == Nearest(bits, n, hint, c)
  {
    forall c: nat ensures Nearest(bits, n, 1, c) == Nearest(bits, n, hint, c) {
      assert forall k: nat :: Steps(n, 1, k) == Steps(n, hint, k);
    }
  }

  /** The first cluster of a file makes a contiguous chain. */
  lemma FirstStatus(fat: seq<nat>, stat: nat, nCont: nat, nFrag: nat, ncl: nat)
    requires Status(fat, [], stat, nCont, nFrag)
    ensures Status(fat, [] + [ncl], 2, nCont, nFrag)
  {
  }

  lemma AllocFollows(s: State, objsize: nat, csize: nat, i: nat)
    requires Alloc(s) && csize > 0 && i < |s.chain| && (s.nFrag != 0 ==> i == |s.chain| - 1)
    requires s.stat != 0 ==> Clusters(objsize, csize) == |s.chain|
    ensures GetFat(s.fat, s.chain[0], objsize, s.stat, s.nCont, s.nFrag, csize, s.chain[i])
         == if i + 1 < |s.chain| then s.chain[i + 1] else EOC
    ensures 2 <= s.chain[i] < s.n <= EOC && (i + 1 < |s.chain| ==> 2 <= s.chain[i + 1] < s.n)
  {
    FreeCount(s.chain, s.taken, s.n);
    GetFatFollows(s.fat, s.chain, s.taken, objsize, s.stat, s.nCont, s.nFrag, csize, i);
  }

  /** free_clst is exact unless it is marked unknown. */
  predicate Counted(freeClst: nat, n: nat, used: nat) {
    freeClst <= n - 2 ==> freeClst + used == n - 2
  }

  /** The FAT entries of other clusters are as they were. */
  ghost predicate SameOutside(was: seq<nat>, fat: seq<nat>, chain: seq<nat>) {
    |fat| == |was| && forall c: nat :: c < |fat| && c !in chain ==> fat[c] == was[c]
  }

  /** The FAT entries of other objects are as they were. */
  ghost predicate OthersKept(was: seq<nat>, fat: seq<nat>, others: set<nat>) {
    |fat| == |was| && forall c: nat :: c in others && c < |fat| ==> fat[c] == was[c]
  }

  lemma OthersStay(firstFat: seq<nat>, was: seq<nat>, fat: seq<nat>, chain: seq<nat>, others: set<nat>, taken: set<nat>)
    requires OthersKept(firstFat, was, others) && SameOutside(was, fat, chain)
    requires Clean(chain, taken, |was|) && others <= taken
    ensures OthersKept(firstFat, fat, others)
  {
  }

  lemma SameFat(fat: seq<nat>, chain: seq<nat>)
    ensures SameOutside(fat, fat, chain)
  {
  }

  lemma EdgeInRange(fat: seq<nat>, chain: seq<nat>, others: set<nat>, stat: nat, nCont: nat, nFrag: nat)
    requires chain != [] && Clean(chain, others, |fat|) && Status(fat, chain, stat, nCont, nFrag)
    ensures 2 <= chain[|chain| - 1] < |fat| && nFrag < chain[|chain| - 1]
  {
    if nFrag > 0 { EdgeClusters(chain, nFrag, others, |fat|); }
  }

  lemma WholePiece(fat: seq<nat>, chain: seq<nat>, nCont: nat, nFrag: nat)
    requires chain != [] && Status(fat, chain, 2, nCont, nFrag)
    ensures nFrag == 0 && chain[|chain| - 1] == chain[0] + (|chain| - 1)
    ensures Status(fat, chain, 2, 0, nFrag)
  {
  }

  lemma NewFragment(was: seq<nat>, fat: seq<nat>, chain: seq<nat>, others: set<nat>, stat: nat, nCont: nat,
                    nFrag: nat, ncl: nat)
    requires chain != [] && |was| <= EOC && Clean(chain + [ncl], others, |was|)
    requires Status(was, chain, stat, nCont, nFrag)
    requires Filled(was, fat, chain[|chain| - 1], if nFrag == 0 then 1 else nFrag, ncl)
    ensures Status(fat, chain + [ncl], if stat == 2 then 3 else stat, if stat == 2 then |chain| - 1 else nCont, 1)
    ensures |fat| == |was| && SameOutside(was, fat, chain)
  {
    CleanPrefix(chain, ncl, others, |was|);
    EdgeOnly(was, fat, chain, others, stat, nCont, nFrag, ncl);
    if stat == 2 {
      BreaksOff(was, fat, chain, others, nFrag, ncl);
    } else {
      EdgeLinked(was, fat, chain, others, stat, nCont, nFrag, ncl);
    }
  }

  /** fill_last_frag writes entries of the chain only. */
  lemma EdgeOnly(was: seq<nat>, fat: seq<nat>, chain: seq<nat>, others: set<nat>, stat: nat, nCont: nat, nFrag: nat,
                 term: nat)
    requires chain != [] && Clean(chain, others, |was|) && Status(was, chain, stat, nCont, nFrag)
    requires Filled(was, fat, chain[|chain| - 1], if nFrag == 0 then 1 else nFrag, term)
    ensures SameOutside(was, fat, chain)
  {
    var k := if nFrag == 0 then 1 else nFrag;
    var last := chain[|chain| - 1];
    forall c: nat | c < |fat| && last - k < c <= last ensures c in chain {
      assert chain[|chain| - 1 - (last - c)] == c;
    }
  }

  // ---- whole runs ----

  datatype Request = Write(count: nat) | Seek(ofs: nat) | Truncate | Sync

  /** `count` is the number of bytes a write moved. */
  datatype Event = Event(request: Request, count: nat)

  /** What there is to see of an open file: size, position, clusters, the mark
      for f_sync, the directory entry, the status of the chain, and whether all
      clusters of the volume are in use. */
  datatype View = View(size: nat, pos: nat, chain: seq<nat>, marked: bool, entry: Entry, stat: nat, full: bool)

  ghost function ViewOf(f: ExFile): View
    reads f
  {
    View(f.objsize, f.fptr, f.chain, f.modified, f.entry, f.stat, f.Full())
  }

  /** The clusters are those the size needs; a file that is not marked is as its
      directory entry says. */
  ghost predicate InOrder(csize: nat, a: View) {
    && csize > 0 && a.pos <= a.size && Clusters(a.size, csize) == |a.chain|
    && (!a.marked ==> a.stat != 3 && a.entry == Entry(a.stat, if a.chain == [] then 0 else a.chain[0], a.size))
  }

  /** A write marks the file, a seek and a truncation mark it exactly when the
      size changes; a sync refreshes the entry of a marked file and clears the
      mark, and does nothing to another. */
  ghost predicate Step(csize: nat, a: View, e: Event, b: View) {
    && InOrder(csize, a) && InOrder(csize, b)
    && match e.request
       case Write(n) =>
         && b.marked && b.entry == a.entry && a.chain <= b.chain && e.count <= n
         && b.pos == a.pos + e.count && b.size == Max(a.size, b.pos)
         && (e.count < n ==> b.full && b.pos == b.size)
       case Seek(ofs) =>
         && b.marked == (a.marked || b.size != a.size) && b.entry == a.entry && a.chain <= b.chain && e.count == 0
         && b.pos <= ofs && b.size == Max(a.size, b.pos)
         && (b.pos < ofs ==> b.full && b.pos == b.size)
       case Truncate =>
         && b.marked == (a.marked || b.size != a.size) && b.entry == a.entry && b.chain <= a.chain && e.count == 0
         && b.pos == a.pos && b.size == a.pos
       case Sync =>
         && e.count == 0 && !b.marked
         && if a.marked then b == a.(marked := false, entry := b.entry, stat := b.stat) else b == a
  }

  ghost predicate IsRun(csize: nat, states: seq<View>, events: seq<Event>) {
    && |states| == |events| + 1
    && forall k :: 0 <= k < |events| ==> Step(csize, states[k], events[k], states[k + 1])
  }

  /** One request on a file open for writing. */
  method Perform(f: ExFile, q: Request) returns (e: Event)
    requires f.Valid()
    modifies f, f.bits
    ensures f.Valid() && e.request == q && Step(f.csize, old(ViewOf(f)), e, ViewOf(f))
  {
    hide Clusters, Cursor, f.Core, f.Full, LosesRun;
    var moved := 0;
    ViewInOrder(f);
    match q {
      case Write(count) => moved := f.Write(count);
      case Seek(ofs) => f.Seek(ofs, true);
      case Truncate => f.Truncate();
      case Sync => f.Sync();
    }
    e := Event(q, moved);
    ViewInOrder(f);
  }

  lemma ViewInOrder(f: ExFile)
    ensures f.Valid() ==> InOrder(f.csize, ViewOf(f))
  {
    if f.Valid() { CursorFacts(f.chain, f.csize, f.objsize, f.fptr, f.clust, f.nFrag); }
  }

  /** Any run of requests on a file open for writing keeps the invariant. */
  method Run(f: ExFile, requests: seq<Request>) returns (ghost states: seq<View>, events: seq<Event>)
    requires f.Valid()
    modifies f, f.bits
    ensures f.Valid() && |events| == |requests|
    ensures forall k :: 0 <= k < |events| ==> events[k].request == requests[k]
    ensures IsRun(f.csize, states, events) && states[0] == old(ViewOf(f)) && states[|events|] == ViewOf(f)
  {
    hide Step, f.Valid, f.Full;
    states, events := [ViewOf(f)], [];
    for k := 0 to |requests|
      invariant f.Valid() && |events| == k
      invariant forall i :: 0 <= i < k ==> events[i].request == requests[i]
      invariant IsRun(f.csize, states, events) && states[0] == old(ViewOf(f)) && states[k] == ViewOf(f)
    {
      var e := Perform(f, requests[k]);
      states, events := states + [ViewOf(f)], events + [e];
    }
  }

  /** What the invariant says of the growing edge and of the bitmap. */
  lemma GrowingEdge(f: ExFile)
    requires f.Valid()
    ensures f.nFrag > 0 ==> f.nFrag <= |f.chain| && f.clust == f.chain[|f.chain| - 1] && f.fptr == f.objsize
    ensures forall i: nat :: |f.chain| - f.nFrag <= i < |f.chain| ==> f.chain[i] == f.clust - (|f.chain| - 1 - i)
    ensures forall c: nat :: c in f.others && c < |f.fat| ==> c < |f.firstFat| && f.fat[c] == f.firstFat[c]
    ensures f.n < EOC ==> f.Lost() == {}
    ensures forall c: nat :: 2 <= c < f.n ==>
      c - 2 < f.bits.Length * 8 && (Used(f.bits[..], c - 2) <==> c in f.chain || c in f.taken)
  {
    if f.nFrag > 0 {
      EdgeIsLast(f.chain, f.csize, f.objsize, f.fptr, f.clust, f.nFrag);
      var e := |f.chain| - f.nFrag;
      assert f.chain[|f.chain| - 1] == f.chain[e] + (f.nFrag - 1);
    }
  }

  /** A file that was synchronised reopens with the chain it had. */
  method Reopen(f: ExFile) returns (g: ExFile)
    requires f.Valid() && !f.modified
    ensures fresh(g) && g.Valid() && g.chain == f.chain && (g.others, g.taken) == (f.others, f.taken)
    ensures g.objsize == f.objsize && g.fptr == 0
  {
    SettledAlloc(f.Now());
    FirstPieceInRange(f.Now());
    g := new ExFile(Volume(f.n, f.csize, f.bits, f.fat, f.freeClst, f.lastClst), f.entry, f.chain, f.others, f.taken);
  }
}
