/** create_chain and remove_chain on FAT12/16/32 volumes. */
module Allocator {
  import opened Geometry
  import opened FatEntry
  import opened Volume
  import opened Chains

  /** The value put_fat leaves for the end mark 0xFFFFFFFF. */
  function Eoc(g: Geometry): (e: nat)
    requires g.FatArea()
    ensures e >= g.nFatent
  {
    EocReadsBack(g);
    Mask(g.fsType, 0xFFFF_FFFF)
  }

  /** `c` comes before `r` when clusters are visited from scl+1 upward,
      wrapping to 2. */
  predicate VisitedBefore(n: nat, scl: nat, c: nat, r: nat) {
    (if c > scl then c else c + n) < (if r > scl then r else r + n)
  }

  /** `c` lies between scl and the search position `ncl`. */
  predicate Visited(wrapped: bool, scl: nat, c: nat, ncl: nat) {
    if wrapped then c > scl || c <= ncl else scl < c <= ncl
  }

  /** `c` is the first cluster after `scl` whose entry is 0 or 1. */
  ghost predicate FirstAfter(fat: Fat, scl: nat, c: nat) {
    && InRange(fat, c) && fat[c] < 2
    && forall k: nat :: InRange(fat, k) && VisitedBefore(|fat|, scl, k, c) ==> fat[k] >= 2
  }

  /** What a search after `scl` finds: the first free cluster, unless a reserved
      entry comes first (1), or nothing, all clusters being in use (0). */
  ghost predicate Searched(fat: Fat, scl: nat, r: nat) {
    if r == 0 then forall k: nat :: InRange(fat, k) ==> fat[k] >= 2
    else if r == INTERNAL_ERROR then exists c: nat :: FirstAfter(fat, scl, c) && fat[c] == INTERNAL_ERROR
    else FirstAfter(fat, scl, r) && fat[r] == 0
  }

  /** Where the program looks for a cluster to put behind `clst`, the last one
      of a chain, or to begin a chain with: right behind it, then from the
      cluster taken last. */
  ghost predicate Chosen(fat: Fat, clst: nat, freeClst: nat, lastClst: nat, r: nat) {
    var n := |fat|;
    var nxt := if clst + 1 < n then clst + 1 else 2;
    if freeClst == 0 then r == 0
    else if clst == 0 then Searched(fat, if 0 < lastClst < n then lastClst else 1, r)
    else if nxt < n && fat[nxt] < 2 then r == if fat[nxt] == 0 then nxt else INTERNAL_ERROR
    else Searched(fat, if 2 <= lastClst < n then lastClst else clst, r)
  }

  /** The circular search: the first free cluster after `scl`, 0 when there is
      none, 1 when it runs into a reserved entry first. */
  method SearchFree(fs: Volume, scl: nat) returns (ncl: nat)
    requires fs.Valid() && 1 <= scl < fs.geo.nFatent
    modifies fs`disk, fs`wflag, fs`winsect, fs.win
    ensures fs.Valid() && fs.geo.InFat1(fs.winsect)
    ensures Searched(fs.fat, scl, ncl)
  {
    hide fs.FatOk;
    hide fs.WindowOk;
    ghost var wrapped := false;
    ncl := scl;
    while true
      invariant fs.Valid()
      invariant if wrapped then 2 <= ncl < scl else scl <= ncl < fs.geo.nFatent
      invariant ncl != scl ==> fs.geo.InFat1(fs.winsect)
      invariant forall c: nat :: InRange(fs.fat, c) && Visited(wrapped, scl, c, ncl) ==> fs.fat[c] > 1
      decreases if wrapped then 0 else 1, fs.geo.nFatent - ncl
    {
      ncl := ncl + 1;
      if ncl >= fs.geo.nFatent {
        ncl := 2;
        wrapped := true;
        if ncl > scl { return 0; }
      }
      var cs := fs.GetFat(ncl);
      if cs == 0 { return; }
      if cs == INTERNAL_ERROR {
        assert FirstAfter(fs.fat, scl, ncl);
        return cs;
      }
      if ncl == scl { return 0; }
    }
  }

  /** create_chain. */
  method CreateChain(fs: Volume, clst: nat) returns (r: nat)
    requires fs.Valid() && fs.CountOk()
    modifies fs`disk, fs`wflag, fs`winsect, fs.win, fs`vol, fs`fat, fs`freeClst, fs`lastClst, fs`fsiDirty
    ensures fs.Valid() && fs.CountOk()
    ensures Created(old(fs.fat), fs.fat, clst, r, Eoc(fs.geo))
    ensures SameOutsideFats(fs.geo, old(fs.vol), fs.vol)
    ensures Mirrored(fs.geo, old(fs.vol)) ==> Mirrored(fs.geo, fs.vol)
    ensures r > INTERNAL_ERROR ==> fs.geo.InFat1(fs.winsect)
    ensures fs.winsect == old(fs.winsect) || fs.geo.InFat1(fs.winsect)
    ensures fs.vol == old(fs.vol) || Linked(old(fs.fat), fs.fat, clst, r, Eoc(fs.geo))
    ensures clst == 0 || (InRange(old(fs.fat), clst) && old(fs.fat[clst]) >= fs.geo.nFatent) ==>
      Chosen(old(fs.fat), clst, old(fs.freeClst), old(fs.lastClst), r)
    ensures if fs.fat == old(fs.fat) then unchanged(fs`freeClst, fs`lastClst, fs`fsiDirty)
            else fs.lastClst == r && fs.fsiDirty && (fs.freeClst == old(fs.freeClst) > fs.geo.nFatent - 2
                 || fs.freeClst + 1 == old(fs.freeClst) <= fs.geo.nFatent - 2)
  {
    hide fs.FatOk, fs.WindowOk, fs.InfoOk, Chosen, SameOutsideFats, Mirrored;
    SameOutsideReflexive(fs.geo, fs.vol);
    var scl;
    if clst == 0 {
      scl := fs.lastClst;
      if scl == 0 || scl >= fs.geo.nFatent { scl := 1; }
    } else {
      var cs := fs.GetFat(clst);
      if cs < 2 { return 1; }
      if cs < fs.geo.nFatent { return cs; }
      scl := clst;
    }
    if fs.freeClst == 0 {
      CountFreeZero(fs.fat, fs.geo.nFatent);
      NoChoice(fs.fat, clst, fs.lastClst);
      return 0;
    }
    var ncl := FindFree(fs, clst, scl);
    ChoiceIs(fs.fat, clst, fs.freeClst, fs.lastClst, ncl);
    if ncl <= INTERNAL_ERROR { return ncl; }
    TakeCluster(fs, clst, ncl);
    return ncl;
  }

  /** The middle of create_chain: a free cluster, from `scl` on. */
  method FindFree(fs: Volume, clst: nat, scl0: nat) returns (r: nat)
    requires fs.Valid() && fs.freeClst != 0 && (clst == 0 || InRange(fs.fat, clst))
    requires scl0 == if clst != 0 then clst else if 0 < fs.lastClst < fs.geo.nFatent then fs.lastClst else 1
    modifies fs`disk, fs`wflag, fs`winsect, fs.win
    ensures fs.Valid() && fs.geo.InFat1(fs.winsect)
    ensures Chosen(fs.fat, clst, fs.freeClst, fs.lastClst, r)
  {
    hide fs.FatOk, fs.WindowOk, fs.InfoOk, Searched;
    var scl, ncl := scl0, 0;
    if scl == clst {
      ncl := scl + 1;
      if ncl >= fs.geo.nFatent { ncl := 2; }
      var cs := fs.GetFat(ncl);
      if cs == INTERNAL_ERROR { return cs; }
      if cs != 0 {
        cs := fs.lastClst;
        if 2 <= cs < fs.geo.nFatent { scl := cs; }
        ncl := 0;
      }
    }
    if ncl == 0 {
      ncl := SearchFree(fs, scl);
      if ncl <= INTERNAL_ERROR { return ncl; }
    }
    return ncl;
  }

  /** What the choice means for the caller. */
  lemma ChoiceIs(fat: Fat, clst: nat, freeClst: nat, lastClst: nat, r: nat)
    requires Chosen(fat, clst, freeClst, lastClst, r) && freeClst != 0 && |fat| > 2
    ensures r == 0 ==> NoFree(fat)
    ensures r == INTERNAL_ERROR ==> HasReserved(fat)
    ensures r > INTERNAL_ERROR ==> InRange(fat, r) && fat[r] == 0
  {
  }

  lemma NoChoice(fat: Fat, clst: nat, lastClst: nat)
    ensures Chosen(fat, clst, 0, lastClst, 0)
  {
  }

  /** The last part of create_chain: mark, link, and account. */
  method TakeCluster(fs: Volume, clst: nat, ncl: nat)
    requires fs.Valid() && fs.CountOk() && fs.freeClst != 0
    requires InRange(fs.fat, ncl) && fs.fat[ncl] == 0
    requires clst == 0 || (InRange(fs.fat, clst) && fs.fat[clst] >= fs.geo.nFatent)
    modifies fs`disk, fs`wflag, fs`winsect, fs.win, fs`vol, fs`fat, fs`freeClst, fs`lastClst, fs`fsiDirty
    ensures fs.Valid() && fs.CountOk() && fs.geo.InFat1(fs.winsect)
    ensures Linked(old(fs.fat), fs.fat, clst, ncl, Eoc(fs.geo))
    ensures SameOutsideFats(fs.geo, old(fs.vol), fs.vol)
    ensures Mirrored(fs.geo, old(fs.vol)) ==> Mirrored(fs.geo, fs.vol)
    ensures fs.fat != old(fs.fat) && fs.lastClst == ncl && fs.fsiDirty
    ensures fs.freeClst == if old(fs.freeClst) <= fs.geo.nFatent - 2 then old(fs.freeClst) - 1 else old(fs.freeClst)
  {
    hide fs.FatOk, fs.WindowOk, Carries, Mask, PutEntry, SameOutsideFats, Mirrored, CountFree;
    var ok := fs.PutFat(ncl, 0xFFFF_FFFF);
    CountFreeUpdate(old(fs.fat), fs.geo.nFatent, ncl, Eoc(fs.geo));
    ghost var vol1 := fs.vol;
    if clst != 0 {
      CountFreeUpdate(fs.fat, fs.geo.nFatent, clst, ncl);
      LinkReadsBack(fs.geo, ncl);
      ok := fs.PutFat(clst, ncl);
      SameOutsideTransitive(fs.geo, old(fs.vol), vol1, fs.vol);
    }
    fs.lastClst := ncl;
    if fs.freeClst <= fs.geo.nFatent - 2 { fs.freeClst := fs.freeClst - 1; }
    fs.fsiDirty := true;
  }

  /** remove_chain: the loop computes Walk, whatever the FAT contains. */
  method RemoveChain(fs: Volume, clst: nat, pclst: nat) returns (ok: bool)
    requires fs.Valid() && fs.CountOk()
    modifies fs`disk, fs`wflag, fs`winsect, fs.win, fs`vol, fs`fat, fs`freeClst, fs`fsiDirty
    ensures fs.Valid()
    ensures pclst == 0 || !InRange(old(fs.fat), pclst) || old(fs.fat[pclst]) != 0 ==> fs.CountOk()
    ensures InRange(old(fs.fat), clst) && (pclst == 0 || InRange(old(fs.fat), pclst)) ==>
      Walked(fs.fat, ok) == Removed(old(fs.fat), clst, pclst, Eoc(fs.geo)) && fs.geo.InFat1(fs.winsect)
    ensures !(InRange(old(fs.fat), clst) && (pclst == 0 || InRange(old(fs.fat), pclst))) ==>
      !ok && fs.fat == old(fs.fat) && fs.winsect == old(fs.winsect)
    ensures SameOutsideFats(fs.geo, old(fs.vol), fs.vol)
    ensures Mirrored(fs.geo, old(fs.vol)) ==> Mirrored(fs.geo, fs.vol)
    ensures old(fs.freeClst) > fs.geo.nFatent - 2 ==> unchanged(fs`freeClst, fs`fsiDirty)
  {
    hide fs.FatOk, fs.WindowOk, Carries, Mask, PutEntry, SameOutsideFats, Mirrored, CountFree;
    SameOutsideReflexive(fs.geo, fs.vol);
    if clst < 2 || clst >= fs.geo.nFatent { return false; }
    if pclst != 0 {
      ok := fs.PutFat(pclst, 0xFFFF_FFFF);
      if !ok { return; }
      CountFreeUpdate(old(fs.fat), fs.geo.nFatent, pclst, Eoc(fs.geo));
    }
    ghost var vol1 := fs.vol;
    ok := FreeWalk(fs, clst);
    SameOutsideTransitive(fs.geo, old(fs.vol), vol1, fs.vol);
  }

  method FreeWalk(fs: Volume, start: nat) returns (ok: bool)
    requires fs.Valid() && InRange(fs.fat, start)
    modifies fs`disk, fs`wflag, fs`winsect, fs.win, fs`vol, fs`fat, fs`freeClst, fs`fsiDirty
    ensures fs.Valid() && fs.geo.InFat1(fs.winsect)
    ensures old(fs.CountOk()) ==> fs.CountOk()
    ensures Walked(fs.fat, ok) == Walk(old(fs.fat), start)
    ensures SameOutsideFats(fs.geo, old(fs.vol), fs.vol)
    ensures Mirrored(fs.geo, old(fs.vol)) ==> Mirrored(fs.geo, fs.vol)
    ensures old(fs.freeClst) > fs.geo.nFatent - 2 ==> unchanged(fs`freeClst, fs`fsiDirty)
  {
    hide fs.FatOk, fs.WindowOk, fs.InfoOk, fs.CountOk, SameOutsideFats, Mirrored, CountFree;
    SameOutsideReflexive(fs.geo, fs.vol);
    var clst: nat := start;
    while true
      invariant fs.Valid() && InRange(fs.fat, clst)
      invariant old(fs.CountOk()) ==> fs.CountOk()
      invariant old(fs.freeClst) > fs.geo.nFatent - 2 ==>
        fs.freeClst == old(fs.freeClst) && fs.fsiDirty == old(fs.fsiDirty)
      invariant Walk(fs.fat, clst) == Walk(old(fs.fat), start)
      invariant SameOutsideFats(fs.geo, old(fs.vol), fs.vol)
      invariant Mirrored(fs.geo, old(fs.vol)) ==> Mirrored(fs.geo, fs.vol)
      decreases fs.geo.nFatent - CountFree(fs.fat, fs.geo.nFatent)
    {
      var nxt := fs.GetFat(clst);
      if nxt == 0 { return true; }
      if nxt == INTERNAL_ERROR { return false; }
      ghost var vol1 := fs.vol;
      CountFreeUpdate(fs.fat, fs.geo.nFatent, clst, 0);
      FreeOne(fs, clst);
      SameOutsideTransitive(fs.geo, old(fs.vol), vol1, fs.vol);
      if nxt >= fs.geo.nFatent { return true; }
      clst := nxt;
    }
  }

  /** One cluster on the way becomes free. */
  method FreeOne(fs: Volume, clst: nat)
    requires fs.Valid() && InRange(fs.fat, clst) && fs.fat[clst] != 0
    modifies fs`disk, fs`wflag, fs`winsect, fs.win, fs`vol, fs`fat, fs`freeClst, fs`fsiDirty
    ensures fs.Valid() && fs.geo.InFat1(fs.winsect) && fs.fat == old(fs.fat)[clst := 0]
    ensures old(fs.CountOk()) ==> fs.CountOk()
    ensures SameOutsideFats(fs.geo, old(fs.vol), fs.vol)
    ensures Mirrored(fs.geo, old(fs.vol)) ==> Mirrored(fs.geo, fs.vol)
    ensures old(fs.freeClst) > fs.geo.nFatent - 2 ==> unchanged(fs`freeClst, fs`fsiDirty)
  {
    hide fs.FatOk, fs.WindowOk, Carries, PutEntry, SameOutsideFats, Mirrored, CountFree;
    CountFreeUpdate(fs.fat, fs.geo.nFatent, clst, 0);
    LinkReadsBack(fs.geo, 0);
    var ok := fs.PutFat(clst, 0);
    if fs.freeClst < fs.geo.nFatent - 2 {
      fs.freeClst := fs.freeClst + 1;
      fs.fsiDirty := true;
    }
  }
}
