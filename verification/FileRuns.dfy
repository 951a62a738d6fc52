/** Runs of file operations against a flat byte string with a position. */
module FileRuns {
  import opened Bytes
  import opened Geometry
  import opened FatEntry
  import opened Volume
  import opened FileImage
  import opened Isolation
  import opened Chains
  import opened File

  /** A flat file with a position, an error that sticks, a mode and the mark
      that there is something to synchronise; the clusters it has and what one
      holds; and two facts of the volume: how many clusters are free, and
      whether one carries the reserved entry. */
  datatype Flat = Flat(
    bytes: seq<byte>, pos: nat, err: FResult, canRead: bool, canWrite: bool, changed: bool,
    unit: nat, clusters: nat, free: nat, bad: bool)

  datatype Request = Read(n: nat) | Write(data: seq<byte>) | Seek(target: nat) | Truncate | Sync(time: nat)

  /** What a request answered: the result code, the bytes a read returned, the
      number of bytes a read or a write moved. */
  datatype Event = Event(request: Request, res: FResult, out: seq<byte>, count: nat)

  /** The position is in the file, which fits its clusters. */
  predicate Sized(a: Flat) {
    a.pos <= |a.bytes| <= MAX_SIZE && a.unit > 0 && |a.bytes| <= a.clusters * a.unit
  }

  /** The clusters that `n` bytes take. */
  function Units(n: nat, unit: nat): nat
    requires unit > 0
  {
    if n == 0 then 0 else (n - 1) / unit + 1
  }

  /** The answer of a request that needs a mode. */
  function Answer(err: FResult, allowed: bool): FResult {
    if err != FR_OK then err else if allowed then FR_OK else FR_DENIED
  }

  /** Where a seek goes: below 4 GiB, and not past the end without write mode. */
  function Target(a: Flat, t: nat): nat {
    var o := Min(t, MAX_SIZE);
    if a.canWrite then o else Min(o, |a.bytes|)
  }

  /** At the end of the last cluster, and no further one is free, or the FAT is
      bad. */
  ghost predicate Stuck(res: FResult, b: Flat) {
    b.pos == |b.bytes| == b.clusters * b.unit && ((res == FR_OK && b.free == 0) || (res == FR_INT_ERR && b.bad))
  }

  /** A read moves what there is. */
  ghost predicate ReadStep(a: Flat, n: nat, e: Event, b: Flat)
    requires Sized(a)
  {
    && e.res == Answer(a.err, a.canRead)
    && e.count == (if e.res == FR_OK then Min(n, |a.bytes| - a.pos) else 0)
    && b == a.(pos := a.pos + e.count) && b.pos <= |a.bytes| && e.out == a.bytes[a.pos..b.pos]
  }

  /** A write moves all the bytes below 4 GiB, unless it gets stuck; it takes
      clusters as it needs them. */
  ghost predicate WriteStep(a: Flat, data: seq<byte>, e: Event, b: Flat)
    requires Sized(a)
  {
    if Answer(a.err, a.canWrite) != FR_OK then e.res == Answer(a.err, a.canWrite) && e.count == 0 && b == a
    else
      var all := Min(|data|, MAX_SIZE - a.pos);
      && e.count <= all && ((e.res == FR_OK && e.count == all) || (e.count < all && Stuck(e.res, b)))
      && b == a.(bytes := Splice(a.bytes, a.pos, data[..e.count]), pos := a.pos + e.count, err := e.res,
                 changed := a.changed || e.res == FR_OK,
                 clusters := Max(a.clusters, Units(a.pos + e.count, a.unit)), free := b.free)
  }

  /** A seek reaches its target, unless it gets stuck; a file that grows keeps
      the bytes it had. */
  ghost predicate SeekStep(a: Flat, t: nat, e: Event, b: Flat)
    requires Sized(a)
  {
    if a.err != FR_OK then e.res == a.err && b == a
    else if Target(a, t) <= |a.bytes| then e.res == FR_OK && b == a.(pos := Target(a, t))
    else
      && a.bytes <= b.bytes && |b.bytes| == Max(|a.bytes|, b.pos) && b.pos <= Target(a, t)
      && ((e.res == FR_OK && b.pos == Target(a, t)) || (b.pos < Target(a, t) && Stuck(e.res, b)))
      && b == a.(bytes := b.bytes, pos := b.pos, err := e.res, changed := a.changed || |b.bytes| > |a.bytes|,
                 clusters := Max(a.clusters, Units(b.pos, a.unit)), free := b.free)
  }

  /** A truncation cuts at the position and frees what is behind it. */
  ghost predicate TruncateStep(a: Flat, e: Event, b: Flat)
    requires Sized(a)
  {
    && e.res == Answer(a.err, a.canWrite)
    && if e.res != FR_OK || a.pos == |a.bytes| then b == a
       else
         && b == a.(bytes := a.bytes[..a.pos], changed := true, clusters := Units(a.pos, a.unit), free := b.free)
         && b.clusters <= a.clusters
  }

  /** The effect of one event on the flat file: what it takes comes from the
      free clusters, what it gives back is free. */
  ghost predicate Step(a: Flat, e: Event, b: Flat) {
    && Sized(a) && Sized(b) && b.clusters + b.free == a.clusters + a.free
    && match e.request
       case Read(n) => ReadStep(a, n, e, b)
       case Write(data) => WriteStep(a, data, e, b) && e.out == []
       case Seek(t) => SeekStep(a, t, e, b) && e.out == [] && e.count == 0
       case Truncate => TruncateStep(a, e, b) && e.out == [] && e.count == 0
       case Sync(_) => e.res == FR_OK && b == a.(changed := false) && e.out == [] && e.count == 0
  }

  ghost predicate Run(states: seq<Flat>, events: seq<Event>) {
    && |states| == |events| + 1
    && forall k :: 0 <= k < |events| ==> Step(states[k], events[k], states[k + 1])
  }

  ghost function FlatOf(f: Fil): Flat
    reads f, f.fs`fat
  {
    Flat(f.content, f.fptr, f.err, f.canRead, f.canWrite, f.modified, ClusterBytes(f.fs.geo), |f.chain|,
         Free(f.fs.fat), HasReserved(f.fs.fat))
  }

  /** The file object between two requests. */
  ghost predicate Usable(f: Fil)
    reads f, f.fs, f.fs.win, f.buf
  {
    f.Valid() && f.DirOk() && f.Tied()
  }

  lemma UnitsAre(g: Geometry, n: nat)
    requires g.csize > 0
    ensures ClustersFor(g, n) == Units(n, ClusterBytes(g))
  {
    if n > 0 { IdxOfProduct(g, n - 1); }
  }

  lemma FlatSized(f: Fil)
    ensures f.Valid() ==> Sized(FlatOf(f)) && ClustersFor(f.fs.geo, f.fptr) == Units(f.fptr, ClusterBytes(f.fs.geo))
    ensures f.Valid() ==> |f.content| == f.objsize && |f.fs.vol| == f.fs.geo.nSectors
  {
    if f.Valid() {
      f.CoreFits();
      UnitsAre(f.fs.geo, f.fptr);
    }
  }

  /** What an operation on the file's own clusters leaves as it was. */
  twostate lemma AfterCall(f: Fil)
    ensures Isolated(f.fs.geo, old(f.Snap()), f.Snap()) ==>
      && f.OthersStay() && Free(f.fs.fat) + |f.chain| == old(Free(f.fs.fat) + |f.chain|)
      && (HasReserved(f.fs.fat) <==> old(HasReserved(f.fs.fat))) && (NoFree(f.fs.fat) <==> Free(f.fs.fat) == 0)
    ensures Isolated(f.fs.geo, old(f.Snap()), f.Snap()) && old(f.DirOk()) ==> f.DirOk()
  {
    hide f.Core, f.DirOk, f.Apart, NoFree, HasReserved, Free;
    NoneFree(f.fs.fat);
    if Isolated(f.fs.geo, old(f.Snap()), f.Snap()) {
      f.OthersKept();
    }
  }

  /** A file that is not marked is saved if it was and did not change. */
  twostate lemma StaysTied(f: Fil)
    requires old(Usable(f)) && old(|f.fs.vol|) == f.fs.geo.nSectors && f.Valid()
    requires Isolated(f.fs.geo, old(f.Snap()), f.Snap()) && f.Stretched(old(f.chain))
    requires f.err == FR_OK && !f.modified ==>
      old(f.err) == FR_OK && !old(f.modified) && f.objsize == old(f.objsize) && (f.dirty ==> old(f.dirty))
    ensures f.Tied()
  {
    hide f.Recorded, f.Core, f.Cursor, f.Stretched;
    if f.err == FR_OK && !f.modified {
      f.SameStart();
      f.RecordKept();
    }
  }

  /** One request of a client, answered by the file object as by a flat file;
      every other file of the volume keeps its chain and its bytes. A sync of a
      marked file leaves nothing that is not on the device. */
  method Perform(f: Fil, q: Request) returns (e: Event)
    requires Usable(f) && (q.Write? ==> |q.data| <= MAX_SIZE)
    modifies f, f.buf, f.fs, f.fs.win
    ensures Usable(f) && e.request == q && Step(old(FlatOf(f)), e, FlatOf(f)) && f.OthersStay()
    ensures q.Sync? && old(f.modified) ==> f.fs.disk == f.fs.vol && f.Saved() && !f.fs.FsInfoDue()
  {
    hide Step, Usable;
    match q {
      case Read(n) => e := PerformRead(f, n);
      case Write(data) => e := PerformWrite(f, data);
      case Seek(t) => e := PerformSeek(f, t);
      case Truncate => e := PerformTruncate(f);
      case Sync(tm) => e := PerformSync(f, tm);
    }
  }

  /** The promises of f_read make a step. */
  lemma ReadIsStep(a: Flat, n: nat, e: Event, b: Flat)
    requires e.request == Read(n) && Sized(a) && b.pos <= |a.bytes| && a.pos <= b.pos
    requires e.res == Answer(a.err, a.canRead) && b == a.(pos := b.pos)
    requires b.pos == a.pos + if e.res == FR_OK then Min(n, |a.bytes| - a.pos) else 0
    requires e.out == a.bytes[a.pos..b.pos] && e.count == |e.out|
    requires b.clusters + b.free == a.clusters + a.free
    ensures Step(a, e, b)
  {
  }

  method PerformRead(f: Fil, n: nat) returns (e: Event)
    requires Usable(f)
    modifies f, f.buf, f.fs, f.fs.win
    ensures Usable(f) && e.request == Read(n) && Step(old(FlatOf(f)), e, FlatOf(f)) && f.OthersStay()
  {
    hide Step, f.Core, f.Cursor, f.DirOk, f.Saved, f.OthersStay, Isolated, Free, NoFree, HasReserved;
    FlatSized(f);
    ghost var a := FlatOf(f);
    var res, data := f.Read(n);
    e := Event(Read(n), res, data, |data|);
    ReadIsStep(a, n, e, FlatOf(f));
    AfterCall(f);
    f.StretchedNot();
    StaysTied(f);
  }

  /** The promises of f_write make a step. */
  lemma WriteIsStep(a: Flat, data: seq<byte>, e: Event, b: Flat)
    requires e.request == Write(data) && e.out == [] && e.count <= |data| && Sized(a) && Sized(b)
    requires b == a.(bytes := Splice(a.bytes, a.pos, data[..e.count]), pos := a.pos + e.count, err := b.err,
                     changed := b.changed, clusters := b.clusters, free := b.free)
    requires if Answer(a.err, a.canWrite) != FR_OK then
               && e.res == Answer(a.err, a.canWrite) && e.count == 0 && a.err == b.err && a.changed == b.changed
               && a.clusters == b.clusters
             else
               var all := Min(|data|, MAX_SIZE - a.pos);
               && ((e.res == FR_OK && e.count == all) || (e.count < all && Stuck(e.res, b))) && b.err == e.res
               && b.changed == (a.changed || e.res == FR_OK) && b.clusters == Max(a.clusters, Units(b.pos, a.unit))
    requires b.clusters + b.free == a.clusters + a.free
    ensures Step(a, e, b)
  {
    SpliceNothing(a.bytes, a.pos);
  }

  method PerformWrite(f: Fil, data: seq<byte>) returns (e: Event)
    requires Usable(f) && |data| <= MAX_SIZE
    modifies f, f.buf, f.fs, f.fs.win
    ensures Usable(f) && e.request == Write(data) && Step(old(FlatOf(f)), e, FlatOf(f)) && f.OthersStay()
    ensures old(f.err == FR_OK && f.canWrite) ==> ((f.modified || f.Saved()) == Keeps(old(FlatOf(f)), e, FlatOf(f)))
  {
    hide Step, Refilled, f.Core, f.Cursor, f.DirOk, f.Saved, Splice, f.OthersStay, Isolated, Free, NoFree, HasReserved;
    FlatSized(f);
    ghost var a := FlatOf(f);
    var res, bw := f.Write(data);
    e := Event(Write(data), res, [], bw);
    AfterCall(f);
    FlatSized(f);
    WriteIsStep(a, data, e, FlatOf(f));
    AbortSaves(f);
    StaysTied(f);
  }

  /** The promises of f_lseek make a step. */
  lemma SeekIsStep(a: Flat, t: nat, e: Event, b: Flat)
    requires e.request == Seek(t) && e.out == [] && e.count == 0 && Sized(a) && Sized(b) && a.bytes <= b.bytes
    requires b == a.(bytes := b.bytes, pos := b.pos, err := e.res, changed := b.changed, clusters := b.clusters,
                     free := b.free)
    requires if a.err != FR_OK then e.res == a.err && b == a
             else if Target(a, t) <= |a.bytes| then e.res == FR_OK && b == a.(pos := Target(a, t))
             else
               && |b.bytes| == Max(|a.bytes|, b.pos) && b.pos <= Target(a, t)
               && ((e.res == FR_OK && b.pos == Target(a, t)) || (b.pos < Target(a, t) && Stuck(e.res, b)))
               && b.changed == (a.changed || |b.bytes| > |a.bytes|)
               && b.clusters == Max(a.clusters, Units(b.pos, a.unit))
    requires b.clusters + b.free == a.clusters + a.free
    ensures Step(a, e, b)
  {
  }

  method PerformSeek(f: Fil, t: nat) returns (e: Event)
    requires Usable(f)
    modifies f, f.buf, f.fs, f.fs.win
    ensures Usable(f) && e.request == Seek(t) && Step(old(FlatOf(f)), e, FlatOf(f)) && f.OthersStay()
  {
    hide Step, f.Core, f.Cursor, f.DirOk, f.Saved, f.OthersStay, Isolated, Free, NoFree, HasReserved;
    FlatSized(f);
    ghost var a := FlatOf(f);
    assert f.SeekTarget(t) == Target(a, t);
    var res := f.Seek(t);
    e := Event(Seek(t), res, [], 0);
    AfterCall(f);
    FlatSized(f);
    SeekIsStep(a, t, e, FlatOf(f));
    StaysTied(f);
  }

  /** The promises of f_truncate make a step. */
  lemma TruncateIsStep(a: Flat, e: Event, b: Flat)
    requires e.request == Truncate && e.out == [] && e.count == 0 && Sized(a) && Sized(b)
    requires e.res == Answer(a.err, a.canWrite)
    requires if e.res != FR_OK || a.pos == |a.bytes| then b == a
             else
               && b == a.(bytes := a.bytes[..a.pos], changed := true, clusters := Units(a.pos, a.unit), free := b.free)
               && b.clusters <= a.clusters
    requires b.clusters + b.free == a.clusters + a.free
    ensures Step(a, e, b)
  {
  }

  method PerformTruncate(f: Fil) returns (e: Event)
    requires Usable(f)
    modifies f, f.buf, f.fs, f.fs.win
    ensures Usable(f) && e.request == Truncate && Step(old(FlatOf(f)), e, FlatOf(f)) && f.OthersStay()
  {
    hide Step, f.Core, f.Cursor, f.DirOk, f.Saved, f.OthersStay, Isolated, Free, NoFree, HasReserved;
    FlatSized(f);
    ghost var a := FlatOf(f);
    var res := f.Truncate();
    e := Event(Truncate, res, [], 0);
    AfterCall(f);
    FlatSized(f);
    if res != FR_OK || a.pos == |a.bytes| {
      f.StretchedNot();
      StaysTied(f);
    }
    TruncateIsStep(a, e, FlatOf(f));
  }

  method PerformSync(f: Fil, tm: nat) returns (e: Event)
    requires Usable(f)
    modifies f, f.buf, f.fs, f.fs.win
    ensures Usable(f) && e.request == Sync(tm) && Step(old(FlatOf(f)), e, FlatOf(f)) && f.OthersStay()
    ensures old(f.modified) ==> f.fs.disk == f.fs.vol && !f.fs.FsInfoDue()
    ensures f.Saved() <==> old(f.modified || f.Saved())
  {
    hide f.Core, f.Cursor, f.DirOk, f.Apart, f.Recorded, NoFree, HasReserved;
    FlatSized(f);
    var res := f.Sync(tm);
    e := Event(Sync(tm), res, [], 0);
    f.OthersSynced();
  }

  /** Every run of requests is a run of the flat file, and no other file of the
      volume notices it. After a run that ends in a sync of a marked file the
      copies of the FAT on the device are equal, if they were to begin with. */
  method RunAll(f: Fil, requests: seq<Request>) returns (ghost states: seq<Flat>, events: seq<Event>)
    requires Usable(f)
    requires forall k :: 0 <= k < |requests| && requests[k].Write? ==> |requests[k].data| <= MAX_SIZE
    modifies f, f.buf, f.fs, f.fs.win
    ensures Usable(f)
    ensures |events| == |requests| && forall k :: 0 <= k < |events| ==> events[k].request == requests[k]
    ensures Run(states, events) && states[0] == old(FlatOf(f)) && states[|events|] == FlatOf(f)
    ensures f.OthersStay()
    ensures EndsInSync(states, requests) ==>
      && f.fs.disk == f.fs.vol && f.Saved() && !f.fs.FsInfoDue()
      && (Mirrored(f.fs.geo, old(f.fs.vol)) ==> Mirrored(f.fs.geo, f.fs.disk))
  {
    hide Usable, f.Apart, f.Saved, Mirrored;
    hide Step;
    states, events := [FlatOf(f)], [];
    for i := 0 to |requests|
      invariant Usable(f) && |events| == i
      invariant forall k :: 0 <= k < i ==> events[k].request == requests[k]
      invariant Run(states, events) && states[0] == old(FlatOf(f)) && states[i] == FlatOf(f)
      invariant f.OthersStay()
      invariant EndsInSync(states, requests[..i]) ==> f.fs.disk == f.fs.vol && f.Saved() && !f.fs.FsInfoDue()
    {
      var e := Perform(f, requests[i]);
      states, events := states + [FlatOf(f)], events + [e];
    }
    assert requests[..|requests|] == requests;
  }

  /** After any run, once a marked file is synchronised, a fresh mount of the
      device finds the disk, the FAT and, where the volume keeps FSInfo, the
      counts as they were; f_getfree then answers how many clusters are free. */
  method SyncAndMount(f: Fil, tm: nat) returns (w: Volume, ok: bool, free: nat)
    requires Usable(f) && f.modified
    modifies f, f.buf, f.fs, f.fs.win
    ensures Usable(f) && f.Saved() && FlatOf(f) == old(FlatOf(f)).(changed := false) && f.OthersStay()
    ensures w.Valid() && w.geo == f.fs.geo && w.vol == f.fs.vol && w.fat == f.fs.fat == old(f.fs.fat)
    ensures f.fs.geo.fsInfo ==> w.lastClst == f.fs.lastClst == old(f.fs.lastClst)
    ensures f.fs.geo.fsInfo && old(f.fs.freeClst) <= f.fs.geo.nFatent - 2 ==>
      ok && free == Free(w.fat) == w.freeClst == f.fs.freeClst == old(f.fs.freeClst)
  {
    hide f.Core, f.Cursor, f.DirOk, f.Apart, f.Recorded, f.Stored;
    hide f.fs.Valid, f.fs.CountOk, NoFree, HasReserved, CountFree;
    FlatSized(f);
    var res := f.Sync(tm);
    f.OthersSynced();
    f.CoreBuffer();
    w, ok, free := MountAndCount(f.fs);
  }

  /** The last request is a sync of a file that is marked. */
  ghost predicate EndsInSync(states: seq<Flat>, requests: seq<Request>) {
    0 < |requests| < |states| && requests[|requests| - 1].Sync? && states[|requests| - 1].changed
  }

  /** How long the file can get. */
  function Room(a: Flat): nat { Min(MAX_SIZE, (a.clusters + a.free) * a.unit) }

  /** On a sound FAT a write moves what the volume has room for. */
  lemma WriteFills(a: Flat, e: Event, b: Flat)
    requires Step(a, e, b) && e.request.Write? && Answer(a.err, a.canWrite) == FR_OK && !a.bad
    ensures e.res == FR_OK && a.pos <= Room(a) && e.count == Min(|e.request.data|, Room(a) - a.pos)
  {
    MulMonotone(a.clusters, a.clusters + a.free, a.unit);
    MulMonotone(b.clusters, a.clusters + a.free, a.unit);
  }

  /** And a seek goes as far as the volume has room for. */
  lemma SeekReaches(a: Flat, e: Event, b: Flat)
    requires Step(a, e, b) && e.request.Seek? && a.err == FR_OK && !a.bad
    ensures e.res == FR_OK && b.pos == Min(Target(a, e.request.target), Room(a))
  {
    MulMonotone(a.clusters, a.clusters + a.free, a.unit);
    MulMonotone(b.clusters, a.clusters + a.free, a.unit);
  }

  /** A seek that makes the file grow, by bytes a flat file cannot foretell. */
  ghost predicate Grows(a: Flat, e: Event, b: Flat) { e.request.Seek? && |b.bytes| > |a.bytes| }

  lemma StepDetermined(a: Flat, e: Event, b: Flat, e': Event, b': Flat)
    requires Step(a, e, b) && Step(a, e', b') && e.request == e'.request && !a.bad
    ensures e == e' && |b.bytes| == |b'.bytes| && b == b'.(bytes := b.bytes) && !b.bad
    ensures Grows(a, e, b) || b == b'
  {
    if e.request.Write? && Answer(a.err, a.canWrite) == FR_OK {
      WriteFills(a, e, b);
      WriteFills(a, e', b');
    } else if e.request.Seek? && a.err == FR_OK {
      SeekReaches(a, e, b);
      SeekReaches(a, e', b');
    }
  }

  /** On a volume with a sound FAT, full or not, the requests alone determine
      every answer and every state: two runs from the same flat file agree
      throughout. */
  lemma {:induction false} RunDetermined(s: seq<Flat>, e: seq<Event>, s': seq<Flat>, e': seq<Event>)
    requires Run(s, e) && Run(s', e') && |e| == |e'| && s[0] == s'[0] && !s[0].bad
    requires forall k :: 0 <= k < |e| ==> e[k].request == e'[k].request && !Grows(s[k], e[k], s[k + 1])
    ensures s == s' && e == e'
  {
    hide Step, Grows;
    for n := 0 to |e|
      invariant forall k :: 0 <= k <= n ==> s[k] == s'[k]
      invariant forall k :: 0 <= k < n ==> e[k] == e'[k]
      invariant !s[n].bad
    {
      assert Step(s[n], e[n], s[n + 1]) && Step(s'[n], e'[n], s'[n + 1]);
      assert !Grows(s[n], e[n], s[n + 1]);
      StepDetermined(s[n], e[n], s[n + 1], e'[n], s'[n + 1]);
    }
  }

  /** Event `e`, starting at position `pos`, leaves byte `i` alone. */
  ghost predicate Spares(pos: nat, e: Event, i: nat) {
    match e.request
    case Write(_) => !(pos <= i < pos + e.count)
    case Truncate => i < pos
    case _ => true
  }

  /** Over any run, a byte that is not overwritten and not cut off stays. */
  lemma {:induction false} BytePersists(states: seq<Flat>, events: seq<Event>, i: nat)
    requires Run(states, events) && i < |states[0].bytes|
    requires forall k :: 0 <= k < |events| ==> Spares(states[k].pos, events[k], i)
    ensures i < |states[|events|].bytes| && states[|events|].bytes[i] == states[0].bytes[i]
    decreases |events|
  {
    if events != [] {
      var n := |events| - 1;
      var states', events' := states[..n + 1], events[..n];
      forall k | 0 <= k < n ensures Step(states'[k], events'[k], states'[k + 1])
        && Spares(states'[k].pos, events'[k], i) {
        assert Step(states[k], events[k], states[k + 1]) && Spares(states[k].pos, events[k], i);
      }
      BytePersists(states', events', i);
      assert Step(states[n], events[n], states[n + 1]) && Spares(states[n].pos, events[n], i);
      if events[n].request.Write? {
        SpliceAt(states[n].bytes, states[n].pos, events[n].request.data[..events[n].count], i);
      }
    }
  }

  /** Read your writes: in any run that begins with a write and ends with a
      read, a byte both of them cover, and nothing in between overwrites or
      cuts off, is read back as written. */
  lemma ReadYourWrites(states: seq<Flat>, events: seq<Event>, i: nat)
    requires Run(states, events) && |events| >= 2
    requires events[0].request.Write? && events[|events| - 1].request.Read?
    requires states[0].pos <= i < states[0].pos + events[0].count
    requires states[|events| - 1].pos <= i < states[|events|].pos
    requires forall k :: 1 <= k < |events| ==> Spares(states[k].pos, events[k], i)
    ensures i - states[0].pos < events[0].count <= |events[0].request.data|
    ensures i - states[|events| - 1].pos < |events[|events| - 1].out|
    ensures events[|events| - 1].out[i - states[|events| - 1].pos] == events[0].request.data[i - states[0].pos]
  {
    var n := |events| - 1;
    assert Step(states[0], events[0], states[1]);
    SpliceAt(states[0].bytes, states[0].pos, events[0].request.data[..events[0].count], i);
    var mid, evs := states[1..n + 1], events[1..n];
    forall k | 0 <= k < |evs| ensures Step(mid[k], evs[k], mid[k + 1]) && Spares(mid[k].pos, evs[k], i) {
      assert Step(states[k + 1], events[k + 1], states[k + 2]) && Spares(states[k + 1].pos, events[k + 1], i);
    }
    BytePersists(mid, evs, i);
    assert Step(states[n], events[n], states[n + 1]);
  }

  /** Closing a file and opening it again through its directory entry finds the
      same chain, the same size and the same bytes, if the file was marked or
      saved. */
  method Reopen(f: Fil, tm: nat, canRead: bool, canWrite: bool) returns (g: Fil)
    requires f.Valid() && f.DirOk() && (f.modified || f.Saved())
    modifies f, f.buf, f.fs, f.fs.win
    ensures g.Valid() && g.DirOk() && g.Saved() && g.fs == f.fs && fresh(g) && fresh(g.buf)
    ensures g.canRead == canRead && g.canWrite == canWrite && g.err == FR_OK
    ensures g.chain == old(f.chain) && g.content == old(f.content) == f.content && g.fptr == 0
    ensures f.OthersStay()
  {
    hide f.Valid, f.DirOk, f.Saved, f.Apart, Mirrored, f.Room, HasReserved, Free;
    var res := f.Sync(tm);
    f.OthersSynced();
    g := OpenEntry(f, canRead, canWrite);
  }

  /** f_open through the entry of a file that is saved. */
  method OpenEntry(f: Fil, canRead: bool, canWrite: bool) returns (g: Fil)
    requires f.Valid() && f.DirOk() && f.Saved()
    modifies f.fs, f.fs.win
    ensures g.Valid() && g.DirOk() && g.Saved() && g.fs == f.fs && fresh(g) && fresh(g.buf)
    ensures g.canRead == canRead && g.canWrite == canWrite && g.err == FR_OK
    ensures g.chain == f.chain && g.content == f.content && g.fptr == 0
    ensures f.fs.vol == old(f.fs.vol) && f.fs.fat == old(f.fs.fat)
  {
    hide f.Cursor, Shows, InFile, OwnSector, IsChain;
    f.CoreFits();
    var fs := f.fs;
    f.MetadataApart();
    fs.MoveWindow(f.dirSect);
    assert f.chain != [] ==> InRange(fs.fat, f.chain[0]);
    g := new Fil.Open(fs, f.dirPtr, canRead, canWrite, f.chain);
    ShowsUnique(fs.geo, f.chain, fs.vol, false, f.sect, f.buf[..], false, g.sect, g.buf[..], f.content, g.content);
  }

  /** The file filled its clusters and got none, and the position was not
      strictly inside the last sector. */
  predicate Refilled(a: Flat, b: Flat) {
    && |a.bytes| == a.clusters * a.unit && b.clusters == a.clusters
    && !(a.pos % 512 != 0 && 0 < |a.bytes| - a.pos < 512)
  }

  /** What a write wrote can be saved if it is not aborted, or the file was
      marked, or it only filled up what the file had. */
  predicate Keeps(a: Flat, e: Event, b: Flat) { e.res == FR_OK || a.changed || Refilled(a, b) }

  /** What a write that is aborted leaves unsaved, a sync does not save. */
  method WriteThenSync(f: Fil, data: seq<byte>, tm: nat) returns (e: Event, ghost mid: Flat)
    requires Usable(f) && f.err == FR_OK && f.canWrite && |data| <= MAX_SIZE
    modifies f, f.buf, f.fs, f.fs.win
    ensures Usable(f) && e.request == Write(data) && f.OthersStay()
    ensures Step(old(FlatOf(f)), e, mid) && FlatOf(f) == mid.(changed := false)
    ensures f.Saved() <==> Keeps(old(FlatOf(f)), e, mid)
  {
    hide Keeps, Usable, f.Saved;
    e := PerformWrite(f, data);
    mid := FlatOf(f);
    var r := PerformSync(f, tm);
  }

  /** An aborted write that is lost: 600 bytes to the end of a file of 100, on
      clusters of 512 bytes. 412 of them get into the file, and f_sync does not save them. */
  lemma AbortedWriteLost(bytes: seq<byte>, data: seq<byte>, free: nat)
    requires |bytes| == 100 && |data| == 600
    ensures var a := Flat(bytes, 100, FR_OK, true, true, false, 512, 1, free, true);
            var b := a.(bytes := bytes + data[..412], pos := 512, err := FR_INT_ERR);
            var e := Event(Write(data), FR_INT_ERR, [], 412);
            Step(a, e, b) && !Keeps(a, e, b)
  {
  }

  /** A write of an unmarked, saved file was aborted. */
  twostate predicate Aborted(f: Fil)
    reads f, f.fs, f.fs.win, f.buf
  {
    && old(f.Valid() && f.DirOk() && f.Saved() && !f.modified && |f.fs.vol| == f.fs.geo.nSectors)
    && f.Valid() && old(Sized(FlatOf(f)) && |f.content| == f.objsize)
    && Isolated(f.fs.geo, old(f.Snap()), f.Snap()) && f.Stretched(old(f.chain))
    && old(f.fptr) <= f.fptr && f.AtEnd() && |f.content| == Max(|old(f.content)|, f.fptr) && !f.modified
    && if f.fptr == old(f.fptr) then f.dirty == old(f.dirty) else f.Pending(old(f.fptr), f.fptr - old(f.fptr))
  }

  /** What it leaves. */
  twostate lemma AbortSaves(f: Fil)
    ensures Aborted(f) ==> (f.Saved() <==> Refilled(old(FlatOf(f)), FlatOf(f)))
  {
    hide f.Core, f.Cursor, f.DirOk, Isolated, f.Recorded, Refilled, ClustersFor, Units, Free, HasReserved;
    if Aborted(f) {
      Unrecorded(f);
      FlatSized(f);
      SameSize(old(FlatOf(f)), FlatOf(f));
    }
  }

  /** A file that ends with its clusters has the size it had if that filled the
      clusters and none was taken. */
  lemma SameSize(a: Flat, b: Flat)
    requires Sized(a) && b.pos == |b.bytes| == b.clusters * a.unit && a.clusters <= b.clusters
    requires a.pos <= b.pos && |b.bytes| == Max(|a.bytes|, b.pos)
    ensures |b.bytes| == |a.bytes| && !(0 < b.pos - a.pos < 512 && a.pos % 512 != 0) <==> Refilled(a, b)
  {
    MulMonotone(a.clusters, b.clusters, a.unit);
    if a.clusters < b.clusters { MulMonotone(a.clusters + 1, b.clusters, a.unit); }
  }

  twostate lemma Unrecorded(f: Fil)
    requires old(f.Valid()) && f.Valid() && f.Stretched(old(f.chain)) && old(f.Recorded()) && old(f.DirOk())
    requires Isolated(f.fs.geo, old(f.Snap()), f.Snap()) && old(|f.fs.vol|) == f.fs.geo.nSectors
    ensures f.Recorded() <==> f.objsize == old(f.objsize)
  {
    hide f.Core, f.Cursor, f.DirOk, Isolated, f.Stretched, LdClust, LdSize;
    f.DirOkKept();
    if f.objsize == old(f.objsize) {
      f.SameStart();
      f.RecordKept();
    }
  }
}
