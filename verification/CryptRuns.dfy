/** Runs of operations on an encrypted file against its plaintext. */
module CryptRuns {
  import opened Wrappers
  import opened Bytes
  import opened FileImage
  import opened FatEntry
  import opened Chains
  import opened File
  import opened CryptLayout
  import opened Crypt

  /** What an open encrypted file is to its user: the plaintext, as long as there
      is one, the position and the error that sticks; and, as they decide the
      answers, whether the file has a header, its size, the size it can get, and
      whether the FAT has a reserved entry. */
  datatype Plain = Plain(
    text: Option<seq<byte>>, pos: nat, err: FResult, headed: bool, size: nat, room: nat, bad: bool)

  /** `nonce` is the fresh random nonce a new header would get, if any. */
  datatype Request =
    | Read(n: nat)
    | Write(data: seq<byte>, nonce: Option<seq<byte>>)
    | Seek(ofs: nat)
    | Truncate(n: nat, nonce: Option<seq<byte>>)

  datatype Event = Event(request: Request, res: FResult, out: seq<byte>, count: nat)

  const OFF_MAX: nat := 0x8000_0000_0000_0000

  /** Requests in the range of their types. */
  predicate Proper(q: Request) {
    match q
    case Read(n) => n <= MAX_SIZE
    case Write(data, nonce) => |data| <= MAX_SIZE && (nonce.Some? ==> |nonce.value| == NONCE_SIZE)
    case Seek(ofs) => ofs < OFF_MAX
    case Truncate(n, nonce) => n < OFF_MAX && (nonce.Some? ==> |nonce.value| == NONCE_SIZE)
  }

  /** There is a plaintext, and the position is an offset. */
  predicate Known(a: Plain) { a.text.Some? && a.pos < OFF_MAX }

  /** The file has `n` bytes, or can get them. */
  predicate HasRoom(a: Plain, n: nat) { n <= a.size || (n <= a.room && !a.bad) }

  /** The file is as large as its blocks and no larger than it can get; an error
      sticks only on a bad FAT. */
  predicate Sized(a: Plain) {
    && a.size <= a.room && (a.err != FR_OK ==> a.bad)
    && (a.text.Some? ==> if a.headed then PhysicalSize(|a.text.value|) <= a.size else a.text.value == [])
  }

  /** Inside the plaintext a read returns it; behind it, it answers with no
      bytes only if asked for none. */
  ghost predicate ReadStep(a: Plain, n: nat, e: Event, b: Plain)
    requires Known(a)
  {
    var p := a.text.value;
    if !a.headed then e.res == FR_OK && e.out == [] && b == a
    else if a.pos <= |p| then
      e.res == FR_OK && b == a.(pos := a.pos + Min(n, |p| - a.pos)) && e.out == p[a.pos..b.pos]
    else
      b.text == a.text && b.pos == a.pos + |e.out| && |e.out| <= n && (e.res == FR_OK && e.out == [] <==> n == 0)
  }

  /** The file does not have the block of the position. */
  predicate Blank(a: Plain) { !a.headed || a.size < BlockPos(a.pos / PLAIN_SIZE + 1) }

  predicate Zeros(s: seq<byte>) { forall i :: 0 <= i < |s| ==> s[i] == 0 }

  /** A write ends the plaintext behind its data; a gap in front of them is zero
      in a block that the file does not have. It succeeds if the file has
      the room; if not, it writes the blocks there is room for, and of what it
      wrote that is there which is in place. */
  ghost predicate WriteStep(a: Plain, data: seq<byte>, nonce: Option<seq<byte>>, e: Event, b: Plain)
    requires Known(a)
  {
    var p := a.text.value;
    if !a.headed && nonce.None? then e.res == FR_INT_ERR && e.count == 0 && b == a
    else
      && e.count <= |data| && b.pos == a.pos + e.count
      && (HasRoom(a, PhysicalSize(a.pos + |data|)) ==> e.res == FR_OK)
      && (if e.res == FR_OK then b.headed && e.count == |data|
          else e.res == FR_INT_ERR && (!a.bad ==> b.size == a.room))
      && if !Adjoins(p, a.pos, data) then b.text.None?
         else if e.res == FR_OK then
           && b.size == Max(a.size, PhysicalSize(b.pos))
           && exists fill :: |fill| == Max(0, a.pos - |p|) && (Blank(a) ==> Zeros(fill))
                && b.text == Some(p[..Min(a.pos, |p|)] + fill + data)
         else
           && Stops(a, e.count, b)
           && if a.headed then b.headed && b.text == Some(Overwritten(p, a.pos, data[..e.count])) else b.text.None?
  }

  /** A write of `count` bytes ended before the first block there is no room
      for. */
  predicate Stops(a: Plain, count: nat, b: Plain) {
    && !HasRoom(a, PhysicalSize(b.pos + 1))
    && (count > 0 ==> b.pos % PLAIN_SIZE == 0 && PhysicalSize(b.pos) <= b.size)
  }

  /** A seek moves the position and leaves the plaintext. A file without a header
      may grow by it, to bytes that are no header. */
  ghost predicate SeekStep(a: Plain, ofs: nat, e: Event, b: Plain)
    requires Known(a)
  {
    var to := BlockPos(ofs / PLAIN_SIZE);
    && b.pos == ofs && e.res == b.err
    && (to <= a.size || (a.headed && ofs <= |a.text.value|) ==> b == a.(pos := ofs))
    && (!a.bad ==> e.res == FR_OK && b.size == Max(a.size, Min(to, a.room)))
    && (a.headed ==> b.text == a.text && b.headed) && (b.text == a.text || b.text.None?)
  }

  /** A truncation cuts the plaintext; up to the end of the last block it can
      also lengthen it, by what the block holds there. */
  ghost predicate TruncateStep(a: Plain, n: nat, nonce: Option<seq<byte>>, e: Event, b: Plain)
    requires Known(a)
  {
    var p := a.text.value;
    && b.pos == a.pos && (e.res == FR_OK ==> b.headed)
    && if !a.headed && nonce.None? then e.res == FR_INT_ERR && b == a
       else if !a.headed then
         && (HasRoom(a, HEADER_SIZE) ==> e.res == FR_OK)
         && (if e.res == FR_OK then b.size == HEADER_SIZE && b.text == if n == 0 then Some([]) else None
             else b.text.None?)
       else
         && (e.res == FR_OK || a.bad)
         && (HasRoom(a, PhysicalSize(n)) ==> e.res == FR_OK && b.size == PhysicalSize(n))
         && (n <= |p| ==> e.res == FR_OK && b.text == Some(p[..n]) && b.size == PhysicalSize(n))
         && (|p| < n <= Blocks(|p|) * PLAIN_SIZE ==>
               e.res == FR_OK && b.text.Some? && p <= b.text.value && |b.text.value| == n)
         && (|p| < n && Blocks(|p|) * PLAIN_SIZE < n ==> b.text.None?)
  }

  /** The effect of one event; nothing is said of the text where there is none.
      The room and the state of the FAT never change. */
  ghost predicate Step(a: Plain, e: Event, b: Plain) {
    && Sized(a) && Sized(b) && b.room == a.room && b.bad == a.bad
    && if !Known(a) then b.text.None?
       else if a.err != FR_OK then e.res == a.err && e.out == [] && e.count == 0 && b == a
       else
         && (e.res == FR_OK ==> b.err == FR_OK)
         && match e.request
            case Read(n) => ReadStep(a, n, e, b) && e.count == |e.out|
            case Write(data, nonce) => WriteStep(a, data, nonce, e, b) && e.out == []
            case Seek(ofs) => SeekStep(a, ofs, e, b) && e.out == [] && e.count == 0
            case Truncate(n, nonce) => TruncateStep(a, n, nonce, e, b) && e.out == [] && e.count == 0
  }

  /** On a sound FAT a write succeeds if and only if the file can get as large
      as its blocks. */
  lemma WriteFits(a: Plain, e: Event, b: Plain)
    requires Step(a, e, b) && Known(a) && e.request.Write? && a.err == FR_OK && !a.bad
    requires (a.headed || e.request.nonce.Some?) && Adjoins(a.text.value, a.pos, e.request.data)
    ensures e.res == FR_OK <==> PhysicalSize(a.pos + |e.request.data|) <= a.room
  {
    hide PhysicalSize;
  }

  /** Where the text a request leaves is known beforehand: reads and writes
      inside the plaintext or into a new block behind it, seeks that do not have to make a file without header
      grow, truncations that cut. */
  predicate Foreseeable(a: Plain, q: Request)
    requires Known(a)
  {
    match q
    case Read(_) => a.pos <= |a.text.value|
    case Write(data, _) => a.pos <= |a.text.value| || (Adjoins(a.text.value, a.pos, data) && Blank(a))
    case Seek(ofs) => a.headed || BlockPos(ofs / PLAIN_SIZE) <= a.size
    case Truncate(n, _) => n <= |a.text.value|
  }

  /** A write that has to stop can do so in one place only. */
  lemma StopsOnce(a: Plain, n: nat, b: Plain, n': nat, b': Plain)
    requires Stops(a, n, b) && Stops(a, n', b') && b.pos == a.pos + n && b'.pos == a.pos + n' && !a.bad
    requires b'.size <= a.room
    ensures n' <= n
  {
    hide PhysicalSize;
    if n < n' { PhysicalSizeMonotone(b.pos + 1, b'.pos); }
  }

  lemma StepDetermined(a: Plain, e: Event, b: Plain, e': Event, b': Plain)
    requires Step(a, e, b) && Step(a, e', b') && e.request == e'.request && !a.bad
    requires Known(a) && Known(b) && Known(b') && Foreseeable(a, e.request)
    ensures e == e' && b == b'
  {
    hide PhysicalSize, BlockPos, Overwritten, Blocks;
    if e.request.Write? { WriteDetermined(a, e, b, e', b'); }
  }

  lemma WriteDetermined(a: Plain, e: Event, b: Plain, e': Event, b': Plain)
    requires Step(a, e, b) && Step(a, e', b') && e.request == e'.request && !a.bad && e.request.Write?
    requires Known(a) && Known(b) && Known(b') && Foreseeable(a, e.request)
    ensures e == e' && b == b'
  {
    hide PhysicalSize, Overwritten, Stops;
    if !a.headed && e.request.nonce.None? { return; }
    WriteFits(a, e, b);
    WriteFits(a, e', b');
    if e.res == FR_OK {
      Behind(a, e, b);
      Behind(a, e', b');
    } else {
      StopsOnce(a, e.count, b, e'.count, b');
      StopsOnce(a, e'.count, b', e.count, b);
    }
  }

  /** The text behind a foreseeable write. */
  lemma Behind(a: Plain, e: Event, b: Plain)
    requires Step(a, e, b) && Known(a) && e.request.Write? && e.res == FR_OK && a.err == FR_OK
    requires Foreseeable(a, e.request)
    ensures b.text == Some(a.text.value[..Min(a.pos, |a.text.value|)] + seq(Max(0, a.pos - |a.text.value|), _ => 0)
                             + e.request.data)
  {
    var p := a.text.value;
    var fill :| |fill| == Max(0, a.pos - |p|) && (Blank(a) ==> Zeros(fill))
      && b.text == Some(p[..Min(a.pos, |p|)] + fill + e.request.data);
    assert fill == seq(Max(0, a.pos - |p|), _ => 0);
  }

  /** On a volume with a sound FAT, full or not, the requests alone determine
      every answer and every state, as long as each is foreseeable: two runs
      from the same plaintext agree throughout. */
  lemma {:induction false} RunDetermined(s: seq<Plain>, e: seq<Event>, s': seq<Plain>, e': seq<Event>)
    requires Run(s, e) && Run(s', e') && |e| == |e'| && s[0] == s'[0] && !s[0].bad
    requires forall k :: 0 <= k < |s| ==> Known(s[k]) && Known(s'[k])
    requires forall k :: 0 <= k < |e| ==> e[k].request == e'[k].request && Foreseeable(s[k], e[k].request)
    ensures s == s' && e == e'
  {
    hide Step, Known, Foreseeable;
    for n := 0 to |e|
      invariant forall k :: 0 <= k <= n ==> s[k] == s'[k]
      invariant forall k :: 0 <= k < n ==> e[k] == e'[k]
      invariant !s[n].bad
    {
      assert Step(s[n], e[n], s[n + 1]) && Step(s'[n], e'[n], s'[n + 1]);
      assert Known(s[n]) && Known(s[n + 1]) && Known(s'[n + 1]) && Foreseeable(s[n], e[n].request);
      StepDetermined(s[n], e[n], s[n + 1], e'[n], s'[n + 1]);
      StepBad(s[n], e[n], s[n + 1]);
    }
  }

  lemma StepBad(a: Plain, e: Event, b: Plain)
    requires Step(a, e, b)
    ensures b.bad == a.bad
  {
  }

  ghost predicate Run(states: seq<Plain>, events: seq<Event>) {
    && |states| == |events| + 1
    && forall k :: 0 <= k < |events| ==> Step(states[k], events[k], states[k + 1])
  }

  lemma RunStarts(a: Plain)
    ensures Run([a], [])
  {
  }

  lemma RunGoesOn(states: seq<Plain>, events: seq<Event>, e: Event, b: Plain)
    requires Run(states, events) && Step(states[|events|], e, b)
    ensures Run(states + [b], events + [e]) && |states| == |events| + 1
  {
    hide Step;
    var s, t := states + [b], events + [e];
    forall k | 0 <= k < |t| ensures Step(s[k], t[k], s[k + 1]) {
      if k < |events| { assert Step(states[k], events[k], states[k + 1]); }
    }
  }

  /** The handle as its user sees it, with the plaintext it stands for. */
  ghost function PlainOf(c: CryptFil, text: Option<seq<byte>>): Plain
    reads c, c.f, c.f.fs`fat
  {
    Plain(text, c.lptr, c.f.err, ParseResult(c.f.content) == FR_OK, |c.f.content|, c.f.Room(), HasReserved(c.f.fs.fat))
  }

  /** A handle opened for reading and writing on a volume with its key. */
  ghost predicate Serves(c: CryptFil, text: Option<seq<byte>>)
    reads c, c.f, c.f.fs, c.f.fs.win, c.f.buf
  {
    c.f.canRead && c.f.canWrite && c.masterLoaded && c.Handle() && (text.Some? ==> c.Valid(text.value))
  }

  lemma HandleSized(c: CryptFil, text: Option<seq<byte>>)
    requires c.f.Ready() && (text.Some? ==> c.Valid(text.value))
    ensures Sized(PlainOf(c, text))
  {
    hide c.f.Ready, c.f.Room, BlocksOk, PhysicalSize;
    c.FileBounds();
    if text.Some? && ParseResult(c.f.content) == FR_OK {
      var h := HeaderOf(c.f.content);
      BlocksFit(c.aead, c.aead.kdf(c.master, h.nonce), h.nonce, c.f.content, text.value);
    }
  }

  /** A file with a plaintext and no header has none to be parsed. */
  lemma Unheaded(c: CryptFil, p: seq<byte>)
    requires c.Valid(p) && c.f.canRead
    ensures ParseResult(c.f.content) in {FR_OK, FR_NO_HEADER}
    ensures c.parsed ==> ParseResult(c.f.content) == FR_OK
    ensures c.Headless() <==> ParseResult(c.f.content) != FR_OK
    ensures ParseResult(c.f.content) != FR_OK ==> p == []
  {
    if c.parsed { HeaderRoundTrip(c.hdr, c.f.content); }
  }

  lemma ParsedIsHeaded(c: CryptFil)
    ensures c.Handle() && c.parsed ==> ParseResult(c.f.content) == FR_OK
  {
    if c.Handle() && c.parsed { HeaderRoundTrip(c.hdr, c.f.content); }
  }

  /** A write or a truncation that fails may leave a header half written, if the
      handle had not seen one before. */
  predicate Sound(parsed: bool, e: Event) {
    e.res == FR_OK || parsed || !(e.request.Write? || e.request.Truncate?)
  }

  method PerformRead(c: CryptFil, ghost text: Option<seq<byte>>, n: nat) returns (e: Event)
    requires Serves(c, text) && c.lptr < OFF_MAX && n <= MAX_SIZE
    modifies c, c.f, c.f.buf, c.f.fs, c.f.fs.win
    ensures c.f.Ready() && c.f.OthersStay()
    ensures Serves(c, text) && e.request == Read(n) && Step(old(PlainOf(c, text)), e, PlainOf(c, text))
  {
    hide c.Handle, c.f.Room, c.f.Ready, Sized, c.f.Apart, Decrypts;
    c.HandleHeader();
    HandleSized(c, text);
    if text.Some? { Unheaded(c, text.value); }
    var res, data := c.Read(Text(text), n);
    e := Event(Read(n), res, data, |data|);
    c.HandleHeader();
    HandleSized(c, text);
  }

  ghost function Text(p: Option<seq<byte>>): seq<byte> { if p.Some? then p.value else [] }

  /** The gap in a block that the file does not have. */
  lemma GapBlank(c: CryptFil, text: Option<seq<byte>>)
    requires text.Some? ==> c.Valid(text.value)
    ensures text.Some? && c.f.canRead && Blank(PlainOf(c, text)) ==> Zeros(c.GapFor(text.value))
  {
    hide BlocksOk, OldBlock;
    if text.Some? && c.f.canRead {
      Unheaded(c, text.value);
      if !c.Headless() && |c.f.content| < BlockPos(c.lptr / PLAIN_SIZE + 1) {
        var h := HeaderOf(c.f.content);
        GapOfNothing(c.aead, c.aead.kdf(c.master, h.nonce), h.nonce, c.f.content, true, text.value, c.lptr);
      }
    }
  }

  method PerformWrite(c: CryptFil, ghost text: Option<seq<byte>>, data: seq<byte>, nonce: Option<seq<byte>>)
    returns (e: Event, ghost next: Option<seq<byte>>)
    requires Serves(c, text) && c.lptr < OFF_MAX && Proper(Write(data, nonce))
    modifies c, c.f, c.f.buf, c.f.fs, c.f.fs.win
    ensures c.f.Ready() && c.f.OthersStay() && (Sound(old(c.parsed), e) ==> Serves(c, next))
    ensures e.request == Write(data, nonce) && Step(old(PlainOf(c, text)), e, PlainOf(c, next))
  {
    hide c.Handle, c.f.Room, c.f.Ready, Sized, c.f.Apart, Decrypts, c.GapFor, Blank, Zeros;
    hide PhysicalSize, Overwritten, Adjoins, Mirrored, ParseResult, HasReserved;
    c.HandleHeader();
    HandleSized(c, text);
    ghost var p := Text(text);
    if text.Some? { Unheaded(c, p); }
    ghost var builds := c.Builds(p, data);
    if c.Startable() && builds { c.BuildsAdmits(p, data, nonce); }
    ghost var a := PlainOf(c, text);
    GapBlank(c, text);
    ghost var gap := c.GapFor(p);
    var res, bw;
    ghost var fill;
    res, bw, fill := c.Write(p, data, nonce);
    ParsedIsHeaded(c);
    e := Event(Write(data, nonce), res, [], bw);
    next := if text.None? then None
            else if a.err != FR_OK || (!a.headed && nonce.None?) then text
            else if !builds then None
            else if res == FR_OK then Some(p[..Min(a.pos, |p|)] + fill + data)
            else if a.headed then Some(Overwritten(p, a.pos, data[..bw]))
            else None;
    HandleSized(c, next);
  }

  method PerformSeek(c: CryptFil, ghost text: Option<seq<byte>>, ofs: nat)
    returns (e: Event, ghost next: Option<seq<byte>>)
    requires Serves(c, text) && c.lptr < OFF_MAX && ofs < OFF_MAX
    modifies c, c.f, c.f.buf, c.f.fs, c.f.fs.win
    ensures c.f.Ready() && c.f.OthersStay()
    ensures Serves(c, next) && e.request == Seek(ofs) && Step(old(PlainOf(c, text)), e, PlainOf(c, next))
  {
    hide c.Handle, c.f.Room, c.f.Ready, Sized, c.f.Apart, Decrypts;
    c.HandleHeader();
    HandleSized(c, text);
    ghost var p := Text(text);
    if text.Some? { Unheaded(c, p); }
    var res := c.Seek(p, ofs);
    e := Event(Seek(ofs), res, [], 0);
    next := if text.Some? && c.Valid(p) then text else None;
    if next.Some? { Unheaded(c, p); }
    c.HandleHeader();
    HandleSized(c, next);
  }

  method PerformTruncate(c: CryptFil, ghost text: Option<seq<byte>>, n: nat, nonce: Option<seq<byte>>)
    returns (e: Event, ghost next: Option<seq<byte>>)
    requires Serves(c, text) && c.lptr < OFF_MAX && Proper(Truncate(n, nonce))
    modifies c, c.f, c.f.buf, c.f.fs, c.f.fs.win
    ensures c.f.Ready() && c.f.OthersStay() && (Sound(old(c.parsed), e) ==> Serves(c, next))
    ensures e.request == Truncate(n, nonce) && Step(old(PlainOf(c, text)), e, PlainOf(c, next))
  {
    hide c.Handle, c.f.Room, c.f.Ready, Sized, c.f.Apart, Decrypts, PhysicalSize;
    c.HandleHeader();
    HandleSized(c, text);
    ghost var p := Text(text);
    if text.Some? { Unheaded(c, p); }
    ghost var a := PlainOf(c, text);
    var res := c.Truncate(p, n, nonce);
    ParsedIsHeaded(c);
    e := Event(Truncate(n, nonce), res, [], 0);
    next := None;
    if text.None? {
    } else if a.err != FR_OK || (!a.headed && nonce.None?) {
      next := text;
    } else if !a.headed {
      next := if res == FR_OK && n == 0 then Some([]) else None;
    } else if n <= |p| {
      next := Some(p[..n]);
    } else if n <= Blocks(|p|) * PLAIN_SIZE {
      ghost var q :| p <= q && |q| == n && c.Valid(q);
      next := Some(q);
    }
    HandleSized(c, next);
  }

  /** One request on an encrypted file, answered as its plaintext demands; every
      other file of the volume keeps its chain and its bytes. */
  method Perform(c: CryptFil, ghost text: Option<seq<byte>>, q: Request)
    returns (e: Event, ghost next: Option<seq<byte>>)
    requires Serves(c, text) && c.lptr < OFF_MAX && Proper(q)
    modifies c, c.f, c.f.buf, c.f.fs, c.f.fs.win
    ensures c.f.Ready() && c.f.OthersStay() && (Sound(old(c.parsed), e) ==> Serves(c, next))
    ensures e.request == q && Step(old(PlainOf(c, text)), e, PlainOf(c, next))
  {
    hide Step, Serves, c.f.OthersStay, c.f.Ready;
    next := text;
    match q {
      case Read(n) => e := PerformRead(c, text, n);
      case Write(data, nonce) => e, next := PerformWrite(c, text, data, nonce);
      case Seek(ofs) => e, next := PerformSeek(c, text, ofs);
      case Truncate(n, nonce) => e, next := PerformTruncate(c, text, n, nonce);
    }
  }

  /** Every run of requests on an encrypted file is a run of its plaintext, and
      no other file of the volume notices it. It ends early after a failed write
      or truncation of a file whose header had not been seen, and where the
      position leaves the range of an offset. */
  method RunAll(c: CryptFil, ghost text: Option<seq<byte>>, requests: seq<Request>)
    returns (ghost states: seq<Plain>, events: seq<Event>)
    requires Serves(c, text) && c.lptr < OFF_MAX && forall k :: 0 <= k < |requests| ==> Proper(requests[k])
    modifies c, c.f, c.f.buf, c.f.fs, c.f.fs.win
    ensures |events| <= |requests| && forall k :: 0 <= k < |events| ==> events[k].request == requests[k]
    ensures Run(states, events) && states[0] == old(PlainOf(c, text))
    ensures states[|events|] == PlainOf(c, states[|events|].text)
    ensures events == [] || !Failed(events[|events| - 1]) ==> Serves(c, states[|events|].text)
    ensures |events| == |requests| || states[|events|].pos >= OFF_MAX || (events != [] && Failed(events[|events| - 1]))
    ensures c.f.OthersStay()
  {
    hide Step, Run, Serves, Proper, c.f.Apart, Mirrored, c.f.Room;
    ghost var p := text;
    states, events := [PlainOf(c, p)], [];
    assert Run(states, events) by { RunStarts(PlainOf(c, p)); }
    for i := 0 to |requests|
      invariant Serves(c, p) && |events| == i && c.lptr < OFF_MAX && c.f.OthersStay()
      invariant forall k :: 0 <= k < i ==> events[k].request == requests[k]
      invariant Run(states, events) && |states| == i + 1 && states[0] == old(PlainOf(c, text))
      invariant states[i] == PlainOf(c, p)
    {
      var e;
      var parsed := c.parsed;
      e, p := Perform(c, p, requests[i]);
      RunGoesOn(states, events, e, PlainOf(c, p));
      states, events := states + [PlainOf(c, p)], events + [e];
      if !Sound(parsed, e) || c.lptr >= OFF_MAX { return; }
    }
  }

  predicate Failed(e: Event) { e.res != FR_OK && (e.request.Write? || e.request.Truncate?) }

  /** Event `e` at position `pos` leaves byte `i` of the plaintext alone: a write
      also cuts what is behind it. */
  predicate Spares(pos: nat, e: Event, i: nat) {
    match e.request
    case Write(data, nonce) => i < pos
    case Truncate(n, nonce) => i < n
    case _ => true
  }

  lemma StepSpares(a: Plain, e: Event, b: Plain, i: nat)
    requires Step(a, e, b) && Known(a) && b.text.Some? && i < |a.text.value| && Spares(a.pos, e, i)
    ensures i < |b.text.value| && b.text.value[i] == a.text.value[i]
  {
    hide Blocks;
    var p := a.text.value;
    if a.err == FR_OK && e.request.Write? && e.res != FR_OK && a.headed && a.pos <= |p| {
      SpliceAt(p, a.pos, e.request.data[..e.count], i);
    }
  }

  /** Over any run, a byte of the plaintext that no write has reached or passed
      and no truncation has cut off stays. */
  lemma {:induction false} BytePersists(states: seq<Plain>, events: seq<Event>, i: nat)
    requires Run(states, events) && forall k :: 0 <= k < |states| ==> Known(states[k])
    requires i < |Text(states[0].text)| && forall k :: 0 <= k < |events| ==> Spares(states[k].pos, events[k], i)
    ensures i < |Text(states[|events|].text)| && Text(states[|events|].text)[i] == Text(states[0].text)[i]
  {
    hide Step;
    for k := 0 to |events|
      invariant i < |Text(states[k].text)| && Text(states[k].text)[i] == Text(states[0].text)[i]
    {
      assert Step(states[k], events[k], states[k + 1]) && Known(states[k]) && Known(states[k + 1]);
      StepSpares(states[k], events[k], states[k + 1], i);
    }
  }

  /** Read your writes: in any run that begins with a successful write and ends
      with a read, a byte both of them cover, and nothing in between reaches,
      passes or cuts off, is read back as written. */
  lemma ReadYourWrites(states: seq<Plain>, events: seq<Event>, i: nat)
    requires Run(states, events) && |events| >= 2 && forall k :: 0 <= k < |states| ==> Known(states[k])
    requires events[0].request.Write? && events[0].res == FR_OK && events[|events| - 1].request.Read?
    requires states[0].pos <= i < states[0].pos + |events[0].request.data|
    requires states[|events| - 1].pos <= i < states[|events|].pos
    requires forall k :: 1 <= k < |events| ==> Spares(states[k].pos, events[k], i)
    ensures var out := events[|events| - 1].out;
      i - states[|events| - 1].pos < |out|
        && out[i - states[|events| - 1].pos] == events[0].request.data[i - states[0].pos]
  {
    hide Step, Known, Spares;
    var n := |events| - 1;
    assert Step(states[0], events[0], states[1]) && Known(states[0]) && Known(states[1]);
    Written(states[0], events[0], states[1], i);
    var mid, evs := states[1..n + 1], events[1..n];
    forall k | 0 <= k < |evs| ensures Step(mid[k], evs[k], mid[k + 1]) && Spares(mid[k].pos, evs[k], i) {
      assert Step(states[k + 1], events[k + 1], states[k + 2]) && Spares(states[k + 1].pos, events[k + 1], i);
    }
    BytePersists(mid, evs, i);
    assert Step(states[n], events[n], states[n + 1]) && Known(states[n]);
    ReadAt(states[n], events[n], states[n + 1], i);
  }

  lemma ReadAt(a: Plain, e: Event, b: Plain, i: nat)
    requires Step(a, e, b) && Known(a) && e.request.Read? && a.pos <= i < b.pos && i < |Text(a.text)|
    ensures i - a.pos < |e.out| && e.out[i - a.pos] == Text(a.text)[i]
  {
  }

  lemma Written(a: Plain, e: Event, b: Plain, i: nat)
    requires Step(a, e, b) && Known(a) && Known(b) && e.request.Write? && e.res == FR_OK
    requires a.pos <= i < a.pos + |e.request.data|
    ensures i < |Text(b.text)| && Text(b.text)[i] == e.request.data[i - a.pos]
  {
    var p := a.text.value;
    var fill :| |fill| == Max(0, a.pos - |p|) && b.text == Some(p[..Min(a.pos, |p|)] + fill + e.request.data);
  }
}
