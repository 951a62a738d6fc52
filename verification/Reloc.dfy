/** The relocation normaliser: the text segment is rewritten, chunk by chunk,
    into a form that does not depend on where the segments were loaded. */
module Reloc {
  import opened Bytes

  const SEG_NONE: nat := 1
  const SEG_TEXT: nat := 2
  const SEG_RODATA: nat := 3
  const SEG_RWDATA: nat := 4
  const SEG_BSS: nat := 5
  const SEG_OTHER: nat := 6

  const R_X86_64_32: nat := 2
  const R_X86_64_64: nat := 4
  const R_X86_64_PC32: nat := 5
  const R_X86_64_PLT32: nat := 6
  const R_AARCH64_ABS64: nat := 8
  const R_ARM_THM_JUMP11: nat := 22
  const N_LAYOUTS: nat := 26

  /** One record of the relocation table. */
  datatype Ent = Ent(offset: nat, destOffset: nat, destAddend: int, destSegment: nat, relocType: nat)

  /** Where the segments are, and whether the text is the running one. `wide`
      stands for whatever label the compiler makes of the over-wide shift for
      64-bit records. */
  datatype SegMap = SegMap(textStart: nat, rodataStart: nat, dataStart: nat, bssStart: nat, live: bool,
                           wide: (nat, nat) -> nat)

  /** Width of a relocation in bytes, 0 for a type without a layout. */
  function Width(t: nat): nat {
    if t < 2 || t >= N_LAYOUTS then 0
    else if t == R_X86_64_64 || t == R_AARCH64_ABS64 then 8
    else if t == R_ARM_THM_JUMP11 then 2
    else 4
  }

  predicate IsX86(t: nat) { R_X86_64_32 <= t <= R_X86_64_PLT32 }

  predicate IsRelative(t: nat) { t == R_X86_64_PC32 || t == R_X86_64_PLT32 }

  /** Load address of a destination segment; records of other segments are
      zeroed. */
  function SegBeg(m: SegMap, seg: nat): nat {
    if seg == SEG_TEXT then m.textStart
    else if seg == SEG_RODATA then m.rodataStart
    else if seg == SEG_RWDATA then m.dataStart
    else if seg == SEG_BSS then m.bssStart
    else 0
  }

  function DestSeg(e: Ent): nat { if SEG_TEXT <= e.destSegment <= SEG_BSS then e.destSegment else SEG_OTHER }

  const WORD: nat := 0x1_0000_0000

  /** The low 32 bits of the address bits after normalisation, before the
      label: the offset of the destination in its segment. */
  function Base32(m: SegMap, e: Ent, raw: nat): (r: nat)
    ensures r < WORD
  {
    if !IsX86(e.relocType) || DestSeg(e) == SEG_OTHER then 0
    else if !m.live then e.destOffset % WORD
    else if IsRelative(e.relocType) then
      (raw + e.offset - e.destAddend - (SegBeg(m, DestSeg(e)) - m.textStart)) % WORD
    else (raw - SegBeg(m, DestSeg(e)) - e.destAddend) % WORD
  }

  /** The label xored into the top bits of a record of `bits` bits. */
  function Label(m: SegMap, e: Ent, bits: nat): nat {
    if bits == 32 then
      XorBits(DestSeg(e) * 0x2000_0000 % WORD, e.relocType * 0x100_0000 % WORD, 32)
    else if bits == 16 then XorBits(DestSeg(e) * 0x2000 % 0x1_0000, e.relocType * 0x100 % 0x1_0000, 16)
    else m.wide(DestSeg(e), e.relocType)
  }

  /** The 64-bit address bits, for 64-bit records. */
  function Base64(m: SegMap, e: Ent, raw: nat): nat {
    if !IsX86(e.relocType) || DestSeg(e) == SEG_OTHER then 0
    else if !m.live then e.destOffset
    else (raw - SegBeg(m, DestSeg(e)) - e.destAddend) % 0x1_0000_0000_0000_0000
  }

  /** What a record's bytes become. */
  function Rewrite(m: SegMap, e: Ent, bytes: seq<byte>): (r: seq<byte>)
    ensures |r| == Width(e.relocType)
  {
    var w := Width(e.relocType);
    var raw := LdLE(bytes);
    if w == 4 then StLE(XorBits(Base32(m, e, raw), Label(m, e, 32), 32), 4)
    else if w == 2 then StLE(XorBits(0, Label(m, e, 16), 16), 2)
    else StLE(XorBits(Base64(m, e, raw), Label(m, e, 64), 64), w)
  }

  /** Records without a destination segment are passed over. */
  predicate Active(e: Ent) { e.destSegment != SEG_NONE }

  /** A record the program has no layout for. */
  predicate Unknown(e: Ent) { Active(e) && Width(e.relocType) == 0 }

  /** The table as the build makes it: sorted, every active record inside the
      text, no two of them overlapping; the last record is a sentinel. */
  ghost predicate TableOk(tab: seq<Ent>, size: nat) {
    && |tab| > 1
    && (forall i, j :: 0 <= i < j < |tab| ==> tab[i].offset <= tab[j].offset)
    && (forall i :: 0 <= i < |tab| - 1 && Active(tab[i]) ==>
          tab[i].offset + Width(tab[i].relocType) <= size)
    && (forall i, j :: 0 <= i < j < |tab| - 1 && Active(tab[i]) && Active(tab[j]) ==>
          tab[i].offset + Width(tab[i].relocType) <= tab[j].offset)
  }

  function Replace(s: seq<byte>, at: nat, b: seq<byte>): (r: seq<byte>)
    requires at + |b| <= |s|
    ensures |r| == |s|
  {
    s[..at] + b + s[at + |b|..]
  }

  /** The text with the first `k` records rewritten: the whole pass. */
  ghost function Patched(m: SegMap, tab: seq<Ent>, text: seq<byte>, k: nat): (r: seq<byte>)
    requires TableOk(tab, |text|) && k < |tab|
    ensures |r| == |text|
  {
    if k == 0 then text
    else
      var e := tab[k - 1];
      var prev := Patched(m, tab, text, k - 1);
      if Active(e) then
        Replace(prev, e.offset, Rewrite(m, e, text[e.offset..e.offset + Width(e.relocType)]))
      else prev
  }

  ghost function Normalized(m: SegMap, tab: seq<Ent>, text: seq<byte>): (r: seq<byte>)
    requires TableOk(tab, |text|)
    ensures |r| == |text|
  {
    Patched(m, tab, text, |tab| - 1)
  }

  /** Records from `k` on touch nothing before the first of them. */
  lemma {:induction false} LaterRecords(m: SegMap, tab: seq<Ent>, text: seq<byte>, k: nat, n: nat, x: nat)
    requires TableOk(tab, |text|) && k <= n < |tab| && x < |text|
    requires k < n ==> x < tab[k].offset
    ensures Patched(m, tab, text, n)[x] == Patched(m, tab, text, k)[x]
    decreases n
  {
    if k < n {
      LaterRecords(m, tab, text, k, n - 1, x);
    }
  }

  /** Records before `k` leave the bytes after all of them as they were. */
  lemma {:induction false} EarlierRecords(m: SegMap, tab: seq<Ent>, text: seq<byte>, k: nat, x: nat)
    requires TableOk(tab, |text|) && k < |tab| && x < |text|
    requires forall i :: 0 <= i < k && Active(tab[i]) ==> tab[i].offset + Width(tab[i].relocType) <= x
    ensures Patched(m, tab, text, k)[x] == text[x]
  {
    if k > 0 {
      EarlierRecords(m, tab, text, k - 1, x);
    }
  }

  // --- what a record becomes ------------------------------------------------

  /** A byte of an active record is rewritten by that record alone. */
  lemma {:induction false} PatchedIn(m: SegMap, tab: seq<Ent>, text: seq<byte>, i: nat, k: nat, x: nat)
    requires TableOk(tab, |text|) && i < k < |tab| && Active(tab[i])
    requires tab[i].offset <= x < tab[i].offset + Width(tab[i].relocType)
    ensures var b := text[tab[i].offset..tab[i].offset + Width(tab[i].relocType)];
      Patched(m, tab, text, k)[x] == Rewrite(m, tab[i], b)[x - tab[i].offset]
  {
    hide Rewrite, Width;
    if k > i + 1 { PatchedIn(m, tab, text, i, k - 1, x); }
  }

  /** The bytes of a record in the normalised text. */
  lemma RecordRewritten(m: SegMap, tab: seq<Ent>, text: seq<byte>, i: nat)
    requires TableOk(tab, |text|) && i < |tab| - 1 && Active(tab[i])
    ensures var lo, hi := tab[i].offset, tab[i].offset + Width(tab[i].relocType);
      hi <= |text| && Normalized(m, tab, text)[lo..hi] == Rewrite(m, tab[i], text[lo..hi])
  {
    hide Rewrite, Width;
    var lo, hi := tab[i].offset, tab[i].offset + Width(tab[i].relocType);
    forall x | lo <= x < hi ensures Normalized(m, tab, text)[x] == Rewrite(m, tab[i], text[lo..hi])[x - lo] {
      PatchedIn(m, tab, text, i, |tab| - 1, x);
    }
  }

  /** Outside the active records the text stays as it is. */
  lemma {:induction false} OutsideRecords(m: SegMap, tab: seq<Ent>, text: seq<byte>, k: nat, x: nat)
    requires TableOk(tab, |text|) && k < |tab| && x < |text|
    requires forall i :: 0 <= i < k && Active(tab[i]) ==>
      !(tab[i].offset <= x < tab[i].offset + Width(tab[i].relocType))
    ensures Patched(m, tab, text, k)[x] == text[x]
  {
    hide Rewrite, Width;
    if k > 0 { OutsideRecords(m, tab, text, k - 1, x); }
  }

  /** Records of the types 2 to 25 have a layout, and no others. */
  lemma KnownTypes(e: Ent)
    ensures Unknown(e) <==> e.destSegment != 1 && !(2 <= e.relocType < 26)
  {
  }

  /** Segment above type above nothing, in the top eight bits. */
  lemma LabelIs(m: SegMap, e: Ent)
    requires e.relocType < 32
    ensures Label(m, e, 32) == DestSeg(e) * 0x2000_0000 + e.relocType * 0x100_0000
    ensures Label(m, e, 16) == DestSeg(e) * 0x2000 + e.relocType * 0x100
  {
    hide XorBits, Pow2;
    Pow2Values();
    LabelParts(DestSeg(e), e.relocType, 0x100_0000, 29, 32);
    LabelParts(DestSeg(e), e.relocType, 0x100, 13, 16);
  }

  lemma LabelParts(seg: nat, t: nat, unit: nat, k: nat, n: nat)
    requires seg < 8 && t < 32 && k <= n && Pow2(k) == 32 * unit && Pow2(n) == 256 * unit
    ensures XorBits(seg * (32 * unit) % Pow2(n), t * unit % Pow2(n), n) == seg * (32 * unit) + t * unit
  {
    hide XorBits, Pow2;
    MulMonotone(seg, 7, 32 * unit);
    MulMonotone(t, 31, unit);
    DivUnique(seg * (32 * unit), Pow2(n), 0, seg * (32 * unit));
    DivUnique(t * unit, Pow2(n), 0, t * unit);
    ModAdd(0, seg, Pow2(k));
    XorDisjoint(t * unit, seg * (32 * unit), k, n);
  }

  /** What a 32-bit record holds in the normalised text, bit by bit: the offset
      of its destination in the segment, or nothing, under a label of segment
      and type. */
  lemma RecordBits32(m: SegMap, tab: seq<Ent>, text: seq<byte>, i: nat, t: nat)
    requires TableOk(tab, |text|) && i < |tab| - 1 && Active(tab[i])
    requires 2 <= tab[i].relocType < 26 && tab[i].relocType !in {4, 8, 22} && tab[i].destOffset < 0x1_0000_0000
    requires m.live && Resolved(tab[i]) ==> RecordBytes(tab[i], text) == LinkedBytes(m, tab[i])
    ensures var e := tab[i];
      && e.offset + 4 <= |text|
      && var v := LdLE(Normalized(m, tab, text)[e.offset..e.offset + 4]);
         var seg := if 2 <= e.destSegment <= 5 then e.destSegment else 6;
         var base := if e.relocType <= 6 && seg != 6 then e.destOffset else 0;
         && v == XorBits(base, seg * 0x2000_0000 + e.relocType * 0x100_0000, 32)
         && (Bit(v, t) <==> t < 32 && Bit(base, t) != Bit(seg * 0x2000_0000 + e.relocType * 0x100_0000, t))
  {
    hide Normalized, XorBits, Bit;
    var e := tab[i];
    RecordRewritten(m, tab, text, i);
    LabelIs(m, e);
    if Resolved(e) { SideBase32(m, e, RecordBytes(e, text)); }
    var base := if Resolved(e) then e.destOffset else 0;
    Pow2Values();
    Pow256Values();
    LoadStore(XorBits(base, Label(m, e, 32), 32), 4);
    XorBit(base, Label(m, e, 32), 32, t);
  }

  /** And read off, where the offset leaves the label alone. */
  lemma Record32(m: SegMap, tab: seq<Ent>, text: seq<byte>, i: nat)
    requires TableOk(tab, |text|) && i < |tab| - 1 && Active(tab[i])
    requires 2 <= tab[i].relocType < 26 && tab[i].relocType !in {4, 8, 22} && tab[i].destOffset < 0x100_0000
    requires m.live && Resolved(tab[i]) ==> RecordBytes(tab[i], text) == LinkedBytes(m, tab[i])
    ensures var e := tab[i];
      && e.offset + 4 <= |text|
      && var v := LdLE(Normalized(m, tab, text)[e.offset..e.offset + 4]);
         && v / 0x2000_0000 == (if 2 <= e.destSegment <= 5 then e.destSegment else 6)
         && v / 0x100_0000 % 32 == e.relocType
         && v % 0x100_0000 == if e.relocType <= 6 && 2 <= e.destSegment <= 5 then e.destOffset else 0
  {
    hide Normalized, XorBits, Bit, TableOk, RecordBytes, LinkedBytes, LdLE;
    var e := tab[i];
    RecordBits32(m, tab, text, i, 0);
    var seg := if 2 <= e.destSegment <= 5 then e.destSegment else 6;
    LabelReads(if e.relocType <= 6 && seg != 6 then e.destOffset else 0, seg, e.relocType);
  }

  lemma LabelReads(base: nat, seg: nat, t: nat)
    requires base < 0x100_0000 && seg < 8 && t < 32
    ensures var v := XorBits(base, seg * 0x2000_0000 + t * 0x100_0000, 32);
      v / 0x2000_0000 == seg && v / 0x100_0000 % 32 == t && v % 0x100_0000 == base
  {
    hide XorBits;
    Pow2Values();
    var top := seg * 32 + t;
    ModAdd(0, top, 0x100_0000);
    XorDisjoint(base, top * 0x100_0000, 24, 32);
    ModAdd(base, top, 0x100_0000);
    ModAdd(t * 0x100_0000 + base, seg, 0x2000_0000);
    ModAdd(t, seg, 32);
  }

  /** The 16-bit record, a bare label. */
  lemma Record16(m: SegMap, tab: seq<Ent>, text: seq<byte>, i: nat)
    requires TableOk(tab, |text|) && i < |tab| - 1 && Active(tab[i]) && tab[i].relocType == 22
    ensures var e := tab[i];
      && e.offset + 2 <= |text|
      && var v := LdLE(Normalized(m, tab, text)[e.offset..e.offset + 2]);
         && v / 0x2000 == (if 2 <= e.destSegment <= 5 then e.destSegment else 6)
         && v / 0x100 % 32 == 22 && v % 0x100 == 0
  {
    hide Normalized, XorBits;
    var e := tab[i];
    RecordRewritten(m, tab, text, i);
    LabelIs(m, e);
    Pow2Values();
    Pow256Values();
    XorDisjoint(0, Label(m, e, 16), 0, 16);
    LoadStore(Label(m, e, 16), 2);
  }

  /** A 64-bit record, under whatever label the over-wide shift gives. */
  lemma RecordBits64(m: SegMap, tab: seq<Ent>, text: seq<byte>, i: nat, t: nat)
    requires TableOk(tab, |text|) && i < |tab| - 1 && Active(tab[i])
    requires tab[i].relocType in {4, 8} && tab[i].destOffset < 0x1_0000_0000
    requires m.live && Resolved(tab[i]) ==> RecordBytes(tab[i], text) == LinkedBytes(m, tab[i])
    ensures var e := tab[i];
      && e.offset + 8 <= |text|
      && var v := LdLE(Normalized(m, tab, text)[e.offset..e.offset + 8]);
         var seg := if 2 <= e.destSegment <= 5 then e.destSegment else 6;
         var base := if e.relocType == 4 && seg != 6 then e.destOffset else 0;
         Bit(v, t) <==> t < 64 && Bit(base, t) != Bit(m.wide(seg, e.relocType), t)
  {
    hide Normalized, XorBits, Bit;
    var e := tab[i];
    RecordRewritten(m, tab, text, i);
    if Resolved(e) { SideBase64(m, e, RecordBytes(e, text)); }
    var base := if Resolved(e) then e.destOffset else 0;
    Pow2Values();
    Pow2Sum(32, 32);
    Pow256Values();
    LoadStore(XorBits(base, Label(m, e, 64), 64), 8);
    XorBit(base, Label(m, e, 64), 64, t);
  }

  // --- the starting index ---------------------------------------------------

  /** `r` is the first record at or after `x`. */
  ghost predicate LowerBound(tab: seq<Ent>, x: nat, r: nat) {
    && r < |tab|
    && (forall i :: 0 <= i < r ==> tab[i].offset < x)
    && (forall i :: r <= i < |tab| ==> x <= tab[i].offset)
  }

  /** find_reloc_tab_offset: the halving search stays inside the table, and the
      two scans after it end at the true lower bound. */
  method FindIndex(tab: seq<Ent>, textLen: nat, x: nat) returns (ret: int)
    requires forall i, j :: 0 <= i < j < |tab| ==> tab[i].offset <= tab[j].offset
    ensures ret == -1 <==> |tab| <= 1 || x >= textLen || x >= tab[|tab| - 1].offset
    ensures ret != -1 ==> 0 <= ret && LowerBound(tab, x, ret)
  {
    if |tab| <= 1 { return -1; }
    if x >= textLen { return -1; }
    if x >= tab[|tab| - 1].offset { return -1; }
    ret := 0;
    var hop := |tab| / 2;
    while hop > 0
      invariant hop >= 0 && 0 <= ret < |tab| && ret + 2 * hop <= |tab|
      invariant ret == 0 || ret >= 2 * hop
    {
      if x == tab[ret].offset { break; }
      else if x > tab[ret].offset { ret := ret + hop; }
      else if ret != 0 { ret := ret - hop; }
      hop := hop / 2;
    }
    while ret < |tab| - 1 && tab[ret].offset < x
      invariant 0 <= ret < |tab|
    {
      ret := ret + 1;
    }
    while ret > 0 && tab[ret - 1].offset >= x
      invariant 0 <= ret < |tab| && x <= tab[ret].offset
    {
      ret := ret - 1;
    }
  }

  // --- one chunk ------------------------------------------------------------

  /** Where a pass may resume at text offset `x`: every active record before
      `r` ends at or before `x`, every record from `r` on begins at or after. */
  ghost predicate Resume(tab: seq<Ent>, x: nat, r: nat) {
    && r < |tab|
    && (forall i :: 0 <= i < r && Active(tab[i]) ==> tab[i].offset + Width(tab[i].relocType) <= x)
    && (forall i :: 0 <= i < r && Unknown(tab[i]) ==> tab[i].offset < x)
    && (forall i :: r <= i < |tab| - 1 ==> x <= tab[i].offset)
  }

  /** No active record straddles `x`. */
  ghost predicate NoStraddle(tab: seq<Ent>, x: nat) {
    forall i :: 0 <= i < |tab| - 1 && Active(tab[i]) ==>
      tab[i].offset + Width(tab[i].relocType) <= x || x <= tab[i].offset
  }

  /** From record `i` on, the scan of the chunk comes to an unknown record: all
      before it lie in the chunk. */
  ghost predicate BadAhead(tab: seq<Ent>, off: nat, len: nat, i: nat) {
    exists u :: i <= u < |tab| - 1 && Unknown(tab[u]) && Passed(tab, off + len, i, u)
  }

  /** The active records from `i` up to `u` are known and end at or before `x`. */
  ghost predicate Passed(tab: seq<Ent>, x: nat, i: nat, u: nat)
    requires u <= |tab|
  {
    forall j :: i <= j < u && Active(tab[j]) ==> !Unknown(tab[j]) && tab[j].offset + Width(tab[j].relocType) <= x
  }

  /** wc_reloc_normalize_text: the chunk of `len` bytes at `off` is copied and
      patched in place, up to the first relocation it would cut in two; what is
      done is the same as in the whole pass. It fails behind the last record,
      and when the scan, from record `from` on, comes to an unknown one. */
  method NormalizeText(m: SegMap, tab: seq<Ent>, text: seq<byte>, off: nat, len: nat, out: array<byte>, cur: int)
    returns (ret: int, cur': int, ghost from: nat)
    requires TableOk(tab, |text|) && off + len <= |text| && len <= out.Length
    requires cur == -1 || (0 <= cur && Resume(tab, off, cur))
    requires NoStraddle(tab, off)
    modifies out
    ensures ret == -1 <==> len == 0 || (cur == -1 && off >= tab[|tab| - 1].offset) || BadAhead(tab, off, len, from)
    ensures len > 0 ==> if cur != -1 then from == cur else off < tab[|tab| - 1].offset ==> LowerBound(tab, off, from)
    ensures ret != -1 ==> forall i :: 0 <= i < |tab| - 1 && off <= tab[i].offset < off + ret ==> !Unknown(tab[i])
    ensures ret != -1 ==>
      && 0 <= ret <= len && 0 <= cur' && Resume(tab, off + ret, cur')
      && out[..ret] == Normalized(m, tab, text)[off..off + ret]
    ensures ret != -1 && (len >= 8 || NoStraddle(tab, off + len)) ==> ret > 0
  {
    hide Patched, Normalized, Agrees, Resume, BadAhead, Scanned;
    cur', from := cur, |tab|;
    if len == 0 { return -1, cur', from; }
    var i := cur;
    if i == -1 { i := FindIndex(tab, |text|, off); }
    if i < 0 { return i, cur', from; }
    from := i;
    if cur == -1 { StartResumes(tab, off, i); }
    forall x | 0 <= x < len { out[x] := text[off + x]; }
    ScanBegins(tab, off, len, i);
    CopyAgrees(m, tab, text, off, len, out[..len], i);
    var n := len;
    while i < |tab| - 1
      invariant from <= i < |tab| && n == len
      invariant Scanned(tab, off, len, from, i)
      invariant Agrees(m, tab, text, off, len, out[..len], i)
    {
      var e := tab[i];
      ScanNext(tab, off, len, from, i);
      if Active(e) {
        var w := Width(e.relocType);
        if w == 0 { return -1, cur', from; }
        var rel := e.offset - off;
        if rel >= len { break; }
        if len < w || rel > len - w {
          n := rel;
          break;
        }
        PatchRecord(m, tab, text, off, len, out, i);
      } else {
        SkipAgrees(m, tab, text, off, len, out[..len], i);
      }
      i := i + 1;
    }
    AgreesIsNormalized(m, tab, text, off, len, out[..len], i, n);
    ScanEnds(tab, off, len, from, i, n);
    assert out[..n] == out[..len][..n];
    return n, i, from;
  }

  /** What the scan of a chunk has seen, from record `from` up to record `i`. */
  ghost predicate Scanned(tab: seq<Ent>, off: nat, len: nat, from: nat, i: nat) {
    && from <= i < |tab| && Passed(tab, off + len, from, i) && Resume(tab, off, from)
  }

  lemma ScanBegins(tab: seq<Ent>, off: nat, len: nat, from: nat)
    requires Resume(tab, off, from)
    ensures Scanned(tab, off, len, from, from) && from < |tab|
  {
  }

  lemma ScanNext(tab: seq<Ent>, off: nat, len: nat, from: nat, i: nat)
    requires Scanned(tab, off, len, from, i) && i < |tab| - 1
    ensures off <= tab[i].offset
    ensures Unknown(tab[i]) ==> BadAhead(tab, off, len, from)
    ensures (Active(tab[i]) ==> !Unknown(tab[i]) && tab[i].offset + Width(tab[i].relocType) <= off + len) ==>
      Scanned(tab, off, len, from, i + 1)
  {
  }

  /** A scan that ends at the last record or at a known one, `n` bytes on, has
      met no unknown record, and a pass may resume there. */
  lemma ScanEnds(tab: seq<Ent>, off: nat, len: nat, from: nat, i: nat, n: nat)
    requires Scanned(tab, off, len, from, i) && n <= len
    requires forall j, k :: 0 <= j < k < |tab| ==> tab[j].offset <= tab[k].offset
    requires if i == |tab| - 1 then n == len
             else (Active(tab[i]) && !Unknown(tab[i]) && tab[i].offset + Width(tab[i].relocType) > off + len
                   && if tab[i].offset >= off + len then n == len else n == tab[i].offset - off)
    requires forall j, k :: 0 <= j < k < |tab| - 1 && Active(tab[j]) && Active(tab[k]) ==>
      tab[j].offset + Width(tab[j].relocType) <= tab[k].offset
    ensures !BadAhead(tab, off, len, from) && Resume(tab, off + n, i)
    ensures forall k :: 0 <= k < |tab| - 1 && off <= tab[k].offset < off + n ==> !Unknown(tab[k])
  {
    forall u | from <= u < |tab| - 1 && Unknown(tab[u]) ensures !Passed(tab, off + len, from, u) {
      assert u != i;
    }
  }

  /** The buffer holds the chunk as it is after `k` records of the pass. */
  ghost predicate Agrees(m: SegMap, tab: seq<Ent>, text: seq<byte>, off: nat, len: nat, b: seq<byte>, k: nat)
    requires TableOk(tab, |text|) && off + len <= |text| && |b| == len && k < |tab|
  {
    b == Patched(m, tab, text, k)[off..off + len]
  }

  lemma CopyAgrees(m: SegMap, tab: seq<Ent>, text: seq<byte>, off: nat, len: nat, b: seq<byte>, k: nat)
    requires TableOk(tab, |text|) && off + len <= |text| && |b| == len && k < |tab|
    requires Resume(tab, off, k) && b == text[off..off + len]
    ensures Agrees(m, tab, text, off, len, b, k)
  {
    forall x: nat | x < len ensures b[x] == Patched(m, tab, text, k)[off + x] {
      EarlierRecords(m, tab, text, k, off + x);
    }
  }

  lemma SkipAgrees(m: SegMap, tab: seq<Ent>, text: seq<byte>, off: nat, len: nat, b: seq<byte>, k: nat)
    requires TableOk(tab, |text|) && off + len <= |text| && |b| == len && k + 1 < |tab|
    requires Agrees(m, tab, text, off, len, b, k) && !Active(tab[k])
    ensures Agrees(m, tab, text, off, len, b, k + 1)
  {
  }

  /** Records from `k` on lie after the first `n` bytes of the chunk, so those
      bytes are done. */
  lemma AgreesIsNormalized(m: SegMap, tab: seq<Ent>, text: seq<byte>, off: nat, len: nat, b: seq<byte>, k: nat, n: nat)
    requires TableOk(tab, |text|) && off + len <= |text| && |b| == len && k < |tab| && n <= len
    requires Agrees(m, tab, text, off, len, b, k) && (k < |tab| - 1 ==> off + n <= tab[k].offset)
    ensures b[..n] == Normalized(m, tab, text)[off..off + n]
  {
    forall x: nat | x < n ensures b[x] == Normalized(m, tab, text)[off + x] {
      LaterRecords(m, tab, text, k, |tab| - 1, off + x);
    }
  }

  /** The rewritten bytes go back to the buffer. */
  method StoreRecord(out: array<byte>, len: nat, rel: nat, b: seq<byte>)
    requires rel + |b| <= len <= out.Length
    modifies out
    ensures out[..len] == Replace(old(out[..len]), rel, b)
  {
    forall t | 0 <= t < |b| { out[rel + t] := b[t]; }
  }

  /** Patch one record that lies inside the chunk. */
  method PatchRecord(m: SegMap, tab: seq<Ent>, text: seq<byte>, off: nat, len: nat, out: array<byte>, i: nat)
    requires TableOk(tab, |text|) && off + len <= |text| && len <= out.Length
    requires i < |tab| - 1 && Active(tab[i])
    requires off <= tab[i].offset && tab[i].offset + Width(tab[i].relocType) <= off + len
    requires Agrees(m, tab, text, off, len, out[..len], i)
    modifies out
    ensures Agrees(m, tab, text, off, len, out[..len], i + 1)
  {
    hide Rewrite, Width, Replace;
    var e := tab[i];
    var w := Width(e.relocType);
    var rel := e.offset - off;
    ghost var was := out[..len];
    RecordUntouched(m, tab, text, i);
    assert out[rel..rel + w] == was[rel..rel + w];
    SliceOfSlice(Patched(m, tab, text, i), off, off + len, rel, rel + w);
    var b := Rewrite(m, e, out[rel..rel + w]);
    StoreRecord(out, len, rel, b);
    ReplaceSlice(Patched(m, tab, text, i), off, len, rel, b);
  }

  /** No earlier record has touched the bytes of record `i`. */
  lemma RecordUntouched(m: SegMap, tab: seq<Ent>, text: seq<byte>, i: nat)
    requires TableOk(tab, |text|) && i < |tab| - 1 && Active(tab[i])
    ensures var e := tab[i];
            Patched(m, tab, text, i)[e.offset..e.offset + Width(e.relocType)] ==
            text[e.offset..e.offset + Width(e.relocType)]
  {
    var e := tab[i];
    forall x: nat | e.offset <= x < e.offset + Width(e.relocType) ensures Patched(m, tab, text, i)[x] == text[x] {
      EarlierRecords(m, tab, text, i, x);
    }
  }

  lemma ReplaceSlice(s: seq<byte>, off: nat, len: nat, rel: nat, b: seq<byte>)
    requires off + len <= |s| && rel + |b| <= len
    ensures Replace(s, off + rel, b)[off..off + len] == Replace(s[off..off + len], rel, b)
  {
  }

  lemma StartResumes(tab: seq<Ent>, x: nat, r: nat)
    requires LowerBound(tab, x, r) && NoStraddle(tab, x)
    ensures Resume(tab, x, r)
  {
  }

  lemma ResumeBetween(tab: seq<Ent>, x: nat, r: nat)
    requires Resume(tab, x, r)
    ensures NoStraddle(tab, x)
  {
  }

  // --- the chunk loop -------------------------------------------------------

  const FAILED: int := -1

  lemma SliceAppend(s: seq<byte>, a: nat, b: nat, c: nat)
    requires a <= b <= c <= |s|
    ensures s[a..b] + s[b..c] == s[a..c]
  {
  }

  /** Some record at or after `start` is unknown, and no active record in front
      of it is at or behind `end`. */
  ghost predicate Doomed(tab: seq<Ent>, start: nat, end: nat) {
    exists u :: 0 <= u < |tab| - 1 && Unknown(tab[u]) && start <= tab[u].offset && InFront(tab, end, u)
  }

  ghost predicate InFront(tab: seq<Ent>, end: nat, u: nat)
    requires u <= |tab|
  {
    forall j :: 0 <= j < u && Active(tab[j]) ==> tab[j].offset < end
  }

  /** A chunk that fails dooms the whole text. */
  lemma ChunkDooms(tab: seq<Ent>, start: nat, p: nat, n: nat, from: nat, end: nat)
    requires BadAhead(tab, p, n, from) && Resume(tab, p, from) && start <= p < p + n <= end
    ensures Doomed(tab, start, end)
  {
    var u :| from <= u < |tab| - 1 && Unknown(tab[u]) && Passed(tab, p + n, from, u);
    assert InFront(tab, end, u);
  }

  /** When the last chunk succeeds, so did all. */
  lemma LastChunk(tab: seq<Ent>, start: nat, p: nat, from: nat, end: nat)
    requires start <= p < end && !BadAhead(tab, p, end - p, from) && Resume(tab, p, from) && NoStraddle(tab, end)
    requires forall i :: 0 <= i < |tab| - 1 && start <= tab[i].offset < p ==> !Unknown(tab[i])
    ensures !Doomed(tab, start, end)
  {
    if Doomed(tab, start, end) {
      var u :| 0 <= u < |tab| - 1 && Unknown(tab[u]) && start <= tab[u].offset && InFront(tab, end, u);
      if u >= from { FirstUnknown(tab, p, end, from, u); }
    }
  }

  /** The scan of the last chunk comes to the first unknown record. */
  lemma {:induction false} FirstUnknown(tab: seq<Ent>, p: nat, end: nat, from: nat, u: nat)
    requires from <= u < |tab| - 1 && Unknown(tab[u]) && InFront(tab, end, u) && NoStraddle(tab, end) && p <= end
    ensures BadAhead(tab, p, end - p, from)
    decreases u
  {
    if k: nat :| from <= k < u && Unknown(tab[k]) {
      FirstUnknown(tab, p, end, from, k);
    } else {
      assert Passed(tab, end, from, u);
    }
  }

  /** The text loop of wc_fips_generate_hash: `fed` is what the hash is updated
      with. Whatever the buffer size, as long as it is at least 8, every round
      makes progress and the whole pass comes out. It fails exactly behind the
      last record and where the scan comes to an unknown one, which may lie
      behind the end. */
  method FeedText(m: SegMap, tab: seq<Ent>, text: seq<byte>, start: nat, end: nat, bufsiz: nat)
    returns (ret: int, fed: seq<byte>)
    requires TableOk(tab, |text|) && start <= end <= |text| && bufsiz >= 8
    requires NoStraddle(tab, start) && NoStraddle(tab, end)
    ensures ret in {0, -1}
    ensures ret == -1 <==> start < end && (start >= tab[|tab| - 1].offset || Doomed(tab, start, end))
    ensures ret == 0 ==> forall i :: 0 <= i < |tab| - 1 && start <= tab[i].offset < end ==> !Unknown(tab[i])
    ensures |fed| <= end - start && fed == Normalized(m, tab, text)[start..start + |fed|]
    ensures ret == 0 ==> |fed| == end - start
    ensures start < end && start >= tab[|tab| - 1].offset ==> fed == []
  {
    hide Normalized, Resume, BadAhead, Doomed;
    var cur := -1;
    var p := start;
    var buf := new byte[bufsiz](_ => 0);
    fed := [];
    while p < end
      invariant start <= p <= end && NoStraddle(tab, p)
      invariant p == start ==> cur == -1 && fed == []
      invariant p > start ==> 0 <= cur && Resume(tab, p, cur) && start < tab[|tab| - 1].offset
      invariant p == end > start ==> !Doomed(tab, start, end)
      invariant forall i :: 0 <= i < |tab| - 1 && start <= tab[i].offset < p ==> !Unknown(tab[i])
      invariant fed == Normalized(m, tab, text)[start..p]
    {
      ghost var n := Min(bufsiz, end - p);
      var progress;
      ghost var from;
      progress, cur, from := NormalizeText(m, tab, text, p, Min(bufsiz, end - p), buf, cur);
      if p < tab[|tab| - 1].offset && p == start { StartResumes(tab, p, from); }
      if progress <= 0 {
        if BadAhead(tab, p, n, from) && start < tab[|tab| - 1].offset { ChunkDooms(tab, start, p, n, from, end); }
        return FAILED, fed;
      }
      ResumeBetween(tab, p + progress, cur);
      if p + progress == end { LastChunk(tab, start, p, from, end); }
      SliceAppend(Normalized(m, tab, text), start, p, p + progress);
      fed := fed + buf[..progress];
      p := p + progress;
    }
    return 0, fed;
  }

  // --- load addresses -------------------------------------------------------

  /** The address bits the loader leaves at a record of an in-module segment:
      S + A, or S + A - P for the relative types. */
  function Linked(m: SegMap, e: Ent): int {
    SegBeg(m, DestSeg(e)) + e.destOffset + e.destAddend -
    (if IsRelative(e.relocType) then m.textStart + e.offset else 0)
  }

  /** S + A, or S + A - P, segment by segment. */
  lemma LinkedIs(m: SegMap, e: Ent)
    requires 2 <= e.destSegment <= 5
    ensures var start := [m.textStart, m.rodataStart, m.dataStart, m.bssStart][e.destSegment - 2];
      Linked(m, e) == start + e.destOffset + e.destAddend - if e.relocType in {5, 6} then m.textStart + e.offset else 0
  {
  }

  function LinkedBytes(m: SegMap, e: Ent): seq<byte> {
    if Width(e.relocType) == 8 then StLE(Linked(m, e) % 0x1_0000_0000_0000_0000, 8)
    else StLE(Linked(m, e) % WORD, Width(e.relocType))
  }

  /** Records whose bytes survive, as destination offsets: the others become
      bare labels. */
  predicate Resolved(e: Ent) { IsX86(e.relocType) && DestSeg(e) != SEG_OTHER }

  lemma ModShift(a: int, b: int, n: nat)
    requires n > 0
    ensures (a % n + b) % n == (a + b) % n
  {
    var q := a / n;
    assert a == q * n + a % n;
    var r := (a % n + b) % n;
    var k := (a % n + b) / n;
    assert a + b == r + (k + q) * n;
    DivUnique(a + b, n, k + q, r);
  }

  lemma ModSame(l: int, k: int, raw: int, d: nat, n: nat)
    requires d < n && l + k == d && raw == l % n + k
    ensures raw % n == d
  {
    ModShift(l, k, n);
    DivUnique(d, n, 0, d);
  }

  /** A live 32-bit record normalises to its destination offset, wherever the
      segments are loaded. */
  lemma LiveBase32(m: SegMap, e: Ent)
    requires m.live && Resolved(e) && e.destOffset < WORD
    ensures Base32(m, e, Linked(m, e) % WORD) == e.destOffset
  {
    var l, seg := Linked(m, e), SegBeg(m, DestSeg(e));
    if IsRelative(e.relocType) {
      ModSame(l, e.offset - e.destAddend - (seg - m.textStart),
        l % WORD + e.offset - e.destAddend - (seg - m.textStart), e.destOffset, WORD);
    } else {
      ModSame(l, -seg - e.destAddend, l % WORD - seg - e.destAddend, e.destOffset, WORD);
    }
  }

  lemma LiveBase64(m: SegMap, e: Ent)
    requires m.live && Resolved(e) && !IsRelative(e.relocType) && e.destOffset < WORD
    ensures Base64(m, e, Linked(m, e) % 0x1_0000_0000_0000_0000) == e.destOffset
  {
    var l, seg := Linked(m, e), SegBeg(m, DestSeg(e));
    ModSame(l, -seg - e.destAddend, l % 0x1_0000_0000_0000_0000 - seg - e.destAddend, e.destOffset,
      0x1_0000_0000_0000_0000);
  }

  /** For every record, two loads whose bytes are right for their maps, or a
      load and the offline text, normalise to the same bytes. */
  lemma RewriteIndependent(m: SegMap, n: SegMap, e: Ent, a: seq<byte>, b: seq<byte>)
    requires m.wide == n.wide && e.destOffset < WORD
    requires |a| == |b| == Width(e.relocType)
    requires Resolved(e) && m.live ==> a == LinkedBytes(m, e)
    requires Resolved(e) && n.live ==> b == LinkedBytes(n, e)
    ensures Rewrite(m, e, a) == Rewrite(n, e, b)
  {
    hide XorBits;
    Pow256Values();
    if Resolved(e) {
      if Width(e.relocType) == 4 {
        SideBase32(m, e, a);
        SideBase32(n, e, b);
      } else {
        SideBase64(m, e, a);
        SideBase64(n, e, b);
      }
    }
  }

  lemma SideBase32(m: SegMap, e: Ent, a: seq<byte>)
    requires Resolved(e) && Width(e.relocType) == 4 && e.destOffset < WORD
    requires m.live ==> a == LinkedBytes(m, e)
    ensures Base32(m, e, LdLE(a)) == e.destOffset
  {
    Pow256Values();
    if m.live {
      LoadStore(Linked(m, e) % WORD, 4);
      LiveBase32(m, e);
    }
  }

  lemma SideBase64(m: SegMap, e: Ent, a: seq<byte>)
    requires Resolved(e) && Width(e.relocType) == 8 && e.destOffset < WORD
    requires m.live ==> a == LinkedBytes(m, e)
    ensures Base64(m, e, LdLE(a)) == e.destOffset
  {
    Pow256Values();
    if m.live {
      LoadStore(Linked(m, e) % 0x1_0000_0000_0000_0000, 8);
      LiveBase64(m, e);
    }
  }

  ghost predicate InRecord(tab: seq<Ent>, k: nat, x: nat) {
    exists i :: k <= i < |tab| - 1 && Active(tab[i]) && tab[i].offset <= x < tab[i].offset + Width(tab[i].relocType)
  }

  function RecordBytes(e: Ent, text: seq<byte>): seq<byte>
    requires e.offset + Width(e.relocType) <= |text|
  {
    text[e.offset..e.offset + Width(e.relocType)]
  }

  /** The text as loaded with map `m`: the same as `image` outside the records,
      relocated in them. */
  ghost predicate LoadedAs(m: SegMap, tab: seq<Ent>, image: seq<byte>, text: seq<byte>)
    requires TableOk(tab, |text|)
  {
    && |text| == |image|
    && (forall x: nat :: x < |text| && !InRecord(tab, 0, x) ==> text[x] == image[x])
    && (m.live ==> forall i :: 0 <= i < |tab| - 1 && Active(tab[i]) && Resolved(tab[i]) ==>
          RecordBytes(tab[i], text) == LinkedBytes(m, tab[i]))
  }

  lemma NotInRecord(tab: seq<Ent>, k: nat, x: nat)
    requires 0 < k < |tab| && !InRecord(tab, k, x)
    requires !(Active(tab[k - 1]) && tab[k - 1].offset <= x < tab[k - 1].offset + Width(tab[k - 1].relocType))
    ensures !InRecord(tab, k - 1, x)
  {
  }

  lemma {:induction false} PatchedAgree(m: SegMap, n: SegMap, tab: seq<Ent>, s: seq<byte>, t: seq<byte>, k: nat, x: nat)
    requires TableOk(tab, |s|) && |t| == |s| && k < |tab| && x < |s| && !InRecord(tab, k, x)
    requires !InRecord(tab, 0, x) ==> s[x] == t[x]
    requires forall i :: 0 <= i < k && Active(tab[i]) ==>
      Rewrite(m, tab[i], RecordBytes(tab[i], s)) == Rewrite(n, tab[i], RecordBytes(tab[i], t))
    ensures Patched(m, tab, s, k)[x] == Patched(n, tab, t, k)[x]
  {
    if k > 0 {
      var e := tab[k - 1];
      hide Rewrite, Width, InRecord, Active;
      if Active(e) && e.offset <= x < e.offset + Width(e.relocType) {
        assert Rewrite(m, e, RecordBytes(e, s)) == Rewrite(n, e, RecordBytes(e, t));
      } else {
        NotInRecord(tab, k, x);
        PatchedAgree(m, n, tab, s, t, k - 1, x);
      }
    }
  }

  /** The normalised text is the same for every load address of the segments,
      and the same as the offline one. */
  lemma NormalizedIndependent(m: SegMap, n: SegMap, tab: seq<Ent>, image: seq<byte>, s: seq<byte>, t: seq<byte>)
    requires m.wide == n.wide && TableOk(tab, |s|) && |t| == |s|
    requires forall i :: 0 <= i < |tab| ==> tab[i].destOffset < WORD
    requires LoadedAs(m, tab, image, s) && LoadedAs(n, tab, image, t)
    ensures Normalized(m, tab, s) == Normalized(n, tab, t)
  {
    forall i | 0 <= i < |tab| - 1 && Active(tab[i])
      ensures Rewrite(m, tab[i], RecordBytes(tab[i], s)) == Rewrite(n, tab[i], RecordBytes(tab[i], t))
    {
      RewriteIndependent(m, n, tab[i], RecordBytes(tab[i], s), RecordBytes(tab[i], t));
    }
    forall x: nat | x < |s| ensures Normalized(m, tab, s)[x] == Normalized(n, tab, t)[x] {
      PatchedAgree(m, n, tab, s, t, |tab| - 1, x);
    }
  }
}
