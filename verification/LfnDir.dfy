/** Long names in a directory: the entries dir_register writes and the scans of
    dir_read and dir_find over any directory content. */
module LfnDir {
  import opened Bytes
  import opened LfnEntry

  const DELETED: nat := 0xE5
  const DOT: nat := 0x2E
  const NO_LFN: nat := 0xFFFF_FFFF
  const RESET: nat := 0xFF

  function Attr(e: Entry): nat { e[11] % 64 }
  predicate IsLfn(e: Entry) { Attr(e) == AM_LFN }

  /** Entries dir_read and dir_find pass over. */
  predicate ReadSkips(e: Entry) { e[0] == DELETED || e[0] == DOT || Attr(e) == 0x08 || Attr(e) == 0x28 }
  predicate FindSkips(e: Entry) { e[0] == DELETED || (Attr(e) / 8 % 2 == 1 && !IsLfn(e)) }

  /** Which entries these are: deleted ones, those that begin with a dot (for
      dir_read), and volume labels, whatever the archive attribute; dir_find
      passes over everything with the label bit but long-name entries. */
  lemma EntryKinds(e: Entry)
    ensures IsLfn(e) <==> e[11] % 64 == 0x0F
    ensures ReadSkips(e) <==> e[0] == 0xE5 || e[0] == 0x2E || e[11] % 32 == 0x08
    ensures FindSkips(e) <==> e[0] == 0xE5 || (Bit(e[11], 3) && e[11] % 64 != 0x0F)
  {
    hide Bit;
    Attributes(e[11]);
  }

  lemma Attributes(a: nat)
    ensures a % 64 == 0x08 || a % 64 == 0x28 <==> a % 32 == 0x08
    ensures a % 64 / 8 % 2 == 1 <==> Bit(a, 3)
  {
    var q, r := a / 64, a % 64;
    DivUnique(a, 32, 2 * q + r / 32, r % 32);
    DivUnique(a, 8, 8 * q + r / 8, r % 8);
    DivUnique(8 * q + r / 8, 2, 4 * q + r / 8 / 2, r / 8 % 2);
    assert Pow2(3) == 2 * Pow2(2) == 4 * Pow2(1) == 8;
    BitShift(a, 3, 0, 8, a / 8);
    ParityBit(a / 8);
  }

  /** sum_sfn over the eleven bytes of a short name. */
  function SumFrom(sfn: seq<byte>, sum: byte): byte {
    if sfn == [] then sum else SumFrom(sfn[1..], (sum / 2 + sum % 2 * 128 + sfn[0]) % 256)
  }

  /** The sum so far, rotated right by one bit. */
  function Rotated(sum: byte): byte { sum / 2 + sum % 2 * 128 }

  lemma RotatedBits(sum: byte, k: nat)
    requires k < 8
    ensures Bit(Rotated(sum), k) == Bit(sum, (k + 1) % 8)
  {
    hide Bit;
    assert Pow2(7) == 2 * Pow2(6) == 4 * Pow2(5) == 8 * Pow2(4) == 16 * Pow2(3);
    assert Pow2(3) == 2 * Pow2(2) == 4 * Pow2(1) == 8;
    if k < 7 {
      BitLow(Rotated(sum), 7, k);
      BitShift(sum, 1, k, 2, sum / 2);
    } else {
      BitShift(Rotated(sum), 7, 0, 128, Rotated(sum) / 128);
      ParityBit(sum % 2);
      ParityBit(sum);
    }
  }

  lemma ParityBit(v: nat)
    ensures Bit(v, 0) <==> v % 2 == 1
  {
  }

  /** Each byte is added to the rotated sum; the sum of no bytes is where it
      starts. */
  lemma SumGoesOn(sfn: seq<byte>, sum: byte)
    ensures SumFrom([], sum) == sum
    ensures sfn != [] ==> SumFrom(sfn, sum) == SumFrom(sfn[1..], (Rotated(sum) + sfn[0]) % 256)
  {
  }

  function ShortName(e: Entry): seq<byte> { e[..11] }

  /** The bit that is rotated in fits the byte. */
  lemma SumStep(sfn: seq<byte>, sum: byte)
    requires sfn != []
    ensures SumFrom(sfn, sum) == SumFrom(sfn[1..], (sum / 2 + sum % 2 * 128 % 256 + sfn[0]) % 256)
  {
    var bit := sum % 2;
    assert bit * 128 % 256 == bit * 128;
  }

  method SumSfn(sfn: seq<byte>) returns (sum: byte)
    requires |sfn| == 11
    ensures sum == SumFrom(sfn, 0)
  {
    sum := 0;
    var n := 11;
    while n > 0
      invariant 0 <= n <= 11
      invariant SumFrom(sfn[11 - n..], sum) == SumFrom(sfn, 0)
      decreases n
    {
      assert sfn[11 - n..][1..] == sfn[11 - (n - 1)..];
      SumStep(sfn[11 - n..], sum);
      sum := (sum / 2 + sum % 2 * 128 % 256 + sfn[11 - n]) % 256;
      n := n - 1;
    }
  }

  /** What distinguishes the two scans: the entries they pass over, and when a
      long-name entry is good. */
  datatype Rules = Rules(skips: Entry -> bool, accepts: Entry -> bool)
  {
    ghost predicate Ok() { forall e :: accepts(e) ==> Number(e) > 0 }
  }

  /** The entries from `from` up to `at` are consecutive parts of one long
      name, with falling numbers; the first alone has the flag. */
  ghost predicate Sequence(rules: Rules, d: seq<Entry>, from: nat, at: nat) {
    && from < at <= |d| && at - from <= Number(d[from])
    && forall x :: from <= x < at ==>
         && IsLfn(d[x]) && !rules.skips(d[x]) && rules.accepts(d[x])
         && Number(d[x]) == Number(d[from]) - (x - from)
         && (First(d[x]) <==> x == from)
         && d[x][13] == d[from][13]
  }

  /** Parts still missing. */
  function Missing(d: seq<Entry>, from: nat, at: nat): int
    requires from < |d|
  {
    Number(d[from]) - (at - from)
  }

  /** The scan variables after the entries before `at`. */
  ghost predicate Tracks(rules: Rules, d: seq<Entry>, lo: nat, at: nat, ord: nat, sum: nat, blk: nat) {
    && ord <= RESET
    && (ord != RESET ==> lo <= blk && Sequence(rules, d, blk, at) && ord == Missing(d, blk, at) && sum == d[blk][13])
    && (forall from: nat :: lo <= from && Sequence(rules, d, from, at) ==> ord == Missing(d, from, at) && blk == from)
  }

  /** A complete long name that belongs to the short entry at `at`. */
  ghost predicate Named(rules: Rules, d: seq<Entry>, from: nat, at: nat) {
    && Sequence(rules, d, from, at) && at < |d| && Missing(d, from, at) == 0
    && d[from][13] == SumFrom(ShortName(d[at]), 0)
  }

  lemma TracksStart(rules: Rules, d: seq<Entry>, lo: nat, sum: nat, blk: nat)
    requires lo <= |d|
    ensures Tracks(rules, d, lo, lo, RESET, sum, blk)
  {
  }

  lemma SequenceEnd(rules: Rules, d: seq<Entry>, from: nat, at: nat)
    requires at < |d| && Sequence(rules, d, from, at + 1)
    ensures IsLfn(d[at]) && !rules.skips(d[at]) && rules.accepts(d[at]) && Number(d[at]) == Missing(d, from, at)
    ensures First(d[at]) <==> at == from
    ensures d[at][13] == d[from][13]
    ensures from < at ==> Sequence(rules, d, from, at)
  {
  }

  lemma SequenceNext(rules: Rules, d: seq<Entry>, from: nat, at: nat)
    requires at < |d| && IsLfn(d[at]) && !rules.skips(d[at]) && rules.accepts(d[at])
    requires if First(d[at]) then from == at else Sequence(rules, d, from, at)
    requires Number(d[at]) == Missing(d, from, at) > 0 && d[at][13] == d[from][13]
    ensures Sequence(rules, d, from, at + 1)
  {
  }

  lemma TracksReset(rules: Rules, d: seq<Entry>, lo: nat, at: nat, sum: nat, blk: nat)
    requires at < |d|
    requires !IsLfn(d[at]) || rules.skips(d[at])
    ensures Tracks(rules, d, lo, at + 1, RESET, sum, blk)
  {
    var next := at + 1;
    forall from: nat | Sequence(rules, d, from, next) ensures false { SequenceEnd(rules, d, from, at); }
  }

  /** The scan variables after a long-name entry. */
  lemma TracksLfn(rules: Rules, d: seq<Entry>, lo: nat, at: nat, ord: nat, sum: nat, blk: nat, ord1: nat, sum1: nat,
                  blk1: nat, ord2: nat)
    requires rules.Ok() && lo <= at < |d| && Tracks(rules, d, lo, at, ord, sum, blk)
    requires IsLfn(d[at]) && !rules.skips(d[at])
    requires if First(d[at]) then ord1 == Number(d[at]) && sum1 == d[at][13] && blk1 == at
             else ord1 == ord && sum1 == sum && blk1 == blk
    requires ord2 == if Number(d[at]) == ord1 && sum1 == d[at][13] && rules.accepts(d[at]) then ord1 - 1 else RESET
    ensures Tracks(rules, d, lo, at + 1, ord2, sum1, blk1)
    ensures ord2 != RESET ==> rules.accepts(d[at])
  {
    var next := at + 1;
    forall from: nat | lo <= from && Sequence(rules, d, from, next)
      ensures ord2 == Missing(d, from, at + 1) && blk1 == from
    {
      SequenceEnd(rules, d, from, at);
    }
    if ord2 != RESET {
      SequenceNext(rules, d, blk1, at);
    }
  }

  lemma SequenceUnique(rules: Rules, d: seq<Entry>, from: nat, other: nat, at: nat)
    requires Sequence(rules, d, from, at) && Sequence(rules, d, other, at)
    ensures from == other
  {
  }

  // ---- dir_read ----

  function PickRules(): Rules { Rules(ReadSkips, PickOk) }

  lemma PickRulesOk()
    ensures PickRules().Ok()
  {
  }

  ghost predicate AllHeld(buf: seq<Word>, d: seq<Entry>, from: nat, at: nat)
    requires |buf| == LFN_MAX + 1
  {
    at <= |d| && forall x :: from <= x < at ==> PickOk(d[x]) && Holds(buf, d[x])
  }

  /** Parts of one name lie in disjoint stretches of the buffer. */
  lemma HeldNext(was: seq<Word>, buf: seq<Word>, d: seq<Entry>, from: nat, at: nat)
    requires |was| == |buf| == LFN_MAX + 1 && at < |d| && Sequence(PickRules(), d, from, at + 1)
    requires from < at ==> AllHeld(was, d, from, at)
    requires KeptOutside(was, buf, Base(Number(d[at])), if First(d[at]) then 14 else 13)
    requires PickOk(d[at]) && Holds(buf, d[at])
    ensures AllHeld(buf, d, from, at + 1)
  {
    forall x | from <= x < at + 1 ensures PickOk(d[x]) && Holds(buf, d[x]) {
      if x < at {
        assert Base(Number(d[at])) + 13 <= Base(Number(d[x]));
      }
    }
  }

  /** dir_read for files and directories, from entry `start` on: it stops at the
      first short entry of a file, and reports a long name exactly when a
      complete one belongs to it; the name is then in the buffer. */
  method DirRead(d: seq<Entry>, start: nat, lfnbuf: array<Word>) returns (found: bool, at: nat, blk: nat)
    requires start <= |d| < 0xFFFF_FFFF && lfnbuf.Length == 256
    modifies lfnbuf
    ensures start <= at <= |d| && (forall x :: start <= x < at ==> d[x][0] != 0 && (IsLfn(d[x]) || ReadSkips(d[x])))
    ensures found <==> at < |d| && d[at][0] != 0
    ensures found ==> !IsLfn(d[at]) && !ReadSkips(d[at])
    ensures found && blk == 0xFFFF_FFFF ==> forall from: nat :: start <= from ==> !Named(PickRules(), d, from, at)
    ensures found && blk != 0xFFFF_FFFF ==>
      start <= blk && Named(PickRules(), d, blk, at) && AllHeld(lfnbuf[..], d, blk, at)
  {
    var ord, sum := RESET, 0xFF;
    at, blk := start, NO_LFN;
    PickRulesOk();
    TracksStart(PickRules(), d, start, sum, blk);
    hide Tracks, Sequence, AllHeld, PickOk, KeptOutside, Holds;
    while at < |d|
      invariant start <= at <= |d|
      invariant forall x :: start <= x < at ==> d[x][0] != 0 && (IsLfn(d[x]) || ReadSkips(d[x]))
      invariant Tracks(PickRules(), d, start, at, ord, sum, blk)
      invariant ord != RESET ==> AllHeld(lfnbuf[..], d, blk, at)
    {
      var e := d[at];
      var b := e[0];
      if b == 0 { return false, at, blk; }
      if ReadSkips(e) {
        ord := RESET;
        TracksReset(PickRules(), d, start, at, sum, blk);
      } else if IsLfn(e) {
        ord, sum, blk := ReadLfn(d, start, at, ord, sum, blk, lfnbuf);
      } else {
        var chk := SumSfn(ShortName(e));
        ReadNamed(PickRules(), d, start, at, ord, sum, blk);
        if ord != 0 || sum != chk { blk := NO_LFN; }
        return true, at, blk;
      }
      at := at + 1;
    }
    return false, at, blk;
  }

  /** The scan variables tell whether a long name belongs to the short entry. */
  lemma ReadNamed(rules: Rules, d: seq<Entry>, lo: nat, at: nat, ord: nat, sum: nat, blk: nat)
    requires at < |d| && Tracks(rules, d, lo, at, ord, sum, blk)
    ensures ord == 0 && sum == SumFrom(ShortName(d[at]), 0) ==> lo <= blk < at && Named(rules, d, blk, at)
    ensures (exists from: nat :: lo <= from && Named(rules, d, from, at)) ==>
      ord == 0 && sum == SumFrom(ShortName(d[at]), 0)
    ensures forall from: nat :: lo <= from && Named(rules, d, from, at) ==> blk == from
  {
  }

  /** A long-name entry in dir_read. */
  method ReadLfn(d: seq<Entry>, start: nat, at: nat, ord0: nat, sum0: nat, blk0: nat, lfnbuf: array<Word>)
    returns (ord: nat, sum: nat, blk: nat)
    requires lfnbuf.Length == LFN_MAX + 1
    requires start <= at < |d| && IsLfn(d[at]) && !ReadSkips(d[at])
    requires Tracks(PickRules(), d, start, at, ord0, sum0, blk0)
    requires ord0 != RESET ==> AllHeld(lfnbuf[..], d, blk0, at)
    modifies lfnbuf
    ensures Tracks(PickRules(), d, start, at + 1, ord, sum, blk)
    ensures ord != RESET ==> AllHeld(lfnbuf[..], d, blk, at + 1)
  {
    ord, sum, blk := ord0, sum0, blk0;
    var e := d[at];
    var b := e[0];
    if First(e) {
      sum := e[13];
      b := b - 64;
      ord := b;
      blk := at;
    }
    ghost var ord1, was: seq<Word> := ord, lfnbuf[..];
    var good := b == ord && sum == e[13];
    if good { good := PickLfn(lfnbuf, e); }
    ord := if good then ord - 1 else RESET;
    PickRulesOk();
    TracksLfn(PickRules(), d, start, at, ord0, sum0, blk0, ord1, sum, blk, ord);
    if ord != RESET { HeldNext(was, lfnbuf[..], d, blk, at); }
  }

  // ---- dir_find ----

  function CmpRules(upper: Word -> Word, q: seq<Word>): Rules
    requires |q| == LFN_MAX + 1
  {
    Rules(FindSkips, (e: Entry) => CmpOk(upper, q, e))
  }

  lemma CmpRulesOk(upper: Word -> Word, q: seq<Word>)
    requires |q| == LFN_MAX + 1
    ensures CmpRules(upper, q).Ok() && forall e: Entry :: CmpRules(upper, q).skips(e) == FindSkips(e)
  {
    hide Used, Padded;
  }

  /** What is searched for: a name in the buffer, its short form, and whether
      each of them takes part. */
  datatype Query = Query(upper: Word -> Word, lfn: seq<Word>, fn: seq<byte>, nolfn: bool, loss: bool)
  {
    ghost predicate Matches(d: seq<Entry>, at: nat)
      requires |lfn| == LFN_MAX + 1
    {
      && at < |d| && !FindSkips(d[at]) && !IsLfn(d[at])
      && ((!nolfn && exists from: nat :: Named(CmpRules(upper, lfn), d, from, at)) || (!loss && ShortName(d[at]) == fn))
    }
  }

  /** The entries between the reported start of the name and the short entry. */
  ghost predicate Parts(d: seq<Entry>, blk: nat, at: nat) {
    at <= |d| && (blk != NO_LFN ==> blk < |d| && forall x :: blk <= x < at ==> IsLfn(d[x]) && !FindSkips(d[x]))
  }

  /** The scan variables decide whether a short entry matches. */
  lemma ShortMatches(q: Query, d: seq<Entry>, at: nat, ord: nat, sum: nat, blk: nat)
    requires |q.lfn| == LFN_MAX + 1 && at < |d| && !FindSkips(d[at]) && !IsLfn(d[at])
    requires if q.nolfn then ord == RESET else Tracks(CmpRules(q.upper, q.lfn), d, 0, at, ord, sum, blk)
    ensures q.Matches(d, at) <==>
      (ord == 0 && sum == SumFrom(ShortName(d[at]), 0)) || (!q.loss && ShortName(d[at]) == q.fn)
    ensures !q.nolfn ==> forall from: nat :: Named(CmpRules(q.upper, q.lfn), d, from, at) ==> blk == from
  {
    hide Sequence, CmpOk;
    if !q.nolfn { ReadNamed(CmpRules(q.upper, q.lfn), d, 0, at, ord, sum, blk); }
  }

  lemma OthersDoNotMatch(q: Query, d: seq<Entry>, x: nat)
    requires |q.lfn| == LFN_MAX + 1 && x < |d| && (FindSkips(d[x]) || IsLfn(d[x]))
    ensures !q.Matches(d, x)
  {
  }

  /** The entry ends no long name and is none: the scan starts over. */
  ghost predicate Scanning(d: seq<Entry>, q: Query, at: nat, ord: nat, sum: nat, blk: nat)
    requires |q.lfn| == LFN_MAX + 1
  {
    && at <= |d| && Parts(d, blk, at)
    && if q.nolfn then ord == RESET else Tracks(CmpRules(q.upper, q.lfn), d, 0, at, ord, sum, blk)
  }

  lemma ScanStarts(d: seq<Entry>, q: Query, sum: nat)
    requires |q.lfn| == LFN_MAX + 1
    ensures Scanning(d, q, 0, RESET, sum, NO_LFN)
  {
    CmpRulesOk(q.upper, q.lfn);
    TracksStart(CmpRules(q.upper, q.lfn), d, 0, sum, NO_LFN);
  }

  lemma ScanReset(d: seq<Entry>, q: Query, at: nat, sum: nat)
    requires |q.lfn| == LFN_MAX + 1 && at < |d| && (FindSkips(d[at]) || !IsLfn(d[at]))
    ensures Scanning(d, q, at + 1, RESET, sum, NO_LFN)
  {
    CmpRulesOk(q.upper, q.lfn);
    TracksReset(CmpRules(q.upper, q.lfn), d, 0, at, sum, NO_LFN);
  }

  /** A short entry matches by its long name or by its own. */
  method FindShort(d: seq<Entry>, q: Query, at: nat, ord: nat, sum: nat, ghost blk: nat) returns (hit: bool)
    requires |q.lfn| == LFN_MAX + 1 && at < |d| && !FindSkips(d[at]) && !IsLfn(d[at])
    requires Scanning(d, q, at, ord, sum, blk)
    ensures hit <==> q.Matches(d, at)
    ensures Parts(d, blk, at)
    ensures !q.nolfn ==> forall from: nat :: Named(CmpRules(q.upper, q.lfn), d, from, at) ==> blk == from
  {
    hide Tracks, Named, CmpRules, q.Matches;
    ShortMatches(q, d, at, ord, sum, blk);
    var e := d[at];
    var chk := SumSfn(ShortName(e));
    if ord == 0 && sum == chk { return true; }
    return !q.loss && ShortName(e) == q.fn;
  }

  /** A long-name entry, which counts unless only short names are looked for. */
  method ScanLfn(d: seq<Entry>, q: Query, at: nat, ord0: nat, sum0: nat, blk0: nat)
    returns (ord: nat, sum: nat, blk: nat)
    requires |d| < NO_LFN && |q.lfn| == LFN_MAX + 1
    requires at < |d| && IsLfn(d[at]) && !FindSkips(d[at]) && Scanning(d, q, at, ord0, sum0, blk0)
    ensures Scanning(d, q, at + 1, ord, sum, blk)
  {
    hide Tracks, CmpRules;
    ord, sum, blk := ord0, sum0, blk0;
    if !q.nolfn { ord, sum, blk := FindLfn(d, q, at, ord, sum, blk); }
  }

  /** dir_find: the first entry that matches, and where its name begins. */
  method DirFind(d: seq<Entry>, q: Query) returns (found: bool, at: nat, blk: nat)
    requires |d| < 0xFFFF_FFFF && |q.lfn| == 256
    ensures at <= |d| && (forall x :: 0 <= x < at ==> d[x][0] != 0 && !q.Matches(d, x))
    ensures found ==> q.Matches(d, at) && Parts(d, blk, at)
    ensures found && !q.nolfn ==> forall from: nat :: Named(CmpRules(q.upper, q.lfn), d, from, at) ==> blk == from
    ensures !found ==> at == |d| || d[at][0] == 0
  {
    hide Scanning, Parts, Named, CmpRules, q.Matches, FindSkips, IsLfn;
    var ord, sum := RESET, 0xFF;
    at, blk := 0, NO_LFN;
    ScanStarts(d, q, sum);
    while at < |d|
      invariant at <= |d|
      invariant forall x :: 0 <= x < at ==> d[x][0] != 0 && !q.Matches(d, x)
      invariant Scanning(d, q, at, ord, sum, blk)
    {
      var e := d[at];
      if e[0] == 0 { return false, at, blk; }
      if FindSkips(e) {
        OthersDoNotMatch(q, d, at);
        ScanReset(d, q, at, sum);
        ord, blk := RESET, NO_LFN;
      } else if IsLfn(e) {
        OthersDoNotMatch(q, d, at);
        ord, sum, blk := ScanLfn(d, q, at, ord, sum, blk);
      } else {
        var hit := FindShort(d, q, at, ord, sum, blk);
        if hit { return true, at, blk; }
        ScanReset(d, q, at, sum);
        ord, blk := RESET, NO_LFN;
      }
      at := at + 1;
    }
    return false, at, blk;
  }

  /** No part has the number 0. */
  lemma CmpNumber(upper: Word -> Word, q: seq<Word>, e: Entry)
    requires |q| == LFN_MAX + 1
    ensures CmpOk(upper, q, e) ==> e[0] % 64 > 0
  {
  }

  /** A long-name entry in dir_find. */
  method FindLfn(d: seq<Entry>, q: Query, at: nat, ord0: nat, sum0: nat, blk0: nat)
    returns (ord: nat, sum: nat, blk: nat)
    requires |d| < NO_LFN && |q.lfn| == LFN_MAX + 1
    requires at < |d| && IsLfn(d[at]) && !FindSkips(d[at]) && Parts(d, blk0, at)
    requires Tracks(CmpRules(q.upper, q.lfn), d, 0, at, ord0, sum0, blk0)
    ensures Tracks(CmpRules(q.upper, q.lfn), d, 0, at + 1, ord, sum, blk)
    ensures Parts(d, blk, at + 1)
  {
    hide CmpOk, SumFrom, Named, Sequence;
    ord, sum, blk := ord0, sum0, blk0;
    var e := d[at];
    var b := e[0];
    if First(e) {
      sum := e[13];
      b := b - 64;
      ord := b;
      blk := at;
    }
    ghost var ord1 := ord;
    var good := b == ord && sum == e[13];
    if good {
      CmpNumber(q.upper, q.lfn, e);
      good := CmpLfn(q.upper, q.lfn, e);
    }
    ord := if good then ord - 1 else RESET;
    CmpRulesOk(q.upper, q.lfn);
    TracksLfn(CmpRules(q.upper, q.lfn), d, 0, at, ord0, sum0, blk0, ord1, sum, blk, ord);
  }
}
