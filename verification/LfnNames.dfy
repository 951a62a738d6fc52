/** A long name written to a directory is read back, and found, as that name. */
module LfnNames {
  import opened Bytes
  import opened LfnEntry
  import opened LfnDir

  function PartCount(name: seq<Word>): nat { (|name| + 12) / 13 }

  /** A name that dir_register stores. */
  predicate Storable(name: seq<Word>) { 0 < |name| <= LFN_MAX && 0 !in name }

  /** A short name that can begin an entry. */
  predicate ShortOk(fn: seq<byte>) { |fn| == 11 && fn[0] != 0 && fn[0] != DELETED && fn[0] != DOT }

  /** The entries of one file from `p` on: its parts, highest first, and the
      short entry. */
  ghost predicate Block(d: seq<Entry>, p: nat, name: seq<Word>, fn: seq<byte>) {
    && p + PartCount(name) < |d|
    && (forall x :: p <= x < p + PartCount(name) ==> IsPart(d[x], name, p + PartCount(name) - x, SumFrom(fn, 0)))
    && ShortName(d[p + PartCount(name)]) == fn && Attr(d[p + PartCount(name)]) % 16 < 8
  }

  lemma {:induction false} UsedIs(u: seq<Word>, t: nat)
    requires 0 < t <= |u| && (forall k :: 0 <= k < t - 1 ==> u[k] != 0) && (t < |u| ==> u[t - 1] == 0)
    ensures Used(u) == t
  {
    if t > 1 && u[0] != 0 { UsedIs(u[1..], t - 1); }
  }

  /** Part `k` of any name: both scans take it for a part with that number. */
  lemma PartFacts(e: Entry, name: seq<Word>, k: nat, sum: byte)
    requires Storable(name) && k <= PartCount(name) && IsPart(e, name, k, sum)
    ensures 0 < k && Number(e) == k == e[0] % 64 && (First(e) <==> LastPart(name, k)) && e[0] != 0 && e[13] == sum
    ensures IsLfn(e) && !ReadSkips(e) && !FindSkips(e) && Word16(e, 26) == 0
  {
  }

  /** Part `k` of a readable name: how much of it is name, and that it can be
      read. */
  lemma ReadablePartFacts(e: Entry, name: seq<Word>, k: nat, sum: byte)
    requires Storable(name) && Readable(name) && k <= PartCount(name) && IsPart(e, name, k, sum)
    ensures First(e) <==> k == PartCount(name)
    ensures Used(Units(e)) == if 13 * k <= |name| then 13 else |name| - 13 * (k - 1) + 1
    ensures 0 in Units(e) <==> 13 * k > |name|
    ensures PickOk(e)
  {
    PartFacts(e, name, k, sum);
    ReadablePart(e, name, k, sum);
    var base := 13 * (k - 1);
    var u := Units(e);
    assert forall s :: 0 <= s < 13 ==> u[s] == TrueUnit(name, base + s);
    assert forall s :: 0 <= s < 13 && base + s < |name| ==> u[s] == name[base + s] != 0;
    UsedIs(u, if 13 * k <= |name| then 13 else |name| - base + 1);
    if 13 * k > |name| { assert u[|name| - base] == 0; }
  }

  lemma BlockNamed(rules: Rules, d: seq<Entry>, p: nat, name: seq<Word>, fn: seq<byte>)
    requires Storable(name) && Readable(name) && Block(d, p, name, fn)
    requires rules.skips == ReadSkips || rules.skips == FindSkips
    ensures (forall x :: p <= x < p + PartCount(name) ==> rules.accepts(d[x])) <==>
      Named(rules, d, p, p + PartCount(name))
  {
    forall x | p <= x < p + PartCount(name)
      ensures IsLfn(d[x]) && !rules.skips(d[x]) && Number(d[x]) == p + PartCount(name) - x
      ensures (First(d[x]) <==> x == p) && d[x][13] == SumFrom(fn, 0)
    {
      PartFacts(d[x], name, p + PartCount(name) - x, SumFrom(fn, 0));
      ReadablePartFacts(d[x], name, p + PartCount(name) - x, SumFrom(fn, 0));
    }
  }

  /** Reading the parts restores the name. */
  lemma BlockRead(buf: seq<Word>, d: seq<Entry>, p: nat, name: seq<Word>, fn: seq<byte>)
    requires Storable(name) && Readable(name) && Block(d, p, name, fn)
    requires |buf| == LFN_MAX + 1 && AllHeld(buf, d, p, p + PartCount(name))
    ensures IsName(buf, name)
  {
    forall i | 0 <= i <= |name| ensures buf[i] == TrueUnit(name, i) {
      UnitRead(buf, d, p, name, fn, i);
    }
    assert buf[..|name|] == name;
  }

  /** The part that unit `i` is in. */
  lemma PartOf(n: nat, i: nat)
    requires i < 13 * n
    ensures 0 < i / 13 + 1 <= n && 13 * (i / 13) <= i < 13 * (i / 13) + 13
  {
  }

  /** A unit that an entry holds. */
  lemma HeldUnit(buf: seq<Word>, e: Entry, s: nat)
    requires |buf| == LFN_MAX + 1 && PickOk(e) && Holds(buf, e) && s < Used(Units(e))
    ensures Base(Number(e)) + s < |buf| && buf[Base(Number(e)) + s] == Units(e)[s]
  {
  }

  lemma BaseIs(k: nat)
    requires k > 0
    ensures Base(k) == 13 * (k - 1)
  {
  }

  /** Behind a name that fills its last part the buffer has the terminator. */
  lemma LastUnitRead(buf: seq<Word>, d: seq<Entry>, p: nat, name: seq<Word>, fn: seq<byte>)
    requires Storable(name) && Readable(name) && Block(d, p, name, fn) && |name| == 13 * PartCount(name)
    requires |buf| == LFN_MAX + 1 && AllHeld(buf, d, p, p + PartCount(name))
    ensures buf[|name|] == 0
  {
    hide IsPart, Readable, Units, Used;
    var n := PartCount(name);
    var e := d[p];
    PartFacts(e, name, n, SumFrom(fn, 0));
    ReadablePartFacts(e, name, n, SumFrom(fn, 0));
    BaseIs(n);
    assert Holds(buf, e);
  }

  lemma UnitRead(buf: seq<Word>, d: seq<Entry>, p: nat, name: seq<Word>, fn: seq<byte>, i: nat)
    requires Storable(name) && Readable(name) && Block(d, p, name, fn) && i <= |name|
    requires |buf| == LFN_MAX + 1 && AllHeld(buf, d, p, p + PartCount(name))
    ensures buf[i] == TrueUnit(name, i)
  {
    var n := PartCount(name);
    if i < 13 * n {
      PartOf(n, i);
      var k := i / 13 + 1;
      var e := d[p + n - k];
      hide IsPart, Readable, Units, Used, First, Base, Holds, PickOk, Number;
      PartFacts(e, name, k, SumFrom(fn, 0));
      ReadablePartFacts(e, name, k, SumFrom(fn, 0));
      ReadablePart(e, name, k, SumFrom(fn, 0));
      HeldUnit(buf, e, i - 13 * (k - 1));
      BaseIs(k);
    } else {
      LastUnitRead(buf, d, p, name, fn);
    }
  }

  /** Names that differ in case only. */
  predicate SameName(upper: Word -> Word, a: seq<Word>, b: seq<Word>) {
    |a| == |b| && forall i :: 0 <= i < |a| ==> upper(a[i]) == upper(b[i])
  }

  /** No other character folds to the terminator. */
  ghost predicate FoldsApart(upper: Word -> Word) { forall w: Word :: upper(w) == upper(0) ==> w == 0 }

  lemma PartPadded(e: Entry, name: seq<Word>, k: nat, sum: byte)
    requires Storable(name) && Readable(name) && k <= PartCount(name) && IsPart(e, name, k, sum)
    ensures Padded(Units(e), 13) && Word16(e, 26) == 0
  {
    ReadablePartFacts(e, name, k, sum);
  }

  lemma PartMatches(upper: Word -> Word, q: seq<Word>, e: Entry, name: seq<Word>, k: nat, sum: byte)
    requires Storable(name) && Readable(name) && k <= PartCount(name) && IsPart(e, name, k, sum) && |q| == LFN_MAX + 1
    ensures CmpOk(upper, q, e) <==>
      && (forall i :: 13 * (k - 1) <= i < 13 * k && i <= |name| ==> upper(TrueUnit(name, i)) == upper(q[i]))
      && (13 * k == |name| ==> q[|name|] == 0)
  {
    hide Used, PickOk, IsPart, LastPart, Unit, Padded, Number, Matches, Base;
    PartFacts(e, name, k, sum);
    ReadablePartFacts(e, name, k, sum);
    ReadablePart(e, name, k, sum);
    PartPadded(e, name, k, sum);
    BaseIs(k);
    UnitsMatch(upper, q, Units(e), name, k, Used(Units(e)));
  }

  /** The units of part `k` match the buffer where the name does. */
  lemma UnitsMatch(upper: Word -> Word, q: seq<Word>, u: seq<Word>, name: seq<Word>, k: nat, n: nat)
    requires 0 < k <= PartCount(name) && |q| == LFN_MAX + 1 && |u| == 13 && 0 < |name| <= LFN_MAX
    requires n == if 13 * k <= |name| then 13 else |name| - 13 * (k - 1) + 1
    requires forall s :: 0 <= s < 13 ==> u[s] == TrueUnit(name, (k - 1) * 13 + s)
    ensures Matches(upper, q, u, 13 * (k - 1), n) <==>
      forall i :: 13 * (k - 1) <= i < 13 * k && i <= |name| ==> upper(TrueUnit(name, i)) == upper(q[i])
  {
    var base := 13 * (k - 1);
    if Matches(upper, q, u, base, n) {
      forall i | base <= i < 13 * k && i <= |name| ensures upper(TrueUnit(name, i)) == upper(q[i]) {
        assert upper(u[i - base]) == upper(q[base + (i - base)]);
      }
    }
    if forall i :: base <= i < 13 * k && i <= |name| ==> upper(TrueUnit(name, i)) == upper(q[i]) {
      forall s | 0 <= s < n ensures upper(u[s]) == upper(q[base + s]) {
        assert upper(TrueUnit(name, base + s)) == upper(q[base + s]);
      }
    }
  }

  lemma SameLength(upper: Word -> Word, q: seq<Word>, qname: seq<Word>, name: seq<Word>)
    requires IsName(q, qname) && FoldsApart(upper) && 0 !in name && |name| <= LFN_MAX
    requires (forall i :: 0 <= i < |name| ==> upper(name[i]) == upper(q[i])) && q[|name|] == 0
    ensures |qname| == |name|
  {
    assert forall i :: 0 <= i < |name| ==> name[i] in name && q[i] != 0;
    assert forall i :: 0 <= i < |qname| ==> q[i] == q[..|qname|][i] && qname[i] in qname;
  }

  /** All parts match exactly when the whole name does. */
  lemma AllPartsMatch(upper: Word -> Word, q: seq<Word>, qname: seq<Word>, d: seq<Entry>, p: nat, name: seq<Word>,
                      fn: seq<byte>)
    requires Storable(name) && Readable(name) && Block(d, p, name, fn) && IsName(q, qname) && FoldsApart(upper)
    ensures (forall x :: p <= x < p + PartCount(name) ==> CmpOk(upper, q, d[x])) <==> SameName(upper, qname, name)
  {
    var n := PartCount(name);
    forall x | p <= x < p + n
      ensures CmpOk(upper, q, d[x]) <==>
        && (forall i :: 13 * (p + n - x - 1) <= i < 13 * (p + n - x) && i <= |name| ==>
          upper(TrueUnit(name, i)) == upper(q[i]))
        && (13 * (p + n - x) == |name| ==> q[|name|] == 0)
    {
      PartMatches(upper, q, d[x], name, p + n - x, SumFrom(fn, 0));
    }
    if SameName(upper, qname, name) {
      forall i | 0 <= i <= |name| ensures upper(TrueUnit(name, i)) == upper(q[i]) { BufferUnit(q, qname, i); }
    }
    if forall x :: p <= x < p + n ==> CmpOk(upper, q, d[x]) {
      forall i | 0 <= i < |name| ensures upper(name[i]) == upper(q[i]) {
        var x := p + n - (i / 13 + 1);
        assert CmpOk(upper, q, d[x]);
      }
      assert CmpOk(upper, q, d[p]);
      if |name| < 13 * n { assert upper(TrueUnit(name, |name|)) == upper(q[|name|]); }
      assert q[|name|] == 0;
      SameLength(upper, q, qname, name);
    }
  }

  /** The short entry after a stored name is a match by long name exactly for
      the names that differ from it in case only. */
  lemma StoredIsFound(upper: Word -> Word, q: seq<Word>, qname: seq<Word>, d: seq<Entry>, p: nat, at: nat,
                      name: seq<Word>, fn: seq<byte>)
    requires Storable(name) && Readable(name) && Block(d, p, name, fn) && at == p + PartCount(name)
    requires IsName(q, qname) && FoldsApart(upper)
    ensures (exists from: nat :: Named(CmpRules(upper, q), d, from, at)) <==> SameName(upper, qname, name)
    ensures forall from: nat :: Named(CmpRules(upper, q), d, from, at) ==> from == p
  {
    var rules := CmpRules(upper, q);
    BlockNamed(rules, d, p, name, fn);
    AllPartsMatch(upper, q, qname, d, p, name, fn);
    assert forall x :: p <= x < at ==> (rules.accepts(d[x]) <==> CmpOk(upper, q, d[x]));
    forall from: nat | Named(rules, d, from, at) ensures from == p {
      FromIsStart(rules, d, from, p, name, fn);
    }
  }

  /** Nothing but 0xFFFF folds to 0xFFFF. */
  ghost predicate PadApart(upper: Word -> Word) { forall w: Word :: upper(w) == upper(PAD) ==> w == PAD }

  /** A stored name is found under that name, up to case, if and only if it is
      readable. */
  lemma OwnNameFound(upper: Word -> Word, q: seq<Word>, qname: seq<Word>, d: seq<Entry>, p: nat, at: nat,
                     name: seq<Word>, fn: seq<byte>)
    requires Storable(name) && Block(d, p, name, fn) && at == p + PartCount(name) && IsName(q, qname)
    requires FoldsApart(upper) && PadApart(upper) && SameName(upper, qname, name)
    ensures (exists from: nat :: Named(CmpRules(upper, q), d, from, at)) <==> Readable(name)
  {
    if Readable(name) {
      StoredIsFound(upper, q, qname, d, p, at, name, fn);
    }
    if from: nat :| Named(CmpRules(upper, q), d, from, at) {
      OwnStart(upper, q, qname, d, from, p, at, name, fn);
      forall i | 0 <= i < |name| && name[i] == PAD
        ensures |name| % 13 == 0 && |name| - 13 <= i && forall j :: i <= j < |name| ==> name[j] == PAD
      {
        PadIsLast(CmpRules(upper, q), d, p, at, name, fn, i);
        PadMatches(upper, q, qname, d[p], name, SumFrom(fn, 0), i);
      }
    }
  }

  /** A sequence that matches the whole name begins at its block. */
  lemma OwnStart(upper: Word -> Word, q: seq<Word>, qname: seq<Word>, d: seq<Entry>, from: nat, p: nat, at: nat,
                 name: seq<Word>, fn: seq<byte>)
    requires Storable(name) && Block(d, p, name, fn) && at == p + PartCount(name) && IsName(q, qname)
    requires |qname| == |name|
    requires Sequence(CmpRules(upper, q), d, from, at)
    ensures from == p
  {
    PartFacts(d[p], name, PartCount(name), SumFrom(fn, 0));
    forall x | p < x < at ensures !(First(d[x]) && CmpOk(upper, q, d[x])) {
      if First(d[x]) { InnerNotMatched(upper, q, qname, d[x], name, at - x, SumFrom(fn, 0)); }
    }
  }

  /** A part in front of the last that is flagged as the last matches no name of
      full length. */
  lemma InnerNotMatched(upper: Word -> Word, q: seq<Word>, qname: seq<Word>, e: Entry, name: seq<Word>, k: nat,
                        sum: byte)
    requires Storable(name) && 0 < k < PartCount(name) && IsPart(e, name, k, sum) && First(e)
    requires IsName(q, qname) && |qname| == |name|
    ensures !CmpOk(upper, q, e)
  {
    PartFacts(e, name, k, sum);
    forall s | 0 <= s < 13 ensures Units(e)[s] != 0 { NotZero(name, 13 * (k - 1), s); }
    BufferUnit(q, qname, 13 * k);
  }

  lemma PadMatches(upper: Word -> Word, q: seq<Word>, qname: seq<Word>, e: Entry, name: seq<Word>, sum: byte, i: nat)
    requires Storable(name) && IsPart(e, name, PartCount(name), sum) && IsName(q, qname) && CmpOk(upper, q, e)
    requires FoldsApart(upper) && PadApart(upper) && SameName(upper, qname, name)
    requires i < |name| && name[i] == PAD && i >= 13 * (PartCount(name) - 1)
    ensures |name| % 13 == 0 && forall j :: i <= j < |name| ==> name[j] == PAD
  {
    var base := 13 * (PartCount(name) - 1);
    PartFacts(e, name, PartCount(name), sum);
    var u := Units(e);
    forall s | 0 <= s < 13 ensures u[s] != 0 && (i - base <= s ==> u[s] == PAD) {
      if i - base <= s { PadsOn(name, base, i - base, s); } else { NotZero(name, base, s); }
    }
    UsedIs(u, 13);
    assert Matches(upper, q, u, base, 13);
    forall j | i <= j <= |name| && j < base + 13 ensures upper(q[j]) == upper(PAD) {
      assert upper(u[j - base]) == upper(q[base + (j - base)]);
    }
    assert forall j :: 0 <= j < |name| ==> q[j] == q[..|qname|][j] == qname[j] && upper(qname[j]) == upper(name[j]);
    assert q[|name|] == 0;
  }

  lemma FromIsStart(rules: Rules, d: seq<Entry>, from: nat, p: nat, name: seq<Word>, fn: seq<byte>)
    requires Storable(name) && Readable(name) && Block(d, p, name, fn) && Sequence(rules, d, from, p + PartCount(name))
    ensures from == p
  {
    ReadablePartFacts(d[if from < p then p else from], name, p + PartCount(name) - (if from < p then p else from),
      SumFrom(fn, 0));
    var x := if from < p then p else from;
    PartFacts(d[x], name, p + PartCount(name) - x, SumFrom(fn, 0));
  }

  /** The answer of a read that stops at the short entry at `at`. */
  ghost predicate Answer(buf: seq<Word>, d: seq<Entry>, lo: nat, at: nat, blk: nat)
    requires |buf| == LFN_MAX + 1
  {
    && (blk == NO_LFN ==> forall from: nat :: lo <= from ==> !Named(PickRules(), d, from, at))
    && (blk != NO_LFN ==> Named(PickRules(), d, blk, at) && AllHeld(buf, d, blk, at))
  }

  /** What dir_read reports at a stored block is its beginning and its name if
      and only if the name is readable. */
  lemma StoredIsRead(buf: seq<Word>, d: seq<Entry>, lo: nat, at: nat, blk: nat, p: nat, name: seq<Word>, fn: seq<byte>)
    requires Storable(name) && Block(d, p, name, fn) && lo <= p && at == p + PartCount(name) && |buf| == LFN_MAX + 1
    requires p < NO_LFN && Answer(buf, d, lo, at, blk)
    ensures blk == p && IsName(buf, name) <==> Readable(name)
  {
    if Readable(name) {
      BlockNamed(PickRules(), d, p, name, fn);
      forall x | p <= x < at ensures PickOk(d[x]) { ReadablePartFacts(d[x], name, at - x, SumFrom(fn, 0)); }
      assert Named(PickRules(), d, p, at);
      SequenceUnique(PickRules(), d, blk, p, at);
      BlockRead(buf, d, p, name, fn);
    }
    if blk == p && IsName(buf, name) {
      forall i | 0 <= i < |name| && name[i] == PAD
        ensures |name| % 13 == 0 && |name| - 13 <= i && forall j :: i <= j < |name| ==> name[j] == PAD
      {
        PadIsLast(PickRules(), d, p, at, name, fn, i);
        PadFills(buf, d, p, name, fn, i);
      }
    }
  }

  /** In a block that both scans take for one sequence a 0xFFFF lies in the last
      part. */
  lemma PadIsLast(rules: Rules, d: seq<Entry>, p: nat, at: nat, name: seq<Word>, fn: seq<byte>, i: nat)
    requires Storable(name) && Block(d, p, name, fn) && at == p + PartCount(name) && Sequence(rules, d, p, at)
    requires i < |name| && name[i] == PAD
    ensures i >= 13 * (PartCount(name) - 1)
  {
    var k := i / 13 + 1;
    var x := at - k;
    PartFacts(d[x], name, k, SumFrom(fn, 0));
    PadsOn(name, 13 * (k - 1), i % 13, 12);
  }

  /** If the buffer then holds the name, the name ends in 0xFFFF with its part. */
  lemma PadFills(buf: seq<Word>, d: seq<Entry>, p: nat, name: seq<Word>, fn: seq<byte>, i: nat)
    requires Storable(name) && Block(d, p, name, fn) && IsName(buf, name) && AllHeld(buf, d, p, p + PartCount(name))
    requires i < |name| && name[i] == PAD && i >= 13 * (PartCount(name) - 1)
    ensures |name| % 13 == 0 && forall j :: i <= j < |name| ==> name[j] == PAD
  {
    var n := PartCount(name);
    var e, base := d[p], 13 * (n - 1);
    PartFacts(e, name, n, SumFrom(fn, 0));
    assert Holds(buf, e) && PickOk(e);
    var u := Units(e);
    forall s | 0 <= s < 13 ensures u[s] != 0 && (i - base <= s ==> u[s] == PAD) {
      if i - base <= s { PadsOn(name, base, i - base, s); } else { NotZero(name, base, s); }
    }
    UsedIs(u, 13);
    forall s | 0 <= s < 13 ensures buf[base + s] == u[s] { assert Placed(buf, u, base, 13); }
    forall j | i <= j <= |name| && j < base + 13 ensures buf[j] == PAD { assert buf[base + (j - base)] == u[j - base]; }
    assert forall j :: 0 <= j < |name| ==> name[j] == buf[..|name|][j] == buf[j];
    BufferUnit(buf, name, |name|);
  }

  /** The part of dir_register that stores the entries, from `start` on. */
  method StoreEntries(d: array<Entry>, start: nat, lfn: seq<Word>, fn: seq<byte>, ghost name: seq<Word>)
    requires IsName(lfn, name) && 0 < |name| && |fn| == 11 && start + PartCount(name) < d.Length
    modifies d
    ensures Block(d[..], start, name, fn) && d[start + PartCount(name)] == fn + seq(21, _ => 0)
    ensures d[..start] == old(d[..start]) && d[start + PartCount(name) + 1..] == old(d[start + PartCount(name) + 1..])
  {
    var len := 0;
    while lfn[len] != 0
      invariant 0 <= len <= |name| && d[..] == old(d[..])
      decreases |name| - len
    {
      BufferUnit(lfn, name, len);
      len := len + 1;
    }
    BufferUnit(lfn, name, len);
    var nEnt := (len + 12) / 13;
    ghost var n := nEnt;
    var sum := SumSfn(fn);
    var pos := start;
    while nEnt > 0
      invariant 0 <= nEnt <= n == PartCount(name) && pos == start + n - nEnt
      invariant forall x :: start <= x < pos ==> IsPart(d[x], name, start + n - x, SumFrom(fn, 0))
      invariant forall x :: 0 <= x < d.Length && !(start <= x < pos) ==> d[x] == old(d[x])
    {
      d[pos] := PutLfn(lfn, d[pos], nEnt, sum, name);
      pos := pos + 1;
      nEnt := nEnt - 1;
    }
    d[pos] := fn + seq(21, _ => 0);
    assert ShortName(d[pos]) == fn;
  }

  /** Entries in front of a block that a directory read passes over. */
  ghost predicate Passed(d: seq<Entry>, lo: nat, hi: nat) {
    hi <= |d| && forall x :: lo <= x < hi ==> d[x][0] != 0 && (IsLfn(d[x]) || ReadSkips(d[x]))
  }

  /** Storing a name and then reading the directory, from anywhere in front of
      it with no other file between, stops at its short entry, whatever stale
      long-name entries lie there, and gives back the name exactly if that is
      readable. */
  method StoreAndRead(d: array<Entry>, lo: nat, start: nat, lfn: seq<Word>, fn: seq<byte>, lfnbuf: array<Word>,
                      ghost name: seq<Word>)
    returns (found: bool, at: nat, blk: nat)
    requires IsName(lfn, name) && 0 < |name| <= 255 && 0 !in name && ShortOk(fn) && lfnbuf.Length == 256
    requires start + PartCount(name) < d.Length < 0xFFFF_FFFF && lo <= start && Passed(d[..], lo, start)
    modifies d, lfnbuf
    ensures found && at == start + PartCount(name)
    ensures blk == start && IsName(lfnbuf[..], name) <==> Readable(name)
  {
    ghost var before := d[..];
    StoreEntries(d, start, lfn, fn, name);
    var now: seq<Entry> := d[..];
    hide IsPart, PickOk, Sequence, AllHeld, Readable;
    assert forall x :: lo <= x < start ==> now[x] == now[..start][x] == before[..start][x];
    ghost var p := start + PartCount(name);
    BlockPassed(now, start, name, fn);
    assert now[p][0] == ShortName(now[p])[0];
    found, at, blk := DirRead(now, lo, lfnbuf);
    StoredIsRead(lfnbuf[..], now, lo, p, blk, start, name, fn);
  }

  lemma BlockPassed(d: seq<Entry>, p: nat, name: seq<Word>, fn: seq<byte>)
    requires Storable(name) && Block(d, p, name, fn)
    ensures forall x :: p <= x < p + PartCount(name) ==> d[x][0] != 0 && IsLfn(d[x])
  {
    forall x | p <= x < p + PartCount(name) ensures d[x][0] != 0 && IsLfn(d[x]) {
      PartFacts(d[x], name, p + PartCount(name) - x, SumFrom(fn, 0));
    }
  }
}
