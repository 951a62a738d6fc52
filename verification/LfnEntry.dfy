/** One long-file-name entry: writing a part of a name, reading it back, and
    comparing it. */
module LfnEntry {
  import opened Bytes

  type Word = x: int | 0 <= x < 0x1_0000
  type Entry = e: seq<byte> | |e| == 32 witness seq(32, _ => 0)

  const PAD: Word := 0xFFFF
  const LFN_MAX: nat := 255
  const AM_LFN: nat := 0x0F

  /** Offset of the s-th character in an entry. */
  function LfnOfs(s: nat): (o: nat)
    requires s < 13
    ensures o in {1, 3, 5, 7, 9, 14, 16, 18, 20, 22, 24, 28, 30}
  {
    if s < 5 then 1 + 2 * s else if s < 11 then 4 + 2 * s else 6 + 2 * s
  }

  function Word16(e: Entry, i: nat): Word
    requires i < 31
  {
    256 * (e[i + 1] as int) + e[i]
  }

  function StWord(e: Entry, i: nat, w: Word): (r: Entry)
    requires i < 31
    ensures Word16(r, i) == w
    ensures forall j :: 0 <= j < 32 && j != i && j != i + 1 ==> r[j] == e[j]
  {
    e[i := w % 256][i + 1 := w / 256]
  }

  function Unit(e: Entry, s: nat): Word
    requires s < 13
  {
    Word16(e, LfnOfs(s))
  }

  function StUnit(e: Entry, s: nat, w: Word): (r: Entry)
    requires s < 13
    ensures Unit(r, s) == w
    ensures forall k :: 0 <= k < 13 && k != s ==> Unit(r, k) == Unit(e, k)
    ensures SameHead(r, e) && r[0] == e[0]
  {
    StWord(e, LfnOfs(s), w)
  }

  /** Attribute, type, checksum and cluster agree. */
  predicate SameHead(r: Entry, e: Entry) {
    r[11] == e[11] && r[12] == e[12] && r[13] == e[13] && Word16(r, 26) == Word16(e, 26)
  }

  /** LLEF, and the order without it. */
  predicate First(e: Entry) { e[0] / 64 % 2 == 1 }

  function Number(e: Entry): (n: nat)
    ensures n <= 0xBF
  {
    if First(e) then e[0] - 64 else e[0]
  }

  /** Buffer offset of the part with number `n`, in unsigned arithmetic. */
  function Base(n: nat): nat {
    if n == 0 then 0x1_0000_0000 - 13 else (n - 1) * 13
  }

  /** The thirteen characters of an entry. */
  function Units(e: Entry): (u: seq<Word>)
    ensures |u| == 13
    ensures forall s :: 0 <= s < 13 ==> u[s] == Unit(e, s)
  {
    seq(13, s requires 0 <= s < 13 => Unit(e, s))
  }

  /** Number of characters up to and including the terminator. */
  function Used(u: seq<Word>): (t: nat)
    ensures t <= |u|
    ensures forall k :: 0 <= k < t - 1 ==> u[k] != 0
    ensures t > 0 && u[t - 1] != 0 ==> t == |u|
  {
    if u == [] then 0 else if u[0] == 0 then 1 else
      assert forall k :: 1 <= k < |u| ==> u[k] == u[1..][k - 1];
      1 + Used(u[1..])
  }

  /** After the terminator there is padding, as far as `n`. */
  predicate Padded(u: seq<Word>, n: nat)
    requires n <= |u|
  {
    forall s :: Used(u) <= s < n ==> u[s] == PAD
  }

  lemma PaddedNext(u: seq<Word>, n: nat)
    requires n < |u|
    ensures Padded(u, n + 1) <==> Padded(u, n) && (Used(u) <= n ==> u[n] == PAD)
    ensures Padded(u, |u|) ==> Padded(u, n + 1)
  {
  }

  /** What a loop over the characters learns from the next one. */
  lemma {:induction false} UsedAt(u: seq<Word>, s: nat)
    requires s < Used(u)
    ensures u[s] == 0 ==> Used(u) == s + 1 && 0 in u
    ensures u[s] != 0 && s + 1 < |u| ==> s + 1 < Used(u)
    ensures u[s] != 0 && s + 1 == |u| ==> Used(u) == |u| && 0 !in u
  {
    if s > 0 {
      UsedAt(u[1..], s - 1);
      assert u == [u[0]] + u[1..];
    }
  }

  /** `buf` is the working buffer with `name` in it. */
  ghost predicate IsName(buf: seq<Word>, name: seq<Word>) {
    && |buf| == LFN_MAX + 1 && |name| <= LFN_MAX
    && buf[..|name|] == name && buf[|name|] == 0 && 0 !in name
  }

  /** The name is cut at every 13 characters; the last part is terminated and
      padded if it is not full. */
  function TrueUnit(name: seq<Word>, i: nat): Word {
    if i < |name| then name[i] else if i == |name| then 0 else PAD
  }

  function CharAt(name: seq<Word>, base: nat, s: nat): Word { TrueUnit(name, base + s) }

  /** What put_lfn stores: a 0xFFFF in the name reads as padding from there on. */
  function Stored(name: seq<Word>, base: nat, s: nat): Word {
    if s > 0 && Stored(name, base, s - 1) in {0, PAD} then PAD else CharAt(name, base, s)
  }

  predicate LastPart(name: seq<Word>, k: nat)
    requires k > 0
  {
    Stored(name, (k - 1) * 13, 12) in {0, PAD} || 13 * k >= |name|
  }

  /** The entry put_lfn makes for part `k`. */
  predicate IsPart(e: Entry, name: seq<Word>, k: nat, sum: byte) {
    && 0 < k && e[0] == k + (if LastPart(name, k) then 64 else 0)
    && e[11] == AM_LFN && e[12] == 0 && e[13] == sum && Word16(e, 26) == 0
    && forall s :: 0 <= s < 13 ==> Unit(e, s) == Stored(name, (k - 1) * 13, s)
  }

  /** No character reads as padding, or the name fills its last part and ends
      there in characters that do. */
  predicate Readable(name: seq<Word>) {
    forall i :: 0 <= i < |name| && name[i] == PAD ==>
      |name| % 13 == 0 && |name| - 13 <= i && forall j :: i <= j < |name| ==> name[j] == PAD
  }

  /** put_lfn. */
  method PutLfn(lfn: seq<Word>, entry: Entry, order: nat, sum: byte, ghost name: seq<Word>) returns (dir: Entry)
    requires IsName(lfn, name) && 0 < order <= 20 && (order - 1) * 13 < |name|
    ensures IsPart(dir, name, order, sum)
  {
    hide TrueUnit, StUnit, Unit;
    var ord := order;
    dir := entry[13 := sum][11 := AM_LFN][12 := 0];
    dir := StWord(dir, 26, 0);
    ghost var base := (ord - 1) * 13;
    ghost var head := dir;
    var i := (ord - 1) * 13;
    var s: nat, wc: Word := 0, 0;
    while s < 13
      invariant s <= 13 && SameHead(dir, head)
      invariant forall k :: 0 <= k < s ==> Unit(dir, k) == Stored(name, base, k)
      invariant s == 0 ==> wc == 0
      invariant s > 0 ==> wc == if Stored(name, base, s - 1) == 0 then PAD else Stored(name, base, s - 1)
      invariant wc != PAD ==> i == base + s <= |name|
    {
      if wc != PAD { BufferUnit(lfn, name, i); wc := lfn[i]; i := i + 1; }
      dir := StUnit(dir, s, wc);
      if wc == 0 { wc := PAD; }
      s := s + 1;
    }
    if wc != PAD { BufferUnit(lfn, name, i); }
    if wc == PAD || lfn[i] == 0 { ord := ord + 64; }
    FirstByte(dir, ord);
    dir := dir[0 := ord];
  }

  lemma BufferUnit(buf: seq<Word>, name: seq<Word>, i: nat)
    requires IsName(buf, name) && i <= |name|
    ensures buf[i] == TrueUnit(name, i)
    ensures buf[i] == 0 <==> i == |name|
  {
    assert i < |name| ==> name[i] == buf[..|name|][i] && name[i] in name;
  }

  lemma FirstByte(e: Entry, b: byte)
    ensures SameHead(e[0 := b], e) && forall k :: 0 <= k < 13 ==> Unit(e[0 := b], k) == Unit(e, k)
  {
  }

  ghost predicate StoredTrue(name: seq<Word>, base: nat, n: nat) {
    forall s :: 0 <= s < n ==> Stored(name, base, s) == CharAt(name, base, s)
  }

  ghost predicate PadsToEnd(name: seq<Word>, base: nat, n: nat) {
    forall s :: 0 < s < n && CharAt(name, base, s - 1) == PAD ==> CharAt(name, base, s) == PAD
  }

  /** Part `k` is stored faithfully exactly when a 0xFFFF in it is followed by
      nothing but 0xFFFF in that part, so always without one. */
  lemma {:induction false} FaithfulPart(name: seq<Word>, base: nat, n: nat)
    requires 0 !in name
    ensures StoredTrue(name, base, n) <==> PadsToEnd(name, base, n)
  {
    if n > 1 {
      FaithfulPart(name, base, n - 1);
      assert StoredTrue(name, base, n) <==>
        StoredTrue(name, base, n - 1) && Stored(name, base, n - 1) == CharAt(name, base, n - 1);
      assert PadsToEnd(name, base, n) <==>
             PadsToEnd(name, base, n - 1) && (CharAt(name, base, n - 2) == PAD ==> CharAt(name, base, n - 1) == PAD);
      assert StoredTrue(name, base, n - 1) ==> Stored(name, base, n - 2) == CharAt(name, base, n - 2);
    }
  }

  /** A part of a readable name is stored as it is, and flagged as the last
      part exactly if it is. */
  lemma ReadablePart(e: Entry, name: seq<Word>, k: nat, sum: byte)
    requires 0 !in name && Readable(name) && IsPart(e, name, k, sum)
    ensures forall s :: 0 <= s < 13 ==> Units(e)[s] == TrueUnit(name, (k - 1) * 13 + s)
    ensures LastPart(name, k) <==> 13 * k >= |name|
  {
    var base := (k - 1) * 13;
    forall s | 0 < s < 13 && CharAt(name, base, s - 1) == PAD ensures CharAt(name, base, s) == PAD {
      if base + s - 1 < |name| { assert name[base + s - 1] == PAD; }
    }
    FaithfulPart(name, base, 13);
    assert Stored(name, base, 12) == CharAt(name, base, 12);
    assert forall s :: 0 <= s < 13 ==> Stored(name, base, s) == CharAt(name, base, s);
    if 13 * k < |name| { assert name[base + 12] != PAD && name[base + 12] in name; }
  }

  /** The bytes of such a part: order and flag, attribute, type, checksum, a
      zero cluster, and thirteen characters, the low byte of each first. */
  lemma PartBytes(e: Entry, name: seq<Word>, k: nat, sum: byte, s: nat)
    requires 0 !in name && Readable(name) && IsPart(e, name, k, sum) && s < 13
    ensures e[0] == k + (if 13 * k >= |name| then 0x40 else 0)
    ensures e[11] == 0x0F && e[12] == 0 && e[13] == sum && e[26] == e[27] == 0
    ensures var o := [1, 3, 5, 7, 9, 14, 16, 18, 20, 22, 24, 28, 30][s];
            var i := 13 * (k - 1) + s;
            (e[o] as int) + 0x100 * (e[o + 1] as int) == if i < |name| then name[i] else if i == |name| then 0
              else 0xFFFF
  {
    hide Readable, LastPart;
    ReadablePart(e, name, k, sum);
    assert Units(e)[s] == Unit(e, s);
  }

  /** From a 0xFFFF on a part is all padding. */
  lemma {:induction false} PadsOn(name: seq<Word>, base: nat, s: nat, t: nat)
    requires 0 !in name && base + s < |name| && name[base + s] == PAD && s <= t
    ensures Stored(name, base, t) == PAD
  {
    if s < t {
      PadsOn(name, base, s, t - 1);
    } else if s > 0 && base + s - 1 < |name| {
      NotZero(name, base, s - 1);
    }
  }

  lemma {:induction false} NotZero(name: seq<Word>, base: nat, s: nat)
    requires 0 !in name && base + s < |name|
    ensures Stored(name, base, s) != 0
  {
    assert name[base + s] in name;
  }

  /** 0xFFFF at the end of a part that is not the last: both parts hold their
      characters, but the first is flagged as the last one. */
  lemma PadAtPartEnd()
    ensures var name: seq<Word> := seq(14, i => if i == 12 then PAD else 0x41);
      !Readable(name) && StoredTrue(name, 0, 13) && StoredTrue(name, 13, 13) && LastPart(name, 1)
  {
    var name: seq<Word> := seq(14, i => if i == 12 then PAD else 0x41);
    FaithfulPart(name, 0, 13);
    FaithfulPart(name, 13, 13);
    PadsOn(name, 0, 12, 12);
    assert name[12] == PAD;
  }

  /** pick_lfn succeeds on this entry. */
  predicate PickOk(e: Entry) {
    && Word16(e, 26) == 0 && Padded(Units(e), 13)
    && Base(Number(e)) + Used(Units(e)) <= LFN_MAX + 1
    && (First(e) && 0 !in Units(e) ==> Base(Number(e)) + 13 <= LFN_MAX)
  }

  /** The first `n` characters stand in the buffer at `base`. */
  ghost predicate Placed(buf: seq<Word>, u: seq<Word>, base: nat, n: nat)
    requires n <= |u|
  {
    base + n <= |buf| && forall s :: 0 <= s < n ==> buf[base + s] == u[s]
  }

  ghost predicate KeptOutside(was: seq<Word>, buf: seq<Word>, base: nat, n: nat) {
    |buf| == |was| && forall x :: 0 <= x < |buf| && (x < base || base + n <= x) ==> buf[x] == was[x]
  }

  lemma KeptWider(was: seq<Word>, base: nat)
    ensures KeptOutside(was, was, base, 13)
    ensures forall buf :: KeptOutside(was, buf, base, 13) ==> KeptOutside(was, buf, base, 14)
  {
  }

  lemma KeptNext(was: seq<Word>, buf: seq<Word>, base: nat, n: nat, i: nat, w: Word)
    requires KeptOutside(was, buf, base, n) && base <= i < |buf| && i <= base + n
    ensures KeptOutside(was, buf[i := w], base, n + 1)
    ensures i < base + n ==> KeptOutside(was, buf[i := w], base, n)
  {
  }

  lemma PlacedNext(buf: seq<Word>, u: seq<Word>, base: nat, n: nat, w: Word)
    requires n <= |u| && base + n < |buf| && (n > 0 ==> Placed(buf, u, base, n))
    ensures Placed(buf[base + n := w], u, base, n)
    ensures n < |u| && w == u[n] ==> Placed(buf[base + n := w], u, base, n + 1)
  {
  }

  /** The part of the name in `e` is in the buffer. */
  ghost predicate Holds(buf: seq<Word>, e: Entry)
    requires |buf| == LFN_MAX + 1 && PickOk(e)
  {
    && Base(Number(e)) + Used(Units(e)) <= LFN_MAX + 1 && Placed(buf, Units(e), Base(Number(e)), Used(Units(e)))
    && (First(e) && 0 !in Units(e) ==> buf[Base(Number(e)) + 13] == 0)
  }

  /** pick_lfn. */
  method PickLfn(lfnbuf: array<Word>, dir: Entry) returns (ok: bool)
    requires lfnbuf.Length == LFN_MAX + 1
    modifies lfnbuf
    ensures ok <==> PickOk(dir)
    ensures ok ==> Holds(lfnbuf[..], dir)
    ensures KeptOutside(old(lfnbuf[..]), lfnbuf[..], Base(Number(dir)), if First(dir) then 14 else 13)
  {
    ghost var was: seq<Word> := lfnbuf[..];
    KeptWider(was, Base(Number(dir)));
    if Word16(dir, 26) != 0 { return false; }
    var wc, i;
    ok, wc, i := PickChars(lfnbuf, dir);
    if ok && First(dir) && wc != 0 {
      if i >= LFN_MAX + 1 { return false; }
      ghost var u: seq<Word>, buf: seq<Word> := Units(dir), lfnbuf[..];
      hide Used, Base, Unit, Units, Number, First, Padded, Placed, KeptOutside;
      PlacedNext(buf, u, Base(Number(dir)), 13, 0);
      KeptNext(was, buf, Base(Number(dir)), 13, i, 0);
      lfnbuf[i] := 0;
      assert lfnbuf[..] == buf[i := 0];
    }
  }

  /** Its loop over the characters: `wc` is zero once the name has ended, else
      the next one goes to `i`. */
  method PickChars(lfnbuf: array<Word>, dir: Entry) returns (ok: bool, wc: Word, i: nat)
    requires lfnbuf.Length == LFN_MAX + 1
    modifies lfnbuf
    ensures ok <==> Padded(Units(dir), 13) && Base(Number(dir)) + Used(Units(dir)) <= LFN_MAX + 1
    ensures ok ==>
      Base(Number(dir)) + Used(Units(dir)) <= LFN_MAX + 1
        && Placed(lfnbuf[..], Units(dir), Base(Number(dir)), Used(Units(dir)))
    ensures ok ==>
      if wc == 0 then 0 in Units(dir)
        else 0 !in Units(dir) && Used(Units(dir)) == 13 && i == Base(Number(dir)) + 13 != LFN_MAX + 1
    ensures KeptOutside(old(lfnbuf[..]), lfnbuf[..], Base(Number(dir)), 13)
  {
    ghost var was: seq<Word>, buf: seq<Word> := lfnbuf[..], lfnbuf[..];
    KeptWider(was, Base(Number(dir)));
    ghost var u: seq<Word> := Units(dir);
    ghost var t := Used(u);
    assert t > 0;
    ghost var base := Base(Number(dir));
    i := Base(Number(dir));
    assert base + 13 != LFN_MAX + 1;
    assert Padded(u, 0);
    hide Used, Base, Unit, Units, Number, First, Padded, Placed, KeptOutside;
    ok, wc := false, 1;
    var s: nat := 0;
    while s < 13
      invariant s <= 13 && !ok
      invariant wc != 0 && s < 13 ==> s < t
      invariant wc != 0 && s == 13 ==> t == 13 && 0 !in u
      invariant wc != 0 ==> i == base + s && (s > 0 ==> base + s <= LFN_MAX + 1 && Placed(buf, u, base, s))
      invariant wc == 0 ==> t <= s && 0 in u && base + t <= LFN_MAX + 1 && Placed(buf, u, base, t)
      invariant Padded(u, s)
      invariant lfnbuf[..] == buf && KeptOutside(was, buf, base, 13)
    {
      PaddedNext(u, s);
      if wc != 0 { UsedAt(u, s); }
      var uc := Unit(dir, s);
      if wc != 0 {
        if i >= LFN_MAX + 1 { return; }
        PlacedNext(buf, u, base, s, uc);
        KeptNext(was, buf, base, 13, i, uc);
        wc := uc;
        lfnbuf[i] := uc;
        buf := buf[i := uc];
        i := i + 1;
      } else {
        if uc != PAD { return; }
      }
      s := s + 1;
    }
    ok := true;
  }

  /** The first `n` characters match those of the buffer at `base`. */
  predicate Matches(upper: Word -> Word, q: seq<Word>, u: seq<Word>, base: nat, n: nat)
    requires n <= |u|
  {
    base + n <= |q| && forall s :: 0 <= s < n ==> upper(u[s]) == upper(q[base + s])
  }

  lemma MatchesNext(upper: Word -> Word, q: seq<Word>, u: seq<Word>, base: nat, n: nat)
    requires n < Used(u)
    ensures Matches(upper, q, u, base, Used(u)) ==> Matches(upper, q, u, base, n + 1)
    ensures Matches(upper, q, u, base, n + 1) <==>
      (n > 0 ==> Matches(upper, q, u, base, n)) && base + n < |q| && upper(u[n]) == upper(q[base + n])
  {
  }

  /** cmp_lfn accepts this entry for the name in `q`. */
  predicate CmpOk(upper: Word -> Word, q: seq<Word>, e: Entry)
    requires |q| == LFN_MAX + 1
  {
    var base := Base(e[0] % 64);
    && Word16(e, 26) == 0 && Padded(Units(e), 13)
    && Matches(upper, q, Units(e), base, Used(Units(e)))
    && (First(e) && 0 !in Units(e) ==> q[base + 13] == 0)
  }

  /** cmp_lfn. */
  method CmpLfn(upper: Word -> Word, lfnbuf: seq<Word>, dir: Entry) returns (ok: bool)
    requires |lfnbuf| == LFN_MAX + 1
    ensures ok <==> CmpOk(upper, lfnbuf, dir)
  {
    if Word16(dir, 26) != 0 { return false; }
    var wc, i;
    ok, wc, i := CmpChars(upper, lfnbuf, dir);
    if ok && First(dir) && wc != 0 && lfnbuf[i] != 0 { return false; }
  }

  /** Its loop over the characters: `wc` is zero once the name in the entry has
      ended, else the next one is compared at `i`. */
  method CmpChars(upper: Word -> Word, lfnbuf: seq<Word>, dir: Entry) returns (ok: bool, wc: Word, i: nat)
    requires |lfnbuf| == LFN_MAX + 1
    ensures ok <==> Padded(Units(dir), 13) && Matches(upper, lfnbuf, Units(dir), Base(dir[0] % 64), Used(Units(dir)))
    ensures ok ==> if wc == 0 then 0 in Units(dir) else 0 !in Units(dir) && i == Base(dir[0] % 64) + 13 <= LFN_MAX
  {
    ghost var u: seq<Word> := Units(dir);
    ghost var t := Used(u);
    assert t > 0;
    ghost var base := Base(dir[0] % 64);
    i := Base(dir[0] % 64);
    assert base + 13 != LFN_MAX + 1;
    assert Padded(u, 0);
    hide Used, Base, Unit, Units, Padded, Matches;
    ok, wc := false, 1;
    var s: nat := 0;
    while s < 13
      invariant s <= 13 && !ok
      invariant wc != 0 && s < 13 ==> s < t
      invariant wc != 0 && s == 13 ==> t == 13 && 0 !in u
      invariant wc != 0 ==> i == base + s && (s > 0 ==> base + s <= LFN_MAX + 1 && Matches(upper, lfnbuf, u, base, s))
      invariant wc == 0 ==> t <= s && 0 in u && Matches(upper, lfnbuf, u, base, t)
      invariant Padded(u, s)
    {
      PaddedNext(u, s);
      if wc != 0 { UsedAt(u, s); }
      if s < t { MatchesNext(upper, lfnbuf, u, base, s); }
      var uc := Unit(dir, s);
      if wc != 0 {
        if i >= LFN_MAX + 1 || upper(uc) != upper(lfnbuf[i]) { return; }
        i := i + 1;
        wc := uc;
      } else {
        if uc != PAD { return; }
      }
      s := s + 1;
    }
    ok := true;
  }
}
