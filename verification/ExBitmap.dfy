/** The allocation bitmap of an exFAT volume: searching it for free clusters and
    changing it, bit by bit through the bytes of its sectors. */
module ExBitmap {
  import opened Bytes

  /** The byte with bit `k` flipped: exclusive or with the mask. */
  function Flip(b: nat, k: nat): nat {
    if k == 0 then b - b % 2 + (1 - b % 2) else b % 2 + 2 * Flip(b / 2, k - 1)
  }

  lemma {:induction false} FlipIsXor(b: nat, k: nat)
    ensures Flip(b, k) == if Bit(b, k) then b - Pow2(k) else b + Pow2(k)
    ensures Bit(b, k) ==> Pow2(k) <= b
  {
    if k > 0 {
      FlipIsXor(b / 2, k - 1);
      assert b == b % 2 + 2 * (b / 2);
    }
  }

  lemma {:induction false} FlipBits(b: nat, k: nat, j: nat)
    ensures Bit(Flip(b, k), j) == if j == k then !Bit(b, j) else Bit(b, j)
  {
    if k > 0 {
      assert Flip(b, k) / 2 == Flip(b / 2, k - 1) && Flip(b, k) % 2 == b % 2;
      if j > 0 { FlipBits(b / 2, k - 1, j - 1); }
    } else {
      assert Flip(b, 0) / 2 == b / 2;
    }
  }

  lemma {:induction false} FlipByte(b: nat, k: nat, n: nat)
    requires k < n && b < Pow2(n)
    ensures Flip(b, k) < Pow2(n)
  {
    if k > 0 { FlipByte(b / 2, k - 1, n - 1); } else if n > 1 { assert b / 2 < Pow2(n - 1); }
  }

  /** The bit of `b & bm`, for a mask of one bit. */
  function Masked(b: nat, bm: nat): (r: nat)
    requires bm > 0
  {
    b / bm % 2
  }

  lemma {:induction false} MaskTest(b: nat, k: nat)
    ensures Masked(b, Pow2(k)) != 0 <==> Bit(b, k)
  {
    if k > 0 {
      MaskTest(b / 2, k - 1);
      HalfFirst(b, Pow2(k - 1));
    }
  }

  /** `bm <<= 1` in a byte. */
  lemma MaskNext(v: nat)
    ensures Pow2(v % 8) < 256
    ensures Pow2(v % 8) * 2 % 256 == if (v + 1) % 8 == 0 then 0 else Pow2((v + 1) % 8)
    ensures (v + 1) / 8 == v / 8 + if (v + 1) % 8 == 0 then 1 else 0
    ensures 0 < Pow2((v + 1) % 8)
  {
    Pow2Eight();
    var k := v % 8;
    assert Pow2(8) == 2 * Pow2(7) == 4 * Pow2(6) == 8 * Pow2(5) == 16 * Pow2(4);
    assert Pow2(4) == 2 * Pow2(3) == 4 * Pow2(2) == 8 * Pow2(1);
  }

  /** Byte `i` of the sector at `base` and mask `bm` address bit `v`. */
  ghost predicate At(v: nat, base: nat, i: nat, bm: nat) {
    i <= 512 && base + i == v / 8 && bm == Pow2(v % 8)
  }

  lemma AtNext(v: nat, base: nat, i: nat, bm: nat)
    requires At(v, base, i, bm) && i < 512
    ensures if bm * 2 % 256 != 0 then At(v + 1, base, i, bm * 2 % 256) else At(v + 1, base, i + 1, 1)
  {
    MaskNext(v);
  }

  /** Bitmap offset of the sector, byte in it and mask of bit `v`. */
  function SectorBase(v: nat): nat { v / 8 / 512 * 512 }
  function ByteIndex(v: nat): nat { v / 8 % 512 }
  function Mask(v: nat): nat { Pow2(v % 8) }

  lemma AtStart(v: nat)
    ensures At(v, SectorBase(v), ByteIndex(v), Mask(v)) && ByteIndex(v) < 512
  {
  }

  lemma AtSector(v: nat, base: nat, bm: nat)
    requires At(v, base, 512, bm)
    ensures At(v, base + 512, 0, bm)
  {
  }

  /** Cluster `v + 2` is marked in use. */
  predicate Used(bits: seq<byte>, v: nat)
    requires v / 8 < |bits|
  {
    Bit(bits[v / 8], v % 8)
  }

  /** `v` steps from `start` on a circle of `n`. */
  function Circ(start: nat, v: nat, n: nat): nat
    requires start < n
  {
    if start + v < n then start + v else start + v - n
  }

  predicate Covers(bits: seq<byte>, n: nat) { 0 < n <= |bits| * 8 && |bits| % 512 == 0 }

  predicate UsedAt(bits: seq<byte>, start: nat, v: nat, n: nat)
    requires Covers(bits, n) && start < n && v < n
  {
    Used(bits, Circ(start, v, n))
  }

  /** One of the `ncl` clusters from the a-th on is in use. */
  ghost predicate Blocked(bits: seq<byte>, start: nat, n: nat, a: nat, ncl: nat)
    requires Covers(bits, n) && start < n && a + ncl <= n
  {
    exists k :: a <= k < a + ncl && UsedAt(bits, start, k, n)
  }

  /** No `ncl` clusters in a row are free among the first `o` from `start`. */
  ghost predicate NoRun(bits: seq<byte>, start: nat, n: nat, ncl: nat, o: nat)
    requires Covers(bits, n) && start < n && o <= n
  {
    forall a: nat :: a + ncl <= o ==> Blocked(bits, start, n, a, ncl)
  }

  /** The last `ctr` clusters of the first `o` are free, the one before is not. */
  ghost predicate Tail(bits: seq<byte>, start: nat, n: nat, o: nat, ctr: nat)
    requires Covers(bits, n) && start < n && o <= n
  {
    && ctr <= o
    && (forall k :: o - ctr <= k < o ==> !UsedAt(bits, start, k, n))
    && (ctr < o ==> UsedAt(bits, start, o - ctr - 1, n))
  }

  ghost predicate FreeRun(bits: seq<byte>, start: nat, n: nat, pos: nat, ncl: nat)
    requires Covers(bits, n) && start < n && pos + ncl <= n
  {
    forall k :: pos <= k < pos + ncl ==> !UsedAt(bits, start, k, n)
  }

  lemma UsedByMask(bits: seq<byte>, v: nat, base: nat, i: nat, bm: nat)
    requires v / 8 < |bits| && At(v, base, i, bm)
    ensures base + i == v / 8 && bm > 0
    ensures Masked(bits[base + i], bm) != 0 <==> Used(bits, v)
  {
    MaskTest(bits[v / 8], v % 8);
  }

  lemma ScanBegin(bits: seq<byte>, start: nat, n: nat, ncl: nat)
    requires Covers(bits, n) && start < n && ncl > 0
    ensures Tail(bits, start, n, 0, 0) && NoRun(bits, start, n, ncl, 0)
  {
  }

  lemma ScanNext(bits: seq<byte>, start: nat, n: nat, ncl: nat, o: nat, ctr: nat)
    requires Covers(bits, n) && start < n && o < n && ctr < ncl
    requires Tail(bits, start, n, o, ctr) && NoRun(bits, start, n, ncl, o)
    ensures UsedAt(bits, start, o, n) ==> Tail(bits, start, n, o + 1, 0) && NoRun(bits, start, n, ncl, o + 1)
    ensures !UsedAt(bits, start, o, n) ==> Tail(bits, start, n, o + 1, ctr + 1)
    ensures !UsedAt(bits, start, o, n) && ctr + 1 < ncl ==> NoRun(bits, start, n, ncl, o + 1)
    ensures !UsedAt(bits, start, o, n) ==> FreeRun(bits, start, n, o - ctr, ctr + 1)
  {
    if UsedAt(bits, start, o, n) || ctr + 1 < ncl {
      if ncl <= o + 1 {
        assert UsedAt(bits, start, if UsedAt(bits, start, o, n) then o else o - ctr - 1, n);
        assert Blocked(bits, start, n, o + 1 - ncl, ncl);
      }
    }
  }

  /** The scan variables when `o` clusters have been looked at. */
  ghost predicate Scan(bits: seq<byte>, start: nat, n: nat, ncl: nat, o: nat, ctr: nat, val: nat, scl: nat) {
    && Covers(bits, n) && start < n && o < n && ctr <= o && ctr < ncl
    && val == Circ(start, o, n) && scl == Circ(start, o - ctr, n)
    && Tail(bits, start, n, o, ctr) && NoRun(bits, start, n, ncl, o)
  }

  /** The first free run begins `pos` clusters from the start, at `scl`. */
  ghost predicate FoundAt(bits: seq<byte>, start: nat, n: nat, ncl: nat, pos: nat, scl: nat) {
    && Covers(bits, n) && start < n && ncl > 0 && pos + ncl <= n && scl == Circ(start, pos, n)
    && FreeRun(bits, start, n, pos, ncl) && NoRun(bits, start, n, ncl, pos + ncl - 1)
  }

  lemma ScanStep(bits: seq<byte>, start: nat, n: nat, ncl: nat, o: nat, ctr: nat, val: nat, scl: nat, next: nat)
    requires Scan(bits, start, n, ncl, o, ctr, val, scl) && next == if val + 1 >= n then 0 else val + 1
    ensures val < n && val / 8 < |bits| && (next == start <==> o + 1 == n) && ctr <= o && ctr < ncl
    ensures Used(bits, val) && next != start ==> Scan(bits, start, n, ncl, o + 1, 0, next, next)
    ensures !Used(bits, val) && ctr + 1 < ncl && next != start ==> Scan(bits, start, n, ncl, o + 1, ctr + 1, next, scl)
    ensures (Used(bits, val) || ctr + 1 < ncl) && next == start ==> NoRun(bits, start, n, ncl, n)
    ensures !Used(bits, val) && ctr + 1 == ncl ==> FoundAt(bits, start, n, ncl, o - ctr, scl)
  {
    ScanNext(bits, start, n, ncl, o, ctr);
    hide Tail, NoRun, FreeRun, Used, Blocked;
    assert UsedAt(bits, start, o, n) == Used(bits, val);
  }

  /** Where the scan begins: the hint less 2 in unsigned arithmetic, 0 if that is
      no cluster. */
  function ScanStart(clst: nat, n: nat): (s: nat)
    requires 0 < n
    ensures s < n
  {
    if 2 <= clst < n + 2 then clst - 2 else 0
  }

  /** find_bitmap: the first free run on the circle from the hint, 0 if the one
      turn has none. A run may pass the end of the bitmap. */
  method FindBitmap(bits: array<byte>, nFatent: nat, clst: nat, ncl: nat) returns (r: nat, ghost pos: nat)
    requires nFatent > 2 && Covers(bits[..], nFatent - 2) && ncl > 0
    ensures r == 0 ==> NoRun(bits[..], ScanStart(clst, nFatent - 2), nFatent - 2, ncl, nFatent - 2)
    ensures r != 0 ==> r >= 2 && FoundAt(bits[..], ScanStart(clst, nFatent - 2), nFatent - 2, ncl, pos, r - 2)
  {
    var n := nFatent - 2;
    ghost var m: seq<byte> := bits[..];
    var start: nat := if 2 <= clst < n + 2 then clst - 2 else 0;
    var val: nat, scl: nat, ctr: nat := start, start, 0;
    ghost var o: nat := 0;
    ScanBegin(m, start, n, ncl);
    assert Scan(m, start, n, ncl, o, ctr, val, scl);
    hide Scan, NoRun, SectorBase, ByteIndex, Mask, FoundAt, Covers, At;
    while true
      invariant Scan(m, start, n, ncl, o, ctr, val, scl) && o < n
      decreases n - o
    {
      AtStart(val);
      var base: nat := SectorBase(val);
      var i: nat := ByteIndex(val);
      var bm: nat := Mask(val);
      ghost var o0 := o;
      while i < 512
        invariant Scan(m, start, n, ncl, o, ctr, val, scl) && o0 <= o < n
        invariant i < 512 ==> At(val, base, i, bm)
        invariant o0 == o ==> i < 512
        decreases n - o, 512 - i
      {
        var hit: bool, turn: bool, wrap: bool;
        hit, turn, wrap, val, scl, ctr, o := ScanByte(bits, n, start, ncl, base, i, bm, val, scl, ctr, o);
        if hit { return scl + 2, o + 1 - ctr; }
        if turn { return 0, 0; }
        i := if wrap then 512 else i + 1;
        bm := 1;
      }
    }
  }

  /** The bits of one byte, from mask `bm0` on: `hit` a run is complete, `turn`
      the circle is, `wrap` the scan goes on at the first cluster. */
  method ScanByte(bits: array<byte>, n: nat, start: nat, ncl: nat, base: nat, i: nat, bm0: nat, val0: nat, scl0: nat,
                  ctr0: nat, ghost o0: nat)
    returns (hit: bool, turn: bool, wrap: bool, val: nat, scl: nat, ctr: nat, ghost o: nat)
    requires Scan(bits[..], start, n, ncl, o0, ctr0, val0, scl0) && i < 512 && At(val0, base, i, bm0)
    ensures hit ==> ctr == ncl <= o + 1 && FoundAt(bits[..], start, n, ncl, o + 1 - ncl, scl)
    ensures !hit && turn ==> Covers(bits[..], n) && start < n && NoRun(bits[..], start, n, ncl, n)
    ensures !hit && !turn ==> Scan(bits[..], start, n, ncl, o, ctr, val, scl) && o0 < o < n
    ensures !hit && !turn && !wrap ==> At(val, base, i + 1, 1)
  {
    ghost var m: seq<byte> := bits[..];
    hide Scan, NoRun, Pow2, Used, FoundAt, Covers, At, Masked;
    hit, turn, wrap, val, scl, ctr, o := false, false, false, val0, scl0, ctr0, o0;
    var bm: nat := bm0;
    while true
      invariant Scan(m, start, n, ncl, o, ctr, val, scl) && o0 <= o
      invariant At(val, base, i, bm) && !hit && !turn && !wrap
      decreases n - o
    {
      ghost var next := if val + 1 >= n then 0 else val + 1;
      ScanStep(m, start, n, ncl, o, ctr, val, scl, next);
      UsedByMask(m, val, base, i, bm);
      AtNext(val, base, i, bm);
      var bv := Masked(bits[base + i], bm);
      bm := bm * 2 % 256;
      val := val + 1;
      if val >= n { val, bm, wrap := 0, 0, true; }
      if bv == 0 {
        ctr := ctr + 1;
        if ctr == ncl { hit := true; return; }
      } else {
        scl, ctr := val, 0;
      }
      if val == start { turn := true; return; }
      o := o + 1;
      if bm == 0 { return; }
    }
  }

  /** With a run of one, the search fails exactly when every cluster is in use. */
  lemma {:induction false} OneFree(bits: seq<byte>, start: nat, n: nat, v: nat)
    requires Covers(bits, n) && start < n && v < n && NoRun(bits, start, n, 1, n)
    ensures Used(bits, v)
  {
    var o := if start <= v then v - start else v + n - start;
    assert Blocked(bits, start, n, o, 1);
  }

  /** How many steps cluster `c` is behind the hint, on the circle of the clusters
      2 to n - 1; a hint that is no cluster stands for 2. */
  function Steps(n: nat, hint: nat, c: nat): int {
    var start := if 2 <= hint < n then hint else 2;
    if c >= start then c - start else c + (n - 2) - start
  }

  /** Cluster `c` is the free cluster with the fewest steps from the hint. */
  ghost predicate Nearest(bits: seq<byte>, n: nat, hint: nat, c: nat) {
    && 2 <= c < n && (c - 2) / 8 < |bits| && !Used(bits, c - 2)
    && forall k: nat :: 2 <= k < n && Steps(n, hint, k) < Steps(n, hint, c) ==>
         (k - 2) / 8 < |bits| && Used(bits, k - 2)
  }

  /** A run of one is found at the nearest free cluster. */
  lemma FoundIsNearest(bits: seq<byte>, n: nat, hint: nat, pos: nat, c: nat)
    requires n > 2 && Covers(bits, n - 2) && c >= 2
    requires FoundAt(bits, ScanStart(hint, n - 2), n - 2, 1, pos, c - 2)
    ensures Nearest(bits, n, hint, c)
  {
    var start, m := ScanStart(hint, n - 2), n - 2;
    assert !UsedAt(bits, start, pos, m);
    forall k: nat | 2 <= k < n && Steps(n, hint, k) < Steps(n, hint, c)
      ensures (k - 2) / 8 < |bits| && Used(bits, k - 2)
    {
      assert Blocked(bits, start, m, Steps(n, hint, k), 1);
    }
  }

  /** A run of one, or one looked for from the first cluster, is a run of free
      clusters. A longer run is one if it does not pass the end of the bitmap. */
  lemma FoundIsFree(bits: seq<byte>, start: nat, n: nat, ncl: nat, pos: nat, scl: nat)
    requires FoundAt(bits, start, n, ncl, pos, scl)
    ensures scl < n && !Used(bits, scl)
    ensures ncl == 1 || start == 0 ==> scl + ncl <= n
    ensures scl + ncl <= n ==> forall v: nat :: scl <= v < scl + ncl ==> !Used(bits, v)
  {
    assert !UsedAt(bits, start, pos, n);
    if scl + ncl <= n {
      forall v: nat | scl <= v < scl + ncl ensures !Used(bits, v) { assert !UsedAt(bits, start, pos + v - scl, n); }
    }
  }

  /** Exactly the clusters from `start` on, `done` of them, have turned into `bv`. */
  ghost predicate Changed(was: seq<byte>, bits: seq<byte>, start: nat, done: nat, bv: bool) {
    && |bits| == |was|
    && forall v: nat :: v / 8 < |bits| ==>
         && Used(bits, v) == (if start <= v < start + done then bv else Used(was, v))
         && (start <= v < start + done ==> Used(was, v) != bv)
  }

  lemma ChangedStart(was: seq<byte>, start: nat, bv: bool)
    ensures Changed(was, was, start, 0, bv)
  {
  }

  lemma ChangedNext(was: seq<byte>, bits: seq<byte>, start: nat, done: nat, bv: bool, v: nat, b: byte)
    requires Changed(was, bits, start, done, bv) && v == start + done && v / 8 < |bits|
    requires Used(bits, v) != bv && b == Flip(bits[v / 8], v % 8)
    ensures Changed(was, bits[v / 8 := b], start, done + 1, bv)
  {
    var now := bits[v / 8 := b];
    forall w: nat | w / 8 < |bits| ensures Used(now, w) == if w == v then bv else Used(bits, w) {
      FlipBits(bits[v / 8], v % 8, w % 8);
    }
  }

  /** A bitmap in which exactly `done` clusters from `start` on are in use. */
  lemma Marked(size: nat, start: nat, done: nat) returns (bits: seq<byte>)
    requires start + done <= size * 8
    ensures |bits| == size && forall v: nat :: v / 8 < size ==> (Used(bits, v) <==> start <= v < start + done)
  {
    bits := seq(size, _ => 0);
    ghost var was := bits;
    forall v: nat | v / 8 < size ensures !Used(was, v) { ZeroBit(v % 8); }
    ChangedStart(was, start, true);
    hide Used, Flip;
    for k := 0 to done
      invariant |bits| == size && Changed(was, bits, start, k, true)
    {
      var v := start + k;
      FlipByte(bits[v / 8], v % 8, 8);
      Pow2Eight();
      ChangedNext(was, bits, start, k, true, v, Flip(bits[v / 8], v % 8));
      bits := bits[v / 8 := Flip(bits[v / 8], v % 8)];
    }
  }

  lemma {:induction false} ZeroBit(k: nat)
    ensures !Bit(0, k)
  {
    if k > 0 { ZeroBit(k - 1); }
  }

  /** Every other search can go wrong: for any start but the first cluster and
      any longer run there is a bitmap whose first free run passes the end. */
  lemma FoundPassesEnd(start: nat, n: nat, ncl: nat) returns (bits: seq<byte>, pos: nat)
    requires 0 < start < n && 1 < ncl <= n
    ensures FoundAt(bits, start, n, ncl, pos, start + pos) && start + pos + ncl > n
  {
    pos := if n - start - 1 <= n - ncl then n - start - 1 else n - ncl;
    bits := Marked((n / 4096 + 1) * 512, start, pos);
    hide Used;
    forall k | pos <= k < pos + ncl ensures !UsedAt(bits, start, k, n) {
      assert Circ(start, k, n) / 8 < |bits|;
    }
    forall a: nat | a + ncl <= pos + ncl - 1 ensures Blocked(bits, start, n, a, ncl) {
      assert (start + a) / 8 < |bits|;
      assert UsedAt(bits, start, a, n);
    }
  }

  /** The byte that `win[i] ^= bm` leaves. */
  lemma XorMask(bits: seq<byte>, v: nat, base: nat, i: nat, bm: nat)
    requires v / 8 < |bits| && At(v, base, i, bm)
    ensures Flip(bits[v / 8], v % 8) == if Used(bits, v) then bits[base + i] - bm else bits[base + i] + bm
    ensures Flip(bits[v / 8], v % 8) < 256
  {
    Pow2Eight();
    FlipIsXor(bits[v / 8], v % 8);
    FlipByte(bits[v / 8], v % 8, 8);
  }

  predicate Has(bits: seq<byte>, v: nat, bv: bool) { v / 8 < |bits| && Used(bits, v) == bv }

  /** change_bitmap: turns a run of clusters into `bv` if all of it has the other
      value; otherwise only the part in front of the first that has not. */
  method ChangeBitmap(bits: array<byte>, clst: nat, count: nat, bv: bool) returns (ok: bool, ghost done: nat)
    requires clst >= 2 && count > 0 && clst - 2 + count <= bits.Length * 8
    modifies bits
    ensures Changed(old(bits[..]), bits[..], clst - 2, done, bv) && done <= count
    ensures ok <==> done == count
    ensures !ok ==> Has(old(bits[..]), clst - 2 + done, bv)
  {
    ghost var was: seq<byte> := bits[..];
    var start: nat := clst - 2;
    ChangedStart(was, start, bv);
    AtStart(start);
    hide Changed, SectorBase, ByteIndex, Mask, Used, At, Has;
    var ncl;
    ok, ncl := ChangeSectors(bits, SectorBase(start), ByteIndex(start), Mask(start), count, bv, was, start);
    done := count - ncl;
  }

  /** The sectors from one on. */
  method ChangeSectors(bits: array<byte>, base0: nat, i0: nat, bm0: nat, count: nat, bv: bool, ghost was: seq<byte>,
                       ghost start: nat)
    returns (ok: bool, ncl: nat)
    requires 0 < count && start + count <= bits.Length * 8 && Changed(was, bits[..], start, 0, bv)
    requires i0 < 512 && At(start, base0, i0, bm0)
    modifies bits
    ensures ncl <= count && Changed(was, bits[..], start, count - ncl, bv)
    ensures (ok <==> ncl == 0) && (!ok ==> Has(was, start + count - ncl, bv))
  {
    hide Changed, At, Has;
    ok, ncl := false, count;
    var base: nat, i: nat, bm: nat, end := base0, i0, bm0, false;
    while !end
      invariant ncl <= count && Changed(was, bits[..], start, count - ncl, bv)
      invariant end ==> (ok <==> ncl == 0) && (!ok ==> Has(was, start + count - ncl, bv))
      invariant !end ==> 0 < ncl && i < 512 && At(start + count - ncl, base, i, bm)
      decreases !end, ncl
    {
      ok, end, ncl := ChangeSector(bits, base, i, bm, ncl, bv, was, start, count);
      base, i, bm := base + 512, 0, 1;
    }
  }

  /** The bytes of one sector. */
  method ChangeSector(bits: array<byte>, base: nat, i0: nat, bm0: nat, ncl0: nat, bv: bool, ghost was: seq<byte>,
                      ghost start: nat, ghost count: nat)
    returns (ok: bool, end: bool, ncl: nat)
    requires 0 < ncl0 <= count && start + count <= bits.Length * 8 && Changed(was, bits[..], start, count - ncl0, bv)
    requires i0 < 512 && At(start + count - ncl0, base, i0, bm0)
    modifies bits
    ensures ncl <= ncl0 && Changed(was, bits[..], start, count - ncl, bv)
    ensures end ==> (ok <==> ncl == 0) && (!ok ==> Has(was, start + count - ncl, bv))
    ensures !end ==> 0 < ncl < ncl0 && At(start + count - ncl, base + 512, 0, 1)
  {
    hide Changed, At, Has;
    ncl := ncl0;
    var i: nat, bm: nat := i0, bm0;
    while i < 512
      invariant 0 < ncl <= ncl0 && Changed(was, bits[..], start, count - ncl, bv)
      invariant i <= 512 && At(start + count - ncl, base, i, bm)
      invariant i == 512 ==> ncl < ncl0 && bm == 1
      decreases ncl
    {
      ok, end, ncl := ChangeByte(bits, base, i, bm, ncl, bv, was, start, count);
      if end { return; }
      bm := 1;
      i := i + 1;
    }
    AtSector(start + count - ncl, base, bm);
    return false, false, ncl;
  }

  /** The bits of one byte, from mask `bm0` on: `end` when all are changed or
      one has the value already. */
  method ChangeByte(bits: array<byte>, base: nat, i: nat, bm0: nat, ncl0: nat, bv: bool, ghost was: seq<byte>,
                    ghost start: nat, ghost count: nat)
    returns (ok: bool, end: bool, ncl: nat)
    requires 0 < ncl0 <= count && start + count <= bits.Length * 8 && Changed(was, bits[..], start, count - ncl0, bv)
    requires i < 512 && At(start + count - ncl0, base, i, bm0)
    modifies bits
    ensures ncl <= ncl0 && Changed(was, bits[..], start, count - ncl, bv)
    ensures end ==> (ok <==> ncl == 0) && (!ok ==> Has(was, start + count - ncl, bv))
    ensures !end ==> 0 < ncl < ncl0 && At(start + count - ncl, base, i + 1, 1)
  {
    hide Changed, Pow2, Used, Flip, At, Masked, Has, Mask, SectorBase, ByteIndex;
    ghost var m: seq<byte> := bits[..];
    ncl := ncl0;
    var bm: nat := bm0;
    while true
      invariant m == bits[..] && 0 < ncl <= ncl0 && Changed(was, m, start, count - ncl, bv)
      invariant At(start + count - ncl, base, i, bm)
      decreases ncl
    {
      ghost var v: nat := start + count - ncl;
      UsedByMask(m, v, base, i, bm);
      AtNext(v, base, i, bm);
      XorMask(m, v, base, i, bm);
      var bit := Masked(bits[base + i], bm) != 0;
      if bv == bit {
        StillUsed(was, m, start, count - ncl, bv, v);
        return false, true, ncl;
      }
      ChangedNext(was, m, start, count - ncl, bv, v, Flip(m[v / 8], v % 8));
      bits[base + i] := if bit then bits[base + i] - bm else bits[base + i] + bm;
      m := m[v / 8 := bits[base + i]];
      ncl := ncl - 1;
      if ncl == 0 { return true, true, ncl; }
      bm := bm * 2 % 256;
      if bm == 0 { return false, false, ncl; }
    }
  }

  lemma StillUsed(was: seq<byte>, bits: seq<byte>, start: nat, done: nat, bv: bool, v: nat)
    requires Changed(was, bits, start, done, bv) && v == start + done && v / 8 < |bits|
    ensures Used(bits, v) == bv ==> Has(was, v, bv)
  {
  }
}
