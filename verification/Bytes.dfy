/** Bytes, sectors and the little-endian accessors of ff.c. */
module Bytes {

  type byte = x: int | 0 <= x < 256

  type Sector = s: seq<byte> | |s| == 512 witness seq(512, _ => 0)

  /** Unsigned subtraction of two `LBA_t` (64-bit) values. */
  function Sub64(a: nat, b: nat): (r: nat)
    requires a < 0x1_0000_0000_0000_0000 && b < 0x1_0000_0000_0000_0000
  {
    if b <= a then a - b else 0x1_0000_0000_0000_0000 + a - b
  }

  lemma Sub64Wraps(a: nat, b: nat)
    requires a < 0x1_0000_0000_0000_0000 && b < 0x1_0000_0000_0000_0000
    ensures Sub64(a, b) == (a - b) % 0x1_0000_0000_0000_0000
  {
    if b > a { ModAdd(Sub64(a, b), -1, 0x1_0000_0000_0000_0000); }
  }

  /** The C idiom `a - b < n` on unsigned values is a two-sided range test,
      as long as the range itself does not wrap. */
  lemma UnsignedRangeTest(a: nat, b: nat, n: nat)
    requires a < 0x1_0000_0000_0000_0000 && b + n <= 0x1_0000_0000_0000_0000
    requires b < 0x1_0000_0000_0000_0000
    ensures Sub64(a, b) < n <==> b <= a < b + n
  {
  }

  /** Little-endian bytes of `v`, `n` of them (st_word, st_dword, st_qword). */
  function StLE(v: nat, n: nat): (s: seq<byte>)
    ensures |s| == n
  {
    if n == 0 then [] else [v % 256] + StLE(v / 256, n - 1)
  }

  /** Little-endian value of a byte string (ld_word, ld_dword, ld_qword). */
  function LdLE(s: seq<byte>): (v: nat)
  {
    if s == [] then 0 else s[0] + 256 * LdLE(s[1..])
  }

  /** `s` with the `n` little-endian bytes of `v` stored at `ofs`. */
  function StoreAt(s: seq<byte>, ofs: nat, v: nat, n: nat): (r: seq<byte>)
    requires ofs + n <= |s|
    ensures |r| == |s|
  {
    s[..ofs] + StLE(v, n) + s[ofs + n..]
  }

  /** The `n`-byte little-endian value stored at `ofs`. */
  function LoadAt(s: seq<byte>, ofs: nat, n: nat): (v: nat)
    requires ofs + n <= |s|
  {
    LdLE(s[ofs..ofs + n])
  }

  lemma StoreAtBytes(s: seq<byte>, ofs: nat, v: nat, n: nat)
    requires ofs + n <= |s|
    ensures StoreAt(s, ofs, v, n)[..ofs] == s[..ofs]
    ensures StoreAt(s, ofs, v, n)[0..ofs] == s[0..ofs] && StoreAt(s, ofs, v, n)[ofs + n..|s|] == s[ofs + n..|s|]
    ensures StoreAt(s, ofs, v, n)[ofs..ofs + n] == StLE(v, n)
    ensures StoreAt(s, ofs, v, n)[ofs + n..] == s[ofs + n..]
  {
  }

  /** A field reads back what was stored in it, and what was stored in a
      disjoint field does not show. */
  lemma LoadAfterStore(s: seq<byte>, ofs: nat, v: nat, n: nat, o: nat, m: nat)
    requires ofs + n <= |s| && o + m <= |s|
    ensures v < Pow256(n) ==> LoadAt(StoreAt(s, ofs, v, n), ofs, n) == v
    ensures LoadAt(StoreAt(s, ofs, v, n), ofs, n) == v % Pow256(n)
    ensures o + m <= ofs || ofs + n <= o ==> LoadAt(StoreAt(s, ofs, v, n), o, m) == LoadAt(s, o, m)
  {
    hide StoreAt, Pow256, StLE, LdLE;
    StoreAtBytes(s, ofs, v, n);
    var r := StoreAt(s, ofs, v, n);
    if v < Pow256(n) {
      LoadStore(v, n);
    }
    LoadStoreMod(v, n);
    if o + m <= ofs {
      SliceOfSlice(r, 0, ofs, o, o + m);
      SliceOfSlice(s, 0, ofs, o, o + m);
    } else if ofs + n <= o {
      var k := ofs + n;
      SliceOfSlice(r, k, |s|, o - k, o + m - k);
      SliceOfSlice(s, k, |s|, o - k, o + m - k);
    }
  }

  lemma StoreAtByte(s: seq<byte>, ofs: nat, v: nat, n: nat, i: nat)
    requires ofs + n <= |s| && i < |s|
    ensures !(ofs <= i < ofs + n) ==> StoreAt(s, ofs, v, n)[i] == s[i]
  {
  }

  lemma SliceOfSlice(s: seq<byte>, lo: nat, hi: nat, a: nat, b: nat)
    requires lo <= hi <= |s| && a <= b <= hi - lo
    ensures s[lo..hi][a..b] == s[lo + a..lo + b]
  {
    var x, y := s[lo..hi][a..b], s[lo + a..lo + b];
    forall t | 0 <= t < b - a ensures x[t] == y[t] { assert x[t] == s[lo..hi][a + t] == s[lo + (a + t)]; }
  }

  function Pow256(n: nat): (p: nat)
    ensures p > 0
  {
    if n == 0 then 1 else 256 * Pow256(n - 1)
  }

  lemma Pow256Values()
    ensures Pow256(2) == 0x1_0000 && Pow256(4) == 0x1_0000_0000 && Pow256(8) == 0x1_0000_0000_0000_0000
  {
    assert Pow256(1) == 256 * Pow256(0);
    assert Pow256(4) == 256 * Pow256(3) == 0x1_0000 * Pow256(2) == 0x100_0000 * Pow256(1);
    assert Pow256(8) == 256 * Pow256(7) == 0x1_0000 * Pow256(6) == 0x100_0000 * Pow256(5);
  }

  lemma DivBound(v: nat, p: nat)
    requires v < 256 * p
    ensures v / 256 < p
  {
  }

  lemma {:induction false} LoadStore(v: nat, n: nat)
    requires v < Pow256(n)
    ensures LdLE(StLE(v, n)) == v
  {
    if n > 0 {
      DivBound(v, Pow256(n - 1));
      LoadStore(v / 256, n - 1);
      assert StLE(v, n)[1..] == StLE(v / 256, n - 1);
    }
  }

  /** Of a value too large for its bytes the remainder is stored. */
  lemma {:induction false} LoadStoreMod(v: nat, n: nat)
    ensures LdLE(StLE(v, n)) == v % Pow256(n)
  {
    if n > 0 {
      LoadStoreMod(v / 256, n - 1);
      assert StLE(v, n)[1..] == StLE(v / 256, n - 1);
      var p := Pow256(n - 1);
      var q, r := v / 256 / p, v / 256 % p;
      assert v == 256 * (q * p + r) + v % 256;
      DivUnique(v, 256 * p, q, 256 * r + v % 256);
    }
  }

  lemma {:induction false} StoreLoad(s: seq<byte>)
    ensures LdLE(s) < Pow256(|s|)
    ensures StLE(LdLE(s), |s|) == s
  {
    if s != [] {
      StoreLoad(s[1..]);
      assert (s[0] + 256 * LdLE(s[1..])) / 256 == LdLE(s[1..]);
      assert s == [s[0]] + s[1..];
    }
  }

  lemma MulMonotone(a: int, b: int, m: nat)
    requires a <= b
    ensures a * m <= b * m
  {
    assert (b - a) * m >= 0;
  }

  lemma DivMonotone(a: nat, b: nat, c: nat)
    requires a <= b && c > 0
    ensures a / c <= b / c
  {
    var q, r := a / c, b / c;
    assert a == q * c + a % c && b == r * c + b % c;
    assert (r + 1) * c == r * c + c;
    if q > r { MulMonotone(r + 1, q, c); }
  }

  /** Quotient and remainder are determined by `x == a + k * m`. */
  lemma DivUnique(x: int, m: nat, k: int, a: nat)
    requires 0 <= a < m && x == a + k * m
    ensures x / m == k && x % m == a
  {
    var q, r := x / m, x % m;
    assert x == q * m + r;
    assert (k + 1) * m == k * m + m;
    assert (q + 1) * m == q * m + m;
    if q > k {
      MulMonotone(k + 1, q, m);
    } else if q < k {
      MulMonotone(q + 1, k, m);
    }
  }

  lemma ModAdd(a: nat, k: int, m: nat)
    requires a < m
    ensures (a + k * m) % m == a && (a + k * m) / m == k
  {
    DivUnique(a + k * m, m, k, a);
  }

  /** An aligned pair or quadruple of bytes never straddles two sectors. */
  lemma Aligned(o: nat, w: nat, j: nat)
    requires (w == 2 || w == 4) && o % w == 0 && j < w
    ensures (o + j) / 512 == o / 512 && (o + j) % 512 == o % 512 + j
    ensures o % 512 + j < 512
  {
    if w == 2 {
      var q, r := o / 2 / 256, o / 2 % 256;
      DivUnique(o, 512, q, 2 * r);
      DivUnique(o + j, 512, q, 2 * r + j);
    } else {
      var q, r := o / 4 / 128, o / 4 % 128;
      DivUnique(o, 512, q, 4 * r);
      DivUnique(o + j, 512, q, 4 * r + j);
    }
  }

  /** The sector and the offset in it of entry `k`, of `w` bytes, and the next. */
  lemma NextOffset(k: nat, w: nat)
    requires w == 2 || w == 4
    ensures (k * w + w) % 512 == (k * w % 512 + w) % 512
    ensures (k * w + w) / 512 == if (k * w + w) % 512 == 0 then k * w / 512 + 1 else k * w / 512
  {
    var o := k * w;
    var q, r := o / 512, o % 512;
    assert o == 512 * q + r;
    MultipleRemainder(k, w, q, r);
    if r + w == 512 {
      DivUnique(o + w, 512, q + 1, 0);
    } else {
      DivUnique(o + w, 512, q, r + w);
      DivUnique(r + w, 512, 0, r + w);
    }
  }

  lemma MultipleRemainder(k: nat, w: nat, q: nat, r: nat)
    requires (w == 2 || w == 4) && k * w == 512 * q + r && r < 512
    ensures r + w <= 512
  {
    if w == 2 { assert r == 2 * (k - 256 * q); } else { assert r == 4 * (k - 128 * q); }
  }

  function Pow2(n: nat): (p: nat)
    ensures p > 0
  {
    if n == 0 then 1 else 2 * Pow2(n - 1)
  }

  /** Bitwise exclusive or of the low `n` bits. */
  function XorBits(a: nat, b: nat, n: nat): (r: nat)
    ensures r < Pow2(n)
  {
    if n == 0 then 0 else (a % 2 + b % 2) % 2 + 2 * XorBits(a / 2, b / 2, n - 1)
  }

  lemma {:induction false} XorBitsInjective(a: nat, x: nat, y: nat, n: nat)
    requires x < Pow2(n) && y < Pow2(n) && XorBits(a, x, n) == XorBits(a, y, n)
    ensures x == y
  {
    if n > 0 {
      var u, v := XorBits(a / 2, x / 2, n - 1), XorBits(a / 2, y / 2, n - 1);
      OneBit(a % 2, x % 2, y % 2, u, v);
      XorBitsInjective(a / 2, x / 2, y / 2, n - 1);
    }
  }

  lemma OneBit(a: nat, x: nat, y: nat, u: nat, v: nat)
    requires a < 2 && x < 2 && y < 2 && (a + x) % 2 + 2 * u == (a + y) % 2 + 2 * v
    ensures x == y && u == v
  {
  }

  /** Bit `k` of a number, counted from the lowest. */
  predicate Bit(v: nat, k: nat) {
    if k == 0 then v % 2 == 1 else Bit(v / 2, k - 1)
  }

  /** The bits of an exclusive or. */
  lemma {:induction false} XorBit(a: nat, b: nat, n: nat, k: nat)
    ensures Bit(XorBits(a, b, n), k) <==> k < n && Bit(a, k) != Bit(b, k)
  {
    if n == 0 {
      ZeroBit(k);
    } else {
      var r := XorBits(a, b, n);
      assert r % 2 == (a % 2 + b % 2) % 2 && r / 2 == XorBits(a / 2, b / 2, n - 1);
      if k > 0 { XorBit(a / 2, b / 2, n - 1, k - 1); }
    }
  }

  lemma {:induction false} ZeroBit(k: nat)
    ensures !Bit(0, k)
  {
    if k > 0 { ZeroBit(k - 1); }
  }

  lemma HalfFirst(b: nat, m: nat)
    requires m > 0
    ensures b / (2 * m) == b / 2 / m
  {
    var q, r := b / 2 / m, b / 2 % m;
    assert b == 2 * (q * m + r) + b % 2;
    DivUnique(b, 2 * m, q, 2 * r + b % 2);
  }

  lemma BitNext(v: nat, k: nat)
    ensures Bit(v, k + 1) == Bit(v / 2, k)
  {
  }

  /** The higher bits of a number are the bits of its quotient. */
  lemma {:induction false} BitShift(v: nat, n: nat, k: nat, m: nat, q: nat)
    requires m == Pow2(n) && q == v / m
    ensures Bit(q, k) == Bit(v, n + k)
  {
    if n == 0 {
      assert q == v;
    } else {
      hide Bit;
      HalfFirst(v, Pow2(n - 1));
      BitShift(v / 2, n - 1, k, Pow2(n - 1), q);
      BitNext(v, n - 1 + k);
    }
  }

  /** Its lower bits are those of its remainder. */
  lemma {:induction false} BitLow(v: nat, n: nat, k: nat)
    requires k < n
    ensures Bit(v % Pow2(n), k) == Bit(v, k)
  {
    LowHalf(v, Pow2(n - 1));
    if k > 0 { BitLow(v / 2, n - 1, k - 1); }
  }

  lemma LowHalf(v: nat, m: nat)
    requires m > 0
    ensures v % (2 * m) / 2 == v / 2 % m && v % (2 * m) % 2 == v % 2
  {
    var q, r := v / 2 / m, v / 2 % m;
    assert v == 2 * (q * m + r) + v % 2;
    DivUnique(v, 2 * m, q, 2 * r + v % 2);
  }

  /** A number is determined by its bits. */
  lemma {:induction false} SameBits(a: nat, b: nat, n: nat)
    requires a < Pow2(n) && b < Pow2(n) && forall k: nat :: k < n ==> Bit(a, k) == Bit(b, k)
    ensures a == b
  {
    if n > 0 {
      assert Bit(a, 0) == Bit(b, 0);
      forall k: nat | k < n - 1 ensures Bit(a / 2, k) == Bit(b / 2, k) {
        assert Bit(a, k + 1) == Bit(b, k + 1);
      }
      SameBits(a / 2, b / 2, n - 1);
    }
  }

  /** Numbers that share no bit: one below bit `k`, one a multiple of it. */
  lemma {:induction false} XorDisjoint(low: nat, high: nat, k: nat, n: nat)
    requires low < Pow2(k) && high % Pow2(k) == 0 && high < Pow2(n) && k <= n
    ensures XorBits(low, high, n) == XorBits(high, low, n) == low + high
  {
    hide XorBits;
    if n > 0 {
      HalfXor(low, high, n);
      if k > 0 {
        LowHalf(high, Pow2(k - 1));
        XorDisjoint(low / 2, high / 2, k - 1, n - 1);
      } else {
        XorDisjoint(0, high / 2, 0, n - 1);
      }
    }
  }

  lemma HalfXor(a: nat, b: nat, n: nat)
    requires n > 0
    ensures XorBits(a, b, n) == (a % 2 + b % 2) % 2 + 2 * XorBits(a / 2, b / 2, n - 1)
    ensures XorBits(b, a, n) == (a % 2 + b % 2) % 2 + 2 * XorBits(b / 2, a / 2, n - 1)
  {
  }

  lemma Pow2Values()
    ensures Pow2(8) == 0x100 && Pow2(13) == 0x2000 && Pow2(16) == 0x1_0000 && Pow2(24) == 0x100_0000
    ensures Pow2(29) == 0x2000_0000 && Pow2(32) == 0x1_0000_0000
  {
    Pow2Eight();
    Pow2Sum(8, 5);
    Pow2Sum(8, 8);
    Pow2Sum(16, 8);
    Pow2Sum(24, 5);
    Pow2Sum(16, 16);
    assert Pow2(5) == 2 * Pow2(4) == 4 * Pow2(3) == 8 * Pow2(2) == 16 * Pow2(1);
  }

  lemma {:induction false} Pow2Sum(a: nat, b: nat)
    ensures Pow2(a + b) == Pow2(a) * Pow2(b)
  {
    if b > 0 {
      Pow2Sum(a, b - 1);
      assert Pow2(a) * (2 * Pow2(b - 1)) == 2 * (Pow2(a) * Pow2(b - 1));
    }
  }

  /** The lowest byte comes first. */
  lemma LittleEndian(a: byte, b: byte, c: byte, d: byte)
    ensures LdLE([a, b]) == a + 0x100 * b
    ensures LdLE([a, b, c, d]) == a + 0x100 * b + 0x1_0000 * c + 0x100_0000 * d
  {
    LdPair(a, [b]);
    LdPair(a, [b, c, d]);
    LdPair(b, [c, d]);
    LdPair(c, [d]);
  }

  lemma LdPair(a: byte, s: seq<byte>)
    ensures LdLE([a] + s) == a + 0x100 * LdLE(s) && LdLE([a]) == a
  {
  }

  lemma Pow2Eight()
    ensures Pow2(8) == 256
  {
    assert Pow2(8) == 2 * Pow2(7) == 4 * Pow2(6) == 8 * Pow2(5) == 16 * Pow2(4);
    assert Pow2(4) == 2 * Pow2(3) == 4 * Pow2(2) == 8 * Pow2(1);
  }

  function Min(a: int, b: int): int { if a <= b then a else b }
  function Max(a: int, b: int): int { if a <= b then b else a }
}
