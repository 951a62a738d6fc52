/** The on-file form of an encrypted file: a 41-byte header and 512-byte
    ciphertext blocks of 496 plaintext bytes each. */
module CryptLayout {
  import opened Wrappers
  import opened Bytes
  import opened FileImage
  import opened File

  const HEADER_SIZE: nat := 41
  const CIPHER_SIZE: nat := 512
  const PLAIN_SIZE: nat := 496
  const NONCE_SIZE: nat := 24
  const VERSION: byte := 1

  /** "FATCRYPT" */
  const MAGIC: seq<byte> := [0x46, 0x41, 0x54, 0x43, 0x52, 0x59, 0x50, 0x54]

  /** The cipher and the key derivation, which this model does not look into. */
  datatype Aead = Aead(
    enc: (seq<byte>, seq<byte>, seq<byte>) -> seq<byte>,
    dec: (seq<byte>, seq<byte>, seq<byte>) -> Option<seq<byte>>,
    kdf: (seq<byte>, seq<byte>) -> seq<byte>)
  {
    /** Decryption undoes encryption, and lengths are as the library has them. */
    ghost predicate Sound() {
      && (forall k, n, p {:trigger enc(k, n, p)} :: |p| == PLAIN_SIZE ==>
           |enc(k, n, p)| == CIPHER_SIZE && dec(k, n, enc(k, n, p)) == Some(p))
      && (forall k, n, c {:trigger dec(k, n, c)} :: |c| == CIPHER_SIZE && dec(k, n, c).Some? ==>
           |dec(k, n, c).value| == PLAIN_SIZE)
    }
  }

  // --- nonces ---------------------------------------------------------------

  function Xor(a: byte, b: byte): byte {
    Pow2Eight();
    XorBits(a, b, 8)
  }

  lemma XorInjective(a: byte, x: byte, y: byte)
    requires Xor(a, x) == Xor(a, y)
    ensures x == y
  {
    Pow2Eight();
    XorBitsInjective(a, x, y, 8);
  }

  /** fatcrypt_derive_block_nonce: the block index, big-endian, is xored into
      the last four bytes of the base nonce (a shift by 8 is a division by 256). */
  function BlockNonce(base: seq<byte>, idx: nat): (n: seq<byte>)
    requires |base| == NONCE_SIZE
    ensures |n| == NONCE_SIZE
  {
    base[..20] + [Xor(base[20], idx / 256 / 256 / 256 % 256), Xor(base[21], idx / 256 / 256 % 256),
                  Xor(base[22], idx / 256 % 256), Xor(base[23], idx % 256)]
  }

  /** Bit `t` of byte `j` of a block nonce: that of the base nonce, flipped in the
      last four bytes by the bits of the index, the highest byte first. */
  lemma BlockNonceBits(base: seq<byte>, idx: nat, j: nat, t: nat)
    requires |base| == 24 && j < 24 && t < 8
    ensures j < 20 ==> BlockNonce(base, idx)[j] == base[j]
    ensures j >= 20 ==> (Bit(BlockNonce(base, idx)[j], t) != Bit(base[j], t) <==> Bit(idx, 8 * (23 - j) + t))
  {
    hide Xor;
    var i1, i2, i3 := idx / 256, idx / 256 / 256, idx / 256 / 256 / 256;
    ByteBits(idx, t, t);
    ByteBits(idx, t, 8 + t);
    ByteBits(idx, t, 16 + t);
    ByteBits(i1, t, t);
    ByteBits(i1, t, 8 + t);
    ByteBits(i2, t, t);
    ByteBits(i3, t, t);
    XorByteBit(base[20], i3 % 256, t);
    XorByteBit(base[21], i2 % 256, t);
    XorByteBit(base[22], i1 % 256, t);
    XorByteBit(base[23], idx % 256, t);
  }

  lemma XorByteBit(a: byte, b: byte, t: nat)
    ensures Bit(Xor(a, b), t) <==> t < 8 && Bit(a, t) != Bit(b, t)
  {
    XorBit(a, b, 8, t);
  }

  /** The bits of the lowest byte, and those behind it. */
  lemma ByteBits(i: nat, t: nat, u: nat)
    requires t < 8
    ensures Bit(i % 256, t) == Bit(i, t) && Bit(i / 256, u) == Bit(i, 8 + u)
  {
    Pow2Eight();
    BitLow(i, 8, t);
    BitShift(i, 8, u, 256, i / 256);
  }

  lemma FourBytes(i: nat, j: nat)
    requires i < 0x1_0000_0000 && j < 0x1_0000_0000
    requires i / 256 / 256 / 256 % 256 == j / 256 / 256 / 256 % 256 && i / 256 / 256 % 256 == j / 256 / 256 % 256
    requires i / 256 % 256 == j / 256 % 256 && i % 256 == j % 256
    ensures i == j
  {
    var i1, j1 := i / 256, j / 256;
    var i2, j2 := i1 / 256, j1 / 256;
    var i3, j3 := i2 / 256, j2 / 256;
    assert i3 < 256 && j3 < 256;
    assert i == i % 256 + 256 * i1 && i1 == i1 % 256 + 256 * i2 && i2 == i2 % 256 + 256 * i3;
    assert j == j % 256 + 256 * j1 && j1 == j1 % 256 + 256 * j2 && j2 == j2 % 256 + 256 * j3;
  }

  /** No two blocks of a file share a nonce. */
  lemma BlockNoncesDistinct(base: seq<byte>, i: nat, j: nat)
    requires |base| == NONCE_SIZE && i < 0x1_0000_0000 && j < 0x1_0000_0000
    requires BlockNonce(base, i) == BlockNonce(base, j)
    ensures i == j
  {
    hide Xor;
    var a, b := BlockNonce(base, i), BlockNonce(base, j);
    assert a[20] == b[20] && a[21] == b[21] && a[22] == b[22] && a[23] == b[23];
    XorInjective(base[20], i / 256 / 256 / 256 % 256, j / 256 / 256 / 256 % 256);
    XorInjective(base[21], i / 256 / 256 % 256, j / 256 / 256 % 256);
    XorInjective(base[22], i / 256 % 256, j / 256 % 256);
    XorInjective(base[23], i % 256, j % 256);
    FourBytes(i, j);
  }

  // --- placement ------------------------------------------------------------

  /** File position of block `b`, as f_crypt_lseek computes it in 64 bits. */
  function BlockPos(b: nat): nat { HEADER_SIZE + b * CIPHER_SIZE }

  /** The same position as f_crypt_read and f_crypt_write compute it, in 32. */
  function BlockPos32(b: nat): nat { (HEADER_SIZE + b * CIPHER_SIZE) % 0x1_0000_0000 }

  /** The two computations agree exactly below block 2^23, where the 32-bit one
      comes back to block 0. */
  lemma BlockPosAgree(b: nat)
    ensures BlockPos32(b) == BlockPos(b) <==> b < 0x80_0000
    ensures BlockPos32(0x80_0000) == BlockPos(0)
  {
  }

  /** Blocks lie after the header, in order, without overlap; a logical offset
      has one place. */
  lemma BlocksDisjoint(x: nat, y: nat)
    ensures HEADER_SIZE <= BlockPos(x / PLAIN_SIZE)
    ensures x / PLAIN_SIZE < y / PLAIN_SIZE ==> BlockPos(x / PLAIN_SIZE) + CIPHER_SIZE <= BlockPos(y / PLAIN_SIZE)
    ensures x < y <==>
      x / PLAIN_SIZE < y / PLAIN_SIZE || (x / PLAIN_SIZE == y / PLAIN_SIZE && x % PLAIN_SIZE < y % PLAIN_SIZE)
  {
  }

  /** Number of blocks of `n` plaintext bytes. */
  function Blocks(n: nat): nat { (n + PLAIN_SIZE - 1) / PLAIN_SIZE }

  /** File size f_crypt_truncate computes for `n` plaintext bytes. */
  function PhysicalSize(n: nat): (s: nat)
    ensures s >= HEADER_SIZE
  {
    if n == 0 then HEADER_SIZE else HEADER_SIZE + Blocks(n) * CIPHER_SIZE
  }

  const WRAP64: nat := 0x1_0000_0000_0000_0000

  /** The same size as f_crypt_truncate computes it, in 64 bits. */
  function PhysicalSize64(n: nat): (s: nat)
    ensures s >= HEADER_SIZE
  {
    var sectors := (n + PLAIN_SIZE - 1) % WRAP64 / PLAIN_SIZE;
    if n == 0 then HEADER_SIZE else (HEADER_SIZE + sectors * CIPHER_SIZE % WRAP64) % WRAP64
  }

  /** The 64-bit computation is exact as long as the size fits. */
  lemma PhysicalSizeFits(n: nat)
    requires n < 0x1_0000_0000_0000_0000
    ensures PhysicalSize64(n) == PhysicalSize(n) <==> PhysicalSize(n) < 0x1_0000_0000_0000_0000
    ensures PhysicalSize(n) == 41 + (n + 495) / 496 * 512
  {
    var x := Blocks(n) * CIPHER_SIZE;
    if n + PLAIN_SIZE - 1 < WRAP64 {
      DivUnique(n + PLAIN_SIZE - 1, WRAP64, 0, n + PLAIN_SIZE - 1);
      if x < WRAP64 { DivUnique(x, WRAP64, 0, x); }
    } else {
      DivUnique(n + PLAIN_SIZE - 1, WRAP64, 1, n + PLAIN_SIZE - 1 - WRAP64);
      DivUnique(n + PLAIN_SIZE - 1 - WRAP64, PLAIN_SIZE, 0, n + PLAIN_SIZE - 1 - WRAP64);
    }
  }

  // --- the header -----------------------------------------------------------

  datatype Header = Header(magic: seq<byte>, version: byte, lsize: nat, nonce: seq<byte>)

  ghost predicate HeaderOk(h: Header) {
    h.magic == MAGIC && h.version == VERSION && h.lsize < 0x1_0000_0000_0000_0000 && |h.nonce| == NONCE_SIZE
  }

  function HeaderBytes(h: Header): (s: seq<byte>)
    requires |h.magic| == 8 && |h.nonce| == NONCE_SIZE
    ensures |s| == HEADER_SIZE
  {
    h.magic + [h.version] + StLE(h.lsize, 8) + h.nonce
  }

  /** What parse_fatcrypt_header answers for the bytes of a readable file. */
  function ParseResult(c: seq<byte>): FResult {
    if |c| < 8 then FR_NO_HEADER
    else if c[..8] != MAGIC then (if |c| <= HEADER_SIZE then FR_NO_HEADER else FR_BAD_HEADER)
    else if |c| < 9 then FR_INT_ERR
    else if c[8] != VERSION then FR_BAD_HEADER
    else if |c| < HEADER_SIZE then FR_INT_ERR
    else FR_OK
  }

  function HeaderOf(c: seq<byte>): Header
    requires |c| >= HEADER_SIZE
  {
    Header(c[..8], c[8], LdLE(c[9..17]), c[17..41])
  }

  /** Header round trip, both ways. */
  lemma HeaderRoundTrip(h: Header, c: seq<byte>)
    requires HeaderOk(h) && |c| >= HEADER_SIZE && c[..HEADER_SIZE] == HeaderBytes(h)
    ensures ParseResult(c) == FR_OK && HeaderOf(c) == h
  {
    var b := HeaderBytes(h);
    var s := StLE(h.lsize, 8);
    assert b[..8] == h.magic && b[8] == h.version && b[9..17] == s && b[17..41] == h.nonce;
    assert c[..8] == b[..8] && c[8] == b[8] && c[9..17] == b[9..17] && c[17..41] == b[17..41];
    Pow256Values();
    LoadStore(h.lsize, 8);
  }

  lemma ParsedHeader(c: seq<byte>)
    requires ParseResult(c) == FR_OK
    ensures HeaderOk(HeaderOf(c)) && c[..HEADER_SIZE] == HeaderBytes(HeaderOf(c))
  {
    var s := c[9..17];
    Pow256Values();
    StoreLoad(s);
    assert c[..HEADER_SIZE] == c[..8] + [c[8]] + c[9..17] + c[17..41];
  }

  /** Updating the size field yields the header with the new size. */
  lemma SizeFieldUpdate(h: Header, n: nat, c: seq<byte>)
    requires HeaderOk(h) && |c| >= HEADER_SIZE && c[..HEADER_SIZE] == HeaderBytes(h)
    ensures var c' := Splice(c, 9, StLE(n, 8));
            && |c'| == |c| && c'[..HEADER_SIZE] == HeaderBytes(h.(lsize := n)) && c'[HEADER_SIZE..] == c[HEADER_SIZE..]
  {
    var c' := Splice(c, 9, StLE(n, 8));
    var b := HeaderBytes(h);
    assert b[..9] == h.magic + [h.version] && b[17..] == h.nonce;
    assert c'[..9] == c[..9] == b[..9];
    assert c'[9..17] == StLE(n, 8);
    assert c'[17..41] == c[17..41] == b[17..41];
    assert c'[..HEADER_SIZE] == c'[..9] + c'[9..17] + c'[17..41];
  }

  // --- the blocks -----------------------------------------------------------

  function Block(c: seq<byte>, b: nat): seq<byte>
    requires BlockPos(b) + CIPHER_SIZE <= |c|
  {
    c[BlockPos(b)..BlockPos(b) + CIPHER_SIZE]
  }

  /** Block `b` is there, decrypts, and begins with the plaintext of its range. */
  ghost predicate BlockOk(a: Aead, key: seq<byte>, nonce: seq<byte>, c: seq<byte>, p: seq<byte>, b: nat)
    requires |nonce| == NONCE_SIZE && b * PLAIN_SIZE < |p|
  {
    && BlockPos(b) + CIPHER_SIZE <= |c|
    && var q := a.dec(key, BlockNonce(nonce, b), Block(c, b));
    && q.Some? && |q.value| == PLAIN_SIZE
    && p[b * PLAIN_SIZE..Min((b + 1) * PLAIN_SIZE, |p|)] <= q.value
  }

  ghost predicate BlocksOk(a: Aead, key: seq<byte>, nonce: seq<byte>, c: seq<byte>, p: seq<byte>) {
    |nonce| == NONCE_SIZE &&
    forall b: nat {:trigger BlockOk(a, key, nonce, c, p, b)} :: b * PLAIN_SIZE < |p| ==> BlockOk(a, key, nonce, c, p, b)
  }

  /** The file `c` is the encrypted form of `p`. */
  ghost predicate Decrypts(a: Aead, master: seq<byte>, c: seq<byte>, p: seq<byte>) {
    match ParseResult(c)
    case FR_NO_HEADER => p == []
    case FR_OK =>
      var h := HeaderOf(c);
      |p| == h.lsize && BlocksOk(a, a.kdf(master, h.nonce), h.nonce, c, p)
    case _ => false
  }

  /** The answers of the parser, by the bytes: "FATCRYPT", version 1, 41 bytes. */
  lemma ParsedBytes(c: seq<byte>)
    ensures var magic := [0x46, 0x41, 0x54, 0x43, 0x52, 0x59, 0x50, 0x54];
      && (ParseResult(c) == FR_OK <==> |c| >= 41 && c[..8] == magic && c[8] == 1)
      && (ParseResult(c) == FR_NO_HEADER <==> |c| < 8 || (c[..8] != magic && |c| <= 41))
      && (ParseResult(c) == FR_BAD_HEADER <==>
            (|c| > 41 && c[..8] != magic) || (|c| > 8 && c[..8] == magic && c[8] != 1))
  {
  }

  /** Block `b` of a file of the form described: 512 bytes from 41 + 512 b on
      that decrypt to 496 bytes, which begin with those of the text from 496 b. */
  ghost predicate HoldsBlock(a: Aead, key: seq<byte>, nonce: seq<byte>, c: seq<byte>, p: seq<byte>, b: nat) {
    && |nonce| == 24 && b * 496 < |p| && 41 + b * 512 + 512 <= |c|
    && var q := a.dec(key, BlockNonce(nonce, b), c[41 + b * 512..41 + b * 512 + 512]);
       q.Some? && |q.value| == 496 && p[b * 496..Min(b * 496 + 496, |p|)] <= q.value
  }

  lemma BlockForm(a: Aead, key: seq<byte>, nonce: seq<byte>, c: seq<byte>, p: seq<byte>, b: nat)
    requires |nonce| == NONCE_SIZE && b * PLAIN_SIZE < |p|
    ensures BlockOk(a, key, nonce, c, p, b) <==> HoldsBlock(a, key, nonce, c, p, b)
  {
  }

  /** What an encrypted file is, byte by byte: the header, the length of the text
      in bytes 9 to 16, the base nonce in 17 to 40, and behind it a block for
      every 496 bytes of the text. */
  lemma EncryptedForm(a: Aead, master: seq<byte>, c: seq<byte>, p: seq<byte>)
    ensures Decrypts(a, master, c, p) && ParseResult(c) == FR_OK <==>
      && |c| >= 41 && c[..8] == [0x46, 0x41, 0x54, 0x43, 0x52, 0x59, 0x50, 0x54] && c[8] == 1
      && LdLE(c[9..17]) == |p|
      && forall b: nat :: b * 496 < |p| ==> HoldsBlock(a, a.kdf(master, c[17..41]), c[17..41], c, p, b)
  {
    hide BlockOk, HoldsBlock;
    ParsedBytes(c);
    if ParseResult(c) == FR_OK {
      forall b: nat | b * PLAIN_SIZE < |p|
        ensures BlockOk(a, a.kdf(master, c[17..41]), c[17..41], c, p, b)
          <==> HoldsBlock(a, a.kdf(master, c[17..41]), c[17..41], c, p, b)
      {
        BlockForm(a, a.kdf(master, c[17..41]), c[17..41], c, p, b);
      }
    }
  }

  /** A prefix of the plaintext is shown by the same blocks. */
  lemma BlocksPrefix(a: Aead, key: seq<byte>, nonce: seq<byte>, c: seq<byte>, p: seq<byte>, n: nat)
    requires BlocksOk(a, key, nonce, c, p) && n <= |p|
    ensures BlocksOk(a, key, nonce, c, p[..n])
  {
    forall b: nat | b * PLAIN_SIZE < n ensures BlockOk(a, key, nonce, c, p[..n], b) {
      assert BlockOk(a, key, nonce, c, p, b);
      var q := a.dec(key, BlockNonce(nonce, b), Block(c, b)).value;
      var lo, hi, hi' := b * PLAIN_SIZE, Min((b + 1) * PLAIN_SIZE, |p|), Min((b + 1) * PLAIN_SIZE, n);
      assert lo < hi' <= hi;
      var x, y := p[..n][lo..hi'], p[lo..hi];
      assert y <= q;
      forall t | 0 <= t < |x| ensures x[t] == q[t] { assert x[t] == p[lo + t] == y[t]; }
      assert x == q[..|x|];
    }
  }

  /** What the last block shows, up to `n` bytes, holds in every block. */
  lemma ExtendedHolds(p: seq<byte>, b: nat, pt: seq<byte>, n: nat, k: nat, r: seq<byte>)
    requires b * PLAIN_SIZE < |p| <= n <= (b + 1) * PLAIN_SIZE && BlockHolds(p, b, pt)
    requires k <= b && BlockHolds(p, k, r) && (k == b ==> r == pt)
    ensures BlockHolds(p + pt[|p| - b * PLAIN_SIZE..n - b * PLAIN_SIZE], k, r)
  {
    var q := p + pt[|p| - b * PLAIN_SIZE..n - b * PLAIN_SIZE];
    MulMonotone(k, b, PLAIN_SIZE);
    if k < b { MulMonotone(k + 1, b, PLAIN_SIZE); }
    forall t: nat | t < PLAIN_SIZE && k * PLAIN_SIZE + t < |q| ensures r[t] == q[k * PLAIN_SIZE + t] {
      if k * PLAIN_SIZE + t < |p| {
        assert q[k * PLAIN_SIZE + t] == p[k * PLAIN_SIZE + t];
      }
    }
  }

  /** The last block shows more than the plaintext has of it. */
  lemma BlocksExtend(a: Aead, key: seq<byte>, nonce: seq<byte>, c: seq<byte>, p: seq<byte>, n: nat)
    returns (q: seq<byte>)
    requires BlocksOk(a, key, nonce, c, p) && |p| <= n <= Blocks(|p|) * PLAIN_SIZE
    ensures BlocksOk(a, key, nonce, c, q) && p <= q && |q| == n
  {
    q := p;
    if |p| < n {
      hide BlocksOk, BlockHolds, BlockOk;
      var b := Blocks(|p|) - 1;
      BlocksNonce(a, key, nonce, c, p);
      BlockOkHolds(a, key, nonce, c, p, b);
      var pt := a.dec(key, BlockNonce(nonce, b), Block(c, b)).value;
      BlockHoldsSize(p, b, pt);
      q := p + pt[|p| - b * PLAIN_SIZE..n - b * PLAIN_SIZE];
      forall k: nat | k * PLAIN_SIZE < n ensures BlockOk(a, key, nonce, c, q, k) {
        if k > b { MulMonotone(b + 1, k, PLAIN_SIZE); }
        MulMonotone(k, b, PLAIN_SIZE);
        BlockOkHolds(a, key, nonce, c, p, k);
        var r := a.dec(key, BlockNonce(nonce, k), Block(c, k)).value;
        ExtendedHolds(p, b, pt, n, k, r);
        HoldsBlockOk(a, key, nonce, c, q, k, r);
      }
      AllBlocksOk(a, key, nonce, c, q);
    }
  }

  lemma BlockHoldsSize(p: seq<byte>, b: nat, q: seq<byte>)
    requires BlockHolds(p, b, q)
    ensures |q| == PLAIN_SIZE
  {
  }

  lemma BlocksNonce(a: Aead, key: seq<byte>, nonce: seq<byte>, c: seq<byte>, p: seq<byte>)
    requires BlocksOk(a, key, nonce, c, p)
    ensures |nonce| == NONCE_SIZE
  {
  }

  lemma AllBlocksOk(a: Aead, key: seq<byte>, nonce: seq<byte>, c: seq<byte>, p: seq<byte>)
    requires |nonce| == NONCE_SIZE && forall k: nat :: k * PLAIN_SIZE < |p| ==> BlockOk(a, key, nonce, c, p, k)
    ensures BlocksOk(a, key, nonce, c, p)
  {
  }

  /** All blocks of the plaintext are in the file. */
  lemma BlocksFit(a: Aead, key: seq<byte>, nonce: seq<byte>, c: seq<byte>, p: seq<byte>)
    requires BlocksOk(a, key, nonce, c, p) && HEADER_SIZE <= |c|
    ensures PhysicalSize(|p|) <= |c|
  {
    if |p| > 0 {
      var b := Blocks(|p|) - 1;
      assert b * PLAIN_SIZE < |p|;
      assert BlockOk(a, key, nonce, c, p, b);
    }
  }

  // --- writing one block ----------------------------------------------------

  /** `q` with `chunk` over it from `o`: the plaintext of a rewritten block. */
  function Merge(q: seq<byte>, o: nat, chunk: seq<byte>): (r: seq<byte>)
    requires |q| == PLAIN_SIZE && o + |chunk| <= PLAIN_SIZE
    ensures |r| == PLAIN_SIZE
  {
    q[..o] + chunk + q[o + |chunk|..]
  }

  /** The old plaintext of the block agrees with the file wherever the file has
      bytes in the block. */
  ghost predicate BlockHolds(p: seq<byte>, b: nat, q: seq<byte>) {
    |q| == PLAIN_SIZE && forall t: nat {:trigger q[t]} :: t < PLAIN_SIZE && b * PLAIN_SIZE + t < |p| ==>
      q[t] == p[b * PLAIN_SIZE + t]
  }

  lemma BlockOkHolds(a: Aead, key: seq<byte>, nonce: seq<byte>, c: seq<byte>, p: seq<byte>, b: nat)
    requires BlocksOk(a, key, nonce, c, p) && b * PLAIN_SIZE < |p|
    ensures BlockPos(b) + CIPHER_SIZE <= |c|
    ensures var q := a.dec(key, BlockNonce(nonce, b), Block(c, b)); q.Some? && BlockHolds(p, b, q.value)
  {
    assert BlockOk(a, key, nonce, c, p, b);
    var q := a.dec(key, BlockNonce(nonce, b), Block(c, b)).value;
    var y := p[b * PLAIN_SIZE..Min((b + 1) * PLAIN_SIZE, |p|)];
    forall t: nat | t < PLAIN_SIZE && b * PLAIN_SIZE + t < |p| ensures q[t] == p[b * PLAIN_SIZE + t] {
      assert y[t] == p[b * PLAIN_SIZE + t];
    }
  }

  lemma HeldSlice(p: seq<byte>, b: nat, q: seq<byte>, o: nat, n: nat)
    requires BlockHolds(p, b, q) && o + n <= PLAIN_SIZE && b * PLAIN_SIZE + o + n <= |p|
    ensures q[o..o + n] == p[b * PLAIN_SIZE + o..b * PLAIN_SIZE + o + n]
  {
    var x, y := q[o..o + n], p[b * PLAIN_SIZE + o..b * PLAIN_SIZE + o + n];
    forall t: nat | t < n ensures x[t] == y[t] { assert q[o + t] == p[b * PLAIN_SIZE + (o + t)]; }
  }

  lemma HoldsBlockOk(a: Aead, key: seq<byte>, nonce: seq<byte>, c: seq<byte>, p: seq<byte>, b: nat, q: seq<byte>)
    requires |nonce| == NONCE_SIZE && b * PLAIN_SIZE < |p| && BlockPos(b) + CIPHER_SIZE <= |c|
    requires a.dec(key, BlockNonce(nonce, b), Block(c, b)) == Some(q) && BlockHolds(p, b, q)
    ensures BlockOk(a, key, nonce, c, p, b)
  {
    var y := p[b * PLAIN_SIZE..Min((b + 1) * PLAIN_SIZE, |p|)];
    forall t | 0 <= t < |y| ensures y[t] == q[t] { assert y[t] == p[b * PLAIN_SIZE + t]; }
    assert y == q[..|y|];
  }

  lemma NothingHeld(p: seq<byte>, b: nat)
    requires |p| <= b * PLAIN_SIZE
    ensures BlockHolds(p, b, seq(PLAIN_SIZE, _ => 0))
  {
  }

  /** A full chunk leaves nothing of the old plaintext. */
  lemma MergeFull(q: seq<byte>, chunk: seq<byte>)
    requires |q| == PLAIN_SIZE && |chunk| == PLAIN_SIZE
    ensures Merge(q, 0, chunk) == chunk
  {
  }

  lemma MergeHolds(p: seq<byte>, b: nat, q: seq<byte>, o: nat, chunk: seq<byte>)
    requires BlockHolds(p, b, q) && o + |chunk| <= PLAIN_SIZE && b * PLAIN_SIZE + o <= |p|
    ensures BlockHolds(Splice(p, b * PLAIN_SIZE + o, chunk), b, Merge(q, o, chunk))
  {
    var p' := Splice(p, b * PLAIN_SIZE + o, chunk);
    var m := Merge(q, o, chunk);
    forall t: nat | t < PLAIN_SIZE && b * PLAIN_SIZE + t < |p'| ensures m[t] == p'[b * PLAIN_SIZE + t] {
      SpliceAt(p, b * PLAIN_SIZE + o, chunk, b * PLAIN_SIZE + t);
    }
  }

  /** What comes between the end of `p` and offset `o` of block `b`, where `p`
      ends in or right before that block: what the block held there. */
  function Fill(p: seq<byte>, b: nat, o: nat, q: seq<byte>): (r: seq<byte>)
    requires |q| == PLAIN_SIZE && o <= PLAIN_SIZE && b * PLAIN_SIZE <= |p|
    ensures |r| == Max(0, b * PLAIN_SIZE + o - |p|)
  {
    if b * PLAIN_SIZE + o <= |p| then [] else q[|p| - b * PLAIN_SIZE..o]
  }

  /** What f_crypt_write takes for the old plaintext of block `b` of the file `c`:
      zeros, where it cannot read one. */
  ghost function OldBlock(a: Aead, key: seq<byte>, nonce: seq<byte>, c: seq<byte>, b: nat,
                          canRead: bool): (q: seq<byte>)
    requires |nonce| == NONCE_SIZE
    ensures |q| == PLAIN_SIZE
  {
    var zeros := seq(PLAIN_SIZE, _ => 0);
    if !canRead || |c| < BlockPos(b) + CIPHER_SIZE then zeros
    else
      var q := a.dec(key, BlockNonce(nonce, b), Block(c, b));
      if q.Some? && |q.value| == PLAIN_SIZE then q.value else zeros
  }

  /** What a write at `pos` puts between the end of `p` and its data, if that is
      less than a block away. */
  ghost function Gap(a: Aead, key: seq<byte>, nonce: seq<byte>, c: seq<byte>, canRead: bool, p: seq<byte>, pos: nat):
    seq<byte>
  {
    var b := pos / PLAIN_SIZE;
    if |nonce| != NONCE_SIZE || pos <= |p| || |p| < b * PLAIN_SIZE then []
    else OldBlock(a, key, nonce, c, b, canRead)[|p| - b * PLAIN_SIZE..pos % PLAIN_SIZE]
  }

  /** Of a block that the file does not have, or that may not be read, the gap is
      filled with zeros. */
  lemma GapOfNothing(a: Aead, key: seq<byte>, nonce: seq<byte>, c: seq<byte>, canRead: bool, p: seq<byte>, pos: nat)
    requires !canRead || |c| < BlockPos(pos / PLAIN_SIZE + 1)
    ensures forall i :: 0 <= i < |Gap(a, key, nonce, c, canRead, p, pos)| ==>
      Gap(a, key, nonce, c, canRead, p, pos)[i] == 0
  {
  }

  /** Rewriting block `b` with `chunk` at offset `o` splices the plaintext, with
      the gap in front of the offset, if there is one, filled from the block. */
  lemma BlockWritten(a: Aead, key: seq<byte>, nonce: seq<byte>, c: seq<byte>, p: seq<byte>, b: nat, q: seq<byte>,
                     o: nat, chunk: seq<byte>, ct: seq<byte>)
    requires a.Sound() && BlocksOk(a, key, nonce, c, p)
    requires BlockHolds(p, b, q) && o + |chunk| <= PLAIN_SIZE && b * PLAIN_SIZE <= |p|
    requires BlockPos(b) <= |c| && ct == a.enc(key, BlockNonce(nonce, b), Merge(q, o, chunk))
    ensures |ct| == CIPHER_SIZE
    ensures BlocksOk(a, key, nonce, Splice(c, BlockPos(b), ct), Splice(p + Fill(p, b, o, q), b * PLAIN_SIZE + o, chunk))
  {
    if b * PLAIN_SIZE + o <= |p| {
      assert p + Fill(p, b, o, q) == p;
      BlockSpliced(a, key, nonce, c, p, b, q, o, chunk, ct);
    } else {
      var at, m := b * PLAIN_SIZE, Merge(q, o, chunk);
      var front, all := p[..at], m[..o + |chunk|];
      BlocksPrefix(a, key, nonce, c, p, at);
      assert Merge(m, 0, all) == m;
      BlockSpliced(a, key, nonce, c, front, b, m, 0, all, ct);
      GapFilled(p, b, q, o, chunk);
    }
  }

  lemma GapFilled(p: seq<byte>, b: nat, q: seq<byte>, o: nat, chunk: seq<byte>)
    requires BlockHolds(p, b, q) && o + |chunk| <= PLAIN_SIZE && b * PLAIN_SIZE <= |p| < b * PLAIN_SIZE + o
    ensures Splice(p[..b * PLAIN_SIZE], b * PLAIN_SIZE, Merge(q, o, chunk)[..o + |chunk|])
         == Splice(p + Fill(p, b, o, q), b * PLAIN_SIZE + o, chunk)
  {
    var at := b * PLAIN_SIZE;
    var e := |p| - at;
    forall t: nat | t < e ensures q[t] == p[at..][t] { assert q[t] == p[at + t]; }
    assert q[..e] == p[at..];
    Concatenated(p, at, q, e, o, chunk);
    MergeFront(q, o, chunk);
    SpliceEnd(p[..at], Merge(q, o, chunk)[..o + |chunk|]);
    SpliceEnd(p + Fill(p, b, o, q), chunk);
  }

  lemma MergeFront(q: seq<byte>, o: nat, chunk: seq<byte>)
    requires |q| == PLAIN_SIZE && o + |chunk| <= PLAIN_SIZE
    ensures Merge(q, o, chunk)[..o + |chunk|] == q[..o] + chunk
  {
  }

  lemma Concatenated(p: seq<byte>, at: nat, q: seq<byte>, e: nat, o: nat, chunk: seq<byte>)
    requires at <= |p| && e <= o <= |q| && q[..e] == p[at..]
    ensures p[..at] + (q[..o] + chunk) == p + q[e..o] + chunk
  {
    assert q[..o] == q[..e] + q[e..o];
    assert p[..at] + p[at..] == p;
  }

  lemma SpliceEnd(p: seq<byte>, data: seq<byte>)
    ensures Splice(p, |p|, data) == p + data
  {
  }

  lemma BlockSpliced(a: Aead, key: seq<byte>, nonce: seq<byte>, c: seq<byte>, p: seq<byte>, b: nat, q: seq<byte>,
                     o: nat, chunk: seq<byte>, ct: seq<byte>)
    requires a.Sound() && BlocksOk(a, key, nonce, c, p)
    requires BlockHolds(p, b, q) && o + |chunk| <= PLAIN_SIZE && b * PLAIN_SIZE + o <= |p|
    requires BlockPos(b) <= |c| && ct == a.enc(key, BlockNonce(nonce, b), Merge(q, o, chunk))
    ensures |ct| == CIPHER_SIZE
    ensures BlocksOk(a, key, nonce, Splice(c, BlockPos(b), ct), Splice(p, b * PLAIN_SIZE + o, chunk))
  {
    var c', p' := Splice(c, BlockPos(b), ct), Splice(p, b * PLAIN_SIZE + o, chunk);
    forall k: nat | k * PLAIN_SIZE < |p'| ensures BlockOk(a, key, nonce, c', p', k) {
      if k == b {
        assert Block(c', b) == ct;
        MergeHolds(p, b, q, o, chunk);
        HoldsBlockOk(a, key, nonce, c', p', b, Merge(q, o, chunk));
      } else {
        assert k * PLAIN_SIZE < |p|;
        BlockOkHolds(a, key, nonce, c, p, k);
        assert Block(c', k) == Block(c, k) by { BlockElsewhere(c, b, ct, k); }
        var r := a.dec(key, BlockNonce(nonce, k), Block(c, k)).value;
        forall t: nat | t < PLAIN_SIZE && k * PLAIN_SIZE + t < |p'| ensures r[t] == p'[k * PLAIN_SIZE + t] {
          SpliceAt(p, b * PLAIN_SIZE + o, chunk, k * PLAIN_SIZE + t);
        }
        HoldsBlockOk(a, key, nonce, c', p', k, r);
      }
    }
  }

  lemma BlockElsewhere(c: seq<byte>, b: nat, ct: seq<byte>, k: nat)
    requires BlockPos(b) <= |c| && |ct| <= CIPHER_SIZE && k != b && BlockPos(k) + CIPHER_SIZE <= |c|
    ensures BlockPos(k) + CIPHER_SIZE <= |Splice(c, BlockPos(b), ct)|
    ensures Block(Splice(c, BlockPos(b), ct), k) == Block(c, k)
  {
    var c' := Splice(c, BlockPos(b), ct);
    forall t: nat | t < CIPHER_SIZE ensures Block(c', k)[t] == Block(c, k)[t] {
      SpliceAt(c, BlockPos(b), ct, BlockPos(k) + t);
    }
  }

  /** A short write at a block that the plaintext does not reach harms nothing. */
  lemma BlockAttempted(a: Aead, key: seq<byte>, nonce: seq<byte>, c: seq<byte>, p: seq<byte>, b: nat, part: seq<byte>)
    requires BlocksOk(a, key, nonce, c, p) && BlockPos(b) <= |c| && |part| <= CIPHER_SIZE && |p| <= b * PLAIN_SIZE
    ensures BlocksOk(a, key, nonce, Splice(c, BlockPos(b), part), p)
  {
    var c' := Splice(c, BlockPos(b), part);
    forall k: nat | k * PLAIN_SIZE < |p| ensures BlockOk(a, key, nonce, c', p, k) {
      assert BlockOk(a, key, nonce, c, p, k);
      BlockElsewhere(c, b, part, k);
    }
  }

  lemma SameTailSameBlocks(a: Aead, key: seq<byte>, nonce: seq<byte>, c: seq<byte>, c': seq<byte>, p: seq<byte>)
    requires BlocksOk(a, key, nonce, c, p) && HEADER_SIZE <= |c| <= |c'|
    requires c'[HEADER_SIZE..|c|] == c[HEADER_SIZE..]
    ensures BlocksOk(a, key, nonce, c', p)
  {
    BlocksFit(a, key, nonce, c, p);
    BlocksKept(a, key, nonce, c, c', p, |c|);
  }

  lemma BlockKept(c: seq<byte>, c': seq<byte>, b: nat, m: nat)
    requires BlockPos(b) + CIPHER_SIZE <= m <= |c| && m <= |c'| && c'[HEADER_SIZE..m] == c[HEADER_SIZE..m]
    ensures Block(c', b) == Block(c, b)
  {
    SliceOfSlice(c', HEADER_SIZE, m, b * CIPHER_SIZE, b * CIPHER_SIZE + CIPHER_SIZE);
    SliceOfSlice(c, HEADER_SIZE, m, b * CIPHER_SIZE, b * CIPHER_SIZE + CIPHER_SIZE);
  }

  /** Blocks of `p` survive as long as their part of the file does. */
  lemma BlocksKept(a: Aead, key: seq<byte>, nonce: seq<byte>, c: seq<byte>, c': seq<byte>, p: seq<byte>, m: nat)
    requires BlocksOk(a, key, nonce, c, p) && PhysicalSize(|p|) <= m <= |c| && m <= |c'|
    requires c'[HEADER_SIZE..m] == c[HEADER_SIZE..m]
    ensures BlocksOk(a, key, nonce, c', p)
  {
    forall b: nat | b * PLAIN_SIZE < |p| ensures BlockOk(a, key, nonce, c', p, b) {
      assert b + 1 <= Blocks(|p|);
      BlockKept(c, c', b, m);
      assert BlockOk(a, key, nonce, c, p, b);
    }
  }

  /** Bytes appended to an encrypted file with a header do not change it. */
  lemma DecryptsLonger(a: Aead, master: seq<byte>, c: seq<byte>, c': seq<byte>, p: seq<byte>)
    requires ParseResult(c) == FR_OK && Decrypts(a, master, c, p) && c <= c'
    ensures Decrypts(a, master, c', p)
  {
    ParsedHeader(c);
    assert c'[..HEADER_SIZE] == c[..HEADER_SIZE];
    HeaderRoundTrip(HeaderOf(c), c');
    BlocksFit(a, a.kdf(master, HeaderOf(c).nonce), HeaderOf(c).nonce, c, p);
    BlocksKept(a, a.kdf(master, HeaderOf(c).nonce), HeaderOf(c).nonce, c, c', p, |c|);
  }

  lemma PhysicalSizeMonotone(n: nat, m: nat)
    requires n <= m
    ensures HEADER_SIZE <= PhysicalSize(n) <= PhysicalSize(m)
  {
  }

  lemma NoBlocks(a: Aead, key: seq<byte>, nonce: seq<byte>, c: seq<byte>)
    requires |nonce| == NONCE_SIZE
    ensures BlocksOk(a, key, nonce, c, [])
  {
  }

  /** The first block to be written starts inside the file. */
  lemma FirstBlockFits(a: Aead, key: seq<byte>, nonce: seq<byte>, c: seq<byte>, p: seq<byte>, o: nat)
    requires BlocksOk(a, key, nonce, c, p) && HEADER_SIZE <= |c| && o <= |p|
    ensures BlockPos(o / PLAIN_SIZE) <= |c|
  {
    BlocksFit(a, key, nonce, c, p);
  }

  /** What f_crypt_write leaves, `p[..o] + data`, is the spliced plaintext
      exactly when the write reaches the end of the file; an interior write
      cuts the tail off. */
  lemma InteriorWriteCutsTail(p: seq<byte>, o: nat, data: seq<byte>)
    requires o <= |p|
    ensures p[..o] + data == Splice(p, o, data) <==> o + |data| >= |p|
    ensures p[..o] + data == Splice(p, o, data)[..o + |data|]
  {
  }

  /** A bare header is the encrypted form of the empty text if it claims no
      bytes, and of nothing if it claims any. */
  lemma BareHeader(a: Aead, master: seq<byte>, c: seq<byte>, p: seq<byte>)
    requires ParseResult(c) == FR_OK && |c| == HEADER_SIZE
    ensures Decrypts(a, master, c, p) <==> p == [] && HeaderOf(c).lsize == 0
  {
    var h := HeaderOf(c);
    if Decrypts(a, master, c, p) {
      BlocksFit(a, a.kdf(master, h.nonce), h.nonce, c, p);
    }
  }

  /** The plaintext of an encrypted file is determined by its bytes. */
  lemma DecryptsUnique(a: Aead, master: seq<byte>, c: seq<byte>, p: seq<byte>, q: seq<byte>)
    requires Decrypts(a, master, c, p) && Decrypts(a, master, c, q)
    ensures p == q
  {
    if ParseResult(c) == FR_OK {
      var h := HeaderOf(c);
      var key := a.kdf(master, h.nonce);
      forall i: nat | i < |p| ensures p[i] == q[i] {
        var b, t := i / PLAIN_SIZE, i % PLAIN_SIZE;
        BlockOkHolds(a, key, h.nonce, c, p, b);
        BlockOkHolds(a, key, h.nonce, c, q, b);
        var pt := a.dec(key, BlockNonce(h.nonce, b), Block(c, b)).value;
        assert pt[t] == p[b * PLAIN_SIZE + t] && pt[t] == q[b * PLAIN_SIZE + t];
      }
    }
  }
}
