/** The on-disk encoding of FAT entries, on a value-level abstract disk. */
module FatEntry {
  import opened Bytes
  import opened Geometry

  type Image = seq<Sector>

  /** `d` with sector `s` replaced by `w`, and with the second FAT copy of
      `s` replaced as well when there is one. */
  function Reflect(g: Geometry, d: Image, s: nat, w: Sector): (r: Image)
    requires s < |d|
    requires g.InFat1(s) && g.nFats == 2 ==> s + g.fsize < |d|
    ensures |r| == |d|
  {
    if g.InFat1(s) && g.nFats == 2 then d[s := w][s + g.fsize := w] else d[s := w]
  }

  /** A sector written twice holds what was written last. */
  lemma ReflectTwice(g: Geometry, d: Image, s: nat, v: Sector, w: Sector)
    requires s < |d| && (g.InFat1(s) && g.nFats == 2 ==> s + g.fsize < |d|)
    ensures Reflect(g, d, s, v)[s] == v || (g.fsize == 0 && g.InFat1(s))
    ensures Reflect(g, Reflect(g, d, s, v), s, w) == Reflect(g, d, s, w)
  {
  }

  /** Both FAT copies agree. */
  ghost predicate Mirrored(g: Geometry, d: Image) {
    g.nFats == 2 ==>
      forall s: nat {:trigger d[s]} :: g.InFat1(s) && s + g.fsize < |d| ==> d[s] == d[s + g.fsize]
  }

  ghost predicate Fits(g: Geometry, d: Image) {
    g.FatArea() && |d| == g.nSectors
  }

  /** Byte `b` of the first FAT. */
  function FatByte(g: Geometry, d: Image, b: nat): byte
    requires g.fatbase + b / 512 < |d|
  {
    d[g.fatbase + b / 512][b % 512]
  }

  /** Offset of the first byte of entry `c`. */
  function EntryOffset(t: FsType, c: nat): nat {
    match t
    case Fat12 => c + c / 2
    case Fat16 => c * 2
    case Fat32 => c * 4
  }

  /** Value of a stored entry under the mask of the FAT type. */
  function Mask(t: FsType, v: nat): nat {
    match t
    case Fat12 => v % 0x1000
    case Fat16 => v % 0x1_0000
    case Fat32 => v % 0x1000_0000
  }

  lemma EntryInFat(g: Geometry, c: nat, j: nat)
    requires g.FatArea() && c < g.nFatent
    requires j < (match g.fsType case Fat12 => 2 case Fat16 => 2 case Fat32 => 4)
    ensures EntryOffset(g.fsType, c) + j < g.fsize * 512
    ensures (EntryOffset(g.fsType, c) + j) / 512 < g.fsize
  {
  }

  /** The four bytes of a FAT32 entry share a sector. */
  lemma QuadSector(g: Geometry, c: nat)
    requires g.FatArea() && c < g.nFatent && g.fsType == Fat32
    ensures c / 128 < g.fsize
    ensures c * 4 / 512 == (c * 4 + 1) / 512 == (c * 4 + 2) / 512 == (c * 4 + 3) / 512 == c / 128
  {
    Aligned(c * 4, 4, 1);
    Aligned(c * 4, 4, 2);
    Aligned(c * 4, 4, 3);
  }

  function Entry12(g: Geometry, d: Image, c: nat): nat
    requires Fits(g, d) && c < g.nFatent && g.fsType == Fat12
  {
    EntryInFat(g, c, 0);
    EntryInFat(g, c, 1);
    var o := c + c / 2;
    var wc := FatByte(g, d, o) + 256 * FatByte(g, d, o + 1);
    if c % 2 == 1 then wc / 16 else wc % 0x1000
  }

  function Entry16(g: Geometry, d: Image, c: nat): nat
    requires Fits(g, d) && c < g.nFatent && g.fsType == Fat16
  {
    EntryInFat(g, c, 0);
    EntryInFat(g, c, 1);
    FatByte(g, d, c * 2) + 256 * FatByte(g, d, c * 2 + 1)
  }

  function Entry32(g: Geometry, d: Image, c: nat): nat
    requires Fits(g, d) && c < g.nFatent && g.fsType == Fat32
  {
    EntryInFat(g, c, 0);
    EntryInFat(g, c, 1);
    EntryInFat(g, c, 2);
    EntryInFat(g, c, 3);
    (FatByte(g, d, c * 4) + 256 * FatByte(g, d, c * 4 + 1) + 0x1_0000 * FatByte(g, d, c * 4 + 2)
      + 0x100_0000 * FatByte(g, d, c * 4 + 3)) % 0x1000_0000
  }

  /** Entry `c` of the FAT spelled out from its bytes. */
  function Entry(g: Geometry, d: Image, c: nat): nat
    requires Fits(g, d) && c < g.nFatent
  {
    match g.fsType
    case Fat12 => Entry12(g, d, c)
    case Fat16 => Entry16(g, d, c)
    case Fat32 => Entry32(g, d, c)
  }

  /** How the bytes of the first FAT spell the entries: two of twelve bits in
      three bytes, else two or four bytes, the lowest first; the top four bits of
      a FAT32 entry do not count. */
  lemma EntryBytes(g: Geometry, d: Image, c: nat)
    requires Fits(g, d) && c < g.nFatent
    ensures g.fsType == Fat12 ==>
      var o := c / 2 * 3;
      if c % 2 == 0 then
        (o + 1) / 512 < g.fsize && Entry(g, d, c) == FatByte(g, d, o) + 0x100 * (FatByte(g, d, o + 1) % 16)
      else
        (o + 2) / 512 < g.fsize && Entry(g, d, c) == FatByte(g, d, o + 1) / 16 + 0x10 * FatByte(g, d, o + 2)
    ensures g.fsType == Fat16 ==>
      (2 * c + 1) / 512 < g.fsize && Entry(g, d, c) == FatByte(g, d, 2 * c) + 0x100 * FatByte(g, d, 2 * c + 1)
    ensures g.fsType == Fat32 ==>
      && (4 * c + 3) / 512 < g.fsize
      && Entry(g, d, c) == FatByte(g, d, 4 * c) + 0x100 * FatByte(g, d, 4 * c + 1)
           + 0x1_0000 * FatByte(g, d, 4 * c + 2) + 0x100_0000 * (FatByte(g, d, 4 * c + 3) % 16)
  {
    hide FatByte, Entry12, Entry32;
    EntryInFat(g, c, 0);
    EntryInFat(g, c, 1);
    match g.fsType
    case Fat12 => Entry12Bytes(g, d, c);
    case Fat16 =>
    case Fat32 => Entry32Bytes(g, d, c);
  }

  lemma Entry12Bytes(g: Geometry, d: Image, c: nat)
    requires Fits(g, d) && c < g.nFatent && g.fsType == Fat12
    ensures var o := c / 2 * 3;
      if c % 2 == 0 then
        (o + 1) / 512 < g.fsize && Entry12(g, d, c) == FatByte(g, d, o) + 0x100 * (FatByte(g, d, o + 1) % 16)
      else
        (o + 2) / 512 < g.fsize && Entry12(g, d, c) == FatByte(g, d, o + 1) / 16 + 0x10 * FatByte(g, d, o + 2)
  {
    hide FatByte;
    EntryInFat(g, c, 0);
    EntryInFat(g, c, 1);
    var a, b := FatByte(g, d, c + c / 2), FatByte(g, d, c + c / 2 + 1);
    Halves(b, 16);
    if c % 2 == 0 {
      LowTwelve(a, b % 16, b / 16);
    } else {
      Halves(a, 16);
      HighTwelve(a / 16, a % 16, b);
    }
  }

  lemma Entry32Bytes(g: Geometry, d: Image, c: nat)
    requires Fits(g, d) && c < g.nFatent && g.fsType == Fat32
    ensures (4 * c + 3) / 512 < g.fsize
    ensures Entry32(g, d, c) == FatByte(g, d, 4 * c) + 0x100 * FatByte(g, d, 4 * c + 1)
           + 0x1_0000 * FatByte(g, d, 4 * c + 2) + 0x100_0000 * (FatByte(g, d, 4 * c + 3) % 16)
  {
    hide FatByte;
    EntryInFat(g, c, 2);
    EntryInFat(g, c, 3);
    LowBits(FatByte(g, d, 4 * c), FatByte(g, d, 4 * c + 1), FatByte(g, d, 4 * c + 2), FatByte(g, d, 4 * c + 3));
  }

  lemma LowBits(a: byte, b: byte, c: byte, d: byte)
    ensures (a + 0x100 * b + 0x1_0000 * c + 0x100_0000 * d) % 0x1000_0000
         == a + 0x100 * b + 0x1_0000 * c + 0x100_0000 * (d % 16)
  {
    Halves(d, 16);
    ModAdd(a + 0x100 * b + 0x1_0000 * c + 0x100_0000 * (d % 16), d / 16, 0x1000_0000);
  }

  /** Store one byte of the first FAT (and of its copy). */
  function PokeFat(g: Geometry, d: Image, b: nat, x: byte): (r: Image)
    requires Fits(g, d) && b / 512 < g.fsize
    ensures |r| == |d|
  {
    var s := g.fatbase + b / 512;
    Reflect(g, d, s, d[s][b % 512 := x])
  }

  /** Everything outside the two FAT copies is the same. */
  ghost predicate SameOutsideFats(g: Geometry, d: Image, e: Image) {
    |d| == |e| && forall s :: 0 <= s < |d| && !g.InFats(s) ==> d[s] == e[s]
  }

  /** A poke changes the byte it names and no other byte of the FAT. */
  lemma PokeFatByte(g: Geometry, d: Image, b: nat, x: byte, k: nat)
    requires Fits(g, d) && b / 512 < g.fsize && k / 512 < g.fsize
    ensures FatByte(g, PokeFat(g, d, b, x), k) == if k == b then x else FatByte(g, d, k)
  {
    var s := g.fatbase + b / 512;
    var t := g.fatbase + k / 512;
    if t == s {
      assert k / 512 == b / 512;
      assert k % 512 == b % 512 ==> k == b;
    }
  }

  lemma PokeFatFrame(g: Geometry, d: Image, b: nat, x: byte)
    requires Fits(g, d) && b / 512 < g.fsize
    ensures SameOutsideFats(g, d, PokeFat(g, d, b, x))
    ensures Mirrored(g, d) ==> Mirrored(g, PokeFat(g, d, b, x))
  {
  }

  /** First byte put_fat stores for a FAT12 entry, over the old byte `p`. */
  function Fat12First(c: nat, v: nat, p: byte): byte {
    if c % 2 == 1 then p % 16 + (v * 16) % 256 else v % 256
  }

  /** Second byte put_fat stores for a FAT12 entry, over the old byte `p`. */
  function Fat12Second(c: nat, v: nat, p: byte): byte {
    if c % 2 == 1 then (v / 16) % 256 else (p / 16) * 16 + (v / 256) % 16
  }

  /** The 32-bit value put_fat stores: the low 28 bits of `v`, the top four of
      the old entry. */
  function Fat32Value(v: nat, p: byte): nat {
    v % 0x1000_0000 + (p / 16) * 0x1000_0000
  }

  function PutEntry12(g: Geometry, d: Image, c: nat, v: nat): (r: Image)
    requires Fits(g, d) && c < g.nFatent && g.fsType == Fat12
    ensures |r| == |d|
  {
    EntryInFat(g, c, 0);
    EntryInFat(g, c, 1);
    var o := c + c / 2;
    var d1 := PokeFat(g, d, o, Fat12First(c, v, FatByte(g, d, o)));
    PokeFat(g, d1, o + 1, Fat12Second(c, v, FatByte(g, d1, o + 1)))
  }

  function PutEntry16(g: Geometry, d: Image, c: nat, v: nat): (r: Image)
    requires Fits(g, d) && c < g.nFatent && g.fsType == Fat16
    ensures |r| == |d|
  {
    EntryInFat(g, c, 0);
    EntryInFat(g, c, 1);
    PokeFat(g, PokeFat(g, d, c * 2, v % 256), c * 2 + 1, v / 256 % 256)
  }

  function PutEntry32(g: Geometry, d: Image, c: nat, v: nat): (r: Image)
    requires Fits(g, d) && c < g.nFatent && g.fsType == Fat32
    ensures |r| == |d|
  {
    EntryInFat(g, c, 0);
    EntryInFat(g, c, 1);
    EntryInFat(g, c, 2);
    EntryInFat(g, c, 3);
    var o := c * 4;
    var w := Fat32Value(v, FatByte(g, d, o + 3));
    var d1 := PokeFat(g, PokeFat(g, d, o, w % 256), o + 1, w / 256 % 256);
    PokeFat(g, PokeFat(g, d1, o + 2, w / 0x1_0000 % 256), o + 3, w / 0x100_0000 % 256)
  }

  /** The image after put_fat(c, v). */
  function PutEntry(g: Geometry, d: Image, c: nat, v: nat): (r: Image)
    requires Fits(g, d) && c < g.nFatent
    ensures |r| == |d|
  {
    match g.fsType
    case Fat12 => PutEntry12(g, d, c, v)
    case Fat16 => PutEntry16(g, d, c, v)
    case Fat32 => PutEntry32(g, d, c, v)
  }

  /** The two bytes of a FAT12 pair hold two entries of 12 bits. */
  function Fat12Low(a: byte, b: byte): nat { (a + 256 * b) % 0x1000 }
  function Fat12High(a: byte, b: byte): nat { (a + 256 * b) / 16 }

  lemma LowTwelve(l: nat, h: nat, u: nat)
    requires l < 256 && h < 16
    ensures (l + 256 * (u * 16 + h)) % 0x1000 == l + 256 * h
  {
    DivUnique(l + 256 * (u * 16 + h), 0x1000, u, l + 256 * h);
  }

  lemma HighTwelve(u: nat, h: nat, z: nat)
    requires h < 16
    ensures (u * 16 + h + 256 * z) / 16 == u + 16 * z
  {
    DivUnique(u * 16 + h + 256 * z, 16, u + 16 * z, h);
  }

  lemma TwelveBits(v: nat)
    ensures v % 0x1000 == v % 256 + 256 * (v / 256 % 16)
    ensures v % 0x1000 == v % 16 + 16 * (v / 16 % 256)
    ensures v * 16 % 256 == 16 * (v % 16)
  {
    Halves(v, 256);
    Halves(v / 256, 16);
    DivUnique(v, 0x1000, v / 256 / 16, v % 256 + 256 * (v / 256 % 16));
    Halves(v, 16);
    Halves(v / 16, 256);
    DivUnique(v, 0x1000, v / 16 / 256, v % 16 + 16 * (v / 16 % 256));
    DivUnique(v * 16, 256, v / 16, 16 * (v % 16));
  }

  lemma Halves(w: nat, m: nat)
    requires m > 0
    ensures w == m * (w / m) + w % m && w % m < m
  {
  }

  lemma Fat12Even(a: byte, b: byte, z: byte, v: nat)
    ensures Fat12Low(Fat12First(0, v, a), Fat12Second(0, v, b)) == v % 0x1000
    ensures Fat12High(Fat12Second(0, v, b), z) == Fat12High(b, z)
  {
    var l, h, u := v % 256, v / 256 % 16, b / 16;
    assert Fat12First(0, v, a) == l && Fat12Second(0, v, b) == u * 16 + h;
    TwelveBits(v);
    LowTwelve(l, h, u);
    HighTwelve(u, h, z);
    Halves(b, 16);
    HighTwelve(u, b % 16, z);
  }

  lemma Fat12Odd(a: byte, b: byte, z: byte, v: nat)
    ensures Fat12High(Fat12First(1, v, a), Fat12Second(1, v, b)) == v % 0x1000
    ensures Fat12Low(z, Fat12First(1, v, a)) == Fat12Low(z, a)
  {
    var l, h, u := v % 16, v / 16 % 256, a % 16;
    TwelveBits(v);
    assert Fat12First(1, v, a) == l * 16 + u && Fat12Second(1, v, b) == h;
    HighTwelve(l, u, h);
    LowTwelve(z, u, l);
    Halves(a, 16);
    LowTwelve(z, u, a / 16);
  }

  /** The bytes of the first FAT after a FAT12 entry was put. */
  lemma PutFat12Byte(g: Geometry, d: Image, c: nat, v: nat, i: nat)
    requires Fits(g, d) && c < g.nFatent && g.fsType == Fat12 && i / 512 < g.fsize
    ensures var o := c + c / 2;
      && (o + 1) / 512 < g.fsize && o / 512 < g.fsize
      && FatByte(g, PutEntry12(g, d, c, v), i) ==
         if i == o then Fat12First(c % 2, v, FatByte(g, d, o))
         else if i == o + 1 then Fat12Second(c % 2, v, FatByte(g, d, o + 1))
         else FatByte(g, d, i)
  {
    hide PokeFat, FatByte, Fat12First, Fat12Second;
    EntryInFat(g, c, 0);
    EntryInFat(g, c, 1);
    var o := c + c / 2;
    var x := Fat12First(c, v, FatByte(g, d, o));
    Fat12Parity(c, v, FatByte(g, d, o));
    var d1 := PokeFat(g, d, o, x);
    PokeFatByte(g, d, o, x, o + 1);
    PokeFatByte(g, d, o, x, i);
    var y := Fat12Second(c, v, FatByte(g, d1, o + 1));
    Fat12Parity(c, v, FatByte(g, d1, o + 1));
    PokeFatByte(g, d1, o + 1, y, i);
  }

  lemma Entry12Is(g: Geometry, d: Image, k: nat)
    requires Fits(g, d) && k < g.nFatent && g.fsType == Fat12
    ensures var q := k + k / 2;
      && q / 512 < g.fsize && (q + 1) / 512 < g.fsize
      && Entry12(g, d, k) == if k % 2 == 1 then Fat12High(FatByte(g, d, q), FatByte(g, d, q + 1))
                             else Fat12Low(FatByte(g, d, q), FatByte(g, d, q + 1))
  {
    hide FatByte;
    EntryInFat(g, k, 0);
    EntryInFat(g, k, 1);
  }

  lemma PutFat12(g: Geometry, d: Image, c: nat, v: nat, k: nat)
    requires Fits(g, d) && c < g.nFatent && k < g.nFatent && g.fsType == Fat12
    ensures Entry12(g, PutEntry12(g, d, c, v), k) == if k == c then v % 0x1000 else Entry12(g, d, k)
  {
    hide PutEntry12, Entry12, FatByte, Fat12First, Fat12Second, Fat12Low, Fat12High;
    var o, q := c + c / 2, k + k / 2;
    Entry12Is(g, d, k);
    Entry12Is(g, PutEntry12(g, d, c, v), k);
    PutFat12Byte(g, d, c, v, q);
    PutFat12Byte(g, d, c, v, q + 1);
    var a, b := FatByte(g, d, q), FatByte(g, d, q + 1);
    if k == c {
      if c % 2 == 0 { Fat12Even(a, b, 0, v); } else { Fat12Odd(a, b, 0, v); }
    } else if c % 2 == 0 && k == c + 1 {
      assert q == o + 1;
      Fat12Even(a, a, b, v);
    } else if c % 2 == 1 && k == c - 1 {
      assert q + 1 == o;
      Fat12Odd(b, b, a, v);
    } else {
      assert q != o && q != o + 1 && q + 1 != o;
    }
  }

  lemma Fat12Parity(c: nat, v: nat, p: byte)
    ensures Fat12First(c, v, p) == Fat12First(c % 2, v, p)
    ensures Fat12Second(c, v, p) == Fat12Second(c % 2, v, p)
  {
  }

  /** The bytes of the first FAT after a FAT16 entry was put. */
  lemma PutFat16Byte(g: Geometry, d: Image, c: nat, v: nat, i: nat)
    requires Fits(g, d) && c < g.nFatent && g.fsType == Fat16 && i / 512 < g.fsize
    ensures FatByte(g, PutEntry16(g, d, c, v), i) ==
      if i == c * 2 then v % 256 else if i == c * 2 + 1 then v / 256 % 256 else FatByte(g, d, i)
  {
    hide PokeFat, FatByte;
    EntryInFat(g, c, 0);
    EntryInFat(g, c, 1);
    var d1 := PokeFat(g, d, c * 2, v % 256);
    PokeFatByte(g, d, c * 2, v % 256, i);
    PokeFatByte(g, d1, c * 2 + 1, v / 256 % 256, i);
  }

  lemma PutFat16(g: Geometry, d: Image, c: nat, v: nat, k: nat)
    requires Fits(g, d) && c < g.nFatent && k < g.nFatent && g.fsType == Fat16
    ensures Entry16(g, PutEntry16(g, d, c, v), k) == if k == c then v % 0x1_0000 else Entry16(g, d, k)
  {
    hide PutEntry16, FatByte;
    EntryInFat(g, k, 0);
    EntryInFat(g, k, 1);
    PutFat16Byte(g, d, c, v, k * 2);
    PutFat16Byte(g, d, c, v, k * 2 + 1);
    TwoBytes(v);
  }

  lemma TwoBytes(v: nat)
    ensures v % 256 + 256 * (v / 256 % 256) == v % 0x1_0000
  {
    var h := v / 256;
    DivUnique(v, 0x1_0000, h / 256, h % 256 * 256 + v % 256);
  }

  lemma Fat32Bytes(w: nat)
    requires w < 0x1_0000_0000
    ensures w % 256 + 256 * (w / 256 % 256) + 0x1_0000 * (w / 0x1_0000 % 256) + 0x100_0000 * (w / 0x100_0000 % 256) == w
  {
    var a := w / 256;
    var b := a / 256;
    var c := b / 256;
    Halves(w, 256);
    Halves(a, 256);
    assert w / 0x1_0000 == b && w / 0x100_0000 == c by {
      DivUnique(w, 0x1_0000, b, 256 * (a % 256) + w % 256);
      DivUnique(w, 0x100_0000, c, 0x1_0000 * (b % 256) + 256 * (a % 256) + w % 256);
    }
    Halves(b, 256);
    assert c % 256 == c;
  }

  lemma PutFat32Byte(g: Geometry, d: Image, c: nat, v: nat, q: nat)
    requires Fits(g, d) && c < g.nFatent && g.fsType == Fat32 && q / 512 < g.fsize
    ensures FatByte(g, PutEntry32(g, d, c, v), q) ==
            (var o := c * 4;
             EntryInFat(g, c, 3);
             var w := Fat32Value(v, FatByte(g, d, o + 3));
             if q == o then w % 256
             else if q == o + 1 then w / 256 % 256
             else if q == o + 2 then w / 0x1_0000 % 256
             else if q == o + 3 then w / 0x100_0000 % 256
             else FatByte(g, d, q))
  {
    hide PokeFat;
    hide FatByte;
    EntryInFat(g, c, 0);
    EntryInFat(g, c, 1);
    EntryInFat(g, c, 2);
    EntryInFat(g, c, 3);
    var o := c * 4;
    var w := Fat32Value(v, FatByte(g, d, o + 3));
    var d1 := PokeFat(g, d, o, w % 256);
    var d2 := PokeFat(g, d1, o + 1, w / 256 % 256);
    var d3 := PokeFat(g, d2, o + 2, w / 0x1_0000 % 256);
    PokeFatByte(g, d, o, w % 256, q);
    PokeFatByte(g, d1, o + 1, w / 256 % 256, q);
    PokeFatByte(g, d2, o + 2, w / 0x1_0000 % 256, q);
    PokeFatByte(g, d3, o + 3, w / 0x100_0000 % 256, q);
  }

  lemma PutFat32(g: Geometry, d: Image, c: nat, v: nat, k: nat)
    requires Fits(g, d) && c < g.nFatent && k < g.nFatent && g.fsType == Fat32
    ensures Entry32(g, PutEntry32(g, d, c, v), k) == if k == c then v % 0x1000_0000 else Entry32(g, d, k)
  {
    hide PokeFat;
    hide FatByte;
    hide PutEntry32;
    hide Fat32Value;
    EntryInFat(g, c, 3);
    EntryInFat(g, k, 0);
    EntryInFat(g, k, 1);
    EntryInFat(g, k, 2);
    EntryInFat(g, k, 3);
    PutFat32Byte(g, d, c, v, k * 4);
    PutFat32Byte(g, d, c, v, k * 4 + 1);
    PutFat32Byte(g, d, c, v, k * 4 + 2);
    PutFat32Byte(g, d, c, v, k * 4 + 3);
    if k == c {
      var w := Fat32Value(v, FatByte(g, d, c * 4 + 3));
      Fat32ValueBits(v, FatByte(g, d, c * 4 + 3));
      Fat32Bytes(w);
      assert Entry32(g, PutEntry32(g, d, c, v), k) == w % 0x1000_0000;
    }
  }

  lemma Fat32ValueBits(v: nat, p: byte)
    ensures Fat32Value(v, p) < 0x1_0000_0000
    ensures Fat32Value(v, p) % 0x1000_0000 == v % 0x1000_0000
    ensures Fat32Value(v, p) / 0x1000_0000 == p / 16
  {
    ModAdd(v % 0x1000_0000, p / 16, 0x1000_0000);
  }

  /** put_fat then get_fat: entry `c` holds the value under the mask of the
      type, and no other entry is disturbed, neighbours sharing a byte and
      entries straddling two sectors included. */
  lemma PutEntryCorrect(g: Geometry, d: Image, c: nat, v: nat, k: nat)
    requires Fits(g, d) && c < g.nFatent && k < g.nFatent
    ensures Entry(g, PutEntry(g, d, c, v), k) == if k == c then Mask(g.fsType, v) else Entry(g, d, k)
  {
    match g.fsType
    case Fat12 => PutFat12(g, d, c, v, k);
    case Fat16 => PutFat16(g, d, c, v, k);
    case Fat32 => PutFat32(g, d, c, v, k);
  }

  /** FAT32: the four reserved bits of an entry survive. */
  lemma Fat32ReservedBits(g: Geometry, d: Image, c: nat, v: nat)
    requires Fits(g, d) && c < g.nFatent && g.fsType == Fat32
    ensures c * 4 + 3 < g.fsize * 512
    ensures FatByte(g, PutEntry(g, d, c, v), c * 4 + 3) / 16 == FatByte(g, d, c * 4 + 3) / 16
  {
    hide FatByte;
    EntryInFat(g, c, 3);
    PutFat32Byte(g, d, c, v, c * 4 + 3);
  }

  lemma SameOutsideReflexive(g: Geometry, d: Image)
    ensures SameOutsideFats(g, d, d)
  {
  }

  lemma SameOutsideTransitive(g: Geometry, d: Image, e: Image, f: Image)
    requires SameOutsideFats(g, d, e) && SameOutsideFats(g, e, f)
    ensures SameOutsideFats(g, d, f)
  {
    forall s | 0 <= s < |d| && !g.InFats(s) ensures d[s] == f[s] {
      assert d[s] == e[s];
    }
  }

  lemma PutEntryFrame(g: Geometry, d: Image, c: nat, v: nat)
    requires Fits(g, d) && c < g.nFatent
    ensures SameOutsideFats(g, d, PutEntry(g, d, c, v))
    ensures Mirrored(g, d) ==> Mirrored(g, PutEntry(g, d, c, v))
  {
    hide PokeFat;
    hide FatByte;
    hide SameOutsideFats;
    hide Mirrored;
    EntryInFat(g, c, 0);
    EntryInFat(g, c, 1);
    var o := EntryOffset(g.fsType, c);
    match g.fsType {
      case Fat12 =>
        var x := Fat12First(c, v, FatByte(g, d, o));
        var d1 := PokeFat(g, d, o, x);
        PokeFatFrame(g, d, o, x);
        PokeFatFrame(g, d1, o + 1, Fat12Second(c, v, FatByte(g, d1, o + 1)));
        SameOutsideTransitive(g, d, d1, PutEntry(g, d, c, v));
      case Fat16 =>
        PokeFatFrame(g, d, o, v % 256);
        PokeFatFrame(g, PokeFat(g, d, o, v % 256), o + 1, v / 256 % 256);
        SameOutsideTransitive(g, d, PokeFat(g, d, o, v % 256), PutEntry(g, d, c, v));
      case Fat32 =>
        EntryInFat(g, c, 2);
        EntryInFat(g, c, 3);
        var w := Fat32Value(v, FatByte(g, d, o + 3));
        var d1 := PokeFat(g, d, o, w % 256);
        var d2 := PokeFat(g, d1, o + 1, w / 256 % 256);
        var d3 := PokeFat(g, d2, o + 2, w / 0x1_0000 % 256);
        PokeFatFrame(g, d, o, w % 256);
        PokeFatFrame(g, d1, o + 1, w / 256 % 256);
        PokeFatFrame(g, d2, o + 2, w / 0x1_0000 % 256);
        PokeFatFrame(g, d3, o + 3, w / 0x100_0000 % 256);
        SameOutsideTransitive(g, d, d1, d2);
        SameOutsideTransitive(g, d, d2, d3);
        SameOutsideTransitive(g, d, d3, PutEntry(g, d, c, v));
    }
  }

  /** The end mark reads back as an end of chain, never as a cluster, a free
      entry, the internal-error code or the disk-error code. */
  lemma EocReadsBack(g: Geometry)
    requires g.FatArea()
    ensures g.nFatent <= Mask(g.fsType, 0xFFFF_FFFF) < 0xFFFF_FFFF
  {
    hide FatBytes;
    match g.fsType
    case Fat12 => ModAdd(0xFFF, 0xF_FFFF, 0x1000);
    case Fat16 => ModAdd(0xFFFF, 0xFFFF, 0x1_0000);
    case Fat32 => ModAdd(0xFFF_FFFF, 0xF, 0x1000_0000);
  }

  /** A cluster number survives the mask: the caps on the number of clusters
      keep links apart from the end mark. */
  lemma LinkReadsBack(g: Geometry, c: nat)
    requires g.FatArea() && c < g.nFatent
    ensures Mask(g.fsType, c) == c
  {
  }

  ghost predicate SameFat1(g: Geometry, d: Image, e: Image) {
    |d| == |e| && forall s :: 0 <= s < |d| && g.InFat1(s) ==> d[s] == e[s]
  }

  lemma FatByteFrame(g: Geometry, d: Image, e: Image, b: nat)
    requires Fits(g, d) && Fits(g, e) && b / 512 < g.fsize && SameFat1(g, d, e)
    ensures FatByte(g, d, b) == FatByte(g, e, b)
  {
  }

  /** Entries depend on the sectors of the first FAT only. */
  lemma EntryFrame(g: Geometry, d: Image, e: Image, c: nat)
    requires Fits(g, d) && Fits(g, e) && c < g.nFatent && SameFat1(g, d, e)
    ensures Entry(g, d, c) == Entry(g, e, c)
  {
    hide FatByte;
    hide SameFat1;
    EntryInFat(g, c, 0);
    EntryInFat(g, c, 1);
    var o := EntryOffset(g.fsType, c);
    FatByteFrame(g, d, e, o);
    FatByteFrame(g, d, e, o + 1);
    if g.fsType == Fat32 {
      EntryInFat(g, c, 2);
      EntryInFat(g, c, 3);
      FatByteFrame(g, d, e, o + 2);
      FatByteFrame(g, d, e, o + 3);
    }
  }
}
