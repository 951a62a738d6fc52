/** The encrypted file layer over the FIL object. */
module Crypt {
  import opened Wrappers
  import opened Bytes
  import opened FileImage
  import opened Chains
  import opened File
  import opened CryptLayout

  class CryptFil {
    const f: Fil
    const aead: Aead
    const master: seq<byte>       // FATFS.master_key
    const masterLoaded: bool
    var lptr: nat                 // crypt_logical_fptr
    var hdr: Header               // crypt_header
    var parsed: bool              // crypt_header_parsed
    var keyDerived: bool
    var key: seq<byte>            // crypt_key

    constructor (f: Fil, aead: Aead, master: seq<byte>, masterLoaded: bool)
      requires f.Ready() && aead.Sound()
      ensures this.f == f && this.aead == aead && this.master == master && this.masterLoaded == masterLoaded
      ensures Handle() && lptr == 0 && !parsed
    {
      this.f, this.aead, this.master, this.masterLoaded := f, aead, master, masterLoaded;
      lptr, parsed, keyDerived, key := 0, false, false, [];
      hdr := Header(seq(8, _ => 0), 0, 0, seq(NONCE_SIZE, _ => 0));
    }

    /** A parsed header is the header of the file; a derived key is its key. */
    ghost predicate Handle()
      reads `hdr, `parsed, `keyDerived, `key, f, f.fs, f.fs.win, f.buf
    {
      && f.Ready() && aead.Sound()
      && |hdr.magic| == 8 && |hdr.nonce| == NONCE_SIZE
      && (parsed ==> HeaderOk(hdr) && |f.content| >= HEADER_SIZE && f.content[..HEADER_SIZE] == HeaderBytes(hdr))
      && (keyDerived ==> parsed && key == aead.kdf(master, hdr.nonce))
    }

    /** A usable handle on the encrypted form of `p`. */
    ghost predicate Valid(p: seq<byte>)
      reads this, f, f.fs, f.fs.win, f.buf
    {
      Handle() && Decrypts(aead, master, f.content, p)
    }

    // --- the header ---------------------------------------------------------

    /** f_read of a header field. */
    method Field(n: nat) returns (res: FResult, m: seq<byte>)
      requires f.Ready() && f.err == FR_OK
      modifies f, f.buf, f.fs, f.fs.win
      ensures f.Confined()
      ensures f.Ready() && f.err == FR_OK && f.content == old(f.content) && |f.content| == f.objsize
      ensures res == if f.canRead then FR_OK else FR_DENIED
      ensures old(f.fptr) <= f.fptr <= |f.content| && m == f.content[old(f.fptr)..f.fptr]
      ensures f.canRead ==> f.fptr == Min(old(f.fptr) + n, |f.content|)
      ensures !f.canRead ==> f.fptr == old(f.fptr)
    {
      hide f.Room, f.Apart, f.Core;
      f.CoreFits();
      res, m := f.Read(n);
      f.OthersKept();
    }

    /** parse_fatcrypt_header after the magic. */
    method ParseRest() returns (res: FResult)
      requires Handle() && !parsed && f.err == FR_OK && f.fptr == 8 && f.canRead
      requires |f.content| >= 8 && hdr.magic == f.content[..8] == MAGIC
      modifies `hdr, `parsed, f, f.buf, f.fs, f.fs.win
      ensures f.Confined()
      ensures Handle() && f.err == FR_OK && f.content == old(f.content)
      ensures res == ParseResult(f.content)
      ensures parsed == (res == FR_OK)
      ensures parsed ==> hdr == HeaderOf(f.content)
    {
      hide f.Ready, f.Room, f.Apart;
      var m;
      res, m := Field(1);
      if |m| < 1 { return FR_INT_ERR; }
      hdr := hdr.(version := m[0]);
      if VERSION != hdr.version { return FR_BAD_HEADER; }
      res, m := Field(8);
      if |m| < 8 { return FR_INT_ERR; }
      hdr := hdr.(lsize := LdLE(m));
      res, m := Field(NONCE_SIZE);
      if |m| < NONCE_SIZE { return FR_INT_ERR; }
      hdr := hdr.(nonce := m);
      ParsedHeader(f.content);
      parsed := true;
      return FR_OK;
    }

    /** parse_fatcrypt_header, from the seek to the start to its labelled exit. */
    method ParseFields() returns (res: FResult)
      requires Handle() && !parsed && f.err == FR_OK && f.fptr == 0
      modifies `hdr, `parsed, f, f.buf, f.fs, f.fs.win
      ensures f.Confined()
      ensures Handle() && f.err == FR_OK && f.content == old(f.content)
      ensures res == if f.canRead then ParseResult(f.content) else FR_NO_HEADER
      ensures parsed == (res == FR_OK)
      ensures parsed ==> hdr == HeaderOf(f.content)
    {
      hide f.Ready, f.Room, f.Apart;
      var m;
      res, m := Field(8);
      hdr := hdr.(magic := m + hdr.magic[|m|..]);
      if res != FR_OK || |m| == 0 { return FR_NO_HEADER; }
      if |m| < 8 { return FR_NO_HEADER; }
      if MAGIC != hdr.magic {
        if f.objsize <= HEADER_SIZE { return FR_NO_HEADER; }
        return FR_BAD_HEADER;
      }
      res := ParseRest();
    }

    /** parse_fatcrypt_header: the answer depends on the bytes of the file alone,
        when the file may be read; the position is kept. */
    method Parse() returns (res: FResult)
      requires Handle() && f.err == FR_OK
      modifies `hdr, `parsed, f, f.buf, f.fs, f.fs.win
      ensures f.Confined()
      ensures Handle() && f.err == FR_OK && f.content == old(f.content) && f.fptr == old(f.fptr)
      ensures res == if old(parsed) then FR_OK else if f.canRead then ParseResult(f.content) else FR_NO_HEADER
      ensures parsed == (res == FR_OK)
      ensures parsed ==> hdr == HeaderOf(f.content)
      ensures old(parsed) ==> unchanged(`hdr, f, f.buf, f.fs, f.fs.win)
    {
      hide f.Room, f.Apart, f.Core;
      f.CoreFits();
      if parsed {
        HeaderRoundTrip(hdr, f.content);
        return FR_OK;
      }
      if f.sclust < 2 {
        f.NoClusters();
        return FR_NO_HEADER;
      }
      var oldPos := f.fptr;
      res := Goto(0);
      res := ParseFields();
      f.CoreFits();
      var r := Goto(oldPos);
    }

    /** f_lseek inside the file. */
    method Goto(pos: nat) returns (res: FResult)
      requires f.Ready() && f.err == FR_OK && pos <= |f.content|
      modifies f, f.buf, f.fs, f.fs.win
      ensures f.Confined()
      ensures f.Ready() && f.err == res == FR_OK && f.content == old(f.content) && f.fptr == pos
      ensures old(f.modified) ==> f.modified
    {
      hide f.Room, f.Apart, f.Core;
      f.CoreFits();
      res := f.Seek(pos);
      f.OthersKept();
    }

    /** f_write at the position; it cannot fall short inside the file. */
    method Put(data: seq<byte>) returns (res: FResult, bw: nat)
      requires f.Ready() && |data| <= MAX_SIZE
      modifies f, f.buf, f.fs, f.fs.win
      ensures f.Confined()
      ensures f.Ready() && bw <= |data| && old(f.fptr) <= |old(f.content)|
      ensures f.content == Splice(old(f.content), old(f.fptr), data[..bw]) && f.fptr == old(f.fptr) + bw <= |f.content|
      ensures res == FR_OK ==> f.err == FR_OK && f.canWrite && f.modified
      ensures old(f.err == FR_OK && f.canWrite && f.HasRoom(f.fptr + |data|)) ==> res == FR_OK && bw == |data|
      ensures old(f.err) == FR_OK && !f.canWrite ==> res == FR_DENIED && bw == 0
      ensures old(f.err) != FR_OK ==> res == old(f.err) && bw == 0
      ensures f.canWrite && (res != FR_OK || bw < |data|) ==>
        f.Spent() && (old(f.err) == FR_OK ==> res in {FR_OK, FR_INT_ERR})
    {
      hide f.Room, f.Apart, f.Core, f.Cursor, f.Stretched, f.AtEnd, Splice;
      FileBounds();
      SpliceNothing(f.content, f.fptr);
      res, bw := f.Write(data);
      f.OthersKept();
      f.RoomReached();
      FileBounds();
    }

    /** init_fatcrypt_header; `random` is the fresh base nonce, if any. */
    method InitHeader(random: Option<seq<byte>>) returns (res: FResult)
      requires random.Some? ==> |random.value| == NONCE_SIZE
      modifies `hdr, `parsed
      ensures old(parsed) ==> res == FR_OK && parsed && hdr == old(hdr)
      ensures !old(parsed) ==> parsed == (res == FR_OK) && res == if random.Some? then FR_OK else FR_INT_ERR
      ensures !old(parsed) && res == FR_OK ==> hdr == Header(MAGIC, VERSION, 0, random.value)
      ensures res != FR_OK ==> |hdr.magic| == 8 && hdr.nonce == old(hdr.nonce)
    {
      if parsed { return FR_OK; }
      hdr := hdr.(magic := MAGIC, version := VERSION, lsize := 0);
      if random.None? { return FR_INT_ERR; }
      hdr := hdr.(nonce := random.value);
      parsed := true;
      return FR_OK;
    }

    /** write_fatcrypt_header. */
    method WriteHeader() returns (res: FResult)
      requires f.Ready() && f.err == FR_OK && |hdr.magic| == 8 && |hdr.nonce| == NONCE_SIZE
      modifies f, f.buf, f.fs, f.fs.win
      ensures f.Confined()
      ensures f.Ready()
      ensures res == FR_OK ==> f.err == FR_OK && f.canWrite && f.content == Splice(old(f.content), 0, HeaderBytes(hdr))
      ensures if f.canWrite then old(f.HasRoom(HEADER_SIZE)) ==> res == FR_OK else res == FR_DENIED
      ensures f.canWrite && res != FR_OK ==> res == FR_INT_ERR && f.Spent()
      ensures res != FR_OK ==>
        exists n: nat :: n <= HEADER_SIZE && f.content == Splice(old(f.content), 0, HeaderBytes(hdr)[..n])
    {
      hide Splice;
      hide HeaderBytes;
      hide f.Ready, f.Room, f.Apart;
      var oldPos := f.fptr;
      FileBounds();
      res := Goto(0);
      var bytes := HeaderBytes(hdr);
      var bw;
      res, bw := Put(bytes);
      assert bw == |bytes| ==> bytes[..bw] == bytes;
      if res == FR_OK && bw < HEADER_SIZE { res := FR_INT_ERR; }
      if f.err == FR_OK {
        var r := Goto(oldPos);
      }
    }

    lemma FileBounds()
      ensures f.Ready() ==> f.fptr <= |f.content| == f.objsize <= f.Room() <= MAX_SIZE
      ensures f.Ready() && f.err != FR_OK ==> HasReserved(f.fs.fat)
    {
      if f.Ready() {
        f.CoreFits();
        f.RoomReached();
      }
    }

    /** What a handle says of the header it has parsed. */
    lemma HandleHeader()
      ensures Handle() ==> f.Ready() && |f.content| <= MAX_SIZE && aead.Sound()
      ensures Handle() && parsed ==>
        && |hdr.nonce| == NONCE_SIZE && |f.content| >= HEADER_SIZE && HeaderOk(hdr)
        && ParseResult(f.content) == FR_OK && HeaderOf(f.content) == hdr
      ensures Handle() && keyDerived ==> parsed && key == aead.kdf(master, hdr.nonce)
    {
      FileBounds();
      if Handle() && parsed { HeaderRoundTrip(hdr, f.content); }
    }

    /** update_fatcrypt_header_lsize: only the size field of the file changes. */
    method UpdateLsize() returns (res: FResult)
      requires f.Ready() && f.err == FR_OK && |f.content| >= HEADER_SIZE
      modifies f, f.buf, f.fs, f.fs.win
      ensures f.Confined()
      ensures f.Ready()
      ensures res == if f.canWrite then FR_OK else FR_DENIED
      ensures f.content == if res == FR_OK then Splice(old(f.content), 9, StLE(hdr.lsize, 8)) else old(f.content)
      ensures |f.content| == |old(f.content)|
      ensures res == FR_OK ==> f.err == FR_OK && f.fptr == old(f.fptr) && f.modified
    {
      hide Splice;
      hide f.Ready, f.Room, f.Apart;
      var oldPos := f.fptr;
      FileBounds();
      res := Goto(9);
      var bw;
      var bytes := StLE(hdr.lsize, 8);
      SpliceNothing(f.content, 9);
      res, bw := Put(bytes);
      assert bw == |bytes| ==> bytes[..bw] == bytes;
      if res == FR_OK && bw < 8 { res := FR_INT_ERR; }
      if f.err == FR_OK {
        FileBounds();
        var r := Goto(oldPos);
      }
    }

    /** fatcrypt_derive_key: the key of the header that is parsed, found or, in
        a file without one, written afresh. */
    method DeriveKey(random: Option<seq<byte>>) returns (res: FResult)
      requires Handle() && f.err == FR_OK && (random.Some? ==> |random.value| == NONCE_SIZE)
      modifies `hdr, `parsed, `key, `keyDerived, f, f.buf, f.fs, f.fs.win
      ensures f.Ready() && f.Confined()
      ensures old(parsed) ==> res == FR_OK && unchanged(`hdr, f, f.buf, f.fs, f.fs.win)
      ensures res == FR_OK ==> Handle() && keyDerived && f.err == FR_OK
      ensures !old(parsed) && f.canRead && ParseResult(old(f.content)) == FR_OK ==>
        res == FR_OK && hdr == HeaderOf(f.content) && f.content == old(f.content)
      ensures !old(parsed) && f.canRead && ParseResult(old(f.content)) !in {FR_OK, FR_NO_HEADER} ==>
        res == ParseResult(old(f.content)) && f.content == old(f.content)
      ensures !old(parsed) && (!f.canRead || ParseResult(old(f.content)) == FR_NO_HEADER) ==>
        if random.None? then res == FR_INT_ERR
        else if !f.canWrite then res == FR_DENIED
        else old(f.HasRoom(HEADER_SIZE)) ==> res == FR_OK
      ensures !old(parsed) && (!f.canRead || ParseResult(old(f.content)) == FR_NO_HEADER) && res == FR_OK ==>
        random.Some? && hdr == Header(MAGIC, VERSION, 0, random.value)
          && f.content == Splice(old(f.content), 0, HeaderBytes(hdr))
    {
      hide f.Ready, f.Room, f.Apart, Splice;
      if keyDerived { return FR_OK; }
      res := Parse();
      if res == FR_NO_HEADER {
        ghost var c := f.content;
        res := InitHeader(random);
        if res != FR_OK { return; }
        res := WriteHeader();
        if res != FR_OK { return; }
        HeaderInstalled(c, HeaderBytes(hdr));
      } else if res != FR_OK {
        return;
      }
      key := aead.kdf(master, hdr.nonce);
      keyDerived := true;
    }

    // --- f_crypt_read -------------------------------------------------------

    /** `n` bytes from offset `o` of block `b` on lie inside the plaintext `p`
        that the file shows under the current key. */
    ghost predicate Covers(p: seq<byte>, b: nat, o: nat, n: nat)
      reads this, f
    {
      && |hdr.nonce| == NONCE_SIZE
      && f.canRead && BlocksOk(aead, key, hdr.nonce, f.content, p) && b * PLAIN_SIZE + o + n <= |p|
    }

    /** One round of the loop of f_crypt_read. A success always yields bytes;
        inside the plaintext it succeeds and yields the plaintext. */
    method ReadBlock(ghost p: seq<byte>, b: nat, o: nat, n: nat) returns (res: FResult, chunk: seq<byte>)
      requires Handle() && keyDerived && f.err == FR_OK && o < PLAIN_SIZE && n > 0
      modifies f, f.buf, f.fs, f.fs.win
      ensures f.Confined()
      ensures Handle() && old(f.content) <= f.content
      ensures res == FR_OK ==> f.err == FR_OK && |chunk| == Min(n, PLAIN_SIZE - o)
      ensures old(Covers(p, b, o, n)) ==>
        && res == FR_OK && f.content == old(f.content) && |chunk| == Min(n, PLAIN_SIZE - o)
        && chunk == p[b * PLAIN_SIZE + o..b * PLAIN_SIZE + o + |chunk|]
      ensures BlockPos32(b) <= |old(f.content)| < BlockPos32(b) + CIPHER_SIZE ==>
        res == (if f.canRead then FR_INT_ERR else FR_DENIED) && chunk == [] && f.content == old(f.content)
    {
      hide f.Ready, f.Room, f.Apart;
      hide BlocksOk;
      FileBounds();
      chunk := [];
      ghost var inside := Covers(p, b, o, n);
      if inside {
        BlockOkHolds(aead, key, hdr.nonce, f.content, p, b);
        BlockPosAgree(b);
      }
      res := SeekAnywhere(BlockPos32(b));
      if res != FR_OK { return; }
      var ct;
      res, ct := Field(CIPHER_SIZE);
      if res != FR_OK { return; }
      if |ct| != CIPHER_SIZE { return FR_INT_ERR, chunk; }
      assert inside ==> ct == Block(f.content, b);
      var pt := aead.dec(key, BlockNonce(hdr.nonce, b), ct);
      if pt.None? { return FR_INT_ERR, chunk; }
      chunk := pt.value[o..o + Min(n, PLAIN_SIZE - o)];
      if inside { HeldSlice(p, b, pt.value, o, |chunk|); }
    }

    /** f_lseek anywhere: the existing bytes stay. */
    method SeekAnywhere(pos: nat) returns (res: FResult)
      requires f.Ready() && f.err == FR_OK
      modifies f, f.buf, f.fs, f.fs.win
      ensures f.Confined()
      ensures f.Ready() && f.err == res && old(f.content) <= f.content && (res != FR_OK ==> HasReserved(f.fs.fat))
      ensures f.fptr == pos || |old(f.content)| <= f.fptr
      ensures f.canWrite && !HasReserved(f.fs.fat) ==>
        res == FR_OK && f.fptr == Min(pos, f.Room()) && |f.content| == Max(|old(f.content)|, f.fptr)
      ensures !f.canWrite ==> res == FR_OK && f.content == old(f.content)
      ensures res in {FR_OK, FR_INT_ERR}
      ensures pos <= |old(f.content)| ==> res == FR_OK && f.content == old(f.content) && f.fptr == pos
    {
      hide f.Room, f.Apart, f.Core, f.Cursor, f.Stretched;
      f.CoreFits();
      res := f.Seek(pos);
      f.OthersKept();
      f.RoomReached();
      FileBounds();
    }

    /** The file is a header that claims bytes from the position on, and no more. */
    ghost predicate Bare()
      reads `lptr, f
    {
      ParseResult(f.content) == FR_OK && |f.content| == HEADER_SIZE && lptr < HeaderOf(f.content).lsize
    }

    /** f_crypt_read. From a position inside the plaintext it returns exactly
        the plaintext from there, however many blocks that takes. Past the end
        the available count wraps around, and the call answers "no bytes" only
        when none were asked for. A file whose header the parser does not see
        reads as empty; a bare header that claims bytes cannot be read. */
    method Read(ghost p: seq<byte>, btr: nat) returns (res: FResult, data: seq<byte>)
      requires Handle() && btr <= MAX_SIZE && lptr < WRAP64
      modifies this, f, f.buf, f.fs, f.fs.win
      ensures f.Confined()
      ensures Handle() && old(f.content) <= f.content
      ensures old(f.err) != FR_OK ==> res == old(f.err) && data == [] && unchanged(this, f, f.buf, f.fs, f.fs.win)
      ensures old(f.err) == FR_OK && !masterLoaded ==> res == FR_DENIED && data == []
      ensures res == FR_OK ==> f.err == FR_OK
      ensures old(Valid(p)) && ParseResult(old(f.content)) == FR_OK ==> Valid(p)
      ensures |data| <= btr && lptr == old(lptr) + |data|
      ensures old(f.err == FR_OK && masterLoaded && f.canRead && lptr <= |p| && Valid(p)) ==>
        && res == FR_OK && f.content == old(f.content)
        && lptr == old(lptr) + Min(btr, |p| - old(lptr))
        && data == p[old(lptr)..lptr]
      ensures (old(f.err == FR_OK && masterLoaded && f.canRead && lptr > |p| && Valid(p))
               && ParseResult(old(f.content)) == FR_OK) ==>
        ((res == FR_OK && data == []) <==> btr == 0)
      ensures (old(f.err == FR_OK && masterLoaded && !parsed)
               && (!f.canRead || ParseResult(old(f.content)) == FR_NO_HEADER)) ==>
        res == FR_OK && data == [] && f.content == old(f.content)
      ensures (old(f.err == FR_OK && masterLoaded && !parsed)
               && f.canRead && ParseResult(old(f.content)) !in {FR_OK, FR_NO_HEADER}) ==>
        res == ParseResult(old(f.content)) && data == [] && f.content == old(f.content)
      ensures old(f.err == FR_OK && masterLoaded && f.canRead && Bare() && lptr < PLAIN_SIZE) && btr > 0 ==>
        res == FR_INT_ERR && data == [] && f.content == old(f.content)
    {
      hide f.Ready, f.Room, f.Apart, BlocksOk, HeaderBytes;
      data := [];
      if f.err != FR_OK { return f.err, data; }
      if !masterLoaded { return FR_DENIED, data; }
      ghost var valid := Valid(p);
      FileBounds();
      res := Parse();
      if res == FR_NO_HEADER { return FR_OK, data; }
      if res != FR_OK { return; }
      HeaderRoundTrip(hdr, f.content);
      res := DeriveKey(None);
      if res != FR_OK { return; }
      assert valid ==> BlocksOk(aead, key, hdr.nonce, f.content, p) && hdr.lsize == |p|;
      var available := Sub64(hdr.lsize, lptr);
      if available == 0 { return FR_OK, data; }
      ghost var c := f.content;
      res, data := ReadBlocks(p, Min(btr, available));
      if valid { DecryptsLonger(aead, master, c, f.content, p); }
    }

    /** The loop of f_crypt_read. */
    method ReadBlocks(ghost p: seq<byte>, total: nat) returns (res: FResult, data: seq<byte>)
      requires Handle() && keyDerived && f.err == FR_OK
      modifies `lptr, f, f.buf, f.fs, f.fs.win
      ensures f.Confined()
      ensures res == FR_OK ==> f.err == FR_OK
      ensures Handle() && old(f.content) <= f.content
      ensures lptr == old(lptr) + |data| && |data| <= total
      ensures total > 0 && res == FR_OK ==> data != []
      ensures total == 0 ==> res == FR_OK && f.content == old(f.content)
      ensures old(CoversFrom(p, lptr, total)) ==>
        res == FR_OK && |data| == total && f.content == old(f.content) && data == p[old(lptr)..lptr]
      ensures total > 0 && old(lptr) < PLAIN_SIZE && |old(f.content)| == HEADER_SIZE ==>
        res == (if f.canRead then FR_INT_ERR else FR_DENIED) && data == [] && f.content == old(f.content)
    {
      hide f.Ready, f.Room, f.Apart, Handle, CoversNext, CoversFrom, BlocksOk, Next32, OffsetIn;
      data, res := [], FR_OK;
      var remaining := total;
      var b: nat, o: nat := Index32(lptr), OffsetIn(lptr);
      ghost var inside := CoversFrom(p, lptr, total);
      ghost var bare := total > 0 && lptr < PLAIN_SIZE && |f.content| == HEADER_SIZE;
      ReadStarts(p, total);
      while remaining > 0
        invariant Handle() && keyDerived && f.err == FR_OK && res == FR_OK && f.Confined()
        invariant 0 <= remaining && |data| + remaining == total && lptr == old(lptr) + |data|
        invariant old(f.content) <= f.content && o < PLAIN_SIZE
        invariant remaining == total ==> f.content == old(f.content)
        invariant bare ==> remaining == total && b == 0
        invariant inside ==> f.content == old(f.content) && lptr <= |p| && data == p[old(lptr)..lptr]
        invariant inside && remaining > 0 ==> CoversNext(p, b, o, remaining)
      {
        var chunk;
        res, chunk := ReadRound(p, b, o, remaining);
        if res != FR_OK { return; }
        assert inside ==> p[old(lptr)..lptr - |chunk|] + chunk == p[old(lptr)..lptr];
        data := data + chunk;
        remaining := remaining - |chunk|;
        b, o := Next32(b), 0;
      }
    }

    lemma ReadStarts(p: seq<byte>, n: nat)
      ensures CoversFrom(p, lptr, n) ==> lptr <= |p| && CoversNext(p, Index32(lptr), OffsetIn(lptr), n)
      ensures lptr < PLAIN_SIZE ==> Index32(lptr) == 0
    {
      hide BlocksOk;
      if CoversFrom(p, lptr, n) { CoveredIndex(p, lptr, n); }
    }

    /** `n` bytes from the position on, which is at offset `o` of block `b`. */
    ghost predicate CoversNext(p: seq<byte>, b: nat, o: nat, n: nat)
      reads this, f
    {
      CoversFrom(p, lptr, n) && b * PLAIN_SIZE + o == lptr
    }

    /** One round of it, with the position. */
    method ReadRound(ghost p: seq<byte>, b: nat, o: nat, n: nat) returns (res: FResult, chunk: seq<byte>)
      requires Handle() && keyDerived && f.err == FR_OK && o < PLAIN_SIZE && n > 0
      modifies `lptr, f, f.buf, f.fs, f.fs.win
      ensures f.Confined()
      ensures Handle() && old(f.content) <= f.content
      ensures res == FR_OK ==> f.err == FR_OK && |chunk| == Min(n, PLAIN_SIZE - o) && lptr == old(lptr) + |chunk|
      ensures res != FR_OK ==> lptr == old(lptr)
      ensures old(CoversNext(p, b, o, n)) ==>
        && res == FR_OK && f.content == old(f.content) && lptr <= |p| && chunk == p[old(lptr)..lptr]
        && (n > |chunk| ==> CoversNext(p, Next32(b), 0, n - |chunk|))
      ensures BlockPos32(b) <= |old(f.content)| < BlockPos32(b) + CIPHER_SIZE ==>
        res == (if f.canRead then FR_INT_ERR else FR_DENIED) && chunk == [] && f.content == old(f.content)
    {
      hide f.Ready, f.Room, f.Apart, Handle, BlocksOk;
      ghost var inside := CoversNext(p, b, o, n);
      if inside { RoundCovered(p, b, o, n); }
      res, chunk := ReadBlock(p, b, o, Min(n, PLAIN_SIZE - o));
      if res != FR_OK { return; }
      lptr := lptr + |chunk|;
      if inside && n > |chunk| {
        CoveredIndex(p, lptr, n - |chunk|);
        NextBlock(lptr - |chunk|, b, o, |chunk|);
      }
    }

    // --- f_crypt_write ------------------------------------------------------

    /** The key is there and the file has its header. */
    ghost predicate Keyed()
      reads this, f, f.fs, f.fs.win, f.buf
    {
      Handle() && keyDerived && f.err == FR_OK
    }

    /** The blocks show `q`. */
    ghost predicate Holds(q: seq<byte>)
      reads `hdr, `key, f
    {
      BlocksOk(aead, key, hdr.nonce, f.content, q)
    }

    /** Block `b` can be rewritten: the text `q` reaches it and the file does;
        what `q` has of the block, if anything, can be read. */
    ghost predicate Reaches(q: seq<byte>, b: nat)
      reads `hdr, `key, f
    {
      && Holds(q) && b * PLAIN_SIZE <= |q| && BlockPos(b) <= |f.content| <= MAX_SIZE
      && (f.canRead || |q| <= b * PLAIN_SIZE)
    }

    /** What a write takes for the old plaintext of block `b`. */
    ghost function Prior(b: nat): seq<byte>
      reads `hdr, `key, f
      requires |hdr.nonce| == NONCE_SIZE
    {
      OldBlock(aead, key, hdr.nonce, f.content, b, f.canRead)
    }

    /** What it puts in front of offset `o` of block `b`, behind the text `q`. */
    ghost function GapAt(q: seq<byte>, b: nat, o: nat): seq<byte>
      reads `hdr, `key, f
    {
      if |hdr.nonce| != NONCE_SIZE || |q| < b * PLAIN_SIZE || o > PLAIN_SIZE then [] else Fill(q, b, o, Prior(b))
    }

    /** The plaintext of the block at the position, zeros when the file has no
        such block or may not be read. */
    method OldPlaintext(ghost q: seq<byte>, b: nat) returns (pt: seq<byte>)
      requires Keyed()
      modifies f, f.buf, f.fs, f.fs.win
      ensures f.Confined()
      ensures Keyed() && f.content == old(f.content) && old(f.fptr) <= f.fptr && |pt| == PLAIN_SIZE
      ensures |hdr.nonce| == NONCE_SIZE && (old(f.fptr) == BlockPos(b) ==> pt == Prior(b))
      ensures old(Reaches(q, b) && f.fptr == BlockPos(b)) ==> BlockHolds(q, b, pt)
    {
      hide f.Ready, f.Room, f.Apart;
      hide BlocksOk;
      ghost var held := Reaches(q, b) && f.fptr == BlockPos(b);
      if held && b * PLAIN_SIZE < |q| {
        BlockOkHolds(aead, key, hdr.nonce, f.content, q, b);
      } else if |q| <= b * PLAIN_SIZE {
        NothingHeld(q, b);
      }
      var res, ct := Field(CIPHER_SIZE);
      pt := seq(PLAIN_SIZE, _ => 0);
      if res == FR_OK && |ct| == CIPHER_SIZE {
        assert held ==> ct == Block(f.content, b);
        var d := aead.dec(key, BlockNonce(hdr.nonce, b), ct);
        if d.Some? { pt := d.value; }
      }
      if |q| <= b * PLAIN_SIZE { assert BlockHolds(q, b, pt); }
    }

    /** The old plaintext of the block with the chunk over it; the position goes
        back to where it was. */
    method MergeOld(ghost q: seq<byte>, b: nat, start: nat, o: nat, chunk: seq<byte>)
      returns (ghost was: seq<byte>, pt: seq<byte>)
      requires Keyed() && o + |chunk| <= PLAIN_SIZE
      modifies f, f.buf, f.fs, f.fs.win
      ensures f.Confined()
      ensures Handle() && |was| == PLAIN_SIZE && pt == Merge(was, o, chunk) && |f.content| >= |old(f.content)|
      ensures f.err in {FR_OK, FR_INT_ERR}
      ensures f.fptr == start || |old(f.content)| <= f.fptr
      ensures !f.canWrite || old(f.fptr) == start ==>
        f.err == FR_OK && f.content == old(f.content) && (old(f.fptr) == start ==> f.fptr == start)
      ensures old(|hdr.nonce|) == NONCE_SIZE && (start == BlockPos(b) == old(f.fptr) ==> was == old(Prior(b)))
      ensures old(Reaches(q, b)) && start == BlockPos(b) == old(f.fptr) ==> BlockHolds(q, b, was)
    {
      hide f.Ready, f.Room, f.Apart, BlocksOk, BlockHolds, Merge;
      FileBounds();
      var prior := OldPlaintext(q, b);
      var r := SeekAnywhere(start);
      was, pt := prior, Merge(prior, o, chunk);
    }

    /** One round of the loop of f_crypt_write: on success the plaintext is
        spliced, after what fills a gap inside the block; on failure it is as it
        was. */
    method WriteBlock(ghost q: seq<byte>, b: nat, o: nat, chunk: seq<byte>)
      returns (res: FResult, ghost fill: seq<byte>)
      requires Keyed() && o + |chunk| <= PLAIN_SIZE && |chunk| > 0
      modifies f, f.buf, f.fs, f.fs.win
      ensures f.Confined()
      ensures Handle() && |f.content| >= |old(f.content)|
      ensures if f.canWrite then old(f.HasRoom(BlockPos(b + 1))) ==> res == FR_OK else res == FR_DENIED
      ensures f.canWrite && res != FR_OK ==> res == FR_INT_ERR && f.Spent()
      ensures res == FR_OK ==> Keyed() && f.canWrite && f.modified
      ensures old(Reaches(q, b)) ==>
        && |fill| == Max(0, b * PLAIN_SIZE + o - |q|) && fill == old(GapAt(q, b, o))
        && (res == FR_OK ==>
              Holds(Splice(q + fill, b * PLAIN_SIZE + o, chunk))
                && |f.content| == Max(|old(f.content)|, BlockPos(b + 1)))
        && (res != FR_OK ==> Holds(q))
    {
      hide f.Ready, f.Room, f.Apart;
      hide BlocksOk;
      hide BlockHolds;
      hide Splice;
      hide Merge;
      hide Fill;
      hide BlockPos32;
      fill := [];
      ghost var reached := Reaches(q, b);
      WithinReach(b);
      var start := BlockPos32(b);
      FileBounds();
      res := SeekAnywhere(start);
      if res != FR_OK { return; }
      ghost var was;
      var pt;
      if o != 0 || |chunk| < PLAIN_SIZE {
        was, pt := MergeOld(q, b, start, o, chunk);
      } else {
        was := SomePlaintext(q, b);
        MergeFull(was, chunk);
        pt := chunk;
      }
      if reached { fill := Fill(q, b, o, was); }
      res := PutBlock(q, b, o, chunk, was, pt);
    }

    /** The position of a block the file reaches or has room for. */
    lemma WithinReach(b: nat)
      ensures BlockPos32(b) >= HEADER_SIZE
      ensures Handle() && (f.HasRoom(BlockPos(b + 1)) || BlockPos(b) <= |f.content|) ==> BlockPos32(b) == BlockPos(b)
    {
      hide f.Ready, f.Room;
      FileBounds();
      BlockPosAgree(b);
    }

    lemma SomePlaintext(q: seq<byte>, b: nat) returns (pt: seq<byte>)
      requires |hdr.nonce| == NONCE_SIZE
      ensures |pt| == PLAIN_SIZE && (Holds(q) ==> BlockHolds(q, b, pt))
    {
      if b * PLAIN_SIZE < |q| && Holds(q) {
        BlockOkHolds(aead, key, hdr.nonce, f.content, q, b);
        pt := aead.dec(key, BlockNonce(hdr.nonce, b), Block(f.content, b)).value;
      } else {
        pt := seq(PLAIN_SIZE, _ => 0);
      }
    }

    /** The position is at block `b`, of which `was` is the old plaintext. */
    ghost predicate Aimed(q: seq<byte>, b: nat, was: seq<byte>)
      reads this, f
    {
      Reaches(q, b) && f.err == FR_OK && f.fptr == BlockPos(b) && BlockHolds(q, b, was)
    }

    lemma AimedWrite(q: seq<byte>, b: nat, o: nat, chunk: seq<byte>, was: seq<byte>, ct: seq<byte>)
      requires Aimed(q, b, was) && aead.Sound() && o + |chunk| <= PLAIN_SIZE
      requires ct == aead.enc(key, BlockNonce(hdr.nonce, b), Merge(was, o, chunk))
      ensures |ct| == CIPHER_SIZE && (b * PLAIN_SIZE < |q| ==> BlockPos(b + 1) <= |f.content|)
      ensures BlocksOk(aead, key, hdr.nonce, Splice(f.content, BlockPos(b), ct),
                       Splice(q + Fill(q, b, o, was), b * PLAIN_SIZE + o, chunk))
    {
      BlockWritten(aead, key, hdr.nonce, f.content, q, b, was, o, chunk, ct);
      if b * PLAIN_SIZE < |q| { BlockOkHolds(aead, key, hdr.nonce, f.content, q, b); }
    }

    /** Encrypt the new plaintext of a block and write it at the position. */
    method PutBlock(ghost q: seq<byte>, b: nat, o: nat, chunk: seq<byte>, ghost was: seq<byte>, pt: seq<byte>)
      returns (res: FResult)
      requires Handle() && keyDerived && f.fptr >= HEADER_SIZE && o + |chunk| <= PLAIN_SIZE
      requires f.err in {FR_OK, FR_INT_ERR}
      requires |was| == PLAIN_SIZE && pt == Merge(was, o, chunk)
      modifies f, f.buf, f.fs, f.fs.win
      ensures f.Confined()
      ensures Handle() && |f.content| >= |old(f.content)|
      ensures !f.canWrite && old(f.err) == FR_OK ==> res == FR_DENIED
      ensures f.canWrite && res != FR_OK ==> res == FR_INT_ERR && f.Spent()
      ensures res == FR_OK ==> |f.content| == Max(|old(f.content)|, old(f.fptr) + CIPHER_SIZE)
      ensures res == FR_OK ==> Keyed() && f.canWrite && f.modified
      ensures old(f.err == FR_OK && f.canWrite && f.HasRoom(f.fptr + CIPHER_SIZE)) ==> res == FR_OK
      ensures old(Aimed(q, b, was)) ==>
        && (res == FR_OK ==>
              BlockPos(b + 1) <= |f.content| && Holds(Splice(q + Fill(q, b, o, was), b * PLAIN_SIZE + o, chunk)))
        && (res != FR_OK ==> Holds(q))
    {
      hide f.Ready, f.Room, f.Apart;
      hide BlocksOk;
      hide BlockHolds;
      hide Splice;
      hide Merge;
      hide Fill;
      FileBounds();
      ghost var c, pos := f.content, f.fptr;
      var ct := aead.enc(key, BlockNonce(hdr.nonce, b), pt);
      ghost var aimed := Aimed(q, b, was);
      if aimed { AimedWrite(q, b, o, chunk, was, ct); }
      var bw;
      res, bw := Put(ct);
      FileBounds();
      HeaderSpliced(c, pos, ct[..bw]);
      if res == FR_OK && bw != CIPHER_SIZE { res := FR_INT_ERR; }
      assert bw == CIPHER_SIZE ==> ct[..bw] == ct;
      if aimed && res != FR_OK {
        if |q| <= b * PLAIN_SIZE {
          BlockAttempted(aead, key, hdr.nonce, c, q, b, ct[..bw]);
        } else {
          SpliceNothing(c, pos);
        }
      }
    }

    /** The blocks hold `p`, which the first block to be written adjoins. */
    ghost predicate Begun(p: seq<byte>, data: seq<byte>)
      reads this, f
    {
      && Holds(p) && Adjoins(p, lptr, data) && |f.content| <= MAX_SIZE
      && (f.canRead || |p| <= lptr / PLAIN_SIZE * PLAIN_SIZE)
    }

    /** The blocks hold the text with `done` written from `pos` on. */
    ghost predicate Showing(p: seq<byte>, base: seq<byte>, q: seq<byte>, pos: nat, done: seq<byte>)
      reads `hdr, `key, f
    {
      Holds(q) && Text(p, base, q, pos, done) && (done != [] ==> pos + |done| <= |q|)
    }

    /** And the next byte goes to offset `o` of block `b`. */
    ghost predicate NextAt(p: seq<byte>, base: seq<byte>, q: seq<byte>, pos: nat, done: seq<byte>, b: nat, o: nat)
      reads `hdr, `key, f
    {
      Showing(p, base, q, pos, done) && Reaches(q, b) && b * PLAIN_SIZE + o == pos + |done|
    }

    /** One round of it. */
    method WriteRound(ghost p: seq<byte>, ghost base: seq<byte>, ghost q: seq<byte>, ghost pos: nat,
                      ghost done: seq<byte>, b: nat, o: nat, chunk: seq<byte>)
      returns (res: FResult, ghost base': seq<byte>, ghost q': seq<byte>)
      requires Keyed() && o + |chunk| <= PLAIN_SIZE && |chunk| > 0
      modifies f, f.buf, f.fs, f.fs.win
      ensures f.Confined()
      ensures Handle() && |f.content| >= |old(f.content)|
      ensures if f.canWrite then old(f.HasRoom(BlockPos(b + 1))) ==> res == FR_OK else res == FR_DENIED
      ensures f.canWrite && res != FR_OK ==> res == FR_INT_ERR && f.Spent()
      ensures res == FR_OK ==> Keyed() && f.canWrite && f.modified
      ensures old(NextAt(p, base, q, pos, done, b, o)) ==>
        && (res == FR_OK ==> |f.content| == Max(|old(f.content)|, BlockPos(b + 1)))
        && Showing(p, base', q', pos, if res == FR_OK then done + chunk else done)
        && (res == FR_OK && o + |chunk| == PLAIN_SIZE ==>
              (b + 1) % 0x1_0000_0000 == b + 1 && NextAt(p, base', q', pos, done + chunk, b + 1, 0))
      ensures old(NextAt(p, base, q, pos, done, b, o)) && res != FR_OK ==> base' == base && q' == q
      ensures old(NextAt(p, base, q, pos, done, b, o)) && res == FR_OK ==>
        base' == if done == [] then p + old(GapAt(q, b, o)) else base
    {
      hide f.Ready, f.Room, f.Apart, Handle, Holds, Splice, Text, GapAt;
      base', q' := base, q;
      ghost var at := NextAt(p, base, q, pos, done, b, o);
      ghost var fill;
      res, fill := WriteBlock(q, b, o, chunk);
      if res != FR_OK { return; }
      HandleHeader();
      if at { base', q' := NextText(p, base, q, pos, done, fill, chunk, b); }
    }

    /** What is left of `data` behind the first `bw` bytes goes to offset `o` of
        block `b` and on; `gap` is what comes before the first of them. */
    ghost predicate Underway(p: seq<byte>, base: seq<byte>, q: seq<byte>, pos: nat, data: seq<byte>, bw: nat, b: nat,
                             o: nat, gap: seq<byte>)
      reads `hdr, `key, f
    {
      && base == (if bw == 0 then p else p + gap) && (bw == 0 ==> q == p && gap == GapAt(p, b, o))
      && bw <= |data| && Showing(p, base, q, pos, data[..bw])
      && (bw < |data| ==> NextAt(p, base, q, pos, data[..bw], b, o))
    }

    /** `bw` bytes have been written from `pos` on to a file of `was` bytes. */
    ghost predicate Along(was: nat, pos: nat, bw: nat, o: nat)
      reads `lptr, f
    {
      && lptr == pos + bw && (bw > 0 ==> o == 0)
      && |f.content| == if bw == 0 then was else Max(was, PhysicalSize(lptr))
    }

    /** A write of a file of `size` bytes has stopped after `bw` bytes, at the
        first block there is no room for. */
    ghost predicate Stopped(size: nat, bw: nat)
      reads `lptr, f, f.fs`fat
    {
      && size < PhysicalSize(lptr + 1) && (f.Room() < PhysicalSize(lptr + 1) || HasReserved(f.fs.fat))
      && (bw > 0 ==> lptr % PLAIN_SIZE == 0 && PhysicalSize(lptr) <= |f.content|)
    }

    /** One round of the loop, with the position: as much of the data as belongs in the
        block. */
    method WriteNext(ghost p: seq<byte>, ghost base: seq<byte>, ghost q: seq<byte>, ghost pos: nat,
                     data: seq<byte>, bw: nat, b: nat, o: nat, ghost was: nat, ghost gap: seq<byte>)
      returns (res: FResult, n: nat, ghost base': seq<byte>, ghost q': seq<byte>)
      requires Keyed() && o < PLAIN_SIZE && bw < |data|
      modifies `lptr, f, f.buf, f.fs, f.fs.win
      ensures f.Confined()
      ensures lptr == old(lptr) + if res == FR_OK then n else 0
      ensures Handle() && |f.content| >= |old(f.content)| && n == Min(|data| - bw, PLAIN_SIZE - o)
      ensures if f.canWrite then old(f.HasRoom(BlockPos(b + 1))) ==> res == FR_OK else res == FR_DENIED
      ensures f.canWrite && res != FR_OK ==> res == FR_INT_ERR && f.Spent()
      ensures res == FR_OK ==> Keyed() && f.canWrite && f.modified
      ensures old(Underway(p, base, q, pos, data, bw, b, o, gap)) ==>
        if res == FR_OK then Underway(p, base', q', pos, data, bw + n, Next32(b), 0, gap)
        else Showing(p, base', q', pos, data[..bw]) && base' == base
      ensures old(Underway(p, base, q, pos, data, bw, b, o, gap) && Along(was, pos, bw, o)) ==>
        if res == FR_OK then Along(was, pos, bw + n, 0) else f.canWrite ==> Stopped(was, bw)
    {
      hide f.Ready, f.Room, f.Apart, Handle, Showing, PhysicalSize, GapAt;
      BlockEnd(b, o, 1);
      BlockEnd(b, o, Min(|data| - bw, PLAIN_SIZE - o));
      n := Min(|data| - bw, PLAIN_SIZE - o);
      var chunk := data[bw..bw + n];
      res, base', q' := WriteRound(p, base, q, pos, data[..bw], b, o, chunk);
      assert data[..bw] + chunk == data[..bw + n];
      PhysicalSizeMonotone(pos + bw, pos + bw + n);
      if res == FR_OK { lptr := lptr + n; }
    }

    /** The loop of f_crypt_write: the plaintext, filled up to the position, is
        spliced with what was written, fully on success. */
    method WriteBlocks(ghost p: seq<byte>, data: seq<byte>)
      returns (res: FResult, bw: nat, ghost base: seq<byte>, ghost q: seq<byte>)
      requires Keyed() && |data| <= MAX_SIZE
      modifies `lptr, f, f.buf, f.fs, f.fs.win
      ensures f.Confined()
      ensures Handle() && keyDerived && bw <= |data| && lptr == old(lptr) + bw && |f.content| >= |old(f.content)|
      ensures res == FR_OK ==> bw == |data| && f.err == FR_OK && (data != [] ==> f.modified)
      ensures if data == [] then res == FR_OK
              else if f.canWrite then old(f.HasRoom(PhysicalSize(lptr + |data|))) ==> res == FR_OK
              else res == FR_DENIED
      ensures f.canWrite && res != FR_OK ==> res == FR_INT_ERR && f.Spent()
      ensures old(Begun(p, data)) ==>
        && Holds(q) && Text(p, base, q, old(lptr), data[..bw]) && (bw > 0 ==> lptr <= |q|)
        && (bw > 0 ==> base == p + old(GapAt(p, Index32(lptr), OffsetIn(lptr))))
        && (res == FR_OK ==>
              |f.content| == if data == [] then |old(f.content)| else Max(|old(f.content)|, PhysicalSize(lptr)))
        && (res != FR_OK && f.canWrite ==> Stopped(|old(f.content)|, bw))
    {
      hide f.Ready, f.Room, f.Apart, Handle, Showing, Underway, Along;
      hide Stopped, Begun, PhysicalSize, Text, Holds, Index32, Next32, OffsetIn;
      ghost var all, pos := lptr + |data|, lptr;
      bw, res, base, q := 0, FR_OK, p, p;
      var b: nat, o: nat := Index32(lptr), OffsetIn(lptr);
      ghost var begun, fits := Begun(p, data), f.canWrite && f.HasRoom(PhysicalSize(all));
      ghost var gap := GapAt(p, b, o);
      HandleHeader();
      if begun { FirstRound(p, data, b); }
      AlongSize(|f.content|, lptr, 0, o);
      while bw < |data|
        invariant bw <= |data| && lptr == pos + bw && res == FR_OK
        invariant Keyed() && o < PLAIN_SIZE && hdr == old(hdr) && key == old(key) && f.Confined()
        invariant |f.content| >= |old(f.content)| && (bw > 0 ==> f.modified && f.canWrite)
        invariant begun ==> Underway(p, base, q, pos, data, bw, b, o, gap) && Along(|old(f.content)|, pos, bw, o)
        invariant bw < |data| ==> b == Index32(lptr) && o == OffsetIn(lptr)
        invariant fits ==> f.HasRoom(PhysicalSize(all))
      {
        var n;
        BlockFits(lptr, all);
        if begun { UnderwayText(p, base, q, pos, data, bw, b, o, gap); }
        res, n, base, q := WriteNext(p, base, q, pos, data, bw, b, o, |old(f.content)|, gap);
        if res != FR_OK {
          if begun { ShownText(p, base, q, pos, data[..bw]); }
          return;
        }
        FollowingBlock(lptr - n, n);
        bw := bw + n;
        b, o := Next32(b), 0;
      }
      if begun {
        UnderwayText(p, base, q, pos, data, bw, b, o, gap);
        AlongSize(|old(f.content)|, pos, bw, o);
      }
    }

    lemma AlongSize(was: nat, pos: nat, bw: nat, o: nat)
      ensures Along(was, pos, bw, o) ==> |f.content| == if bw == 0 then was else Max(was, PhysicalSize(lptr))
      ensures bw == 0 && lptr == pos && |f.content| == was ==> Along(was, pos, bw, o)
    {
    }

    lemma UnderwayText(p: seq<byte>, base: seq<byte>, q: seq<byte>, pos: nat, data: seq<byte>, bw: nat, b: nat, o: nat,
                       gap: seq<byte>)
      requires Underway(p, base, q, pos, data, bw, b, o, gap)
      ensures bw <= |data| && Holds(q) && Text(p, base, q, pos, data[..bw]) && (bw > 0 ==> pos + bw <= |q|)
      ensures base == if bw == 0 then p else p + gap
    {
    }

    /** There is room for the block of a byte if there is for all of them; its
        index is within 32-bit reach. */
    lemma BlockFits(pos: nat, all: nat)
      ensures Handle() && f.HasRoom(PhysicalSize(all)) && pos < all ==>
        f.HasRoom(BlockPos(Index32(pos) + 1))
    {
      hide f.Ready, f.Room;
      if Handle() && f.HasRoom(PhysicalSize(all)) && pos < all {
        FileBounds();
        BlockWithin(pos / PLAIN_SIZE, pos % PLAIN_SIZE, all);
        DivUnique(pos / PLAIN_SIZE, 0x1_0000_0000, 0, pos / PLAIN_SIZE);
      }
    }

    lemma ShownText(p: seq<byte>, base: seq<byte>, q: seq<byte>, pos: nat, done: seq<byte>)
      requires Showing(p, base, q, pos, done)
      ensures Holds(q) && Text(p, base, q, pos, done) && (done != [] ==> pos + |done| <= |q|)
    {
    }

    /** The text after one more block. */
    lemma NextText(p: seq<byte>, base: seq<byte>, q: seq<byte>, pos: nat, done: seq<byte>, fill: seq<byte>,
                   chunk: seq<byte>, b: nat) returns (base': seq<byte>, q': seq<byte>)
      requires |f.content| <= MAX_SIZE && Text(p, base, q, pos, done) && chunk != []
      requires |fill| == Max(0, pos + |done| - |q|)
      requires pos + |done| <= |q + fill| && Holds(Splice(q + fill, pos + |done|, chunk))
      requires BlockPos(b + 1) <= |f.content| && b * PLAIN_SIZE <= pos + |done|
      requires pos + |done| + |chunk| <= (b + 1) * PLAIN_SIZE && (f.canRead || |q| <= b * PLAIN_SIZE)
      ensures Holds(q') && Text(p, base', q', pos, done + chunk) && pos + |done| + |chunk| <= |q'|
      ensures pos + |done| + |chunk| == (b + 1) * PLAIN_SIZE ==> (b + 1) % 0x1_0000_0000 == b + 1 && Reaches(q', b + 1)
      ensures base' == if done == [] then p + fill else base
    {
      hide BlocksOk, Text;
      TextNext(p, base, q, pos, done, fill, chunk);
      base', q' := if done == [] then p + fill else base, Splice(q + fill, pos + |done|, chunk);
      NextIndex(b, |f.content|);
    }

    lemma FirstRound(p: seq<byte>, data: seq<byte>, b: nat)
      requires HEADER_SIZE <= |f.content| && Begun(p, data) && b == Index32(lptr)
      ensures Underway(p, p, p, lptr, data, 0, b, OffsetIn(lptr), GapAt(p, b, OffsetIn(lptr)))
    {
      hide f.Ready, f.Room, f.Apart, BlocksOk, Text, GapAt;
      TextStart(p, lptr);
      if data != [] {
        FirstBlockFits(aead, key, hdr.nonce, f.content, p, lptr / PLAIN_SIZE * PLAIN_SIZE);
      }
    }

    /** f_crypt_write: the plaintext becomes everything before the position
        followed by the data; a gap inside the last block is filled with what
        that block held behind the plaintext. A failed write keeps the old
        length, with what was written in place. A handle that does not see the
        header begins a file of its own. */
    method Write(ghost p: seq<byte>, data: seq<byte>, random: Option<seq<byte>>)
      returns (res: FResult, bw: nat, ghost fill: seq<byte>)
      requires Handle() && |data| <= MAX_SIZE && lptr + |data| < WRAP64
      requires random.Some? ==> |random.value| == NONCE_SIZE
      modifies this, f, f.buf, f.fs, f.fs.win
      ensures f.Ready() && f.Confined()
      ensures bw <= |data| && lptr == old(lptr) + bw && (old(parsed) && f.canWrite ==> Handle())
      ensures old(f.err) != FR_OK ==> res == old(f.err) && bw == 0 && unchanged(this, f, f.buf, f.fs, f.fs.win)
      ensures old(f.err) == FR_OK && !masterLoaded ==> res == FR_DENIED && bw == 0 && f.content == old(f.content)
      ensures old(Startable()) && f.canRead && ParseResult(old(f.content)) !in {FR_OK, FR_NO_HEADER} ==>
        res == ParseResult(old(f.content)) && bw == 0 && f.content == old(f.content)
      ensures old(Startable() && Headless()) && random.None? ==>
        res == FR_INT_ERR && bw == 0 && f.content == old(f.content) && Handle() && f.err == FR_OK
      ensures res == FR_OK ==>
        && Handle() && parsed && f.err == FR_OK && bw == |data| && (data != [] ==> f.modified)
        && hdr.lsize == lptr
      ensures old(Admits(random)) ==>
        if f.canWrite then old(f.HasRoom(PhysicalSize(lptr + |data|))) ==> res == FR_OK
        else res == if data == [] && old(Ends()) then FR_OK else FR_DENIED
      ensures old(Admits(random)) && f.canWrite && res != FR_OK ==> res == FR_INT_ERR && f.Spent()
      ensures old(Admits(random) && Builds(p, data)) && f.canWrite ==>
        if res == FR_OK then |f.content| == Max(|old(f.content)|, PhysicalSize(lptr)) else Stopped(|old(f.content)|, bw)
      ensures res == FR_OK && old(Startable()) ==>
        if old(Headless()) then random == Some(hdr.nonce) else hdr.nonce == HeaderOf(old(f.content)).nonce
      ensures res == FR_OK && old(Builds(p, data)) ==>
        && |fill| == Max(0, old(lptr) - |p|) && fill == old(GapFor(p))
        && Valid(p[..Min(old(lptr), |p|)] + fill + data)
      ensures res != FR_OK && old(Startable() && !Headless() && Builds(p, data)) && f.canWrite ==>
        parsed && Valid(Overwritten(p, old(lptr), data[..bw]))
    {
      hide f.Ready, f.Room, f.Apart, Handle, BlocksOk, Splice, PhysicalSize, Overwritten, Gap, GapIn;
      HandleHeader();
      ghost var headless, c := Headless(), f.content;
      NoHeaderIsShort(c);
      bw, fill := 0, [];
      if f.err != FR_OK { return f.err, bw, fill; }
      if !masterLoaded { return FR_DENIED, bw, fill; }
      PhysicalSizeMonotone(lptr, lptr + |data|);
      res := PrepareHeader(random);
      if res != FR_OK { return; }
      NoBlocks(aead, aead.kdf(master, hdr.nonce), hdr.nonce, f.content);
      HandleHeader();
      GapStays(p, headless, c);
      res, bw, fill := Finish(p, data);
    }

    /** The beginning of f_crypt_write: the header of the file, or a new one,
        and its key. */
    method PrepareHeader(random: Option<seq<byte>>) returns (res: FResult)
      requires Handle() && Startable() && (random.Some? ==> |random.value| == NONCE_SIZE)
      modifies `hdr, `parsed, `key, `keyDerived, f, f.buf, f.fs, f.fs.win
      ensures f.Ready() && f.Confined()
      ensures !old(Headless()) ==>
        && f.content == old(f.content) && res == (if old(parsed) then FR_OK else ParseResult(f.content))
        && (res == FR_OK ==> hdr == HeaderOf(f.content) && ParseResult(f.content) == FR_OK)
      ensures old(Headless()) && random.None? ==>
        res == FR_INT_ERR && f.content == old(f.content) && Handle() && f.err == FR_OK
      ensures old(Headless()) && random.Some? ==>
        if f.canWrite then
          (old(f.HasRoom(HEADER_SIZE)) ==> res == FR_OK) && (res != FR_OK ==> res == FR_INT_ERR && f.Spent())
        else res == FR_DENIED
      ensures old(Headless()) && res == FR_OK ==>
        hdr.lsize == 0 && random == Some(hdr.nonce) && |f.content| == Max(|old(f.content)|, HEADER_SIZE)
      ensures res == FR_OK ==> Keyed() && parsed && |hdr.nonce| == NONCE_SIZE
    {
      hide f.Ready, f.Room, f.Apart, Splice;
      ghost var c := f.content;
      if parsed { HeaderRoundTrip(hdr, c); }
      res := Parse();
      if res == FR_NO_HEADER {
        res := InitHeader(random);
        if res != FR_OK { return; }
        res := WriteHeader();
        if res != FR_OK { return; }
        HeaderInstalled(c, HeaderBytes(hdr));
      }
      if res == FR_OK { res := DeriveKey(None); }
    }

    /** The program gets to the header. */
    ghost predicate Startable()
      reads f
    {
      f.err == FR_OK && masterLoaded
    }

    /** The program finds no header: there is none, or none it may read. */
    ghost predicate Headless()
      reads `parsed, f
    {
      !parsed && (!f.canRead || ParseResult(f.content) == FR_NO_HEADER)
    }

    /** Nothing but the disk keeps a write from succeeding: the header is found,
        or there is none to be found and a nonce for a new one. */
    ghost predicate Admits(random: Option<seq<byte>>)
      reads `parsed, f
    {
      Startable() && if Headless() then random.Some? else parsed || ParseResult(f.content) == FR_OK
    }

    lemma BuildsAdmits(p: seq<byte>, data: seq<byte>, random: Option<seq<byte>>)
      requires Startable() && Builds(p, data)
      ensures Admits(random) <==> !Headless() || random.Some?
    {
      if parsed { HeaderRoundTrip(hdr, f.content); }
    }

    /** What a write puts between `p` and the position: zeros in a new file, else
        what it finds in the block. */
    ghost function GapFor(p: seq<byte>): seq<byte>
      reads this, f
    {
      GapIn(p, Headless(), f.content)
    }

    ghost function GapIn(p: seq<byte>, headless: bool, c: seq<byte>): seq<byte>
      reads `lptr
    {
      if headless || |c| < HEADER_SIZE then seq(Max(0, lptr - |p|), _ => 0)
      else Gap(aead, aead.kdf(master, HeaderOf(c).nonce), HeaderOf(c).nonce, c, f.canRead, p, lptr)
    }

    /** The gap is the same once the header is there. */
    lemma GapStays(p: seq<byte>, headless: bool, c: seq<byte>)
      requires |hdr.nonce| == NONCE_SIZE && key == aead.kdf(master, hdr.nonce)
      requires if headless then |f.content| == Max(|c|, HEADER_SIZE) && (f.canRead ==> |c| <= HEADER_SIZE)
        else f.content == c && |c| >= HEADER_SIZE && hdr == HeaderOf(c)
      ensures (headless ==> p == [] && lptr < PLAIN_SIZE) ==>
        Gap(aead, key, hdr.nonce, f.content, f.canRead, p, lptr) == GapIn(p, headless, c)
    {
      hide OldBlock;
      if headless && p == [] && lptr < PLAIN_SIZE {
        GapOfNothing(aead, key, hdr.nonce, f.content, f.canRead, p, lptr);
      }
    }

    /** The header is found and claims what is in front of the position. */
    ghost predicate Ends()
      reads `parsed, `hdr, `lptr, f
    {
      !Headless() && lptr == if parsed then hdr.lsize else HeaderLsize(f.content)
    }

    /** What a write at the position builds on: the plaintext, or nothing if the
        program finds no header. The write adjoins it, and does not have to read
        what it may not. */
    ghost predicate Builds(p: seq<byte>, data: seq<byte>)
      reads this, f, f.fs, f.fs.win, f.buf
    {
      && (if Headless() then p == [] else Valid(p)) && Adjoins(p, lptr, data)
      && (f.canRead || |p| <= lptr / PLAIN_SIZE * PLAIN_SIZE)
    }

    /** The blocks behind the header hold `p`, as long as the header says. */
    ghost predicate Shown(p: seq<byte>, data: seq<byte>)
      reads this, f
    {
      && |p| == hdr.lsize && BlocksOk(aead, aead.kdf(master, hdr.nonce), hdr.nonce, f.content, p)
      && Adjoins(p, lptr, data) && (f.canRead || |p| <= lptr / PLAIN_SIZE * PLAIN_SIZE)
    }

    /** f_crypt_write from the point where the header is parsed and the key is
        there. */
    method Finish(ghost p: seq<byte>, data: seq<byte>) returns (res: FResult, bw: nat, ghost fill: seq<byte>)
      requires Keyed() && parsed && |data| <= MAX_SIZE && lptr + |data| < WRAP64
      modifies `lptr, `hdr, f, f.buf, f.fs, f.fs.win
      ensures f.Ready() && f.Confined()
      ensures f.canWrite ==> Handle()
      ensures bw <= |data| && lptr == old(lptr) + bw
      ensures res == FR_OK ==>
        && Handle() && parsed && f.err == FR_OK && bw == |data| && (data != [] ==> f.modified) && hdr.lsize == lptr
      ensures if f.canWrite then old(f.HasRoom(PhysicalSize(lptr + |data|))) ==> res == FR_OK
              else res == if data == [] && old(lptr) == old(hdr).lsize then FR_OK else FR_DENIED
      ensures hdr.nonce == old(hdr).nonce && parsed
      ensures f.canWrite && res != FR_OK ==> res == FR_INT_ERR && f.Spent()
      ensures old(Shown(p, data)) && f.canWrite ==>
        if res == FR_OK then |f.content| == Max(|old(f.content)|, PhysicalSize(lptr)) else Stopped(|old(f.content)|, bw)
      ensures res == FR_OK && old(Shown(p, data)) ==>
        && |fill| == Max(0, old(lptr) - |p|)
        && fill == old(Gap(aead, key, hdr.nonce, f.content, f.canRead, p, lptr))
        && Valid(p[..Min(old(lptr), |p|)] + fill + data)
      ensures res != FR_OK && old(Shown(p, data)) && f.canWrite ==> Valid(Overwritten(p, old(lptr), data[..bw]))
    {
      hide f.Ready, f.HasRoom, f.Room, f.Apart, Handle, BlocksOk, Gap, GapAt, Index32, OffsetIn;
      hide Text, PhysicalSize, Overwritten, HasReserved, ParseResult, Stopped;
      bw, fill := 0, [];
      HandleHeader();
      ghost var shown, base, q := Shown(p, data), p, p;
      if shown {
        BlocksFit(aead, key, hdr.nonce, f.content, p);
        FirstInReach(p, data);
      }
      GapHere(p);
      NoGap(p);
      ghost var gap := GapAt(p, Index32(lptr), OffsetIn(lptr));
      res, bw, base, q := WriteBlocks(p, data);
      HandleHeader();
      if res != FR_OK {
        if shown { FailedText(p, base, q, old(lptr), data[..bw]); }
        return;
      }
      assert data[..bw] == data;
      if shown && data == [] { PhysicalSizeMonotone(lptr, |p|); }
      ghost var text := [];
      if shown {
        fill, text := FinalText(p, base, q, old(lptr), data);
        assert data != [] ==> (p + gap)[|p|..] == gap;
      }
      res := StoreLength(text);
    }

    /** The gap is what the program finds in the block of the position. */
    lemma GapHere(p: seq<byte>)
      ensures Keyed() && (lptr / PLAIN_SIZE * PLAIN_SIZE <= |p| || lptr <= |p|) && lptr / PLAIN_SIZE < 0x1_0000_0000 ==>
        GapAt(p, Index32(lptr), OffsetIn(lptr)) == Gap(aead, key, hdr.nonce, f.content, f.canRead, p, lptr)
    {
      hide f.Ready, OldBlock;
      var b := lptr / PLAIN_SIZE;
      assert lptr == b * PLAIN_SIZE + OffsetIn(lptr);
      if b < 0x1_0000_0000 { DivUnique(b, 0x1_0000_0000, 0, b); }
    }

    lemma NoGap(p: seq<byte>)
      ensures lptr <= |p| ==> Gap(aead, key, hdr.nonce, f.content, f.canRead, p, lptr) == []
    {
    }

    lemma FirstInReach(p: seq<byte>, data: seq<byte>)
      requires Keyed() && Holds(p) && Adjoins(p, lptr, data)
      ensures (lptr / PLAIN_SIZE * PLAIN_SIZE <= |p| || lptr <= |p|) && lptr / PLAIN_SIZE < 0x1_0000_0000
    {
      hide f.Ready, BlocksOk;
      FileBounds();
      FirstBlockFits(aead, key, hdr.nonce, f.content, p, lptr / PLAIN_SIZE * PLAIN_SIZE);
    }

    lemma FailedText(p: seq<byte>, base: seq<byte>, q: seq<byte>, pos: nat, done: seq<byte>)
      requires Text(p, base, q, pos, done) && Holds(q)
      ensures Holds(Overwritten(p, pos, done)) && |Overwritten(p, pos, done)| == |p|
    {
      hide BlocksOk, Text, Overwritten;
      FailedWrite(p, base, q, pos, done);
      BlocksPrefix(aead, key, hdr.nonce, f.content, q, |p|);
    }

    lemma FinalText(p: seq<byte>, base: seq<byte>, q: seq<byte>, pos: nat, data: seq<byte>)
      returns (fill: seq<byte>, text: seq<byte>)
      requires Text(p, base, q, pos, data) && Holds(q) && (data == [] ==> pos <= |p|)
      ensures |fill| == Max(0, pos - |p|) && text == p[..Min(pos, |p|)] + fill + data && Holds(text)
      ensures |p| <= |base| && fill == base[|p|..]
    {
      hide BlocksOk, Text;
      WrittenText(p, base, q, pos, data);
      fill, text := base[|p|..], q[..pos + |data|];
      BlocksPrefix(aead, key, hdr.nonce, f.content, q, pos + |data|);
    }

    /** The end of f_crypt_write: the size becomes the position. */
    method StoreLength(ghost q: seq<byte>) returns (res: FResult)
      requires Handle() && parsed && f.err == FR_OK && lptr < WRAP64
      modifies `hdr, f, f.buf, f.fs, f.fs.win
      ensures f.Ready() && f.Confined()
      ensures f.canWrite ==> Handle()
      ensures res == FR_OK ==>
        Handle() && parsed && f.err == FR_OK && (old(f.modified) ==> f.modified) && hdr.lsize == lptr
      ensures res == if f.canWrite || lptr == old(hdr).lsize then FR_OK else FR_DENIED
      ensures hdr.nonce == old(hdr).nonce && |f.content| == |old(f.content)|
      ensures (res == FR_OK && lptr == |q|
               && BlocksOk(aead, aead.kdf(master, old(hdr).nonce), old(hdr).nonce, old(f.content), q)) ==> Valid(q)
    {
      hide f.Ready, f.Room, f.Apart, BlocksOk, Splice;
      HeaderRoundTrip(hdr, f.content);
      res := FR_OK;
      ghost var c := f.content;
      ghost var shown := BlocksOk(aead, aead.kdf(master, hdr.nonce), hdr.nonce, c, q);
      if lptr != hdr.lsize {
        SizeFieldUpdate(hdr, lptr, c);
        hdr := hdr.(lsize := lptr);
        res := UpdateLsize();
        if res == FR_OK {
          if shown { SameTailSameBlocks(aead, aead.kdf(master, hdr.nonce), hdr.nonce, c, f.content, q); }
          HeaderRoundTrip(hdr, f.content);
        }
      }
    }

    // --- f_crypt_lseek and f_crypt_truncate ---------------------------------

    /** f_crypt_lseek: inside an existing plaintext nothing changes but the
        position; elsewhere the file may grow, its bytes stay. */
    method Seek(ghost p: seq<byte>, ofs: nat) returns (res: FResult)
      requires Handle()
      modifies `lptr, f, f.buf, f.fs, f.fs.win
      ensures f.Confined()
      ensures Handle() && old(f.content) <= f.content
      ensures old(f.err) != FR_OK ==> res == old(f.err) && unchanged(this, f, f.buf, f.fs, f.fs.win)
      ensures old(f.err) == FR_OK && !masterLoaded ==> res == FR_DENIED && lptr == old(lptr)
      ensures old(f.err) == FR_OK && masterLoaded ==>
        && lptr == ofs && f.err == res
        && (BlockPos(ofs / PLAIN_SIZE) <= |old(f.content)| ==> res == FR_OK && f.content == old(f.content))
        && (f.canWrite && !HasReserved(f.fs.fat) ==>
              && res == FR_OK && f.fptr == Min(BlockPos(ofs / PLAIN_SIZE), f.Room())
              && |f.content| == Max(|old(f.content)|, f.fptr))
        && (!f.canWrite ==> res == FR_OK && f.content == old(f.content))
      ensures old(Startable() && Valid(p)) && ParseResult(old(f.content)) == FR_OK && ofs <= |p| ==>
        res == FR_OK && f.content == old(f.content) && f.fptr == BlockPos(ofs / PLAIN_SIZE)
      ensures old(Valid(p)) && ParseResult(old(f.content)) == FR_OK ==> Valid(p)
    {
      hide f.Ready, f.Room, f.Apart;
      hide BlocksOk;
      ghost var c, valid := f.content, Valid(p);
      if f.err != FR_OK { return f.err; }
      if !masterLoaded { return FR_DENIED; }
      lptr := ofs;
      if valid && ParseResult(f.content) == FR_OK && ofs <= |p| {
        FirstBlockFits(aead, aead.kdf(master, HeaderOf(f.content).nonce), HeaderOf(f.content).nonce, f.content, p, ofs);
      }
      res := SeekAnywhere(BlockPos(ofs / PLAIN_SIZE));
      if valid && ParseResult(c) == FR_OK { DecryptsLonger(aead, master, c, f.content, p); }
    }

    /** The header parser finds the header of the file, if it has one. */
    ghost predicate SeesHeader()
      reads `parsed, f
    {
      f.canRead || parsed
    }

    ghost predicate MayTruncate()
      reads f
    {
      f.err == FR_OK && f.canWrite && masterLoaded
    }

    /** The file is a fresh header that claims `n` bytes, and nothing else. */
    ghost predicate FreshHeader(n: nat, nonce: seq<byte>)
      reads `hdr, `parsed, `keyDerived, `key, f, f.fs, f.fs.win, f.buf
    {
      Handle() && parsed && hdr == Header(MAGIC, VERSION, n, nonce) && |f.content| == HEADER_SIZE && f.modified
        && f.err == FR_OK
    }

    /** f_crypt_truncate. Where the parser sees the header, truncating to n at
        most the length leaves exactly the first n bytes, in a file of exactly
        the right size; a larger n keeps the old blocks under a header that
        claims more. Where it sees none, there being none or no read access,
        a fresh header is left that claims n bytes, and no block. So the first
        n bytes are kept if and only if the header was seen or n is zero. */
    method Truncate(ghost p: seq<byte>, n: nat, random: Option<seq<byte>>) returns (res: FResult)
      requires Handle() && n < WRAP64
      requires random.Some? ==> |random.value| == NONCE_SIZE
      modifies this, f, f.buf, f.fs, f.fs.win
      ensures f.Ready() && f.Confined()
      ensures (res == FR_OK || old(parsed) ==> Handle()) && (res == FR_OK && old(MayTruncate()) ==> parsed)
      ensures old(f.err) != FR_OK ==> res == old(f.err) && unchanged(this, f, f.buf, f.fs, f.fs.win)
      ensures lptr == old(lptr) && (res == FR_OK ==> f.err == FR_OK)
      ensures old(f.err) == FR_OK && !old(MayTruncate()) ==> res == FR_DENIED && f.content == old(f.content)
      ensures old(MayTruncate() && SeesHeader() && Valid(p)) && ParseResult(old(f.content)) == FR_OK ==>
        && (res == FR_OK || HasReserved(f.fs.fat))
        && (old(f.HasRoom(PhysicalSize(n))) ==> res == FR_OK && |f.content| == PhysicalSize(n))
        && (n <= |p| ==>
          res == FR_OK && Valid(p[..n]) && |f.content| == PhysicalSize(n) && f.modified && f.err == FR_OK)
        && (|p| < n <= Blocks(|p|) * PLAIN_SIZE ==>
          res == FR_OK && exists q :: p <= q && |q| == n && Valid(q))
        && (n > |p| && PhysicalSize(n) < WRAP64 && res == FR_OK ==>
              Handle() && parsed && hdr.lsize == n
                && BlocksOk(aead, aead.kdf(master, hdr.nonce), hdr.nonce, f.content, p))
      ensures old(MayTruncate() && !parsed) && (!f.canRead || ParseResult(old(f.content)) == FR_NO_HEADER) ==>
        && (random.None? ==> res == FR_INT_ERR && f.content == old(f.content) && Handle() && f.err == FR_OK)
        && (random.Some? && old(f.HasRoom(HEADER_SIZE)) ==> res == FR_OK)
        && (res == FR_OK ==> FreshHeader(n, random.value) && forall q :: Valid(q) <==> q == [] && n == 0)
      ensures old(MayTruncate() && !parsed) && f.canRead && ParseResult(old(f.content)) !in {FR_OK, FR_NO_HEADER} ==>
        res == ParseResult(old(f.content)) && f.content == old(f.content)
      ensures old(MayTruncate() && Valid(p)) && ParseResult(old(f.content)) == FR_OK && n <= |p| && res == FR_OK ==>
        (Valid(p[..n]) <==> old(SeesHeader()) || n == 0)
    {
      hide f.Ready, f.Room, f.Apart, Handle, BlocksOk, Decrypts, PhysicalSize, Blocks, FreshHeader;
      HandleHeader();
      if f.err != FR_OK { return f.err; }
      if !f.canWrite { return FR_DENIED; }
      if !masterLoaded { return FR_DENIED; }
      var physical := PhysicalSize64(n);
      res := Parse();
      HandleHeader();
      if res == FR_NO_HEADER {
        res := Restart(n, random);
        if res == FR_OK { FreshDecrypts(n, random.value); }
      } else if res == FR_OK {
        res := Shrink(p, n, physical);
      }
    }

    /** A file that is a fresh header only. */
    lemma FreshDecrypts(n: nat, nonce: seq<byte>)
      requires FreshHeader(n, nonce)
      ensures (forall q :: Valid(q) <==> q == [] && n == 0) && Handle() && parsed && f.err == FR_OK
    {
      HeaderRoundTrip(hdr, f.content);
      forall q ensures Valid(q) <==> q == [] && n == 0 { BareHeader(aead, master, f.content, q); }
    }

    /** f_crypt_truncate of a file without a header, or none that may be read. */
    method Restart(n: nat, random: Option<seq<byte>>) returns (res: FResult)
      requires Handle() && !parsed && f.err == FR_OK && f.canWrite && n < WRAP64
      requires random.Some? ==> |random.value| == NONCE_SIZE
      modifies `hdr, `parsed, f, f.buf, f.fs, f.fs.win
      ensures f.Ready() && f.Confined()
      ensures random.None? ==> res == FR_INT_ERR && f.content == old(f.content) && Handle() && f.err == FR_OK
      ensures random.Some? && old(f.HasRoom(HEADER_SIZE)) ==> res == FR_OK
      ensures res == FR_OK ==> random.Some? && FreshHeader(n, random.value)
    {
      hide f.Ready, f.Room, f.Apart, Splice;
      ghost var c := f.content;
      res := InitHeader(random);
      if res != FR_OK { return; }
      res := WriteHeader();
      if res != FR_OK { return; }
      HeaderInstalled(c, HeaderBytes(hdr));
      res := Resize(n, HEADER_SIZE);
    }

    /** f_crypt_truncate of a file with a parsed header. */
    method Shrink(ghost p: seq<byte>, n: nat, physical: nat) returns (res: FResult)
      requires Handle() && parsed && f.err == FR_OK && f.canWrite && n < WRAP64 && physical == PhysicalSize64(n)
      modifies `hdr, f, f.buf, f.fs, f.fs.win
      ensures f.Confined()
      ensures Handle() && f.Ready()
      ensures res == FR_OK ==> f.err == FR_OK
      ensures res == FR_OK || HasReserved(f.fs.fat)
      ensures old(f.HasRoom(PhysicalSize(n))) ==> res == FR_OK && |f.content| == PhysicalSize(n)
      ensures old(Valid(p)) ==>
        && (|p| < n <= Blocks(|p|) * PLAIN_SIZE ==>
          res == FR_OK && exists q :: p <= q && |q| == n && Valid(q))
        && (n <= |p| ==>
          res == FR_OK && Valid(p[..n]) && |f.content| == PhysicalSize(n) && f.modified && f.err == FR_OK)
        && (n > |p| && PhysicalSize(n) < WRAP64 && res == FR_OK ==>
              Handle() && parsed && hdr.lsize == n
                && BlocksOk(aead, aead.kdf(master, hdr.nonce), hdr.nonce, f.content, p))
    {
      hide f.Ready, f.Room, f.Apart;
      hide BlocksOk;
      hide Splice;
      HeaderRoundTrip(hdr, f.content);
      ghost var c, k := f.content, aead.kdf(master, hdr.nonce);
      ghost var valid := Valid(p);
      FileBounds();
      PhysicalSizeFits(n);
      if valid {
        BlocksFit(aead, k, hdr.nonce, c, p);
        if n <= |p| { PhysicalSizeMonotone(n, |p|); }
        if |p| < n <= Blocks(|p|) * PLAIN_SIZE { SameBlocks(|p|, n); }
      }
      res := Resize(n, physical);
      if res == FR_OK {
        HeaderRoundTrip(hdr, f.content);
        if valid && physical == PhysicalSize(n) {
          Resized(k, hdr.nonce, c, f.content, p, n);
          if |p| < n <= Blocks(|p|) * PLAIN_SIZE {
            ghost var q := BlocksExtend(aead, k, hdr.nonce, f.content, p, n);
            assert Valid(q);
          }
        }
      }
    }

    /** The blocks after a resize to the size of n plaintext bytes. */
    lemma Resized(k: seq<byte>, nonce: seq<byte>, c: seq<byte>, c': seq<byte>, p: seq<byte>, n: nat)
      requires BlocksOk(aead, k, nonce, c, p) && HEADER_SIZE <= |c| && HEADER_SIZE <= |c'|
      requires |c'| == PhysicalSize(n) || |c| <= |c'|
      requires c'[HEADER_SIZE..Min(|c|, |c'|)] == c[HEADER_SIZE..Min(|c|, |c'|)]
      ensures n <= |p| ==> BlocksOk(aead, k, nonce, c', p[..n])
      ensures n > |p| ==> BlocksOk(aead, k, nonce, c', p)
    {
      BlocksFit(aead, k, nonce, c, p);
      if n <= |p| {
        PhysicalSizeMonotone(n, |p|);
        BlocksPrefix(aead, k, nonce, c, p, n);
        BlocksKept(aead, k, nonce, c, c', p[..n], Min(|c|, |c'|));
      } else {
        PhysicalSizeMonotone(|p|, n);
        BlocksKept(aead, k, nonce, c, c', p, Min(|c|, |c'|));
      }
    }

    /** f_crypt_truncate from the seek on: the file gets the physical size, or,
        when it cannot grow that far, more than it had; the bytes that remain
        are the old ones, except for the size field. */
    method Resize(n: nat, physical: nat) returns (res: FResult)
      requires Handle() && parsed && f.err == FR_OK && f.canWrite && physical >= HEADER_SIZE && n < WRAP64
      modifies `hdr, f, f.buf, f.fs, f.fs.win
      ensures f.Confined()
      ensures Handle()
      ensures res == FR_OK || HasReserved(f.fs.fat)
      ensures old(f.HasRoom(physical)) ==> res == FR_OK && |f.content| == physical
      ensures res == FR_OK ==>
        && Handle() && parsed && hdr == old(hdr).(lsize := n) && f.modified && f.err == FR_OK
        && (|f.content| == physical || |old(f.content)| <= |f.content|)
        && (var m := Min(|old(f.content)|, |f.content|);
            HEADER_SIZE <= m && f.content[HEADER_SIZE..m] == old(f.content)[HEADER_SIZE..m])
    {
      hide f.Ready, f.Room, f.Apart;
      ghost var c := f.content;
      res := SeekAnywhere(physical);
      if res != FR_OK { return; }
      FileBounds();
      ghost var c1, at := f.content, f.fptr;
      res := CutAndSize(n);
      ghost var m := Min(|c|, at);
      SliceOfSlice(f.content, HEADER_SIZE, |f.content|, 0, m - HEADER_SIZE);
      SliceOfSlice(c1, HEADER_SIZE, at, 0, m - HEADER_SIZE);
      assert f.content[HEADER_SIZE..|f.content|] == f.content[HEADER_SIZE..];
      assert c[..m][HEADER_SIZE..] == c[HEADER_SIZE..m] && c1[..m] == c[..m];
    }

    /** The end of f_crypt_truncate: cut the file at the position and store the
        size. */
    method CutAndSize(n: nat) returns (res: FResult)
      requires Handle() && parsed && f.err == FR_OK && f.canWrite && f.fptr >= HEADER_SIZE && n < WRAP64
      modifies `hdr, f, f.buf, f.fs, f.fs.win
      ensures f.Confined()
      ensures Handle() && parsed && res == FR_OK && hdr == old(hdr).(lsize := n) && f.modified && f.err == FR_OK
      ensures old(f.fptr) <= |old(f.content)| && |f.content| == old(f.fptr)
      ensures f.content[HEADER_SIZE..] == old(f.content)[HEADER_SIZE..old(f.fptr)]
    {
      hide f.Ready, f.Room, f.Apart;
      hide Splice;
      FileBounds();
      ghost var c := f.content;
      CutHere();
      assert f.content[..HEADER_SIZE] == c[..HEADER_SIZE];
      SizeFieldUpdate(hdr, n, f.content);
      hdr := hdr.(lsize := n);
      res := UpdateLsize();
    }

    method CutHere()
      requires f.Ready() && f.err == FR_OK && f.canWrite
      modifies f, f.buf, f.fs, f.fs.win
      ensures f.Confined()
      ensures f.Ready() && f.err == FR_OK && f.fptr == old(f.fptr) <= |old(f.content)|
      ensures f.content == old(f.content)[..f.fptr]
    {
      hide f.Room, f.Apart, f.Core;
      var r := f.Truncate();
      f.OthersKept();
    }

    /** While bytes remain the next block is within 32-bit reach. */
    lemma NextIndex(b: nat, size: nat)
      requires BlockPos(b + 1) <= size <= MAX_SIZE
      ensures (b + 1) % 0x1_0000_0000 == b + 1
    {
    }

    ghost predicate CoversFrom(p: seq<byte>, pos: nat, n: nat)
      reads this, f
    {
      && |hdr.nonce| == NONCE_SIZE && |f.content| <= MAX_SIZE
      && f.canRead && BlocksOk(aead, key, hdr.nonce, f.content, p) && pos + n <= |p|
    }

    lemma RoundCovered(p: seq<byte>, b: nat, o: nat, n: nat)
      requires CoversFrom(p, b * PLAIN_SIZE + o, n) && n > 0 && o < PLAIN_SIZE
      ensures Covers(p, b, o, Min(n, PLAIN_SIZE - o)) && b * PLAIN_SIZE + o < |p|
    {
    }

    /** Inside the plaintext the 32-bit block index does not wrap. */
    lemma CoveredIndex(p: seq<byte>, pos: nat, n: nat)
      requires CoversFrom(p, pos, n)
      ensures pos <= |p| && (pos < |p| ==> pos / PLAIN_SIZE < 0x80_0000)
      ensures pos / PLAIN_SIZE <= 0x80_0000
    {
      if pos < |p| {
        BlockOkHolds(aead, key, hdr.nonce, f.content, p, pos / PLAIN_SIZE);
      } else if pos > 0 {
        BlockOkHolds(aead, key, hdr.nonce, f.content, p, (pos - 1) / PLAIN_SIZE);
      }
    }
  }

  lemma NoHeaderIsShort(c: seq<byte>)
    ensures ParseResult(c) == FR_NO_HEADER ==> |c| <= HEADER_SIZE
    ensures ParseResult(c) == FR_OK ==> |c| >= HEADER_SIZE
  {
  }

  /** The size a header claims. */
  function HeaderLsize(c: seq<byte>): nat {
    if ParseResult(c) == FR_OK then HeaderOf(c).lsize else 0
  }

  lemma SameBlocks(n: nat, m: nat)
    requires n < m <= Blocks(n) * PLAIN_SIZE
    ensures PhysicalSize(m) == PhysicalSize(n)
  {
    DivUnique(m + PLAIN_SIZE - 1, PLAIN_SIZE, Blocks(n), m + PLAIN_SIZE - 1 - Blocks(n) * PLAIN_SIZE);
  }

  /** A block that a text reaches into is inside the file that holds it. */
  lemma BlockWithin(b: nat, o: nat, all: nat)
    ensures b * PLAIN_SIZE + o < all ==> BlockPos(b + 1) <= PhysicalSize(all)
  {
    if b * PLAIN_SIZE + o < all { DivMonotone(b * PLAIN_SIZE, all - 1, PLAIN_SIZE); }
  }

  /** The write begins in a block the plaintext reaches, or right behind its
      last one, and a write that leaves a gap writes something. */
  predicate Adjoins(p: seq<byte>, pos: nat, data: seq<byte>) {
    pos <= |p| || (pos / PLAIN_SIZE * PLAIN_SIZE <= |p| && data != [])
  }

  /** The text `q` the blocks hold when `done` is written from `pos` on, over
      `base`, which is `p` with the gap in front of `pos` filled. */
  ghost predicate Text(p: seq<byte>, base: seq<byte>, q: seq<byte>, pos: nat, done: seq<byte>) {
    && p <= base && |base| == Max(|p|, if done != [] then pos else 0)
    && q == if done == [] then base else Splice(base, pos, done)
  }

  lemma TextStart(p: seq<byte>, pos: nat)
    ensures Text(p, p, p, pos, [])
  {
  }

  lemma TextNext(p: seq<byte>, base: seq<byte>, q: seq<byte>, pos: nat, done: seq<byte>, fill: seq<byte>,
                 chunk: seq<byte>)
    requires Text(p, base, q, pos, done) && chunk != [] && |fill| == Max(0, pos + |done| - |q|)
    ensures pos + |done| <= |q + fill| && |Splice(q + fill, pos + |done|, chunk)| >= pos + |done| + |chunk|
    ensures Text(p, if done == [] then p + fill else base, Splice(q + fill, pos + |done|, chunk), pos, done + chunk)
  {
    hide Splice;
    if done == [] {
      assert done + chunk == chunk;
      assert q + fill == p + fill;
    } else {
      assert q + fill == q;
      SpliceCompose(base, pos, done, chunk);
    }
  }

  /** The bytes up to the end of a write. */
  lemma WrittenText(p: seq<byte>, base: seq<byte>, q: seq<byte>, pos: nat, data: seq<byte>)
    requires Text(p, base, q, pos, data) && (data == [] ==> pos <= |p|)
    ensures |base| == Max(|p|, pos) && |p| <= |base|
    ensures pos + |data| <= |q| && q[..pos + |data|] == p[..Min(pos, |p|)] + base[|p|..] + data
  {
  }

  /** `p` with `done` over it from `pos`, as far as `p` reaches. */
  function Overwritten(p: seq<byte>, pos: nat, done: seq<byte>): seq<byte> {
    if pos <= |p| then Splice(p, pos, done)[..|p|] else p
  }

  lemma FailedWrite(p: seq<byte>, base: seq<byte>, q: seq<byte>, pos: nat, done: seq<byte>)
    requires Text(p, base, q, pos, done)
    ensures |p| <= |q| && q[..|p|] == Overwritten(p, pos, done) && |Overwritten(p, pos, done)| == |p|
  {
  }

  lemma HeaderInstalled(c: seq<byte>, data: seq<byte>)
    requires |data| == HEADER_SIZE
    ensures |Splice(c, 0, data)| == Max(|c|, HEADER_SIZE) && Splice(c, 0, data)[..HEADER_SIZE] == data
  {
  }

  /** A write past the header leaves the header. */
  lemma HeaderSpliced(c: seq<byte>, pos: nat, data: seq<byte>)
    requires HEADER_SIZE <= pos <= |c|
    ensures Splice(c, pos, data)[..HEADER_SIZE] == c[..HEADER_SIZE]
  {
  }

  /** The file that ends with the block of a text. */
  lemma BlockEnd(b: nat, o: nat, n: nat)
    requires 0 < n <= PLAIN_SIZE - o
    ensures PhysicalSize(b * PLAIN_SIZE + o + n) == BlockPos(b + 1)
  {
    DivUnique(b * PLAIN_SIZE + o + n + PLAIN_SIZE - 1, PLAIN_SIZE, b + 1, o + n - 1);
  }

  /** The 32-bit index of the block of a byte. */
  function Index32(pos: nat): nat { pos / PLAIN_SIZE % 0x1_0000_0000 }

  function Next32(b: nat): nat { (b + 1) % 0x1_0000_0000 }

  /** The offset in it. */
  function OffsetIn(pos: nat): (o: nat)
    ensures o < PLAIN_SIZE
  {
    pos % PLAIN_SIZE
  }

  /** The block behind the bytes up to the end of a block. */
  lemma FollowingBlock(pos: nat, n: nat)
    ensures OffsetIn(pos) + n == PLAIN_SIZE ==> Index32(pos + n) == Next32(Index32(pos)) && OffsetIn(pos + n) == 0
  {
    if OffsetIn(pos) + n == PLAIN_SIZE { DivUnique(pos + n, PLAIN_SIZE, pos / PLAIN_SIZE + 1, 0); }
  }

  /** After the bytes up to the end of a block comes the next block. */
  lemma NextBlock(pos: nat, b: nat, o: nat, n: nat)
    requires b * PLAIN_SIZE + o == pos && o < PLAIN_SIZE && n == PLAIN_SIZE - o && (pos + n) / PLAIN_SIZE < 0x80_0000
    ensures (b + 1) % 0x1_0000_0000 * PLAIN_SIZE == pos + n
  {
  }
}
