/** Whole sessions through every layer: encrypt, close, find the file again
    through its directory entry, decrypt. */
module CryptSession {
  import opened Wrappers
  import opened Bytes
  import opened File
  import opened FileRuns
  import opened CryptLayout
  import opened Crypt

  /** Read from the start of a file that has just been opened. */
  method ReadBack(g: Fil, aead: Aead, master: seq<byte>, ghost p: seq<byte>, n: nat)
    returns (res: FResult, back: seq<byte>)
    requires g.Ready() && g.err == FR_OK && g.canRead && aead.Sound() && n <= MAX_SIZE
    requires Decrypts(aead, master, g.content, p)
    modifies g, g.buf, g.fs, g.fs.win
    ensures res == FR_OK && back == p[..Min(n, |p|)]
  {
    hide g.Ready, g.Room, g.Apart, Decrypts;
    var d := new CryptFil(g, aead, master, true);
    res, back := d.Read(p, n);
  }

  /** Write at a position, close, open again, read back: the file reads as
      everything before the position followed by the data, with a gap inside the
      last block filled. Through a handle that finds no header the old text does
      not count. This cannot fail where the file has or can get the room. */
  method WriteCloseRead(c: CryptFil, ghost p: seq<byte>, data: seq<byte>, random: Option<seq<byte>>, tm: nat, n: nat)
    returns (res: FResult, back: seq<byte>, ghost fill: seq<byte>)
    requires c.Handle() && c.Startable() && c.Builds(p, data) && c.lptr + |data| < WRAP64
    requires 0 < |data| <= MAX_SIZE && n <= MAX_SIZE && (random.Some? ==> |random.value| == NONCE_SIZE)
    modifies c, c.f, c.f.buf, c.f.fs, c.f.fs.win
    ensures !old(c.Admits(random)) ==> res == FR_INT_ERR
    ensures old(c.Admits(random)) ==>
      if !c.f.canWrite then res == FR_DENIED
      else old(c.f.HasRoom(PhysicalSize(c.lptr + |data|))) ==> res == FR_OK
    ensures res == FR_OK ==>
      && |fill| == Max(0, old(c.lptr) - |p|)
      && var p' := p[..Min(old(c.lptr), |p|)] + fill + data; back == p'[..Min(n, |p'|)]
  {
    hide c.f.Ready, c.f.Room, c.f.Apart, Decrypts, PhysicalSize;
    var bw;
    back := [];
    c.BuildsAdmits(p, data, random);
    res, bw, fill := c.Write(p, data, random);
    if res != FR_OK { return; }
    ghost var p' := p[..Min(old(c.lptr), |p|)] + fill + data;
    var g := Close(c, tm);
    res, back := ReadBack(g, c.aead, c.master, p', n);
  }

  /** The first write to a new file finds what the seek before it left, `stale`
      bytes up to the block of the position. If they do not begin like a header,
      it is accepted if and only if it begins in the first block; further on the
      file is taken for one with a bad header. If they do, as those of a deleted
      encrypted file may, they are the header of the file, nonce included,
      whatever nonce was drawn, and what they decrypt to, if anything, is its
      text; one of another version is a bad header. */
  method WriteBehindSeek(c: CryptFil, ghost stale: seq<byte>, ghost p: seq<byte>, data: seq<byte>, nonce: seq<byte>)
    returns (res: FResult, ghost fill: seq<byte>)
    requires c.Handle() && c.Startable() && c.f.canRead && c.f.canWrite && !c.parsed
    requires c.f.content == stale && |stale| == BlockPos(c.lptr / PLAIN_SIZE)
    requires c.lptr + |data| < WRAP64 && 0 < |data| <= MAX_SIZE && |nonce| == NONCE_SIZE
    modifies c, c.f, c.f.buf, c.f.fs, c.f.fs.win
    ensures stale[..8] != MAGIC ==>
      if old(c.lptr) < PLAIN_SIZE then
        && (old(c.f.HasRoom(PhysicalSize(c.lptr + |data|))) ==> res == FR_OK)
        && (res == FR_OK ==> fill == seq(old(c.lptr), _ => 0) && c.Valid(fill + data) && c.hdr.nonce == nonce)
      else res == FR_BAD_HEADER && c.f.content == stale
    ensures stale[..8] == MAGIC && stale[8] == VERSION ==>
      && (old(c.f.HasRoom(PhysicalSize(c.lptr + |data|))) ==> res == FR_OK)
      && (res == FR_OK ==>
            c.Handle() && c.parsed && c.hdr.lsize == old(c.lptr) + |data| && c.hdr.nonce == HeaderOf(stale).nonce)
      && (res == FR_OK && old(c.Valid(p)) && Adjoins(p, old(c.lptr), data) ==>
            |fill| == Max(0, old(c.lptr) - |p|) && c.Valid(p[..Min(old(c.lptr), |p|)] + fill + data))
    ensures stale[..8] == MAGIC && stale[8] != VERSION ==> res == FR_BAD_HEADER && c.f.content == stale
  {
    hide c.f.Ready, c.f.Room, c.f.Apart, BlocksOk, PhysicalSize;
    var bw;
    res, bw, fill := c.Write(if stale[..8] == MAGIC then p else [], data, Some(nonce));
    assert [] + fill + data == fill + data;
  }

  /** The seek leaves a new file like this, if there is room for it. */
  method SeekNew(c: CryptFil, ofs: nat) returns (res: FResult)
    requires c.Handle() && c.Startable() && c.f.canWrite && c.f.content == []
    requires c.f.HasRoom(BlockPos(ofs / PLAIN_SIZE))
    modifies c, c.f, c.f.buf, c.f.fs, c.f.fs.win
    ensures res == FR_OK && c.Handle() && c.Startable() && !c.parsed && c.lptr == ofs
    ensures |c.f.content| == BlockPos(ofs / PLAIN_SIZE)
  {
    hide c.f.Ready, c.f.Room, c.f.Apart;
    res := c.Seek([], ofs);
  }

  /** Truncate to `size` bytes, close, open again, read back `n` > 0 bytes. If
      the handle saw the header, exactly the first `size` bytes are there, in a
      file of exactly the right size. If it did not, being opened for writing
      alone, the truncation answers success as well, but the file reads only
      when it is to be empty. */
  method TruncateCloseRead(c: CryptFil, ghost p: seq<byte>, size: nat, random: Option<seq<byte>>, tm: nat, n: nat)
    returns (cut: FResult, res: FResult, back: seq<byte>)
    requires c.Valid(p) && ParseResult(c.f.content) == FR_OK && size <= |p| && c.MayTruncate()
    requires 0 < n <= MAX_SIZE && (random.Some? ==> |random.value| == NONCE_SIZE)
    requires size < WRAP64
    modifies c, c.f, c.f.buf, c.f.fs, c.f.fs.win
    ensures cut == if old(c.SeesHeader()) || random.Some? then FR_OK else FR_INT_ERR
    ensures cut == FR_OK ==> ((res == FR_OK && back == p[..Min(n, size)]) <==> old(c.SeesHeader()) || size == 0)
    ensures cut == FR_OK && !old(c.SeesHeader()) && size > 0 ==> res == FR_INT_ERR && back == []
    ensures cut == FR_OK ==> |c.f.content| == if old(c.SeesHeader()) then PhysicalSize(size) else HEADER_SIZE
  {
    hide c.f.Ready, c.f.Room, c.f.Apart, Decrypts, BlocksOk;
    ghost var seen := c.SeesHeader();
    HeaderLength(c.f.content);
    cut := c.Truncate(p, size, random);
    res, back := cut, [];
    if cut != FR_OK { return; }
    if !seen { HeaderRoundTrip(c.hdr, c.f.content); }
    var g := Close(c, tm);
    ghost var q := if seen || size == 0 then p[..size] else [];
    var d := new CryptFil(g, c.aead, c.master, true);
    res, back := d.Read(q, n);
    assert p[..size][..Min(n, size)] == p[..Min(n, size)];
  }

  lemma HeaderLength(c: seq<byte>)
    ensures ParseResult(c) == FR_OK ==> |c| >= HEADER_SIZE
  {
  }

  /** f_close, then f_open for reading. */
  method Close(c: CryptFil, tm: nat) returns (g: Fil)
    requires c.Handle() && c.f.modified
    modifies c.f, c.f.buf, c.f.fs, c.f.fs.win
    ensures g.Ready() && g.canRead && g.err == FR_OK && g.content == old(c.f.content) == c.f.content
    ensures fresh(g) && fresh(g.buf) && g.fs == c.f.fs
  {
    g := Reopen(c.f, tm, true, false);
  }
}
