/** What the host gets for each command without blocks, in numbers: the bytes of the reply, the
    residue, the status, and what the unit remembers
    (core/source/device/class/ms/usbd_ms_scsi_bbb.c). */
module ScsiReplies {
  import opened Descriptors
  import opened ByteOrder
  import opened ScsiSpec
  import opened ScsiBus
  import opened ScsiDevice

  /** A number as four bytes, the high one first. */
  function Digits(v: U32): (b: seq<Octet>)
    ensures |b| == 4
  {
    [v / 0x100_0000, v / 0x1_0000 % 0x100, v / 0x100 % 0x100, v % 0x100]
  }

  /** An allocation length of two bytes. */
  function Wide(c: Cmd): (r: nat) requires Whole(c) { c.cb[7] as nat * 0x100 + c.cb[8] as nat }

  lemma WideIs(c: Cmd)
    requires Whole(c)
    ensures Be16(c.cb, 7) as nat == Wide(c)
  {
  }

  /** What a command is accepted with: a block long enough, and, when it asks for data, at least as
      much announced, towards the host. */
  predicate Accepted(c: Cmd, least: nat, asked: nat) {
    c.clen as nat >= least && c.dlen as nat >= asked && (asked > 0 ==> c.dir == 0x80)
  }

  /** The unit without the failure recorded before. */
  function Cleared(u: Unit): (v: Unit) { u.(sd := 0, info := 0, infoValid := false) }

  /** Carried out: of the reply `all` the host gets as many bytes as were asked for, and the residue
      falls by as many. */
  predicate Passed(c: Cmd, u: Unit, d: Cmd, v: Unit, bytes: seq<Octet>, asked: nat, all: seq<Octet>) {
    && bytes == (if asked < |all| then all[..asked] else all)
    && d.tag == c.tag && d.sta == 0 && d.dlen as nat + |bytes| == c.dlen as nat && v == Cleared(u)
  }

  /** Refused: nothing is sent, and the reason is kept for REQUEST SENSE. */
  predicate Refused(c: Cmd, u: Unit, d: Cmd, v: Unit, bytes: seq<Octet>, reason: U32) {
    bytes == [] && d.tag == c.tag && d.sta == 1 && d.dlen == c.dlen && v == Cleared(u).(sd := reason)
  }

  /** The part of `Executed` that concerns commands without blocks. */
  ghost predicate Ran(c: Cmd, u: Unit, d: Cmd, v: Unit, bytes: seq<Octet>) {
    Whole(c) && c.sta == 0 && c.cb[0] !in {0x08, 0x28, 0x2A} && FixedExecuted(c, Fixed(c, u), d, v, bytes)
  }

  lemma ExecutedRan(c: Cmd, u: Unit, m: seq<Octet>, d: Cmd, v: Unit, w: seq<Octet>, cap: nat,
                    bytes: seq<Octet>, data: seq<Octet>, lost: nat)
    requires Executed(c, u, m, d, v, w, cap, bytes, data, lost) && c.sta == 0 && c.cb[0] !in {0x08, 0x28, 0x2A}
    ensures Ran(c, u, d, v, bytes) && w == m && data == [] && lost == 0
  {
    hide Fixed, FixedExecuted, ReadStart, WriteStart;
  }

  lemma UnitReadySeen(c: Cmd, u: Unit, d: Cmd, v: Unit, bytes: seq<Octet>)
    requires Ran(c, u, d, v, bytes) && c.cb[0] == 0x00
    ensures Accepted(c, 6, 0) && Passed(c, u, d, v, bytes, 0, [])
  {
  }

  lemma SenseSeen(c: Cmd, u: Unit, d: Cmd, v: Unit, bytes: seq<Octet>)
    requires Ran(c, u, d, v, bytes) && c.cb[0] == 0x03
    ensures Accepted(c, 6, c.cb[4])
    ensures Passed(c, u, d, v, bytes, c.cb[4],
                   [if u.infoValid then 0xF0 else 0x70, 0, u.sd / 0x1_0000 % 0x100] + Digits(u.info)
                   + [10, 0, 0, 0, 0, u.sd / 0x100 % 0x100, u.sd % 0x100, 0, 0, 0, 0])
  {
  }

  /** Device type, removable bit, and the length of what follows. */
  function UnitBytes(u: Unit): (b: seq<Octet>) {
    [if u.rdonly then 5 else 0, if u.removable then 0x80 else 0, 0, 1, 31] + seq(31, _ => 0)
  }

  lemma InquirySeen(c: Cmd, u: Unit, d: Cmd, v: Unit, bytes: seq<Octet>)
    requires Ran(c, u, d, v, bytes) && c.cb[0] == 0x12
    ensures Accepted(c, 6, c.cb[4])
    ensures Passed(c, u, d, v, bytes, c.cb[4], UnitBytes(u))
  {
    assert [0, 0, 0] + seq(28, _ => 0) == seq(31, _ => 0);
  }

  lemma FormatCapacitiesSeen(c: Cmd, u: Unit, d: Cmd, v: Unit, bytes: seq<Octet>)
    requires Ran(c, u, d, v, bytes) && c.cb[0] == 0x23
    ensures Accepted(c, 10, Wide(c))
    ensures Passed(c, u, d, v, bytes, Wide(c), [0, 0, 0, 8] + Digits(u.nBlks) + [2] + Digits(u.blkSize)[1..])
  {
  }

  /** The capacity has the number of blocks in front, not the number of the last block. */
  lemma CapacitySeen(c: Cmd, u: Unit, d: Cmd, v: Unit, bytes: seq<Octet>)
    requires Ran(c, u, d, v, bytes) && c.cb[0] == 0x25
    ensures Accepted(c, 10, 8)
    ensures c.cb[8] == 1 || (c.cb[8] == 0 && c.cb[2] == c.cb[3] == c.cb[4] == c.cb[5] == 0) ==>
      Passed(c, u, d, v, bytes, 8, Digits(u.nBlks) + Digits(u.blkSize))
    ensures !(c.cb[8] == 1 || (c.cb[8] == 0 && c.cb[2] == c.cb[3] == c.cb[4] == c.cb[5] == 0)) ==>
      Refused(c, u, d, v, bytes, 0x052400)
  {
  }

  lemma PreventAllowSeen(c: Cmd, u: Unit, d: Cmd, v: Unit, bytes: seq<Octet>)
    requires Ran(c, u, d, v, bytes) && c.cb[0] == 0x1E
    ensures Accepted(c, 6, 0)
    ensures !u.removable ==> Refused(c, u, d, v, bytes, 0x052000)
    ensures u.removable && c.cb[4] > 1 ==> Refused(c, u, d, v, bytes, 0x052400)
    ensures u.removable && c.cb[4] <= 1 ==> Passed(c, u.(prevented := c.cb[4] == 1), d, v, bytes, 0, [])
  {
  }

  /** The caching page: all zero when changeable values are asked for. */
  function Page(control: Octet): (b: seq<Octet>) {
    if control / 64 == 1 then [8, 10, 0, 0, 0, 0, 0, 0, 0, 0, 0, 0]
    else [8, 10, 4, 0, 0xFF, 0xFF, 0, 0, 0xFF, 0xFF, 0xFF, 0xFF]
  }

  /** Why a MODE SENSE is refused: a bit set in its byte 1 beside 08h, saved values, or a page other
      than the caching page and all pages. */
  function ModeFault(c: Cmd): (r: Option<U32>)
    requires Whole(c)
  {
    if c.cb[1] != 0 && c.cb[1] != 8 then Some(0x052400)
    else if c.cb[2] >= 0xC0 then Some(0x053900)
    else if c.cb[2] % 64 != 8 && c.cb[2] % 64 != 63 then Some(0x052400)
    else None
  }

  lemma ModeSense6Seen(c: Cmd, u: Unit, d: Cmd, v: Unit, bytes: seq<Octet>)
    requires Ran(c, u, d, v, bytes) && c.cb[0] == 0x1A
    ensures Accepted(c, 6, c.cb[4])
    ensures ModeFault(c).Some? ==> Refused(c, u, d, v, bytes, ModeFault(c).value)
    ensures ModeFault(c).None? ==>
      Passed(c, u, d, v, bytes, c.cb[4], [15, 0, if u.rdonly then 0x80 else 0, 0] + Page(c.cb[2]))
  {
    PageIs(c.cb[2]);
    hide CachingPage, Page;
  }

  lemma ModeSense10Seen(c: Cmd, u: Unit, d: Cmd, v: Unit, bytes: seq<Octet>)
    requires Ran(c, u, d, v, bytes) && c.cb[0] == 0x5A
    ensures Accepted(c, 10, Wide(c))
    ensures ModeFault(c).Some? ==> Refused(c, u, d, v, bytes, ModeFault(c).value)
    ensures ModeFault(c).None? ==>
      Passed(c, u, d, v, bytes, Wide(c), [0, 18, 0, if u.rdonly then 0x80 else 0, 0, 0, 0, 0] + Page(c.cb[2]))
  {
    PageIs(c.cb[2]);
    WideIs(c);
    hide CachingPage, Page, Be16, Wide;
  }

  lemma PageIs(control: Octet)
    ensures CachingPage(control / 64 == 1) == Page(control)
  {
  }

  lemma StartStopSeen(c: Cmd, u: Unit, d: Cmd, v: Unit, bytes: seq<Octet>)
    requires Ran(c, u, d, v, bytes) && c.cb[0] == 0x1B
    ensures Accepted(c, 6, 0)
    ensures !u.removable ==> Refused(c, u, d, v, bytes, 0x052000)
    ensures u.removable && (c.cb[1] > 1 || c.cb[4] > 3) ==> Refused(c, u, d, v, bytes, 0x052400)
    ensures u.removable && c.cb[1] <= 1 && c.cb[4] <= 3 ==> Passed(c, u, d, v, bytes, 0, [])
  {
  }

  /** A block as minutes, seconds and frames, two seconds on. */
  function Minutes(blk: U32): (b: seq<Octet>)
    ensures |b| == 4
  {
    var frames := blk as nat / 4 + 150;
    [0, frames / 4500 % 256, frames % 4500 / 75, frames % 75]
  }

  lemma CdromAddrIs(msf: bool, blk: U32)
    ensures CdromAddr(msf, blk) == if msf then Minutes(blk) else Digits(blk)
  {
    if msf {
      var f := blk as nat / 4 + 150;
      var s := f / 75;
      assert f == s * 75 + f % 75 && s == s / 60 * 60 + s % 60;
      assert f == s / 60 * 4500 + (s % 60 * 75 + f % 75);
      assert f / 4500 == s / 60 && f % 4500 == s % 60 * 75 + f % 75;
    }
  }

  /** A table of contents with one track and the lead-out. */
  function Contents(msf: bool, nBlks: U32): (b: seq<Octet>) {
    [0, 18, 1, 1, 0, 0x16, 1, 0] + (if msf then Minutes(0) else Digits(0))
    + [0, 0x16, 0xAA, 0] + (if msf then Minutes(nBlks) else Digits(nBlks))
  }

  lemma TocSeen(c: Cmd, u: Unit, d: Cmd, v: Unit, bytes: seq<Octet>)
    requires Ran(c, u, d, v, bytes) && c.cb[0] == 0x43
    ensures u.rdonly && Accepted(c, 10, Wide(c))
    ensures !(c.cb[1] == 0 || c.cb[1] == 2) || c.cb[6] > 1 ==> Refused(c, u, d, v, bytes, 0x052400)
    ensures (c.cb[1] == 0 || c.cb[1] == 2) && c.cb[6] <= 1 ==>
      Passed(c, u, d, v, bytes, Wide(c), Contents(c.cb[1] == 2, u.nBlks))
  {
    TocIs(Msf(c), u.nBlks);
    WideIs(c);
    hide TocBytes, Contents, Be16, Wide;
  }

  lemma TocIs(msf: bool, nBlks: U32)
    ensures TocBytes(msf, nBlks) == Contents(msf, nBlks)
  {
    CdromAddrIs(msf, 0);
    CdromAddrIs(msf, nBlks);
    hide CdromAddr, Minutes, Digits;
  }

  lemma SynchronizeSeen(c: Cmd, u: Unit, d: Cmd, v: Unit, bytes: seq<Octet>)
    requires Ran(c, u, d, v, bytes) && c.cb[0] == 0x35
    ensures Accepted(c, 10, 0) && Passed(c, u, d, v, bytes, 0, [])
  {
  }

  lemma HeaderSeen(c: Cmd, u: Unit, d: Cmd, v: Unit, bytes: seq<Octet>, blk: U32)
    requires Ran(c, u, d, v, bytes) && c.cb[0] == 0x44 && c.cb[2..6] == Digits(blk)
    ensures (c.cb[1] == 0 || c.cb[1] == 2) && Accepted(c, 10, Wide(c))
    ensures blk >= u.nBlks ==> Refused(c, u, d, v, bytes, 0x052100)
    ensures blk < u.nBlks ==>
      Passed(c, u, d, v, bytes, Wide(c), [1, 0, 0, 0] + if c.cb[1] == 2 then Minutes(blk) else Digits(blk))
  {
    DigitsBack(c.cb, 2, blk);
    CdromAddrIs(c.cb[1] == 2, blk);
    hide CdromAddr, Minutes, Digits, Be32;
    assert Msf(c) == (c.cb[1] == 2);
    hide Msf;
  }

  lemma DigitsBack(b: seq<Octet>, p: nat, v: U32)
    requires p + 4 <= |b| && b[p..p + 4] == Digits(v)
    ensures Be32(b, p) == v
  {
    var s := b[p..p + 4];
    assert s[0] == b[p] && s[1] == b[p + 1] && s[2] == b[p + 2] && s[3] == b[p + 3];
    Parts32(v);
  }

  lemma CapacityRead(b: seq<Octet>, u: Unit)
    requires b == Digits(u.nBlks) + Digits(u.blkSize)
    ensures Be32(b, 0) == u.nBlks && Be32(b, 4) == u.blkSize
  {
    assert b[0..4] == Digits(u.nBlks) && b[4..8] == Digits(u.blkSize);
    DigitsBack(b, 0, u.nBlks);
    DigitsBack(b, 4, u.blkSize);
  }

  /** MODE SENSE(6) for the caching page or all pages, announced and asked for with 16 bytes: it
      passes with nothing left over, and the high bit of the third byte is the write protection. */
  lemma ProtectionSeen(c: Cmd, u: Unit, m: seq<Octet>, d: Cmd, v: Unit, w: seq<Octet>, cap: nat,
                       bytes: seq<Octet>, data: seq<Octet>, lost: nat)
    requires Executed(c, u, m, d, v, w, cap, bytes, data, lost) && c.sta == 0 && c.dlen == 16
    requires c.cb[0] == 0x1A && c.cb[1] == 0 && (c.cb[2] == 8 || c.cb[2] == 0x3F) && c.cb[4] == 16
    ensures d.sta == 0 && d.dlen == 0 && |bytes| == 16 && (bytes[2] >= 0x80 <==> u.rdonly) && w == m
  {
    ExecutedRan(c, u, m, d, v, w, cap, bytes, data, lost);
    hide Executed, Ran;
    ModeSense6Seen(c, u, d, v, bytes);
  }

  /** Every other command is refused as unknown. */
  lemma UnknownSeen(c: Cmd, u: Unit, d: Cmd, v: Unit, bytes: seq<Octet>)
    requires Ran(c, u, d, v, bytes)
    requires c.cb[0] !in {0x00, 0x03, 0x12, 0x1A, 0x1B, 0x1E, 0x23, 0x25, 0x35, 0x43, 0x44, 0x5A}
    ensures Refused(c, u, d, v, bytes, 0x052000)
  {
  }

  /** Which commands without blocks are carried out, and so get a status, by the block alone. */
  predicate Answerable(c: Cmd, u: Unit)
    requires Whole(c)
  {
    var op := c.cb[0];
    if op in {0x00, 0x1B, 0x1E} then c.clen >= 6
    else if op == 0x35 then c.clen >= 10
    else if op in {0x03, 0x12, 0x1A} then Accepted(c, 6, c.cb[4])
    else if op in {0x23, 0x5A} then Accepted(c, 10, Wide(c))
    else if op == 0x25 then Accepted(c, 10, 8)
    else if op == 0x43 then u.rdonly && Accepted(c, 10, Wide(c))
    else if op == 0x44 then (c.cb[1] == 0 || c.cb[1] == 2) && Accepted(c, 10, Wide(c))
    else true
  }

  lemma AnswerableExactly(c: Cmd, u: Unit)
    requires Whole(c) && c.cb[0] !in {0x08, 0x28, 0x2A}
    ensures Fixed(c, u).ret >= 0 <==> Answerable(c, u)
  {
  }

  // ---- wrappers ----

  /** What the device makes of the bytes of a wrapper: it must be 31 bytes with "USBC" in front; tag,
      length, direction and command length are taken over even from one that is then refused. */
  lemma TakeExactly(c: Cmd, b: seq<Octet>, len: nat, nLu: Octet)
    requires Whole(c) && |b| >= 31
    ensures len != 31 || b[..4] != [0x55, 0x53, 0x42, 0x43] ==> Take(c, b, len, nLu) == Got(c, -509)
    ensures len == 31 && b[..4] == [0x55, 0x53, 0x42, 0x43] ==>
      var d := c.(tag := Le32(b, 4), dlen := Le32(b, 8), dir := b[12], clen := b[14]);
      Take(c, b, len, nLu) ==
        if b[13] < nLu && (b[12] == 0 || b[12] == 0x80) && 1 <= b[14] <= 16
        then Got(d.(cb := b[15..15 + b[14]] + c.cb[b[14]..]), 0) else Got(d, -522)
  {
    assert Le32(b, 0) == 0x4342_5355 <==> b[..4] == [0x55, 0x53, 0x42, 0x43] by {
      FourDigits(b[3], b[2], b[1], b[0], Le32(b, 0));
      FourDigits(0x43, 0x42, 0x53, 0x55, 0x4342_5355);
      hide Part;
      assert b[..4] == [b[0], b[1], b[2], b[3]];
    }
    hide Le32;
  }

  /** The status on the wire: "USBS", tag and residue low byte first, and how it went. */
  lemma CswExactly(c: Cmd)
    ensures Csw(c)[..4] == [0x55, 0x53, 0x42, 0x53] && Csw(c)[12] == c.sta
    ensures Le32(Csw(c), 4) == c.tag && Le32(Csw(c), 8) == c.dlen
  {
    CswFields(c);
    FourDigits(0x53, 0x42, 0x53, 0x55, 0x5342_5355);
  }

  // ---- where a READ or a WRITE starts ----

  /** What the checks make of a command that asks for `len` bytes. */
  function Checking(c: Cmd, least: nat, len: U32, dir: Octet): (ok: bool) {
    c.clen as nat >= least && c.dlen >= len && (len > 0 ==> c.dir == dir)
  }

  /** Not carried out: a phase error is noted, and no status follows. */
  function Stopped(c: Cmd, u: Unit, len: U32): (s: Start) { No(Out(c.(cdlen := len, sta := 2), u, [], -523)) }

  function Turned(c: Cmd, u: Unit, len: U32, reason: U32, ret: int): (s: Start) {
    No(Out(c.(cdlen := len, sta := 1), Cleared(u).(sd := reason), [], ret))
  }

  /** The length of `n` blocks, in 32 bits, and the blocks in it. */
  function Bytes32(n: nat, bs: U32): (r: U32) { n * bs % 0x1_0000_0000 }

  function Blocks(len: U32, bs: U32): (r: nat) requires bs > 0 { len / bs }

  lemma LengthIs(n: nat, bs: U32)
    ensures Times(n, bs) == Bytes32(n, bs)
    ensures bs > 0 ==> forall len: U32 :: Quotient(len, bs) == Blocks(len, bs)
  {
  }

  lemma CacheIs(b: Octet)
    ensures CacheBits(b) <==> b in {0, 8, 16, 24}
  {
  }

  lemma LowBits(cb: seq<Octet>)
    requires |cb| >= 4 && cb[0] == 8
    ensures Be32(cb, 0) % 0x20_0000 == cb[1] as int % 32 * 0x1_0000 + cb[2] as int * 0x100 + cb[3] as int
  {
    var q, low := cb[1] as int / 32, cb[1] as int % 32 * 0x1_0000 + cb[2] as int * 0x100 + cb[3] as int;
    assert cb[1] as int == q * 32 + cb[1] as int % 32;
    assert Be32(cb, 0) as int == (64 + q) * 0x20_0000 + low && 0 <= low < 0x20_0000;
  }

  /** READ(6): 21 bits of block number, and a count of 0 for 256 blocks. */
  lemma Read6Exactly(c: Cmd, u: Unit, blk: U32, len: U32)
    requires Whole(c) && u.blkSize > 0 && c.cb[0] == 0x08
    requires blk == c.cb[1] as int % 32 * 0x1_0000 + c.cb[2] as int * 0x100 + c.cb[3] as int
    requires len == Bytes32(if c.cb[4] == 0 then 256 else c.cb[4], u.blkSize)
    ensures ReadStart(c, u) ==
      if !Checking(c, 6, len, 0x80) then Stopped(c, u, len)
      else if blk >= u.nBlks then Turned(c, u, len, 0x052100, 0)
      else if len == 0 then No(Out(c.(cdlen := 0), Cleared(u), [], -523))
      else Go(c.(cdlen := len), Cleared(u), blk, Blocks(len, u.blkSize))
  {
    LengthIs(if c.cb[4] == 0 then 256 else c.cb[4], u.blkSize);
    LowBits(c.cb);
    hide Times, Quotient, Bytes32, Blocks, CacheBits, Be32;
  }

  /** READ(10): a block number of 32 bits and a count of 16. */
  lemma Read10Exactly(c: Cmd, u: Unit, blk: U32, len: U32)
    requires Whole(c) && u.blkSize > 0 && c.cb[0] == 0x28 && c.cb[2..6] == Digits(blk)
    requires len == Bytes32(Wide(c), u.blkSize)
    ensures ReadStart(c, u) ==
      if !Checking(c, 10, len, 0x80) then Stopped(c, u, len)
      else if c.cb[1] !in {0, 8, 16, 24} then Turned(c, u, len, 0x052400, 0)
      else if blk >= u.nBlks then Turned(c, u, len, 0x052100, 0)
      else if len == 0 then No(Out(c.(cdlen := 0), Cleared(u), [], -523))
      else Go(c.(cdlen := len), Cleared(u), blk, Blocks(len, u.blkSize))
  {
    LengthIs(Wide(c), u.blkSize);
    DigitsBack(c.cb, 2, blk);
    WideIs(c);
    CacheIs(c.cb[1]);
    hide Times, Quotient, Bytes32, Blocks, Digits, Be32, Be16, Wide, CacheBits;
  }

  /** WRITE(10): likewise, and turned away without a status. */
  lemma Write10Exactly(c: Cmd, u: Unit, blk: U32, len: U32)
    requires Whole(c) && u.blkSize > 0 && c.cb[0] == 0x2A && c.cb[2..6] == Digits(blk)
    requires len == Bytes32(Wide(c), u.blkSize)
    ensures WriteStart(c, u) ==
      if !Checking(c, 10, len, 0) then Stopped(c, u, len)
      else if u.rdonly then Turned(c, u, len, 0x072700, -501)
      else if c.cb[1] !in {0, 8, 16, 24} then Turned(c, u, len, 0x052400, -523)
      else if blk >= u.nBlks then Turned(c, u, len, 0x052100, -523)
      else if len == 0 then No(Out(c.(cdlen := 0), Cleared(u), [], -501))
      else Go(c.(cdlen := len), Cleared(u), blk, Blocks(len, u.blkSize))
  {
    LengthIs(Wide(c), u.blkSize);
    DigitsBack(c.cb, 2, blk);
    WideIs(c);
    CacheIs(c.cb[1]);
    hide Times, Quotient, Bytes32, Blocks, Digits, Be32, Be16, Wide, CacheBits;
  }
}
