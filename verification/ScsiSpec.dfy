/** The SCSI commands of core/source/device/class/ms/usbd_ms_scsi_bbb.c: what each command block
    asks for and what it is answered with. */
module ScsiSpec {
  import opened Descriptors
  import opened ByteOrder

  const CBW_LEN: nat := 31
  const CSW_LEN: nat := 13
  const CBW_SIG: U32 := 0x43425355
  const CSW_SIG: U32 := 0x53425355
  const FLAG_IN: Octet := 0x80
  const FLAG_OUT: Octet := 0x00

  const PASS: Octet := 0
  const FAIL: Octet := 1
  const PHASE_ERROR: Octet := 2

  const REQUEST_SENSE: Octet := 0x03
  const READ_6: Octet := 0x08
  const WRITE_6: Octet := 0x0A
  const MODE_SENSE_6: Octet := 0x1A
  const READ_CAPACITY: Octet := 0x25
  const READ_10: Octet := 0x28
  const WRITE_10: Octet := 0x2A
  const MODE_SENSE_10: Octet := 0x5A

  const NO_SENSE: U32 := 0
  const WRITE_ERROR: U32 := 0x030C02
  const UNRECOVERED_READ_ERROR: U32 := 0x031100
  const COMMUNICATION_FAILURE: U32 := 0x040800
  const INVALID_COMMAND: U32 := 0x052000
  const OUT_OF_RANGE: U32 := 0x052100
  const INVALID_FIELD: U32 := 0x052400
  const SAVING_NOT_SUPPORTED: U32 := 0x053900
  const WRITE_PROTECTED: U32 := 0x072700

  const EBADF := 509
  const EWRITE := 591
  const EREAD := 592

  /** A logical unit: its geometry, its flags and the sense data of the last failure. */
  datatype Unit = Unit(blkSize: U32, nBlks: U32, rdonly: bool, removable: bool, prevented: bool,
                       sd: U32, info: U32, infoValid: bool)

  /** The command in progress. `dlen` starts as the length announced by the host and ends as the
      residue; `cdlen` is the length the command itself asks for. */
  datatype Cmd = Cmd(tag: U32, dlen: U32, cdlen: U32, cb: seq<Octet>, dir: Octet, clen: Octet, sta: Octet)

  predicate Whole(c: Cmd) { |c.cb| == 16 }

  // ---- the command block wrapper ----

  datatype Got = Got(cmd: Cmd, ret: int)

  /** `__ms_scsi_bbb_cmd_get`, up to the search for the unit. The command block keeps the bytes
      of the previous command beyond the length given. */
  function Take(c: Cmd, b: seq<Octet>, len: nat, nLu: Octet): (r: Got)
    requires Whole(c) && |b| >= CBW_LEN
  {
    if len != CBW_LEN || Le32(b, 0) != CBW_SIG then Got(c, -EBADF)
    else
      var d := c.(tag := Le32(b, 4), dlen := Le32(b, 8), dir := b[12], clen := b[14]);
      if b[13] >= nLu || b[12] % 128 != 0 || b[14] < 1 || b[14] > 16 then Got(d, -EINVAL)
      else Got(d.(cb := b[15..15 + b[14]] + c.cb[b[14]..]), 0)
  }

  // ---- the checks every command makes ----

  datatype Checked = Checked(cmd: Cmd, unit: Unit, ok: bool)

  /** `__cmd_check`, for a selected unit. */
  function Check(c: Cmd, u: Unit, clen: Octet, cdlen: U32, dir: Octet): (r: Checked)
    requires Whole(c)
  {
    var d := c.(cdlen := cdlen);
    if c.dlen < cdlen || (cdlen != 0 && c.dir != dir) || c.clen < clen then Checked(d.(sta := PHASE_ERROR), u, false)
    else if c.cb[0] != REQUEST_SENSE then Checked(d, u.(sd := NO_SENSE, info := 0, infoValid := false), true)
    else Checked(d, u, true)
  }

  // ---- commands with a reply of fixed form ----

  /** The state after the handler, the bytes it put at the start of the buffer, its result. */
  datatype Out = Out(cmd: Cmd, unit: Unit, reply: seq<Octet>, ret: int)

  predicate SameUnit(u: Unit, v: Unit) {
    v.blkSize == u.blkSize && v.nBlks == u.nBlks && v.rdonly == u.rdonly && v.removable == u.removable
  }

  /** What a handler may do to the command: set the requested length and the status. A handler
      that goes through leaves PASS or FAIL and asks for no more than the host announced. */
  predicate Handled(c: Cmd, d: Cmd, ret: int) {
    && d == c.(cdlen := d.cdlen, sta := d.sta)
    && (ret >= 0 ==> (d.sta == c.sta || d.sta == FAIL) && d.cdlen <= d.dlen)
  }

  /** What every command without blocks does: it leaves the geometry of the unit alone, fills at
      most 36 bytes of the buffer, replies only in the direction the host announced, and forgets
      the previous failure unless it fails itself. */
  predicate Proper(c: Cmd, u: Unit, o: Out) requires Whole(c) {
    && Handled(c, o.cmd, o.ret) && SameUnit(u, o.unit) && |o.reply| <= 36
    && (o.ret >= 0 ==> o.ret == |o.reply|)
    && (o.ret > 0 ==> o.cmd.sta == c.sta && (o.cmd.cdlen != 0 ==> c.dir == FLAG_IN))
    && (c.cb[0] != REQUEST_SENSE && o.ret >= 0 && o.cmd.sta != FAIL ==>
          o.unit.sd == NO_SENSE && o.unit.info == 0 && !o.unit.infoValid)
  }

  function Answer(k: Checked, reply: seq<Octet>): (r: Out) { Out(k.cmd, k.unit, reply, |reply|) }

  function Refuse(k: Checked, sd: U32): (r: Out) { Out(k.cmd.(sta := FAIL), k.unit.(sd := sd), [], 0) }

  function Illegal(k: Checked): (r: Out) { Out(k.cmd, k.unit, [], -EILLEGAL) }

  function UnitReadyOut(c: Cmd, u: Unit): (o: Out)
    requires Whole(c)
    ensures Proper(c, u, o)
  {
    hide Be16, Be32, Part;
    var k := Check(c, u, 6, 0, FLAG_OUT);
    if !k.ok then Illegal(k) else Answer(k, [])
  }

  /** Fixed-format sense data: key, qualifiers and, when valid, the block concerned. */
  function SenseBytes(u: Unit): (b: seq<Octet>)
    ensures |b| == 18
  {
    [(if u.infoValid then 0x80 else 0) + 0x70, 0, Part(u.sd, 2)] + Be32Bytes(u.info)
    + [10, 0, 0, 0, 0, Part(u.sd, 1), Part(u.sd, 0), 0, 0, 0, 0]
  }

  function RequestSenseOut(c: Cmd, u: Unit): (o: Out)
    requires Whole(c)
    ensures Proper(c, u, o)
  {
    hide Be16, Be32, Part;
    var k := Check(c, u, 6, c.cb[4], FLAG_IN);
    if !k.ok then Illegal(k)
    else Answer(k.(unit := k.unit.(sd := NO_SENSE, info := 0, infoValid := false)), SenseBytes(k.unit))
  }

  function InquiryOut(c: Cmd, u: Unit): (o: Out)
    requires Whole(c)
    ensures Proper(c, u, o)
  {
    hide Be16, Be32, Part;
    var k := Check(c, u, 6, c.cb[4], FLAG_IN);
    if !k.ok then Illegal(k)
    else Answer(k, [if u.rdonly then 5 else 0, if u.removable then 0x80 else 0, 0, 1, 31, 0, 0, 0] + seq(28, _ => 0))
  }

  /** The byte 2 at offset 8 replaces the top byte of the block size. */
  function FormatCapacitiesOut(c: Cmd, u: Unit): (o: Out)
    requires Whole(c)
    ensures Proper(c, u, o)
  {
    hide Be16, Be32, Part;
    var k := Check(c, u, 10, Be16(c.cb, 7), FLAG_IN);
    if !k.ok then Illegal(k) else Answer(k, [0, 0, 0, 8] + Be32Bytes(u.nBlks) + Be32Bytes(u.blkSize)[0 := 2])
  }

  function CapacityOut(c: Cmd, u: Unit): (o: Out)
    requires Whole(c)
    ensures Proper(c, u, o)
  {
    hide Be16, Be32, Part;
    var k := Check(c, u, 10, 8, FLAG_IN);
    if !k.ok then Illegal(k)
    else if c.cb[8] > 1 || (c.cb[8] == 0 && Be32(c.cb, 2) != 0) then Refuse(k, INVALID_FIELD)
    else Answer(k, Be32Bytes(u.nBlks) + Be32Bytes(u.blkSize))
  }

  function PreventAllowOut(c: Cmd, u: Unit): (o: Out)
    requires Whole(c)
    ensures Proper(c, u, o)
  {
    hide Be16, Be32, Part;
    var k := Check(c, u, 6, 0, FLAG_OUT);
    if !k.ok then Illegal(k)
    else if !u.removable then Refuse(k, INVALID_COMMAND)
    else if c.cb[4] / 2 != 0 then Refuse(k, INVALID_FIELD)
    else Answer(k.(unit := k.unit.(prevented := c.cb[4] % 2 == 1)), [])
  }

  /** The caching page, the only one there is; all zero when changeable values are asked for. */
  function CachingPage(changeable: bool): (b: seq<Octet>)
    ensures |b| == 12
  {
    if changeable then [8, 10, 0, 0, 0, 0, 0, 0, 0, 0, 0, 0]
    else [8, 10, 4, 0, 0xFF, 0xFF, 0, 0, 0xFF, 0xFF, 0xFF, 0xFF]
  }

  function ModeHead(short: bool, rdonly: bool): (b: seq<Octet>)
    ensures |b| == if short then 4 else 8
  {
    var wp: Octet := if rdonly then 0x80 else 0;
    if short then [15, 0, wp, 0] else [0, 18, 0, wp, 0, 0, 0, 0]
  }

  function ModeSense(k: Checked): (r: Out) requires Whole(k.cmd) {
    var c := k.cmd;
    var pc, page := c.cb[2] / 64, c.cb[2] % 64;
    if c.cb[1] / 16 != 0 || c.cb[1] % 8 != 0 then Refuse(k, INVALID_FIELD)
    else if pc == 3 then Refuse(k, SAVING_NOT_SUPPORTED)
    else if page != 8 && page != 0x3F then Refuse(k, INVALID_FIELD)
    else Answer(k, ModeHead(c.cb[0] == MODE_SENSE_6, k.unit.rdonly) + CachingPage(pc == 1))
  }

  function ModeSenseOut(c: Cmd, u: Unit): (o: Out)
    requires Whole(c)
    ensures Proper(c, u, o)
  {
    hide Be16, Be32, Part;
    var k := if c.cb[0] == MODE_SENSE_6 then Check(c, u, 6, c.cb[4], FLAG_IN)
             else Check(c, u, 10, Be16(c.cb, 7), FLAG_IN);
    if !k.ok then Illegal(k) else ModeSense(k)
  }

  function StartStopOut(c: Cmd, u: Unit): (o: Out)
    requires Whole(c)
    ensures Proper(c, u, o)
  {
    hide Be16, Be32, Part;
    var k := Check(c, u, 6, 0, FLAG_OUT);
    if !k.ok then Illegal(k)
    else if !u.removable then Refuse(k, INVALID_COMMAND)
    else if c.cb[1] / 2 != 0 || c.cb[4] / 4 != 0 then Refuse(k, INVALID_FIELD)
    else Answer(k, [])
  }

  /** A CD-ROM address: minutes, seconds and frames of 2048 bytes, or the block number. */
  function CdromAddr(msf: bool, addr: U32): (b: seq<Octet>)
    ensures |b| == 4
  {
    if msf then
      var f := addr as int / 4 + 150;
      [0, f / 75 / 60 % 256, f / 75 % 60, f % 75]
    else Be32Bytes(addr)
  }

  function Msf(c: Cmd): (r: bool) requires Whole(c) { c.cb[1] / 2 % 2 == 1 }

  function TocBytes(msf: bool, nBlks: U32): (b: seq<Octet>)
    ensures |b| == 20
  {
    [0, 18, 1, 1, 0, 0x16, 1, 0] + CdromAddr(msf, 0) + [0, 0x16, 0xAA, 0] + CdromAddr(msf, nBlks)
  }

  function TocOut(c: Cmd, u: Unit): (o: Out)
    requires Whole(c)
    ensures Proper(c, u, o)
  {
    hide Be16, Be32, Part;
    if !u.rdonly then Out(c, u, [], -EILLEGAL)
    else
      var k := Check(c, u, 10, Be16(c.cb, 7), FLAG_IN);
      if !k.ok then Illegal(k)
      else if (c.cb[1] != 0 && c.cb[1] != 2) || c.cb[6] > 1 then Refuse(k, INVALID_FIELD)
      else Answer(k, TocBytes(Msf(c), u.nBlks))
  }

  function SynchronizeOut(c: Cmd, u: Unit): (o: Out)
    requires Whole(c)
    ensures Proper(c, u, o)
  {
    hide Be16, Be32, Part;
    var k := Check(c, u, 10, 0, FLAG_OUT);
    if !k.ok then Illegal(k) else Answer(k, [])
  }

  function HeaderOut(c: Cmd, u: Unit): (o: Out)
    requires Whole(c)
    ensures Proper(c, u, o)
  {
    hide Be16, Be32, Part;
    var k := Check(c, u, 10, Be16(c.cb, 7), FLAG_IN);
    if !k.ok then Illegal(k)
    else if c.cb[1] != 0 && c.cb[1] != 2 then Illegal(k.(unit := k.unit.(sd := INVALID_FIELD)))
    else if Be32(c.cb, 2) >= u.nBlks then Refuse(k, OUT_OF_RANGE)
    else Answer(k, [1, 0, 0, 0] + CdromAddr(Msf(c), Be32(c.cb, 2)))
  }

  function UnknownOut(c: Cmd, u: Unit): (o: Out)
    requires Whole(c)
    ensures Proper(c, u, o)
  {
    hide Be16, Be32, Part;
    var k := Check(c, u, c.clen, 0, FLAG_OUT);
    if !k.ok then Illegal(k) else Refuse(k, INVALID_COMMAND)
  }

  /** A product in 32 bits. */
  function Times(n: nat, bs: U32): (r: U32) { Wrap32(n * bs) }

  function Quotient(x: nat, bs: nat): (r: nat)
    requires bs > 0
  {
    x / bs
  }

  predicate MovesBlocks(op: Octet) { op == READ_6 || op == READ_10 || op == WRITE_10 }

  /** The handler table, for the commands that move no blocks. */
  function Fixed(c: Cmd, u: Unit): (o: Out)
    requires Whole(c)
    ensures Proper(c, u, o)
  {
    match c.cb[0]
    case 0x00 => UnitReadyOut(c, u)  // TEST UNIT READY
    case 0x03 => RequestSenseOut(c, u)  // REQUEST SENSE
    case 0x12 => InquiryOut(c, u)  // INQUIRY
    case 0x23 => FormatCapacitiesOut(c, u)  // READ FORMAT CAPACITIES
    case 0x25 => CapacityOut(c, u)  // READ CAPACITY
    case 0x1E => PreventAllowOut(c, u)  // PREVENT ALLOW
    case 0x1A => ModeSenseOut(c, u)  // MODE SENSE 6
    case 0x5A => ModeSenseOut(c, u)  // MODE SENSE 10
    case 0x1B => StartStopOut(c, u)  // START STOP UNIT
    case 0x43 => TocOut(c, u)  // READ TOC
    case 0x35 => SynchronizeOut(c, u)  // SYNCHRONIZE CACHE
    case 0x44 => HeaderOut(c, u)  // READ HEADER
    case _ => UnknownOut(c, u)
  }

  // ---- READ and WRITE: where they start ----

  datatype Start = No(out: Out) | Go(cmd: Cmd, unit: Unit, lba: nat, n: nat)

  function Count(c: Cmd): (r: nat) requires Whole(c) {
    if c.cb[0] == READ_6 then (if c.cb[4] != 0 then c.cb[4] as nat else 256) else Be16(c.cb, 7) as nat
  }

  function Lba(c: Cmd): (r: U32) requires Whole(c) {
    if c.cb[0] == READ_6 || c.cb[0] == WRITE_6 then Be32(c.cb, 0) % 0x20_0000 else Be32(c.cb, 2)
  }

  /** Only the two caching bits may be set. */
  predicate CacheBits(b: Octet) { b / 32 == 0 && b % 8 == 0 }

  /** A READ or WRITE that does not start leaves the command as any handler does, with no reply
      and, if it is to be reported at all, as failed; one that starts does so inside the unit,
      with sense data cleared, for the whole blocks of a length the host has announced. */
  predicate StartOk(c: Cmd, u: Unit, s: Start)
    requires u.blkSize > 0
  {
    match s
    case No(o) => Handled(c, o.cmd, o.ret) && SameUnit(u, o.unit) && o.ret <= 0 && o.reply == [] &&
      (o.ret == 0 ==> o.cmd.sta == FAIL)
    case Go(d, v, lba, n) =>
      && d == c.(cdlen := d.cdlen) && d.cdlen <= d.dlen && SameUnit(u, v)
      && lba < u.nBlks && n == Quotient(d.cdlen, u.blkSize)
  }

  /** What a READ does once the checks are passed. */
  function ReadGo(k: Checked): (r: Start)
    requires Whole(k.cmd) && k.unit.blkSize > 0
  {
    var c := k.cmd;
    if c.cb[0] != READ_6 && !CacheBits(c.cb[1]) then No(Refuse(k, INVALID_FIELD))
    else if Lba(c) >= k.unit.nBlks then No(Refuse(k, OUT_OF_RANGE))
    else if c.cdlen == 0 then No(Illegal(k))
    else Go(c, k.unit, Lba(c), Quotient(c.cdlen, k.unit.blkSize))
  }

  function ReadStart(c: Cmd, u: Unit): (s: Start)
    requires Whole(c) && u.blkSize > 0
    ensures StartOk(c, u, s)
  {
    hide Be16, Be32, Count, Lba, Times, Quotient, CacheBits;
    var k := Check(c, u, if c.cb[0] == READ_6 then 6 else 10, Times(Count(c), u.blkSize), FLAG_IN);
    if !k.ok then No(Illegal(k)) else ReadGo(k)
  }

  function RefuseWrite(k: Checked, sd: U32, ret: int): (r: Out) { Out(k.cmd.(sta := FAIL), k.unit.(sd := sd), [], ret) }

  function WriteGo(k: Checked): (r: Start)
    requires Whole(k.cmd) && k.unit.blkSize > 0
  {
    var c := k.cmd;
    if k.unit.rdonly then No(RefuseWrite(k, WRITE_PROTECTED, -EPERM))
    else if c.cb[0] != WRITE_6 && !CacheBits(c.cb[1]) then No(RefuseWrite(k, INVALID_FIELD, -EILLEGAL))
    else if Lba(c) >= k.unit.nBlks then No(RefuseWrite(k, OUT_OF_RANGE, -EILLEGAL))
    else if c.cdlen == 0 then No(Out(c, k.unit, [], -EPERM))
    else Go(c, k.unit, Lba(c), Quotient(c.cdlen, k.unit.blkSize))
  }

  function WriteStart(c: Cmd, u: Unit): (s: Start)
    requires Whole(c) && u.blkSize > 0
    ensures StartOk(c, u, s) && (s.No? ==> s.out.ret < 0)
  {
    hide Be16, Be32, Count, Lba, Times, Quotient, CacheBits;
    var k := Check(c, u, 10, Times(Be16(c.cb, 7), u.blkSize), FLAG_OUT);
    if !k.ok then No(Illegal(k)) else WriteGo(k)
  }

  lemma BigMultiple(d: int, bs: int)
    requires bs > 0 && d != 0
    ensures d * bs >= bs || d * bs <= -bs
  {
    if d > 0 { assert d * bs >= bs; } else { assert d * bs <= -bs; }
  }

  lemma DivUnique(x: nat, bs: int, q: int, r: int)
    requires bs > 0 && x == q * bs + r && 0 <= r < bs
    ensures x / bs == q && x % bs == r
  {
    var a, b := x / bs, x % bs;
    assert x == a * bs + b && 0 <= b < bs;
    assert (a - q) * bs == r - b by { assert (a - q) * bs == a * bs - q * bs; }
    if a != q { BigMultiple(a - q, bs); }
  }

  lemma AddMod(x: nat, bs: int)
    requires bs > 0
    ensures (x + bs) % bs == x % bs
  {
    DivUnique(x + bs, bs, x / bs + 1, x % bs);
  }

  /** A whole number of blocks that fits 32 bits is counted back exactly. */
  lemma WholeBlocks(n: nat, bs: U32)
    requires bs > 0 && n * bs < 0x1_0000_0000
    ensures Times(n, bs) == n * bs && Quotient(n * bs, bs) == n
  {
    DivUnique(n * bs, bs, n, 0);
  }

  // ---- the command status wrapper ----

  function Csw(c: Cmd): (b: seq<Octet>)
    ensures |b| == CSW_LEN
  {
    Le32Bytes(CSW_SIG) + Le32Bytes(c.tag) + Le32Bytes(c.dlen) + [c.sta]
  }

  lemma CswFields(c: Cmd)
    ensures Le32(Csw(c), 0) == CSW_SIG && Le32(Csw(c), 4) == c.tag && Le32(Csw(c), 8) == c.dlen && Csw(c)[12] == c.sta
  {
    hide Part;
    Parts32(CSW_SIG);
    Parts32(c.tag);
    Parts32(c.dlen);
  }

  // ---- sense data across commands ----

  /** A failure recorded by one command is what the next REQUEST SENSE reports: key, qualifiers
      and, when valid, the block; asking once more reports that nothing is wrong. */
  lemma SenseReported(c: Cmd, u: Unit)
    requires Whole(c) && c.cb[0] == REQUEST_SENSE && c.dlen >= c.cb[4] && c.dir == FLAG_IN && c.clen >= 6
    ensures var o := Fixed(c, u); var b := o.reply;
      && o.ret == 18 && o.cmd.sta == c.sta
      && b[2] == Part(u.sd, 2) && b[12] == Part(u.sd, 1) && b[13] == Part(u.sd, 0)
      && Be32(b, 3) == u.info && (b[0] == 0xF0 <==> u.infoValid)
    ensures var again := Fixed(c, Fixed(c, u).unit).reply;
      again[0] == 0x70 && again[2] == 0 && again[12] == 0 && again[13] == 0 && Be32(again, 3) == 0
  {
    hide Part;
    SenseFields(u);
    SenseFields(Fixed(c, u).unit);
    ZeroParts();
  }

  lemma ZeroParts()
    ensures Part(0, 0) == 0 && Part(0, 1) == 0 && Part(0, 2) == 0
  {
  }

  lemma SenseFields(u: Unit)
    ensures var b := SenseBytes(u);
      && b[0] == (if u.infoValid then 0xF0 else 0x70) && Be32(b, 3) == u.info
      && b[2] == Part(u.sd, 2) && b[12] == Part(u.sd, 1) && b[13] == Part(u.sd, 0)
  {
    hide Part;
    Parts32(u.info);
  }
}
