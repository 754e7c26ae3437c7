/** The host's side of the mass storage protocol, and what the two sides do together:
    core/source/host/class/ms/usbh_ms_scsi_drv.c and usbh_ms_drv.c. */
module ScsiHost {
  import opened Descriptors
  import opened ByteOrder
  import opened ScsiSpec
  import opened ScsiBus
  import opened ScsiDevice
  import opened ScsiReplies

  // ---- command blocks ----

  /** READ(10) and WRITE(10): the block number in full, the count in its low sixteen bits. */
  function Cdb(op: Octet, blk: U32, n: U32): (b: seq<Octet>)
    ensures |b| == 10
  {
    [op, 0] + Be32Bytes(blk) + [0, Part(n, 1), Part(n, 0), 0]
  }

  /** The wrapper: signature, tag, length, direction, unit, and the block padded to 16 bytes. */
  function Cbw(tag: U32, dlen: U32, dir: Octet, lun: Octet, cmd: seq<Octet>): (b: seq<Octet>)
    requires 1 <= |cmd| <= 16
    ensures |b| == CBW_LEN
  {
    Le32Bytes(CBW_SIG) + Le32Bytes(tag) + Le32Bytes(dlen) + [dir, lun % 16, |cmd|] + cmd + seq(16 - |cmd|, _ => 0)
  }

  /** The body shared by `__read10` and `__write10`. */
  method CdbFill(op: Octet, blk: U32, n: U32) returns (cmd: array<Octet>)
    ensures fresh(cmd) && cmd.Length == 10 && cmd[..] == Cdb(op, blk, n)
  {
    hide Part;
    cmd := new Octet[10](_ => 0);
    Fill(cmd, 0, 10, 0);
    cmd[0] := op;
    cmd[2], cmd[3], cmd[4], cmd[5] := Part(blk, 3), Part(blk, 2), Part(blk, 1), Part(blk, 0);
    cmd[7], cmd[8] := Part(n, 1), Part(n, 0);
  }

  /** The part of `__ms_bulk_transport` that fills the command block wrapper. */
  method CbwFill(cbw: array<Octet>, tag: U32, dlen: U32, dir: Octet, lun: Octet, cmd: array<Octet>)
    requires cbw.Length == CBW_LEN && 1 <= cmd.Length <= 16 && cbw != cmd
    modifies cbw
    ensures cbw[..] == Cbw(tag, dlen, dir, lun, cmd[..])
  {
    hide Part;
    Le32Store(CBW_SIG, cbw, 0);
    Le32Store(tag, cbw, 4);
    Le32Store(dlen, cbw, 8);
    cbw[12], cbw[13], cbw[14] := dir, lun % 16, cmd.Length;
    Fill(cbw, 15, 16, 0);
    forall k | 0 <= k < cmd.Length { cbw[15 + k] := cmd[k]; }
  }

  // ---- the device reads what the host wrote ----

  /** Every wrapper the host builds for an existing unit is taken, field by field. */
  lemma WrapperTaken(c: Cmd, tag: U32, dlen: U32, dir: Octet, lun: Octet, cmd: seq<Octet>, nLu: Octet)
    requires Whole(c) && 1 <= |cmd| <= 16 && (dir == FLAG_IN || dir == FLAG_OUT) && lun < 16 && lun < nLu
    ensures Take(c, Cbw(tag, dlen, dir, lun, cmd), CBW_LEN, nLu) ==
      Got(c.(tag := tag, dlen := dlen, dir := dir, clen := |cmd|, cb := cmd + c.cb[|cmd|..]), 0)
  {
    hide Part;
    var b := Cbw(tag, dlen, dir, lun, cmd);
    Parts32(CBW_SIG);
    Parts32(tag);
    Parts32(dlen);
    assert b[15..15 + |cmd|] == cmd;
  }

  /** The wrapper on the wire: "USBC", tag and length low byte first, direction, unit, length of the
      command, and the command padded with zeros. */
  lemma CbwExactly(tag: U32, dlen: U32, dir: Octet, lun: Octet, cmd: seq<Octet>)
    requires 1 <= |cmd| <= 16 && lun < 16
    ensures var b := Cbw(tag, dlen, dir, lun, cmd);
      && b[..4] == [0x55, 0x53, 0x42, 0x43] && Le32(b, 4) == tag && Le32(b, 8) == dlen
      && b[12] == dir && b[13] == lun && b[14] as nat == |cmd| && b[15..15 + |cmd|] == cmd
      && forall k | 15 + |cmd| <= k < 31 :: b[k] == 0
  {
    var b := Cbw(tag, dlen, dir, lun, cmd);
    FourDigits(0x43, 0x42, 0x53, 0x55, 0x4342_5355);
    Parts32(tag);
    Parts32(dlen);
    hide Part;
    assert b[..4] == [b[0], b[1], b[2], b[3]];
    assert b[15..15 + |cmd|] == cmd;
  }

  /** READ(10) and WRITE(10) on the wire: block and count high byte first, the count cut to sixteen
      bits. */
  lemma CdbExactly(op: Octet, blk: U32, n: U32)
    ensures Cdb(op, blk, n) == [op, 0] + Digits(blk) + [0, n / 0x100 % 0x100, n % 0x100, 0]
  {
  }

  lemma CdbFields(op: Octet, blk: U32, n: U32, tail: seq<Octet>)
    ensures var cb := Cdb(op, blk, n) + tail;
      cb[0] == op && cb[1] == 0 && Be32(cb, 2) == blk && Be16(cb, 7) as int == n as int % 0x1_0000
  {
    hide Part;
    Parts32(blk);
    LowHalf(n);
  }

  lemma LowHalf(n: U32)
    ensures Part(n, 1) as int * 0x100 + Part(n, 0) as int == n as int % 0x1_0000
  {
    var x := n as int;
    var h, l := x / 0x1_0000, x % 0x1_0000;
    var k := l / 0x100;
    assert x == (h * 0x100 + k) * 0x100 + l % 0x100;
    assert x / 0x100 == h * 0x100 + k && 0 <= k < 0x100;
  }

  /** The command as the device has it after taking a block command of the host. */
  ghost predicate FromHost(c: Cmd, op: Octet, blk: U32, n: U32, bs: U32) {
    && Whole(c) && c.cb[..10] == Cdb(op, blk, n) && c.clen == 10 && c.sta == PASS
    && c.dlen == Times(n, bs) && c.dir == if op == WRITE_10 then FLAG_OUT else FLAG_IN
  }

  lemma FieldsFromHost(c: Cmd, op: Octet, blk: U32, n: U32, bs: U32)
    requires FromHost(c, op, blk, n, bs)
    ensures c.cb[0] == op && c.cb[1] == 0 && Be32(c.cb, 2) == blk && Be16(c.cb, 7) as int == n as int % 0x1_0000
  {
    hide Be32, Be16, Cdb;
    assert c.cb == c.cb[..10] + c.cb[10..];
    CdbFields(op, blk, n, c.cb[10..]);
  }

  /** A count that fits sixteen bits and a length that fits 32. */
  predicate Fits(n: nat, bs: U32) { n < 0x1_0000 && n * bs < 0x1_0000_0000 }

  lemma WrappedSmaller(n: nat, bs: U32)
    requires bs > 0
    ensures Quotient(Times(n, bs), bs) <= n && (n * bs >= 0x1_0000_0000 ==> Quotient(Times(n, bs), bs) < n)
  {
    var x: nat, q := n * bs, Quotient(Times(n, bs), bs);
    assert Times(n, bs) <= x && (x >= 0x1_0000_0000 ==> Times(n, bs) < x);
    OffQuotient(q, bs, Times(n, bs));
    assert q * bs <= x;
    if q >= n { OffMono(n, q, bs); }
    if q >= n + 1 {
      OffMono(n + 1, q, bs);
      OffAdd(n, 1, bs);
    }
  }

  /** The count that comes out of the low half of `n` and the wrapped length is `n` exactly when
      nothing was lost on the way. */
  lemma CountedBack(n: U32, bs: U32)
    requires bs > 0 && n > 0
    ensures var k := n as int % 0x1_0000;
      && (Quotient(Times(k, bs), bs) == n as nat <==> Fits(n, bs))
      && (Fits(n, bs) ==> Times(k, bs) == Times(n, bs) && Times(n, bs) as nat == Off(n, bs) > 0)
  {
    var k := n as int % 0x1_0000;
    WrappedSmaller(k, bs);
    if Fits(n, bs) {
      WholeBlocks(n, bs);
      OffMono(1, n, bs);
      OffAdd(0, 1, bs);
    }
  }

  /** The start the device finds for a READ of the host. */
  ghost predicate StartsAt(s: Start, blk: U32, n: U32) { s.Go? && s.lba == blk as nat && s.n == n as nat }

  /** A READ of the host is carried out for the same blocks exactly when the count fits sixteen
      bits and the length 32. */
  lemma ReadDecoded(c: Cmd, u: Unit, blk: U32, n: U32)
    requires u.blkSize > 0 && FromHost(c, READ_10, blk, n, u.blkSize) && n > 0 && blk < u.nBlks
    ensures StartsAt(ReadStart(c, u), blk, n) <==> Fits(n, u.blkSize)
    ensures Fits(n, u.blkSize) ==>
      ReadStart(c, u).cmd.cdlen == c.dlen && c.dlen as nat == Off(n, u.blkSize) && SameUnit(u, ReadStart(c, u).unit)
  {
    hide Be32, Be16, Times, Quotient, Cdb, Fits, Off;
    FieldsFromHost(c, READ_10, blk, n, u.blkSize);
    CountedBack(n, u.blkSize);
  }

  /** ... and likewise for a WRITE to a unit that is not read-only. */
  lemma WriteDecoded(c: Cmd, u: Unit, blk: U32, n: U32)
    requires u.blkSize > 0 && FromHost(c, WRITE_10, blk, n, u.blkSize) && n > 0 && blk < u.nBlks && !u.rdonly
    ensures StartsAt(WriteStart(c, u), blk, n) <==> Fits(n, u.blkSize)
    ensures Fits(n, u.blkSize) ==>
      WriteStart(c, u).cmd.cdlen == c.dlen && c.dlen as nat == Off(n, u.blkSize) && SameUnit(u, WriteStart(c, u).unit)
  {
    hide Be32, Be16, Times, Quotient, Cdb, Fits, Off;
    FieldsFromHost(c, WRITE_10, blk, n, u.blkSize);
    CountedBack(n, u.blkSize);
  }

  /** A READ of the host inside the unit is refused without a status exactly when it asks for no
      blocks, although there is nothing wrong with that. */
  lemma EmptyRead(c: Cmd, u: Unit, blk: U32, n: U32)
    requires u.blkSize > 0 && FromHost(c, READ_10, blk, n, u.blkSize) && blk < u.nBlks && Fits(n, u.blkSize)
    ensures ReadStart(c, u).No? && ReadStart(c, u).out.ret == -EILLEGAL <==> n == 0
  {
    if n > 0 {
      ReadDecoded(c, u, blk, n);
    } else {
      hide Be32, Be16, Quotient, Cdb;
      FieldsFromHost(c, READ_10, blk, 0, u.blkSize);
    }
  }

  // ---- end to end ----

  /** Every stretch of blocks apart from `blk .. blk + n` is the same on both media. */
  ghost predicate SameElsewhere(m: seq<Octet>, w: seq<Octet>, bs: nat, blk: nat, n: nat) {
    |m| == |w| && forall a: nat, k: nat | Off(a + k, bs) <= |m| && (a + k <= blk || blk + n <= a) ::
      Span(w, bs, a, k) == Span(m, bs, a, k)
  }

  /** The bytes from a block to the end of the medium. */
  function Tail(m: seq<Octet>, bs: nat, blk: nat): (r: seq<Octet>) { if Off(blk,
                bs) <= |m| then m[Off(blk, bs)..] else [] }

  /** A write the host asks for and a read of the same blocks after it, both passed: the unit
      holds the data in exactly those blocks, every other block is as before, and the data
      comes back. */
  lemma WriteThenRead(c: Cmd, u: Unit, m: seq<Octet>, d: Cmd, v: Unit, w: seq<Octet>, data: seq<Octet>,
                      c': Cmd, d': Cmd, v': Unit, cap: nat, bytes: seq<Octet>, lost: nat, blk: U32, n: U32)
    requires u.blkSize > 0 && |m| == Off(u.nBlks, u.blkSize) && 0 < n && Fits(n, u.blkSize) && blk < u.nBlks
    requires FromHost(c, WRITE_10, blk, n, u.blkSize) && FromHost(c', READ_10, blk, n, u.blkSize)
    requires Executed(c, u, m, d, v, w, cap, [], data, 0) && Executed(c', v, w, d', v', w, cap, bytes, [], lost)
    requires d'.sta == PASS
    ensures d.sta == PASS && d.dlen == 0 && d'.dlen == 0 && |data| == Off(n, u.blkSize) && blk + n <= u.nBlks
    ensures bytes == data && SameElsewhere(m, w, u.blkSize, blk, n)
  {
    hide Be32, Be16, Times, Quotient, Cdb, Fixed, ReadStart, WriteStart, Off, Span, Put, Fits;
    FieldsFromHost(c, WRITE_10, blk, n, u.blkSize);
    FieldsFromHost(c', READ_10, blk, n, u.blkSize);
    var s := WriteStart(c, u);
    assert WriteEnd(s.cmd, s.unit, m, s.lba, s.n, d, v, w, 0, data);
    NotReadOnly(c, u);
    WriteDecoded(c, u, blk, n);
    ReadDecoded(c', v, blk, n);
    var s' := ReadStart(c', v);
    var done, got :| ReadEnd(s'.cmd, s'.unit, w, s'.lba, s'.n, cap, d', v', 0, bytes, done, got);
    OffMono(blk + n, u.nBlks, u.blkSize);
    PutGet(m, u.blkSize, blk, n, data);
  }

  lemma NotReadOnly(c: Cmd, u: Unit)
    requires Whole(c) && u.blkSize > 0 && WriteStart(c, u).Go?
    ensures !u.rdonly
  {
    hide Be32, Be16, Times, Quotient;
  }

  lemma RunOffEnd(c: Cmd, u: Unit, m: seq<Octet>, d: Cmd, v: Unit, cap: nat, bytes: seq<Octet>, lost: nat, blk: U32,
                  n: U32)
    requires u.blkSize > 0 && |m| == Off(u.nBlks, u.blkSize) && 0 < n && Fits(n, u.blkSize) && blk < u.nBlks
    requires FromHost(c, READ_10, blk, n, u.blkSize) && cap > 0
    requires Executed(c, u, m, d, v, m, cap, bytes, [], lost) && d.sta == FAIL && v.sd == OUT_OF_RANGE
    ensures blk + n > u.nBlks && bytes == Tail(m, u.blkSize, blk) && v.info == u.nBlks && v.infoValid
  {
    hide Be32, Be16, Times, Quotient, Cdb, Fixed, ReadStart, WriteStart, Fits;
    FieldsFromHost(c, READ_10, blk, n, u.blkSize);
    ReadDecoded(c, u, blk, n);
    hide Off;
    var s := ReadStart(c, u);
    var done, got :| ReadEnd(s.cmd, s.unit, m, s.lba, s.n, cap, d, v, 0, bytes, done, got);
    OffMono(blk, u.nBlks, u.blkSize);
  }

  /** The sense data of a block out of range: key 5, additional code 21h, and the block. */
  function MissingBlock(blk: U32): (b: seq<Octet>)
    ensures |b| == 18
  {
    [0xF0, 0, 5] + Digits(blk) + [10, 0, 0, 0, 0, 0x21, 0, 0, 0, 0, 0]
  }

  /** A READ that runs off the end sends exactly the blocks up to the end, and the REQUEST SENSE
      that follows sends what names the first missing block, as far as it was asked for. */
  lemma RunOffReported(c: Cmd, u: Unit, m: seq<Octet>, d: Cmd, v: Unit, cap: nat, bytes: seq<Octet>, lost: nat,
                       blk: U32, n: U32, q: Cmd, d': Cmd, v': Unit, w: seq<Octet>, sense: seq<Octet>,
                       data: seq<Octet>, lost': nat)
    requires u.blkSize > 0 && |m| == Off(u.nBlks, u.blkSize) && 0 < n && Fits(n, u.blkSize) && blk < u.nBlks
    requires FromHost(c, READ_10, blk, n, u.blkSize) && cap > 0
    requires Executed(c, u, m, d, v, m, cap, bytes, [], lost) && d.sta == FAIL && v.sd == OUT_OF_RANGE
    requires Executed(q, v, m, d', v', w, cap, sense, data, lost') && q.cb[0] == REQUEST_SENSE && q.sta == PASS
    ensures blk + n > u.nBlks && bytes == Tail(m, u.blkSize, blk)
    ensures d'.sta == PASS && sense == if q.cb[4] < 18 then MissingBlock(u.nBlks)[..q.cb[4]] else MissingBlock(u.nBlks)
  {
    hide Executed, Tail, Off, Fits, FromHost, Ran, Digits;
    RunOffEnd(c, u, m, d, v, cap, bytes, lost, blk, n);
    ExecutedRan(q, v, m, d', v', w, cap, sense, data, lost');
    SenseSeen(q, v, d', v', sense);
  }

  // ---- a short read, from wrapper to status ----

  /** A unit of two blocks of one byte, and a READ of both. */
  const SMALL: Unit := Unit(1, 2, false, false, false, NO_SENSE, 0, false)

  function ReadBoth(c: Cmd): (d: Cmd)
    requires Whole(c)
  {
    c.(tag := 7, dlen := 2, dir := FLAG_IN, clen := 10, sta := PASS, cb := Cdb(READ_10, 0, 2) + c.cb[10..])
  }

  lemma BothTaken(c: Cmd)
    requires Whole(c)
    ensures Take(c, Cbw(7, 2, FLAG_IN, 0, Cdb(READ_10, 0, 2)), CBW_LEN, 1).ret == 0
    ensures Take(c, Cbw(7, 2, FLAG_IN, 0, Cdb(READ_10, 0, 2)), CBW_LEN, 1).cmd.(sta := PASS) == ReadBoth(c)
    ensures var w := Cbw(7, 2, FLAG_IN, 0, Cdb(READ_10, 0, 2)); w[13] == 0 && Le32(w, 4) == 7 && Le32(w, 8) == 2
  {
    WrapperTaken(c, 7, 2, FLAG_IN, 0, Cdb(READ_10, 0, 2), 1);
    hide Part;
    Parts32(2);
    Parts32(7);
    hide Le32, Cdb, Take;
  }

  lemma BothStart(c: Cmd)
    requires Whole(c)
    ensures Whole(ReadBoth(c)) && ReadStart(ReadBoth(c), SMALL).Go? && StartsAt(ReadStart(ReadBoth(c), SMALL), 0, 2)
    ensures SameUnit(ReadStart(ReadBoth(c), SMALL).unit, SMALL) && ReadStart(ReadBoth(c), SMALL).cmd.sta == PASS
    ensures IsRead(ReadBoth(c).cb[0]) && ReadBoth(c).tag == 7
  {
    var d := ReadBoth(c);
    assert d.cb[..10] == Cdb(READ_10, 0, 2);
    assert d.cb[0] == Cdb(READ_10, 0, 2)[0];
    assert Times(2, 1) == 2 && Fits(2, 1);
    ReadDecoded(d, SMALL, 0, 2);
    hide Cdb, Be32, Be16, Times, Fits;
  }

  /** A callback that gives one of two blocks. */
  function OneOfTwo(): (g: (nat, nat, nat) -> nat) { (i, lba, n) => if n == 2 then 1 else n }

  lemma OneAsked(lu: Lu)
    requires lu.gives == OneOfTwo() && !lu.dependable
    ensures Asked(lu, 0, 0, 2, 36, 2) == [Answer(2, 1)] && Lost([Answer(2, 1)]) == 1
  {
    LostSnoc([], Answer(2, 1));
    NothingLost();
    assert [] + [Answer(2, 1)] == [Answer(2, 1)];
  }

  /** How such a READ ends: nothing is sent, and the status says that one byte was. */
  lemma HalfEnds(c: Cmd, m: seq<Octet>, d: Cmd, v: Unit, w: seq<Octet>, bytes: seq<Octet>, data: seq<Octet>)
    requires Whole(c) && |m| == 2 && Executed(ReadBoth(c), SMALL, m, d, v, w, 36, bytes, data, 1)
    ensures bytes == [] && data == [] && d.sta == FAIL && d.dlen == 1
    ensures v == SMALL.(sd := 0x031100, info := 1, infoValid := true)
  {
    BothStart(c);
    hide ReadStart, WriteStart, Fixed, ReadBoth;
    var s := ReadStart(ReadBoth(c), SMALL);
    var done: nat, got: nat :| got == done + 1 && ReadEnd(s.cmd, s.unit, m, s.lba, s.n, 36, d, v, 0, bytes, done, got);
    Conserved(ReadBoth(c), SMALL, m, d, v, w, 36, bytes, data, 1);
  }

  /** The device with such a unit, and the host's wrapper on its way. */
  method SetUp(m: seq<Octet>) returns (ms: Ms, lu: Lu)
    requires |m| == 2
    ensures fresh(ms) && fresh(ms.buf) && fresh(ms.bus) && fresh(lu) && ms.lus == [lu] && lu.num == 0
    ensures ms.Valid() && lu.Valid() && ms.buf.Length == 36 && ms.nLu == 1
    ensures ms.setup && ms.maxLunGot && ms.reported == []
    ensures ms.bus.dependable && ms.bus.coming == Cbw(7, 2, FLAG_IN, 0, Cdb(READ_10, 0, 2)) && ms.bus.sent == []
    ensures lu.unit == SMALL && lu.medium == m && lu.answers == [] && lu.gives == OneOfTwo() && !lu.dependable
  {
    hide Cbw, Cdb;
    var bus := new Bus(true, Cbw(7, 2, FLAG_IN, 0, Cdb(READ_10, 0, 2)));
    lu := new Lu(0, false, OneOfTwo(), 1, m, 2, false, false);
    ms := new Ms(36, bus, [lu], 1);
    ms.setup, ms.maxLunGot := true, true;
  }

  /** The host asks for two blocks and the callback gives the first of them: nothing is sent, a
      status is reported with a residue that says that one byte was, and the read error is kept. */
  method HalfRead(m: seq<Octet>) returns (ms: Ms, lu: Lu, ret: int)
    requires |m| == 2
    ensures ret == 0 && ms.info.tag == 7 && ms.info.sta == FAIL && ms.info.dlen == 1
    ensures lu.unit == SMALL.(sd := 0x031100, info := 1, infoValid := true)
    ensures var sent := ms.bus.sent;
      sent != [] && sent[|sent| - 1] == Csw(ms.info) && Flat(sent[..|sent| - 1]) == []
  {
    hide Cbw, Cdb, Take, Executed, Le32, Csw, ReadStart, ReadBoth, Lost, Asked, DoneWell, OneOfTwo, Flat;
    ms, lu := SetUp(m);
    ghost var c := ms.info;
    assert Quotient(36, 1) == 36;
    BothTaken(c);
    BothStart(c);
    ghost var w := Cbw(7, 2, FLAG_IN, 0, Cdb(READ_10, 0, 2));
    assert ms.Wrapper(ms.bus.coming) == w;
    assert lu in ms.lus && lu.num == w[13] as nat;
    ghost var bytes, data;
    ret, bytes, data := ms.Process();
    OneAsked(lu);
    assert lu.answers[0..] == [Answer(2, 1)];
    HalfEnds(c, m, ms.info, lu.unit, lu.medium, bytes, data);
    assert ms.bus.sent[..|ms.bus.sent| - 1][0..] == ms.bus.sent[..|ms.bus.sent| - 1];
  }

  // ---- what the host makes of the answers ----

  /** The capacity as `__read_capacity` reads it: one more than the first field. */
  function HostBlocks(reply: seq<Octet>): (r: U32) requires |reply| == 8 { Wrap32(Be32(reply, 0) + 1) }

  function HostBlkSize(reply: seq<Octet>): (r: U32) requires |reply| == 8 { Be32(reply, 4) }

  /** A READ CAPACITY that is carried out passes and sends eight bytes. The block size comes across;
      the number of blocks never does: the device sends the count where the host expects the last
      block number. */
  lemma CapacityReadBack(c: Cmd, u: Unit, m: seq<Octet>, d: Cmd, v: Unit, w: seq<Octet>, cap: nat,
                         bytes: seq<Octet>, data: seq<Octet>, lost: nat)
    requires Executed(c, u, m, d, v, w, cap, bytes, data, lost) && c.sta == PASS && c.cb[0] == READ_CAPACITY
    requires c.cb[8] == 0 && Be32(c.cb, 2) == 0
    ensures d.sta == PASS && |bytes| == 8 && d.dlen as nat + 8 == c.dlen as nat && w == m
    ensures HostBlkSize(bytes) == u.blkSize && HostBlocks(bytes) == Wrap32(u.nBlks + 1) && HostBlocks(bytes) != u.nBlks
  {
    assert c.cb[2] == c.cb[3] == c.cb[4] == c.cb[5] == 0;
    hide Executed, Ran, Digits;
    ExecutedRan(c, u, m, d, v, w, cap, bytes, data, lost);
    CapacitySeen(c, u, d, v, bytes);
    CapacityRead(bytes, u);
    hide Be32;
  }

  /** The host's check of a status, on a little-endian machine. The tag is only compared with
      itself, which leaves the signature and the status. */
  predicate StatusAccepted(csw: seq<Octet>)
    requires |csw| == CSW_LEN
  {
    Le32(csw, 0) == CSW_SIG && csw[12] <= 1
  }

  lemma StatusExactly(csw: seq<Octet>)
    requires |csw| == CSW_LEN
    ensures StatusAccepted(csw) <==> csw[..4] == [0x55, 0x53, 0x42, 0x53] && (csw[12] == 0 || csw[12] == 1)
  {
    FourDigits(csw[3], csw[2], csw[1], csw[0], Le32(csw, 0));
    FourDigits(0x53, 0x42, 0x53, 0x55, 0x5342_5355);
    hide Part;
    assert csw[..4] == [csw[0], csw[1], csw[2], csw[3]];
  }

  /** Whatever tag the status of a command is sent with, not only its own, it is accepted exactly
      when it is no phase error. */
  lemma AnyStatusAccepted(c: Cmd, tag: U32)
    ensures StatusAccepted(Csw(c.(tag := tag))) <==> c.sta == PASS || c.sta == FAIL
  {
    hide Le32, Csw;
    CswFields(c.(tag := tag));
  }
}
