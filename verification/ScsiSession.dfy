/** The host setting a unit up, with the device at the other end of the pipes: the commands of
    core/source/host/class/ms/usbh_ms_scsi_drv.c, sent by `__ms_bulk_transport` and carried out by
    `usbd_ms_scsi_bbb_process`. The pipes do not fail, so that nothing is tried again. */
module ScsiSession {
  import opened Descriptors
  import opened ByteOrder
  import opened ScsiSpec
  import opened ScsiBus
  import opened ScsiDevice
  import opened ScsiReplies
  import opened ScsiHost

  const ETIME := 579
  const EDATA := 590

  /** The command as the device has it after the wrapper of the host. */
  function Taken(c: Cmd, tag: U32, len: U32, dir: Octet, cmd: seq<Octet>): (d: Cmd)
    requires Whole(c) && 1 <= |cmd| <= 16
    ensures Whole(d) && d.cb[0] == cmd[0]
  {
    c.(tag := tag, dlen := len, dir := dir, clen := |cmd|, sta := 0, cb := cmd + c.cb[|cmd|..])
  }

  /** The unit as the host knows it, and the device it is on. */
  class HostUnit {
    const ms: Ms
    const lu: Lu
    const buf: array<Octet>
    var tag: U32
    var nBlks: U32
    var blkSize: U32
    var isWp: bool

    constructor (m: Ms, u: Lu, size: nat)
      ensures ms == m && lu == u && fresh(buf) && buf.Length == size && tag == 0 && nBlks == 0 && blkSize == 0 && !isWp
    {
      ms, lu, buf := m, u, new Octet[size](_ => 0);
      tag, nBlks, blkSize, isWp := 0, 0, 0, false;
    }

    /** The device is set up, its pipes do not fail, and the unit is the one that has its number. */
    ghost predicate Linked()
      reads this, ms, ms.bus, ms.lus, lu
    {
      && ms.Valid() && ms.UnitsOk() && ms.Honest() && ms.setup && ms.maxLunGot && ms.bus.dependable
      && lu in ms.lus && lu.num < 16 && lu.num < ms.nLu as nat && (forall x | x in ms.lus && x.num == lu.num :: x == lu)
      && buf != ms.buf && buf.Length >= 192
    }

    /** A command without blocks, from the wrapper over the data to the status. */
    method Transport(cmd: seq<Octet>, len: U32, dir: Octet) returns (ret: int)
      requires Linked() && 1 <= |cmd| <= 16 && len <= buf.Length && cmd[0] !in {0x08, 0x28, 0x2A}
      requires dir == FLAG_IN || dir == FLAG_OUT
      modifies this`tag, buf, ms`info, ms`sel, ms`reported, ms.buf, ms.bus`sent, ms.bus`coming, ms.bus`haltIn,
        ms.bus`haltOut, ms.lus
      ensures Linked() && SameUnit(old(lu.unit), lu.unit) && tag == Wrap32(old(tag) + 1)
      ensures var c := Taken(old(ms.info), tag, len, dir, cmd);
        if Answerable(c, old(lu.unit)) then
          && 0 <= ret <= buf.Length && Ran(c, old(lu.unit), ms.info, lu.unit, buf[..ret])
          && lu.medium == old(lu.medium) && ms.reported == old(ms.reported) + [ms.info]
        else ret < 0
    {
      hide Fixed, Answerable, Cbw, FixedExecuted, Quotient, Ran;
      tag := Wrap32(tag + 1);
      ghost var c, u := Taken(ms.info, tag, len, dir, cmd), lu.unit;
      AnswerableExactly(c, u);
      var before := ms.bus.sent;
      var done := Deliver(Cbw(tag, len, dir, lu.num, cmd), cmd, len, dir);
      if !done {
        return -ETIME;
      }
      var sent := ms.bus.sent;
      var data := Since(before, sent[..|sent| - 1]);
      forall k | 0 <= k < |data| { buf[k] := data[k]; }
      assert buf[..|data|] == data;
      if !StatusAccepted(sent[|sent| - 1]) {
        return -EDATA;
      }
      return |data|;
    }

    /** The command passed: this is its status, nothing is left over, and no failure is recorded. */
    twostate predicate Went()
      reads this, ms, lu
    {
      && ms.info.tag == tag && ms.info.sta == 0 && ms.info.dlen == 0 && ms.reported == old(ms.reported) + [ms.info]
      && lu.unit == Cleared(old(lu.unit)) && lu.medium == old(lu.medium)
    }

    /** `__inquiry`: the device type, 5 for a unit that cannot be written, and whether the medium can
        be taken out. */
    method Inquiry(len: Octet) returns (ret: int)
      requires Linked() && len <= 192
      modifies this`tag, buf, ms`info, ms`sel, ms`reported, ms.buf, ms.bus`sent, ms.bus`coming, ms.bus`haltIn,
        ms.bus`haltOut, ms.lus
      ensures Linked() && ret == if len < 36 then len as int else 36
      ensures len <= 36 ==> Went()
      ensures len >= 1 ==> buf[0] == if lu.unit.rdonly then 5 else 0
      ensures len >= 2 ==> buf[1] == if lu.unit.removable then 0x80 else 0
      ensures len >= 5 ==> buf[2] == 0 && buf[3] == 1 && buf[4] == 31
      ensures forall k | 5 <= k < 36 && k < len as int :: buf[k] == 0
    {
      hide Ran, Fixed, Passed;
      var cmd: seq<Octet> := [0x12, 0, 0, 0, len, 0];
      ghost var c := Taken(ms.info, Wrap32(tag + 1), len, FLAG_IN, cmd);
      ghost var u := lu.unit;
      ret := Transport(cmd, len, FLAG_IN);
      InquirySeen(c, u, ms.info, lu.unit, buf[..ret]);
      InquiryFields(c, u, ms.info, lu.unit, buf[..ret], len);
    }

    /** `__unit_ready`. */
    method UnitReady() returns (ret: int)
      requires Linked()
      modifies this`tag, buf, ms`info, ms`sel, ms`reported, ms.buf, ms.bus`sent, ms.bus`coming, ms.bus`haltIn,
        ms.bus`haltOut, ms.lus
      ensures Linked() && ret == 0 && Went()
    {
      hide Ran, Fixed;
      var cmd: seq<Octet> := [0, 0, 0, 0, 0, 0];
      ghost var c, u := Taken(ms.info, Wrap32(tag + 1), 0, FLAG_OUT, cmd), lu.unit;
      ret := Transport(cmd, 0, FLAG_OUT);
      UnitReadySeen(c, u, ms.info, lu.unit, buf[..ret]);
    }

    /** `__request_sense` for 18 bytes: key, qualifiers and block of the last failure, which is then
        forgotten. */
    method RequestSense() returns (ret: int)
      requires Linked()
      modifies this`tag, buf, ms`info, ms`sel, ms`reported, ms.buf, ms.bus`sent, ms.bus`coming, ms.bus`haltIn,
        ms.bus`haltOut, ms.lus
      ensures Linked() && ret == 18 && Went()
      ensures buf[0] == (if old(lu.unit.infoValid) then 0xF0 else 0x70) && buf[7] == 10
      ensures buf[2] as int == old(lu.unit.sd) / 0x1_0000 % 0x100
      ensures buf[12] as int == old(lu.unit.sd) / 0x100 % 0x100 && buf[13] as int == old(lu.unit.sd) % 0x100
      ensures Be32(buf[..18], 3) == old(lu.unit.info)
    {
      hide Ran, Fixed, Be32;
      var cmd: seq<Octet> := [3, 0, 0, 0, 18, 0];
      ghost var c, u := Taken(ms.info, Wrap32(tag + 1), 18, FLAG_IN, cmd), lu.unit;
      ret := Transport(cmd, 18, FLAG_IN);
      SenseSeen(c, u, ms.info, lu.unit, buf[..ret]);
      DigitsBack(buf[..18], 3, u.info);
    }

    /** `__read_capacity`: the block size comes across, and one block more than there is. */
    method ReadCapacity() returns (ret: int)
      requires Linked()
      modifies this`tag, this`nBlks, this`blkSize, buf, ms`info, ms`sel, ms`reported, ms.buf, ms.bus`sent,
        ms.bus`coming, ms.bus`haltIn, ms.bus`haltOut, ms.lus
      ensures Linked() && ret == 0 && Went()
      ensures blkSize == lu.unit.blkSize && nBlks as int == (lu.unit.nBlks + 1) % 0x1_0000_0000
    {
      hide Ran, Fixed;
      var cmd: seq<Octet> := [0x25, 0, 0, 0, 0, 0, 0, 0, 0, 0];
      ghost var c, u := Taken(ms.info, Wrap32(tag + 1), 8, FLAG_IN, cmd), lu.unit;
      ret := Transport(cmd, 8, FLAG_IN);
      CapacitySeen(c, u, ms.info, lu.unit, buf[..ret]);
      if ret == 8 {
        CapacityRead(buf[..8], u);
        nBlks, blkSize := Wrap32(1 + Be32(buf[..8], 0)), Be32(buf[..8], 4);
        ret := 0;
      } else if ret >= 0 {
        ret := -EDATA;
      }
    }

    /** `__mode_sense` asks for a page that the device does not have: the request fails, with all of
        its length left over, and the mark of write protection stays what it was. */
    method ModeSense() returns (ret: int)
      requires Linked()
      modifies this`tag, this`isWp, buf, ms`info, ms`sel, ms`reported, ms.buf, ms.bus`sent, ms.bus`coming,
        ms.bus`haltIn, ms.bus`haltOut, ms.lus
      ensures Linked() && ret == 0 && isWp == old(isWp) && lu.medium == old(lu.medium)
      ensures ms.info.tag == tag && ms.info.sta == 1 && ms.info.dlen == 192
      ensures ms.reported == old(ms.reported) + [ms.info]
      ensures lu.unit == Cleared(old(lu.unit)).(sd := 0x052400)
    {
      hide Ran, Fixed;
      var cmd: seq<Octet> := [0x1A, 0, 0x1C, 0, 192, 0];
      ghost var c, u := Taken(ms.info, Wrap32(tag + 1), 192, FLAG_IN, cmd), lu.unit;
      ret := Transport(cmd, 192, FLAG_IN);
      ModeSense6Seen(c, u, ms.info, lu.unit, buf[..ret]);
      ret := ModeReply(ret);
    }

    /** What `__mode_sense` makes of `n` bytes: write protection is the high bit of the third one. */
    method ModeReply(n: int) returns (ret: int)
      requires buf.Length >= 3
      modifies this`isWp
      ensures n > 2 ==> ret == 0 && (isWp <==> buf[2] >= 0x80)
      ensures n <= 2 ==> isWp == old(isWp) && ret == if n > 0 then -590 else n
    {
      if n > 2 {
        isWp := buf[2] / 0x80 % 2 == 1;
        return 0;
      } else if n > 0 {
        return -EDATA;
      }
      return n;
    }

    /** `usbh_ms_scsi_init`. The loops around the last two commands never go round again, as no
        result is positive. Every unit is set up: five commands pass with nothing left over, the
        last one fails; the host has the block size, one block more than there is, and does not
        know whether the unit can be written. */
    method Init() returns (ret: int)
      requires Linked()
      modifies this`tag, this`nBlks, this`blkSize, this`isWp, buf, ms`info, ms`sel, ms`reported, ms.buf, ms.bus`sent,
        ms.bus`coming, ms.bus`haltIn, ms.bus`haltOut, ms.lus
      ensures Linked() && ret == 0
      ensures blkSize == lu.unit.blkSize && nBlks as int == (lu.unit.nBlks + 1) % 0x1_0000_0000 && isWp == old(isWp)
      ensures lu.medium == old(lu.medium) && lu.unit == Cleared(old(lu.unit)).(sd := 0x052400)
      ensures var r := ms.reported;
        && |r| == |old(ms.reported)| + 6 && r[..|r| - 6] == old(ms.reported)
        && (forall k | |r| - 6 <= k < |r| - 1 :: r[k].sta == 0 && r[k].dlen == 0)
        && r[|r| - 1].sta == 1 && r[|r| - 1].dlen == 192
    {
      hide Cleared;
      ClearedOnce(lu.unit);
      Probe();
      ret := ReadCapacity();
      ret := ModeSense();
    }

    /** The commands before the capacity. */
    method Probe()
      requires Linked()
      modifies this`tag, buf, ms`info, ms`sel, ms`reported, ms.buf, ms.bus`sent, ms.bus`coming, ms.bus`haltIn,
        ms.bus`haltOut, ms.lus
      ensures Linked() && lu.medium == old(lu.medium) && lu.unit == Cleared(old(lu.unit))
      ensures var r := ms.reported;
        && |r| == |old(ms.reported)| + 4 && r[..|r| - 4] == old(ms.reported)
        && forall k | |r| - 4 <= k < |r| :: r[k].sta == 0 && r[k].dlen == 0
    {
      hide Cleared;
      ClearedOnce(lu.unit);
      var ret := Inquiry(36);
      ret := UnitReady();
      ret := RequestSense();
      ret := UnitReady();
    }

    /** The wrapper arrives, and the device runs; it is not done without a status. */
    method Deliver(w: seq<Octet>, ghost cmd: seq<Octet>, ghost len: U32, ghost dir: Octet) returns (done: bool)
      requires Linked() && 1 <= |cmd| <= 16 && cmd[0] !in {0x08, 0x28, 0x2A} && (dir == FLAG_IN || dir == FLAG_OUT)
      requires w == Cbw(tag, len, dir, lu.num, cmd)
      modifies ms`info, ms`sel, ms`reported, ms.buf, ms.bus`sent, ms.bus`coming, ms.bus`haltIn, ms.bus`haltOut, ms.lus
      ensures Linked() && SameUnit(old(lu.unit), lu.unit)
      ensures done <==> Fixed(Taken(old(ms.info), tag, len, dir, cmd), old(lu.unit)).ret >= 0
      ensures done ==> |old(ms.bus.sent)| < |ms.bus.sent|
      ensures done ==>
        var c := Taken(old(ms.info), tag, len, dir, cmd);
        var sent := ms.bus.sent;
        var data := Since(old(ms.bus.sent), sent[..|sent| - 1]);
        && Ran(c, old(lu.unit), ms.info, lu.unit, data) && |data| <= len
        && |sent[|sent| - 1]| == CSW_LEN && StatusAccepted(sent[|sent| - 1])
        && lu.medium == old(lu.medium) && ms.reported == old(ms.reported) + [ms.info]
    {
      hide Fixed, Executed, Cbw, Csw, Take, Le32, FixedExecuted, Quotient, Ran, Lost, StatusAccepted;
      ghost var c, u, m := Taken(ms.info, tag, len, dir, cmd), lu.unit, lu.medium;
      WrapperTaken(ms.info, tag, len, dir, lu.num, cmd, ms.nLu);
      LunOf(tag, len, dir, lu.num, cmd);
      TakeFields(ms.info, w, ms.nLu);
      ms.bus.coming := w;
      assert ms.Wrapper(w) == w;
      var e;
      ghost var bytes, data;
      e, bytes, data := ms.Process();
      if e == 0 {
        RunsThrough(c, u, m, ms.info, lu.unit, lu.medium, Quotient(ms.buf.Length, lu.unit.blkSize), bytes, data,
                    ms.Unsent(lu, old(lu.answers)));
        AnyStatusAccepted(ms.info, ms.info.tag);
      }
      return e == 0;
    }
  }

  lemma InquiryFields(c: Cmd, u: Unit, d: Cmd, v: Unit, b: seq<Octet>, n: nat)
    requires Passed(c, u, d, v, b, n, UnitBytes(u))
    ensures |b| == (if n < 36 then n else 36) && d.sta == 0 && d.tag == c.tag && d.dlen as nat + |b| == c.dlen as nat
    ensures v == Cleared(u)
    ensures |b| >= 1 ==> b[0] == if u.rdonly then 5 else 0
    ensures |b| >= 2 ==> b[1] == if u.removable then 0x80 else 0
    ensures |b| >= 5 ==> b[2] == 0 && b[3] == 1 && b[4] == 31
    ensures forall k | 5 <= k < |b| :: b[k] == 0
  {
  }

  lemma ClearedOnce(u: Unit)
    ensures Cleared(Cleared(u)) == Cleared(u)
    ensures SameUnit(u, Cleared(u)) && SameUnit(u, Cleared(u).(sd := 0x052400))
  {
  }

  lemma LunOf(tag: U32, len: U32, dir: Octet, lun: Octet, cmd: seq<Octet>)
    requires 1 <= |cmd| <= 16 && lun < 16
    ensures Cbw(tag, len, dir, lun, cmd)[13] == lun
  {
  }

  lemma RunsThrough(c: Cmd, u: Unit, m: seq<Octet>, d: Cmd, v: Unit, w: seq<Octet>, cap: nat,
                    bytes: seq<Octet>, data: seq<Octet>, lost: nat)
    requires Executed(c, u, m, d, v, w, cap, bytes, data, lost) && c.sta == 0 && c.cb[0] !in {0x08, 0x28, 0x2A}
    ensures Ran(c, u, d, v, bytes) && w == m && data == [] && |bytes| <= c.dlen as nat && Fixed(c, u).ret >= 0
  {
    hide Fixed, ReadStart, WriteStart;
    ExecutedRan(c, u, m, d, v, w, cap, bytes, data, lost);
  }
}
