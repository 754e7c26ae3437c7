/** The mass storage function of the device, command by command, in place:
    core/source/device/class/ms/usbd_ms_scsi_bbb.c. */
module ScsiDevice {
  import opened Descriptors
  import opened ByteOrder
  import opened ScsiSpec
  import opened ScsiBus

  /** The bytes of the transfers made since `before`. */
  function Since(before: seq<seq<Octet>>, now: seq<seq<Octet>>): (r: seq<Octet>)
    requires |before| <= |now|
  {
    Flat(now[|before|..])
  }

  lemma SinceSnoc(before: seq<seq<Octet>>, now: seq<seq<Octet>>, t: seq<Octet>)
    requires |before| <= |now|
    ensures Since(before, now + [t]) == Since(before, now) + t
  {
    assert (now + [t])[|before|..] == now[|before|..] + [t];
    FlatSnoc(now[|before|..], t);
  }

  /** Something of `s` was added, from its start. */
  ghost predicate Grew(before: seq<Octet>, now: seq<Octet>, s: seq<Octet>) {
    exists k :: 0 <= k <= |s| && now == before + s[..k]
  }

  lemma SinceNone(now: seq<seq<Octet>>)
    ensures Since(now, now) == []
  {
    assert now[|now|..] == [];
  }

  /** The transfers made before stay, and the new ones have at most `size` bytes. */
  ghost predicate Sends(before: seq<seq<Octet>>, now: seq<seq<Octet>>, size: nat) {
    && |before| <= |now| && now[..|before|] == before
    && forall i | |before| <= i < |now| :: |now[i]| <= size
  }

  lemma SendsMore(before: seq<seq<Octet>>, now: seq<seq<Octet>>, size: nat, t: seq<Octet>)
    requires Sends(before, now, size) && |t| <= size
    ensures Sends(before, now + [t], size) && |before| <= |now| && Since(before, now + [t]) == Since(before, now) + t
  {
    SinceSnoc(before, now, t);
  }

  lemma SendsNothing(now: seq<seq<Octet>>, size: nat)
    ensures Sends(now, now, size) && Since(now, now) == []
  {
    SinceNone(now);
  }

  // ---- how a READ or a WRITE ends ----

  /** The end of a READ of `n` blocks from `lba` on a medium `m`: `c` and `u` before, `d` and `v`
      after; `bytes` went to the host, in chunks of at most `cap` blocks; `got` blocks were
      read, the first `done` of them were sent. */
  ghost predicate ReadEnd(c: Cmd, u: Unit, m: seq<Octet>, lba: nat, n: nat, cap: nat,
                          d: Cmd, v: Unit, ret: int, bytes: seq<Octet>, done: nat, got: nat)
    requires |m| == Off(u.nBlks, u.blkSize)
  {
    && done <= got <= n && lba + got <= u.nBlks
    && Off(lba + done, u.blkSize) <= |m| && Off(lba + got, u.blkSize) <= |m| && Off(got, u.blkSize) <= c.dlen
    && d == c.(dlen := c.dlen - Off(got, u.blkSize), sta := d.sta)
    && (ret != 0 ==> bytes <= Span(m, u.blkSize, lba, got) && d.sta == c.sta && v == u)
    && (ret == 0 ==> bytes == Span(m, u.blkSize, lba, done))
    && (ret == 0 && d.sta == c.sta ==> done == got == n && v == u)
    && (ret == 0 && d.sta != c.sta ==>
          && d.sta == FAIL && (done < n || n == 0)
          && (|| (v == u.(sd := OUT_OF_RANGE, info := lba + done, infoValid := true)
                  && done == got && (lba + done == u.nBlks || cap == 0 || n == 0))
              || (v == u.(sd := UNRECOVERED_READ_ERROR, info := lba + got, infoValid := true)
                  && got < n && got - done < cap)))
  }

  /** The block numbers of a WRITE fit 32 bits, so that its counter does not start again at 0. */
  predicate NoTurn(lba: nat, n: nat) { lba + n <= 0x1_0000_0000 }

  /** A WRITE that is broken off: nothing is noted, or a failure of the medium, of the transfer or of
      the range, with its block. */
  predicate FaultNoted(c: Cmd, u: Unit, d: Cmd, v: Unit) {
    || (d.sta == c.sta && v == u)
    || (d.sta == 1 && v == u.(sd := v.sd, info := v.info, infoValid := true) && v.sd in {0x030C02, 0x040800, 0x052100})
  }

  /** The end of a WRITE: `data` came from the host, `w` is the medium afterwards. */
  ghost predicate WriteEnd(c: Cmd, u: Unit, m: seq<Octet>, lba: nat, n: nat,
                           d: Cmd, v: Unit, w: seq<Octet>, ret: int, data: seq<Octet>)
    requires |m| == Off(u.nBlks, u.blkSize)
  {
    && Off(lba, u.blkSize) <= |m| == |w| && SameUnit(u, v) && |data| <= Off(n, u.blkSize)
    && d == c.(dlen := d.dlen, sta := d.sta) && FaultNoted(c, u, d, v)
    && (ret == 0 ==> && |data| == Off(n, u.blkSize) <= c.dlen && d == c.(dlen := c.dlen - |data|) && v == u
                     && (NoTurn(lba, n) ==> w == Put(m, u.blkSize, lba, data)))
    && (NoTurn(lba, n) ==> exists x :: |x| <= Off(n, u.blkSize) && w == Put(m, u.blkSize, lba, x))
  }

  /** The write calls for `n` blocks from `lba` on, in chunks of at most `cap`, as long as a chunk
      starts before the end of the unit. The counter has 32 bits. */
  function Calls(lba: nat, n: nat, cap: nat, end: nat): (r: seq<(nat, nat)>)
    requires cap > 0
    decreases n
  {
    if n == 0 || lba >= end then []
    else [(lba, Least(n, cap))] + Calls(Wrap32(lba + Least(n, cap)), n - Least(n, cap), cap, end)
  }

  /** The medium after the write calls, each with its part of the data. */
  function Applied(m: seq<Octet>, bs: nat, calls: seq<(nat, nat)>, data: seq<Octet>): (w: seq<Octet>)
    ensures |w| == |m|
    decreases |calls|
  {
    if calls == [] then m
    else
      var last := calls[|calls| - 1];
      var len := Off(last.1, bs);
      if len > |data| || Off(last.0, bs) > |m| then m
      else Put(Applied(m, bs, calls[..|calls| - 1], data[..|data| - len]), bs, last.0, data[|data| - len..])
  }

  lemma AppliedSnoc(m: seq<Octet>, bs: nat, calls: seq<(nat, nat)>, data: seq<Octet>, call: (nat, nat),
                    chunk: seq<Octet>)
    requires Off(call.0, bs) <= |m| && |chunk| == Off(call.1, bs)
    ensures Applied(m, bs, calls + [call], data + chunk) == Put(Applied(m, bs, calls, data), bs, call.0, chunk)
  {
    hide Off, Put;
    assert (calls + [call])[..|calls|] == calls;
    assert (data + chunk)[..|data|] == data && (data + chunk)[|data|..] == chunk;
  }

  /** What the read callback is asked for and delivers, from its call `i` on, in a READ of `n`
      blocks from `lba` on: the calls end with the first one that gives less than it was asked. */
  function Asked(lu: Lu, i: nat, lba: nat, n: nat, cap: nat, end: nat): (r: seq<Answer>)
    decreases n
  {
    var t := Least(Least(n, cap), if lba < end then end - lba else 0);
    if t == 0 then []
    else
      var k := lu.Delivers(i, lba, t);
      [Answer(t, k)] + if k < t then [] else Asked(lu, i + 1, lba + t, n - t, cap, end)
  }

  lemma {:induction false} AskedFacts(lu: Lu, i: nat, lba: nat, n: nat, cap: nat, end: nat)
    ensures forall a | a in Asked(lu, i, lba, n, cap, end) :: a.given <= a.asked && (lu.AllOrNone() ==> Settled(a))
    decreases n
  {
    var t := Least(Least(n, cap), if lba < end then end - lba else 0);
    if t > 0 {
      AskedFacts(lu, i + 1, lba + t, n - t, cap, end);
    }
  }

  /** In the middle of a READ: `a` are the answers so far, all of them whole. */
  ghost predicate AskedSoFar(lu: Lu, a: seq<Answer>, i: nat, all: seq<Answer>, lba: nat, n: nat, cap: nat, end: nat) {
    all == a + Asked(lu, i, lba, n, cap, end) && Lost(a) == 0
  }

  lemma AskedFirst(lu: Lu, i: nat, all: seq<Answer>, lba: nat, n: nat, cap: nat, end: nat)
    requires all == Asked(lu, i, lba, n, cap, end)
    ensures AskedSoFar(lu, [], i, all, lba, n, cap, end)
  {
    assert [] + all == all;
  }

  lemma NothingLost()
    ensures Lost([]) == 0
  {
  }

  lemma AskedNone(lu: Lu, a: seq<Answer>, i: nat, all: seq<Answer>, lba: nat, n: nat, cap: nat, end: nat)
    requires AskedSoFar(lu, a, i, all, lba, n, cap, end) && lba <= end && Least(Least(n, cap), end - lba) == 0
    ensures all == a && Lost(all) == 0
  {
    assert a + [] == a;
  }

  lemma AskedNext(lu: Lu, a: seq<Answer>, i: nat, all: seq<Answer>, lba: nat, n: nat, cap: nat, end: nat, t: nat)
    requires AskedSoFar(lu, a, i, all, lba, n, cap, end) && lba <= end && t == Least(Least(n, cap), end - lba) > 0
    ensures var k := lu.Delivers(i, lba, t); var b := a + [Answer(t, k)];
      if k < t then all == b && Lost(all) == k else AskedSoFar(lu, b, i + 1, all, lba + t, n - t, cap, end)
  {
    hide Lost;
    var k := lu.Delivers(i, lba, t);
    LostSnoc(a, Answer(t, k));
    if k < t {
      assert Asked(lu, i, lba, n, cap, end) == [Answer(t, k)] + [];
    } else {
      Reassociate(a, [Answer(t, k)], Asked(lu, i + 1, lba + t, n - t, cap, end));
    }
  }

  predicate Inside(call: (nat, nat), end: nat) { call.0 + call.1 <= end }

  predicate AllInside(calls: seq<(nat, nat)>, end: nat) { forall i | 0 <= i < |calls| :: Inside(calls[i], end) }

  lemma InsideCons(call: (nat, nat), calls: seq<(nat, nat)>, end: nat)
    ensures AllInside([call] + calls, end) <==> Inside(call, end) && AllInside(calls, end)
  {
    var cs := [call] + calls;
    assert cs[0] == call && forall i | 0 <= i < |calls| :: cs[i + 1] == calls[i];
    if AllInside(cs, end) {
      assert Inside(cs[0], end);
      forall i | 0 <= i < |calls| ensures Inside(calls[i], end) { assert Inside(cs[i + 1], end); }
    }
  }

  predicate StopsAt(x: nat, cap: nat) requires cap > 0 { x % cap == 0 }

  lemma StopsStep(x: nat, cap: nat)
    requires cap > 0
    ensures StopsAt(0, cap) && (x >= cap ==> (StopsAt(x, cap) <==> StopsAt(x - cap, cap)))
    ensures 0 < x < cap ==> !StopsAt(x, cap)
  {
    if x >= cap { AddMod(x - cap, cap); }
  }

  lemma NoWrap(x: nat, end: U32)
    ensures x <= end ==> Wrap32(x) == x
  {
  }

  /** Chunks are not clipped at the end of the unit: every call lies inside exactly when the
      blocks do, or a chunk happens to stop at the end. */
  lemma {:induction false} CallsInside(lba: nat, n: nat, cap: nat, end: U32)
    requires cap > 0 && lba <= end
    ensures AllInside(Calls(lba, n, cap, end), end) <==> lba + n <= end || StopsAt(end - lba, cap)
    decreases n
  {
    hide AllInside, StopsAt, Wrap32;
    StopsStep(end - lba, cap);
    if n > 0 && lba < end {
      var k := Least(n, cap);
      InsideCons((lba, k), Calls(Wrap32(lba + k), n - k, cap, end), end);
      NoWrap(lba + k, end);
      if lba + k <= end { CallsInside(lba + k, n - k, cap, end); }
    } else {
      NoneInside(end);
    }
  }

  lemma NoneInside(end: nat)
    ensures AllInside([], end)
  {
  }

  // ---- one command, whatever it is ----

  /** A READ or a WRITE of at least one block that lies inside the unit. */
  predicate InRange(s: Start) { s.Go? && 0 < s.n && s.lba + s.n <= s.unit.nBlks }

  /** ... for which the host has sent the data. */
  predicate Supplied(s: Start, coming: seq<Octet>) { s.Go? ==> Off(s.n, s.unit.blkSize) <= |coming| }

  predicate IsRead(op: Octet) { op == READ_6 || op == READ_10 }

  /** How much of a reply of fixed form goes to the host. */
  function Answered(c: Cmd, o: Out): (r: nat)
    requires o.ret >= 0
  {
    if c.dir / 128 == 1 then Least(c.dlen, Least(o.cmd.cdlen, o.ret)) else 0
  }

  /** With pipes and a medium that do not fail, a READ or a WRITE inside the unit passes. */
  ghost predicate DoneWell(c: Cmd, u: Unit, coming: seq<Octet>, ret: int, d: Cmd)
    requires Whole(c) && u.blkSize > 0
  {
    && (IsRead(c.cb[0]) && InRange(ReadStart(c, u)) ==> ret == 0 && d.sta == PASS)
    && (c.cb[0] == WRITE_10 && InRange(WriteStart(c, u)) && Supplied(WriteStart(c, u), coming) ==>
      ret == 0 && d.sta == PASS)
  }

  ghost predicate ReadExecuted(s: Start, m: seq<Octet>, d: Cmd, v: Unit, cap: nat, bytes: seq<Octet>, lost: nat) {
    match s
    case No(o) => d == o.cmd && v == o.unit && o.ret == 0 && bytes == [] && lost == 0
    case Go(c, u, lba, n) =>
      && |m| == Off(u.nBlks, u.blkSize)
      && exists done: nat, got: nat :: got == done + lost && ReadEnd(c, u, m, lba, n, cap, d, v, 0, bytes, done, got)
  }

  ghost predicate WriteExecuted(s: Start, m: seq<Octet>, d: Cmd, v: Unit, w: seq<Octet>, data: seq<Octet>) {
    match s
    case No(_) => false
    case Go(c, u, lba, n) => |m| == Off(u.nBlks, u.blkSize) && WriteEnd(c, u, m, lba, n, d, v, w, 0, data)
  }

  predicate FixedExecuted(c: Cmd, o: Out, d: Cmd, v: Unit, bytes: seq<Octet>) {
    o.ret >= 0 && o.ret == |o.reply| && v == o.unit && var k := Answered(c, o);
    k <= c.dlen && bytes == o.reply[..k] && d == o.cmd.(dlen := c.dlen - k)
  }

  /** A command that was carried out, so that its status is reported: `c`, `u` and `m` are the
      command, the unit and its medium before, `d`, `v` and `w` after; `bytes` went to the host,
      `data` came from it, and `lost` blocks were read but not sent. */
  ghost predicate Executed(c: Cmd, u: Unit, m: seq<Octet>, d: Cmd, v: Unit, w: seq<Octet>, cap: nat,
                           bytes: seq<Octet>, data: seq<Octet>, lost: nat)
  {
    && Whole(c) && u.blkSize > 0
    && (if c.cb[0] == WRITE_10 then bytes == [] && lost == 0 && WriteExecuted(WriteStart(c, u), m, d, v, w, data)
        else
          && w == m && data == []
          && if IsRead(c.cb[0]) then ReadExecuted(ReadStart(c, u), m, d, v, cap, bytes, lost)
             else lost == 0 && FixedExecuted(c, Fixed(c, u), d, v, bytes))
  }

  predicate Answering(o: Out, d: Cmd, v: Unit, front: seq<Octet>) {
    o.ret >= 0 && d == o.cmd && v == o.unit && front == o.reply
  }

  /** A command before the end of its data phase, with `front` at the start of the buffer. */
  ghost predicate Pending(c: Cmd, u: Unit, m: seq<Octet>, d: Cmd, v: Unit, w: seq<Octet>, cap: nat,
                          bytes: seq<Octet>, data: seq<Octet>, front: seq<Octet>, lost: nat)
  {
    && Whole(c) && u.blkSize > 0
    && (if c.cb[0] == WRITE_10 then
          bytes == [] && front == [] && lost == 0 && WriteExecuted(WriteStart(c, u), m, d, v, w, data)
        else
          && w == m && data == []
          && if IsRead(c.cb[0]) then front == [] && ReadExecuted(ReadStart(c, u), m, d, v, cap, bytes, lost)
             else bytes == [] && lost == 0 && Answering(Fixed(c, u), d, v, front))
  }

  function Stage(d: Cmd, n: nat): (r: nat) { if d.dir / 128 == 1 then Least(d.dlen, Least(d.cdlen, n)) else 0 }

  lemma PendingExecuted(c: Cmd, u: Unit, m: seq<Octet>, d: Cmd, v: Unit, w: seq<Octet>, cap: nat,
                        bytes: seq<Octet>, data: seq<Octet>, front: seq<Octet>, lost: nat)
    requires Pending(c, u, m, d, v, w, cap, bytes, data, front, lost)
    ensures Stage(d, |front|) <= d.dlen && Stage(d, |front|) <= |front|
    ensures var k := Stage(d, |front|);
      Executed(c, u, m, d.(dlen := d.dlen - k), v, w, cap, bytes + front[..k], data, lost)
  {
    hide Fixed, ReadStart, WriteStart, ReadExecuted, WriteExecuted;
    var k := Stage(d, |front|);
    assert bytes + front[..0] == bytes;
    if !MovesBlocks(c.cb[0]) { assert bytes + front[..k] == front[..k]; }
    assert d.(dlen := d.dlen - 0) == d;
  }

  /** Residue conservation, over every command. The tag is kept, the status is PASS or FAIL, never a
      phase error; residue, bytes moved and blocks read but not sent make up the length announced. */
  lemma Conserved(c: Cmd, u: Unit, m: seq<Octet>, d: Cmd, v: Unit, w: seq<Octet>, cap: nat,
                  bytes: seq<Octet>, data: seq<Octet>, lost: nat)
    requires Executed(c, u, m, d, v, w, cap, bytes, data, lost) && c.sta == PASS
    ensures d.tag == c.tag && (d.sta == PASS || d.sta == FAIL) && SameUnit(u, v)
    ensures d.dlen as nat + |bytes| + |data| + Off(lost, u.blkSize) == c.dlen as nat
    ensures d.sta == PASS || !IsRead(c.cb[0]) || v.sd != UNRECOVERED_READ_ERROR ==> lost == 0
  {
    hide Fixed, ReadStart, WriteStart, Off;
    OffAdd(0, 0, u.blkSize);
    if c.cb[0] == WRITE_10 {
      var s := WriteStart(c, u);
    } else if IsRead(c.cb[0]) {
      var s := ReadStart(c, u);
      if s.Go? {
        var done: nat, got: nat :| got == done + lost &&
          ReadEnd(s.cmd, s.unit, m, s.lba, s.n, cap, d, v, 0, bytes, done, got);
        OffAdd(done, lost, u.blkSize);
      }
    }
  }

  lemma OffZero(n: nat, bs: nat)
    requires bs > 0
    ensures Off(n, bs) == 0 <==> n == 0
  {
    OffAdd(0, 0, bs);
    if n > 0 { OffMono(1, n, bs); }
  }

  /** Two blocks in one chunk at the last block of a unit: the call goes past the end. */
  lemma CallOutside()
    ensures Calls(0, 2, 2, 1) == [(0, 2)] && !Inside(Calls(0, 2, 2, 1)[0], 1)
  {
    assert Calls(2, 0, 2, 1) == [];
  }

  /** Each call starts where the one before it stopped. */
  predicate Straight(calls: seq<(nat, nat)>, lba: nat)
    decreases |calls|
  {
    calls == [] || (calls[0].0 == lba && Straight(calls[1..], lba + calls[0].1))
  }

  /** The first chunk boundary that is not inside the unit. */
  function Boundary(lba: nat, cap: nat, end: nat): (b: nat)
    requires cap > 0
    ensures b >= lba && b >= end && (lba < end ==> b >= lba + cap)
    decreases end - lba
  {
    if lba >= end then lba else Boundary(lba + cap, cap, end)
  }

  /** That boundary does not fit 32 bits, stands for a block of the unit, and is reached. */
  predicate Turns(lba: nat, n: nat, cap: nat, end: nat)
    requires cap > 0
  {
    var b := Boundary(lba, cap, end);
    0x1_0000_0000 <= b < 0x1_0000_0000 + end && b - lba < n
  }

  lemma WrapOnce(x: nat, end: U32)
    ensures x < 0x1_0000_0000 ==> Wrap32(x) == x
    ensures 0x1_0000_0000 <= x < 0x1_0000_0000 + end ==> Wrap32(x) == x - 0x1_0000_0000
    ensures x >= 0x1_0000_0000 ==> Wrap32(x) != x
  {
  }

  lemma StraightCons(call: (nat, nat), rest: seq<(nat, nat)>)
    ensures Straight([call] + rest, call.0) <==> Straight(rest, call.0 + call.1)
  {
    assert ([call] + rest)[1..] == rest;
  }

  lemma StraightStart(calls: seq<(nat, nat)>, lba: nat)
    ensures calls == [] ==> Straight(calls, lba)
    ensures calls != [] && calls[0].0 != lba ==> !Straight(calls, lba)
  {
  }

  lemma FirstCall(lba: nat, n: nat, cap: nat, end: nat)
    requires cap > 0
    ensures Calls(lba, n, cap, end) == [] <==> n == 0 || lba >= end
    ensures Calls(lba, n, cap, end) != [] ==> Calls(lba, n, cap, end)[0].0 == lba
  {
  }

  /** The write calls follow one another exactly when the counter does not start again. */
  lemma {:induction false} CallsStraight(lba: nat, n: nat, cap: nat, end: U32)
    requires 0 < cap < 0x1_0000_0000 && lba <= end
    ensures Straight(Calls(lba, n, cap, end), lba) <==> !Turns(lba, n, cap, end)
    decreases n
  {
    hide Wrap32, Straight;
    FirstCall(lba, n, cap, end);
    StraightStart(Calls(lba, n, cap, end), lba);
    if n > 0 && lba < end {
      var k := Least(n, cap);
      var next := Wrap32(lba + k);
      WrapOnce(lba + k, end);
      var rest := Calls(next, n - k, cap, end);
      assert Calls(lba, n, cap, end) == [(lba, k)] + rest;
      StraightCons((lba, k), rest);
      if lba + k <= end {
        CallsStraight(lba + k, n - k, cap, end);
        assert Turns(lba, n, cap, end) <==> Turns(lba + k, n - k, cap, end);
      } else {
        hide Calls;
        FirstCall(next, n - k, cap, end);
        StraightStart(rest, lba + k);
        assert k == cap ==> Boundary(lba, cap, end) == lba + cap;
      }
    }
  }

  /** Near the largest block number a chunk that goes past the end starts the counter again, and
      the next one is written at block 0. */
  lemma CallTurns()
    ensures Calls(0xFFFF_FFFE, 3, 2, 0xFFFF_FFFF) == [(0xFFFF_FFFE, 2), (0, 1)]
  {
    assert Calls(1, 0, 2, 0xFFFF_FFFF) == [];
    assert Calls(0, 1, 2, 0xFFFF_FFFF) == [(0, 1)];
  }

  class Ms {
    const buf: array<Octet>
    const bus: Bus
    const lus: seq<Lu>
    const nLu: Octet
    var info: Cmd
    var sel: Lu?
    var setup: bool
    var maxLunGot: bool
    /** The statuses reported so far. */
    ghost var reported: seq<Cmd>

    ghost predicate Valid()
      reads this
    {
      buf.Length >= 36 && Whole(info)
    }

    /** Every unit has blocks, and the buffer holds one of them. */
    ghost predicate UnitsOk()
      reads this, lus
    {
      forall lu | lu in lus :: lu.Valid() && Cap(lu.unit) > 0
    }

    /** No phase error has ever been reported. */
    ghost predicate Honest()
      reads this
    {
      forall c | c in reported :: c.sta == PASS || c.sta == FAIL
    }

    constructor (size: nat, b: Bus, units: seq<Lu>, n: Octet)
      requires size >= 36
      ensures Valid() && fresh(buf) && buf.Length == size && bus == b && lus == units && nLu == n && sel == null
      ensures reported == [] && !setup && !maxLunGot
    {
      buf, bus, lus, nLu := new Octet[size](_ => 0), b, units, n;
      info, sel, setup, maxLunGot, reported := Cmd(0, 0, 0, seq(16, _ => 0), 0, 0, 0), null, false, false, [];
    }

    /** A handler has had the effect given by the specification of its command. */
    ghost predicate Did(o: Out, lu: Lu, ret: int)
      reads this, lu, buf
    {
      info == o.cmd && lu.unit == o.unit && ret == o.ret && |o.reply| <= buf.Length && buf[..|o.reply|] == o.reply
    }

    method CmdCheck(lu: Lu, clen: Octet, cdlen: U32, dir: Octet) returns (ok: bool)
      requires Valid()
      modifies this`info, lu`unit
      ensures Valid() && Checked(info, lu.unit, ok) == Check(old(info), old(lu.unit), clen, cdlen, dir)
    {
      info := info.(cdlen := cdlen);
      if info.dlen < info.cdlen || (info.cdlen != 0 && info.dir != dir) || info.clen < clen {
        info := info.(sta := PHASE_ERROR);
        return false;
      }
      if info.cb[0] != REQUEST_SENSE {
        lu.unit := lu.unit.(sd := NO_SENSE, info := 0, infoValid := false);
      }
      return true;
    }

    /** The error exit shared by the handlers. */
    method Reject(lu: Lu, sd: U32) returns (ret: int)
      modifies this`info, lu`unit
      ensures info == old(info).(sta := FAIL) && lu.unit == old(lu.unit).(sd := sd) && ret == 0
    {
      lu.unit := lu.unit.(sd := sd);
      info := info.(sta := FAIL);
      return 0;
    }

    method UnitReady(lu: Lu) returns (ret: int)
      requires Valid()
      modifies this`info, lu`unit
      ensures Did(UnitReadyOut(old(info), old(lu.unit)), lu, ret)
    {
      var ok := CmdCheck(lu, 6, 0, FLAG_OUT);
      return if ok then 0 else -EILLEGAL;
    }

    method RequestSense(lu: Lu) returns (ret: int)
      requires Valid()
      modifies this`info, lu`unit, buf
      ensures Did(RequestSenseOut(old(info), old(lu.unit)), lu, ret)
    {
      hide SenseBytes;
      var ok := CmdCheck(lu, 6, info.cb[4], FLAG_IN);
      if !ok {
        return -EILLEGAL;
      }
      var data, info', valid := lu.unit.sd, lu.unit.info, if lu.unit.infoValid then 0x80 else 0;
      lu.unit := lu.unit.(sd := NO_SENSE, info := 0, infoValid := false);
      SenseFill(data, info', valid);
      return 18;
    }

    method SenseFill(sd: U32, info': U32, valid: Octet)
      requires buf.Length >= 36 && (valid == 0 || valid == 0x80)
      modifies buf
      ensures forall u: Unit :: u.sd == sd && u.info == info' && (u.infoValid <==> valid != 0) ==>
        buf[..18] == SenseBytes(u)
    {
      hide Part;
      Fill(buf, 0, 18, 0);
      buf[0] := valid + 0x70;
      buf[2] := Part(sd, 2);
      Be32Store(info', buf, 3);
      buf[7] := 18 - 8;
      buf[12] := Part(sd, 1);
      buf[13] := Part(sd, 0);
      hide SenseBytes;
      ghost var r := buf[..18];
      forall u: Unit | u.sd == sd && u.info == info' && (u.infoValid <==> valid != 0) ensures r == SenseBytes(u) {
        SenseIs(r, u);
      }
    }

    method Inquiry(lu: Lu) returns (ret: int)
      requires Valid()
      modifies this`info, lu`unit, buf
      ensures Did(InquiryOut(old(info), old(lu.unit)), lu, ret)
    {
      var ok := CmdCheck(lu, 6, info.cb[4], FLAG_IN);
      if !ok {
        return -EILLEGAL;
      }
      buf[0] := if lu.unit.rdonly then 5 else 0;
      buf[1] := if lu.unit.removable then 0x80 else 0;
      buf[2], buf[3], buf[4], buf[5], buf[6], buf[7] := 0, 1, 31, 0, 0, 0;
      Fill(buf, 8, 28, 0);
      assert buf[..36] == InquiryOut(old(info), old(lu.unit)).reply;
      return 36;
    }

    method FormatCapacities(lu: Lu) returns (ret: int)
      requires Valid()
      modifies this`info, lu`unit, buf
      ensures Did(FormatCapacitiesOut(old(info), old(lu.unit)), lu, ret)
    {
      hide Part, Be16;
      var ok := CmdCheck(lu, 10, Be16(info.cb, 7), FLAG_IN);
      if !ok {
        return -EILLEGAL;
      }
      buf[0], buf[1], buf[2], buf[3] := 0, 0, 0, 8;
      Be32Store(lu.unit.nBlks, buf, 4);
      Be32Store(lu.unit.blkSize, buf, 8);
      buf[8] := 2;
      assert buf[..12] == FormatCapacitiesOut(old(info), old(lu.unit)).reply;
      return 12;
    }

    method Capacity(lu: Lu) returns (ret: int)
      requires Valid()
      modifies this`info, lu`unit, buf
      ensures Did(CapacityOut(old(info), old(lu.unit)), lu, ret)
    {
      hide Part, Be32;
      var ok := CmdCheck(lu, 10, 8, FLAG_IN);
      if !ok {
        return -EILLEGAL;
      }
      if info.cb[8] > 1 || (info.cb[8] == 0 && Be32(info.cb, 2) != 0) {
        ret := Reject(lu, INVALID_FIELD);
        return;
      }
      Be32Store(lu.unit.nBlks, buf, 0);
      Be32Store(lu.unit.blkSize, buf, 4);
      assert buf[..8] == CapacityOut(old(info), old(lu.unit)).reply;
      return 8;
    }

    method PreventAllow(lu: Lu) returns (ret: int)
      requires Valid()
      modifies this`info, lu`unit
      ensures Did(PreventAllowOut(old(info), old(lu.unit)), lu, ret)
    {
      var ok := CmdCheck(lu, 6, 0, FLAG_OUT);
      if !ok {
        return -EILLEGAL;
      }
      if !lu.unit.removable {
        ret := Reject(lu, INVALID_COMMAND);
        return;
      }
      if info.cb[4] / 2 != 0 {
        ret := Reject(lu, INVALID_FIELD);
        return;
      }
      lu.unit := lu.unit.(prevented := info.cb[4] % 2 == 1);
      return 0;
    }

    /** The reply common to the two MODE SENSE commands. */
    method ModePages(lu: Lu) returns (ret: int)
      requires Valid()
      modifies this`info, lu`unit, buf
      ensures Did(ModeSense(Checked(old(info), old(lu.unit), true)), lu, ret)
    {
      if info.cb[1] / 16 != 0 || info.cb[1] % 8 != 0 {
        ret := Reject(lu, INVALID_FIELD);
        return;
      }
      var pc, page := info.cb[2] / 64, info.cb[2] % 64;
      if pc == 3 {
        ret := Reject(lu, SAVING_NOT_SUPPORTED);
        return;
      }
      var short := info.cb[0] == MODE_SENSE_6;
      var p := HeadFill(short, lu.unit.rdonly);
      var valid := page == 8 || page == 0x3F;
      if valid {
        PageFill(p, pc == 1);
        p := p + 12;
      }
      if !valid {
        ret := Reject(lu, INVALID_FIELD);
        return;
      }
      LengthFill(short, lu.unit.rdonly, p, pc == 1);
      return p;
    }

    /** The mode parameter header without its length. */
    method HeadFill(short: bool, rdonly: bool) returns (p: nat)
      requires buf.Length >= 36
      modifies buf
      ensures p == |ModeHead(short, rdonly)| && forall k | (if short then 1 else 2) <= k < p ::
        buf[k] == ModeHead(short, rdonly)[k]
    {
      Fill(buf, 0, 8, 0);
      buf[if short then 2 else 3] := if rdonly then 0x80 else 0;
      return if short then 4 else 8;
    }

    method PageFill(p: nat, changeable: bool)
      requires p + 12 <= buf.Length
      modifies buf
      ensures forall k | 0 <= k < 12 :: buf[p + k] == CachingPage(changeable)[k]
      ensures forall k | 0 <= k < p :: buf[k] == old(buf[k])
    {
      buf[p], buf[p + 1] := 8, 10;
      Fill(buf, p + 2, 10, 0);
      if !changeable {
        buf[p + 2] := 4;
        Be16Store(0xFFFF, buf, p + 4);
        Be16Store(0xFFFF, buf, p + 8);
        Be16Store(0xFFFF, buf, p + 10);
        assert Part(0xFFFF, 0) == 0xFF && Part(0xFFFF, 1) == 0xFF;
      }
    }

    /** The length in front: it does not count the bytes it stands in. */
    method LengthFill(short: bool, rdonly: bool, p: nat, changeable: bool)
      requires p == |ModeHead(short, rdonly)| + 12 && p <= buf.Length
      requires forall k | (if short then 1 else 2) <= k < p - 12 :: buf[k] == ModeHead(short, rdonly)[k]
      requires forall k | 0 <= k < 12 :: buf[p - 12 + k] == CachingPage(changeable)[k]
      modifies buf
      ensures buf[..p] == ModeHead(short, rdonly) + CachingPage(changeable)
    {
      hide CachingPage;
      if short {
        buf[0] := p - 1;
      } else {
        Be16Store(p - 2, buf, 0);
      }
      assert buf[..p - 12] == ModeHead(short, rdonly);
      assert buf[p - 12..p] == CachingPage(changeable);
    }

    method ModeSense6(lu: Lu) returns (ret: int)
      requires Valid() && info.cb[0] == MODE_SENSE_6
      modifies this`info, lu`unit, buf
      ensures Did(ModeSenseOut(old(info), old(lu.unit)), lu, ret)
    {
      hide ModeHead, CachingPage;
      var ok := CmdCheck(lu, 6, info.cb[4], FLAG_IN);
      if !ok {
        return -EILLEGAL;
      }
      ret := ModePages(lu);
    }

    method ModeSense10(lu: Lu) returns (ret: int)
      requires Valid() && info.cb[0] == MODE_SENSE_10
      modifies this`info, lu`unit, buf
      ensures Did(ModeSenseOut(old(info), old(lu.unit)), lu, ret)
    {
      hide ModeHead, CachingPage, Be16;
      var ok := CmdCheck(lu, 10, Be16(info.cb, 7), FLAG_IN);
      if !ok {
        return -EILLEGAL;
      }
      ret := ModePages(lu);
    }

    method StartStop(lu: Lu) returns (ret: int)
      requires Valid()
      modifies this`info, lu`unit
      ensures Did(StartStopOut(old(info), old(lu.unit)), lu, ret)
    {
      var ok := CmdCheck(lu, 6, 0, FLAG_OUT);
      if !ok {
        return -EILLEGAL;
      }
      if !lu.unit.removable {
        ret := Reject(lu, INVALID_COMMAND);
        return;
      }
      if info.cb[1] / 2 != 0 || info.cb[4] / 4 != 0 {
        ret := Reject(lu, INVALID_FIELD);
        return;
      }
      return 0;
    }

    method StoreCdromAddr(p: nat, msf: bool, addr: U32)
      requires p + 4 <= buf.Length
      modifies buf
      ensures forall k | 0 <= k < 4 :: buf[p + k] == CdromAddr(msf, addr)[k]
      ensures forall k | 0 <= k < buf.Length && (k < p || p + 4 <= k) :: buf[k] == old(buf[k])
    {
      if msf {
        var f := addr as int / 4 + 150;
        buf[p + 3] := f % 75;
        buf[p + 2] := f / 75 % 60;
        buf[p + 1] := f / 75 / 60 % 256;
        buf[p] := 0;
      } else {
        Be32Store(addr, buf, p);
      }
    }

    method Toc(lu: Lu) returns (ret: int)
      requires Valid()
      modifies this`info, lu`unit, buf
      ensures Did(TocOut(old(info), old(lu.unit)), lu, ret)
    {
      hide Be16, TocBytes;
      if !lu.unit.rdonly {
        return -EILLEGAL;
      }
      var msf := Msf(info);
      var ok := CmdCheck(lu, 10, Be16(info.cb, 7), FLAG_IN);
      if !ok {
        return -EILLEGAL;
      }
      if (info.cb[1] != 0 && info.cb[1] != 2) || info.cb[6] > 1 {
        ret := Reject(lu, INVALID_FIELD);
        return;
      }
      TocFill(msf, lu.unit.nBlks);
      return 20;
    }

    method TocFill(msf: bool, nBlks: U32)
      requires buf.Length >= 36
      modifies buf
      ensures buf[..20] == TocBytes(msf, nBlks)
    {
      hide CdromAddr;
      Fill(buf, 0, 20, 0);
      buf[1], buf[2], buf[3], buf[5], buf[6] := 18, 1, 1, 0x16, 1;
      StoreCdromAddr(8, msf, 0);
      buf[13], buf[14] := 0x16, 0xAA;
      StoreCdromAddr(16, msf, nBlks);
    }

    method Synchronize(lu: Lu) returns (ret: int)
      requires Valid()
      modifies this`info, lu`unit
      ensures Did(SynchronizeOut(old(info), old(lu.unit)), lu, ret)
    {
      var ok := CmdCheck(lu, 10, 0, FLAG_OUT);
      return if ok then 0 else -EILLEGAL;
    }

    method Header(lu: Lu) returns (ret: int)
      requires Valid()
      modifies this`info, lu`unit, buf
      ensures Did(HeaderOut(old(info), old(lu.unit)), lu, ret)
    {
      hide Be16, Be32, CdromAddr;
      var msf, lba := Msf(info), Be32(info.cb, 2);
      var ok := CmdCheck(lu, 10, Be16(info.cb, 7), FLAG_IN);
      if !ok {
        return -EILLEGAL;
      }
      if info.cb[1] != 0 && info.cb[1] != 2 {
        lu.unit := lu.unit.(sd := INVALID_FIELD);
        return -EILLEGAL;
      }
      if lba >= lu.unit.nBlks {
        ret := Reject(lu, OUT_OF_RANGE);
        return;
      }
      Fill(buf, 0, 8, 0);
      buf[0] := 1;
      StoreCdromAddr(4, msf, lba);
      assert buf[..8] == HeaderOut(old(info), old(lu.unit)).reply;
      return 8;
    }

    method Unknown(lu: Lu) returns (ret: int)
      requires Valid()
      modifies this`info, lu`unit
      ensures Did(UnknownOut(old(info), old(lu.unit)), lu, ret)
    {
      var ok := CmdCheck(lu, info.clen, 0, FLAG_OUT);
      if !ok {
        return -EILLEGAL;
      }
      ret := Reject(lu, INVALID_COMMAND);
    }

    // ---- READ and WRITE ----

    /** Blocks that the buffer holds. */
    ghost function Cap(u: Unit): (r: nat)
      requires u.blkSize > 0
    {
      Quotient(buf.Length, u.blkSize)
    }

    /** A transfer to the host that counts only when all of it arrives. */
    method SendAll(len: nat, ghost sent0: seq<seq<Octet>>) returns (ret: int)
      requires len <= buf.Length && Sends(sent0, bus.sent, buf.Length)
      modifies bus`sent
      ensures Sends(sent0, bus.sent, buf.Length) && |sent0| <= |bus.sent| && |sent0| <= |old(bus.sent)|
      ensures ret == 0 ==> Since(sent0, bus.sent) == Since(sent0, old(bus.sent)) + buf[..len]
      ensures Grew(Since(sent0, old(bus.sent)), Since(sent0, bus.sent), buf[..len])
      ensures bus.dependable ==> ret == 0
      ensures ret <= 0
    {
      hide Since, Sends;
      var e, wr := bus.Write(buf, len);
      SendsMore(sent0, old(bus.sent), buf.Length, buf[..wr]);
      assert buf[..len][..wr] == buf[..wr];
      if e != 0 {
        return e;
      } else if wr != len {
        return -EWRITE;
      }
      return 0;
    }

    /** One chunk of a READ: from the medium into the buffer, from the buffer to the host. The
        residue falls by what was read, before anything is sent. */
    method ReadChunk(lu: Lu, lba: nat, n: nat, ghost sent0: seq<seq<Octet>>) returns (ret: int, rd: nat)
      requires lu.Valid() && lba + n <= lu.unit.nBlks && Off(n, lu.unit.blkSize) <= buf.Length
      requires Off(n, lu.unit.blkSize) <= info.dlen && Sends(sent0, bus.sent, buf.Length)
      modifies this`info, lu`unit, lu`answers, buf, bus`sent
      ensures lu.answers == old(lu.answers) + [Answer(n, rd)] && rd == lu.Delivers(|old(lu.answers)|, lba, n)
      ensures rd <= n && SameUnit(old(lu.unit), lu.unit) && lu.Valid() && Off(rd, lu.unit.blkSize) <= old(info.dlen)
      ensures info == old(info).(dlen := old(info.dlen) - Off(rd, lu.unit.blkSize),
                                 sta := if rd < n then FAIL else old(info).sta)
      ensures Sends(sent0, bus.sent, buf.Length) && |sent0| <= |bus.sent| && |sent0| <= |old(bus.sent)|
      ensures rd < n ==> && ret == 0 && Since(sent0, bus.sent) == Since(sent0, old(bus.sent))
                         && lu.unit == old(lu.unit).(sd := UNRECOVERED_READ_ERROR, info := lba + rd, infoValid := true)
      ensures rd == n ==> lu.unit == old(lu.unit) && Off(lba + n, lu.unit.blkSize) <= |lu.medium|
      ensures rd == n && ret == 0 ==>
        Since(sent0, bus.sent) == Since(sent0, old(bus.sent)) + Span(lu.medium, lu.unit.blkSize, lba, n)
      ensures rd == n ==> Grew(Since(sent0, old(bus.sent)), Since(sent0, bus.sent),
        Span(lu.medium, lu.unit.blkSize, lba, n))
      ensures bus.dependable ==> ret == 0
      ensures ret <= 0
    {
      hide Off, Span, Since, Sends, Grew;
      SendsSize(sent0, bus.sent, buf.Length);
      var bs := lu.unit.blkSize;
      OffMono(lba + n, lu.unit.nBlks, bs);
      OffAdd(0, 0, bs);
      OffMono(0, n, bs);
      var e, act := lu.BlkRead(buf, lba, n);
      rd := if e != 0 then 0 else act;
      OffMono(rd, n, bs);
      info := info.(dlen := info.dlen - Off(rd, bs));
      if rd < n {
        lu.unit := lu.unit.(sd := UNRECOVERED_READ_ERROR, info := lba + rd, infoValid := true);
        info := info.(sta := FAIL);
        return 0, rd;
      }
      ret := SendAll(Off(rd, bs), sent0);
    }

    /** The loop of `__read`. Every block read lies inside the unit and fits the buffer, as the
        contract of the callback demands. */
    method ReadChunks(lu: Lu, lba0: nat, n0: nat) returns (ret: int, ghost done: nat, ghost got: nat)
      requires Valid() && lu.Valid() && lba0 < lu.unit.nBlks && Off(n0, lu.unit.blkSize) <= info.dlen
      requires info.sta == PASS
      modifies this`info, lu`unit, lu`answers, buf, bus`sent
      ensures ret == 0 ==>
        && lu.answers == old(lu.answers) + Asked(lu, |old(lu.answers)|, lba0, n0, Cap(old(lu.unit)), old(lu.unit.nBlks))
        && got == done + Lost(Asked(lu, |old(lu.answers)|, lba0, n0, Cap(old(lu.unit)), old(lu.unit.nBlks)))
      ensures SameUnit(old(lu.unit), lu.unit)
      ensures Valid() && lu.Valid() && Sends(old(bus.sent), bus.sent, buf.Length) && |old(bus.sent)| <= |bus.sent|
      ensures ReadEnd(old(info), old(lu.unit), lu.medium, lba0, n0, Cap(old(lu.unit)), info, lu.unit, ret,
                      Since(old(bus.sent), bus.sent), done, got)
      ensures bus.dependable ==> ret == 0
      ensures lu.dependable && bus.dependable ==>
        && (info.sta != PASS ==> lu.unit.sd == OUT_OF_RANGE)
        && (info.sta == PASS <==> 0 < n0 && 0 < Cap(old(lu.unit)) && lba0 + n0 <= old(lu.unit.nBlks))
      ensures ret <= 0
    {
      hide Off, Span, Flat, Since, Sends, ReadEnd, Grew, Asked, Lost, AskedSoFar, Quotient, Least;
      var bs, end := lu.unit.blkSize, lu.unit.nBlks;
      var cap := Quotient(buf.Length, bs);
      var lba, n := lba0, n0;
      ghost var c, u, m, sent0 := info, lu.unit, lu.medium, bus.sent;
      ghost var t, a, all := lu.answers, [], Asked(lu, |lu.answers|, lba0, n0, cap, end);
      done, got := 0, 0;
      SendsNothing(sent0, buf.Length);
      ReadStartFacts(m, bs, lba0, n0, end);
      AskedFirst(lu, |lu.answers|, all, lba0, n0, cap, end);
      while true
        invariant lu.answers == t + a && AskedSoFar(lu, a, |lu.answers|, all, lba, n, cap, end)
        invariant done == got && lba == lba0 + done && n == n0 - done && lba <= end
        invariant Off(done, bs) <= c.dlen && info == c.(dlen := c.dlen - Off(done, bs))
        invariant Sends(sent0, bus.sent, buf.Length)
        invariant |sent0| <= |bus.sent| && Off(lba0 + done, bs) <= |m|
        invariant Since(sent0, bus.sent) == Span(m, bs, lba0, done)
        invariant done > 0 ==> n > 0 && cap > 0
        invariant lu.unit == u && lu.medium == m && lu.Valid()
        decreases n
      {
        var tmp := Least(Least(n, cap), end - lba);
        if tmp == 0 {
          AskedNone(lu, a, |lu.answers|, all, lba, n, cap, end);
          lu.unit := lu.unit.(sd := OUT_OF_RANGE, info := lba, infoValid := true);
          info := info.(sta := FAIL);
          assert lu.unit.nBlks == end && lu.unit.blkSize == bs;
          RanOff(c, u, m, lba0, n0, cap, done);
          return 0, done, got;
        }
        OffQuotient(tmp, bs, buf.Length);
        ReadMore(m, bs, lba0, done, tmp, n0, c.dlen, end);
        AskedNext(lu, a, |lu.answers|, all, lba, n, cap, end, tmp);
        var rd;
        ret, rd := ReadChunk(lu, lba, tmp, sent0);
        Reassociate(t, a, [Answer(tmp, rd)]);
        a := a + [Answer(tmp, rd)];
        ReadMore(m, bs, lba0, done, rd, n0, c.dlen, end);
        n, lba, got := n - rd, lba + rd, got + rd;
        if rd < tmp {
          Broken(c, u, m, lba0, n0, cap, done, got);
          return 0, done, got;
        }
        SpanPrefix(m, bs, lba0, done, rd, Span(m, bs, lba0 + done, rd));
        if ret != 0 {
          CutShort(c, u, m, lba0, n0, cap, ret, Since(sent0, bus.sent), done, got);
          return ret, done, got;
        }
        done := got;
        if n == 0 {
          break;
        }
      }
      AskedNone(lu, a, |lu.answers|, all, lba, 0, cap, end);
      AllRead(c, u, m, lba0, n0, cap);
      return 0, done, got;
    }

    /** One chunk of a WRITE: from the host into the buffer, from the buffer to the medium. */
    method WriteChunk(lu: Lu, lba: nat, n: nat) returns (ret: int, ghost chunk: seq<Octet>, ghost put: seq<Octet>)
      requires lu.Valid() && lba < lu.unit.nBlks && Off(n, lu.unit.blkSize) <= buf.Length
      modifies this`info, lu`unit, lu`medium, lu`calls, buf, bus`coming
      ensures old(bus.coming) == chunk + bus.coming && |chunk| <= Off(n, old(lu.unit.blkSize))
      ensures info == old(info).(sta := info.sta) && SameUnit(old(lu.unit), lu.unit)
      ensures FaultNoted(old(info), old(lu.unit), info, lu.unit)
      ensures Off(lba, lu.unit.blkSize) <= |old(lu.medium)|
      ensures |put| <= Off(n, lu.unit.blkSize) && lu.medium == Put(old(lu.medium), lu.unit.blkSize, lba, put)
      ensures ret == 0 ==> info == old(info) && lu.unit == old(lu.unit)
      ensures ret == 0 ==> |chunk| == Off(n, lu.unit.blkSize) && put == chunk
      ensures lu.calls == old(lu.calls) + [(lba, n)] || (ret != 0 && lu.calls == old(lu.calls))
      ensures lu.dependable && bus.dependable && lba + n <= old(lu.unit.nBlks) ==>
        Off(n, old(lu.unit.blkSize)) <= |old(bus.coming)| ==> ret == 0
      ensures ret <= 0
    {
      hide Off, Put;
      OffMono(lba, lu.unit.nBlks, lu.unit.blkSize);
      PutNone(lu.medium, lu.unit.blkSize, lba);
      OffMono(0, n, lu.unit.blkSize);
      OffAdd(0, 0, lu.unit.blkSize);
      var len := Off(n, lu.unit.blkSize);
      var e, rd := bus.Read(buf, len);
      chunk, put := buf[..rd], [];
      if e != 0 {
        lu.unit := lu.unit.(sd := COMMUNICATION_FAILURE, info := lba, infoValid := true);
        info := info.(sta := FAIL);
        return e, chunk, put;
      } else if rd != len {
        return -EREAD, chunk, put;
      }
      var act;
      e, act, put := lu.BlkWrite(buf, lba, n);
      if e != 0 {
        return e, chunk, put;
      }
      if act != n {
        lu.unit := lu.unit.(sd := WRITE_ERROR, info := lba, infoValid := true);
        info := info.(sta := FAIL);
        return -EWRITE, chunk, put;
      }
      return 0, chunk, put;
    }

    /** The loop of `__write`, for a buffer of at least one block. Chunks are not clipped, and the
        counters have 32 bits. */
    method WriteChunks(lu: Lu, lba0: nat, n0: nat) returns (ret: int, ghost data: seq<Octet>)
      requires Valid() && lu.Valid() && lba0 < lu.unit.nBlks && Off(n0, lu.unit.blkSize) <= info.dlen
      requires Cap(lu.unit) > 0
      modifies this`info, lu`unit, lu`medium, lu`calls, buf, bus`coming
      ensures ret == 0 ==> info.sta == old(info).sta
      ensures SameUnit(old(lu.unit), lu.unit)
      ensures Valid() && lu.Valid() && old(bus.coming) == data + bus.coming
      ensures WriteEnd(old(info), old(lu.unit), old(lu.medium), lba0, n0, info, lu.unit, lu.medium, ret, data)
      ensures var all := Calls(lba0, n0, Cap(old(lu.unit)), old(lu.unit.nBlks));
        old(lu.calls) <= lu.calls <= old(lu.calls) + all && (ret == 0 ==> lu.calls == old(lu.calls) + all)
      ensures ret == 0 ==> lu.medium == Applied(old(lu.medium), old(lu.unit.blkSize), lu.calls[|old(lu.calls)|..], data)
      ensures lu.dependable && bus.dependable && lba0 + n0 <= old(lu.unit.nBlks) ==>
        Off(n0, old(lu.unit.blkSize)) <= |old(bus.coming)| ==> ret == 0
      ensures ret <= 0
    {
      hide Off, Put, WriteEnd, Calls, Applied, Wrap32, Wrote, Quotient, Least;
      var bs, end := lu.unit.blkSize, lu.unit.nBlks;
      var cap := Quotient(buf.Length, bs);
      var uoff: nat, lba: nat, n: nat := lba0, lba0, n0;
      ghost var c, u, m, coming0, calls0 := info, lu.unit, lu.medium, bus.coming, lu.calls;
      ghost var done: nat, cs: seq<(nat, nat)> := 0, [];
      data := [];
      WroteFirst(m, bs, end, lba0, n0);
      while n > 0
        invariant lba == uoff && done <= n0 && n == n0 - done && Off(done, bs) <= Off(n0, bs)
        invariant Wrote(m, bs, end, lba0, n0, done, lba, data, lu.medium, cs)
        invariant coming0 == data + bus.coming && |data| == Off(done, bs)
        invariant info == c.(dlen := c.dlen - Off(done, bs)) && lu.unit == u && lu.Valid()
        invariant lu.calls == calls0 + cs && calls0 + Calls(lba0, n0, cap, end) == lu.calls + Calls(lba, n, cap, end)
        decreases n
      {
        WroteAt(m, bs, end, lba0, n0, done, lba, data, lu.medium, cs);
        if uoff >= end {
          lu.unit := lu.unit.(sd := OUT_OF_RANGE, info := uoff, infoValid := true);
          info := info.(sta := FAIL);
          WroteNone(c, u, m, lba0, n0, done, lba, data, cs, info, lu.unit, lu.medium, -EILLEGAL);
          return -EILLEGAL, data;
        }
        var nout := Least(n, cap);
        OffQuotient(nout, bs, buf.Length);
        WriteMore(bs, done, nout, n0);
        CallsStep(lba, n, cap, end, lu.calls);
        uoff, n := Wrap32(uoff + nout), n - nout;
        ghost var w := lu.medium;
        ghost var chunk, x;
        ret, chunk, x := WriteChunk(lu, lba, nout);
        Reassociate(data, chunk, bus.coming);
        if ret != 0 {
          WroteSome(c, u, m, lba0, n0, done, lba, data, cs, w, nout, chunk, x, info, lu.unit, lu.medium, ret);
          return ret, data + chunk;
        }
        WroteNext(m, bs, end, lba0, n0, done, lba, data, w, cs, nout, chunk);
        ghost var call: (nat, nat) := (lba, nout);
        Reassociate(calls0, cs, [call]);
        cs := cs + [call];
        lba, done, data := Wrap32(lba + nout), done + nout, data + chunk;
        info := info.(dlen := info.dlen - Off(nout, bs));
      }
      WroteAll(c, u, m, lba0, n0, lba, data, lu.medium, cs);
      NoCalls(lba, cap, end, lu.calls);
      assert lu.calls[|calls0|..] == cs;
      return 0, data;
    }

    /** `__read`, after the checks. */
    method Read(lu: Lu) returns (ret: int, ghost done: nat, ghost got: nat)
      requires Valid() && lu.Valid() && info.sta == PASS && info.cdlen <= info.dlen
      requires info.cb[0] == READ_6 || info.cb[0] == READ_10
      modifies this`info, lu`unit, lu`answers, buf, bus`sent
      ensures SameUnit(old(lu.unit), lu.unit)
      ensures Valid() && lu.Valid() && ret <= 0
      ensures ReadDid(ReadGo(Checked(old(info), old(lu.unit), true)), old(bus.sent), old(lu.answers),
                      lu, ret, done, got)
    {
      hide Off, ReadEnd, Sends, Be32, CacheBits;
      done, got := 0, 0;
      var six := info.cb[0] == READ_6;
      var lba := if six then Be32(info.cb, 0) % 0x20_0000 else Be32(info.cb, 2);
      if !six && !CacheBits(info.cb[1]) {
        ret := Reject(lu, INVALID_FIELD);
        return;
      }
      if lba >= lu.unit.nBlks {
        ret := Reject(lu, OUT_OF_RANGE);
        return;
      }
      if info.cdlen == 0 {
        return -EILLEGAL, done, got;
      }
      var n := Quotient(info.cdlen, lu.unit.blkSize);
      OffQuotient(n, lu.unit.blkSize, info.cdlen);
      ret, done, got := ReadChunks(lu, lba, n);
    }

    /** A READ did not start and had the effect given, or it ran and ended in one of its ways. */
    ghost predicate ReadDid(s: Start, before: seq<seq<Octet>>, told: seq<Answer>, lu: Lu, ret: int, done: nat, got: nat)
      reads this, lu, buf, bus
    {
      match s
      case No(o) => Did(o, lu, ret) && bus.sent == before && lu.answers == told
      case Go(c, u, lba, n) =>
        && u.blkSize > 0 && |lu.medium| == Off(u.nBlks, u.blkSize) && Sends(before, bus.sent, buf.Length) &&
          |before| <= |bus.sent|
        && ReadEnd(c, u, lu.medium, lba, n, Cap(u), info, lu.unit, ret, Since(before, bus.sent), done, got)
        && (ret == 0 ==> lu.answers == told + Asked(lu, |told|, lba, n, Cap(u), u.nBlks)
                         && got == done + Lost(Asked(lu, |told|, lba, n, Cap(u), u.nBlks)))
        && (bus.dependable ==> ret == 0)
        && (lu.dependable && bus.dependable ==>
              && (info.sta != PASS ==> lu.unit.sd == OUT_OF_RANGE)
              && (info.sta == PASS <==> 0 < n && 0 < Cap(u) && lba + n <= u.nBlks))
    }

    method Read6(lu: Lu) returns (ret: int, ghost done: nat, ghost got: nat)
      requires Valid() && lu.Valid() && info.sta == PASS && info.cb[0] == READ_6
      modifies this`info, lu`unit, lu`answers, buf, bus`sent
      ensures SameUnit(old(lu.unit), lu.unit)
      ensures Valid() && lu.Valid() && ret <= 0
      ensures ReadDid(ReadStart(old(info), old(lu.unit)), old(bus.sent), old(lu.answers), lu, ret, done, got)
    {
      hide Off, ReadEnd, Sends, Be32, CacheBits, ReadGo, Times;
      done, got := 0, 0;
      var n: nat := if info.cb[4] != 0 then info.cb[4] else 256;
      var ok := CmdCheck(lu, 6, Times(n, lu.unit.blkSize), FLAG_IN);
      if !ok {
        return -EILLEGAL, done, got;
      }
      ret, done, got := Read(lu);
    }

    method Read10(lu: Lu) returns (ret: int, ghost done: nat, ghost got: nat)
      requires Valid() && lu.Valid() && info.sta == PASS && info.cb[0] == READ_10
      modifies this`info, lu`unit, lu`answers, buf, bus`sent
      ensures SameUnit(old(lu.unit), lu.unit)
      ensures Valid() && lu.Valid() && ret <= 0
      ensures ReadDid(ReadStart(old(info), old(lu.unit)), old(bus.sent), old(lu.answers), lu, ret, done, got)
    {
      hide Off, ReadEnd, Sends, Be16, Be32, CacheBits, ReadGo, Times;
      done, got := 0, 0;
      var ok := CmdCheck(lu, 10, Times(Be16(info.cb, 7), lu.unit.blkSize), FLAG_IN);
      if !ok {
        return -EILLEGAL, done, got;
      }
      ret, done, got := Read(lu);
    }

    /** A WRITE did not start and had the effect given, or it ran and ended in one of its ways. */
    ghost predicate WriteDid(s: Start, m: seq<Octet>, calls: seq<(nat, nat)>, lu: Lu, ret: int, data: seq<Octet>)
      reads this, lu, buf
    {
      match s
      case No(o) => Did(o, lu, ret) && data == [] && lu.medium == m && lu.calls == calls
      case Go(c, u, lba, n) =>
        && u.blkSize > 0 && |m| == Off(u.nBlks, u.blkSize) && Cap(u) > 0
        && WriteEnd(c, u, m, lba, n, info, lu.unit, lu.medium, ret, data)
        && calls <= lu.calls <= calls + Calls(lba, n, Cap(u), u.nBlks)
        && (ret == 0 ==> lu.calls == calls + Calls(lba, n, Cap(u), u.nBlks))
    }

    /** `__write`, after the checks. */
    method Write(lu: Lu) returns (ret: int, ghost data: seq<Octet>)
      requires Valid() && lu.Valid() && info.cdlen <= info.dlen && Cap(lu.unit) > 0 && info.cb[0] != READ_6
      modifies this`info, lu`unit, lu`medium, lu`calls, buf, bus`coming
      ensures ret == 0 ==> info.sta == old(info).sta
      ensures SameUnit(old(lu.unit), lu.unit)
      ensures Valid() && lu.Valid() && old(bus.coming) == data + bus.coming && ret <= 0
      ensures WriteDid(WriteGo(Checked(old(info), old(lu.unit), true)), old(lu.medium), old(lu.calls), lu, ret, data)
      ensures match WriteGo(Checked(old(info), old(lu.unit), true))
        case No(_) => true
        case Go(_, u, lba, n) =>
          lu.dependable && bus.dependable && lba + n <= u.nBlks && Off(n, u.blkSize) <= |old(bus.coming)| ==> ret == 0
    {
      hide Off, WriteEnd, Be32, CacheBits, Calls;
      data := [];
      if lu.unit.rdonly {
        ret := Reject(lu, WRITE_PROTECTED);
        return -EPERM, data;
      }
      var six := info.cb[0] == WRITE_6;
      var lba := if six then Be32(info.cb, 0) % 0x20_0000 else Be32(info.cb, 2);
      if !six && !CacheBits(info.cb[1]) {
        ret := Reject(lu, INVALID_FIELD);
        return -EILLEGAL, data;
      }
      if lba >= lu.unit.nBlks {
        ret := Reject(lu, OUT_OF_RANGE);
        return -EILLEGAL, data;
      }
      if info.cdlen == 0 {
        return -EPERM, data;
      }
      var n := Quotient(info.cdlen, lu.unit.blkSize);
      OffQuotient(n, lu.unit.blkSize, info.cdlen);
      ret, data := WriteChunks(lu, lba, n);
    }

    method Write10(lu: Lu) returns (ret: int, ghost data: seq<Octet>)
      requires Valid() && lu.Valid() && Cap(lu.unit) > 0 && info.cb[0] == WRITE_10
      modifies this`info, lu`unit, lu`medium, lu`calls, buf, bus`coming
      ensures ret == 0 ==> info.sta == old(info).sta
      ensures SameUnit(old(lu.unit), lu.unit)
      ensures Valid() && lu.Valid() && old(bus.coming) == data + bus.coming && ret <= 0
      ensures WriteDid(WriteStart(old(info), old(lu.unit)), old(lu.medium), old(lu.calls), lu, ret, data)
      ensures match WriteStart(old(info), old(lu.unit))
        case No(_) => true
        case Go(_, u, lba, n) =>
          lu.dependable && bus.dependable && lba + n <= u.nBlks && Off(n, u.blkSize) <= |old(bus.coming)| ==> ret == 0
    {
      hide Off, WriteEnd, Be16, Be32, CacheBits, Calls, WriteGo, Times;
      data := [];
      var ok := CmdCheck(lu, 10, Times(Be16(info.cb, 7), lu.unit.blkSize), FLAG_OUT);
      if !ok {
        return -EILLEGAL, data;
      }
      ret, data := Write(lu);
    }

    /** The handler table, for the commands that move no blocks. */
    method Handle(lu: Lu) returns (ret: int)
      requires Valid() && !MovesBlocks(info.cb[0]) && lu.Valid()
      modifies this`info, lu`unit, buf
      ensures SameUnit(old(lu.unit), lu.unit)
      ensures Valid() && lu.Valid() && Did(Fixed(old(info), old(lu.unit)), lu, ret)
    {
      hide Off, UnitReadyOut, RequestSenseOut, InquiryOut, FormatCapacitiesOut, CapacityOut, PreventAllowOut,
        ModeSenseOut, StartStopOut, TocOut, SynchronizeOut, HeaderOut, UnknownOut;
      match info.cb[0] {
        case 0x00 => ret := UnitReady(lu);
        case 0x03 => ret := RequestSense(lu);
        case 0x12 => ret := Inquiry(lu);
        case 0x23 => ret := FormatCapacities(lu);
        case 0x25 => ret := Capacity(lu);
        case 0x1E => ret := PreventAllow(lu);
        case 0x1A => ret := ModeSense6(lu);
        case 0x5A => ret := ModeSense10(lu);
        case 0x1B => ret := StartStop(lu);
        case 0x43 => ret := Toc(lu);
        case 0x35 => ret := Synchronize(lu);
        case 0x44 => ret := Header(lu);
        case _ => ret := Unknown(lu);
      }
    }

    /** The end of the data phase: the reply goes out, or the host is told to stop sending. */
    method DataStage(n: nat, ghost sent0: seq<seq<Octet>>) returns (ret: int)
      requires Valid() && n <= 36 && Sends(sent0, bus.sent, buf.Length)
      modifies this`info, bus`sent, bus`haltIn, bus`haltOut
      ensures Sends(sent0, bus.sent, buf.Length) && |sent0| <= |bus.sent| && |sent0| <= |old(bus.sent)| && Valid()
      ensures ret == 0 ==>
        var k := Stage(old(info), n);
        && k <= old(info).dlen && info == old(info).(dlen := old(info).dlen - k)
        && Since(sent0, bus.sent) == Since(sent0, old(bus.sent)) + buf[..k]
      ensures bus.dependable ==> ret == 0
      ensures ret <= 0
    {
      hide Sends, Since;
      SendsSize(sent0, bus.sent, buf.Length);
      assert Since(sent0, bus.sent) + buf[..0] == Since(sent0, bus.sent);
      if info.dlen != 0 {
        if info.dir / 128 == 1 {
          var tmp := Least(info.dlen, Least(info.cdlen, n));
          ret := SendAll(tmp, sent0);
          if ret != 0 {
            return;
          }
          info := info.(dlen := info.dlen - tmp);
        } else {
          bus.StallSet(false, true);
          bus.StallSet(false, false);
        }
      }
      return 0;
    }

    /** The blocks the medium delivered and the host did not get, by the answers since `told`. */
    ghost function Unsent(lu: Lu, told: seq<Answer>): (r: nat)
      reads lu
    {
      if told <= lu.answers then Lost(lu.answers[|told|..]) else 0
    }

    /** Every answer since `told` is for at most what was asked, and for all of it or nothing when
        the callback is of that kind. */
    ghost predicate Heard(lu: Lu, told: seq<Answer>)
      reads lu
    {
      && told <= lu.answers
      && forall a | a in lu.answers[|told|..] :: a.given <= a.asked && (lu.AllOrNone() ==> Settled(a))
    }

    /** The two READ commands. */
    method ReadBlocks(lu: Lu) returns (ret: int)
      requires Valid() && lu.Valid() && info.sta == PASS && IsRead(info.cb[0])
      modifies this`info, lu`unit, lu`answers, buf, bus`sent
      ensures SameUnit(old(lu.unit), lu.unit)
      ensures Valid() && lu.Valid() && ret <= 0
      ensures ret == 0 ==> Heard(lu, old(lu.answers)) && Told(lu, old(lu.answers), old(info), old(lu.unit))
      ensures bus.dependable && Reports(ReadStart(old(info), old(lu.unit))) ==> ret == 0
      ensures Sends(old(bus.sent), bus.sent, buf.Length) && |old(bus.sent)| <= |bus.sent|
      ensures ret == 0 ==> ReadExecuted(ReadStart(old(info), old(lu.unit)), lu.medium, info, lu.unit, Cap(old(lu.unit)),
                                        Since(old(bus.sent), bus.sent), Unsent(lu, old(lu.answers)))
      ensures lu.dependable && bus.dependable && Cap(old(lu.unit)) > 0 ==>
        InRange(ReadStart(old(info), old(lu.unit))) ==> ret == 0 && info.sta == PASS
    {
      hide Off, ReadEnd, Sends, Since, ReadStart, Quotient, Asked, Lost;
      SendsNothing(bus.sent, buf.Length);
      ghost var c, u, told := info, lu.unit, lu.answers;
      ghost var done, got;
      if info.cb[0] == READ_6 {
        ret, done, got := Read6(lu);
      } else {
        ret, done, got := Read10(lu);
      }
      if ret == 0 {
        assert told + [] == told && Lost([]) == 0 by { NothingLost(); }
        HeardAll(lu, told, ReadStart(c, u), Cap(u));
      }
    }

    /** What a READ that starts at `s` asks the callback and is given. */
    function AskedBy(lu: Lu, i: nat, s: Start, cap: nat): (r: seq<Answer>) {
      if s.Go? then Asked(lu, i, s.lba, s.n, cap, s.unit.nBlks) else []
    }

    /** A READ asked the callback as specified. */
    ghost predicate Told(lu: Lu, told: seq<Answer>, c: Cmd, u: Unit)
      reads lu
      requires Whole(c) && u.blkSize > 0
    {
      IsRead(c.cb[0]) ==> lu.answers == told + AskedBy(lu, |told|, ReadStart(c, u), Cap(u))
    }

    /** A READ that starts, or is refused with a status. */
    predicate Reports(s: Start) { s.Go? || s.out.ret == 0 }

    /** A command that gets a status when the pipes do not fail. */
    ghost predicate Carried(c: Cmd, u: Unit) {
      && Whole(c) && u.blkSize > 0 && c.cb[0] != WRITE_10
      && if IsRead(c.cb[0]) then Reports(ReadStart(c, u)) else Fixed(c, u).ret >= 0
    }

    lemma HeardAll(lu: Lu, told: seq<Answer>, s: Start, cap: nat)
      requires lu.answers == told + AskedBy(lu, |told|, s, cap)
      ensures Heard(lu, told) && Unsent(lu, told) == Lost(AskedBy(lu, |told|, s, cap))
    {
      hide Asked, Lost;
      if s.Go? { AskedFacts(lu, |told|, s.lba, s.n, cap, s.unit.nBlks); }
      assert lu.answers[|told|..] == AskedBy(lu, |told|, s, cap);
    }

    /** The command's own handler. */
    method Dispatch(lu: Lu) returns (ret: int, ghost data: seq<Octet>)
      requires Valid() && lu.Valid() && Cap(lu.unit) > 0 && info.sta == PASS
      modifies this`info, lu`unit, lu`medium, lu`calls, lu`answers, buf, bus`sent, bus`coming
      ensures SameUnit(old(lu.unit), lu.unit)
      ensures Valid() && lu.Valid() && old(bus.coming) == data + bus.coming && ret <= 36
      ensures ret >= 0 ==> Heard(lu, old(lu.answers)) && Told(lu, old(lu.answers), old(info), old(lu.unit))
      ensures bus.dependable && Carried(old(info), old(lu.unit)) ==> ret >= 0
      ensures Sends(old(bus.sent), bus.sent, buf.Length) && |old(bus.sent)| <= |bus.sent|
      ensures ret >= 0 ==> Pending(old(info), old(lu.unit), old(lu.medium), info, lu.unit, lu.medium,
                                   Cap(old(lu.unit)), Since(old(bus.sent), bus.sent), data, buf[..ret],
                                     Unsent(lu, old(lu.answers)))
      ensures lu.dependable && bus.dependable ==> DoneWell(old(info), old(lu.unit), old(bus.coming), ret, info)
    {
      hide Off, ReadExecuted, WriteEnd, Sends, Since, Fixed, ReadStart, WriteStart, Calls, Quotient;
      data := [];
      SendsNothing(bus.sent, buf.Length);
      if IsRead(info.cb[0]) {
        ret := ReadBlocks(lu);
        assert buf[..0] == [];
      } else if info.cb[0] == WRITE_10 {
        ret, data := Write10(lu);
        assert buf[..0] == [];
      } else {
        ret := Handle(lu);
      }
    }

    /** `__ms_scsi_bbb_cmd_exec`, for the selected unit. */
    method Exec(lu: Lu) returns (ret: int, ghost data: seq<Octet>)
      requires Valid() && lu.Valid() && Cap(lu.unit) > 0
      modifies this`info, lu`unit, lu`medium, lu`calls, lu`answers, buf, bus`sent, bus`coming, bus`haltIn, bus`haltOut
      ensures SameUnit(old(lu.unit), lu.unit)
      ensures Valid() && lu.Valid() && old(bus.coming) == data + bus.coming
      ensures Sends(old(bus.sent), bus.sent, buf.Length) && |old(bus.sent)| <= |bus.sent|
      ensures ret == 0 ==> Executed(old(info).(sta := PASS), old(lu.unit), old(lu.medium), info, lu.unit, lu.medium,
                                    Cap(old(lu.unit)), Since(old(bus.sent), bus.sent), data,
                                      Unsent(lu, old(lu.answers)))
      ensures ret == 0 ==> Heard(lu, old(lu.answers))
      ensures ret == 0 ==> Told(lu, old(lu.answers), old(info).(sta := PASS), old(lu.unit))
      ensures bus.dependable && setup && Carried(old(info).(sta := PASS), old(lu.unit)) ==> ret == 0
      ensures lu.dependable && bus.dependable && setup ==>
        DoneWell(old(info).(sta := PASS), old(lu.unit), old(bus.coming), ret, info)
      ensures ret <= 0
    {
      hide Off, Sends, Since, Pending, Executed, InRange, Supplied, ReadStart, WriteStart;
      data := [];
      ghost var sent0 := bus.sent;
      SendsNothing(sent0, buf.Length);
      if !setup {
        return -EPERM, data;
      }
      info := info.(sta := PASS);
      ghost var c, u, m, told := info, lu.unit, lu.medium, lu.answers;
      ret, data := Dispatch(lu);
      if ret < 0 {
        return;
      }
      ghost var front := buf[..ret];
      PendingExecuted(c, u, m, info, lu.unit, lu.medium, Cap(u), Since(sent0, bus.sent), data, front, Unsent(lu, told));
      assert buf[..Stage(info, ret)] == front[..Stage(info, ret)];
      ret := DataStage(ret, sent0);
    }

    // ---- wrappers ----

    /** `__lu_find`. */
    method LuFind(num: Octet) returns (r: Lu?)
      ensures r == null ==> forall lu | lu in lus :: lu.num != num as nat
      ensures r != null ==> r in lus && r.num == num as nat
    {
      var i: nat := 0;
      while i < |lus|
        invariant i <= |lus| && forall k | 0 <= k < i :: lus[k].num != num as nat
      {
        if lus[i].num == num as nat {
          return lus[i];
        }
        i := i + 1;
      }
      return null;
    }

    /** `__ms_scsi_bbb_cmd_get`: `e` and `len` are what the pipe answered. */
    method CmdGet() returns (ret: int, ghost e: int, ghost len: nat)
      requires Valid()
      modifies this`info, this`sel, buf, bus`coming, bus`haltIn, bus`haltOut
      ensures Valid() && ret <= 0
      ensures len <= CBW_LEN && len <= |old(bus.coming)| && bus.coming == old(bus.coming)[len..]
      ensures !setup ==> ret == -EPERM && len == 0 && info == old(info)
      ensures setup && e != 0 ==> ret == e && info == old(info)
      ensures setup && e == 0 ==>
        var t := Take(old(info), buf[..CBW_LEN], len, nLu);
        && info == t.cmd && buf[..len] == old(bus.coming)[..len]
        && (t.ret != 0 ==> ret == t.ret && bus.haltIn && (t.ret == -EINVAL ==> bus.haltOut))
        && (t.ret == 0 ==>
              && len == CBW_LEN && (ret == 0 <==> exists lu :: lu in lus && lu.num == buf[13] as nat)
              && (ret == 0 ==> sel != null && sel in lus && sel.num == buf[13] as nat))
      ensures ret == 0 ==> setup && e == 0
      ensures bus.dependable && setup && |old(bus.coming)| >= CBW_LEN ==> e == 0 && len == CBW_LEN
    {
      hide Le32;
      e, len := 0, 0;
      if !setup {
        return -EPERM, e, len;
      }
      ghost var first := bus.coming;
      var e0, n := bus.Read(buf, CBW_LEN);
      e, len := e0, n;
      if e0 != 0 {
        return e0, e, len;
      }
      var b := buf[..CBW_LEN];
      if n != CBW_LEN || Le32(b, 0) != CBW_SIG {
        bus.StallSet(true, true);
        return -EBADF, e, len;
      }
      info := info.(tag := Le32(b, 4), dlen := Le32(b, 8), dir := b[12]);
      var lun := b[13];
      info := info.(clen := b[14]);
      if lun >= nLu || info.dir % 128 != 0 || info.clen < 1 || info.clen > 16 {
        bus.StallSet(true, true);
        bus.StallSet(false, true);
        return -EINVAL, e, len;
      }
      info := info.(cb := b[15..15 + info.clen] + info.cb[info.clen..]);
      sel := LuFind(lun);
      if sel == null {
        return -ENODEV, e, len;
      }
      return 0, e, len;
    }

    /** `__ms_scsi_bbb_cmd_sta`. */
    method CmdSta() returns (ret: int)
      requires Valid()
      modifies buf, bus`sent, this`reported
      ensures Valid() && reported == old(reported) + [info] && ret <= 0
      ensures ret == 0 ==> bus.sent == old(bus.sent) + [Csw(info)]
      ensures bus.dependable ==> ret == 0
    {
      hide Part;
      Le32Store(CSW_SIG, buf, 0);
      Le32Store(info.tag, buf, 4);
      Le32Store(info.dlen, buf, 8);
      buf[12] := info.sta;
      assert buf[..CSW_LEN] == Csw(info);
      reported := reported + [info];
      var e, wr := bus.Write(buf, CSW_LEN);
      if e != 0 {
        return e;
      } else if wr != CSW_LEN {
        return -EWRITE;
      }
      return 0;
    }

    /** The block of bytes the host sent as the command wrapper. */
    ghost function Wrapper(coming: seq<Octet>): (r: seq<Octet>) {
      if |coming| >= CBW_LEN then coming[..CBW_LEN] else []
    }

    /** The residue and the bytes moved fall short of the length announced by the blocks the medium
        delivered in part of a call: they make it up exactly when each call of the read callback
        gave all or nothing, so always with a callback of that kind. */
    ghost predicate Residue(d: Cmd, len: U32, bytes: seq<Octet>, data: seq<Octet>, lu: Lu, told: seq<Answer>)
      reads lu
    {
      && told <= lu.answers
      && d.dlen as nat + |bytes| + |data| + Off(Unsent(lu, told), lu.unit.blkSize) == len as nat
      && (d.dlen + |bytes| + |data| == len <==> AllSettled(lu.answers[|told|..]))
      && (lu.AllOrNone() ==> d.dlen + |bytes| + |data| == len)
    }

    lemma ResidueExactly(d: Cmd, len: U32, bytes: seq<Octet>, data: seq<Octet>, lu: Lu, told: seq<Answer>)
      requires Heard(lu, told) && lu.unit.blkSize > 0
      requires d.dlen as nat + |bytes| + |data| + Off(Unsent(lu, told), lu.unit.blkSize) == len as nat
      ensures Residue(d, len, bytes, data, lu, told)
    {
      hide Off;
      LostNone(lu.answers[|told|..]);
      OffZero(Unsent(lu, told), lu.unit.blkSize);
    }

    /** `usbd_ms_scsi_bbb_process`: one command from its wrapper to its status. When it returns
        success, the host has sent a valid wrapper, the command was carried out on the unit the
        wrapper names, and after the bytes of the data phase came exactly one status, with the
        wrapper's tag and the residue. */
    method Process() returns (ret: int, ghost bytes: seq<Octet>, ghost data: seq<Octet>)
      requires Valid() && UnitsOk() && Honest()
      modifies this`info, this`sel, this`reported, buf, bus`sent, bus`coming, bus`haltIn, bus`haltOut, lus
      ensures Valid() && Honest() && ret <= 0
      ensures forall lu | lu in lus :: lu.Valid() && SameUnit(old(lu.unit), lu.unit)
      ensures reported == old(reported) || reported == old(reported) + [info]
      ensures ret == 0 ==>
        var w := Wrapper(old(bus.coming));
        && w != [] && Take(old(info), w, CBW_LEN, nLu).ret == 0 && old(bus.coming) == w + (data + bus.coming)
        && reported == old(reported) + [info] && sel != null && sel in lus && sel.num == w[13] as nat
        && info.tag == Le32(w, 4) && info.dlen + |bytes| + |data| <= Le32(w, 8)
        && (info.sta == PASS ==> info.dlen + |bytes| + |data| == Le32(w, 8))
        && |old(bus.sent)| < |bus.sent| && bus.sent[|bus.sent| - 1] == Csw(info)
        && bytes == Since(old(bus.sent), bus.sent[..|bus.sent| - 1])
      ensures ret == 0 ==> (var lu: Lu := sel;
        var c := Take(old(info), Wrapper(old(bus.coming)), CBW_LEN, nLu).cmd.(sta := PASS);
        lu.unit.blkSize > 0 && Executed(c, old(lu.unit), old(lu.medium),
                 info, lu.unit, lu.medium, Quotient(buf.Length, lu.unit.blkSize), bytes, data,
                 Unsent(lu, old(lu.answers))))
      ensures ret == 0 ==> (var lu: Lu := sel;
        && lu.unit.blkSize > 0 && old(lu.unit).blkSize > 0 && Heard(lu, old(lu.answers))
        && Told(lu, old(lu.answers), Take(old(info), Wrapper(old(bus.coming)), CBW_LEN, nLu).cmd.(sta := PASS),
                old(lu.unit))
        && Residue(info, Le32(Wrapper(old(bus.coming)), 8), bytes, data, lu, old(lu.answers)))
      ensures
        var w := Wrapper(old(bus.coming));
        w != [] && maxLunGot && setup && bus.dependable && Take(old(info), w, CBW_LEN, nLu).ret == 0
        && (exists lu :: lu in lus && lu.num == w[13] as nat) ==>
          && sel != null && sel in lus && sel.num == w[13] as nat
          && (var lu: Lu := sel;
              var c := Take(old(info), w, CBW_LEN, nLu).cmd.(sta := PASS);
              && (Carried(c, old(lu.unit)) ==> ret == 0)
              && (lu.dependable && old(lu.unit).blkSize > 0 ==>
                    DoneWell(c, old(lu.unit), old(bus.coming)[CBW_LEN..], ret, info)))
    {
      hide Sends, Since, Executed, DoneWell, Le32, Take, Csw, Quotient;
      bytes, data := [], [];
      if !maxLunGot {
        return -EPERM, bytes, data;
      }
      ghost var c0, coming0, sent0 := info, bus.coming, bus.sent;
      ghost var e, len;
      ret, e, len := CmdGet();
      if ret != 0 {
        return;
      }
      ghost var w := coming0[..CBW_LEN];
      ghost var c := info;
      var lu: Lu := sel;
      ghost var u, m, told := lu.unit, lu.medium, lu.answers;
      ret, data := Exec(lu);
      if ret != 0 {
        return;
      }
      ghost var sent1 := bus.sent;
      bytes := Since(sent0, sent1);
      Conserved(c.(sta := PASS), u, m, info, lu.unit, lu.medium, Cap(u), bytes, data, Unsent(lu, told));
      ResidueExactly(info, c.dlen, bytes, data, lu, told);
      TakeFields(c0, w, nLu);
      ret := CmdSta();
      assert ret == 0 ==> bus.sent[..|bus.sent| - 1] == sent1;
    }
  }

  /** Sense data, byte by byte. */
  lemma SenseIs(r: seq<Octet>, u: Unit)
    requires |r| == 18 && r[0] == (if u.infoValid then 0x80 else 0) + 0x70 && r[1] == 0 && r[2] == Part(u.sd, 2)
    requires r[3] == Part(u.info, 3) && r[4] == Part(u.info, 2) && r[5] == Part(u.info, 1) && r[6] == Part(u.info, 0)
    requires r[7] == 10 && r[8] == 0 && r[9] == 0 && r[10] == 0 && r[11] == 0
    requires r[12] == Part(u.sd, 1) && r[13] == Part(u.sd, 0) && r[14] == 0 && r[15] == 0 && r[16] == 0 && r[17] == 0
    ensures r == SenseBytes(u)
  {
    hide Part;
    var s := SenseBytes(u);
    assert forall k | 0 <= k < 18 :: r[k] == s[k];
  }

  lemma TakeFields(c: Cmd, w: seq<Octet>, nLu: Octet)
    requires Whole(c) && |w| == CBW_LEN && Take(c, w, CBW_LEN, nLu).ret == 0
    ensures var t := Take(c, w, CBW_LEN, nLu).cmd; t.tag == Le32(w, 4) && t.dlen == Le32(w, 8)
  {
    hide Le32;
  }

  lemma SendsSize(before: seq<seq<Octet>>, now: seq<seq<Octet>>, size: nat)
    requires Sends(before, now, size)
    ensures |before| <= |now|
  {
  }

  // The course of a WRITE.

  /** `done` of `n` blocks are written, as `data`, by the calls `cs`; the next one is `lba`. */
  ghost predicate Wrote(m: seq<Octet>, bs: nat, end: U32, lba0: nat, n: nat, done: nat, lba: nat, data: seq<Octet>,
                        w: seq<Octet>, cs: seq<(nat, nat)>)
  {
    && lba == Wrap32(lba0 + done) && done <= n && |data| == Off(done, bs)
    && |m| == |w| == Off(end, bs) && Off(lba0, bs) <= |m| && w == Applied(m, bs, cs, data)
    && (NoTurn(lba0, n) ==> w == Put(m, bs, lba0, data))
  }

  lemma WroteFirst(m: seq<Octet>, bs: nat, end: U32, lba: nat, n: nat)
    requires |m| == Off(end, bs) && lba < end
    ensures Wrote(m, bs, end, lba, n, 0, lba, [], m, []) && Off(0, bs) == 0 <= Off(n, bs)
  {
    OffAdd(0, 0, bs);
    OffMono(lba, end, bs);
    OffMono(0, n, bs);
    PutNone(m, bs, lba);
    hide Put, Off;
  }

  lemma WroteAt(m: seq<Octet>, bs: nat, end: U32, lba0: nat, n: nat, done: nat, lba: nat, data: seq<Octet>,
                w: seq<Octet>, cs: seq<(nat, nat)>)
    requires Wrote(m, bs, end, lba0, n, done, lba, data, w, cs) && done < n
    ensures lba < 0x1_0000_0000 && (NoTurn(lba0, n) ==> lba == lba0 + done) && (lba0 + n <= end ==> NoTurn(lba0, n))
  {
    hide Put, Off, Applied;
  }

  lemma WroteNext(m: seq<Octet>, bs: nat, end: U32, lba0: nat, n: nat, done: nat, lba: nat, data: seq<Octet>,
                  w: seq<Octet>, cs: seq<(nat, nat)>, k: nat, chunk: seq<Octet>)
    requires Wrote(m, bs, end, lba0, n, done, lba, data, w, cs) && done < n && done + k <= n && lba < end
    requires |chunk| == Off(k, bs)
    ensures Off(lba, bs) <= |w|
    ensures Wrote(m, bs, end, lba0, n, done + k, Wrap32(lba + k), data + chunk, Put(w, bs, lba, chunk), cs + [(lba, k)])
  {
    hide Put, Off, Applied, NoTurn;
    WroteAt(m, bs, end, lba0, n, done, lba, data, w, cs);
    OffMono(lba, end, bs);
    OffAdd(done, k, bs);
    AppliedSnoc(m, bs, cs, data, (lba, k), chunk);
    if NoTurn(lba0, n) { PutJoin(m, bs, lba0, done, data, chunk); }
  }

  lemma WroteNone(c: Cmd, u: Unit, m: seq<Octet>, lba0: nat, n: nat, done: nat, lba: nat, data: seq<Octet>,
                  cs: seq<(nat, nat)>, d: Cmd, v: Unit, w: seq<Octet>, ret: int)
    requires Wrote(m, u.blkSize, u.nBlks, lba0, n, done, lba, data, w, cs) && SameUnit(u, v)
    requires d == c.(dlen := d.dlen, sta := d.sta) && FaultNoted(c, u, d, v) && ret != 0
    ensures WriteEnd(c, u, m, lba0, n, d, v, w, ret, data)
  {
    OffMono(done, n, u.blkSize);
    hide Off, Put, Applied, NoTurn;
  }

  /** The chunk did not go through: of its bytes `x` may have been written. */
  lemma WroteSome(c: Cmd, u: Unit, m: seq<Octet>, lba0: nat, n: nat, done: nat, lba: nat, data: seq<Octet>,
                  cs: seq<(nat, nat)>, w: seq<Octet>, k: nat, chunk: seq<Octet>, x: seq<Octet>, d: Cmd, v: Unit,
                    w': seq<Octet>, ret: int)
    requires Wrote(m, u.blkSize, u.nBlks, lba0, n, done, lba, data, w, cs) && SameUnit(u, v) && done < n
    requires done + k <= n
    requires |chunk| <= Off(k, u.blkSize) && |x| <= Off(k, u.blkSize) && Off(lba, u.blkSize) <= |w|
    requires w' == Put(w, u.blkSize, lba, x)
    requires d == c.(dlen := d.dlen, sta := d.sta) && FaultNoted(c, u, d, v) && ret != 0
    ensures WriteEnd(c, u, m, lba0, n, d, v, w', ret, data + chunk)
  {
    hide Off, Put, Applied, NoTurn;
    WriteMore(u.blkSize, done, k, n);
    WroteAt(m, u.blkSize, u.nBlks, lba0, n, done, lba, data, w, cs);
    if NoTurn(lba0, n) {
      PutJoin(m, u.blkSize, lba0, done, data, x);
      assert |data + x| <= Off(n, u.blkSize);
    }
  }

  lemma WroteAll(c: Cmd, u: Unit, m: seq<Octet>, lba0: nat, n: nat, lba: nat, data: seq<Octet>, w: seq<Octet>,
                 cs: seq<(nat, nat)>)
    requires Wrote(m, u.blkSize, u.nBlks, lba0, n, n, lba, data, w, cs) && Off(n, u.blkSize) <= c.dlen
    ensures WriteEnd(c, u, m, lba0, n, c.(dlen := c.dlen - |data|), u, w, 0, data)
    ensures w == Applied(m, u.blkSize, cs, data)
  {
    hide Off, Put, Applied, NoTurn;
  }

  lemma WriteMore(bs: nat, done: nat, k: nat, n: nat)
    requires done + k <= n
    ensures Off(done + k, bs) == Off(done, bs) + Off(k, bs) <= Off(n, bs)
  {
    OffAdd(done, k, bs);
    OffMono(done + k, n, bs);
  }

  lemma CallsStep(lba: nat, n: nat, cap: nat, end: nat, calls: seq<(nat, nat)>)
    requires cap > 0 && n > 0 && lba < end
    ensures var k := Least(n, cap);
      calls + Calls(lba, n, cap, end) == (calls + [(lba, k)]) + Calls(Wrap32(lba + k), n - k, cap, end)
  {
    hide Wrap32;
  }

  lemma NoCalls(lba: nat, cap: nat, end: nat, calls: seq<(nat, nat)>)
    requires cap > 0
    ensures calls + Calls(lba, 0, cap, end) == calls
  {
  }

  // The four ends of a READ.

  lemma RanOff(c: Cmd, u: Unit, m: seq<Octet>, lba: nat, n: nat, cap: nat, done: nat)
    requires |m| == Off(u.nBlks, u.blkSize) && c.sta == PASS
    requires done <= n && lba + done <= u.nBlks && Least(Least(n - done, cap), u.nBlks - (lba + done)) == 0
    requires Off(done, u.blkSize) <= c.dlen && (done > 0 ==> n > done && cap > 0)
    requires Off(lba + done, u.blkSize) <= |m|
    ensures ReadEnd(c, u, m, lba, n, cap, c.(dlen := c.dlen - Off(done, u.blkSize), sta := FAIL),
                    u.(sd := OUT_OF_RANGE, info := lba + done, infoValid := true), 0,
                      Span(m, u.blkSize, lba, done), done, done)
  {
    hide Off, Span;
  }

  lemma Broken(c: Cmd, u: Unit, m: seq<Octet>, lba: nat, n: nat, cap: nat, done: nat, got: nat)
    requires |m| == Off(u.nBlks, u.blkSize) && c.sta == PASS
    requires done <= got < n && lba + got <= u.nBlks && Off(got, u.blkSize) <= c.dlen && got - done < cap
    requires Off(lba + done, u.blkSize) <= |m| && Off(lba + got, u.blkSize) <= |m|
    ensures ReadEnd(c, u, m, lba, n, cap, c.(dlen := c.dlen - Off(got, u.blkSize), sta := FAIL),
                    u.(sd := UNRECOVERED_READ_ERROR, info := lba + got, infoValid := true), 0,
                      Span(m, u.blkSize, lba, done), done, got)
  {
    hide Off, Span;
  }

  lemma CutShort(c: Cmd, u: Unit, m: seq<Octet>, lba: nat, n: nat, cap: nat, ret: int, bytes: seq<Octet>, done: nat,
                 got: nat)
    requires |m| == Off(u.nBlks, u.blkSize) && ret != 0
    requires done <= got <= n && lba + got <= u.nBlks && Off(got, u.blkSize) <= c.dlen
    requires Off(lba + done, u.blkSize) <= |m| && Off(lba + got, u.blkSize) <= |m|
    requires bytes <= Span(m, u.blkSize, lba, got)
    ensures ReadEnd(c, u, m, lba, n, cap, c.(dlen := c.dlen - Off(got, u.blkSize)), u, ret, bytes, done, got)
  {
    hide Off, Span;
  }

  lemma AllRead(c: Cmd, u: Unit, m: seq<Octet>, lba: nat, n: nat, cap: nat)
    requires |m| == Off(u.nBlks, u.blkSize)
    requires lba + n <= u.nBlks && Off(n, u.blkSize) <= c.dlen && Off(lba + n, u.blkSize) <= |m|
    ensures ReadEnd(c, u, m, lba, n, cap, c.(dlen := c.dlen - Off(n, u.blkSize)), u, 0,
      Span(m, u.blkSize, lba, n), n, n)
  {
    hide Off, Span;
  }

  lemma ReadStartFacts(m: seq<Octet>, bs: nat, lba: nat, n: nat, end: nat)
    requires |m| == Off(end, bs) && lba <= end
    ensures Off(0, bs) == 0 && Off(lba, bs) <= |m| && Span(m, bs, lba, 0) == []
  {
    OffAdd(0, 0, bs);
    OffMono(lba, end, bs);
    SpanNone(m, bs, lba);
  }

  lemma ReadMore(m: seq<Octet>, bs: nat, lba0: nat, done: nat, rd: nat, n0: nat, dlen0: nat, end: nat)
    requires |m| == Off(end, bs) && lba0 + done + rd <= end && done + rd <= n0 && Off(n0, bs) <= dlen0
    ensures Off(done + rd, bs) == Off(done, bs) + Off(rd, bs) <= dlen0
    ensures Off(lba0 + done + rd, bs) <= |m| && Off(lba0 + done, bs) <= |m|
    ensures Span(m, bs, lba0, done) + Span(m, bs, lba0 + done, rd) == Span(m, bs, lba0, done + rd)
  {
    OffAdd(done, rd, bs);
    OffMono(done + rd, n0, bs);
    OffMono(lba0 + done + rd, end, bs);
    OffMono(lba0 + done, end, bs);
    SpanJoin(m, bs, lba0, done, rd);
  }

  lemma SpanPrefix(m: seq<Octet>, bs: nat, lba0: nat, done: nat, rd: nat, chunk: seq<Octet>)
    requires Off(lba0 + done + rd, bs) <= |m| && Off(lba0 + done, bs) <= |m| && chunk == Span(m, bs, lba0 + done, rd)
    requires Span(m, bs, lba0, done) + Span(m, bs, lba0 + done, rd) == Span(m, bs, lba0, done + rd)
    ensures Span(m, bs, lba0, done) + chunk == Span(m, bs, lba0, done + rd)
    ensures forall t | Grew(Span(m, bs, lba0, done), t, chunk) :: t <= Span(m, bs, lba0, done + rd)
  {
    hide Off, Span;
  }
}
