/** What surrounds the mass storage function: the two bulk pipes and the medium. Their answers
    are left open, within the limits stated here. */
module ScsiBus {
  import opened Descriptors
  import opened ByteOrder
  import opened ScsiSpec

  // ---- blocks of a medium ----

  /** The byte offset of a block. */
  function Off(n: nat, bs: nat): (r: nat) { n * bs }

  lemma OffAdd(a: nat, b: nat, bs: nat)
    ensures Off(a + b, bs) == Off(a, bs) + Off(b, bs) && Off(0, bs) == 0
  {
    assert (a + b) * bs == a * bs + b * bs;
  }

  lemma OffMono(a: nat, b: nat, bs: nat)
    requires a <= b
    ensures Off(a, bs) <= Off(b, bs)
  {
    OffAdd(a, b - a, bs);
  }

  /** `n` whole blocks fit in `len` bytes exactly when `n` is at most the quotient. */
  lemma OffQuotient(n: nat, bs: nat, len: nat)
    requires bs > 0
    ensures Off(n, bs) <= len <==> n <= Quotient(len, bs)
  {
    var q := Quotient(len, bs);
    assert len == q * bs + len % bs && 0 <= len % bs < bs;
    if n <= q {
      OffMono(n, q, bs);
    } else {
      OffMono(q + 1, n, bs);
      OffAdd(q, 1, bs);
    }
  }

  /** The bytes of blocks `lba .. lba + n`. */
  function Span(m: seq<Octet>, bs: nat, lba: nat, n: nat): (s: seq<Octet>)
    requires Off(lba + n, bs) <= |m|
    ensures |s| == Off(n, bs)
  {
    OffAdd(lba, n, bs);
    m[Off(lba, bs)..Off(lba + n, bs)]
  }

  lemma SpanJoin(m: seq<Octet>, bs: nat, lba: nat, a: nat, b: nat)
    requires Off(lba + a + b, bs) <= |m|
    ensures Off(lba + a, bs) <= |m| && Span(m, bs, lba, a) + Span(m, bs, lba + a, b) == Span(m, bs, lba, a + b)
  {
    OffAdd(lba, a, bs);
    OffAdd(lba + a, b, bs);
    OffAdd(lba, a + b, bs);
    hide Off;
  }

  lemma SpanNone(m: seq<Octet>, bs: nat, lba: nat)
    requires Off(lba, bs) <= |m|
    ensures Span(m, bs, lba, 0) == []
  {
    OffAdd(0, 0, bs);
  }

  /** The medium with `d` written from block `lba` on; what lies past the end is not there. */
  function Put(m: seq<Octet>, bs: nat, lba: nat, d: seq<Octet>): (r: seq<Octet>)
    requires Off(lba, bs) <= |m|
    ensures |r| == |m|
  {
    var p := Off(lba, bs);
    if p + |d| <= |m| then m[..p] + d + m[p + |d|..] else m[..p] + d[..|m| - p]
  }

  lemma PutNone(m: seq<Octet>, bs: nat, lba: nat)
    requires Off(lba, bs) <= |m|
    ensures Put(m, bs, lba, []) == m
  {
    hide Off;
  }

  /** Writing in two pieces is writing once. */
  lemma PutJoin(m: seq<Octet>, bs: nat, lba: nat, a: nat, x: seq<Octet>, y: seq<Octet>)
    requires |x| == Off(a, bs) && Off(lba + a, bs) <= |m|
    ensures Off(lba, bs) <= |m| && Put(Put(m, bs, lba, x), bs, lba + a, y) == Put(m, bs, lba, x + y)
  {
    OffAdd(lba, a, bs);
    hide Off;
    var p, q := Off(lba, bs), Off(lba + a, bs);
    var m1 := Put(m, bs, lba, x);
    assert m1[..q] == m[..p] + x;
    if q + |y| <= |m| {
      assert m1[q + |y|..] == m[q + |y|..];
    } else {
      assert (x + y)[..|m| - p] == x + y[..|m| - q];
    }
  }

  /** What was written inside the unit is read back, and every other block is as before. */
  lemma PutGet(m: seq<Octet>, bs: nat, lba: nat, n: nat, d: seq<Octet>)
    requires |d| == Off(n, bs) && Off(lba + n, bs) <= |m|
    ensures Off(lba, bs) <= |m| && Span(Put(m, bs, lba, d), bs, lba, n) == d
    ensures forall a: nat, k: nat | Off(a + k, bs) <= |m| && (a + k <= lba || lba + n <= a) ::
      Span(Put(m, bs, lba, d), bs, a, k) == Span(m, bs, a, k)
  {
    OffAdd(lba, n, bs);
    forall a: nat, k: nat | Off(a + k, bs) <= |m| && (a + k <= lba || lba + n <= a)
      ensures Span(Put(m, bs, lba, d), bs, a, k) == Span(m, bs, a, k)
    {
      OffAdd(a, k, bs);
      if a + k <= lba { OffMono(a + k, lba, bs); } else { OffMono(lba + n, a, bs); }
      PutElsewhere(m, bs, lba, n, d, a, k);
    }
  }

  lemma PutElsewhere(m: seq<Octet>, bs: nat, lba: nat, n: nat, d: seq<Octet>, a: nat, k: nat)
    requires |d| == Off(n, bs) && Off(lba + n, bs) <= |m| && Off(lba + n, bs) == Off(lba, bs) + Off(n, bs)
    requires Off(a + k, bs) <= |m| && Off(a + k, bs) == Off(a, bs) + Off(k, bs)
    requires Off(a + k, bs) <= Off(lba, bs) || Off(lba + n, bs) <= Off(a, bs)
    ensures Span(Put(m, bs, lba, d), bs, a, k) == Span(m, bs, a, k)
  {
    hide Off;
  }

  // ---- transfers ----

  function Flat(ts: seq<seq<Octet>>): (r: seq<Octet>) {
    if ts == [] then [] else Flat(ts[..|ts| - 1]) + ts[|ts| - 1]
  }

  lemma FlatSnoc(ts: seq<seq<Octet>>, t: seq<Octet>)
    ensures Flat(ts + [t]) == Flat(ts) + t
  {
    assert (ts + [t])[..|ts|] == ts;
  }

  /** The bulk pipes. `sent` are the transfers to the host so far, `coming` is what the host is
      still going to send. A dependable bus never fails a transfer that fits. */
  class Bus {
    const dependable: bool
    var sent: seq<seq<Octet>>
    var coming: seq<Octet>
    var haltIn: bool
    var haltOut: bool

    constructor (d: bool, c: seq<Octet>)
      ensures dependable == d && sent == [] && coming == c && !haltIn && !haltOut
    {
      dependable, sent, coming, haltIn, haltOut := d, [], c, false, false;
    }

    /** `usbd_ms_write`: a transfer of the first `len` bytes of the buffer to the host, of which
        `act` arrive. */
    method Write(buf: array<Octet>, len: nat) returns (ret: int, act: nat)
      modifies this`sent
      ensures len > buf.Length ==> ret == -EILLEGAL && sent == old(sent)
      ensures len <= buf.Length ==> act <= len && sent == old(sent) + [buf[..act]]
      ensures dependable && len <= buf.Length ==> ret == 0 && act == len
      ensures ret <= 0
    {
      if len > buf.Length {
        return -EILLEGAL, 0;
      }
      ret, act := 0, len;
      if !dependable {
        var k: nat :| k <= len;
        var e: int :| e <= 0;
        ret, act := e, k;
      }
      sent := sent + [buf[..act]];
    }

    /** `usbd_ms_read`: up to `len` bytes from the host into the buffer. */
    method Read(buf: array<Octet>, len: nat) returns (ret: int, act: nat)
      modifies this`coming, buf
      ensures len > buf.Length ==> ret == -EILLEGAL && coming == old(coming) && buf[..] == old(buf[..])
      ensures len <= buf.Length ==> act <= len && act <= |old(coming)|
      ensures len <= buf.Length ==> coming == old(coming)[act..] && buf[..act] == old(coming)[..act]
      ensures dependable && len <= buf.Length && len <= |old(coming)| ==> ret == 0 && act == len
      ensures ret <= 0
    {
      if len > buf.Length {
        return -EILLEGAL, 0;
      }
      var most := if len < |coming| then len else |coming|;
      ret, act := 0, most;
      if !dependable {
        var k: nat :| k <= most;
        var e: int :| e <= 0;
        ret, act := e, k;
      }
      forall k | 0 <= k < act { buf[k] := coming[k]; }
      coming := coming[act..];
    }

    /** `usbd_ms_pipe_stall_set`. */
    method StallSet(isIn: bool, stall: bool)
      modifies this`haltIn, this`haltOut
      ensures haltIn == if isIn then stall else old(haltIn)
      ensures haltOut == if isIn then old(haltOut) else stall
    {
      if isIn {
        haltIn := stall;
      } else {
        haltOut := stall;
      }
    }
  }

  /** What the read callback was asked for and what it delivered. */
  datatype Answer = Answer(asked: nat, given: nat)

  /** A call that failed altogether or gave everything. */
  predicate Settled(a: Answer) { a.given == 0 || a.given == a.asked }

  predicate AllSettled(t: seq<Answer>) { forall a | a in t :: Settled(a) }

  /** The blocks delivered by calls that gave less than they were asked for. */
  function Lost(t: seq<Answer>): (r: nat) {
    if t == [] then 0 else Lost(t[..|t| - 1]) + var a := t[|t| - 1]; if a.given < a.asked then a.given else 0
  }

  lemma LostSnoc(t: seq<Answer>, a: Answer)
    ensures Lost(t + [a]) == Lost(t) + if a.given < a.asked then a.given else 0
    ensures AllSettled(t + [a]) <==> AllSettled(t) && Settled(a)
  {
    assert (t + [a])[..|t|] == t;
    assert forall b :: b in t + [a] <==> b in t || b == a;
  }

  /** Nothing is lost exactly when every call gave all or nothing. */
  lemma {:induction false} LostNone(t: seq<Answer>)
    requires forall a | a in t :: a.given <= a.asked
    ensures Lost(t) == 0 <==> AllSettled(t)
  {
    if t != [] {
      var r, a := t[..|t| - 1], t[|t| - 1];
      assert t == r + [a];
      LostNone(r);
      LostSnoc(r, a);
    }
  }

  /** A logical unit with its medium and the block callbacks of the application. `gives` is how
      many blocks the read callback delivers, none when it fails: it may depend on how often the
      callback was called before, so that nothing is said about its answers. */
  class Lu {
    const num: nat
    const dependable: bool
    const gives: (nat, nat, nat) -> nat
    var unit: Unit
    var medium: seq<Octet>
    var answers: seq<Answer>
    /** The write calls made so far: first block and number of blocks. */
    ghost var calls: seq<(nat, nat)>

    ghost predicate Valid()
      reads this
    {
      unit.blkSize > 0 && |medium| == Off(unit.nBlks, unit.blkSize)
    }

    constructor (n: nat, d: bool, g: (nat, nat, nat) -> nat, bs: U32, m: seq<Octet>, nBlks: U32, rdonly: bool,
                 removable: bool)
      requires bs > 0 && |m| == Off(nBlks, bs)
      ensures Valid() && num == n && dependable == d && gives == g && medium == m && calls == [] && answers == []
      ensures unit == Unit(bs, nBlks, rdonly, removable, false, NO_SENSE, 0, false)
    {
      num, dependable, gives, medium := n, d, g, m;
      unit, calls, answers := Unit(bs, nBlks, rdonly, removable, false, NO_SENSE, 0, false), [], [];
    }

    /** The blocks that call `i` delivers of those asked for. */
    function Delivers(i: nat, lba: nat, n: nat): (k: nat)
      ensures k <= n && (dependable ==> k == n)
    {
      if dependable || gives(i, lba, n) > n then n else gives(i, lba, n)
    }

    ghost predicate AllOrNone() { forall i, lba, n :: Settled(Answer(n, Delivers(i, lba, n))) }

    /** The block read callback: called for blocks inside the unit that fit the buffer, it reads
        at most the blocks asked for. */
    method BlkRead(buf: array<Octet>, lba: nat, n: nat) returns (ret: int, act: nat)
      requires Valid() && lba + n <= unit.nBlks && Off(n, unit.blkSize) <= buf.Length
      modifies buf, this`answers
      ensures act <= n && Off(act, unit.blkSize) <= buf.Length && Off(lba + act, unit.blkSize) <= |medium|
      ensures ret == 0 ==> buf[..Off(act, unit.blkSize)] == Span(medium, unit.blkSize, lba, act)
      ensures (if ret != 0 then 0 else act) == Delivers(|old(answers)|, lba, n)
      ensures answers == old(answers) + [Answer(n, Delivers(|old(answers)|, lba, n))]
      ensures ret <= 0
    {
      hide Off;
      ret, act := 0, Delivers(|answers|, lba, n);
      answers := answers + [Answer(n, act)];
      if act == 0 && n > 0 {
        var k: nat :| k <= n;
        var e: int :| e <= 0;
        if e != 0 {
          ret, act := e, k;
        }
      }
      OffMono(act, n, unit.blkSize);
      OffMono(lba + act, unit.nBlks, unit.blkSize);
      var data := Span(medium, unit.blkSize, lba, act);
      forall k | 0 <= k < |data| { buf[k] := data[k]; }
    }

    /** The block write callback. When it reports success for all blocks, those inside the unit
        hold the data and no other block has changed; when it does not, only blocks it was
        asked for may have changed. */
    method BlkWrite(buf: array<Octet>, lba: nat, n: nat) returns (ret: int, act: nat, ghost put: seq<Octet>)
      requires Valid() && lba <= unit.nBlks && Off(n, unit.blkSize) <= buf.Length
      modifies this`medium, this`calls
      ensures calls == old(calls) + [(lba, n)]
      ensures Valid() && act <= n && Off(lba, unit.blkSize) <= |medium|
      ensures |put| <= Off(n, unit.blkSize) && medium == Put(old(medium), unit.blkSize, lba, put)
      ensures ret == 0 && act == n ==> put == buf[..Off(n, unit.blkSize)]
      ensures dependable && lba + n <= unit.nBlks ==> ret == 0 && act == n
      ensures ret <= 0
    {
      hide Off, Put;
      OffMono(lba, unit.nBlks, unit.blkSize);
      ret, act := 0, n;
      if !dependable || lba + n > unit.nBlks {
        var k: nat :| k <= n;
        var e: int :| e <= 0;
        ret, act := e, k;
      }
      OffMono(act, n, unit.blkSize);
      var d := buf[..Off(act, unit.blkSize)];
      put := d;
      medium, calls := Put(medium, unit.blkSize, lba, d), calls + [(lba, n)];
    }
  }
}
