/** The ring buffer of core/source/usb_lib.c: one slot always stays free, so that a full buffer
    and an empty one differ. */
module RingBuffer {
  import opened Descriptors

  /** The bytes stored, oldest first. */
  function Stored(b: seq<Octet>, data: nat, rd: nat): (s: seq<Octet>)
    requires data < |b| && rd < |b|
    ensures |s| < |b|
  {
    if rd <= data then b[rd..data] else b[rd..] + b[..data]
  }

  function Around(p: nat, size: nat): (r: nat) { if p >= size then p - size else p }

  lemma StoredAt(b: seq<Octet>, data: nat, rd: nat, i: nat)
    requires data < |b| && rd < |b|
    ensures |Stored(b, data, rd)| == if rd <= data then data - rd else |b| - rd + data
    ensures i < |Stored(b, data, rd)| ==> Around(rd + i, |b|) < |b| && Stored(b, data, rd)[i] == b[Around(rd + i, |b|)]
  {
  }

  /** `t` was written from position `data` on, around the end if need be, and nothing else was. */
  predicate Written(b: seq<Octet>, b': seq<Octet>, data: nat, t: seq<Octet>) {
    && |b'| == |b| && data < |b|
    && (forall k | data <= k < |b| && k < data + |t| :: b'[k] == t[k - data])
    && (forall k | 0 <= k < |b| && data + |t| - |b| <= k && (k < data || data + |t| <= k) :: b'[k] == b[k])
    && (forall k | 0 <= k < |b| && k < data + |t| - |b| && |b| <= data + |t| ::
          |b| - data + k < |t| && b'[k] == t[|b| - data + k])
  }

  /** Byte `i` after a write of `t`, when `n` bytes were stored before. */
  lemma ByteAt(b: seq<Octet>, b': seq<Octet>, data: nat, rd: nat, t: seq<Octet>, n: nat, i: nat)
    requires rd < |b| && Written(b, b', data, t) && n == (if rd <= data then data - rd else |b| - rd + data)
    requires n + |t| < |b| && i < n + |t|
    ensures Around(rd + i, |b|) < |b| && b'[Around(rd + i, |b|)] == if i < n then b[Around(rd + i, |b|)] else t[i - n]
  {
    var p := Around(rd + i, |b|);
    if i < n {
      assert data + |t| - |b| <= p && (p < data || data + |t| <= p);
    } else if data <= p {
      assert p - data == i - n;
    } else {
      assert |b| - data + p == i - n;
    }
  }

  /** Bytes written into the free stretch are appended to the stored ones. */
  lemma StoredMore(b: seq<Octet>, b': seq<Octet>, data: nat, rd: nat, t: seq<Octet>)
    requires data < |b| && rd < |b| && Written(b, b', data, t) && |t| <= |b| - 1 - |Stored(b, data, rd)|
    ensures Around(data + |t|, |b|) < |b| && Stored(b', Around(data + |t|, |b|), rd) == Stored(b, data, rd) + t
  {
    hide Stored, Written;
    StoredAt(b, data, rd, 0);
    AfterWrite(b, b', data, t);
    var d := Around(data + |t|, |b|);
    var q, q' := Stored(b, data, rd), Stored(b', d, rd);
    StoredAt(b', d, rd, 0);
    assert |q'| == |q| + |t|;
    hide Around;
    forall i | 0 <= i < |q'| ensures q'[i] == (q + t)[i] {
      StoredAt(b', d, rd, i);
      StoredAt(b, data, rd, i);
      ByteAt(b, b', data, rd, t, |q|, i);
    }
  }

  lemma AfterWrite(b: seq<Octet>, b': seq<Octet>, data: nat, t: seq<Octet>)
    requires Written(b, b', data, t) && |t| < |b|
    ensures |b'| == |b| && Around(data + |t|, |b|) < |b|
  {
  }

  lemma RoomIs(b: seq<Octet>, data: nat, rd: nat)
    requires data < |b| && rd < |b|
    ensures |b| - 1 - |Stored(b, data, rd)| == if rd > data then rd - data - 1 else |b| + rd - data - 1
  {
  }

  lemma StoredNone(b: seq<Octet>, p: nat)
    requires p < |b|
    ensures Stored(b, p, p) == []
  {
  }

  /** The `n` bytes from position `rd` on, around the end if need be. */
  function Oldest(b: seq<Octet>, rd: nat, n: nat): (s: seq<Octet>)
    requires rd < |b| && n <= |b|
  {
    if rd + n <= |b| then b[rd..rd + n] else b[rd..] + b[..rd + n - |b|]
  }

  lemma OldestAt(b: seq<Octet>, rd: nat, n: nat, i: nat)
    requires rd < |b| && i < n <= |b|
    ensures |Oldest(b, rd, n)| == n && Around(rd + i, |b|) < |b| && Oldest(b, rd, n)[i] == b[Around(rd + i, |b|)]
  {
  }

  /** Up to two pieces are copied out. */
  lemma OldestPieces(b: seq<Octet>, rd: nat, x: seq<Octet>, y: seq<Octet>)
    requires rd < |b| && rd + |x| <= |b| && |x| + |y| <= |b| && (|y| > 0 ==> rd + |x| == |b|)
    requires x == b[rd..rd + |x|] && y == b[0..|y|]
    ensures Oldest(b, rd, |x + y|) == x + y
  {
    assert b[..|y|] == y;
    if |y| > 0 { assert b[rd..] == x; }
  }

  /** What is left when the oldest bytes are gone. */
  lemma StoredLess(b: seq<Octet>, data: nat, rd: nat, n: nat)
    requires data < |b| && rd < |b| && n <= |Stored(b, data, rd)|
    ensures Around(rd + n, |b|) < |b| && Oldest(b, rd, n) + Stored(b, data, Around(rd + n, |b|)) == Stored(b, data, rd)
  {
    hide Stored, Oldest;
    StoredAt(b, data, rd, 0);
    var rd' := Around(rd + n, |b|);
    StoredAt(b, data, rd', 0);
    var k := if rd + n <= |b| then n else |b| - rd;
    OldestPieces(b, rd, b[rd..rd + k], b[0..n - k]);
    var l, r := Oldest(b, rd, n) + Stored(b, data, rd'), Stored(b, data, rd);
    assert |l| == |r|;
    forall i | 0 <= i < |r| ensures l[i] == r[i] {
      StoredAt(b, data, rd, i);
      if i < n { OldestAt(b, rd, n, i); } else { StoredAt(b, data, rd', i - n); }
    }
  }

  class Ring {
    const buf: array<Octet>
    var dataPos: nat
    var rdPos: nat

    ghost predicate Valid()
      reads this
    {
      dataPos < buf.Length && rdPos < buf.Length && buf.Length < 0x8000_0000
    }

    ghost function Contents(): (s: seq<Octet>)
      reads this, buf
      requires Valid()
      ensures |s| < buf.Length
    {
      Stored(buf[..], dataPos, rdPos)
    }

    constructor (size: nat)
      requires 0 < size < 0x8000_0000
      ensures Valid() && fresh(buf) && buf.Length == size && Contents() == []
    {
      buf := new Octet[size](_ => 0);
      dataPos, rdPos := 0, 0;
    }

    /** `memcpy` into the ring. */
    method CopyIn(p: nat, s: seq<Octet>, from: nat, n: nat)
      requires from + n <= |s| && p + n <= buf.Length
      modifies buf
      ensures forall k | p <= k < p + n :: buf[k] == s[from + (k - p)]
      ensures forall k | 0 <= k < buf.Length && (k < p || p + n <= k) :: buf[k] == old(buf[k])
    {
      forall k | p <= k < p + n { buf[k] := s[from + (k - p)]; }
    }

    /** The part of a put that copies when the free stretch reaches around the end. */
    method CopyAround(s: seq<Octet>) returns (act: nat)
      requires Valid() && rdPos <= dataPos
      modifies buf
      ensures act == Least(|s|, buf.Length + rdPos - dataPos - 1)
      ensures Written(old(buf[..]), buf[..], dataPos, s[..act])
    {
      var size := buf.Length;
      var len := size + rdPos - dataPos - 1;
      if len > |s| {
        len := |s|;
      }
      if len + dataPos > size {
        len := size - dataPos;
      }
      CopyIn(dataPos, s, 0, len);
      act := len;
      len := |s| - act;
      if rdPos != 0 {
        if len > rdPos - 1 {
          len := rdPos - 1;
        }
        CopyIn(0, s, act, len);
        act := act + len;
      }
    }

    /** `usb_lib_rb_put`: stores as much as fits, one byte of the buffer staying free, except that a
        put overfills when the free stretch lies between the write and the read position and more
        bytes are offered than fit: then one byte too many is stored, and everything stored is lost. */
    method Put(s: seq<Octet>) returns (act: nat)
      requires Valid()
      modifies this`dataPos, buf
      ensures Valid() && act <= |s| && dataPos == Around(old(dataPos) + act, buf.Length)
      ensures
        var room := buf.Length - 1 - |old(Contents())|;
        if old(rdPos) > old(dataPos) && |s| > room then act == room + 1 && Contents() == []
        else act == (if |s| < room then |s| else room) && Contents() == old(Contents()) + s[..act]
    {
      var size := buf.Length;
      hide Stored;
      ghost var b, data, rd := buf[..], dataPos, rdPos;
      if rdPos > dataPos {
        var len := if |s| > rdPos - dataPos - 1 then rdPos - dataPos else |s|;
        CopyIn(dataPos, s, 0, len);
        act := len;
        assert Written(b, buf[..], data, s[..act]);
      } else {
        act := CopyAround(s);
      }
      dataPos := dataPos + act;
      if dataPos >= size {
        dataPos := dataPos - size;
      }
      RoomIs(b, data, rd);
      if rd > data && data + act == rd {
        StoredNone(buf[..], rd);
      } else {
        StoredMore(b, buf[..], data, rd, s[..act]);
      }
    }

    /** `memcpy` out of the ring. */
    method CopyOut(p: nat, n: nat) returns (t: seq<Octet>)
      requires p + n <= buf.Length
      ensures t == buf[..][p..p + n] && |t| == n
    {
      t := buf[p..p + n];
    }

    /** The part of a get that copies the bytes out. */
    method CopyOldest(len: nat) returns (out: seq<Octet>)
      requires Valid()
      ensures |out| == Least(len, |Contents()|) && out == Oldest(buf[..], rdPos, |out|)
    {
      var size := buf.Length;
      hide Stored, Oldest;
      ghost var b := buf[..];
      StoredAt(b, dataPos, rdPos, 0);
      var more := [];
      if rdPos <= dataPos {
        var n := dataPos - rdPos;
        if n > len {
          n := len;
        }
        out := CopyOut(rdPos, n);
      } else {
        var n := size - rdPos;
        if n > len {
          n := len;
        }
        out := CopyOut(rdPos, n);
        n := dataPos;
        if n > len - |out| {
          n := len - |out|;
        }
        more := CopyOut(0, n);
      }
      OldestPieces(b, rdPos, out, more);
      out := out + more;
    }

    /** `usb_lib_rb_get`: takes out the oldest bytes, as many as are asked for and stored. */
    method Get(len: nat) returns (out: seq<Octet>)
      requires Valid()
      modifies this`rdPos
      ensures Valid() && |out| == (if len < |old(Contents())| then len else |old(Contents())|)
      ensures rdPos == Around(old(rdPos) + |out|, buf.Length)
      ensures out + Contents() == old(Contents())
    {
      hide Stored, Oldest;
      out := CopyOldest(len);
      StoredLess(buf[..], dataPos, rdPos, |out|);
      rdPos := rdPos + |out|;
      if rdPos >= buf.Length {
        rdPos := rdPos - buf.Length;
      }
    }
  }

  // ---- runs ----

  datatype Call = Put(s: seq<Octet>) | Get(len: nat)

  /** The contents of a ring of `size` bytes, all bytes accepted and all bytes taken out. */
  datatype Run = Run(q: seq<Octet>, taken: seq<Octet>, given: seq<Octet>)

  function Step(r: Run, size: nat, c: Call): (res: Run)
    requires |r.q| < size
  {
    match c
    case Put(s) =>
      var k := Least(|s|, size - 1 - |r.q|);
      Run(r.q + s[..k], r.taken, r.given + s[..k])
    case Get(n) =>
      var k := Least(n, |r.q|);
      Run(r.q[k..], r.taken + r.q[..k], r.given)
  }

  function Steps(r: Run, size: nat, cs: seq<Call>): (res: Run)
    requires |r.q| < size
    decreases |cs|
  {
    if cs == [] then r else Steps(Step(r, size, cs[0]), size, cs[1..])
  }

  /** First in, first out, over any run: what was taken out, followed by what is stored, is what
      was put in. */
  lemma {:induction false} Fifo(r: Run, size: nat, cs: seq<Call>)
    requires |r.q| < size && r.taken + r.q == r.given
    ensures var e := Steps(r, size, cs); e.taken + e.q == e.given && |e.q| < size && r.given <= e.given
    decreases |cs|
  {
    if cs != [] {
      var s := Step(r, size, cs[0]);
      match cs[0] {
        case Put(b) => Reassociate(r.taken, r.q, b[..Least(|b|, size - 1 - |r.q|)]);
        case Get(n) => assert r.q[..Least(n, |r.q|)] + r.q[Least(n, |r.q|)..] == r.q;
      }
      Fifo(s, size, cs[1..]);
    }
  }

  /** One call on a ring follows the run, unless it overfills: what the ring says it accepted was
      given, and what it returns was taken. */
  method Perform(ring: Ring, ghost r: Run, c: Call) returns (act: nat, out: seq<Octet>, ghost e: Run)
    requires ring.Valid() && r.q == ring.Contents()
    requires c.Put? && ring.rdPos > ring.dataPos ==> ring.dataPos + |c.s| < ring.rdPos
    modifies ring, ring.buf
    ensures ring.Valid() && e == Step(r, ring.buf.Length, c) && e.q == ring.Contents()
    ensures c.Put? ==> act <= |c.s| && e.given == r.given + c.s[..act] && out == []
    ensures c.Get? ==> e.taken == r.taken + out && act == 0
  {
    act, out := 0, [];
    match c {
      case Put(s) => act := ring.Put(s);
      case Get(n) => out := ring.Get(n);
    }
    e := Step(r, ring.buf.Length, c);
  }

  /** No put of the run overfills, when the positions are `data` and `rd` at its start. */
  predicate Tame(cs: seq<Call>, data: nat, rd: nat, size: nat)
    requires data < size && rd < size
    decreases |cs|
  {
    cs == [] ||
    match cs[0]
    case Put(s) =>
      var room := if rd > data then rd - data - 1 else size + rd - data - 1;
      (rd > data ==> |s| <= room) && Tame(cs[1..], Around(data + Least(|s|, room), size), rd, size)
    case Get(n) =>
      var stored := if rd <= data then data - rd else size - rd + data;
      Tame(cs[1..], data, Around(rd + Least(n, stored), size), size)
  }

  /** As much as fits, or as much as is there. */
  predicate Amount(c: Call, size: nat, stored: nat, act: nat, out: seq<Octet>)
    requires stored < size
  {
    match c
    case Put(s) => act == Least(|s|, size - 1 - stored) && out == []
    case Get(n) => |out| == Least(n, stored) && act == 0
  }

  function Taken(c: Call, act: nat): (t: seq<Octet>)
    requires c.Put? ==> act <= |c.s|
    ensures |t| == if c.Put? then act else 0
  {
    if c.Put? then c.s[..act] else []
  }

  /** A call that moves these amounts in order is a step of the specification. */
  lemma StepBy(r: Run, size: nat, c: Call, act: nat, out: seq<Octet>, q: seq<Octet>)
    requires |r.q| < size && Amount(c, size, |r.q|, act, out) && out + q == r.q + Taken(c, act)
    ensures Step(r, size, c) == Run(q, r.taken + out, r.given + Taken(c, act))
  {
    assert [] + q == q && r.q + [] == r.q;
    assert r.taken + [] == r.taken && r.given + [] == r.given;
  }

  /** One call, whether it overfills or not: all that was accepted is returned or stored, unless it
      overfills; then some of it is neither. */
  method PerformAny(ring: Ring, c: Call, ghost rest: seq<Call>) returns (act: nat, out: seq<Octet>, ghost ok: bool)
    requires ring.Valid()
    modifies ring, ring.buf
    ensures ring.Valid() && (if c.Put? then act <= |c.s| && out == [] else act == 0)
    ensures ok ==> Amount(c, ring.buf.Length, |old(ring.Contents())|, act, out)
    ensures ok ==> out + ring.Contents() == old(ring.Contents()) + Taken(c, act)
    ensures |out| + |ring.Contents()| + (if ok then 0 else 1) <= |old(ring.Contents())| + act
    ensures Tame([c] + rest, old(ring.dataPos), old(ring.rdPos), ring.buf.Length) <==>
      ok && Tame(rest, ring.dataPos, ring.rdPos, ring.buf.Length)
  {
    hide Stored;
    act, out, ok := 0, [], true;
    ghost var b, d, r := ring.buf[..], ring.dataPos, ring.rdPos;
    RoomIs(b, d, r);
    StoredAt(b, d, r, 0);
    assert ([c] + rest)[1..] == rest;
    match c {
      case Put(s) =>
        ok := ring.rdPos <= ring.dataPos || ring.dataPos + |s| < ring.rdPos;
        act := ring.Put(s);
      case Get(n) =>
        out := ring.Get(n);
    }
  }

  /** A run of calls on a ring: `out` is all it returned and `accepted` all it says it accepted.
      Returned and stored bytes are the accepted ones, in order, exactly when no put overfills, and
      then they are those of the specification, call by call. */
  method PerformAll(ring: Ring, cs: seq<Call>) returns (out: seq<Octet>, accepted: seq<Octet>)
    requires ring.Valid()
    modifies ring, ring.buf
    ensures ring.Valid()
    ensures out + ring.Contents() == old(ring.Contents()) + accepted <==>
      Tame(cs, old(ring.dataPos), old(ring.rdPos), ring.buf.Length)
    ensures Tame(cs, old(ring.dataPos), old(ring.rdPos), ring.buf.Length) ==>
      Run(ring.Contents(), out, accepted) == Steps(Run(old(ring.Contents()), [], []), ring.buf.Length, cs)
  {
    hide Tame, Step, Amount, Taken;
    out, accepted := [], [];
    ghost var size := ring.buf.Length;
    ghost var q, tame, ok := ring.Contents(), Tame(cs, ring.dataPos, ring.rdPos, ring.buf.Length), true;
    assert out + ring.Contents() == q + accepted;
    assert cs[0..] == cs;
    for i := 0 to |cs|
      invariant ring.Valid() && (tame <==> ok && Tame(cs[i..], ring.dataPos, ring.rdPos, ring.buf.Length))
      invariant Kept(q, accepted, out, ring.Contents(), ok)
      invariant ok ==>
        Steps(Run(q, [], []), size, cs) == Steps(Run(ring.Contents(), out, accepted), size, cs[i..])
    {
      assert cs[i..] == [cs[i]] + cs[i + 1..];
      ghost var before := ring.Contents();
      ghost var fine;
      var act, got;
      act, got, fine := PerformAny(ring, cs[i], cs[i + 1..]);
      assert cs[i..][1..] == cs[i + 1..];
      var more := Taken(cs[i], act);
      if fine { StepBy(Run(before, out, accepted), size, cs[i], act, got, ring.Contents()); }
      Onward(q, accepted, out, before, ok, got, ring.Contents(), more, fine);
      ok := ok && fine;
      out, accepted := out + got, accepted + more;
    }
    assert cs[|cs|..] == [];
    TameNone(ring.dataPos, ring.rdPos, ring.buf.Length);
  }

  lemma TameNone(data: nat, rd: nat, size: nat)
    requires data < size && rd < size
    ensures Tame([], data, rd, size)
  {
  }

  /** Returned and stored bytes are all there, or too few. */
  predicate Kept(q: seq<Octet>, accepted: seq<Octet>, out: seq<Octet>, stored: seq<Octet>, ok: bool) {
    if ok then out + stored == q + accepted else |out| + |stored| < |q| + |accepted|
  }

  lemma Onward(q: seq<Octet>, accepted: seq<Octet>, out: seq<Octet>, before: seq<Octet>, ok: bool, got: seq<Octet>,
               after: seq<Octet>, more: seq<Octet>, fine: bool)
    requires Kept(q, accepted, out, before, ok) && (fine ==> got + after == before + more)
    requires |got| + |after| + (if fine then 0 else 1) <= |before| + |more|
    ensures Kept(q, accepted + more, out + got, after, ok && fine)
  {
    if ok && fine {
      Reassociate(out, got, after);
      Reassociate(out, before, more);
      Reassociate(q, accepted, more);
    }
  }

  lemma TameCons(c: Call, cs: seq<Call>, data: nat, rd: nat, size: nat)
    requires data < size && rd < size
    ensures Tame([c] + cs, data, rd, size) <==>
      match c
      case Put(s) =>
        var room := if rd > data then rd - data - 1 else size + rd - data - 1;
        (rd > data ==> |s| <= room) && Tame(cs, Around(data + Least(|s|, room), size), rd, size)
      case Get(n) =>
        var stored := if rd <= data then data - rd else size - rd + data;
        Tame(cs, data, Around(rd + Least(n, stored), size), size)
  {
    assert ([c] + cs)[1..] == cs;
  }

  /** Four calls on a fresh ring of four bytes; the last put offers two bytes where one fits. */
  lemma NotTame(s: seq<Octet>)
    requires |s| == 2
    ensures Tame([Put(s), Get(2), Put(s)], 0, 0, 4) && !Tame([Put(s), Get(2), Put(s), Put(s)], 0, 0, 4)
  {
    assert [Put(s), Get(2), Put(s), Put(s)] == [Put(s)] + ([Get(2)] + ([Put(s)] + [Put(s)]));
    assert [Put(s), Get(2), Put(s)] == [Put(s)] + ([Get(2)] + [Put(s)]);
    TameCons(Put(s), [Get(2)] + ([Put(s)] + [Put(s)]), 0, 0, 4);
    TameCons(Put(s), [Get(2)] + [Put(s)], 0, 0, 4);
    TameCons(Get(2), [Put(s)] + [Put(s)], 2, 0, 4);
    TameCons(Get(2), [Put(s)], 2, 0, 4);
    TameCons(Put(s), [Put(s)], 2, 2, 4);
  }
}
