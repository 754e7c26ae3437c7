/** Descriptors as byte strings: a length byte, a type byte, then the rest
    (section 9.5 of USB 2.0). */
module Descriptors {
  type Octet = i: int | 0 <= i < 256

  datatype Option<T> = None | Some(value: T)

  function Least(a: nat, b: nat): (r: nat)
    ensures r <= a && r <= b && (r == a || r == b)
  {
    if a < b then a else b
  }

  const DT_CONFIG: Octet := 0x02
  const DT_INTERFACE: Octet := 0x04
  const DT_ENDPOINT: Octet := 0x05
  const DT_ASSOC: Octet := 0x0B

  const EINVAL := 522
  const EILLEGAL := 523
  const EPERM := 501
  const EAGAIN := 511
  const ENOMEM := 512
  const EEXIST := 517
  const ENODEV := 519
  const ENOTSUP := 535
  const ESIZE := 611

  /** A sequence of whole descriptors, each at least two bytes long. */
  predicate Framed(b: seq<Octet>)
    decreases |b|
  {
    b == [] || (|b| >= 2 && 2 <= b[0] <= |b| && Framed(b[b[0]..]))
  }

  /** The types of its descriptors, in order. */
  function Types(b: seq<Octet>): (ts: seq<Octet>)
    requires Framed(b)
    ensures b == [] <==> ts == []
    decreases |b|
  {
    if b == [] then [] else [b[1]] + Types(b[b[0]..])
  }

  predicate Avoids(b: seq<Octet>, stops: set<Octet>)
    requires Framed(b)
  {
    forall t | t in Types(b) :: t !in stops
  }

  predicate StartsIn(b: seq<Octet>, stops: set<Octet>)
    requires Framed(b)
  {
    b != [] && b[1] in stops
  }

  /** The first descriptor, and what follows it. */
  function Head(b: seq<Octet>): (d: seq<Octet>)
    requires b != [] && Framed(b)
    ensures |d| == b[0] && d[0] == b[0] && d[1] == b[1]
  {
    b[..b[0]]
  }

  function Next(b: seq<Octet>): (r: seq<Octet>)
    requires b != [] && Framed(b)
    ensures Framed(r) && |r| == |b| - b[0]
  {
    b[b[0]..]
  }

  lemma HeadNext(b: seq<Octet>)
    requires b != [] && Framed(b)
    ensures b == Head(b) + Next(b)
  {
  }

  /** The descriptors before the first one whose type is in `stops`, and the rest. */
  datatype Split = Split(run: seq<Octet>, rest: seq<Octet>)

  function Run(b: seq<Octet>, stops: set<Octet>): (s: Split)
    requires Framed(b)
    ensures Framed(s.rest) && |s.run| + |s.rest| == |b|
    decreases |b|
  {
    if b == [] || b[1] in stops then Split([], b)
    else var s := Run(Next(b), stops); Split(Head(b) + s.run, s.rest)
  }

  /** `Run` takes the maximal prefix of whole descriptors that avoids the stop types. */
  lemma {:induction false} RunIsMaximal(b: seq<Octet>, stops: set<Octet>)
    requires Framed(b)
    ensures var s := Run(b, stops);
      b == s.run + s.rest && Framed(s.run) && Avoids(s.run, stops) && (s.rest == [] || StartsIn(s.rest, stops))
    decreases |b|
  {
    if b != [] && b[1] !in stops {
      var s := Run(Next(b), stops);
      RunIsMaximal(Next(b), stops);
      HeadNext(b);
      PutInFront(Head(b), s.run);
      Reassociate(Head(b), s.run, s.rest);
    }
  }

  lemma PutInFront(d: seq<Octet>, r: seq<Octet>)
    requires |d| >= 2 && d[0] == |d| && Framed(r)
    ensures Framed(d + r) && Types(d + r) == [d[1]] + Types(r)
  {
    assert (d + r)[d[0]..] == r;
  }

  lemma Reassociate<T>(x: seq<T>, y: seq<T>, z: seq<T>)
    ensures (x + y) + z == x + (y + z)
  {
  }

  lemma {:induction false} FramedConcat(a: seq<Octet>, b: seq<Octet>)
    requires Framed(a) && Framed(b)
    ensures Framed(a + b) && Types(a + b) == Types(a) + Types(b)
    decreases |a|
  {
    if a == [] {
      assert a + b == b;
    } else {
      var d, r := TakeFront(a);
      hide Framed, Types;
      FramedConcat(r, b);
      PutInFront(d, r + b);
      Reassociate(d, r, b);
      Reassociate([d[1]], Types(r), Types(b));
    }
  }

  lemma TakeFront(b: seq<Octet>) returns (d: seq<Octet>, r: seq<Octet>)
    requires b != [] && Framed(b)
    ensures |d| >= 2 && d[0] == |d| && b == d + r && Framed(r) && Types(b) == [d[1]] + Types(r)
  {
    d, r := b[..b[0]], b[b[0]..];
  }

  /** Over a stretch that avoids the stop types, then a stop or the end, `Run` is the stretch. */
  lemma {:induction false} RunOver(a: seq<Octet>, b: seq<Octet>, stops: set<Octet>)
    requires Framed(a) && Framed(b) && Avoids(a, stops) && (b == [] || StartsIn(b, stops))
    ensures Framed(a + b) && Run(a + b, stops) == Split(a, b)
    decreases |a|
  {
    if a == [] {
      assert a + b == b;
    } else {
      var d, r := TakeFront(a);
      assert Types(a)[0] == d[1] && Types(a)[1..] == Types(r);
      RunOver(r, b, stops);
      PutInFront(d, r + b);
      Reassociate(d, r, b);
      assert Head(a + b) == d && Next(a + b) == r + b;
    }
  }

  // ---- the descriptors of section 9.6 of USB 2.0, and the association descriptor ----

  datatype IntfDesc = IntfDesc(num: Octet, alt: Octet, nEps: Octet, cls: Octet, sub: Octet, proto: Octet, str: Octet)

  datatype EpDesc = EpDesc(addr: Octet, attr: Octet, mps: nat, interval: Octet)

  datatype AssocDesc = AssocDesc(first: Octet, count: Octet, cls: Octet, sub: Octet, proto: Octet, str: Octet)

  function IntfBytes(d: IntfDesc): (b: seq<Octet>)
    ensures |b| == 9
  {
    [9, DT_INTERFACE, d.num, d.alt, d.nEps, d.cls, d.sub, d.proto, d.str]
  }

  /** The structure has nine bytes: the two audio bytes at its end stay zero. */
  function EpBytes(d: EpDesc): (b: seq<Octet>)
    ensures |b| == 9
  {
    [9, DT_ENDPOINT, d.addr, d.attr, d.mps % 256, d.mps / 256 % 256, d.interval, 0, 0]
  }

  function AssocBytes(d: AssocDesc): (b: seq<Octet>)
    ensures |b| == 8
  {
    [8, DT_ASSOC, d.first, d.count, d.cls, d.sub, d.proto, d.str]
  }

  function CfgBytes(total: nat, nIntfs: Octet, value: Octet, str: Octet): (b: seq<Octet>)
    ensures |b| == 9
  {
    [9, DT_CONFIG, total % 256, total / 256 % 256, nIntfs, value, str, 0xC0, 0x32]
  }
}
