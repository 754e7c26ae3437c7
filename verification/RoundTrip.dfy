/** Device to host: what the builder writes is what the parser finds. */
module RoundTrip {
  import opened Descriptors
  import opened ConfigParser
  import opened UsbdConfig
  import opened UsbdDescriptor
  import G = FunctionGroups
  import P = CfgParse

  // ---- the items the host is to find ----

  function HostEps(es: seq<EpDesc>): (r: seq<Endpoint>)
    ensures |r| == |es|
  {
    if es == [] then [] else [Endpoint(EpBytes(es[0]), [])] + HostEps(es[1..])
  }

  function HostIntf(h: Hdr, es: seq<EpDesc>): (r: Interface) { Interface(IntfBytes(h.intf), h.spec, HostEps(es)) }

  function HostAssoc(h: Hdr): (r: seq<Item>) { if h.assoc.Some? then [Assoc(AssocBytes(h.assoc.value))] else [] }

  function HostItems(c: Cfg, i: nat, n: nat): (r: seq<Item>)
    requires n <= |c.hdrs| && forall k | i <= k < n :: c.hdrs[k].Some?
    decreases n - i
  {
    if i >= n then []
    else HostAssoc(c.hdrs[i].value) + [Intf(HostIntf(c.hdrs[i].value, PipesOf(c.pipes, i)))] + HostItems(c, i + 1, n)
  }

  /** The descriptors a host can read back: class-specific bytes that are whole descriptors of
      other types, endpoints that have a number, no more of them than the host keeps. */
  predicate Readable(h: Hdr, es: seq<EpDesc>) {
    && Clean(h.spec) && |es| <= MAX_EP && h.intf.nEps as nat == |es|
    && forall e | e in es :: e.addr % 16 != 0
  }

  /** Where the endpoints of an interface end. */
  predicate AtBoundary(r: seq<Octet>) {
    Framed(r) && (r == [] || r[1] == DT_INTERFACE || r[1] == DT_ASSOC)
  }

  lemma EpFront(e: EpDesc, t: seq<Octet>, n: nat)
    requires e.addr % 16 != 0 && Framed(t) && (t == [] || StartsIn(t, STOPS)) && n > 0
    ensures var b := EpBytes(e) + t;
      && Framed(b) && StartsIn(b, STOPS)
      && WalkEps(b, n) == match WalkEps(t, n - 1)
                          case EpFail => EpFail
                          case EpDone(eps, rest) => EpDone([Endpoint(EpBytes(e), [])] + eps, rest)
  {
    var b := EpBytes(e) + t;
    PutInFront(EpBytes(e), t);
    assert Head(b) == EpBytes(e) && Next(b) == t;
    assert Run(t, STOPS) == Split([], t);
  }

  lemma {:induction false} EpsRead(es: seq<EpDesc>, r: seq<Octet>)
    requires AtBoundary(r) && forall e | e in es :: e.addr % 16 != 0
    ensures var b := AllEpBytes(es) + r;
      && Framed(b) && (b == [] || StartsIn(b, STOPS))
      && WalkEps(b, |es|) == EpDone(HostEps(es), r)
  {
    hide EpBytes;
    if es == [] {
      assert AllEpBytes(es) + r == r;
    } else {
      EpsRead(es[1..], r);
      EpFront(es[0], AllEpBytes(es[1..]) + r, |es|);
      Reassociate(EpBytes(es[0]), AllEpBytes(es[1..]), r);
    }
  }

  /** A descriptor in front is the head, and what follows it is the rest. */
  lemma FrontParts(d: seq<Octet>, t: seq<Octet>)
    requires OneDesc(d) && Framed(t)
    ensures var b := d + t; Framed(b) && Head(b) == d && Next(b) == t && b[1] == d[1]
  {
    PutInFront(d, t);
    assert (d + t)[..d[0]] == d && (d + t)[d[0]..] == t;
  }

  lemma IntfFront(d: seq<Octet>, spec: seq<Octet>, t: seq<Octet>)
    requires OneDesc(d) && |d| >= 9 && d[1] == DT_INTERFACE && Clean(spec)
    requires Framed(t) && (t == [] || StartsIn(t, STOPS)) && WalkEps(t, Least(d[4], MAX_EP)).EpDone?
    ensures var b := d + (spec + t); var w := WalkEps(t, Least(d[4], MAX_EP));
      Framed(b) && b[1] == DT_INTERFACE && WalkIntf(b) == IntfDone(Interface(d, spec, w.eps), w.rest)
  {
    RunOver(spec, t, STOPS);
    FrontParts(d, spec + t);
    hide WalkEps, Head, Next, Run, Framed, Types;
    assert (d + (spec + t))[4] == d[4];
  }

  lemma IntfLooks(d: IntfDesc)
    ensures var b := IntfBytes(d); OneDesc(b) && |b| == 9 && b[1] == DT_INTERFACE && b[4] == d.nEps
  {
  }

  lemma IntfRead(h: Hdr, es: seq<EpDesc>, r: seq<Octet>)
    requires Readable(h, es) && AtBoundary(r)
    ensures var b := IntfBytes(h.intf) + (h.spec + (AllEpBytes(es) + r));
      && Framed(b) && b[1] == DT_INTERFACE && WalkIntf(b) == IntfDone(HostIntf(h, es), r)
  {
    EpsRead(es, r);
    IntfLooks(h.intf);
    hide WalkEps, AllEpBytes, WalkIntf, Framed, Clean, HostEps, IntfBytes;
    IntfFront(IntfBytes(h.intf), h.spec, AllEpBytes(es) + r);
  }

  function Onto(xs: seq<Item>, w: Walk): (r: Walk) { if w.Fail? then Fail else Done(xs + w.items) }

  lemma AssocFront(d: seq<Octet>, t: seq<Octet>)
    requires OneDesc(d) && d[1] == DT_ASSOC && Framed(t)
    ensures AtBoundary(d + t) && Items(d + t) == Cons(Assoc(d), Items(t))
  {
    FrontParts(d, t);
    hide Head, Next, WalkIntf, Framed, Cons;
  }

  lemma ConsOnto(a: Item, f: Item, w: Walk)
    ensures Cons(a, Onto([f], w)) == Onto([a, f], w)
  {
    if w.Done? { assert [a] + ([f] + w.items) == [a, f] + w.items; }
  }

  lemma HdrSplit(h: Hdr, es: seq<EpDesc>, r: seq<Octet>)
    ensures HdrBytes(h, es) + r == AssocPart(h) + (IntfBytes(h.intf) + (h.spec + (AllEpBytes(es) + r)))
  {
    hide AllEpBytes, IntfBytes, AssocPart;
    Regroup(AssocPart(h), IntfBytes(h.intf), h.spec + AllEpBytes(es), r);
    Reassociate(h.spec, AllEpBytes(es), r);
    Reassociate(AssocPart(h) + IntfBytes(h.intf), h.spec, AllEpBytes(es));
  }

  lemma AssocLooks(a: AssocDesc)
    ensures OneDesc(AssocBytes(a)) && AssocBytes(a)[1] == DT_ASSOC
  {
  }

  lemma HdrRead(h: Hdr, es: seq<EpDesc>, r: seq<Octet>)
    requires Readable(h, es) && AtBoundary(r)
    ensures AtBoundary(HdrBytes(h, es) + r)
    ensures Items(HdrBytes(h, es) + r) == Onto(HostAssoc(h) + [Intf(HostIntf(h, es))], Items(r))
  {
    hide HostEps, AllEpBytes, IntfBytes, AssocBytes, WalkIntf, HdrBytes, HostIntf, Readable, Framed;
    var t, f := IntfBytes(h.intf) + (h.spec + (AllEpBytes(es) + r)), Intf(HostIntf(h, es));
    IntfRead(h, es, r);
    HdrSplit(h, es, r);
    assert Items(t) == Onto([f], Items(r));
    if h.assoc.Some? {
      AssocLooks(h.assoc.value);
      AssocFront(AssocBytes(h.assoc.value), t);
      ConsOnto(Assoc(AssocBytes(h.assoc.value)), f, Items(r));
      assert HostAssoc(h) + [f] == [Assoc(AssocBytes(h.assoc.value)), f];
    } else {
      assert [] + t == t && HostAssoc(h) + [f] == [f];
    }
  }

  predicate AllReadable(c: Cfg, n: nat)
    requires n <= |c.hdrs| && forall k | 0 <= k < n :: c.hdrs[k].Some?
  {
    forall k | 0 <= k < n :: Readable(c.hdrs[k].value, PipesOf(c.pipes, k))
  }

  lemma {:induction false} HdrsRead(c: Cfg, i: nat, n: nat)
    requires n <= |c.hdrs| && i <= n && forall k | 0 <= k < n :: c.hdrs[k].Some?
    requires AllReadable(c, n)
    ensures AtBoundary(HdrsBytes(c, i, n)) && Items(HdrsBytes(c, i, n)) == Done(HostItems(c, i, n))
    decreases n - i
  {
    hide HdrBytes, HostIntf, Readable, PipesOf;
    if i < n {
      HdrsRead(c, i + 1, n);
      HdrRead(c.hdrs[i].value, PipesOf(c.pipes, i), HdrsBytes(c, i + 1, n));
    }
  }

  /** The walk over what the device writes finds the configuration descriptor and then, interface
      by interface, exactly what the device holds. */
  lemma SerializeRead(c: Cfg, n: nat)
    requires Dense(c, n) && AllReadable(c, n)
    ensures var cfg := CfgBytes(c.total, c.nIntfs, c.value, c.str);
      Framed(Serialize(c, n)) && Items(Serialize(c, n)) == Done([Other(cfg)] + HostItems(c, 0, n))
  {
    hide HdrsBytes, HostItems, AllReadable, CfgBytes, WalkIntf, Head, Next, Framed;
    var cfg := CfgBytes(c.total, c.nIntfs, c.value, c.str);
    HdrsRead(c, 0, n);
    CfgLooks(c);
    FrontParts(cfg, HdrsBytes(c, 0, n));
    assert Items(cfg + HdrsBytes(c, 0, n)) == Cons(Other(cfg), Items(HdrsBytes(c, 0, n)));
  }

  lemma CfgLooks(c: Cfg)
    ensures var b := CfgBytes(c.total, c.nIntfs, c.value, c.str); OneDesc(b) && b[1] == DT_CONFIG
  {
  }

  // ---- reading the fields back ----

  /** An interface as both sides can describe it. */
  datatype Seen = Seen(intf: IntfDesc, spec: seq<Octet>, eps: seq<EpDesc>)

  function At(d: seq<Octet>, k: nat): (r: Octet) { G.Field(d, k) }

  function ReadIntf(d: seq<Octet>): (r: IntfDesc) {
    IntfDesc(At(d, 2), At(d, 3), At(d, 4), At(d, 5), At(d, 6), At(d, 7), At(d, 8))
  }

  /** The packet size is two bytes, the low one first. */
  function ReadEp(d: seq<Octet>): (r: EpDesc) {
    EpDesc(At(d, 2), At(d, 3), (At(d, 4) as nat) + 256 * (At(d, 5) as nat), At(d, 6))
  }

  function ReadAssoc(d: seq<Octet>): (r: AssocDesc) {
    AssocDesc(At(d, 2), At(d, 3), At(d, 4), At(d, 5), At(d, 6), At(d, 7))
  }

  function ReadEps(es: seq<Endpoint>): (r: seq<EpDesc>)
    ensures |r| == |es|
  {
    seq(|es|, k requires 0 <= k < |es| => ReadEp(es[k].desc))
  }

  function See(i: Interface): (r: Seen) { Seen(ReadIntf(i.desc), i.extra, ReadEps(i.eps)) }

  function SeeAll(xs: seq<Interface>): (r: seq<Seen>)
    ensures |r| == |xs|
  {
    seq(|xs|, k requires 0 <= k < |xs| => See(xs[k]))
  }

  /** What the device holds, interface by interface. */
  function Offered(c: Cfg, n: nat): (r: seq<Seen>)
    requires Dense(c, n)
    ensures |r| == n
  {
    seq(n, k requires 0 <= k < n => Seen(c.hdrs[k].value.intf, c.hdrs[k].value.spec, PipesOf(c.pipes, k)))
  }

  function OfferedAssocs(c: Cfg, i: nat, n: nat): (r: seq<AssocDesc>)
    requires n <= |c.hdrs| && forall k | i <= k < n :: c.hdrs[k].Some?
    decreases n - i
  {
    if i >= n then []
    else (if c.hdrs[i].value.assoc.Some? then [c.hdrs[i].value.assoc.value] else []) + OfferedAssocs(c, i + 1, n)
  }

  function SeeAssocs(ds: seq<seq<Octet>>): (r: seq<AssocDesc>) {
    if ds == [] then [] else [ReadAssoc(ds[0])] + SeeAssocs(ds[1..])
  }

  /** The four descriptors on the wire, section 9.6 of USB 2.0 and the association of its ECN. */
  lemma BytesExactly(i: IntfDesc, a: AssocDesc, e: EpDesc, total: nat, nIntfs: Octet, value: Octet, str: Octet)
    requires e.mps < 65536 && total < 65536
    ensures CfgBytes(total, nIntfs, value, str) == [9, 2, total % 256, total / 256, nIntfs, value, str, 0xC0, 0x32]
    ensures IntfBytes(i) == [9, 4, i.num, i.alt, i.nEps, i.cls, i.sub, i.proto, i.str]
    ensures AssocBytes(a) == [8, 11, a.first, a.count, a.cls, a.sub, a.proto, a.str]
    ensures EpBytes(e) == [9, 5, e.addr, e.attr, e.mps % 256, e.mps / 256, e.interval, 0, 0]
  {
  }

  lemma FieldsBack(i: IntfDesc, a: AssocDesc, e: EpDesc)
    requires e.mps < 65536
    ensures ReadIntf(IntfBytes(i)) == i && ReadAssoc(AssocBytes(a)) == a && ReadEp(EpBytes(e)) == e
  {
    assert e.mps % 256 + 256 * (e.mps / 256) == e.mps && e.mps / 256 < 256;
  }

  lemma {:induction false} HostEpAt(es: seq<EpDesc>, k: nat)
    requires k < |es|
    ensures HostEps(es)[k] == Endpoint(EpBytes(es[k]), [])
  {
    hide EpBytes;
    if k > 0 { HostEpAt(es[1..], k - 1); }
  }

  lemma EpsBack(es: seq<EpDesc>)
    requires forall e | e in es :: e.mps < 65536
    ensures ReadEps(HostEps(es)) == es
  {
    hide HostEps, ReadEp, EpBytes;
    forall k | 0 <= k < |es| ensures ReadEps(HostEps(es))[k] == es[k] {
      HostEpAt(es, k);
      assert es[k] in es;
      FieldsBack(IntfDesc(0, 0, 0, 0, 0, 0, 0), AssocDesc(0, 0, 0, 0, 0, 0), es[k]);
    }
  }

  /** The interfaces and associations of one header and those of the headers after it. */
  lemma HostNext(c: Cfg, i: nat, n: nat)
    requires i < n <= |c.hdrs| && forall k | i <= k < n :: c.hdrs[k].Some?
    ensures var h, t := c.hdrs[i].value, HostItems(c, i + 1, n);
      && Intfs(HostItems(c, i, n)) == [HostIntf(h, PipesOf(c.pipes, i))] + Intfs(t)
      && Assocs(HostItems(c, i, n)) == (if h.assoc.Some? then [AssocBytes(h.assoc.value)] else []) + Assocs(t)
  {
    hide HostIntf, PipesOf, Intfs, Assocs, AssocBytes;
    var h := c.hdrs[i].value;
    OneHdr(HostAssoc(h), Intf(HostIntf(h, PipesOf(c.pipes, i))), HostItems(c, i + 1, n));
  }

  /** The interfaces in the items of headers `i..n`, one for each header. */
  lemma {:induction false} HostIntfs(c: Cfg, i: nat, n: nat)
    requires n <= |c.hdrs| && i <= n && forall k | 0 <= k < n :: c.hdrs[k].Some?
    ensures |Intfs(HostItems(c, i, n))| == n - i
    ensures forall k | i <= k < n :: Intfs(HostItems(c, i, n))[k - i] == HostIntf(c.hdrs[k].value, PipesOf(c.pipes, k))
    decreases n - i
  {
    hide HostIntf, PipesOf;
    if i < n {
      HostIntfs(c, i + 1, n);
      HostNext(c, i, n);
      hide HostItems, Intfs, Assocs;
      var f, xs := HostIntf(c.hdrs[i].value, PipesOf(c.pipes, i)), Intfs(HostItems(c, i + 1, n));
      forall k | i <= k < n ensures ([f] + xs)[k - i] == HostIntf(c.hdrs[k].value, PipesOf(c.pipes, k)) {
        if k > i { assert ([f] + xs)[k - i] == xs[k - (i + 1)]; }
      }
    }
  }

  lemma OneHdr(a: seq<Item>, f: Item, t: seq<Item>)
    requires f.Intf? && (a == [] || (|a| == 1 && a[0].Assoc?))
    ensures Intfs(a + [f] + t) == [f.intf] + Intfs(t)
    ensures Assocs(a + [f] + t) == (if a == [] then [] else [a[0].desc]) + Assocs(t)
  {
    P.ProjectCons(f, t);
    assert [] + Assocs(t) == Assocs(t);
    if a == [] {
      assert a + [f] + t == [f] + t;
    } else {
      P.ProjectCons(a[0], [f] + t);
      assert a + [f] + t == [a[0]] + ([f] + t);
      assert [] + ([f.intf] + Intfs(t)) == [f.intf] + Intfs(t);
    }
  }

  lemma SeeAssocsCons(d: seq<Octet>, ds: seq<seq<Octet>>)
    ensures SeeAssocs([d] + ds) == [ReadAssoc(d)] + SeeAssocs(ds)
  {
    assert ([d] + ds)[1..] == ds;
  }

  lemma {:induction false} HostAssocs(c: Cfg, i: nat, n: nat)
    requires n <= |c.hdrs| && i <= n && forall k | 0 <= k < n :: c.hdrs[k].Some?
    ensures SeeAssocs(Assocs(HostItems(c, i, n))) == OfferedAssocs(c, i, n)
    ensures forall d | d in Assocs(HostItems(c, i, n)) :: |d| == 8
    decreases n - i
  {
    hide HostIntf, PipesOf, ReadAssoc;
    if i < n {
      HostAssocs(c, i + 1, n);
      HostNext(c, i, n);
      hide HostItems, Intfs, Assocs;
      var h, ds := c.hdrs[i].value, Assocs(HostItems(c, i + 1, n));
      if h.assoc.Some? {
        FieldsBack(h.intf, h.assoc.value, EpDesc(0, 0, 0, 0));
        SeeAssocsCons(AssocBytes(h.assoc.value), ds);
      } else {
        assert [] + ds == ds;
      }
    }
  }

  /** What a device must be like to be read back. The counters are those every run of calls
      keeps; the rest is up to the class drivers: class-specific bytes that are descriptors of
      other types, and no more pipes for an interface than the host keeps. */
  ghost predicate Presentable(c: Cfg, n: nat) {
    && Shaped(c) && Dense(c, n)
    && (forall k | 0 <= k < n :: Clean(c.hdrs[k].value.spec) && Count(c.pipes, k) <= MAX_EP)
  }

  lemma {:induction false} PipesOfMembers(ps: seq<Pipe>, k: nat, e: EpDesc)
    requires e in PipesOf(ps, k)
    ensures exists p :: p in ps && p.ep == e
  {
    if ps[0].hdr == k && ps[0].ep == e {
      assert ps[0] in ps;
    } else {
      PipesOfMembers(ps[1..], k, e);
    }
  }

  lemma PipesFine(c: Cfg, n: nat, k: nat)
    requires Presentable(c, n) && k < n
    ensures Readable(c.hdrs[k].value, PipesOf(c.pipes, k))
    ensures forall e | e in PipesOf(c.pipes, k) :: e.mps < 65536
    ensures c.hdrs[k].value.intf.num as nat == k
  {
    hide Sum, Present, Count, PipesOf, Clean;
    PipesCounted(c.pipes, k);
    assert HdrOk(c.pipes, k, c.hdrs[k].value);
    forall e | e in PipesOf(c.pipes, k) ensures e.mps < 65536 && e.addr % 16 != 0 {
      PipesOfMembers(c.pipes, k, e);
      var p :| p in c.pipes && p.ep == e;
      assert PipeOk(c.hdrs, p);
    }
  }

  /** The host recovers the device's interfaces in order, each with its own class-specific bytes
      and its own pipes in list order, and the same associations. */
  lemma RoundTrips(c: Cfg, n: nat)
    requires Presentable(c, n)
    ensures Framed(Serialize(c, n)) && Items(Serialize(c, n)).Done?
    ensures var items := Items(Serialize(c, n)).items;
      SeeAll(Intfs(items)) == Offered(c, n) && SeeAssocs(Assocs(items)) == OfferedAssocs(c, 0, n)
  {
    hide HostItems, PipesOf, Readable, Shaped, IntfBytes, EpBytes, ReadIntf, Clean, Serialize, Intfs, Assocs;
    forall k | 0 <= k < n ensures Readable(c.hdrs[k].value, PipesOf(c.pipes, k)) { PipesFine(c, n, k); }
    SerializeRead(c, n);
    var cfg, t := CfgBytes(c.total, c.nIntfs, c.value, c.str), HostItems(c, 0, n);
    P.ProjectCons(Other(cfg), t);
    assert [] + Intfs(t) == Intfs(t) && [] + Assocs(t) == Assocs(t);
    HostIntfs(c, 0, n);
    HostAssocs(c, 0, n);
    forall k | 0 <= k < n ensures SeeAll(Intfs(t))[k] == Offered(c, n)[k] {
      PipesFine(c, n, k);
      FieldsBack(c.hdrs[k].value.intf, AssocDesc(0, 0, 0, 0, 0, 0), EpDesc(0, 0, 0, 0));
      EpsBack(PipesOf(c.pipes, k));
      assert Intfs(t)[k - 0] == HostIntf(c.hdrs[k].value, PipesOf(c.pipes, k));
    }
  }
}
