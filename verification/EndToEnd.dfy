/** A configuration on its way from the device to the host, in place: __cfg_desc_make in
    core/source/device/core/usbd_dev.c fills the buffer of endpoint 0, and __dev_cfg_parse in
    core/source/host/core/usbh_dev_enum.c reads as many bytes of it as it announces. */
module EndToEnd {
  import opened Descriptors
  import opened ConfigParser
  import opened UsbdConfig
  import opened UsbdDescriptor
  import opened RoundTrip
  import opened RoundTripGroups
  import G = FunctionGroups
  import P = CfgParse
  import R = UsbdRuns
  import U = UsbdIntent

  /** The transfer: as many bytes as are asked for. */
  method Fetch(ep0: array<Octet>, len: nat) returns (buf: array<Octet>)
    requires len <= ep0.Length
    ensures fresh(buf) && buf[..] == ep0[..len]
  {
    buf := new Octet[len](_ => 0);
    forall k | 0 <= k < len { buf[k] := ep0[k]; }
  }

  lemma InterfaceCount(c: Cfg, n: nat)
    requires Dense(c, n)
    ensures |Serialize(c, n)| >= 9 && Serialize(c, n)[4] == c.nIntfs
  {
    hide HdrsBytes;
  }

  /** The host's table holds the associations built, each with the interfaces of its range, and then
      each other interface alone; the interfaces are those built, with their pipes. */
  ghost predicate Recovered(c: Cfg, n: nat, fs: seq<G.Func>)
    requires Dense(c, n)
  {
    var b := Serialize(c, n);
    && Framed(b) && Items(b).Done?
    && var xs := Intfs(Items(b).items);
       && SeeAll(xs) == Offered(c, n)
       && AssocsGrouped(fs, OfferedAssocs(c, 0, n), xs) && OthersAlone(fs, OfferedAssocs(c, 0, n), xs)
  }

  // ---- what the host sees, byte by byte, of what the calls asked for ----

  /** An interface as a call asks for it: the bytes of its descriptor, and its class-specific bytes. */
  predicate IntfSeen(x: Interface, f: FuncInfo) {
    && |x.desc| == 9 && x.desc[0] == 9 && x.desc[1] == 4 && x.desc[2] == f.num && x.desc[3] == 0
    && x.desc[5] == f.cls && x.desc[6] == f.sub && x.desc[7] == f.proto
    && x.extra == match f.spec case Some(b) => b case None => []
  }

  /** A function as a call on an association asks for it, holding the interfaces of its range. */
  ghost predicate FuncSeen(g: G.Func, a: AssocInfo) {
    && g.kind == 11 && g.first == a.first && g.nType == a.count
    && g.cls == a.cls && g.sub == a.sub && g.proto == a.proto
    && |g.intfs| == a.count as nat
    && forall i | 0 <= i < |g.intfs| :: |g.intfs[i].desc| == 9 && g.intfs[i].desc[2] as int == a.first + i
  }

  /** The function holds the interface: in an association, or alone and then with its codes. */
  ghost predicate Holds(g: G.Func, f: FuncInfo) {
    exists x :: x in g.intfs && IntfSeen(x, f) && (g.kind == 11 || AloneAs(g, x, f))
  }

  predicate AloneAs(g: G.Func, x: Interface, f: FuncInfo) {
    && g.kind == 4 && g.intfs == [x] && g.first == f.num && g.nType == 1
    && g.cls == f.cls && g.sub == f.sub && g.proto == f.proto
  }

  /** Every interface asked for is in some function, and every association is a function. */
  ghost predicate HostSees(ops: seq<Call>, fs: seq<G.Func>) {
    && (forall op, f | op in ops && U.Asks(op, f) :: exists j :: 0 <= j < |fs| && Holds(fs[j], f))
    && (forall a, gs | AssocAddCall(a, gs) in ops && gs != [] :: exists j :: 0 <= j < |fs| && FuncSeen(fs[j], a))
  }

  /** An endpoint as the host keeps it: address, attributes, packet size and interval in place. */
  function EpSeen(d: EpDesc): (e: Endpoint)
    requires d.mps < 65536
  {
    Endpoint([9, 5, d.addr, d.attr, d.mps % 256, d.mps / 256, d.interval, 0, 0], [])
  }

  predicate Distinct(ps: seq<Pipe>) { forall i, j | 0 <= i < j < |ps| :: ps[i].ep.addr != ps[j].ep.addr }

  /** Pipes of distinct addresses: `80h + k` is entry `k` of the IN table, `k` of the OUT table. An
      entry without a pipe is as before. */
  ghost predicate PipesSeen(ps: seq<Pipe>, tin: seq<Option<Endpoint>>, tout: seq<Option<Endpoint>>,
                            in0: seq<Option<Endpoint>>, out0: seq<Option<Endpoint>>)
  {
    && |tin| == |tout| == |in0| == |out0| == 16
    && (forall p | p in ps :: p.ep.mps < 65536 && (p.ep.addr < 16 || 0x80 <= p.ep.addr < 0x90))
    && (Distinct(ps) ==> forall p | p in ps && p.ep.addr >= 0x80 :: tin[p.ep.addr - 0x80] == Some(EpSeen(p.ep)))
    && (Distinct(ps) ==> forall p | p in ps && p.ep.addr < 0x80 :: tout[p.ep.addr] == Some(EpSeen(p.ep)))
    && (forall k: int | 0 <= k < 16 && (forall p | p in ps :: p.ep.addr as int != 0x80 + k) :: tin[k] == in0[k])
    && (forall k: int | 0 <= k < 16 && (forall p | p in ps :: p.ep.addr as int != k) :: tout[k] == out0[k])
  }

  /** Whatever proper calls built a configuration of fewer than 65536 bytes: the device writes it, the
      host asks for the length announced, and ends up with the functions built. */
  method Enumerated(value: Octet, str: Octet, strs: set<nat>, ghost ops: seq<Call>, c: Cfg, n: nat,
                    ep0: array<Octet>, dev: P.UsbDevice) returns (ret: int)
    requires R.ProperRun(Fresh(value, str, strs), ops, c) && Dense(c, n) && n > 0
    requires forall k | 0 <= k < n :: Clean(c.hdrs[k].value.spec) && Count(c.pipes, k) <= MAX_EP
    requires Recount(c) < 65536 && ep0.Length >= Recount(c) && dev.Valid()
    modifies ep0, dev, dev.epIn, dev.epOut
    ensures ret == 0 && dev.Valid() && Recovered(c, n, dev.funs[..])
    ensures dev.cfgExtra == [] && HostSees(ops, dev.funs[..])
    ensures PipesSeen(c.pipes, dev.epIn[..], dev.epOut[..], old(dev.epIn[..]), old(dev.epOut[..]))
  {
    hide U.StoresAll, HostSees, PipesSeen, P.Tables, R.ProperRun, Serialize, MakeAll, Recount, Items, Clean,
      Presentable, HostGetsAll, HostReads, Announced, Requested, R.AssocsWhole, P.Acceptable, Recovered;
    RunReadBack(value, str, strs, ops, c, n, ep0.Length);
    R.FreshSound(value, str, strs);
    U.RunStores(Fresh(value, str, strs), ops, c);
    ghost var b := Serialize(c, n);
    SizesMatch(c, n, ep0.Length);
    ghost var written;
    ret, written := CfgDescMake(c, ep0);
    var len: nat := ep0[2] as nat + 0x100 * ep0[3] as nat;
    FieldsWritten(ep0[..written], b, ep0[2], ep0[3]);
    var buf := Fetch(ep0, len);
    HostAccepts(c, n);
    RoundTrips(c, n);
    ret := dev.CfgParse(buf, b);
    InterfaceCount(c, n);
    Grouped(c, n, Items(b).items, dev.funs[..]);
    NothingExtra(c, n);
    SeenAll(c, n, Fresh(value, str, strs), ops, Items(b).items, dev.funs[..]);
    TablesSeen(c, n, Items(b).items, dev.epIn, dev.epOut, old(dev.epIn[..]), old(dev.epOut[..]));
  }

  /** An interface or an association comes right behind the configuration descriptor. */
  lemma NothingExtra(c: Cfg, n: nat)
    requires Dense(c, n) && n > 0 && Framed(Serialize(c, n)) && Serialize(c, n) != []
    ensures Run(Next(Serialize(c, n)), CFG_STOPS).run == []
  {
    var b := Serialize(c, n);
    var h := c.hdrs[0].value;
    assert b[0] == 9 && b[9..] == HdrsBytes(c, 0, n);
    hide IntfBytes, AllEpBytes, PipesOf;
    assert HdrsBytes(c, 0, n)[1] == if h.assoc.Some? then 11 else 4 by {
      assert IntfBytes(h.intf)[1] == 4 by { IntfType(h.intf); }
    }
  }

  lemma IntfType(i: IntfDesc)
    ensures IntfBytes(i)[1] == 4
  {
  }

  lemma SizesMatch(c: Cfg, n: nat, size: nat)
    requires Presentable(c, n) && Written(c, n, size) && c.total == Wrap16(Recount(c)) && Recount(c) < 65536
    ensures MakeAll(c, n, size) == Made(Serialize(c, n)) && size >= 9 && |Serialize(c, n)| >= 9
    ensures Announced(Serialize(c, n)) == |Serialize(c, n)| == Recount(c)
  {
    hide MakeAll, Announced, Serialize, Recount, Sum, Present, Count;
    AnnouncedTotal(c, n);
    SerializeLength(c, n);
  }

  lemma FieldsWritten(w: seq<Octet>, b: seq<Octet>, lo: Octet, hi: Octet)
    requires |b| >= 9 && w == b && lo == b[2] && hi == b[3]
    ensures lo as nat + 0x100 * hi as nat == Announced(b)
  {
  }

  lemma Grouped(c: Cfg, n: nat, items: seq<Item>, fs: seq<G.Func>)
    requires Presentable(c, n) && R.AssocsWhole(c.hdrs)
    requires Framed(Serialize(c, n)) && Items(Serialize(c, n)) == Done(items)
    requires fs == G.Functions(c.nIntfs, Assocs(items), Intfs(items))
    ensures Recovered(c, n, fs)
  {
    hide R.AssocsWhole, Serialize, Items, Shaped, Clean, Count;
    GroupsRecovered(c, n);
    RoundTrips(c, n);
  }

  // ---- interfaces and associations ----

  /** The parsed interfaces, as bytes. */
  lemma ParsedIntfs(c: Cfg, n: nat, items: seq<Item>)
    requires Presentable(c, n) && Framed(Serialize(c, n)) && Items(Serialize(c, n)) == Done(items)
    ensures |Intfs(items)| == n
    ensures forall k | 0 <= k < n :: Intfs(items)[k] == HostIntf(c.hdrs[k].value, PipesOf(c.pipes, k))
  {
    hide PipesOf, Shaped, Clean, Count, HostIntf, Serialize, Intfs, HostItems;
    forall k | 0 <= k < n ensures Readable(c.hdrs[k].value, PipesOf(c.pipes, k)) { PipesFine(c, n, k); }
    SerializeRead(c, n);
    var cfg, t := CfgBytes(c.total, c.nIntfs, c.value, c.str), HostItems(c, 0, n);
    P.ProjectCons(Other(cfg), t);
    assert [] + Intfs(t) == Intfs(t);
    HostIntfs(c, 0, n);
    forall k | 0 <= k < n ensures Intfs(t)[k] == HostIntf(c.hdrs[k].value, PipesOf(c.pipes, k)) {
      assert Intfs(t)[k - 0] == HostIntf(c.hdrs[k].value, PipesOf(c.pipes, k));
    }
  }

  lemma {:induction false} OfferedAt(c: Cfg, i: nat, n: nat, k: nat) returns (j: nat)
    requires n <= |c.hdrs| && i <= k < n && (forall k | i <= k < n :: c.hdrs[k].Some?) && c.hdrs[k].value.assoc.Some?
    ensures j < |OfferedAssocs(c, i, n)| && OfferedAssocs(c, i, n)[j] == c.hdrs[k].value.assoc.value
    decreases n - i
  {
    if i == k {
      j := 0;
    } else {
      j := OfferedAt(c, i + 1, n, k);
      if c.hdrs[i].value.assoc.Some? { j := j + 1; }
    }
  }

  lemma OneIntf(h: Hdr, es: seq<EpDesc>, f: FuncInfo)
    requires R.IntfAsAsked(h, f) && h.intf.alt == 0
    ensures IntfSeen(HostIntf(h, es), f)
  {
  }

  lemma OneFunc(d: AssocDesc, xs: seq<Interface>, a: AssocInfo)
    requires R.AssocAsAsked(d, a) && d.first + d.count <= |xs|
    requires forall k | 0 <= k < |xs| :: |xs[k].desc| == 9 && xs[k].desc[2] as int == k
    ensures FuncSeen(G.AssocFunc(AssocBytes(d), Stretch(xs, d)), a)
  {
    var g := G.AssocFunc(AssocBytes(d), Stretch(xs, d));
    forall i | 0 <= i < |g.intfs| ensures |g.intfs[i].desc| == 9 && g.intfs[i].desc[2] as int == a.first + i {
      assert g.intfs[i] == xs[d.first + i];
    }
  }

  lemma StoredNumber(c: Cfg, n: nat, k: nat, es: seq<EpDesc>)
    requires Presentable(c, n) && k < n
    ensures c.hdrs[k].value.intf.alt == 0 && c.hdrs[k].value.intf.num as nat == k
    ensures HostIntf(c.hdrs[k].value, es).desc[2] as nat == k && |HostIntf(c.hdrs[k].value, es).desc| == 9
  {
    assert HdrOk(c.pipes, k, c.hdrs[k].value);
  }

  lemma SeenAll(c: Cfg, n: nat, c0: Cfg, ops: seq<Call>, items: seq<Item>, fs: seq<G.Func>)
    requires Presentable(c, n) && R.AssocsWhole(c.hdrs) && U.StoresAll(c0, ops, c)
    requires Framed(Serialize(c, n)) && Items(Serialize(c, n)) == Done(items)
    requires fs == G.Functions(c.nIntfs, Assocs(items), Intfs(items))
    ensures HostSees(ops, fs)
  {
    hide R.AssocsWhole, Serialize, Items, Presentable, U.AllKept, Intfs, Assocs, PipesOf, HostIntf, FuncSeen, IntfSeen,
      U.Asks, OfferedAssocs, G.Functions, G.Owners;
    DenseHere(c, n);
    GroupsRecovered(c, n);
    ParsedIntfs(c, n, items);
    var xs := Intfs(items);
    forall k | 0 <= k < n ensures |xs[k].desc| == 9 && xs[k].desc[2] as nat == k && c.hdrs[k].value.intf.alt == 0 {
      StoredNumber(c, n, k, PipesOf(c.pipes, k));
    }
    forall op, f | op in ops && U.Asks(op, f) ensures exists j :: 0 <= j < |fs| && Holds(fs[j], f) {
      assert U.FuncStored(c, f);
      var k := f.num as nat;
      OneIntf(c.hdrs[k].value, PipesOf(c.pipes, k), f);
      assert xs[k] in xs && G.InOne(fs, xs[k]);
      var j :| 0 <= j < |fs| && xs[k] in fs[j].intfs;
      HeldBy(c, n, items, fs, j, xs[k], f);
    }
    forall a, gs | AssocAddCall(a, gs) in ops && gs != [] ensures exists j :: 0 <= j < |fs| && FuncSeen(fs[j], a) {
      assert U.AssocStored(c, a);
      var j := OfferedAt(c, 0, n, a.first);
      OneFunc(OfferedAssocs(c, 0, n)[j], xs, a);
      assert FuncSeen(fs[j], a);
    }
  }

  lemma HeldBy(c: Cfg, n: nat, items: seq<Item>, fs: seq<G.Func>, j: nat, x: Interface, f: FuncInfo)
    requires Presentable(c, n) && R.AssocsWhole(c.hdrs)
    requires Framed(Serialize(c, n)) && Items(Serialize(c, n)) == Done(items)
    requires fs == G.Functions(c.nIntfs, Assocs(items), Intfs(items))
    requires j < |fs| && x in fs[j].intfs && IntfSeen(x, f)
    ensures Holds(fs[j], f)
  {
    hide R.AssocsWhole, Serialize, Items, Presentable, Intfs, Assocs, OfferedAssocs, G.Functions, G.Owners, Stretch,
      AssocBytes, Ds;
    DenseHere(c, n);
    GroupsRecovered(c, n);
    ItemsOf(c, n);
    DsOffered(c, 0, n);
    if j >= |OfferedAssocs(c, 0, n)| { G.FunctionsCoded(c.nIntfs, Assocs(items), Intfs(items), j); }
  }

  lemma DenseHere(c: Cfg, n: nat)
    requires Presentable(c, n)
    ensures Dense(c, n) && |c.hdrs| == INTF_MAX
  {
  }

  // ---- endpoint tables ----

  lemma {:induction false} PipeListed(ps: seq<Pipe>, p: Pipe)
    requires p in ps
    ensures p.ep in PipesOf(ps, p.hdr)
  {
    if ps[0] != p { PipeListed(ps[1..], p); }
  }

  lemma {:induction false} HostEpsMembers(es: seq<EpDesc>, e: Endpoint)
    ensures e in HostEps(es) <==> exists d :: d in es && e == Endpoint(EpBytes(d), [])
  {
    hide EpBytes;
    if es != [] {
      HostEpsMembers(es[1..], e);
      assert es == [es[0]] + es[1..];
    }
  }

  /** The endpoints registered are the pipes. */
  lemma Registered(c: Cfg, n: nat, items: seq<Item>, e: Endpoint)
    requires Presentable(c, n) && Framed(Serialize(c, n)) && Items(Serialize(c, n)) == Done(items)
    ensures e in P.Alt0Eps(Intfs(items)) <==> exists p :: p in c.pipes && e == Endpoint(EpBytes(p.ep), [])
  {
    hide Presentable, Serialize, Items, Intfs, PipesOf, EpBytes, HostEps, P.Alt0Eps;
    DenseHere(c, n);
    ParsedIntfs(c, n, items);
    var xs := Intfs(items);
    P.Alt0Members(xs, e);
    if p :| p in c.pipes && e == Endpoint(EpBytes(p.ep), []) {
      PipeHdr(c, n, p);
      PipeListed(c.pipes, p);
      HostEpsMembers(PipesOf(c.pipes, p.hdr), e);
      StoredNumber(c, n, p.hdr, PipesOf(c.pipes, p.hdr));
      assert xs[p.hdr] in xs;
    }
    if x :| x in xs && G.Field(x.desc, 3) == 0 && e in x.eps {
      var k :| 0 <= k < |xs| && xs[k] == x;
      HostEpsMembers(PipesOf(c.pipes, k), e);
      var d :| d in PipesOf(c.pipes, k) && e == Endpoint(EpBytes(d), []);
      PipesOfMembers(c.pipes, k, d);
    }
  }

  lemma PipeHdr(c: Cfg, n: nat, p: Pipe)
    requires Presentable(c, n) && p in c.pipes
    ensures p.hdr < n && p.ep.mps < 65536 && p.ep.addr % 16 != 0 && (p.ep.addr < 16 || 0x80 <= p.ep.addr < 0x90)
  {
    assert PipeOk(c.hdrs, p);
    hide Count, Present, HdrOk, Clean;
  }

  lemma SeenBytes(d: EpDesc)
    requires d.mps < 65536
    ensures Endpoint(EpBytes(d), []) == EpSeen(d) && G.Field(EpSeen(d).desc, 2) == d.addr
  {
  }

  lemma {:induction false} LastOne(eps: seq<Endpoint>, e: Endpoint) returns (i: nat)
    requires e in eps
    ensures i < |eps| && eps[i] == e && forall j | i < j < |eps| :: eps[j] != e
  {
    i := |eps| - 1;
    if eps[i] != e { i := LastOne(eps[..i], e); }
  }

  /** Of pipes with distinct addresses only one has the direction and number of a given one. */
  lemma OnlyOne(ps: seq<Pipe>, p: Pipe, q: Pipe)
    requires Distinct(ps) && p in ps && q in ps && p.ep.mps < 65536 && q.ep.mps < 65536
    requires p.ep.addr < 16 || 0x80 <= p.ep.addr < 0x90
    requires q.ep.addr < 16 || 0x80 <= q.ep.addr < 0x90
    requires P.SameSlot(EpSeen(p.ep), EpSeen(q.ep))
    ensures p == q
  {
    SeenBytes(p.ep);
    SeenBytes(q.ep);
    hide EpSeen, G.Field;
    assert p.ep.addr == q.ep.addr;
    var i :| 0 <= i < |ps| && ps[i] == p;
    var j :| 0 <= j < |ps| && ps[j] == q;
  }

  lemma TableOfPipe(c: Cfg, n: nat, items: seq<Item>, p: Pipe) returns (i: nat)
    requires Presentable(c, n) && Framed(Serialize(c, n)) && Items(Serialize(c, n)) == Done(items)
    requires Distinct(c.pipes) && p in c.pipes && p.ep.mps < 65536
    ensures i < |P.Alt0Eps(Intfs(items))| && P.Alt0Eps(Intfs(items))[i] == EpSeen(p.ep)
    ensures var eps := P.Alt0Eps(Intfs(items)); forall j | i < j < |eps| :: !P.SameSlot(eps[i], eps[j])
  {
    hide Presentable, Serialize, Items, Intfs, P.Alt0Eps, EpBytes, EpSeen, P.SameSlot, Distinct;
    var eps := P.Alt0Eps(Intfs(items));
    SeenBytes(p.ep);
    Registered(c, n, items, EpSeen(p.ep));
    i := LastOne(eps, EpSeen(p.ep));
    PipeHdr(c, n, p);
    forall j | i < j < |eps| ensures !P.SameSlot(eps[i], eps[j]) {
      Registered(c, n, items, eps[j]);
      var q :| q in c.pipes && eps[j] == Endpoint(EpBytes(q.ep), []);
      PipeHdr(c, n, q);
      SeenBytes(q.ep);
      if P.SameSlot(eps[i], eps[j]) { OnlyOne(c.pipes, p, q); }
    }
  }

  lemma NoTableEntry(c: Cfg, n: nat, items: seq<Item>, e: Endpoint)
    requires Presentable(c, n) && Framed(Serialize(c, n)) && Items(Serialize(c, n)) == Done(items)
    requires e in P.Alt0Eps(Intfs(items))
    ensures exists p :: p in c.pipes && G.Field(e.desc, 2) == p.ep.addr && (p.ep.addr < 16 || 0x80 <= p.ep.addr < 0x90)
  {
    hide Presentable, Serialize, Items, Intfs, P.Alt0Eps, EpBytes;
    Registered(c, n, items, e);
    var p :| p in c.pipes && e == Endpoint(EpBytes(p.ep), []);
    PipeHdr(c, n, p);
    SeenBytes(p.ep);
  }

  /** What the endpoint tables hold, told from the pipes. */
  lemma TablesSeen(c: Cfg, n: nat, items: seq<Item>, epIn: array<Option<Endpoint>>, epOut: array<Option<Endpoint>>,
                   in0: seq<Option<Endpoint>>, out0: seq<Option<Endpoint>>)
    requires Presentable(c, n) && Framed(Serialize(c, n)) && Items(Serialize(c, n)) == Done(items)
    requires P.Tables(epIn, epOut, P.Alt0Eps(Intfs(items)), in0, out0)
    ensures PipesSeen(c.pipes, epIn[..], epOut[..], in0, out0)
  {
    assert epIn.Length == epOut.Length == |in0| == |out0| == 16;
    hide Presentable, Serialize, Items, Intfs, P.Alt0Eps, P.Tables, EpSeen, Distinct;
    forall p | p in c.pipes ensures p.ep.mps < 65536 && (p.ep.addr < 16 || 0x80 <= p.ep.addr < 0x90) {
      PipeHdr(c, n, p);
    }
    forall p | p in c.pipes && Distinct(c.pipes)
      ensures p.ep.addr >= 0x80 ==> epIn[p.ep.addr - 0x80] == Some(EpSeen(p.ep))
      ensures p.ep.addr < 0x80 ==> epOut[p.ep.addr] == Some(EpSeen(p.ep))
    {
      EntryOfPipe(c, n, items, epIn, epOut, in0, out0, p);
    }
    forall k: nat | 0 <= k < 16
      ensures (forall p | p in c.pipes :: p.ep.addr as int != 0x80 + k) ==> epIn[k] == in0[k]
      ensures (forall p | p in c.pipes :: p.ep.addr as int != k) ==> epOut[k] == out0[k]
    {
      EntryAsBefore(c, n, items, epIn, epOut, in0, out0, k);
    }
  }

  lemma EntryOfPipe(c: Cfg, n: nat, items: seq<Item>, epIn: array<Option<Endpoint>>, epOut: array<Option<Endpoint>>,
                    in0: seq<Option<Endpoint>>, out0: seq<Option<Endpoint>>, p: Pipe)
    requires Presentable(c, n) && Framed(Serialize(c, n)) && Items(Serialize(c, n)) == Done(items)
    requires P.Tables(epIn, epOut, P.Alt0Eps(Intfs(items)), in0, out0) && epIn.Length == 16 && epOut.Length == 16
    requires Distinct(c.pipes) && p in c.pipes && p.ep.mps < 65536 && (p.ep.addr < 16 || 0x80 <= p.ep.addr < 0x90)
    ensures p.ep.addr >= 0x80 ==> epIn[p.ep.addr - 0x80] == Some(EpSeen(p.ep))
    ensures p.ep.addr < 0x80 ==> epOut[p.ep.addr] == Some(EpSeen(p.ep))
  {
    hide Presentable, Serialize, Items, Intfs, P.Alt0Eps, P.Tables, EpSeen, P.SameSlot, Distinct, G.Field;
    var i := TableOfPipe(c, n, items, p);
    SeenBytes(p.ep);
    P.EntryIs(epIn, epOut, P.Alt0Eps(Intfs(items)), in0, out0, i);
  }

  lemma EntryAsBefore(c: Cfg, n: nat, items: seq<Item>, epIn: array<Option<Endpoint>>, epOut: array<Option<Endpoint>>,
                      in0: seq<Option<Endpoint>>, out0: seq<Option<Endpoint>>, k: nat)
    requires Presentable(c, n) && Framed(Serialize(c, n)) && Items(Serialize(c, n)) == Done(items) && k < 16
    requires P.Tables(epIn, epOut, P.Alt0Eps(Intfs(items)), in0, out0)
    requires epIn.Length == epOut.Length == |in0| == |out0| == 16
    ensures (forall p | p in c.pipes :: p.ep.addr as int != 0x80 + k) ==> epIn[k] == in0[k]
    ensures (forall p | p in c.pipes :: p.ep.addr as int != k) ==> epOut[k] == out0[k]
  {
    hide Presentable, Serialize, Items, Intfs, P.Alt0Eps, P.Tables, G.Field;
    P.EntryIsOld(epIn, epOut, P.Alt0Eps(Intfs(items)), in0, out0, k);
    forall e | e in P.Alt0Eps(Intfs(items))
      ensures (forall p | p in c.pipes :: p.ep.addr as int != 0x80 + k) ==>
        !(G.Field(e.desc, 2) >= 0x80 && G.Field(e.desc, 2) % 16 == k)
      ensures (forall p | p in c.pipes :: p.ep.addr as int != k) ==>
        !(G.Field(e.desc, 2) < 0x80 && G.Field(e.desc, 2) % 16 == k)
    {
      NoTableEntry(c, n, items, e);
    }
  }
}
