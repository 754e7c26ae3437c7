/** What is stored, told from the arguments of the calls alone: every interface, association and pipe
    of core/source/device/core/usbd_dev.c carries the fields it was asked for with. */
module UsbdIntent {
  import opened Descriptors
  import opened UsbdConfig
  import opened UsbdRuns

  /** The call asks for the interface. */
  predicate Asks(op: Call, f: FuncInfo) {
    match op
    case FuncAddCall(g) => g == f
    case AssocAddCall(_, fs) => f in fs
    case _ => false
  }

  /** The header is there in `d` and differs at most in the number of its endpoints. */
  predicate SameHdr(g: Option<Hdr>, h: Option<Hdr>) {
    && h.Some? && g.Some? && h.value.assoc == g.value.assoc && h.value.spec == g.value.spec
    && h.value.intf == g.value.intf.(nEps := h.value.intf.nEps)
  }

  ghost predicate AllKept(c: Cfg, d: Cfg) {
    && |c.hdrs| == INTF_MAX == |d.hdrs|
    && forall k | 0 <= k < INTF_MAX && c.hdrs[k].Some? :: SameHdr(c.hdrs[k], d.hdrs[k])
  }

  /** The interface is stored with its fields, at its number. */
  predicate FuncStored(d: Cfg, f: FuncInfo)
    requires |d.hdrs| == INTF_MAX
  {
    f.num as nat < INTF_MAX && d.hdrs[f.num].Some? && IntfAsAsked(d.hdrs[f.num].value, f)
  }

  predicate AssocStored(d: Cfg, a: AssocInfo)
    requires |d.hdrs| == INTF_MAX
  {
    && a.first as nat < INTF_MAX && d.hdrs[a.first].Some? && d.hdrs[a.first].value.assoc.Some?
    && AssocAsAsked(d.hdrs[a.first].value.assoc.value, a)
  }

  // ---- one call ----

  /** The lowest unused string index of 1 to 31. */
  predicate Lowest(used: set<nat>, str: Octet) {
    1 <= str < 32 && str as nat !in used && forall i | 1 <= i < str :: i in used
  }

  predicate NoIndex(used: set<nat>) { forall i | 1 <= i < 32 :: i in used }

  /** Arguments inside the tables, whose bounds are ten. */
  predicate Inside(f: FuncInfo) {
    f.num != 10 && (f.alt == 0 || f.alt > 10) && (f.spec.Some? ==> |f.spec.value| == f.specSize)
  }

  /** One interface that is turned away, by every way that can happen. */
  lemma AddFuncRefused(c: Cfg, assoc: Option<AssocDesc>, f: FuncInfo)
    requires |c.hdrs| == 10 && Inside(f)
    ensures f.num > 10 || f.alt > 10 ==> AddFunc(c, assoc, f) == Effect(c, -523)
    ensures f.num < 10 && f.alt == 0 && c.hdrs[f.num].Some? ==> AddFunc(c, assoc, f) == Effect(c, -517)
    ensures f.num < 10 && f.alt == 0 && c.hdrs[f.num].None? && NoIndex(c.strs) ==>
      AddFunc(c, assoc, f) == Effect(c.(nFunc := (c.nFunc + 1) % 256), -512)
  {
    hide NewIntf, SpecOf;
  }

  /** One interface that is taken: everything that is stored and counted. */
  lemma AddFuncExactly(c: Cfg, assoc: Option<AssocDesc>, f: FuncInfo, str: Octet)
    requires |c.hdrs| == 10 && Inside(f) && f.num < 10 && f.alt == 0 && c.hdrs[f.num].None? && Lowest(c.strs, str)
    ensures AddFunc(c, assoc, f) == Effect(
      c.(nFunc := (c.nFunc + 1) % 256, nIntfs := (c.nIntfs + 1) % 256, strs := c.strs + {str as nat},
         total := (c.total + 9 + f.specSize) % 65536,
         hdrs := c.hdrs[f.num := Some(Hdr(assoc, IntfDesc(f.num, 0, 0, f.cls, f.sub, f.proto, str),
                                           match f.spec case Some(b) => b case None => []))]), 0)
  {
    assert FreeFrom(c.strs, 1) == str;
    hide FreeFrom;
  }

  /** The first interface of an association: the association takes the lowest unused string index
      `s`, the interface the next one `t`, and both are counted. */
  lemma AddAssocExactly(c: Cfg, a: AssocInfo, f: FuncInfo, s: Octet, t: Octet)
    requires |c.hdrs| == 10 && Inside(f) && f.num < 10 && f.alt == 0 && c.hdrs[f.num].None?
    requires Lowest(c.strs, s) && Lowest(c.strs + {s as nat}, t)
    ensures AddAssoc(c, a, f) == Effect(
      c.(nFunc := (c.nFunc + 1) % 256, nIntfs := (c.nIntfs + 1) % 256, strs := c.strs + {s as nat, t as nat},
         total := (c.total + 17 + f.specSize) % 65536,
         hdrs := c.hdrs[f.num := Some(Hdr(Some(AssocDesc(a.first, a.count, a.cls, a.sub, a.proto, s)),
                                           IntfDesc(f.num, 0, 0, f.cls, f.sub, f.proto, t),
                                           match f.spec case Some(b) => b case None => []))]), 0)
  {
    AddAssocBy(c, a, f, s);
    hide FreeFrom, AddFunc, AddAssoc, Lowest;
    AddFuncExactly(c.(strs := c.strs + {s as nat}), Some(AssocDesc(a.first, a.count, a.cls, a.sub, a.proto, s)), f, t);
    assert c.strs + {s as nat} + {t as nat} == c.strs + {s as nat, t as nat};
    WrapAdd(c.total + 9 + f.specSize, 8);
  }

  lemma AddAssocBy(c: Cfg, a: AssocInfo, f: FuncInfo, s: Octet)
    requires |c.hdrs| == 10 && Inside(f) && Lowest(c.strs, s)
    ensures var e := AddFunc(c.(strs := c.strs + {s as nat}),
                             Some(AssocDesc(a.first, a.count, a.cls, a.sub, a.proto, s)), f);
      e.ret == 0 ==> AddAssoc(c, a, f) == Effect(e.cfg.(total := Wrap16(e.cfg.total + 8)), 0)
  {
    assert FreeFrom(c.strs, 1) == s;
    hide FreeFrom, AddFunc, Lowest, Wrap16;
  }

  /** Without an index for the association nothing happens; without one for the interface that one
      is counted, and the index of the association is given back. */
  lemma AddAssocRefused(c: Cfg, a: AssocInfo, f: FuncInfo, s: Octet)
    requires |c.hdrs| == 10 && Inside(f) && f.num < 10 && f.alt == 0 && c.hdrs[f.num].None?
    ensures NoIndex(c.strs) ==> AddAssoc(c, a, f) == Effect(c, -512)
    ensures Lowest(c.strs, s) && NoIndex(c.strs + {s as nat}) ==>
      AddAssoc(c, a, f) == Effect(c.(nFunc := (c.nFunc + 1) % 256), -512)
  {
    if Lowest(c.strs, s) {
      assert FreeFrom(c.strs, 1) == s;
      AddFuncRefused(c.(strs := c.strs + {s as nat}), Some(NewAssoc(a, s)), f);
      assert c.strs + {s as nat} - {s as nat} == c.strs;
      hide FreeFrom, AddFunc;
    }
  }

  /** Some interface of the range is there already. */
  predicate Taken(c: Cfg, a: AssocInfo)
    requires |c.hdrs| == INTF_MAX && a.first + a.count <= INTF_MAX
  {
    exists k: nat | k < INTF_MAX :: a.first as nat <= k < a.first + a.count && c.hdrs[k].Some?
  }

  /** The checks before an association is added: no gap before it, and none of its interfaces there. */
  lemma AssocAddExactly(c: Cfg, a: AssocInfo, fs: seq<FuncInfo>)
    requires |c.hdrs| == INTF_MAX && AssocArgs(a, fs)
    ensures a.first > 0 ==> c.hdrs[a.first - 1].Some? || AssocAdd(c, a, fs) == Effect(c, -501)
    ensures (a.first > 0 ==> c.hdrs[a.first - 1].Some?) ==>
      AssocAdd(c, a, fs) == if Taken(c, a) then Effect(c, -517) else AddEach(c, a, fs)
  {
    hide AddEach;
  }

  /** The address a call asks for: the direction in the highest bit, the number in the low four. */
  function Wanted(isIn: bool, num: Octet): (r: Octet) { if isIn then 0x80 + num % 16 else num % 16 }

  /** One pipe, by every way the call can end. */
  lemma PipeAddExactly(c: Cfg, i: nat, q: PipeInfo, grant: Option<Octet>)
    requires |c.hdrs| == INTF_MAX && i < INTF_MAX
    ensures c.hdrs[i].None? ==> PipeAdd(c, i, q, grant) == Effect(c, -501)
    ensures forall k | 0 <= k < |c.pipes| && c.pipes[k].ep.addr == Wanted(q.isIn, q.num) &&
        (forall j | 0 <= j < k :: c.pipes[j].ep.addr != Wanted(q.isIn, q.num)) ::
      c.hdrs[i].Some? && q.num != 0 ==> PipeAdd(c, i, q, grant) == Effect(c, if c.pipes[k].hdr == i then 0 else -511)
    ensures c.hdrs[i].Some? && (q.num == 0 || forall p | p in c.pipes :: p.ep.addr != Wanted(q.isIn, q.num)) ==>
      PipeAdd(c, i, q, grant) == match grant
        case None => Effect(c, -519)
        case Some(addr) =>
          var h := c.hdrs[i].value;
          Effect(c.(pipes := c.pipes + [Pipe(i, EpDesc(addr, q.attr, q.mps, q.interval), 1)],
                    hdrs := c.hdrs[i := Some(h.(intf := h.intf.(nEps := (h.intf.nEps + 1) % 256)))],
                    total := (c.total + 9) % 65536), 0)
  {
  }

  /** What the controller may grant. A number of 0 leaves the choice to the walk over the list, and
      one that is 0 in its low four bits to the controller. */
  lemma GrantableExactly(ps: seq<Pipe>, q: PipeInfo, addr: Octet)
    ensures Grantable(ps, q, addr) <==>
      && (if q.isIn then 0x80 < addr < 0x90 else 0 < addr < 16)
      && (q.num % 16 != 0 ==> addr == Wanted(q.isIn, q.num))
      && (q.num == 0 && AutoNum(ps, if q.isIn then 0x80 else 0, 1) % 16 != 0 ==>
            addr % 16 == AutoNum(ps, if q.isIn then 0x80 else 0, 1) % 16)
  {
    hide AutoNum;
  }

  /** Taking a pipe away where there is no interface, or no pipe of it that has the address. */
  lemma PipeDelNothing(c: Cfg, i: nat, isIn: bool, num: Octet)
    requires |c.hdrs| == INTF_MAX && i < INTF_MAX
    ensures c.hdrs[i].None? ==> PipeDel(c, i, isIn, num) == Effect(c, -501)
    ensures c.hdrs[i].Some? && (forall p | p in c.pipes :: p.hdr != i || p.ep.addr != Wanted(isIn, num)) ==>
      PipeDel(c, i, isIn, num) == Effect(c, -519)
  {
    var w := FindOwn(c.pipes, Wanted(isIn, num), i);
    hide FindOwn, Bump;
  }

  /** Taking a pipe away: the first pipe of the interface that has the address goes, the others
      stay in order, and one is taken off the endpoint count and nine off the length. */
  lemma PipeDelExactly(c: Cfg, i: nat, isIn: bool, num: Octet, k: nat, h: Hdr)
    requires |c.hdrs| == INTF_MAX && i < INTF_MAX && c.hdrs[i] == Some(h)
    requires k < |c.pipes| && c.pipes[k].hdr == i && c.pipes[k].ep.addr == Wanted(isIn, num) && c.pipes[k].refs == 1
    requires forall j | 0 <= j < k :: c.pipes[j].hdr != i || c.pipes[j].ep.addr != Wanted(isIn, num)
    ensures PipeDel(c, i, isIn, num) == Effect(
      c.(pipes := c.pipes[..k] + c.pipes[k + 1..], total := (c.total - 9) % 65536,
         hdrs := c.hdrs[i := Some(h.(intf := h.intf.(nEps := (h.intf.nEps - 1) % 256)))]), 0)
  {
    assert FindOwn(c.pipes, Wanted(isIn, num), i) == k;
    hide FindOwn;
  }

  lemma FuncAddStores(c: Cfg, f: FuncInfo)
    requires Sound(c) && Proper(c, FuncAddCall(f))
    ensures |c.hdrs| == INTF_MAX && AllKept(c, AddFunc(c, None, f).cfg) && FuncStored(AddFunc(c, None, f).cfg, f)
  {
    AgreesSize(c);
    hide FreeFrom, Agrees, AssocsWhole;
  }

  /** What the calls on an association leave, once every interface of it is stored. */
  lemma StoredAll(c: Cfg, d: Cfg, a: AssocInfo, fs: seq<FuncInfo>)
    requires Ready(c, a, fs) && |fs| == a.count as nat
    requires |d.hdrs| == INTF_MAX && Untouched(c, d, fs) && AllStored(d, a, fs)
    ensures AllKept(c, d) && (forall f | f in fs :: FuncStored(d, f)) && (fs != [] ==> AssocStored(d, a))
    ensures forall k | 0 <= k < INTF_MAX && d.hdrs[k].Some? && c.hdrs[k].None? ::
      exists f :: f in fs && f.num as nat == k
    ensures forall k | 0 <= k < INTF_MAX && d.hdrs[k].Some? && c.hdrs[k].None? && d.hdrs[k].value.assoc.Some? ::
      a.first as nat == k
  {
    forall f | f in fs ensures FuncStored(d, f) {
      var i :| 0 <= i < |fs| && fs[i] == f;
      assert Stored(d.hdrs[f.num], a, f);
    }
    if fs != [] {
      RangeMet(a, fs, a.first as nat);
      var i :| 0 <= i < |fs| && fs[i].num as nat == a.first as nat;
      assert fs[i] in fs && Stored(d.hdrs[fs[i].num], a, fs[i]);
    }
    hide Covers, Stored, IntfAsAsked, FuncStored, AssocStored;
    forall k | 0 <= k < INTF_MAX && c.hdrs[k].Some? ensures d.hdrs[k] == c.hdrs[k] {
      forall i | 0 <= i < |fs| ensures fs[i].num as nat != k { assert fs[i] in fs; }
    }
    forall k | 0 <= k < INTF_MAX && d.hdrs[k].Some? && c.hdrs[k].None?
      ensures exists f :: f in fs && f.num as nat == k
      ensures d.hdrs[k].value.assoc.Some? ==> a.first as nat == k
    {
      if forall i | 0 <= i < |fs| :: fs[i].num as nat != k { assert false; }
      var i :| 0 <= i < |fs| && fs[i].num as nat == k;
      assert fs[i] in fs && Stored(d.hdrs[fs[i].num], a, fs[i]);
      StoredFirst(d.hdrs[k], a, fs[i]);
    }
  }

  lemma StoredFirst(h: Option<Hdr>, a: AssocInfo, f: FuncInfo)
    requires Stored(h, a, f)
    ensures h.Some? && (h.value.assoc.Some? ==> f.num == a.first)
  {
  }

  lemma AssocReady(c: Cfg, a: AssocInfo, fs: seq<FuncInfo>)
    requires Sound(c) && Proper(c, AssocAddCall(a, fs))
    ensures Ready(c, a, fs) && AssocAdd(c, a, fs) == AddEach(c, a, fs)
    ensures Untouched(c, AddEach(c, a, fs).cfg, fs) && AllStored(AddEach(c, a, fs).cfg, a, fs)
  {
    AgreesSize(c);
    hide Agrees, AssocsWhole, AddEach, FreeCount;
    assert forall k | a.first as nat <= k < a.first + a.count :: c.hdrs[k].None?;
    assert Ready(c, a, fs);
    NeedsBound(a, fs);
    AllOrNot(c, a, fs);
  }

  lemma AssocAddStores(c: Cfg, a: AssocInfo, fs: seq<FuncInfo>)
    requires Sound(c) && Proper(c, AssocAddCall(a, fs))
    ensures |c.hdrs| == INTF_MAX && Stores(c, AssocAddCall(a, fs), AssocAdd(c, a, fs).cfg)
  {
    AgreesSize(c);
    var op, d := AssocAddCall(a, fs), AddEach(c, a, fs).cfg;
    AssocReady(c, a, fs);
    EachPipes(c, a, fs);
    assert |fs| == a.count as nat && forall f | f in fs :: Asks(op, f);
    hide AssocAdd, AddEach, Agrees, AssocsWhole, FreeCount, Ready, Untouched, AllStored, Proper;
    StoredAll(c, d, a, fs);
    hide AllKept, FuncStored, AssocStored, Stores;
    StoresOne(c, op, d);
  }

  lemma {:induction false} EachPipes(c: Cfg, a: AssocInfo, fs: seq<FuncInfo>)
    requires |c.hdrs| == INTF_MAX && forall f | f in fs :: Sane(f)
    ensures AddEach(c, a, fs).cfg.pipes == c.pipes
  {
    hide FreeFrom, NewIntf, NewAssoc, SpecOf;
    if fs != [] { EachPipes(c, a, fs[..|fs| - 1]); }
  }

  // ---- what one call does, and what a run does ----

  /** A pipe with the address granted, as the call asks for it. */
  predicate PipeAsAsked(p: Pipe, i: nat, q: PipeInfo, addr: Octet) {
    && p.hdr == i && p.ep.addr == addr && p.ep.attr == q.attr && p.ep.mps == q.mps && p.ep.interval == q.interval
    && (addr >= 0x80 <==> q.isIn) && (q.num % 16 != 0 ==> addr % 16 == q.num % 16)
  }

  ghost predicate PipeAsked(p: Pipe, ops: seq<Call>) {
    exists i, q, addr :: PipeAddCall(i, q, Some(addr)) in ops && PipeAsAsked(p, i, q, addr)
  }

  ghost predicate IntfAsked(k: nat, ops: seq<Call>) {
    exists op, f :: op in ops && Asks(op, f) && f.num as nat == k
  }

  ghost predicate AssocAsked(k: nat, ops: seq<Call>) {
    exists a, fs :: AssocAddCall(a, fs) in ops && a.first as nat == k
  }

  /** From `c` to `d` by the calls `ops`: everything asked for is stored with its fields, what was
      stored is kept, and nothing else is there. */
  ghost predicate StoresAll(c: Cfg, ops: seq<Call>, d: Cfg) {
    && AllKept(c, d)
    && (forall op, f | op in ops && Asks(op, f) :: FuncStored(d, f))
    && (forall a, fs | AssocAddCall(a, fs) in ops && fs != [] :: AssocStored(d, a))
    && (forall k | 0 <= k < INTF_MAX && d.hdrs[k].Some? && c.hdrs[k].None? :: IntfAsked(k, ops))
    && (forall k | 0 <= k < INTF_MAX && d.hdrs[k].Some? && c.hdrs[k].None? && d.hdrs[k].value.assoc.Some? ::
          AssocAsked(k, ops))
    && (forall p | p in d.pipes :: p in c.pipes || PipeAsked(p, ops))
  }

  ghost predicate Stores(c: Cfg, op: Call, d: Cfg) { StoresAll(c, [op], d) }

  lemma StoresOne(c: Cfg, op: Call, d: Cfg)
    requires AllKept(c, d) && (forall f | Asks(op, f) :: FuncStored(d, f))
    requires op.AssocAddCall? && op.fs != [] ==> AssocStored(d, op.a)
    requires forall k | 0 <= k < INTF_MAX && d.hdrs[k].Some? && c.hdrs[k].None? ::
      (exists f :: Asks(op, f) && f.num as nat == k)
    requires forall k | 0 <= k < INTF_MAX && d.hdrs[k].Some? && c.hdrs[k].None? && d.hdrs[k].value.assoc.Some? ::
      op.AssocAddCall? && op.a.first as nat == k
    requires forall p | p in d.pipes && p !in c.pipes ::
      op.PipeAddCall? && op.grant.Some? && PipeAsAsked(p, op.intf, op.p, op.grant.value)
    ensures Stores(c, op, d)
  {
    hide FuncStored, AssocStored;
    forall k | 0 <= k < INTF_MAX && d.hdrs[k].Some? && c.hdrs[k].None? ensures IntfAsked(k, [op]) {
      var f :| Asks(op, f) && f.num as nat == k;
      assert op in [op];
    }
    forall k | 0 <= k < INTF_MAX && d.hdrs[k].Some? && c.hdrs[k].None? && d.hdrs[k].value.assoc.Some?
      ensures AssocAsked(k, [op])
    {
      assert AssocAddCall(op.a, op.fs) in [op];
    }
    forall p | p in d.pipes ensures p in c.pipes || PipeAsked(p, [op]) {
      if p !in c.pipes { assert PipeAddCall(op.intf, op.p, Some(op.grant.value)) in [op]; }
    }
  }

  lemma FuncAddStep(c: Cfg, f: FuncInfo)
    requires Sound(c) && Proper(c, FuncAddCall(f))
    ensures |c.hdrs| == INTF_MAX && Stores(c, FuncAddCall(f), AddFunc(c, None, f).cfg)
  {
    AgreesSize(c);
    FuncAddStores(c, f);
    var op, d := FuncAddCall(f), AddFunc(c, None, f).cfg;
    assert forall k | 0 <= k < INTF_MAX && k != f.num as nat :: d.hdrs[k] == c.hdrs[k];
    assert d.pipes == c.pipes && d.hdrs[f.num].value.assoc.None? && Asks(op, f);
    hide AddFunc, Agrees, AssocsWhole, FreeFrom, Stores, FuncStored;
    StoresOne(c, op, d);
  }

  /** A pipe is appended with what was asked for, and counted with its interface. */
  lemma PipeAddStep(c: Cfg, i: nat, q: PipeInfo, grant: Option<Octet>)
    requires Sound(c) && Callable(c, PipeAddCall(i, q, grant))
    ensures |c.hdrs| == INTF_MAX && Stores(c, PipeAddCall(i, q, grant), PipeAdd(c, i, q, grant).cfg)
  {
    AgreesSize(c);
    var op, d := PipeAddCall(i, q, grant), PipeAdd(c, i, q, grant).cfg;
    forall p | p in d.pipes && p !in c.pipes ensures grant.Some? && PipeAsAsked(p, i, q, grant.value) {
      GrantedNum(c.pipes, q, grant.value);
    }
    assert AllKept(c, d);
    hide PipeAdd, Agrees, AssocsWhole, Stores;
    StoresOne(c, op, d);
  }

  lemma GrantedNum(ps: seq<Pipe>, q: PipeInfo, addr: Octet)
    requires Grantable(ps, q, addr)
    ensures (addr >= 0x80 <==> q.isIn) && (q.num % 16 != 0 ==> addr % 16 == q.num % 16)
  {
    hide AutoNum;
  }

  lemma PipeDelStep(c: Cfg, i: nat, isIn: bool, num: Octet)
    requires Sound(c) && i < INTF_MAX
    ensures |c.hdrs| == INTF_MAX && Stores(c, PipeDelCall(i, isIn, num), PipeDel(c, i, isIn, num).cfg)
  {
    AgreesSize(c);
    var op, d := PipeDelCall(i, isIn, num), PipeDel(c, i, isIn, num).cfg;
    var k := FindOwn(c.pipes, Dir(isIn) + num % 16, i);
    if k < |c.pipes| { PipeRefs(c, k); }
    assert AllKept(c, d);
    hide Agrees, AssocsWhole, Stores, FindOwn;
    StoresOne(c, op, d);
  }

  lemma StepStores(c: Cfg, op: Call)
    requires Sound(c) && Proper(c, op)
    ensures |c.hdrs| == INTF_MAX && Stores(c, op, Step(c, op).cfg)
  {
    AgreesSize(c);
    hide Agrees, AssocsWhole, AddFunc, AssocAdd, PipeAdd, PipeDel, Stores;
    match op
    case FuncAddCall(f) => FuncAddStep(c, f);
    case AssocAddCall(a, fs) => AssocAddStores(c, a, fs);
    case PipeAddCall(i, p, grant) => PipeAddStep(c, i, p, grant);
    case PipeDelCall(i, isIn, num) => PipeDelStep(c, i, isIn, num);
  }

  lemma KeptFields(c: Cfg, d: Cfg)
    requires AllKept(c, d)
    ensures forall f | FuncStored(c, f) :: FuncStored(d, f)
    ensures forall a | AssocStored(c, a) :: AssocStored(d, a)
    ensures forall e | AllKept(e, c) :: AllKept(e, d)
    ensures forall k | 0 <= k < INTF_MAX && c.hdrs[k].Some? ::
      d.hdrs[k].Some? && d.hdrs[k].value.assoc == c.hdrs[k].value.assoc
  {
  }

  lemma AskedMore(ops: seq<Call>, more: seq<Call>)
    requires forall op | op in ops :: op in more
    ensures forall k | IntfAsked(k, ops) :: IntfAsked(k, more)
    ensures forall k | AssocAsked(k, ops) :: AssocAsked(k, more)
    ensures forall p | PipeAsked(p, ops) :: PipeAsked(p, more)
  {
    forall k | IntfAsked(k, ops) ensures IntfAsked(k, more) {
      var op, f :| op in ops && Asks(op, f) && f.num as nat == k;
      assert op in more;
    }
    forall k | AssocAsked(k, ops) ensures AssocAsked(k, more) {
      var a, fs :| AssocAddCall(a, fs) in ops && a.first as nat == k;
      assert AssocAddCall(a, fs) in more;
    }
    forall p | PipeAsked(p, ops) ensures PipeAsked(p, more) {
      var i, q, addr :| PipeAddCall(i, q, Some(addr)) in ops && PipeAsAsked(p, i, q, addr);
      assert PipeAddCall(i, q, Some(addr)) in more;
    }
  }

  /** What one call stores and what the calls after it store. */
  lemma StoresMore(c: Cfg, op: Call, e: Cfg, ops: seq<Call>, d: Cfg)
    requires Stores(c, op, e) && StoresAll(e, ops, d)
    ensures StoresAll(c, [op] + ops, d)
  {
    KeptFields(e, d);
    AskedMore([op], [op] + ops);
    AskedMore(ops, [op] + ops);
    hide FuncStored, AssocStored, AllKept, IntfAsked, AssocAsked, PipeAsked, Asks;
    assert AllKept(c, d);
    assert forall o | o in [op] + ops :: o == op || o in ops;
    assert op in [op];
    forall k | 0 <= k < INTF_MAX && d.hdrs[k].Some? && c.hdrs[k].None? ensures IntfAsked(k, [op] + ops) {
      if e.hdrs[k].Some? { assert IntfAsked(k, [op]); }
    }
    forall k | 0 <= k < INTF_MAX && d.hdrs[k].Some? && c.hdrs[k].None? && d.hdrs[k].value.assoc.Some?
      ensures AssocAsked(k, [op] + ops)
    {
      if e.hdrs[k].Some? { assert AssocAsked(k, [op]); }
    }
  }

  lemma StoresNone(c: Cfg)
    requires |c.hdrs| == INTF_MAX
    ensures StoresAll(c, [], c)
  {
  }

  /** Over a run of proper calls: everything asked for is stored with its fields and kept, and
      nothing else is there. */
  lemma {:induction false} RunStores(c: Cfg, ops: seq<Call>, d: Cfg)
    requires Sound(c) && ProperRun(c, ops, d)
    ensures StoresAll(c, ops, d)
    decreases |ops|
  {
    hide Agrees, AssocsWhole, Step, Stores, StoresAll;
    AgreesSize(c);
    if ops == [] {
      StoresNone(c);
    } else {
      StepStores(c, ops[0]);
      StepSound(c, ops[0]);
      RunStores(Step(c, ops[0]).cfg, ops[1..], d);
      StoresMore(c, ops[0], Step(c, ops[0]).cfg, ops[1..], d);
      assert [ops[0]] + ops[1..] == ops;
    }
  }
}
