/** The device's configuration builder: core/source/device/core/usbd_dev.c. One alternate
    setting per interface. This module gives the effect of each call as a function; the
    class in UsbdBuilder carries the calls out in place. */
module UsbdConfig {
  import opened Descriptors

  const INTF_MAX: nat := 10
  const ALT_MAX: nat := 10

  /** What a class driver passes in for one interface: the class-specific bytes may be absent
      although a size is given. */
  datatype FuncInfo = FuncInfo(num: Octet, alt: Octet, cls: Octet, sub: Octet, proto: Octet,
                               spec: Option<seq<Octet>>, specSize: nat)

  datatype AssocInfo = AssocInfo(first: Octet, count: Octet, cls: Octet, sub: Octet, proto: Octet)

  datatype PipeInfo = PipeInfo(num: Octet, isIn: bool, attr: Octet, interval: Octet, mps: nat)

  datatype Hdr = Hdr(assoc: Option<AssocDesc>, intf: IntfDesc, spec: seq<Octet>)

  datatype Pipe = Pipe(hdr: nat, ep: EpDesc, refs: nat)

  /** A configuration together with the string indices in use. */
  datatype Cfg = Cfg(total: nat, nIntfs: Octet, nFunc: Octet, value: Octet, str: Octet, hdrs: seq<Option<Hdr>>,
                     pipes: seq<Pipe>, strs: set<nat>)

  function Wrap8(x: int): (r: Octet) { x % 256 }

  function Wrap16(x: int): (r: nat)
    ensures r < 65536
  {
    x % 65536
  }

  // ---- string indices: 1..31, the lowest free one first ----

  function FreeFrom(used: set<nat>, i: nat): (r: Octet)
    requires 1 <= i <= 32
    ensures r == 0 <==> forall k | i <= k < 32 :: k in used
    ensures r != 0 ==> i <= r < 32 && r as nat !in used && forall k | i <= k < r :: k in used
    decreases 32 - i
  {
    if i == 32 then 0 else if i !in used then i else FreeFrom(used, i + 1)
  }

  // ---- adding interfaces ----

  /** Arguments inside the tables. Number 10 and setting 10 pass the bound check although the
      tables end at 9, and are excluded here. */
  predicate Sane(f: FuncInfo) {
    && f.num as nat != INTF_MAX && (f.alt == 0 || f.alt as nat > ALT_MAX)
    && (f.spec.Some? ==> |f.spec.value| == f.specSize)
  }

  function SpecOf(f: FuncInfo): (r: seq<Octet>) {
    if f.spec.Some? && f.specSize != 0 then f.spec.value else []
  }

  function NewIntf(f: FuncInfo, str: Octet): (r: IntfDesc) {
    IntfDesc(f.num, f.alt, 0, f.cls, f.sub, f.proto, str)
  }

  datatype Effect = Effect(cfg: Cfg, ret: int)

  /** `__dev_func_init`, with the association descriptor the interface opens, if any. */
  function AddFunc(c: Cfg, assoc: Option<AssocDesc>, f: FuncInfo): (e: Effect)
    requires |c.hdrs| == INTF_MAX && Sane(f)
    ensures |e.cfg.hdrs| == INTF_MAX
  {
    if f.num as nat > INTF_MAX || f.alt as nat > ALT_MAX then Effect(c, -EILLEGAL)
    else if c.hdrs[f.num].Some? then Effect(c, -EEXIST)
    else
      var i := FreeFrom(c.strs, 1);
      if i == 0 then Effect(c.(nFunc := Wrap8(c.nFunc + 1)), -ENOMEM)
      else
        Effect(c.(nFunc := Wrap8(c.nFunc + 1), nIntfs := Wrap8(c.nIntfs + 1), strs := c.strs + {i as nat},
                  hdrs := c.hdrs[f.num := Some(Hdr(assoc, NewIntf(f, i), SpecOf(f)))],
                  total := Wrap16(c.total + 9 + f.specSize)), 0)
  }

  function NewAssoc(a: AssocInfo, str: Octet): (r: AssocDesc) {
    AssocDesc(a.first, a.count, a.cls, a.sub, a.proto, str)
  }

  /** `__dev_func_assoc_create`. */
  function AddAssoc(c: Cfg, a: AssocInfo, f: FuncInfo): (e: Effect)
    requires |c.hdrs| == INTF_MAX && Sane(f)
    ensures |e.cfg.hdrs| == INTF_MAX
  {
    var i := FreeFrom(c.strs, 1);
    if i == 0 then Effect(c, -ENOMEM)
    else
      var e := AddFunc(c.(strs := c.strs + {i as nat}), Some(NewAssoc(a, i)), f);
      if e.ret != 0 then Effect(e.cfg.(strs := e.cfg.strs - {i as nat}), e.ret)
      else Effect(e.cfg.(total := Wrap16(e.cfg.total + 8)), 0)
  }

  function AddOne(c: Cfg, a: AssocInfo, f: FuncInfo): (e: Effect)
    requires |c.hdrs| == INTF_MAX && Sane(f)
    ensures |e.cfg.hdrs| == INTF_MAX
  {
    if f.num == a.first then AddAssoc(c, a, f) else AddFunc(c, None, f)
  }

  /** The loop of `usbd_dev_func_assoc_add`: every interface is tried, the last result stays. */
  function AddEach(c: Cfg, a: AssocInfo, fs: seq<FuncInfo>): (e: Effect)
    requires |c.hdrs| == INTF_MAX && forall f | f in fs :: Sane(f)
    ensures |e.cfg.hdrs| == INTF_MAX
  {
    if fs == [] then Effect(c, 0)
    else
      var l := |fs| - 1;
      AddOne(AddEach(c, a, fs[..l]).cfg, a, fs[l])
  }

  predicate AssocArgs(a: AssocInfo, fs: seq<FuncInfo>) {
    a.first + a.count <= INTF_MAX && |fs| == a.count as nat && forall f | f in fs :: Sane(f)
  }

  /** `usbd_dev_func_assoc_add`. */
  function AssocAdd(c: Cfg, a: AssocInfo, fs: seq<FuncInfo>): (r: Effect)
    requires |c.hdrs| == INTF_MAX && AssocArgs(a, fs)
  {
    if a.first > 0 && c.hdrs[a.first - 1].None? then Effect(c, -EPERM)
    else if exists k | a.first as nat <= k < a.first + a.count :: c.hdrs[k].Some? then Effect(c, -EEXIST)
    else AddEach(c, a, fs)
  }

  // ---- pipes ----

  function Dir(isIn: bool): (r: Octet) { if isIn then 0x80 else 0 }

  /** The walk that looks for an endpoint number: on to the next whenever the current one is met. */
  function AutoNum(ps: seq<Pipe>, dir: Octet, n: nat): (r: nat)
    ensures n <= r
  {
    if ps == [] then n else AutoNum(ps[1..], dir, if ps[0].ep.addr as int == dir + n then n + 1 else n)
  }

  /** The first pipe with the address, or the length of the list. */
  function FindAddr(ps: seq<Pipe>, addr: int): (k: nat)
    ensures k <= |ps| && (k < |ps| ==> ps[k].ep.addr as int == addr) &&
      forall j | 0 <= j < k :: ps[j].ep.addr as int != addr
  {
    if ps == [] || ps[0].ep.addr as int == addr then 0 else 1 + FindAddr(ps[1..], addr)
  }

  /** The endpoint number asked of the controller; 0 leaves the choice to the controller. */
  function AskNum(ps: seq<Pipe>, p: PipeInfo): (r: nat) {
    (if p.num == 0 then AutoNum(ps, Dir(p.isIn), 1) else p.num) % 16
  }

  /** What the controller may grant: an endpoint of the direction, the one asked for if any. */
  predicate Grantable(ps: seq<Pipe>, p: PipeInfo, addr: Octet) {
    && addr % 16 != 0 && (addr >= 128 <==> p.isIn) && addr % 128 < 16
    && (AskNum(ps, p) != 0 ==> addr as int == Dir(p.isIn) + AskNum(ps, p))
  }

  function NewEp(p: PipeInfo, addr: Octet): (r: EpDesc) { EpDesc(addr, p.attr, p.mps, p.interval) }

  function Bump(h: Hdr, d: int): (r: Hdr) { h.(intf := h.intf.(nEps := Wrap8(h.intf.nEps + d))) }

  function BumpAt(hdrs: seq<Option<Hdr>>, k: nat, d: int): (r: seq<Option<Hdr>>)
    requires k < |hdrs| && hdrs[k].Some?
    ensures |r| == |hdrs| && r == hdrs[k := Some(Bump(hdrs[k].value, d))]
  {
    hdrs[k := Some(Bump(hdrs[k].value, d))]
  }

  /** `usbd_dev_pipe_add`; `grant` is the controller's answer when it is asked. */
  function PipeAdd(c: Cfg, intf: nat, p: PipeInfo, grant: Option<Octet>): (r: Effect)
    requires |c.hdrs| == INTF_MAX && intf < INTF_MAX
  {
    if c.hdrs[intf].None? then Effect(c, -EPERM)
    else
      var k := FindAddr(c.pipes, Dir(p.isIn) + p.num % 16);
      if p.num != 0 && k < |c.pipes| then Effect(c, if c.pipes[k].hdr != intf then -EAGAIN else 0)
      else
        match grant
        case None => Effect(c, -ENODEV)
        case Some(addr) =>
          Effect(c.(pipes := c.pipes + [Pipe(intf, NewEp(p, addr), 1)], hdrs := BumpAt(c.hdrs, intf, 1),
                    total := Wrap16(c.total + 9)), 0)
  }

  /** The first pipe with the address that belongs to the interface. */
  function FindOwn(ps: seq<Pipe>, addr: int, intf: nat): (k: nat)
    ensures k <= |ps| && (k < |ps| ==> ps[k].ep.addr as int == addr && ps[k].hdr == intf)
    ensures forall j | 0 <= j < k :: !(ps[j].ep.addr as int == addr && ps[j].hdr == intf)
  {
    if ps == [] || (ps[0].ep.addr as int == addr && ps[0].hdr == intf) then 0 else 1 + FindOwn(ps[1..], addr, intf)
  }

  /** `usbd_dev_pipe_del`. */
  function PipeDel(c: Cfg, intf: nat, isIn: bool, num: Octet): (r: Effect)
    requires |c.hdrs| == INTF_MAX && intf < INTF_MAX
  {
    if c.hdrs[intf].None? then Effect(c, -EPERM)
    else
      var k := FindOwn(c.pipes, Dir(isIn) + num % 16, intf);
      if k == |c.pipes| then Effect(c, -ENODEV)
      else
        var r := c.pipes[k].refs - 1;
        Effect(c.(pipes := if r == 0 then c.pipes[..k] + c.pipes[k + 1..]
                           else c.pipes[k := c.pipes[k].(refs := if r > 0 then r else 255)],
                  hdrs := BumpAt(c.hdrs, intf, -1), total := Wrap16(c.total - 9)), 0)
  }

  // ---- runs of calls ----

  datatype Call =
    | FuncAddCall(f: FuncInfo)
    | AssocAddCall(a: AssocInfo, fs: seq<FuncInfo>)
    | PipeAddCall(intf: nat, p: PipeInfo, grant: Option<Octet>)
    | PipeDelCall(intf: nat, isIn: bool, num: Octet)

  /** What the calls require of their arguments and of the controller's answer. */
  predicate Callable(c: Cfg, op: Call) {
    match op
    case FuncAddCall(f) => Sane(f)
    case AssocAddCall(a, fs) => AssocArgs(a, fs)
    case PipeAddCall(i, p, grant) => i < INTF_MAX && p.mps < 65536 &&
      (grant.Some? ==> Grantable(c.pipes, p, grant.value))
    case PipeDelCall(i, _, _) => i < INTF_MAX
  }

  function Step(c: Cfg, op: Call): (e: Effect)
    requires |c.hdrs| == INTF_MAX && Callable(c, op)
    ensures |e.cfg.hdrs| == INTF_MAX
  {
    match op
    case FuncAddCall(f) => AddFunc(c, None, f)
    case AssocAddCall(a, fs) => AssocAdd(c, a, fs)
    case PipeAddCall(i, p, grant) => PipeAdd(c, i, p, grant)
    case PipeDelCall(i, isIn, num) => PipeDel(c, i, isIn, num)
  }

  /** What a call does to the counters beyond what it stores: the bytes it announces without having
      been given them, and how often it counts an interface that it does not store. */
  datatype Excess = Excess(bytes: nat, funcs: nat)

  function Plus(x: Excess, y: Excess): (z: Excess) { Excess(x.bytes + y.bytes, x.funcs + y.funcs) }

  const NO_EXCESS := Excess(0, 0)

  /** Bytes announced for an interface and not given. */
  function Missing(f: FuncInfo): (r: nat)
    requires Sane(f)
  {
    f.specSize - |SpecOf(f)|
  }

  /** One interface: stored, or counted and dropped for want of a string index, or turned away. */
  function FuncExcess(c: Cfg, f: FuncInfo): (x: Excess)
    requires |c.hdrs| == INTF_MAX && Sane(f)
  {
    if f.num as nat > INTF_MAX || f.alt as nat > ALT_MAX || c.hdrs[f.num].Some? then NO_EXCESS
    else if FreeFrom(c.strs, 1) == 0 then Excess(0, 1)
    else Excess(Missing(f), 0)
  }

  /** The first interface of an association needs an index for the association before. */
  function OneExcess(c: Cfg, a: AssocInfo, f: FuncInfo): (x: Excess)
    requires |c.hdrs| == INTF_MAX && Sane(f)
  {
    if f.num != a.first then FuncExcess(c, f)
    else
      var i := FreeFrom(c.strs, 1);
      if i == 0 then NO_EXCESS else FuncExcess(c.(strs := c.strs + {i as nat}), f)
  }

  function EachExcess(c: Cfg, a: AssocInfo, fs: seq<FuncInfo>): (x: Excess)
    requires |c.hdrs| == INTF_MAX && forall f | f in fs :: Sane(f)
  {
    if fs == [] then NO_EXCESS
    else
      var l := |fs| - 1;
      Plus(EachExcess(c, a, fs[..l]), OneExcess(AddEach(c, a, fs[..l]).cfg, a, fs[l]))
  }

  function CallExcess(c: Cfg, op: Call): (x: Excess)
    requires |c.hdrs| == INTF_MAX && Callable(c, op)
  {
    match op
    case FuncAddCall(f) => FuncExcess(c, f)
    case AssocAddCall(a, fs) =>
      if a.first > 0 && c.hdrs[a.first - 1].None? then NO_EXCESS
      else if exists k | a.first as nat <= k < a.first + a.count :: c.hdrs[k].Some? then NO_EXCESS
      else EachExcess(c, a, fs)
    case _ => NO_EXCESS
  }

  /** Each call can be made where the calls before it lead. */
  predicate Runnable(c: Cfg, ops: seq<Call>)
    requires |c.hdrs| == INTF_MAX
    decreases |ops|
  {
    ops == [] || (Callable(c, ops[0]) && Runnable(Step(c, ops[0]).cfg, ops[1..]))
  }

  function RunExcess(c: Cfg, ops: seq<Call>): (x: Excess)
    requires |c.hdrs| == INTF_MAX && Runnable(c, ops)
    decreases |ops|
  {
    if ops == [] then NO_EXCESS else Plus(CallExcess(c, ops[0]), RunExcess(Step(c, ops[0]).cfg, ops[1..]))
  }

  function Fresh(value: Octet, str: Octet, strs: set<nat>): (r: Cfg) {
    Cfg(9, 0, 0, value, str, seq(INTF_MAX, _ => None), [], strs)
  }

  ghost predicate Reaches(c: Cfg, ops: seq<Call>, d: Cfg)
    requires |c.hdrs| == INTF_MAX
    decreases |ops|
  {
    if ops == [] then c == d else Callable(c, ops[0]) && Reaches(Step(c, ops[0]).cfg, ops[1..], d)
  }

  // ---- recounting ----

  function HdrLen(h: Option<Hdr>): (r: nat) {
    match h
    case None => 0
    case Some(v) => (if v.assoc.Some? then 8 else 0) + 9 + |v.spec|
  }

  function Sum(hs: seq<Option<Hdr>>): (r: nat) {
    if hs == [] then 0 else Sum(hs[..|hs| - 1]) + HdrLen(hs[|hs| - 1])
  }

  function Present(hs: seq<Option<Hdr>>): (r: nat) {
    if hs == [] then 0 else Present(hs[..|hs| - 1]) + if hs[|hs| - 1].Some? then 1 else 0
  }

  function Count(ps: seq<Pipe>, intf: nat): (r: nat) {
    if ps == [] then 0 else Count(ps[..|ps| - 1], intf) + if ps[|ps| - 1].hdr == intf then 1 else 0
  }

  /** The number of bytes the configuration takes when every header and pipe is written out. */
  function Recount(c: Cfg): (r: nat) { 9 + Sum(c.hdrs) + 9 * |c.pipes| }

  predicate PipeOk(hdrs: seq<Option<Hdr>>, p: Pipe) {
    && p.hdr < |hdrs| && hdrs[p.hdr].Some? && p.refs == 1 && p.ep.mps < 65536
    && p.ep.addr % 16 != 0 && p.ep.addr % 128 < 16
  }

  predicate HdrOk(ps: seq<Pipe>, i: nat, h: Hdr) {
    h.intf.num as nat == i && h.intf.alt == 0 && h.intf.nEps == Wrap8(Count(ps, i))
  }

  /** The headers and pipes fit together, and what is counted per interface agrees with a recount
      as far as eight bits go. */
  ghost predicate Shaped(c: Cfg) {
    && |c.hdrs| == INTF_MAX
    && c.nIntfs as nat == Present(c.hdrs)
    && (forall i | 0 <= i < INTF_MAX && c.hdrs[i].Some? :: HdrOk(c.pipes, i, c.hdrs[i].value))
    && (forall p | p in c.pipes :: PipeOk(c.hdrs, p))
  }

  /** The cached counters are those of a recount, and `x` on top, modulo their width. */
  ghost predicate Agrees(c: Cfg, x: Excess) {
    && Shaped(c) && c.total == Wrap16(Recount(c) + x.bytes) && c.nFunc == Wrap8(Present(c.hdrs) + x.funcs)
  }

  lemma {:induction false} SumUpdate(hs: seq<Option<Hdr>>, k: nat, h: Option<Hdr>)
    requires k < |hs|
    ensures Sum(hs[k := h]) == Sum(hs) - HdrLen(hs[k]) + HdrLen(h)
    ensures Present(hs[k := h]) == Present(hs) - (if hs[k].Some? then 1 else 0) + if h.Some? then 1 else 0
  {
    hide HdrLen;
    var l := |hs| - 1;
    if k < l {
      SumUpdate(hs[..l], k, h);
      assert hs[k := h][..l] == hs[..l][k := h];
    } else {
      assert hs[k := h][..l] == hs[..l];
    }
  }

  lemma {:induction false} PresentBound(hs: seq<Option<Hdr>>)
    ensures Present(hs) <= |hs|
  {
    if hs != [] { PresentBound(hs[..|hs| - 1]); }
  }

  lemma {:induction false} FreshCounts(n: nat)
    ensures Sum(seq(n, _ => None)) == 0 && Present(seq(n, _ => None)) == 0
  {
    if n > 0 {
      FreshCounts(n - 1);
      var hs: seq<Option<Hdr>> := seq(n, _ => None);
      assert hs[..n - 1] == seq(n - 1, _ => None);
    }
  }

  lemma FreshAgrees(value: Octet, str: Octet, strs: set<nat>)
    ensures Agrees(Fresh(value, str, strs), NO_EXCESS)
  {
    FreshCounts(INTF_MAX);
  }

  lemma {:induction false} CountPastEnd(ps: seq<Pipe>, i: nat)
    requires forall p | p in ps :: p.hdr != i
    ensures Count(ps, i) == 0
  {
    if ps != [] { CountPastEnd(ps[..|ps| - 1], i); }
  }

  lemma CountSnoc(ps: seq<Pipe>, p: Pipe, i: nat)
    ensures Count(ps + [p], i) == Count(ps, i) + if p.hdr == i then 1 else 0
  {
    assert (ps + [p])[..|ps|] == ps;
  }

  lemma {:induction false} CountRemove(ps: seq<Pipe>, k: nat, i: nat)
    requires k < |ps|
    ensures Count(ps[..k] + ps[k + 1..], i) == Count(ps, i) - if ps[k].hdr == i then 1 else 0
  {
    var l := |ps| - 1;
    if k == l {
      assert ps[..k] + ps[k + 1..] == ps[..l];
    } else {
      CountRemove(ps[..l], k, i);
      assert ps[..k] + ps[k + 1..] == (ps[..l][..k] + ps[..l][k + 1..]) + [ps[l]];
      CountSnoc(ps[..l][..k] + ps[..l][k + 1..], ps[l], i);
    }
  }

  lemma WrapAdd(x: int, y: int)
    ensures Wrap16(Wrap16(x) + y) == Wrap16(x + y)
    ensures Wrap8(Wrap8(x) + y) == Wrap8(x + y)
  {
  }

  lemma WrapSmall(x: nat)
    requires x < 256
    ensures Wrap8(x) as nat == x
  {
  }

  lemma AddFuncAgrees(c: Cfg, assoc: Option<AssocDesc>, f: FuncInfo, x: Excess)
    requires Agrees(c, x) && Sane(f)
    ensures var e := AddFunc(c, assoc, f);
      var d := e.cfg.(total := if assoc.Some? && e.ret == 0 then Wrap16(e.cfg.total + 8) else e.cfg.total);
      Agrees(d, Plus(x, FuncExcess(c, f))) && d.pipes == c.pipes
  {
    hide Sum, Present, Count, Wrap16, Wrap8;
    var e := AddFunc(c, assoc, f);
    WrapAdd(Present(c.hdrs) + x.funcs, 1);
    if e.ret == 0 {
      var i := f.num as nat;
      SumUpdate(c.hdrs, i, e.cfg.hdrs[i]);
      forall p | p in c.pipes ensures p.hdr != i && PipeOk(e.cfg.hdrs, p) { assert PipeOk(c.hdrs, p); }
      CountPastEnd(c.pipes, i);
      WrapSmall(0);
      PresentBound(e.cfg.hdrs);
      WrapSmall(c.nIntfs + 1);
      WrapAdd(Recount(c) + x.bytes, 9 + f.specSize);
      WrapAdd(Recount(c) + x.bytes + 9 + f.specSize, 8);
    }
  }

  lemma AddOneAgrees(c: Cfg, a: AssocInfo, f: FuncInfo, x: Excess)
    requires Agrees(c, x) && Sane(f)
    ensures Agrees(AddOne(c, a, f).cfg, Plus(x, OneExcess(c, a, f))) && AddOne(c, a, f).cfg.pipes == c.pipes
  {
    hide Sum, Present, Count, Wrap16, Wrap8;
    if f.num != a.first {
      AddFuncAgrees(c, None, f, x);
    } else {
      var i := FreeFrom(c.strs, 1);
      if i != 0 { AddFuncAgrees(c.(strs := c.strs + {i as nat}), Some(NewAssoc(a, i)), f, x); }
    }
  }

  lemma {:induction false} AddEachAgrees(c: Cfg, a: AssocInfo, fs: seq<FuncInfo>, x: Excess)
    requires Agrees(c, x) && forall f | f in fs :: Sane(f)
    ensures Agrees(AddEach(c, a, fs).cfg, Plus(x, EachExcess(c, a, fs))) && AddEach(c, a, fs).cfg.pipes == c.pipes
  {
    hide AddOne, OneExcess, Sum, Present, Count, HdrOk, PipeOk;
    if fs != [] {
      var l := |fs| - 1;
      AddEachAgrees(c, a, fs[..l], x);
      AddOneAgrees(AddEach(c, a, fs[..l]).cfg, a, fs[l], Plus(x, EachExcess(c, a, fs[..l])));
    }
  }

  lemma PipeAddAgrees(c: Cfg, intf: nat, p: PipeInfo, addr: Octet, x: Excess)
    requires Agrees(c, x) && intf < INTF_MAX && c.hdrs[intf].Some? && p.mps < 65536 && Grantable(c.pipes, p, addr)
    ensures Agrees(c.(pipes := c.pipes + [Pipe(intf, NewEp(p, addr), 1)], hdrs := BumpAt(c.hdrs, intf, 1),
                      total := Wrap16(c.total + 9)), x)
  {
    hide Sum, Present, Count, Wrap16, Wrap8;
    var q := Pipe(intf, NewEp(p, addr), 1);
    var hs := BumpAt(c.hdrs, intf, 1);
    SumUpdate(c.hdrs, intf, hs[intf]);
    WrapAdd(Recount(c) + x.bytes, 9);
    WrapAdd(Count(c.pipes, intf), 1);
    forall i | 0 <= i < INTF_MAX && hs[i].Some? ensures HdrOk(c.pipes + [q], i, hs[i].value) {
      assert HdrOk(c.pipes, i, c.hdrs[i].value);
      CountSnoc(c.pipes, q, i);
    }
    forall r | r in c.pipes + [q] ensures PipeOk(hs, r) {
      if r in c.pipes { assert PipeOk(c.hdrs, r); }
    }
  }

  lemma PipeDelAgrees(c: Cfg, k: nat, x: Excess)
    requires Agrees(c, x) && k < |c.pipes|
    ensures c.pipes[k].hdr < INTF_MAX && c.hdrs[c.pipes[k].hdr].Some?
    ensures Agrees(c.(pipes := c.pipes[..k] + c.pipes[k + 1..], hdrs := BumpAt(c.hdrs, c.pipes[k].hdr, -1),
                      total := Wrap16(c.total - 9)), x)
  {
    hide Sum, Present, Count, Wrap16, Wrap8;
    assert PipeOk(c.hdrs, c.pipes[k]);
    var intf := c.pipes[k].hdr;
    var hs := BumpAt(c.hdrs, intf, -1);
    var ps := c.pipes[..k] + c.pipes[k + 1..];
    SumUpdate(c.hdrs, intf, hs[intf]);
    WrapAdd(Recount(c) + x.bytes, -9);
    WrapAdd(Count(c.pipes, intf), -1);
    forall i | 0 <= i < INTF_MAX && hs[i].Some? ensures HdrOk(ps, i, hs[i].value) {
      assert HdrOk(c.pipes, i, c.hdrs[i].value);
      CountRemove(c.pipes, k, i);
    }
    forall r | r in ps ensures PipeOk(hs, r) {
      assert PipeOk(c.hdrs, r);
    }
  }

  lemma PipeAddStep(c: Cfg, i: nat, p: PipeInfo, grant: Option<Octet>, x: Excess)
    requires Agrees(c, x) && Callable(c, PipeAddCall(i, p, grant))
    ensures |c.hdrs| == INTF_MAX && Agrees(PipeAdd(c, i, p, grant).cfg, x)
  {
    if c.hdrs[i].Some? && grant.Some? { PipeAddAgrees(c, i, p, grant.value, x); }
    hide Agrees, BumpAt, NewEp, Grantable;
  }

  lemma {:induction false} PipeDelStep(c: Cfg, i: nat, isIn: bool, num: Octet, x: Excess)
    requires Agrees(c, x) && i < INTF_MAX
    ensures |c.hdrs| == INTF_MAX && Agrees(PipeDel(c, i, isIn, num).cfg, x)
  {
    hide Sum, Present, Count, Recount, Wrap16, Wrap8, HdrOk;
    var k := FindOwn(c.pipes, Dir(isIn) + num % 16, i);
    if k < |c.pipes| {
      PipeRefs(c, k);
      hide Agrees, BumpAt, PipeOk, FindOwn;
      PipeDelAgrees(c, k, x);
    }
  }

  lemma PipeRefs(c: Cfg, k: nat)
    requires Shaped(c) && k < |c.pipes|
    ensures c.pipes[k].refs == 1
  {
    assert PipeOk(c.hdrs, c.pipes[k]);
  }

  /** Every call, whether it succeeds or fails, moves the counters as it moves the recount, and by
      its excess on top. */
  lemma StepAgrees(c: Cfg, op: Call, x: Excess)
    requires Agrees(c, x) && Callable(c, op)
    ensures |c.hdrs| == INTF_MAX && Agrees(Step(c, op).cfg, Plus(x, CallExcess(c, op)))
  {
    assert |c.hdrs| == INTF_MAX;
    hide Agrees, AddFunc, PipeAdd, PipeDel, AddEach, FuncExcess, EachExcess;
    assert Plus(x, NO_EXCESS) == x;
    match op
    case FuncAddCall(f) => AddFuncAgrees(c, None, f, x);
    case AssocAddCall(a, fs) => AddEachAgrees(c, a, fs, x);
    case PipeAddCall(i, p, grant) => PipeAddStep(c, i, p, grant, x);
    case PipeDelCall(i, isIn, num) => PipeDelStep(c, i, isIn, num, x);
  }

  /** After any run of calls the counters are those of a recount and the excess of the calls. */
  lemma {:induction false} RunAgrees(c: Cfg, ops: seq<Call>, d: Cfg, x: Excess)
    requires Agrees(c, x) && Reaches(c, ops, d)
    ensures Runnable(c, ops) && Agrees(d, Plus(x, RunExcess(c, ops)))
    decreases |ops|
  {
    assert |c.hdrs| == INTF_MAX;
    PlusFacts(x, NO_EXCESS, NO_EXCESS);
    hide Agrees, Step, Callable, CallExcess, Plus;
    if ops != [] {
      var e, y := Step(c, ops[0]).cfg, CallExcess(c, ops[0]);
      StepAgrees(c, ops[0], x);
      RunAgrees(e, ops[1..], d, Plus(x, y));
      PlusFacts(x, y, RunExcess(e, ops[1..]));
    }
  }

  lemma PlusFacts(x: Excess, y: Excess, z: Excess)
    ensures Plus(Plus(x, y), z) == Plus(x, Plus(y, z)) && Plus(x, NO_EXCESS) == x
  {
  }

  lemma Wrap16Exactly(r: nat, x: nat)
    ensures Wrap16(r + x) == r <==> r < 65536 && x % 65536 == 0
  {
  }

  lemma Wrap8Exactly(r: nat, x: nat)
    requires r < 256
    ensures Wrap8(r + x) as nat == r <==> x % 256 == 0
  {
  }

  lemma FitsEight(r: nat)
    ensures Wrap8(r) as nat == r <==> r <= 255
  {
  }

  /** The counters are exact: the total length, and the number of functions. */
  predicate TotalExact(c: Cfg) { c.total == Recount(c) }

  predicate FuncsExact(c: Cfg) { c.nFunc as nat == Present(c.hdrs) }

  /** ... and the endpoint count of interface `i`, if there is one. */
  predicate EpsExact(c: Cfg, i: nat)
    requires |c.hdrs| == INTF_MAX && i < INTF_MAX
  {
    c.hdrs[i].Some? ==> c.hdrs[i].value.intf.nEps as nat == Count(c.pipes, i)
  }

  /** What is in excess comes to nothing in sixteen bits, or in eight. */
  predicate NoBytes(x: Excess) { x.bytes % 65536 == 0 }

  predicate NoFuncs(x: Excess) { x.funcs % 256 == 0 }

  lemma ExactBy(d: Cfg, x: Excess)
    requires Agrees(d, x)
    ensures TotalExact(d) <==> Recount(d) < 65536 && NoBytes(x)
    ensures FuncsExact(d) <==> NoFuncs(x)
  {
    hide Sum, Present, Count, Wrap16, Wrap8, HdrOk, PipeOk;
    PresentBound(d.hdrs);
    Wrap8Exactly(Present(d.hdrs), x.funcs);
    hide Recount;
    Wrap16Exactly(Recount(d), x.bytes);
  }

  lemma EpsExactBy(d: Cfg, i: nat)
    requires Shaped(d) && i < INTF_MAX
    ensures EpsExact(d, i) <==> d.hdrs[i].None? || Count(d.pipes, i) <= 255
  {
    hide Present, Count, Wrap8, PipeOk;
    if d.hdrs[i].Some? {
      assert HdrOk(d.pipes, i, d.hdrs[i].value);
      FitsEight(Count(d.pipes, i));
    }
  }

  /** After any run of calls, successful or not, on an empty configuration: the total length is
      exact exactly when the recount fits sixteen bits and the bytes the calls announced without
      having been given them come to a multiple of 65536; the interface count is exact; the
      function count is exact exactly when the calls that counted an interface and dropped it are
      a multiple of 256; and the endpoint count of an interface is exact exactly when it has at
      most 255 pipes. */
  lemma CountersExactly(value: Octet, str: Octet, strs: set<nat>, ops: seq<Call>, d: Cfg)
    requires Reaches(Fresh(value, str, strs), ops, d)
    ensures Runnable(Fresh(value, str, strs), ops) && |d.hdrs| == INTF_MAX && d.nIntfs as nat == Present(d.hdrs)
    ensures TotalExact(d) <==> Recount(d) < 65536 && NoBytes(RunExcess(Fresh(value, str, strs), ops))
    ensures FuncsExact(d) <==> NoFuncs(RunExcess(Fresh(value, str, strs), ops))
    ensures forall i | 0 <= i < INTF_MAX :: EpsExact(d, i) <==> d.hdrs[i].None? || Count(d.pipes, i) <= 255
  {
    hide Recount, Reaches, Runnable, RunExcess, Sum, Present, Count, Wrap16, Wrap8, HdrOk, PipeOk, TotalExact,
      FuncsExact, EpsExact, NoBytes, NoFuncs;
    var c := Fresh(value, str, strs);
    FreshAgrees(value, str, strs);
    RunAgrees(c, ops, d, NO_EXCESS);
    hide Fresh;
    ExactBy(d, RunExcess(c, ops));
    forall i | 0 <= i < INTF_MAX ensures EpsExact(d, i) <==> d.hdrs[i].None? || Count(d.pipes, i) <= 255 {
      EpsExactBy(d, i);
    }
  }
}
