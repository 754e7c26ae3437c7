/** What runs of configuration calls achieve: associations stay whole as long as string
    indices last, and automatic endpoint numbers are fresh exactly for ordered lists. */
module UsbdRuns {
  import opened Descriptors
  import opened UsbdConfig

  // ---- string indices ----

  function FreeCount(used: set<nat>, i: nat): (r: nat)
    requires i <= 32
    decreases 32 - i
  {
    if i == 32 then 0 else (if i in used then 0 else 1) + FreeCount(used, i + 1)
  }

  function Free(used: set<nat>): (r: nat) { FreeCount(used, 1) }

  lemma {:induction false} FreeTaken(used: set<nat>, k: nat, i: nat)
    requires i <= 32 && k < 32 && k !in used
    ensures FreeCount(used + {k}, i) == FreeCount(used, i) - if i <= k then 1 else 0
    decreases 32 - i
  {
    if i < 32 { FreeTaken(used, k, i + 1); }
  }

  lemma {:induction false} NoneFree(used: set<nat>, i: nat)
    requires 1 <= i <= 32
    ensures FreeFrom(used, i) == 0 <==> FreeCount(used, i) == 0
    decreases 32 - i
  {
    if i < 32 { NoneFree(used, i + 1); }
  }

  lemma TakeIndex(used: set<nat>)
    ensures var k := FreeFrom(used, 1);
      (k == 0 <==> Free(used) == 0) && (k != 0 ==> Free(used + {k as nat}) == Free(used) - 1)
  {
    NoneFree(used, 1);
    var k := FreeFrom(used, 1);
    if k != 0 { FreeTaken(used, k, 1); }
  }

  // ---- associations ----

  /** The interfaces passed in are those of the range, one each, with setting 0. */
  predicate Covers(a: AssocInfo, fs: seq<FuncInfo>) {
    && (forall f | f in fs :: f.alt == 0 && a.first <= f.num as int < a.first + a.count)
    && (forall i, j | 0 <= i < j < |fs| :: fs[i].num != fs[j].num)
    && (forall f | f in fs :: f.spec.Some? || f.specSize == 0)
  }

  predicate IsFirst(a: AssocInfo, f: FuncInfo) { f.num == a.first }

  /** The indices a prefix of the interfaces uses up: one each, one more for the association. */
  function Needs(a: AssocInfo, fs: seq<FuncInfo>): (r: nat) {
    if fs == [] then 0 else Needs(a, fs[..|fs| - 1]) + if IsFirst(a, fs[|fs| - 1]) then 2 else 1
  }

  /** The interface descriptor and the class-specific bytes are as asked for, field by field. */
  predicate IntfAsAsked(h: Hdr, f: FuncInfo) {
    && h.intf.num == f.num && h.intf.alt == f.alt
    && h.intf.cls == f.cls && h.intf.sub == f.sub && h.intf.proto == f.proto
    && h.spec == match f.spec case Some(b) => b case None => []
  }

  predicate AssocAsAsked(d: AssocDesc, a: AssocInfo) {
    d.first == a.first && d.count == a.count && d.cls == a.cls && d.sub == a.sub && d.proto == a.proto
  }

  /** The header of `f` is as asked for, and new. */
  predicate Stored(h: Option<Hdr>, a: AssocInfo, f: FuncInfo) {
    && h.Some? && IntfAsAsked(h.value, f) && h.value.intf.nEps == 0
    && (if f.num == a.first then h.value.assoc.Some? && AssocAsAsked(h.value.assoc.value, a) else h.value.assoc.None?)
  }

  /** One step on a free number succeeds exactly when its indices are there. */
  lemma OneStep(c: Cfg, a: AssocInfo, f: FuncInfo)
    requires |c.hdrs| == INTF_MAX && Sane(f) && f.alt == 0 && (f.num as nat) < INTF_MAX && c.hdrs[f.num].None?
    ensures var e, need := AddOne(c, a, f), if IsFirst(a, f) then 2 else 1;
      && (e.ret == 0 <==> Free(c.strs) >= need)
      && (e.ret == 0 ==> && Free(e.cfg.strs) == Free(c.strs) - need && Stored(e.cfg.hdrs[f.num], a, f)
                         && OneExcess(c, a, f) == Excess(Missing(f), 0))
      && (e.ret != 0 ==> e.cfg.hdrs == c.hdrs && Free(e.cfg.strs) == Free(c.strs))
      && (forall k | 0 <= k < INTF_MAX && k != f.num as nat :: e.cfg.hdrs[k] == c.hdrs[k])
  {
    hide FreeCount, FreeFrom;
    TakeIndex(c.strs);
    var i := FreeFrom(c.strs, 1);
    if i != 0 {
      TakeIndex(c.strs + {i as nat});
      assert i as nat !in c.strs;
      assert c.strs + {i as nat} - {i as nat} == c.strs;
    }
  }

  predicate AllStored(c: Cfg, a: AssocInfo, fs: seq<FuncInfo>)
    requires |c.hdrs| == INTF_MAX
  {
    forall i | 0 <= i < |fs| :: fs[i].num as nat < INTF_MAX && Stored(c.hdrs[fs[i].num], a, fs[i])
  }

  predicate Untouched(c: Cfg, d: Cfg, fs: seq<FuncInfo>)
    requires |c.hdrs| == INTF_MAX && |d.hdrs| == INTF_MAX
  {
    forall k | 0 <= k < INTF_MAX && (forall i | 0 <= i < |fs| :: fs[i].num as nat != k) :: d.hdrs[k] == c.hdrs[k]
  }

  predicate Ready(c: Cfg, a: AssocInfo, fs: seq<FuncInfo>) {
    && |c.hdrs| == INTF_MAX && Covers(a, fs) && a.first + a.count <= INTF_MAX
    && forall f | f in fs :: Sane(f) && (f.num as nat) < INTF_MAX && c.hdrs[f.num].None?
  }

  lemma ReadyPrefix(c: Cfg, a: AssocInfo, fs: seq<FuncInfo>, l: nat)
    requires Ready(c, a, fs) && l <= |fs|
    ensures Ready(c, a, fs[..l])
  {
    forall f | f in fs[..l] ensures f in fs {}
  }

  /** All interfaces of an association are added, with nothing lost on the way, exactly when
      there are as many free string indices as interfaces, and one for the association. */
  lemma {:induction false} AllOrNot(c: Cfg, a: AssocInfo, fs: seq<FuncInfo>)
    requires Ready(c, a, fs)
    ensures var d := AddEach(c, a, fs).cfg;
      && Untouched(c, d, fs)
      && (AllStored(d, a, fs) <==> Needs(a, fs) <= Free(c.strs))
      && (AllStored(d, a, fs) ==> && Free(d.strs) == Free(c.strs) - Needs(a, fs) && AddEach(c, a, fs).ret == 0
                                  && EachExcess(c, a, fs) == NO_EXCESS)
  {
    hide FreeCount, Stored, AddOne, OneExcess, AllStored, Untouched, Covers;
    if fs == [] {
      NothingAdded(c, a);
    } else {
      var l := |fs| - 1;
      ReadyPrefix(c, a, fs, l);
      AllOrNot(c, a, fs[..l]);
      var d := AddEach(c, a, fs[..l]).cfg;
      LastIsFree(c, d, a, fs);
      OneStep(d, a, fs[l]);
      StoredSnoc(d, AddOne(d, a, fs[l]).cfg, a, fs);
      UntouchedSnoc(c, d, AddOne(d, a, fs[l]).cfg, fs);
      NotStored(a, fs[l]);
    }
  }

  lemma NothingAdded(c: Cfg, a: AssocInfo)
    requires |c.hdrs| == INTF_MAX
    ensures Untouched(c, c, []) && AllStored(c, a, [])
  {
  }

  lemma LastIsFree(c: Cfg, d: Cfg, a: AssocInfo, fs: seq<FuncInfo>)
    requires fs != [] && Ready(c, a, fs) && |d.hdrs| == INTF_MAX && Untouched(c, d, fs[..|fs| - 1])
    ensures fs[|fs| - 1].alt == 0 && fs[|fs| - 1].num as nat < INTF_MAX && d.hdrs[fs[|fs| - 1].num].None?
    ensures Sane(fs[|fs| - 1]) && Missing(fs[|fs| - 1]) == 0
    ensures forall i | 0 <= i < |fs| - 1 :: fs[i].num != fs[|fs| - 1].num && fs[i].num as nat < INTF_MAX
  {
    assert fs[|fs| - 1] in fs;
    assert forall i | 0 <= i < |fs| :: fs[i] in fs;
  }

  lemma StoredSnoc(d: Cfg, e: Cfg, a: AssocInfo, fs: seq<FuncInfo>)
    requires fs != [] && |d.hdrs| == INTF_MAX && |e.hdrs| == INTF_MAX && fs[|fs| - 1].num as nat < INTF_MAX
    requires forall i | 0 <= i < |fs| - 1 :: fs[i].num != fs[|fs| - 1].num && fs[i].num as nat < INTF_MAX
    requires forall k | 0 <= k < INTF_MAX && k != fs[|fs| - 1].num as nat :: e.hdrs[k] == d.hdrs[k]
    ensures AllStored(e, a, fs) <==>
      AllStored(d, a, fs[..|fs| - 1]) && Stored(e.hdrs[fs[|fs| - 1].num], a, fs[|fs| - 1])
  {
    hide Stored;
    var l := |fs| - 1;
    assert forall i | 0 <= i < l :: fs[..l][i] == fs[i] && e.hdrs[fs[i].num] == d.hdrs[fs[i].num];
    assert forall i | 0 <= i < l :: Stored(e.hdrs[fs[i].num], a, fs[i]) <==>
      Stored(d.hdrs[fs[..l][i].num], a, fs[..l][i]);
  }

  lemma UntouchedSnoc(c: Cfg, d: Cfg, e: Cfg, fs: seq<FuncInfo>)
    requires fs != [] && |c.hdrs| == INTF_MAX && |d.hdrs| == INTF_MAX && |e.hdrs| == INTF_MAX
    requires Untouched(c, d, fs[..|fs| - 1])
    requires forall k | 0 <= k < INTF_MAX && k != fs[|fs| - 1].num as nat :: e.hdrs[k] == d.hdrs[k]
    ensures Untouched(c, e, fs)
  {
    forall k | 0 <= k < INTF_MAX && (forall i | 0 <= i < |fs| :: fs[i].num as nat != k) ensures e.hdrs[k] == c.hdrs[k] {
      var t := fs[..|fs| - 1];
      forall i | 0 <= i < |t| ensures t[i].num as nat != k { assert t[i] == fs[i]; }
    }
  }

  lemma NotStored(a: AssocInfo, f: FuncInfo)
    ensures !Stored(None, a, f)
  {
  }

  /** The result alone does not tell: with a single free index the association itself fails,
      the second interface takes the index, and success is reported. */
  lemma SuccessWithoutAssociation(c: Cfg)
    requires |c.hdrs| == INTF_MAX && (forall k | 0 <= k < INTF_MAX :: c.hdrs[k].None?) && Free(c.strs) == 1
    ensures var a, f0, f1 := AssocInfo(0, 2, 2, 2, 1), FuncInfo(0, 0, 2, 2, 1, None, 0),
      FuncInfo(1, 0, 10, 0, 0, None, 0);
      AssocArgs(a, [f0, f1]) && AssocAdd(c, a, [f0, f1]).ret == 0 && AssocAdd(c, a, [f0, f1]).cfg.hdrs[0].None?
  {
    hide FreeCount, FreeFrom;
    var a, f0, f1 := AssocInfo(0, 2, 2, 2, 1), FuncInfo(0, 0, 2, 2, 1, None, 0), FuncInfo(1, 0, 10, 0, 0, None, 0);
    OneStep(c, a, f0);
    OneStep(AddOne(c, a, f0).cfg, a, f1);
    assert [f0, f1][..1] == [f0] && [f0][..0] == [];
    assert AddEach(c, a, [f0]) == AddOne(c, a, f0);
  }

  // ---- the association table of a configuration ----

  /** Every association starts at the interface that carries it and covers interfaces that
      exist and carry no association of their own. */
  predicate AssocsWhole(hs: seq<Option<Hdr>>) {
    forall i | 0 <= i < |hs| && hs[i].Some? && hs[i].value.assoc.Some? ::
      var a := hs[i].value.assoc.value;
      && a.first as nat == i && a.count > 0 && i + a.count <= |hs|
      && forall k | i < k < i + a.count :: hs[k].Some? && hs[k].value.assoc.None?
  }

  lemma {:induction false} NeedsBound(a: AssocInfo, fs: seq<FuncInfo>)
    requires forall i, j | 0 <= i < j < |fs| :: fs[i].num != fs[j].num
    ensures Needs(a, fs) == |fs| + if exists i :: 0 <= i < |fs| && IsFirst(a, fs[i]) then 1 else 0
  {
    if fs != [] {
      var l := |fs| - 1;
      NeedsBound(a, fs[..l]);
      if IsFirst(a, fs[l]) { assert forall i | 0 <= i < l :: fs[..l][i].num != fs[l].num; }
      if i :| 0 <= i < |fs| && IsFirst(a, fs[i]) && i < l { assert IsFirst(a, fs[..l][i]); }
      if i :| 0 <= i < l && IsFirst(a, fs[..l][i]) { assert IsFirst(a, fs[i]); }
    }
  }

  function Nums(fs: seq<FuncInfo>): (s: set<nat>) {
    if fs == [] then {} else Nums(fs[..|fs| - 1]) + {fs[|fs| - 1].num as nat}
  }

  lemma {:induction false} NumsIn(fs: seq<FuncInfo>, n: nat) returns (i: nat)
    requires n in Nums(fs)
    ensures i < |fs| && fs[i].num as nat == n
  {
    i := |fs| - 1;
    if fs[i].num as nat != n { i := NumsIn(fs[..i], n); }
  }

  lemma {:induction false} NumsSize(fs: seq<FuncInfo>)
    requires forall i, j | 0 <= i < j < |fs| :: fs[i].num != fs[j].num
    ensures |Nums(fs)| == |fs|
  {
    if fs != [] {
      var l := |fs| - 1;
      NumsSize(fs[..l]);
      if fs[l].num as nat in Nums(fs[..l]) { var i := NumsIn(fs[..l], fs[l].num); }
    }
  }

  function Stretch(lo: nat, len: nat): (s: set<nat>)
    ensures |s| == len && forall n :: n in s <==> lo <= n < lo + len
  {
    if len == 0 then {} else Stretch(lo, len - 1) + {lo + len - 1}
  }

  lemma SubsetSize(a: set<nat>, b: set<nat>)
    requires a <= b && |a| == |b|
    ensures a == b
  {
    assert |b - a| == 0 by { assert b == a + (b - a) && a !! b - a; }
    assert b - a == {};
  }

  /** Distinct numbers, as many as the range is long, are the whole range. */
  lemma RangeMet(a: AssocInfo, fs: seq<FuncInfo>, k: nat)
    requires Covers(a, fs) && |fs| == a.count as nat && a.first as int <= k < a.first + a.count
    ensures exists i :: 0 <= i < |fs| && fs[i].num as nat == k
  {
    NumsSize(fs);
    var s := Stretch(a.first, a.count);
    forall n | n in Nums(fs) ensures n in s { var i := NumsIn(fs, n); assert fs[i] in fs; }
    SubsetSize(Nums(fs), s);
    assert k in s;
    var i := NumsIn(fs, k);
  }

  /** A call as the documentation has it: setting 0, class-specific bytes given when a size is,
      association ranges filled, and string indices left for all of it. */
  predicate Proper(c: Cfg, op: Call)
    requires |c.hdrs| == INTF_MAX
  {
    && Callable(c, op) && Step(c, op).ret == 0
    && match op
       case FuncAddCall(f) => f.spec.Some? || f.specSize == 0
       case AssocAddCall(a, fs) => Covers(a, fs) && Free(c.strs) > |fs|
       case _ => true
  }

  /** The counters are those of a recount, modulo their width, and associations are whole. */
  ghost predicate Sound(c: Cfg) { Agrees(c, NO_EXCESS) && AssocsWhole(c.hdrs) }

  lemma AssocAddSound(c: Cfg, a: AssocInfo, fs: seq<FuncInfo>)
    requires Sound(c) && Proper(c, AssocAddCall(a, fs))
    ensures Sound(AssocAdd(c, a, fs).cfg) && CallExcess(c, AssocAddCall(a, fs)) == NO_EXCESS
    ensures forall f | f in fs :: Stored(AssocAdd(c, a, fs).cfg.hdrs[f.num], a, f)
  {
    hide Agrees, FreeCount;
    AgreesSize(c);
    var d := AddEach(c, a, fs).cfg;
    assert forall k | a.first as nat <= k < a.first + a.count :: c.hdrs[k].None?;
    assert Ready(c, a, fs);
    AllOrNot(c, a, fs);
    NeedsBound(a, fs);
    AddEachKeeps(c, a, fs);
    WholeAfter(c, d, a, fs);
  }

  lemma AddEachKeeps(c: Cfg, a: AssocInfo, fs: seq<FuncInfo>)
    requires Agrees(c, NO_EXCESS) && AssocArgs(a, fs)
    ensures Agrees(AddEach(c, a, fs).cfg, EachExcess(c, a, fs))
  {
    hide Agrees, AddEach, EachExcess;
    AgreesSize(c);
    AddEachAgrees(c, a, fs, NO_EXCESS);
    assert Plus(NO_EXCESS, EachExcess(c, a, fs)) == EachExcess(c, a, fs);
  }

  lemma AgreesSize(c: Cfg)
    requires Agrees(c, NO_EXCESS)
    ensures |c.hdrs| == INTF_MAX
  {
  }

  lemma WholeAfter(c: Cfg, d: Cfg, a: AssocInfo, fs: seq<FuncInfo>)
    requires |c.hdrs| == INTF_MAX && |d.hdrs| == INTF_MAX && AssocsWhole(c.hdrs)
    requires Ready(c, a, fs) && |fs| == a.count as nat && Untouched(c, d, fs) && AllStored(d, a, fs)
    ensures AssocsWhole(d.hdrs)
  {
    var lo, hi := a.first as nat, a.first as nat + a.count as nat;
    forall k | lo <= k < hi
      ensures c.hdrs[k].None? && d.hdrs[k].Some? && (d.hdrs[k].value.assoc.Some? <==> k == lo)
      ensures k == lo ==> d.hdrs[k].value.assoc.value.first == a.first && d.hdrs[k].value.assoc.value.count == a.count
    {
      RangeMet(a, fs, k);
      var i :| 0 <= i < |fs| && fs[i].num as nat == k;
      assert fs[i] in fs && Stored(d.hdrs[fs[i].num], a, fs[i]);
    }
    forall k | 0 <= k < INTF_MAX && !(lo <= k < hi) ensures d.hdrs[k] == c.hdrs[k] {
      forall i | 0 <= i < |fs| ensures fs[i].num as nat != k { assert fs[i] in fs; }
    }
  }

  lemma FuncAddPlain(c: Cfg, f: FuncInfo)
    requires |c.hdrs| == INTF_MAX && AssocsWhole(c.hdrs) && Proper(c, FuncAddCall(f))
    ensures AssocsWhole(AddFunc(c, None, f).cfg.hdrs) && FuncExcess(c, f) == NO_EXCESS
  {
    hide FreeFrom, NewIntf;
    var e := AddFunc(c, None, f);
    assert c.hdrs[f.num].None? && e.cfg.hdrs == c.hdrs[f.num := e.cfg.hdrs[f.num]];
    assert e.cfg.hdrs[f.num].value.assoc.None?;
    hide AddFunc;
  }

  lemma BumpSound(hs: seq<Option<Hdr>>, k: nat, d: int)
    requires AssocsWhole(hs) && k < |hs| && hs[k].Some?
    ensures AssocsWhole(BumpAt(hs, k, d))
  {
  }

  lemma StepWhole(c: Cfg, op: Call)
    requires Sound(c) && Proper(c, op)
    ensures |c.hdrs| == INTF_MAX && AssocsWhole(Step(c, op).cfg.hdrs) && CallExcess(c, op) == NO_EXCESS
  {
    AgreesSize(c);
    match op
    case FuncAddCall(f) =>
      FuncAddPlain(c, f);
      hide AddFunc, FuncExcess, AssocsWhole, Agrees;
    case AssocAddCall(a, fs) =>
      AssocAddSound(c, a, fs);
      hide AssocAdd, CallExcess, AssocsWhole, Agrees;
    case PipeAddCall(i, p, grant) =>
      hide AssocsWhole, Agrees, AutoNum, FindAddr, Grantable;
      if c.hdrs[i].Some? { BumpSound(c.hdrs, i, 1); }
    case PipeDelCall(i, isIn, num) =>
      hide AssocsWhole, Agrees, FindOwn;
      if c.hdrs[i].Some? { BumpSound(c.hdrs, i, -1); }
  }

  lemma StepSound(c: Cfg, op: Call)
    requires Sound(c) && Proper(c, op)
    ensures Sound(Step(c, op).cfg) && CallExcess(c, op) == NO_EXCESS
  {
    StepWhole(c, op);
    hide Agrees, AssocsWhole, Step, CallExcess;
    StepAgrees(c, op, NO_EXCESS);
    assert Plus(NO_EXCESS, NO_EXCESS) == NO_EXCESS;
  }

  ghost predicate ProperRun(c: Cfg, ops: seq<Call>, d: Cfg)
    requires |c.hdrs| == INTF_MAX
    decreases |ops|
  {
    if ops == [] then c == d else Proper(c, ops[0]) && ProperRun(Step(c, ops[0]).cfg, ops[1..], d)
  }

  /** A run of proper calls on a sound configuration: the counters are those of a recount, modulo
      their width, with no excess, and associations are whole. */
  lemma {:induction false} ProperRunSound(c: Cfg, ops: seq<Call>, d: Cfg)
    requires Sound(c) && ProperRun(c, ops, d)
    ensures Sound(d)
    decreases |ops|
  {
    hide Step, Agrees, AssocsWhole;
    AgreesSize(c);
    if ops != [] {
      StepSound(c, ops[0]);
      ProperRunSound(Step(c, ops[0]).cfg, ops[1..], d);
    }
  }

  /** In a proper run nothing is in excess. */
  lemma {:induction false} ProperRunPlain(c: Cfg, ops: seq<Call>, d: Cfg)
    requires Sound(c) && ProperRun(c, ops, d)
    ensures Reaches(c, ops, d) && Runnable(c, ops) && RunExcess(c, ops) == NO_EXCESS
    decreases |ops|
  {
    hide Step, Agrees, AssocsWhole, CallExcess;
    AgreesSize(c);
    if ops != [] {
      StepSound(c, ops[0]);
      ProperRunPlain(Step(c, ops[0]).cfg, ops[1..], d);
    }
  }

  /** After a proper run on an empty configuration the total length is exact exactly when the
      recount fits sixteen bits, and the numbers of interfaces and functions always are. */
  lemma ProperRunExactly(value: Octet, str: Octet, strs: set<nat>, ops: seq<Call>, d: Cfg)
    requires ProperRun(Fresh(value, str, strs), ops, d)
    ensures |d.hdrs| == INTF_MAX && d.nIntfs as nat == Present(d.hdrs) && FuncsExact(d)
    ensures TotalExact(d) <==> Recount(d) < 65536
  {
    hide Sum, Present, Count, Recount, Reaches, Runnable, RunExcess, ProperRun, TotalExact, FuncsExact, EpsExact;
    FreshSound(value, str, strs);
    hide Fresh;
    ProperRunPlain(Fresh(value, str, strs), ops, d);
    CountersExactly(value, str, strs, ops, d);
  }

  /** One interface of nine class-specific bytes that are announced and not given: the call
      succeeds and the total length is nine bytes more than what is written. */
  lemma BareSize(value: Octet, str: Octet)
    ensures var e := AddFunc(Fresh(value, str, {}), None, FuncInfo(0, 0, 255, 0, 0, None, 9));
      e.ret == 0 && e.cfg.total == 27 && Recount(e.cfg) == 18
  {
    OneFunc(Fresh(value, str, {}), FuncInfo(0, 0, 255, 0, 0, None, 9));
  }

  /** 65536 class-specific bytes, given as announced: the total length is 18 although 65554 bytes
      are to be written. */
  lemma LongSpec(value: Octet, str: Octet, spec: seq<Octet>)
    requires |spec| == 65536
    ensures var f := FuncInfo(0, 0, 255, 0, 0, Some(spec), 65536); var c := Fresh(value, str, {});
      Proper(c, FuncAddCall(f)) && AddFunc(c, None, f).cfg.total == 18 && Recount(AddFunc(c, None, f).cfg) == 65554
  {
    OneFunc(Fresh(value, str, {}), FuncInfo(0, 0, 255, 0, 0, Some(spec), 65536));
  }

  lemma OneFunc(c: Cfg, f: FuncInfo)
    requires c == Fresh(c.value, c.str, {}) && Sane(f) && f.num == 0 && f.alt == 0
    ensures var e := AddFunc(c, None, f);
      e.ret == 0 && e.cfg.total == Wrap16(18 + f.specSize) && Recount(e.cfg) == 18 + |SpecOf(f)|
  {
    hide Sum, Wrap16, SpecOf;
    FreshCounts(INTF_MAX);
    assert FreeFrom({}, 1) == 1;
    hide FreeFrom;
    var e := AddFunc(c, None, f);
    SumUpdate(c.hdrs, 0, e.cfg.hdrs[0]);
  }

  /** With every string index in use an interface is counted and dropped. */
  lemma CountedOnly(value: Octet, str: Octet, strs: set<nat>)
    requires Free(strs) == 0
    ensures var e := AddFunc(Fresh(value, str, strs), None, FuncInfo(0, 0, 255, 0, 0, None, 0));
      e.ret == -ENOMEM && e.cfg.nFunc == 1 && Present(e.cfg.hdrs) == 0
  {
    NoneFree(strs, 1);
    FreshCounts(INTF_MAX);
    hide FreeFrom, FreeCount, Present;
  }

  lemma FreshSound(value: Octet, str: Octet, strs: set<nat>)
    ensures Sound(Fresh(value, str, strs))
  {
    FreshAgrees(value, str, strs);
  }

  // ---- automatic endpoint numbers ----

  predicate Unused(ps: seq<Pipe>, dir: Octet, n: nat) {
    forall i | 0 <= i < |ps| :: ps[i].ep.addr as int != dir + n
  }

  predicate LowestUnused(ps: seq<Pipe>, dir: Octet, m: nat) {
    m >= 1 && Unused(ps, dir, m) && forall k | 1 <= k < m :: !Unused(ps, dir, k)
  }

  /** Pipes at the places `at`, in list order, have the numbers `n`, `n + 1`, and so on. */
  predicate Chain(ps: seq<Pipe>, dir: Octet, n: nat, at: seq<nat>) {
    && (forall j, k | 0 <= j < k < |at| :: at[j] < at[k])
    && (forall k | 0 <= k < |at| :: at[k] < |ps| && ps[at[k]].ep.addr as int == dir + n + k)
  }

  function Shift(at: seq<nat>): (r: seq<nat>) { seq(|at|, k requires 0 <= k < |at| => at[k] + 1) }

  function Unshift(at: seq<nat>): (r: seq<nat>)
    requires forall k | 0 <= k < |at| :: at[k] > 0
  {
    seq(|at|, k requires 0 <= k < |at| => at[k] - 1)
  }

  /** The walk's result stands on a chain of numbers met in order. */
  lemma {:induction false} WalkHasChain(ps: seq<Pipe>, dir: Octet, n: nat) returns (at: seq<nat>)
    ensures Chain(ps, dir, n, at) && AutoNum(ps, dir, n) == n + |at|
  {
    if ps == [] {
      at := [];
    } else if ps[0].ep.addr as int == dir + n {
      var t := WalkHasChain(ps[1..], dir, n + 1);
      at := [0] + Shift(t);
    } else {
      var t := WalkHasChain(ps[1..], dir, n);
      at := Shift(t);
    }
  }

  /** No chain in list order is longer than the one the walk follows. */
  lemma {:induction false} WalkIsLongest(ps: seq<Pipe>, dir: Octet, n: nat, at: seq<nat>)
    requires Chain(ps, dir, n, at)
    ensures AutoNum(ps, dir, n) >= n + |at|
  {
    if at != [] {
      assert at[0] < |ps|;
      if ps[0].ep.addr as int == dir + n {
        var t := at[1..];
        assert forall k | 0 <= k < |t| :: t[k] == at[k + 1] > at[0];
        WalkIsLongest(ps[1..], dir, n + 1, Unshift(t));
      } else {
        assert at[0] > 0;
        WalkIsLongest(ps[1..], dir, n, Unshift(at));
      }
    }
  }

  /** The number found is unused exactly when the numbers below the lowest unused one stand
      in ascending order in the list. */
  lemma AutoNumFresh(ps: seq<Pipe>, dir: Octet)
    ensures Unused(ps, dir, AutoNum(ps, dir, 1)) <==>
      exists m: nat, at: seq<nat> :: LowestUnused(ps, dir, m) && Chain(ps, dir, 1, at) && |at| == m - 1
  {
    var n := AutoNum(ps, dir, 1);
    var w := WalkHasChain(ps, dir, 1);
    forall k | 1 <= k < n ensures !Unused(ps, dir, k) { assert ps[w[k - 1]].ep.addr as int == dir + k; }
    if Unused(ps, dir, n) {
      assert LowestUnused(ps, dir, n) && |w| == n - 1;
    }
    if m: nat, at: seq<nat> :| LowestUnused(ps, dir, m) && Chain(ps, dir, 1, at) && |at| == m - 1 {
      WalkIsLongest(ps, dir, 1, at);
    }
  }

  /** Two pipes in descending order: the number found is the second one's. */
  lemma AutoNumTaken(p: Pipe, q: Pipe)
    requires p.ep.addr == 2 && q.ep.addr == 1
    ensures AutoNum([p, q], 0, 1) == 2 && !Unused([p, q], 0, 2) && Unused([p, q], 0, 3)
  {
    assert AutoNum([q], 0, 1) == 2;
  }
}
