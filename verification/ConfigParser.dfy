/** Walking a configuration descriptor on the host: core/source/host/core/usbh_dev_enum.c. */
module ConfigParser {
  import opened Descriptors

  const MAX_EP: nat := 32

  const STOPS: set<Octet> := {DT_INTERFACE, DT_ENDPOINT, DT_ASSOC}
  const CFG_STOPS: set<Octet> := {DT_ASSOC, DT_INTERFACE, 0}

  datatype Endpoint = Endpoint(desc: seq<Octet>, extra: seq<Octet>)

  /** An interface as the device sent it; `eps` are the endpoints kept, in order. */
  datatype Interface = Interface(desc: seq<Octet>, extra: seq<Octet>, eps: seq<Endpoint>)

  datatype Item =
    | Assoc(desc: seq<Octet>)
    | Intf(intf: Interface)
    | Other(desc: seq<Octet>)

  // ---- the structure of a configuration, as a function of its bytes ----

  datatype EpWalk = EpFail | EpDone(eps: seq<Endpoint>, rest: seq<Octet>)

  /** Too short, or endpoint number 0. */
  predicate BadEp(b: seq<Octet>)
    requires Framed(b) && b != []
  {
    b[0] < 7 || b[2] % 16 == 0
  }

  /** At most `n` endpoints, each with the class-specific bytes that follow it. */
  function WalkEps(b: seq<Octet>, n: nat): (r: EpWalk)
    requires Framed(b)
    ensures r.EpDone? ==> |r.eps| <= n && |r.rest| <= |b| && Framed(r.rest)
    decreases |b|
  {
    if b == [] || b[1] == DT_INTERFACE || b[1] == DT_ASSOC then EpDone([], b)
    else if b[1] != DT_ENDPOINT then WalkEps(Next(b), n)
    else if n == 0 then EpDone([], b)
    else if BadEp(b) then EpFail
    else
      var s := Run(Next(b), STOPS);
      match WalkEps(s.rest, n - 1)
      case EpFail => EpFail
      case EpDone(eps, rest) => EpDone([Endpoint(Head(b), s.run)] + eps, rest)
  }

  datatype IntfWalk = IntfFail | IntfDone(intf: Interface, rest: seq<Octet>)

  /** The interface whose descriptor starts `b`: its class-specific bytes, then its endpoints. */
  function WalkIntf(b: seq<Octet>): (r: IntfWalk)
    requires Framed(b) && b != []
    ensures r.IntfDone? ==> |r.rest| < |b| && Framed(r.rest)
    ensures r.IntfDone? ==> |r.intf.desc| >= 9 && |r.intf.eps| <= MAX_EP
  {
    if b[0] < 9 then IntfFail
    else
      var s := Run(Next(b), STOPS);
      match WalkEps(s.rest, Least(b[4], MAX_EP))
      case EpFail => IntfFail
      case EpDone(eps, rest) => IntfDone(Interface(Head(b), s.run, eps), rest)
  }

  datatype Walk = Fail | Done(items: seq<Item>)

  function Items(b: seq<Octet>): (r: Walk)
    requires Framed(b)
    decreases |b|
  {
    if b == [] then Done([])
    else if b[1] == DT_INTERFACE then
      match WalkIntf(b)
      case IntfFail => Fail
      case IntfDone(i, rest) => Cons(Intf(i), Items(rest))
    else Cons(if b[1] == DT_ASSOC then Assoc(Head(b)) else Other(Head(b)), Items(Next(b)))
  }

  function Cons(i: Item, w: Walk): (r: Walk) {
    if w.Fail? then Fail else Done([i] + w.items)
  }

  // ---- nothing is lost ----

  function EpsBytes(eps: seq<Endpoint>): (r: seq<Octet>) {
    if eps == [] then [] else eps[0].desc + eps[0].extra + EpsBytes(eps[1..])
  }

  function ItemBytes(i: Item): (r: seq<Octet>) {
    match i
    case Intf(f) => f.desc + f.extra + EpsBytes(f.eps)
    case _ => i.desc
  }

  function Flatten(items: seq<Item>): (r: seq<Octet>) {
    if items == [] then [] else ItemBytes(items[0]) + Flatten(items[1..])
  }

  lemma FlattenCons(i: Item, items: seq<Item>)
    ensures Flatten([i] + items) == ItemBytes(i) + Flatten(items)
  {
    assert ([i] + items)[1..] == items;
  }

  lemma EpsBytesCons(e: Endpoint, eps: seq<Endpoint>)
    ensures EpsBytes([e] + eps) == e.desc + e.extra + EpsBytes(eps)
  {
    assert ([e] + eps)[1..] == eps;
  }

  /** One step of the walk: an endpoint, its extra bytes, and the walk of the rest. */
  lemma EpStep(b: seq<Octet>, n: nat) returns (e: Endpoint, rest: seq<Octet>)
    requires Framed(b) && b != [] && b[1] == DT_ENDPOINT && n > 0 && WalkEps(b, n).EpDone?
    ensures Framed(rest) && |rest| < |b| && (rest == [] || StartsIn(rest, STOPS)) && b == e.desc + (e.extra + rest)
    ensures WalkEps(rest, n - 1).EpDone?
    ensures WalkEps(b, n) == EpDone([e] + WalkEps(rest, n - 1).eps, WalkEps(rest, n - 1).rest)
  {
    var s := Run(Next(b), STOPS);
    e, rest := Endpoint(Head(b), s.run), s.rest;
    RunIsMaximal(Next(b), STOPS);
    HeadNext(b);
  }

  lemma {:induction false} EpsCover(b: seq<Octet>, n: nat)
    requires Framed(b) && (b == [] || StartsIn(b, STOPS)) && WalkEps(b, n).EpDone?
    ensures b == EpsBytes(WalkEps(b, n).eps) + WalkEps(b, n).rest
    decreases |b|
  {
    var ends := b == [] || b[1] != DT_ENDPOINT || n == 0;
    hide WalkEps, Framed, StartsIn, EpsBytes, Run, BadEp, Head, Next;
    if ends {
      EpsNone(b, n);
    } else {
      var e, rest := EpStep(b, n);
      EpsCover(rest, n - 1);
      EpsSome(b, e, rest, WalkEps(rest, n - 1));
    }
  }

  lemma {:induction false} EpsNone(b: seq<Octet>, n: nat)
    requires Framed(b) && (b == [] || (StartsIn(b, STOPS) && (b[1] != DT_ENDPOINT || n == 0)))
    ensures WalkEps(b, n) == EpDone([], b) && b == EpsBytes([]) + b
  {
    assert WalkEps(b, n) == EpDone([], b) && EpsBytes([]) == [];
    hide WalkEps, Framed, EpsBytes;
    assert [] + b == b;
  }

  lemma {:induction false} EpsSome(b: seq<Octet>, e: Endpoint, rest: seq<Octet>, r: EpWalk)
    requires r.EpDone? && b == e.desc + (e.extra + rest) && rest == EpsBytes(r.eps) + r.rest
    ensures b == EpsBytes([e] + r.eps) + r.rest
  {
    EpsBytesCons(e, r.eps);
    Regroup(e.desc, e.extra, EpsBytes(r.eps), r.rest);
    hide EpsBytes;
  }

  lemma Regroup(x: seq<Octet>, y: seq<Octet>, z: seq<Octet>, w: seq<Octet>)
    ensures x + (y + (z + w)) == (x + y + z) + w
  {
  }

  lemma IntfCover(b: seq<Octet>)
    requires Framed(b) && b != [] && WalkIntf(b).IntfDone?
    ensures b == ItemBytes(Intf(WalkIntf(b).intf)) + WalkIntf(b).rest
  {
    var s := Run(Next(b), STOPS);
    RunIsMaximal(Next(b), STOPS);
    EpsCover(s.rest, Least(b[4], MAX_EP));
    var r := WalkEps(s.rest, Least(b[4], MAX_EP));
    HeadNext(b);
    Regroup(Head(b), s.run, EpsBytes(r.eps), r.rest);
  }

  /** The parsed configuration accounts for every byte, in order. */
  lemma {:induction false} ItemsCover(b: seq<Octet>)
    requires Framed(b) && Items(b).Done?
    ensures Flatten(Items(b).items) == b
    decreases |b|
  {
    if b != [] {
      if b[1] == DT_INTERFACE {
        var r := WalkIntf(b);
        IntfCover(b);
        ItemsCover(r.rest);
        FlattenCons(Intf(r.intf), Items(r.rest).items);
      } else {
        ItemsCover(Next(b));
        HeadNext(b);
        FlattenCons(Items(b).items[0], Items(Next(b)).items);
      }
    }
  }

  // ---- what each item is made of ----

  predicate OneDesc(d: seq<Octet>) { |d| >= 2 && d[0] == |d| }

  predicate Clean(b: seq<Octet>) { Framed(b) && Avoids(b, STOPS) }

  predicate GoodEp(e: Endpoint) {
    OneDesc(e.desc) && |e.desc| >= 7 && e.desc[1] == DT_ENDPOINT && e.desc[2] % 16 != 0 && Clean(e.extra)
  }

  predicate GoodIntf(i: Interface) {
    && OneDesc(i.desc) && |i.desc| >= 9 && i.desc[1] == DT_INTERFACE && Clean(i.extra)
    && |i.eps| <= Least(i.desc[4], MAX_EP) && forall e | e in i.eps :: GoodEp(e)
  }

  predicate GoodItem(i: Item) {
    match i
    case Assoc(d) => OneDesc(d) && d[1] == DT_ASSOC
    case Other(d) => OneDesc(d) && d[1] != DT_ASSOC && d[1] != DT_INTERFACE
    case Intf(f) => GoodIntf(f)
  }

  lemma FirstEpGood(b: seq<Octet>)
    requires Framed(b) && b != [] && b[1] == DT_ENDPOINT && !BadEp(b)
    ensures GoodEp(Endpoint(Head(b), Run(Next(b), STOPS).run))
  {
    RunIsMaximal(Next(b), STOPS);
  }

  lemma {:induction false} EpsGood(b: seq<Octet>, n: nat)
    requires Framed(b) && WalkEps(b, n).EpDone?
    ensures forall e | e in WalkEps(b, n).eps :: GoodEp(e)
    decreases |b|
  {
    hide GoodEp, BadEp;
    if b != [] && b[1] != DT_INTERFACE && b[1] != DT_ASSOC {
      if b[1] != DT_ENDPOINT {
        EpsGood(Next(b), n);
      } else if n > 0 {
        FirstEpGood(b);
        EpsGood(Run(Next(b), STOPS).rest, n - 1);
      }
    }
  }

  /** Every parsed item has the shape section 9.6 gives it: class-specific regions hold no
      interface, endpoint or association descriptor, and every endpoint is numbered. */
  lemma {:induction false} ItemsGood(b: seq<Octet>)
    requires Framed(b) && Items(b).Done?
    ensures forall i | i in Items(b).items :: GoodItem(i)
    decreases |b|
  {
    if b != [] {
      if b[1] == DT_INTERFACE {
        var s := Run(Next(b), STOPS);
        RunIsMaximal(Next(b), STOPS);
        EpsGood(s.rest, Least(b[4], MAX_EP));
        ItemsGood(WalkIntf(b).rest);
      } else {
        ItemsGood(Next(b));
      }
    }
  }

  // ---- projections ----

  function Intfs(items: seq<Item>): (r: seq<Interface>) {
    if items == [] then []
    else (if items[0].Intf? then [items[0].intf] else []) + Intfs(items[1..])
  }

  function Assocs(items: seq<Item>): (r: seq<seq<Octet>>) {
    if items == [] then []
    else (if items[0].Assoc? then [items[0].desc] else []) + Assocs(items[1..])
  }

  /** The association descriptors met when descriptors are stepped over one at a time. */
  function AssocDescs(b: seq<Octet>): (r: seq<seq<Octet>>)
    requires Framed(b)
    decreases |b|
  {
    if b == [] then []
    else (if b[1] == DT_ASSOC then [Head(b)] else []) + AssocDescs(Next(b))
  }

  // ---- the bytes after parsing: each endpoint count holds what was kept ----

  function Patch(f: Interface): (d: seq<Octet>)
    requires GoodIntf(f)
    ensures |d| == |f.desc|
  {
    f.desc[4 := |f.eps|]
  }

  function PatchedBytes(i: Item): (r: seq<Octet>)
    requires GoodItem(i)
  {
    match i
    case Intf(f) => Patch(f) + f.extra + EpsBytes(f.eps)
    case _ => i.desc
  }

  function FlattenPatched(items: seq<Item>): (r: seq<Octet>)
    requires forall i | i in items :: GoodItem(i)
  {
    if items == [] then [] else PatchedBytes(items[0]) + FlattenPatched(items[1..])
  }

  lemma {:induction false} FlattenPatchedSnoc(items: seq<Item>, i: Item)
    requires GoodItem(i) && forall j | j in items :: GoodItem(j)
    ensures FlattenPatched(items + [i]) == FlattenPatched(items) + PatchedBytes(i)
  {
    if items == [] {
      assert [i][1..] == [];
    } else {
      assert (items + [i])[1..] == items[1..] + [i];
      FlattenPatchedSnoc(items[1..], i);
    }
  }

  // Stepping over the patched bytes one descriptor at a time meets the same associations.

  lemma AssocDescsFront(d: seq<Octet>, r: seq<Octet>)
    requires OneDesc(d) && Framed(r)
    ensures Framed(d + r) && AssocDescs(d + r) == (if d[1] == DT_ASSOC then [d] else []) + AssocDescs(r)
  {
    PutInFront(d, r);
    assert Head(d + r) == d && Next(d + r) == r;
  }

  lemma {:induction false} CleanHasNone(a: seq<Octet>, r: seq<Octet>)
    requires Clean(a) && Framed(r)
    ensures Framed(a + r) && AssocDescs(a + r) == AssocDescs(r)
    decreases |a|
  {
    if a == [] {
      assert a + r == r;
    } else {
      var d, a' := TakeFront(a);
      assert Types(a)[0] == d[1] && Types(a)[1..] == Types(a');
      CleanHasNone(a', r);
      AssocDescsFront(d, a' + r);
      Reassociate(d, a', r);
    }
  }

  lemma {:induction false} EpsHaveNone(eps: seq<Endpoint>, r: seq<Octet>)
    requires Framed(r) && forall e | e in eps :: GoodEp(e)
    ensures Framed(EpsBytes(eps) + r) && AssocDescs(EpsBytes(eps) + r) == AssocDescs(r)
  {
    if eps == [] {
      assert EpsBytes(eps) + r == r;
    } else {
      var e, t := eps[0], EpsBytes(eps[1..]);
      assert GoodEp(e);
      EpsHaveNone(eps[1..], r);
      CleanHasNone(e.extra, t + r);
      AssocDescsFront(e.desc, e.extra + (t + r));
      Regroup(e.desc, e.extra, t, r);
    }
  }

  lemma {:induction false} PatchedAssocs(items: seq<Item>)
    requires forall i | i in items :: GoodItem(i)
    ensures Framed(FlattenPatched(items)) && AssocDescs(FlattenPatched(items)) == Assocs(items)
  {
    if items != [] {
      var r := FlattenPatched(items[1..]);
      PatchedAssocs(items[1..]);
      assert GoodItem(items[0]);
      match items[0]
      case Intf(f) =>
        EpsHaveNone(f.eps, r);
        CleanHasNone(f.extra, EpsBytes(f.eps) + r);
        AssocDescsFront(Patch(f), f.extra + (EpsBytes(f.eps) + r));
        Regroup(Patch(f), f.extra, EpsBytes(f.eps), r);
      case _ =>
        AssocDescsFront(items[0].desc, r);
    }
  }
}
