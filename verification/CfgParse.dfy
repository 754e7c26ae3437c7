/** `__dev_cfg_parse` of core/source/host/core/usbh_dev_enum.c: from the bytes of a configuration
    to endpoint tables and functions. */
module CfgParse {
  import opened Descriptors
  import opened ConfigParser
  import opened ConfigWalk
  import opened FunctionGroups

  // ---- first pass: the interfaces and the association count ----

  function Join(done: seq<Item>, w: Walk): (r: Walk) { if w.Fail? then Fail else Done(done + w.items) }

  /** Every association descriptor has its eight bytes, as the code takes for granted. */
  predicate WholeAssocs(b: seq<Octet>)
    requires Framed(b)
  {
    forall d | d in AssocDescs(b) :: |d| >= 8
  }

  lemma JoinSnoc(done: seq<Item>, i: Item, w: Walk)
    ensures Join(done, Cons(i, w)) == Join(done + [i], w)
  {
    if w.Done? { Reassociate(done, [i], w.items); }
  }

  function IntfOf(i: Item): (r: seq<Interface>) { if i.Intf? then [i.intf] else [] }

  function AssocOf(i: Item): (r: seq<seq<Octet>>) { if i.Assoc? then [i.desc] else [] }

  lemma ProjectCons(h: Item, t: seq<Item>)
    ensures Intfs([h] + t) == IntfOf(h) + Intfs(t)
    ensures Assocs([h] + t) == AssocOf(h) + Assocs(t)
  {
    assert ([h] + t)[1..] == t;
  }

  lemma {:induction false} ProjectSnoc(items: seq<Item>, i: Item)
    ensures Intfs(items + [i]) == Intfs(items) + IntfOf(i)
    ensures Assocs(items + [i]) == Assocs(items) + AssocOf(i)
  {
    if items == [] {
      ProjectCons(i, []);
      assert [] + [i] == [i] + [];
    } else {
      var h, t := items[0], items[1..];
      ProjectSnoc(t, i);
      ProjectCons(h, t);
      ProjectCons(h, t + [i]);
      assert items == [h] + t;
      hide Intfs, Assocs, IntfOf, AssocOf;
      Reassociate([h], t, [i]);
      Reassociate(IntfOf(h), Intfs(t), IntfOf(i));
      Reassociate(AssocOf(h), Assocs(t), AssocOf(i));
    }
  }

  lemma {:induction false} MergedSnoc(ds: seq<seq<Octet>>, d: seq<Octet>)
    ensures Merged(ds + [d]) == Merged(ds) + Field(d, 3) - 1
  {
    if ds == [] {
      assert [d][1..] == [];
    } else {
      assert (ds + [d])[1..] == ds[1..] + [d];
      MergedSnoc(ds[1..], d);
    }
  }

  /** An interface and its endpoints contain no association descriptor. */
  lemma IntfHasNoAssoc(b: seq<Octet>)
    requires Framed(b) && b != [] && b[1] == DT_INTERFACE && WalkIntf(b).IntfDone?
    ensures GoodItem(Intf(WalkIntf(b).intf)) && AssocDescs(b) == AssocDescs(WalkIntf(b).rest)
  {
    var r := WalkIntf(b);
    var f := r.intf;
    var s := Run(Next(b), STOPS);
    RunIsMaximal(Next(b), STOPS);
    EpsGood(s.rest, Least(b[4], MAX_EP));
    IntfCover(b);
    EpsHaveNone(f.eps, r.rest);
    CleanHasNone(f.extra, EpsBytes(f.eps) + r.rest);
    AssocDescsFront(f.desc, f.extra + (EpsBytes(f.eps) + r.rest));
    Regroup(f.desc, f.extra, EpsBytes(f.eps), r.rest);
  }

  ghost predicate AllGood(items: seq<Item>) { forall i | i in items :: GoodItem(i) }

  /** What the first pass has established when it stands at `p` with `rest` to go. */
  ghost predicate PassOne(b: seq<Octet>, items: seq<Item>, rest: seq<Octet>, seen: seq<Octet>,
                          intfs: seq<Interface>, nAssoc: Octet)
    requires Framed(b)
  {
    && Framed(rest) && AllGood(items) && WholeAssocs(rest)
    && Items(b) == Join(items, Items(rest))
    && seen == FlattenPatched(items)
    && intfs == Intfs(items) && nAssoc == Merged(Assocs(items)) % 256
  }

  lemma PassOneStart(b: seq<Octet>)
    requires Framed(b) && WholeAssocs(b)
    ensures PassOne(b, [], b, [], [], 0)
  {
    if Items(b).Done? { assert [] + Items(b).items == Items(b).items; }
  }

  function Added(nAssoc: Octet, i: Item): (r: Octet) {
    if i.Assoc? then (nAssoc + Field(i.desc, 3) - 1) % 256 else nAssoc
  }

  /** `n_assoc_intf += interface_count - 1`, in eight bits. */
  function AddCount(nAssoc: Octet, count: Octet): (r: Octet) { (nAssoc + count - 1) % 256 }

  lemma AddedAssoc(nAssoc: Octet, rest: seq<Octet>)
    requires Framed(rest) && rest != [] && rest[1] == DT_ASSOC && |Head(rest)| >= 4
    ensures Added(nAssoc, DescItem(rest)) == AddCount(nAssoc, rest[3])
  {
  }

  /** Taking one more item off the front of what is left. */
  lemma PassOneAdd(b: seq<Octet>, items: seq<Item>, rest: seq<Octet>, seen: seq<Octet>,
                   intfs: seq<Interface>, nAssoc: Octet, i: Item, rest': seq<Octet>)
    requires Framed(b) && PassOne(b, items, rest, seen, intfs, nAssoc)
    requires GoodItem(i) && Framed(rest') && WholeAssocs(rest') && Items(rest) == Cons(i, Items(rest'))
    ensures PassOne(b, items + [i], rest', seen + PatchedBytes(i), intfs + IntfOf(i), Added(nAssoc, i))
  {
    hide Items, AssocDescs, GoodItem, Framed, WholeAssocs, PatchedBytes, Join, Cons;
    JoinSnoc(items, i, Items(rest'));
    ProjectSnoc(items, i);
    FlattenPatchedSnoc(items, i);
    if i.Assoc? {
      MergedSnoc(Assocs(items), i.desc);
      AddMod(Merged(Assocs(items)), Field(i.desc, 3) - 1);
    }
    assert Assocs(items) + [] == Assocs(items);
  }

  function DescItem(b: seq<Octet>): (r: Item)
    requires Framed(b) && b != []
  {
    if b[1] == DT_ASSOC then Assoc(Head(b)) else Other(Head(b))
  }

  lemma PassOneDesc(b: seq<Octet>, items: seq<Item>, rest: seq<Octet>, seen: seq<Octet>,
                    intfs: seq<Interface>, nAssoc: Octet)
    requires Framed(b) && PassOne(b, items, rest, seen, intfs, nAssoc)
    requires rest != [] && rest[1] != DT_INTERFACE
    ensures DescItem(rest).Assoc? ==> |Head(rest)| >= 8
    ensures PassOne(b, items + [DescItem(rest)], Next(rest), seen + Head(rest), intfs, Added(nAssoc, DescItem(rest)))
  {
    var i := DescItem(rest);
    assert forall d | d in AssocDescs(Next(rest)) :: d in AssocDescs(rest);
    if i.Assoc? { assert Head(rest) in AssocDescs(rest); }
    PassOneAdd(b, items, rest, seen, intfs, nAssoc, i, Next(rest));
    assert intfs + [] == intfs;
  }

  lemma AddMod(x: int, y: int)
    ensures (x % 256 + y) % 256 == (x + y) % 256
  {
  }

  lemma PassOneIntf(b: seq<Octet>, items: seq<Item>, rest: seq<Octet>, seen: seq<Octet>,
                    intfs: seq<Interface>, nAssoc: Octet)
    requires Framed(b) && PassOne(b, items, rest, seen, intfs, nAssoc)
    requires rest != [] && rest[1] == DT_INTERFACE
    ensures WalkIntf(rest).IntfFail? ==> Items(b).Fail?
    ensures WalkIntf(rest).IntfDone? ==> var r := WalkIntf(rest); var f := r.intf;
      && GoodIntf(f) && rest == f.desc + f.extra + EpsBytes(f.eps) + r.rest
      && PassOne(b, items + [Intf(f)], r.rest, seen + PatchedBytes(Intf(f)), intfs + [f], nAssoc)
  {
    hide WalkIntf, AssocDescs;
    var r := WalkIntf(rest);
    if r.IntfDone? {
      IntfHasNoAssoc(rest);
      IntfCover(rest);
      PassOneAdd(b, items, rest, seen, intfs, nAssoc, Intf(r.intf), r.rest);
    }
  }

  lemma PatchInPlace(seen: seq<Octet>, f: Interface, rest: seq<Octet>, r: seq<Octet>)
    requires GoodIntf(f) && rest == f.desc + f.extra + EpsBytes(f.eps) + r
    ensures |PatchedBytes(Intf(f))| == |rest| - |r|
    ensures (seen + rest)[|seen| + 4 := |f.eps|] == (seen + PatchedBytes(Intf(f))) + r
  {
    hide GoodEp;
  }

  /** The first loop of `__dev_cfg_parse`: collects the interfaces in order, sums up the
      association counts in eight bits, and leaves the kept endpoint counts in the buffer. */
  method CollectInterfaces(buf: array<Octet>, ghost b: seq<Octet>)
    returns (ret: int, intfs: seq<Interface>, nAssoc: Octet)
    requires Framed(b) && WholeAssocs(b) && buf[..] == b
    modifies buf
    ensures match Items(b)
      case Fail => ret == -EILLEGAL
      case Done(items) =>
        && ret == 0 && AllGood(items)
        && intfs == Intfs(items) && nAssoc == Merged(Assocs(items)) % 256 && buf[..] == FlattenPatched(items)
  {
    hide PassOne, WalkIntf, GoodIntf, WholeAssocs, Framed, Holds, Items, FlattenPatched, Intfs, Assocs, Merged,
      Next, EpsBytes, PatchedBytes, AllGood, AddCount;
    var p: nat, len: int := 0, buf.Length;
    intfs, nAssoc := [], 0;
    ghost var items: seq<Item> := [];
    ghost var rest, seen: seq<Octet> := b, [];
    PassOneStart(b);
    while len > 0
      invariant Framed(rest) && PassOne(b, items, rest, seen, intfs, nAssoc)
      invariant p == |seen| && len == |rest| && buf[..] == seen + rest
      decreases len
    {
      HeldAfter(buf, seen, rest);
      HoldsNext(buf, p, rest);
      HeadNext(rest);
      if buf[p] > len {
        break;
      }
      var step: int;
      if buf[p + 1] == DT_INTERFACE {
        PassOneIntf(b, items, rest, seen, intfs, nAssoc);
        var intf;
        step, intf := IntfInit(buf, p, len, rest);
        if step < 0 {
          return step, intfs, nAssoc;
        }
        ghost var r := WalkIntf(rest);
        PatchInPlace(seen, r.intf, rest, r.rest);
        intfs := intfs + [intf];
        items, rest, seen := items + [Intf(r.intf)], r.rest, seen + PatchedBytes(Intf(r.intf));
      } else {
        PassOneDesc(b, items, rest, seen, intfs, nAssoc);
        if buf[p + 1] == DT_ASSOC {
          HoldsByte(buf, p, rest, 3);
          AddedAssoc(nAssoc, rest);
          nAssoc := AddCount(nAssoc, buf[p + 3]);
        }
        step := buf[p];
        Reassociate(seen, Head(rest), Next(rest));
        items, rest, seen := items + [DescItem(rest)], Next(rest), seen + Head(rest);
      }
      len := len - step;
      p := p + step;
    }
    PassOneEnd(b, items, rest, seen, intfs, nAssoc);
    ret := 0;
    assert seen + rest == seen;
  }

  lemma HeldAfter(buf: array<Octet>, seen: seq<Octet>, rest: seq<Octet>)
    requires buf[..] == seen + rest
    ensures Holds(buf, |seen|, rest)
  {
    forall k | 0 <= k < |rest| ensures buf[|seen| + k] == rest[k] { assert buf[..][|seen| + k] == rest[k]; }
  }

  lemma PassOneEnd(b: seq<Octet>, items: seq<Item>, rest: seq<Octet>, seen: seq<Octet>,
                   intfs: seq<Interface>, nAssoc: Octet)
    requires Framed(b) && PassOne(b, items, rest, seen, intfs, nAssoc) && rest == []
    ensures Items(b) == Done(items) && AllGood(items)
    ensures intfs == Intfs(items) && nAssoc == Merged(Assocs(items)) % 256 && seen == FlattenPatched(items)
  {
    assert items + [] == items;
  }

  // ---- endpoint tables ----

  function Alt0Eps(intfs: seq<Interface>): (r: seq<Endpoint>) {
    if intfs == [] then []
    else (if Field(intfs[0].desc, 3) == 0 then intfs[0].eps else []) + Alt0Eps(intfs[1..])
  }

  predicate IsIn(e: Endpoint) { Field(e.desc, 2) >= 128 }

  function EpNum(e: Endpoint): (r: nat) { Field(e.desc, 2) % 16 }

  /** The last endpoint with this direction and number, if any. */
  function LastEp(eps: seq<Endpoint>, dirIn: bool, num: nat, otherwise: Option<Endpoint>): (r: Option<Endpoint>) {
    if eps == [] then otherwise
    else
      var e := eps[|eps| - 1];
      if IsIn(e) == dirIn && EpNum(e) == num then Some(e) else LastEp(eps[..|eps| - 1], dirIn, num, otherwise)
  }

  ghost predicate Tables(epIn: array<Option<Endpoint>>, epOut: array<Option<Endpoint>>, eps: seq<Endpoint>,
                         in0: seq<Option<Endpoint>>, out0: seq<Option<Endpoint>>)
    reads epIn, epOut
  {
    && epIn.Length == epOut.Length == |in0| == |out0| == 16
    && forall k | 0 <= k < 16 ::
         epIn[k] == LastEp(eps, true, k, in0[k]) && epOut[k] == LastEp(eps, false, k, out0[k])
  }

  /** Byte 2 of an endpoint descriptor: the direction in the highest bit, the number in the low four. */
  predicate SameSlot(e: Endpoint, f: Endpoint) {
    (Field(e.desc, 2) < 0x80 <==> Field(f.desc, 2) < 0x80) && Field(e.desc, 2) % 16 == Field(f.desc, 2) % 16
  }

  lemma {:induction false} LastEpIs(eps: seq<Endpoint>, i: nat, otherwise: Option<Endpoint>)
    requires i < |eps| && forall j | i < j < |eps| :: !SameSlot(eps[i], eps[j])
    ensures Field(eps[i].desc, 2) >= 0x80 ==> LastEp(eps, true, Field(eps[i].desc, 2) % 16, otherwise) == Some(eps[i])
    ensures Field(eps[i].desc, 2) < 0x80 ==> LastEp(eps, false, Field(eps[i].desc, 2) % 16, otherwise) == Some(eps[i])
    decreases |eps|
  {
    var l := |eps| - 1;
    if i < l {
      assert !SameSlot(eps[i], eps[l]);
      LastEpIs(eps[..l], i, otherwise);
    }
  }

  lemma {:induction false} LastEpNone(eps: seq<Endpoint>, k: nat, otherwise: Option<Endpoint>)
    ensures (forall e | e in eps :: !(Field(e.desc, 2) >= 0x80 && Field(e.desc, 2) % 16 == k)) ==>
      LastEp(eps, true, k, otherwise) == otherwise
    ensures (forall e | e in eps :: !(Field(e.desc, 2) < 0x80 && Field(e.desc, 2) % 16 == k)) ==>
      LastEp(eps, false, k, otherwise) == otherwise
    decreases |eps|
  {
    if eps != [] { LastEpNone(eps[..|eps| - 1], k, otherwise); }
  }

  lemma {:induction false} Alt0Members(xs: seq<Interface>, e: Endpoint)
    ensures e in Alt0Eps(xs) <==> exists x :: x in xs && Field(x.desc, 3) == 0 && e in x.eps
  {
    if xs != [] {
      Alt0Members(xs[1..], e);
      assert xs == [xs[0]] + xs[1..];
    }
  }

  /** What the tables hold, by the address byte: the endpoint registered last for a direction and a
      number is in the table of its direction at its number. */
  lemma EntryIs(epIn: array<Option<Endpoint>>, epOut: array<Option<Endpoint>>, eps: seq<Endpoint>,
                in0: seq<Option<Endpoint>>, out0: seq<Option<Endpoint>>, i: nat)
    requires Tables(epIn, epOut, eps, in0, out0)
    requires i < |eps| && forall j | i < j < |eps| :: !SameSlot(eps[i], eps[j])
    ensures Field(eps[i].desc, 2) >= 0x80 ==> epIn[Field(eps[i].desc, 2) % 16] == Some(eps[i])
    ensures Field(eps[i].desc, 2) < 0x80 ==> epOut[Field(eps[i].desc, 2) % 16] == Some(eps[i])
  {
    hide LastEp, SameSlot;
    var k := Field(eps[i].desc, 2) % 16;
    LastEpIs(eps, i, in0[k]);
    LastEpIs(eps, i, out0[k]);
  }

  /** An entry for which there is no endpoint is as before. */
  lemma EntryIsOld(epIn: array<Option<Endpoint>>, epOut: array<Option<Endpoint>>, eps: seq<Endpoint>,
                   in0: seq<Option<Endpoint>>, out0: seq<Option<Endpoint>>, k: nat)
    requires Tables(epIn, epOut, eps, in0, out0) && k < 16
    ensures (forall e | e in eps :: !(Field(e.desc, 2) >= 0x80 && Field(e.desc, 2) % 16 == k)) ==> epIn[k] == in0[k]
    ensures (forall e | e in eps :: !(Field(e.desc, 2) < 0x80 && Field(e.desc, 2) % 16 == k)) ==> epOut[k] == out0[k]
  {
    hide LastEp;
    LastEpNone(eps, k, in0[k]);
    LastEpNone(eps, k, out0[k]);
  }

  method RegisterOne(e: Endpoint, epIn: array<Option<Endpoint>>, epOut: array<Option<Endpoint>>,
                     ghost eps: seq<Endpoint>,
                     ghost in0: seq<Option<Endpoint>>, ghost out0: seq<Option<Endpoint>>)
    requires epIn != epOut && Tables(epIn, epOut, eps, in0, out0)
    modifies epIn, epOut
    ensures Tables(epIn, epOut, eps + [e], in0, out0)
  {
    hide IsIn, EpNum;
    NumBound(e);
    assert (eps + [e])[..|eps|] == eps;
    if IsIn(e) { epIn[EpNum(e)] := Some(e); } else { epOut[EpNum(e)] := Some(e); }
  }

  lemma NumBound(e: Endpoint)
    ensures EpNum(e) < 16
  {
  }

  /** The endpoints of default settings, indexed by number and direction; a later one replaces
      an earlier one with the same address. */
  method RegisterEndpoints(intfs: seq<Interface>, epIn: array<Option<Endpoint>>, epOut: array<Option<Endpoint>>)
    requires epIn.Length == 16 && epOut.Length == 16 && epIn != epOut
    modifies epIn, epOut
    ensures Tables(epIn, epOut, Alt0Eps(intfs), old(epIn[..]), old(epOut[..]))
  {
    hide Tables, IsIn, EpNum;
    ghost var in0, out0 := epIn[..], epOut[..];
    ghost var done: seq<Endpoint> := [];
    TablesStart(epIn, epOut);
    var n := 0;
    while n < |intfs|
      invariant n <= |intfs| && Alt0Eps(intfs) == done + Alt0Eps(intfs[n..])
      invariant Tables(epIn, epOut, done, in0, out0)
    {
      var f := intfs[n];
      ghost var done0 := done;
      var i := 0;
      assert done0 + f.eps[..0] == done0;
      while i < |f.eps|
        invariant i <= |f.eps|
        invariant done == if Field(f.desc, 3) == 0 then done0 + f.eps[..i] else done0
        invariant Tables(epIn, epOut, done, in0, out0)
      {
        if Field(f.desc, 3) == 0 {
          RegisterOne(f.eps[i], epIn, epOut, done, in0, out0);
          done := done + [f.eps[i]];
          assert f.eps[..i + 1] == f.eps[..i] + [f.eps[i]];
        }
        i := i + 1;
      }
      assert intfs[n..][1..] == intfs[n + 1..];
      if Field(f.desc, 3) == 0 {
        assert f.eps[..i] == f.eps;
        Reassociate(done0, f.eps, Alt0Eps(intfs[n + 1..]));
      } else {
        assert [] + Alt0Eps(intfs[n + 1..]) == Alt0Eps(intfs[n + 1..]);
      }
      n := n + 1;
    }
    assert done + [] == done;
  }

  lemma TablesStart(epIn: array<Option<Endpoint>>, epOut: array<Option<Endpoint>>)
    requires epIn.Length == 16 && epOut.Length == 16
    ensures Tables(epIn, epOut, [], epIn[..], epOut[..])
  {
  }

  // ---- second pass: functions ----

  /** Moves every listed interface in range to entry `i`, stepping safely over the list. */
  method MoveInRange(list: seq<Interface>, funs: array<Func>, i: nat,
                     ghost d: seq<Octet>) returns (left: seq<Interface>)
    requires i < funs.Length && funs[i] == AssocFunc(d, [])
    modifies funs
    ensures left == Drop(list, Range(d))
    ensures funs[i] == AssocFunc(d, Pick(list, Range(d)))
    ensures forall k | 0 <= k < funs.Length && k != i :: funs[k] == old(funs[k])
  {
    hide Pick, Drop, Range, Grow;
    left := list;
    ghost var head, kept: seq<Interface>, todo := [], [], list;
    var pos := 0;
    PickNothing([], Range(d));
    while pos < |left|
      invariant pos == |kept| && left == kept + todo && list == head + todo
      invariant kept == Drop(head, Range(d)) && funs[i] == AssocFunc(d, Pick(head, Range(d)))
      invariant forall k | 0 <= k < funs.Length && k != i :: funs[k] == old(funs[k])
      decreases |todo|
    {
      var x := left[pos];
      ghost var todo' := todo[1..];
      PickSnoc(head, x, Range(d));
      InRange(d, Num(x));
      Unlink(kept, x, todo, todo');
      Reassociate(head, [x], todo');
      Reassociate(kept, [x], todo');
      if funs[i].first <= Num(x) < funs[i].first + funs[i].nType {
        left := left[..pos] + left[pos + 1..];
        GrowAssoc(d, Pick(head, Range(d)), x);
        funs[i] := Grow(funs[i], x);
      } else {
        kept := kept + [x];
        pos := pos + 1;
      }
      head, todo := head + [x], todo';
    }
    assert kept + todo == kept && head + todo == head;
  }

  lemma Unlink(kept: seq<Interface>, x: Interface, todo: seq<Interface>, todo': seq<Interface>)
    requires todo != [] && (kept + todo)[|kept|] == x && todo' == todo[1..]
    ensures todo == [x] + todo'
    ensures (kept + todo)[..|kept|] + (kept + todo)[|kept| + 1..] == kept + todo'
  {
  }

  lemma GrowAssoc(d: seq<Octet>, xs: seq<Interface>, x: Interface)
    ensures Grow(AssocFunc(d, xs), x) == AssocFunc(d, xs + [x])
  {
  }

  lemma InRange(d: seq<Octet>, n: Octet)
    ensures n as int in Range(d) <==> Field(d, 2) <= n < Field(d, 2) + Field(d, 3)
  {
  }

  /** The innermost loop: a place for one left-over interface, from entry `i` on. */
  method PlaceInterface(funs: array<Func>, i: nat, x: Interface)
    requires i <= funs.Length
    modifies funs
    ensures funs[i..] == Place(old(funs[i..]), x) && funs[..i] == old(funs[..i])
  {
    hide Place, Grow, Open;
    var j := i;
    while j < funs.Length
      invariant i <= j <= funs.Length && funs[..] == old(funs[..])
      invariant forall k | i <= k < j :: funs[k].nIntf > 0 && funs[k].first != Num(x)
    {
      if funs[j].nIntf > 0 {
        if funs[j].first == Num(x) {
          PlaceAt(funs[i..], x, j - i);
          funs[j] := Grow(funs[j], x);
          return;
        }
      } else if funs[j].nIntf == 0 {
        PlaceAt(funs[i..], x, j - i);
        funs[j] := Open(funs[j], x);
        return;
      }
      j := j + 1;
    }
    PlaceAt(funs[i..], x, j - i);
  }

  /** The claims made so far, and those still to come. */
  ghost predicate ClaimsSoFar(all: Claims, funs: seq<Func>, ds: seq<seq<Octet>>, list: seq<Interface>, room: nat) {
    var c := Claim(ds, list, room);
    all == Claims(funs + c.funs, c.left)
  }

  lemma ClaimsStart(ds: seq<seq<Octet>>, xs: seq<Interface>, room: nat)
    ensures ClaimsSoFar(Claim(ds, xs, room), [], ds, xs, room)
  {
    hide Claim;
    var c := Claim(ds, xs, room);
    assert [] + c.funs == c.funs;
  }

  lemma ClaimsNext(all: Claims, funs: seq<Func>, rest: seq<Octet>, list: seq<Interface>, room: nat)
    requires Framed(rest) && rest != [] && room > 0 && ClaimsSoFar(all, funs, AssocDescs(rest), list, room)
    ensures rest[1] != DT_ASSOC ==> ClaimsSoFar(all, funs, AssocDescs(Next(rest)), list, room)
    ensures rest[1] == DT_ASSOC ==> var d := Head(rest);
      ClaimsSoFar(all, funs + [AssocFunc(d, Pick(list, Range(d)))], AssocDescs(Next(rest)), Drop(list, Range(d)),
        room - 1)
  {
    hide Pick, Drop, Range;
    var ds, d := AssocDescs(Next(rest)), Head(rest);
    if rest[1] == DT_ASSOC {
      assert AssocDescs(rest) == [d] + ds;
      assert ([d] + ds)[1..] == ds;
      Reassociate(funs, [AssocFunc(d, Pick(list, Range(d)))], Claim(ds, Drop(list, Range(d)), room - 1).funs);
    } else {
      assert AssocDescs(rest) == [] + ds == ds;
    }
  }

  lemma ClaimsEnd(all: Claims, funs: seq<Func>, ds: seq<seq<Octet>>, list: seq<Interface>, room: nat)
    requires ClaimsSoFar(all, funs, ds, list, room) && (ds == [] || room == 0)
    ensures all == Claims(funs, list)
  {
    assert funs + [] == funs;
  }

  lemma SizeOfTable(numIntfs: Octet, ds: seq<seq<Octet>>, nAssoc: Octet)
    requires nAssoc == Merged(ds) % 256
    ensures MinusMod(numIntfs, nAssoc) == TableSize(numIntfs, ds)
  {
  }

  /** The loop over the association descriptors: entries `0..i` filled, the rest of the list left. */
  method ClaimAssocs(buf: array<Octet>, intfs: seq<Interface>, funs: array<Func>, ghost b: seq<Octet>)
    returns (i: nat, list: seq<Interface>)
    requires Framed(b) && WholeAssocs(b) && buf[..] == b
    requires forall k | 0 <= k < funs.Length :: funs[k] == EMPTY
    modifies funs
    ensures i <= funs.Length && Claim(AssocDescs(b), intfs, funs.Length) == Claims(funs[..i], list)
    ensures forall k | i <= k < funs.Length :: funs[k] == EMPTY
  {
    hide WholeAssocs, Framed, Claim, ClaimsSoFar, Holds, Pick, Drop, Range;
    ghost var all := Claim(AssocDescs(b), intfs, funs.Length);
    ClaimsStart(AssocDescs(b), intfs, funs.Length);
    list := intfs;
    ghost var rest := b;
    var p: nat, len: int := 0, buf.Length;
    i := 0;
    WholeHeld(buf, b);
    assert funs[..0] == [];
    while len > 0
      invariant Framed(rest) && WholeAssocs(rest) && |rest| == len && Holds(buf, p, rest)
      invariant i <= funs.Length && ClaimsSoFar(all, funs[..i], AssocDescs(rest), list, funs.Length - i)
      invariant forall k | i <= k < funs.Length :: funs[k] == EMPTY
      decreases len
    {
      HoldsNext(buf, p, rest);
      if buf[p] > len {
        break;
      }
      if i >= funs.Length {
        break;
      }
      ClaimsNext(all, funs[..i], rest, list, funs.Length - i);
      StillWhole(rest);
      if buf[p + 1] == DT_ASSOC {
        AssocFields(buf, p, rest);
        funs[i] := Func(DT_ASSOC, buf[p + 2], buf[p + 4], buf[p + 5], buf[p + 6], buf[p + 3], 0, []);
        ghost var before := funs[..i];
        list := MoveInRange(list, funs, i, Head(rest));
        assert funs[..i + 1] == before + [funs[i]];
        i := i + 1;
      }
      len := len - buf[p];
      p := p + buf[p];
      rest := Next(rest);
    }
    NoDescriptors(rest);
    ClaimsEnd(all, funs[..i], AssocDescs(rest), list, funs.Length - i);
  }

  /** The loop over the interfaces no association took. */
  method PlaceLeft(list: seq<Interface>, funs: array<Func>, i: nat)
    requires i <= funs.Length
    modifies funs
    ensures funs[..] == old(funs[..i]) + PlaceAll(old(funs[i..]), list)
  {
    hide Place, PlaceAll;
    ghost var head, tail := funs[..i], funs[i..];
    var k := 0;
    assert list[0..] == list;
    while k < |list|
      invariant k <= |list| && funs[..i] == head
      invariant PlaceAll(tail, list) == PlaceAll(funs[i..], list[k..])
    {
      PlaceAllStep(funs[i..], list, k);
      PlaceInterface(funs, i, list[k]);
      k := k + 1;
    }
    PlaceAllDone(funs[i..], list[k..]);
    assert funs[..] == funs[..i] + funs[i..];
  }

  /** The second half of `__dev_cfg_parse`: the associations first, then one entry for each
      remaining interface number. */
  method GroupInterfaces(buf: array<Octet>, numIntfs: Octet, nAssoc: Octet, intfs: seq<Interface>, ghost b: seq<Octet>)
    returns (funs: array<Func>)
    requires Framed(b) && WholeAssocs(b) && buf[..] == b && nAssoc == Merged(AssocDescs(b)) % 256
    ensures fresh(funs) && funs[..] == Functions(numIntfs, AssocDescs(b), intfs)
  {
    hide WholeAssocs, Framed, Claim, PlaceAll, Merged, TableSize, AssocDescs, MinusMod;
    SizeOfTable(numIntfs, AssocDescs(b), nAssoc);
    var n := MinusMod(numIntfs, nAssoc);
    funs := new Func[n](_ => EMPTY);
    var i, list := ClaimAssocs(buf, intfs, funs, b);
    ghost var c := Claim(AssocDescs(b), intfs, n);
    assert c.funs == funs[..i] && funs[i..] == Blank(n - i);
    PlaceLeft(list, funs, i);
  }

  function MinusMod(x: Octet, y: Octet): (r: Octet) { (x - y) % 256 }

  lemma PlaceAllStep(fs: seq<Func>, list: seq<Interface>, k: nat)
    requires k < |list|
    ensures PlaceAll(fs, list[k..]) == PlaceAll(Place(fs, list[k]), list[k + 1..])
  {
    hide Place;
    assert list[k..][1..] == list[k + 1..];
  }

  lemma PlaceAllDone(fs: seq<Func>, list: seq<Interface>)
    requires list == []
    ensures PlaceAll(fs, list) == fs
  {
  }

  lemma NoDescriptors(rest: seq<Octet>)
    requires Framed(rest)
    ensures rest == [] ==> AssocDescs(rest) == []
  {
  }

  lemma WholeHeld(buf: array<Octet>, b: seq<Octet>)
    requires buf[..] == b
    ensures Holds(buf, 0, b) && |b| == buf.Length
  {
    forall k | 0 <= k < |b| ensures buf[0 + k] == b[k] { assert buf[..][k] == b[k]; }
  }

  lemma StillWhole(rest: seq<Octet>)
    requires Framed(rest) && rest != [] && WholeAssocs(rest)
    ensures WholeAssocs(Next(rest)) && (rest[1] == DT_ASSOC ==> rest[0] >= 8)
  {
    assert forall d | d in AssocDescs(Next(rest)) :: d in AssocDescs(rest);
    if rest[1] == DT_ASSOC { assert Head(rest) in AssocDescs(rest); }
  }

  lemma AssocFields(buf: array<Octet>, p: nat, rest: seq<Octet>)
    requires Framed(rest) && rest != [] && rest[0] >= 8 && Holds(buf, p, rest)
    ensures p + 8 <= buf.Length
    ensures AssocFunc(Head(rest), []) == Func(DT_ASSOC, buf[p + 2], buf[p + 4], buf[p + 5], buf[p + 6],
      buf[p + 3], 0, [])
  {
    HoldsByte(buf, p, rest, 2);
    HoldsByte(buf, p, rest, 3);
    HoldsByte(buf, p, rest, 4);
    HoldsByte(buf, p, rest, 5);
    HoldsByte(buf, p, rest, 6);
  }

  // ---- the whole parse ----

  /** What the callers of `__dev_cfg_parse` guarantee: whole descriptors that add up to the
      buffer, a full configuration descriptor first, whole association descriptors, and an
      interface or association somewhere, where the search for extra bytes ends. */
  ghost predicate Acceptable(b: seq<Octet>) {
    && Framed(b) && b != [] && b[0] >= 9 && b[1] == DT_CONFIG
    && WholeAssocs(b) && Run(Next(b), CFG_STOPS).rest != []
  }

  lemma ConfigFirst(b: seq<Octet>, items: seq<Item>)
    requires Framed(b) && b != [] && b[0] >= 9 && b[1] == DT_CONFIG && Items(b) == Done(items) && AllGood(items)
    ensures |FlattenPatched(items)| > 4 && FlattenPatched(items)[4] == b[4]
  {
    assert items[0] == Other(Head(b));
  }

  /** The host's view of a device: endpoint tables, configuration extras and functions. */
  class UsbDevice {
    const epIn: array<Option<Endpoint>>
    const epOut: array<Option<Endpoint>>
    var cfgExtra: seq<Octet>
    var funs: array<Func>

    ghost predicate Valid()
      reads this
    {
      epIn.Length == 16 && epOut.Length == 16 && epIn != epOut
    }

    constructor ()
      ensures Valid() && fresh(epIn) && fresh(epOut)
      ensures forall k | 0 <= k < 16 :: epIn[k] == None && epOut[k] == None
    {
      epIn := new Option<Endpoint>[16](_ => None);
      epOut := new Option<Endpoint>[16](_ => None);
      cfgExtra := [];
      funs := new Func[0];
    }

    /** `__dev_cfg_parse`: fails exactly when some interface or endpoint descriptor is illegal,
        and otherwise sets up tables and functions for all that was sent. */
    method CfgParse(buf: array<Octet>, ghost b: seq<Octet>) returns (ret: int)
      requires Valid() && Acceptable(b) && buf[..] == b
      modifies this, buf, epIn, epOut
      ensures Valid()
      ensures match Items(b)
        case Fail => ret == -EILLEGAL
        case Done(items) =>
          && ret == 0 && AllGood(items) && buf[..] == FlattenPatched(items)
          && cfgExtra == Run(Next(b), CFG_STOPS).run
          && Tables(epIn, epOut, Alt0Eps(Intfs(items)), old(epIn[..]), old(epOut[..]))
          && fresh(funs) && funs[..] == Functions(b[4], Assocs(items), Intfs(items))
    {
      hide WholeAssocs, Holds, Tables, Items, Functions, Alt0Eps, Intfs, Assocs, Merged, Run;
      WholeHeld(buf, b);
      HoldsNext(buf, 0, b);
      var i := NextDescGet(buf, buf[0], buf.Length, DT_ASSOC, DT_INTERFACE, 0, Next(b));
      SliceHeld(buf, buf[0], Run(Next(b), CFG_STOPS).run, i);
      cfgExtra := buf[buf[0]..buf[0] + i];
      var intfs, nAssoc;
      ret, intfs, nAssoc := CollectInterfaces(buf, b);
      if ret < 0 {
        return;
      }
      ghost var items := Items(b).items;
      RegisterEndpoints(intfs, epIn, epOut);
      ConfigFirst(b, items);
      PatchedAssocs(items);
      PatchedWhole(b, items);
      funs := GroupInterfaces(buf, buf[4], nAssoc, intfs, FlattenPatched(items));
      return 0;
    }
  }

  lemma PatchedWhole(b: seq<Octet>, items: seq<Item>)
    requires Framed(b) && WholeAssocs(b) && Items(b) == Done(items) && AllGood(items)
    ensures Framed(FlattenPatched(items)) && WholeAssocs(FlattenPatched(items))
  {
    PatchedAssocs(items);
    ItemAssocs(b, items);
  }

  lemma {:induction false} ItemAssocs(b: seq<Octet>, items: seq<Item>)
    requires Framed(b) && Items(b) == Done(items)
    ensures AssocDescs(b) == Assocs(items)
    decreases |b|
  {
    if b != [] {
      if b[1] == DT_INTERFACE {
        IntfHasNoAssoc(b);
        ItemAssocs(WalkIntf(b).rest, items[1..]);
      } else {
        ItemAssocs(Next(b), items[1..]);
      }
    }
  }
}
