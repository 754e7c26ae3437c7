/** Which bytes `__dev_cfg_parse` of core/source/host/core/usbh_dev_enum.c takes, and as what, told
    from the descriptors alone: section 9.6 of USB 2.0, read with the limits of the code. */
module ConfigGrammar {
  import opened Descriptors
  import opened ConfigParser
  import T = RoundTrip

  /** Class-specific descriptors: whole ones, no interface, endpoint or association among them. */
  predicate Plain(b: seq<Octet>) { Framed(b) && forall t | t in Types(b) :: t != 4 && t != 5 && t != 11 }

  /** An endpoint of at least seven bytes, numbered 1 to 15, with what follows it. */
  predicate EpShaped(e: Endpoint) {
    && |e.desc| >= 7 && e.desc[0] == |e.desc| && e.desc[1] == 5 && e.desc[2] % 16 != 0 && Plain(e.extra)
  }

  /** An interface of at least nine bytes, with at most 32 endpoints, and no more than it says. */
  predicate IntfShaped(i: Interface) {
    && |i.desc| >= 9 && i.desc[0] == |i.desc| && i.desc[1] == 4 && Plain(i.extra)
    && |i.eps| <= 32 && |i.eps| <= i.desc[4] as nat && forall k | 0 <= k < |i.eps| :: EpShaped(i.eps[k])
  }

  predicate ItemShaped(i: Item) {
    match i
    case Intf(f) => IntfShaped(f)
    case Assoc(d) => |d| >= 2 && d[0] == |d| && d[1] == 11
    case Other(d) => |d| >= 2 && d[0] == |d| && d[1] != 4 && d[1] != 11
  }

  /** No endpoint more is taken. */
  predicate Full(i: Interface) requires |i.desc| >= 9 { |i.eps| == 32 || |i.eps| == i.desc[4] as nat }

  /** Behind an interface come another one, an association, or an endpoint too many. */
  predicate Follows(i: Item, rest: seq<Item>)
    requires ItemShaped(i) && (rest == [] || ItemShaped(rest[0]))
  {
    i.Intf? && rest != [] && rest[0].Other? ==> Full(i.intf) && rest[0].desc[1] == 5
  }

  predicate Legal(items: seq<Item>) {
    || items == []
    || (ItemShaped(items[0]) && Legal(items[1..]) && Follows(items[0], items[1..]))
  }

  // ---- legal items are read as such ----

  lemma PlainClean(b: seq<Octet>)
    ensures Plain(b) <==> Clean(b)
  {
  }

  /** Where an interface with `k` of at most `n` endpoints can end. */
  predicate EndsAt(r: seq<Octet>, k: nat, n: nat)
    requires Framed(r)
  {
    r == [] || r[1] == 4 || r[1] == 11 || (r[1] == 5 && k == n)
  }

  lemma EpTaken(e: Endpoint, t: seq<Octet>, n: nat)
    requires EpShaped(e) && n > 0 && Framed(t) && (t == [] || StartsIn(t, STOPS)) && WalkEps(t, n - 1).EpDone?
    ensures Framed(e.desc + (e.extra + t)) && StartsIn(e.desc + (e.extra + t), STOPS)
    ensures var w := WalkEps(t, n - 1); WalkEps(e.desc + (e.extra + t), n) == EpDone([e] + w.eps, w.rest)
  {
    PlainClean(e.extra);
    RunOver(e.extra, t, STOPS);
    T.FrontParts(e.desc, e.extra + t);
  }

  lemma {:induction false} EpsTaken(eps: seq<Endpoint>, r: seq<Octet>, n: nat)
    requires (forall k | 0 <= k < |eps| :: EpShaped(eps[k])) && |eps| <= n && Framed(r) && EndsAt(r, |eps|, n)
    ensures var b := EpsBytes(eps) + r;
      Framed(b) && (b == [] || StartsIn(b, STOPS)) && WalkEps(b, n) == EpDone(eps, r)
    decreases |eps|
  {
    hide WalkEps, EpShaped, Framed, StartsIn, EndsAt, EpsBytes;
    if eps == [] {
      NoneTaken(r, n);
    } else {
      var e, tail := eps[0], eps[1..];
      assert eps == [e] + tail;
      EndsAtNext(r, |eps|, n);
      EpsTaken(tail, r, n - 1);
      EpsJoin(e, tail, r, n);
    }
  }

  lemma EpsJoin(e: Endpoint, tail: seq<Endpoint>, r: seq<Octet>, n: nat)
    requires EpShaped(e) && n > 0
    requires var t := EpsBytes(tail) + r;
      Framed(t) && (t == [] || StartsIn(t, STOPS)) && WalkEps(t, n - 1) == EpDone(tail, r)
    ensures var b := EpsBytes([e] + tail) + r;
      Framed(b) && StartsIn(b, STOPS) && WalkEps(b, n) == EpDone([e] + tail, r)
  {
    var t := EpsBytes(tail) + r;
    EpsBytesCons(e, tail);
    Regroup(e.desc, e.extra, EpsBytes(tail), r);
    hide WalkEps, EpShaped, Framed, StartsIn, EpsBytes;
    EpTaken(e, t, n);
  }

  lemma NoneTaken(r: seq<Octet>, n: nat)
    requires Framed(r) && EndsAt(r, 0, n)
    ensures EpsBytes([]) + r == r && (r == [] || StartsIn(r, STOPS)) && WalkEps(r, n) == EpDone([], r)
  {
  }

  lemma EndsAtNext(r: seq<Octet>, k: nat, n: nat)
    requires Framed(r) && 0 < k <= n
    ensures EndsAt(r, k, n) <==> EndsAt(r, k - 1, n - 1)
  {
  }

  lemma IntfTaken(f: Interface, r: seq<Octet>)
    requires IntfShaped(f) && Framed(r) && EndsAt(r, |f.eps|, Least(f.desc[4], 32))
    ensures var b := ItemBytes(Intf(f)) + r; Framed(b) && b != [] && b[1] == 4 && WalkIntf(b) == IntfDone(f, r)
  {
    EpsTaken(f.eps, r, Least(f.desc[4], 32));
    PlainClean(f.extra);
    var t := EpsBytes(f.eps) + r;
    T.IntfFront(f.desc, f.extra, t);
    Regroup(f.desc, f.extra, EpsBytes(f.eps), r);
    hide WalkIntf, WalkEps;
  }

  lemma FirstType(items: seq<Item>)
    requires Legal(items) && items != []
    ensures Flatten(items) != [] && |Flatten(items)| >= 2
    ensures Flatten(items)[1] == match items[0] case Intf(_) => 4 case Assoc(_) => 11 case Other(d) => d[1]
  {
  }

  /** Every legal list of items is read back from its bytes. */
  lemma {:induction false} ItemsTaken(items: seq<Item>)
    requires Legal(items)
    ensures Framed(Flatten(items)) && Items(Flatten(items)) == Done(items)
    decreases |items|
  {
    hide WalkIntf, ItemBytes, ItemShaped, Follows;
    if items != [] {
      var r := Flatten(items[1..]);
      ItemsTaken(items[1..]);
      FirstTaken(items);
      assert items == [items[0]] + items[1..];
    }
  }

  lemma FirstTaken(items: seq<Item>)
    requires Legal(items) && items != []
    requires var r := Flatten(items[1..]); Framed(r) && Items(r) == Done(items[1..])
    ensures Framed(Flatten(items)) && Items(Flatten(items)) == Done([items[0]] + items[1..])
  {
    var i, r := items[0], Flatten(items[1..]);
    if items[1..] != [] { FirstType(items[1..]); }
    if i.Intf? {
      hide WalkIntf, WalkEps;
      IntfTaken(i.intf, r);
    } else {
      T.FrontParts(i.desc, r);
    }
  }

  // ---- whatever is read is legal ----

  lemma {:induction false} EpsEnd(b: seq<Octet>, n: nat)
    requires Framed(b) && (b == [] || StartsIn(b, STOPS)) && WalkEps(b, n).EpDone?
    ensures var w := WalkEps(b, n); EndsAt(w.rest, |w.eps|, n)
    decreases |b|
  {
    if b != [] && b[1] == 5 && n > 0 {
      var e, rest := EpStep(b, n);
      hide WalkEps, Framed;
      EpsEnd(rest, n - 1);
    }
  }

  lemma GoodShaped(i: Item)
    ensures GoodItem(i) <==> ItemShaped(i)
  {
    if i.Intf? {
      PlainClean(i.intf.extra);
      forall e | e in i.intf.eps ensures GoodEp(e) <==> EpShaped(e) { PlainClean(e.extra); }
      hide GoodEp, EpShaped, Clean, Plain;
    }
  }

  lemma {:induction false} ItemsLegal(b: seq<Octet>)
    requires Framed(b) && Items(b).Done?
    ensures Legal(Items(b).items)
    decreases |b|
  {
    if b != [] {
      ItemsGood(b);
      var items := Items(b).items;
      forall i | i in items ensures ItemShaped(i) { GoodShaped(i); }
      if b[1] == 4 {
        var r := WalkIntf(b);
        IntfEnd(b);
        ItemsLegal(r.rest);
        hide WalkIntf, ItemShaped;
        NextItem(r.rest);
      } else {
        ItemsLegal(Next(b));
        hide ItemShaped;
      }
    }
  }

  lemma IntfEnd(b: seq<Octet>)
    requires Framed(b) && b != [] && b[1] == 4 && WalkIntf(b).IntfDone?
    ensures var r := WalkIntf(b); EndsAt(r.rest, |r.intf.eps|, Least(r.intf.desc[4], 32))
  {
    var s := Run(Next(b), STOPS);
    RunIsMaximal(Next(b), STOPS);
    EpsEnd(s.rest, Least(b[4], 32));
  }

  lemma NextItem(r: seq<Octet>)
    requires Framed(r) && Items(r).Done?
    ensures r == [] <==> Items(r).items == []
    ensures r != [] ==> (Items(r).items[0].Other? <==> r[1] != 4 && r[1] != 11)
    ensures r != [] && Items(r).items[0].Other? ==> |Items(r).items[0].desc| >= 2 && Items(r).items[0].desc[1] == r[1]
  {
    hide WalkIntf;
  }

  /** Bytes are parsed as these items exactly when the items are legal and the bytes are theirs;
      parsing fails exactly when there are no such items. */
  lemma ParsedExactly(b: seq<Octet>, items: seq<Item>)
    requires Framed(b)
    ensures Items(b) == Done(items) <==> Legal(items) && Flatten(items) == b
    ensures Items(b) == Fail <==> !exists l :: Legal(l) && Flatten(l) == b
  {
    hide Items, Legal, Flatten;
    if Items(b).Done? {
      ItemsLegal(b);
      ItemsCover(b);
    }
    if Legal(items) && Flatten(items) == b { ItemsTaken(items); }
    if l :| Legal(l) && Flatten(l) == b { ItemsTaken(l); }
  }
}
