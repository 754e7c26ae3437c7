/** Device to host, second half: the host groups the interfaces as the device associated them. */
module RoundTripGroups {
  import opened Descriptors
  import opened ConfigParser
  import opened UsbdConfig
  import opened UsbdDescriptor
  import opened RoundTrip
  import G = FunctionGroups
  import P = CfgParse
  import R = UsbdRuns

  // ---- the associations of headers `i..n`, as the host sees them ----

  function Ds(c: Cfg, i: nat, n: nat): (r: seq<seq<Octet>>)
    requires n <= |c.hdrs| && forall k | i <= k < n :: c.hdrs[k].Some?
    decreases n - i
  {
    if i >= n then []
    else (if c.hdrs[i].value.assoc.Some? then [AssocBytes(c.hdrs[i].value.assoc.value)] else []) + Ds(c, i + 1, n)
  }

  lemma {:induction false} DsOfItems(c: Cfg, i: nat, n: nat)
    requires n <= |c.hdrs| && i <= n && forall k | 0 <= k < n :: c.hdrs[k].Some?
    ensures Assocs(HostItems(c, i, n)) == Ds(c, i, n)
    decreases n - i
  {
    hide HostIntf, PipesOf, AssocBytes;
    if i < n {
      DsOfItems(c, i + 1, n);
      var h := c.hdrs[i].value;
      OneHdr(HostAssoc(h), Intf(HostIntf(h, PipesOf(c.pipes, i))), HostItems(c, i + 1, n));
    }
  }

  lemma {:induction false} DsSkip(c: Cfg, i: nat, j: nat, n: nat)
    requires n <= |c.hdrs| && i <= j <= n && forall k | 0 <= k < n :: c.hdrs[k].Some?
    requires forall k | i <= k < j :: c.hdrs[k].value.assoc.None?
    ensures Ds(c, i, n) == Ds(c, j, n)
    decreases j - i
  {
    if i < j {
      DsSkip(c, i + 1, j, n);
      assert [] + Ds(c, i + 1, n) == Ds(c, i + 1, n);
    }
  }

  lemma RangeOf(a: AssocDesc)
    ensures forall v :: v in G.Range(AssocBytes(a)) <==> a.first as int <= v < a.first + a.count
    ensures G.Field(AssocBytes(a), 3) == a.count
  {
  }

  lemma ClaimedCons(d: seq<Octet>, ds: seq<seq<Octet>>)
    ensures G.Claimed([d] + ds) == G.Range(d) + G.Claimed(ds)
    ensures G.Apart([d] + ds) <==> G.Range(d) !! G.Claimed(ds) && G.Apart(ds)
  {
    assert ([d] + ds)[1..] == ds;
  }

  /** Associations that follow one another cover disjoint ranges. */
  lemma {:induction false} DsApart(c: Cfg, i: nat, n: nat)
    requires Dense(c, n) && R.AssocsWhole(c.hdrs) && i <= n
    ensures G.Apart(Ds(c, i, n)) && forall v | v in G.Claimed(Ds(c, i, n)) :: i <= v < n
    ensures forall d | d in Ds(c, i, n) :: G.Field(d, 3) > 0 && |d| == 8
    decreases n - i
  {
    hide AssocBytes, G.Apart, G.Claimed, Ds;
    DsStep(c, i, n);
    if i < n {
      if c.hdrs[i].value.assoc.None? {
        DsApart(c, i + 1, n);
      } else {
        var a := c.hdrs[i].value.assoc.value;
        var j := i + a.count as nat;
        LastInRange(c, i, n);
        DsSkip(c, i + 1, j, n);
        DsApart(c, j, n);
        FrontApart(a, Ds(c, j, n), i, n);
      }
    }
  }

  lemma DsStep(c: Cfg, i: nat, n: nat)
    requires n <= |c.hdrs| && i <= n && forall k | 0 <= k < n :: c.hdrs[k].Some?
    ensures i == n ==> Ds(c, i, n) == [] && G.Apart([]) && G.Claimed([]) == {}
    ensures i < n && c.hdrs[i].value.assoc.Some? ==>
      Ds(c, i, n) == [AssocBytes(c.hdrs[i].value.assoc.value)] + Ds(c, i + 1, n)
    ensures i < n && c.hdrs[i].value.assoc.None? ==> Ds(c, i, n) == Ds(c, i + 1, n)
  {
    hide AssocBytes;
  }

  lemma LastInRange(c: Cfg, i: nat, n: nat)
    requires Dense(c, n) && R.AssocsWhole(c.hdrs) && i < n && c.hdrs[i].value.assoc.Some?
    ensures var a := c.hdrs[i].value.assoc.value;
      && a.first as nat == i && a.count > 0 && i + a.count <= n
      && forall k | i < k < i + a.count :: c.hdrs[k].value.assoc.None?
  {
    var a := c.hdrs[i].value.assoc.value;
    assert c.hdrs[i + a.count - 1].Some?;
  }

  lemma FrontApart(a: AssocDesc, ds: seq<seq<Octet>>, i: nat, n: nat)
    requires a.first as nat == i && a.count > 0 && i + a.count <= n
    requires G.Apart(ds) && forall v | v in G.Claimed(ds) :: i + a.count <= v < n
    ensures G.Apart([AssocBytes(a)] + ds) && forall v | v in G.Claimed([AssocBytes(a)] + ds) :: i <= v < n
    ensures G.Field(AssocBytes(a), 3) > 0
  {
    hide AssocBytes;
    RangeOf(a);
    ClaimedCons(AssocBytes(a), ds);
  }

  // ---- the parsed interfaces are numbered by position ----

  ghost predicate ByPosition(xs: seq<Interface>) {
    forall k | 0 <= k < |xs| :: G.Num(xs[k]) as int == k
  }

  lemma {:induction false} FirstNumbers(xs: seq<Interface>)
    requires ByPosition(xs)
    ensures G.Nums(xs) == G.Interval(0, |xs|)
  {
    forall v ensures v in G.Nums(xs) <==> v in G.Interval(0, |xs|) {
      if 0 <= v < |xs| { assert G.Num(xs[v]) as int == v; }
    }
  }

  /** The numbers count up from `off`. */
  ghost predicate From(xs: seq<Interface>, off: nat) {
    forall k | 0 <= k < |xs| :: G.Num(xs[k]) as int == off + k
  }

  lemma FromTail(xs: seq<Interface>, off: nat)
    requires From(xs, off) && xs != []
    ensures From(xs[1..], off + 1) && G.Num(xs[0]) as int == off && xs == [xs[0]] + xs[1..]
  {
    hide G.Num;
    forall k | 0 <= k < |xs[1..]| ensures G.Num(xs[1..][k]) as int == off + 1 + k { assert xs[1..][k] == xs[k + 1]; }
  }

  lemma InInterval(lo: nat, len: nat, v: nat)
    ensures v as int in G.Interval(lo, len) <==> lo <= v < lo + len
  {
  }

  lemma {:induction false} PickSlice(xs: seq<Interface>, off: nat, lo: nat, len: nat)
    requires From(xs, off) && off <= lo && lo + len <= off + |xs|
    ensures G.Pick(xs, G.Interval(lo, len)) == xs[lo - off..lo - off + len]
    decreases |xs|
  {
    hide G.Num, G.Interval, G.Pick, G.Drop, From;
    if xs == [] {
      PickEmpty(G.Interval(lo, len));
    } else {
      var h, t := xs[0], xs[1..];
      FromTail(xs, off);
      G.PickCons(h, t, G.Interval(lo, len));
      InInterval(lo, len, off);
      if lo > off {
        PickSlice(t, off + 1, lo, len);
        SliceShift(xs, lo - off, len);
      } else if len == 0 {
        NoneOf(t, lo);
      } else {
        PickSlice(t, off + 1, lo + 1, len - 1);
        SameTail(t, lo, len);
        SliceFront(xs, len);
      }
    }
  }

  lemma PickEmpty(ns: set<int>)
    ensures G.Pick([], ns) == []
  {
  }

  lemma NoneOf(t: seq<Interface>, lo: nat)
    ensures G.Pick(t, G.Interval(lo, 0)) == []
  {
    G.PickNothing(t, G.Interval(lo, 0));
  }

  lemma SliceShift(xs: seq<Interface>, a: nat, len: nat)
    requires 0 < a && a + len <= |xs|
    ensures xs[1..][a - 1..a - 1 + len] == xs[a..a + len]
  {
  }

  lemma SliceFront(xs: seq<Interface>, len: nat)
    requires 0 < len <= |xs|
    ensures [xs[0]] + xs[1..][..len - 1] == xs[..len]
  {
  }

  lemma SameTail(t: seq<Interface>, lo: nat, len: nat)
    requires len > 0 && From(t, lo + 1)
    ensures G.Pick(t, G.Interval(lo, len)) == G.Pick(t, G.Interval(lo + 1, len - 1))
  {
    PickAgree(t, G.Interval(lo, len), G.Interval(lo + 1, len - 1));
  }

  lemma {:induction false} PickAgree(t: seq<Interface>, a: set<int>, b: set<int>)
    requires forall k | 0 <= k < |t| :: G.Num(t[k]) as int in a <==> G.Num(t[k]) as int in b
    ensures G.Pick(t, a) == G.Pick(t, b)
  {
    hide G.Num;
    if t != [] { PickAgree(t[1..], a, b); }
  }

  lemma {:induction false} ClaimAt(ds: seq<seq<Octet>>, xs: seq<Interface>, room: nat, j: nat)
    requires j < |ds| <= room
    ensures var f := G.Claim(ds, xs, room).funs[j]; f == G.AssocFunc(ds[j], f.intfs)
  {
    hide G.Range, G.Pick, G.Drop, G.AssocFunc;
    if j > 0 { ClaimAt(ds[1..], G.Drop(xs, G.Range(ds[0])), room - 1, j - 1); }
    AssocFuncHolds(ds[0], G.Pick(xs, G.Range(ds[0])));
  }

  lemma AssocFuncHolds(d: seq<Octet>, xs: seq<Interface>)
    ensures G.AssocFunc(d, xs).intfs == xs
  {
  }

  /** The association's function, its class codes taken from the association descriptor. */
  lemma AssocEntry(num: Octet, ds: seq<seq<Octet>>, xs: seq<Interface>, j: nat)
    requires G.Conforming(num, ds, xs) && j < |ds|
    ensures j < |G.Functions(num, ds, xs)|
    ensures var f := G.Functions(num, ds, xs)[j]; f == G.AssocFunc(ds[j], f.intfs)
  {
    hide G.AssocFunc, G.Claim, G.Functions, G.Conforming, G.Owners, G.PlaceAll, G.Firsts;
    G.ConformingSize(num, ds, xs);
    G.FunctionParts(num, ds, xs, j);
    ClaimAt(ds, xs, G.TableSize(num, ds), j);
  }

  // ---- the whole ----

  /** The configuration descriptor in front adds no interface and no association. */
  lemma BehindConfig(d: seq<Octet>, t: seq<Item>)
    ensures Intfs([Other(d)] + t) == Intfs(t) && Assocs([Other(d)] + t) == Assocs(t)
  {
    P.ProjectCons(Other(d), t);
    hide Intfs, Assocs;
    assert [] + Intfs(t) == Intfs(t) && [] + Assocs(t) == Assocs(t);
  }

  lemma HostIntfsLook(c: Cfg, n: nat)
    requires Presentable(c, n)
    ensures var xs := Intfs(HostItems(c, 0, n));
      && |xs| == n && ByPosition(xs)
      && forall k | 0 <= k < n :: |xs[k].desc| == 9 && xs[k].desc[4] as nat == |xs[k].eps|
  {
    hide HostItems, PipesOf, Readable, Shaped, Clean, Intfs, HostIntf;
    var xs := Intfs(HostItems(c, 0, n));
    HostIntfs(c, 0, n);
    forall k | 0 <= k < n
      ensures var i := xs[k]; G.Num(i) as nat == k && |i.desc| == 9 && i.desc[4] as nat == |i.eps|
    {
      PipesFine(c, n, k);
      HostLooks(c.hdrs[k].value, PipesOf(c.pipes, k));
      assert xs[k - 0] == HostIntf(c.hdrs[k].value, PipesOf(c.pipes, k));
    }
  }

  lemma ItemsOf(c: Cfg, n: nat)
    requires Presentable(c, n)
    ensures n <= INTF_MAX && Framed(Serialize(c, n)) && Items(Serialize(c, n)).Done?
    ensures var items := Items(Serialize(c, n)).items;
      && |Intfs(items)| == n && ByPosition(Intfs(items)) && Assocs(items) == Ds(c, 0, n)
      && forall i | i in Intfs(items) :: |i.desc| == 9 && i.desc[4] as nat == |i.eps|
  {
    assert n <= INTF_MAX;
    hide HostItems, PipesOf, Readable, Shaped, Clean, Serialize, Intfs, Assocs, HostIntf, ByPosition, Ds, CfgBytes;
    forall k | 0 <= k < n ensures Readable(c.hdrs[k].value, PipesOf(c.pipes, k)) { PipesFine(c, n, k); }
    SerializeRead(c, n);
    BehindConfig(CfgBytes(c.total, c.nIntfs, c.value, c.str), HostItems(c, 0, n));
    DsOfItems(c, 0, n);
    HostIntfsLook(c, n);
  }

  lemma HostLooks(h: Hdr, es: seq<EpDesc>)
    requires Readable(h, es)
    ensures var i := HostIntf(h, es); G.Num(i) == h.intf.num && |i.desc| == 9 && i.desc[4] as nat == |i.eps|
  {
  }

  lemma ConformingCfg(c: Cfg, n: nat)
    requires Presentable(c, n) && R.AssocsWhole(c.hdrs)
    ensures Framed(Serialize(c, n)) && Items(Serialize(c, n)).Done?
    ensures var items := Items(Serialize(c, n)).items; G.Conforming(c.nIntfs, Assocs(items), Intfs(items))
  {
    hide Serialize, Items, Shaped, Ds, ByPosition, G.Apart, Intfs, Assocs;
    ItemsOf(c, n);
    DenseCount(c, n);
    DsApart(c, 0, n);
    var items := Items(Serialize(c, n)).items;
    FirstNumbers(Intfs(items));
    IntervalSize(n);
  }

  lemma IntervalSize(n: nat)
    ensures |G.Interval(0, n)| == n && forall v :: v in G.Interval(0, n) <==> 0 <= v < n
  {
  }

  function Stretch(xs: seq<Interface>, a: AssocDesc): (r: seq<Interface>)
    requires a.first + a.count <= |xs|
  {
    xs[a.first..a.first + a.count]
  }

  /** Function `j` of the host is association `j` of the device: its class codes, and exactly
      the interfaces of its range, in order. */
  ghost predicate AssocsGrouped(fs: seq<G.Func>, offered: seq<AssocDesc>, xs: seq<Interface>) {
    && |offered| <= |fs|
    && forall j | 0 <= j < |offered| ::
         && offered[j].first + offered[j].count <= |xs|
         && fs[j] == G.AssocFunc(AssocBytes(offered[j]), Stretch(xs, offered[j]))
  }

  ghost predicate InSome(offered: seq<AssocDesc>, k: nat) {
    exists i :: 0 <= i < |offered| && offered[i].first as int <= k < offered[i].first + offered[i].count
  }

  /** The other functions of the host are single interfaces that no association covers. */
  ghost predicate OthersAlone(fs: seq<G.Func>, offered: seq<AssocDesc>, xs: seq<Interface>) {
    forall j | |offered| <= j < |fs| :: Lone(fs[j].intfs, offered, xs)
  }

  ghost predicate Lone(g: seq<Interface>, offered: seq<AssocDesc>, xs: seq<Interface>) {
    exists k: nat :: k < |xs| && g == [xs[k]] && !InSome(offered, k)
  }

  lemma {:induction false} DsOffered(c: Cfg, i: nat, n: nat)
    requires n <= |c.hdrs| && i <= n && forall k | i <= k < n :: c.hdrs[k].Some?
    ensures var ds, offered := Ds(c, i, n), OfferedAssocs(c, i, n);
      |ds| == |offered| && forall j | 0 <= j < |ds| :: ds[j] == AssocBytes(offered[j])
    decreases n - i
  {
    hide AssocBytes;
    if i < n {
      DsOffered(c, i + 1, n);
      var h := c.hdrs[i].value;
      if h.assoc.Some? {
        OfferedCons(h.assoc.value, Ds(c, i + 1, n), OfferedAssocs(c, i + 1, n));
      } else {
        assert [] + Ds(c, i + 1, n) == Ds(c, i + 1, n);
        assert [] + OfferedAssocs(c, i + 1, n) == OfferedAssocs(c, i + 1, n);
      }
    }
  }

  lemma OfferedCons(a: AssocDesc, ds: seq<seq<Octet>>, offered: seq<AssocDesc>)
    requires |ds| == |offered| && forall j | 0 <= j < |ds| :: ds[j] == AssocBytes(offered[j])
    ensures forall j | 0 <= j <= |ds| :: ([AssocBytes(a)] + ds)[j] == AssocBytes(([a] + offered)[j])
  {
    hide AssocBytes;
    forall j | 0 <= j <= |ds| ensures ([AssocBytes(a)] + ds)[j] == AssocBytes(([a] + offered)[j]) {
      if j > 0 { assert ds[j - 1] == AssocBytes(offered[j - 1]); }
    }
  }

  lemma {:induction false} ClaimedIn(ds: seq<seq<Octet>>, v: int)
    ensures v in G.Claimed(ds) <==> exists j :: 0 <= j < |ds| && v in G.Range(ds[j])
  {
    hide G.Range;
    if ds != [] {
      ClaimedIn(ds[1..], v);
      if j :| 0 <= j < |ds| && v in G.Range(ds[j]) { assert j > 0 ==> v in G.Range(ds[1..][j - 1]); }
      if j :| 0 <= j < |ds[1..]| && v in G.Range(ds[1..][j]) { assert v in G.Range(ds[j + 1]); }
    }
  }

  lemma AssocGroup(num: Octet, a: AssocDesc, ds: seq<seq<Octet>>, xs: seq<Interface>, j: nat)
    requires G.Conforming(num, ds, xs) && j < |ds| && ByPosition(xs) && ds[j] == AssocBytes(a)
    ensures j < |G.Functions(num, ds, xs)| && a.first + a.count <= |xs|
    ensures G.Functions(num, ds, xs)[j] == G.AssocFunc(AssocBytes(a), Stretch(xs, a))
  {
    hide G.AssocFunc, G.Functions, G.Owners, G.Conforming, G.Pick, G.Kept, G.LeftOver, G.Covered, G.TableSize,
      G.Firsts, AssocBytes, G.Range, G.Interval;
    AssocEntry(num, ds, xs, j);
    G.ConformingSize(num, ds, xs);
    G.ConformingAssoc(num, ds, xs, j);
    ConformingInside(num, ds, xs, j, a);
    PickSlice(xs, 0, a.first, a.count);
    RangeIsInterval(a);
  }

  lemma RangeIsInterval(a: AssocDesc)
    ensures G.Range(AssocBytes(a)) == G.Interval(a.first, a.count)
  {
  }

  lemma ConformingInside(num: Octet, ds: seq<seq<Octet>>, xs: seq<Interface>, j: nat, a: AssocDesc)
    requires G.Conforming(num, ds, xs) && j < |ds| && ByPosition(xs) && ds[j] == AssocBytes(a)
    ensures a.first + a.count <= |xs|
  {
    hide G.Num, G.Apart, G.Claimed;
    FirstNumbers(xs);
    RangeOf(a);
    var v := a.first + a.count - 1;
    assert G.Field(ds[j], 3) > 0;
    assert v in G.Range(ds[j]);
    ClaimedIn(ds, v);
    assert v in G.Nums(xs);
  }

  lemma OneMember<T>(s: set<T>) returns (v: T)
    requires |s| == 1
    ensures s == {v}
  {
    assert s != {};
    v :| v in s;
    assert |s - {v}| == 0;
  }

  lemma AllGrouped(num: Octet, ds: seq<seq<Octet>>, xs: seq<Interface>)
    requires |xs| <= 255 && G.Conforming(num, ds, xs)
    ensures var fs := G.Functions(num, ds, xs); var o := G.Owners(num, ds, xs);
      |fs| == |o| && forall j | 0 <= j < |fs| :: fs[j].intfs == G.Pick(xs, o[j])
  {
    hide G.Functions, G.Owners, G.Conforming, G.Few, G.Pick, G.Drop, G.Claimed;
    G.ShortIsFew(G.Drop(xs, G.Claimed(ds)));
    G.ConformingFew(num, ds, xs);
  }

  /** A single number picks a single interface. */
  lemma OneOf(xs: seq<Interface>, o: set<int>) returns (k: nat)
    requires ByPosition(xs) && |o| == 1 && G.Pick(xs, o) != []
    ensures k < |xs| && k as int in o && G.Pick(xs, o) == [xs[k]]
  {
    hide G.Num, G.Interval;
    var v := OneMember(o);
    var g := G.Pick(xs, o);
    G.PickMembers(xs, o);
    hide G.Pick;
    assert g[0] in g;
    k :| 0 <= k < |xs| && xs[k] == g[0];
    assert G.Num(xs[k]) as int == k == v;
    PickSlice(xs, 0, k, 1);
    OneInterval(k);
    assert xs[k..k + 1] == [xs[k]];
  }

  lemma LoneGroup(num: Octet, ds: seq<seq<Octet>>, xs: seq<Interface>, j: nat) returns (k: nat)
    requires |xs| <= 255 && G.Conforming(num, ds, xs) && ByPosition(xs)
    requires |ds| <= j < |G.Functions(num, ds, xs)|
    ensures k < |xs| && G.Functions(num, ds, xs)[j].intfs == [xs[k]] && k !in G.Claimed(ds)
  {
    hide G.Functions, G.Owners, G.Conforming, G.Claimed, G.Covered, G.Pick, G.Drop, ByPosition;
    G.ConformingPartition(num, ds, xs);
    AllGrouped(num, ds, xs);
    k := OneOf(xs, G.Owners(num, ds, xs)[j]);
  }

  lemma OneInterval(k: nat)
    ensures G.Interval(k, 1) == {k as int}
  {
  }

  /** The host's functions for what the device wrote are the device's associations, in order,
      and then one function for each other interface; every interface is in exactly one. */
  lemma GroupsRecovered(c: Cfg, n: nat)
    requires Presentable(c, n) && R.AssocsWhole(c.hdrs)
    ensures Framed(Serialize(c, n)) && Items(Serialize(c, n)).Done?
    ensures
      var items := Items(Serialize(c, n)).items;
      var xs, offered := Intfs(items), OfferedAssocs(c, 0, n);
      var fs, o := G.Functions(c.nIntfs, Assocs(items), xs), G.Owners(c.nIntfs, Assocs(items), xs);
      && |xs| == n && AssocsGrouped(fs, offered, xs) && OthersAlone(fs, offered, xs)
      && |fs| == |o| && (forall j | 0 <= j < |fs| :: fs[j].intfs == G.Pick(xs, o[j]))
      && G.Disjoint(o) && (forall k | 0 <= k < n :: G.Covered(o, k)) && G.AllInOne(fs, xs) && G.NoneEmpty(fs)
  {
    hide Serialize, Items, Shaped, Ds, G.Functions, G.Owners, G.Conforming, G.AssocFunc, AssocBytes, G.Claimed, G.Range,
      G.Covered, Intfs, Assocs, OfferedAssocs, Stretch, G.Num, G.Pick, G.Disjoint;
    ItemsOf(c, n);
    ConformingCfg(c, n);
    DsOffered(c, 0, n);
    var items := Items(Serialize(c, n)).items;
    var xs, offered, ds := Intfs(items), OfferedAssocs(c, 0, n), Assocs(items);
    var fs := G.Functions(c.nIntfs, ds, xs);
    G.ConformingPartition(c.nIntfs, ds, xs);
    AllGrouped(c.nIntfs, ds, xs);
    forall k | 0 <= k < n ensures G.Covered(G.Owners(c.nIntfs, ds, xs), k) {
      assert xs[k] in xs && G.Num(xs[k]) as int == k;
    }
    forall j | 0 <= j < |offered|
      ensures offered[j].first + offered[j].count <= |xs|
      ensures fs[j] == G.AssocFunc(AssocBytes(offered[j]), Stretch(xs, offered[j]))
    {
      AssocGroup(c.nIntfs, offered[j], ds, xs, j);
    }
    forall j | |offered| <= j < |fs| ensures Lone(fs[j].intfs, offered, xs) {
      var k := LoneGroup(c.nIntfs, ds, xs, j);
      InSomeClaimed(ds, offered, k);
    }
  }

  lemma InSomeClaimed(ds: seq<seq<Octet>>, offered: seq<AssocDesc>, k: nat)
    requires |ds| == |offered| && forall j | 0 <= j < |ds| :: ds[j] == AssocBytes(offered[j])
    ensures InSome(offered, k) ==> k in G.Claimed(ds)
  {
    hide AssocBytes, G.Range;
    ClaimedIn(ds, k);
    if InSome(offered, k) {
      var i :| 0 <= i < |offered| && offered[i].first as int <= k < offered[i].first + offered[i].count;
      RangeOf(offered[i]);
      assert k in G.Range(ds[i]);
    }
  }

  // ---- the parser accepts the bytes and leaves them as they are ----

  lemma {:induction false} PatchedSame(items: seq<Item>)
    requires forall i | i in items :: GoodItem(i)
    requires forall i | i in items && i.Intf? :: |i.intf.desc| == 9 && i.intf.desc[4] as nat == |i.intf.eps|
    ensures FlattenPatched(items) == Flatten(items)
  {
    hide GoodIntf, EpsBytes;
    if items != [] {
      PatchedSame(items[1..]);
      assert GoodItem(items[0]);
      if items[0].Intf? {
        var f := items[0].intf;
        assert GoodIntf(f);
        SamePatch(f);
      }
    }
  }

  lemma SamePatch(f: Interface)
    requires GoodIntf(f) && |f.desc| == 9 && f.desc[4] as nat == |f.eps|
    ensures Patch(f) == f.desc
  {
  }

  lemma {:induction false} IntfsIn(items: seq<Item>, f: Interface)
    requires Intf(f) in items
    ensures f in Intfs(items)
  {
    if items[0] != Intf(f) { IntfsIn(items[1..], f); }
  }

  /** What the device writes is what the host's parser asks for, and parsing changes no byte. */
  lemma HostAccepts(c: Cfg, n: nat)
    requires Presentable(c, n) && n > 0
    ensures P.Acceptable(Serialize(c, n)) && Items(Serialize(c, n)).Done?
    ensures P.AllGood(Items(Serialize(c, n)).items)
    ensures FlattenPatched(Items(Serialize(c, n)).items) == Serialize(c, n)
  {
    hide Shaped, PipesOf, Readable, Clean, HdrsBytes, HostItems, GoodItem;
    forall k | 0 <= k < n ensures Readable(c.hdrs[k].value, PipesOf(c.pipes, k)) { PipesFine(c, n, k); }
    var b := Serialize(c, n);
    SerializeRead(c, n);
    ItemsOf(c, n);
    var items := Items(b).items;
    ItemsGood(b);
    ItemsCover(b);
    forall i | i in items && i.Intf?
      ensures GoodItem(i) && |i.intf.desc| == 9 && i.intf.desc[4] as nat == |i.intf.eps|
    {
      IntfsIn(items, i.intf);
    }
    PatchedSame(items);
    WholeHere(c, n);
    FirstIsStop(c, n);
  }

  lemma WholeHere(c: Cfg, n: nat)
    requires Presentable(c, n)
    ensures Framed(Serialize(c, n)) && P.WholeAssocs(Serialize(c, n))
  {
    hide Shaped, Serialize, PipesOf, Clean, Items, Assocs, Intfs;
    ItemsOf(c, n);
    P.ItemAssocs(Serialize(c, n), Items(Serialize(c, n)).items);
    DsOfItems(c, 0, n);
    HostAssocs(c, 0, n);
  }

  lemma FirstIsStop(c: Cfg, n: nat)
    requires Dense(c, n) && n > 0 && Framed(Serialize(c, n))
    ensures Serialize(c, n)[0] == 9 && Serialize(c, n)[1] == DT_CONFIG
    ensures Next(Serialize(c, n)) == HdrsBytes(c, 0, n) && HdrsBytes(c, 0, n) != []
    ensures Run(Next(Serialize(c, n)), CFG_STOPS).rest != []
  {
    hide PipesOf;
    var b, t := Serialize(c, n), HdrsBytes(c, 0, n);
    assert Next(b) == t;
    var h := c.hdrs[0].value;
    assert t[1] == if h.assoc.Some? then DT_ASSOC else DT_INTERFACE;
    assert Run(t, CFG_STOPS) == Split([], t);
  }

  /** Read by the host, the bytes are the interfaces, their pipes and the associations built. */
  ghost predicate HostReads(c: Cfg, n: nat, b: seq<Octet>)
    requires Dense(c, n)
  {
    && Framed(b) && Items(b).Done?
    && SeeAll(Intfs(Items(b).items)) == Offered(c, n)
    && SeeAssocs(Assocs(Items(b).items)) == OfferedAssocs(c, 0, n)
  }

  lemma ReadsBack(c: Cfg, n: nat)
    requires Presentable(c, n)
    ensures HostReads(c, n, Serialize(c, n))
  {
    RoundTrips(c, n);
    hide Serialize, Items, Offered, SeeAll;
  }

  /** The length a configuration descriptor announces, and as many of the bytes as that: this is
      what a host asks for. */
  function Announced(b: seq<Octet>): (r: nat)
    requires |b| >= 4
  {
    b[2] as nat + 0x100 * b[3] as nat
  }

  function Requested(b: seq<Octet>): (r: seq<Octet>)
    requires |b| >= 4
  {
    b[..Least(Announced(b), |b|)]
  }

  /** A buffer of the size takes the whole configuration. */
  ghost predicate Written(c: Cfg, n: nat, size: nat)
    requires Dense(c, n)
  {
    size >= 9 && MakeAll(c, n, size) == Made(Serialize(c, n))
  }

  /** The host gets all that is written, and reads back what was built. */
  ghost predicate HostGetsAll(c: Cfg, n: nat)
    requires Dense(c, n)
  {
    var b := Serialize(c, n);
    |b| >= 4 && Requested(b) == b && HostReads(c, n, Requested(b))
  }

  lemma AnnouncedTotal(c: Cfg, n: nat)
    requires Dense(c, n) && c.total < 65536
    ensures |Serialize(c, n)| >= 9 && Announced(Serialize(c, n)) == c.total
  {
    hide HdrsBytes;
  }

  /** From the first call to the host: whatever proper calls built the configuration, the bytes it
      is written in fit a buffer of their number, and read back as what was built. A host asks for
      as many of them as the announced length says, which are all of them exactly when they are
      fewer than 65536; then a buffer of the announced length takes them, and the host reads back
      what was built. */
  lemma RunReadBack(value: Octet, str: Octet, strs: set<nat>, ops: seq<Call>, c: Cfg, n: nat, size: nat)
    requires R.ProperRun(Fresh(value, str, strs), ops, c) && Dense(c, n)
    requires forall k | 0 <= k < n :: Clean(c.hdrs[k].value.spec) && Count(c.pipes, k) <= MAX_EP
    requires size >= Recount(c)
    ensures Presentable(c, n) && R.AssocsWhole(c.hdrs) && c.nFunc as nat == n && c.total == Wrap16(Recount(c))
    ensures Written(c, n, size) && HostReads(c, n, Serialize(c, n))
    ensures HostGetsAll(c, n) <==> Recount(c) < 65536
    ensures Recount(c) < 65536 ==> Written(c, n, c.total)
  {
    hide Serialize, MakeAll, R.ProperRun, R.AssocsWhole, Sum, Present, Count, Recount, HostReads, Announced, Requested,
      TotalExact, FuncsExact;
    R.FreshSound(value, str, strs);
    R.ProperRunSound(Fresh(value, str, strs), ops, c);
    R.ProperRunExactly(value, str, strs, ops, c);
    SerializeLength(c, n);
    DenseCount(c, n);
    MakeFits(c, n, size);
    ReadsBack(c, n);
    AnnouncedTotal(c, n);
    RequestedAll(Serialize(c, n), c.total);
    TotalIsRecount(c);
    if Recount(c) < 65536 { MakeFits(c, n, c.total); }
  }

  lemma TotalIsRecount(c: Cfg)
    ensures TotalExact(c) <==> c.total == Recount(c)
  {
  }

  lemma RequestedAll(b: seq<Octet>, t: nat)
    requires |b| >= 4 && Announced(b) == t && t == Wrap16(|b|)
    ensures Requested(b) == b <==> t == |b|
  {
    hide Announced;
  }
}
