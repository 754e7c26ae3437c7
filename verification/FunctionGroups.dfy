/** Grouping parsed interfaces into functions: the second half of `__dev_cfg_parse`. */
module FunctionGroups {
  import opened Descriptors
  import opened ConfigParser

  /** One entry of the function table. `nIntf` is an eight-bit count. */
  datatype Func = Func(kind: Octet, first: Octet, cls: Octet, sub: Octet, proto: Octet, nType: Octet,
                       nIntf: Octet, intfs: seq<Interface>)

  const EMPTY := Func(0, 0, 0, 0, 0, 0, 0, [])

  function Field(d: seq<Octet>, k: nat): (r: Octet) { if k < |d| then d[k] else 0 }

  function Num(i: Interface): (r: Octet) { Field(i.desc, 2) }

  function Nums(xs: seq<Interface>): (r: set<int>) { set i | 0 <= i < |xs| :: Num(xs[i]) as int }

  /** The interfaces whose number is in `ns`, in order; and the others. */
  function Pick(xs: seq<Interface>, ns: set<int>): (r: seq<Interface>) {
    if xs == [] then []
    else (if Num(xs[0]) in ns then [xs[0]] else []) + Pick(xs[1..], ns)
  }

  function Drop(xs: seq<Interface>, ns: set<int>): (r: seq<Interface>)
    ensures |r| <= |xs|
  {
    if xs == [] then []
    else (if Num(xs[0]) in ns then [] else [xs[0]]) + Drop(xs[1..], ns)
  }

  /** The interface numbers an association descriptor claims. */
  function Range(d: seq<Octet>): (ns: set<int>)
    ensures forall n :: n in ns <==> Field(d, 2) <= n < Field(d, 2) + Field(d, 3)
    ensures |ns| == Field(d, 3)
  {
    Interval(Field(d, 2), Field(d, 3))
  }

  function Interval(lo: int, len: nat): (ns: set<int>)
    ensures forall n :: n in ns <==> lo <= n < lo + len
    ensures |ns| == len
  {
    if len == 0 then {} else Interval(lo, len - 1) + {lo + len - 1}
  }

  function AssocFunc(d: seq<Octet>, xs: seq<Interface>): (r: Func) {
    Func(DT_ASSOC, Field(d, 2), Field(d, 4), Field(d, 5), Field(d, 6), Field(d, 3), |xs| % 256, xs)
  }

  datatype Claims = Claims(funs: seq<Func>, left: seq<Interface>)

  /** Each association in turn takes the interfaces in its range, while the table has room. */
  function Claim(ds: seq<seq<Octet>>, xs: seq<Interface>, room: nat): (c: Claims)
    ensures |c.funs| == Least(|ds|, room)
  {
    if ds == [] || room == 0 then Claims([], xs)
    else
      var c := Claim(ds[1..], Drop(xs, Range(ds[0])), room - 1);
      Claims([AssocFunc(ds[0], Pick(xs, Range(ds[0])))] + c.funs, c.left)
  }

  /** One left-over interface: appended to the entry with its number, else it opens the first
      entry whose count is zero, else it finds no place. */
  function Place(fs: seq<Func>, x: Interface): (r: seq<Func>)
    ensures |r| == |fs|
  {
    if fs == [] then []
    else if fs[0].nIntf > 0 then
      if fs[0].first == Num(x) then [Grow(fs[0], x)] + fs[1..] else [fs[0]] + Place(fs[1..], x)
    else [Open(fs[0], x)] + fs[1..]
  }

  function Grow(f: Func, x: Interface): (r: Func) {
    f.(nIntf := (f.nIntf + 1) % 256, intfs := f.intfs + [x])
  }

  function Open(f: Func, x: Interface): (r: Func) {
    Func(DT_INTERFACE, Num(x), Field(x.desc, 5), Field(x.desc, 6), Field(x.desc, 7), 1, 1, f.intfs + [x])
  }

  function PlaceAll(fs: seq<Func>, xs: seq<Interface>): (r: seq<Func>)
    ensures |r| == |fs|
    decreases |xs|
  {
    if xs == [] then fs else PlaceAll(Place(fs, xs[0]), xs[1..])
  }

  function Blank(n: nat): (fs: seq<Func>)
    ensures |fs| == n
  {
    seq(n, _ => EMPTY)
  }

  /** How many interfaces the associations merge away. */
  function Merged(ds: seq<seq<Octet>>): (r: int) {
    if ds == [] then 0 else Field(ds[0], 3) - 1 + Merged(ds[1..])
  }

  /** The length of the function table: eight-bit arithmetic on the announced count. */
  function TableSize(numIntfs: Octet, ds: seq<seq<Octet>>): (r: Octet) { (numIntfs - Merged(ds)) % 256 }

  /** The whole table for the parsed interfaces `xs` and associations `ds`. */
  function Functions(numIntfs: Octet, ds: seq<seq<Octet>>, xs: seq<Interface>): (fs: seq<Func>)
    ensures |fs| == TableSize(numIntfs, ds)
  {
    var n := TableSize(numIntfs, ds);
    var c := Claim(ds, xs, n);
    c.funs + PlaceAll(Blank(n - |c.funs|), c.left)
  }

  // ---- what an entry outside the associations says ----

  /** The entry is unused, or has the type, number and class codes, byte by byte, of one of its
      interfaces, as a function of a single interface. */
  ghost predicate Coded(f: Func) {
    || f == Func(0, 0, 0, 0, 0, 0, 0, [])
    || exists x :: x in f.intfs && CodedBy(f, x)
  }

  predicate CodedBy(f: Func, x: Interface) {
    && f.kind == 4 && f.nType == 1
    && (|x.desc| >= 8 ==> f.first == x.desc[2] && f.cls == x.desc[5] && f.sub == x.desc[6] && f.proto == x.desc[7])
  }

  lemma GrowCoded(f: Func, x: Interface)
    requires Coded(f) && f.nIntf > 0
    ensures Coded(Grow(f, x))
  {
    var y :| y in f.intfs && CodedBy(f, y);
    assert y in Grow(f, x).intfs && CodedBy(Grow(f, x), y);
  }

  lemma OpenCoded(f: Func, x: Interface)
    ensures Coded(Open(f, x))
  {
    assert x in Open(f, x).intfs && CodedBy(Open(f, x), x);
  }

  lemma {:induction false} PlaceCoded(fs: seq<Func>, x: Interface)
    requires forall f | f in fs :: Coded(f)
    ensures forall f | f in Place(fs, x) :: Coded(f)
  {
    hide Coded, Grow, Open;
    if fs != [] {
      OpenCoded(fs[0], x);
      if fs[0].nIntf > 0 { GrowCoded(fs[0], x); }
      PlaceCoded(fs[1..], x);
    }
  }

  lemma {:induction false} PlaceAllCoded(fs: seq<Func>, xs: seq<Interface>)
    requires forall f | f in fs :: Coded(f)
    ensures forall f | f in PlaceAll(fs, xs) :: Coded(f)
    decreases |xs|
  {
    hide Coded, Place;
    if xs != [] {
      PlaceCoded(fs, xs[0]);
      PlaceAllCoded(Place(fs, xs[0]), xs[1..]);
    }
  }

  /** Every function that is no association has the type, number and class codes of one of its
      interfaces, or is empty. */
  lemma FunctionsCoded(numIntfs: Octet, ds: seq<seq<Octet>>, xs: seq<Interface>, j: nat)
    requires |ds| <= j < |Functions(numIntfs, ds, xs)|
    ensures Coded(Functions(numIntfs, ds, xs)[j])
  {
    var n := TableSize(numIntfs, ds);
    var c := Claim(ds, xs, n);
    hide Coded, Claim, TableSize;
    forall f | f in Blank(n - |c.funs|) ensures Coded(f) { BlankCoded(); }
    PlaceAllCoded(Blank(n - |c.funs|), c.left);
    assert Functions(numIntfs, ds, xs)[j] in PlaceAll(Blank(n - |c.funs|), c.left);
  }

  lemma BlankCoded()
    ensures Coded(EMPTY)
  {
  }

  // ---- picking by number ----

  lemma {:induction false} PickDrop(xs: seq<Interface>, ns: set<int>, ms: set<int>)
    ensures Pick(Drop(xs, ns), ms) == Pick(xs, ms - ns)
    ensures Drop(Drop(xs, ns), ms) == Drop(xs, ns + ms)
  {
    if xs != [] {
      PickDrop(xs[1..], ns, ms);
      if Num(xs[0]) in ns {
        assert Drop(xs, ns) == Drop(xs[1..], ns);
      } else {
        assert Drop(xs, ns)[1..] == Drop(xs[1..], ns);
      }
    }
  }

  lemma PickCons(h: Interface, t: seq<Interface>, ns: set<int>)
    ensures Pick([h] + t, ns) == (if Num(h) in ns then [h] else []) + Pick(t, ns)
    ensures Drop([h] + t, ns) == (if Num(h) in ns then [] else [h]) + Drop(t, ns)
  {
    assert ([h] + t)[1..] == t;
  }

  lemma {:induction false} PickSnoc(xs: seq<Interface>, x: Interface, ns: set<int>)
    ensures Pick(xs + [x], ns) == Pick(xs, ns) + (if Num(x) in ns then [x] else [])
    ensures Drop(xs + [x], ns) == Drop(xs, ns) + (if Num(x) in ns then [] else [x])
  {
    if xs == [] {
      PickCons(x, [], ns);
      assert [] + [x] == [x] + [];
    } else {
      hide Pick, Drop, Num;
      var h, t := xs[0], xs[1..];
      PickSnoc(t, x, ns);
      PickCons(h, t, ns);
      PickCons(h, t + [x], ns);
      assert xs == [h] + t;
      Reassociate([h], t, [x]);
    }
  }

  lemma {:induction false} PickMembers(xs: seq<Interface>, ns: set<int>)
    ensures forall x :: x in Pick(xs, ns) <==> x in xs && Num(x) in ns
    ensures forall x :: x in Drop(xs, ns) <==> x in xs && Num(x) !in ns
  {
    if xs != [] { PickMembers(xs[1..], ns); }
  }

  lemma NumsOf(xs: seq<Interface>, n: int)
    ensures n in Nums(xs) <==> exists x :: x in xs && Num(x) as int == n
  {
    if n in Nums(xs) {
      var i :| 0 <= i < |xs| && Num(xs[i]) as int == n;
      assert xs[i] in xs;
    }
  }

  // ---- the left-over interfaces form one group per number ----

  /** The distinct numbers, in order of first appearance. */
  function Firsts(xs: seq<Interface>): (r: seq<Octet>)
  {
    if xs == [] then []
    else
      var ns, n := Firsts(xs[..|xs| - 1]), Num(xs[|xs| - 1]);
      if n in ns then ns else ns + [n]
  }

  /** The function made of all interfaces with number `n`, classified by the first of them. */
  function Group(xs: seq<Interface>, n: Octet): (r: Func) {
    var g := Pick(xs, {n as int});
    var d := if g == [] then [] else g[0].desc;
    Func(DT_INTERFACE, n, Field(d, 5), Field(d, 6), Field(d, 7), 1, |g| % 256, g)
  }

  function GroupAt(xs: seq<Interface>, k: nat): (r: Func) {
    if k < |Firsts(xs)| then Group(xs, Firsts(xs)[k]) else EMPTY
  }

  function Table(xs: seq<Interface>, m: nat): (fs: seq<Func>)
    ensures |fs| == m && forall k | 0 <= k < m :: fs[k] == GroupAt(xs, k)
  {
    seq(m, k requires 0 <= k < m => GroupAt(xs, k))
  }

  lemma {:induction false} FirstsFacts(xs: seq<Interface>)
    ensures forall n: Octet :: n in Firsts(xs) <==> n as int in Nums(xs)
    ensures forall i, j | 0 <= i < j < |Firsts(xs)| :: Firsts(xs)[i] != Firsts(xs)[j]
    ensures |Firsts(xs)| <= |xs|
  {
    if xs != [] {
      var ys, x := xs[..|xs| - 1], xs[|xs| - 1];
      FirstsFacts(ys);
      assert forall n: int :: n in Nums(xs) <==> n in Nums(ys) || n == Num(x) as int by {
        assert forall i | 0 <= i < |ys| :: ys[i] == xs[i];
      }
    }
  }

  lemma {:induction false} PickLength(xs: seq<Interface>, ns: set<int>)
    ensures |Pick(xs, ns)| + |Drop(xs, ns)| == |xs|
  {
    if xs != [] { PickLength(xs[1..], ns); }
  }

  lemma FirstsSnoc(ys: seq<Interface>, x: Interface)
    ensures Firsts(ys + [x]) == if Num(x) in Firsts(ys) then Firsts(ys) else Firsts(ys) + [Num(x)]
  {
    assert (ys + [x])[..|ys|] == ys;
  }

  /** The scan for a place ends at the entry with the number, or else at the first unused one. */
  lemma {:induction false} PlaceScan(fs: seq<Func>, x: Interface, used: nat, pos: nat)
    requires pos <= used
    requires forall k | 0 <= k < |fs| :: k < used <==> fs[k].nIntf > 0
    requires forall k | 0 <= k < |fs| && k < pos :: fs[k].first != Num(x)
    requires pos < used && pos < |fs| ==> fs[pos].first == Num(x)
    ensures Place(fs, x) ==
      if pos >= |fs| then fs
      else if pos < used then fs[pos := Grow(fs[pos], x)]
      else fs[pos := Open(fs[pos], x)]
  {
    if fs != [] && pos > 0 {
      PlaceScan(fs[1..], x, used - 1, pos - 1);
    }
  }

  /** The entry a left-over interface goes to, described by its place in the table. */
  lemma {:induction false} PlaceAt(fs: seq<Func>, x: Interface, pos: nat)
    requires pos <= |fs|
    requires forall k | 0 <= k < pos :: fs[k].nIntf > 0 && fs[k].first != Num(x)
    requires pos < |fs| ==> fs[pos].nIntf == 0 || fs[pos].first == Num(x)
    ensures Place(fs, x) ==
      if pos == |fs| then fs
      else if fs[pos].nIntf > 0 then fs[pos := Grow(fs[pos], x)]
      else fs[pos := Open(fs[pos], x)]
  {
    hide Grow, Open, Num;
    if pos > 0 {
      var h, t := fs[0], fs[1..];
      PlaceAt(t, x, pos - 1);
      assert fs == [h] + t && Place(fs, x) == [h] + Place(t, x);
    }
  }

  /** How many interfaces have the number. */
  function Many(xs: seq<Interface>, n: Octet): (r: nat) { |Pick(xs, {n as int})| }

  /** No number has more than 255 interfaces. */
  ghost predicate Few(xs: seq<Interface>) { forall n: Octet :: Many(xs, n) <= 255 }

  lemma FewLess(ys: seq<Interface>, x: Interface)
    requires Few(ys + [x])
    ensures Few(ys)
  {
    forall n: Octet ensures Many(ys, n) <= 255 { assert Many(ys + [x], n) <= 255; PickSnoc(ys, x, {n as int}); }
  }

  lemma PickedSome(ys: seq<Interface>, ns: set<int>, i: nat)
    requires i < |ys| && Num(ys[i]) as int in ns
    ensures 0 < |Pick(ys, ns)| <= |ys|
  {
    PickMembers(ys, ns);
    PickLength(ys, ns);
    assert ys[i] in Pick(ys, ns);
  }

  lemma GroupInUse(ys: seq<Interface>, k: nat)
    requires Few(ys)
    ensures k < |Firsts(ys)| <==> GroupAt(ys, k).nIntf > 0
    ensures k < |Firsts(ys)| ==> GroupAt(ys, k).intfs != []
  {
    hide Firsts, Pick, Num;
    if k < |Firsts(ys)| {
      var n := Firsts(ys)[k];
      FirstsFacts(ys);
      assert n in Firsts(ys) && n as int in Nums(ys);
      var i :| 0 <= i < |ys| && Num(ys[i]) as int == n as int;
      PickedSome(ys, {n as int}, i);
      assert Many(ys, n) <= 255;
    }
  }

  lemma GroupKept(ys: seq<Interface>, x: Interface, n: Octet)
    requires n != Num(x)
    ensures Group(ys + [x], n) == Group(ys, n)
  {
    PickSnoc(ys, x, {n as int});
  }

  lemma GroupGrown(ys: seq<Interface>, x: Interface, k: nat)
    requires Few(ys) && k < |Firsts(ys)| && Firsts(ys)[k] == Num(x)
    ensures Group(ys + [x], Num(x)) == Grow(Group(ys, Num(x)), x)
  {
    hide Firsts, Pick, Num, Few;
    var ns := {Num(x) as int};
    GroupInUse(ys, k);
    PickSnoc(ys, x, ns);
    var g := Pick(ys, ns);
    assert Group(ys, Num(x)).intfs == g != [] && (g + [x])[0] == g[0];
    hide GroupAt;
    NextCount(|g|);
  }

  lemma NextCount(n: nat)
    ensures (n + 1) % 256 == (n % 256 + 1) % 256
  {
  }

  lemma GroupOpened(ys: seq<Interface>, x: Interface)
    requires Num(x) !in Firsts(ys)
    ensures Group(ys + [x], Num(x)) == Open(EMPTY, x)
  {
    hide Firsts, Pick;
    var ns := {Num(x) as int};
    FirstsFacts(ys);
    forall i | 0 <= i < |ys| ensures Num(ys[i]) as int !in ns { assert Num(ys[i]) as int in Nums(ys); }
    PickNothing(ys, ns);
    PickSnoc(ys, x, ns);
  }

  lemma {:induction false} PickNothing(xs: seq<Interface>, ns: set<int>)
    requires forall i | 0 <= i < |xs| :: Num(xs[i]) as int !in ns
    ensures Pick(xs, ns) == [] && Drop(xs, ns) == xs
  {
    if xs != [] {
      PickNothing(xs[1..], ns);
    }
  }

  lemma GroupNumber(xs: seq<Interface>, k: nat)
    requires k < |Firsts(xs)|
    ensures GroupAt(xs, k).first == Firsts(xs)[k]
  {
    hide Pick, Firsts;
  }

  /** Placing one more interface into the table for `ys` gives the table for `ys + [x]`. */
  lemma PlaceOne(ys: seq<Interface>, x: Interface, m: nat)
    requires Few(ys)
    ensures Place(Table(ys, m), x) == Table(ys + [x], m)
  {
    hide Group, Pick, Firsts, Few;
    var fs, n := Firsts(ys), Num(x);
    FirstsFacts(ys);
    FirstsSnoc(ys, x);
    var pos: nat := if n in fs then IndexOf(fs, n) else |fs|;
    forall k | 0 <= k < m ensures k < |fs| <==> Table(ys, m)[k].nIntf > 0 { GroupInUse(ys, k); }
    forall k | 0 <= k < m && k < |fs| ensures Table(ys, m)[k].first == fs[k] { GroupNumber(ys, k); }
    PlaceScan(Table(ys, m), x, |fs|, pos);
    forall k | 0 <= k < m ensures Table(ys + [x], m)[k] == Place(Table(ys, m), x)[k] {
      if k < |fs| {
        if k == pos { GroupGrown(ys, x, k); } else { GroupKept(ys, x, fs[k]); }
      } else if k == pos {
        GroupOpened(ys, x);
      }
    }
  }

  function IndexOf(s: seq<Octet>, n: Octet): (i: nat)
    requires n in s
    ensures i < |s| && s[i] == n && n !in s[..i]
  {
    if s[0] == n then 0 else 1 + IndexOf(s[1..], n)
  }

  /** With at most 255 interfaces of each number, placing the left-over interfaces groups them by
      number, in order of first appearance and classified by the first of each, as far as the
      table goes. */
  lemma {:induction false} PlaceFewGroups(done: seq<Interface>, xs: seq<Interface>, m: nat)
    requires Few(done + xs)
    ensures PlaceAll(Table(done, m), xs) == Table(done + xs, m)
    decreases |xs|
  {
    hide Few;
    if xs == [] {
      assert done + xs == done;
    } else {
      assert done + [xs[0]] + xs[1..] == done + xs;
      FewStart(done, xs);
      PlaceOne(done, xs[0], m);
      PlaceFewGroups(done + [xs[0]], xs[1..], m);
    }
  }

  lemma {:induction false} FewStart(done: seq<Interface>, xs: seq<Interface>)
    requires Few(done + xs)
    ensures Few(done)
    decreases |xs|
  {
    if xs == [] {
      assert done + xs == done;
    } else {
      assert done + xs == done + xs[..|xs| - 1] + [xs[|xs| - 1]];
      FewLess(done + xs[..|xs| - 1], xs[|xs| - 1]);
      FewStart(done, xs[..|xs| - 1]);
    }
  }

  // ---- ... unless a count of 256 looks like none ----

  /** The place of a number: its entry, or the first unused one. */
  function Slot(ys: seq<Interface>, n: Octet): (r: nat) {
    if n in Firsts(ys) then IndexOf(Firsts(ys), n) else |Firsts(ys)|
  }

  /** An entry before that place has a multiple of 256 interfaces, so that its count is zero. */
  predicate Blocked(ys: seq<Interface>, n: Octet, m: nat) {
    exists k :: 0 <= k < m && k < Slot(ys, n) && k < |Firsts(ys)| && |GroupAt(ys, k).intfs| % 256 == 0
  }

  /** No interface comes when an entry before its place looks unused. */
  predicate Steady(xs: seq<Interface>, m: nat) {
    forall i | 0 <= i < |xs| :: !Blocked(xs[..i], Num(xs[i]), m)
  }

  /** The entries hold the groups of `ys`; the class codes may be those of any member. */
  predicate Grouped(fs: seq<Func>, ys: seq<Interface>) {
    forall k | 0 <= k < |fs| :: fs[k].intfs == GroupAt(ys, k).intfs
  }

  predicate Counted(fs: seq<Func>, ys: seq<Interface>) {
    && Grouped(fs, ys)
    && (forall k | 0 <= k < |fs| :: fs[k].nIntf == |fs[k].intfs| % 256)
    && (forall k | 0 <= k < |fs| :: k < |Firsts(ys)| ==> fs[k].first == Firsts(ys)[k])
  }

  lemma GroupNext(ys: seq<Interface>, x: Interface, k: nat)
    ensures GroupAt(ys + [x], k).intfs == GroupAt(ys, k).intfs + if k == Slot(ys, Num(x)) then [x] else []
    ensures k < |Firsts(ys)| ==> k < |Firsts(ys + [x])| && Firsts(ys + [x])[k] == Firsts(ys)[k]
    ensures k == Slot(ys, Num(x)) ==> k < |Firsts(ys + [x])| && Firsts(ys + [x])[k] == Num(x)
  {
    hide Pick, Firsts, Num;
    FirstsFacts(ys);
    FirstsSnoc(ys, x);
    if k < |Firsts(ys)| {
      PickSnoc(ys, x, {Firsts(ys)[k] as int});
    } else if k == Slot(ys, Num(x)) {
      GroupOpened(ys, x);
    }
  }

  /** One more interface in its place, as far as contents, count and number are concerned. */
  predicate Joined(f: Func, g: Func, x: Interface) {
    g.intfs == f.intfs + [x] && g.first == Num(x) && g.nIntf == (f.nIntf + 1) % 256
  }

  lemma {:induction false} PlaceJoins(fs: seq<Func>, ys: seq<Interface>, x: Interface)
    requires Counted(fs, ys) && !Blocked(ys, Num(x), |fs|)
    ensures var n := Slot(ys, Num(x));
      && (n < |fs| ==> Joined(fs[n], Place(fs, x)[n], x))
      && forall k | 0 <= k < |fs| && k != n :: Place(fs, x)[k] == fs[k]
  {
    hide GroupAt, Firsts, Num, Place;
    var n := Slot(ys, Num(x));
    var pos := Least(n, |fs|);
    assert forall k | 0 <= k < pos :: fs[k].nIntf > 0 && fs[k].first != Num(x);
    if pos < |fs| { Unused(ys, n); }
    PlaceAt(fs, x, pos);
  }

  /** An interface whose way is not blocked joins its group. */
  lemma {:induction false} PlaceSteady(fs: seq<Func>, ys: seq<Interface>, x: Interface)
    requires Counted(fs, ys) && !Blocked(ys, Num(x), |fs|)
    ensures Counted(Place(fs, x), ys + [x])
  {
    hide GroupAt, Firsts, Num, Place, Blocked, IndexOf;
    assert forall k | 0 <= k < |fs| :: fs[k].intfs == GroupAt(ys, k).intfs && fs[k].nIntf == |fs[k].intfs| % 256;
    assert forall k | 0 <= k < |fs| && k < |Firsts(ys)| :: fs[k].first == Firsts(ys)[k];
    PlaceJoins(fs, ys, x);
    FirstsSnoc(ys, x);
    forall k | 0 <= k < |fs|
      ensures Place(fs, x)[k].intfs == GroupAt(ys + [x], k).intfs
      ensures Place(fs, x)[k].nIntf == |Place(fs, x)[k].intfs| % 256
      ensures k < |Firsts(ys + [x])| ==> Place(fs, x)[k].first == Firsts(ys + [x])[k]
    {
      GroupNext(ys, x, k);
      NextCount(|fs[k].intfs|);
    }
  }

  lemma Unused(ys: seq<Interface>, k: nat)
    ensures k >= |Firsts(ys)| ==> GroupAt(ys, k).intfs == []
  {
  }

  function FirstUnused(fs: seq<Func>): (k: nat)
    ensures k <= |fs| && (k < |fs| ==> fs[k].nIntf == 0) && forall j | 0 <= j < k :: fs[j].nIntf > 0
  {
    if fs == [] || fs[0].nIntf == 0 then 0 else 1 + FirstUnused(fs[1..])
  }

  /** An interface whose way is blocked goes to the entry of another number. */
  lemma PlaceBlocked(fs: seq<Func>, ys: seq<Interface>, x: Interface) returns (k: nat)
    requires Counted(fs, ys) && Blocked(ys, Num(x), |fs|)
    ensures k < |fs| && k < |Firsts(ys)| && Firsts(ys)[k] != Num(x) && x in Place(fs, x)[k].intfs
  {
    hide GroupAt, Firsts, Num, Place;
    k := FirstUnused(fs);
    var j :| 0 <= j < |fs| && j < Slot(ys, Num(x)) && j < |Firsts(ys)| && |GroupAt(ys, j).intfs| % 256 == 0;
    assert fs[j].nIntf == 0;
    PlaceAt(fs, x, k);
    assert Place(fs, x)[k].intfs == fs[k].intfs + [x];
  }

  lemma {:induction false} PlaceAppends(fs: seq<Func>, x: Interface, k: nat)
    requires k < |fs|
    ensures fs[k].intfs <= Place(fs, x)[k].intfs
  {
    if k > 0 { PlaceAppends(fs[1..], x, k - 1); }
  }

  lemma {:induction false} PlaceAllAppends(fs: seq<Func>, xs: seq<Interface>, k: nat)
    requires k < |fs|
    ensures fs[k].intfs <= PlaceAll(fs, xs)[k].intfs
    decreases |xs|
  {
    hide Place;
    if xs != [] {
      PlaceAppends(fs, xs[0], k);
      PlaceAllAppends(Place(fs, xs[0]), xs[1..], k);
    }
  }

  lemma {:induction false} FirstsKept(ys: seq<Interface>, zs: seq<Interface>, k: nat)
    requires k < |Firsts(ys)|
    ensures k < |Firsts(ys + zs)| && Firsts(ys + zs)[k] == Firsts(ys)[k]
    decreases |zs|
  {
    if zs == [] {
      assert ys + zs == ys;
    } else {
      var z := zs[|zs| - 1];
      FirstsKept(ys, zs[..|zs| - 1], k);
      assert ys + zs == ys + zs[..|zs| - 1] + [z];
      FirstsSnoc(ys + zs[..|zs| - 1], z);
    }
  }

  /** What went to the entry of another number stays there. */
  lemma Misplaced(fs: seq<Func>, ys: seq<Interface>, xs: seq<Interface>)
    requires Counted(fs, ys) && xs != [] && Blocked(ys, Num(xs[0]), |fs|)
    ensures !Grouped(PlaceAll(fs, xs), ys + xs)
  {
    hide Firsts, Num, Place, Pick;
    var x := xs[0];
    var k := PlaceBlocked(fs, ys, x);
    PlaceAllAppends(Place(fs, x), xs[1..], k);
    FirstsKept(ys, xs, k);
    var n := Firsts(ys)[k];
    PickMembers(ys + xs, {n as int});
    assert x !in GroupAt(ys + xs, k).intfs;
  }

  /** The interfaces still to come, after `done`. */
  ghost predicate SteadyFrom(done: seq<Interface>, xs: seq<Interface>, m: nat)
    decreases |xs|
  {
    xs == [] || (!Blocked(done, Num(xs[0]), m) && SteadyFrom(done + [xs[0]], xs[1..], m))
  }

  lemma {:induction false} SteadyMeans(done: seq<Interface>, xs: seq<Interface>, m: nat)
    ensures SteadyFrom(done, xs, m) <==> forall i | 0 <= i < |xs| :: !Blocked(done + xs[..i], Num(xs[i]), m)
    decreases |xs|
  {
    hide Blocked, Num;
    if xs != [] {
      var x, t := xs[0], xs[1..];
      SteadyMeans(done + [x], t, m);
      assert done + xs[..0] == done;
      assert forall i | 0 <= i < |t| :: done + [x] + t[..i] == done + xs[..i + 1] && t[i] == xs[i + 1];
      assert forall i | 0 < i < |xs| :: done + [x] + t[..i - 1] == done + xs[..i] && t[i - 1] == xs[i];
    }
  }

  lemma {:induction false} PlaceAllFrom(fs: seq<Func>, done: seq<Interface>, xs: seq<Interface>)
    requires Counted(fs, done)
    ensures Grouped(PlaceAll(fs, xs), done + xs) <==> SteadyFrom(done, xs, |fs|)
    decreases |xs|
  {
    hide Blocked, Counted, Grouped, Place, Num;
    if xs == [] {
      assert done + xs == done;
      assert Grouped(fs, done) by { CountedGrouped(fs, done); }
    } else if Blocked(done, Num(xs[0]), |fs|) {
      Misplaced(fs, done, xs);
    } else {
      PlaceSteady(fs, done, xs[0]);
      PlaceAllFrom(Place(fs, xs[0]), done + [xs[0]], xs[1..]);
      assert done + [xs[0]] + xs[1..] == done + xs;
    }
  }

  lemma CountedGrouped(fs: seq<Func>, ys: seq<Interface>)
    requires Counted(fs, ys)
    ensures Grouped(fs, ys)
  {
  }

  /** Placing the left-over interfaces groups them by number, in order of first appearance, as far
      as the table goes, exactly when none comes while an entry before its place looks unused. */
  lemma PlaceAllGroups(xs: seq<Interface>, m: nat)
    ensures Grouped(PlaceAll(Blank(m), xs), xs) <==> Steady(xs, m)
  {
    hide PlaceAll, Grouped, Blocked;
    BlankCounted(m);
    PlaceAllFrom(Blank(m), [], xs);
    SteadyMeans([], xs, m);
    assert [] + xs == xs && forall i | 0 <= i < |xs| :: [] + xs[..i] == xs[..i];
  }

  lemma BlankCounted(m: nat)
    ensures Counted(Blank(m), [])
  {
  }

  /** It is so whenever no number has more than 255 interfaces. */
  lemma FewSteady(xs: seq<Interface>, m: nat)
    requires Few(xs)
    ensures Steady(xs, m)
  {
    forall i | 0 <= i < |xs| ensures !Blocked(xs[..i], Num(xs[i]), m) {
      assert xs[..i] + xs[i..] == xs;
      FewStart(xs[..i], xs[i..]);
      NotBlocked(xs[..i], Num(xs[i]), m);
    }
  }

  lemma NotBlocked(ys: seq<Interface>, n: Octet, m: nat)
    requires Few(ys)
    ensures !Blocked(ys, n, m)
  {
    forall k | 0 <= k < |Firsts(ys)| ensures |GroupAt(ys, k).intfs| % 256 != 0 { GroupInUse(ys, k); }
  }

  lemma ShortIsFew(xs: seq<Interface>)
    requires |xs| <= 255
    ensures Few(xs)
  {
    forall n: Octet ensures Many(xs, n) <= 255 { PickLength(xs, {n as int}); }
  }

  // ---- who finds a place at all ----

  /** What an entry looks like to the scan, and whether it holds any interface. */
  datatype Entry = Entry(first: Octet, n: Octet, used: bool)

  function Entries(fs: seq<Func>): (ss: seq<Entry>)
    ensures |ss| == |fs|
  {
    if fs == [] then [] else [Entry(fs[0].first, fs[0].nIntf, fs[0].intfs != [])] + Entries(fs[1..])
  }

  /** The scan for a place fails: every entry is in use, by another number. */
  predicate Refuses(ss: seq<Entry>, n: Octet) {
    forall k | 0 <= k < |ss| :: ss[k].n > 0 && ss[k].first != n
  }

  /** The table after an interface with number `n`. */
  function Seat(ss: seq<Entry>, n: Octet): (r: seq<Entry>)
    ensures |r| == |ss|
  {
    if ss == [] then []
    else if ss[0].n > 0 then
      if ss[0].first == n then [Entry(n, (ss[0].n + 1) % 256, true)] + ss[1..] else [ss[0]] + Seat(ss[1..], n)
    else [Entry(n, 1, true)] + ss[1..]
  }

  /** No scan fails for interfaces with these numbers. */
  predicate AllSeated(ss: seq<Entry>, ns: seq<Octet>)
    decreases |ns|
  {
    ns == [] || (!Refuses(ss, ns[0]) && AllSeated(Seat(ss, ns[0]), ns[1..]))
  }

  function SeatAll(ss: seq<Entry>, ns: seq<Octet>): (r: seq<Entry>)
    ensures |r| == |ss|
    decreases |ns|
  {
    if ns == [] then ss else SeatAll(Seat(ss, ns[0]), ns[1..])
  }

  function NumList(xs: seq<Interface>): (ns: seq<Octet>) {
    if xs == [] then [] else [Num(xs[0])] + NumList(xs[1..])
  }

  /** All interfaces held by the functions. */
  function Held(fs: seq<Func>): (m: multiset<Interface>) {
    if fs == [] then multiset{} else multiset(fs[0].intfs) + Held(fs[1..])
  }

  lemma HeldCons(f: Func, fs: seq<Func>)
    ensures Held([f] + fs) == multiset(f.intfs) + Held(fs)
    ensures Entries([f] + fs) == [Entry(f.first, f.nIntf, f.intfs != [])] + Entries(fs)
  {
    assert ([f] + fs)[1..] == fs;
  }

  lemma RefusesCons(s: Entry, ss: seq<Entry>, n: Octet)
    ensures Refuses([s] + ss, n) <==> s.n > 0 && s.first != n && Refuses(ss, n)
  {
    var t := [s] + ss;
    assert t[0] == s && forall k | 0 <= k < |ss| :: t[k + 1] == ss[k];
    if Refuses(t, n) {
      forall k | 0 <= k < |ss| ensures ss[k].n > 0 && ss[k].first != n { assert t[k + 1] == ss[k]; }
    }
  }

  /** Placing an interface is seating its number, and it is held afterwards unless refused. */
  lemma {:induction false} PlaceSeats(fs: seq<Func>, x: Interface)
    ensures Entries(Place(fs, x)) == Seat(Entries(fs), Num(x))
    ensures Held(Place(fs, x)) == Held(fs) + if Refuses(Entries(fs), Num(x)) then multiset{} else multiset{x}
  {
    hide Num, Refuses;
    if fs == [] {
      assert Refuses([], Num(x)) by { NoneRefuses(Num(x)); }
    } else {
      var f, t := fs[0], fs[1..];
      assert fs == [f] + t;
      HeldCons(f, t);
      RefusesCons(Entry(f.first, f.nIntf, f.intfs != []), Entries(t), Num(x));
      PlaceSeats(t, x);
      if f.nIntf > 0 && f.first != Num(x) {
        HeldCons(f, Place(t, x));
      } else {
        HeldCons(if f.nIntf > 0 then Grow(f, x) else Open(f, x), t);
      }
    }
  }

  lemma NoneRefuses(n: Octet)
    ensures Refuses([], n)
  {
  }

  /** Nothing is lost among the left-over interfaces exactly when no scan fails. */
  lemma {:induction false} PlaceAllSeats(fs: seq<Func>, xs: seq<Interface>)
    ensures Entries(PlaceAll(fs, xs)) == SeatAll(Entries(fs), NumList(xs))
    ensures |Held(PlaceAll(fs, xs))| <= |Held(fs)| + |xs|
    ensures Held(PlaceAll(fs, xs)) == Held(fs) + multiset(xs) <==> AllSeated(Entries(fs), NumList(xs))
    decreases |xs|
  {
    hide Num, Place, Seat, Refuses, Held, Entries;
    if xs != [] {
      var x, t, gs := xs[0], xs[1..], Place(fs, xs[0]);
      PlaceSeats(fs, x);
      PlaceAllSeats(gs, t);
      assert xs == [x] + t;
      assert multiset(xs) == multiset{x} + multiset(t);
      if Refuses(Entries(fs), Num(x)) {
        assert |Held(PlaceAll(fs, xs))| <= |Held(fs)| + |t|;
        assert |Held(fs) + multiset(xs)| == |Held(fs)| + |xs|;
      } else {
        assert Held(gs) + multiset(t) == Held(fs) + multiset(xs);
      }
    }
  }

  // ---- who owns which interface number ----

  /** For each entry of the table the set of interface numbers that end up in it. */
  function Owned(ds: seq<seq<Octet>>, taken: set<int>, left: seq<Octet>, m: nat): (r: seq<set<int>>)
    ensures |r| == |ds| + m
  {
    if ds == [] then seq(m, k requires 0 <= k < m => if k < |left| then {left[k] as int} else {})
    else [Range(ds[0]) - taken] + Owned(ds[1..], taken + Range(ds[0]), left, m)
  }

  function Claimed(ds: seq<seq<Octet>>): (r: set<int>) {
    if ds == [] then {} else Range(ds[0]) + Claimed(ds[1..])
  }

  lemma {:induction false} ClaimLeaves(ds: seq<seq<Octet>>, xs: seq<Interface>, room: nat)
    requires |ds| <= room
    ensures Claim(ds, xs, room).left == Drop(xs, Claimed(ds))
  {
    if ds == [] {
      PickNothing(xs, {});
    } else {
      ClaimLeaves(ds[1..], Drop(xs, Range(ds[0])), room - 1);
      PickDrop(xs, Range(ds[0]), Claimed(ds[1..]));
    }
  }

  ghost predicate Covered(o: seq<set<int>>, v: int) {
    exists j :: 0 <= j < |o| && v in o[j]
  }

  ghost predicate Disjoint(o: seq<set<int>>) {
    forall i, j | 0 <= i < j < |o| :: o[i] !! o[j]
  }

  lemma CoveredCons(a: set<int>, o: seq<set<int>>, v: int)
    ensures Covered([a] + o, v) <==> v in a || Covered(o, v)
  {
    var p := [a] + o;
    if v in a { assert v in p[0]; }
    if j :| 0 <= j < |o| && v in o[j] { assert v in p[j + 1]; }
    if j :| 0 <= j < |p| && v in p[j] { assert j > 0 ==> v in o[j - 1]; }
  }

  lemma DisjointCons(a: set<int>, o: seq<set<int>>)
    requires Disjoint(o) && forall j | 0 <= j < |o| :: a !! o[j]
    ensures Disjoint([a] + o)
  {
    var p := [a] + o;
    forall i, j | 0 <= i < j < |p| ensures p[i] !! p[j] {
      assert p[j] == o[j - 1];
      if i > 0 { assert p[i] == o[i - 1]; }
    }
  }

  /** The numbers owned once the associations are through. */
  lemma OwnedPlain(left: seq<Octet>, m: nat, taken: set<int>)
    requires forall i, j | 0 <= i < j < |left| :: left[i] != left[j]
    requires forall k | 0 <= k < |left| :: left[k] as int !in taken
    ensures var o := Owned([], taken, left, m);
      && Disjoint(o) && (forall j | 0 <= j < |o| :: o[j] !! taken)
      && (forall v :: Covered(o, v) <==> (exists k :: 0 <= k < m && k < |left| && left[k] as int == v))
  {
    var o := Owned([], taken, left, m);
    forall v ensures Covered(o, v) <==> (exists k :: 0 <= k < m && k < |left| && left[k] as int == v) {
      if j :| 0 <= j < |o| && v in o[j] { assert left[j] as int == v; }
      if k :| 0 <= k < m && k < |left| && left[k] as int == v { assert v in o[k]; }
    }
  }

  lemma {:induction false} OwnedFacts(ds: seq<seq<Octet>>, taken: set<int>, left: seq<Octet>, m: nat)
    requires forall i, j | 0 <= i < j < |left| :: left[i] != left[j]
    requires forall k | 0 <= k < |left| :: left[k] as int !in taken && left[k] as int !in Claimed(ds)
    ensures var o := Owned(ds, taken, left, m);
      && Disjoint(o) && (forall j | 0 <= j < |o| :: o[j] !! taken)
      && (forall v :: Covered(o, v) <==>
            (v in Claimed(ds) && v !in taken) || (exists k :: 0 <= k < m && k < |left| && left[k] as int == v))
  {
    hide Range, Disjoint, Covered;
    if ds == [] {
      OwnedPlain(left, m, taken);
    } else {
      var r := Range(ds[0]);
      var rest := Owned(ds[1..], taken + r, left, m);
      OwnedFacts(ds[1..], taken + r, left, m);
      DisjointCons(r - taken, rest);
      forall v { CoveredCons(r - taken, rest, v); }
    }
  }

  lemma {:induction false} ClaimOwned(ds: seq<seq<Octet>>, xs: seq<Interface>, taken: set<int>, all: seq<Interface>,
                                      left: seq<Octet>, m: nat, room: nat)
    requires |ds| <= room && xs == Drop(all, taken)
    ensures forall j | 0 <= j < |ds| ::
      Claim(ds, xs, room).funs[j].intfs == Pick(all, Owned(ds, taken, left, m)[j])
  {
    hide Range, Pick, Drop;
    if ds != [] {
      var r := Range(ds[0]);
      PickDrop(all, taken, r);
      ClaimOwned(ds[1..], Drop(xs, r), taken + r, all, left, m, room - 1);
      var o, c := Owned(ds[1..], taken + r, left, m), Claim(ds[1..], Drop(xs, r), room - 1);
      var f := AssocFunc(ds[0], Pick(xs, r));
      assert Owned(ds, taken, left, m) == [r - taken] + o && Claim(ds, xs, room).funs == [f] + c.funs;
      forall j | 0 <= j < |ds| ensures ([f] + c.funs)[j].intfs == Pick(all, ([r - taken] + o)[j]) {
        if j > 0 { assert ([f] + c.funs)[j] == c.funs[j - 1] && ([r - taken] + o)[j] == o[j - 1]; }
      }
    }
  }

  lemma {:induction false} ClaimPrefix(ds: seq<seq<Octet>>, xs: seq<Interface>, room: nat)
    ensures Claim(ds, xs, room) == Claim(ds[..Least(|ds|, room)], xs, room)
  {
    hide Range, Pick, Drop;
    var k := Least(|ds|, room);
    if ds != [] && room > 0 {
      ClaimPrefix(ds[1..], Drop(xs, Range(ds[0])), room - 1);
      assert ds[..k][1..] == ds[1..][..k - 1];
    }
  }

  lemma {:induction false} OwnedTail(ds: seq<seq<Octet>>, taken: set<int>, left: seq<Octet>, m: nat, k: nat)
    requires k < m
    ensures Owned(ds, taken, left, m)[|ds| + k] == if k < |left| then {left[k] as int} else {}
  {
    if ds != [] { OwnedTail(ds[1..], taken + Range(ds[0]), left, m, k); }
  }

  /** The associations that fit the table, what they leave over, and the ownership of numbers. */
  function Kept(numIntfs: Octet, ds: seq<seq<Octet>>): (r: seq<seq<Octet>>) {
    ds[..Least(|ds|, TableSize(numIntfs, ds))]
  }

  function LeftOver(numIntfs: Octet, ds: seq<seq<Octet>>, xs: seq<Interface>): (r: seq<Interface>) {
    Drop(xs, Claimed(Kept(numIntfs, ds)))
  }

  /** The entries of the table that are left when the associations have theirs. */
  function Spare(numIntfs: Octet, ds: seq<seq<Octet>>): (r: nat) { TableSize(numIntfs, ds) - |Kept(numIntfs, ds)| }

  function Owners(numIntfs: Octet, ds: seq<seq<Octet>>, xs: seq<Interface>): (o: seq<set<int>>)
    ensures |o| == TableSize(numIntfs, ds)
  {
    var d := Kept(numIntfs, ds);
    Owned(d, {}, Firsts(LeftOver(numIntfs, ds, xs)), TableSize(numIntfs, ds) - |d|)
  }

  /** Which part of the table an entry comes from. */
  lemma FunctionParts(numIntfs: Octet, ds: seq<seq<Octet>>, xs: seq<Interface>, j: nat)
    requires j < TableSize(numIntfs, ds)
    ensures var n, d := TableSize(numIntfs, ds), Kept(numIntfs, ds);
      Functions(numIntfs, ds, xs)[j] ==
        if j < |d| then Claim(d, xs, n).funs[j]
        else PlaceAll(Blank(n - |d|), LeftOver(numIntfs, ds, xs))[j - |d|]
  {
    hide Claim, PlaceAll, Drop, Claimed, TableSize;
    var n, d := TableSize(numIntfs, ds), Kept(numIntfs, ds);
    ClaimPrefix(ds, xs, n);
    ClaimLeaves(d, xs, n);
  }

  lemma OwnersUnfold(numIntfs: Octet, ds: seq<seq<Octet>>, xs: seq<Interface>)
    ensures var n, d := TableSize(numIntfs, ds), Kept(numIntfs, ds);
      Owners(numIntfs, ds, xs) == Owned(d, {}, Firsts(LeftOver(numIntfs, ds, xs)), n - |d|)
  {
    hide Owned, TableSize, Firsts, LeftOver;
  }

  lemma GroupOwned(xs: seq<Interface>, d: seq<seq<Octet>>, left: seq<Interface>, m: nat, k: nat)
    requires left == Drop(xs, Claimed(d)) && k < m
    ensures GroupAt(left, k).intfs == Pick(xs, Owned(d, {}, Firsts(left), m)[|d| + k])
  {
    hide Range, Pick, Drop, Firsts, Group, GroupAt, Owned, Claimed;
    OwnedTail(d, {}, Firsts(left), m, k);
    GroupPicks(left, xs, Claimed(d), k);
  }

  lemma ClaimOwns(xs: seq<Interface>, d: seq<seq<Octet>>, nums: seq<Octet>, m: nat, n: nat, j: nat)
    requires j < |d| <= n
    ensures Claim(d, xs, n).funs[j].intfs == Pick(xs, Owned(d, {}, nums, m)[j])
  {
    hide Range, Pick, Drop, Owned, Claim;
    PickNothing(xs, {});
    ClaimOwned(d, xs, {}, xs, nums, m, n);
  }

  /** An entry of the table and the numbers it owns, for either part of the table. */
  lemma EntryOwns(numIntfs: Octet, ds: seq<seq<Octet>>, xs: seq<Interface>, j: nat)
    requires j < TableSize(numIntfs, ds)
    ensures var d, left := Kept(numIntfs, ds), LeftOver(numIntfs, ds, xs);
      var f, own := Functions(numIntfs, ds, xs)[j].intfs, Pick(xs, Owners(numIntfs, ds, xs)[j]);
      if j < |d| then f == own
      else f == PlaceAll(Blank(Spare(numIntfs, ds)), left)[j - |d|].intfs && own == GroupAt(left, j - |d|).intfs
  {
    hide Functions, Owners, Pick, Drop, Firsts, Owned, Claim, Claimed, PlaceAll, Blank, TableSize, GroupAt;
    var d, left := Kept(numIntfs, ds), LeftOver(numIntfs, ds, xs);
    FunctionParts(numIntfs, ds, xs, j);
    OwnersUnfold(numIntfs, ds, xs);
    if j < |d| {
      ClaimOwns(xs, d, Firsts(left), Spare(numIntfs, ds), TableSize(numIntfs, ds), j);
    } else {
      GroupOwned(xs, d, left, Spare(numIntfs, ds), j - |d|);
    }
  }

  lemma GroupPicks(left: seq<Interface>, xs: seq<Interface>, claimed: set<int>, k: nat)
    requires left == Drop(xs, claimed)
    ensures GroupAt(left, k).intfs == Pick(xs, if k < |Firsts(left)| then {Firsts(left)[k] as int} else {})
  {
    hide Pick, Drop, Firsts;
    if k < |Firsts(left)| {
      var ns := {Firsts(left)[k] as int};
      UnclaimedNumber(left, xs, claimed, k);
      PickDrop(xs, claimed, ns);
      assert ns - claimed == ns;
    } else {
      PickNothing(xs, {});
    }
  }

  // ---- what the table holds ----

  lemma {:induction false} PickHeld(xs: seq<Interface>, ns: set<int>)
    ensures multiset(Pick(xs, ns)) + multiset(Drop(xs, ns)) == multiset(xs)
    ensures forall x :: multiset(Pick(xs, ns))[x] == if Num(x) in ns then multiset(xs)[x] else 0
  {
    if xs != [] {
      assert xs == [xs[0]] + xs[1..];
      PickHeld(xs[1..], ns);
    }
  }

  lemma {:induction false} HeldConcat(fs: seq<Func>, gs: seq<Func>)
    ensures Held(fs + gs) == Held(fs) + Held(gs)
  {
    if fs == [] {
      assert fs + gs == gs;
    } else {
      assert fs + gs == [fs[0]] + (fs[1..] + gs);
      HeldCons(fs[0], fs[1..] + gs);
      HeldConcat(fs[1..], gs);
    }
  }

  lemma {:induction false} ClaimHeld(ds: seq<seq<Octet>>, xs: seq<Interface>, room: nat)
    ensures var c := Claim(ds, xs, room); Held(c.funs) + multiset(c.left) == multiset(xs)
  {
    hide Pick, Drop, Range, Held;
    if ds == [] || room == 0 {
      NothingHeld();
    } else {
      var r := Range(ds[0]);
      ClaimHeld(ds[1..], Drop(xs, r), room - 1);
      PickHeld(xs, r);
      ClaimedMore(AssocFunc(ds[0], Pick(xs, r)), Claim(ds[1..], Drop(xs, r), room - 1), Drop(xs, r), xs);
    }
  }

  lemma NothingHeld()
    ensures Held([]) == multiset{}
  {
  }

  lemma ClaimedMore(f: Func, c: Claims, t: seq<Interface>, xs: seq<Interface>)
    requires Held(c.funs) + multiset(c.left) == multiset(t) && multiset(f.intfs) + multiset(t) == multiset(xs)
    ensures Held([f] + c.funs) + multiset(c.left) == multiset(xs)
  {
    HeldCons(f, c.funs);
    hide Held;
    Regrouped(multiset(f.intfs), Held(c.funs), multiset(c.left), multiset(t), multiset(xs));
  }

  lemma Regrouped<T>(p: multiset<T>, k: multiset<T>, r: multiset<T>, d: multiset<T>, x: multiset<T>)
    requires k + r == d && p + d == x
    ensures p + k + r == x
  {
  }

  const VACANT := Entry(0, 0, false)

  function Vacant(m: nat): (ss: seq<Entry>)
    ensures |ss| == m
  {
    seq(m, _ => VACANT)
  }

  lemma {:induction false} BlankEntries(m: nat)
    ensures Entries(Blank(m)) == Vacant(m) && Held(Blank(m)) == multiset{}
  {
    if m == 0 {
      NothingHeld();
      assert Blank(0) == [] && Vacant(0) == [] && Entries([]) == [];
    } else {
      BlankEntries(m - 1);
      HeldCons(EMPTY, Blank(m - 1));
      hide Held, Entries;
      assert Blank(m) == [EMPTY] + Blank(m - 1);
      assert Vacant(m) == [VACANT] + Vacant(m - 1);
    }
  }

  /** No scan for a place fails, in the entries the associations leave and for the interfaces they
      leave over. This depends on the interface numbers only. */
  predicate NoneRefused(numIntfs: Octet, ds: seq<seq<Octet>>, xs: seq<Interface>) {
    AllSeated(Vacant(Spare(numIntfs, ds)), NumList(LeftOver(numIntfs, ds, xs)))
  }

  lemma FunctionsSplit(numIntfs: Octet, ds: seq<seq<Octet>>, xs: seq<Interface>)
    ensures var c, left := Claim(ds, xs, TableSize(numIntfs, ds)), LeftOver(numIntfs, ds, xs);
      && |c.funs| == |Kept(numIntfs, ds)| && c.left == left
      && Functions(numIntfs, ds, xs) == c.funs + PlaceAll(Blank(Spare(numIntfs, ds)), left)
  {
    hide Claim, PlaceAll, Drop, Claimed, TableSize;
    var n, d := TableSize(numIntfs, ds), Kept(numIntfs, ds);
    ClaimPrefix(ds, xs, n);
    ClaimLeaves(d, xs, n);
  }

  /** The table holds all interfaces, each as often as it was parsed, exactly when no scan fails;
      it never holds more. */
  lemma NothingLost(numIntfs: Octet, ds: seq<seq<Octet>>, xs: seq<Interface>)
    ensures Held(Functions(numIntfs, ds, xs)) == multiset(xs) <==> NoneRefused(numIntfs, ds, xs)
    ensures |Held(Functions(numIntfs, ds, xs))| <= |xs|
  {
    hide Claim, PlaceAll, Functions, LeftOver, TableSize, Held, Vacant, NumList, AllSeated;
    var c, left, n := Claim(ds, xs, TableSize(numIntfs, ds)), LeftOver(numIntfs, ds, xs), Spare(numIntfs, ds);
    FunctionsSplit(numIntfs, ds, xs);
    ClaimHeld(ds, xs, TableSize(numIntfs, ds));
    HeldConcat(c.funs, PlaceAll(Blank(n), left));
    BlankEntries(n);
    PlaceAllSeats(Blank(n), left);
    var h, k := Held(PlaceAll(Blank(n), left)), Held(c.funs);
    assert |multiset(xs)| == |k| + |left|;
    assert multiset{} + multiset(left) == multiset(left);
    assert k + h == k + multiset(left) <==> h == multiset(left) by { CancelLeft(k, h, multiset(left)); }
  }

  lemma CancelLeft<T>(k: multiset<T>, a: multiset<T>, b: multiset<T>)
    ensures k + a == k + b <==> a == b
  {
    if k + a == k + b {
      forall x ensures a[x] == b[x] { assert (k + a)[x] == (k + b)[x]; }
      assert a == b;
    }
  }

  /** The interface lies in one entry and in no other. */
  ghost predicate InOne(fs: seq<Func>, x: Interface) {
    exists j :: 0 <= j < |fs| && x in fs[j].intfs && forall i | 0 <= i < |fs| && i != j :: x !in fs[i].intfs
  }

  /** Where each entry holds what it owns, an interface lies in exactly one entry if its number is
      owned, and in none otherwise. */
  lemma OwnedInOne(fs: seq<Func>, o: seq<set<int>>, xs: seq<Interface>, x: Interface)
    requires |fs| == |o| && Disjoint(o) && (forall j | 0 <= j < |fs| :: fs[j].intfs == Pick(xs, o[j])) && x in xs
    ensures InOne(fs, x) <==> Covered(o, Num(x))
  {
    hide Num, Pick;
    forall j | 0 <= j < |fs| ensures x in fs[j].intfs <==> Num(x) as int in o[j] { PickMembers(xs, o[j]); }
    if j :| 0 <= j < |o| && Num(x) as int in o[j] {
      assert x in fs[j].intfs && forall i | 0 <= i < |fs| && i != j :: x !in fs[i].intfs;
    }
  }

  /** No number is owned twice. Every function holds exactly the interfaces of the numbers it
      owns, in their original order, exactly when no left-over interface comes while an entry
      before its place looks unused; then each interface lies in exactly one function when there
      is an entry for each number no association claims. In every case the functions together
      hold all interfaces exactly when no scan for a place fails. */
  lemma OwnedPartition(numIntfs: Octet, ds: seq<seq<Octet>>, xs: seq<Interface>)
    ensures var o := Owners(numIntfs, ds, xs); var fs := Functions(numIntfs, ds, xs);
      && Disjoint(o) && |o| == |fs|
      && ((forall j | 0 <= j < |fs| :: fs[j].intfs == Pick(xs, o[j])) <==>
            Steady(LeftOver(numIntfs, ds, xs), Spare(numIntfs, ds)))
    ensures (forall x | x in xs :: Covered(Owners(numIntfs, ds, xs), Num(x))) <==>
      |Firsts(LeftOver(numIntfs, ds, xs))| + |Kept(numIntfs, ds)| <= TableSize(numIntfs, ds)
    ensures Steady(LeftOver(numIntfs, ds, xs), Spare(numIntfs, ds)) ==>
      ((forall x | x in xs :: InOne(Functions(numIntfs, ds, xs), x)) <==>
         |Firsts(LeftOver(numIntfs, ds, xs))| <= Spare(numIntfs, ds))
    ensures Held(Functions(numIntfs, ds, xs)) == multiset(xs) <==> NoneRefused(numIntfs, ds, xs)
  {
    hide Functions, Pick, Firsts, Owned, Claimed, PlaceAll, Steady, InOne, Covered, Held, NoneRefused;
    var d, left := Kept(numIntfs, ds), LeftOver(numIntfs, ds, xs);
    var m := Spare(numIntfs, ds);
    OwnedExactly(numIntfs, ds, xs);
    FirstsFacts(left);
    forall k | 0 <= k < |Firsts(left)| ensures Firsts(left)[k] as int !in Claimed(d) {
      UnclaimedNumber(left, xs, Claimed(d), k);
    }
    OwnedFacts(d, {}, Firsts(left), m);
    EveryoneOwned(xs, d, left, m);
    NothingLost(numIntfs, ds, xs);
    if Steady(left, m) {
      forall x | x in xs
        ensures InOne(Functions(numIntfs, ds, xs), x) <==> Covered(Owners(numIntfs, ds, xs), Num(x))
      {
        OwnedInOne(Functions(numIntfs, ds, xs), Owners(numIntfs, ds, xs), xs, x);
      }
    }
  }

  lemma OwnedExactly(numIntfs: Octet, ds: seq<seq<Octet>>, xs: seq<Interface>)
    ensures var o := Owners(numIntfs, ds, xs); var fs := Functions(numIntfs, ds, xs);
      (forall j | 0 <= j < |fs| :: fs[j].intfs == Pick(xs, o[j])) <==>
        Steady(LeftOver(numIntfs, ds, xs), Spare(numIntfs, ds))
  {
    hide Functions, Owners, Pick, PlaceAll, Steady, GroupAt, TableSize, LeftOver;
    var o, fs := Owners(numIntfs, ds, xs), Functions(numIntfs, ds, xs);
    var d, left, m := Kept(numIntfs, ds), LeftOver(numIntfs, ds, xs), Spare(numIntfs, ds);
    var gs := PlaceAll(Blank(m), left);
    PlaceAllGroups(left, m);
    forall j | 0 <= j < |fs|
      ensures fs[j].intfs == Pick(xs, o[j]) <==> (j < |d| || gs[j - |d|].intfs == GroupAt(left, j - |d|).intfs)
    {
      EntryOwns(numIntfs, ds, xs, j);
    }
    assert forall k | 0 <= k < m :: gs[k].intfs == GroupAt(left, k).intfs <==>
      fs[|d| + k].intfs == Pick(xs, o[|d| + k]);
  }

  lemma UnclaimedNumber(left: seq<Interface>, xs: seq<Interface>, claimed: set<int>, k: nat)
    requires left == Drop(xs, claimed) && k < |Firsts(left)|
    ensures Firsts(left)[k] as int !in claimed
  {
    FirstsFacts(left);
    PickMembers(xs, claimed);
    var n := Firsts(left)[k];
    assert n in Firsts(left) && n as int in Nums(left);
    NumsOf(left, n);
  }

  lemma EveryoneOwned(xs: seq<Interface>, d: seq<seq<Octet>>, left: seq<Interface>, m: nat)
    requires left == Drop(xs, Claimed(d))
    ensures (forall x | x in xs :: Covered(Owned(d, {}, Firsts(left), m), Num(x))) <==> |Firsts(left)| <= m
  {
    var nums := Firsts(left);
    var o := Owned(d, {}, nums, m);
    FirstsFacts(left);
    PickMembers(xs, Claimed(d));
    forall k | 0 <= k < |nums| ensures nums[k] as int !in Claimed(d) { UnclaimedNumber(left, xs, Claimed(d), k); }
    OwnedFacts(d, {}, nums, m);
    if |nums| <= m {
      forall x | x in xs ensures Covered(o, Num(x)) {
        if Num(x) as int !in Claimed(d) {
          assert x in left;
          NumsOf(left, Num(x));
          assert Num(x) in nums;
        }
      }
    } else {
      var n := nums[m];
      assert n in nums && n as int in Nums(left);
      NumsOf(left, n);
      var x :| x in left && Num(x) as int == n as int;
      assert x in xs && !Covered(o, Num(x));
    }
  }

  // ---- descriptors that follow the specification ----

  /** No association claims a number that a later one claims. */
  ghost predicate Apart(ds: seq<seq<Octet>>) {
    ds == [] || (Range(ds[0]) !! Claimed(ds[1..]) && Apart(ds[1..]))
  }

  /** The announced count is the number of interface numbers; associations cover disjoint,
      non-empty ranges of numbers that are present. */
  ghost predicate Conforming(numIntfs: Octet, ds: seq<seq<Octet>>, xs: seq<Interface>) {
    && numIntfs as int == |Nums(xs)|
    && Apart(ds) && Claimed(ds) <= Nums(xs)
    && forall i | 0 <= i < |ds| :: Field(ds[i], 3) > 0
  }

  lemma {:induction false} ClaimedSize(ds: seq<seq<Octet>>)
    requires Apart(ds)
    ensures |Claimed(ds)| == Merged(ds) + |ds|
  {
    if ds != [] {
      ClaimedSize(ds[1..]);
    }
  }

  lemma {:induction false} DistinctSize(s: seq<Octet>, t: set<int>)
    requires forall i, j | 0 <= i < j < |s| :: s[i] != s[j]
    requires forall n: int :: n in t <==> exists i :: 0 <= i < |s| && s[i] as int == n
    ensures |s| == |t|
  {
    if s != [] {
      var last := s[|s| - 1] as int;
      var r := s[..|s| - 1];
      assert forall n: int :: n in t - {last} <==> exists i :: 0 <= i < |r| && r[i] as int == n by {
        forall n: int ensures n in t - {last} <==> exists i :: 0 <= i < |r| && r[i] as int == n {
          if n in t - {last} { var i :| 0 <= i < |s| && s[i] as int == n; assert r[i] as int == n; }
          if i :| 0 <= i < |r| && r[i] as int == n { assert s[i] as int == n; }
        }
      }
      DistinctSize(r, t - {last});
      assert s[|s| - 1] as int == last;
    } else {
      assert forall n :: n !in t;
      assert t == {};
    }
  }

  lemma FirstsSize(xs: seq<Interface>, left: seq<Interface>, claimed: set<int>)
    requires left == Drop(xs, claimed) && claimed <= Nums(xs)
    ensures |Firsts(left)| == |Nums(xs)| - |claimed|
  {
    FirstsFacts(left);
    PickMembers(xs, claimed);
    var t := Nums(xs) - claimed;
    forall n: int ensures n in t <==> exists i :: 0 <= i < |Firsts(left)| && Firsts(left)[i] as int == n {
      NumsOf(xs, n);
      NumsOf(left, n);
      if n in t {
        var x :| x in xs && Num(x) as int == n;
        assert x in left && Num(x) in Firsts(left);
      }
      if i :| 0 <= i < |Firsts(left)| && Firsts(left)[i] as int == n {
        assert Firsts(left)[i] in Firsts(left);
        var x :| x in left && Num(x) as int == n;
        assert x in xs;
      }
    }
    DistinctSize(Firsts(left), t);
    assert |Nums(xs)| == |t| + |claimed| by { assert Nums(xs) == t + claimed && t !! claimed; }
  }

  /** For such descriptors the table has exactly one entry for each association and one for
      each number outside them, so nothing is dropped. */
  lemma ConformingSize(numIntfs: Octet, ds: seq<seq<Octet>>, xs: seq<Interface>)
    requires Conforming(numIntfs, ds, xs)
    ensures Kept(numIntfs, ds) == ds
    ensures TableSize(numIntfs, ds) == |ds| + |Firsts(LeftOver(numIntfs, ds, xs))|
    ensures forall x | x in xs :: Covered(Owners(numIntfs, ds, xs), Num(x))
  {
    hide Firsts, Drop, Range, Covered, Owners, Functions, Nums, Claimed, Merged, Apart, Pick;
    ClaimedSize(ds);
    FirstsSize(xs, Drop(xs, Claimed(ds)), Claimed(ds));
    var k := |Firsts(Drop(xs, Claimed(ds)))|;
    assert numIntfs - Merged(ds) == |ds| + k;
    NotMany(ds, numIntfs, k);
    assert ds[..|ds|] == ds;
    OwnedPartition(numIntfs, ds, xs);
  }

  lemma NotMany(ds: seq<seq<Octet>>, numIntfs: Octet, k: nat)
    requires numIntfs - Merged(ds) == |ds| + k && forall i | 0 <= i < |ds| :: Field(ds[i], 3) > 0
    ensures (numIntfs - Merged(ds)) % 256 == numIntfs - Merged(ds)
  {
    MergedNonNegative(ds);
  }

  lemma {:induction false} MergedNonNegative(ds: seq<seq<Octet>>)
    requires forall i | 0 <= i < |ds| :: Field(ds[i], 3) > 0
    ensures Merged(ds) >= 0
  {
    if ds != [] {
      assert Field(ds[0], 3) > 0;
      MergedNonNegative(ds[1..]);
    }
  }

  lemma {:induction false} FirstApart(ds: seq<seq<Octet>>, taken: set<int>)
    requires ds != [] && Apart(ds) && Claimed(ds) !! taken
    ensures Apart(ds[1..]) && Range(ds[0]) <= Claimed(ds) && Claimed(ds[1..]) <= Claimed(ds)
    ensures Range(ds[0]) - taken == Range(ds[0]) && Claimed(ds[1..]) !! taken + Range(ds[0])
  {
    hide Range;
  }

  lemma {:induction false} OwnedCons(ds: seq<seq<Octet>>, taken: set<int>, left: seq<Octet>, m: nat, j: nat)
    requires j < |ds|
    ensures Owned(ds, taken, left, m)[j] ==
      if j == 0 then Range(ds[0]) - taken else Owned(ds[1..], taken + Range(ds[0]), left, m)[j - 1]
  {
    hide Range;
  }

  lemma {:induction false} OwnedRanges(ds: seq<seq<Octet>>, taken: set<int>, left: seq<Octet>, m: nat, j: nat)
    requires j < |ds| && Apart(ds) && Claimed(ds) !! taken
    ensures Owned(ds, taken, left, m)[j] == Range(ds[j]) && Range(ds[j]) <= Claimed(ds)
  {
    hide Range, Claimed, Apart, Owned;
    FirstApart(ds, taken);
    OwnedCons(ds, taken, left, m, j);
    if j > 0 { OwnedRanges(ds[1..], taken + Range(ds[0]), left, m, j - 1); }
  }

  lemma PickSome(xs: seq<Interface>, ns: set<int>, v: int)
    requires v in ns && v in Nums(xs)
    ensures Pick(xs, ns) != []
  {
    NumsOf(xs, v);
    PickMembers(xs, ns);
    var x :| x in xs && Num(x) as int == v;
    assert x in Pick(xs, ns);
  }

  /** For conforming descriptors: association `j` becomes entry `j` and holds exactly its range;
      every further entry owns one number outside the ranges, and every number has an owner. The
      entries hold exactly the interfaces they own, in order, exactly when no left-over interface
      comes while an entry before its place looks unused; then each interface lies in exactly one
      entry and no entry is empty. In every case all interfaces are held exactly when no scan for a
      place fails, and no entry is empty exactly when the scans use all of them. */
  lemma ConformingPartition(numIntfs: Octet, ds: seq<seq<Octet>>, xs: seq<Interface>)
    requires Conforming(numIntfs, ds, xs)
    ensures var fs := Functions(numIntfs, ds, xs); var o := Owners(numIntfs, ds, xs);
      && |fs| == |o| && |ds| <= |o| && Disjoint(o)
      && (forall x | x in xs :: Covered(o, Num(x)))
      && (forall j | 0 <= j < |ds| :: o[j] == Range(ds[j]) && fs[j].intfs == Pick(xs, o[j]))
      && (forall j | |ds| <= j < |o| :: o[j] !! Claimed(ds) && |o[j]| == 1)
      && (forall j | 0 <= j < |o| :: Pick(xs, o[j]) != [])
      && ((forall j | 0 <= j < |fs| :: fs[j].intfs == Pick(xs, o[j])) <==> Steady(Drop(xs, Claimed(ds)), |fs| - |ds|))
    ensures var fs := Functions(numIntfs, ds, xs); var left := Drop(xs, Claimed(ds));
      && (Steady(left, |fs| - |ds|) ==> AllInOne(fs, xs) && NoneEmpty(fs))
      && (Held(fs) == multiset(xs) <==> AllSeated(Vacant(|fs| - |ds|), NumList(left)))
      && (NoneEmpty(fs) <==> AllUsed(SeatAll(Vacant(|fs| - |ds|), NumList(left))))
  {
    ConformingOwners(numIntfs, ds, xs);
    ConformingTable(numIntfs, ds, xs);
  }

  ghost predicate AllInOne(fs: seq<Func>, xs: seq<Interface>) { forall x | x in xs :: InOne(fs, x) }

  ghost predicate NoneEmpty(fs: seq<Func>) { forall j | 0 <= j < |fs| :: fs[j].intfs != [] }

  predicate AllUsed(ss: seq<Entry>) { forall k | 0 <= k < |ss| :: ss[k].used }

  lemma ConformingTable(numIntfs: Octet, ds: seq<seq<Octet>>, xs: seq<Interface>)
    requires Conforming(numIntfs, ds, xs)
    ensures var fs := Functions(numIntfs, ds, xs); var left := Drop(xs, Claimed(ds));
      && |ds| <= |fs|
      && (Steady(left, |fs| - |ds|) ==> AllInOne(fs, xs) && NoneEmpty(fs))
      && (Held(fs) == multiset(xs) <==> AllSeated(Vacant(|fs| - |ds|), NumList(left)))
      && (NoneEmpty(fs) <==> AllUsed(SeatAll(Vacant(|fs| - |ds|), NumList(left))))
  {
    hide Firsts, Range, Functions, Claimed, Pick, Covered, Nums, Steady, Owners, Drop, Apart, Conforming, InOne, Held,
      AllUsed, NoneEmpty, AllSeated, SeatAll;
    ConformingOwners(numIntfs, ds, xs);
    ConformingSize(numIntfs, ds, xs);
    OwnedPartition(numIntfs, ds, xs);
    var fs, o, left := Functions(numIntfs, ds, xs), Owners(numIntfs, ds, xs), Drop(xs, Claimed(ds));
    if Steady(left, |fs| - |ds|) {
      forall x | x in xs ensures InOne(fs, x) { OwnedInOne(fs, o, xs, x); }
      assert NoneEmpty(fs) by { Nonempty(fs, o, xs); }
    }
    NoneEmptyUsed(numIntfs, ds, xs);
  }

  lemma Nonempty(fs: seq<Func>, o: seq<set<int>>, xs: seq<Interface>)
    requires |fs| == |o| && forall j | 0 <= j < |fs| :: fs[j].intfs == Pick(xs, o[j]) && Pick(xs, o[j]) != []
    ensures NoneEmpty(fs)
  {
  }

  lemma {:induction false} EntriesUsed(fs: seq<Func>)
    ensures AllUsed(Entries(fs)) <==> NoneEmpty(fs)
  {
    if fs != [] {
      var f, t := fs[0], fs[1..];
      EntriesUsed(t);
      var e := Entry(f.first, f.nIntf, f.intfs != []);
      assert Entries(fs) == [e] + Entries(t) && fs == [f] + t;
      assert AllUsed([e] + Entries(t)) <==> e.used && AllUsed(Entries(t)) by { UsedCons(e, Entries(t)); }
      assert NoneEmpty([f] + t) <==> f.intfs != [] && NoneEmpty(t) by { EmptyJoin([f], t); }
    }
  }

  lemma UsedCons(e: Entry, ss: seq<Entry>)
    ensures AllUsed([e] + ss) <==> e.used && AllUsed(ss)
  {
    var t := [e] + ss;
    assert t[0] == e && forall k | 0 <= k < |ss| :: t[k + 1] == ss[k];
    if AllUsed(t) {
      forall k | 0 <= k < |ss| ensures ss[k].used { assert t[k + 1].used; }
    }
  }

  lemma EmptyJoin(fs: seq<Func>, gs: seq<Func>)
    ensures NoneEmpty(fs + gs) <==> NoneEmpty(fs) && NoneEmpty(gs)
  {
    var t := fs + gs;
    if NoneEmpty(t) {
      forall j | 0 <= j < |fs| ensures fs[j].intfs != [] { assert t[j] == fs[j]; }
      forall j | 0 <= j < |gs| ensures gs[j].intfs != [] { assert t[|fs| + j] == gs[j]; }
    }
  }

  lemma NoneEmptyUsed(numIntfs: Octet, ds: seq<seq<Octet>>, xs: seq<Interface>)
    requires Conforming(numIntfs, ds, xs)
    ensures var fs := Functions(numIntfs, ds, xs);
      && |ds| <= |fs|
      && (NoneEmpty(fs) <==> AllUsed(SeatAll(Vacant(|fs| - |ds|), NumList(Drop(xs, Claimed(ds))))))
  {
    hide Functions, Claim, PlaceAll, Owners, Conforming, Pick, Drop, Claimed, Range, Covered, AllUsed, NoneEmpty,
      SeatAll, Vacant;
    ConformingOwners(numIntfs, ds, xs);
    ConformingSize(numIntfs, ds, xs);
    FunctionsSplit(numIntfs, ds, xs);
    var fs, left := Functions(numIntfs, ds, xs), Drop(xs, Claimed(ds));
    var c, gs := Claim(ds, xs, TableSize(numIntfs, ds)).funs, PlaceAll(Blank(|fs| - |ds|), left);
    BlankEntries(|fs| - |ds|);
    PlaceAllSeats(Blank(|fs| - |ds|), left);
    EntriesUsed(gs);
    EmptyJoin(c, gs);
    assert NoneEmpty(c) by {
      assert forall j | 0 <= j < |ds| :: c[j] == fs[j] && c[j].intfs != [];
      Claimers(c);
    }
  }

  lemma Claimers(c: seq<Func>)
    requires forall j | 0 <= j < |c| :: c[j].intfs != []
    ensures NoneEmpty(c)
  {
  }

  lemma ConformingOwners(numIntfs: Octet, ds: seq<seq<Octet>>, xs: seq<Interface>)
    requires Conforming(numIntfs, ds, xs)
    ensures var fs := Functions(numIntfs, ds, xs); var o := Owners(numIntfs, ds, xs);
      && |fs| == |o| && |ds| <= |o| && Disjoint(o)
      && (forall x | x in xs :: Covered(o, Num(x)))
      && (forall j | 0 <= j < |ds| :: o[j] == Range(ds[j]) && fs[j].intfs == Pick(xs, o[j]))
      && (forall j | |ds| <= j < |o| :: o[j] !! Claimed(ds) && |o[j]| == 1)
      && (forall j | 0 <= j < |o| :: Pick(xs, o[j]) != [])
      && ((forall j | 0 <= j < |fs| :: fs[j].intfs == Pick(xs, o[j])) <==> Steady(Drop(xs, Claimed(ds)), |fs| - |ds|))
  {
    hide Firsts, Range, Functions, Claimed, Pick, Covered, Nums, Steady, Owners, Kept, Drop, Apart;
    ConformingSize(numIntfs, ds, xs);
    OwnedPartition(numIntfs, ds, xs);
    var o := Owners(numIntfs, ds, xs);
    forall j | 0 <= j < |ds|
      ensures o[j] == Range(ds[j]) && Functions(numIntfs, ds, xs)[j].intfs == Pick(xs, o[j]) && Pick(xs, o[j]) != []
    {
      ConformingAssoc(numIntfs, ds, xs, j);
    }
    forall j | |ds| <= j < |o| ensures o[j] !! Claimed(ds) && |o[j]| == 1 && Pick(xs, o[j]) != [] {
      ConformingOther(numIntfs, ds, xs, j);
    }
  }

  lemma ConformingAssoc(numIntfs: Octet, ds: seq<seq<Octet>>, xs: seq<Interface>, j: nat)
    requires Conforming(numIntfs, ds, xs) && j < |ds| <= TableSize(numIntfs, ds) && Kept(numIntfs, ds) == ds
    ensures var own := Owners(numIntfs, ds, xs)[j];
      own == Range(ds[j]) && Functions(numIntfs, ds, xs)[j].intfs == Pick(xs, own) && Pick(xs, own) != []
  {
    hide Firsts, Range, Functions, Claimed, Pick, Nums, LeftOver, TableSize;
    EntryOwns(numIntfs, ds, xs, j);
    OwnedRanges(ds, {}, Firsts(LeftOver(numIntfs, ds, xs)), Spare(numIntfs, ds), j);
    assert Field(ds[j], 2) as int in Range(ds[j]);
    PickSome(xs, Range(ds[j]), Field(ds[j], 2));
  }

  lemma ConformingOther(numIntfs: Octet, ds: seq<seq<Octet>>, xs: seq<Interface>, j: nat)
    requires Kept(numIntfs, ds) == ds && |ds| <= j < TableSize(numIntfs, ds)
    requires TableSize(numIntfs, ds) == |ds| + |Firsts(LeftOver(numIntfs, ds, xs))|
    ensures var own := Owners(numIntfs, ds, xs)[j]; own !! Claimed(ds) && |own| == 1 && Pick(xs, own) != []
  {
    hide Firsts, Range, Claimed, Pick, Nums, TableSize;
    var left, k := LeftOver(numIntfs, ds, xs), j - |ds|;
    OwnedTail(ds, {}, Firsts(left), Spare(numIntfs, ds), k);
    var n := Firsts(left)[k];
    UnclaimedNumber(left, xs, Claimed(ds), k);
    FirstsFacts(left);
    assert n in Firsts(left) && n as int in Nums(left);
    NumsOf(left, n);
    PickMembers(xs, Claimed(ds));
    NumsOf(xs, n);
    PickSome(xs, {n as int}, n);
  }

  /** It is so when at most 255 interfaces share a number outside the ranges, however many there
      are in all. */
  lemma ConformingFew(numIntfs: Octet, ds: seq<seq<Octet>>, xs: seq<Interface>)
    requires Conforming(numIntfs, ds, xs) && Few(Drop(xs, Claimed(ds)))
    ensures var fs := Functions(numIntfs, ds, xs); var o := Owners(numIntfs, ds, xs);
      |fs| == |o| && forall j | 0 <= j < |fs| :: fs[j].intfs == Pick(xs, o[j])
  {
    hide Functions, Owners, Conforming, Steady, Few, Claimed, Pick;
    ConformingPartition(numIntfs, ds, xs);
    FewSteady(Drop(xs, Claimed(ds)), |Functions(numIntfs, ds, xs)| - |ds|);
  }

  // ---- 256 alternate settings ----

  function Copies(x: Interface, n: nat): (xs: seq<Interface>)
    ensures |xs| == n && forall k | 0 <= k < n :: xs[k] == x
  {
    seq(n, _ => x)
  }

  lemma {:induction false} CopiesGroup(x: Interface, n: nat)
    requires n > 0
    ensures Firsts(Copies(x, n)) == [Num(x)] && Pick(Copies(x, n), {Num(x) as int}) == Copies(x, n)
  {
    hide Pick, Num;
    assert Copies(x, n) == Copies(x, n - 1) + [x];
    PickSnoc(Copies(x, n - 1), x, {Num(x) as int});
    FirstsSnoc(Copies(x, n - 1), x);
    if n > 1 {
      CopiesGroup(x, n - 1);
    } else {
      PickNothing(Copies(x, 0), {Num(x) as int});
    }
  }

  /** The table after 255 interfaces of number 0. */
  lemma NearlyFull(x: Interface)
    requires Num(x) == 0
    ensures var fs := PlaceAll(Blank(2), Copies(x, 255));
      |fs| == 2 && fs[0].intfs == Copies(x, 255) && fs[0].nIntf == 255 && fs[0].first == 0 && fs[1] == EMPTY
  {
    hide Pick, Num, Firsts, PlaceAll;
    var cs := Copies(x, 255);
    CopiesGroup(x, 255);
    ShortIsFew(cs);
    assert Table([], 2) == Blank(2) by { NoFirsts(); }
    assert [] + cs == cs;
    PlaceFewGroups([], cs, 2);
  }

  lemma NoFirsts()
    ensures Firsts([]) == []
  {
  }

  /** Two more, and the one of number 1 lands with the others. */
  lemma Overflow(fs: seq<Func>, x: Interface, y: Interface)
    requires |fs| == 2 && fs[0].nIntf == 255 && fs[0].first == 0 && fs[1] == EMPTY && Num(x) == 0 && Num(y) == 1
    ensures var gs := Place(Place(fs, x), y); gs[0].intfs == fs[0].intfs + [x] + [y] && gs[1] == EMPTY
  {
    hide Num;
    PlaceAt(fs, x, 0);
    PlaceAt(Place(fs, x), y, 0);
  }

  lemma {:induction false} PlaceAllSnoc(fs: seq<Func>, xs: seq<Interface>, x: Interface)
    ensures PlaceAll(fs, xs + [x]) == Place(PlaceAll(fs, xs), x)
    decreases |xs|
  {
    if xs == [] {
      assert xs + [x] == [x] && PlaceAll(Place(fs, x), []) == Place(fs, x);
    } else {
      assert (xs + [x])[0] == xs[0] && (xs + [x])[1..] == xs[1..] + [x];
      PlaceAllSnoc(Place(fs, xs[0]), xs[1..], x);
    }
  }

  lemma CrowdedConforms(x: Interface, y: Interface)
    requires Num(x) == 0 && Num(y) == 1
    ensures Conforming(2, [], Copies(x, 255) + [x] + [y])
  {
    var xs := Copies(x, 255) + [x] + [y];
    assert Nums(xs) == {0, 1} by {
      assert Num(xs[0]) == 0 && Num(xs[256]) == 1;
      assert forall i | 0 <= i < 257 :: xs[i] == x || xs[i] == y;
    }
  }

  /** The last interface is not in a group of its own. */
  lemma CrowdedSplit(x: Interface, y: Interface)
    requires Num(x) == 0 && Num(y) == 1
    ensures y !in GroupAt(Copies(x, 255) + [x] + [y], 0).intfs
  {
    var cs := Copies(x, 255);
    CopiesGroup(x, 255);
    hide Pick, Num, Firsts;
    FirstsKept(cs, [x] + [y], 0);
    assert cs + ([x] + [y]) == cs + [x] + [y];
    PickMembers(cs + [x] + [y], {0});
  }

  /** 256 interfaces of one number and one of another conform to the specification, but they do
      not get an entry each: the count of the first entry is back at zero when the last one comes. */
  lemma Crowded(x: Interface, y: Interface)
    requires Num(x) == 0 && Num(y) == 1
    ensures var xs := Copies(x, 255) + [x] + [y];
      Conforming(2, [], xs) && Functions(2, [], xs)[0].intfs == xs && Functions(2, [], xs)[1] == EMPTY && !Steady(xs, 2)
  {
    hide PlaceAll, Place, Steady;
    var cs := Copies(x, 255);
    var xs := cs + [x] + [y];
    CrowdedConforms(x, y);
    NearlyFull(x);
    Overflow(PlaceAll(Blank(2), cs), x, y);
    PlaceAllSnoc(Blank(2), cs, x);
    PlaceAllSnoc(Blank(2), cs + [x], y);
    assert Functions(2, [], xs) == [] + PlaceAll(Blank(2), xs);
    CrowdedSplit(x, y);
    PlaceAllGroups(xs, 2);
  }


  /** Entry 0 is back at zero when its 256th interface comes: the second `y` takes entry 0 over, and `z`,
      of number 0 again, finds no place although there is an entry for either number. */
  lemma {:induction false} TakenOver(fs: seq<Func>, x: Interface, y: Interface, z: Interface)
    requires |fs| == 2 && fs[0].nIntf == 255 && fs[0].first == 0 && fs[1] == EMPTY
    requires Num(x) == 0 && Num(y) == 1 && Num(z) == 0
    ensures var gs := Place(Place(Place(Place(fs, y), x), y), z);
      gs[0].intfs == fs[0].intfs + [x] + [y] && gs[1].intfs == [y]
  {
    hide Num, Place;
    var f1 := fs[1 := Open(EMPTY, y)];
    var f2 := f1[0 := Grow(fs[0], x)];
    var f3 := f2[0 := Open(f2[0], y)];
    PlaceAt(fs, y, 1);
    PlaceAt(f1, x, 0);
    PlaceAt(f2, y, 0);
    PlaceAt(f3, z, 2);
  }

  lemma HomelessConforms(x: Interface, y: Interface, z: Interface)
    requires Num(x) == 0 && Num(y) == 1 && Num(z) == 0
    ensures Conforming(2, [], Copies(x, 255) + [y] + [x] + [y] + [z])
  {
    var xs := Copies(x, 255) + [y] + [x] + [y] + [z];
    assert Nums(xs) == {0, 1} by {
      assert Num(xs[0]) == 0 && Num(xs[255]) == 1;
      assert forall i | 0 <= i < 259 :: xs[i] == x || xs[i] == y || xs[i] == z;
    }
  }

  /** A conforming descriptor of which an interface is lost. */
  lemma Homeless(x: Interface, y: Interface, z: Interface)
    requires Num(x) == 0 && Num(y) == 1 && Num(z) == 0
    ensures var xs := Copies(x, 255) + [y] + [x] + [y] + [z]; var fs := Functions(2, [], xs);
      && Conforming(2, [], xs) && fs[0].intfs == Copies(x, 255) + [x] + [y] && fs[1].intfs == [y]
      && !NoneRefused(2, [], xs)
  {
    hide PlaceAll, Place, NoneRefused;
    var cs := Copies(x, 255);
    var xs := cs + [y] + [x] + [y] + [z];
    HomelessConforms(x, y, z);
    NearlyFull(x);
    TakenOver(PlaceAll(Blank(2), cs), x, y, z);
    PlaceAllSnoc(Blank(2), cs, y);
    PlaceAllSnoc(Blank(2), cs + [y], x);
    PlaceAllSnoc(Blank(2), cs + [y] + [x], y);
    PlaceAllSnoc(Blank(2), cs + [y] + [x] + [y], z);
    var fs := Functions(2, [], xs);
    assert fs == [] + PlaceAll(Blank(2), xs);
    NothingLost(2, [], xs);
    HeldTwo(fs);
    assert |multiset(xs)| == 259;
  }

  lemma HeldTwo(fs: seq<Func>)
    requires |fs| == 2
    ensures |Held(fs)| == |fs[0].intfs| + |fs[1].intfs|
  {
    HeldCons(fs[0], [fs[1]]);
    HeldCons(fs[1], []);
    assert fs == [fs[0]] + [fs[1]] && [fs[1]] == [fs[1]] + [];
  }
}
