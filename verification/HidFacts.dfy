/** What the report parser keeps, over any sequence of items: sections 6.2.2.2 to 6.2.2.8 of HID 1.11. */
module HidFacts {
  import opened Descriptors
  import opened ByteOrder
  import opened HidSpec

  predicate Fine(i: Item) { i.Short? && WellFormed(i) }

  predicate AllFine(items: seq<Item>) { forall k | 0 <= k < |items| :: Fine(items[k]) }

  /** The items take the parser from `s` to `t`, each of them without an error. */
  predicate Goes(s: State, items: seq<Item>, t: State, fields: seq<bool>)
    requires AllFine(items)
    decreases |items|
  {
    if items == [] then s == t
    else Step(s, items[0], fields).ret == 0 && Goes(Step(s, items[0], fields).state, items[1..], t, fields)
  }

  // ---- the global stack ----

  /** The stack is never shorter than `k` on the way. */
  predicate Deep(s: State, items: seq<Item>, k: nat, fields: seq<bool>)
    requires AllFine(items)
    decreases |items|
  {
    |s.saved| >= k && (items == [] || Deep(Step(s, items[0], fields).state, items[1..], k, fields))
  }

  lemma StepSaved(s: State, i: Item, k: nat, fields: seq<bool>)
    requires Fine(i) && |s.saved| >= k && |Step(s, i, fields).state.saved| >= k
    ensures Step(s, i, fields).state.saved[..k] == s.saved[..k]
  {
    hide Udata, Sdata, AddUsages, Counting, Rounds, Usage, Exponent;
  }

  lemma {:induction false} SavedKept(s: State, items: seq<Item>, t: State, k: nat, fields: seq<bool>)
    requires AllFine(items) && Goes(s, items, t, fields) && Deep(s, items, k, fields)
    ensures |s.saved| >= k && |t.saved| >= k && t.saved[..k] == s.saved[..k]
    decreases |items|
  {
    hide Step;
    if items != [] {
      SavedKept(Step(s, items[0], fields).state, items[1..], t, k, fields);
      StepSaved(s, items[0], k, fields);
    }
  }

  const PUSH := Short(1, 10, 0, 0)
  const POP := Short(1, 11, 0, 0)

  /** A pop restores exactly the global state that the matching push saved, whatever came
      between, and the stack below it. */
  lemma MatchingPop(s: State, items: seq<Item>, t: State, fields: seq<bool>)
    requires AllFine(items) && Step(s, PUSH, fields).ret == 0
    requires Goes(Step(s, PUSH, fields).state, items, t, fields)
    requires Deep(Step(s, PUSH, fields).state, items, |s.saved| + 1, fields) && |t.saved| == |s.saved| + 1
    ensures var e := Step(t, POP, fields);
      e.ret == 0 && e.state.global == s.global && e.state.saved == s.saved && e.state.local == t.local &&
        e.state.colls == t.colls
  {
    var p := Step(s, PUSH, fields).state;
    SavedKept(p, items, t, |s.saved| + 1, fields);
    assert t.saved == t.saved[..|s.saved| + 1] == p.saved[..|s.saved| + 1] == s.saved + [s.global];
  }

  // ---- the collections ----

  /** The levels are those of a forest listed parents first: the first is a root, and no level
      rises by more than one. */
  ghost predicate Forest(c: seq<Collection>) {
    (c != [] ==> c[0].level == 0) && forall i | 0 <= i < |c| - 1 :: c[i + 1].level <= c[i].level + 1
  }

  /** Open collection `d` is at level `d`, and everything listed after it lies inside it. */
  ghost predicate Enclosing(open: seq<nat>, c: seq<Collection>) {
    forall d | 0 <= d < |open| ::
      open[d] < |c| && c[open[d]].level == d && forall j | open[d] < j < |c| :: c[j].level > d
  }

  function Apps(c: seq<Collection>): (r: nat) {
    if c == [] then 0 else Apps(c[..|c| - 1]) + if c[|c| - 1].kind == APPLICATION then 1 else 0
  }

  ghost predicate Keeps(s: State) {
    && |s.open| <= COLLECTION_STACK && |s.saved| <= GLOBAL_STACK
    && |s.local.usage| <= MAX_USAGES && |s.local.coll| == |s.local.usage|
    && Forest(s.colls) && Enclosing(s.open, s.colls)
    && |s.open| <= (if s.colls == [] then 0 else s.colls[|s.colls| - 1].level + 1)
    && s.apps == Apps(s.colls)
  }

  lemma StartKeeps()
    ensures Keeps(START)
  {
  }

  lemma OpenKeeps(s: State, kind: nat)
    requires Keeps(s)
    ensures Keeps(Open(s, kind).state)
  {
    var e := Open(s, kind);
    if e.ret == 0 {
      var n := |s.colls|;
      assert e.state.colls[..n] == s.colls;
      forall d | 0 <= d < |e.state.open|
        ensures var k := e.state.open[d];
          k < |e.state.colls| && e.state.colls[k].level == d &&
            forall j | k < j < |e.state.colls| :: e.state.colls[j].level > d
      {
        if d < |s.open| { assert e.state.open[d] == s.open[d]; }
      }
    }
  }

  lemma CloseKeeps(s: State)
    requires Keeps(s)
    ensures Keeps(Close(s).state)
  {
  }

  lemma AddKeeps(l: Local, us: seq<U32>, top: nat)
    requires |l.usage| <= MAX_USAGES && |l.coll| == |l.usage|
    ensures var m := AddUsages(l, us, top); |m.usage| <= MAX_USAGES && |m.coll| == |m.usage|
  {
  }

  /** Every item keeps the forest, the enclosing collections, the bounds and the count. */
  lemma StepKeeps(s: State, i: Item, fields: seq<bool>)
    requires Keeps(s) && Fine(i)
    ensures Keeps(Step(s, i, fields).state)
  {
    hide Udata, Sdata, Counting, Rounds, Usage, Exponent, Forest, Enclosing, Apps, AddUsages, Open, Close;
    match i.kind
    case 0 =>
      if i.tag == 10 { OpenKeeps(s, i.data as nat % 0x100); }
      if i.tag == 12 { CloseKeeps(s); }
    case 2 =>
      AddKeeps(s.local, [Usage(s.global, i)], Top(s.open));
      AddKeeps(s.local, Counting(s.local.usageMin, Rounds(s.local.usageMin, Usage(s.global, i))), Top(s.open));
    case _ =>
  }

  function Begins(items: seq<Item>): (r: nat) {
    if items == [] then 0 else (if items[0].kind == MAIN && items[0].tag == 10 then 1 else 0) + Begins(items[1..])
  }

  function Ends(items: seq<Item>): (r: nat) {
    if items == [] then 0 else (if items[0].kind == MAIN && items[0].tag == 12 then 1 else 0) + Ends(items[1..])
  }

  lemma StepOpens(s: State, i: Item, fields: seq<bool>)
    requires Fine(i) && Step(s, i, fields).ret == 0
    ensures var t := Step(s, i, fields).state;
      |t.open| == |s.open| + (if i.kind == MAIN && i.tag == 10 then 1 else 0)
                  - (if i.kind == MAIN && i.tag == 12 then 1 else 0)
    ensures s.colls <= Step(s, i, fields).state.colls
  {
    hide Udata, Sdata, AddUsages, Counting, Rounds, Usage, Exponent;
  }

  /** Over any run: the invariant holds, the depth is the number of collections begun minus the
      number ended, and what was listed stays listed. */
  lemma {:induction false} RunKeeps(s: State, items: seq<Item>, t: State, fields: seq<bool>)
    requires AllFine(items) && Goes(s, items, t, fields) && Keeps(s)
    ensures Keeps(t) && |t.open| == |s.open| + Begins(items) - Ends(items) && s.colls <= t.colls
    decreases |items|
  {
    hide Step, Keeps;
    if items != [] {
      StepKeeps(s, items[0], fields);
      StepOpens(s, items[0], fields);
      RunKeeps(Step(s, items[0], fields).state, items[1..], t, fields);
    }
  }

  // ---- usages ----

  /** What an item adds to the usages: a single one, or a range. */
  function Adds(s: State, i: Item): (r: seq<U32>)
    requires Fine(i)
  {
    if i.kind != LOCAL || s.local.branch > 1 then []
    else if i.tag == 0 then [Usage(s.global, i)]
    else if i.tag == 2 then Interval(s.local.usageMin, Usage(s.global, i))
    else []
  }

  /** The usages and ranges of a run, expanded one after the other. */
  function Expansion(s: State, items: seq<Item>, fields: seq<bool>): (r: seq<U32>)
    requires AllFine(items)
    decreases |items|
  {
    if items == [] then []
    else Adds(s, items[0]) + Expansion(Step(s, items[0], fields).state, items[1..], fields)
  }

  lemma StepUsages(s: State, i: Item, fields: seq<bool>)
    requires Fine(i) && i.kind != MAIN && Step(s, i, fields).ret == 0 && |s.local.usage| <= MAX_USAGES
    ensures var l := Step(s, i, fields).state.local; l.usage == s.local.usage + Adds(s, i) && |l.usage| <= MAX_USAGES
  {
    hide Udata, Sdata, Interval, Counting, Usage, Exponent;
    var us := Adds(s, i);
    assert us[..|us|] == us;
    if Usage(s.global, i) < LAST { RoundsCount(s.local.usageMin, Usage(s.global, i)); }
  }

  /** A range goes through exactly when the table has room for it and it ends before the last
      usage there is; then the usages are those of the range. Otherwise the table is full. */
  lemma RangeExactly(s: State, i: Item, fields: seq<bool>)
    requires Fine(i) && i.kind == LOCAL && i.tag == 2 && s.local.branch <= 1 && |s.local.usage| <= MAX_USAGES
    ensures var lo, hi, e := s.local.usageMin, Usage(s.global, i), Step(s, i, fields);
      && (e.ret == 0 <==> hi < LAST && (lo > hi || |s.local.usage| + (hi - lo + 1) <= MAX_USAGES))
      && if e.ret == 0 then e.state.local.usage == s.local.usage + Interval(lo, hi)
         else |e.state.local.usage| == MAX_USAGES
  {
    hide Interval, Counting, Usage;
    var lo, hi := s.local.usageMin, Usage(s.global, i);
    if hi < LAST { RoundsCount(lo, hi); }
    assert Interval(lo, hi)[..|Interval(lo, hi)|] == Interval(lo, hi);
  }

  /** A range of two usages that ends at the last one there is: the table fills up with usages
      counted from zero, and the descriptor is refused. */
  lemma LastUsage(s: State, fields: seq<bool>)
    requires s.global.page == 0xFFFF && s.local == NO_LOCAL.(usageMin := 0xFFFF_FFFE)
    ensures var e := Step(s, Short(LOCAL, 2, 2, 0xFFFF), fields); var us := e.state.local.usage;
      e.ret == -EPERM && |us| == MAX_USAGES && us[0] == 0xFFFF_FFFE && us[1] == LAST && us[2] == 0 && us[3] == 1
  {
    var i := Short(LOCAL, 2, 2, 0xFFFF);
    assert Usage(s.global, i) == LAST;
    RangeExactly(s, i, fields);
    var us := Counting(0xFFFF_FFFE, MAX_USAGES + 1);
    assert us[2] == 0 && us[3] == 1;
    assert Step(s, i, fields).state.local.usage == [] + us[..MAX_USAGES];
  }

  /** Between two main items the usage table is the expansion, in order and without gaps, of the
      usages and ranges met, and it never holds more than its size. */
  lemma {:induction false} UsagesExpand(s: State, items: seq<Item>, t: State, fields: seq<bool>)
    requires AllFine(items) && Goes(s, items, t, fields) && forall i | i in items :: i.kind != MAIN
    requires |s.local.usage| <= MAX_USAGES
    ensures t.local.usage == s.local.usage + Expansion(s, items, fields) && |t.local.usage| <= MAX_USAGES
    decreases |items|
  {
    hide Step, Adds;
    if items != [] {
      var m := Step(s, items[0], fields).state;
      StepUsages(s, items[0], fields);
      UsagesExpand(m, items[1..], t, fields);
      Reassociate(s.local.usage, Adds(s, items[0]), Expansion(m, items[1..], fields));
    }
  }

  // ---- accepted descriptors ----

  function Bytes(items: seq<Item>): (r: seq<Octet>)
    requires AllFine(items)
  {
    if items == [] then [] else ItemBytes(items[0]) + Bytes(items[1..])
  }

  /** A descriptor is accepted exactly when it is the bytes of some short items, at least one,
      that go through and leave no collection and no delimiter open; nothing is left over. */
  lemma {:induction false} AcceptedIsItems(s: State, b: seq<Octet>, fields: seq<bool>) returns (items: seq<Item>)
    requires Parse(s, b, fields).Ok?
    ensures items != [] && AllFine(items) && Bytes(items) == b
    ensures Goes(s, items, Parse(s, b, fields).state, fields) && Balanced(Parse(s, b, fields).state)
    decreases |b|
  {
    hide Step;
    var f := FetchItem(b);
    FetchCovers(b);
    var e := Step(s, f.item, fields);
    if f.rest == [] {
      items := [f.item];
      assert items[1..] == [];
    } else {
      var r := AcceptedIsItems(e.state, f.rest, fields);
      items := [f.item] + r;
      assert items[1..] == r;
    }
  }

  lemma {:induction false} ItemsAreAccepted(s: State, items: seq<Item>, t: State, fields: seq<bool>)
    requires items != [] && AllFine(items) && Goes(s, items, t, fields) && Balanced(t)
    ensures Parse(s, Bytes(items), fields) == Ok(t)
    decreases |items|
  {
    hide Step, ItemBytes;
    var r := Bytes(items[1..]);
    FetchBack(items[0], r);
    if |items| > 1 {
      BytesSome(items[1..]);
      ItemsAreAccepted(Step(s, items[0], fields).state, items[1..], t, fields);
    }
  }

  lemma BytesSome(items: seq<Item>)
    requires AllFine(items) && items != []
    ensures Bytes(items) != []
  {
  }

  /** Whatever is accepted has balanced collections and a forest of levels. */
  lemma AcceptedBalanced(b: seq<Octet>, fields: seq<bool>) returns (items: seq<Item>)
    requires Parse(START, b, fields).Ok?
    ensures AllFine(items) && Bytes(items) == b && Begins(items) == Ends(items)
    ensures Keeps(Parse(START, b, fields).state)
  {
    hide Step;
    items := AcceptedIsItems(START, b, fields);
    StartKeeps();
    RunKeeps(START, items, Parse(START, b, fields).state, fields);
  }
}
