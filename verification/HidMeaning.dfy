/** What report descriptor items mean, in numbers and apart from the parser's own functions:
    sections 6.2.2.4 to 6.2.2.8 of HID 1.11, as core/source/host/class/hid/usbh_hid_report.c has them. */
module HidMeaning {
  import opened Descriptors
  import opened ByteOrder
  import opened HidSpec
  import opened HidFacts

  // ---- values ----

  /** A usage in full: four bytes are the usage, fewer are the low half, and the page the high one. */
  function Value(page: nat, size: nat, data: nat): (v: nat) {
    if size == 4 then data else page % 0x1_0000 * 0x1_0000 + data
  }

  lemma UsageIs(g: Global, i: Item)
    requires Fine(i)
    ensures Usage(g, i) as nat == Value(g.page, i.size, i.data)
  {
    if i.size != 4 {
      var q, r := g.page as int / 0x1_0000, g.page as int % 0x1_0000;
      assert g.page as int * 0x1_0000 + i.data as int == q * 0x1_0000_0000 + (r * 0x1_0000 + i.data as int);
      assert 0 <= r * 0x1_0000 + i.data as int < 0x1_0000_0000;
    }
  }

  /** The signed value of `size` bytes: the number that is `data` modulo their width and lies in the
      range of that many bits. */
  predicate SignedValue(v: int, size: nat, data: nat) {
    match size
    case 0 => v == 0
    case 1 => -0x80 <= v < 0x80 && (v == data || v == data - 0x100)
    case 2 => -0x8000 <= v < 0x8000 && (v == data || v == data - 0x1_0000)
    case _ => -0x8000_0000 <= v < 0x8000_0000 && (v == data || v == data - 0x1_0000_0000)
  }

  lemma SdataIs(i: Item)
    requires Fine(i)
    ensures SignedValue(Sdata(i), i.size, i.data) && SignedValue(ToS32(i.data), 4, i.data)
  {
  }

  // ---- local items ----

  /** A usage goes into the table, with the innermost open collection; a full table refuses it. */
  lemma UsageAdded(s: State, size: nat, data: U32, fields: seq<bool>)
    requires WellFormed(Short(2, 0, size, data)) && s.local.branch <= 1 && |s.local.usage| <= 12288
    ensures var e, l, page := Step(s, Short(2, 0, size, data), fields), s.local, s.global.page as nat;
      if |l.usage| == 12288 then e.ret == -501 && e.state == s
      else
        && e.ret == 0 && |e.state.local.usage| == |l.usage| + 1 && |e.state.local.coll| == |l.coll| + 1
        && e.state == s.(local := l.(usage := e.state.local.usage, coll := e.state.local.coll))
        && e.state.local.usage[..|l.usage|] == l.usage && e.state.local.coll[..|l.coll|] == l.coll
        && (size <= 2 && page < 0x1_0000 ==> e.state.local.usage[|l.usage|] as nat == page * 0x1_0000 + data as nat)
        && (size == 4 ==> e.state.local.usage[|l.usage|] == data)
        && e.state.local.coll[|l.coll|] == if s.open == [] then 0 else s.open[|s.open| - 1]
  {
    var i := Short(2, 0, size, data);
    UsageIs(s.global, i);
    var e := Step(s, i, fields);
    assert s.local.usage + [] == s.local.usage && s.local.coll + [] == s.local.coll;
    hide Usage;
  }

  /** The lower end of a range. */
  lemma RangeOpened(s: State, size: nat, data: U32, fields: seq<bool>)
    requires WellFormed(Short(2, 1, size, data)) && s.local.branch <= 1
    ensures var e, page := Step(s, Short(2, 1, size, data), fields), s.global.page as nat;
      && e.ret == 0 && e.state == s.(local := s.local.(usageMin := e.state.local.usageMin))
      && (size <= 2 && page < 0x1_0000 ==> e.state.local.usageMin as nat == page * 0x1_0000 + data as nat)
      && (size == 4 ==> e.state.local.usageMin == data)
  {
    UsageIs(s.global, Short(2, 1, size, data));
    hide Usage;
  }

  /** The numbers from `lo` to `hi`. */
  function From(lo: nat, hi: nat): (s: seq<nat>)
    ensures |s| == (if lo <= hi then hi - lo + 1 else 0) && forall k | 0 <= k < |s| :: s[k] == lo + k
    decreases hi + 1 - lo
  {
    if lo > hi then [] else [lo] + From(lo + 1, hi)
  }

  /** The upper end: what is between goes into the table, if there is room and it is not the last
      usage there is. */
  lemma RangeClosed(s: State, size: nat, data: U32, fields: seq<bool>)
    requires WellFormed(Short(2, 2, size, data)) && s.local.branch <= 1 && |s.local.usage| <= 12288
    ensures var e, hi := Step(s, Short(2, 2, size, data), fields), Value(s.global.page, size, data);
      && (e.ret == 0 <==> hi < 0xFFFF_FFFF && |s.local.usage| + |From(s.local.usageMin, hi)| <= 12288)
      && (e.ret == 0 ==> e.state.local.usage == s.local.usage + From(s.local.usageMin, hi))
      && (e.ret != 0 ==> e.ret == -501 && |e.state.local.usage| == 12288)
  {
    var i := Short(2, 2, size, data);
    UsageIs(s.global, i);
    RangeExactly(s, i, fields);
    var lo, hi := s.local.usageMin, Usage(s.global, i);
    assert Interval(lo, hi) == From(lo, hi);
    hide Usage, Interval, From;
  }

  /** Delimiters: one level only, and everything after the first set is passed over. */
  lemma Delimited(s: State, size: nat, data: U32, fields: seq<bool>)
    requires WellFormed(Short(2, 10, size, data))
    ensures var e, l := Step(s, Short(2, 10, size, data), fields), s.local;
      if data != 0 then
        e == if l.depth == 0 then Effect(s.(local := l.(depth := 1, branch := l.branch + 1)), 0) else Effect(s, -501)
      else e == if l.depth > 0 then Effect(s.(local := l.(depth := l.depth - 1)), 0) else Effect(s, -501)
  {
  }

  /** Usages and ranges of a second set, and tags that are not known, have no effect. */
  lemma PassedOver(s: State, tag: Octet, size: nat, data: U32, fields: seq<bool>)
    requires WellFormed(Short(2, tag, size, data)) && tag != 10 && (s.local.branch > 1 || tag > 2)
    ensures Step(s, Short(2, tag, size, data), fields) == Effect(s, 0)
  {
  }

  // ---- global items ----

  /** Each global item that sets a value sets that one value. */
  lemma GlobalSet(s: State, tag: Octet, size: nat, data: U32, fields: seq<bool>)
    requires WellFormed(Short(1, tag, size, data)) && tag < 10
    ensures var e, g := Step(s, Short(1, tag, size, data), fields), s.global;
      var h := e.state.global;
      && e.state == s.(global := h)
      && (tag == 0 ==> h == g.(page := data) && e.ret == 0)
      && (tag == 1 ==> h == g.(logMin := h.logMin) && SignedValue(h.logMin, size, data) && e.ret == 0)
      && (tag == 2 ==> h == g.(logMax := h.logMax) && SignedValue(h.logMax, if g.logMin < 0 then size else 4, data)
                       && e.ret == 0)
      && (tag == 3 ==> h == g.(phyMin := h.phyMin) && SignedValue(h.phyMin, size, data) && e.ret == 0)
      && (tag == 4 ==> h == g.(phyMax := h.phyMax) && SignedValue(h.phyMax, if g.phyMin < 0 then size else 4, data)
                       && e.ret == 0)
      && (tag == 5 ==> h == g.(exponent := h.exponent) && e.ret == 0
                       && (if 8 <= data < 16 then h.exponent == data - 16 else SignedValue(h.exponent, size, data)))
      && (tag == 6 ==> h == g.(unit := data) && e.ret == 0)
      && (tag == 7 ==> h == g.(size := data) && e.ret == if data <= 128 then 0 else -501)
      && (tag == 8 ==> h == g.(id := data) && e.ret == if 0 < data < 256 then 0 else -501)
      && (tag == 9 ==> h == g.(count := data) && e.ret == if data <= 12288 then 0 else -501)
  {
    SdataIs(Short(1, tag, size, data));
  }

  /** The stack of global states, four deep. */
  lemma GlobalStack(s: State, tag: Octet, size: nat, data: U32, fields: seq<bool>)
    requires WellFormed(Short(1, tag, size, data)) && tag >= 10
    ensures var e, n := Step(s, Short(1, tag, size, data), fields), |s.saved|;
      && (tag == 10 ==> e == if n == 4 then Effect(s, -501) else Effect(s.(saved := s.saved + [s.global]), 0))
      && (tag == 11 ==> e == if n == 0 then Effect(s, -501)
                             else Effect(s.(saved := s.saved[..n - 1], global := s.saved[n - 1]), 0))
      && (tag >= 12 ==> e == Effect(s, -535))
  {
  }

  // ---- main items ----

  /** A collection: its type is one byte, its usage the first one given, its level the number of
      collections open around it. The local state is cleared by every main item. */
  lemma CollectionBegun(s: State, size: nat, data: U32, fields: seq<bool>)
    requires WellFormed(Short(0, 10, size, data))
    ensures var e, c := Step(s, Short(0, 10, size, data), fields), s.(local := Local([], [], 0, 0, 0));
      var kind := data as nat % 256;
      var usage := if s.local.usage == [] then 0 else s.local.usage[0];
      e == if |s.open| == 4 then Effect(c, -501)
           else Effect(c.(open := s.open + [|s.colls|], apps := if kind == 1 then s.apps + 1 else s.apps,
                          colls := s.colls + [Collection(kind, usage, |s.open|)]), 0)
  {
  }

  lemma OtherMain(s: State, tag: Octet, size: nat, data: U32, fields: seq<bool>)
    requires WellFormed(Short(0, tag, size, data)) && tag != 10
    ensures var e, c, n := Step(s, Short(0, tag, size, data), fields), s.(local := Local([], [], 0, 0, 0)), s.nFields;
      e == if tag == 12 then (if s.open == [] then Effect(c, -501) else Effect(c.(open := s.open[..|s.open| - 1]), 0))
           else if tag == 8 || tag == 9 || tag == 11 then
             Effect(c.(nFields := n + 1), if n < |fields| && fields[n] then 0 else -501)
           else Effect(c, 0)
  {
  }

  /** Items of the fourth type have no effect. */
  lemma Reserved(s: State, tag: Octet, size: nat, data: U32, fields: seq<bool>)
    requires WellFormed(Short(3, tag, size, data))
    ensures Step(s, Short(3, tag, size, data), fields) == Effect(s, 0)
  {
  }

  // ---- the usages of a run ----

  /** What a reader of the items keeps in mind: the page, the pages put aside, the lower end of the
      range to come, and whether usages count. */
  datatype Reader = Reader(page: nat, aside: seq<nat>, lo: nat, branch: nat)

  function After(r: Reader, i: Item): (t: Reader)
    requires Fine(i)
  {
    if i.kind == 1 then
      if i.tag == 0 then r.(page := i.data)
      else if i.tag == 10 then r.(aside := r.aside + [r.page])
      else if i.tag == 11 && r.aside != [] then r.(page := r.aside[|r.aside| - 1], aside := r.aside[..|r.aside| - 1])
      else r
    else if i.kind == 2 then
      if i.tag == 10 && i.data != 0 then r.(branch := r.branch + 1)
      else if i.tag == 1 && r.branch <= 1 then r.(lo := Value(r.page, i.size, i.data))
      else r
    else r
  }

  function Says(r: Reader, i: Item): (us: seq<nat>)
    requires Fine(i)
  {
    if i.kind != 2 || r.branch > 1 then []
    else if i.tag == 0 then [Value(r.page, i.size, i.data)]
    else if i.tag == 2 then From(r.lo, Value(r.page, i.size, i.data))
    else []
  }

  /** The usages the items stand for, one after the other. */
  function Read(r: Reader, items: seq<Item>): (us: seq<nat>)
    requires AllFine(items)
    decreases |items|
  {
    if items == [] then [] else Says(r, items[0]) + Read(After(r, items[0]), items[1..])
  }

  function Pages(saved: seq<Global>): (r: seq<nat>)
    ensures |r| == |saved| && forall k | 0 <= k < |r| :: r[k] == saved[k].page as nat
  {
    seq(|saved|, k requires 0 <= k < |saved| => saved[k].page as nat)
  }

  function Mind(s: State): (r: Reader) { Reader(s.global.page, Pages(s.saved), s.local.usageMin, s.local.branch) }

  lemma MindAfter(s: State, i: Item, fields: seq<bool>)
    requires Fine(i) && i.kind != 0 && Step(s, i, fields).ret == 0
    ensures Mind(Step(s, i, fields).state) == After(Mind(s), i)
  {
    UsageIs(s.global, i);
    hide Usage, Sdata, Exponent, AddUsages, Counting, Rounds;
    var t := Step(s, i, fields).state;
    if i.kind == 1 && i.tag == 10 {
      assert Pages(t.saved) == Pages(s.saved) + [s.global.page];
    } else if i.kind == 1 && i.tag == 11 {
      assert Pages(t.saved) == Pages(s.saved)[..|s.saved| - 1];
    }
  }

  lemma AddsIs(s: State, i: Item)
    requires Fine(i)
    ensures Adds(s, i) == Says(Mind(s), i)
  {
    UsageIs(s.global, i);
    hide Usage;
  }

  /** The usage table after a run of items without a main one is what a reader of them reads. */
  lemma {:induction false} UsagesRead(s: State, items: seq<Item>, t: State, fields: seq<bool>)
    requires AllFine(items) && Goes(s, items, t, fields) && forall i | i in items :: i.kind != 0
    requires |s.local.usage| <= 12288
    ensures t.local.usage == s.local.usage + Read(Mind(s), items) && |t.local.usage| <= 12288
    decreases |items|
  {
    hide Step, Adds, Says, After, Mind;
    if items != [] {
      var m := Step(s, items[0], fields).state;
      AddsIs(s, items[0]);
      MindAfter(s, items[0], fields);
      StepUsages(s, items[0], fields);
      UsagesRead(m, items[1..], t, fields);
      Reassociate(s.local.usage, Says(Mind(s), items[0]), Read(Mind(m), items[1..]));
    }
  }

  /** The same for a run that starts with a Usage Page item and finds the table empty: nothing but
      the items decides what is in the table. */
  lemma UsagesOfPage(s: State, page: U32, rest: seq<Item>, t: State, fields: seq<bool>)
    requires AllFine([Short(1, 0, 2, page)] + rest) && Goes(s, [Short(1, 0, 2, page)] + rest, t, fields)
    requires (forall i | i in rest :: i.kind != 0 && !(i.kind == 1 && i.tag >= 10)) && s.local == NO_LOCAL
    ensures AllFine(rest) && t.local.usage == Read(Reader(page, [], 0, 0), rest)
  {
    var items := [Short(1, 0, 2, page)] + rest;
    assert items[0] == Short(1, 0, 2, page) && items[1..] == rest;
    forall k | 0 <= k < |rest| ensures Fine(rest[k]) { assert rest[k] == items[k + 1]; }
    assert forall i | i in items :: i.kind != 0;
    UsagesRead(s, items, t, fields);
    var r := After(Mind(s), items[0]);
    hide After, Goes;
    assert Says(Mind(s), items[0]) == [];
    assert [] + Read(r, rest) == Read(r, rest);
    AsideUnread(r, Reader(page, [], 0, 0), rest);
  }

  /** Pages put aside do not matter where none is taken back. */
  lemma {:induction false} AsideUnread(r: Reader, q: Reader, items: seq<Item>)
    requires AllFine(items) && forall i | i in items :: !(i.kind == 1 && i.tag >= 10)
    requires q == r.(aside := q.aside)
    ensures Read(r, items) == Read(q, items)
    decreases |items|
  {
    hide Value, From;
    if items != [] { AsideUnread(After(r, items[0]), After(q, items[0]), items[1..]); }
  }

  // ---- a mouse ----

  lemma ShortBytes(b: seq<Octet>)
    requires |b| >= 2 && b[0] % 4 == 1 && b[0] < 0xF0
    ensures FetchItem(b) == Got(Short(b[0] / 4 % 4, b[0] / 16, 1, b[1]), b[2..])
  {
    assert b[1..][0] == b[1];
  }

  /** The state inside the first collection. */
  const OUTER := START.(global := NO_GLOBAL.(page := 1), open := [0], apps := 1,
                        colls := [Collection(1, 0x0001_0002, 0)])

  /** Usage Page 1, Usage 2, a collection of type 1, in it Usage 1 and a collection of type 0, and
      the ends of both, byte by byte. */
  lemma Mouse(fields: seq<bool>)
    ensures Parse(START, [0x05, 1, 0x09, 2, 0xA1, 1, 0x09, 1, 0xA1, 0, 0xC0, 0xC0], fields) ==
      Ok(State(Global(1, 0, 0, 0, 0, 0, 0, 0, 0, 0), [], Local([], [], 0, 0, 0), [],
               [Collection(1, 0x0001_0002, 0), Collection(0, 0x0001_0001, 1)], 1, 0))
  {
    hide FetchItem, Parse;
    var c: seq<Octet> := [0x09, 1, 0xA1, 0, 0xC0, 0xC0];
    var b: seq<Octet> := [0xA1, 1] + c;
    var a: seq<Octet> := [0x09, 2] + b;
    var all: seq<Octet> := [0x05, 1] + a;
    var s1 := START.(global := NO_GLOBAL.(page := 1));
    var s2 := s1.(local := Local([0x0001_0002], [0], 0, 0, 0));
    OneStep(START, all, a, Short(1, 0, 1, 1), s1, fields);
    OneStep(s1, a, b, Short(2, 0, 1, 2), s2, fields);
    OneStep(s2, b, c, Short(0, 10, 1, 1), OUTER, fields);
    hide Step;
    MouseInside(fields);
    assert all == [0x05, 1, 0x09, 2, 0xA1, 1, 0x09, 1, 0xA1, 0, 0xC0, 0xC0];
  }

  lemma MouseInside(fields: seq<bool>)
    ensures Parse(OUTER, [0x09, 1, 0xA1, 0, 0xC0, 0xC0], fields) ==
      Ok(OUTER.(open := [], colls := [Collection(1, 0x0001_0002, 0), Collection(0, 0x0001_0001, 1)]))
  {
    hide FetchItem, Parse;
    var e: seq<Octet> := [0xC0, 0xC0];
    var d: seq<Octet> := [0xA1, 0] + e;
    var c: seq<Octet> := [0x09, 1] + d;
    var s4 := OUTER.(local := Local([0x0001_0001], [0], 0, 0, 0));
    var s5 := OUTER.(open := [0, 1], colls := [Collection(1, 0x0001_0002, 0), Collection(0, 0x0001_0001, 1)]);
    OneStep(OUTER, c, d, Short(2, 0, 1, 1), s4, fields);
    OneStep(s4, d, e, Short(0, 10, 1, 0), s5, fields);
    hide Step;
    LastSteps(s5, fields);
    assert c == [0x09, 1, 0xA1, 0, 0xC0, 0xC0];
  }

  lemma OneStep(s: State, b: seq<Octet>, rest: seq<Octet>, i: Item, t: State, fields: seq<bool>)
    requires |b| >= 2 && b[0] % 4 == 1 && b[0] < 0xF0 && rest == b[2..] != []
    requires i == Short(b[0] / 4 % 4, b[0] / 16, 1, b[1]) && Fine(i) && Step(s, i, fields) == Effect(t, 0)
    ensures Parse(s, b, fields) == Parse(t, rest, fields)
  {
    hide Step;
    ShortBytes(b);
  }

  lemma LastSteps(s: State, fields: seq<bool>)
    requires s.open == [0, 1] && s.local == NO_LOCAL
    ensures Parse(s, [0xC0, 0xC0], fields) == Ok(s.(open := []))
  {
  }
}
