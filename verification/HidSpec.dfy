/** Report descriptors of core/source/host/class/hid/usbh_hid_report.c: how items are framed and
    what each of them does to the parser. */
module HidSpec {
  import opened Descriptors
  import opened ByteOrder

  const MAX_USAGES: nat := 12288
  const GLOBAL_STACK: nat := 4
  const COLLECTION_STACK: nat := 4
  const MAX_IDS: nat := 256

  const APPLICATION: nat := 1

  const MAIN: Octet := 0
  const LOCAL: Octet := 2
  const LONG_TAG: Octet := 15

  // ---- framing: section 6.2.2 of HID 1.11 ----

  /** An item: for a short one the size is 0, 1, 2 or 4 and `data` its unsigned value. */
  datatype Item =
    | Short(kind: Octet, tag: Octet, size: nat, data: U32)
    | Long(kind: Octet, tag: Octet, bytes: seq<Octet>)

  datatype Fetch = End | Got(item: Item, rest: seq<Octet>)

  function Le(b: seq<Octet>, n: nat): (r: U32)
    requires n <= 4 && n <= |b|
    ensures n < 3 ==> Le(b, n) < 0x1_0000
    ensures n < 2 ==> Le(b, n) < 0x100
  {
    if n == 0 then 0 else if n == 1 then b[0] else if n == 2 then b[0] as int + 0x100 * b[1] as int
    else if n == 3 then 0 else Le32(b, 0)
  }

  /** `__item_fetch`. */
  function FetchItem(b: seq<Octet>): (f: Fetch)
    ensures f.Got? ==> |f.rest| < |b|
  {
    if b == [] then End
    else
      var kind, tag := b[0] / 4 % 4, b[0] / 16;
      if tag == LONG_TAG then
        if |b| < 3 || |b| - 3 < b[1] as int then End
        else Got(Long(kind, b[2], b[3..3 + b[1]]), b[3 + b[1]..])
      else
        var size: nat := if b[0] % 4 == 3 then 4 else b[0] % 4;
        if |b| - 1 < size then End else Got(Short(kind, tag, size, Le(b[1..], size)), b[1 + size..])
  }

  predicate WellFormed(i: Item) {
    match i
    case Short(kind, tag, size, data) =>
      kind < 4 && tag < LONG_TAG && (size == 0 || size == 1 || size == 2 || size == 4)
      && (size == 0 ==> data == 0) && (size == 1 ==> data < 0x100) && (size == 2 ==> data < 0x1_0000)
    case Long(kind, tag, bytes) => kind < 4 && |bytes| < 256
  }

  /** The bytes of an item; those of a long one start with the prefix FEh when its type is 3. */
  function ItemBytes(i: Item): (r: seq<Octet>)
    requires WellFormed(i)
  {
    match i
    case Short(kind, tag, size, data) =>
      [tag * 16 + kind * 4 + if size == 4 then 3 else size] + Le32Bytes(data)[..size]
    case Long(kind, tag, bytes) => [LONG_TAG * 16 + kind * 4 + 2, |bytes|, tag] + bytes
  }

  lemma Prefix(kind: Octet, tag: Octet, low: Octet)
    requires kind < 4 && tag < 16 && low < 4
    ensures var p := tag as int * 16 + kind as int * 4 + low as int;
      p < 256 && p / 4 % 4 == kind && p / 16 == tag && p % 4 == low
  {
  }

  lemma LeBack(data: U32, size: nat)
    requires size == 0 || size == 1 || size == 2 || size == 4
    requires (size == 0 ==> data == 0) && (size == 1 ==> data < 0x100) && (size == 2 ==> data < 0x1_0000)
    ensures Le(Le32Bytes(data)[..size], size) == data
  {
    Parts32(data);
    if size <= 2 { SmallParts(data); }
  }

  lemma LeFront(a: seq<Octet>, b: seq<Octet>, n: nat)
    requires n <= 4 && n <= |a|
    ensures Le(a + b, n) == Le(a, n)
  {
  }

  /** Every item is fetched back from its bytes, whatever follows. */
  lemma FetchBack(i: Item, rest: seq<Octet>)
    requires WellFormed(i)
    ensures FetchItem(ItemBytes(i) + rest) == Got(i, rest)
  {
    hide Part, Le32;
    var b := ItemBytes(i) + rest;
    match i
    case Short(kind, tag, size, data) =>
      Prefix(kind, tag, if size == 4 then 3 else size);
      var t := Le32Bytes(data)[..size];
      LeBack(data, size);
      LeFront(t, rest, size);
      hide Le;
      assert b[1..] == t + rest && b[1 + size..] == rest;
    case Long(kind, tag, bytes) =>
      Prefix(kind, LONG_TAG, 2);
      assert b[3..3 + |bytes|] == bytes && b[3 + |bytes|..] == rest;
  }

  lemma LeBytes(b: seq<Octet>, n: nat)
    requires (n == 0 || n == 1 || n == 2 || n == 4) && n <= |b|
    ensures Le32Bytes(Le(b, n))[..n] == b[..n]
  {
    if n == 4 {
      LoadStore(b, 0);
    } else if n == 2 {
      FourDigits(0, 0, b[1], b[0], Le(b, n));
    } else if n == 1 {
      FourDigits(0, 0, 0, b[0], Le(b, n));
    }
  }

  /** Whatever is fetched is well formed, and its bytes and the rest are what was there: nothing is
      skipped and nothing read twice. The low bits in front of a long item are not looked at. */
  lemma FetchCovers(b: seq<Octet>)
    requires FetchItem(b).Got?
    ensures WellFormed(FetchItem(b).item)
    ensures FetchItem(b).item.Short? || b[0] % 4 == 2 ==> ItemBytes(FetchItem(b).item) + FetchItem(b).rest == b
  {
    hide Le32, Part;
    var i := FetchItem(b).item;
    if i.Short? {
      LeBytes(b[1..], i.size);
      hide Le;
      assert b == [b[0]] + b[1..][..i.size] + b[1 + i.size..];
    } else {
      var n := |i.bytes|;
      assert b == [b[0], b[1], b[2]] + b[3..3 + n] + b[3 + n..];
    }
  }

  // ---- the state of the parser ----

  type S32 = i: int | -0x8000_0000 <= i < 0x8000_0000

  function ToS32(x: U32): (r: S32) { if x < 0x8000_0000 then x else x as int - 0x1_0000_0000 }

  datatype Global = Global(page: U32, logMin: S32, logMax: S32, phyMin: S32, phyMax: S32, exponent: S32, unit: U32,
                           id: U32, size: U32, count: U32)

  const NO_GLOBAL := Global(0, 0, 0, 0, 0, 0, 0, 0, 0, 0)

  /** `usage` and `coll` are the filled parts of the two usage tables. */
  datatype Local = Local(usage: seq<U32>, coll: seq<nat>, usageMin: U32, depth: nat, branch: nat)

  const NO_LOCAL := Local([], [], 0, 0, 0)

  datatype Collection = Collection(kind: nat, usage: U32, level: nat)

  /** `nFields` counts the main items handed to the field registration so far. */
  datatype State = State(global: Global, saved: seq<Global>, local: Local, open: seq<nat>, colls: seq<Collection>,
                         apps: nat, nFields: nat)

  const START := State(NO_GLOBAL, [], NO_LOCAL, [], [], 0, 0)

  datatype Effect = Effect(state: State, ret: int)

  function Udata(i: Item): (r: U32) requires i.Short? { i.data }

  function Sdata(i: Item): (r: S32)
    requires i.Short? && WellFormed(i)
  {
    if i.size == 1 then (if i.data < 0x80 then i.data else i.data as int - 0x100)
    else if i.size == 2 then (if i.data < 0x8000 then i.data else i.data as int - 0x1_0000)
    else ToS32(i.data)
  }

  // ---- main items ----

  function Open(s: State, kind: nat): (r: Effect) {
    if |s.open| == COLLECTION_STACK then Effect(s, -EPERM)
    else
      var usage: U32 := if s.local.usage == [] then 0 else s.local.usage[0];
      Effect(s.(open := s.open + [|s.colls|], colls := s.colls + [Collection(kind, usage, |s.open|)],
                apps := s.apps + if kind == APPLICATION then 1 else 0), 0)
  }

  function Close(s: State): (r: Effect) {
    if s.open == [] then Effect(s, -EPERM) else Effect(s.(open := s.open[..|s.open| - 1]), 0)
  }

  /** Field registration is not modelled: `fields` says which of the calls succeed. */
  function Field(s: State, fields: seq<bool>): (r: Effect) {
    Effect(s.(nFields := s.nFields + 1), if s.nFields < |fields| && fields[s.nFields] then 0 else -EPERM)
  }

  function Main(s: State, i: Item, fields: seq<bool>): (r: Effect)
    requires i.Short?
  {
    var e := match i.tag
      case 10 => Open(s, i.data as nat % 0x100)
      case 12 => Close(s)
      case 8 => Field(s, fields)
      case 9 => Field(s, fields)
      case 11 => Field(s, fields)
      case _ => Effect(s, 0);
    Effect(e.state.(local := NO_LOCAL), e.ret)
  }

  // ---- global items ----

  function Exponent(v: S32): (r: S32) { if 0 <= v < 16 then (if v >= 8 then v - 16 else v) else v }

  function Checked(s: State, g: Global, ok: bool): (r: Effect) { Effect(s.(global := g), if ok then 0 else -EPERM) }

  function GlobalItem(s: State, i: Item): (r: Effect)
    requires i.Short? && WellFormed(i)
  {
    var g := s.global;
    match i.tag
    case 10 => if |s.saved| == GLOBAL_STACK then Effect(s, -EPERM) else Effect(s.(saved := s.saved + [g]), 0)
    case 11 =>
      if s.saved == [] then Effect(s, -EPERM)
      else Effect(s.(global := s.saved[|s.saved| - 1], saved := s.saved[..|s.saved| - 1]), 0)
    case 0 => Checked(s, g.(page := i.data), true)
    case 1 => Checked(s, g.(logMin := Sdata(i)), true)
    case 2 => Checked(s, g.(logMax := if g.logMin < 0 then Sdata(i) else ToS32(i.data)), true)
    case 3 => Checked(s, g.(phyMin := Sdata(i)), true)
    case 4 => Checked(s, g.(phyMax := if g.phyMin < 0 then Sdata(i) else ToS32(i.data)), true)
    case 5 => Checked(s, g.(exponent := Exponent(Sdata(i))), true)
    case 6 => Checked(s, g.(unit := i.data), true)
    case 7 => Checked(s, g.(size := i.data), i.data <= 128)
    case 9 => Checked(s, g.(count := i.data), i.data as nat <= MAX_USAGES)
    case 8 => Checked(s, g.(id := i.data), 0 < i.data as nat < MAX_IDS)
    case _ => Effect(s, -ENOTSUP)
  }

  // ---- local items ----

  function Top(open: seq<nat>): (r: nat) { if open == [] then 0 else open[|open| - 1] }

  const LAST: U32 := 0xFFFF_FFFF

  /** Usages `lo .. hi`, in order. */
  function Interval(lo: U32, hi: U32): (s: seq<U32>)
    ensures |s| == (if lo <= hi then hi - lo + 1 else 0) && forall k | 0 <= k < |s| :: s[k] as int == lo + k
  {
    seq(if lo <= hi then hi - lo + 1 else 0, k requires 0 <= k < (if lo <= hi then hi - lo + 1 else 0) => lo + k)
  }

  /** The values of a counter of 32 bits. */
  function Counting(lo: U32, n: nat): (s: seq<U32>)
    ensures |s| == n && forall k | 0 <= k < n :: s[k] == Wrap32(lo + k)
  {
    seq<U32>(n, k requires 0 <= k < n => Wrap32(lo + k))
  }

  /** How many usages the loop over a range tries. Its counter never passes the last value, so
      that a range up to there only ends when the table is full. */
  function Rounds(lo: U32, hi: U32): (r: nat) {
    if hi == LAST then MAX_USAGES + 1 else if lo <= hi then hi - lo + 1 else 0
  }

  lemma RoundsCount(lo: U32, hi: U32)
    requires hi < LAST
    ensures Counting(lo, Rounds(lo, hi)) == Interval(lo, hi)
  {
  }

  function Repeat(n: nat, v: nat): (s: seq<nat>)
    ensures |s| == n
  {
    seq(n, _ => v)
  }

  /** As many of the usages as there is room for. */
  function AddUsages(l: Local, us: seq<U32>, top: nat): (r: Local) {
    var n := if |l.usage| >= MAX_USAGES then 0 else Least(MAX_USAGES - |l.usage|, |us|);
    l.(usage := l.usage + us[..n], coll := l.coll + Repeat(n, top))
  }

  /** A usage of at most two bytes is completed by the usage page. */
  function Usage(g: Global, i: Item): (r: U32)
    requires i.Short?
  {
    if i.size <= 2 then Wrap32(g.page * 0x1_0000 + i.data) else i.data
  }

  function WithLocal(s: State, l: Local, ok: bool): (r: Effect) { Effect(s.(local := l), if ok then 0 else -EPERM) }

  function LocalItem(s: State, i: Item): (r: Effect)
    requires i.Short?
  {
    var l := s.local;
    match i.tag
    case 10 =>
      if i.data != 0 then
        if l.depth != 0 then Effect(s, -EPERM) else WithLocal(s, l.(depth := l.depth + 1, branch := l.branch + 1), true)
      else if l.depth < 1 then Effect(s, -EPERM) else WithLocal(s, l.(depth := l.depth - 1), true)
    case 0 =>
      if l.branch > 1 then Effect(s, 0) else WithLocal(s, AddUsages(l, [Usage(s.global, i)], Top(s.open)),
        |l.usage| < MAX_USAGES)
    case 1 => if l.branch > 1 then Effect(s, 0) else WithLocal(s, l.(usageMin := Usage(s.global, i)), true)
    case 2 =>
      if l.branch > 1 then Effect(s, 0)
      else
        var us := Counting(l.usageMin, Rounds(l.usageMin, Usage(s.global, i)));
        WithLocal(s, AddUsages(l, us, Top(s.open)), us == [] || |l.usage| + |us| <= MAX_USAGES)
    case _ => Effect(s, 0)
  }

  function Step(s: State, i: Item, fields: seq<bool>): (r: Effect)
    requires i.Short? && WellFormed(i)
  {
    match i.kind
    case 0 => Main(s, i, fields)
    case 1 => GlobalItem(s, i)
    case 2 => LocalItem(s, i)
    case _ => Effect(s, 0)
  }

  // ---- whole descriptors ----

  datatype Parsed = Ok(state: State) | Failed(err: int)

  predicate Balanced(s: State) { s.open == [] && s.local.depth == 0 }

  function ShortAt(b: seq<Octet>): (r: bool) { FetchItem(b).Got? && FetchItem(b).item.Short? }

  lemma ShortFine(b: seq<Octet>)
    requires ShortAt(b)
    ensures WellFormed(FetchItem(b).item)
  {
    FetchCovers(b);
  }

  /** `usbh_hid_report_parse` from a state on, for the bytes that are left. */
  function Parse(s: State, b: seq<Octet>, fields: seq<bool>): (r: Parsed)
    decreases |b|
  {
    var f := FetchItem(b);
    if f.End? then Failed(-EPERM)
    else if f.item.Long? then Failed(-EILLEGAL)
    else
      ShortFine(b);
      var e := Step(s, f.item, fields);
      if e.ret != 0 then Failed(-EPERM)
      else if f.rest == [] then (if Balanced(e.state) then Ok(e.state) else Failed(-EPERM))
      else Parse(e.state, f.rest, fields)
  }
}
