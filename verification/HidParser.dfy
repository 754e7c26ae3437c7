/** The report parser in place: core/source/host/class/hid/usbh_hid_report.c. */
module HidParser {
  import opened Descriptors
  import opened ByteOrder
  import opened HidSpec

  const DEFAULT_COLLECTIONS: nat := 16

  // ---- fetching ----

  method Load(buf: array<Octet>, p: nat, n: nat) returns (v: U32)
    requires n <= 4 && p + n <= buf.Length
    ensures v == Le(buf[p..], n)
  {
    if n == 1 {
      return buf[p];
    } else if n == 2 {
      return buf[p] as int + 0x100 * buf[p + 1] as int;
    } else if n == 4 {
      return Le32(buf[p..], 0);
    }
    return 0;
  }

  /** `__item_fetch`: the item at `p` and the position after it. */
  method ItemFetch(buf: array<Octet>, p: nat) returns (ok: bool, item: Item, q: nat)
    requires p <= buf.Length
    ensures !ok ==> FetchItem(buf[p..]) == End
    ensures ok ==> p < q <= buf.Length && FetchItem(buf[p..]) == Got(item, buf[q..])
  {
    hide Le;
    q, item := p, Short(0, 0, 0, 0);
    if p == buf.Length {
      return false, item, q;
    }
    var b := buf[p];
    q := p + 1;
    var kind, tag := b / 4 % 4, b / 16;
    if tag == LONG_TAG {
      if buf.Length - q < 2 {
        return false, item, q;
      }
      var size := buf[q];
      tag := buf[q + 1];
      q := q + 2;
      if buf.Length - q < size as int {
        return false, item, q;
      }
      item := Long(kind, tag, buf[q..q + size]);
      q := q + size;
      assert buf[p..][3..3 + size] == buf[p + 3..q] && buf[p..][3 + size..] == buf[q..];
      return true, item, q;
    }
    var size: nat := if b % 4 == 3 then 4 else b % 4;
    if buf.Length - q < size {
      return false, item, q;
    }
    assert buf[p..][1..] == buf[q..];
    var v := Load(buf, q, size);
    assert buf[p..][1 + size..] == buf[q + size..];
    return true, Short(kind, tag, size, v), q + size;
  }

  // ---- the parser ----

  class Parser {
    var global: Global
    const saved: array<Global>
    var nSaved: nat
    const usage: array<U32>
    const collIndex: array<nat>
    var nUsages: nat
    var usageMin: U32
    var depth: nat
    var branch: nat
    const open: array<nat>
    var nOpen: nat
    var colls: array<Collection>
    var nColls: nat
    var apps: nat
    var nFields: nat
    /** Which calls of the field registration, which is not modelled, succeed. */
    const fields: seq<bool>

    ghost predicate Valid()
      reads this
    {
      && saved.Length == GLOBAL_STACK && nSaved <= GLOBAL_STACK
      && usage.Length == MAX_USAGES && collIndex.Length == MAX_USAGES && nUsages <= MAX_USAGES
      && open.Length == COLLECTION_STACK && nOpen <= COLLECTION_STACK && open != collIndex
      && 0 < colls.Length && nColls <= colls.Length
    }

    ghost function Locals(): (r: Local)
      reads this, usage, collIndex
      requires Valid()
    {
      Local(usage[..nUsages], collIndex[..nUsages], usageMin, depth, branch)
    }

    ghost function Now(): (r: State)
      reads this, saved, usage, collIndex, open, colls
      requires Valid()
    {
      State(global, saved[..nSaved], Locals(), open[..nOpen], colls[..nColls], apps, nFields)
    }

    constructor (f: seq<bool>)
      ensures Valid() && Now() == START && fields == f
      ensures fresh(saved) && fresh(usage) && fresh(collIndex) && fresh(open) && fresh(colls)
    {
      global, nSaved, nUsages, usageMin, depth, branch := NO_GLOBAL, 0, 0, 0, 0, 0;
      nOpen, nColls, apps, nFields, fields := 0, 0, 0, 0, f;
      saved := new Global[GLOBAL_STACK](_ => NO_GLOBAL);
      usage := new U32[MAX_USAGES](_ => 0);
      collIndex := new nat[MAX_USAGES](_ => 0);
      open := new nat[COLLECTION_STACK](_ => 0);
      colls := new Collection[DEFAULT_COLLECTIONS](_ => Collection(0, 0, 0));
    }

    /** `__hid_usage_add`. */
    method UsageAdd(u: U32) returns (ret: int)
      requires Valid()
      modifies this`nUsages, usage, collIndex
      ensures Valid() && Locals() == AddUsages(old(Locals()), [u], Top(open[..nOpen]))
      ensures ret == if old(nUsages) < MAX_USAGES then 0 else -EPERM
      ensures nUsages == old(nUsages) + (if ret == 0 then 1 else 0) && (ret != 0 ==> Locals() == old(Locals()))
    {
      if nUsages >= MAX_USAGES {
        return -EPERM;
      }
      usage[nUsages] := u;
      collIndex[nUsages] := if nOpen != 0 then open[nOpen - 1] else 0;
      nUsages := nUsages + 1;
      assert [u][..1] == [u];
      return 0;
    }

    /** The doubling of the collection table; what is in it stays. */
    method Grow()
      requires Valid()
      modifies this`colls
      ensures Valid() && fresh(colls) && colls.Length == 2 * old(colls).Length
      ensures colls[..nColls] == old(colls[..nColls])
    {
      var a := new Collection[2 * colls.Length](_ => Collection(0, 0, 0));
      forall k | 0 <= k < colls.Length { a[k] := colls[k]; }
      colls := a;
    }

    /** An entry at the end of the collection table, which must have room. */
    method Append(c: Collection)
      requires Valid() && nColls < colls.Length
      modifies this`nColls, colls
      ensures Valid() && colls[..nColls] == old(colls[..nColls]) + [c]
    {
      colls[nColls] := c;
      nColls := nColls + 1;
    }

    method PushOpen(k: nat)
      requires Valid() && nOpen < COLLECTION_STACK
      modifies this`nOpen, open
      ensures Valid() && open[..nOpen] == old(open[..nOpen]) + [k] && nOpen == old(nOpen) + 1
      ensures collIndex[..] == old(collIndex[..])
    {
      open[nOpen] := k;
      nOpen := nOpen + 1;
    }

    /** `__hid_collection_open`. */
    method CollectionOpen(kind: nat) returns (ret: int)
      requires Valid()
      modifies this`colls, this`nOpen, this`nColls, this`apps, open, colls
      ensures Valid() && (colls == old(colls) || fresh(colls))
      ensures Effect(Now(), ret) == Open(old(Now()), kind)
    {
      var u: U32 := if nUsages == 0 then 0 else usage[0];
      if nOpen == COLLECTION_STACK {
        return -EPERM;
      }
      if nColls == colls.Length {
        Grow();
      }
      PushOpen(nColls);
      Append(Collection(kind, u, nOpen - 1));
      if kind == APPLICATION {
        apps := apps + 1;
      }
      return 0;
    }

    /** `__hid_collection_close`. */
    method CollectionClose() returns (ret: int)
      requires Valid()
      modifies this`nOpen
      ensures Valid() && Effect(Now(), ret) == Close(old(Now()))
    {
      if nOpen == 0 {
        return -EPERM;
      }
      nOpen := nOpen - 1;
      assert old(open[..nOpen])[..nOpen] == open[..nOpen];
      return 0;
    }

    method FieldAdd() returns (ret: int)
      requires Valid()
      modifies this`nFields
      ensures Valid() && Effect(Now(), ret) == Field(old(Now()), fields)
    {
      nFields := nFields + 1;
      return if nFields - 1 < |fields| && fields[nFields - 1] then 0 else -EPERM;
    }

    /** `__hid_parser_main_item_process`: afterwards the local state is cleared, come what may. */
    method MainItem(i: Item) returns (ret: int)
      requires Valid() && i.Short?
      modifies this, open, colls
      ensures Valid() && (colls == old(colls) || fresh(colls))
      ensures Effect(Now(), ret) == Main(old(Now()), i, fields)
    {
      hide Open, Close, Field;
      match i.tag {
        case 10 => ret := CollectionOpen(i.data as nat % 0x100);
        case 12 => ret := CollectionClose();
        case 8 => ret := FieldAdd();
        case 9 => ret := FieldAdd();
        case 11 => ret := FieldAdd();
        case _ => ret := 0;
      }
      nUsages, usageMin, depth, branch := 0, 0, 0, 0;
      assert Locals() == NO_LOCAL;
    }

    /** `__hid_parser_global_item_process`. */
    method GlobalItemProcess(i: Item) returns (ret: int)
      requires Valid() && i.Short? && WellFormed(i)
      modifies this`global, this`nSaved, saved
      ensures Valid() && Effect(Now(), ret) == GlobalItem(old(Now()), i)
    {
      hide Sdata, Exponent;
      match i.tag {
        case 10 =>
          if nSaved == GLOBAL_STACK {
            return -EPERM;
          }
          saved[nSaved] := global;
          nSaved := nSaved + 1;
          return 0;
        case 11 =>
          if nSaved == 0 {
            return -EPERM;
          }
          nSaved := nSaved - 1;
          global := saved[nSaved];
          assert old(saved[..nSaved])[..nSaved] == saved[..nSaved];
          return 0;
        case 0 => global := global.(page := i.data);
        case 1 => global := global.(logMin := Sdata(i));
        case 2 => global := global.(logMax := if global.logMin < 0 then Sdata(i) else ToS32(i.data));
        case 3 => global := global.(phyMin := Sdata(i));
        case 4 => global := global.(phyMax := if global.phyMin < 0 then Sdata(i) else ToS32(i.data));
        case 5 => global := global.(exponent := Exponent(Sdata(i)));
        case 6 => global := global.(unit := i.data);
        case 7 =>
          global := global.(size := i.data);
          if global.size > 128 {
            return -EPERM;
          }
        case 9 =>
          global := global.(count := i.data);
          if global.count > MAX_USAGES {
            return -EPERM;
          }
        case 8 =>
          global := global.(id := i.data);
          if global.id == 0 || global.id >= MAX_IDS {
            return -EPERM;
          }
        case _ => return -ENOTSUP;
      }
      return 0;
    }

    /** The loop over a usage range, with a counter of 32 bits: stops at the first usage there is
        no room for. */
    method UsageRange(lo: U32, hi: U32) returns (ret: int)
      requires Valid()
      modifies this`nUsages, usage, collIndex
      ensures Valid() && Locals() == AddUsages(old(Locals()), Counting(lo, Rounds(lo, hi)), Top(open[..nOpen]))
      ensures ret == if Rounds(lo, hi) == 0 || old(nUsages) + Rounds(lo, hi) <= MAX_USAGES then 0 else -EPERM
    {
      hide AddUsages, Counting, Wrap32;
      var n := lo;
      ghost var k: nat, l, top := 0, Locals(), Top(open[..nOpen]);
      RangeStart(l, lo, top);
      while n <= hi
        invariant Valid() && Locals() == AddUsages(l, Counting(lo, k), top) && nUsages == |l.usage| + k
        invariant k <= Rounds(lo, hi) && n == Wrap32(lo + k)
        invariant open[..nOpen] == old(open[..nOpen])
        decreases MAX_USAGES + 1 - nUsages
      {
        InRound(lo, k, hi);
        RangeStep(l, lo, k, Rounds(lo, hi), top);
        ret := UsageAdd(n);
        if ret != 0 {
          return -EPERM;
        }
        n := Wrap32(n + 1);
        NextCount(lo, k);
        k := k + 1;
      }
      AllRounds(lo, k, hi);
      return 0;
    }

    /** `__hid_parser_local_item_process`. */
    method LocalItemProcess(i: Item) returns (ret: int)
      requires Valid() && i.Short?
      modifies this, usage, collIndex
      ensures Valid() && colls == old(colls) && Effect(Now(), ret) == LocalItem(old(Now()), i)
    {
      hide AddUsages, Usage, Rounds;
      var data := i.data;
      match i.tag {
        case 10 =>
          if data != 0 {
            if depth != 0 {
              return -EPERM;
            }
            depth := depth + 1;
            branch := branch + 1;
          } else {
            if depth < 1 {
              return -EPERM;
            }
            depth := depth - 1;
          }
        case 0 =>
          if branch > 1 {
            return 0;
          }
          ret := UsageAdd(Usage(global, i));
          return;
        case 1 =>
          if branch > 1 {
            return 0;
          }
          usageMin := Usage(global, i);
        case 2 =>
          if branch > 1 {
            return 0;
          }
          ret := UsageRange(usageMin, Usage(global, i));
          return;
        case _ =>
      }
      return 0;
    }

    /** One item, by its type. */
    method Dispatch(i: Item) returns (ret: int)
      requires Valid() && i.Short? && WellFormed(i)
      modifies this, saved, usage, collIndex, open, colls
      ensures Valid() && (colls == old(colls) || fresh(colls))
      ensures Effect(Now(), ret) == Step(old(Now()), i, fields)
    {
      hide Main, GlobalItem, LocalItem;
      match i.kind {
        case 0 => ret := MainItem(i);
        case 1 => ret := GlobalItemProcess(i);
        case 2 => ret := LocalItemProcess(i);
        case _ => return 0;
      }
    }

    /** `usbh_hid_report_parse`. */
    method ReportParse(desc: array<Octet>) returns (ret: int)
      requires Valid() && Now() == START
      requires desc as object !in {open as object, usage as object, collIndex as object}
      modifies this, saved, usage, collIndex, open, colls
      ensures Valid()
      ensures match Parse(START, desc[..], fields)
        case Ok(t) => ret == 0 && Now() == t
        case Failed(err) => ret == err
    {
      hide FetchItem, Step;
      var p: nat := 0;
      assert desc[0..] == desc[..];
      while true
        invariant Valid() && p <= desc.Length && (colls == old(colls) || fresh(colls)) && desc[..] == old(desc[..])
        invariant Parse(START, desc[..], fields) == Parse(Now(), desc[p..], fields)
        decreases desc.Length - p
      {
        var ok, item, q := ItemFetch(desc, p);
        if !ok {
          return -EPERM;
        }
        if item.Long? {
          return -EILLEGAL;
        }
        ShortFine(desc[p..]);
        ghost var rest := desc[q..];
        ret := Dispatch(item);
        if ret != 0 {
          return -EPERM;
        }
        p := q;
        assert desc[p..] == rest;
        if p == desc.Length {
          if nOpen != 0 {
            return -EPERM;
          }
          if depth != 0 {
            return -EPERM;
          }
          return 0;
        }
      }
    }
  }

  lemma RangeStart(l: Local, lo: U32, top: nat)
    requires |l.usage| <= MAX_USAGES
    ensures AddUsages(l, Counting(lo, 0), top) == l && Wrap32(lo) == lo
  {
  }

  lemma NextCount(lo: U32, k: nat)
    ensures Wrap32(Wrap32(lo + k) + 1) == Wrap32(lo + (k + 1))
  {
  }

  /** The loop goes on only while there are usages left to try. */
  lemma InRound(lo: U32, k: nat, hi: U32)
    requires k <= Rounds(lo, hi) && Wrap32(lo + k) <= hi && k <= MAX_USAGES
    ensures k < Rounds(lo, hi)
  {
  }

  lemma AllRounds(lo: U32, k: nat, hi: U32)
    requires k <= Rounds(lo, hi) && Wrap32(lo + k) > hi
    ensures k == Rounds(lo, hi)
  {
  }

  lemma RangeStep(l: Local, lo: U32, k: nat, n: nat, top: nat)
    requires |l.usage| <= MAX_USAGES && |l.coll| == |l.usage| && k < n
    requires |AddUsages(l, Counting(lo, k), top).usage| == |l.usage| + k
    ensures var m := AddUsages(l, Counting(lo, k), top);
      AddUsages(m, [Wrap32(lo + k)], top) == AddUsages(l, Counting(lo, k + 1), top)
    ensures |l.usage| + k >= MAX_USAGES ==> AddUsages(l, Counting(lo, k), top) == AddUsages(l, Counting(lo, n), top)
  {
  }
}
