/** The life of a device on the host: its address, its references, attach and detach.
    core/source/host/core/usbh_dev.c, usbh_dev_enum.c and usbh_core.c, common/refcnt/usb_refcnt.c. */
module HostDevices {
  import opened Descriptors

  const ADDRESSES: nat := 128

  // ---- the address map ----

  /** The lowest clear bit from `i` on, or the number of bits. */
  function LowestFree(m: seq<bool>, i: nat): (r: nat)
    requires i <= |m|
    ensures i <= r <= |m| && (r < |m| ==> !m[r]) && forall k | i <= k < r :: m[k]
    decreases |m| - i
  {
    if i == |m| || !m[i] then i else LowestFree(m, i + 1)
  }

  /** `usb_hc_dev_addr_alloc`: four words of 32 bits, searched word by word and bit by bit. */
  method AddrAlloc(bits: array<bool>) returns (ret: int, addr: nat)
    requires bits.Length == ADDRESSES
    modifies bits
    ensures var k := LowestFree(old(bits[..]), 0);
      if k == ADDRESSES then ret == -ENOMEM && bits[..] == old(bits[..])
      else ret == 0 && addr == k + 1 && bits[..] == old(bits[..])[k := true]
  {
    addr := 0;
    var word: nat := 0;
    var offs: nat := 0;
    while word < 4
      invariant word <= 4 && bits[..] == old(bits[..])
      invariant LowestFree(bits[..], 0) == LowestFree(bits[..], word * 32)
    {
      offs := 0;
      while offs < 32 && bits[word * 32 + offs]
        invariant offs <= 32 && bits[..] == old(bits[..])
        invariant LowestFree(bits[..], 0) == LowestFree(bits[..], word * 32 + offs)
      {
        offs := offs + 1;
      }
      if offs < 32 {
        bits[word * 32 + offs] := true;
        return 0, word * 32 + offs + 1;
      }
      word := word + 1;
    }
    return -ENOMEM, 0;
  }

  /** `usb_hc_dev_addr_free`, for an address that can have been allocated. */
  method AddrFree(bits: array<bool>, addr: nat)
    requires bits.Length == ADDRESSES && 0 < addr <= ADDRESSES
    modifies bits
    ensures bits[..] == old(bits[..])[addr - 1 := false]
  {
    bits[addr - 1] := false;
  }

  /** Freeing what was just allocated restores the map. */
  lemma AllocFree(m: seq<bool>)
    requires |m| == ADDRESSES && LowestFree(m, 0) < ADDRESSES
    ensures var k := LowestFree(m, 0); m[k := true][k := false] == m
  {
  }

  /** USB addresses have seven bits. The address allocated is one of 1..127 unless all of these
      are taken and the last bit is clear: then 128 is handed out. */
  lemma AddressFitsSevenBits(m: seq<bool>)
    requires |m| == ADDRESSES && LowestFree(m, 0) < ADDRESSES
    ensures LowestFree(m, 0) + 1 <= 127 <==> exists k :: 0 <= k < 127 && !m[k]
  {
  }

  // ---- how a new device comes by its address ----

  /** A SET_ADDRESS request: whether the device takes it and, if not, whether it is still there. */
  datatype Try = Try(ok: bool, there: bool)

  /** One attempt to enumerate: whether it gets to the address, how the three tries to set it go,
      whether the rest succeeds, and whether the device is still connected after a failure. */
  datatype Attempt = Attempt(reached: bool, tries: seq<Try>, rest: bool, connected: bool)

  /** The address map, the address of the device, and whether the call succeeded. */
  datatype Tried = Tried(m: seq<bool>, addr: nat, ok: bool)

  predicate HasFree(m: seq<bool>) { exists k :: 0 <= k < |m| && !m[k] }

  /** `__dev_addr_alloc_set`. */
  function SetOne(m: seq<bool>, addr: nat, ok: bool): (r: Tried) {
    var k := LowestFree(m, 0);
    if k == |m| || !ok then Tried(m, addr, false) else Tried(m[k := true], k + 1, true)
  }

  /** The tries of one attempt; `check` says that the hub can tell whether a port is connected. */
  function SetSome(m: seq<bool>, addr: nat, tries: seq<Try>, check: bool): (r: Tried) {
    if tries == [] then Tried(m, addr, false)
    else
      var r := SetOne(m, addr, tries[0].ok);
      if r.ok || (check && !tries[0].there) then r else SetSome(r.m, r.addr, tries[1..], check)
  }

  /** The part of `usbh_dev_enumerate` that concerns the address. */
  function EnumerateOne(m: seq<bool>, addr: nat, t: Attempt, check: bool): (r: Tried) {
    if !t.reached then Tried(m, addr, false)
    else
      var r := SetSome(m, addr, t.tries, check);
      r.(ok := r.ok && t.rest)
  }

  /** The attempts of `usbh_basic_hub_dev_connect`. After the last failure the result is that of
      the port check, which succeeds whenever the hub has one. */
  function EnumerateAll(m: seq<bool>, addr: nat, ts: seq<Attempt>, check: bool): (r: Tried)
    decreases |ts|
  {
    if ts == [] then Tried(m, addr, check)
    else
      var r := EnumerateOne(m, addr, ts[0], check);
      if r.ok then r
      else if check && !ts[0].connected then r
      else EnumerateAll(r.m, r.addr, ts[1..], check)
  }

  /** The device takes an address in one of these tries, if there is one to give. */
  predicate Heard(tries: seq<Try>, check: bool) {
    tries != [] && (tries[0].ok || ((tries[0].there || !check) && Heard(tries[1..], check)))
  }

  /** ... or in one of these attempts, as far as they are made. */
  predicate SomeHeard(ts: seq<Attempt>, check: bool) {
    && ts != []
    && (|| (ts[0].reached && Heard(ts[0].tries, check))
        || ((ts[0].connected || !check) && SomeHeard(ts[1..], check)))
  }

  lemma FreeIsLowest(m: seq<bool>)
    ensures HasFree(m) <==> LowestFree(m, 0) < |m|
  {
  }

  lemma {:induction false} SetSomeExactly(m: seq<bool>, addr: nat, tries: seq<Try>, check: bool)
    ensures var r := SetSome(m, addr, tries, check);
      && (r.ok <==> HasFree(m) && Heard(tries, check))
      && if r.ok then r.addr > 0 else r.m == m && r.addr == addr
    decreases |tries|
  {
    FreeIsLowest(m);
    if tries != [] { SetSomeExactly(m, addr, tries[1..], check); }
  }

  /** A device comes out of the attempts with an address exactly when one of the SET_ADDRESS
      requests made went through and the map was not full. */
  lemma {:induction false} AddressExactly(m: seq<bool>, addr: nat, ts: seq<Attempt>, check: bool)
    ensures EnumerateAll(m, addr, ts, check).addr > 0 <==> addr > 0 || (HasFree(m) && SomeHeard(ts, check))
    decreases |ts|
  {
    hide HasFree, Heard, SetSome;
    if ts != [] {
      SetSomeExactly(m, addr, ts[0].tries, check);
      var r := EnumerateOne(m, addr, ts[0], check);
      AddressExactly(r.m, r.addr, ts[1..], check);
    }
  }

  /** The attempts are reported as a success although the device has no address exactly when the
      hub finds it connected after every failure and no SET_ADDRESS request went through. */
  lemma {:induction false} NoAddressExactly(m: seq<bool>, ts: seq<Attempt>, check: bool)
    ensures var r := EnumerateAll(m, 0, ts, check);
      r.ok && r.addr == 0 <==>
        check && (forall t | t in ts :: t.connected) && !(HasFree(m) && SomeHeard(ts, check))
    decreases |ts|
  {
    hide HasFree, Heard, SetSome;
    AddressExactly(m, 0, ts, check);
    if ts != [] {
      SetSomeExactly(m, 0, ts[0].tries, check);
      var r := EnumerateOne(m, 0, ts[0], check);
      assert ts == [ts[0]] + ts[1..];
      if !r.ok && r.addr == 0 { NoAddressExactly(m, ts[1..], check); }
    }
  }

  /** The clear bits of a map. */
  function Clear(m: seq<bool>): (n: nat) {
    if m == [] then 0 else Clear(m[..|m| - 1]) + if m[|m| - 1] then 0 else 1
  }

  lemma {:induction false} ClearTaken(m: seq<bool>, k: nat)
    requires k < |m| && !m[k]
    ensures Clear(m[k := true]) == Clear(m) - 1
  {
    var l := |m| - 1;
    if k < l {
      ClearTaken(m[..l], k);
      assert m[k := true][..l] == m[..l][k := true];
    } else {
      assert m[k := true][..l] == m[..l];
    }
  }

  lemma {:induction false} ClearSome(m: seq<bool>)
    ensures Clear(m) > 0 <==> HasFree(m)
  {
    if m != [] {
      ClearSome(m[..|m| - 1]);
      assert m == m[..|m| - 1] + [m[|m| - 1]];
    }
  }

  /** How the attempts end, by the number of clear bits alone, and how many bits they take. */
  datatype Outcome = Outcome(ok: bool, taken: nat)

  /** Each attempt in which a SET_ADDRESS request goes through takes a bit, even when the rest of
      the enumeration fails; without a clear bit none goes through. */
  function Outcomes(free: nat, ts: seq<Attempt>, check: bool): (o: Outcome) {
    if ts == [] then Outcome(check, 0)
    else
      var heard: nat := if free > 0 && ts[0].reached && Heard(ts[0].tries, check) then 1 else 0;
      if heard == 1 && ts[0].rest then Outcome(true, 1)
      else if check && !ts[0].connected then Outcome(false, heard)
      else
        var o := Outcomes(free - heard, ts[1..], check);
        Outcome(o.ok, heard + o.taken)
  }

  lemma {:induction false} SetSomeTakes(m: seq<bool>, addr: nat, tries: seq<Try>, check: bool)
    ensures var r := SetSome(m, addr, tries, check); Clear(r.m) == Clear(m) - (if r.ok then 1 else 0)
    decreases |tries|
  {
    hide Clear;
    FreeIsLowest(m);
    if tries != [] {
      var k := LowestFree(m, 0);
      if k < |m| { ClearTaken(m, k); }
      SetSomeTakes(m, addr, tries[1..], check);
    }
  }

  /** How the attempts end and how many bits they take. */
  lemma {:induction false} OutcomeExactly(m: seq<bool>, addr: nat, ts: seq<Attempt>, check: bool)
    ensures var r, o := EnumerateAll(m, addr, ts, check), Outcomes(Clear(m), ts, check);
      r.ok == o.ok && Clear(r.m) == Clear(m) - o.taken
    decreases |ts|
  {
    hide HasFree, Heard, SetSome, Clear;
    if ts != [] {
      ClearSome(m);
      SetSomeExactly(m, addr, ts[0].tries, check);
      SetSomeTakes(m, addr, ts[0].tries, check);
      var r := EnumerateOne(m, addr, ts[0], check);
      OutcomeExactly(r.m, r.addr, ts[1..], check);
    }
  }

  /** No bit of the map is lost on the way, and the address had a clear bit before. */
  predicate Claimed(before: seq<bool>, r: Tried) {
    && |before| == |r.m| && r.addr <= |r.m|
    && (forall k | 0 <= k < |before| :: before[k] ==> r.m[k])
    && (r.addr > 0 ==> r.m[r.addr - 1] && !before[r.addr - 1])
  }

  lemma {:induction false} SomeClaimed(before: seq<bool>, m: seq<bool>, addr: nat, tries: seq<Try>, check: bool)
    requires Claimed(before, Tried(m, addr, false))
    ensures Claimed(before, SetSome(m, addr, tries, check))
    decreases |tries|
  {
    if tries != [] {
      var r := SetOne(m, addr, tries[0].ok);
      SomeClaimed(before, r.m, r.addr, tries[1..], check);
    }
  }

  lemma {:induction false} AllClaimed(before: seq<bool>, m: seq<bool>, addr: nat, ts: seq<Attempt>, check: bool)
    requires Claimed(before, Tried(m, addr, false))
    ensures Claimed(before, EnumerateAll(m, addr, ts, check))
    decreases |ts|
  {
    hide SetSome;
    if ts != [] {
      SomeClaimed(before, m, addr, ts[0].tries, check);
      var r := EnumerateOne(m, addr, ts[0], check);
      AllClaimed(before, r.m, r.addr, ts[1..], check);
    }
  }

  /** Attempts that never get to the address, with the device connected all the while. */
  lemma {:induction false} Silent(m: seq<bool>, ts: seq<Attempt>)
    requires forall t | t in ts :: !t.reached && t.connected
    ensures EnumerateAll(m, 0, ts, true) == Tried(m, 0, true) && !SomeHeard(ts, true)
    decreases |ts|
  {
    if ts != [] { Silent(m, ts[1..]); }
  }

  // ---- devices ----

  class Device {
    const nFuns: nat
    var inject: bool
    var refCnt: nat
    var addr: nat
    var released: bool
    /** What the drivers hold, as they know themselves. */
    var drv: nat
    /** What the port and the functions handed out hold. */
    ghost var port: nat
    ghost var funs: nat

    /** `__dev_create`. */
    constructor (n: nat)
      ensures nFuns == n && inject && refCnt == 1 && addr == 0 && !released && port == 1 && funs == 0 && drv == 0
    {
      nFuns, inject, refCnt, addr, released := n, true, 1, 0, false;
      port, funs, drv := 1, 0, 0;
    }

    ghost predicate Counted()
      reads this
    {
      refCnt == port + funs + drv && (released <==> refCnt == 0)
    }
  }

  /** The references of a live device add up and its address, if it has one, is marked as taken;
      attached, it is held by its port and once for each of its functions, detached by drivers only. */
  ghost predicate Well(d: Device, listed: bool, m: seq<bool>)
    reads d
  {
    && d.Counted() && !d.released && Marked(d.addr, m)
    && d.inject == listed && d.port == (if listed then 1 else 0) && d.funs == if listed then d.nFuns else 0
  }

  /** The map after an address, if there is one, is given back. */
  function GivenBack(m: seq<bool>, addr: nat): (r: seq<bool>) { if 0 < addr <= |m| then m[addr - 1 := false] else m }

  /** Exactly the bit of the address is clear afterwards; without an address nothing changes. */
  lemma GivenBackExactly(m: seq<bool>, addr: nat, k: nat)
    requires |m| == 128 && addr <= 128 && k < 128
    ensures |GivenBack(m, addr)| == 128 && GivenBack(m, 0) == m
    ensures GivenBack(m, addr)[k] <==> m[k] && k + 1 != addr
  {
  }

  predicate Marked(addr: nat, m: seq<bool>) { addr > 0 ==> addr <= |m| && m[addr - 1] }

  /** No address is given twice. */
  ghost predicate Apart(live: set<Device>)
    reads live
  {
    forall d, e | d in live && e in live && d != e && d.addr > 0 :: d.addr != e.addr
  }

  lemma ApartMore(live: set<Device>, d: Device)
    requires Apart(live) && forall e | e in live && e.addr > 0 :: e.addr != d.addr
    ensures Apart(live + {d})
  {
  }

  lemma WellMore(d: Device, listed: bool, m: seq<bool>, m': seq<bool>)
    requires Well(d, listed, m) && (Marked(d.addr, m) ==> Marked(d.addr, m'))
    ensures Well(d, listed, m')
  {
  }

  lemma WellFacts(d: Device, listed: bool, m: seq<bool>)
    requires Well(d, listed, m)
    ensures d.Counted() && !d.released && Marked(d.addr, m) && d.inject == listed
    ensures d.port == (if listed then 1 else 0) && d.funs == (if listed then d.nFuns else 0)
  {
  }

  class Host {
    const bits: array<bool>
    /** The devices listed, and their number. */
    var list: set<Device>
    var nDev: int
    /** Every device created and not yet released. */
    ghost var live: set<Device>

    /** Every live device is well (see `Well`), and no two of them have the same address, unless
        they have none. */
    ghost predicate Valid()
      reads this, bits, live
    {
      && bits.Length == ADDRESSES && list <= live && nDev == |list|
      && (forall d | d in live :: Well(d, d in list, bits[..]))
      && Apart(live)
    }

    constructor ()
      ensures Valid() && live == {} && fresh(bits)
    {
      bits := new bool[ADDRESSES](_ => false);
      list, nDev, live := {}, 0, {};
    }

    /** `usbh_dev_ref_get`, by a driver: succeeds exactly for devices that are attached. */
    method RefGet(d: Device) returns (ret: int)
      requires Valid() && d in live
      modifies d`refCnt, d`drv
      ensures Valid() && ret == if d in list then 0 else -ENODEV
      ensures d.drv == old(d.drv) + if ret == 0 then 1 else 0
    {
      WellFacts(d, d in list, bits[..]);
      if !d.inject {
        return -ENODEV;
      }
      if d.refCnt == 0 {
        return -EPERM;
      }
      d.refCnt := d.refCnt + 1;
      d.drv := d.drv + 1;
      return 0;
    }

    /** `__dev_release`: gives the address back and ends the device. */
    method Release(d: Device)
      requires d in live && bits.Length == ADDRESSES && d.addr <= ADDRESSES && !d.released
      modifies this`live, d`released, bits
      ensures live == old(live) - {d} && d.released && bits[..] == GivenBack(old(bits[..]), d.addr)
    {
      if d.addr != 0 {
        AddrFree(bits, d.addr);
      }
      d.released := true;
      live := live - {d};
    }

    /** `usb_refcnt_put` with the release function of devices. */
    method Put(d: Device) returns (ret: int)
      requires d in live && bits.Length == ADDRESSES && d.addr <= ADDRESSES && !d.released && d.refCnt > 0
      modifies this`live, d`released, d`refCnt, bits
      ensures ret == 0 && d.refCnt == old(d.refCnt) - 1
      ensures d.refCnt == 0 ==> live == old(live) - {d} && d.released && bits[..] == GivenBack(old(bits[..]), d.addr)
      ensures d.refCnt > 0 ==> live == old(live) && !d.released && bits[..] == old(bits[..])
    {
      d.refCnt := d.refCnt - 1;
      if d.refCnt == 0 {
        Release(d);
      }
      return 0;
    }

    /** `usbh_dev_ref_put`, by a driver that holds a reference: the device is released exactly
        when this was the last reference of all. */
    method RefPut(d: Device) returns (ret: int)
      requires Valid() && d in live && d.drv > 0
      modifies this`live, d`released, d`refCnt, d`drv, bits
      ensures Valid() && ret == 0 && d.drv == old(d.drv) - 1
      ensures d.released <==> old(d !in list && d.drv == 1)
      ensures live == if d.released then old(live) - {d} else old(live)
    {
      hide Well;
      ghost var before := bits[..];
      WellFacts(d, d in list, before);
      d.drv := d.drv - 1;
      ret := Put(d);
      if !d.released { Becomes(d, d in list); }
      Others(d, before, list, old(live));
    }

    // ---- attaching ----

    /** `__dev_addr_alloc_set`: `ok` is the outcome of the SET_ADDRESS request. */
    method AddrSet(d: Device, ok: bool) returns (ret: int)
      requires bits.Length == ADDRESSES
      modifies d`addr, bits
      ensures SetOne(old(bits[..]), old(d.addr), ok) == Tried(bits[..], d.addr, ret == 0)
    {
      var addr;
      ret, addr := AddrAlloc(bits);
      if ret != 0 {
        return;
      }
      if !ok {
        AllocFree(old(bits[..]));
        AddrFree(bits, addr);
        return -EPERM;
      }
      d.addr := addr;
      return 0;
    }

    /** The part of `usbh_dev_enumerate` that concerns the address. */
    method Enumerate(d: Device, t: Attempt, check: bool) returns (ret: int)
      requires bits.Length == ADDRESSES && |t.tries| == 3
      modifies d`addr, bits
      ensures EnumerateOne(old(bits[..]), old(d.addr), t, check) == Tried(bits[..], d.addr, ret == 0)
    {
      if !t.reached {
        return -EPERM;
      }
      ghost var all := SetSome(old(bits[..]), old(d.addr), t.tries, check);
      ret := -EPERM;
      for i := 0 to 3
        invariant ret != 0 && SetSome(bits[..], d.addr, t.tries[i..], check) == all
      {
        assert t.tries[i..][1..] == t.tries[i + 1..];
        ret := AddrSet(d, t.tries[i].ok);
        if ret == 0 {
          break;
        }
        if check && !t.tries[i].there {
          return;
        }
      }
      if ret == 0 && !t.rest {
        ret := -EPERM;
      }
    }

    /** A driver is told of a new function and may take references of its own. */
    method Notified(d: Device, n: nat)
      requires d.inject && d.refCnt > 0
      modifies d`refCnt, d`drv
      ensures d.refCnt == old(d.refCnt) + n && d.drv == old(d.drv) + n
    {
      d.refCnt := d.refCnt + n;
      d.drv := d.drv + n;
    }

    /** One reference for each function handed out, and those its driver takes. */
    method HandOut(d: Device, grabs: seq<nat>)
      requires d.inject && d.Counted() && d.refCnt == 1 && d.port == 1 && !d.released && |grabs| == d.nFuns
      modifies d`refCnt, d`funs, d`drv
      ensures d.Counted() && d.funs == d.nFuns
    {
      var i: nat := 0;
      while i < d.nFuns
        invariant i <= d.nFuns && d.inject && !d.released && d.port == 1 && d.funs == i && d.Counted()
      {
        d.refCnt := d.refCnt + 1;
        d.funs := d.funs + 1;
        Notified(d, grabs[i]);
        i := i + 1;
      }
    }

    /** The device joins the list. */
    method Enlist(d: Device)
      requires Valid() && d !in live && Well(d, true, bits[..])
      requires forall e | e in live && e.addr > 0 :: e.addr != d.addr
      modifies this
      ensures Valid() && list == old(list) + {d} && live == old(live) + {d}
    {
      hide Well;
      ApartMore(live, d);
      hide Apart;
      list := list + {d};
      nDev := nDev + 1;
      live := live + {d};
    }

    /** `__dev_inject`: the functions are handed out, then the device is listed. */
    method Inject(d: Device, grabs: seq<nat>)
      requires Valid() && d !in live && d.inject && d.Counted() && d.refCnt == 1 && d.port == 1 && d.funs == 0
      requires !d.released && Marked(d.addr, bits[..]) && |grabs| == d.nFuns
      requires forall e | e in live && e.addr > 0 :: e.addr != d.addr
      modifies this, d`refCnt, d`funs, d`drv
      ensures Valid() && list == old(list) + {d} && live == old(live) + {d}
    {
      HandOut(d, grabs);
      Becomes(d, true);
      hide Well, Apart, Marked;
      Enlist(d);
    }

    lemma Becomes(d: Device, listed: bool)
      requires d.Counted() && !d.released && bits.Length == ADDRESSES && Marked(d.addr, bits[..])
      requires d.inject == listed && d.port == (if listed then 1 else 0) && d.funs == if listed then d.nFuns else 0
      ensures Well(d, listed, bits[..])
    {
    }

    /** The loop of `usbh_basic_hub_dev_connect`. The result of a failed attempt is overwritten by
        that of the port check. */
    method TryAll(d: Device, ts: seq<Attempt>, check: bool) returns (ret: int)
      requires bits.Length == ADDRESSES && |ts| == 4 && forall t | t in ts :: |t.tries| == 3
      modifies d`addr, bits
      ensures EnumerateAll(old(bits[..]), old(d.addr), ts, check) == Tried(bits[..], d.addr, ret == 0)
    {
      hide EnumerateOne;
      ghost var all := EnumerateAll(old(bits[..]), old(d.addr), ts, check);
      ret := if check then 0 else -EPERM;
      for i := 0 to 4
        invariant (ret == 0 <==> check) && EnumerateAll(bits[..], d.addr, ts[i..], check) == all
      {
        assert ts[i..][1..] == ts[i + 1..];
        ret := Enumerate(d, ts[i], check);
        if ret == 0 {
          break;
        }
        ret := if check then 0 else -ENOTSUP;
        if check && !ts[i].connected {
          return -ENODEV;
        }
      }
    }

    /** `usbh_basic_hub_dev_connect`: attached or gone. An attached device has an address, and then
        one of its own, exactly when a SET_ADDRESS request went through. */
    method Connect(nFuns: nat, ts: seq<Attempt>, check: bool, grabs: seq<nat>) returns (ret: int, d: Device)
      requires Valid() && |grabs| == nFuns && |ts| == 4 && forall t | t in ts :: |t.tries| == 3
      modifies this, bits
      ensures Valid() && fresh(d) && d.nFuns == nFuns
      ensures ret == 0 <==> EnumerateAll(old(bits[..]), 0, ts, check).ok
      ensures ret == 0 ==> list == old(list) + {d} && live == old(live) + {d}
      ensures ret == 0 ==> (d.addr > 0 <==> old(HasFree(bits[..])) && SomeHeard(ts, check))
      ensures ret != 0 ==> list == old(list) && live == old(live)
    {
      hide Well;
      ghost var before := bits[..];
      d := new Device(nFuns);
      AddressExactly(before, 0, ts, check);
      AllClaimed(before, before, 0, ts, check);
      ret := TryAll(d, ts, check);
      forall e | e in live ensures Marked(e.addr, before) { WellFacts(e, e in list, before); }
      if ret != 0 && d.addr != 0 {
        AddrFree(bits, d.addr);
      }
      forall e | e in live ensures Well(e, e in list, bits[..]) { WellMore(e, e in list, before, bits[..]); }
      if ret != 0 {
        return;
      }
      Inject(d, grabs);
    }

    /** Two devices that are there and answer nothing: both are attached, with address 0. */
    method AttachSilent(nFuns: nat, grabs: seq<nat>) returns (d: Device, e: Device)
      requires Valid() && |grabs| == nFuns
      modifies this, bits
      ensures Valid() && d != e && d in list && e in list && d.addr == 0 && e.addr == 0
    {
      hide Well;
      var silent := Attempt(false, [Try(false, true), Try(false, true), Try(false, true)], false, true);
      var ts := [silent, silent, silent, silent];
      var ret;
      Silent(bits[..], ts);
      ret, d := Connect(nFuns, ts, true, grabs);
      Silent(bits[..], ts);
      ret, e := Connect(nFuns, ts, true, grabs);
    }

    // ---- detaching ----

    /** A driver is told that a function is gone and gives up some of its references. */
    method Told(d: Device, n: nat)
      requires n <= d.drv && d.refCnt > n
      modifies d`refCnt, d`drv
      ensures d.refCnt == old(d.refCnt) - n && d.drv == old(d.drv) - n
    {
      d.refCnt := d.refCnt - n;
      d.drv := d.drv - n;
    }

    /** The loop of `__dev_eject`: the functions are taken back one by one. The port still holds
        the device, so none of these puts releases it. */
    method TakeBack(d: Device, drops: seq<nat>)
      requires d in live && d.Counted() && !d.released && d.port == 1 && d.funs == d.nFuns && |drops| == d.nFuns
      requires bits.Length == ADDRESSES && d.addr <= ADDRESSES
      modifies this`live, d`released, d`refCnt, d`drv, d`funs, bits
      ensures d.Counted() && !d.released && d.funs == 0 && live == old(live) && bits[..] == old(bits[..])
    {
      var i: nat := 0;
      while i < d.nFuns
        invariant i <= d.nFuns && d.Counted() && !d.released && d.funs == d.nFuns - i
        invariant live == old(live) && bits[..] == old(bits[..])
      {
        Told(d, if drops[i] <= d.drv then drops[i] else d.drv);
        d.funs := d.funs - 1;
        var ret := Put(d);
        i := i + 1;
      }
    }

    /** `usbh_basic_hub_dev_disconnect` with `__dev_eject`: the release comes no earlier than the
        port's own put, and it comes then exactly if no driver holds on. */
    method Disconnect(d: Device, drops: seq<nat>) returns (ret: int)
      requires Valid() && d in list && |drops| == d.nFuns
      modifies this, d, bits
      ensures Valid() && ret == 0 && list == old(list) - {d} && !d.inject
      ensures d.released <==> d.drv == 0
      ensures live == if d.released then old(live) - {d} else old(live)
    {
      hide Well;
      WellFacts(d, true, bits[..]);
      ghost var before := bits[..];
      d.inject := false;
      list := list - {d};
      nDev := nDev - 1;
      TakeBack(d, drops);
      d.port := 0;
      ret := Put(d);
      if !d.released { Becomes(d, false); }
      Others(d, before, old(list), old(live));
    }

    /** When a device leaves, nothing changes for the others: its bit is not theirs. */
    lemma Others(d: Device, before: seq<bool>, oldList: set<Device>, oldLive: set<Device>)
      requires bits.Length == ADDRESSES == |before| && Apart(oldLive) && d in oldLive
      requires bits[..] == before || bits[..] == GivenBack(before, d.addr)
      requires forall e | e in oldLive && e != d :: Well(e, e in oldList, before)
      ensures forall e | e in oldLive && e != d :: Well(e, e in oldList, bits[..])
    {
      forall e | e in oldLive && e != d ensures Well(e, e in oldList, bits[..]) {
        WellMore(e, e in oldList, before, bits[..]);
      }
    }
  }
}
