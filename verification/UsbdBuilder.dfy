/** The calls of UsbdConfig carried out in place, as core/source/device/core/usbd_dev.c does. */
module UsbdBuilder {
  import opened Descriptors
  import opened UsbdConfig

  /** The string indices handed out, shared by all devices. */
  class StrTable {
    var used: set<nat>

    constructor ()
      ensures used == {}
    {
      used := {};
    }

    /** `__dev_str_idx_alloc`. */
    method Alloc() returns (ret: int, idx: Octet)
      modifies this
      ensures idx == FreeFrom(old(used), 1)
      ensures ret == (if idx == 0 then -ENOMEM else 0) &&
        used == if idx == 0 then old(used) else old(used) + {idx as nat}
    {
      var i: nat := 1;
      while i < 32
        invariant 1 <= i <= 32 && FreeFrom(used, 1) == FreeFrom(used, i) && used == old(used)
      {
        if i !in used {
          used := used + {i};
          return 0, i;
        }
        i := i + 1;
      }
      return -ENOMEM, 0;
    }

    /** `__dev_str_idx_free`. */
    method Free(idx: Octet)
      modifies this
      ensures used == if idx > 31 then old(used) else old(used) - {idx as nat}
    {
      if idx <= 31 {
        used := used - {idx as nat};
      }
    }
  }

  class Config {
    var total: nat
    var nIntfs: Octet
    var nFunc: Octet
    var value: Octet
    var str: Octet
    var hdrs: seq<Option<Hdr>>
    var pipes: seq<Pipe>

    ghost function State(t: StrTable): (r: Cfg)
      reads this, t
    {
      Cfg(total, nIntfs, nFunc, value, str, hdrs, pipes, t.used)
    }

    /** The part of `usbd_dev_cfg_add` that sets up the structure. */
    constructor (configValue: Octet, configStr: Octet)
      ensures forall t: StrTable :: State(t) == Fresh(configValue, configStr, t.used)
    {
      total, nIntfs, nFunc, value, str := 9, 0, 0, configValue, configStr;
      hdrs, pipes := seq(INTF_MAX, _ => Option.None), [];
    }

    method FuncInit(t: StrTable, assoc: Option<AssocDesc>, f: FuncInfo) returns (ret: int)
      requires |hdrs| == INTF_MAX && Sane(f)
      modifies this, t
      ensures Effect(State(t), ret) == AddFunc(old(State(t)), assoc, f)
    {
      hide FreeFrom;
      if f.num as nat > INTF_MAX || f.alt as nat > ALT_MAX {
        return -EILLEGAL;
      }
      var num := f.num as nat;
      if hdrs[num].Some? {
        return -EEXIST;
      }
      nFunc := Wrap8(nFunc + 1);
      var spec := SpecOf(f);
      var idx;
      ret, idx := t.Alloc();
      if ret != 0 {
        return;
      }
      hdrs := hdrs[num := Some(Hdr(assoc, NewIntf(f, idx), spec))];
      nIntfs := Wrap8(nIntfs + 1);
      total := Wrap16(total + 9 + f.specSize);
      return 0;
    }

    method AssocCreate(t: StrTable, a: AssocInfo, f: FuncInfo) returns (ret: int)
      requires |hdrs| == INTF_MAX && Sane(f)
      modifies this, t
      ensures Effect(State(t), ret) == AddAssoc(old(State(t)), a, f)
    {
      hide FreeFrom, AddFunc;
      var idx;
      ret, idx := t.Alloc();
      if ret != 0 {
        return;
      }
      assert old(State(t)).(strs := t.used) == State(t);
      ret := FuncInit(t, Some(NewAssoc(a, idx)), f);
      if ret != 0 {
        t.Free(idx);
        return;
      }
      total := Wrap16(total + 8);
    }

    /** `usbd_dev_func_add`. */
    method FuncAdd(t: StrTable, f: FuncInfo) returns (ret: int)
      requires |hdrs| == INTF_MAX && Sane(f)
      modifies this, t
      ensures Effect(State(t), ret) == Step(old(State(t)), FuncAddCall(f))
    {
      ret := FuncInit(t, None, f);
    }

    /** `usbd_dev_func_assoc_add`. */
    method FuncAssocAdd(t: StrTable, a: AssocInfo, fs: seq<FuncInfo>) returns (ret: int)
      requires |hdrs| == INTF_MAX && AssocArgs(a, fs)
      modifies this, t
      ensures Effect(State(t), ret) == Step(old(State(t)), AssocAddCall(a, fs))
    {
      hide AddFunc, AddAssoc, Sane;
      ghost var c := State(t);
      if a.first > 0 {
        if hdrs[a.first - 1].None? {
          return -EPERM;
        }
      }
      var i: nat := 0;
      while i < a.count as nat
        invariant i <= a.count as nat && State(t) == c
        invariant forall k | a.first as nat <= k < a.first + i :: hdrs[k].None?
      {
        if hdrs[i + a.first].Some? {
          return -EEXIST;
        }
        i := i + 1;
      }
      i, ret := 0, 0;
      while i < a.count as nat
        invariant i <= |fs| && |hdrs| == INTF_MAX
        invariant (forall f | f in fs[..i] :: Sane(f)) && Effect(State(t), ret) == AddEach(c, a, fs[..i])
      {
        ghost var d := State(t);
        if fs[i].num == a.first {
          ret := AssocCreate(t, a, fs[i]);
        } else {
          ret := FuncInit(t, None, fs[i]);
        }
        i := i + 1;
        EachNext(c, a, fs, i);
        assert Effect(State(t), ret) == AddOne(d, a, fs[i - 1]);
      }
      assert fs[..i] == fs;
    }

    /** `usbd_dev_pipe_add`: one walk serves both the automatic and the requested number. */
    method AddPipe(t: StrTable, intf: nat, p: PipeInfo, grant: Option<Octet>) returns (ret: int, addr: Octet)
      requires |hdrs| == INTF_MAX && Callable(State(t), PipeAddCall(intf, p, grant))
      modifies this
      ensures Effect(State(t), ret) == Step(old(State(t)), PipeAddCall(intf, p, grant))
      ensures pipes != old(pipes) ==> pipes[|pipes| - 1].ep.addr == addr
    {
      hide AutoNum, FindAddr, Bump;
      addr := 0;
      if hdrs[intf].None? {
        return -EPERM, addr;
      }
      var epNum, j := WalkPipes(pipes, p);
      if p.num != 0 && j < |pipes| {
        return if pipes[j].hdr != intf then -EAGAIN else 0, addr;
      }
      match grant
      case None => return -ENODEV, addr;
      case Some(granted) =>
        pipes := pipes + [Pipe(intf, NewEp(p, granted), 1)];
        hdrs := hdrs[intf := Some(Bump(hdrs[intf].value, 1))];
        total := Wrap16(total + 9);
        return 0, granted;
    }

    /** `usbd_dev_pipe_del`. */
    method DelPipe(t: StrTable, intf: nat, isIn: bool, num: Octet) returns (ret: int)
      requires |hdrs| == INTF_MAX && intf < INTF_MAX
      modifies this
      ensures Effect(State(t), ret) == Step(old(State(t)), PipeDelCall(intf, isIn, num))
    {
      hide FindOwn, Bump;
      if hdrs[intf].None? {
        return -EPERM;
      }
      var j := WalkOwn(pipes, Dir(isIn) + num % 16, intf);
      if j == |pipes| {
        return -ENODEV;
      }
      var r := pipes[j].refs - 1;
      if r == 0 {
        pipes := pipes[..j] + pipes[j + 1..];
      } else {
        pipes := pipes[j := pipes[j].(refs := if r > 0 then r else 255)];
      }
      hdrs := hdrs[intf := Some(Bump(hdrs[intf].value, -1))];
      total := Wrap16(total - 9);
      return 0;
    }
  }

  /** The walk of `usbd_dev_pipe_add` over the pipe list: the endpoint number to ask for, and
      the first pipe that has the requested address already. */
  method WalkPipes(pipes: seq<Pipe>, p: PipeInfo) returns (epNum: nat, j: nat)
    ensures epNum % 16 == AskNum(pipes, p)
    ensures p.num != 0 ==> j == FindAddr(pipes, Dir(p.isIn) + p.num % 16)
  {
    hide AutoNum, FindAddr;
    epNum := if p.num == 0 then 1 else p.num as nat;
    j := 0;
    var addr := Dir(p.isIn) + p.num % 16;
    WalkStart(pipes, Dir(p.isIn), addr);
    while j < |pipes|
      invariant j <= |pipes| && (p.num != 0 ==> epNum == p.num as nat)
      invariant p.num == 0 ==> AutoNum(pipes, Dir(p.isIn), 1) == AutoNum(pipes[j..], Dir(p.isIn), epNum)
      invariant p.num != 0 ==> FindAddr(pipes, addr) == j + FindAddr(pipes[j..], addr)
    {
      WalkOn(pipes, Dir(p.isIn), epNum, addr, j);
      if p.num == 0 {
        if pipes[j].ep.addr as int == Dir(p.isIn) + epNum {
          epNum := epNum + 1;
        }
      } else if pipes[j].ep.addr as int == addr {
        return;
      }
      j := j + 1;
    }
    WalkEnd(pipes, Dir(p.isIn), epNum, addr, j);
  }

  /** The walk of `usbd_dev_pipe_del`. */
  method WalkOwn(pipes: seq<Pipe>, addr: int, intf: nat) returns (j: nat)
    ensures j == FindOwn(pipes, addr, intf)
  {
    hide FindOwn;
    j := 0;
    assert pipes[0..] == pipes;
    while j < |pipes| && !(pipes[j].ep.addr as int == addr && pipes[j].hdr == intf)
      invariant j <= |pipes| && FindOwn(pipes, addr, intf) == j + FindOwn(pipes[j..], addr, intf)
    {
      OwnOn(pipes, addr, intf, j);
      j := j + 1;
    }
    OwnEnd(pipes, addr, intf, j);
  }

  lemma EachNext(c: Cfg, a: AssocInfo, fs: seq<FuncInfo>, i: nat)
    requires |c.hdrs| == INTF_MAX && 0 < i <= |fs| && forall f | f in fs :: Sane(f)
    ensures forall f | f in fs[..i] :: Sane(f)
    ensures forall f | f in fs[..i - 1] :: Sane(f)
    ensures AddEach(c, a, fs[..i]) == AddOne(AddEach(c, a, fs[..i - 1]).cfg, a, fs[i - 1])
  {
    hide AddOne, Sane;
    assert fs[..i][..i - 1] == fs[..i - 1];
  }

  lemma WalkStart(ps: seq<Pipe>, dir: Octet, addr: int)
    ensures AutoNum(ps, dir, 1) == AutoNum(ps[0..], dir, 1) && FindAddr(ps, addr) == 0 + FindAddr(ps[0..], addr)
  {
    assert ps[0..] == ps;
  }

  lemma WalkOn(ps: seq<Pipe>, dir: Octet, n: nat, addr: int, j: nat)
    requires j < |ps|
    ensures AutoNum(ps[j..], dir, n) == AutoNum(ps[j + 1..], dir, if ps[j].ep.addr as int == dir + n then n + 1 else n)
    ensures FindAddr(ps[j..], addr) == if ps[j].ep.addr as int == addr then 0 else 1 + FindAddr(ps[j + 1..], addr)
  {
    assert ps[j..][1..] == ps[j + 1..];
  }

  lemma WalkEnd(ps: seq<Pipe>, dir: Octet, n: nat, addr: int, j: nat)
    requires j == |ps|
    ensures AutoNum(ps[j..], dir, n) == n && FindAddr(ps[j..], addr) == 0
  {
  }

  lemma OwnOn(ps: seq<Pipe>, addr: int, intf: nat, j: nat)
    requires j < |ps| && !(ps[j].ep.addr as int == addr && ps[j].hdr == intf)
    ensures FindOwn(ps[j..], addr, intf) == 1 + FindOwn(ps[j + 1..], addr, intf)
  {
    assert ps[j..][1..] == ps[j + 1..];
  }

  lemma OwnEnd(ps: seq<Pipe>, addr: int, intf: nat, j: nat)
    requires j <= |ps| && (j < |ps| ==> ps[j].ep.addr as int == addr && ps[j].hdr == intf)
    ensures FindOwn(ps[j..], addr, intf) == 0
  {
  }
}
