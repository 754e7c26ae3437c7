/** The pointer-walking code of core/source/host/core/usbh_dev_enum.c, over a buffer in memory,
    proved against the structure functions of `ConfigParser`. */
module ConfigWalk {
  import opened Descriptors
  import opened ConfigParser

  /** The buffer holds `b` at `off`. */
  ghost predicate Holds(buf: array<Octet>, off: nat, b: seq<Octet>)
    reads buf
  {
    off + |b| <= buf.Length && forall k | 0 <= k < |b| :: buf[off + k] == b[k]
  }

  lemma HoldsByte(buf: array<Octet>, off: nat, b: seq<Octet>, k: nat)
    requires Holds(buf, off, b) && k < |b|
    ensures off + k < buf.Length && buf[off + k] == b[k]
  {
  }

  lemma HoldsSplit(buf: array<Octet>, off: nat, x: seq<Octet>, r: seq<Octet>)
    requires Holds(buf, off, x + r)
    ensures Holds(buf, off, x) && Holds(buf, off + |x|, r)
  {
    var m := off + |x|;
    forall k | 0 <= k < |x| ensures buf[off + k] == x[k] { HoldsByte(buf, off, x + r, k); }
    forall k | 0 <= k < |r| ensures buf[m + k] == r[k] { HoldsByte(buf, off, x + r, |x| + k); }
  }

  lemma SliceHeld(buf: array<Octet>, off: nat, x: seq<Octet>, n: nat)
    requires Holds(buf, off, x) && n == |x|
    ensures off + n <= buf.Length && buf[off..off + n] == x
  {
  }

  lemma TwoBytes(b: seq<Octet>)
    requires Framed(b) && b != []
    ensures 2 <= b[0] <= |b|
  {
  }

  lemma HoldsNext(buf: array<Octet>, off: nat, b: seq<Octet>)
    requires Framed(b) && b != [] && Holds(buf, off, b)
    ensures 2 <= b[0] <= |b| && off + |b| <= buf.Length
    ensures buf[off] == b[0] && buf[off + 1] == b[1]
    ensures Holds(buf, off, Head(b)) && Holds(buf, off + b[0], Next(b))
  {
    hide Head, Next;
    HeadNext(b);
    TwoBytes(b);
    HoldsByte(buf, off, b, 0);
    HoldsByte(buf, off, b, 1);
    hide Holds, Framed;
    HoldsSplit(buf, off, Head(b), Next(b));
  }

  lemma RunStep(b: seq<Octet>, stops: set<Octet>)
    requires Framed(b)
    ensures b == [] || b[1] in stops ==> Run(b, stops).rest == b
    ensures b != [] && b[1] !in stops ==> Run(b, stops).rest == Run(Next(b), stops).rest
  {
  }

  lemma RunHeld(buf: array<Octet>, off: nat, b: seq<Octet>, stops: set<Octet>)
    requires Framed(b) && Holds(buf, off, b)
    ensures var s := Run(b, stops); var n := |s.run|;
      n == |b| - |s.rest| && Holds(buf, off, s.run) && Holds(buf, off + n, s.rest)
  {
    hide Run, Holds, Framed;
    RunIsMaximal(b, stops);
    HoldsSplit(buf, off, Run(b, stops).run, Run(b, stops).rest);
  }

  /** `__next_desc_get`: the number of bytes before the first descriptor of one of three types.
      The length given may run past the buffer when such a descriptor comes first. */
  method NextDescGet(buf: array<Octet>, off: nat, size: nat, t1: Octet, t2: Octet, t3: Octet, ghost b: seq<Octet>)
    returns (n: nat)
    requires Framed(b) && Holds(buf, off, b)
    requires |b| == size || (|b| < size && Run(b, {t1, t2, t3}).rest != [])
    ensures var s := Run(b, {t1, t2, t3});
      n == |s.run| && Holds(buf, off, s.run) && Holds(buf, off + n, s.rest)
  {
    hide Holds, Run, Framed;
    ghost var stops := {t1, t2, t3};
    ghost var rest := b;
    var p, left: int := off, size;
    RunHeld(buf, off, b, stops);
    while left > 0
      invariant Framed(rest) && off <= p && Holds(buf, p, rest) && |rest| <= |b|
      invariant p - off == |b| - |rest| && left == size - (p - off)
      invariant Run(rest, stops).rest == Run(b, stops).rest
      decreases |rest|
    {
      RunStep(rest, stops);
      HoldsNext(buf, p, rest);
      if buf[p + 1] == t1 || buf[p + 1] == t2 || buf[p + 1] == t3 {
        break;
      }
      if buf[p] == 0 {
        break;
      }
      left := left - buf[p];
      p := p + buf[p];
      rest := Next(rest);
    }
    RunStep(rest, stops);
    return p - off;
  }

  /** `__dev_ep_init`: the endpoint descriptor at `off`, and the class-specific bytes after it. */
  method EpInit(buf: array<Octet>, off: nat, size: nat, ghost b: seq<Octet>) returns (ret: int, ep: Endpoint)
    requires Framed(b) && b != [] && |b| == size && Holds(buf, off, b)
    ensures BadEp(b) ==> ret == -EILLEGAL
    ensures !BadEp(b) ==> var s := Run(Next(b), STOPS);
      ret == |b| - |s.rest| && ret > 0 && ep == Endpoint(Head(b), s.run) && Holds(buf, off + ret, s.rest)
  {
    hide Holds, Run, Framed, Next;
    ep := Endpoint([], []);
    HoldsNext(buf, off, b);
    if buf[off] < 7 {
      return -EILLEGAL, ep;
    }
    HoldsByte(buf, off, b, 2);
    var num := buf[off + 2] % 16;
    if num >= 16 || num == 0 {
      return -EILLEGAL, ep;
    }
    var L := buf[off];
    var i := NextDescGet(buf, off + L, size - L, DT_INTERFACE, DT_ENDPOINT, DT_ASSOC, Next(b));
    SliceHeld(buf, off, Head(b), L);
    SliceHeld(buf, off + L, Run(Next(b), STOPS).run, i);
    ep := Endpoint(buf[off..off + L], buf[off + L..off + L + i]);
    return L + i, ep;
  }

  // ---- the endpoint loop ----

  /** What the walk from `start` yields, once `eps` are in hand and `rest` is still to be seen. */
  ghost predicate EpsSoFar(start: seq<Octet>, n: nat, eps: seq<Endpoint>, rest: seq<Octet>)
    requires Framed(start) && Framed(rest)
  {
    && |eps| <= n
    && WalkEps(start, n) ==
      match WalkEps(rest, n - |eps|)
      case EpFail => EpFail
      case EpDone(more, r) => EpDone(eps + more, r)
  }

  lemma EpsBegin(start: seq<Octet>, n: nat)
    requires Framed(start)
    ensures EpsSoFar(start, n, [], start)
  {
    hide WalkEps;
    match WalkEps(start, n)
    case EpFail =>
    case EpDone(more, r) => assert [] + more == more;
  }

  lemma EpsMore(start: seq<Octet>, n: nat, eps: seq<Endpoint>, rest: seq<Octet>)
    requires Framed(start) && Framed(rest) && EpsSoFar(start, n, eps, rest)
    requires rest != [] && rest[1] == DT_ENDPOINT && |eps| < n
    ensures BadEp(rest) ==> WalkEps(start, n).EpFail?
    ensures !BadEp(rest) ==> var s := Run(Next(rest), STOPS);
      EpsSoFar(start, n, eps + [Endpoint(Head(rest), s.run)], s.rest)
  {
    if !BadEp(rest) {
      var s := Run(Next(rest), STOPS);
      var e := Endpoint(Head(rest), s.run);
      match WalkEps(s.rest, n - |eps| - 1)
      case EpFail =>
      case EpDone(more, r) => Reassociate(eps, [e], more);
    }
  }

  lemma EpsSkip(start: seq<Octet>, n: nat, eps: seq<Endpoint>, rest: seq<Octet>)
    requires Framed(start) && Framed(rest) && EpsSoFar(start, n, eps, rest)
    requires rest != [] && rest[1] !in STOPS
    ensures EpsSoFar(start, n, eps, Next(rest))
  {
  }

  lemma EpsEnd(start: seq<Octet>, n: nat, eps: seq<Endpoint>, rest: seq<Octet>)
    requires Framed(start) && Framed(rest) && EpsSoFar(start, n, eps, rest)
    requires rest == [] || rest[1] == DT_INTERFACE || rest[1] == DT_ASSOC || (rest[1] == DT_ENDPOINT && |eps| == n)
    ensures WalkEps(start, n) == EpDone(eps, rest)
  {
    assert eps + [] == eps;
  }

  /** The loop of `__dev_intf_parse` over what follows the interface's own extra bytes;
      `cnt` is the clipped endpoint count, and the loop reads but never writes the buffer. */
  method EpsParse(buf: array<Octet>, off: nat, size: nat, cnt: nat, ghost b: seq<Octet>)
    returns (ret: int, eps: seq<Endpoint>)
    requires Framed(b) && |b| == size && Holds(buf, off, b)
    ensures match WalkEps(b, cnt)
      case EpFail => ret == -EILLEGAL
      case EpDone(all, rest) => ret == |b| - |rest| && eps == all
  {
    hide Holds, EpsSoFar, BadEp, WalkEps;
    var p, len := off, size;
    ghost var rest := b;
    eps := [];
    EpsBegin(b, cnt);
    while len > 0
      invariant Framed(rest) && |rest| == len && p + len == off + size && off <= p && Holds(buf, p, rest)
      invariant |eps| <= cnt && EpsSoFar(b, cnt, eps, rest)
      invariant |rest| <= |b|
      decreases len
    {
      HoldsNext(buf, p, rest);
      if buf[p] > len {
        break;
      }
      if buf[p + 1] == DT_INTERFACE || buf[p + 1] == DT_ASSOC {
        break;
      }
      var step: int;
      if buf[p + 1] == DT_ENDPOINT {
        if |eps| >= cnt {
          break;
        }
        EpsMore(b, cnt, eps, rest);
        var ep;
        step, ep := EpInit(buf, p, len, rest);
        if step < 0 {
          return step, eps;
        }
        eps := eps + [ep];
        rest := Run(Next(rest), STOPS).rest;
      } else {
        EpsSkip(b, cnt, eps, rest);
        step := buf[p];
        rest := Next(rest);
      }
      p, len := p + step, len - step;
    }
    EpsEnd(b, cnt, eps, rest);
    return size - len, eps;
  }

  /** `__dev_intf_parse` on a fresh interface: its endpoint count is rewritten in the buffer,
      first clipped to the maximum and at the end set to the number of endpoints kept. */
  method IntfParse(buf: array<Octet>, off: nat, size: nat, ghost b: seq<Octet>) returns (ret: int, intf: Interface)
    requires Framed(b) && b != [] && |b| == size && Holds(buf, off, b) && b[0] >= 9
    modifies buf
    ensures match WalkIntf(b)
      case IntfFail => ret == -EILLEGAL
      case IntfDone(f, rest) =>
        ret == |b| - |rest| && intf == f && buf[..] == old(buf[..])[off + 4 := |f.eps|]
  {
    hide WalkEps, Run, Framed;
    HoldsNext(buf, off, b);
    HoldsByte(buf, off, b, 4);
    var L := buf[off];
    SliceHeld(buf, off, Head(b), L);
    var desc := buf[off..off + L];
    intf := Interface(desc, [], []);
    buf[off + 4] := Least(buf[off + 4], MAX_EP);
    assert Holds(buf, off + L, Next(b));
    var i := NextDescGet(buf, off + L, size - L, DT_INTERFACE, DT_ENDPOINT, DT_ASSOC, Next(b));
    SliceHeld(buf, off + L, Run(Next(b), STOPS).run, i);
    var extra := buf[off + L..off + L + i];
    ghost var s := Run(Next(b), STOPS);
    var used, eps := EpsParse(buf, off + L + i, size - L - i, buf[off + 4], s.rest);
    if used < 0 {
      return used, intf;
    }
    buf[off + 4] := |eps|;
    intf := Interface(desc, extra, eps);
    return L + i + used, intf;
  }

  /** `__dev_intf_init` */
  method IntfInit(buf: array<Octet>, off: nat, size: nat, ghost b: seq<Octet>) returns (ret: int, intf: Interface)
    requires Framed(b) && b != [] && |b| == size && Holds(buf, off, b)
    modifies buf
    ensures match WalkIntf(b)
      case IntfFail => ret == -EILLEGAL
      case IntfDone(f, rest) =>
        ret == |b| - |rest| && intf == f && buf[..] == old(buf[..])[off + 4 := |f.eps|]
  {
    HoldsNext(buf, off, b);
    if buf[off] < 9 {
      return -EILLEGAL, Interface([], [], []);
    }
    ret, intf := IntfParse(buf, off, size, b);
  }
}
