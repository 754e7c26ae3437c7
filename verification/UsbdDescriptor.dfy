/** Writing a configuration out as one byte string: `__cfg_desc_make` and `__usb_intf_desc_fill`
    of core/source/device/core/usbd_dev.c. */
module UsbdDescriptor {
  import opened Descriptors
  import opened UsbdConfig

  // ---- the byte string of a configuration ----

  function PipesOf(ps: seq<Pipe>, intf: nat): (r: seq<EpDesc>) {
    if ps == [] then [] else (if ps[0].hdr == intf then [ps[0].ep] else []) + PipesOf(ps[1..], intf)
  }

  function AllEpBytes(es: seq<EpDesc>): (b: seq<Octet>)
    ensures |b| == 9 * |es|
  {
    if es == [] then [] else EpBytes(es[0]) + AllEpBytes(es[1..])
  }

  function AssocPart(h: Hdr): (b: seq<Octet>)
    ensures |b| == if h.assoc.Some? then 8 else 0
  {
    match h.assoc
    case None => []
    case Some(a) => AssocBytes(a)
  }

  function HdrBytes(h: Hdr, es: seq<EpDesc>): (r: seq<Octet>) {
    AssocPart(h) + IntfBytes(h.intf) + h.spec + AllEpBytes(es)
  }

  /** Headers `i..n`, each with its own pipes. */
  function HdrsBytes(c: Cfg, i: nat, n: nat): (r: seq<Octet>)
    requires n <= |c.hdrs| && forall k | i <= k < n :: c.hdrs[k].Some?
    decreases n - i
  {
    if i >= n then [] else HdrBytes(c.hdrs[i].value, PipesOf(c.pipes, i)) + HdrsBytes(c, i + 1, n)
  }

  predicate Dense(c: Cfg, n: nat) {
    n <= |c.hdrs| && forall k | 0 <= k < |c.hdrs| :: c.hdrs[k].Some? <==> k < n
  }

  function Serialize(c: Cfg, n: nat): (r: seq<Octet>)
    requires Dense(c, n)
  {
    CfgBytes(c.total, c.nIntfs, c.value, c.str) + HdrsBytes(c, 0, n)
  }

  // ---- its length is the recount ----

  lemma {:induction false} PipesCounted(ps: seq<Pipe>, i: nat)
    ensures |PipesOf(ps, i)| == Count(ps, i)
  {
    if ps != [] {
      PipesCounted(ps[1..], i);
      CountFront(ps, i);
    }
  }

  lemma {:induction false} CountFront(ps: seq<Pipe>, i: nat)
    requires ps != []
    ensures Count(ps, i) == (if ps[0].hdr == i then 1 else 0) + Count(ps[1..], i)
  {
    var l := |ps| - 1;
    if l > 0 {
      CountFront(ps[..l], i);
      assert ps[..l][1..] == ps[1..][..l - 1];
    }
  }

  /** Pipes per header, added up over the first `n` headers. */
  function Counts(ps: seq<Pipe>, n: nat): (r: nat) {
    if n == 0 then 0 else Counts(ps, n - 1) + Count(ps, n - 1)
  }

  lemma {:induction false} CountsAll(ps: seq<Pipe>, n: nat)
    requires forall p | p in ps :: p.hdr < n
    ensures Counts(ps, n) == |ps|
  {
    if ps == [] {
      CountsEmpty(n);
    } else {
      var l := |ps| - 1;
      CountsAll(ps[..l], n);
      CountsSnoc(ps[..l], ps[l], n);
      assert ps == ps[..l] + [ps[l]];
    }
  }

  lemma {:induction false} CountsEmpty(n: nat)
    ensures Counts([], n) == 0
  {
    if n > 0 { CountsEmpty(n - 1); }
  }

  lemma {:induction false} CountsSnoc(ps: seq<Pipe>, p: Pipe, n: nat)
    ensures Counts(ps + [p], n) == Counts(ps, n) + if p.hdr < n then 1 else 0
  {
    if n > 0 {
      CountsSnoc(ps, p, n - 1);
      CountSnoc(ps, p, n - 1);
    }
  }

  lemma {:induction false} HdrsLength(c: Cfg, i: nat, n: nat)
    requires n <= |c.hdrs| && i <= n && forall k | 0 <= k < n :: c.hdrs[k].Some?
    ensures |HdrsBytes(c, i, n)| == Sum(c.hdrs[..n]) - Sum(c.hdrs[..i]) + 9 * (Counts(c.pipes, n) - Counts(c.pipes, i))
    decreases n - i
  {
    hide Sum, HdrBytes, HdrLen, Count, PipesOf;
    if i < n {
      HdrsLength(c, i + 1, n);
      PipesCounted(c.pipes, i);
      HdrLength(c.hdrs[i].value, PipesOf(c.pipes, i));
      SumNext(c.hdrs, i);
    }
  }

  lemma HdrLength(h: Hdr, es: seq<EpDesc>)
    ensures |HdrBytes(h, es)| == HdrLen(Some(h)) + 9 * |es|
  {
    hide IntfBytes, AllEpBytes;
  }

  lemma SumNext(hs: seq<Option<Hdr>>, i: nat)
    requires i < |hs|
    ensures Sum(hs[..i + 1]) == Sum(hs[..i]) + HdrLen(hs[i])
  {
    assert hs[..i + 1][..i] == hs[..i];
  }

  lemma {:induction false} SumNones(hs: seq<Option<Hdr>>, n: nat)
    requires n <= |hs| && forall k | n <= k < |hs| :: hs[k].None?
    ensures Sum(hs) == Sum(hs[..n]) && Present(hs) == Present(hs[..n])
    decreases |hs|
  {
    if n == |hs| {
      assert hs[..n] == hs;
    } else {
      SumNones(hs[..|hs| - 1], n);
      assert hs[..|hs| - 1][..n] == hs[..n];
    }
  }

  /** What is written has exactly the recounted length. */
  lemma SerializeLength(c: Cfg, n: nat)
    requires Shaped(c) && Dense(c, n)
    ensures |Serialize(c, n)| == Recount(c)
  {
    hide Sum, Count, Present, HdrsBytes;
    forall p | p in c.pipes ensures p.hdr < n { assert PipeOk(c.hdrs, p); }
    CountsAll(c.pipes, n);
    HdrsLength(c, 0, n);
    SumNones(c.hdrs, n);
    assert c.hdrs[..0] == [];
    EmptySum();
  }

  lemma EmptySum()
    ensures Sum([]) == 0 && Present([]) == 0
  {
  }

  lemma {:induction false} AllPresent(hs: seq<Option<Hdr>>)
    requires forall k | 0 <= k < |hs| :: hs[k].Some?
    ensures Present(hs) == |hs|
  {
    if hs != [] { AllPresent(hs[..|hs| - 1]); }
  }

  lemma DenseCount(c: Cfg, n: nat)
    requires Shaped(c) && Dense(c, n)
    ensures c.nIntfs as nat == n && (FuncsExact(c) ==> c.nFunc as nat == n)
  {
    hide Sum, Count;
    SumNones(c.hdrs, n);
    AllPresent(c.hdrs[..n]);
  }

  // ---- writing into a buffer of a given size ----

  /** The outcome of writing: how it ends and, when it goes through, the bytes written. `Overrun`
      stands for an interface descriptor copied without a check into fewer than nine bytes. */
  datatype Made = Made(bytes: seq<Octet>) | TooSmall | Overrun

  function Before(b: seq<Octet>, m: Made): (r: Made) {
    match m
    case Made(bytes) => Made(b + bytes)
    case _ => m
  }

  function FillEps(ps: seq<Pipe>, intf: nat, room: nat): (r: Made) {
    if ps == [] then Made([])
    else if ps[0].hdr != intf then FillEps(ps[1..], intf, room)
    else if room < 9 then TooSmall
    else Before(EpBytes(ps[0].ep), FillEps(ps[1..], intf, room - 9))
  }

  /** The class-specific bytes are written when they fit and silently left out when not. */
  function SpecPart(h: Hdr, room: nat): (b: seq<Octet>)
    ensures |b| <= room
  {
    if |h.spec| <= room then h.spec else []
  }

  function FillIntf(h: Hdr, ps: seq<Pipe>, room: nat): (r: Made) {
    if room < 9 then Overrun
    else
      var s := SpecPart(h, room - 9);
      Before(IntfBytes(h.intf) + s, FillEps(ps, h.intf.num, room - 9 - |s|))
  }

  function MakeFrom(c: Cfg, i: nat, n: nat, room: nat): (r: Made)
    requires n <= |c.hdrs| && forall k | i <= k < n :: c.hdrs[k].Some?
    decreases n - i
  {
    if i >= n then Made([])
    else if room < 9 then TooSmall
    else
      var h := c.hdrs[i].value;
      var a := AssocPart(h);
      match FillIntf(h, c.pipes, room - |a|)
      case Made(b) => if |a| + |b| <= room then Before(a + b, MakeFrom(c, i + 1, n, room - |a| - |b|)) else Overrun
      case m => m
  }

  function MakeAll(c: Cfg, n: nat, size: nat): (r: Made)
    requires Dense(c, n) && size >= 9
  {
    Before(CfgBytes(c.total, c.nIntfs, c.value, c.str), MakeFrom(c, 0, n, size - 9))
  }

  lemma {:induction false} EpsFit(ps: seq<Pipe>, intf: nat, room: nat)
    ensures FillEps(ps, intf, room) ==
      if 9 * |PipesOf(ps, intf)| <= room then Made(AllEpBytes(PipesOf(ps, intf))) else TooSmall
  {
    hide EpBytes;
    if ps != [] {
      if ps[0].hdr != intf {
        EpsFit(ps[1..], intf, room);
        assert PipesOf(ps, intf) == PipesOf(ps[1..], intf);
      } else {
        assert PipesOf(ps, intf)[1..] == PipesOf(ps[1..], intf);
        if room >= 9 { EpsFit(ps[1..], intf, room - 9); }
      }
    }
  }

  /** One interface that fits is written completely, and one that does not is reported or
      overruns: success with the class-specific bytes left out is possible only when they
      alone are too many. */
  lemma IntfFits(h: Hdr, ps: seq<Pipe>, room: nat)
    ensures var es := PipesOf(ps, h.intf.num);
      FillIntf(h, ps, room) ==
        if room < 9 then Overrun
        else if 9 + |h.spec| + 9 * |es| <= room then Made(IntfBytes(h.intf) + h.spec + AllEpBytes(es))
        else if |h.spec| > room - 9 && 9 + 9 * |es| <= room then Made(IntfBytes(h.intf) + AllEpBytes(es))
        else TooSmall
  {
    hide EpBytes, PipesOf, IntfBytes, AllEpBytes;
    if room >= 9 {
      EpsFit(ps, h.intf.num, room - 9 - |SpecPart(h, room - 9)|);
      assert IntfBytes(h.intf) + [] == IntfBytes(h.intf);
    }
  }

  predicate Numbered(c: Cfg, n: nat) {
    Dense(c, n) && forall k | 0 <= k < n :: c.hdrs[k].value.intf.num as nat == k
  }

  lemma {:induction false} MakeFromFits(c: Cfg, i: nat, n: nat, room: nat)
    requires Numbered(c, n) && i <= n
    requires |HdrsBytes(c, i, n)| <= room
    ensures MakeFrom(c, i, n, room) == Made(HdrsBytes(c, i, n))
    decreases n - i
  {
    hide PipesOf, AssocPart, IntfBytes, AllEpBytes, FillIntf;
    if i < n {
      var h := c.hdrs[i].value;
      var a, es := AssocPart(h), PipesOf(c.pipes, i);
      IntfFits(h, c.pipes, room - |a|);
      var b := IntfBytes(h.intf) + h.spec + AllEpBytes(es);
      assert HdrBytes(h, es) == a + b;
      MakeFromFits(c, i + 1, n, room - |a| - |b|);
    }
  }

  /** A buffer as long as the recount is enough, and then every header, class-specific byte
      and pipe is written. */
  lemma MakeFits(c: Cfg, n: nat, size: nat)
    requires Shaped(c) && Dense(c, n) && size >= Recount(c)
    ensures size >= 9 && MakeAll(c, n, size) == Made(Serialize(c, n))
  {
    hide HdrsBytes, MakeFrom, Sum, Present, Count;
    SerializeLength(c, n);
    forall k | 0 <= k < n ensures c.hdrs[k].value.intf.num as nat == k { assert HdrOk(c.pipes, k, c.hdrs[k].value); }
    MakeFromFits(c, 0, n, size - 9);
  }

  // ---- in place ----

  /** `memcpy` into the buffer. */
  method CopyIn(buf: array<Octet>, p: nat, s: seq<Octet>) returns (q: nat)
    requires p + |s| <= buf.Length
    modifies buf
    ensures q == p + |s| && buf[..q] == old(buf[..p]) + s && buf[q..] == old(buf[q..])
  {
    forall k | 0 <= k < |s| { buf[p + k] := s[k]; }
    q := p + |s|;
  }

  lemma BeforeBefore(a: seq<Octet>, b: seq<Octet>, m: Made)
    ensures Before(a, Before(b, m)) == Before(a + b, m)
  {
    match m
    case Made(bytes) => Reassociate(a, b, bytes);
    case _ =>
  }

  lemma FillEpsStep(ps: seq<Pipe>, j: nat, intf: nat, room: nat)
    requires j < |ps|
    ensures FillEps(ps[j..], intf, room) ==
      if ps[j].hdr != intf then FillEps(ps[j + 1..], intf, room)
      else if room < 9 then TooSmall
      else Before(EpBytes(ps[j].ep), FillEps(ps[j + 1..], intf, room - 9))
  {
    hide EpBytes;
    assert ps[j..][1..] == ps[j + 1..];
  }

  lemma FillEpsEnd(ps: seq<Pipe>, intf: nat, room: nat, done: seq<Octet>)
    requires ps == []
    ensures Before(done, FillEps(ps, intf, room)) == Made(done)
  {
    assert done + [] == done;
  }

  /** `__usb_intf_desc_fill`: writes at `p`, where `room` bytes are left. */
  method IntfDescFill(h: Hdr, pipes: seq<Pipe>, buf: array<Octet>, p: nat, room: nat) returns (ret: int, len: nat)
    requires p + room <= buf.Length && !FillIntf(h, pipes, room).Overrun?
    modifies buf
    ensures match FillIntf(h, pipes, room)
      case Made(b) => ret == 0 && len == |b| <= room && buf[..p + len] == old(buf[..p]) + b
      case _ => ret == -ESIZE
  {
    hide IntfBytes, EpBytes, FillEps;
    ghost var head := buf[..p];
    ghost var all := FillIntf(h, pipes, room);
    len := 0;
    var q := CopyIn(buf, p, IntfBytes(h.intf));
    len := len + 9;
    ghost var done := IntfBytes(h.intf);
    assert buf[..q] == head + done;
    if |h.spec| > 0 && room - len >= |h.spec| {
      q := CopyIn(buf, q, h.spec);
      len := len + |h.spec|;
    }
    done := done + SpecPart(h, room - 9);
    assert buf[..q] == head + done;
    var j: nat := 0;
    assert pipes[0..] == pipes;
    while j < |pipes|
      invariant j <= |pipes| && len == |done| <= room && q == p + len && buf[..q] == head + done
      invariant all == Before(done, FillEps(pipes[j..], h.intf.num, room - len))
    {
      FillEpsStep(pipes, j, h.intf.num, room - len);
      if pipes[j].hdr != h.intf.num as nat {
        j := j + 1;
        continue;
      }
      if room - len < 9 {
        return -ESIZE, len;
      }
      BeforeBefore(done, EpBytes(pipes[j].ep), FillEps(pipes[j + 1..], h.intf.num, room - len - 9));
      q := CopyIn(buf, q, EpBytes(pipes[j].ep));
      Reassociate(head, done, EpBytes(pipes[j].ep));
      done := done + EpBytes(pipes[j].ep);
      len := len + 9;
      j := j + 1;
    }
    FillEpsEnd(pipes[j..], h.intf.num, room - len, done);
    return 0, len;
  }

  lemma MakeStep(c: Cfg, i: nat, n: nat, room: nat, done: seq<Octet>)
    requires i < n <= |c.hdrs| && room >= 9 && forall k | i <= k < n :: c.hdrs[k].Some?
    requires !MakeFrom(c, i, n, room).Overrun?
    ensures var h := c.hdrs[i].value;
      && |AssocPart(h)| <= room && !FillIntf(h, c.pipes, room - |AssocPart(h)|).Overrun?
      && match FillIntf(h, c.pipes, room - |AssocPart(h)|)
         case Made(b) =>
           && |AssocPart(h)| + |b| <= room && !MakeFrom(c, i + 1, n, room - |AssocPart(h)| - |b|).Overrun?
           && Before(done, MakeFrom(c, i, n, room)) ==
              Before(done + AssocPart(h) + b, MakeFrom(c, i + 1, n, room - |AssocPart(h)| - |b|))
         case _ => MakeFrom(c, i, n, room) == TooSmall
  {
    hide AssocPart, FillIntf;
    var h := c.hdrs[i].value;
    match FillIntf(h, c.pipes, room - |AssocPart(h)|)
    case Made(b) =>
      BeforeBefore(done, AssocPart(h) + b, MakeFrom(c, i + 1, n, room - |AssocPart(h)| - |b|));
      Reassociate(done, AssocPart(h), b);
    case _ =>
  }

  /** `__cfg_desc_make`, for a buffer that no interface descriptor overruns. */
  method CfgDescMake(c: Cfg, buf: array<Octet>) returns (ret: int, ghost written: nat)
    requires buf.Length >= 9 && Dense(c, c.nFunc as nat) && !MakeAll(c, c.nFunc as nat, buf.Length).Overrun?
    modifies buf
    ensures match MakeAll(c, c.nFunc as nat, buf.Length)
      case Made(b) => ret == 0 && written == |b| <= buf.Length && buf[..written] == b
      case _ => ret == -ESIZE
  {
    hide FillIntf, MakeFrom, AssocPart, CfgBytes;
    var n := c.nFunc as nat;
    var head := CfgBytes(c.total, c.nIntfs, c.value, c.str);
    ghost var all := MakeAll(c, n, buf.Length);
    var p: nat := CopyIn(buf, 0, head);
    var len := buf.Length - 9;
    assert buf[..p] == head;
    var i: nat := 0;
    while i < n
      invariant i <= n && p + len == buf.Length && len >= 0
      invariant !MakeFrom(c, i, n, len).Overrun? && all == Before(buf[..p], MakeFrom(c, i, n, len))
    {
      if len < 9 {
        SmallEnd(c, i, n, len);
        return -ESIZE, 0;
      }
      var h := c.hdrs[i].value;
      MakeStep(c, i, n, len, buf[..p]);
      if h.assoc.Some? {
        AssocWhole(h);
        p := CopyIn(buf, p, AssocPart(h));
        len := len - 8;
      }
      NoAssoc(h, buf[..p]);
      var use;
      ret, use := IntfDescFill(h, c.pipes, buf, p, len);
      if ret < 0 {
        return ret, 0;
      }
      len := len - use;
      p := p + use;
      i := i + 1;
    }
    MakeEnd(c, i, n, len, buf[..p]);
    return 0, p;
  }

  lemma SmallEnd(c: Cfg, i: nat, n: nat, room: nat)
    requires i < n <= |c.hdrs| && room < 9 && forall k | i <= k < n :: c.hdrs[k].Some?
    ensures MakeFrom(c, i, n, room) == TooSmall
  {
  }

  lemma AssocWhole(h: Hdr)
    requires h.assoc.Some?
    ensures |AssocPart(h)| == 8
  {
  }

  lemma NoAssoc(h: Hdr, done: seq<Octet>)
    ensures h.assoc.None? ==> AssocPart(h) == [] && done + AssocPart(h) == done
  {
  }

  lemma MakeEnd(c: Cfg, i: nat, n: nat, room: nat, done: seq<Octet>)
    requires i >= n && n <= |c.hdrs|
    ensures Before(done, MakeFrom(c, i, n, room)) == Made(done)
  {
    assert done + [] == done;
  }
}
