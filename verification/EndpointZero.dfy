/** Control transfers on endpoint 0 of the device: core/source/device/core/usbd_core.c. Section
    8.5.3 of USB 2.0: a SETUP, an optional data stage, a status stage in the other direction. */
module EndpointZero {
  import opened Descriptors

  const EBUSY := 516

  /** One direction of endpoint 0: the length of its transfer, whether that is under way, whether
      the endpoint is halted, and the completion callback registered with it. */
  datatype Ep = Ep(len: nat, busy: bool, stalled: bool, cb: Option<nat>)

  datatype Dc = Dc(epIn: Ep, epOut: Ep, needSta: bool)

  /** What can be seen from outside: transfers started and callbacks called. */
  datatype Event = Start(isIn: bool, len: nat) | Fire(cb: nat)

  datatype Setup = Setup(isIn: bool, length: nat)

  /** A call of `usb_dc_ep0_req` by a request handler. */
  datatype Req = Req(isIn: bool, size: nat, cb: Option<nat>)

  /** What the request handler does: its result, a length it sets itself, a request it makes, and
      the directions of endpoint 0 it marks as halted, as SET_FEATURE does. Nothing in the source
      ever takes that mark off endpoint 0. */
  datatype Answer = Answer(ret: int, len: Option<nat>, req: Option<Req>, haltIn: bool, haltOut: bool)

  datatype Effect = Effect(dc: Dc, ret: int, events: seq<Event>)

  function At(d: Dc, isIn: bool): (r: Ep) { if isIn then d.epIn else d.epOut }

  function With(d: Dc, isIn: bool, e: Ep): (r: Dc) { if isIn then d.(epIn := e) else d.(epOut := e) }

  /** `usb_dc_ep0_req`, for a request that fits the endpoint's buffer: the callback goes to the
      other direction, where the status stage takes place. */
  function Register(d: Dc, r: Req): (res: Dc) {
    if r.size == 0 then d
    else With(With(d, r.isIn, At(d, r.isIn).(len := r.size)), !r.isIn, At(d, !r.isIn).(cb := r.cb))
  }

  /** `usb_dc_trans_req`: `accept` is the driver's answer. A transfer the driver refuses stays
      marked as under way. */
  function TransReq(d: Dc, isIn: bool, accept: bool): (r: Effect) {
    var e := At(d, isIn);
    if e.busy then Effect(d, -EBUSY, [])
    else if e.stalled then Effect(d, -EAGAIN, [])
    else Effect(With(d, isIn, e.(busy := true)), if accept then 0 else -EPERM,
      if accept then [Start(isIn, e.len)] else [])
  }

  function DirOf(s: Setup): (r: bool) { s.length == 0 || s.isIn }

  /** What the handler leaves: the length is cleared first. */
  function Handled(d: Dc, s: Setup, a: Answer): (r: Dc) {
    var isIn := DirOf(s);
    var d0 := With(d, isIn, At(d, isIn).(len := 0));
    var d1 := if a.len.Some? then With(d0, isIn, At(d0, isIn).(len := a.len.value)) else d0;
    Halted(if a.req.Some? then Register(d1, a.req.value) else d1, a)
  }

  function Halted(d: Dc, a: Answer): (r: Dc) {
    d.(epIn := d.epIn.(stalled := d.epIn.stalled || a.haltIn),
       epOut := d.epOut.(stalled := d.epOut.stalled || a.haltOut))
  }

  /** The handler halts neither direction. */
  predicate Unhalted(a: Answer) { !a.haltIn && !a.haltOut }

  /** `usb_dc_setup_handle`. */
  function SetupHandle(d: Dc, s: Setup, a: Answer, accept: bool): (r: Effect) {
    var h := Handled(d, s, a);
    if a.ret != 0 then Effect(h, a.ret, []) else TransReq(h.(needSta := s.length != 0), DirOf(s), accept)
  }

  /** `usb_dc_trans_complete` with `__ep0_ctrl_complete`, for a transfer in the direction given. */
  function Complete(d: Dc, isIn: bool, accept: bool): (r: Effect) {
    var e := At(d, isIn);
    var d1 := With(d, isIn, e.(busy := false));
    if d.needSta then
      var d2 := With(d1, isIn, At(d1, isIn).(len := 0)).(needSta := false);
      var r := TransReq(With(d2, !isIn, At(d2, !isIn).(len := 0)), !isIn, accept);
      Effect(r.dc, 0, r.events)
    else if e.len == 0 && e.cb.Some? then Effect(With(d1, isIn, At(d1, isIn).(cb := None)), 0, [Fire(e.cb.value)])
    else Effect(d1, 0, [])
  }

  /** The part of `usb_dc_bus_reset_handle` that concerns endpoint 0. */
  function BusReset(d: Dc): (r: Dc) { d.(needSta := false) }

  /** A transfer is turned away while one is under way or the endpoint is halted; a refusal by the
      driver leaves the endpoint marked. */
  lemma TransExactly(d: Dc, accept: bool)
    ensures TransReq(d, true, accept) ==
      if d.epIn.busy then Effect(d, -516, [])
      else if d.epIn.stalled then Effect(d, -511, [])
      else if accept then Effect(d.(epIn := d.epIn.(busy := true)), 0, [Start(true, d.epIn.len)])
      else Effect(d.(epIn := d.epIn.(busy := true)), -501, [])
    ensures TransReq(d, false, accept) ==
      if d.epOut.busy then Effect(d, -516, [])
      else if d.epOut.stalled then Effect(d, -511, [])
      else if accept then Effect(d.(epOut := d.epOut.(busy := true)), 0, [Start(false, d.epOut.len)])
      else Effect(d.(epOut := d.epOut.(busy := true)), -501, [])
  {
  }

  /** The end of a data stage clears both lengths and starts the status stage in the other
      direction. */
  lemma CompleteExactly(d: Dc, accept: bool)
    requires d.needSta
    ensures var t := TransReq(Dc(d.epIn.(busy := false, len := 0), d.epOut.(len := 0), false), false, accept);
      Complete(d, true, accept) == Effect(t.dc, 0, t.events)
    ensures var t := TransReq(Dc(d.epIn.(len := 0), d.epOut.(busy := false, len := 0), false), true, accept);
      Complete(d, false, accept) == Effect(t.dc, 0, t.events)
  {
    hide TransReq;
  }

  /** The end of any other transfer calls what is registered if the transfer was empty, once. */
  lemma CompleteOther(d: Dc, accept: bool)
    requires !d.needSta
    ensures Complete(d, true, accept) ==
      if d.epIn.len == 0 && d.epIn.cb.Some? then
        Effect(d.(epIn := d.epIn.(busy := false, cb := None)), 0, [Fire(d.epIn.cb.value)])
      else Effect(d.(epIn := d.epIn.(busy := false)), 0, [])
    ensures Complete(d, false, accept) ==
      if d.epOut.len == 0 && d.epOut.cb.Some? then
        Effect(d.(epOut := d.epOut.(busy := false, cb := None)), 0, [Fire(d.epOut.cb.value)])
      else Effect(d.(epOut := d.epOut.(busy := false)), 0, [])
  {
  }

  // ---- phases ----

  datatype Phase = Idle | Data(isIn: bool) | Status(isIn: bool)

  predicate InPhase(d: Dc, p: Phase) {
    && !d.epIn.stalled && !d.epOut.stalled
    && match p
       case Idle => !d.epIn.busy && !d.epOut.busy
       case Data(i) => At(d, i).busy && !At(d, !i).busy && d.needSta
       case Status(i) => At(d, i).busy && !At(d, !i).busy && !d.needSta && At(d, i).len == 0
  }

  /** Handlers supply at most as many bytes as the host asked for, in its direction. */
  predicate Behaves(s: Setup, a: Answer) {
    && (a.len.Some? ==> a.len.value <= s.length)
    && (a.req.Some? ==> a.req.value.size <= s.length && (a.req.value.size > 0 ==> a.req.value.isIn == s.isIn))
  }

  datatype Move = SetupMove(s: Setup, a: Answer) | CompleteMove

  /** The host sends the next SETUP only when all is done, and transfers end only when under way. */
  predicate Allowed(p: Phase, m: Move) {
    match m
    case SetupMove(s, a) => p == Idle && Behaves(s, a)
    case CompleteMove => p != Idle
  }

  function Next(p: Phase, m: Move): (r: Phase)
    requires Allowed(p, m)
  {
    match m
    case SetupMove(s, a) =>
      if a.ret != 0 then Idle else if s.length == 0 then Status(true) else Data(s.isIn)
    case CompleteMove => if p.Data? then Status(!p.isIn) else Idle
  }

  function Take(d: Dc, p: Phase, m: Move): (r: Effect)
    requires Allowed(p, m)
  {
    match m
    case SetupMove(s, a) => SetupHandle(d, s, a, true)
    case CompleteMove => Complete(d, p.isIn, true)
  }

  /** The bytes a handler supplies: those of its request if it makes one, else those it sets. */
  function Supplied(a: Answer): (n: nat) {
    match (a.req, a.len)
    case (Some(r), Some(k)) => if r.size > 0 then r.size else k
    case (Some(r), None) => r.size
    case (None, Some(k)) => k
    case (None, None) => 0
  }

  /** What each move may be seen to do, from the phase alone: an accepted SETUP with data starts
      one data transfer of the bytes supplied; its end starts one empty transfer in the opposite
      direction; a SETUP without data starts a single empty IN; a rejected one starts nothing;
      and only the end of a status stage may call a callback. */
  predicate Seen(p: Phase, m: Move, ev: seq<Event>)
    requires Allowed(p, m)
  {
    match m
    case SetupMove(s, a) =>
      if a.ret != 0 then ev == []
      else ev == [Start(s.isIn || s.length == 0, Supplied(a))] && Supplied(a) <= s.length
    case CompleteMove =>
      if p.Data? then ev == [Start(!p.isIn, 0)] else ev == [] || (|ev| == 1 && ev[0].Fire?)
  }

  predicate Halts(m: Move) { m.SetupMove? && !Unhalted(m.a) }

  lemma MoveSeen(d: Dc, p: Phase, m: Move)
    requires InPhase(d, p) && Allowed(p, m) && !Halts(m)
    ensures InPhase(Take(d, p, m).dc, Next(p, m)) && Seen(p, m, Take(d, p, m).events)
    ensures (m.SetupMove? && m.a.ret == 0) || m.CompleteMove? ==> Take(d, p, m).ret == 0
  {
    if m.SetupMove? {
      SetupSeen(d, m.s, m.a);
      hide SetupHandle;
    } else {
      hide SetupHandle;
    }
  }

  lemma SetupSeen(d: Dc, s: Setup, a: Answer)
    requires InPhase(d, Idle) && Behaves(s, a) && Unhalted(a)
    ensures var e := SetupHandle(d, s, a, true);
      && InPhase(e.dc, if a.ret != 0 then Idle else if s.length == 0 then Status(true) else Data(s.isIn))
      && (if a.ret != 0 then e.events == []
          else e.ret == 0 && e.events == [Start(s.isIn || s.length == 0, Supplied(a))] && Supplied(a) <= s.length)
  {
    var h := Handled(d, s, a);
    assert InPhase(h, Idle) && At(h, DirOf(s)).len == Supplied(a) <= s.length;
    hide Handled;
  }

  predicate Stalled(d: Dc) { d.epIn.stalled || d.epOut.stalled }

  /** A mark once set stays. */
  lemma MoveStalls(d: Dc, p: Phase, m: Move)
    requires Allowed(p, m)
    ensures Stalled(Take(d, p, m).dc) <==> Stalled(d) || Halts(m)
  {
    if m.SetupMove? {
      var h := Handled(d, m.s, m.a);
      assert Stalled(h) <==> Stalled(d) || Halts(m);
      assert Take(d, p, m) == SetupHandle(d, m.s, m.a, true);
      hide Handled, Halts;
    } else {
      hide SetupHandle;
    }
  }

  /** A run of moves, each of them allowed. */
  predicate Runs(p: Phase, ms: seq<Move>)
    decreases |ms|
  {
    ms == [] || (Allowed(p, ms[0]) && Runs(Next(p, ms[0]), ms[1..]))
  }

  function Trace(d: Dc, p: Phase, ms: seq<Move>): (r: seq<seq<Event>>)
    requires Runs(p, ms)
    decreases |ms|
  {
    if ms == [] then [] else [Take(d, p, ms[0]).events] + Trace(Take(d, p, ms[0]).dc, Next(p, ms[0]), ms[1..])
  }

  function PhaseAt(p: Phase, ms: seq<Move>, k: nat): (r: Phase)
    requires Runs(p, ms) && k <= |ms|
    ensures k < |ms| ==> Allowed(PhaseAt(p, ms, k), ms[k])
    decreases |ms|
  {
    if k == 0 then p else PhaseAt(Next(p, ms[0]), ms[1..], k - 1)
  }

  function Final(d: Dc, p: Phase, ms: seq<Move>): (r: Dc)
    requires Runs(p, ms)
    decreases |ms|
  {
    if ms == [] then d else Final(Take(d, p, ms[0]).dc, Next(p, ms[0]), ms[1..])
  }

  /** Everything seen is as the phases say, and the run ends in its phase. */
  ghost predicate Orderly(d: Dc, p: Phase, ms: seq<Move>)
    requires Runs(p, ms)
  {
    && |Trace(d, p, ms)| == |ms|
    && (forall k | 0 <= k < |ms| :: Seen(PhaseAt(p, ms, k), ms[k], Trace(d, p, ms)[k]))
    && InPhase(Final(d, p, ms), PhaseAt(p, ms, |ms|))
  }

  lemma {:induction false} RunStalls(d: Dc, p: Phase, ms: seq<Move>)
    requires Runs(p, ms)
    ensures Stalled(Final(d, p, ms)) <==> Stalled(d) || exists k :: 0 <= k < |ms| && Halts(ms[k])
    decreases |ms|
  {
    hide Take, Stalled, Halts;
    if ms != [] {
      MoveStalls(d, p, ms[0]);
      RunStalls(Take(d, p, ms[0]).dc, Next(p, ms[0]), ms[1..]);
      if k :| 0 <= k < |ms| && Halts(ms[k]) && k > 0 { assert Halts(ms[1..][k - 1]); }
      if k :| 0 <= k < |ms[1..]| && Halts(ms[1..][k]) { assert Halts(ms[k + 1]); }
    }
  }

  /** A run in which no handler halts endpoint 0 keeps to the protocol, move by move. */
  lemma {:induction false} UnhaltedRun(d: Dc, p: Phase, ms: seq<Move>)
    requires InPhase(d, p) && Runs(p, ms) && forall k | 0 <= k < |ms| :: !Halts(ms[k])
    ensures Orderly(d, p, ms)
    decreases |ms|
  {
    hide Take, Seen, InPhase, Halts;
    if ms != [] {
      var e, q := Take(d, p, ms[0]), Next(p, ms[0]);
      MoveSeen(d, p, ms[0]);
      assert forall k | 0 <= k < |ms[1..]| :: ms[1..][k] == ms[k + 1];
      UnhaltedRun(e.dc, q, ms[1..]);
      var t := Trace(e.dc, q, ms[1..]);
      forall k | 0 <= k < |ms| ensures Seen(PhaseAt(p, ms, k), ms[k], ([e.events] + t)[k]) {
        if k > 0 { assert ([e.events] + t)[k] == t[k - 1] && ms[k] == ms[1..][k - 1]; }
      }
    }
  }

  /** Every run of control transfers keeps to the protocol, move by move, and leaves endpoint 0 in
      the phase it says, exactly when no handler halts endpoint 0. */
  lemma RunSeen(d: Dc, p: Phase, ms: seq<Move>)
    requires InPhase(d, p) && Runs(p, ms)
    ensures Orderly(d, p, ms) <==> forall k | 0 <= k < |ms| :: !Halts(ms[k])
  {
    hide Take, Seen, Halts, Final, Trace, PhaseAt;
    RunStalls(d, p, ms);
    if forall k | 0 <= k < |ms| :: !Halts(ms[k]) { UnhaltedRun(d, p, ms); }
  }

  // ---- a reference for whole runs ----

  /** The phase, and the callback that each direction owes. */
  datatype Ref = Ref(phase: Phase, cbIn: Option<nat>, cbOut: Option<nat>)

  datatype RefStep = RefStep(next: Ref, events: seq<Event>)

  /** Lengths, marks and flags apart: a SETUP registers a callback with the direction of the status
      stage, and starts what the handler supplies; the end of the data stage starts the status
      stage; the end of the status stage calls what is registered there, once. */
  function RefTake(r: Ref, m: Move): (t: RefStep)
    requires Allowed(r.phase, m)
  {
    match m
    case SetupMove(s, a) =>
      var t := if a.req.Some? && a.req.value.size > 0 then
                 if a.req.value.isIn then r.(cbOut := a.req.value.cb) else r.(cbIn := a.req.value.cb)
               else r;
      if a.ret != 0 then RefStep(t, [])
      else if s.length == 0 then RefStep(t.(phase := Status(true)), [Start(true, 0)])
      else RefStep(t.(phase := Data(s.isIn)), [Start(s.isIn, Supplied(a))])
    case CompleteMove =>
      if r.phase.Data? then RefStep(r.(phase := Status(!r.phase.isIn)), [Start(!r.phase.isIn, 0)])
      else if r.phase.isIn then RefStep(Ref(Idle, None, r.cbOut), if r.cbIn.Some? then [Fire(r.cbIn.value)] else [])
      else RefStep(Ref(Idle, r.cbIn, None), if r.cbOut.Some? then [Fire(r.cbOut.value)] else [])
  }

  lemma RefNext(r: Ref, m: Move)
    requires Allowed(r.phase, m)
    ensures RefTake(r, m).next.phase == Next(r.phase, m)
  {
  }

  function RefTrace(r: Ref, ms: seq<Move>): (t: seq<seq<Event>>)
    requires Runs(r.phase, ms)
    decreases |ms|
  {
    if ms == [] then []
    else
      RefNext(r, ms[0]);
      [RefTake(r, ms[0]).events] + RefTrace(RefTake(r, ms[0]).next, ms[1..])
  }

  lemma MoveFollows(d: Dc, p: Phase, m: Move)
    requires InPhase(d, p) && Allowed(p, m) && !Halts(m)
    ensures var t := RefTake(Ref(p, d.epIn.cb, d.epOut.cb), m); var e := Take(d, p, m);
      e.events == t.events && e.dc.epIn.cb == t.next.cbIn && e.dc.epOut.cb == t.next.cbOut
  {
    if m.SetupMove? {
      var h := Handled(d, m.s, m.a);
      SetupSeen(d, m.s, m.a);
      var t := RefTake(Ref(p, d.epIn.cb, d.epOut.cb), m).next;
      assert h.epIn.cb == t.cbIn && h.epOut.cb == t.cbOut;
      hide Handled;
    } else {
      hide SetupHandle, Handled;
    }
  }

  /** In every run in which no handler halts endpoint 0, everything seen, callbacks included, is what
      the reference says. */
  lemma {:induction false} RunFollows(d: Dc, p: Phase, ms: seq<Move>)
    requires InPhase(d, p) && Runs(p, ms) && forall k | 0 <= k < |ms| :: !Halts(ms[k])
    ensures Trace(d, p, ms) == RefTrace(Ref(p, d.epIn.cb, d.epOut.cb), ms)
    decreases |ms|
  {
    hide Take, Seen, InPhase, Halts, RefTake;
    if ms != [] {
      var r := Ref(p, d.epIn.cb, d.epOut.cb);
      MoveSeen(d, p, ms[0]);
      MoveFollows(d, p, ms[0]);
      RefNext(r, ms[0]);
      assert forall k | 0 <= k < |ms[1..]| :: ms[1..][k] == ms[k + 1];
      RunFollows(Take(d, p, ms[0]).dc, Next(p, ms[0]), ms[1..]);
    }
  }

  // ---- callbacks ----

  function Pending(d: Dc, cb: nat): (r: nat) {
    (if d.epIn.cb == Some(cb) then 1 else 0) + if d.epOut.cb == Some(cb) then 1 else 0
  }

  function Asked(m: Move, cb: nat): (r: nat) {
    if m.SetupMove? && m.a.req.Some? && m.a.req.value.size > 0 && m.a.req.value.cb == Some(cb) then 1 else 0
  }

  function Fired(ev: seq<Event>, cb: nat): (r: nat) {
    if ev == [] then 0 else (if ev[0] == Fire(cb) then 1 else 0) + Fired(ev[1..], cb)
  }

  function Registrations(ms: seq<Move>, cb: nat): (r: nat) {
    if ms == [] then 0 else Asked(ms[0], cb) + Registrations(ms[1..], cb)
  }

  function AllFired(t: seq<seq<Event>>, cb: nat): (r: nat) {
    if t == [] then 0 else Fired(t[0], cb) + AllFired(t[1..], cb)
  }

  /** What is counted: the calls of the one callback, and its registrations with bytes to transfer. */
  lemma Tally(ev: seq<Event>, t: seq<seq<Event>>, e: Event, cb: nat)
    ensures Fired([], cb) == 0 && Fired([e] + ev, cb) == Fired(ev, cb) + if e == Fire(cb) then 1 else 0
    ensures AllFired([], cb) == 0 && AllFired([ev] + t, cb) == Fired(ev, cb) + AllFired(t, cb)
  {
    assert ([e] + ev)[1..] == ev && ([ev] + t)[1..] == t;
  }

  lemma TallyAsked(s: Setup, a: Answer, ms: seq<Move>, r: Req, cb: nat)
    requires a.req == Some(r) && r.cb == Some(cb)
    ensures Registrations([], cb) == 0 && Registrations([CompleteMove] + ms, cb) == Registrations(ms, cb)
    ensures Registrations([SetupMove(s, a)] + ms, cb) == Registrations(ms, cb) + if r.size > 0 then 1 else 0
    ensures Registrations([SetupMove(s, a)] + ms, cb + 1) == Registrations(ms, cb + 1)
  {
    assert ([CompleteMove] + ms)[1..] == ms && ([SetupMove(s, a)] + ms)[1..] == ms;
  }

  lemma MoveFires(d: Dc, p: Phase, m: Move, cb: nat)
    requires Allowed(p, m)
    ensures Fired(Take(d, p, m).events, cb) + Pending(Take(d, p, m).dc, cb) <= Pending(d, cb) + Asked(m, cb)
  {
    var ev := Take(d, p, m).events;
    if ev != [] { assert ev[1..] == []; }
  }

  /** Over any run, whatever its handlers halt, a callback is called at most as often as it was
      registered. */
  lemma {:induction false} FiresAtMostOnce(d: Dc, p: Phase, ms: seq<Move>, cb: nat)
    requires Runs(p, ms)
    ensures AllFired(Trace(d, p, ms), cb) <= Pending(d, cb) + Registrations(ms, cb)
    decreases |ms|
  {
    hide Take, Seen, InPhase, Pending, Asked, Fired;
    if ms != [] {
      var e, q := Take(d, p, ms[0]), Next(p, ms[0]);
      MoveFires(d, p, ms[0], cb);
      FiresAtMostOnce(e.dc, q, ms[1..], cb);
      assert Trace(d, p, ms)[1..] == Trace(e.dc, q, ms[1..]);
    }
  }

  /** A whole transfer with data, from an idle endpoint, is exactly two transfers, then exactly the
      callback that was registered for it, and leaves the endpoint idle again, exactly when its
      handler halts neither direction. */
  lemma DataTransfer(d: Dc, s: Setup, a: Answer)
    requires InPhase(d, Idle) && s.length > 0 && a.ret == 0 && Behaves(s, a) && a.req.Some? && a.req.value.size > 0
    ensures var e0 := SetupHandle(d, s, a, true);
      var e1 := Complete(e0.dc, s.isIn, true);
      var e2 := Complete(e1.dc, !s.isIn, true);
      (&& e0.events == [Start(s.isIn, a.req.value.size)] && e1.events == [Start(!s.isIn, 0)]
       && e2.events == (if a.req.value.cb.Some? then [Fire(a.req.value.cb.value)] else [])
       && InPhase(e2.dc, Idle) && At(e2.dc, !s.isIn).cb == None) <==> Unhalted(a)
  {
  }

  /** The same for a handler that makes no request but sets a length, or none: as many bytes as it
      sets, and then the callback that was pending, if any. */
  lemma LengthTransfer(d: Dc, s: Setup, a: Answer)
    requires InPhase(d, Idle) && s.length > 0 && a.ret == 0 && Behaves(s, a) && a.req.None?
    ensures var e0 := SetupHandle(d, s, a, true);
      var e1 := Complete(e0.dc, s.isIn, true);
      var e2 := Complete(e1.dc, !s.isIn, true);
      var cb := if s.isIn then d.epOut.cb else d.epIn.cb;
      (&& e0.events == [Start(s.isIn, if a.len.Some? then a.len.value else 0)] && e1.events == [Start(!s.isIn, 0)]
       && e2.events == (if cb.Some? then [Fire(cb.value)] else [])
       && InPhase(e2.dc, Idle)) <==> Unhalted(a)
  {
  }

  /** A request without data is a single empty IN and leaves the endpoint idle again exactly when
      its handler halts neither direction. */
  lemma EmptyTransfer(d: Dc, s: Setup, a: Answer)
    requires InPhase(d, Idle) && s.length == 0 && a.ret == 0 && Behaves(s, a)
    ensures var e0 := SetupHandle(d, s, a, true);
      e0.ret == 0 && e0.events == [Start(true, 0)] && InPhase(Complete(e0.dc, true, true).dc, Idle) <==> Unhalted(a)
  {
  }

  /** SET_FEATURE(ENDPOINT_HALT) for the IN direction of endpoint 0 is accepted by its handler, but
      its own status stage is refused, and so is every later IN transfer, whatever its handler
      does, as well as the status stage of every OUT data stage. */
  lemma HaltsItself(d: Dc, t: Setup, b: Answer, accept: bool)
    requires InPhase(d, Idle) && b.ret == 0
    ensures var e := SetupHandle(d, Setup(false, 0), Answer(0, None, None, true, false), true);
      && e.ret == -EAGAIN && e.events == []
      && (DirOf(t) ==> SetupHandle(e.dc, t, b, accept).ret == -EAGAIN && SetupHandle(e.dc, t, b, accept).events == [])
      && (!DirOf(t) && !b.haltOut ==> Complete(SetupHandle(e.dc, t, b, true).dc, false, accept).events == [])
  {
  }

  /** A callback registered by a handler that then rejects the request is not withdrawn: the
      next request without data calls it. */
  lemma StaleCallback(d: Dc, n: nat, cb: nat)
    requires InPhase(d, Idle) && n > 0
    ensures var s, a := Setup(false, n), Answer(-EPERM, None, Some(Req(false, n, Some(cb))), false, false);
      var e0 := SetupHandle(d, s, a, true);
      var e1 := SetupHandle(e0.dc, Setup(false, 0), Answer(0, None, None, false, false), true);
      e0.ret == -EPERM && e0.events == [] && Complete(e1.dc, true, true).events == [Fire(cb)]
  {
  }

  /** The state after a whole control transfer, which ends early when a start is refused. */
  function End(d: Dc, s: Setup, a: Answer): (r: Dc) {
    var e := SetupHandle(d, s, a, true);
    if e.ret != 0 then e.dc
    else if s.length == 0 then Complete(e.dc, true, true).dc
    else
      var f := Complete(e.dc, s.isIn, true);
      if f.events == [] then f.dc else Complete(f.dc, !s.isIn, true).dc
  }

  predicate NothingPending(d: Dc) { d.epIn.cb == None && d.epOut.cb == None }

  predicate Registers(a: Answer) { a.req.Some? && a.req.value.size > 0 && a.req.value.cb.Some? }

  /** A control transfer leaves no callback behind exactly when its handler does not register one
      and then reject the request or halt a direction. */
  lemma NothingLeft(d: Dc, s: Setup, a: Answer)
    requires InPhase(d, Idle) && NothingPending(d) && Behaves(s, a)
    ensures InPhase(End(d, s, a), Idle) <==> Unhalted(a)
    ensures NothingPending(End(d, s, a)) <==> !(Registers(a) && (a.ret != 0 || !Unhalted(a)))
  {
    if a.ret != 0 {
      hide Complete;
    } else if s.length == 0 {
      NothingLeftEmpty(d, s, a);
    } else {
      NothingLeftData(d, s, a);
    }
  }

  lemma NothingLeftEmpty(d: Dc, s: Setup, a: Answer)
    requires InPhase(d, Idle) && NothingPending(d) && Behaves(s, a) && a.ret == 0 && s.length == 0
    ensures !Registers(a) && NothingPending(End(d, s, a)) && (InPhase(End(d, s, a), Idle) <==> Unhalted(a))
  {
  }

  lemma NothingLeftData(d: Dc, s: Setup, a: Answer)
    requires InPhase(d, Idle) && NothingPending(d) && Behaves(s, a) && a.ret == 0 && s.length > 0
    ensures InPhase(End(d, s, a), Idle) <==> Unhalted(a)
    ensures NothingPending(End(d, s, a)) <==> !(Registers(a) && !Unhalted(a))
  {
    var e := SetupHandle(d, s, a, true);
    assert At(e.dc, s.isIn).cb == None && (At(e.dc, !s.isIn).cb.Some? <==> Registers(a));
    assert e.dc.epIn.stalled == a.haltIn && e.dc.epOut.stalled == a.haltOut && !At(e.dc, !s.isIn).busy;
    assert e.ret == 0 <==> !(if s.isIn then a.haltIn else a.haltOut);
    assert e.ret == 0 ==> At(e.dc, s.isIn).busy && e.dc.needSta;
    hide SetupHandle;
  }

  predicate HaltedBy(a: Answer, isIn: bool) { if isIn then a.haltIn else a.haltOut }

  /** A request whose start the driver refuses leaves its direction marked as under way: until a
      completion is reported for it, every further request in that direction is turned away. */
  lemma RefusedStart(d: Dc, s: Setup, a: Answer, t: Setup, b: Answer, accept: bool)
    requires InPhase(d, Idle) && a.ret == 0 && b.ret == 0 && DirOf(t) == DirOf(s)
    ensures var e := SetupHandle(d, s, a, false);
      && e.ret != 0 && e.events == [] && SetupHandle(e.dc, t, b, accept).events == []
      && SetupHandle(e.dc, t, b, accept).ret == if HaltedBy(a, DirOf(s)) then -EAGAIN else -EBUSY
  {
    var e := SetupHandle(d, s, a, false);
    assert At(e.dc, DirOf(s)).stalled == HaltedBy(a, DirOf(s)) && At(e.dc, DirOf(s)).busy == !HaltedBy(a, DirOf(s));
    StartRefused(e.dc, t, b, accept);
    hide SetupHandle;
  }

  /** A direction that is marked, as under way or as halted, turns a request away. */
  lemma StartRefused(d: Dc, t: Setup, b: Answer, accept: bool)
    requires b.ret == 0 && (At(d, DirOf(t)).busy || At(d, DirOf(t)).stalled)
    ensures SetupHandle(d, t, b, accept).events == []
    ensures SetupHandle(d, t, b, accept).ret == if At(d, DirOf(t)).busy then -EBUSY else -EAGAIN
  {
  }

  /** After a bus reset the end of the interrupted data stage starts no status stage. */
  lemma ResetDropsStatus(d: Dc, isIn: bool, accept: bool)
    requires InPhase(d, Data(isIn))
    ensures var e := Complete(BusReset(d), isIn, accept);
      InPhase(e.dc, Idle) && forall i | 0 <= i < |e.events| :: e.events[i].Fire?
  {
  }

  // ---- in place ----

  class Ep0 {
    var len: nat
    var busy: bool
    var stalled: bool
    var cb: Option<nat>

    constructor ()
      ensures Value() == Ep(0, false, false, None)
    {
      len, busy, stalled, cb := 0, false, false, None;
    }

    ghost function Value(): (r: Ep)
      reads this
    {
      Ep(len, busy, stalled, cb)
    }
  }

  class Controller {
    const epIn: Ep0
    const epOut: Ep0
    var needSta: bool
    /** Everything seen so far. */
    ghost var log: seq<Event>

    ghost predicate Valid()
      reads this
    {
      epIn != epOut
    }

    ghost function Now(): (r: Dc)
      reads this, epIn, epOut
    {
      Dc(epIn.Value(), epOut.Value(), needSta)
    }

    constructor ()
      ensures Valid() && fresh(epIn) && fresh(epOut) && InPhase(Now(), Idle) && log == []
    {
      epIn := new Ep0();
      epOut := new Ep0();
      needSta, log := false, [];
    }

    /** `usb_dc_ep0_req`, for a size that fits the buffer of endpoint 0. */
    method Ep0Req(r: Req) returns (ret: int)
      requires Valid()
      modifies epIn, epOut
      ensures Now() == Register(old(Now()), r) && ret == if r.size == 0 then -EINVAL else 0
    {
      if r.size == 0 {
        return -EINVAL;
      }
      if r.isIn {
        epIn.len := r.size;
        epOut.cb := r.cb;
      } else {
        epOut.len := r.size;
        epIn.cb := r.cb;
      }
      return 0;
    }

    /** `usb_dc_trans_req`. */
    method Trans(e: Ep0, accept: bool) returns (ret: int)
      requires Valid() && (e == epIn || e == epOut)
      modifies e`busy, this`log
      ensures var x := TransReq(old(Now()), e == epIn, accept);
        Now() == x.dc && ret == x.ret && log == old(log) + x.events
    {
      if e.busy {
        return -EBUSY;
      }
      if e.stalled {
        return -EAGAIN;
      }
      e.busy := true;
      if accept {
        log := log + [Start(e == epIn, e.len)];
      }
      return if accept then 0 else -EPERM;
    }

    /** What the request handler does to endpoint 0. */
    method Respond(e: Ep0, a: Answer)
      requires Valid() && (e == epIn || e == epOut)
      modifies epIn, epOut
      ensures
        var d := old(Now());
        var d1 := if a.len.Some? then With(d, e == epIn, At(d, e == epIn).(len := a.len.value)) else d;
        Now() == Halted(if a.req.Some? then Register(d1, a.req.value) else d1, a)
    {
      if a.len.Some? {
        e.len := a.len.value;
      }
      if a.req.Some? {
        var ret := Ep0Req(a.req.value);
      }
      if a.haltIn {
        epIn.stalled := true;
      }
      if a.haltOut {
        epOut.stalled := true;
      }
    }

    /** `usb_dc_setup_handle`; `a` is what the request handler does. */
    method OnSetup(s: Setup, a: Answer, accept: bool) returns (ret: int)
      requires Valid()
      modifies this, epIn, epOut
      ensures var x := SetupHandle(old(Now()), s, a, accept);
        Now() == x.dc && ret == x.ret && log == old(log) + x.events
    {
      var e: Ep0;
      if s.length == 0 {
        e := epIn;
      } else {
        e := if s.isIn then epIn else epOut;
      }
      e.len := 0;
      Respond(e, a);
      assert Now() == Handled(old(Now()), s, a);
      hide Handled, Register;
      if a.ret != 0 {
        return a.ret;
      }
      needSta := s.length != 0;
      ret := Trans(e, accept);
    }

    /** `usb_dc_trans_complete` on endpoint 0, down to the callback. */
    method OnComplete(isIn: bool, accept: bool)
      requires Valid()
      modifies this, epIn, epOut
      ensures var x := Complete(old(Now()), isIn, accept); Now() == x.dc && log == old(log) + x.events
    {
      var e := if isIn then epIn else epOut;
      e.busy := false;
      if needSta {
        e.len := 0;
        needSta := false;
        e := if isIn then epOut else epIn;
        e.len := 0;
        var ret := Trans(e, accept);
      } else if e.len == 0 {
        if e.cb.Some? {
          log := log + [Fire(e.cb.value)];
          e.cb := None;
        }
      }
    }

    method OnBusReset()
      requires Valid()
      modifies this`needSta
      ensures Now() == BusReset(old(Now()))
    {
      needSta := false;
    }
  }
}
