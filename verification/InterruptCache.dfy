/**
 The cached "nothing pending" against the full check, over every history of clock, controller and
 register events.
 */
module InterruptCache {
  import opened Priv
  import opened Interrupts
  import T = TrapModel

  /** What the cache stands for when no bump has happened since it was filled. */
  ghost predicate Quiescent(c: Core)
    requires c.Wf()
  {
    && !c.clint.msip[c.id]
    && (!c.hasSstc || c.stimecmp == 0 ==> STI !in c.mip)
    && c.timer == NextTimer(c)
  }

  ghost predicate CacheInv(c: Core) {
    c.Wf() && (c.fill == c.bumps ==> Quiescent(c))
  }

  // ---- events ----

  datatype Event =
    | Tick(n: nat)
    | WriteMtime(v: nat)
    | SendIpi(target: int)
    | ClearIpi(target: int)
    | SetMtimecmp(target: int, v: nat)
    | WriteMip(bits: set<nat>)
    | WriteSip(bits: set<nat>)
    | WriteMie(bits: set<nat>)
    | WriteSie(bits: set<nat>)
    | WriteMideleg(bits: set<nat>)
    | WriteMstatus(ms: Mstatus)
    | WriteStimecmp(v: nat)
    | Instruction(e: T.Event)
    | EngineRound(left: Core)
    | Sync(ext: set<nat>)
    | Check(ext: set<nat>)

  predicate IsHart(c: Core, target: int) {
    0 <= target < |c.clint.msip|
  }

  function WithMsip(c: Core, target: nat, on: bool): Core
    requires target < |c.clint.msip|
  {
    c.(clint := c.clint.(msip := c.clint.msip[target := on])).Bump()
  }

  /** A comparator write is followed by a second register write that sets or clears the pending bit. */
  function ComparatorWritten(c: Core, v: nat): Core {
    c.(stimecmp := v, mip := if 0 < v <= c.clint.mtime then c.mip + {STI} else c.mip - {STI}, bumps := c.bumps + 2)
  }

  /** Before an engine round: mip follows the hardware, and a software interrupt enables itself. */
  function SyncPending(c: Core, ext: set<nat>): Core
    requires c.Wf()
  {
    var u := Synced(c, ext);
    if c.clint.msip[c.id] then u.(mie := u.mie + {MSI}) else u
  }

  /**
   The engine leaves any registers, timers and software interrupts behind; writing mie, mip and stimecmp
   back bumps the version, writing the rest back does not.
   */
  function RoundDone(c: Core, left: Core): Core {
    c.(hart := left.hart, mip := left.mip, mie := left.mie, stimecmp := left.stimecmp,
       clint := if |left.clint.msip| == |c.clint.msip| && |left.clint.mtimecmp| == |c.clint.mtimecmp|
                then left.clint else c.clint,
       bumps := c.bumps + 3)
  }

  function Step(c: Core, e: Event): Core
    requires c.Wf()
  {
    match e
    case Tick(n) => c.(clint := c.clint.(mtime := (c.clint.mtime + n) % T.MASK64))
    case WriteMtime(v) => c.(clint := c.clint.(mtime := v % T.MASK64))
    case SendIpi(t) => if IsHart(c, t) then WithMsip(c, t, true) else c
    case ClearIpi(t) => if IsHart(c, t) then WithMsip(c, t, false) else c
    case SetMtimecmp(t, v) =>
      if IsHart(c, t) && t < |c.clint.mtimecmp|
      then c.(clint := c.clint.(mtimecmp := c.clint.mtimecmp[t := v % T.MASK64])).Bump() else c
    case WriteMip(v) => c.(mip := c.mip * {MSI, MTI, SEI, MEI} + (v - {MSI, MTI, SEI, MEI})).Bump()
    case WriteSip(v) => c.(mip := (c.mip - {SSI}) + v * {SSI}).Bump()
    case WriteMie(v) => c.(mie := v).Bump()
    case WriteSie(v) => c.(mie := (c.mie - c.hart.mideleg) + v * c.hart.mideleg).Bump()
    case WriteMideleg(v) => c.(hart := c.hart.(mideleg := v)).Bump()
    case WriteMstatus(ms) => c.(hart := c.hart.(mstatus := ms)).Bump()
    case WriteStimecmp(v) => ComparatorWritten(c, v % T.MASK64)
    case Instruction(i) => if i.Trap? then Entered(c, i.cause, i.tval) else c.(hart := T.Step(c.hart, i))
    case EngineRound(left) => RoundDone(c, left)
    case Sync(ext) => SyncPending(c, ext)
    case Check(ext) => Poll(c, ext).0
  }

  /** What a write to an interrupt register leaves, bit by bit, and that it bumps the version. */
  lemma RegisterWritesAre(c: Core, v: set<nat>, i: nat)
    requires c.Wf()
    ensures var w := Step(c, WriteMip(v));
      && w == c.(mip := w.mip, bumps := c.bumps + 1)
      && (i in w.mip <==> if i in {3, 7, 9, 11} then i in c.mip else i in v)
    ensures var w := Step(c, WriteSip(v));
      && w == c.(mip := w.mip, bumps := c.bumps + 1)
      && (i in w.mip <==> if i == 1 then i in v else i in c.mip)
    ensures var w := Step(c, WriteMie(v)); w == c.(mie := w.mie, bumps := c.bumps + 1) && (i in w.mie <==> i in v)
    ensures var w := Step(c, WriteSie(v));
      && w == c.(mie := w.mie, bumps := c.bumps + 1)
      && (i in w.mie <==> if i in c.hart.mideleg then i in v else i in c.mie)
  {
  }

  /** What the timer and software-interrupt registers hold after a write or a tick, to a hart that exists. */
  lemma ControllerWritesAre(c: Core, t: nat, v: nat)
    requires c.Wf() && t < |c.clint.msip|
    ensures Step(c, Tick(v)) == c.(clint := c.clint.(mtime := (c.clint.mtime + v) % 0x1_0000_0000_0000_0000))
    ensures Step(c, WriteMtime(v)) == c.(clint := c.clint.(mtime := v % 0x1_0000_0000_0000_0000))
    ensures Step(c, SendIpi(t)) == c.(clint := c.clint.(msip := c.clint.msip[t := true]), bumps := c.bumps + 1)
    ensures Step(c, ClearIpi(t)) == c.(clint := c.clint.(msip := c.clint.msip[t := false]), bumps := c.bumps + 1)
    ensures Step(c, SetMtimecmp(t, v))
         == c.(clint := c.clint.(mtimecmp := c.clint.mtimecmp[t := v % 0x1_0000_0000_0000_0000]), bumps := c.bumps + 1)
    ensures var w := Step(c, WriteStimecmp(v));
      && w == c.(stimecmp := v % 0x1_0000_0000_0000_0000, mip := w.mip, bumps := c.bumps + 2)
      && (5 in w.mip <==> 0 < w.stimecmp <= c.clint.mtime)
      && (forall i | i != 5 :: i in w.mip <==> i in c.mip)
  {
  }

  /** An engine round leaves the engine's registers, timers and software interrupts, and three bumps. */
  lemma EngineRoundIs(c: Core, left: Core)
    requires c.Wf() && |left.clint.msip| == |c.clint.msip| && |left.clint.mtimecmp| == |c.clint.mtimecmp|
    ensures Step(c, EngineRound(left))
         == left.(id := c.id, hasSstc := c.hasSstc, bumps := c.bumps + 3, fill := c.fill, timer := c.timer)
  {
  }

  /** Before a round mip is synchronised, and a pending machine software interrupt is enabled. */
  lemma SyncIs(c: Core, ext: set<nat>, i: nat)
    requires c.Wf()
    ensures var w := Step(c, Sync(ext));
      w == Synced(c, ext).(mie := w.mie) && (i in w.mie <==> i in c.mie || (i == 3 && c.clint.msip[c.id]))
  {
  }

  lemma StepKeepsInv(c: Core, e: Event)
    requires CacheInv(c)
    ensures CacheInv(Step(c, e))
  {
    hide T.Step, T.DeliverTrap, T.Delegated, Select, NextTimer;
    var c' := Step(c, e);
    match e
    case Check(ext) => PollKeepsInv(c, ext);
    case Sync(ext) =>
    case Instruction(i) => NextTimerFrame(c, c');
    case Tick(_) => NextTimerFrame(c, c');
    case WriteMtime(_) => NextTimerFrame(c, c');
    case _ =>
  }

  lemma NextTimerFrame(c: Core, c': Core)
    requires c.Wf() && c'.Wf() && c'.id == c.id && c'.mie == c.mie && c'.stimecmp == c.stimecmp
    requires c'.clint.mtimecmp == c.clint.mtimecmp
    ensures NextTimer(c') == NextTimer(c)
  {
  }

  lemma PollKeepsInv(c: Core, ext: set<nat>)
    requires CacheInv(c)
    ensures CacheInv(Poll(c, ext).0)
  {
    hide Select, T.DeliverTrap, NextTimer;
    if !FastHit(c) {
      var u := Synced(c, ext);
      if !HasPending(c) && ext == {} {
        assert !c.clint.msip[c.id];
        NextTimerFrame(u, u.(fill := u.bumps, timer := NextTimer(u)));
      }
    }
  }

  function Run(c: Core, es: seq<Event>): Core
    requires CacheInv(c)
    ensures CacheInv(Run(c, es))
  {
    if es == [] then c
    else
      StepKeepsInv(Run(c, es[..|es| - 1]), es[|es| - 1]);
      Step(Run(c, es[..|es| - 1]), es[|es| - 1])
  }

  /** A hart that has not polled yet. */
  predicate Fresh(c: Core) {
    c.Wf() && c.fill == -1
  }

  // ---- soundness ----

  /** What the full check may take while the cache is valid: the software bit of S mode and the external lines. */
  function Overlooked(c: Core, ext: set<nat>): set<nat> {
    set i | i in c.mip * {SSI} + ext && i in c.mie && i in PRIORITY && Allowed(c.hart, i)
  }

  /** With a valid cache and no deadline reached, the timers and the software interrupt offer nothing enabled. */
  lemma HitOffersOnly(c: Core, ext: set<nat>)
    requires CacheInv(c) && FastHit(c) && c.fill == c.bumps && ext <= {SEI, MEI}
    ensures Deliverable(Synced(c, ext)) == Overlooked(c, ext)
  {
    var u := Synced(c, ext);
    assert MTI in c.mie ==> !MtimeReached(c);
    assert STI in c.mie ==> !StipPending(c);
    forall i | i in PRIORITY && i in c.mie
      ensures i in u.mip <==> i in c.mip * {SSI} + ext
    {
    }
  }

  lemma FirstFindsIff(s: set<nat>)
    requires forall i | i in s :: i in PRIORITY
    ensures First(s, 0) == -1 <==> s == {}
  {
  }

  /**
   When the fast path answers and fewer than 2^16 bumps have happened since the cache was filled, the full
   check would take something exactly when an external line, or a deadline no enabled timer waits for,
   opens the check and an overlooked bit is deliverable.
   */
  lemma FastPathDisagreesIff(c: Core, ext: set<nat>)
    requires CacheInv(c) && FastHit(c) && c.bumps - c.fill < MODULUS && ext <= {SEI, MEI}
    ensures CheckFull(c, ext).1 <==> (HasPending(c) || ext != {}) && Overlooked(c, ext) != {}
  {
    NoWrap(c);
    HitOffersOnly(c, ext);
    FirstFindsIff(Overlooked(c, ext));
  }

  lemma NoWrap(c: Core)
    requires c.Wf() && c.fill != -1 && c.fill % MODULUS == c.bumps % MODULUS && c.bumps - c.fill < MODULUS
    ensures c.fill == c.bumps
  {
    assert (c.bumps - c.fill) % MODULUS == 0;
  }

  /**
   Over every history: when the fast path answers, with fewer than 2^16 bumps since the fill, no external
   line up and SSIP and SSIE not both set, the full check would take nothing either.
   */
  lemma FastPathSound(start: Core, es: seq<Event>)
    requires Fresh(start)
    ensures var c := Run(start, es);
      FastHit(c) && c.bumps - c.fill < MODULUS && !(SSI in c.mip && SSI in c.mie) ==> !CheckFull(c, {}).1
  {
    var c := Run(start, es);
    if FastHit(c) && c.bumps - c.fill < MODULUS {
      FastPathDisagreesIff(c, {});
    }
  }

  /** The bound is needed: after exactly 2^16 bumps a software interrupt that is up and enabled is overlooked. */
  lemma WrapHidesInterrupt(c: Core)
    requires c.Wf() && c.fill != -1 && c.bumps == c.fill + MODULUS && c.timer == 0
    requires c.hart.mode == U && c.clint.msip[c.id] && MSI in c.mie
    ensures !Poll(c, {}).1 && CheckFull(c, {}).1
  {
    var u := Synced(c, {});
    assert MSI in u.mip;
    assert PRIORITY[1] == MSI && MSI in Deliverable(u);
    assert (c.fill + MODULUS) % MODULUS == c.fill % MODULUS;
    FirstFindsIff(Deliverable(u));
  }

  /** `n` writes of the same value to mie. */
  function Rewrites(v: set<nat>, n: nat): (es: seq<Event>)
    ensures |es| == n
  {
    seq(n, _ => WriteMie(v))
  }

  lemma {:induction false} RunRewrites(c: Core, es: seq<Event>, n: nat)
    requires CacheInv(c)
    ensures Run(c, es + Rewrites(Run(c, es).mie, n)) == Run(c, es).(bumps := Run(c, es).bumps + n)
  {
    hide CacheInv;
    var v := Run(c, es).mie;
    if n == 0 {
      assert es + Rewrites(v, 0) == es;
    } else {
      RunRewrites(c, es, n - 1);
      RunAppend(c, es + Rewrites(v, n - 1), WriteMie(v));
      assert es + Rewrites(v, n) == es + Rewrites(v, n - 1) + [WriteMie(v)];
    }
  }

  lemma RunAppend(c: Core, es: seq<Event>, e: Event)
    requires CacheInv(c)
    ensures Run(c, es + [e]) == Step(Run(c, es), e)
  {
    assert (es + [e])[..|es|] == es;
  }

  /** Poll, then a software interrupt for the hart, then enough register writes for the version to come round. */
  function WrappingRun(c: Core): seq<Event> {
    [Check({}), SendIpi(c.id)] + Rewrites(c.mie, MODULUS - 1)
  }

  /** A poll of a quiet hart fills the cache; a message then stays `n` bumps away from it. */
  ghost predicate Waiting(start: Core, c: Core, n: nat) {
    && c.Wf() && c.fill == start.bumps + 1 && c.bumps == c.fill + n && c.timer == 0
    && c.id == start.id && c.hart.mode == U && c.mie == {MSI}
  }

  lemma QuietPoll(start: Core)
    requires Fresh(start) && start.hart.mode == U && start.mie == {MSI} && !HasPending(start)
    ensures Waiting(start, Step(start, Check({})), 0)
  {
    var u := Synced(start, {});
    assert NextTimer(u) == 0;
  }

  /** Such a state is reached: from any hart in U mode that waits for software interrupts only and has none. */
  lemma WrapIsReached(start: Core)
    requires Fresh(start) && start.hart.mode == U && start.mie == {MSI} && !HasPending(start)
    ensures var c := Run(start, WrappingRun(start));
      FastHit(c) && MSI in c.mie && c.clint.msip[c.id] && !Poll(c, {}).1 && CheckFull(c, {}).1
  {
    hide CacheInv, Step, Poll, CheckFull, HasPending, Rewrites, Run;
    FreshInv(start);
    QuietPoll(start);
    TwoEvents(start);
    var asked := Run(start, [Check({}), SendIpi(start.id)]);
    RunRewrites(start, [Check({}), SendIpi(start.id)], MODULUS - 1);
    WrapHidesInterrupt(Run(start, WrappingRun(start)));
    assert (start.bumps + 1 + MODULUS) % MODULUS == (start.bumps + 1) % MODULUS;
  }

  lemma TwoEvents(start: Core)
    requires CacheInv(start) && Waiting(start, Step(start, Check({})), 0)
    ensures var asked := Run(start, [Check({}), SendIpi(start.id)]);
      Waiting(start, asked, 1) && asked.clint.msip[start.id]
  {
    hide CacheInv, Poll, CheckFull;
    RunAppend(start, [], Check({}));
    RunAppend(start, [Check({})], SendIpi(start.id));
    assert [] + [Check({})] == [Check({})] && [Check({})] + [SendIpi(start.id)] == [Check({}), SendIpi(start.id)];
  }

  lemma FreshInv(c: Core)
    requires Fresh(c)
    ensures CacheInv(c)
  {
  }

  /** A supervisor software interrupt alone is taken exactly when some hardware source happens to be pending too. */
  lemma LoneSsiTakenIff(c: Core)
    requires c.Wf() && Deliverable(Synced(c, {})) == {SSI}
    ensures CheckFull(c, {}).1 <==> HasPending(c)
  {
    FirstFindsIff(Deliverable(Synced(c, {})));
  }
}
