/**
 One interrupt file across a round of the native engine. The engine works on a copy of the file; a
 device thread keeps injecting and withdrawing MSIs, and each time copies the whole pending bank over
 the engine's. After the round the two banks and the snapshot taken before it are merged.
 */
module ImsicHandoff {
  import opened Options
  import opened Words
  import opened ImsicModel

  /** The engine's copy of the file; `gate` tells the engine whether to look for external identities at all. */
  datatype Copy = Copy(eip: seq<Word>, eie: seq<Word>, eidelivery: bool, eithreshold: nat, gate: bool)

  /** The device's file, the pending bank saved when the round began, and the engine's copy. */
  datatype Round = Round(device: File, before: Option<seq<Word>>, engine: Copy)

  /** What the engine or the device thread may do during a round. */
  datatype Event =
    | Inject(n: int)
    | Withdraw(n: int)
    | Claim(iid: nat)
    | EngineSet(iid: nat)
    | Configure(eie: seq<Word>, eidelivery: bool, eithreshold: nat, gate: bool)

  ghost predicate Wf(r: Round) {
    Inv(r.device) && |r.engine.eip| == WORDS && |r.engine.eie| == WORDS
    && (r.before.Some? ==> |r.before.value| == WORDS)
  }

  /** Some bit other than the two IPIs is set. */
  ghost predicate HasExternal(eip: seq<Word>)
    requires |eip| == WORDS
  {
    !IsZero(AndNot(eip[0], SwMask())) || exists k :: 1 <= k < WORDS && !IsZero(eip[k])
  }

  ghost function Marshal(f: File): Round
    requires Shape(f)
  {
    Round(f, Some(f.eip), Copy(f.eip, f.eie, f.eidelivery, f.eithreshold, HasExternal(f.eip)))
  }

  /** What the engine left, with the bits that the device thread has set since the snapshot. */
  function Merge(engine: seq<Word>, before: Option<seq<Word>>, current: seq<Word>): (r: seq<Word>)
    requires |engine| == |current| && (before.Some? ==> |before.value| == |engine|)
    ensures |r| == |engine|
  {
    match before
    case None => engine
    case Some(p) =>
      seq(|engine|, i requires 0 <= i < |engine| => Or(engine[i], AndNot(current[i], p[i])))
  }

  ghost function Unmarshal(r: Round): (f: File)
    requires Wf(r)
    ensures Inv(f)
  {
    Refreshed(r.device.(eip := Merge(r.engine.eip, r.before, r.device.eip), eie := r.engine.eie,
                        eidelivery := r.engine.eidelivery, eithreshold := r.engine.eithreshold))
  }

  /** The merge, one identity at a time. */
  lemma MergeBits(engine: seq<Word>, before: seq<Word>, current: seq<Word>, x: nat)
    requires |engine| == |current| == |before| && x < 32 * |engine|
    ensures BankBit(Merge(engine, Some(before), current), x)
       <==> BankBit(engine, x) || (BankBit(current, x) && !BankBit(before, x))
  {
  }

  // ---- a round ----

  ghost function Publish(r: Round): Round {
    r.(engine := r.engine.(eip := r.device.eip, gate := r.device.anyExt))
  }

  ghost predicate Allowed(e: Event) {
    match e
    case Claim(n) => n < MAX_IDS
    case EngineSet(n) => n < MAX_IDS
    case Configure(eie, _, _, _) => |eie| == WORDS
    case _ => true
  }

  ghost function Step(r: Round, e: Event): (r': Round)
    requires Wf(r) && Allowed(e)
    ensures Wf(r') && r'.before == r.before
  {
    match e
    case Inject(n) =>
      PendingWrites(r.device, n);
      Publish(r.(device := SetPending(r.device, n)))
    case Withdraw(n) =>
      PendingWrites(r.device, n);
      Publish(r.(device := ClearPending(r.device, n)))
    case Claim(n) => r.(engine := r.engine.(eip := SetBank(r.engine.eip, n, false)))
    case EngineSet(n) => r.(engine := r.engine.(eip := SetBank(r.engine.eip, n, true)))
    case Configure(eie, d, t, g) =>
      r.(engine := r.engine.(eie := eie, eidelivery := d, eithreshold := t, gate := g))
  }

  ghost function Run(r: Round, es: seq<Event>): (r': Round)
    requires Wf(r) && forall e | e in es :: Allowed(e)
    ensures Wf(r') && r'.before == r.before
  {
    if es == [] then r else Step(Run(r, es[..|es| - 1]), es[|es| - 1])
  }

  /** Before a round the gate is up exactly when an identity other than 1 and 3 is pending. */
  lemma GateIsExternal(f: File)
    requires Inv(f)
    ensures Marshal(f).engine.gate <==> exists x :: x in Pending(f) && x != 1 && x != 3
  {
    if x :| x in Pending(f) && x != 1 && x != 3 {
      ExternalBit(f.eip, x);
    }
    if HasExternal(f.eip) {
      var x := ExternalOf(f.eip);
      assert x in Pending(f);
    }
  }

  lemma ExternalOf(eip: seq<Word>) returns (x: nat)
    requires |eip| == WORDS && HasExternal(eip)
    ensures x < MAX_IDS && x != 1 && x != 3 && BankBit(eip, x)
  {
    if IsZero(AndNot(eip[0], SwMask())) {
      var k :| 1 <= k < WORDS && !IsZero(eip[k]);
      var b := SomeBit(eip[k]);
      x := 32 * k + b;
    } else {
      x := SomeBit(AndNot(eip[0], SwMask()));
    }
  }

  lemma SomeBit(w: Word) returns (b: nat)
    requires !IsZero(w)
    ensures b < 32 && w[b]
  {
    b :| 0 <= b < 32 && w[b];
  }

  /** Whenever pending bits are published to the engine, the gate is up exactly when there are any. */
  lemma GateNeverMisses(r: Round, e: Event, x: nat)
    requires Wf(r) && Publishes(e) && x < MAX_IDS
    ensures Step(r, e).engine.gate <==> Pending(Step(r, e).device) != {}
    ensures BankBit(Step(r, e).engine.eip, x) ==> Step(r, e).engine.gate
  {
    var d := Step(r, e).device;
    PendingWrites(r.device, e.n);
    EmptyBank(d.eip);
    if BankBit(d.eip, x) {
      assert x in Pending(d);
    }
  }

  lemma ExternalBit(eip: seq<Word>, x: nat)
    requires |eip| == WORDS && x < MAX_IDS && x != 1 && x != 3 && BankBit(eip, x)
    ensures HasExternal(eip)
  {
    if x < 32 {
      assert AndNot(eip[0], SwMask())[x];
    } else {
      assert !IsZero(eip[x / 32]);
    }
  }

  // ---- what the history says about one identity ----

  predicate Publishes(e: Event) {
    e.Inject? || e.Withdraw?
  }

  predicate Touches(e: Event, x: nat) {
    match e
    case Inject(n) => n == x && 0 < x
    case Withdraw(n) => n == x && 0 < x
    case Claim(n) => n == x
    case EngineSet(n) => n == x
    case Configure(_, _, _, _) => false
  }

  /** The position of the last event about `x`, or -1. */
  function LastTouch(es: seq<Event>, x: nat): (k: int)
    ensures -1 <= k < |es|
    ensures k >= 0 ==> Touches(es[k], x)
    ensures forall j | k < j < |es| :: !Touches(es[j], x)
  {
    if es == [] then -1
    else if Touches(es[|es| - 1], x) then |es| - 1
    else LastTouch(es[..|es| - 1], x)
  }

  ghost predicate PublishedAfter(es: seq<Event>, k: int) {
    exists j :: k < j < |es| && 0 <= j && Publishes(es[j])
  }

  /** Whether the device thread wants `x` pending: its last word on it, or else the snapshot. */
  predicate Wanted(atStart: bool, es: seq<Event>, x: nat) {
    if es == [] then atStart
    else
      var e := es[|es| - 1];
      if e.Inject? && Touches(e, x) then true
      else if e.Withdraw? && Touches(e, x) then false
      else Wanted(atStart, es[..|es| - 1], x)
  }

  lemma {:induction false} DeviceHasWanted(f: File, es: seq<Event>, x: nat)
    requires Inv(f) && x < MAX_IDS && forall e | e in es :: Allowed(e)
    ensures x in Pending(Run(Marshal(f), es).device) <==> Wanted(x in Pending(f), es, x)
  {
    if es != [] {
      var front, e := es[..|es| - 1], es[|es| - 1];
      DeviceHasWanted(f, front, x);
      var d := Run(Marshal(f), front).device;
      if e.Inject? || e.Withdraw? {
        PendingWrites(d, e.n);
      }
    }
  }

  /** The engine's copy: its own last word on `x` since the last publication, or else the device's. */
  lemma {:induction false} EngineHas(f: File, es: seq<Event>, x: nat)
    requires Inv(f) && x < MAX_IDS && forall e | e in es :: Allowed(e)
    ensures var r, k := Run(Marshal(f), es), LastTouch(es, x);
      BankBit(r.engine.eip, x) <==>
        if k == -1 || PublishedAfter(es, k) || Publishes(es[k]) then x in Pending(r.device) else es[k].EngineSet?
  {
    if es != [] {
      var front, e := es[..|es| - 1], es[|es| - 1];
      EngineHas(f, front, x);
      var r0, r, k := Run(Marshal(f), front), Run(Marshal(f), es), LastTouch(es, x);
      if Publishes(e) {
        assert r.engine.eip == r.device.eip;
        if !Touches(e, x) {
          assert Publishes(es[|es| - 1]);
        }
      } else if !Touches(e, x) {
        assert k == LastTouch(front, x);
        assert PublishedAfter(es, k) <==> PublishedAfter(front, k) by {
          if PublishedAfter(es, k) {
            var j :| k < j < |es| && 0 <= j && Publishes(es[j]);
            assert Publishes(front[j]);
          }
          if PublishedAfter(front, k) {
            var j :| k < j < |front| && 0 <= j && Publishes(front[j]);
            assert Publishes(es[j]);
          }
        }
      }
    }
  }

  /** The file that a round starting from `f` leaves behind. */
  ghost function AfterRound(f: File, es: seq<Event>): (f': File)
    requires Inv(f) && forall e | e in es :: Allowed(e)
    ensures Inv(f')
  {
    Unmarshal(Run(Marshal(f), es))
  }

  /** The position of the last `Configure`, or -1. */
  function LastConfigure(es: seq<Event>): (k: int)
    ensures -1 <= k < |es|
    ensures k >= 0 ==> es[k].Configure?
    ensures forall j | k < j < |es| :: !es[j].Configure?
  {
    if es == [] then -1
    else if es[|es| - 1].Configure? then |es| - 1
    else LastConfigure(es[..|es| - 1])
  }

  lemma {:induction false} EngineConfiguration(f: File, es: seq<Event>)
    requires Inv(f) && forall e | e in es :: Allowed(e)
    ensures var c, k := Run(Marshal(f), es).engine, LastConfigure(es);
      if k == -1 then c.eie == f.eie && c.eidelivery == f.eidelivery && c.eithreshold == f.eithreshold
      else c.eie == es[k].eie && c.eidelivery == es[k].eidelivery && c.eithreshold == es[k].eithreshold
  {
    if es != [] {
      EngineConfiguration(f, es[..|es| - 1]);
    }
  }

  /**
   Enables, delivery and threshold are the engine's: after a round they are those of its last configuration, and
   without one those of the file at the snapshot, whatever the device thread does in between.
   */
  lemma ConfigurationIsLast(f: File, es: seq<Event>)
    requires Inv(f) && forall e | e in es :: Allowed(e)
    ensures var f', k := AfterRound(f, es), LastConfigure(es);
      if k == -1 then f'.eie == f.eie && f'.eidelivery == f.eidelivery && f'.eithreshold == f.eithreshold
      else f'.eie == es[k].eie && f'.eidelivery == es[k].eidelivery && f'.eithreshold == es[k].eithreshold
  {
    EngineConfiguration(f, es);
  }

  /** An identity enabled by the last configuration and injected in the round is on top once it is highest and passes. */
  lemma InjectedIsReported(f: File, es: seq<Event>, x: nat)
    requires Inv(f) && 0 < x < MAX_IDS && forall e | e in es :: Allowed(e)
    requires LastTouch(es, x) >= 0 && es[LastTouch(es, x)].Inject?
    requires LastConfigure(es) >= 0
    requires var c := es[LastConfigure(es)]; |c.eie| == WORDS && BankBit(c.eie, x) && c.eidelivery && x % 256 > c.eithreshold
    ensures var f' := AfterRound(f, es);
      !IpiPending(f') && (forall i | i in Pending(f') && EnabledIn(f', i) :: i <= x) ==> PeekTopei(f') == x * 0x1_0000 + x % 256
  {
    var f' := AfterRound(f, es);
    NoMsiIsLost(f, es, x);
    ConfigurationIsLast(f, es);
    if !IpiPending(f') && (forall i | i in Pending(f') && EnabledIn(f', i) :: i <= x) {
      assert IsHighest(f', x);
      PeekIsHighestIff(f', x);
    }
  }

  lemma AfterRoundBits(f: File, es: seq<Event>, x: nat)
    requires Inv(f) && x < MAX_IDS && forall e | e in es :: Allowed(e)
    ensures var r := Run(Marshal(f), es);
      x in Pending(AfterRound(f, es)) <==>
        BankBit(r.engine.eip, x) || (Wanted(x in Pending(f), es, x) && x !in Pending(f))
  {
    var r := Run(Marshal(f), es);
    DeviceHasWanted(f, es, x);
    MergeBits(r.engine.eip, f.eip, r.device.eip, x);
  }

  /**
   No MSI is lost, whatever the interleaving: an identity last injected, or pending at the snapshot and
   never touched, is pending after the merge; one last withdrawn, or never there, is not.
   */
  lemma NoMsiIsLost(f: File, es: seq<Event>, x: nat)
    requires Inv(f) && 0 < x < MAX_IDS && forall e | e in es :: Allowed(e)
    requires LastTouch(es, x) == -1 || Publishes(es[LastTouch(es, x)])
    ensures x in Pending(AfterRound(f, es)) <==>
      if LastTouch(es, x) == -1 then x in Pending(f) else es[LastTouch(es, x)].Inject?
  {
    EngineHas(f, es, x);
    AfterRoundBits(f, es, x);
    DeviceHasWanted(f, es, x);
    WantedByLastTouch(x in Pending(f), es, x);
  }

  lemma {:induction false} WantedByLastTouch(atStart: bool, es: seq<Event>, x: nat)
    ensures LastTouch(es, x) == -1 ==> Wanted(atStart, es, x) == atStart
    ensures LastTouch(es, x) >= 0 && Publishes(es[LastTouch(es, x)])
            ==> Wanted(atStart, es, x) == es[LastTouch(es, x)].Inject?
  {
    if es != [] {
      WantedByLastTouch(atStart, es[..|es| - 1], x);
    }
  }

  /**
   An identity the engine claimed last stays cleared exactly when the device thread no longer wants it,
   or it was already pending at the snapshot and nothing was published after the claim.
   */
  lemma ClaimedStaysClearedIff(f: File, es: seq<Event>, x: nat)
    requires Inv(f) && x < MAX_IDS && forall e | e in es :: Allowed(e)
    requires LastTouch(es, x) >= 0 && es[LastTouch(es, x)].Claim?
    ensures x !in Pending(AfterRound(f, es))
       <==> !Wanted(x in Pending(f), es, x) || (x in Pending(f) && !PublishedAfter(es, LastTouch(es, x)))
  {
    EngineHas(f, es, x);
    AfterRoundBits(f, es, x);
    DeviceHasWanted(f, es, x);
  }

  /** An identity the engine set last survives exactly when no publication follows or the device wants it too. */
  lemma EngineSetSurvivesIff(f: File, es: seq<Event>, x: nat)
    requires Inv(f) && x < MAX_IDS && forall e | e in es :: Allowed(e)
    requires LastTouch(es, x) >= 0 && es[LastTouch(es, x)].EngineSet?
    ensures x in Pending(AfterRound(f, es))
       <==> !PublishedAfter(es, LastTouch(es, x)) || Wanted(x in Pending(f), es, x)
  {
    EngineHas(f, es, x);
    AfterRoundBits(f, es, x);
    DeviceHasWanted(f, es, x);
  }

  /** An MSI that arrives and is claimed within one round is delivered a second time after it. */
  lemma ClaimedInRoundComesBack(f: File, x: nat)
    requires Inv(f) && 0 < x < MAX_IDS && x !in Pending(f)
    ensures x in Pending(AfterRound(f, [Inject(x), Claim(x)]))
  {
    var es := [Inject(x), Claim(x)];
    assert es[..1] == [Inject(x)];
    assert Wanted(false, es[..1], x);
    assert Wanted(false, es, x);
    AfterRoundBits(f, es, x);
  }
}
