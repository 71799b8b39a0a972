/**
 Trap entry, return and interrupt polling in place: the version object a hart shares with the controller,
 the controller, and the hart. Every method is tied to `TrapModel` and `Interrupts` through `View()`.
 */
module HartIrqClass {
  import opened Priv
  import opened Interrupts
  import I = InterruptCache
  import T = TrapModel

  /** A counter that wraps; hart and controller hold the same object. */
  class IntStateVersion {
    var value: nat
    ghost var bumps: nat

    ghost predicate Valid()
      reads this
    {
      value == bumps % MODULUS
    }

    constructor ()
      ensures Valid() && bumps == 0
    {
      value, bumps := 0, 0;
    }

    method Bump()
      requires Valid()
      modifies this
      ensures Valid() && bumps == old(bumps) + 1 && value == (old(value) + 1) % 0x1_0000
    {
      value := (value + 1) % MODULUS;
      bumps := bumps + 1;
    }
  }

  class CLINT {
    const msip: array<bool>
    const mtimecmp: array<nat>
    var mtime: nat
    var states: seq<IntStateVersion>

    ghost predicate Valid()
      reads this, states
    {
      && msip.Length == mtimecmp.Length
      && (forall i | 0 <= i < |states| :: states[i].Valid())
      && (forall i, j | 0 <= i < j < |states| :: states[i] != states[j])
    }

    ghost function View(): Clint
      reads this, msip, mtimecmp
    {
      Clint(msip[..], mtimecmp[..], mtime)
    }

    constructor (harts: nat)
      ensures Valid() && states == [] && fresh(msip) && fresh(mtimecmp) && msip.Length == harts
      ensures View() == Clint(seq(harts, _ => false), seq(harts, _ => 0), 0)
    {
      msip := new bool[harts](_ => false);
      mtimecmp := new nat[harts](_ => 0);
      mtime, states := 0, [];
    }

    method NotifyStateChange()
      requires Valid()
      modifies set s | s in states
      ensures Valid()
      ensures forall s | s in states :: s.bumps == old(s.bumps) + 1
    {
      for i := 0 to |states|
        invariant Valid()
        invariant forall k | 0 <= k < |states| :: states[k].bumps == old(states[k].bumps) + if k < i then 1 else 0
      {
        states[i].Bump();
      }
    }

    method SetMsip(target: int, on: bool)
      requires Valid()
      modifies msip, set s | s in states
      ensures Valid()
      ensures 0 <= target < msip.Length ==>
        msip[..] == old(msip[..])[target := on] && forall s | s in states :: s.bumps == old(s.bumps) + 1
      ensures !(0 <= target < msip.Length) ==> msip[..] == old(msip[..]) && forall s | s in states :: s.bumps == old(s.bumps)
    {
      if 0 <= target < msip.Length {
        msip[target] := on;
        NotifyStateChange();
      }
    }

    method SetTimer(target: int, v: nat)
      requires Valid()
      modifies mtimecmp, set s | s in states
      ensures Valid()
      ensures 0 <= target < mtimecmp.Length ==>
        mtimecmp[..] == old(mtimecmp[..])[target := v % T.MASK64] && forall s | s in states :: s.bumps == old(s.bumps) + 1
      ensures !(0 <= target < mtimecmp.Length) ==>
        mtimecmp[..] == old(mtimecmp[..]) && forall s | s in states :: s.bumps == old(s.bumps)
    {
      if 0 <= target < mtimecmp.Length {
        mtimecmp[target] := v % T.MASK64;
        NotifyStateChange();
      }
    }

    method Tick(n: nat)
      requires Valid()
      modifies this`mtime
      ensures Valid() && View() == old(View()).(mtime := (old(mtime) + n) % T.MASK64)
    {
      mtime := (mtime + n) % T.MASK64;
    }

    method CheckInterrupt(id: nat) returns (bits: set<nat>)
      requires Valid() && id < msip.Length
      ensures bits == (if msip[id] then {MSI} else {}) + (if 0 < mtimecmp[id] <= mtime then {MTI} else {})
    {
      bits := {};
      if msip[id] {
        bits := bits + {MSI};
      }
      if mtime >= mtimecmp[id] && mtimecmp[id] > 0 {
        bits := bits + {MTI};
      }
    }
  }

  class HartIrq {
    const id: nat
    const hasSstc: bool
    const clint: CLINT
    const version: IntStateVersion
    var hart: T.Hart
    var mip: set<nat>
    var mie: set<nat>
    var stimecmp: nat
    var cacheVersion: int
    var cacheTimer: nat
    ghost var fill: int

    ghost predicate Valid()
      reads this, clint, clint.states, clint.msip, clint.mtimecmp, version
    {
      && clint.Valid() && version in clint.states && id < clint.msip.Length
      && -1 <= fill <= version.bumps
      && cacheVersion == (if fill == -1 then -1 else fill % MODULUS)
    }

    ghost function View(): Core
      reads this, clint, clint.msip, clint.mtimecmp, version
    {
      Core(hart, id, hasSstc, mip, mie, stimecmp, clint.View(), version.bumps, fill, cacheTimer)
    }

    constructor (id: nat, hasSstc: bool, clint: CLINT, hart: T.Hart)
      requires clint.Valid() && id < clint.msip.Length
      modifies clint`states
      ensures Valid() && I.Fresh(View()) && this.clint == clint && fresh(version) && clint.states == old(clint.states) + [version]
    {
      this.id, this.hasSstc, this.clint, this.hart := id, hasSstc, clint, hart;
      mip, mie, stimecmp := {}, {}, 0;
      cacheVersion, cacheTimer, fill := -1, 0, -1;
      version := new IntStateVersion();
      new;
      clint.states := clint.states + [version];
    }

    /** A register write that invalidates the cache. */
    method WriteMipRaw(bits: set<nat>)
      requires Valid()
      modifies this`mip, version
      ensures Valid() && View() == old(View()).(mip := bits).Bump()
    {
      mip := bits;
      version.Bump();
    }

    method ResolveStip() returns (pending: bool)
      requires Valid()
      ensures pending == StipPending(View())
    {
      var cmp := if hasSstc then stimecmp else 0;
      if cmp == 0 {
        return STI in mip;
      }
      return clint.mtime >= cmp;
    }

    method ComputeNextTimer() returns (wakeup: nat)
      requires Valid()
      ensures wakeup == NextTimer(View())
    {
      wakeup := 0;
      if MTI in mie {
        if clint.mtimecmp[id] > 0 {
          wakeup := clint.mtimecmp[id];
        }
      }
      if STI in mie {
        if stimecmp != 0 && (wakeup == 0 || stimecmp < wakeup) {
          wakeup := stimecmp;
        }
      }
    }

    method TrapDeliverS(c: T.Cause, tval: nat)
      modifies this`hart
      ensures hart == T.TrapToS(old(hart), c, tval)
    {
      hart := hart.(sepc := hart.pc, scause := T.Encoded(c), stval := tval);
      var ms := hart.mstatus;
      ms := ms.(spie := ms.sie);
      ms := ms.(sie := false);
      ms := ms.(spp := hart.mode == S);
      hart := hart.(mstatus := ms, mode := S);
      var base := hart.stvec - hart.stvec % 4;
      hart := hart.(pc := if hart.stvec % 4 == 0 || !c.interrupt then base else base + 4 * c.code);
    }

    method TrapDeliverM(c: T.Cause, tval: nat)
      modifies this`hart
      ensures hart == T.TrapToM(old(hart), c, tval)
    {
      hart := hart.(mepc := hart.pc, mcause := T.Encoded(c), mtval := tval);
      var ms := hart.mstatus;
      ms := ms.(mpie := ms.mie);
      ms := ms.(mie := false);
      ms := ms.(mpp := Level(hart.mode), mprv := false);
      hart := hart.(mstatus := ms, mode := M);
      var base := hart.mtvec - hart.mtvec % 4;
      hart := hart.(pc := if hart.mtvec % 4 == 0 || !c.interrupt then base else base + 4 * c.code);
    }

    /** The one way into a handler: delegation decides the level, and a software interrupt is withdrawn. */
    method DeliverTrap(c: T.Cause, tval: nat)
      requires Valid()
      modifies this`hart, this`mip, clint.msip, set s | s in clint.states
      ensures Valid() && View() == Entered(old(View()), c, tval)
      ensures c.interrupt && c.code == 3 ==> !clint.msip[id] && 3 !in mip
    {
      hide T.TrapToS, T.TrapToM;
      hart := T.Awake(hart);
      var delegate := false;
      if hart.mode != M {
        delegate := c.code in (if c.interrupt then hart.mideleg else hart.medeleg);
      }
      if delegate {
        TrapDeliverS(c, tval);
      } else {
        TrapDeliverM(c, tval);
      }
      assert hart == T.DeliverTrap(old(hart), c, tval);
      if c.interrupt {
        if c.code == MSI {
          clint.SetMsip(id, false);
          WriteMipRaw(mip - {MSI});
        } else if c.code == SSI && delegate {
          WriteMipRaw(mip - {SSI});
        }
      }
    }

    method TrapMret()
      requires Valid()
      modifies this`hart, this`mip, clint.msip, set s | s in clint.states
      ensures Valid() && View() == old(View()).(hart := T.Mret(old(hart)))
    {
      if hart.mode != M {
        DeliverTrap(T.Cause(T.ILLEGAL_INSTRUCTION, false), T.MRET_INSTRUCTION);
        return;
      }
      var ms := hart.mstatus;
      var mode := T.ModeOf(ms.mpp);
      ms := ms.(mie := ms.mpie);
      ms := ms.(mpie := true);
      ms := ms.(mpp := 0);
      hart := hart.(mode := mode, mstatus := ms, pc := hart.mepc % T.MASK64);
    }

    method TrapSret()
      requires Valid()
      modifies this`hart, this`mip, clint.msip, set s | s in clint.states
      ensures Valid() && View() == old(View()).(hart := T.Sret(old(hart)))
    {
      hide T.TrapToS, T.TrapToM;
      if hart.mode == U {
        DeliverTrap(T.Cause(T.ILLEGAL_INSTRUCTION, false), T.SRET_INSTRUCTION);
        return;
      }
      var ms := hart.mstatus;
      var mode := if ms.spp then S else U;
      ms := ms.(sie := ms.spie);
      ms := ms.(spie := true);
      ms := ms.(spp := false);
      hart := hart.(mode := mode, mstatus := ms, pc := hart.sepc % T.MASK64);
    }

    /** The scan of the priority list; -1 when nothing may be taken. */
    method FirstDeliverable() returns (i: int)
      requires Valid()
      ensures i == Select(View()) && i >= -1
      ensures i != -1 ==>
        && i in mip && i in mie
        && (i in hart.mideleg ==> hart.mode == U || (hart.mode == S && hart.mstatus.sie))
        && (i !in hart.mideleg ==> hart.mode == U || hart.mode == S || hart.mstatus.mie)
      ensures i == -1 ==>
        forall j | j in {11, 3, 7, 9, 1, 5} && j in mip && j in mie ::
          if j in hart.mideleg then hart.mode == M || (hart.mode == S && !hart.mstatus.sie)
          else hart.mode == M && !hart.mstatus.mie
    {
      NothingChosenIff(View());
      if hart.mode == M && !hart.mstatus.mie {
        NothingInM(View());
        return -1;
      }
      var masked := mip * mie;
      var sGlobal := hart.mode == U || (hart.mode == S && hart.mstatus.sie);
      var k := 0;
      while k < |PRIORITY|
        invariant 0 <= k <= |PRIORITY|
        invariant Select(View()) == First(Deliverable(View()), k)
      {
        var bit := PRIORITY[k];
        if bit in masked && (bit !in hart.mideleg || sGlobal) {
          assert bit in Deliverable(View());
          return bit;
        }
        assert bit !in Deliverable(View());
        k := k + 1;
      }
      return -1;
    }

    /** Records that nothing is pending. */
    method FillCache()
      requires Valid()
      modifies this`fill, this`cacheVersion, this`cacheTimer
      ensures Valid() && View() == old(View()).(fill := old(View()).bumps, timer := NextTimer(old(View())))
    {
      ghost var c := View();
      fill := version.bumps;
      cacheVersion := version.value;
      NextTimerIgnoresCache(View(), c);
      cacheTimer := ComputeNextTimer();
    }

    /** Whether the cached conclusion may be used. */
    method CacheAnswers() returns (hit: bool)
      requires Valid()
      ensures hit == FastHit(View())
    {
      if cacheVersion == version.value {
        if cacheTimer == 0 || clint.mtime < cacheTimer {
          return true;
        }
      }
      return false;
    }

    /** Brings mip up to date and says whether the full check has anything to look at. */
    method SyncMip(ext: set<nat>) returns (hasPending: bool)
      requires Valid()
      modifies this`mip, version
      ensures Valid() && View() == Synced(old(View()), ext) && hasPending == HasPending(old(View()))
    {
      ghost var c := View();
      var bits := clint.CheckInterrupt(id);
      assert bits == ClintBits(c);
      hasPending := bits != {};
      var sti := ResolveStip();
      if sti {
        bits := bits + {STI};
      }
      hasPending := hasPending || sti;
      WriteMipRaw((mip - HW_MIP) + (bits + ext));
      assert mip == Synced(c, ext).mip;
    }

    method CheckPendingInterrupts(ext: set<nat>) returns (taken: bool)
      requires Valid()
      modifies this, clint.msip, set s | s in clint.states
      ensures Valid() && View() == Poll(old(View()), ext).0 && taken == Poll(old(View()), ext).1
      ensures taken ==>
        var u, i := Synced(old(View()), ext), Select(Synced(old(View()), ext));
        && i in u.mip && i in old(mie)
        && (i in old(hart).mideleg ==> old(hart).mode == U || (old(hart).mode == S && old(hart).mstatus.sie))
        && (i !in old(hart).mideleg ==> old(hart).mode == U || old(hart).mode == S || old(hart).mstatus.mie)
      ensures !taken && !FastHit(old(View())) ==>
        || (ext == {} && !HasPending(old(View())))
        || forall j | j in {11, 3, 7, 9, 1, 5} && j in Synced(old(View()), ext).mip && j in old(mie) ::
             if j in old(hart).mideleg then old(hart).mode == M || (old(hart).mode == S && !old(hart).mstatus.sie)
             else old(hart).mode == M && !old(hart).mstatus.mie
    {
      PollFacts(View(), ext);
      hide Select, Entered, NextTimer, HasPending, Synced, FastHit;
      var hit := CacheAnswers();
      if hit {
        return false;
      }
      var hasPending := SyncMip(ext);
      if !hasPending && ext == {} {
        FillCache();
        return false;
      }
      var i := FirstDeliverable();
      if i == -1 {
        return false;
      }
      DeliverTrap(T.Cause(i, true), 0);
      return true;
    }
  }

  lemma PollFacts(c: Core, ext: set<nat>)
    requires c.Wf()
    ensures Poll(c, ext).1 ==>
      var u, i := Synced(c, ext), Select(Synced(c, ext));
      && i in u.mip && i in c.mie
      && (i in c.hart.mideleg ==> c.hart.mode == U || (c.hart.mode == S && c.hart.mstatus.sie))
      && (i !in c.hart.mideleg ==> c.hart.mode == U || c.hart.mode == S || c.hart.mstatus.mie)
    ensures !Poll(c, ext).1 && !FastHit(c) ==>
      || (ext == {} && !HasPending(c))
      || forall j | j in {11, 3, 7, 9, 1, 5} && j in Synced(c, ext).mip && j in c.mie ::
           if j in c.hart.mideleg then c.hart.mode == M || (c.hart.mode == S && !c.hart.mstatus.sie)
           else c.hart.mode == M && !c.hart.mstatus.mie
  {
    hide Select, FastHit, HasPending;
    NothingChosenIff(Synced(c, ext));
    if Poll(c, ext).1 {
      PollTakesFirst(c, ext);
    }
  }

  lemma NothingInM(c: Core)
    requires c.hart.mode == M && !c.hart.mstatus.mie
    ensures Select(c) == -1
  {
  }

  lemma NextTimerIgnoresCache(c: Core, c': Core)
    requires c.Wf() && c'.Wf() && c == c'.(fill := c.fill, timer := c.timer)
    ensures NextTimer(c) == NextTimer(c')
  {
  }
}
