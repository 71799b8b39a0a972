/**
 Interrupt polling: which interrupt is taken at an instruction boundary, and the cached conclusion that
 nothing is pending, stamped with a version number that wraps. Interrupt registers are sets of bit
 numbers (RISC-V Privileged Specification, section 3.1.9).
 */
module Interrupts {
  import opened Priv
  import T = TrapModel

  const MODULUS := 0x1_0000
  const SSI := 1
  const MSI := 3
  const STI := 5
  const MTI := 7
  const SEI := 9
  const MEI := 11

  /** From the highest priority down. */
  const PRIORITY: seq<nat> := [MEI, MSI, MTI, SEI, SSI, STI]

  /** The bits of mip that mirror hardware. */
  const HW_MIP: set<nat> := {MSI, MTI, STI, MEI, SEI}

  datatype Clint = Clint(msip: seq<bool>, mtimecmp: seq<nat>, mtime: nat)

  /**
   A hart with its interrupt registers, the timer and software-interrupt controller, the number of
   version bumps so far, and the cache: the bump count at which it was filled, or -1, and the next timer
   deadline, or 0.
   */
  datatype Core = Core(
    hart: T.Hart, id: nat, hasSstc: bool,
    mip: set<nat>, mie: set<nat>, stimecmp: nat,
    clint: Clint,
    bumps: nat, fill: int, timer: nat)
  {
    predicate Wf() {
      id < |clint.msip| == |clint.mtimecmp| && -1 <= fill <= bumps
    }

    function Bump(): Core {
      this.(bumps := bumps + 1)
    }
  }

  // ---- what the hardware reports ----

  predicate MtimeReached(c: Core)
    requires c.Wf()
  {
    0 < c.clint.mtimecmp[c.id] <= c.clint.mtime
  }

  function ClintBits(c: Core): set<nat>
    requires c.Wf()
  {
    (if c.clint.msip[c.id] then {MSI} else {}) + (if MtimeReached(c) then {MTI} else {})
  }

  /** Without a supervisor comparator the bit is the one software wrote; with one, the comparator decides. */
  predicate StipPending(c: Core) {
    if !c.hasSstc || c.stimecmp == 0 then STI in c.mip else c.clint.mtime >= c.stimecmp
  }

  predicate HasPending(c: Core)
    requires c.Wf()
  {
    ClintBits(c) != {} || StipPending(c)
  }

  /** mip with its hardware bits replaced by what the hardware reports now. */
  function Synced(c: Core, ext: set<nat>): (c': Core)
    requires c.Wf()
    ensures c'.Wf()
  {
    c.(mip := (c.mip - HW_MIP) + ClintBits(c) + (if StipPending(c) then {STI} else {}) + ext).Bump()
  }

  function NextTimer(c: Core): nat
    requires c.Wf()
  {
    var wakeup := if MTI in c.mie then c.clint.mtimecmp[c.id] else 0;
    if STI in c.mie && c.stimecmp != 0 && (wakeup == 0 || c.stimecmp < wakeup) then c.stimecmp else wakeup
  }

  // ---- selection ----

  /** A delegated interrupt needs U mode, or S mode with SIE; any other needs a mode below M, or MIE. */
  predicate Allowed(h: T.Hart, i: nat) {
    if i in h.mideleg then h.mode == U || (h.mode == S && h.mstatus.sie)
    else h.mode != M || h.mstatus.mie
  }

  function Deliverable(c: Core): set<nat> {
    set i | i in c.mip && i in c.mie && i in PRIORITY && Allowed(c.hart, i)
  }

  /** The first entry of the priority list, from position `k` on, that is in `s`; -1 if none is. */
  function First(s: set<nat>, k: nat): (r: int)
    requires k <= |PRIORITY|
    ensures r == -1 ==> forall j | k <= j < |PRIORITY| :: PRIORITY[j] !in s
    ensures r != -1 ==> exists m :: k <= m < |PRIORITY| && PRIORITY[m] == r && r in s && forall j | k <= j < m :: PRIORITY[j] !in s
    decreases |PRIORITY| - k
  {
    if k == |PRIORITY| then -1 else if PRIORITY[k] in s then PRIORITY[k] else First(s, k + 1)
  }

  function Select(c: Core): int {
    First(Deliverable(c), 0)
  }

  /** A trap entry; entering for a software interrupt also withdraws its source. */
  function Entered(c: Core, cause: T.Cause, tval: nat): (c': Core)
    requires c.Wf()
    ensures c'.Wf() && c'.fill == c.fill && c'.bumps >= c.bumps
    ensures c'.bumps == c.bumps ==> c' == c.(hart := c'.hart)
  {
    var t := c.(hart := T.DeliverTrap(c.hart, cause, tval));
    if cause == T.Cause(MSI, true) then
      t.(clint := c.clint.(msip := c.clint.msip[c.id := false]), mip := c.mip - {MSI}, bumps := c.bumps + 2)
    else if cause == T.Cause(SSI, true) && T.Delegated(c.hart, cause) then
      t.(mip := c.mip - {SSI}, bumps := c.bumps + 1)
    else t
  }

  function Interrupted(c: Core, i: nat): (c': Core)
    requires c.Wf()
    ensures c'.Wf()
  {
    Entered(c, T.Cause(i, true), 0)
  }

  /** The poll without the cache. `ext` holds the external lines that IMSIC or PLIC drive. */
  function CheckFull(c: Core, ext: set<nat>): (r: (Core, bool))
    requires c.Wf()
    ensures r.0.Wf()
  {
    var u := Synced(c, ext);
    if !HasPending(c) && ext == {} then (u.(fill := u.bumps, timer := NextTimer(u)), false)
    else if Select(u) == -1 then (u, false)
    else (Interrupted(u, Select(u)), true)
  }

  predicate FastHit(c: Core) {
    && c.fill != -1 && c.fill % MODULUS == c.bumps % MODULUS
    && (c.timer == 0 || c.clint.mtime < c.timer)
  }

  function Poll(c: Core, ext: set<nat>): (r: (Core, bool))
    requires c.Wf()
    ensures r.0.Wf()
  {
    if FastHit(c) then (c, false) else CheckFull(c, ext)
  }

  /** What is selected is deliverable and ranks before everything else that is. */
  lemma SelectIsFirst(c: Core)
    requires Select(c) != -1
    ensures Select(c) in Deliverable(c) && forall j | j in Deliverable(c) :: Rank(Select(c)) <= Rank(j)
  {
    hide First, Allowed, Rank;
    forall j | j in Deliverable(c)
      ensures Rank(Select(c)) <= Rank(j)
    {
      FirstIsLowest(Deliverable(c), j);
    }
  }

  /** What the registers say about taking interrupt `i`: pending, enabled, and open to the current mode. */
  ghost predicate Open(c: Core, i: nat) {
    && i in c.mip && i in c.mie
    && (i in c.hart.mideleg ==> c.hart.mode == U || (c.hart.mode == S && c.hart.mstatus.sie))
    && (i !in c.hart.mideleg ==> c.hart.mode == U || c.hart.mode == S || c.hart.mstatus.mie)
  }

  /** The choice, in the order MEI, MSI, MTI, SEI, SSI, STI. */
  lemma SelectIs(c: Core)
    ensures Select(c) == if Open(c, 11) then 11 else if Open(c, 3) then 3 else if Open(c, 7) then 7
                         else if Open(c, 9) then 9 else if Open(c, 1) then 1 else if Open(c, 5) then 5 else -1
  {
    hide Allowed, Open, First, Deliverable;
    var d := Deliverable(c);
    assert forall i :: i in d <==> i in PRIORITY && Open(c, i) by {
      OpenIsDeliverable(c);
    }
    FirstUnrolled(d);
  }

  lemma OpenIsDeliverable(c: Core)
    ensures forall i :: i in Deliverable(c) <==> i in PRIORITY && Open(c, i)
  {
  }

  lemma FirstUnrolled(s: set<nat>)
    ensures First(s, 0) == if 11 in s then 11 else if 3 in s then 3 else if 7 in s then 7
                           else if 9 in s then 9 else if 1 in s then 1 else if 5 in s then 5 else -1
  {
    assert First(s, 5) == if 5 in s then 5 else First(s, 6);
    assert First(s, 4) == if 1 in s then 1 else First(s, 5);
    assert First(s, 3) == if 9 in s then 9 else First(s, 4);
    assert First(s, 2) == if 7 in s then 7 else First(s, 3);
    assert First(s, 1) == if 3 in s then 3 else First(s, 2);
  }

  /** Nothing is chosen exactly when no pending and enabled interrupt is open to the current mode. */
  lemma NothingChosenIff(c: Core)
    ensures Select(c) == -1 <==>
      forall i | i in {11, 3, 7, 9, 1, 5} && i in c.mip && i in c.mie ::
        if i in c.hart.mideleg then c.hart.mode == M || (c.hart.mode == S && !c.hart.mstatus.sie)
        else c.hart.mode == M && !c.hart.mstatus.mie
  {
    hide Select;
    SelectIs(c);
  }

  /** What the synchronised mip holds: the hardware's bits as the hardware has them, all others as before. */
  lemma SyncedIs(c: Core, ext: set<nat>)
    requires c.Wf() && ext <= {9, 11}
    ensures var u := Synced(c, ext);
      && (3 in u.mip <==> c.clint.msip[c.id])
      && (7 in u.mip <==> 0 < c.clint.mtimecmp[c.id] <= c.clint.mtime)
      && (5 in u.mip <==> if c.hasSstc && c.stimecmp > 0 then c.clint.mtime >= c.stimecmp else 5 in c.mip)
      && (9 in u.mip <==> 9 in ext) && (11 in u.mip <==> 11 in ext)
      && (forall i | i !in {3, 5, 7, 9, 11} :: i in u.mip <==> i in c.mip)
      && u == c.(mip := u.mip, bumps := c.bumps + 1)
  {
  }

  /**
   A poll that takes an interrupt takes one that is pending, enabled and open to the current mode, before all
   others that are, and enters S mode exactly for a delegated one.
   */
  lemma PollTakesFirst(c: Core, ext: set<nat>)
    requires c.Wf() && Poll(c, ext).1
    ensures var u, i := Synced(c, ext), Select(Synced(c, ext));
      && i in {11, 3, 7, 9, 1, 5} && i in u.mip && i in u.mie
      && (i in c.hart.mideleg ==> c.hart.mode == U || (c.hart.mode == S && c.hart.mstatus.sie))
      && (i !in c.hart.mideleg ==> c.hart.mode == U || c.hart.mode == S || c.hart.mstatus.mie)
      && (forall j | Open(u, j) && j in {11, 3, 7, 9, 1, 5} :: Rank(i) <= Rank(j))
      && Poll(c, ext).0 == Entered(u, T.Cause(i, true), 0)
      && T.Took(c.hart, Poll(c, ext).0.hart, T.Cause(i, true))
      && (Poll(c, ext).0.hart.mode == S <==> i in c.hart.mideleg)
  {
    hide Select, FastHit, HasPending;
    SelectIs(Synced(c, ext));
  }

  /**
   A full poll takes nothing exactly when the hardware reports nothing, or no pending and enabled interrupt
   is open to the current mode.
   */
  lemma FullPollTakesIff(c: Core, ext: set<nat>)
    requires c.Wf() && ext <= {9, 11}
    ensures CheckFull(c, ext).1 <==>
      && (c.clint.msip[c.id] || 0 < c.clint.mtimecmp[c.id] <= c.clint.mtime || 5 in Synced(c, ext).mip || ext != {})
      && exists i :: i in {11, 3, 7, 9, 1, 5} && i in Synced(c, ext).mip && i in c.mie
           && (if i in c.hart.mideleg then c.hart.mode == U || (c.hart.mode == S && c.hart.mstatus.sie)
               else c.hart.mode == U || c.hart.mode == S || c.hart.mstatus.mie)
  {
    hide Select, Synced;
    SyncedIs(c, ext);
    NothingChosenIff(Synced(c, ext));
    assert HasPending(c) <==> c.clint.msip[c.id] || 0 < c.clint.mtimecmp[c.id] <= c.clint.mtime || 5 in Synced(c, ext).mip;
  }

  /** The cached deadline is the earliest one that is set and whose timer is enabled, and zero when there is none. */
  lemma NextTimerIsEarliest(c: Core)
    requires c.Wf()
    ensures var m, s, t := c.clint.mtimecmp[c.id], c.stimecmp, NextTimer(c);
      && (7 in c.mie && m > 0 ==> 0 < t <= m) && (5 in c.mie && s > 0 ==> 0 < t <= s)
      && (t > 0 ==> (7 in c.mie && t == m) || (5 in c.mie && t == s))
  {
  }

  /**
   A software interrupt is withdrawn from mip and from the controller as it is taken in M mode or by
   delegation, a supervisor software interrupt from mip when it is delegated; no other trap changes either.
   */
  lemma EnteredWithdraws(c: Core, cause: T.Cause, tval: nat)
    requires c.Wf()
    ensures var e := Entered(c, cause, tval);
      && e == c.(hart := T.DeliverTrap(c.hart, cause, tval), mip := e.mip, clint := c.clint.(msip := e.clint.msip), bumps := e.bumps)
      && (forall i | 0 <= i < |c.clint.msip| :: e.clint.msip[i] == (c.clint.msip[i] && !(i == c.id && cause == T.Cause(3, true))))
      && (forall i :: i in e.mip <==> i in c.mip && !(cause == T.Cause(i, true) && (i == 3 || (i == 1 && e.hart.mode == S))))
      && e.bumps - c.bumps == if cause == T.Cause(3, true) then 2 else if cause == T.Cause(1, true) && e.hart.mode == S then 1 else 0
  {
  }

  /** The handler of an interrupt is not interrupted at its own level: in M mode by nothing, in S mode by nothing delegated. */
  lemma HandlerRunsAlone(c: Core, cause: T.Cause, tval: nat)
    requires c.Wf()
    ensures var e := Entered(c, cause, tval);
      && (e.hart.mode == M ==> Select(e) == -1)
      && (e.hart.mode == S ==> Select(e) == -1 || Select(e) !in e.hart.mideleg)
  {
    hide Select;
    SelectIs(Entered(c, cause, tval));
  }

  /** The position of an interrupt in the priority list. */
  function Rank(i: nat): nat {
    match i
    case 11 => 0
    case 3 => 1
    case 7 => 2
    case 9 => 3
    case 1 => 4
    case 5 => 5
    case _ => 6
  }

  lemma RankOf(k: nat)
    requires k < |PRIORITY|
    ensures Rank(PRIORITY[k]) == k
  {
  }

  // ---- against the specification ----

  /** Interrupts for M mode come before all others, then the list decides. */
  function StandardChoice(c: Core): int {
    var own := First(Deliverable(c) - c.hart.mideleg, 0);
    if own != -1 then own else Select(c)
  }

  /** A deliverable interrupt for S mode stands in the list before every deliverable one for M mode, and there is one. */
  ghost predicate DelegatedFirst(c: Core) {
    && (exists n :: n in Deliverable(c) && n !in c.hart.mideleg)
    && exists d :: d in Deliverable(c) && d in c.hart.mideleg
         && forall n | n in Deliverable(c) && n !in c.hart.mideleg :: Rank(d) < Rank(n)
  }

  lemma FirstIsLowest(s: set<nat>, i: nat)
    requires i in s && i in PRIORITY
    ensures First(s, 0) in s && First(s, 0) in PRIORITY && Rank(First(s, 0)) <= Rank(i)
  {
    var n :| 0 <= n < |PRIORITY| && PRIORITY[n] == i;
    var m :| 0 <= m < |PRIORITY| && PRIORITY[m] == First(s, 0) && forall j | 0 <= j < m :: PRIORITY[j] !in s;
    RankOf(m);
    RankOf(n);
  }

  /** The single list follows the specification unless it puts a delegated interrupt before all those for M mode. */
  lemma SelectMeetsStandardIff(c: Core)
    ensures Select(c) == StandardChoice(c) <==> !DelegatedFirst(c)
  {
    hide First, Rank, Allowed;
    var d, own := Deliverable(c), Deliverable(c) - c.hart.mideleg;
    if n :| n in own {
      FirstIsLowest(own, n);
      FirstIsLowest(d, First(own, 0));
      if x :| x in d && x in c.hart.mideleg && forall n | n in own :: Rank(x) < Rank(n) {
        FirstIsLowest(d, x);
        assert DelegatedFirst(c);
      }
      if Select(c) in own {
        FirstIsLowest(own, Select(c));
        SameRank(Select(c), First(own, 0));
      } else {
        forall n | n in own
          ensures Rank(Select(c)) < Rank(n)
        {
          FirstIsLowest(d, n);
          SameRank(Select(c), n);
        }
        assert DelegatedFirst(c);
      }
    }
  }

  lemma SameRank(i: nat, j: nat)
    requires i in PRIORITY && j in PRIORITY
    ensures Rank(i) == Rank(j) <==> i == j
  {
  }

  /** A pending supervisor external interrupt, delegated, keeps a software interrupt for M mode waiting. */
  lemma DelegatedIsTakenFirst(c: Core)
    requires c.hart.mode == U && c.hart.mideleg == {SEI} && c.mip == c.mie == {SEI, SSI}
    ensures Select(c) == SEI && StandardChoice(c) == SSI
  {
    assert Deliverable(c) == {SEI, SSI};
    assert Deliverable(c) - c.hart.mideleg == {SSI};
    assert PRIORITY[3] == SEI && PRIORITY[4] == SSI;
    FirstIsLowest({SEI, SSI}, SEI);
    FirstIsLowest({SSI}, SSI);
  }
}
