/**
 Trap entry and trap return of a hart in modes U, S and M (RISC-V Privileged Specification, sections
 3.1.6.1, 3.1.8 and 3.3.2). Registers that hold one bit for each cause are sets of bit numbers.
 */
module TrapModel {
  import opened Priv

  datatype Hart = Hart(
    pc: nat, mode: Mode, mstatus: Mstatus,
    mepc: nat, mcause: nat, mtval: nat, mtvec: nat,
    sepc: nat, scause: nat, stval: nat, stvec: nat,
    medeleg: set<nat>, mideleg: set<nat>,
    waiting: bool, woken: bool, reserved: bool)

  const INTERRUPT_FLAG := 0x8000_0000_0000_0000
  const MASK64 := 0x1_0000_0000_0000_0000
  const ILLEGAL_INSTRUCTION := 2
  const MRET_INSTRUCTION := 0x3020_0073
  const SRET_INSTRUCTION := 0x1020_0073

  datatype Cause = Cause(code: nat, interrupt: bool)

  function Encoded(c: Cause): nat {
    c.code + if c.interrupt then INTERRUPT_FLAG else 0
  }

  predicate Delegated(h: Hart, c: Cause) {
    h.mode != M && c.code in (if c.interrupt then h.mideleg else h.medeleg)
  }

  /** Where a trap lands: the base, or the vector of an interrupt when the low bits select vectors. */
  function Landing(tvec: nat, c: Cause): nat {
    if tvec % 4 == 0 || !c.interrupt then tvec - tvec % 4 else tvec - tvec % 4 + 4 * c.code
  }

  /** Vectors keep interrupts apart; exceptions, and everything without vectors, share the aligned base. */
  lemma LandingIs(tvec: nat, c: Cause, d: Cause)
    ensures Landing(tvec, c) % 4 == 0 && Landing(tvec, c) >= tvec - tvec % 4
    ensures Landing(tvec, c) == Landing(tvec, d)
       <==> tvec % 4 == 0 || (if c.interrupt then c.code else 0) == (if d.interrupt then d.code else 0)
  {
  }

  /**
   The whole state at a trap entry. A trap of a mode below M whose cause bit is delegated goes to S, any other to
   M; the pc is the aligned base, plus four times the code for a vectored interrupt; the enable of the level
   entered is off and its old value recorded, and the registers of the other level are as they were.
   */
  lemma EntryIs(h: Hart, c: Cause, tval: nat)
    ensures var e, bits := DeliverTrap(h, c, tval), if c.interrupt then h.mideleg else h.medeleg;
      && e.medeleg == h.medeleg && e.mideleg == h.mideleg && e.mtvec == h.mtvec && e.stvec == h.stvec
      && !e.reserved && !e.waiting && (e.woken <==> h.woken || h.waiting)
      && (h.mode != M && c.code in bits ==>
            && e.mode == S
            && e.pc == h.stvec / 4 * 4 + (if h.stvec % 4 != 0 && c.interrupt then 4 * c.code else 0)
            && e.sepc == h.pc && e.scause == c.code + (if c.interrupt then 0x8000_0000_0000_0000 else 0) && e.stval == tval
            && e.mstatus == h.mstatus.(spie := h.mstatus.sie, sie := false, spp := h.mode == S)
            && e.mepc == h.mepc && e.mcause == h.mcause && e.mtval == h.mtval)
      && (h.mode == M || c.code !in bits ==>
            && e.mode == M
            && e.pc == h.mtvec / 4 * 4 + (if h.mtvec % 4 != 0 && c.interrupt then 4 * c.code else 0)
            && e.mepc == h.pc && e.mcause == c.code + (if c.interrupt then 0x8000_0000_0000_0000 else 0) && e.mtval == tval
            && e.mstatus == h.mstatus.(mpie := h.mstatus.mie, mie := false, mprv := false,
                                       mpp := if h.mode == U then 0 else if h.mode == S then 1 else 3)
            && e.sepc == h.sepc && e.scause == h.scause && e.stval == h.stval)
  {
  }

  /** The whole state after a return; from a mode too low it is a trap for an illegal instruction. */
  lemma ReturnIs(h: Hart)
    ensures h.mode == M ==>
      Mret(h) == h.(pc := h.mepc % 0x1_0000_0000_0000_0000,
                    mode := if h.mstatus.mpp == 0 then U else if h.mstatus.mpp == 1 then S else if h.mstatus.mpp == 3 then M else U,
                    mstatus := h.mstatus.(mie := h.mstatus.mpie, mpie := true, mpp := 0))
    ensures h.mode != M ==> Mret(h) == DeliverTrap(h, Cause(2, false), 0x3020_0073)
    ensures h.mode != U ==>
      Sret(h) == h.(pc := h.sepc % 0x1_0000_0000_0000_0000, mode := if h.mstatus.spp then S else U,
                    mstatus := h.mstatus.(sie := h.mstatus.spie, spie := true, spp := false))
    ensures h.mode == U ==> Sret(h) == DeliverTrap(h, Cause(2, false), 0x1020_0073)
  {
  }

  /** The cause registers tell all causes apart. */
  lemma EncodedInjective(c: Cause, d: Cause)
    requires c.code < INTERRUPT_FLAG && d.code < INTERRUPT_FLAG
    ensures Encoded(c) == Encoded(d) <==> c == d
  {
  }

  function TrapToS(h: Hart, c: Cause, tval: nat): Hart {
    h.(sepc := h.pc, scause := Encoded(c), stval := tval,
       mstatus := h.mstatus.(spie := h.mstatus.sie, sie := false, spp := h.mode == S),
       mode := S, pc := Landing(h.stvec, c))
  }

  function TrapToM(h: Hart, c: Cause, tval: nat): Hart {
    h.(mepc := h.pc, mcause := Encoded(c), mtval := tval,
       mstatus := h.mstatus.(mpie := h.mstatus.mie, mie := false, mpp := Level(h.mode), mprv := false),
       mode := M, pc := Landing(h.mtvec, c))
  }

  /** Every trap drops the load reservation and wakes a waiting hart. */
  function Awake(h: Hart): Hart {
    h.(reserved := false, waiting := false, woken := h.woken || h.waiting)
  }

  function DeliverTrap(h: Hart, c: Cause, tval: nat): Hart {
    if Delegated(h, c) then TrapToS(Awake(h), c, tval) else TrapToM(Awake(h), c, tval)
  }

  function ModeOf(mpp: Bits2): Mode {
    if mpp == 3 then M else if mpp == 1 then S else U
  }

  function Mret(h: Hart): Hart {
    if h.mode != M then DeliverTrap(h, Cause(ILLEGAL_INSTRUCTION, false), MRET_INSTRUCTION)
    else h.(mode := ModeOf(h.mstatus.mpp), mstatus := h.mstatus.(mie := h.mstatus.mpie, mpie := true, mpp := 0),
            pc := h.mepc % MASK64)
  }

  function Sret(h: Hart): Hart {
    if h.mode == U then DeliverTrap(h, Cause(ILLEGAL_INSTRUCTION, false), SRET_INSTRUCTION)
    else h.(mode := if h.mstatus.spp then S else U,
            mstatus := h.mstatus.(sie := h.mstatus.spie, spie := true, spp := false),
            pc := h.sepc % MASK64)
  }

  /** WFI outside M mode traps when TW is set; a hart just woken, or with work at hand, does not wait. */
  function Wfi(h: Hart, instr: nat, workAtHand: bool): Hart {
    if h.mode != M && h.mstatus.tw then DeliverTrap(h, Cause(ILLEGAL_INSTRUCTION, false), instr)
    else if h.woken then h.(woken := false)
    else if workAtHand then h
    else h.(waiting := true, woken := false)
  }

  /**
   Waiting: outside M mode with TW set a trap for an illegal instruction, whatever its encoding `instr`; otherwise
   only `waiting` and `woken` change, and the hart waits exactly when it was not just woken and has no work.
   */
  lemma WaitIs(h: Hart, instr: nat, workAtHand: bool)
    ensures var w := Wfi(h, instr, workAtHand);
      && ((h.mode == U || h.mode == S) && h.mstatus.tw ==> w == DeliverTrap(h, Cause(2, false), instr))
      && (h.mode == M || !h.mstatus.tw ==>
            && w == h.(waiting := w.waiting, woken := false)
            && w.waiting == (h.waiting || (!h.woken && !workAtHand)))
  {
  }

  // ---- one trap and its return ----

  /** The registers a trap to M mode and its return may change, and what they become. */
  lemma MretUndoesTrap(h: Hart, c: Cause, tval: nat)
    requires !Delegated(h, c)
    ensures var r := Mret(DeliverTrap(h, c, tval));
      && r.mode == h.mode && r.pc == h.pc % MASK64
      && r.mstatus == h.mstatus.(mpie := true, mpp := 0, mprv := false)
      && r == h.(pc := r.pc, mstatus := r.mstatus, mepc := h.pc, mcause := Encoded(c), mtval := tval,
                 waiting := false, woken := h.woken || h.waiting, reserved := false)
  {
  }

  lemma SretUndoesTrap(h: Hart, c: Cause, tval: nat)
    requires Delegated(h, c)
    ensures var r := Sret(DeliverTrap(h, c, tval));
      && r.mode == h.mode && r.pc == h.pc % MASK64
      && r.mstatus == h.mstatus.(spie := true, spp := false)
      && r == h.(pc := r.pc, mstatus := r.mstatus, sepc := h.pc, scause := Encoded(c), stval := tval,
                 waiting := false, woken := h.woken || h.waiting, reserved := false)
  {
  }

  // ---- nested traps ----

  /**
   What runs between a trap and its return. Work may leave any registers behind but for those that
   `Worked` protects. A handler that lets its own level be trapped into again has to save its return
   context first and restore it before it returns.
   */
  datatype Item = Work(after: Hart) | Handler(cause: Cause, tval: nat, saves: bool, body: seq<Item>)

  /** The level a trap lands in. */
  function Target(h: Hart, c: Cause): Mode {
    if Delegated(h, c) then S else M
  }

  /**
   A program's own work: it keeps its mode, the delegations, the return registers of both levels, and the
   interrupt enable of any level but its own.
   */
  function Worked(h: Hart, after: Hart): Hart {
    after.(mode := h.mode, medeleg := h.medeleg, mideleg := h.mideleg, mepc := h.mepc, sepc := h.sepc,
           mstatus := after.mstatus.(
             mpie := h.mstatus.mpie, mpp := h.mstatus.mpp, spie := h.mstatus.spie, spp := h.mstatus.spp,
             mie := if h.mode == M then after.mstatus.mie else h.mstatus.mie,
             sie := if h.mode == S then after.mstatus.sie else h.mstatus.sie))
  }

  /** The return context of one level, put back from `saved`. */
  function Restored(h: Hart, saved: Hart, level: Mode): Hart {
    if level == M then h.(mepc := saved.mepc, mstatus := h.mstatus.(mpie := saved.mstatus.mpie, mpp := saved.mstatus.mpp))
    else h.(sepc := saved.sepc, mstatus := h.mstatus.(spie := saved.mstatus.spie, spp := saved.mstatus.spp))
  }

  function Exec(h: Hart, i: Item): Hart
    decreases i, 0
  {
    match i
    case Work(after) => Worked(h, after)
    case Handler(c, tval, saves, body) =>
      var entered := DeliverTrap(h, c, tval);
      var done := ExecAll(entered, body);
      var ready := if saves then Restored(done, entered, Target(h, c)) else done;
      if Target(h, c) == M then Mret(ready) else Sret(ready)
  }

  function ExecAll(h: Hart, items: seq<Item>): Hart
    decreases items, 1
  {
    if items == [] then h else ExecAll(Exec(h, items[0]), items[1..])
  }

  /** `level` is untouched by every handler directly in the list, and every handler inside is disciplined. */
  predicate Disciplined(mode: Mode, medeleg: set<nat>, mideleg: set<nat>, items: seq<Item>, level: Mode, saves: bool)
    decreases items, 1
  {
    forall k | 0 <= k < |items| :: DisciplinedItem(mode, medeleg, mideleg, items[k], level, saves)
  }

  predicate DisciplinedItem(mode: Mode, medeleg: set<nat>, mideleg: set<nat>, i: Item, level: Mode, saves: bool)
    decreases i, 0
  {
    match i
    case Work(_) => true
    case Handler(c, _, inner, body) =>
      var target := if mode != M && c.code in (if c.interrupt then mideleg else medeleg) then S else M;
      (target == level ==> saves) && Disciplined(target, medeleg, mideleg, body, target, inner)
  }

  /** Mode and delegations, and the interrupt enables that the mode of `h` may not touch. */
  predicate SameContext(h: Hart, h': Hart) {
    && h'.mode == h.mode && h'.medeleg == h.medeleg && h'.mideleg == h.mideleg
    && (h.mode != M ==> h'.mstatus.mie == h.mstatus.mie)
    && (h.mode != S ==> h'.mstatus.sie == h.mstatus.sie)
  }

  predicate SameEnables(h: Hart, h': Hart) {
    h'.mstatus.mie == h.mstatus.mie && h'.mstatus.sie == h.mstatus.sie
  }

  /** The return context of `level` is the same in both. */
  predicate SameReturn(h: Hart, h': Hart, level: Mode) {
    if level == M then h'.mepc == h.mepc && h'.mstatus.mpie == h.mstatus.mpie && h'.mstatus.mpp == h.mstatus.mpp
    else h'.sepc == h.sepc && h'.mstatus.spie == h.mstatus.spie && h'.mstatus.spp == h.mstatus.spp
  }

  /** A return puts back what the entry of its level recorded, if the handler left that record and the rest alone. */
  lemma ReturnRestores(h: Hart, c: Cause, tval: nat, ready: Hart)
    requires SameContext(DeliverTrap(h, c, tval), ready) && SameReturn(DeliverTrap(h, c, tval), ready, Target(h, c))
    ensures var r := if Target(h, c) == M then Mret(ready) else Sret(ready);
      && SameContext(h, r) && SameEnables(h, r) && r.pc == h.pc % MASK64
      && (Target(h, c) == M && SameReturn(h, ready, S) ==> SameReturn(h, r, S))
  {
    hide Landing, Encoded;
  }

  /**
   Traps and returns undo each other to any depth: a disciplined handler, with everything it is
   interrupted by, comes back to the mode, the enables and the program counter it was called at. Inside a
   handler of `level` that saves nothing, it also leaves that handler's return context as it was.
   */
  lemma {:induction false} HandlerReturns(h: Hart, i: Item, level: Mode, saves: bool)
    requires DisciplinedItem(h.mode, h.medeleg, h.mideleg, i, level, saves)
    requires saves || (h.mode == level && level != U)
    ensures SameContext(h, Exec(h, i))
    ensures i.Handler? ==> Exec(h, i).pc == h.pc % MASK64 && SameEnables(h, Exec(h, i))
    ensures !saves ==> SameReturn(h, Exec(h, i), level)
    decreases i, 0
  {
    hide Landing, Encoded, Mret, Sret;
    match i
    case Work(_) =>
    case Handler(c, tval, inner, body) =>
      var target := Target(h, c);
      var entered := DeliverTrap(h, c, tval);
      BodyReturns(entered, body, target, inner);
      var done := ExecAll(entered, body);
      ReturnRestores(h, c, tval, if inner then Restored(done, entered, target) else done);
      if !saves {
        BodyInMKeepsS(entered, body, inner);
      }
  }

  lemma {:induction false} BodyReturns(h: Hart, items: seq<Item>, level: Mode, saves: bool)
    requires Disciplined(h.mode, h.medeleg, h.mideleg, items, level, saves)
    requires saves || (h.mode == level && level != U)
    ensures SameContext(h, ExecAll(h, items))
    ensures !saves ==> SameReturn(h, ExecAll(h, items), level)
    decreases items, 1
  {
    hide Exec;
    if items != [] {
      HandlerReturns(h, items[0], level, saves);
      BodyReturns(Exec(h, items[0]), items[1..], level, saves);
    }
  }

  /** Whatever a handler in M mode does, an interrupted handler in S mode still finds its return context. */
  lemma {:induction false} BodyInMKeepsS(h: Hart, items: seq<Item>, saves: bool)
    requires h.mode == M && Disciplined(M, h.medeleg, h.mideleg, items, M, saves)
    ensures SameReturn(h, ExecAll(h, items), S)
    decreases items, 2
  {
    hide Exec;
    if items != [] {
      HandlerReturns(h, items[0], M, saves);
      ItemInMKeepsS(h, items[0], saves);
      BodyInMKeepsS(Exec(h, items[0]), items[1..], saves);
    }
  }

  lemma {:induction false} ItemInMKeepsS(h: Hart, i: Item, saves: bool)
    requires h.mode == M && DisciplinedItem(M, h.medeleg, h.mideleg, i, M, saves)
    ensures SameReturn(h, Exec(h, i), S)
    decreases i, 1
  {
    hide Landing, Encoded;
    match i
    case Work(_) =>
    case Handler(c, tval, inner, body) =>
      var entered := DeliverTrap(h, c, tval);
      BodyReturns(entered, body, M, inner);
      BodyInMKeepsS(entered, body, inner);
  }

  /** A handler that saves what it must resumes the interrupted program, in any mode and at any depth. */
  lemma TrapTreeResumes(h: Hart, c: Cause, tval: nat, saves: bool, body: seq<Item>)
    requires Disciplined(Target(h, c), h.medeleg, h.mideleg, body, Target(h, c), saves)
    ensures var r := Exec(h, Handler(c, tval, saves, body));
      r.mode == h.mode && r.pc == h.pc % MASK64 && r.mstatus.mie == h.mstatus.mie && r.mstatus.sie == h.mstatus.sie
  {
    HandlerReturns(h, Handler(c, tval, saves, body), h.mode, true);
  }

  /** With its context saved, an M-mode handler that works and is trapped into comes back to the program. */
  lemma SavedNestingResumes(h: Hart, c: Cause, d: Cause, after: Hart)
    requires !Delegated(h, c)
    ensures Exec(h, Handler(c, 0, true, [Work(after), Handler(d, 0, false, [])])).pc == h.pc % 0x1_0000_0000_0000_0000
  {
    TrapTreeResumes(h, c, 0, true, [Work(after), Handler(d, 0, false, [])]);
  }

  /** Without saving, a trap inside an M-mode handler loses the way back: the interrupted handler is resumed instead. */
  lemma UnsavedNestingIsLost(h: Hart, c: Cause, d: Cause, after: Hart)
    requires h.mode == U && !Delegated(h, c)
    ensures Exec(h, Handler(c, 0, false, [Work(after), Handler(d, 0, false, [])])).pc == after.pc % MASK64
  {
    var entered := DeliverTrap(h, c, 0);
    var body := [Work(after), Handler(d, 0, false, [])];
    assert body[1..] == [Handler(d, 0, false, [])];
    assert body[1..][1..] == [];
    var working := Worked(entered, after);
    assert Exec(entered, body[0]) == working;
    MretUndoesTrap(working, d, 0);
    assert ExecAll(working, body[1..]) == Exec(working, body[1]);
  }

  // ---- privilege ----

  /** What can happen to a hart. A program may leave anything in any register, but it does not choose its mode. */
  datatype Event =
    | Trap(cause: Cause, tval: nat)
    | ReturnM
    | ReturnS
    | Wait(instr: nat, workAtHand: bool)
    | Program(after: Hart)

  function Step(h: Hart, e: Event): Hart {
    match e
    case Trap(c, tval) => DeliverTrap(h, c, tval)
    case ReturnM => Mret(h)
    case ReturnS => Sret(h)
    case Wait(instr, workAtHand) => Wfi(h, instr, workAtHand)
    case Program(after) => after.(mode := h.mode)
  }

  /** The hart took trap `c`: it is at the entry installed for its new mode, with the way back recorded. */
  predicate Took(h: Hart, h': Hart, c: Cause) {
    if Delegated(h, c) then
      h'.mode == S && h'.pc == Landing(h.stvec, c) && h'.scause == Encoded(c) && h'.sepc == h.pc && h'.mstatus.spp == (h.mode == S)
    else
      h'.mode == M && h'.pc == Landing(h.mtvec, c) && h'.mcause == Encoded(c) && h'.mepc == h.pc && h'.mstatus.mpp == Level(h.mode)
  }

  lemma StepTraps(h: Hart, e: Event) returns (c: Cause)
    requires Level(Step(h, e).mode) > Level(h.mode)
    ensures Took(h, Step(h, e), c)
  {
    hide Landing, Encoded;
    c := if e.Trap? then e.cause else Cause(ILLEGAL_INSTRUCTION, false);
  }

  function RunAll(h: Hart, es: seq<Event>): Hart {
    if es == [] then h else Step(RunAll(h, es[..|es| - 1]), es[|es| - 1])
  }

  ghost predicate TookSome(h: Hart, h': Hart) {
    exists c :: Took(h, h', c)
  }

  /** Step `k` of the run took a trap. */
  ghost predicate TookAt(h: Hart, es: seq<Event>, k: nat)
    requires k < |es|
  {
    TookSome(RunAll(h, es[..k]), RunAll(h, es[..k + 1]))
  }

  /**
   Over any run, whatever programs write to MPP, SPP, the vectors and the delegations on the way, every
   step that raises privilege took a trap and landed on the entry of its new mode.
   */
  lemma RiseIsByTrap(h: Hart, es: seq<Event>, k: nat)
    requires k < |es| && Level(RunAll(h, es[..k + 1]).mode) > Level(RunAll(h, es[..k]).mode)
    ensures TookAt(h, es, k)
  {
    hide Step, Took;
    assert es[..k + 1][..k] == es[..k] && es[..k + 1][k] == es[k];
    var c := StepTraps(RunAll(h, es[..k]), es[k]);
    assert TookSome(RunAll(h, es[..k]), RunAll(h, es[..k + 1]));
  }

  /** The return of the specification, which clears MPRV when it leaves M mode. */
  function StandardMret(h: Hart): Hart
    requires h.mode == M
  {
    h.(mode := ModeOf(h.mstatus.mpp), pc := h.mepc % MASK64,
       mstatus := h.mstatus.(mie := h.mstatus.mpie, mpie := true, mpp := Level(U),
                             mprv := if h.mstatus.mpp == Level(M) then h.mstatus.mprv else false))
  }

  /** The code leaves MPRV as it is. */
  lemma MretMeetsStandardIff(h: Hart)
    requires h.mode == M
    ensures Mret(h) == StandardMret(h) <==> !h.mstatus.mprv || h.mstatus.mpp == Level(M)
  {
  }
}
