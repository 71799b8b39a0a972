/**
 Address translation: the TLB path of the interpreter against a walk on every access.
 */
module Translate {
  import opened Options
  import opened Bits
  import opened Priv
  import opened TlbModel
  import opened Sv39

  datatype Kind = Load | Store | Fetch

  /** What a translation gives: an address, a page fault, or the access fault of a denied walk. */
  datatype Outcome = Address(pa: nat) | PageFault | AccessFault

  // ---- permission ----

  /** The rule of sections 4.3.1 and 4.3.2 for a leaf that is not the reserved "writable, not readable". */
  predicate StandardAllows(level: nat, perm: Perm, ms: Mstatus, kind: Kind) {
    && (level == 0 ==> perm.u)
    && (level == 1 && perm.u ==> kind != Fetch && ms.sum)
    && match kind
       case Fetch => perm.x
       case Load => perm.r || (ms.mxr && perm.x)
       case Store => perm.w
  }

  function CheckPtePerm(level: nat, perm: Perm, ms: Mstatus, kind: Kind): (ok: bool)
    ensures (perm.w ==> perm.r) ==> (ok <==> StandardAllows(level, perm, ms, kind))
    ensures perm.w && !perm.r && kind == Store ==> !ok
  {
    if level == 0 && !perm.u then false
    else if level == 1 && perm.u && (kind == Fetch || !ms.sum) then false
    else if kind == Fetch then perm.x
    else if kind == Store then perm.r && perm.w
    else if !perm.r then ms.mxr && perm.x
    else true
  }

  /** The level loads and stores are checked at; `None` bypasses translation. MPRV lends M mode the level of MPP. */
  function EffectiveLevel(mode: Mode, ms: Mstatus): Option<nat> {
    if mode == M then
      if !ms.mprv || ms.mpp == 3 then None else Some(ms.mpp)
    else Some(Level(mode))
  }

  // ---- the simple form: a walk on every access ----

  datatype VaResult = Mapped(pa: nat, perm: Perm) | Unmapped | WalkDenied

  const BARE := 0
  const SV39 := 8

  function SatpMode(satp: nat): nat { satp / P60 }
  function SatpAsid(satp: nat): nat { satp / P44 % 0x1_0000 }
  function SatpRoot(satp: nat): nat { satp % P44 }

  function TranslateVa(va: nat, satp: nat, read: Reader): VaResult {
    if SatpMode(satp) == BARE then Mapped(va % P64, Perm(true, true, true, false))
    else if SatpMode(satp) == SV39 then
      match Sv39Walk(SatpRoot(satp), va, read)
      case Denied => WalkDenied
      case NoLeaf => Unmapped
      case Leaf(ppn, perm, _) => Mapped((ppn * P12 + va % P12) % P64, perm)
    else Unmapped
  }

  /** Walk and check, with no TLB anywhere. */
  function WalkOutcome(va: nat, satp: nat, level: nat, ms: Mstatus, kind: Kind, read: Reader): Outcome {
    match TranslateVa(va, satp, read)
    case WalkDenied => AccessFault
    case Unmapped => PageFault
    case Mapped(pa, perm) => if CheckPtePerm(level, perm, ms, kind) then Address(pa) else PageFault
  }

  // ---- the fast form ----

  datatype Regs = Regs(satp: nat, mmuMode: nat, mode: Mode, ms: Mstatus, mdid: nat)

  /** A hit is checked against the mode and status of this access. */
  function HitOutcome(va: nat, entry: Mapping, level: nat, ms: Mstatus, kind: Kind): Outcome {
    if CheckPtePerm(level, entry.perm, ms, kind) then Address((entry.ppn * P12 + va % P12) % P64) else PageFault
  }

  /** A miss walks; a page of ordinary memory that passes the check is entered as a 4 KiB translation. */
  function MissStep(p: Policy, t: Tlb, r: Regs, va: nat, level: nat, kind: Kind, read: Reader, device: nat -> bool): (Tlb, Outcome)
    requires |t.slots| >= 1 && t.fifo < |t.slots| && (va / P12 in t.index ==> t.index[va / P12] < |t.slots|)
  {
    var out := WalkOutcome(va, r.satp, level, r.ms, kind, read);
    if out.Address? && !device(out.pa) then
      (Insert(p, t, va / P12, Mapping(out.pa / P12, TranslateVa(va, r.satp, read).perm, 0, r.mdid, SatpAsid(r.satp))), out)
    else (t, out)
  }

  /** `translate_addr`. */
  ghost function TranslateStep(p: Policy, t: Tlb, r: Regs, va: nat, kind: Kind, read: Reader, device: nat -> bool): (Tlb, Outcome)
    requires Inv(t)
  {
    if r.mmuMode == BARE then (t, Address(va % P64))
    else
      match EffectiveLevel(r.mode, r.ms)
      case None => (t, Address(va % P64))
      case Some(level) =>
        LookupIsRead(t, va / P12, SatpAsid(r.satp));
        var (t1, hit) := Lookup(t, va / P12, SatpAsid(r.satp));
        match hit
        case Some(entry) => (t1, HitOutcome(va, entry, level, r.ms, kind))
        case None => MissStep(p, t1, r, va, level, kind, read, device)
  }

  /** The same access when the TLB is switched off. */
  function Fresh(r: Regs, va: nat, kind: Kind, read: Reader): Outcome {
    if r.mmuMode == BARE then Address(va % P64)
    else
      match EffectiveLevel(r.mode, r.ms)
      case None => Address(va % P64)
      case Some(level) => WalkOutcome(va, r.satp, level, r.ms, kind, read)
  }

  // ---- coherence ----

  type Memory = nat -> nat

  function Always(mem: Memory): Reader {
    (a: nat) => Some(mem(a))
  }

  /** `read` returns words of `mem`, where PMP lets it read at all. */
  ghost predicate Reads(read: Reader, mem: Memory) {
    forall a :: read(a) == None || read(a) == Some(mem(a))
  }

  /** What the satp write handler leaves: the mode copied out, and no address space identifier. */
  ghost predicate RegsOk(r: Regs) {
    r.satp < P64 && r.mmuMode == SatpMode(r.satp) && SatpAsid(r.satp) == 0
  }

  /** Every translation held is the one the page tables in `mem` give for its whole page. */
  ghost predicate Coherent(t: Tlb, satp: nat, mem: Memory)
    requires Inv(t)
  {
    forall v | v in Contents(t) ::
      SatpMode(satp) == SV39
      && (var w := Sv39Walk(SatpRoot(satp), v * P12, Always(mem));
          w.Leaf? && w.ppn == Contents(t)[v].ppn && w.perm == Contents(t)[v].perm)
  }

  /** Denials aside, a checked walk is the walk of memory. */
  lemma WalkReads(root: nat, va: nat, read: Reader, mem: Memory)
    requires Reads(read, mem)
    ensures Sv39Walk(root, va, read).Denied? || Sv39Walk(root, va, read) == Sv39Walk(root, va, Always(mem))
  {
    hide Level1Next, Level2Leaf, Level2Next, Level3Leaf, Vpn0, Vpn1, Vpn2;
  }

  lemma PageBase(va: nat)
    ensures va / P12 * P12 / P12 == va / P12
  {
  }

  /** A hit gives what a walk of memory gives, at whatever mode and status it happens. */
  lemma HitIsWalk(t: Tlb, satp: nat, mem: Memory, va: nat, level: nat, ms: Mstatus, kind: Kind)
    requires Inv(t) && Coherent(t, satp, mem) && va / P12 in Contents(t)
    ensures HitOutcome(va, Contents(t)[va / P12], level, ms, kind) == WalkOutcome(va, satp, level, ms, kind, Always(mem))
  {
    hide Sv39Walk, CheckPtePerm;
    PageBase(va);
    SamePage(SatpRoot(satp), va, va / P12 * P12, Always(mem));
  }

  lemma MissKeepsCoherent(p: Policy, t: Tlb, r: Regs, va: nat, level: nat, kind: Kind, read: Reader, mem: Memory, device: nat -> bool)
    requires Inv(t) && Coherent(t, r.satp, mem) && Reads(read, mem) && SatpMode(r.satp) != BARE
    ensures var (t', _) := MissStep(p, t, r, va, level, kind, read, device);
            Inv(t') && Coherent(t', r.satp, mem)
  {
    hide Sv39Walk, CheckPtePerm, Insert;
    var out := WalkOutcome(va, r.satp, level, r.ms, kind, read);
    if out.Address? && !device(out.pa) {
      var entry := Mapping(out.pa / P12, TranslateVa(va, r.satp, read).perm, 0, r.mdid, SatpAsid(r.satp));
      EntryIsWalk(va, r.satp, read, mem);
      InsertIsUpdate(p, t, va / P12, entry);
    }
  }

  /** What a successful walk enters is the translation of its page. */
  lemma EntryIsWalk(va: nat, satp: nat, read: Reader, mem: Memory)
    requires Reads(read, mem) && SatpMode(satp) != BARE && TranslateVa(va, satp, read).Mapped?
    ensures SatpMode(satp) == SV39
    ensures var w := Sv39Walk(SatpRoot(satp), va / P12 * P12, Always(mem));
            w.Leaf? && TranslateVa(va, satp, read).pa / P12 == w.ppn && TranslateVa(va, satp, read).perm == w.perm
  {
    hide Sv39Walk;
    var walk := Sv39Walk(SatpRoot(satp), va, read);
    WalkReads(SatpRoot(satp), va, read, mem);
    PpnBound(SatpRoot(satp), va, read);
    AddressPage(walk.ppn, va);
    PageBase(va);
    SamePage(SatpRoot(satp), va, va / P12 * P12, Always(mem));
  }

  lemma AddressPage(ppn: nat, va: nat)
    requires ppn < P48
    ensures (ppn * P12 + va % P12) % P64 / P12 == ppn
  {
  }

  /**
   While the page tables stay as they are, an access through the TLB has the outcome of a walk: always
   when it misses; when it hits, exactly if PMP would let that walk read the page tables.
   */
  lemma TranslationHit(p: Policy, t: Tlb, r: Regs, va: nat, kind: Kind, read: Reader, mem: Memory, device: nat -> bool)
    requires Inv(t) && RegsOk(r) && Coherent(t, r.satp, mem) && Reads(read, mem)
    requires r.mmuMode != BARE && EffectiveLevel(r.mode, r.ms).Some? && va / P12 in Contents(t)
    ensures var (t', out) := TranslateStep(p, t, r, va, kind, read, device);
            && Inv(t') && Coherent(t', r.satp, mem)
            && (out == Fresh(r, va, kind, read) <==> !Fresh(r, va, kind, read).AccessFault?)
  {
    hide Sv39Walk, CheckPtePerm, Insert, Contents, MissStep;
    var level := EffectiveLevel(r.mode, r.ms).value;
    LookupIsRead(t, va / P12, 0);
    HitIsWalk(t, r.satp, mem, va, level, r.ms, kind);
    WalkReads(SatpRoot(r.satp), va, read, mem);
  }

  lemma TranslationRefinesWalkIff(p: Policy, t: Tlb, r: Regs, va: nat, kind: Kind, read: Reader, mem: Memory, device: nat -> bool)
    requires Inv(t) && RegsOk(r) && Coherent(t, r.satp, mem) && Reads(read, mem)
    ensures var (t', out) := TranslateStep(p, t, r, va, kind, read, device);
            && Inv(t') && Coherent(t', r.satp, mem)
            && var translated := r.mmuMode != BARE && EffectiveLevel(r.mode, r.ms).Some?;
               (out == Fresh(r, va, kind, read) <==> !(translated && va / P12 in Contents(t) && Fresh(r, va, kind, read).AccessFault?))
  {
    hide Sv39Walk, CheckPtePerm, Insert, Contents, WalkOutcome, HitOutcome;
    if r.mmuMode != BARE && EffectiveLevel(r.mode, r.ms).Some? {
      var level := EffectiveLevel(r.mode, r.ms).value;
      if va / P12 in Contents(t) {
        TranslationHit(p, t, r, va, kind, read, mem, device);
      } else {
        LookupIsRead(t, va / P12, 0);
        var t1 := Lookup(t, va / P12, 0).0;
        MissKeepsCoherent(p, t1, r, va, level, kind, read, mem, device);
      }
    }
  }

  // ---- instruction fetch ----

  /** The itlb path: what the walk finds is entered before the permission check. */
  ghost function FetchStep(p: Policy, t: Tlb, r: Regs, va: nat, read: Reader, device: nat -> bool): (Tlb, Outcome)
    requires Inv(t)
  {
    if r.mmuMode == BARE || r.mode == M then (t, Address(va % P64))
    else
      LookupIsRead(t, va / P12, SatpAsid(r.satp));
      var (t1, hit) := Lookup(t, va / P12, SatpAsid(r.satp));
      match hit
      case Some(entry) => (t1, HitOutcome(va, entry, Level(r.mode), r.ms, Fetch))
      case None => FetchMiss(p, t1, r, va, read, device)
  }

  function FetchMiss(p: Policy, t: Tlb, r: Regs, va: nat, read: Reader, device: nat -> bool): (Tlb, Outcome)
    requires |t.slots| >= 1 && t.fifo < |t.slots| && (va / P12 in t.index ==> t.index[va / P12] < |t.slots|)
  {
    match TranslateVa(va, r.satp, read)
    case WalkDenied => (t, AccessFault)
    case Unmapped => (t, PageFault)
    case Mapped(pa, perm) =>
      (if device(pa) then t else Insert(p, t, va / P12, Mapping(pa / P12, perm, 0, r.mdid, SatpAsid(r.satp))),
       if CheckPtePerm(Level(r.mode), perm, r.ms, Fetch) then Address(pa) else PageFault)
  }

  function FreshFetch(r: Regs, va: nat, read: Reader): Outcome {
    if r.mmuMode == BARE || r.mode == M then Address(va % P64)
    else WalkOutcome(va, r.satp, Level(r.mode), r.ms, Fetch, read)
  }

  lemma FetchMissKeepsCoherent(p: Policy, t: Tlb, r: Regs, va: nat, read: Reader, mem: Memory, device: nat -> bool)
    requires Inv(t) && Coherent(t, r.satp, mem) && Reads(read, mem) && SatpMode(r.satp) != BARE
    ensures var (t', out) := FetchMiss(p, t, r, va, read, device);
            Inv(t') && Coherent(t', r.satp, mem) && out == WalkOutcome(va, r.satp, Level(r.mode), r.ms, Fetch, read)
  {
    hide Sv39Walk, CheckPtePerm, Insert;
    var w := TranslateVa(va, r.satp, read);
    if w.Mapped? && !device(w.pa) {
      EntryIsWalk(va, r.satp, read, mem);
      InsertIsUpdate(p, t, va / P12, Mapping(w.pa / P12, w.perm, 0, r.mdid, SatpAsid(r.satp)));
    }
  }

  /** The same refinement for fetches. */
  lemma FetchRefinesWalkIff(p: Policy, t: Tlb, r: Regs, va: nat, read: Reader, mem: Memory, device: nat -> bool)
    requires Inv(t) && RegsOk(r) && Coherent(t, r.satp, mem) && Reads(read, mem)
    ensures var (t', out) := FetchStep(p, t, r, va, read, device);
            && Inv(t') && Coherent(t', r.satp, mem)
            && (out == FreshFetch(r, va, read)
                <==> !(r.mmuMode != BARE && r.mode != M && va / P12 in Contents(t) && FreshFetch(r, va, read).AccessFault?))
  {
    hide Sv39Walk, CheckPtePerm, FetchMiss, Contents;
    if r.mmuMode != BARE && r.mode != M {
      LookupIsRead(t, va / P12, 0);
      if va / P12 in Contents(t) {
        HitIsWalk(t, r.satp, mem, va, Level(r.mode), r.ms, Fetch);
        WalkReads(SatpRoot(r.satp), va, read, mem);
      } else {
        FetchMissKeepsCoherent(p, Lookup(t, va / P12, 0).0, r, va, read, mem, device);
      }
    }
  }

  /** While the mode field is 0 every address is its own, with R, W and X; a mode but 0 and 8 maps nothing. */
  lemma OtherModes(va: nat, satp: nat, read: Reader)
    ensures satp / 0x1000_0000_0000_0000 == 0
            ==> TranslateVa(va, satp, read) == Mapped(va % 0x1_0000_0000_0000_0000, Perm(true, true, true, false))
    ensures satp / 0x1000_0000_0000_0000 !in {0, 8} ==> TranslateVa(va, satp, read) == Unmapped
  {
  }

  // ---- the outcome from the registers alone ----

  /** The outcome at a level: of the translation held, or of a walk. */
  ghost function OutcomeAt(t: Tlb, r: Regs, va: nat, level: nat, kind: Kind, read: Reader): Outcome
    requires Inv(t)
  {
    if va / P12 in Contents(t) && AsidMatches(Contents(t)[va / P12], SatpAsid(r.satp))
    then HitOutcome(va, Contents(t)[va / P12], level, r.ms, kind)
    else WalkOutcome(va, r.satp, level, r.ms, kind, read)
  }

  /**
   U mode is checked at level 0, S mode at level 1, and M mode with MPRV set at the level in MPP, unless that
   is M again. Any other access of M mode goes untranslated, as does every access while the mode field is 0.
   */
  lemma AccessLevel(p: Policy, t: Tlb, r: Regs, va: nat, kind: Kind, read: Reader, device: nat -> bool)
    requires Inv(t)
    ensures r.mmuMode == 0 || (r.mode == M && (!r.ms.mprv || r.ms.mpp == 3)) ==>
              && TranslateStep(p, t, r, va, kind, read, device) == (t, Address(va % 0x1_0000_0000_0000_0000))
              && Fresh(r, va, kind, read) == Address(va % 0x1_0000_0000_0000_0000)
    ensures r.mmuMode != 0 && r.mode == U ==>
              && TranslateStep(p, t, r, va, kind, read, device).1 == OutcomeAt(t, r, va, 0, kind, read)
              && Fresh(r, va, kind, read) == WalkOutcome(va, r.satp, 0, r.ms, kind, read)
    ensures r.mmuMode != 0 && r.mode == S ==>
              && TranslateStep(p, t, r, va, kind, read, device).1 == OutcomeAt(t, r, va, 1, kind, read)
              && Fresh(r, va, kind, read) == WalkOutcome(va, r.satp, 1, r.ms, kind, read)
    ensures r.mmuMode != 0 && r.mode == M && r.ms.mprv && r.ms.mpp != 3 ==>
              && TranslateStep(p, t, r, va, kind, read, device).1 == OutcomeAt(t, r, va, r.ms.mpp, kind, read)
              && Fresh(r, va, kind, read) == WalkOutcome(va, r.satp, r.ms.mpp, r.ms, kind, read)
  {
    hide WalkOutcome, HitOutcome, Insert, Contents, Inv;
    LookupIsRead(t, va / P12, SatpAsid(r.satp));
  }

  /** Fetches go by the mode alone. */
  lemma FetchLevel(p: Policy, t: Tlb, r: Regs, va: nat, read: Reader, device: nat -> bool)
    requires Inv(t)
    ensures r.mmuMode == 0 || r.mode == M ==>
              && FetchStep(p, t, r, va, read, device) == (t, Address(va % 0x1_0000_0000_0000_0000))
              && FreshFetch(r, va, read) == Address(va % 0x1_0000_0000_0000_0000)
    ensures r.mmuMode != 0 && r.mode != M ==>
              var level := if r.mode == U then 0 else 1;
              && FetchStep(p, t, r, va, read, device).1 == OutcomeAt(t, r, va, level, Fetch, read)
              && FreshFetch(r, va, read) == WalkOutcome(va, r.satp, level, r.ms, Fetch, read)
  {
    hide Sv39Walk, HitOutcome, CheckPtePerm, Insert, Contents, Inv;
    LookupIsRead(t, va / P12, SatpAsid(r.satp));
  }

  /** The outcome by the specification, from satp, mode and mstatus: sections 3.1.6.3 and 4.3.2. */
  function StandardOutcome(r: Regs, va: nat, kind: Kind, read: Reader): Outcome {
    if r.satp / 0x1000_0000_0000_0000 == 0 || (r.mode == M && (kind == Fetch || !r.ms.mprv || r.ms.mpp == 3)) then
      Address(va % 0x1_0000_0000_0000_0000)
    else
      match StandardTranslation(r.satp % 0x1000_0000_0000, va, read)
      case Denied => AccessFault
      case NoLeaf => PageFault
      case Leaf(ppn, perm, _) =>
        var level := if r.mode == M then r.ms.mpp else if r.mode == S then 1 else 0;
        if StandardAllows(level, perm, r.ms, kind) then Address(ppn * 0x1000 + va % 0x1000) else PageFault
  }

  /** The walk meets the standard at this address, and the leaf it ends in is not "writable, not readable". */
  ghost predicate Regular(r: Regs, va: nat, read: Reader) {
    && Canonical(va) && Sound1(SatpRoot(r.satp), va, read)
    && var w := Sv39Walk(SatpRoot(r.satp), va, read);
       (w.Leaf? && w.perm.w ==> w.perm.r)
  }

  /** Without TLBs, an access has the outcome of the specification wherever the walk does. */
  lemma FreshMeetsStandard(r: Regs, va: nat, kind: Kind, read: Reader)
    requires RegsOk(r) && Regular(r, va, read) && (r.mmuMode == 0 || r.mmuMode == 8)
    ensures kind != Fetch ==> Fresh(r, va, kind, read) == StandardOutcome(r, va, kind, read)
    ensures FreshFetch(r, va, read) == StandardOutcome(r, va, Fetch, read)
  {
    hide Sv39Walk, StandardTranslation, Sound1, Canonical;
    WalkMeetsStandardIff(SatpRoot(r.satp), va, read);
    PpnBound(SatpRoot(r.satp), va, read);
    var w := Sv39Walk(SatpRoot(r.satp), va, read);
    if w.Leaf? {
      assert w.ppn * P12 + va % P12 < P64;
    }
  }

  /**
   A 4 KiB page under tables 1, 2 and 3, whatever its flags: what each access to page 0 of it gives in S mode
   with SUM and MXR clear, and in U mode.
   */
  lemma FlagVerdicts(r: Regs, va: nat, p: Perm, kind: Kind)
    requires va < 0x1000 && r.satp == 0x8000_0000_0000_0001 && r.mmuMode == 8
    requires r.mode != M && !r.ms.sum && !r.ms.mxr && (p.r || p.x)
    ensures var leaf := 0x1401 + (if p.r then 2 else 0) + (if p.w then 4 else 0) + (if p.x then 8 else 0) + if p.u then 16 else 0;
      var read, granted := ThreeTables(0x801, 0xC01, leaf), Address(0x5000 + va);
      && (Fresh(r, va, Load, read) == if p.u == (r.mode == U) && p.r then granted else PageFault)
      && (Fresh(r, va, Store, read) == if p.u == (r.mode == U) && p.r && p.w then granted else PageFault)
      && (FreshFetch(r, va, read) == if p.u == (r.mode == U) && p.x then granted else PageFault)
  {
    hide Sv39Walk;
    TablesMapFlags(va, p);
  }

  /** Through the TLB too, while it is coherent with the page tables and PMP lets walks read them. */
  lemma AccessMeetsStandard(p: Policy, t: Tlb, r: Regs, va: nat, kind: Kind, read: Reader, mem: Memory, device: nat -> bool)
    requires Inv(t) && RegsOk(r) && Coherent(t, r.satp, mem) && Reads(read, mem)
    requires Regular(r, va, read) && (r.mmuMode == 0 || r.mmuMode == 8)
    ensures kind != Fetch && !Fresh(r, va, kind, read).AccessFault?
            ==> TranslateStep(p, t, r, va, kind, read, device).1 == StandardOutcome(r, va, kind, read)
    ensures !FreshFetch(r, va, read).AccessFault?
            ==> FetchStep(p, t, r, va, read, device).1 == StandardOutcome(r, va, Fetch, read)
  {
    hide *;
    FreshMeetsStandard(r, va, kind, read);
    TranslationRefinesWalkIff(p, t, r, va, kind, read, mem, device);
    FetchRefinesWalkIff(p, t, r, va, read, mem, device);
  }

  /** The page of a device is never entered; any other page is entered only by an access that found it mapped. */
  lemma DevicePagesAreNotHeld(p: Policy, t: Tlb, r: Regs, va: nat, kind: Kind, read: Reader, device: nat -> bool, v: Vpn)
    requires Inv(t)
    ensures Inv(TranslateStep(p, t, r, va, kind, read, device).0) && Inv(FetchStep(p, t, r, va, read, device).0)
    ensures v !in Contents(t) && v in Contents(TranslateStep(p, t, r, va, kind, read, device).0) ==>
              && v == va / 0x1000
              && var out := TranslateStep(p, t, r, va, kind, read, device).1; out.Address? && !device(out.pa)
    ensures v !in Contents(t) && v in Contents(FetchStep(p, t, r, va, read, device).0) ==>
              && v == va / 0x1000
              && var w := TranslateVa(va, r.satp, read); w.Mapped? && !device(w.pa)
  {
    hide TranslateVa, CheckPtePerm, Insert, Contents, HitOutcome;
    var asid := SatpAsid(r.satp);
    LookupIsRead(t, va / P12, asid);
    var t1, w := Lookup(t, va / P12, asid).0, TranslateVa(va, r.satp, read);
    hide Inv;
    if w.Mapped? {
      forall entry: Mapping
        ensures Inv(Insert(p, t1, va / P12, entry))
        ensures v in Contents(Insert(p, t1, va / P12, entry)) ==> v == va / P12 || v in Contents(t)
      {
        InsertAdds(p, t1, va / P12, entry, v);
      }
    }
  }

  lemma InsertAdds(p: Policy, t: Tlb, vpn: Vpn, entry: Mapping, v: Vpn)
    requires Inv(t)
    ensures Inv(Insert(p, t, vpn, entry))
    ensures v in Contents(Insert(p, t, vpn, entry)) ==> v == vpn || v in Contents(t)
  {
    hide Insert, Inv, Contents;
    InsertIsUpdate(p, t, vpn, entry);
  }

  // ---- satp ----

  /** The satp write handler clears the identifier field and copies the mode out. */
  function SatpWritten(r: Regs, v: nat): Regs {
    var cleared := v / P60 * P60 + v % P44;
    r.(satp := cleared % P64, mmuMode := v / P60 % 16)
  }

  lemma SatpWrittenOk(r: Regs, v: nat)
    ensures RegsOk(SatpWritten(r, v))
    ensures SatpWritten(r, v).satp % 0x1000_0000_0000 == v % 0x1000_0000_0000
    ensures SatpWritten(r, v).mmuMode == SatpWritten(r, v).satp / 0x1000_0000_0000_0000 == v / 0x1000_0000_0000_0000 % 16
    ensures SatpWritten(r, v) == r.(satp := SatpWritten(r, v).satp, mmuMode := SatpWritten(r, v).mmuMode)
  {
    var q, low := v / P60, v % P44;
    assert q == q / 16 * 16 + q % 16;
    var satp := SatpWritten(r, v).satp;
    assert satp == q % 16 * P60 + low by {
      assert q * P60 + low == q / 16 * P64 + (q % 16 * P60 + low);
    }
  }

  // ---- accesses of several bytes ----

  /**
   An access that passed the alignment check lies in one page, so one translation serves all its bytes
   and the split of an access over two pages is never taken.
   */
  lemma AlignedStaysInPage(addr: nat, k: nat, i: nat)
    requires k <= 12 && BitAnd(addr, Pow2(k) - 1) == 0
    ensures addr % P12 + Pow2(k) <= P12
    ensures i < Pow2(k) ==> (addr + i) / P12 == addr / P12
  {
    hide Pow2;
    MaskIsRemainder(addr, k);
    PowerSum(k, 12 - k);
    TwelfthPower();
    AlignedRoom(addr, Pow2(k), Pow2(12 - k));
  }

  lemma TwelfthPower()
    ensures Pow2(12) == P12
  {
    PowerSum(6, 6);
  }

  lemma AlignedRoom(addr: nat, p: nat, n: nat)
    requires p > 0 && n > 0 && p * n == P12 && addr % p == 0
    ensures addr % P12 + p <= P12
  {
    var b, q := addr / p, addr / P12;
    var m := b - n * q;
    assert addr == p * b;
    MulAssociate(p, n, q);
    MulDistribute(p, n * q, m);
    assert addr % P12 == p * m;
    if m >= n {
      MulMonotone(p, n, m);
    }
    MulMonotone(p, m + 1, n);
    MulDistribute(p, m, 1);
  }

  // ---- runs ----

  datatype Core = Core(dtlb: Tlb, itlb: Tlb, regs: Regs)

  datatype Event =
    | Access(va: nat, kind: Kind, read: Reader, device: nat -> bool)
    | FetchAt(va: nat, fread: Reader, fdevice: nat -> bool)
    | Enter(mode: Mode, ms: Mstatus)
    | EnterDomain(mdid: nat)
    | WriteSatp(satp: nat)
    | SfencePage(vpn: Vpn)
    | SfenceAll
    | FenceDid(did: nat)
    | Remap(tables: Memory)
    | RemapPage(page: Vpn, ptables: Memory)

  ghost predicate CoreInv(c: Core, mem: Memory) {
    Inv(c.dtlb) && Inv(c.itlb) && RegsOk(c.regs) && Coherent(c.dtlb, c.regs.satp, mem) && Coherent(c.itlb, c.regs.satp, mem)
  }

  /** Only the translation of one page differs between two sets of page tables. */
  ghost predicate SameElsewhere(satp: nat, page: Vpn, mem: Memory, mem': Memory) {
    forall v: Vpn | v != page :: Sv39Walk(SatpRoot(satp), v * P12, Always(mem')) == Sv39Walk(SatpRoot(satp), v * P12, Always(mem))
  }

  /**
   Accesses read the current page tables and PMP lets a walk read them. `Remap` is a change of any page
   tables followed by a flush of everything; `RemapPage` is a change for one page followed by its flush.
   */
  ghost predicate EventOk(r: Regs, mem: Memory, e: Event) {
    match e
    case Access(va, kind, read, _) => Reads(read, mem) && !Fresh(r, va, kind, read).AccessFault?
    case FetchAt(va, read, _) => Reads(read, mem) && !FreshFetch(r, va, read).AccessFault?
    case RemapPage(page, mem') => SameElsewhere(r.satp, page, mem, mem')
    case _ => true
  }

  ghost function Step(p: Policy, c: Core, e: Event): (Core, seq<Outcome>)
    requires Inv(c.dtlb) && Inv(c.itlb)
  {
    match e
    case Access(va, kind, read, device) =>
      var (t, out) := TranslateStep(p, c.dtlb, c.regs, va, kind, read, device);
      (c.(dtlb := t), [out])
    case FetchAt(va, read, device) =>
      var (t, out) := FetchStep(p, c.itlb, c.regs, va, read, device);
      (c.(itlb := t), [out])
    case Enter(mode, ms) => (c.(regs := c.regs.(mode := mode, ms := ms)), [])
    case EnterDomain(mdid) => (c.(regs := c.regs.(mdid := mdid)), [])
    case WriteSatp(v) => (Core(FlushAll(c.dtlb), FlushAll(c.itlb), SatpWritten(c.regs, v)), [])
    case SfencePage(vpn) => (c.(dtlb := Flush(c.dtlb, vpn), itlb := Flush(c.itlb, vpn)), [])
    case SfenceAll => (c.(dtlb := FlushAll(c.dtlb), itlb := FlushAll(c.itlb)), [])
    case FenceDid(did) => (c.(dtlb := DropDomain(c.dtlb, did, 0), itlb := DropDomain(c.itlb, did, 0)), [])
    case Remap(_) => (c.(dtlb := FlushAll(c.dtlb), itlb := FlushAll(c.itlb)), [])
    case RemapPage(page, _) => (c.(dtlb := Flush(c.dtlb, page), itlb := Flush(c.itlb, page)), [])
  }

  /** The same event for a core without TLBs: only registers and page tables. */
  function WalkStep(r: Regs, e: Event): (Regs, seq<Outcome>) {
    match e
    case Access(va, kind, read, _) => (r, [Fresh(r, va, kind, read)])
    case FetchAt(va, read, _) => (r, [FreshFetch(r, va, read)])
    case Enter(mode, ms) => (r.(mode := mode, ms := ms), [])
    case EnterDomain(mdid) => (r.(mdid := mdid), [])
    case WriteSatp(v) => (SatpWritten(r, v), [])
    case _ => (r, [])
  }

  function Tables(mem: Memory, e: Event): Memory {
    match e
    case Remap(mem') => mem'
    case RemapPage(_, mem') => mem'
    case _ => mem
  }

  // ---- what a fence for one page restores ----

  /** A page is mapped to the same frame with the same permission by both page tables. */
  ghost predicate SameMapping(satp: nat, v: Vpn, mem: Memory, mem': Memory) {
    var w, w' := Sv39Walk(SatpRoot(satp), v * P12, Always(mem)), Sv39Walk(SatpRoot(satp), v * P12, Always(mem'));
    w.Leaf? && w'.Leaf? && w.ppn == w'.ppn && w.perm == w'.perm
  }

  /**
   After the page tables have changed in any way, a fence for one page makes the TLB coherent again exactly
   when the change left every other page that is held mapped as it was, or the page is page zero.
   */
  lemma PageFenceRestoresIff(t: Tlb, satp: nat, page: Vpn, mem: Memory, mem': Memory)
    requires Inv(t) && Coherent(t, satp, mem)
    ensures Inv(Flush(t, page))
    ensures Coherent(Flush(t, page), satp, mem')
       <==> page == 0 || forall v | v in Contents(t) && v != page :: SameMapping(satp, v, mem, mem')
  {
    hide Sv39Walk;
    FlushIsRemoval(t, page);
    var t' := Flush(t, page);
    if page != 0 && Coherent(t', satp, mem') {
      forall v | v in Contents(t) && v != page
        ensures SameMapping(satp, v, mem, mem')
      {
        assert v in Contents(t');
      }
    }
  }

  /**
   A 2 MiB leaf is held as 4 KiB entries, and a fence for one address drops one of them: when the leaf has
   moved or changed its permission, any other of its pages that is held keeps its old translation.
   */
  lemma SuperpageSiblingIsStale(t: Tlb, satp: nat, page: Vpn, sibling: Vpn, mem: Memory, mem': Memory)
    requires Inv(t) && Coherent(t, satp, mem)
    requires page != 0 && sibling != page && sibling / P9 == page / P9 && sibling in Contents(t)
    requires var w, w' := Sv39Walk(SatpRoot(satp), page * P12, Always(mem)), Sv39Walk(SatpRoot(satp), page * P12, Always(mem'));
      w.Leaf? && w.superpage && w'.Leaf? && w'.superpage && (w.ppn / P9 != w'.ppn / P9 || w.perm != w'.perm)
    ensures Inv(Flush(t, page)) && !Coherent(Flush(t, page), satp, mem')
    ensures sibling in Contents(Flush(t, page)) && Contents(Flush(t, page))[sibling] == Contents(t)[sibling]
  {
    hide Sv39Walk, Inv, Flush, Contents;
    FlushIsRemoval(t, page);
    SuperpageIsUniform(SatpRoot(satp), page, sibling, Always(mem));
    SuperpageIsUniform(SatpRoot(satp), page, sibling, Always(mem'));
    PageFenceRestoresIff(t, satp, page, mem, mem');
  }

  lemma FlushedCoherent(t: Tlb, satp: nat, vpn: Vpn, mem: Memory, mem': Memory)
    requires Inv(t)
    ensures Inv(FlushAll(t)) && Coherent(FlushAll(t), satp, mem')
    ensures Inv(Flush(t, vpn))
    ensures Coherent(t, satp, mem) && SameElsewhere(satp, vpn, mem, mem') ==> Coherent(Flush(t, vpn), satp, mem')
  {
    hide Sv39Walk;
    FlushIsRemoval(t, vpn);
  }

  /** What the fences and a satp write leave in both TLBs, page by page. */
  lemma FencesAre(p: Policy, c: Core, v: Vpn, page: Vpn, did: nat, value: nat)
    requires Inv(c.dtlb) && Inv(c.itlb)
    ensures var s := Step(p, c, SfencePage(page)).0;
      && Inv(s.dtlb) && Inv(s.itlb) && s.regs == c.regs
      && (v in Contents(s.dtlb) <==> v in Contents(c.dtlb) && page != 0 && v != page)
      && (v in Contents(s.itlb) <==> v in Contents(c.itlb) && page != 0 && v != page)
    ensures var s := Step(p, c, SfenceAll).0;
      Inv(s.dtlb) && Inv(s.itlb) && s.regs == c.regs && Contents(s.dtlb) == map[] && Contents(s.itlb) == map[]
    ensures var s := Step(p, c, FenceDid(did)).0;
      && Inv(s.dtlb) && Inv(s.itlb) && s.regs == c.regs
      && (v in Contents(s.dtlb) <==> v in Contents(c.dtlb) && Contents(c.dtlb)[v].mdid != did)
      && (v in Contents(s.itlb) <==> v in Contents(c.itlb) && Contents(c.itlb)[v].mdid != did)
    ensures var s := Step(p, c, WriteSatp(value)).0;
      Inv(s.dtlb) && Inv(s.itlb) && Contents(s.dtlb) == map[] && Contents(s.itlb) == map[]
  {
    hide Contents, Inv, TranslateStep, FetchStep, SatpWritten;
    FlushIsRemoval(c.dtlb, page);
    FlushIsRemoval(c.itlb, page);
    DropDomainIsRemoval(c.dtlb, did, 0);
    DropDomainIsRemoval(c.itlb, did, 0);
  }

  /** A satp write makes the TLBs coherent with any page tables, whatever they held before. */
  lemma SatpWriteRestores(p: Policy, c: Core, v: nat, mem: Memory)
    requires Inv(c.dtlb) && Inv(c.itlb)
    ensures CoreInv(Step(p, c, WriteSatp(v)).0, mem)
  {
    hide Coherent, FlushAll;
    SatpWrittenOk(c.regs, v);
    FlushedCoherent(c.dtlb, SatpWritten(c.regs, v).satp, 0, mem, mem);
    FlushedCoherent(c.itlb, SatpWritten(c.regs, v).satp, 0, mem, mem);
  }

  /** Every event keeps the TLBs coherent, and is answered as by a core without TLBs. */
  lemma StepRefinesWalk(p: Policy, c: Core, mem: Memory, e: Event)
    requires CoreInv(c, mem) && EventOk(c.regs, mem, e)
    ensures CoreInv(Step(p, c, e).0, Tables(mem, e))
    ensures (Step(p, c, e).0.regs, Step(p, c, e).1) == WalkStep(c.regs, e)
  {
    hide Coherent, TranslateStep, FetchStep, Fresh, FreshFetch;
    match e
    case Access(va, kind, read, device) => TranslationRefinesWalkIff(p, c.dtlb, c.regs, va, kind, read, mem, device);
    case FetchAt(va, read, device) => FetchRefinesWalkIff(p, c.itlb, c.regs, va, read, mem, device);
    case Enter(mode, ms) =>
    case EnterDomain(mdid) =>
    case WriteSatp(v) => SatpWriteRestores(p, c, v, mem);
    case SfencePage(vpn) =>
      FlushedCoherent(c.dtlb, c.regs.satp, vpn, mem, mem);
      FlushedCoherent(c.itlb, c.regs.satp, vpn, mem, mem);
    case SfenceAll =>
      FlushedCoherent(c.dtlb, c.regs.satp, 0, mem, mem);
      FlushedCoherent(c.itlb, c.regs.satp, 0, mem, mem);
    case FenceDid(did) =>
      DroppedCoherent(c.dtlb, c.regs.satp, did, mem);
      DroppedCoherent(c.itlb, c.regs.satp, did, mem);
    case Remap(mem') =>
      FlushedCoherent(c.dtlb, c.regs.satp, 0, mem, mem');
      FlushedCoherent(c.itlb, c.regs.satp, 0, mem, mem');
    case RemapPage(page, mem') =>
      FlushedCoherent(c.dtlb, c.regs.satp, page, mem, mem');
      FlushedCoherent(c.itlb, c.regs.satp, page, mem, mem');
  }

  lemma DroppedCoherent(t: Tlb, satp: nat, mdid: nat, mem: Memory)
    requires Inv(t) && Coherent(t, satp, mem)
    ensures Inv(DropDomain(t, mdid, 0)) && Coherent(DropDomain(t, mdid, 0), satp, mem)
  {
    hide Sv39Walk;
    DropDomainIsRemoval(t, mdid, 0);
  }

  ghost predicate RunOk(r: Regs, mem: Memory, es: seq<Event>)
    decreases |es|
  {
    es == [] || (EventOk(r, mem, es[0]) && RunOk(WalkStep(r, es[0]).0, Tables(mem, es[0]), es[1..]))
  }

  ghost function Run(p: Policy, c: Core, mem: Memory, es: seq<Event>): (Core, seq<Outcome>)
    requires CoreInv(c, mem) && RunOk(c.regs, mem, es)
    decreases |es|
  {
    if es == [] then (c, [])
    else
      StepRefinesWalk(p, c, mem, es[0]);
      var (c', out) := Step(p, c, es[0]);
      var rest := Run(p, c', Tables(mem, es[0]), es[1..]);
      (rest.0, out + rest.1)
  }

  function WalkRun(r: Regs, es: seq<Event>): (Regs, seq<Outcome>)
    decreases |es|
  {
    if es == [] then (r, [])
    else
      var (r', out) := WalkStep(r, es[0]);
      var rest := WalkRun(r', es[1..]);
      (rest.0, out + rest.1)
  }

  /**
   Over any run, with modes, status, satp and page tables changing on the way, every access and fetch has
   the outcome it would have with the TLBs switched off.
   */
  lemma {:induction false} RunRefinesWalk(p: Policy, c: Core, mem: Memory, es: seq<Event>)
    requires CoreInv(c, mem) && RunOk(c.regs, mem, es)
    ensures Run(p, c, mem, es).1 == WalkRun(c.regs, es).1
    decreases |es|
  {
    if es != [] {
      StepRefinesWalk(p, c, mem, es[0]);
      RunRefinesWalk(p, Step(p, c, es[0]).0, Tables(mem, es[0]), es[1..]);
    }
  }
}
