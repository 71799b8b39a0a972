/**
 The protection decision: which entry matches an access, what it permits, and what the enclave split
 leaves out of sight.
 */
module PmpDecision {
  import opened Priv
  import opened PmpModel

  datatype Mode4 = Off | Tor | Na4 | Napot

  /** The fields of an 8-bit entry configuration that the decision reads. */
  function AMode(cfg: nat): Mode4 {
    match cfg / 8 % 4
    case 0 => Off
    case 1 => Tor
    case 2 => Na4
    case _ => Napot
  }

  predicate R(cfg: nat) { cfg % 2 == 1 }

  predicate W(cfg: nat) { cfg / 2 % 2 == 1 }

  predicate X(cfg: nat) { cfg / 4 % 2 == 1 }

  datatype Entry = Entry(cfg: nat, addr: nat)

  /** The entries as the decision sees them, with registers that do not exist reading as zero. */
  type Entries = seq<Entry>

  datatype Access = Access(pa: nat, size: nat, write: bool, execute: bool)

  /** A physical access that does not run past the end of the address space. */
  predicate NoWrap(a: Access) {
    a.size >= 1 && a.pa + a.size <= MASK64
  }

  // ---- matching ----

  function TorRange(prev: nat, cur: nat): Region {
    Region(prev * 4, cur * 4 - prev * 4)
  }

  function RangeOf(es: Entries, i: nat): Region
    requires i < |es|
  {
    match AMode(es[i].cfg)
    case Off => Region(0, 0)
    case Tor => TorRange(if i == 0 then 0 else es[i - 1].addr, es[i].addr)
    case Na4 => Region(es[i].addr * 4, 4)
    case Napot => DecodeNapot(es[i].addr)
  }

  /** The comparison of first and last byte, both reduced to 64 bits. */
  predicate InRange(a: Access, r: Region) {
    r.size != 0 && a.pa >= r.base && (a.pa + a.size - 1) % MASK64 <= (r.base + r.size - 1) % MASK64
  }

  predicate Matches(es: Entries, i: nat, a: Access)
    requires i < |es|
  {
    AMode(es[i].cfg) != Off && InRange(a, RangeOf(es, i))
  }

  /** Every byte of the access is in the region. */
  predicate Contains(r: Region, a: Access) {
    r.base <= a.pa && a.pa + a.size <= r.base + r.size
  }

  /** Some byte of the access is in the region. */
  predicate Overlaps(r: Region, a: Access) {
    r.size > 0 && a.pa < r.base + r.size && r.base < a.pa + a.size
  }

  predicate Covers(base: int, size: int, b: int) {
    base <= b < base + size
  }

  /** The two in terms of single bytes. */
  lemma ByBytes(r: Region, a: Access)
    requires a.size >= 1
    ensures Contains(r, a) <==> forall b :: Covers(a.pa, a.size, b) ==> Covers(r.base, r.size, b)
    ensures Overlaps(r, a) <==> exists b :: Covers(a.pa, a.size, b) && Covers(r.base, r.size, b)
  {
    var later := if r.base < a.pa then a.pa else r.base;
    assert Covers(a.pa, a.size, a.pa) && Covers(a.pa, a.size, a.pa + a.size - 1);
    assert Overlaps(r, a) ==> Covers(a.pa, a.size, later) && Covers(r.base, r.size, later);
  }

  /** A TOR region whose last byte wraps when it is reduced to 64 bits. */
  predicate Wraps(r: Region) {
    && r.base < MASK64
    && ((r.base > 0 && r.base + r.size == 0) || (r.base + r.size > MASK64 && (r.base + r.size) % MASK64 != 0))
  }

  /** The comparison is containment, for every access, exactly when the region does not wrap. */
  lemma InRangeIsContainmentIff(lo: nat, hi: nat)
    requires hi <= 4 * MASK64
    ensures (forall a | NoWrap(a) :: InRange(a, Region(lo, hi - lo)) <==> Contains(Region(lo, hi - lo), a))
       <==> !Wraps(Region(lo, hi - lo))
  {
    var r := Region(lo, hi - lo);
    if Wraps(r) {
      var a := Access(MASK64 - 1, 1, false, false);
      assert NoWrap(a);
      assert InRange(a, r) != Contains(r, a);
    } else {
      forall a | NoWrap(a)
        ensures InRange(a, r) <==> Contains(r, a)
      {
        NoWrapIsContainment(a, r);
      }
    }
  }

  lemma NoWrapIsContainment(a: Access, r: Region)
    requires NoWrap(a) && r.base >= 0 && 0 <= r.base + r.size && !Wraps(r)
    ensures InRange(a, r) <==> Contains(r, a)
  {
    var last := r.base + r.size - 1;
    assert (a.pa + a.size - 1) % MASK64 == a.pa + a.size - 1;
    if 0 <= last < MASK64 {
      assert last % MASK64 == last;
    } else if last == -1 {
      assert (-1) % MASK64 == MASK64 - 1;
    }
  }

  /** Only a TOR entry can wrap, and only when its top is zero or beyond the address space. */
  ghost predicate Faithful(es: Entries) {
    forall i | 0 <= i < |es| && AMode(es[i].cfg) == Tor :: !Wraps(RangeOf(es, i))
  }

  lemma MatchIsContainment(es: Entries, i: nat, a: Access)
    requires i < |es| && NoWrap(a) && AMode(es[i].cfg) != Off
    requires AMode(es[i].cfg) == Tor ==> !Wraps(RangeOf(es, i))
    ensures Matches(es, i, a) <==> Contains(RangeOf(es, i), a)
  {
    var r := RangeOf(es, i);
    match AMode(es[i].cfg)
    case Tor => NoWrapIsContainment(a, r);
    case Na4 =>
      if r.base < MASK64 {
        assert r.base % 4 == 0 && r.base + 4 <= MASK64;
        NoWrapIsContainment(a, r);
      }
    case Napot =>
      NapotIsAligned(es[i].addr);
      NoWrapIsContainment(a, r);
  }

  // ---- permission ----

  function CheckPerm(cfg: nat, write: bool, execute: bool): bool {
    R(cfg) && (write ==> W(cfg)) && (execute ==> X(cfg))
  }

  predicate Locked(cfg: nat) { cfg / 128 % 2 == 1 }

  predicate StandardPerm(cfg: nat, write: bool, execute: bool) {
    if write || execute then (write ==> W(cfg)) && (execute ==> X(cfg)) else R(cfg)
  }

  /**
   The code also asks for R when it writes or fetches: it differs exactly where R is clear, the access
   is a write or a fetch, and W and X allow it, as in an execute-only region.
   */
  lemma PermMeetsStandardIff(cfg: nat, write: bool, execute: bool)
    ensures CheckPerm(cfg, write, execute) == StandardPerm(cfg, write, execute)
       <==> !(!R(cfg) && (write || execute) && (write ==> W(cfg)) && (execute ==> X(cfg)))
  {
  }

  // ---- the decision ----

  /** Entries from `i` on, lowest first. */
  function Scan(es: Entries, i: nat, a: Access, byDefault: bool): bool
    requires i <= |es|
    decreases |es| - i
  {
    if i == |es| then byDefault
    else if Matches(es, i, a) then CheckPerm(es[i].cfg, a.write, a.execute)
    else Scan(es, i + 1, a, byDefault)
  }

  /** MPP decides the level of an M-mode access with MPRV; the reserved value counts as M. */
  predicate ActsAsM(mode: Mode, ms: Mstatus) {
    mode == M && ms.mpp != 0 && ms.mpp != 1
  }

  /** The entries below the split are out of sight of an enclave. */
  function Start(mdid: nat, split: nat): nat {
    if mdid != 0 then split else 0
  }

  function Check(es: Entries, mode: Mode, ms: Mstatus, mdid: nat, split: nat, a: Access): bool {
    if mode == M && !ms.mprv then true
    else if mdid != 0 && split > 0 && split >= |es| then false
    else if |es| == 0 then false
    else Scan(es, Start(mdid, split), a, ActsAsM(mode, ms))
  }

  /** `i` is the lowest-numbered active entry from `start` on whose region contains the access. */
  ghost predicate FirstContaining(es: Entries, start: nat, i: nat, a: Access) {
    && start <= i < |es| && AMode(es[i].cfg) != Off && Contains(RangeOf(es, i), a)
    && forall j | start <= j < i && AMode(es[j].cfg) != Off :: !Contains(RangeOf(es, j), a)
  }

  lemma {:induction false} ScanIsFirstMatch(es: Entries, start: nat, a: Access, byDefault: bool)
    requires start <= |es| && NoWrap(a) && Faithful(es)
    ensures (exists i: nat :: FirstContaining(es, start, i, a)
               && Scan(es, start, a, byDefault) == CheckPerm(es[i].cfg, a.write, a.execute))
            || ((forall i | start <= i < |es| && AMode(es[i].cfg) != Off :: !Contains(RangeOf(es, i), a))
                && Scan(es, start, a, byDefault) == byDefault)
    decreases |es| - start
  {
    hide RangeOf, Contains, InRange, CheckPerm, Matches;
    if start < |es| {
      if AMode(es[start].cfg) != Off {
        MatchIsContainment(es, start, a);
      }
      OffNeverMatches(es, start, a);
      if Matches(es, start, a) {
        assert FirstContaining(es, start, start, a);
      } else {
        ScanIsFirstMatch(es, start + 1, a, byDefault);
        if i: nat :| FirstContaining(es, start + 1, i, a) && Scan(es, start + 1, a, byDefault) == CheckPerm(es[i].cfg, a.write, a.execute) {
          assert FirstContaining(es, start, i, a);
        }
      }
    }
  }

  lemma OffNeverMatches(es: Entries, i: nat, a: Access)
    requires i < |es|
    ensures AMode(es[i].cfg) == Off ==> !Matches(es, i, a)
  {
  }

  /**
   The verdict. M mode without MPRV passes; an enclave whose split is past the entries, and everything else when
   there are no entries, is refused; otherwise the lowest-numbered active entry in sight that contains the access
   decides by its bits, and without one only M mode with MPP neither 0 nor 1 passes.
   */
  lemma CheckIsFirstMatch(es: Entries, mode: Mode, ms: Mstatus, mdid: nat, split: nat, a: Access)
    requires NoWrap(a) && Faithful(es)
    ensures var ok, start := Check(es, mode, ms, mdid, split, a), if mdid != 0 then split else 0;
      if mode == M && !ms.mprv then ok
      else if |es| == 0 || start >= |es| then !ok
      else || (exists i: nat :: FirstContaining(es, start, i, a)
                 && (ok <==> && es[i].cfg % 2 == 1
                             && (a.write ==> es[i].cfg / 2 % 2 == 1)
                             && (a.execute ==> es[i].cfg / 4 % 2 == 1)))
           || ((forall i | start <= i < |es| && es[i].cfg / 8 % 4 != 0 :: !Contains(RangeOf(es, i), a))
               && (ok <==> mode == M && ms.mpp != 0 && ms.mpp != 1))
  {
    hide RangeOf, Contains, Scan, Faithful;
    if !(mode == M && !ms.mprv) && Start(mdid, split) < |es| {
      ScanIsFirstMatch(es, Start(mdid, split), a, ActsAsM(mode, ms));
    }
  }

  /** Where no active entry in sight contains the access, it is refused to U and S, and to M acting for them. */
  lemma UncoveredIsRefused(es: Entries, mode: Mode, ms: Mstatus, mdid: nat, split: nat, a: Access)
    requires NoWrap(a) && Faithful(es)
    requires forall i | (if mdid != 0 then split else 0) <= i < |es| && es[i].cfg / 8 % 4 != 0 :: !Contains(RangeOf(es, i), a)
    ensures Check(es, mode, ms, mdid, split, a) <==>
      mode == M && (!ms.mprv || (ms.mpp != 0 && ms.mpp != 1 && |es| > 0 && (mdid != 0 ==> split < |es|)))
  {
    hide RangeOf, Contains, Check, Faithful;
    CheckIsFirstMatch(es, mode, ms, mdid, split, a);
  }

  /** One entry, by the literal bits of its configuration: off, TOR, NA4, and NAPOT over the whole address space. */
  lemma EntryVerdicts(r: bool, w: bool, x: bool, n: nat, ms: Mstatus, a: Access)
    requires NoWrap(a) && n <= 0x4000_0000_0000_0000
    ensures var flags := (if r then 1 else 0) + (if w then 2 else 0) + if x then 4 else 0;
      var permitted := r && (a.write ==> w) && (a.execute ==> x);
      && !Check([Entry(flags, n)], S, ms, 0, 0, a)
      && (Check([Entry(0x08 + flags, n)], S, ms, 0, 0, a) <==> a.pa + a.size <= 4 * n && permitted)
      && (Check([Entry(0x10 + flags, n)], S, ms, 0, 0, a) <==> 4 * n <= a.pa && a.pa + a.size <= 4 * n + 4 && permitted)
      && (Check([Entry(0x18 + flags, 0x3F_FFFF_FFFF_FFFF)], S, ms, 0, 0, a) <==> permitted)
  {
    hide DecodeNapot, Check, R, W, X, AMode;
    var flags := (if r then 1 else 0) + (if w then 2 else 0) + if x then 4 else 0;
    AllOnes();
    FlagBits(r, w, x, 0);
    FlagBits(r, w, x, 1);
    FlagBits(r, w, x, 2);
    FlagBits(r, w, x, 3);
    OneEntry(Entry(flags, n), ms, a);
    OneEntry(Entry(0x08 + flags, n), ms, a);
    OneEntry(Entry(0x10 + flags, n), ms, a);
    OneEntry(Entry(0x18 + flags, 0x3F_FFFF_FFFF_FFFF), ms, a);
  }

  /** A TOR entry starts where the address register below it says, whether or not that entry is off. */
  lemma TorVerdict(lo: nat, hi: nat, ms: Mstatus, a: Access)
    requires NoWrap(a) && 0 < hi <= 0x4000_0000_0000_0000
    ensures Check([Entry(0, lo), Entry(0x0F, hi)], S, ms, 0, 0, a) <==> 4 * lo <= a.pa && a.pa + a.size <= 4 * hi
  {
    var es := [Entry(0, lo), Entry(0x0F, hi)];
    assert AMode(0) == Off && AMode(0x0F) == Tor && CheckPerm(0x0F, a.write, a.execute);
    hide AMode, CheckPerm, Check;
    assert RangeOf(es, 1) == Region(4 * lo, 4 * hi - 4 * lo);
    NoWrapIsContainment(a, RangeOf(es, 1));
    TwoEntries(es, ms, a);
  }

  lemma TwoEntries(es: Entries, ms: Mstatus, a: Access)
    requires |es| == 2
    ensures Check(es, S, ms, 0, 0, a) == if Matches(es, 0, a) then CheckPerm(es[0].cfg, a.write, a.execute)
                                         else if Matches(es, 1, a) then CheckPerm(es[1].cfg, a.write, a.execute) else false
  {
    hide Matches, CheckPerm;
    assert Scan(es, 2, a, false) == false;
    assert Scan(es, 1, a, false) == if Matches(es, 1, a) then CheckPerm(es[1].cfg, a.write, a.execute) else false;
  }

  lemma LowTorIsPlain(e: Entry)
    ensures AMode(e.cfg) == Tor && e.addr <= 0x4000_0000_0000_0000 ==> !Wraps(RangeOf([e], 0))
  {
  }

  lemma FlagBits(r: bool, w: bool, x: bool, k: nat)
    requires k < 4
    ensures var cfg := 8 * k + (if r then 1 else 0) + (if w then 2 else 0) + if x then 4 else 0;
      && (R(cfg) <==> r) && (W(cfg) <==> w) && (X(cfg) <==> x)
      && AMode(cfg) == if k == 0 then Off else if k == 1 then Tor else if k == 2 then Na4 else Napot
  {
  }

  lemma OneEntry(e: Entry, ms: Mstatus, a: Access)
    requires NoWrap(a) && (AMode(e.cfg) == Tor ==> e.addr <= 0x4000_0000_0000_0000)
    ensures Check([e], S, ms, 0, 0, a) <==>
      AMode(e.cfg) != Off && Contains(RangeOf([e], 0), a) && CheckPerm(e.cfg, a.write, a.execute)
  {
    hide RangeOf, Contains, CheckPerm, InRange;
    var es := [e];
    assert Scan(es, 1, a, false) == false;
    if AMode(e.cfg) != Off {
      LowTorIsPlain(e);
      MatchIsContainment(es, 0, a);
    }
    OffNeverMatches(es, 0, a);
  }

  // ---- against the specification ----

  ghost predicate NoneContains(es: Entries, start: nat, a: Access) {
    forall i | start <= i < |es| && AMode(es[i].cfg) != Off :: !Contains(RangeOf(es, i), a)
  }

  /** The lowest active entry that contains the access permits it, or there is none and the default allows it. */
  ghost predicate Grants(es: Entries, start: nat, a: Access, byDefault: bool) {
    || (exists i: nat :: FirstContaining(es, start, i, a) && CheckPerm(es[i].cfg, a.write, a.execute))
    || (NoneContains(es, start, a) && byDefault)
  }

  lemma ScanGrantsIff(es: Entries, start: nat, a: Access, byDefault: bool)
    requires start <= |es| && NoWrap(a) && Faithful(es)
    ensures Scan(es, start, a, byDefault) <==> Grants(es, start, a, byDefault)
  {
    hide RangeOf, Contains, CheckPerm, Scan, Faithful;
    ScanIsFirstMatch(es, start, a, byDefault);
    if i: nat :| FirstContaining(es, start, i, a) && Scan(es, start, a, byDefault) == CheckPerm(es[i].cfg, a.write, a.execute) {
      forall j: nat | FirstContaining(es, start, j, a)
        ensures j == i
      {
      }
    }
  }

  /** What an entry permits: for M mode an entry that is not locked permits everything. */
  predicate Permits(machine: bool, cfg: nat, a: Access) {
    (machine && !Locked(cfg)) || StandardPerm(cfg, a.write, a.execute)
  }

  /** The specification: the lowest active entry that matches any byte decides, and refuses a partial match. */
  function StandardScan(es: Entries, i: nat, a: Access, machine: bool): bool
    requires i <= |es|
    decreases |es| - i
  {
    if i == |es| then machine
    else if AMode(es[i].cfg) != Off && Overlaps(RangeOf(es, i), a) then
      Contains(RangeOf(es, i), a) && Permits(machine, es[i].cfg, a)
    else StandardScan(es, i + 1, a, machine)
  }

  predicate Partial(es: Entries, i: nat, a: Access)
    requires i < |es|
  {
    AMode(es[i].cfg) != Off && Overlaps(RangeOf(es, i), a) && !Contains(RangeOf(es, i), a)
  }

  /** An active entry that covers the access only in part comes before any entry that contains it. */
  ghost predicate PartialFirst(es: Entries, start: nat, a: Access) {
    exists i :: start <= i < |es| && Partial(es, i, a)
      && forall j | start <= j < i && AMode(es[j].cfg) != Off :: !Contains(RangeOf(es, j), a)
  }

  /** The deciding entry permits the access to the code exactly when it does to the specification. */
  ghost predicate SameOpinion(es: Entries, start: nat, a: Access, machine: bool) {
    forall i: nat | FirstContaining(es, start, i, a) ::
      CheckPerm(es[i].cfg, a.write, a.execute) == Permits(machine, es[i].cfg, a)
  }

  /**
   The scan agrees with the specification exactly when a partial match that comes first is not passed over
   to a grant, and where there is none the deciding entry is read the same way.
   */
  lemma {:induction false} ScanMeetsStandardIff(es: Entries, start: nat, a: Access, machine: bool)
    requires start <= |es| && NoWrap(a) && Faithful(es)
    ensures Scan(es, start, a, machine) == StandardScan(es, start, a, machine)
       <==> if PartialFirst(es, start, a) then !Grants(es, start, a, machine) else SameOpinion(es, start, a, machine)
    decreases |es| - start
  {
    hide RangeOf, InRange, CheckPerm, Matches, Permits, Grants;
    ScanGrantsIff(es, start, a, machine);
    if start < |es| {
      OffNeverMatches(es, start, a);
      if AMode(es[start].cfg) != Off {
        MatchIsContainment(es, start, a);
        assert Contains(RangeOf(es, start), a) ==> Overlaps(RangeOf(es, start), a);
      }
      hide Contains, Overlaps;
      if Partial(es, start, a) {
        assert PartialFirst(es, start, a);
      } else if Matches(es, start, a) {
        assert FirstContaining(es, start, start, a);
        assert !PartialFirst(es, start, a);
      } else {
        ScanMeetsStandardIff(es, start + 1, a, machine);
        ScanGrantsIff(es, start + 1, a, machine);
        PartialFirstSkips(es, start, a);
        FirstContainingSkips(es, start, a);
      }
    }
  }

  lemma PartialFirstSkips(es: Entries, start: nat, a: Access)
    requires start < |es| && !Partial(es, start, a)
    requires AMode(es[start].cfg) != Off ==> !Contains(RangeOf(es, start), a)
    ensures PartialFirst(es, start, a) <==> PartialFirst(es, start + 1, a)
  {
    hide RangeOf, Contains, Partial;
    if PartialFirst(es, start + 1, a) {
      var i :| start + 1 <= i < |es| && Partial(es, i, a)
        && forall j | start + 1 <= j < i && AMode(es[j].cfg) != Off :: !Contains(RangeOf(es, j), a);
      assert PartialFirst(es, start, a);
    }
    if PartialFirst(es, start, a) {
      var i :| start <= i < |es| && Partial(es, i, a)
        && forall j | start <= j < i && AMode(es[j].cfg) != Off :: !Contains(RangeOf(es, j), a);
      assert PartialFirst(es, start + 1, a);
    }
  }

  lemma FirstContainingSkips(es: Entries, start: nat, a: Access)
    requires start < |es|
    requires AMode(es[start].cfg) != Off ==> !Contains(RangeOf(es, start), a)
    ensures forall i: nat :: FirstContaining(es, start, i, a) <==> FirstContaining(es, start + 1, i, a)
  {
    hide RangeOf, Contains;
  }

  /** `i` is the lowest-numbered active entry that covers some byte of the access. */
  ghost predicate FirstOverlapping(es: Entries, start: nat, i: nat, a: Access) {
    && start <= i < |es| && AMode(es[i].cfg) != Off && Overlaps(RangeOf(es, i), a)
    && forall j | start <= j < i && AMode(es[j].cfg) != Off :: !Overlaps(RangeOf(es, j), a)
  }

  lemma {:induction false} StandardRefusesIff(es: Entries, start: nat, a: Access)
    requires start <= |es|
    ensures !StandardScan(es, start, a, true)
       <==> exists i: nat :: FirstOverlapping(es, start, i, a) && !(Contains(RangeOf(es, i), a) && Permits(true, es[i].cfg, a))
    decreases |es| - start
  {
    hide RangeOf, Contains, Overlaps, Permits;
    if start < |es| {
      if AMode(es[start].cfg) != Off && Overlaps(RangeOf(es, start), a) {
        assert forall i: nat | FirstOverlapping(es, start, i, a) :: i == start;
        assert FirstOverlapping(es, start, start, a);
      } else {
        StandardRefusesIff(es, start + 1, a);
        assert forall i: nat :: FirstOverlapping(es, start, i, a) <==> FirstOverlapping(es, start + 1, i, a);
      }
    }
  }

  /**
   An access of M mode itself is never checked, which is right exactly when the first entry that covers
   some byte of it covers all of it and is not locked against it.
   */
  lemma LocksIgnoredIff(es: Entries, ms: Mstatus, mdid: nat, split: nat, a: Access)
    requires !ms.mprv
    ensures Check(es, M, ms, mdid, split, a) == StandardScan(es, 0, a, true)
       <==> !exists i: nat :: FirstOverlapping(es, 0, i, a)
              && (!Contains(RangeOf(es, i), a) || (Locked(es[i].cfg) && !StandardPerm(es[i].cfg, a.write, a.execute)))
  {
    hide RangeOf, Contains, Overlaps, StandardPerm, Locked;
    StandardRefusesIff(es, 0, a);
  }

  /** The lock is the top bit of the eight. */
  lemma LockIsTopBit(cfg: nat)
    requires cfg < 0x100
    ensures Locked(cfg) <==> cfg >= 0x80
  {
  }

  /** A locked region without permissions: M mode reads it all the same. */
  lemma LockedRegionIsRead(ms: Mstatus, pa: nat)
    requires !ms.mprv && pa < MASK64
    ensures Check([Entry(0x98, 0x3F_FFFF_FFFF_FFFF)], M, ms, 0, 0, Access(pa, 1, false, false))
    ensures !StandardScan([Entry(0x98, 0x3F_FFFF_FFFF_FFFF)], 0, Access(pa, 1, false, false), true)
  {
    var e := Entry(0x98, 0x3F_FFFF_FFFF_FFFF);
    AllOnes();
    assert RangeOf([e], 0) == Region(0, MASK64);
    assert !Permits(true, e.cfg, Access(pa, 1, false, false));
  }

  const HALF := Entry(0x10, 1)
  const WHOLE := Entry(0x1F, 0x3F_FFFF_FFFF_FFFF)

  lemma HalfAndWhole()
    ensures RangeOf([HALF, WHOLE], 0) == Region(4, 4) && RangeOf([HALF, WHOLE], 1) == Region(0, MASK64)
    ensures AMode(HALF.cfg) == Na4 && AMode(WHOLE.cfg) == Napot && CheckPerm(WHOLE.cfg, false, false)
  {
    assert AMode(0x10) == Na4 && AMode(0x1F) == Napot && CheckPerm(0x1F, false, false);
    hide AMode, CheckPerm, DecodeNapot;
    AllOnes();
  }

  /** Entry 0 covers bytes 4 to 7 and refuses; a read of bytes 0 to 7 is granted by entry 1. */
  lemma PartialMatchIsGranted(ms: Mstatus)
    ensures Check([HALF, WHOLE], S, ms, 0, 0, Access(0, 8, false, false))
    ensures !StandardScan([HALF, WHOLE], 0, Access(0, 8, false, false), false)
  {
    hide RangeOf, AMode, CheckPerm;
    var es, a := [HALF, WHOLE], Access(0, 8, false, false);
    HalfAndWhole();
    assert es[0] == HALF && es[1] == WHOLE;
    assert !Matches(es, 0, a) && Matches(es, 1, a);
    assert Scan(es, 1, a, false);
  }

  // ---- the enclave split ----

  /** Two register files agree on what an enclave may depend on. */
  ghost predicate AgreeAbove(es: Entries, fs: Entries, split: nat) {
    && |es| == |fs|
    && (forall i | split <= i < |es| :: es[i] == fs[i])
    && (0 < split < |es| && AMode(es[split].cfg) == Tor ==> es[split - 1].addr == fs[split - 1].addr)
  }

  lemma {:induction false} ScanAgrees(es: Entries, fs: Entries, split: nat, i: nat, a: Access, byDefault: bool)
    requires AgreeAbove(es, fs, split) && split <= i <= |es|
    ensures Scan(es, i, a, byDefault) == Scan(fs, i, a, byDefault)
    decreases |es| - i
  {
    hide InRange, CheckPerm;
    if i < |es| {
      assert RangeOf(es, i) == RangeOf(fs, i);
      ScanAgrees(es, fs, split, i + 1, a, byDefault);
    }
  }

  /** An enclave's verdict does not depend on the host's entries, except for the base of a TOR entry at the split. */
  lemma EnclaveSeesOnlyItsEntries(es: Entries, fs: Entries, mode: Mode, ms: Mstatus, mdid: nat, split: nat, a: Access)
    requires mdid != 0 && AgreeAbove(es, fs, split)
    ensures Check(es, mode, ms, mdid, split, a) == Check(fs, mode, ms, mdid, split, a)
  {
    hide Scan;
    if split <= |es| {
      ScanAgrees(es, fs, split, split, a, ActsAsM(mode, ms));
    }
  }
}
