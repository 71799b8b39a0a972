/**
 One IMSIC interrupt file: 64 words of pending bits, 64 words of enable bits, and the scan for the top
 interrupt. The order is the code's own: of two identities the higher one wins, and the priority used
 against the threshold is the low byte of the identity.
 */
module ImsicModel {
  import opened Bits
  import opened Words

  const WORDS := 64
  const MAX_IDS := 2048
  const IID_S_IPI := 1
  const IID_M_IPI := 3

  datatype File = File(eip: seq<Word>, eie: seq<Word>, eidelivery: bool, eithreshold: nat, anyExt: bool)

  ghost predicate Shape(f: File) {
    |f.eip| == WORDS && |f.eie| == WORDS
  }

  /** The cached flag says whether some pending word is non-zero. */
  ghost predicate Inv(f: File) {
    Shape(f) && (f.anyExt <==> !BankEmpty(f.eip))
  }

  ghost function Pending(f: File): set<nat> {
    BankSet(f.eip)
  }

  predicate IsIpi(iid: nat) {
    iid == IID_S_IPI || iid == IID_M_IPI
  }

  /** Software interrupts need no enable bit. */
  predicate EnabledIn(f: File, iid: nat)
    requires Shape(f) && iid < MAX_IDS
  {
    IsIpi(iid) || BankBit(f.eie, iid)
  }

  function Prio(iid: nat): nat {
    iid % 256
  }

  predicate Passes(f: File, iid: nat) {
    Prio(iid) > f.eithreshold
  }

  /** The register value that reports an identity; zero reports none. */
  function TopValue(iid: nat): nat {
    iid * 0x1_0000 + Prio(iid)
  }

  lemma TopValueInjective(i: nat, j: nat)
    ensures TopValue(i) == TopValue(j) <==> i == j
    ensures TopValue(i) == 0 <==> i == 0
  {
  }

  // ---- the scan ----

  function SwMask(): Word {
    seq(32, b => b == IID_S_IPI || b == IID_M_IPI)
  }

  function IpiWord(f: File): Word
    requires Shape(f)
  {
    And(f.eip[0], SwMask())
  }

  /** The highest pending IPI, counted from one; zero when none is pending. */
  function IpiLen(f: File): (l: nat)
    requires Shape(f)
    ensures l <= 32
  {
    BitLen(IpiWord(f), 32)
  }

  /** The bits of word `k` that may be reported by the scan. */
  function Candidates(f: File, k: nat): Word
    requires Shape(f) && k < WORDS
  {
    if k == 0 then Or(IpiWord(f), AndNot(And(f.eip[0], f.eie[0]), SwMask())) else And(f.eip[k], f.eie[k])
  }

  lemma CandidateBit(f: File, iid: nat)
    requires Shape(f) && iid < MAX_IDS
    ensures Candidates(f, iid / 32)[iid % 32] <==> iid in Pending(f) && EnabledIn(f, iid)
  {
  }

  /** The highest candidate of word `k`. */
  function TopOf(f: File, k: nat): (r: int)
    requires Shape(f) && k < WORDS
    ensures r == -1 || 32 * k <= r < 32 * k + 32
  {
    if BitLen(Candidates(f, k), 32) == 0 then -1 else 32 * k + BitLen(Candidates(f, k), 32) - 1
  }

  lemma TopOfIsMaximum(f: File, k: nat)
    requires Shape(f) && k < WORDS
    ensures TopOf(f, k) != -1 ==> TopOf(f, k) in Pending(f) && EnabledIn(f, TopOf(f, k))
    ensures forall i | 32 * k <= i < 32 * k + 32 && i in Pending(f) && EnabledIn(f, i) :: i <= TopOf(f, k)
  {
    var top := TopOf(f, k);
    if top != -1 {
      CandidateBit(f, top);
    }
    forall i | 32 * k <= i < 32 * k + 32 && i in Pending(f) && EnabledIn(f, i)
      ensures i <= top
    {
      CandidateBit(f, i);
      assert i % 32 == i - 32 * k;
    }
  }

  /** From word `n - 1` down: the first word whose top candidate passes the threshold reports it. */
  function Scan(f: File, n: nat): (r: int)
    requires Shape(f) && n <= WORDS
    ensures -1 <= r < 32 * n
  {
    if n == 0 then -1
    else if TopOf(f, n - 1) != -1 && Passes(f, TopOf(f, n - 1)) then TopOf(f, n - 1)
    else Scan(f, n - 1)
  }

  /** The identity on top, or -1. IPIs come first and need neither delivery nor enable bits. */
  function Top(f: File): (r: int)
    requires Shape(f)
    ensures -1 <= r < MAX_IDS
  {
    if IpiLen(f) > 0 then IpiLen(f) - 1
    else if !f.eidelivery || !f.anyExt then -1
    else Scan(f, WORDS)
  }

  function PeekTopei(f: File): nat
    requires Shape(f)
  {
    if Top(f) == -1 then 0 else TopValue(Top(f))
  }

  // ---- claiming ----

  /** The candidates the scan gives up on its way down, with the one it reports. */
  function ScanClaims(f: File, n: nat): (s: set<nat>)
    requires Shape(f) && n <= WORDS
    ensures forall i | i in s :: i < 32 * n
  {
    if n == 0 || TopOf(f, n - 1) == -1 then (if n == 0 then {} else ScanClaims(f, n - 1))
    else if Passes(f, TopOf(f, n - 1)) then {TopOf(f, n - 1) as nat}
    else {TopOf(f, n - 1) as nat} + ScanClaims(f, n - 1)
  }

  function Claims(f: File): set<nat>
    requires Shape(f)
  {
    if IpiLen(f) > 0 then {IpiLen(f) - 1}
    else if !f.eidelivery || !f.anyExt then {}
    else ScanClaims(f, WORDS)
  }

  /** `f'` is `f` after a claiming read. */
  ghost predicate Claimed(f: File, f': File)
    requires Shape(f)
  {
    && Inv(f') && f' == f.(eip := f'.eip, anyExt := f'.anyExt)
    && Pending(f') == Pending(f) - Claims(f)
  }

  // ---- the claiming read in progress: words `i` and above are done and `taken` is what they gave up ----

  ghost predicate Reading(f: File, g: File, i: nat, taken: set<nat>)
    requires Shape(f) && i <= WORDS
  {
    && Inv(g) && g == f.(eip := g.eip, anyExt := g.anyExt)
    && (forall k | 0 <= k < i :: g.eip[k] == f.eip[k])
    && Pending(g) == Pending(f) - taken
    && ScanClaims(f, WORDS) == taken + ScanClaims(f, i)
    && Scan(f, WORDS) == Scan(f, i)
  }

  /** One bit of word `i` of `g` is gone in `g'`. */
  ghost predicate Taken(g: File, g': File, i: nat, iid: nat)
    requires Shape(g)
  {
    && Inv(g') && g' == g.(eip := g'.eip, anyExt := g'.anyExt)
    && Pending(g') == Pending(g) - {iid}
    && forall k | 0 <= k < WORDS && k != i :: g'.eip[k] == g.eip[k]
  }

  lemma ReadingBegins(f: File)
    requires Inv(f)
    ensures Reading(f, f, WORDS, {})
  {
  }

  lemma ReadingSkips(f: File, g: File, i: nat, taken: set<nat>)
    requires Shape(f) && i < WORDS && Reading(f, g, i + 1, taken)
    requires TopOf(f, i) == -1
    ensures Reading(f, g, i, taken)
  {
    hide TopOf;
  }

  lemma ReadingSees(f: File, g: File, i: nat, taken: set<nat>)
    requires Shape(f) && i < WORDS && Reading(f, g, i + 1, taken)
    ensures Shape(g) && TopOf(g, i) == TopOf(f, i) && g.eithreshold == f.eithreshold
  {
    hide BankEmpty, ScanClaims, Scan;
    assert Candidates(g, i) == Candidates(f, i);
  }

  lemma ReadingTakes(f: File, g: File, g': File, i: nat, taken: set<nat>)
    requires Shape(f) && IpiLen(f) == 0 && f.eidelivery && f.anyExt
    requires i < WORDS && Reading(f, g, i + 1, taken)
    requires TopOf(f, i) != -1 && Taken(g, g', i, TopOf(f, i))
    ensures !Passes(f, TopOf(f, i)) ==> Reading(f, g', i, taken + {TopOf(f, i) as nat})
    ensures Passes(f, TopOf(f, i)) ==> PeekTopei(f) == TopValue(TopOf(f, i)) && Claimed(f, g')
  {
    hide TopOf, BankEmpty;
  }

  lemma ReadingEnds(f: File, g: File, taken: set<nat>)
    requires Shape(f) && IpiLen(f) == 0 && f.eidelivery && f.anyExt
    requires Reading(f, g, 0, taken)
    ensures PeekTopei(f) == 0 && Claimed(f, g)
  {
    hide BankEmpty;
  }

  // ---- the IPI bits ----

  lemma IpiBits(f: File)
    requires Shape(f)
    ensures IpiLen(f) > 0 <==> IID_S_IPI in Pending(f) || IID_M_IPI in Pending(f)
    ensures IID_M_IPI in Pending(f) ==> IpiLen(f) == IID_M_IPI + 1
    ensures IID_S_IPI in Pending(f) && IID_M_IPI !in Pending(f) ==> IpiLen(f) == IID_S_IPI + 1
  {
    var w := IpiWord(f);
    assert forall b | 0 <= b < 32 :: w[b] <==> IsIpi(b) && BankBit(f.eip, b);
    assert w[1] <==> 1 in Pending(f);
    assert w[3] <==> 3 in Pending(f);
  }

  ghost predicate IpiPending(f: File) {
    IID_S_IPI in Pending(f) || IID_M_IPI in Pending(f)
  }

  /** `iid` is the highest pending and enabled identity. */
  ghost predicate IsHighest(f: File, iid: nat)
    requires Shape(f)
  {
    && iid < MAX_IDS && iid in Pending(f) && EnabledIn(f, iid)
    && forall i | i in Pending(f) && EnabledIn(f, i) :: i <= iid
  }

  lemma ScanNothing(f: File, n: nat)
    requires Shape(f) && n <= WORDS
    requires forall i | i in Pending(f) && i < 32 * n :: !EnabledIn(f, i)
    ensures Scan(f, n) == -1 && ScanClaims(f, n) == {}
  {
    if n > 0 {
      TopOfIsMaximum(f, n - 1);
      ScanNothing(f, n - 1);
    }
  }

  /** Words above the highest candidate are passed over in silence; its own word decides. */
  lemma {:induction false} ScanFromHighest(f: File, n: nat, iid: nat)
    requires Shape(f) && n <= WORDS && IsHighest(f, iid) && iid < 32 * n
    ensures Passes(f, iid) ==> Scan(f, n) == iid && ScanClaims(f, n) == {iid}
    ensures !Passes(f, iid) ==> Scan(f, n) != iid && iid in ScanClaims(f, n)
    decreases n
  {
    hide TopOf, EnabledIn;
    TopOfIsMaximum(f, n - 1);
    if iid < 32 * (n - 1) {
      ScanFromHighest(f, n - 1, iid);
    }
  }

  lemma ScanResultClaimed(f: File, n: nat)
    requires Shape(f) && n <= WORDS
    ensures Scan(f, n) != -1 ==> Scan(f, n) in ScanClaims(f, n)
    ensures forall i | i in ScanClaims(f, n) :: i in Pending(f) && EnabledIn(f, i)
  {
    hide TopOf, EnabledIn;
    if n > 0 {
      TopOfIsMaximum(f, n - 1);
      ScanResultClaimed(f, n - 1);
    }
  }

  /** Without an IPI the file reports its highest enabled pending identity exactly when that passes. */
  lemma PeekIsHighestIff(f: File, iid: nat)
    requires Inv(f) && f.eidelivery && !IpiPending(f) && IsHighest(f, iid)
    ensures Top(f) == iid <==> iid % 256 > f.eithreshold
    ensures iid % 256 > f.eithreshold ==> PeekTopei(f) == iid * 0x1_0000 + iid % 256
  {
    hide TopOf;
    IpiBits(f);
    EmptyBank(f.eip);
    ScanFromHighest(f, WORDS, iid);
  }

  // ---- the scan, one word at a time ----

  /** `y` is pending, enabled or an IPI, and the highest such identity of its 32. */
  ghost predicate LeadsWord(f: File, y: nat)
    requires Shape(f)
  {
    && y < MAX_IDS && BankBit(f.eip, y) && (y == 1 || y == 3 || BankBit(f.eie, y))
    && forall i: nat | y < i < MAX_IDS && i / 32 == y / 32 && BankBit(f.eip, i) :: i != 1 && i != 3 && !BankBit(f.eie, i)
  }

  /** Every identity that leads a word above that of `y`, among the first `n` words, is at or below the threshold. */
  ghost predicate NoneAbovePasses(f: File, y: nat, n: nat)
    requires Shape(f)
  {
    forall z | y / 32 < z / 32 < n && LeadsWord(f, z) :: z % 256 <= f.eithreshold
  }

  lemma TopOfLeads(f: File, k: nat, y: nat)
    requires Shape(f) && k < WORDS && y / 32 == k
    ensures TopOf(f, k) == y <==> LeadsWord(f, y)
  {
    hide TopOf;
    TopOfIsMaximum(f, k);
    if LeadsWord(f, y) {
      assert y in Pending(f) && EnabledIn(f, y);
      var t := TopOf(f, k);
      assert t / 32 == k;
    }
    if TopOf(f, k) == y {
      forall i: nat | y < i < MAX_IDS && i / 32 == k && BankBit(f.eip, i)
        ensures i != 1 && i != 3 && !BankBit(f.eie, i)
      {
        assert i in Pending(f);
      }
    }
  }

  /**
   The scan reports the leading identity of the highest word whose leader passes the threshold, and a claiming
   read gives up the leaders of that word and of all words above it.
   */
  lemma {:induction false} ScanIs(f: File, n: nat, y: nat)
    requires Shape(f) && n <= WORDS && y < 32 * n
    ensures Scan(f, n) == y <==> LeadsWord(f, y) && y % 256 > f.eithreshold && NoneAbovePasses(f, y, n)
    ensures y in ScanClaims(f, n) <==> LeadsWord(f, y) && NoneAbovePasses(f, y, n)
  {
    hide TopOf, LeadsWord;
    var k := n - 1;
    forall z: nat | z / 32 == k
      ensures TopOf(f, k) == z <==> LeadsWord(f, z)
    {
      TopOfLeads(f, k, z);
    }
    if y / 32 < k {
      ScanIs(f, k, y);
      NoneAboveOne(f, y, k);
    }
  }

  lemma NoneAboveOne(f: File, y: nat, k: nat)
    requires Shape(f) && k < WORDS && y / 32 < k
    requires forall z: nat | z / 32 == k :: TopOf(f, k) == z <==> LeadsWord(f, z)
    ensures NoneAbovePasses(f, y, k + 1)
       <==> NoneAbovePasses(f, y, k) && (TopOf(f, k) == -1 || TopOf(f, k) % 256 <= f.eithreshold)
  {
    hide TopOf, LeadsWord;
    var t := TopOf(f, k);
    if t != -1 {
      assert t / 32 == k && LeadsWord(f, t);
    }
    if NoneAbovePasses(f, y, k) && (t == -1 || t % 256 <= f.eithreshold) {
      forall z | y / 32 < z / 32 < k + 1 && LeadsWord(f, z)
        ensures z % 256 <= f.eithreshold
      {
        assert z / 32 == k ==> z == t;
      }
    }
  }

  /** What a file reports and gives up: IPI 3, IPI 1, nothing while delivery is off, and otherwise by the words. */
  lemma PeekIs(f: File, y: nat)
    requires Inv(f) && y < MAX_IDS
    ensures BankBit(f.eip, 3) ==> PeekTopei(f) == 0x3_0003 && Claims(f) == {3}
    ensures BankBit(f.eip, 1) && !BankBit(f.eip, 3) ==> PeekTopei(f) == 0x1_0001 && Claims(f) == {1}
    ensures !BankBit(f.eip, 1) && !BankBit(f.eip, 3) && !f.eidelivery ==> PeekTopei(f) == 0 && Claims(f) == {}
    ensures !BankBit(f.eip, 1) && !BankBit(f.eip, 3) && f.eidelivery ==>
      && (y > 0 ==> (PeekTopei(f) == y * 0x1_0000 + y % 256
                     <==> LeadsWord(f, y) && y % 256 > f.eithreshold && NoneAbovePasses(f, y, WORDS)))
      && (y in Claims(f) <==> LeadsWord(f, y) && NoneAbovePasses(f, y, WORDS))
  {
    hide LeadsWord, TopOf;
    IpiBits(f);
    EmptyBank(f.eip);
    assert BankBit(f.eip, 3) == (3 in Pending(f)) && BankBit(f.eip, 1) == (1 in Pending(f));
    if !BankBit(f.eip, 1) && !BankBit(f.eip, 3) && f.eidelivery {
      ScanIs(f, WORDS, y);
      if !f.anyExt {
        NothingLeads(f, y);
      } else if Top(f) != -1 {
        TopValueInjective(Top(f), y);
      }
    }
  }

  lemma NothingLeads(f: File, y: nat)
    requires Inv(f) && !f.anyExt && y < MAX_IDS
    ensures !LeadsWord(f, y)
  {
  }

  /** Reading zero means that nothing is on top: identity 0 never is. */
  lemma ZeroIsNothing(f: File)
    requires Shape(f)
    ensures PeekTopei(f) == 0 <==> Top(f) == -1
  {
    hide TopOf, ScanClaims, EnabledIn;
    IpiBits(f);
    ScanPasses(f, WORDS);
    if Top(f) != -1 {
      TopValueInjective(Top(f), 0);
    }
  }

  lemma ScanPasses(f: File, n: nat)
    requires Shape(f) && n <= WORDS
    ensures Scan(f, n) != -1 ==> Passes(f, Scan(f, n))
  {
  }

  /**
   A claiming read takes nothing but what it reports exactly when an IPI is pending, delivery is off,
   nothing is enabled and pending, or the highest such identity passes the threshold.
   */
  lemma ClaimIsExactIff(f: File)
    requires Inv(f)
    ensures Claims(f) == (if Top(f) == -1 then {} else {Top(f) as nat})
       <==> IpiPending(f) || !f.eidelivery
            || (forall i | i in Pending(f) :: !EnabledIn(f, i))
            || (exists iid: nat :: IsHighest(f, iid) && iid % 256 > f.eithreshold)
  {
    hide TopOf;
    IpiBits(f);
    EmptyBank(f.eip);
    if !IpiPending(f) && f.eidelivery {
      if forall i | i in Pending(f) :: !EnabledIn(f, i) {
        ScanNothing(f, WORDS);
      } else {
        var some :| some in Pending(f) && EnabledIn(f, some);
        var iid := Highest(f, some);
        ScanFromHighest(f, WORDS, iid);
      }
    }
  }

  lemma Highest(f: File, some: nat) returns (iid: nat)
    requires Shape(f) && some in Pending(f) && EnabledIn(f, some)
    ensures IsHighest(f, iid)
    decreases MAX_IDS - some
  {
    if j :| j in Pending(f) && EnabledIn(f, j) && j > some {
      iid := Highest(f, j);
    } else {
      iid := some;
    }
  }

  /** An identity whose low byte is zero never passes any threshold: when it is highest, a read drops it. */
  lemma ZeroPriorityIsLost(f: File, iid: nat)
    requires Inv(f) && f.eidelivery && !IpiPending(f) && IsHighest(f, iid) && iid % 256 == 0
    ensures Top(f) != iid && iid in Claims(f)
  {
    IpiBits(f);
    EmptyBank(f.eip);
    ScanFromHighest(f, WORDS, iid);
  }

  /** Reads that report something take it away; so after as many reads as bits were pending, none does. */
  lemma ClaimShrinks(f: File, f': File)
    requires Inv(f) && Claimed(f, f')
    ensures Pending(f') <= Pending(f)
    ensures Top(f) != -1 ==> Top(f) in Pending(f) && Top(f) !in Pending(f') && |Pending(f')| < |Pending(f)|
  {
    IpiBits(f);
    ScanResultClaimed(f, WORDS);
    if Top(f) != -1 {
      assert Top(f) in Claims(f) && Top(f) in Pending(f);
      SubsetCount(Pending(f'), Pending(f) - {Top(f) as nat});
    }
  }

  ghost predicate ReadRun(fs: seq<File>) {
    forall k | 0 <= k < |fs| - 1 :: Inv(fs[k]) && Claimed(fs[k], fs[k + 1])
  }

  /** A run of reads reports every identity at most once, and at most as many as were pending. */
  lemma {:induction false} DrainIsBounded(fs: seq<File>)
    requires |fs| >= 1 && ReadRun(fs) && Inv(fs[|fs| - 1])
    requires forall k | 0 <= k < |fs| - 1 :: Top(fs[k]) != -1
    ensures |fs| - 1 <= |Pending(fs[0])|
    ensures forall j, k | 0 <= j < k < |fs| - 1 :: Top(fs[j]) != Top(fs[k])
    decreases |fs|
  {
    if |fs| > 1 {
      ClaimShrinks(fs[0], fs[1]);
      DrainIsBounded(fs[1..]);
      forall k | 1 <= k < |fs| - 1
        ensures Top(fs[0]) != Top(fs[k])
      {
        PendingAlong(fs, k);
        ClaimShrinks(fs[k], fs[k + 1]);
      }
      forall j, k | 0 <= j < k < |fs| - 1
        ensures Top(fs[j]) != Top(fs[k])
      {
        if j > 0 {
          assert fs[j] == fs[1..][j - 1] && fs[k] == fs[1..][k - 1];
        }
      }
    }
  }

  lemma {:induction false} PendingAlong(fs: seq<File>, k: nat)
    requires 1 <= k < |fs| && ReadRun(fs)
    ensures Pending(fs[k]) <= Pending(fs[1])
  {
    if k > 1 {
      PendingAlong(fs, k - 1);
      ClaimShrinks(fs[k - 1], fs[k]);
    }
  }

  // ---- writes ----

  /** Restores the flag after a change to the pending words. */
  ghost function Refreshed(f: File): (r: File)
    requires Shape(f)
    ensures Inv(r) && Pending(r) == Pending(f)
  {
    f.(anyExt := !BankEmpty(f.eip))
  }

  ghost function SetPending(f: File, n: int): File
    requires Shape(f)
  {
    if 0 < n < MAX_IDS then f.(eip := SetBank(f.eip, n, true), anyExt := true) else f
  }

  ghost function ClearPending(f: File, n: int): File
    requires Shape(f)
  {
    if 0 < n < MAX_IDS then Refreshed(f.(eip := SetBank(f.eip, n, false))) else f
  }

  /** Two neighbouring words take the low and the high half of `val`; the last word has no neighbour. */
  function TwoWords(ws: seq<Word>, idx: nat, val: nat): (r: seq<Word>)
    requires idx < |ws|
    ensures |r| == |ws|
  {
    if idx + 1 < |ws| then ws[idx := WordOf(val)][idx + 1 := WordOf(val / 0x1_0000_0000)]
    else ws[idx := WordOf(val)]
  }

  const SEL_EIDELIVERY := 0x70
  const SEL_EITHRESHOLD := 0x72
  const SEL_EIP_BASE := 0x80
  const SEL_EIP_END := 0xBF
  const SEL_SETEIPNUM := 0x58
  const SEL_CLREIPNUM := 0x59
  const SEL_SETEIENUM := 0x5A
  const SEL_CLREIENUM := 0x5B
  const SEL_EIE_BASE := 0xC0
  const SEL_EIE_END := 0xFF

  /** A write of an identity to one of the four numbered registers; other selects name no register. */
  ghost function NumberedWrite(f: File, select: nat, n: nat): (r: File)
    requires Shape(f) && n < MAX_IDS
    ensures Shape(r)
  {
    if select == SEL_SETEIPNUM then Refreshed(f.(eip := SetBank(f.eip, n, true)))
    else if select == SEL_CLREIPNUM then Refreshed(f.(eip := SetBank(f.eip, n, false)))
    else if select == SEL_SETEIENUM then f.(eie := SetBank(f.eie, n, true))
    else if select == SEL_CLREIENUM then f.(eie := SetBank(f.eie, n, false))
    else f
  }

  /** A write through the indirect registers. */
  ghost function CsrWrite(f: File, select: nat, val: nat): (r: File)
    requires Shape(f)
    ensures Shape(r)
  {
    if select == SEL_EIDELIVERY then f.(eidelivery := val % 2 == 1)
    else if select == SEL_EITHRESHOLD then f.(eithreshold := val % 0x400)
    else if SEL_EIP_BASE <= select <= SEL_EIP_END then
      Refreshed(f.(eip := TwoWords(f.eip, select - SEL_EIP_BASE, val)))
    else if SEL_EIE_BASE <= select <= SEL_EIE_END then
      f.(eie := TwoWords(f.eie, select - SEL_EIE_BASE, val))
    else NumberedWrite(f, select, val % MAX_IDS)
  }

  /** Injecting and withdrawing change one identity, never identity 0, and keep the flag exact. */
  lemma PendingWrites(f: File, n: int)
    requires Inv(f)
    ensures Inv(SetPending(f, n)) && Inv(ClearPending(f, n))
    ensures Pending(SetPending(f, n)) == Pending(f) + (if 0 < n < MAX_IDS then {n as nat} else {})
    ensures Pending(ClearPending(f, n)) == Pending(f) - (if 0 < n < MAX_IDS then {n as nat} else {})
  {
    if 0 < n < MAX_IDS {
      EmptyBank(SetBank(f.eip, n, true));
      assert n in BankSet(SetBank(f.eip, n, true));
    }
  }

  /** No register write makes the flag wrong, and only the four pending-bit registers change what is pending. */
  lemma CsrWriteKeeps(f: File, select: nat, val: nat)
    requires Inv(f)
    ensures Inv(CsrWrite(f, select, val))
    ensures !(SEL_EIP_BASE <= select <= SEL_EIP_END) && select != SEL_SETEIPNUM && select != SEL_CLREIPNUM
            ==> Pending(CsrWrite(f, select, val)) == Pending(f)
    ensures select == SEL_SETEIPNUM ==> Pending(CsrWrite(f, select, val)) == Pending(f) + {val % MAX_IDS}
    ensures select == SEL_CLREIPNUM ==> Pending(CsrWrite(f, select, val)) == Pending(f) - {val % MAX_IDS}
  {
  }

  lemma TwoWordsBits(ws: seq<Word>, idx: nat, val: nat, x: nat)
    requires idx < |ws| && x < 32 * |ws|
    ensures BankBit(TwoWords(ws, idx, val), x) <==>
      if 32 * idx <= x < 32 * idx + 64 then val / Pow2(x - 32 * idx) % 2 == 1 else BankBit(ws, x)
  {
    hide Pow2;
    if x / 32 == idx + 1 {
      var b := x % 32;
      PowerSum(32, b);
      ThirtySecondPower();
      DivDiv(val, 0x1_0000_0000, Pow2(b));
      assert x - 32 * idx == 32 + b;
    }
  }

  lemma ThirtySecondPower()
    ensures Pow2(32) == 0x1_0000_0000
  {
    PowerSum(8, 8);
    PowerSum(16, 16);
  }

  /** What each write through the indirect registers leaves, by the number of the register. */
  lemma CsrWriteIs(f: File, select: nat, val: nat, x: nat)
    requires Inv(f) && x < 2048
    ensures var g := CsrWrite(f, select, val);
      && g.eidelivery == (if select == 0x70 then val % 2 == 1 else f.eidelivery)
      && g.eithreshold == (if select == 0x72 then val % 0x400 else f.eithreshold)
      && (BankBit(g.eip, x) <==>
            if 0x80 <= select <= 0xBF && 32 * (select - 0x80) <= x < 32 * (select - 0x80) + 64
            then val / Pow2(x - 32 * (select - 0x80)) % 2 == 1
            else if select == 0x58 && x == val % 2048 then true
            else if select == 0x59 && x == val % 2048 then false
            else BankBit(f.eip, x))
      && (BankBit(g.eie, x) <==>
            if 0xC0 <= select <= 0xFF && 32 * (select - 0xC0) <= x < 32 * (select - 0xC0) + 64
            then val / Pow2(x - 32 * (select - 0xC0)) % 2 == 1
            else if select == 0x5A && x == val % 2048 then true
            else if select == 0x5B && x == val % 2048 then false
            else BankBit(f.eie, x))
  {
    hide TwoWords, WordOf, Pow2;
    if 0x80 <= select <= 0xBF {
      TwoWordsBits(f.eip, select - 0x80, val, x);
    } else if 0xC0 <= select <= 0xFF {
      TwoWordsBits(f.eie, select - 0xC0, val, x);
    }
  }
}
