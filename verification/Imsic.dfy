/**
 The interrupt file as the program keeps it: two word arrays changed in place and scanned by loops.
 Every method is tied to `ImsicModel` through `View()`.
 */
module ImsicClass {
  import opened Words
  import opened ImsicModel

  class ImsicFile {
    const eip: array<Word>
    const eie: array<Word>
    var eidelivery: bool
    var eithreshold: nat
    var anyExt: bool

    ghost predicate Valid()
      reads this, eip, eie
    {
      && eip.Length == WORDS && eie.Length == WORDS && eip != eie
      && Inv(View())
    }

    ghost function View(): File
      reads this, eip, eie
    {
      File(eip[..], eie[..], eidelivery, eithreshold, anyExt)
    }

    constructor ()
      ensures Valid() && fresh(eip) && fresh(eie)
      ensures Pending(View()) == {} && !eidelivery && eithreshold == 0
    {
      eip := new Word[WORDS](_ => Zero());
      eie := new Word[WORDS](_ => Zero());
      eidelivery, eithreshold, anyExt := false, 0, false;
      new;
      EmptyBank(eip[..]);
    }

    /** Scans the pending words for one that is not zero. */
    method UpdateAnyExt()
      requires eip.Length == WORDS && eie.Length == WORDS && eip != eie
      modifies this`anyExt
      ensures Valid() && View() == Refreshed(old(View()))
    {
      for i := 0 to WORDS
        invariant forall k | 0 <= k < i :: IsZero(eip[k])
      {
        if !IsZero(eip[i]) {
          anyExt := true;
          return;
        }
      }
      anyExt := false;
    }

    method SetPendingBit(n: int)
      requires Valid()
      modifies this`anyExt, eip
      ensures Valid() && View() == SetPending(old(View()), n)
    {
      if 0 < n < MAX_IDS {
        var word, bit := n / 32, n % 32;
        eip[word] := eip[word][bit := true];
        anyExt := true;
        assert eip[..] == SetBank(old(eip[..]), n, true);
      }
      PendingWrites(old(View()), n);
    }

    method ClearPendingBit(n: int)
      requires Valid()
      modifies this`anyExt, eip
      ensures Valid() && View() == ClearPending(old(View()), n)
    {
      if 0 < n < MAX_IDS {
        var word, bit := n / 32, n % 32;
        eip[word] := eip[word][bit := false];
        assert eip[..] == SetBank(old(eip[..]), n, false);
        UpdateAnyExt();
      }
    }

    method WriteEipWord(idx: nat, val: nat)
      requires Valid() && idx < WORDS
      modifies this`anyExt, eip
      ensures Valid() && View() == Refreshed(old(View()).(eip := TwoWords(old(eip[..]), idx, val)))
    {
      eip[idx] := WordOf(val);
      if idx + 1 < WORDS {
        eip[idx + 1] := WordOf(val / 0x1_0000_0000);
      }
      assert eip[..] == TwoWords(old(eip[..]), idx, val);
      UpdateAnyExt();
    }

    method WriteEieWord(idx: nat, val: nat)
      requires Valid() && idx < WORDS
      modifies eie
      ensures Valid() && View() == old(View()).(eie := TwoWords(old(eie[..]), idx, val))
    {
      eie[idx] := WordOf(val);
      if idx + 1 < WORDS {
        eie[idx + 1] := WordOf(val / 0x1_0000_0000);
      }
      assert eie[..] == TwoWords(old(eie[..]), idx, val);
    }

    method WriteNumberedBit(select: nat, val: nat)
      requires Valid()
      modifies this`anyExt, eip, eie
      ensures Valid() && View() == NumberedWrite(old(View()), select, val % MAX_IDS)
    {
      var n := val % MAX_IDS;
      var word, bit := n / 32, n % 32;
      if select == SEL_SETEIPNUM {
        eip[word] := eip[word][bit := true];
        assert eip[..] == SetBank(old(eip[..]), n, true);
        UpdateAnyExt();
      } else if select == SEL_CLREIPNUM {
        eip[word] := eip[word][bit := false];
        assert eip[..] == SetBank(old(eip[..]), n, false);
        UpdateAnyExt();
      } else if select == SEL_SETEIENUM {
        eie[word] := eie[word][bit := true];
        assert eie[..] == SetBank(old(eie[..]), n, true);
      } else if select == SEL_CLREIENUM {
        eie[word] := eie[word][bit := false];
        assert eie[..] == SetBank(old(eie[..]), n, false);
      }
    }

    method WriteCsr(select: nat, val: nat)
      requires Valid()
      modifies this, eip, eie
      ensures Valid() && View() == CsrWrite(old(View()), select, val)
    {
      if select == SEL_EIDELIVERY {
        eidelivery := val % 2 == 1;
      } else if select == SEL_EITHRESHOLD {
        eithreshold := val % 0x400;
      } else if SEL_EIP_BASE <= select <= SEL_EIP_END {
        WriteEipWord(select - SEL_EIP_BASE, val);
      } else if SEL_EIE_BASE <= select <= SEL_EIE_END {
        WriteEieWord(select - SEL_EIE_BASE, val);
      } else {
        WriteNumberedBit(select, val);
      }
    }

    /** The highest bit of word `i` that the scan may report, as an identity, or -1. */
    method CandidateTop(i: nat) returns (top: int)
      requires Valid() && i < WORDS
      ensures top == TopOf(View(), i)
    {
      var pe := And(eip[i], eie[i]);
      if i == 0 {
        pe := Or(And(eip[0], SwMask()), AndNot(pe, SwMask()));
      }
      top := if IsZero(pe) then -1 else 32 * i + BitLen(pe, 32) - 1;
    }

    method Peek() returns (r: nat)
      requires Valid()
      ensures r == PeekTopei(View())
    {
      hide TopOf, BankEmpty, ScanClaims, TopValue;
      var ipi := And(eip[0], SwMask());
      if !IsZero(ipi) {
        return TopValue(BitLen(ipi, 32) - 1);
      }
      if !eidelivery || !anyExt {
        return 0;
      }
      var i := WORDS;
      while i > 0
        invariant 0 <= i <= WORDS
        invariant Scan(View(), WORDS) == Scan(View(), i)
      {
        i := i - 1;
        var top := CandidateTop(i);
        if top != -1 && Prio(top) > eithreshold {
          return TopValue(top);
        }
      }
      return 0;
    }

    /** Clears one bit of word `i` and refreshes the flag. */
    method Take(i: nat, bit: nat)
      requires eip.Length == WORDS && eie.Length == WORDS && eip != eie && i < WORDS && bit < 32
      modifies this`anyExt, eip
      ensures Valid() && Taken(old(View()), View(), i, 32 * i + bit)
    {
      eip[i] := eip[i][bit := false];
      assert (32 * i + bit) / 32 == i && (32 * i + bit) % 32 == bit;
      assert eip[..] == SetBank(old(eip[..]), 32 * i + bit, false);
      UpdateAnyExt();
    }

    /** The claiming read: reports what a peek would and clears every candidate it passed on the way. */
    method Read() returns (r: nat)
      requires Valid()
      modifies this`anyExt, eip
      ensures Valid() && r == PeekTopei(old(View())) && Claimed(old(View()), View())
    {
      ghost var f := View();
      var ipi := And(eip[0], SwMask());
      if !IsZero(ipi) {
        var bit := BitLen(ipi, 32) - 1;
        Take(0, bit);
        return TopValue(bit);
      }
      if !eidelivery || !anyExt {
        return 0;
      }
      r := ReadScan();
    }

    /** The scan of a claiming read, with no IPI pending. */
    method ReadScan() returns (r: nat)
      requires Valid() && IpiLen(View()) == 0 && eidelivery && anyExt
      modifies this`anyExt, eip
      ensures Valid() && r == PeekTopei(old(View())) && Claimed(old(View()), View())
    {
      hide TopOf, Reading, Scan, ScanClaims, Candidates, Inv, BankEmpty, Pending, Taken;
      ghost var f := View();
      ghost var taken: set<nat> := {};
      ReadingBegins(f);
      var i := WORDS;
      while i > 0
        invariant 0 <= i <= WORDS
        invariant Valid() && Reading(f, View(), i, taken)
      {
        i := i - 1;
        ghost var g := View();
        var top := CandidateTop(i);
        ReadingSees(f, g, i, taken);
        if top != -1 {
          Take(i, top % 32);
          ReadingTakes(f, g, View(), i, taken);
          if Prio(top) > eithreshold {
            return TopValue(top);
          }
          taken := taken + {top};
        } else {
          ReadingSkips(f, g, i, taken);
        }
      }
      ReadingEnds(f, View(), taken);
      return 0;
    }
  }
}
