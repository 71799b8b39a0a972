/**
 The interrupt controller as the program keeps it: flat arrays shared with the engine, scanned and
 changed in place. Every method is tied to `PlicModel` through `View()`.
 */
module PlicClass {
  import opened Bits
  import opened Words
  import opened PlicModel

  class PLIC {
    const numSources: nat
    const numContexts: nat
    const priority: array<nat>
    const enable: array<Word>
    const threshold: array<nat>
    const claimed: array<nat>
    const pending: array<bool>
    const level: array<bool>

    ghost function View(): Plic
      reads priority, enable, threshold, claimed, pending, level
    {
      Plic(numSources, numContexts, priority[..], enable[..], threshold[..], claimed[..], pending[..], level[..])
    }

    ghost predicate Valid()
      reads priority, enable, threshold, claimed, pending, level
    {
      && View().Wf()
      && priority != threshold && priority != claimed && threshold != claimed && pending != level
    }

    constructor (numSources: nat, numContexts: nat)
      ensures Valid() && fresh(priority) && fresh(enable) && fresh(threshold) && fresh(claimed) && fresh(pending) && fresh(level)
      ensures View() == Initial(numSources, numContexts)
    {
      var words := (numSources + 31) / 32;
      MulSign(numContexts, words);
      this.numSources, this.numContexts := numSources, numContexts;
      priority := new nat[numSources + 1](_ => 0);
      enable := new Word[numContexts * words](_ => Zero());
      threshold := new nat[numContexts](_ => 0);
      claimed := new nat[numContexts](_ => 0);
      pending := new bool[numSources + 1](_ => false);
      level := new bool[numSources + 1](_ => false);
      new;
      assert enable[..] == Initial(numSources, numContexts).enable;
      assert priority[..] == Initial(numSources, numContexts).priority;
      assert threshold[..] == claimed[..] == Initial(numSources, numContexts).threshold;
      assert pending[..] == level[..] == Initial(numSources, numContexts).pending;
    }

    /** A device drives a source. */
    method SetSource(i: int, on: bool)
      requires Valid()
      modifies pending, level
      ensures Valid() && View() == SetIrq(old(View()), i, on)
    {
      if 0 < i <= numSources {
        level[i] := on;
        pending[i] := on;
      }
    }

    /** The first pending source in `[lo, hi)`, or -1. */
    method FindPending(lo: nat, hi: int) returns (i: int)
      requires Valid() && hi <= numSources + 1
      ensures i == -1 || lo <= i < hi
      ensures i == -1 ==> forall k | lo <= k < hi :: !pending[k]
      ensures i != -1 ==> pending[i] && forall k | lo <= k < i :: !pending[k]
    {
      i := lo;
      while i < hi
        invariant lo <= i && forall k | lo <= k < i && k < hi :: !pending[k]
      {
        if pending[i] {
          return;
        }
        i := i + 1;
      }
      i := -1;
    }

    /** Visits the pending sources in ascending order and keeps the best so far. */
    method Highest(c: nat) returns (best: nat)
      requires Valid() && c < numContexts
      ensures best == FindHighest(View(), c)
    {
      hide IsBest, Enabled, Before, BestUpTo;
      ghost var p := View();
      var words := (numSources + 31) / 32;
      var limit := if numSources <= words * 32 - 1 then numSources else words * 32 - 1;
      best := 0;
      var bestPrio := 0;
      NothingYet(p, c);
      var i := FindPending(1, limit + 1);
      SkipIdle(p, c, 0, if i == -1 then limit else i - 1);
      while i != -1
        invariant i == -1 || (1 <= i <= limit && pending[i])
        invariant best <= numSources && best == BestUpTo(p, c, if i == -1 then limit else i - 1)
        invariant bestPrio == if best == 0 then 0 else priority[best]
        decreases if i == -1 then 0 else limit + 1 - i
      {
        Visit(p, c, i);
        var enabled := EnableBit(c, i);
        if enabled {
          var pri := priority[i];
          if pri > threshold[c] && pri > bestPrio {
            bestPrio := pri;
            best := i;
          }
        }
        assert best == BestUpTo(p, c, i);
        assert bestPrio == if best == 0 then 0 else priority[best];
        var next := FindPending(i + 1, limit + 1);
        SkipIdle(p, c, i, if next == -1 then limit else next - 1);
        i := next;
      }
    }

    method EnableBit(c: nat, i: nat) returns (on: bool)
      requires Valid() && c < numContexts && i < 32 * View().EnableWords()
      ensures on == Enabled(View(), c, i)
    {
      ghost var k := EnableIndex(View(), c, i / 32);
      on := enable[c * ((numSources + 31) / 32) + i / 32][i % 32];
    }

    method DoClaim(c: nat) returns (source: nat)
      requires Valid() && c < numContexts
      modifies pending, claimed
      ensures Valid() && source == FindHighest(old(View()), c) && View() == Claim(old(View()), c)
      ensures if source == 0 then View() == old(View())
              else Servable(old(View()), c, source) && !pending[source] && claimed[c] == source
    {
      ServedIs(View(), c);
      hide FindHighest, Servable;
      source := Highest(c);
      if source > 0 {
        pending[source] := false;
        claimed[c] := source;
      }
    }

    method DoComplete(c: nat, i: nat)
      requires Valid() && c < numContexts
      modifies pending, claimed
      ensures Valid() && View() == Complete(old(View()), c, i)
    {
      if 0 < i <= numSources && claimed[c] == i {
        claimed[c] := 0;
        if level[i] {
          pending[i] := true;
        }
      }
    }

    method WriteEnableWord(c: nat, w: nat, v: Word)
      requires Valid()
      modifies enable
      ensures Valid() && View() == WriteEnable(old(View()), c, w, v)
    {
      var words := (numSources + 31) / 32;
      if c >= numContexts || w >= words {
        return;
      }
      var base := 32 * w;
      var bits := v;
      if base == 0 {
        bits := bits[0 := false];
      }
      var count := numSources + 1 - base;
      if count < 32 {
        bits := seq(32, b requires 0 <= b < 32 => bits[b] && b < count);
      }
      assert bits == SourceBits(old(View()), w, v);
      ghost var k := EnableIndex(old(View()), c, w);
      enable[c * words + w] := bits;
    }

    method WriteContextRegister(c: nat, off: nat, val: nat)
      requires Valid()
      modifies threshold, pending, claimed
      ensures Valid() && View() == WriteContext(old(View()), c, off, val)
    {
      if c >= numContexts {
        return;
      }
      if off == THRESHOLD_OFF {
        threshold[c] := val % 8;
      } else if off == CLAIM_OFF {
        DoComplete(c, val);
      }
    }

    method StoreRegister(offset: nat, val: nat)
      requires Valid()
      modifies priority, enable, threshold, pending, claimed
      ensures Valid() && View() == MmioWrite(old(View()), offset, val)
    {
      hide WriteEnable, WriteContext;
      if offset < PENDING_BASE {
        var src := offset / 4;
        if 1 <= src <= numSources {
          priority[src] := val % 8;
        }
        return;
      }
      if offset < ENABLE_BASE {
        return;
      }
      if offset < CONTEXT_BASE {
        var rel := offset - ENABLE_BASE;
        WriteEnableWord(rel / ENABLE_STRIDE, rel % ENABLE_STRIDE / 4, WordOf(val));
        return;
      }
      var rel := offset - CONTEXT_BASE;
      WriteContextRegister(rel / CONTEXT_STRIDE, rel % CONTEXT_STRIDE, val);
    }

    method ReadPendingWord(w: nat) returns (v: Word)
      requires Valid()
      ensures v == PendingWord(View(), w)
    {
      v := Zero();
      for i := 0 to 32
        invariant forall b | 0 <= b < 32 :: v[b] == (b < i && 32 * w + b <= numSources && pending[32 * w + b])
      {
        if 32 * w + i <= numSources && pending[32 * w + i] {
          v := v[i := true];
        }
      }
    }

    method ReadEnableWord(c: nat, w: nat) returns (v: Word)
      requires Valid()
      ensures v == ReadEnable(View(), c, w)
    {
      var words := (numSources + 31) / 32;
      if c >= numContexts || w >= words {
        return Zero();
      }
      ghost var k := EnableIndex(View(), c, w);
      v := enable[c * words + w];
    }

    method ReadContext(c: nat, off: nat) returns (v: Word)
      requires Valid()
      modifies pending, claimed
      ensures Valid() && v == ContextValue(old(View()), c, off)
      ensures View() == if c < numContexts && off == CLAIM_OFF then Claim(old(View()), c) else old(View())
    {
      hide FindHighest, WordOf;
      if c >= numContexts {
        return Zero();
      }
      if off == THRESHOLD_OFF {
        return WordOf(threshold[c] % 8);
      }
      if off == CLAIM_OFF {
        var source := DoClaim(c);
        return WordOf(source);
      }
      return Zero();
    }

    /** A read of any register; only the claim register has a side effect. */
    method LoadRegister(offset: nat) returns (v: Word)
      requires Valid()
      modifies pending, claimed
      ensures Valid() && v == LoadValue(old(View()), offset) && View() == MmioReadState(old(View()), offset)
    {
      hide FindHighest, WordOf, PendingWord, ReadEnable, ContextValue;
      if offset < PENDING_BASE {
        var src := offset / 4;
        return if 1 <= src <= numSources then WordOf(priority[src] % 8) else Zero();
      }
      if offset < ENABLE_BASE {
        v := ReadPendingWord((offset - PENDING_BASE) / 4);
        return;
      }
      if offset < CONTEXT_BASE {
        var rel := offset - ENABLE_BASE;
        v := ReadEnableWord(rel / ENABLE_STRIDE, rel % ENABLE_STRIDE / 4);
        return;
      }
      var rel := offset - CONTEXT_BASE;
      v := ReadContext(rel / CONTEXT_STRIDE, rel % CONTEXT_STRIDE);
    }

    method GetPendingMip(hart: nat) returns (mip: nat)
      requires Valid()
      ensures mip == PendingMip(View(), hart)
    {
      mip := 0;
      if 2 * hart < numContexts {
        var m := Highest(2 * hart);
        if m > 0 {
          mip := mip + MEIP;
        }
      }
      if 2 * hart + 1 < numContexts {
        var s := Highest(2 * hart + 1);
        if s > 0 {
          mip := mip + SEIP;
        }
      }
    }
  }

  lemma NothingYet(p: Plic, c: nat)
    requires p.Wf() && c < p.numContexts
    ensures p.Limit() >= -1 && BestUpTo(p, c, -1) == 0 && (p.Limit() >= 0 ==> BestUpTo(p, c, 0) == 0)
  {
  }

  /** One pending source: it takes the lead if it is enabled, above the threshold and strictly above the lead. */
  lemma Visit(p: Plic, c: nat, i: nat)
    requires p.Wf() && c < p.numContexts && 1 <= i <= p.Limit() && p.pending[i]
    ensures var best := BestUpTo(p, c, i - 1);
      best <= p.numSources
      && BestUpTo(p, c, i) == if Enabled(p, c, i) && p.priority[i] > p.threshold[c]
                                 && p.priority[i] > (if best == 0 then 0 else p.priority[best]) then i else best
  {
  }

  /** Sources that are not pending do not change the best so far. */
  lemma {:induction false} SkipIdle(p: Plic, c: nat, m: nat, n: int)
    requires p.Wf() && c < p.numContexts && n <= p.Limit()
    requires forall k | m < k <= n :: !p.pending[k]
    ensures m <= n ==> BestUpTo(p, c, n) == BestUpTo(p, c, m)
    decreases if n < m then 0 else n - m
  {
    if n > m {
      SkipIdle(p, c, m, n - 1);
    }
  }
}
