/**
 The TLB in place, proved against TlbModel.
 */
module TlbClass {
  import opened Options
  import opened TlbModel

  class TlbLine {
    var tag: Vpn
    var valid: bool
    var lastAccess: nat
    var entry: Mapping

    ghost function View(): Slot
      reads this
    {
      Slot(tag, valid, lastAccess, entry)
    }

    constructor ()
      ensures View() == EMPTY
    {
      tag, valid, lastAccess, entry := 0, false, 0, EMPTY.entry;
    }
  }

  ghost function Views(ls: seq<TlbLine>): (r: seq<Slot>)
    reads ls
    ensures |r| == |ls| && forall i | 0 <= i < |ls| :: r[i] == ls[i].View()
  {
    seq(|ls|, i requires 0 <= i < |ls| reads ls => ls[i].View())
  }

  ghost predicate Distinct(ls: seq<TlbLine>) {
    forall i, j | 0 <= i < j < |ls| :: ls[i] != ls[j]
  }

  method MakeLines(n: nat) returns (ls: seq<TlbLine>)
    ensures |ls| == n && Distinct(ls) && forall i | 0 <= i < n :: fresh(ls[i]) && ls[i].View() == EMPTY
  {
    ls := [];
    for i := 0 to n
      invariant |ls| == i && Distinct(ls) && forall j | 0 <= j < i :: fresh(ls[j]) && ls[j].View() == EMPTY
    {
      var l := new TlbLine();
      ls := ls + [l];
    }
  }

  method LruSlot(ls: seq<TlbLine>) returns (idx: nat)
    requires |ls| >= 1
    ensures idx == if FirstInvalid(Views(ls), 0) < |ls| then FirstInvalid(Views(ls), 0) else Oldest(Views(ls), |ls|)
  {
    ghost var ss := Views(ls);
    for i := 0 to |ls|
      invariant FirstInvalid(ss, 0) == FirstInvalid(ss, i)
    {
      assert ss[i] == ls[i].View();
      if !ls[i].valid {
        return i;
      }
    }
    idx := 0;
    var oldestTime := ls[0].lastAccess;
    assert ss[0] == ls[0].View();
    for i := 0 to |ls|
      invariant idx < |ls| && oldestTime == ss[idx].lastAccess
      invariant idx == if i == 0 then 0 else Oldest(ss, i)
    {
      assert ss[i] == ls[i].View();
      if ls[i].lastAccess < oldestTime {
        oldestTime := ls[i].lastAccess;
        idx := i;
      }
    }
  }

  lemma NextIndex(i: nat, n: nat)
    requires i < n
    ensures (i + 1) % n == if i + 1 == n then 0 else i + 1
  {
  }

  class TLB {
    const policy: Policy
    const entries: seq<TlbLine>
    var tagToIdx: map<Vpn, nat>
    var clock: nat
    var fifoPtr: nat

    ghost function View(): Tlb
      reads this, entries
    {
      Tlb(Views(entries), tagToIdx, clock, fifoPtr)
    }

    ghost predicate Valid()
      reads this, entries
    {
      Distinct(entries) && Inv(View())
    }

    constructor (size: nat, policy: Policy)
      requires size >= 1
      ensures Valid() && fresh(entries) && View() == EmptyTlb(size) && this.policy == policy
    {
      this.policy := policy;
      var ls := MakeLines(size);
      entries := ls;
      tagToIdx, clock, fifoPtr := map[], 0, 0;
    }

    /** Find the slot of a page. The dictionary never points at a stale slot. */
    method FindIndex(key: Vpn) returns (idx: int)
      requires Valid()
      modifies this`clock, entries
      ensures Valid() && View() == Lookup(old(View()), key, 0).0
      ensures idx == -1 <==> key !in tagToIdx
      ensures idx != -1 ==> key in tagToIdx && idx == tagToIdx[key] < |entries|
    {
      ghost var before := View();
      clock := clock + 1;
      if key in tagToIdx {
        idx := tagToIdx[key];
        var e := entries[idx];
        assert e.View() == before.slots[idx];
        if e.valid && e.tag == key {
          e.lastAccess := clock;
          assert Views(entries) == before.slots[idx := e.View()];
          return;
        }
        assert false;
      }
      return -1;
    }

    method LookupVpn(vpn: Vpn, asid: nat) returns (r: Option<Mapping>)
      requires Valid()
      modifies this`clock, entries
      ensures Valid() && (View(), r) == Lookup(old(View()), vpn, asid)
      ensures Contents(View()) == old(Contents(View()))
      ensures r.Some? <==> vpn in Contents(View()) && AsidMatches(Contents(View())[vpn], asid)
      ensures r.Some? ==> r.value == Contents(View())[vpn]
    {
      LookupIsRead(View(), vpn, asid);
      ghost var before := View();
      var idx := FindIndex(vpn);
      if idx == -1 {
        return None;
      }
      var e := entries[idx];
      assert e.View() == View().slots[idx];
      if asid != 0 && e.entry.asid != 0 && e.entry.asid != asid {
        return None;
      }
      return Some(e.entry);
    }

    /** The slot to replace: the FIFO pointer, or the first free or least recently used slot. */
    method PickSlot() returns (idx: nat)
      requires |entries| >= 1 && fifoPtr < |entries|
      modifies this`fifoPtr
      ensures idx < |entries| && (idx, fifoPtr) == PickVictim(policy, old(View()))
    {
      if policy == Fifo {
        idx := fifoPtr;
        NextIndex(fifoPtr, |entries|);
        fifoPtr := (fifoPtr + 1) % |entries|;
      } else {
        idx := LruSlot(entries);
      }
    }

    /** Enter a translation; the page keeps its slot when it has one. */
    method InsertEntry(vpn: Vpn, entry: Mapping)
      requires Valid()
      modifies this, entries
      ensures Valid() && View() == Insert(policy, old(View()), vpn, entry)
    {
      hide Contents, PickVictim, Insert;
      ghost var before := View();
      InsertIsUpdate(policy, before, vpn, entry);
      clock := clock + 1;
      if vpn in tagToIdx {
        var e := entries[tagToIdx[vpn]];
        assert e.View() == before.slots[tagToIdx[vpn]];
        if e.valid && e.tag == vpn {
          UpdateSlot(e, tagToIdx[vpn], entry);
          SameUpdate(before, vpn, entry);
          return;
        }
        assert false;
      }
      var idx := PickSlot();
      FillSlot(entries[idx], idx, vpn, entry);
      SameInsertion(before, View(), vpn, entry, idx);
    }

    lemma SameUpdate(t: Tlb, vpn: Vpn, entry: Mapping)
      requires Inv(t) && vpn in t.index
      ensures var (t1, i) := (t.(clock := t.clock + 1), t.index[vpn]);
              Insert(policy, t, vpn, entry) == t1.(slots := t1.slots[i := t1.slots[i].(entry := entry, lastAccess := t1.clock)])
    {
    }

    lemma SameInsertion(t: Tlb, t': Tlb, vpn: Vpn, entry: Mapping, i: nat)
      requires Inv(t) && vpn !in t.index
      requires var t1 := t.(clock := t.clock + 1);
               && i == PickVictim(policy, t1).0
               && t' == t1.(slots := t1.slots[i := Slot(vpn, true, t1.clock, entry)],
                            index := (if t1.slots[i].valid then t1.index - {t1.slots[i].tag} else t1.index)[vpn := i],
                            fifo := PickVictim(policy, t1).1)
      ensures t' == Insert(policy, t, vpn, entry)
    {
    }

    method UpdateSlot(e: TlbLine, ghost idx: nat, entry: Mapping)
      requires Distinct(entries) && idx < |entries| && e == entries[idx]
      modifies e
      ensures var t := old(View());
              View() == t.(slots := t.slots[idx := t.slots[idx].(entry := entry, lastAccess := t.clock)])
    {
      ghost var slots := Views(entries);
      e.entry := entry;
      e.lastAccess := clock;
      assert Views(entries) == slots[idx := e.View()];
    }

    method FillSlot(victim: TlbLine, idx: nat, vpn: Vpn, entry: Mapping)
      requires Distinct(entries) && idx < |entries| && victim == entries[idx]
      modifies this`tagToIdx, victim
      ensures var t := old(View());
              View() == t.(slots := t.slots[idx := Slot(vpn, true, t.clock, entry)],
                           index := (if t.slots[idx].valid then t.index - {t.slots[idx].tag} else t.index)[vpn := idx])
    {
      ghost var slots := Views(entries);
      if victim.valid {
        tagToIdx := tagToIdx - {victim.tag};
      }
      victim.tag := vpn;
      victim.entry := entry;
      victim.valid := true;
      victim.lastAccess := clock;
      tagToIdx := tagToIdx[vpn := idx];
      assert Views(entries) == slots[idx := victim.View()];
    }

    method FlushEverything()
      requires Valid()
      modifies this`tagToIdx, entries
      ensures Valid() && View() == FlushAll(old(View())) && Contents(View()) == map[]
    {
      ghost var before := View();
      FlushIsRemoval(before, 0);
      for i := 0 to |entries|
        invariant tagToIdx == before.index && clock == before.clock && fifoPtr == before.fifo
        invariant forall j | 0 <= j < |entries| ::
                    Views(entries)[j] == if j < i then before.slots[j].(valid := false, tag := 0) else before.slots[j]
      {
        ghost var slots := Views(entries);
        var e := entries[i];
        e.valid := false;
        e.tag := 0;
        assert Views(entries) == slots[i := e.View()];
      }
      tagToIdx := map[];
      assert View().slots == FlushAll(before).slots;
    }

    /** Flush one page, or everything for page number zero. */
    method FlushPage(vpn: Vpn)
      requires Valid()
      modifies this`tagToIdx, entries
      ensures Valid() && View() == Flush(old(View()), vpn)
      ensures Contents(View()) == if vpn == 0 then map[] else old(Contents(View())) - {vpn}
    {
      FlushIsRemoval(View(), vpn);
      if vpn == 0 {
        FlushEverything();
        return;
      }
      if vpn !in tagToIdx {
        return;
      }
      ghost var before := View();
      var idx := tagToIdx[vpn];
      tagToIdx := tagToIdx - {vpn};
      var e := entries[idx];
      assert e.View() == before.slots[idx];
      e.valid := false;
      e.tag := 0;
      e.entry := e.entry.(ppn := 0, perm := NO_PERM, level := 0);
      assert Views(entries) == before.slots[idx := e.View()];
    }

    method FlushByMdid(mdid: nat)
      requires Valid()
      modifies this`tagToIdx, entries
      ensures Valid() && View() == DropDomain(old(View()), mdid, 0)
      ensures Contents(View()) == Others(old(Contents(View())), mdid)
    {
      hide Inv, Contents;
      ghost var before := View();
      DropDomainIsRemoval(before, mdid, 0);
      for i := 0 to |entries|
        invariant DropDomain(View(), mdid, i) == DropDomain(before, mdid, 0)
      {
        var e := entries[i];
        assert View().slots[i] == e.View();
        if e.valid && e.entry.mdid == mdid {
          DropEntry(e, i);
        }
      }
    }

    method DropEntry(e: TlbLine, ghost i: nat)
      requires Distinct(entries) && i < |entries| && e == entries[i]
      modifies this`tagToIdx, e
      ensures var t := old(View());
              View() == t.(slots := t.slots[i := t.slots[i].(valid := false, tag := 0)], index := t.index - {t.slots[i].tag})
    {
      ghost var slots := Views(entries);
      tagToIdx := tagToIdx - {e.tag};
      e.valid := false;
      e.tag := 0;
      assert Views(entries) == slots[i := e.View()];
    }
  }
}
