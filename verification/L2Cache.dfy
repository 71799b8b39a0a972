/**
 The L2 cache in place: line objects updated by reference, the tag dictionary beside them, and the
 RAM buffer behind. Each method is proved against the operation of the same name on `View()`.
 */
module L2CacheClass {
  import opened Bits
  import opened L2Model
  import T = L2Transparency
  import H = L2Handoff
  import Lru = L2Lru

  /** The RAM buffer and its address window. */
  class DirectRam {
    const base: nat
    const size: nat
    const bytes: array<Byte>

    ghost predicate Valid() {
      bytes.Length == size
    }

    ghost function Window(): Config {
      Config(1, 1, 1, base, size)
    }

    constructor (size: nat, base: nat)
      ensures Valid() && fresh(bytes) && this.size == size && this.base == base
      ensures forall k | 0 <= k < size :: bytes[k] == 0
    {
      this.base, this.size := base, size;
      bytes := new Byte[size](_ => 0);
    }

    method Read(addr: nat, n: nat) returns (r: seq<Byte>)
      requires Valid()
      ensures r == RamRead(Window(), bytes[..], addr, n)
    {
      if base <= addr && addr + n <= base + size {
        r := bytes[addr - base..addr - base + n];
      } else {
        r := seq(n, _ => 0);
      }
    }

    method Write(addr: nat, data: seq<Byte>)
      requires Valid()
      modifies bytes
      ensures bytes[..] == RamWrite(Window(), old(bytes[..]), addr, data)
    {
      if base <= addr && addr + |data| <= base + size {
        var at := addr - base;
        ghost var was := bytes[..];
        forall k | 0 <= k < |data| {
          bytes[at + k] := data[k];
        }
        assert bytes[..] == Splice(was, at, data);
      }
    }
  }

  class CacheLine {
    var tag: nat
    var valid: bool
    var mesi: Mesi
    var lastAccess: nat
    var mdid: nat
    var data: seq<Byte>

    ghost function View(): Line
      reads this
    {
      Line(tag, valid, mesi, lastAccess, mdid, data)
    }

    constructor ()
      ensures View() == Line(0, false, Invalid, 0, 0, [])
    {
      tag, valid, mesi, lastAccess, mdid, data := 0, false, Invalid, 0, 0, [];
    }

    method Load(tag: nat, data: seq<Byte>, now: nat, mdid: nat)
      modifies this
      ensures View() == Line(tag, true, Exclusive, now, mdid, data)
    {
      this.tag := tag;
      this.data := data;
      valid := true;
      mesi := Exclusive;
      this.mdid := mdid;
      lastAccess := now;
    }
  }

  ghost predicate Distinct(ls: seq<CacheLine>) {
    forall i, j | 0 <= i < j < |ls| :: ls[i] != ls[j]
  }

  ghost function Views(ls: seq<CacheLine>): (r: seq<Line>)
    reads ls
    ensures |r| == |ls| && forall i | 0 <= i < |ls| :: r[i] == ls[i].View()
  {
    seq(|ls|, i requires 0 <= i < |ls| reads ls => ls[i].View())
  }

  /** The number of sets that fit, but at least one. */
  method SetCount(size: nat, setSize: nat) returns (n: nat)
    requires setSize >= 1
    ensures n >= 1 && n == if size >= setSize then size / setSize else 1
  {
    n := if size / setSize >= 1 then size / setSize else 1;
  }

  method MakeLines(n: nat) returns (ls: seq<CacheLine>)
    ensures |ls| == n && Distinct(ls)
    ensures forall i | 0 <= i < n :: fresh(ls[i]) && ls[i].View() == Line(0, false, Invalid, 0, 0, [])
  {
    ls := [];
    for i := 0 to n
      invariant |ls| == i && Distinct(ls)
      invariant forall j | 0 <= j < i :: fresh(ls[j]) && ls[j].View() == Line(0, false, Invalid, 0, 0, [])
    {
      var l := new CacheLine();
      ls := ls + [l];
    }
  }

  class L2Cache {
    const lineSize: nat
    const ways: nat
    const numSets: nat
    const lineShift: nat
    const lineMask: nat
    const setMask: nat
    const entries: seq<CacheLine>
    const ram: DirectRam
    var tagToIdx: map<nat, nat>
    var clock: nat
    var currentMdid: nat

    ghost function Cfg(): Config {
      Config(lineSize, ways, numSets, ram.base, ram.size)
    }

    ghost function View(): Cache
      reads this, entries, ram.bytes
    {
      Cache(Views(entries), tagToIdx, clock, currentMdid, ram.bytes[..])
    }

    ghost predicate Wired() {
      && Distinct(entries) && ram.Valid() && lineSize >= 1 && numSets >= 1
      && Pow2(lineShift) == lineSize && lineMask == lineSize - 1 && setMask == numSets - 1
    }

    ghost predicate Valid()
      reads this, entries, ram.bytes
    {
      Wired() && Inv(Cfg(), View())
    }

    /** The memory this cache presents. */
    ghost function Memory(): seq<Byte>
      requires Valid()
      reads this, entries, ram.bytes
    {
      Flat(Cfg(), View())
    }

    constructor (size: nat, lineSize: nat, ways: nat, ram: DirectRam)
      requires PowerOfTwo(lineSize) && lineSize >= 1 && ways >= 1
      requires ram.Valid() && ram.base % lineSize == 0 && ram.size % lineSize == 0
      ensures Valid() && fresh(entries) && this.ram == ram
      ensures Memory() == ram.bytes[..] && View() == Lru.Fresh(Cfg(), ram.bytes[..])
      ensures this.lineSize == lineSize && this.ways == ways
      ensures (MulPositive(lineSize, ways); numSets == if size >= lineSize * ways then size / (lineSize * ways) else 1)
    {
      this.lineSize, this.ways, this.ram := lineSize, ways, ram;
      MulPositive(lineSize, ways);
      var sets := SetCount(size, lineSize * ways);
      numSets := sets;
      lineShift := BitLength(lineSize - 1);
      PowerOfTwoShift(lineSize);
      lineMask, setMask := lineSize - 1, sets - 1;
      var ls := MakeLines(sets * ways);
      entries := ls;
      tagToIdx, clock, currentMdid := map[], 0, 0;
      new;
      hide Inv, Flat;
      assert View() == Lru.Fresh(Cfg(), ram.bytes[..]);
      Lru.FreshInv(Cfg(), ram.bytes[..]);
    }

    /** The shift and masks of the code split an address into tag, set and offset. */
    lemma Fields(addr: nat)
      requires Wired()
      ensures addr / Pow2(lineShift) == TagOf(Cfg(), addr)
      ensures BitAnd(addr, lineMask) == OffsetOf(Cfg(), addr)
      ensures BitAnd(addr / Pow2(lineShift), setMask) == SetOf(Cfg(), TagOf(Cfg(), addr))
    {
      MaskIsRemainder(addr, lineShift);
    }

    /** `ws` are the lines of set `k`. */
    ghost predicate SetSlice(k: nat, ws: seq<CacheLine>) {
      && 0 <= k * ways && k * ways + ways <= |entries| && |ws| == ways
      && forall w | 0 <= w < ways :: ws[w] == entries[k * ways + w]
    }

    /** The lines of set `k`. */
    method SetEntries(k: nat) returns (ws: seq<CacheLine>)
      requires Valid() && k < numSets
      ensures SetSlice(k, ws) && Views(ws) == WaysOf(Cfg(), View(), k)
    {
      hide Clean, Placed, IndexExact;
      SetBounds(Cfg(), k);
      ws := entries[k * ways..k * ways + ways];
      assert forall w | 0 <= w < |ws| :: ws[w].View() == View().lines[k * ways + w];
    }

    /** The lines of the set of `tag`; the tag dictionary agrees with them. */
    method WayEntries(k: nat, ghost tag: nat) returns (ws: seq<CacheLine>)
      requires Valid() && k == SetOf(Cfg(), tag)
      ensures SetSlice(k, ws) && Views(ws) == WaysOf(Cfg(), View(), k)
      ensures tag in tagToIdx <==> exists w :: 0 <= w < |ws| && ws[w].valid && ws[w].tag == tag
      ensures forall w | 0 <= w < |ws| && ws[w].valid && ws[w].tag == tag ::
                tag in tagToIdx && tagToIdx[tag] == k * ways + w
      ensures tag in tagToIdx ==> tagToIdx[tag] < |entries|
    {
      hide Clean, Placed, IndexExact, SetSlice, WaysOf;
      ws := SetEntries(k);
      Lru.WaysKnowTag(Cfg(), View(), tag);
      assert forall w | 0 <= w < |ws| :: ws[w].View() == WaysOf(Cfg(), View(), k)[w];
    }

    /** A MODIFIED line goes back to RAM before its place is given away. */
    method WriteBackLine(e: CacheLine)
      requires Wired()
      modifies ram.bytes
      ensures ram.bytes[..] == WriteBack(Cfg(), old(ram.bytes[..]), e.View())
    {
      if e.valid && e.mesi == Modified {
        var pa := e.tag * Pow2(lineShift);
        assert pa == LineBase(Cfg(), e.tag);
        ram.Write(pa, e.data);
      }
    }

    /** The whole line around an address. */
    method ReadLineFromRam(addr: nat, tag: nat) returns (data: seq<Byte>)
      requires Wired() && tag == addr / Pow2(lineShift)
      ensures data == RamRead(Cfg(), ram.bytes[..], LineBase(Cfg(), tag), lineSize)
    {
      var lineAddr := addr / Pow2(lineShift) * Pow2(lineShift);
      data := ram.Read(lineAddr, lineSize);
    }

    /** Write the victim back when MODIFIED, and load the line of `addr` in its place. */
    method Replace(addr: nat, tag: nat, victim: CacheLine, idx: nat)
      requires Wired() && idx < |entries| && victim == entries[idx]
      requires tag == addr / Pow2(lineShift)
      modifies this, entries, ram.bytes
      ensures View() == FillAt(Cfg(), old(View()), tag, idx)
    {
      hide Inv, RamRead, RamWrite, WriteBack;
      ghost var lines := Views(entries);
      WriteBackLine(victim);
      var lineData := ReadLineFromRam(addr, tag);
      if victim.valid {
        tagToIdx := tagToIdx - {victim.tag};
      }
      victim.Load(tag, lineData, clock, currentMdid);
      tagToIdx := tagToIdx[tag := idx];
      assert Views(entries) == lines[idx := victim.View()];
    }

    /** The victim of the set of `tag`, as a way and as an entry. */
    method VictimOf(tag: nat, wayEntries: seq<CacheLine>) returns (e: CacheLine, idx: nat)
      requires Valid() && SetSlice(SetOf(Cfg(), tag), wayEntries)
      requires Views(wayEntries) == WaysOf(Cfg(), View(), SetOf(Cfg(), tag))
      ensures idx < |entries| && e == entries[idx] && idx == VictimEntry(Cfg(), View(), tag)
    {
      hide Clean, Placed, IndexExact, Flat;
      SetMaskOf(tag);
      var victimIdx := PickVictimInSet(wayEntries);
      idx := BitAnd(tag, setMask) * ways + victimIdx;
      e := wayEntries[victimIdx];
    }

    lemma SetMaskOf(tag: nat)
      requires Valid()
      ensures BitAnd(tag, setMask) == SetOf(Cfg(), tag)
    {
      PartsOf(Cfg(), tag, 0);
      Fields(LineBase(Cfg(), tag));
    }

    /** A miss: evict a line of the set and load the line from RAM. */
    method LoadLine(addr: nat, wayEntries: seq<CacheLine>, tag: nat) returns (e: CacheLine)
      requires Valid() && tag == TagOf(Cfg(), addr) && tag !in tagToIdx
      requires SetSlice(SetOf(Cfg(), tag), wayEntries)
      requires Views(wayEntries) == WaysOf(Cfg(), View(), SetOf(Cfg(), tag))
      modifies this, entries, ram.bytes
      ensures Valid() && View() == Fill(Cfg(), old(View()), tag)
      ensures tag in tagToIdx && tagToIdx[tag] < |entries| && e == entries[tagToIdx[tag]]
    {
      hide VictimEntry, SetOf, Victim, WaysOf, Clean, Placed, Flat;
      FillKeeps(Cfg(), View(), tag);
      var idx;
      e, idx := VictimOf(tag, wayEntries);
      Fields(addr);
      Replace(addr, tag, e, idx);
    }

    /** A hit makes the line the most recently used of its set. */
    method TouchLine(e: CacheLine, ghost i: nat)
      requires Wired() && i < |entries| && e == entries[i]
      modifies e
      ensures View() == Touch(old(View()), i)
    {
      ghost var lines := Views(entries);
      e.lastAccess := clock;
      e.mdid := currentMdid;
      assert Views(entries) == lines[i := e.View()];
    }

    /** The resident line of `tag`, after a hit or a miss, as the most recently used of its set. */
    method Locate(addr: nat, tag: nat, k: nat) returns (e: CacheLine)
      requires Valid() && tag == TagOf(Cfg(), addr) && k == SetOf(Cfg(), tag)
      modifies this, entries, ram.bytes
      ensures Valid() && View() == Access(Cfg(), old(View()), tag)
      ensures tag in tagToIdx && tagToIdx[tag] < |entries| && e == entries[tagToIdx[tag]]
      ensures e.View() == View().lines[tagToIdx[tag]] && |e.data| == lineSize
    {
      hide Inv, FillAt, WaysOf;
      AccessKeeps(Cfg(), View(), tag);
      var ws := WayEntries(k, tag);
      var w := FindWay(ws, tag);
      if w >= 0 {
        e := ws[w];
        TouchLine(e, tagToIdx[tag]);
      } else {
        e := LoadLine(addr, ws, tag);
      }
      ResidentLine(tag);
    }

    lemma ResidentLine(tag: nat)
      requires Valid() && tag in tagToIdx
      ensures tagToIdx[tag] < |entries| && entries[tagToIdx[tag]].View() == View().lines[tagToIdx[tag]]
      ensures |entries[tagToIdx[tag]].data| == lineSize
    {
    }

    /** The part of a load that lies in one line. */
    method ReadInLine(addr: nat, n: nat) returns (chunk: seq<Byte>)
      requires Valid() && OffsetOf(Cfg(), addr) + n <= lineSize
      modifies this, entries, ram.bytes
      ensures Valid() && (View(), chunk) == T.ReadLine(Cfg(), old(View()), addr, n)
    {
      hide Flat, Clean, Placed, Access, RamRead;
      Fields(addr);
      var offset := BitAnd(addr, lineMask);
      var tag := addr / Pow2(lineShift);
      var e := Locate(addr, tag, BitAnd(tag, setMask));
      chunk := e.data[offset..offset + n];
    }

    /** A load of any length. */
    method Read(addr: nat, size: nat) returns (data: seq<Byte>)
      requires Valid()
      modifies this, entries, ram.bytes
      ensures Valid() && (View(), data) == T.Read(Cfg(), old(View()), addr, size)
      ensures Memory() == old(Memory())
      ensures Cfg().InRam(addr, size) ==> data == Memory()[addr - ram.base..addr - ram.base + size]
    {
      hide Views, Flat, T.ReadFrom, T.ReadLine, Clean, Placed, IndexExact;
      T.TickKeeps(Cfg(), View());
      clock := clock + 1;
      ghost var start := View();
      Fields(addr);
      T.ReadBegins(Cfg(), start, addr, size);
      if BitAnd(addr, lineMask) + size <= lineSize {
        data := ReadInLine(addr, size);
        return;
      }
      data := ReadAcross(addr, size);
    }

    /** The part of a load that goes on over several lines. */
    method ReadAcross(addr: nat, size: nat) returns (data: seq<Byte>)
      requires Valid() && size > 0
      modifies this, entries, ram.bytes
      ensures Valid() && (View(), data) == T.ReadFrom(Cfg(), old(View()), addr, size)
    {
      hide Inv, Views, Flat, T.ReadFrom, T.ReadLine, T.ReadPending, T.Agrees;
      ghost var start := View();
      T.ReadBegins(Cfg(), start, addr, size);
      data := [];
      var curAddr: nat, remaining: nat := addr, size;
      while remaining > 0
        invariant Valid() && T.ReadPending(Cfg(), start, addr, size, View(), data, curAddr, remaining)
        invariant remaining == 0 ==> T.ReadFrom(Cfg(), start, addr, size) == (View(), data)
      {
        Fields(curAddr);
        T.ReadAdvance(Cfg(), start, addr, size, View(), data, curAddr, remaining);
        var room := lineSize - BitAnd(curAddr, lineMask);
        var chunkSize := if remaining <= room then remaining else room;
        var chunk := ReadInLine(curAddr, chunkSize);
        data, curAddr, remaining := data + chunk, curAddr + chunkSize, remaining - chunkSize;
      }
    }

    /** The part of a store that lies in one line; the line becomes MODIFIED. */
    method WriteInLine(addr: nat, chunk: seq<Byte>)
      requires Valid() && OffsetOf(Cfg(), addr) + |chunk| <= lineSize
      modifies this, entries, ram.bytes
      ensures Valid() && View() == T.WriteLine(Cfg(), old(View()), addr, chunk)
    {
      hide Inv, Access, Flat, T.WriteLine;
      T.WriteLineIs(Cfg(), View(), addr, chunk);
      Fields(addr);
      var offset := BitAnd(addr, lineMask);
      var tag := addr / Pow2(lineShift);
      var e := Locate(addr, tag, BitAnd(tag, setMask));
      PokeLine(e, tagToIdx[tag], offset, chunk);
    }

    method PokeLine(e: CacheLine, ghost i: nat, offset: nat, chunk: seq<Byte>)
      requires Wired() && i < |entries| && e == entries[i] && offset + |chunk| <= |e.data|
      modifies e
      ensures View() == Poke(old(View()), i, offset, chunk)
    {
      ghost var lines := Views(entries);
      e.data := e.data[..offset] + chunk + e.data[offset + |chunk|..];
      e.mesi := Modified;
      assert Views(entries) == lines[i := e.View()];
    }

    /** A store of any length. */
    method Write(addr: nat, data: seq<Byte>)
      requires Valid()
      modifies this, entries, ram.bytes
      ensures Valid() && View() == T.Write(Cfg(), old(View()), addr, data)
      ensures Memory() == T.Stored(Cfg(), old(Memory()), addr, data)
    {
      hide Inv, Views, Flat, T.WriteFrom, T.WriteLine, T.WritePending;
      T.TickKeeps(Cfg(), View());
      clock := clock + 1;
      ghost var start := View();
      Fields(addr);
      T.WriteBegins(Cfg(), start, addr, data);
      if BitAnd(addr, lineMask) + |data| <= lineSize {
        WriteInLine(addr, data);
        return;
      }
      var remaining, curAddr: nat := data, addr;
      while remaining != []
        invariant Valid() && T.WritePending(Cfg(), start, addr, data, View(), curAddr, remaining)
        invariant remaining == [] ==> T.WriteFrom(Cfg(), start, addr, data) == View()
        decreases |remaining|
      {
        Fields(curAddr);
        T.WriteAdvance(Cfg(), start, addr, data, View(), curAddr, remaining);
        var room := lineSize - BitAnd(curAddr, lineMask);
        var chunkSize := if |remaining| <= room then |remaining| else room;
        WriteInLine(curAddr, remaining[..chunkSize]);
        remaining, curAddr := remaining[chunkSize..], curAddr + chunkSize;
      }
    }

    /** Give up the line of one address, writing it back when MODIFIED. */
    method Invalidate(addr: nat)
      requires Valid()
      modifies this, entries, ram.bytes
      ensures Valid() && View() == T.Invalidate(Cfg(), old(View()), addr)
      ensures Memory() == old(Memory())
    {
      hide Flat, Clean, Placed;
      ghost var before := View();
      T.InvalidateIsTransparent(Cfg(), before, addr);
      Fields(addr);
      var tag := addr / Pow2(lineShift);
      if tag !in tagToIdx {
        return;
      }
      var idx := tagToIdx[tag];
      tagToIdx := tagToIdx - {tag};
      var e := entries[idx];
      assert e.View() == before.lines[idx];
      WriteBackLine(e);
      e.valid := false;
      e.mesi := Invalid;
      assert Views(entries) == before.lines[idx := e.View()];
    }

    /** Write back and drop every line of a memory domain. */
    method FlushByMdid(domain: nat)
      requires Valid()
      modifies this, entries, ram.bytes
      ensures Valid() && View() == T.DropDomain(Cfg(), old(View()), domain, 0)
      ensures Memory() == old(Memory())
      ensures forall i | 0 <= i < |entries| :: !(entries[i].valid && entries[i].mdid == domain)
    {
      hide Inv, Flat, WriteBack;
      ghost var before := View();
      T.DropDomainIsTransparent(Cfg(), before, domain, 0);
      for i := 0 to |entries|
        invariant Wired()
        invariant T.DropDomain(Cfg(), View(), domain, i) == T.DropDomain(Cfg(), before, domain, 0)
      {
        var e := entries[i];
        assert View().lines[i] == e.View();
        if e.valid && e.mdid == domain {
          DropEntry(e, i);
        }
      }
      forall i | 0 <= i < |entries|
        ensures !(entries[i].valid && entries[i].mdid == domain)
      {
        assert View().lines[i] == entries[i].View();
      }
    }

    method DropEntry(e: CacheLine, ghost i: nat)
      requires Wired() && i < |entries| && e == entries[i] && e.valid
      modifies this, e, ram.bytes
      ensures var s := old(View());
              View() == s.(ram := WriteBack(Cfg(), s.ram, s.lines[i]),
                           lines := s.lines[i := s.lines[i].(valid := false, tag := 0)],
                           index := s.index - {s.lines[i].tag})
    {
      ghost var lines := Views(entries);
      WriteBackLine(e);
      tagToIdx := tagToIdx - {e.tag};
      e.valid := false;
      e.tag := 0;
      assert Views(entries) == lines[i := e.View()];
    }

    /** Write every MODIFIED line back; the lines stay valid. RAM then holds all of memory. */
    method FlushAll()
      requires Valid()
      modifies entries, ram.bytes
      ensures Valid() && View() == H.Flushed(Cfg(), old(View()))
      ensures ram.bytes[..] == Memory() == old(Memory())
    {
      hide Inv, Flat, H.Flushing;
      ghost var before := View();
      H.FlushedKeeps(Cfg(), before);
      H.FlushingBegins(Cfg(), before);
      var todo := tagToIdx.Keys;
      while todo != {}
        invariant Wired() && todo <= tagToIdx.Keys && H.Flushing(Cfg(), before, todo, View())
      {
        var t :| t in todo;
        ghost var cur := View();
        H.FlushingValid(Cfg(), before, todo, cur, t);
        assert cur.lines[tagToIdx[t]] == entries[tagToIdx[t]].View();
        FlushLine(entries[tagToIdx[t]], tagToIdx[t]);
        H.FlushingStep(Cfg(), before, todo, cur, t, View());
        todo := todo - {t};
      }
      H.FlushingEnds(Cfg(), before, View());
    }

    method FlushLine(e: CacheLine, ghost i: nat)
      requires Wired() && i < |entries| && e == entries[i] && e.valid
      modifies e, ram.bytes
      ensures var s := old(View());
              View() == s.(lines := s.lines[i := H.Demote(s.lines[i])], ram := WriteBack(Cfg(), s.ram, s.lines[i]))
    {
      ghost var lines := Views(entries);
      if e.mesi == Modified {
        WriteBackLine(e);
        e.mesi := Exclusive;
      }
      assert Views(entries) == lines[i := e.View()];
    }

    method EmptyLine(e: CacheLine, ghost i: nat)
      requires Wired() && i < |entries| && e == entries[i] && e.valid
      modifies e
      ensures View() == old(View()).(lines := old(View()).lines[i := H.Emptied(old(View()).lines[i])])
    {
      ghost var lines := Views(entries);
      e.valid := false;
      e.mesi := Invalid;
      assert Views(entries) == lines[i := e.View()];
    }

    /** Drop every line without writing it back: what RAM holds is now all of memory. */
    method InvalidateAll()
      requires Wired() && Cfg().Wf() && Shape(Cfg(), View()) && IndexExact(View())
      modifies this, entries
      ensures View() == H.Discarded(old(View()))
    {
      hide IndexExact, H.Emptying, H.Discarded, H.Emptied;
      ghost var before := View();
      H.EmptyingEnds(before, before);
      var todo := tagToIdx.Keys;
      while todo != {}
        invariant Wired() && tagToIdx == before.index && todo <= tagToIdx.Keys && H.Emptying(before, todo, View())
      {
        var t :| t in todo;
        H.EmptyingStep(before, todo, View(), t);
        assert View().lines[tagToIdx[t]] == entries[tagToIdx[t]].View();
        EmptyLine(entries[tagToIdx[t]], tagToIdx[t]);
        todo := todo - {t};
      }
      H.EmptyingEnds(before, View());
      tagToIdx := map[];
    }
  }

  /** The path to main memory: the cache, and RAM itself for bulk stores. */
  class MainMem {
    const ram: DirectRam
    const l2: L2Cache

    ghost predicate Valid()
      reads this, l2, l2.entries, l2.ram.bytes
    {
      l2.ram == ram && l2.Valid()
    }

    constructor (ram: DirectRam, l2: L2Cache)
      requires l2.ram == ram && l2.Valid()
      ensures Valid() && this.ram == ram && this.l2 == l2
    {
      this.ram, this.l2 := ram, l2;
    }

    method Read(addr: nat, size: nat) returns (data: seq<Byte>)
      requires Valid()
      modifies l2, l2.entries, ram.bytes
      ensures Valid() && l2.Memory() == old(l2.Memory())
      ensures ram.base <= addr && addr + size <= ram.base + ram.size ==>
                data == l2.Memory()[addr - ram.base..addr - ram.base + size]
    {
      hide Inv, Flat, Views;
      data := l2.Read(addr, size);
    }

    /**
     Stores of at most eight bytes always update logical memory; longer ones that start in RAM go to RAM only,
     and `H.BypassIsTransparentIff` says what they present where a valid line lies.
     */
    method Write(addr: nat, data: seq<Byte>)
      requires Valid()
      modifies l2, l2.entries, ram.bytes
      ensures |data| <= 8 ==> Valid() && l2.Memory() == T.Stored(l2.Cfg(), old(l2.Memory()), addr, data)
      ensures |data| > 8 && ram.base <= addr < ram.base + ram.size ==>
                l2.View() == old(l2.View()).(ram := RamWrite(l2.Cfg(), old(ram.bytes[..]), addr, data))
      ensures H.Bulk(l2.Cfg(), H.Store(addr, data)) ==> l2.View() == H.Bypass(l2.Cfg(), old(l2.View()), addr, data)
      ensures old(H.Allowed(l2.Cfg(), l2.View(), H.Store(addr, data))) ==>
                && Valid() && l2.View() == H.Step(l2.Cfg(), old(l2.View()), H.Store(addr, data)).0
                && l2.Memory() == T.Stored(l2.Cfg(), old(l2.Memory()), addr, data)
    {
      hide Inv, Flat;
      if |data| > H.MAX_CPU_STORE && ram.base <= addr < ram.base + ram.size {
        BulkWrite(addr, data);
      } else {
        l2.Write(addr, data);
      }
    }

    /** RAM alone changes; where the store is allowed the cache goes on presenting the right memory. */
    method BulkWrite(addr: nat, data: seq<Byte>)
      requires Valid() && H.Bulk(l2.Cfg(), H.Store(addr, data))
      modifies ram.bytes
      ensures l2.View() == H.Bypass(l2.Cfg(), old(l2.View()), addr, data)
      ensures old(H.Allowed(l2.Cfg(), l2.View(), H.Store(addr, data))) ==>
                Valid() && l2.Memory() == T.Stored(l2.Cfg(), old(l2.Memory()), addr, data)
    {
      hide Inv, Flat;
      ghost var s, lines := l2.View(), Views(l2.entries);
      if H.Allowed(l2.Cfg(), s, H.Store(addr, data)) {
        H.BypassUncovered(l2.Cfg(), s, addr, data);
      }
      ram.Write(addr, data);
      assert Views(l2.entries) == lines;
      assert l2.View() == H.Bypass(l2.Cfg(), s, addr, data);
    }

    /** One engine round: flush, let the engine edit RAM, then drop every line. */
    method EngineRound(engine: seq<Byte> -> seq<Byte>)
      requires Valid()
      modifies l2, l2.entries, ram.bytes
      ensures Valid() && l2.View() == H.Step(l2.Cfg(), old(l2.View()), H.Round(engine)).0
      ensures l2.Memory() == ram.bytes[..]
      ensures |engine(old(l2.Memory()))| == ram.size ==> l2.Memory() == engine(old(l2.Memory()))
    {
      l2.FlushAll();
      ghost var flushed := l2.View();
      var after := H.Engine(engine, ram.bytes[..]);
      forall k | 0 <= k < |after| {
        ram.bytes[k] := after[k];
      }
      assert ram.bytes[..] == after;
      assert l2.View() == flushed.(ram := after);
      H.DiscardedPresentsRam(l2.Cfg(), flushed, after);
      l2.InvalidateAll();
    }
  }

  /** Scan the ways of one set for a tag. */
  method FindWay(wayEntries: seq<CacheLine>, tag: nat) returns (w: int)
    ensures -1 <= w < |wayEntries|
    ensures w >= 0 ==> wayEntries[w].valid && wayEntries[w].tag == tag
    ensures w == -1 ==> forall v | 0 <= v < |wayEntries| :: !(wayEntries[v].valid && wayEntries[v].tag == tag)
  {
    for i := 0 to |wayEntries|
      invariant forall v | 0 <= v < i :: !(wayEntries[v].valid && wayEntries[v].tag == tag)
    {
      if wayEntries[i].valid && wayEntries[i].tag == tag {
        return i;
      }
    }
    return -1;
  }

  /** The way to evict: an invalid one if there is one, else the least recently used. */
  method PickVictimInSet(wayEntries: seq<CacheLine>) returns (victim: nat)
    requires |wayEntries| >= 1
    ensures victim < |wayEntries| && victim == Victim(Views(wayEntries))
  {
    ghost var ws := Views(wayEntries);
    for i := 0 to |wayEntries|
      invariant forall v | 0 <= v < i :: ws[v].valid
    {
      if !wayEntries[i].valid {
        VictimUnique(ws, i);
        return i;
      }
    }
    var oldest := 0;
    var oldestTime := wayEntries[0].lastAccess;
    for i := 0 to |wayEntries|
      invariant oldest < |wayEntries| && oldest <= i && oldestTime == ws[oldest].lastAccess
      invariant forall v | 0 <= v < i :: ws[oldest].lastAccess <= ws[v].lastAccess
      invariant forall v | 0 <= v < oldest :: ws[oldest].lastAccess < ws[v].lastAccess
    {
      if wayEntries[i].lastAccess < oldestTime {
        oldestTime := wayEntries[i].lastAccess;
        oldest := i;
      }
    }
    VictimUnique(ws, oldest);
    return oldest;
  }

  lemma MulPositive(a: nat, b: nat)
    requires a >= 1 && b >= 1
    ensures a * b >= 1
  {
  }
}
