/**
 The shared L2 write-back cache as a value, the operations on it, and the flat memory it presents.

 Addresses are natural numbers. A `Cache` holds the lines of all sets one set after the other (entry
 `set * ways + way`), the tag index kept beside them, the access clock and the RAM bytes behind the
 cache. The class in L2Cache.dfy runs the same operations in place and is proved to agree with them.
 */
module L2Model {
  import opened Bits

  type Byte = bv8

  datatype Mesi = Modified | Exclusive | Shared | Invalid

  datatype Line = Line(tag: nat, valid: bool, mesi: Mesi, lastAccess: nat, mdid: nat, data: seq<Byte>)

  datatype Config = Config(lineSize: nat, ways: nat, sets: nat, ramBase: nat, ramSize: nat) {
    /** What the code relies on: the masks need a power-of-two line, the window must hold whole lines. */
    ghost predicate Wf() {
      && PowerOfTwo(lineSize) && lineSize >= 1 && ways >= 1 && sets >= 1
      && ramBase % lineSize == 0 && ramSize % lineSize == 0
    }

    predicate InRam(addr: nat, size: nat) {
      ramBase <= addr && addr + size <= ramBase + ramSize
    }
  }

  datatype Cache = Cache(lines: seq<Line>, index: map<nat, nat>, clock: nat, mdid: nat, ram: seq<Byte>)

  // ---- RAM behind the cache ----

  /** A read that is not wholly inside the window gives zeros. */
  function RamRead(c: Config, ram: seq<Byte>, addr: nat, size: nat): (r: seq<Byte>)
    requires |ram| == c.ramSize
    ensures |r| == size
  {
    if c.InRam(addr, size) then ram[addr - c.ramBase..addr - c.ramBase + size]
    else seq(size, _ => 0)
  }

  /** A write that is not wholly inside the window is dropped. */
  function RamWrite(c: Config, ram: seq<Byte>, addr: nat, data: seq<Byte>): (r: seq<Byte>)
    requires |ram| == c.ramSize
    ensures |r| == |ram|
  {
    if c.InRam(addr, |data|) then Splice(ram, addr - c.ramBase, data) else ram
  }

  function Splice(s: seq<Byte>, at: nat, data: seq<Byte>): (r: seq<Byte>)
    requires at + |data| <= |s|
    ensures |r| == |s|
    ensures forall k | 0 <= k < |s| :: r[k] == if at <= k < at + |data| then data[k - at] else s[k]
  {
    s[..at] + data + s[at + |data|..]
  }

  // ---- addresses ----

  function TagOf(c: Config, addr: nat): nat
    requires c.lineSize >= 1
  {
    addr / c.lineSize
  }

  function OffsetOf(c: Config, addr: nat): (r: nat)
    requires c.lineSize >= 1
    ensures r < c.lineSize
  {
    addr % c.lineSize
  }

  /** The set index is the tag under the mask `sets - 1`; any number of sets will do. */
  function SetOf(c: Config, tag: nat): (r: nat)
    requires c.sets >= 1
    ensures r < c.sets
  {
    BitAnd(tag, c.sets - 1)
  }

  /** With a power of two of sets, consecutive lines go to consecutive sets, all the way round. */
  lemma SetIsRemainder(c: Config, tag: nat)
    requires c.sets >= 1 && PowerOfTwo(c.sets)
    ensures SetOf(c, tag) == tag % c.sets
  {
    var k: nat :| Pow2(k) == c.sets;
    MaskIsRemainder(tag, k);
  }

  function LineBase(c: Config, tag: nat): nat {
    c.lineSize * tag
  }

  lemma AddressParts(c: Config, addr: nat)
    requires c.lineSize >= 1
    ensures addr == LineBase(c, TagOf(c, addr)) + OffsetOf(c, addr)
  {
  }

  lemma PartsOf(c: Config, tag: nat, off: nat)
    requires off < c.lineSize
    ensures TagOf(c, LineBase(c, tag) + off) == tag && OffsetOf(c, LineBase(c, tag) + off) == off
  {
    DivModUnique(LineBase(c, tag) + off, c.lineSize, tag, off);
  }

  /** In a line-aligned window a line is inside as soon as one of its bytes is. */
  lemma LineInRam(c: Config, tag: nat, off: nat)
    requires c.Wf() && off < c.lineSize
    ensures c.InRam(LineBase(c, tag), c.lineSize) <==> c.InRam(LineBase(c, tag) + off, 1)
  {
    var b, e := c.ramBase / c.lineSize, c.ramSize / c.lineSize;
    assert c.ramBase == c.lineSize * b && c.ramSize == c.lineSize * e;
    assert c.ramBase + c.ramSize == c.lineSize * (b + e);
    assert c.lineSize * (tag + 1) == LineBase(c, tag) + c.lineSize;
    if c.InRam(LineBase(c, tag) + off, 1) {
      if tag < b {
        MulMonotone(c.lineSize, tag + 1, b);
      } else {
        MulMonotone(c.lineSize, b, tag);
      }
      if tag >= b + e {
        MulMonotone(c.lineSize, b + e, tag);
      } else {
        MulMonotone(c.lineSize, tag + 1, b + e);
      }
    }
  }

  // ---- the invariant ----

  ghost predicate Shape(c: Config, s: Cache) {
    && |s.lines| == c.sets * c.ways
    && |s.ram| == c.ramSize
    && forall i | 0 <= i < |s.lines| && s.lines[i].valid :: |s.lines[i].data| == c.lineSize
  }

  /** The index knows exactly the valid lines; hence a tag is held at most once. */
  ghost predicate IndexExact(s: Cache) {
    && (forall t | t in s.index :: s.index[t] < |s.lines| && s.lines[s.index[t]].valid && s.lines[s.index[t]].tag == t)
    && (forall i | 0 <= i < |s.lines| && s.lines[i].valid :: s.lines[i].tag in s.index && s.index[s.lines[i].tag] == i)
  }

  /** A valid line sits in the set its tag selects. */
  ghost predicate Placed(c: Config, s: Cache)
    requires c.sets >= 1
  {
    forall i | 0 <= i < |s.lines| && s.lines[i].valid ::
      SetOf(c, s.lines[i].tag) * c.ways <= i < SetOf(c, s.lines[i].tag) * c.ways + c.ways
  }

  /** A valid line over RAM that is not MODIFIED must be a copy of RAM. */
  predicate MustMirror(c: Config, l: Line) {
    l.valid && l.mesi != Modified && c.InRam(LineBase(c, l.tag), c.lineSize)
  }

  ghost predicate Clean(c: Config, s: Cache)
    requires |s.ram| == c.ramSize
  {
    forall i | 0 <= i < |s.lines| && MustMirror(c, s.lines[i]) ::
      s.lines[i].data == RamRead(c, s.ram, LineBase(c, s.lines[i].tag), c.lineSize)
  }

  ghost predicate Inv(c: Config, s: Cache) {
    c.Wf() && Shape(c, s) && IndexExact(s) && Placed(c, s) && Clean(c, s)
  }

  // ---- the memory the cache presents ----

  ghost function ByteAt(c: Config, s: Cache, addr: nat): Byte
    requires c.Wf() && Shape(c, s) && IndexExact(s)
  {
    var t := TagOf(c, addr);
    if t in s.index then s.lines[s.index[t]].data[OffsetOf(c, addr)]
    else if c.InRam(addr, 1) then s.ram[addr - c.ramBase]
    else 0
  }

  /** Logical memory: for each RAM address the byte of the valid line over it, else the RAM byte. */
  ghost function Flat(c: Config, s: Cache): (m: seq<Byte>)
    requires c.Wf() && Shape(c, s) && IndexExact(s)
    ensures |m| == c.ramSize
    ensures forall k | 0 <= k < |m| :: m[k] == ByteAt(c, s, c.ramBase + k)
  {
    seq(c.ramSize, k requires 0 <= k < c.ramSize => ByteAt(c, s, c.ramBase + k))
  }

  lemma SameFlat(c: Config, s: Cache, s': Cache)
    requires c.Wf() && Shape(c, s) && IndexExact(s) && Shape(c, s') && IndexExact(s')
    requires forall a: nat | c.InRam(a, 1) :: ByteAt(c, s', a) == ByteAt(c, s, a)
    ensures Flat(c, s') == Flat(c, s)
  {
    forall k | 0 <= k < c.ramSize
      ensures Flat(c, s')[k] == Flat(c, s)[k]
    {
      assert c.InRam(c.ramBase + k, 1);
    }
  }

  /** A byte of a line read from RAM is the RAM byte at that address. */
  lemma RamLineByte(c: Config, ram: seq<Byte>, addr: nat)
    requires c.Wf() && |ram| == c.ramSize
    ensures RamRead(c, ram, LineBase(c, TagOf(c, addr)), c.lineSize)[OffsetOf(c, addr)]
         == if c.InRam(addr, 1) then ram[addr - c.ramBase] else 0
  {
    AddressParts(c, addr);
    LineInRam(c, TagOf(c, addr), OffsetOf(c, addr));
  }

  /** Writing one line to RAM leaves every other line alone. */
  lemma RamWriteLine(c: Config, ram: seq<Byte>, tag: nat, data: seq<Byte>, addr: nat)
    requires c.Wf() && |ram| == c.ramSize && |data| == c.lineSize && c.InRam(addr, 1)
    ensures RamWrite(c, ram, LineBase(c, tag), data)[addr - c.ramBase]
         == if TagOf(c, addr) == tag then data[OffsetOf(c, addr)] else ram[addr - c.ramBase]
  {
    AddressParts(c, addr);
    LineInRam(c, TagOf(c, addr), OffsetOf(c, addr));
    var b := LineBase(c, tag);
    if b <= addr < b + c.lineSize {
      PartsOf(c, tag, addr - b);
    }
  }

  lemma RamWriteOtherLine(c: Config, ram: seq<Byte>, tag: nat, data: seq<Byte>, other: nat)
    requires c.Wf() && |ram| == c.ramSize && |data| == c.lineSize && other != tag
    ensures RamRead(c, RamWrite(c, ram, LineBase(c, tag), data), LineBase(c, other), c.lineSize)
         == RamRead(c, ram, LineBase(c, other), c.lineSize)
  {
    var ram' := RamWrite(c, ram, LineBase(c, tag), data);
    var b := LineBase(c, other);
    forall k | 0 <= k < c.lineSize
      ensures RamRead(c, ram', b, c.lineSize)[k] == RamRead(c, ram, b, c.lineSize)[k]
    {
      PartsOf(c, other, k);
      RamLineByte(c, ram', b + k);
      RamLineByte(c, ram, b + k);
      if c.InRam(b + k, 1) {
        RamWriteLine(c, ram, tag, data, b + k);
      }
    }
  }

  // ---- replacement ----

  function WaysOf(c: Config, s: Cache, k: nat): (r: seq<Line>)
    requires |s.lines| == c.sets * c.ways && k < c.sets
    ensures |r| == c.ways
  {
    SetBounds(c, k);
    s.lines[k * c.ways..k * c.ways + c.ways]
  }

  lemma SetBounds(c: Config, k: nat)
    requires k < c.sets
    ensures 0 <= k * c.ways && k * c.ways + c.ways <= c.sets * c.ways
  {
    MulMonotone(c.ways, k + 1, c.sets);
    assert c.ways * (k + 1) == k * c.ways + c.ways;
  }

  /** The way to evict: the first invalid one, else the first of the least recently used. */
  ghost predicate IsVictim(ws: seq<Line>, w: nat) {
    && w < |ws|
    && (!ws[w].valid ==> forall v | 0 <= v < w :: ws[v].valid)
    && (ws[w].valid ==>
          && (forall v | 0 <= v < |ws| :: ws[v].valid)
          && (forall v | 0 <= v < |ws| :: ws[w].lastAccess <= ws[v].lastAccess)
          && (forall v | 0 <= v < w :: ws[w].lastAccess < ws[v].lastAccess))
  }

  function FirstInvalid(ws: seq<Line>, from: nat): (w: nat)
    requires from <= |ws|
    ensures from <= w <= |ws|
    ensures forall v | from <= v < w :: ws[v].valid
    ensures w < |ws| ==> !ws[w].valid
    decreases |ws| - from
  {
    if from == |ws| || !ws[from].valid then from else FirstInvalid(ws, from + 1)
  }

  function Oldest(ws: seq<Line>, n: nat): (w: nat)
    requires 1 <= n <= |ws|
    ensures w < n
    ensures forall v | 0 <= v < n :: ws[w].lastAccess <= ws[v].lastAccess
    ensures forall v | 0 <= v < w :: ws[w].lastAccess < ws[v].lastAccess
  {
    if n == 1 then 0
    else
      var w := Oldest(ws, n - 1);
      if ws[n - 1].lastAccess < ws[w].lastAccess then n - 1 else w
  }

  function Victim(ws: seq<Line>): (w: nat)
    requires |ws| >= 1
    ensures IsVictim(ws, w)
  {
    var w := FirstInvalid(ws, 0);
    if w < |ws| then w else Oldest(ws, |ws|)
  }

  lemma VictimUnique(ws: seq<Line>, w: nat)
    requires |ws| >= 1 && IsVictim(ws, w)
    ensures w == Victim(ws)
  {
    var v := Victim(ws);
    assert ws[w].valid == ws[v].valid;
  }

  // ---- the operations ----

  function VictimEntry(c: Config, s: Cache, tag: nat): (i: nat)
    requires |s.lines| == c.sets * c.ways && c.ways >= 1 && c.sets >= 1
    ensures i < |s.lines|
    ensures SetOf(c, tag) * c.ways <= i < SetOf(c, tag) * c.ways + c.ways
    ensures s.lines[i] == WaysOf(c, s, SetOf(c, tag))[i - SetOf(c, tag) * c.ways]
  {
    SetBounds(c, SetOf(c, tag));
    SetOf(c, tag) * c.ways + Victim(WaysOf(c, s, SetOf(c, tag)))
  }

  function WriteBack(c: Config, ram: seq<Byte>, l: Line): (r: seq<Byte>)
    requires |ram| == c.ramSize
    ensures |r| == |ram|
  {
    if l.valid && l.mesi == Modified then RamWrite(c, ram, LineBase(c, l.tag), l.data) else ram
  }

  /** A miss, with the entry to replace: write it back when MODIFIED, and load the line. */
  function FillAt(c: Config, s: Cache, tag: nat, i: nat): Cache
    requires i < |s.lines| && |s.ram| == c.ramSize
  {
    var prev := s.lines[i];
    var ram := WriteBack(c, s.ram, prev);
    var line := Line(tag, true, Exclusive, s.clock, s.mdid, RamRead(c, ram, LineBase(c, tag), c.lineSize));
    s.(lines := s.lines[i := line],
       index := (if prev.valid then s.index - {prev.tag} else s.index)[tag := i],
       ram := ram)
  }

  /** A miss replaces the victim of the set. */
  function Fill(c: Config, s: Cache, tag: nat): Cache
    requires |s.lines| == c.sets * c.ways && c.ways >= 1 && c.sets >= 1 && |s.ram| == c.ramSize
  {
    FillAt(c, s, tag, VictimEntry(c, s, tag))
  }

  function Touch(s: Cache, i: nat): Cache
    requires i < |s.lines|
  {
    s.(lines := s.lines[i := s.lines[i].(lastAccess := s.clock, mdid := s.mdid)])
  }

  /** Bring the line of `tag` in and make it the most recently used of its set. */
  function Access(c: Config, s: Cache, tag: nat): Cache
    requires |s.lines| == c.sets * c.ways && c.ways >= 1 && c.sets >= 1 && |s.ram| == c.ramSize
    requires tag in s.index ==> s.index[tag] < |s.lines|
  {
    if tag in s.index then Touch(s, s.index[tag]) else Fill(c, s, tag)
  }

  function Poke(s: Cache, i: nat, off: nat, chunk: seq<Byte>): Cache
    requires i < |s.lines| && off + |chunk| <= |s.lines[i].data|
  {
    s.(lines := s.lines[i := s.lines[i].(data := Splice(s.lines[i].data, off, chunk), mesi := Modified)])
  }

  // ---- one line: what an access and a store to a resident line do ----

  lemma TouchKeeps(c: Config, s: Cache, tag: nat)
    requires Inv(c, s) && tag in s.index
    ensures var s' := Touch(s, s.index[tag]);
            Inv(c, s') && Flat(c, s') == Flat(c, s)
  {
    var s' := Touch(s, s.index[tag]);
    forall a: nat | c.InRam(a, 1)
      ensures ByteAt(c, s', a) == ByteAt(c, s, a)
    {
    }
    SameFlat(c, s, s');
  }

  lemma FillIndex(c: Config, s: Cache, tag: nat)
    requires Inv(c, s) && tag !in s.index
    ensures var s' := Fill(c, s, tag);
            Shape(c, s') && IndexExact(s') && Placed(c, s')
  {
  }

  /** Eviction moves a MODIFIED line's bytes to RAM, so that every other line still mirrors it. */
  lemma FillClean(c: Config, s: Cache, tag: nat)
    requires Inv(c, s) && tag !in s.index
    ensures |Fill(c, s, tag).ram| == c.ramSize && Clean(c, Fill(c, s, tag))
  {
    var v := VictimEntry(c, s, tag);
    var prev, s' := s.lines[v], Fill(c, s, tag);
    forall i | 0 <= i < |s'.lines| && MustMirror(c, s'.lines[i])
      ensures s'.lines[i].data == RamRead(c, s'.ram, LineBase(c, s'.lines[i].tag), c.lineSize)
    {
      if i != v && prev.valid && prev.mesi == Modified {
        assert s.index[s.lines[i].tag] == i && s.index[prev.tag] == v;
        RamWriteOtherLine(c, s.ram, prev.tag, prev.data, s.lines[i].tag);
      }
    }
  }

  lemma FillByte(c: Config, s: Cache, tag: nat, a: nat)
    requires Inv(c, s) && tag !in s.index && c.InRam(a, 1)
    ensures var s' := Fill(c, s, tag);
            Shape(c, s') && IndexExact(s') && ByteAt(c, s', a) == ByteAt(c, s, a)
  {
    FillIndex(c, s, tag);
    var v := VictimEntry(c, s, tag);
    var prev, s' := s.lines[v], Fill(c, s, tag);
    FillRam(c, s, tag, a);
    hide Placed, RamRead, WriteBack, VictimEntry;
    if TagOf(c, a) == tag {
      RamLineByte(c, s'.ram, a);
    } else if prev.valid && TagOf(c, a) == prev.tag {
      assert s.index[prev.tag] == v;
    }
  }

  /** Eviction brings the byte of the evicted line to RAM, and changes no other byte of RAM. */
  lemma FillRam(c: Config, s: Cache, tag: nat, a: nat)
    requires Inv(c, s) && tag !in s.index && c.InRam(a, 1)
    ensures var prev := s.lines[VictimEntry(c, s, tag)];
      |Fill(c, s, tag).ram| == c.ramSize
      && Fill(c, s, tag).ram[a - c.ramBase]
         == if prev.valid && TagOf(c, a) == prev.tag then prev.data[OffsetOf(c, a)] else s.ram[a - c.ramBase]
  {
    hide VictimEntry, Placed, IndexExact;
    var prev := s.lines[VictimEntry(c, s, tag)];
    if prev.valid && prev.mesi == Modified {
      RamWriteLine(c, s.ram, prev.tag, prev.data, a);
    } else if prev.valid && TagOf(c, a) == prev.tag {
      AddressParts(c, a);
      LineInRam(c, prev.tag, OffsetOf(c, a));
      RamLineByte(c, s.ram, a);
      assert MustMirror(c, prev);
    }
  }

  lemma FillKeeps(c: Config, s: Cache, tag: nat)
    requires Inv(c, s) && tag !in s.index
    ensures var s' := Fill(c, s, tag);
            Inv(c, s') && Flat(c, s') == Flat(c, s)
  {
    FillIndex(c, s, tag);
    FillClean(c, s, tag);
    var s' := Fill(c, s, tag);
    forall a: nat | c.InRam(a, 1)
      ensures ByteAt(c, s', a) == ByteAt(c, s, a)
    {
      FillByte(c, s, tag, a);
    }
    SameFlat(c, s, s');
  }

  /** Hits, misses and evictions change nothing a reader of memory can see. */
  lemma AccessKeeps(c: Config, s: Cache, tag: nat)
    requires Inv(c, s)
    ensures var s' := Access(c, s, tag);
            Inv(c, s') && Flat(c, s') == Flat(c, s) && tag in s'.index
  {
    if tag in s.index {
      TouchKeeps(c, s, tag);
    } else {
      FillKeeps(c, s, tag);
    }
  }

  /** The line accessed carries the stamp and the domain of the access, hit or miss. */
  lemma AccessedLine(c: Config, s: Cache, tag: nat)
    requires Inv(c, s)
    ensures var s' := Access(c, s, tag);
      && tag in s'.index && s'.index[tag] < |s'.lines|
      && var l := s'.lines[s'.index[tag]];
         l.valid && l.tag == tag && l.lastAccess == s.clock && l.mdid == s.mdid
  {
    AccessKeeps(c, s, tag);
    hide Flat, Clean, Placed;
  }
}
