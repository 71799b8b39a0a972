/**
 Reads and writes of any length through the L2 cache behave as reads and writes of flat memory.
 */
module L2Transparency {
  import opened L2Model

  function Min(a: nat, b: nat): nat {
    if a <= b then a else b
  }

  // ---- loads ----

  /** The bytes a resident line gives are the bytes of flat memory. */
  lemma ChunkIsFlat(c: Config, s: Cache, addr: nat, n: nat)
    requires Inv(c, s) && TagOf(c, addr) in s.index
    requires OffsetOf(c, addr) + n <= c.lineSize && c.InRam(addr, n)
    ensures s.lines[s.index[TagOf(c, addr)]].data[OffsetOf(c, addr)..OffsetOf(c, addr) + n]
         == Flat(c, s)[addr - c.ramBase..addr - c.ramBase + n]
  {
    var tag, off, at := TagOf(c, addr), OffsetOf(c, addr), addr - c.ramBase;
    AddressParts(c, addr);
    var line := s.lines[s.index[tag]].data[off..off + n];
    var flat := Flat(c, s)[at..at + n];
    forall k | 0 <= k < n
      ensures line[k] == flat[k]
    {
      PartsOf(c, tag, off + k);
      assert Flat(c, s)[at + k] == ByteAt(c, s, c.ramBase + (at + k));
    }
  }

  /** `bytes` is what memory `m` holds at address `addr`, as far as that is inside the window. */
  predicate Agrees(c: Config, m: seq<Byte>, addr: nat, bytes: seq<Byte>)
    requires |m| == c.ramSize
  {
    c.InRam(addr, |bytes|) ==> bytes == m[addr - c.ramBase..addr - c.ramBase + |bytes|]
  }

  lemma AgreesJoin(c: Config, m: seq<Byte>, addr: nat, left: seq<Byte>, right: seq<Byte>)
    requires |m| == c.ramSize && Agrees(c, m, addr, left) && Agrees(c, m, addr + |left|, right)
    ensures Agrees(c, m, addr, left + right)
  {
    if c.InRam(addr, |left + right|) {
      var at := addr - c.ramBase;
      assert m[at..at + |left|] + m[at + |left|..at + |left| + |right|] == m[at..at + |left| + |right|];
    }
  }

  /** The part of a load that lies in one line. */
  ghost function ReadLine(c: Config, s: Cache, addr: nat, n: nat): (r: (Cache, seq<Byte>))
    requires Inv(c, s) && OffsetOf(c, addr) + n <= c.lineSize
    ensures Inv(c, r.0) && Flat(c, r.0) == Flat(c, s)
    ensures |r.1| == n && Agrees(c, Flat(c, s), addr, r.1)
  {
    var tag, off := TagOf(c, addr), OffsetOf(c, addr);
    AccessKeeps(c, s, tag);
    var s' := Access(c, s, tag);
    if c.InRam(addr, n) then
      ChunkIsFlat(c, s', addr, n);
      (s', s'.lines[s'.index[tag]].data[off..off + n])
    else (s', s'.lines[s'.index[tag]].data[off..off + n])
  }

  /** Read the bytes up to the end of the line, then go on with the next line. */
  ghost function ReadFrom(c: Config, s: Cache, addr: nat, size: nat): (r: (Cache, seq<Byte>))
    requires Inv(c, s)
    ensures Inv(c, r.0) && Flat(c, r.0) == Flat(c, s)
    ensures |r.1| == size && Agrees(c, Flat(c, s), addr, r.1)
    decreases size
  {
    var n := Min(size, c.lineSize - OffsetOf(c, addr));
    var r := ReadLine(c, s, addr, n);
    if n == size then r
    else
      var rest := ReadFrom(c, r.0, addr + n, size - n);
      AgreesJoin(c, Flat(c, s), addr, r.1, rest.1);
      (rest.0, r.1 + rest.1)
  }

  /** A load in progress: `data` is done, and reading on from `s` completes it. */
  ghost predicate ReadPending(c: Config, start: Cache, addr: nat, size: nat,
                              s: Cache, data: seq<Byte>, cur: nat, left: nat)
    requires Inv(c, start) && Inv(c, s)
  {
    ReadFrom(c, start, addr, size)
      == if left == 0 then (s, data) else (ReadFrom(c, s, cur, left).0, data + ReadFrom(c, s, cur, left).1)
  }

  lemma ReadAdvance(c: Config, start: Cache, addr: nat, size: nat, s: Cache, data: seq<Byte>, cur: nat, left: nat)
    requires Inv(c, start) && Inv(c, s)
    requires left > 0 && ReadPending(c, start, addr, size, s, data, cur, left)
    ensures var n := Min(left, c.lineSize - OffsetOf(c, cur));
            var r := ReadLine(c, s, cur, n);
            && ReadPending(c, start, addr, size, r.0, data + r.1, cur + n, left - n)
            && (n == left ==> ReadFrom(c, start, addr, size) == (r.0, data + r.1))
  {
    hide Inv, ReadLine, Flat, Agrees;
    var n := Min(left, c.lineSize - OffsetOf(c, cur));
    var r := ReadLine(c, s, cur, n);
    if n < left {
      var rest := ReadFrom(c, r.0, cur + n, left - n).1;
      assert data + (r.1 + rest) == data + r.1 + rest;
    }
  }

  lemma ReadBegins(c: Config, start: Cache, addr: nat, size: nat)
    requires Inv(c, start)
    ensures OffsetOf(c, addr) + size <= c.lineSize ==> ReadFrom(c, start, addr, size) == ReadLine(c, start, addr, size)
    ensures size > 0 ==> ReadPending(c, start, addr, size, start, [], addr, size)
  {
    hide Inv, ReadLine, Flat, Agrees;
    assert [] + ReadFrom(c, start, addr, size).1 == ReadFrom(c, start, addr, size).1;
  }

  /** One access advances the clock once, however many lines it spans. */
  function Tick(s: Cache): Cache {
    s.(clock := s.clock + 1)
  }

  lemma TickKeeps(c: Config, s: Cache)
    requires Inv(c, s)
    ensures Inv(c, Tick(s)) && Flat(c, Tick(s)) == Flat(c, s)
  {
    SameFlat(c, s, Tick(s));
  }

  /** Every load returns what flat memory holds, and leaves flat memory as it was. */
  ghost function Read(c: Config, s: Cache, addr: nat, size: nat): (r: (Cache, seq<Byte>))
    requires Inv(c, s)
    ensures Inv(c, r.0) && Flat(c, r.0) == Flat(c, s)
    ensures |r.1| == size && Agrees(c, Flat(c, s), addr, r.1)
  {
    TickKeeps(c, s);
    ReadFrom(c, Tick(s), addr, size)
  }

  // ---- stores ----

  /** Flat memory after `data` is stored at address `addr`; bytes outside the window are lost. */
  function Stored(c: Config, m: seq<Byte>, addr: nat, data: seq<Byte>): (m': seq<Byte>)
    requires |m| == c.ramSize
    ensures |m'| == |m|
    ensures forall k | 0 <= k < |m| ::
              m'[k] == if addr <= c.ramBase + k < addr + |data| then data[c.ramBase + k - addr] else m[k]
  {
    seq(|m|, k requires 0 <= k < |m| =>
      if addr <= c.ramBase + k < addr + |data| then data[c.ramBase + k - addr] else m[k])
  }

  lemma StoredInTwo(c: Config, m: seq<Byte>, addr: nat, data: seq<Byte>, n: nat)
    requires |m| == c.ramSize && n <= |data|
    ensures Stored(c, Stored(c, m, addr, data[..n]), addr + n, data[n..]) == Stored(c, m, addr, data)
  {
  }

  lemma PokeByte(c: Config, s: Cache, addr: nat, chunk: seq<Byte>, a: nat)
    requires Inv(c, s) && TagOf(c, addr) in s.index && OffsetOf(c, addr) + |chunk| <= c.lineSize && c.InRam(a, 1)
    requires Inv(c, Poke(s, s.index[TagOf(c, addr)], OffsetOf(c, addr), chunk))
    ensures ByteAt(c, Poke(s, s.index[TagOf(c, addr)], OffsetOf(c, addr), chunk), a)
         == if addr <= a < addr + |chunk| then chunk[a - addr] else ByteAt(c, s, a)
  {
    hide Flat, Clean, Placed;
    AddressParts(c, addr);
    AddressParts(c, a);
    if addr <= a < addr + |chunk| {
      PartsOf(c, TagOf(c, addr), OffsetOf(c, addr) + (a - addr));
    }
  }

  lemma PokeInv(c: Config, s: Cache, i: nat, off: nat, chunk: seq<Byte>)
    requires Inv(c, s) && i < |s.lines| && s.lines[i].valid && off + |chunk| <= |s.lines[i].data|
    ensures Inv(c, Poke(s, i, off, chunk))
  {
  }

  lemma PokeFlat(c: Config, s: Cache, addr: nat, chunk: seq<Byte>)
    requires Inv(c, s) && TagOf(c, addr) in s.index && OffsetOf(c, addr) + |chunk| <= c.lineSize
    ensures var s' := Poke(s, s.index[TagOf(c, addr)], OffsetOf(c, addr), chunk);
            Inv(c, s') && Flat(c, s') == Stored(c, Flat(c, s), addr, chunk)
  {
    hide Poke, ByteAt, Clean, Placed;
    var s' := Poke(s, s.index[TagOf(c, addr)], OffsetOf(c, addr), chunk);
    PokeInv(c, s, s.index[TagOf(c, addr)], OffsetOf(c, addr), chunk);
    forall k | 0 <= k < c.ramSize
      ensures Flat(c, s')[k] == Stored(c, Flat(c, s), addr, chunk)[k]
    {
      PokeByte(c, s, addr, chunk, c.ramBase + k);
    }
  }

  /** The part of a store that lies in one line. */
  ghost function WriteLine(c: Config, s: Cache, addr: nat, chunk: seq<Byte>): (s': Cache)
    requires Inv(c, s) && OffsetOf(c, addr) + |chunk| <= c.lineSize
    ensures Inv(c, s') && Flat(c, s') == Stored(c, Flat(c, s), addr, chunk)
  {
    var tag := TagOf(c, addr);
    AccessKeeps(c, s, tag);
    var s1 := Access(c, s, tag);
    PokeFlat(c, s1, addr, chunk);
    Poke(s1, s1.index[tag], OffsetOf(c, addr), chunk)
  }

  lemma WriteLineIs(c: Config, s: Cache, addr: nat, chunk: seq<Byte>)
    requires Inv(c, s) && OffsetOf(c, addr) + |chunk| <= c.lineSize
    ensures var tag := TagOf(c, addr);
            var s1 := Access(c, s, tag);
            && tag in s1.index && s1.index[tag] < |s1.lines|
            && |s1.lines[s1.index[tag]].data| == c.lineSize
            && WriteLine(c, s, addr, chunk) == Poke(s1, s1.index[tag], OffsetOf(c, addr), chunk)
  {
    AccessKeeps(c, s, TagOf(c, addr));
  }

  /** Store the bytes up to the end of the line, then go on with the next line. */
  ghost function WriteFrom(c: Config, s: Cache, addr: nat, data: seq<Byte>): (s': Cache)
    requires Inv(c, s)
    ensures Inv(c, s') && Flat(c, s') == Stored(c, Flat(c, s), addr, data)
    decreases |data|
  {
    var n := Min(|data|, c.lineSize - OffsetOf(c, addr));
    var s1 := WriteLine(c, s, addr, data[..n]);
    StoredInTwo(c, Flat(c, s), addr, data, n);
    assert n == |data| ==> data[..n] == data;
    if n == |data| then s1 else WriteFrom(c, s1, addr + n, data[n..])
  }

  /** A store in progress: storing the rest from `s` completes it. */
  ghost predicate WritePending(c: Config, start: Cache, addr: nat, data: seq<Byte>, s: Cache, cur: nat, left: seq<Byte>)
    requires Inv(c, start) && Inv(c, s)
  {
    WriteFrom(c, start, addr, data) == if left == [] then s else WriteFrom(c, s, cur, left)
  }

  lemma WriteAdvance(c: Config, start: Cache, addr: nat, data: seq<Byte>, s: Cache, cur: nat, left: seq<Byte>)
    requires Inv(c, start) && Inv(c, s)
    requires left != [] && WritePending(c, start, addr, data, s, cur, left)
    ensures var n := Min(|left|, c.lineSize - OffsetOf(c, cur));
            var s' := WriteLine(c, s, cur, left[..n]);
            && WritePending(c, start, addr, data, s', cur + n, left[n..])
            && (n == |left| ==> WriteFrom(c, start, addr, data) == s')
  {
    hide Inv, WriteLine, Flat, Stored;
  }

  lemma WriteBegins(c: Config, start: Cache, addr: nat, data: seq<Byte>)
    requires Inv(c, start)
    ensures OffsetOf(c, addr) + |data| <= c.lineSize ==> WriteFrom(c, start, addr, data) == WriteLine(c, start, addr, data)
    ensures data != [] ==> WritePending(c, start, addr, data, start, addr, data)
  {
    hide Inv, WriteLine, Flat, Stored;
    assert data[..|data|] == data;
  }

  /** Every store changes exactly the bytes it names. */
  ghost function Write(c: Config, s: Cache, addr: nat, data: seq<Byte>): (s': Cache)
    requires Inv(c, s)
    ensures Inv(c, s') && Flat(c, s') == Stored(c, Flat(c, s), addr, data)
  {
    TickKeeps(c, s);
    WriteFrom(c, Tick(s), addr, data)
  }

  // ---- giving lines up ----

  /** Drop the line of one address, writing it back when MODIFIED. */
  function Invalidate(c: Config, s: Cache, addr: nat): Cache
    requires c.lineSize >= 1 && |s.ram| == c.ramSize
    requires TagOf(c, addr) in s.index ==> s.index[TagOf(c, addr)] < |s.lines|
  {
    var tag := TagOf(c, addr);
    if tag !in s.index then s
    else
      var i := s.index[tag];
      s.(ram := WriteBack(c, s.ram, s.lines[i]),
         lines := s.lines[i := s.lines[i].(valid := false, mesi := Invalid)],
         index := s.index - {tag})
  }

  /** `s'` is `s` after entry `i`, a valid line, has been written back and given up. */
  ghost predicate Dropped(c: Config, s: Cache, i: nat, s': Cache)
    requires |s.ram| == c.ramSize
  {
    && i < |s.lines| && s.lines[i].valid
    && |s'.lines| == |s.lines| && !s'.lines[i].valid
    && (forall j | 0 <= j < |s.lines| && j != i :: s'.lines[j] == s.lines[j])
    && s'.index == s.index - {s.lines[i].tag} && s'.ram == WriteBack(c, s.ram, s.lines[i])
  }

  lemma DropLineInv(c: Config, s: Cache, i: nat, s': Cache)
    requires Inv(c, s) && Dropped(c, s, i, s')
    ensures Inv(c, s')
  {
    var l := s.lines[i];
    forall j | 0 <= j < |s'.lines| && MustMirror(c, s'.lines[j])
      ensures s'.lines[j].data == RamRead(c, s'.ram, LineBase(c, s'.lines[j].tag), c.lineSize)
    {
      assert s.index[s.lines[j].tag] == j && s.index[l.tag] == i;
      if l.mesi == Modified {
        RamWriteOtherLine(c, s.ram, l.tag, l.data, s.lines[j].tag);
      }
    }
  }

  lemma DropLineByte(c: Config, s: Cache, i: nat, s': Cache, a: nat)
    requires Inv(c, s) && Dropped(c, s, i, s') && c.InRam(a, 1) && Inv(c, s')
    ensures ByteAt(c, s', a) == ByteAt(c, s, a)
  {
    hide Placed, Flat;
    var l := s.lines[i];
    assert s.index[l.tag] == i;
    RamLineByte(c, s.ram, a);
    RamLineByte(c, s'.ram, a);
    AddressParts(c, a);
    LineInRam(c, TagOf(c, a), OffsetOf(c, a));
    if l.mesi == Modified {
      RamWriteLine(c, s.ram, l.tag, l.data, a);
    }
  }

  lemma DropLineKeeps(c: Config, s: Cache, i: nat, s': Cache)
    requires Inv(c, s) && Dropped(c, s, i, s')
    ensures Inv(c, s') && Flat(c, s') == Flat(c, s)
  {
    hide Dropped, ByteAt, Flat, Clean, Placed;
    DropLineInv(c, s, i, s');
    forall a: nat | c.InRam(a, 1)
      ensures ByteAt(c, s', a) == ByteAt(c, s, a)
    {
      DropLineByte(c, s, i, s', a);
    }
    SameFlat(c, s, s');
  }

  lemma InvalidateIsTransparent(c: Config, s: Cache, addr: nat)
    requires Inv(c, s)
    ensures Inv(c, Invalidate(c, s, addr)) && Flat(c, Invalidate(c, s, addr)) == Flat(c, s)
  {
    var tag := TagOf(c, addr);
    if tag in s.index {
      DropLineKeeps(c, s, s.index[tag], Invalidate(c, s, addr));
    }
  }

  /** The memory-domain flush: entries from `i` on that belong to `mdid` are written back and dropped. */
  function DropDomain(c: Config, s: Cache, mdid: nat, i: nat): (s': Cache)
    requires i <= |s.lines| && |s.ram| == c.ramSize
    ensures |s'.lines| == |s.lines|
    decreases |s.lines| - i
  {
    if i == |s.lines| then s
    else
      var l := s.lines[i];
      if l.valid && l.mdid == mdid then
        DropDomain(c, s.(ram := WriteBack(c, s.ram, l),
                         lines := s.lines[i := l.(valid := false, tag := 0)],
                         index := s.index - {l.tag}), mdid, i + 1)
      else DropDomain(c, s, mdid, i + 1)
  }

  lemma {:induction false} DropDomainIsTransparent(c: Config, s: Cache, mdid: nat, i: nat)
    requires Inv(c, s) && i <= |s.lines|
    requires forall j | 0 <= j < i :: !(s.lines[j].valid && s.lines[j].mdid == mdid)
    ensures var s' := DropDomain(c, s, mdid, i);
            && Inv(c, s') && Flat(c, s') == Flat(c, s)
            && forall j | 0 <= j < |s'.lines| :: !(s'.lines[j].valid && s'.lines[j].mdid == mdid)
    decreases |s.lines| - i
  {
    if i < |s.lines| {
      var l := s.lines[i];
      if l.valid && l.mdid == mdid {
        var s' := s.(ram := WriteBack(c, s.ram, l),
                     lines := s.lines[i := l.(valid := false, tag := 0)],
                     index := s.index - {l.tag});
        DropLineKeeps(c, s, i, s');
        DropDomainIsTransparent(c, s', mdid, i + 1);
      } else {
        DropDomainIsTransparent(c, s, mdid, i + 1);
      }
    }
  }
}
