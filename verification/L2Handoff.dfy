/**
 Whole runs through the cache: loads, stores, invalidations and rounds of the native engine, which
 edits RAM behind the cache between `flush_all` and `invalidate_all`.
 */
module L2Handoff {
  import opened L2Model
  import opened L2Transparency

  // ---- the bracket around an engine round ----

  function Demote(l: Line): Line {
    if l.valid && l.mesi == Modified then l.(mesi := Exclusive) else l
  }

  /** After `flush_all`: RAM holds logical memory and no line is MODIFIED. */
  ghost function Flushed(c: Config, s: Cache): Cache
    requires Inv(c, s)
  {
    s.(ram := Flat(c, s), lines := seq(|s.lines|, i requires 0 <= i < |s.lines| => Demote(s.lines[i])))
  }

  function Emptied(l: Line): Line {
    if l.valid then l.(valid := false, mesi := Invalid) else l
  }

  /** After `invalidate_all`: no line is valid, and nothing was written back. */
  function Discarded(s: Cache): Cache {
    s.(lines := seq(|s.lines|, i requires 0 <= i < |s.lines| => Emptied(s.lines[i])), index := map[])
  }

  lemma FlushedKeeps(c: Config, s: Cache)
    requires Inv(c, s)
    ensures Inv(c, Flushed(c, s)) && Flat(c, Flushed(c, s)) == Flat(c, s)
    ensures forall i | 0 <= i < |s.lines| && s.lines[i].valid :: Flushed(c, s).lines[i].mesi != Modified
  {
    var s' := Flushed(c, s);
    assert IndexExact(s');
    forall i | 0 <= i < |s'.lines| && MustMirror(c, s'.lines[i])
      ensures s'.lines[i].data == RamRead(c, s'.ram, LineBase(c, s'.lines[i].tag), c.lineSize)
    {
      FlushedLine(c, s, i);
    }
    forall a: nat | c.InRam(a, 1)
      ensures ByteAt(c, s', a) == ByteAt(c, s, a)
    {
      assert Flat(c, s)[a - c.ramBase] == ByteAt(c, s, c.ramBase + (a - c.ramBase));
    }
    SameFlat(c, s, s');
  }

  lemma FlushedLine(c: Config, s: Cache, i: nat)
    requires Inv(c, s) && i < |s.lines| && s.lines[i].valid && c.InRam(LineBase(c, s.lines[i].tag), c.lineSize)
    ensures s.lines[i].data == RamRead(c, Flat(c, s), LineBase(c, s.lines[i].tag), c.lineSize)
  {
    var l := s.lines[i];
    assert s.index[l.tag] == i;
    PartsOf(c, l.tag, 0);
    ChunkIsFlat(c, s, LineBase(c, l.tag), c.lineSize);
    assert l.data[0..c.lineSize] == l.data;
  }

  lemma DiscardedPresentsRam(c: Config, s: Cache, ram: seq<Byte>)
    requires Inv(c, s) && |ram| == c.ramSize
    ensures Inv(c, Discarded(s.(ram := ram))) && Flat(c, Discarded(s.(ram := ram))) == ram
  {
    var s' := Discarded(s.(ram := ram));
    assert Inv(c, s');
    forall k | 0 <= k < c.ramSize
      ensures Flat(c, s')[k] == ram[k]
    {
      assert c.InRam(c.ramBase + k, 1);
    }
  }

  /** `flush_all` in progress: the lines of the tags in `todo` are still to be written back. */
  ghost predicate Flushing(c: Config, s: Cache, todo: set<nat>, cur: Cache)
    requires Inv(c, s)
  {
    && cur.index == s.index && cur.clock == s.clock && cur.mdid == s.mdid
    && |cur.lines| == |s.lines| && |cur.ram| == c.ramSize
    && (forall i | 0 <= i < |s.lines| ::
          cur.lines[i] == if s.lines[i].valid && s.lines[i].tag in todo then s.lines[i] else Demote(s.lines[i]))
    && (forall a: nat | c.InRam(a, 1) ::
          cur.ram[a - c.ramBase] == if TagOf(c, a) in todo then s.ram[a - c.ramBase] else ByteAt(c, s, a))
  }

  lemma CleanByte(c: Config, s: Cache, a: nat)
    requires Inv(c, s) && c.InRam(a, 1)
    requires TagOf(c, a) in s.index ==> s.lines[s.index[TagOf(c, a)]].mesi != Modified
    ensures ByteAt(c, s, a) == s.ram[a - c.ramBase]
  {
    RamLineByte(c, s.ram, a);
    AddressParts(c, a);
    LineInRam(c, TagOf(c, a), OffsetOf(c, a));
  }

  lemma FlushingBegins(c: Config, s: Cache)
    requires Inv(c, s)
    ensures Flushing(c, s, s.index.Keys, s)
  {
  }

  lemma FlushingValid(c: Config, s: Cache, todo: set<nat>, cur: Cache, t: nat)
    requires Inv(c, s) && Flushing(c, s, todo, cur) && t in s.index
    ensures s.index[t] < |cur.lines| && cur.lines[s.index[t]].valid
  {
  }

  lemma FlushingStep(c: Config, s: Cache, todo: set<nat>, cur: Cache, t: nat, next: Cache)
    requires Inv(c, s) && Flushing(c, s, todo, cur) && t in todo && t in s.index
    requires next == cur.(lines := cur.lines[s.index[t] := Demote(cur.lines[s.index[t]])],
                          ram := WriteBack(c, cur.ram, cur.lines[s.index[t]]))
    ensures Flushing(c, s, todo - {t}, next)
  {
    var l := s.lines[s.index[t]];
    forall a: nat | c.InRam(a, 1)
      ensures next.ram[a - c.ramBase]
           == if TagOf(c, a) in todo - {t} then s.ram[a - c.ramBase] else ByteAt(c, s, a)
    {
      if l.mesi == Modified {
        RamWriteLine(c, cur.ram, t, l.data, a);
      } else if TagOf(c, a) == t {
        CleanByte(c, s, a);
      }
    }
  }

  lemma FlushingEnds(c: Config, s: Cache, cur: Cache)
    requires Inv(c, s) && Flushing(c, s, {}, cur)
    ensures cur == Flushed(c, s)
  {
    forall k | 0 <= k < c.ramSize
      ensures cur.ram[k] == Flat(c, s)[k]
    {
      assert c.InRam(c.ramBase + k, 1);
      assert cur.ram[c.ramBase + k - c.ramBase] == ByteAt(c, s, c.ramBase + k);
    }
    assert cur.ram == Flat(c, s);
    assert cur.lines == Flushed(c, s).lines;
  }

  /** `invalidate_all` in progress: the lines of the tags in `todo` are still valid. */
  ghost predicate Emptying(s: Cache, todo: set<nat>, cur: Cache) {
    && cur == s.(lines := cur.lines) && |cur.lines| == |s.lines|
    && forall i | 0 <= i < |s.lines| ::
         cur.lines[i] == if s.lines[i].valid && s.lines[i].tag !in todo then Emptied(s.lines[i]) else s.lines[i]
  }

  lemma EmptyingStep(s: Cache, todo: set<nat>, cur: Cache, t: nat)
    requires IndexExact(s) && Emptying(s, todo, cur) && t in todo && t in s.index
    ensures var i := s.index[t];
            && i < |cur.lines| && cur.lines[i].valid
            && Emptying(s, todo - {t}, cur.(lines := cur.lines[i := Emptied(cur.lines[i])]))
  {
  }

  lemma EmptyingEnds(s: Cache, cur: Cache)
    requires IndexExact(s)
    ensures Emptying(s, s.index.Keys, s)
    ensures Emptying(s, {}, cur) ==> cur.(index := map[]) == Discarded(s)
  {
    if Emptying(s, {}, cur) {
      assert cur.lines == Discarded(s).lines;
    }
  }

  // ---- bulk stores, which bypass the cache ----

  const MAX_CPU_STORE := 8

  /** A bulk store changes RAM and leaves the lines alone. */
  function Bypass(c: Config, s: Cache, addr: nat, data: seq<Byte>): Cache
    requires |s.ram| == c.ramSize
  {
    s.(ram := RamWrite(c, s.ram, addr, data))
  }

  /** No valid line lies over the `n` bytes at `addr`. */
  ghost predicate Uncovered(c: Config, s: Cache, addr: nat, n: nat)
    requires c.lineSize >= 1
  {
    forall a: nat | addr <= a < addr + n :: TagOf(c, a) !in s.index
  }

  lemma BypassUncovered(c: Config, s: Cache, addr: nat, data: seq<Byte>)
    requires Inv(c, s) && c.InRam(addr, |data|) && Uncovered(c, s, addr, |data|)
    ensures Inv(c, Bypass(c, s, addr, data))
    ensures Flat(c, Bypass(c, s, addr, data)) == Stored(c, Flat(c, s), addr, data)
  {
    var s' := Bypass(c, s, addr, data);
    forall i | 0 <= i < |s'.lines| && MustMirror(c, s'.lines[i])
      ensures s'.lines[i].data == RamRead(c, s'.ram, LineBase(c, s'.lines[i].tag), c.lineSize)
    {
      BypassLine(c, s, addr, data, i);
    }
    forall k | 0 <= k < c.ramSize
      ensures Flat(c, s')[k] == Stored(c, Flat(c, s), addr, data)[k]
    {
      var a := c.ramBase + k;
      assert addr <= a < addr + |data| ==> TagOf(c, a) !in s.index;
    }
  }

  lemma BypassLine(c: Config, s: Cache, addr: nat, data: seq<Byte>, i: nat)
    requires Inv(c, s) && c.InRam(addr, |data|) && Uncovered(c, s, addr, |data|)
    requires i < |s.lines| && s.lines[i].valid
    ensures RamRead(c, Bypass(c, s, addr, data).ram, LineBase(c, s.lines[i].tag), c.lineSize)
         == RamRead(c, s.ram, LineBase(c, s.lines[i].tag), c.lineSize)
  {
    var tag := s.lines[i].tag;
    var b := LineBase(c, tag);
    assert tag in s.index;
    if c.InRam(b, c.lineSize) {
      assert b + c.lineSize <= addr || addr + |data| <= b || |data| == 0 by {
        if b < addr < b + c.lineSize {
          PartsOf(c, tag, addr - b);
        } else {
          PartsOf(c, tag, 0);
        }
      }
    }
  }

  /** Bulk stores are transparent, for every data, exactly when no valid line lies over their range. */
  lemma BypassIsTransparentIff(c: Config, s: Cache, addr: nat, n: nat)
    requires Inv(c, s) && c.InRam(addr, n)
    ensures (forall data: seq<Byte> | |data| == n ::
               Flat(c, Bypass(c, s, addr, data)) == Stored(c, Flat(c, s), addr, data))
       <==> Uncovered(c, s, addr, n)
  {
    if Uncovered(c, s, addr, n) {
      forall data: seq<Byte> | |data| == n
        ensures Flat(c, Bypass(c, s, addr, data)) == Stored(c, Flat(c, s), addr, data)
      {
        BypassUncovered(c, s, addr, data);
      }
    } else {
      var a: nat :| addr <= a < addr + n && TagOf(c, a) in s.index;
      var held := ByteAt(c, s, a);
      var data: seq<Byte> := seq(n, _ => held ^ 1);
      var at := a - c.ramBase;
      assert Flat(c, Bypass(c, s, addr, data))[at] == held by {
        assert Flat(c, Bypass(c, s, addr, data))[at] == ByteAt(c, Bypass(c, s, addr, data), c.ramBase + at);
      }
      assert Stored(c, Flat(c, s), addr, data)[at] == held ^ 1;
      Flip(held);
    }
  }

  lemma Flip(b: Byte)
    ensures b ^ 1 != b
  {
  }

  // ---- runs ----

  datatype Op =
    | Load(addr: nat, size: nat)
    | Store(addr: nat, data: seq<Byte>)
    | Drop(addr: nat)
    | DropMdid(mdid: nat)
    | EnterDomain(mdid: nat)
    | Round(engine: seq<Byte> -> seq<Byte>)

  /** An engine round replaces the RAM bytes by any others; it cannot resize RAM. */
  function Engine(f: seq<Byte> -> seq<Byte>, ram: seq<Byte>): (r: seq<Byte>)
    ensures |r| == |ram|
  {
    if |f(ram)| == |ram| then f(ram) else ram
  }

  predicate Bulk(c: Config, op: Op) {
    op.Store? && |op.data| > MAX_CPU_STORE && c.InRam(op.addr, 1)
  }

  /** Bulk stores are issued inside RAM and where no line is valid. */
  ghost predicate Allowed(c: Config, s: Cache, op: Op)
    requires c.lineSize >= 1
  {
    Bulk(c, op) ==> c.InRam(op.addr, |op.data|) && Uncovered(c, s, op.addr, |op.data|)
  }

  /** One step, with the bytes a load inside RAM returns. */
  ghost function Step(c: Config, s: Cache, op: Op): (r: (Cache, seq<seq<Byte>>))
    requires Inv(c, s) && Allowed(c, s, op)
    ensures Inv(c, r.0)
    ensures (Flat(c, r.0), r.1) == FlatStep(c, Flat(c, s), op)
  {
    match op
    case Load(addr, size) =>
      var r := Read(c, s, addr, size);
      (r.0, if c.InRam(addr, size) then [r.1] else [])
    case Store(addr, data) =>
      if Bulk(c, op) then
        BypassUncovered(c, s, addr, data);
        (Bypass(c, s, addr, data), [])
      else (Write(c, s, addr, data), [])
    case Drop(addr) =>
      InvalidateIsTransparent(c, s, addr);
      (Invalidate(c, s, addr), [])
    case DropMdid(mdid) =>
      DropDomainIsTransparent(c, s, mdid, 0);
      (DropDomain(c, s, mdid, 0), [])
    case EnterDomain(mdid) =>
      SameFlat(c, s, s.(mdid := mdid));
      (s.(mdid := mdid), [])
    case Round(engine) =>
      FlushedKeeps(c, s);
      var f := Flushed(c, s);
      DiscardedPresentsRam(c, f, Engine(engine, f.ram));
      (Discarded(f.(ram := Engine(engine, f.ram))), [])
  }

  /** The same step on flat memory: there is no cache, and the engine edits memory itself. */
  function FlatStep(c: Config, m: seq<Byte>, op: Op): (r: (seq<Byte>, seq<seq<Byte>>))
    requires |m| == c.ramSize
    ensures |r.0| == |m|
  {
    match op
    case Load(addr, size) =>
      (m, if c.InRam(addr, size) then [m[addr - c.ramBase..addr - c.ramBase + size]] else [])
    case Store(addr, data) => (Stored(c, m, addr, data), [])
    case Round(engine) => (Engine(engine, m), [])
    case _ => (m, [])
  }

  ghost predicate RunAllowed(c: Config, s: Cache, ops: seq<Op>)
    requires Inv(c, s)
    decreases |ops|
  {
    ops == [] || (Allowed(c, s, ops[0]) && RunAllowed(c, Step(c, s, ops[0]).0, ops[1..]))
  }

  ghost function Run(c: Config, s: Cache, ops: seq<Op>): (r: (Cache, seq<seq<Byte>>))
    requires Inv(c, s) && RunAllowed(c, s, ops)
    ensures Inv(c, r.0)
    decreases |ops|
  {
    if ops == [] then (s, [])
    else
      var first := Step(c, s, ops[0]);
      var rest := Run(c, first.0, ops[1..]);
      (rest.0, first.1 + rest.1)
  }

  function FlatRun(c: Config, m: seq<Byte>, ops: seq<Op>): (r: (seq<Byte>, seq<seq<Byte>>))
    requires |m| == c.ramSize
    ensures |r.0| == |m|
    decreases |ops|
  {
    if ops == [] then (m, [])
    else
      var first := FlatStep(c, m, ops[0]);
      var rest := FlatRun(c, first.0, ops[1..]);
      (rest.0, first.1 + rest.1)
  }

  /**
   Over any run the cache is invisible: every load returns what flat memory would, and no store of the
   interpreter or of the engine is lost or comes back.
   */
  lemma {:induction false} RunRefinesFlatMemory(c: Config, s: Cache, ops: seq<Op>)
    requires Inv(c, s) && RunAllowed(c, s, ops)
    ensures Flat(c, Run(c, s, ops).0) == FlatRun(c, Flat(c, s), ops).0
    ensures Run(c, s, ops).1 == FlatRun(c, Flat(c, s), ops).1
    decreases |ops|
  {
    if ops != [] {
      RunRefinesFlatMemory(c, Step(c, s, ops[0]).0, ops[1..]);
    }
  }

  /** Runs whose stores are at most eight bytes long need no side condition. */
  lemma {:induction false} CpuRunsAllowed(c: Config, s: Cache, ops: seq<Op>)
    requires Inv(c, s) && forall op | op in ops && op.Store? :: |op.data| <= 8
    ensures RunAllowed(c, s, ops)
    decreases |ops|
  {
    if ops != [] {
      CpuRunsAllowed(c, Step(c, s, ops[0]).0, ops[1..]);
    }
  }

  /** A store of at most eight bytes is kept in order with the lines, whichever are valid. */
  lemma ShortStoreIsStored(c: Config, s: Cache, addr: nat, data: seq<Byte>)
    requires Inv(c, s) && |data| <= 8
    ensures Allowed(c, s, Store(addr, data))
    ensures Step(c, s, Store(addr, data)).0 == Write(c, s, addr, data)
    ensures Flat(c, Step(c, s, Store(addr, data)).0) == Stored(c, Flat(c, s), addr, data)
  {
  }

  /** A store of more than eight bytes that starts in RAM changes RAM and neither the lines nor their index. */
  lemma LongStoreIsRamOnly(c: Config, s: Cache, addr: nat, data: seq<Byte>)
    requires Inv(c, s) && |data| > 8 && c.ramBase <= addr < c.ramBase + c.ramSize
    requires Allowed(c, s, Store(addr, data))
    ensures Step(c, s, Store(addr, data)).0 == s.(ram := RamWrite(c, s.ram, addr, data))
  {
  }

  /** An engine round leaves in memory what the engine makes of it. */
  lemma RoundIsEngine(c: Config, s: Cache, engine: seq<Byte> -> seq<Byte>)
    requires Inv(c, s) && |engine(Flat(c, s))| == c.ramSize
    ensures Flat(c, Step(c, s, Round(engine)).0) == Step(c, s, Round(engine)).0.ram == engine(Flat(c, s))
    ensures forall i | 0 <= i < |s.lines| :: !Step(c, s, Round(engine)).0.lines[i].valid
  {
    FlushedKeeps(c, s);
  }

  /** Right after an engine round the cache is empty, so a bulk store anywhere in RAM is allowed. */
  lemma BulkAfterRoundAllowed(c: Config, s: Cache, engine: seq<Byte> -> seq<Byte>, addr: nat, data: seq<Byte>)
    requires Inv(c, s) && c.InRam(addr, |data|)
    ensures Allowed(c, Step(c, s, Round(engine)).0, Store(addr, data))
  {
  }
}
