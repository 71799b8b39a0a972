/**
 Replacement in the L2 cache is exact LRU: what a set holds depends on the order of accesses only.
 */
module L2Lru {
  import opened Bits
  import opened L2Model
  import opened L2Transparency

  /** The cache as constructed. */
  function Fresh(c: Config, ram: seq<Byte>): Cache {
    Cache(seq(c.sets * c.ways, _ => Line(0, false, Invalid, 0, 0, [])), map[], 0, 0, ram)
  }

  lemma FreshInv(c: Config, ram: seq<Byte>)
    requires c.Wf() && |ram| == c.ramSize
    ensures Inv(c, Fresh(c, ram)) && Flat(c, Fresh(c, ram)) == ram
  {
    forall k | 0 <= k < c.ramSize
      ensures Flat(c, Fresh(c, ram))[k] == ram[k]
    {
      assert c.InRam(c.ramBase + k, 1);
    }
  }

  /** A load or a store. */
  datatype Op = Load(addr: nat, size: nat) | Store(addr: nat, data: seq<Byte>)

  /** The access lies in one line. */
  predicate InLine(c: Config, op: Op)
    requires c.lineSize >= 1
  {
    OffsetOf(c, op.addr) + (if op.Load? then op.size else |op.data|) <= c.lineSize
  }

  ghost function Step(c: Config, s: Cache, op: Op): (s': Cache)
    requires Inv(c, s)
    ensures Inv(c, s')
  {
    match op
    case Load(addr, size) => Read(c, s, addr, size).0
    case Store(addr, data) => Write(c, s, addr, data)
  }

  ghost function Run(c: Config, s: Cache, ops: seq<Op>): (s': Cache)
    requires Inv(c, s)
    ensures Inv(c, s')
  {
    if ops == [] then s else Step(c, Run(c, s, ops[..|ops| - 1]), ops[|ops| - 1])
  }

  /** The tags that the operations access, the oldest first. */
  function Tags(c: Config, ops: seq<Op>): (h: seq<nat>)
    requires c.lineSize >= 1
    ensures |h| == |ops|
  {
    seq(|ops|, k requires 0 <= k < |ops| => TagOf(c, ops[k].addr))
  }

  /** The time of the last access to a tag, counting from one; zero when there is none. */
  function LastUse(h: seq<nat>, tag: nat): (n: nat)
    ensures n <= |h|
    ensures n > 0 <==> tag in h
    ensures n > 0 ==> h[n - 1] == tag && forall k | n <= k < |h| :: h[k] != tag
  {
    if h == [] then 0
    else if h[|h| - 1] == tag then |h|
    else
      assert h == h[..|h| - 1] + [h[|h| - 1]];
      LastUse(h[..|h| - 1], tag)
  }

  lemma LastUseAppend(h: seq<nat>, t: nat, u: nat)
    ensures LastUse(h + [t], u) == if u == t then |h| + 1 else LastUse(h, u)
  {
    assert (h + [t])[..|h|] == h;
  }

  lemma LastUseInjective(h: seq<nat>, t: nat, u: nat)
    requires t in h && LastUse(h, t) == LastUse(h, u)
    ensures t == u
  {
  }

  /** The tags of the same set that were accessed after the last access to `tag`. */
  ghost function Newer(c: Config, h: seq<nat>, tag: nat): set<nat>
    requires c.sets >= 1
  {
    set u | u in h && SetOf(c, u) == SetOf(c, tag) && LastUse(h, u) > LastUse(h, tag)
  }

  ghost predicate AllValid(c: Config, s: Cache, k: nat)
    requires |s.lines| == c.sets * c.ways && k < c.sets
  {
    forall w: nat | w < c.ways :: WaysOf(c, s, k)[w].valid
  }

  ghost predicate Stamped(s: Cache, h: seq<nat>)
    requires IndexExact(s)
  {
    s.clock == |h| && forall t | t in s.index :: t in h && s.lines[s.index[t]].lastAccess == LastUse(h, t)
  }

  /** What is held is closed under "accessed later in the same set". */
  ghost predicate Closed(c: Config, s: Cache, h: seq<nat>)
    requires c.sets >= 1
  {
    forall t, u | t in s.index && u in h && SetOf(c, u) == SetOf(c, t) && LastUse(h, u) > LastUse(h, t) :: u in s.index
  }

  /** A tag is missing only from a full set. */
  ghost predicate Full(c: Config, s: Cache, h: seq<nat>)
    requires |s.lines| == c.sets * c.ways && c.sets >= 1
  {
    forall u | u in h && u !in s.index :: AllValid(c, s, SetOf(c, u))
  }

  ghost predicate LruInv(c: Config, s: Cache, h: seq<nat>) {
    Inv(c, s) && Stamped(s, h) && Closed(c, s, h) && Full(c, s, h)
  }

  /** A line of the set, by its way. */
  lemma WayOfTag(c: Config, s: Cache, t: nat)
    requires Inv(c, s) && t in s.index
    ensures var k := SetOf(c, t);
            0 <= s.index[t] - k * c.ways < c.ways && WaysOf(c, s, k)[s.index[t] - k * c.ways] == s.lines[s.index[t]]
  {
    SetBounds(c, SetOf(c, t));
  }

  lemma WayTag(c: Config, s: Cache, k: nat, w: nat)
    requires Inv(c, s) && k < c.sets && w < c.ways && WaysOf(c, s, k)[w].valid
    ensures var l := WaysOf(c, s, k)[w];
            l.tag in s.index && s.index[l.tag] == k * c.ways + w && SetOf(c, l.tag) == k
  {
    SetBounds(c, k);
    var l := s.lines[k * c.ways + w];
    BlockUnique(c.ways, SetOf(c, l.tag), k, k * c.ways + w);
  }

  /** The dictionary and the ways of a set say the same about a tag. */
  lemma WaysKnowTag(c: Config, s: Cache, t: nat)
    requires Inv(c, s)
    ensures var ws := WaysOf(c, s, SetOf(c, t));
      && (t in s.index <==> exists w :: 0 <= w < |ws| && ws[w].valid && ws[w].tag == t)
      && (forall w | 0 <= w < |ws| && ws[w].valid && ws[w].tag == t :: t in s.index && s.index[t] == SetOf(c, t) * c.ways + w)
      && (t in s.index ==> s.index[t] < |s.lines|)
  {
    var k := SetOf(c, t);
    SetBounds(c, k);
    forall w | 0 <= w < c.ways && WaysOf(c, s, k)[w].valid && WaysOf(c, s, k)[w].tag == t
      ensures t in s.index && s.index[t] == k * c.ways + w
    {
      WayTag(c, s, k, w);
    }
    if t in s.index {
      WayOfTag(c, s, t);
      assert WaysOf(c, s, k)[s.index[t] - k * c.ways].valid;
    }
  }

  /** A set of valid lines stays one while no line loses its validity. */
  lemma StaysAllValid(c: Config, s: Cache, s': Cache, k: nat)
    requires c.ways >= 1 && |s.lines| == |s'.lines| == c.sets * c.ways && k < c.sets && AllValid(c, s, k)
    requires forall i | 0 <= i < |s.lines| && s.lines[i].valid :: s'.lines[i].valid
    ensures AllValid(c, s', k)
  {
    SetBounds(c, k);
    forall w: nat | w < c.ways
      ensures WaysOf(c, s', k)[w].valid
    {
      assert WaysOf(c, s, k)[w].valid;
    }
  }

  lemma TouchLru(c: Config, s: Cache, h: seq<nat>, t: nat)
    requires LruInv(c, s, h) && t in s.index
    ensures LruInv(c, Touch(Tick(s), s.index[t]), h + [t])
  {
    hide AllValid, WaysOf, Clean, Placed;
    TickKeeps(c, s);
    AccessKeeps(c, Tick(s), t);
    var s', h' := Touch(Tick(s), s.index[t]), h + [t];
    forall u ensures LastUse(h', u) == if u == t then |h| + 1 else LastUse(h, u) {
      LastUseAppend(h, t, u);
    }
    assert Stamped(s', h');
    forall u | u in h' && u !in s'.index
      ensures AllValid(c, s', SetOf(c, u))
    {
      StaysAllValid(c, s, s', SetOf(c, u));
    }
  }

  /** The evicted line is the least recently used of its set. */
  lemma FillLru(c: Config, s: Cache, h: seq<nat>, t: nat)
    requires LruInv(c, s, h) && t !in s.index
    ensures LruInv(c, Fill(c, Tick(s), t), h + [t])
  {
    TickKeeps(c, s);
    AccessKeeps(c, Tick(s), t);
    var s', h' := Fill(c, Tick(s), t), h + [t];
    forall u ensures LastUse(h', u) == if u == t then |h| + 1 else LastUse(h, u) {
      LastUseAppend(h, t, u);
    }
    assert Stamped(s', h');
    FillClosed(c, s, h, t);
    FillFull(c, s, h, t);
  }

  lemma VictimOldest(c: Config, s: Cache, h: seq<nat>, t: nat, u: nat)
    requires LruInv(c, s, h) && t !in s.index
    requires s.lines[VictimEntry(c, s, t)].valid && u in s.index && SetOf(c, u) == SetOf(c, t)
    ensures var x := s.lines[VictimEntry(c, s, t)].tag;
            x in s.index && SetOf(c, x) == SetOf(c, t) && LastUse(h, x) <= LastUse(h, u)
  {
    hide Victim, Full, Closed, SetOf, Clean, Placed, WaysOf;
    var k := SetOf(c, t);
    var ws := WaysOf(c, s, k);
    WayTag(c, s, k, Victim(ws));
    WayOfTag(c, s, u);
    assert ws[Victim(ws)].lastAccess <= ws[s.index[u] - k * c.ways].lastAccess;
  }

  lemma FillClosed(c: Config, s: Cache, h: seq<nat>, t: nat)
    requires LruInv(c, s, h) && t !in s.index
    ensures Closed(c, Fill(c, Tick(s), t), h + [t])
  {
    var s', h' := Fill(c, Tick(s), t), h + [t];
    assert WaysOf(c, Tick(s), SetOf(c, t)) == WaysOf(c, s, SetOf(c, t));
    var l := s.lines[VictimEntry(c, s, t)];
    assert s'.index == (if l.valid then s.index - {l.tag} else s.index)[t := VictimEntry(c, s, t)];
    forall a, u | a in s'.index && u in h' && SetOf(c, u) == SetOf(c, a) && LastUse(h', u) > LastUse(h', a)
      ensures u in s'.index
    {
      LastUseAppend(h, t, a);
      LastUseAppend(h, t, u);
      if u != t && a != t {
        StaysClosed(c, s, h, t, a, u);
      }
    }
  }

  lemma StaysClosed(c: Config, s: Cache, h: seq<nat>, t: nat, a: nat, u: nat)
    requires LruInv(c, s, h) && t !in s.index && a in s.index && u in h
    requires SetOf(c, u) == SetOf(c, a) && LastUse(h, u) > LastUse(h, a)
    ensures var l := s.lines[VictimEntry(c, s, t)];
            u in s.index && (l.valid ==> l.tag != u)
  {
    var l := s.lines[VictimEntry(c, s, t)];
    if l.valid && u == l.tag {
      WayTag(c, s, SetOf(c, t), Victim(WaysOf(c, s, SetOf(c, t))));
      VictimOldest(c, s, h, t, a);
    }
  }

  lemma FillFull(c: Config, s: Cache, h: seq<nat>, t: nat)
    requires LruInv(c, s, h) && t !in s.index
    ensures |Fill(c, Tick(s), t).lines| == c.sets * c.ways && Full(c, Fill(c, Tick(s), t), h + [t])
  {
    var s', h' := Fill(c, Tick(s), t), h + [t];
    assert WaysOf(c, Tick(s), SetOf(c, t)) == WaysOf(c, s, SetOf(c, t));
    var v := VictimEntry(c, s, t);
    forall u | u in h' && u !in s'.index
      ensures AllValid(c, s', SetOf(c, u))
    {
      var k := SetOf(c, u);
      SetBounds(c, k);
      if u in s.index {
        WayOfTag(c, s, u);
        WayTag(c, s, SetOf(c, t), Victim(WaysOf(c, s, SetOf(c, t))));
        assert s.lines[v].valid && u == s.lines[v].tag && k == SetOf(c, t);
      }
      assert AllValid(c, s, k);
      forall w: nat | w < c.ways
        ensures WaysOf(c, s', k)[w].valid
      {
        assert WaysOf(c, s, k)[w].valid;
      }
    }
  }

  /** Storing into the line just accessed changes nothing that replacement looks at. */
  lemma PokeLru(c: Config, s: Cache, h: seq<nat>, i: nat, off: nat, chunk: seq<Byte>)
    requires LruInv(c, s, h) && i < |s.lines| && off + |chunk| <= |s.lines[i].data| && Inv(c, Poke(s, i, off, chunk))
    ensures LruInv(c, Poke(s, i, off, chunk), h)
  {
    var s' := Poke(s, i, off, chunk);
    forall u | u in h && u !in s'.index
      ensures AllValid(c, s', SetOf(c, u))
    {
      StaysAllValid(c, s, s', SetOf(c, u));
    }
  }

  lemma AccessLru(c: Config, s: Cache, h: seq<nat>, t: nat)
    requires LruInv(c, s, h)
    ensures LruInv(c, Access(c, Tick(s), t), h + [t])
  {
    hide Touch, Fill;
    if t in s.index {
      TouchLru(c, s, h, t);
    } else {
      FillLru(c, s, h, t);
    }
  }

  /** A load or a store within a line, hit or miss, makes its tag the most recent and evicts the oldest. */
  lemma StepLru(c: Config, s: Cache, h: seq<nat>, op: Op)
    requires LruInv(c, s, h) && InLine(c, op)
    ensures LruInv(c, Step(c, s, op), h + [TagOf(c, op.addr)])
  {
    hide Stamped, Closed, Full, Access, Poke, Flat, Clean, Placed;
    var t := TagOf(c, op.addr);
    TickKeeps(c, s);
    AccessLru(c, s, h, t);
    match op
    case Load(addr, size) =>
      ReadBegins(c, Tick(s), addr, size);
    case Store(addr, data) =>
      WriteBegins(c, Tick(s), addr, data);
      WriteLineIs(c, Tick(s), addr, data);
      var s1 := Access(c, Tick(s), t);
      PokeLru(c, s1, h + [t], s1.index[t], OffsetOf(c, addr), data);
  }

  lemma FreshLru(c: Config, ram: seq<Byte>)
    requires c.Wf() && |ram| == c.ramSize
    ensures Inv(c, Fresh(c, ram)) && LruInv(c, Fresh(c, ram), [])
  {
    FreshInv(c, ram);
  }

  lemma {:induction false} RunLru(c: Config, ram: seq<Byte>, ops: seq<Op>)
    requires c.Wf() && |ram| == c.ramSize && forall k | 0 <= k < |ops| :: InLine(c, ops[k])
    ensures Inv(c, Fresh(c, ram)) && LruInv(c, Run(c, Fresh(c, ram), ops), Tags(c, ops))
  {
    hide LruInv, Step, Fresh, Inv, InLine;
    FreshLru(c, ram);
    if ops == [] {
      assert Tags(c, ops) == [];
    } else {
      var before, op := ops[..|ops| - 1], ops[|ops| - 1];
      RunLru(c, ram, before);
      StepLru(c, Run(c, Fresh(c, ram), before), Tags(c, before), op);
      assert Tags(c, ops) == Tags(c, before) + [TagOf(c, op.addr)];
    }
  }

  // ---- counting the lines of a set ----

  /** The tags in the first ways of a set. */
  ghost function TagsIn(ws: seq<Line>): set<nat> {
    set w | 0 <= w < |ws| && ws[w].valid :: ws[w].tag
  }

  /** Distinct tags are counted by the valid ways. */
  lemma {:induction false} TagsCount(ws: seq<Line>)
    requires forall v, w | 0 <= v < w < |ws| && ws[v].valid && ws[w].valid :: ws[v].tag != ws[w].tag
    ensures |TagsIn(ws)| <= |ws|
    ensures (forall w | 0 <= w < |ws| :: ws[w].valid) ==> |TagsIn(ws)| == |ws|
  {
    if ws == [] {
      assert TagsIn(ws) == {};
    } else {
      var n := |ws| - 1;
      TagsCount(ws[..n]);
      assert TagsIn(ws) == if ws[n].valid then TagsIn(ws[..n]) + {ws[n].tag} else TagsIn(ws[..n]);
      assert ws[n].valid ==> ws[n].tag !in TagsIn(ws[..n]);
    }
  }

  ghost function Held(c: Config, s: Cache, k: nat): set<nat>
    requires Inv(c, s) && k < c.sets
  {
    TagsIn(WaysOf(c, s, k))
  }

  lemma HeldCount(c: Config, s: Cache, k: nat)
    requires Inv(c, s) && k < c.sets
    ensures |Held(c, s, k)| <= c.ways
    ensures AllValid(c, s, k) ==> |Held(c, s, k)| == c.ways
  {
    var ws := WaysOf(c, s, k);
    forall v, w | 0 <= v < w < |ws| && ws[v].valid && ws[w].valid
      ensures ws[v].tag != ws[w].tag
    {
      WayTag(c, s, k, v);
      WayTag(c, s, k, w);
    }
    TagsCount(ws);
  }

  /**
   After any loads and stores, each within a line, to an empty cache a line is held exactly when fewer
   than `ways` other lines of its set were accessed since it was last accessed itself.
   */
  lemma LruExact(c: Config, ram: seq<Byte>, ops: seq<Op>, t: nat)
    requires c.Wf() && |ram| == c.ramSize && forall i | 0 <= i < |ops| :: InLine(c, ops[i])
    ensures Inv(c, Fresh(c, ram))
    ensures t in Run(c, Fresh(c, ram), ops).index <==> t in Tags(c, ops) && |Newer(c, Tags(c, ops), t)| < c.ways
  {
    RunLru(c, ram, ops);
    HeldIff(c, Run(c, Fresh(c, ram), ops), Tags(c, ops), t);
  }

  lemma HeldIff(c: Config, s: Cache, h: seq<nat>, t: nat)
    requires LruInv(c, s, h)
    ensures t in s.index <==> t in h && |Newer(c, h, t)| < c.ways
  {
    var k := SetOf(c, t);
    HeldCount(c, s, k);
    if t in s.index {
      forall u | u in Newer(c, h, t) + {t}
        ensures u in Held(c, s, k)
      {
        WayOfTag(c, s, u);
      }
      SubsetCount(Newer(c, h, t) + {t}, Held(c, s, k));
    } else if t in h {
      forall u | u in Held(c, s, k)
        ensures u in Newer(c, h, t)
      {
        HeldIsNewer(c, s, h, t, u);
      }
      SubsetCount(Held(c, s, k), Newer(c, h, t));
    }
  }

  /** The tags of set `k` in a history. */
  ghost function Accessed(c: Config, h: seq<nat>, k: nat): set<nat>
    requires c.sets >= 1
  {
    set u | u in h && SetOf(c, u) == k
  }

  /** A set holds as many lines as were accessed in it, up to its ways. */
  lemma SetHoldsMinimum(c: Config, ram: seq<Byte>, ops: seq<Op>, k: nat)
    requires c.Wf() && |ram| == c.ramSize && k < c.sets && forall i | 0 <= i < |ops| :: InLine(c, ops[i])
    ensures Inv(c, Fresh(c, ram))
    ensures |Held(c, Run(c, Fresh(c, ram), ops), k)| == Min(c.ways, |Accessed(c, Tags(c, ops), k)|)
  {
    RunLru(c, ram, ops);
    HeldMinimum(c, Run(c, Fresh(c, ram), ops), Tags(c, ops), k);
  }

  lemma HeldMinimum(c: Config, s: Cache, h: seq<nat>, k: nat)
    requires LruInv(c, s, h) && k < c.sets
    ensures |Held(c, s, k)| == Min(c.ways, |Accessed(c, h, k)|)
  {
    HeldCount(c, s, k);
    forall u | u in Held(c, s, k)
      ensures u in Accessed(c, h, k)
    {
      var w: nat :| w < |WaysOf(c, s, k)| && WaysOf(c, s, k)[w].valid && WaysOf(c, s, k)[w].tag == u;
      WayTag(c, s, k, w);
    }
    SubsetCount(Held(c, s, k), Accessed(c, h, k));
    if forall u | u in Accessed(c, h, k) :: u in s.index {
      forall u | u in Accessed(c, h, k)
        ensures u in Held(c, s, k)
      {
        WayOfTag(c, s, u);
      }
      assert Held(c, s, k) == Accessed(c, h, k);
    } else {
      assert AllValid(c, s, k);
    }
  }

  lemma HeldIsNewer(c: Config, s: Cache, h: seq<nat>, t: nat, u: nat)
    requires LruInv(c, s, h) && t in h && t !in s.index && u in Held(c, s, SetOf(c, t))
    ensures u in Newer(c, h, t)
  {
    var k := SetOf(c, t);
    var ws := WaysOf(c, s, k);
    var w: nat :| w < |ws| && ws[w].valid && ws[w].tag == u;
    WayTag(c, s, k, w);
    if LastUse(h, u) == LastUse(h, t) {
      LastUseInjective(h, t, u);
    }
  }
}
