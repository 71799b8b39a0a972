/**
 The TLB as a value: slots, the dictionary from page number to slot, and the replacement pointer; and
 the map of translations it stands for.
 */
module TlbModel {
  import opened Options

  type Vpn = nat

  datatype Policy = Fifo | Lru

  /** The permission bits of a leaf page table entry. */
  datatype Perm = Perm(r: bool, w: bool, x: bool, u: bool)

  const NO_PERM := Perm(false, false, false, false)

  datatype Mapping = Mapping(ppn: nat, perm: Perm, level: nat, mdid: nat, asid: nat)

  datatype Slot = Slot(tag: Vpn, valid: bool, lastAccess: nat, entry: Mapping)

  datatype Tlb = Tlb(slots: seq<Slot>, index: map<Vpn, nat>, clock: nat, fifo: nat)

  const EMPTY := Slot(0, false, 0, Mapping(0, NO_PERM, 0, 0, 0))

  function EmptyTlb(size: nat): Tlb {
    Tlb(seq(size, _ => EMPTY), map[], 0, 0)
  }

  /** The dictionary is exactly the valid tags; so a lookup never meets a stale entry. */
  ghost predicate Inv(t: Tlb) {
    && |t.slots| >= 1 && t.fifo < |t.slots|
    && (forall v | v in t.index :: t.index[v] < |t.slots| && t.slots[t.index[v]].valid && t.slots[t.index[v]].tag == v)
    && (forall i | 0 <= i < |t.slots| && t.slots[i].valid :: t.slots[i].tag in t.index && t.index[t.slots[i].tag] == i)
  }

  /** The translations held. */
  ghost function Contents(t: Tlb): map<Vpn, Mapping>
    requires Inv(t)
  {
    map v | v in t.index :: t.slots[t.index[v]].entry
  }

  // ---- operations ----

  /** A tagged lookup passes over an entry of another address space; ASID 0 matches everything. */
  predicate AsidMatches(entry: Mapping, asid: nat) {
    asid == 0 || entry.asid == 0 || entry.asid == asid
  }

  function Lookup(t: Tlb, vpn: Vpn, asid: nat): (r: (Tlb, Option<Mapping>))
    requires vpn in t.index ==> t.index[vpn] < |t.slots|
  {
    var t1 := t.(clock := t.clock + 1);
    if vpn !in t.index then (t1, None)
    else
      var s := t.slots[t.index[vpn]];
      (t1.(slots := t.slots[t.index[vpn] := s.(lastAccess := t1.clock)]),
       if AsidMatches(s.entry, asid) then Some(s.entry) else None)
  }

  function FirstInvalid(ss: seq<Slot>, from: nat): (i: nat)
    requires from <= |ss|
    ensures from <= i <= |ss|
    ensures forall j | from <= j < i :: ss[j].valid
    ensures i < |ss| ==> !ss[i].valid
    decreases |ss| - from
  {
    if from == |ss| || !ss[from].valid then from else FirstInvalid(ss, from + 1)
  }

  function Oldest(ss: seq<Slot>, n: nat): (i: nat)
    requires 1 <= n <= |ss|
    ensures i < n
    ensures forall j | 0 <= j < n :: ss[i].lastAccess <= ss[j].lastAccess
    ensures forall j | 0 <= j < i :: ss[i].lastAccess < ss[j].lastAccess
  {
    if n == 1 then 0
    else
      var i := Oldest(ss, n - 1);
      if ss[n - 1].lastAccess < ss[i].lastAccess then n - 1 else i
  }

  /** The slot to replace, and the FIFO pointer afterwards. */
  function PickVictim(p: Policy, t: Tlb): (r: (nat, nat))
    requires |t.slots| >= 1 && t.fifo < |t.slots|
    ensures r.0 < |t.slots| && r.1 < |t.slots|
  {
    match p
    case Fifo => (t.fifo, if t.fifo + 1 == |t.slots| then 0 else t.fifo + 1)
    case Lru =>
      var i := FirstInvalid(t.slots, 0);
      (if i < |t.slots| then i else Oldest(t.slots, |t.slots|), t.fifo)
  }

  function Insert(p: Policy, t: Tlb, vpn: Vpn, entry: Mapping): Tlb
    requires |t.slots| >= 1 && t.fifo < |t.slots|
    requires vpn in t.index ==> t.index[vpn] < |t.slots|
  {
    var t1 := t.(clock := t.clock + 1);
    if vpn in t.index then
      t1.(slots := t.slots[t.index[vpn] := t.slots[t.index[vpn]].(entry := entry, lastAccess := t1.clock)])
    else
      var (i, fifo) := PickVictim(p, t1);
      var prev := t.slots[i];
      t1.(slots := t.slots[i := Slot(vpn, true, t1.clock, entry)],
          index := (if prev.valid then t.index - {prev.tag} else t.index)[vpn := i],
          fifo := fifo)
  }

  function FlushAll(t: Tlb): Tlb {
    t.(slots := seq(|t.slots|, i requires 0 <= i < |t.slots| => t.slots[i].(valid := false, tag := 0)),
       index := map[])
  }

  /** Page number zero stands for a flush of everything. */
  function Flush(t: Tlb, vpn: Vpn): Tlb
    requires vpn in t.index ==> t.index[vpn] < |t.slots|
  {
    if vpn == 0 then FlushAll(t)
    else if vpn !in t.index then t
    else
      var s := t.slots[t.index[vpn]];
      var gone := s.entry.(ppn := 0, perm := NO_PERM, level := 0);
      t.(slots := t.slots[t.index[vpn] := s.(valid := false, tag := 0, entry := gone)], index := t.index - {vpn})
  }

  /** Drop the slots from `i` on that a memory domain filled. */
  function DropDomain(t: Tlb, mdid: nat, i: nat): (t': Tlb)
    requires i <= |t.slots|
    ensures |t'.slots| == |t.slots|
    decreases |t.slots| - i
  {
    if i == |t.slots| then t
    else
      var s := t.slots[i];
      if s.valid && s.entry.mdid == mdid then
        DropDomain(t.(slots := t.slots[i := s.(valid := false, tag := 0)], index := t.index - {s.tag}), mdid, i + 1)
      else DropDomain(t, mdid, i + 1)
  }

  // ---- what they do to the translations ----

  lemma LookupIsRead(t: Tlb, vpn: Vpn, asid: nat)
    requires Inv(t)
    ensures var (t', r) := Lookup(t, vpn, asid);
            && Inv(t') && Contents(t') == Contents(t)
            && (r.Some? <==>
                  vpn in Contents(t) && (asid == 0 || Contents(t)[vpn].asid == 0 || Contents(t)[vpn].asid == asid))
            && (r.Some? ==> r.value == Contents(t)[vpn])
  {
  }

  /** The translations left when an insertion of a new page takes slot `i`. */
  lemma ReplaceKeepsInv(t: Tlb, t': Tlb, vpn: Vpn, entry: Mapping, i: nat)
    requires Inv(t) && vpn !in t.index && i < |t.slots| && t'.fifo < |t.slots|
    requires t'.slots == t.slots[i := Slot(vpn, true, t'.clock, entry)]
    requires t'.index == (if t.slots[i].valid then t.index - {t.slots[i].tag} else t.index)[vpn := i]
    ensures Inv(t')
  {
  }

  lemma ReplaceIsUpdate(t: Tlb, t': Tlb, vpn: Vpn, entry: Mapping, i: nat)
    requires Inv(t) && vpn !in t.index && i < |t.slots| && t'.fifo < |t.slots|
    requires t'.slots == t.slots[i := Slot(vpn, true, t'.clock, entry)]
    requires t'.index == (if t.slots[i].valid then t.index - {t.slots[i].tag} else t.index)[vpn := i]
    ensures Inv(t')
    ensures Contents(t') == (if t.slots[i].valid then Contents(t) - {t.slots[i].tag} else Contents(t))[vpn := entry]
  {
    ReplaceKeepsInv(t, t', vpn, entry, i);
    forall v | v in Contents(t')
      ensures v == vpn || (v in Contents(t) && Contents(t')[v] == Contents(t)[v])
    {
    }
  }

  /** An insertion sets one translation, and evicts at most one other. */
  lemma InsertIsUpdate(p: Policy, t: Tlb, vpn: Vpn, entry: Mapping)
    requires Inv(t)
    ensures var t' := Insert(p, t, vpn, entry);
            && Inv(t')
            && (vpn in t.index ==> Contents(t') == Contents(t)[vpn := entry])
            && (vpn !in t.index ==>
                  var s := t.slots[PickVictim(p, t.(clock := t.clock + 1)).0];
                  Contents(t') == (if s.valid then Contents(t) - {s.tag} else Contents(t))[vpn := entry])
  {
    var t' := Insert(p, t, vpn, entry);
    if vpn in t.index {
      assert Inv(t');
    } else {
      ReplaceIsUpdate(t, t', vpn, entry, PickVictim(p, t.(clock := t.clock + 1)).0);
    }
  }

  lemma FlushIsRemoval(t: Tlb, vpn: Vpn)
    requires Inv(t)
    ensures Inv(Flush(t, vpn)) && Inv(FlushAll(t))
    ensures Contents(FlushAll(t)) == map[]
    ensures Contents(Flush(t, vpn)) == if vpn == 0 then map[] else Contents(t) - {vpn}
  {
  }

  ghost function Others(m: map<Vpn, Mapping>, mdid: nat): map<Vpn, Mapping> {
    map v | v in m && m[v].mdid != mdid :: m[v]
  }

  lemma DropSlot(t: Tlb, i: nat)
    requires Inv(t) && i < |t.slots| && t.slots[i].valid
    ensures var s := t.slots[i];
            var t' := t.(slots := t.slots[i := s.(valid := false, tag := 0)], index := t.index - {s.tag});
            && Inv(t') && Contents(t') == Contents(t) - {s.tag}
            && s.tag in Contents(t) && Contents(t)[s.tag] == s.entry
  {
  }

  lemma OthersSkip(m: map<Vpn, Mapping>, v: Vpn, mdid: nat)
    requires v in m && m[v].mdid == mdid
    ensures Others(m - {v}, mdid) == Others(m, mdid)
  {
  }

  lemma OthersAll(t: Tlb, mdid: nat)
    requires Inv(t) && forall j | 0 <= j < |t.slots| && t.slots[j].valid :: t.slots[j].entry.mdid != mdid
    ensures Others(Contents(t), mdid) == Contents(t)
  {
  }

  lemma {:induction false} DropDomainIsRemoval(t: Tlb, mdid: nat, i: nat)
    requires Inv(t) && i <= |t.slots|
    requires forall j | 0 <= j < i && t.slots[j].valid :: t.slots[j].entry.mdid != mdid
    ensures Inv(DropDomain(t, mdid, i))
    ensures Contents(DropDomain(t, mdid, i)) == Others(Contents(t), mdid)
    decreases |t.slots| - i
  {
    hide Inv, Contents, Others;
    if i < |t.slots| {
      var s := t.slots[i];
      if s.valid && s.entry.mdid == mdid {
        DropSlot(t, i);
        var t' := t.(slots := t.slots[i := s.(valid := false, tag := 0)], index := t.index - {s.tag});
        DropDomainIsRemoval(t', mdid, i + 1);
        OthersSkip(Contents(t), s.tag, mdid);
      } else {
        DropDomainIsRemoval(t, mdid, i + 1);
      }
    } else {
      OthersAll(t, mdid);
    }
  }

  // ---- runs ----

  datatype Op =
    | Find(vpn: Vpn, asid: nat)
    | Put(vpn: Vpn, entry: Mapping)
    | Drop(vpn: Vpn)
    | DropAll
    | DropMdid(mdid: nat)

  ghost function Apply(p: Policy, t: Tlb, op: Op): (t': Tlb)
    requires Inv(t)
    ensures Inv(t') && |t'.slots| == |t.slots|
  {
    match op
    case Find(vpn, asid) => LookupIsRead(t, vpn, asid); Lookup(t, vpn, asid).0
    case Put(vpn, entry) => InsertIsUpdate(p, t, vpn, entry); Insert(p, t, vpn, entry)
    case Drop(vpn) => FlushIsRemoval(t, vpn); Flush(t, vpn)
    case DropAll => FlushIsRemoval(t, 0); FlushAll(t)
    case DropMdid(mdid) => DropDomainIsRemoval(t, mdid, 0); DropDomain(t, mdid, 0)
  }

  ghost function ApplyAll(p: Policy, t: Tlb, ops: seq<Op>): (t': Tlb)
    requires Inv(t)
    ensures Inv(t') && |t'.slots| == |t.slots|
    decreases |ops|
  {
    if ops == [] then t else Apply(p, ApplyAll(p, t, ops[..|ops| - 1]), ops[|ops| - 1])
  }

  /** The latest insertion for a page since the last flush that covered it. */
  function Latest(ops: seq<Op>, v: Vpn): Option<Mapping> {
    if ops == [] then None
    else
      var before := Latest(ops[..|ops| - 1], v);
      match ops[|ops| - 1]
      case Find(_, _) => before
      case Put(vpn, entry) => if vpn == v then Some(entry) else before
      case Drop(vpn) => if vpn == 0 || vpn == v then None else before
      case DropAll => None
      case DropMdid(mdid) => if before.Some? && before.value.mdid == mdid then None else before
  }

  /** Whatever the history, a hit gives the latest insertion that has not been flushed since. */
  lemma {:induction false} HitIsLatest(p: Policy, size: nat, ops: seq<Op>, v: Vpn)
    requires size >= 1
    ensures var t := ApplyAll(p, EmptyTlb(size), ops);
            v in Contents(t) ==> Latest(ops, v) == Some(Contents(t)[v])
    decreases |ops|
  {
    if ops != [] {
      var n := |ops| - 1;
      HitIsLatest(p, size, ops[..n], v);
      var t := ApplyAll(p, EmptyTlb(size), ops[..n]);
      match ops[n] {
        case Find(vpn, asid) => LookupIsRead(t, vpn, asid);
        case Put(vpn, entry) => InsertIsUpdate(p, t, vpn, entry);
        case Drop(vpn) => FlushIsRemoval(t, vpn);
        case DropAll => FlushIsRemoval(t, 0);
        case DropMdid(mdid) => DropDomainIsRemoval(t, mdid, 0);
      }
    }
  }

  // ---- LRU ----

  /** No stamp is ahead of the clock. */
  ghost predicate Stamped(t: Tlb) {
    forall i | 0 <= i < |t.slots| :: t.slots[i].lastAccess <= t.clock
  }

  /** The slot of page `v` was used after every other. */
  ghost predicate MostRecent(t: Tlb, v: Vpn)
    requires Inv(t)
  {
    v in t.index && forall i | 0 <= i < |t.slots| && i != t.index[v] :: t.slots[i].lastAccess < t.slots[t.index[v]].lastAccess
  }

  /** A lookup that finds its page and an insertion, of a new page or one held, make it the most recent. */
  lemma UseIsMostRecent(p: Policy, t: Tlb, v: Vpn, asid: nat, entry: Mapping)
    requires Inv(t) && Stamped(t)
    ensures var l := Lookup(t, v, asid).0; Inv(l) && Stamped(l) && (v in t.index ==> MostRecent(l, v))
    ensures var n := Insert(p, t, v, entry); Inv(n) && Stamped(n) && MostRecent(n, v)
  {
    hide Contents;
    InsertIsUpdate(p, t, v, entry);
  }

  /**
   Under LRU a new page takes an invalid slot while there is one, and otherwise the slot used least recently; so
   with two slots or more the most recent page stays.
   */
  lemma LruVictim(t: Tlb, v: Vpn, entry: Mapping, recent: Vpn)
    requires Inv(t) && v !in t.index
    ensures Inv(Insert(Lru, t, v, entry))
    ensures (exists i :: 0 <= i < |t.slots| && !t.slots[i].valid)
            ==> forall w | w in Contents(t) :: w in Contents(Insert(Lru, t, v, entry))
    ensures forall w | w in Contents(t) && w !in Contents(Insert(Lru, t, v, entry)) ::
              forall i | 0 <= i < |t.slots| :: t.slots[t.index[w]].lastAccess <= t.slots[i].lastAccess
    ensures |t.slots| >= 2 && MostRecent(t, recent) ==> recent in Contents(Insert(Lru, t, v, entry))
  {
    InsertIsUpdate(Lru, t, v, entry);
    if |t.slots| >= 2 && MostRecent(t, recent) {
      var other := if t.index[recent] == 0 then 1 else 0;
      assert t.slots[other].lastAccess < t.slots[t.index[recent]].lastAccess;
    }
  }

  // ---- FIFO ----

  /** Steps that neither flush nor insert the page `v`. */
  predicate Spares(op: Op, v: Vpn) {
    match op
    case Find(_, _) => true
    case Put(vpn, _) => vpn != v
    case Drop(vpn) => vpn != 0 && vpn != v
    case DropAll => false
    case DropMdid(_) => false
  }

  /** How many insertions of a run needed a slot. */
  ghost function NewInsertions(t: Tlb, ops: seq<Op>): nat
    requires Inv(t)
    decreases |ops|
  {
    if ops == [] then 0
    else
      var before, op := ops[..|ops| - 1], ops[|ops| - 1];
      NewInsertions(t, before) + if op.Put? && op.vpn !in ApplyAll(Fifo, t, before).index then 1 else 0
  }

  /** The FIFO pointer is `k` slots past slot `i`. */
  predicate Behind(t: Tlb, i: nat, k: nat) {
    i < |t.slots| && k < |t.slots| && t.fifo == if i + 1 + k >= |t.slots| then i + 1 + k - |t.slots| else i + 1 + k
  }

  /** After `k` insertions that needed a slot, page `v` is where it was in `t`, or gone once `k` reaches the size. */
  ghost predicate Aged(t: Tlb, s: Tlb, v: Vpn, k: nat) {
    && Inv(s) && |s.slots| == |t.slots| && v in t.index
    && (k < |s.slots| ==> v in s.index && s.index[v] == t.index[v] && Behind(s, s.index[v], k))
    && (k >= |s.slots| ==> v !in s.index)
  }

  lemma AgedStep(t: Tlb, s: Tlb, v: Vpn, k: nat, op: Op)
    requires Aged(t, s, v, k) && Spares(op, v)
    ensures Aged(t, Apply(Fifo, s, op), v, k + if op.Put? && op.vpn !in s.index then 1 else 0)
  {
    hide DropDomain;
    match op {
      case Find(vpn, asid) =>
      case Put(vpn, entry) => InsertIsUpdate(Fifo, s, vpn, entry);
      case Drop(vpn) => FlushIsRemoval(s, vpn);
    }
  }

  lemma {:induction false} FifoAge(t: Tlb, v: Vpn, ops: seq<Op>)
    requires Inv(t) && v in t.index && Behind(t, t.index[v], 0)
    requires forall op | op in ops :: Spares(op, v)
    ensures var t' := ApplyAll(Fifo, t, ops);
            Aged(t, t', v, NewInsertions(t, ops))
    decreases |ops|
  {
    if ops != [] {
      hide Aged, Inv, Apply, Spares, Behind;
      var before, op := ops[..|ops| - 1], ops[|ops| - 1];
      assert op in ops && forall e | e in before :: e in ops;
      FifoAge(t, v, before);
      AgedStep(t, ApplyAll(Fifo, t, before), v, NewInsertions(t, before), op);
    }
  }

  /** Under FIFO a new page stays for exactly the next `size - 1` insertions that need a slot. */
  lemma FifoResidence(t: Tlb, v: Vpn, entry: Mapping, ops: seq<Op>)
    requires Inv(t) && v !in t.index && forall op | op in ops :: Spares(op, v)
    ensures Inv(Insert(Fifo, t, v, entry))
    ensures var t' := Insert(Fifo, t, v, entry);
            v in ApplyAll(Fifo, t', ops).index <==> NewInsertions(t', ops) < |t.slots|
  {
    InsertIsUpdate(Fifo, t, v, entry);
    FifoAge(Insert(Fifo, t, v, entry), v, ops);
  }
}
