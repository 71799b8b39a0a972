/**
 Address routing: the device table, its binary search, and the split between devices and main memory.
 */
module BusRouting {
  import opened Options
  import opened L2Model
  import T = L2Transparency
  import H = L2Handoff
  import C = L2CacheClass

  datatype Device = Device(id: nat, size: nat)

  datatype Window = Window(base: nat, end: nat, dev: Device)

  type Table = map<nat, Device>

  predicate Contains(base: nat, size: nat, addr: nat) {
    base <= addr < base + size
  }

  /** The code's test: one range ends before the other begins. */
  predicate Apart(b1: nat, s1: nat, b2: nat, s2: nat) {
    b1 + s1 <= b2 || b1 >= b2 + s2
  }

  ghost predicate Fits(t: Table, ramBase: nat, ramSize: nat, base: nat, size: nat) {
    && Apart(base, size, ramBase, ramSize)
    && forall b | b in t :: Apart(base, size, b, t[b].size)
  }

  ghost predicate Separated(t: Table, ramBase: nat, ramSize: nat) {
    && (forall b | b in t :: Apart(b, t[b].size, ramBase, ramSize))
    && (forall b, b' | b in t && b' in t && b != b' :: Apart(b, t[b].size, b', t[b'].size))
  }

  /** Any address belongs to at most one window, and to none if it is in RAM. */
  lemma OneOwner(t: Table, ramBase: nat, ramSize: nat, addr: nat, b: nat, b': nat)
    requires Separated(t, ramBase, ramSize) && b in t && b' in t
    requires Contains(b, t[b].size, addr) && Contains(b', t[b'].size, addr)
    ensures b == b' && !Contains(ramBase, ramSize, addr)
  {
    assert Apart(b, t[b].size, ramBase, ramSize);
    var s, s' := t[b].size, t[b'].size;
    assert b == b' || Apart(b, s, b', s');
  }

  // ---- registration ----

  /** `add_device`; `None` when an assertion of the overlap check fails. */
  ghost function Added(t: Table, ramBase: nat, ramSize: nat, base: nat, dev: Device): Option<Table> {
    if Fits(t, ramBase, ramSize, base, dev.size) then Some(t[base := dev]) else None
  }

  ghost function AddedAll(t: Table, ramBase: nat, ramSize: nat, ds: seq<(nat, Device)>): Option<Table> {
    if ds == [] then Some(t)
    else
      var before := AddedAll(t, ramBase, ramSize, ds[..|ds| - 1]);
      if before.None? then None
      else Added(before.value, ramBase, ramSize, ds[|ds| - 1].0, ds[|ds| - 1].1)
  }

  ghost predicate AllApart(ramBase: nat, ramSize: nat, ds: seq<(nat, Device)>) {
    && (forall i | 0 <= i < |ds| :: Apart(ds[i].0, ds[i].1.size, ramBase, ramSize))
    && (forall i, j | 0 <= i < j < |ds| :: Apart(ds[j].0, ds[j].1.size, ds[i].0, ds[i].1.size))
  }

  ghost predicate Lists(t: Table, ds: seq<(nat, Device)>) {
    && (forall i | 0 <= i < |ds| :: ds[i].0 in t && t[ds[i].0] == ds[i].1)
    && (forall b | b in t :: exists i :: 0 <= i < |ds| && ds[i].0 == b)
  }

  /**
   Registering non-empty windows succeeds exactly when they and RAM are pairwise apart, a condition on
   the windows alone: the order of registration does not matter, and none replaces another.
   */
  lemma {:induction false} RegistrationSucceedsIff(ramBase: nat, ramSize: nat, ds: seq<(nat, Device)>)
    requires forall i | 0 <= i < |ds| :: ds[i].1.size > 0
    ensures var r := AddedAll(map[], ramBase, ramSize, ds);
            && (r.Some? <==> AllApart(ramBase, ramSize, ds))
            && (r.Some? ==> Lists(r.value, ds) && Separated(r.value, ramBase, ramSize))
    decreases |ds|
  {
    if ds != [] {
      var n := |ds| - 1;
      var before, last := ds[..n], ds[n];
      RegistrationSucceedsIff(ramBase, ramSize, before);
      var r := AddedAll(map[], ramBase, ramSize, before);
      if r.Some? {
        FitsIff(r.value, ramBase, ramSize, ds);
        if Fits(r.value, ramBase, ramSize, last.0, last.1.size) {
          AddedKeeps(r.value, ramBase, ramSize, last.0, last.1);
          NewBase(r.value, before, last);
          ListsExtend(r.value, ds);
        }
      } else {
        assert AllApart(ramBase, ramSize, ds) ==> AllApart(ramBase, ramSize, before);
      }
    }
  }

  /** No address lies in both ranges. */
  ghost predicate Disjoint(b1: nat, s1: nat, b2: nat, s2: nat) {
    forall a: nat | Contains(b1, s1, a) :: !Contains(b2, s2, a)
  }

  /** The test of the code, for ranges that are not empty. */
  lemma ApartIff(b1: nat, s1: nat, b2: nat, s2: nat)
    requires s1 > 0 && s2 > 0
    ensures Apart(b1, s1, b2, s2) <==> Disjoint(b1, s1, b2, s2)
  {
    var a := if b1 < b2 then b2 else b1;
    if !Apart(b1, s1, b2, s2) {
      assert Contains(b1, s1, a) && Contains(b2, s2, a);
    }
  }

  /** In terms of addresses: registration succeeds exactly when none is in RAM and a window, or in two windows. */
  lemma RegistrationIsDisjointness(ramBase: nat, ramSize: nat, ds: seq<(nat, Device)>)
    requires ramSize > 0 && forall i | 0 <= i < |ds| :: ds[i].1.size > 0
    ensures AddedAll(map[], ramBase, ramSize, ds).Some?
       <==> && (forall i | 0 <= i < |ds| :: Disjoint(ds[i].0, ds[i].1.size, ramBase, ramSize))
            && (forall i, j | 0 <= i < j < |ds| :: Disjoint(ds[j].0, ds[j].1.size, ds[i].0, ds[i].1.size))
  {
    hide Apart, AddedAll, Disjoint;
    RegistrationSucceedsIff(ramBase, ramSize, ds);
    forall i | 0 <= i < |ds|
      ensures Apart(ds[i].0, ds[i].1.size, ramBase, ramSize) <==> Disjoint(ds[i].0, ds[i].1.size, ramBase, ramSize)
    {
      ApartIff(ds[i].0, ds[i].1.size, ramBase, ramSize);
    }
    forall i, j | 0 <= i < j < |ds|
      ensures Apart(ds[j].0, ds[j].1.size, ds[i].0, ds[i].1.size) <==> Disjoint(ds[j].0, ds[j].1.size, ds[i].0, ds[i].1.size)
    {
      ApartIff(ds[j].0, ds[j].1.size, ds[i].0, ds[i].1.size);
    }
  }

  lemma FitsIff(t: Table, ramBase: nat, ramSize: nat, ds: seq<(nat, Device)>)
    requires ds != [] && Lists(t, ds[..|ds| - 1]) && AllApart(ramBase, ramSize, ds[..|ds| - 1])
    ensures var last := ds[|ds| - 1];
            Fits(t, ramBase, ramSize, last.0, last.1.size) <==> AllApart(ramBase, ramSize, ds)
  {
    var n := |ds| - 1;
    var before, last := ds[..n], ds[n];
    if Fits(t, ramBase, ramSize, last.0, last.1.size) {
      forall i | 0 <= i < n
        ensures Apart(last.0, last.1.size, ds[i].0, ds[i].1.size)
      {
        assert before[i] == ds[i] && before[i].0 in t;
      }
      forall i, j | 0 <= i < j < |ds|
        ensures Apart(ds[j].0, ds[j].1.size, ds[i].0, ds[i].1.size)
      {
        assert ds[i] == before[i] && (j < n ==> ds[j] == before[j]);
      }
      forall i | 0 <= i < |ds|
        ensures Apart(ds[i].0, ds[i].1.size, ramBase, ramSize)
      {
        assert i < n ==> ds[i] == before[i];
      }
    }
    if AllApart(ramBase, ramSize, ds) {
      forall b | b in t
        ensures Apart(last.0, last.1.size, b, t[b].size)
      {
        var i :| 0 <= i < |before| && before[i].0 == b;
        assert before[i] == ds[i];
      }
    }
  }

  lemma NewBase(t: Table, before: seq<(nat, Device)>, last: (nat, Device))
    requires Lists(t, before) && forall i | 0 <= i < |before| :: before[i].1.size > 0
    requires last.1.size > 0 && (last.0 in t ==> Apart(last.0, last.1.size, last.0, t[last.0].size))
    ensures last.0 !in t
  {
  }

  lemma ListsExtend(t: Table, ds: seq<(nat, Device)>)
    requires ds != [] && Lists(t, ds[..|ds| - 1]) && ds[|ds| - 1].0 !in t
    ensures Lists(t[ds[|ds| - 1].0 := ds[|ds| - 1].1], ds)
  {
    var n := |ds| - 1;
    var before, last := ds[..n], ds[n];
    var t' := t[last.0 := last.1];
    forall i | 0 <= i < |ds|
      ensures ds[i].0 in t' && t'[ds[i].0] == ds[i].1
    {
      assert i < n ==> ds[i] == before[i];
    }
    forall b | b in t'
      ensures exists i :: 0 <= i < |ds| && ds[i].0 == b
    {
      if b == last.0 {
        assert ds[n].0 == b;
      } else {
        var i :| 0 <= i < |before| && before[i].0 == b;
        assert ds[i].0 == b;
      }
    }
  }

  lemma AddedKeeps(t: Table, ramBase: nat, ramSize: nat, base: nat, dev: Device)
    requires Separated(t, ramBase, ramSize) && Fits(t, ramBase, ramSize, base, dev.size)
    ensures Separated(t[base := dev], ramBase, ramSize)
    ensures base in t ==> dev.size == 0 || t[base].size == 0
  {
  }

  // ---- the bus ----

  datatype Access =
    | Memory(bytes: seq<Byte>)
    | Mmio(base: nat, offset: nat)

  ghost predicate Sorted(ws: seq<Window>) {
    forall i, j | 0 <= i < j < |ws| :: ws[i].base < ws[j].base
  }

  ghost predicate HasBase(ws: seq<Window>, b: nat) {
    exists i :: 0 <= i < |ws| && ws[i].base == b
  }

  /** `ws` are exactly the windows of the table with the bases in `keys`. */
  ghost predicate Mirrors(ws: seq<Window>, t: Table, keys: set<nat>)
    requires keys <= t.Keys
  {
    && (forall i | 0 <= i < |ws| ::
          ws[i].base in keys && ws[i].dev == t[ws[i].base] && ws[i].end == ws[i].base + ws[i].dev.size)
    && (forall b | b in keys :: HasBase(ws, b))
  }

  method InsertWindow(ws: seq<Window>, w: Window) returns (r: seq<Window>, ghost at: nat)
    requires Sorted(ws) && forall i | 0 <= i < |ws| :: ws[i].base != w.base
    ensures Sorted(r) && |r| == |ws| + 1
    ensures at <= |ws| && r == ws[..at] + [w] + ws[at..]
  {
    var k := 0;
    while k < |ws| && ws[k].base < w.base
      invariant k <= |ws| && forall i | 0 <= i < k :: ws[i].base < w.base
    {
      k := k + 1;
    }
    at := k;
    r := ws[..k] + [w] + ws[k..];
  }

  lemma InsertMirrors(ws: seq<Window>, at: nat, t: Table, keys: set<nat>, b: nat)
    requires keys <= t.Keys && b in t && Mirrors(ws, t, keys) && at <= |ws|
    ensures Mirrors(ws[..at] + [Window(b, b + t[b].size, t[b])] + ws[at..], t, keys + {b})
  {
    var r := ws[..at] + [Window(b, b + t[b].size, t[b])] + ws[at..];
    assert r[at].base == b;
    forall x | x in keys
      ensures HasBase(r, x)
    {
      assert HasBase(ws, x);
      var i :| 0 <= i < |ws| && ws[i].base == x;
      if i < at {
        assert r[i].base == x;
      } else {
        assert r[i + 1].base == x;
      }
    }
  }

  /** The sorted list that the lookup caches. */
  method SortedWindows(t: Table) returns (ws: seq<Window>)
    ensures Sorted(ws) && Mirrors(ws, t, t.Keys)
  {
    ws := [];
    var todo := t.Keys;
    while todo != {}
      invariant todo <= t.Keys && Sorted(ws) && Mirrors(ws, t, t.Keys - todo)
    {
      var b :| b in todo;
      ghost var before := ws;
      ghost var at;
      ws, at := InsertWindow(ws, Window(b, b + t[b].size, t[b]));
      InsertMirrors(before, at, t, t.Keys - todo, b);
      assert t.Keys - todo + {b} == t.Keys - (todo - {b});
      todo := todo - {b};
    }
    assert t.Keys - {} == t.Keys;
  }

  /** Binary search: how many windows start at or below an address. */
  method CountBelow(ws: seq<Window>, addr: nat) returns (k: nat)
    requires Sorted(ws)
    ensures k <= |ws|
    ensures forall i | 0 <= i < k :: ws[i].base <= addr
    ensures forall i | k <= i < |ws| :: ws[i].base > addr
  {
    var lo, hi := 0, |ws|;
    while lo < hi
      invariant 0 <= lo <= hi <= |ws|
      invariant forall i | 0 <= i < lo :: ws[i].base <= addr
      invariant forall i | hi <= i < |ws| :: ws[i].base > addr
    {
      var mid := (lo + hi) / 2;
      if ws[mid].base <= addr {
        lo := mid + 1;
      } else {
        hi := mid;
      }
    }
    k := lo;
  }

  /** Only the last window that starts at or below an address can contain it. */
  lemma OnlyLastOwns(t: Table, ramBase: nat, ramSize: nat, ws: seq<Window>, addr: nat, k: nat, b: nat)
    requires Separated(t, ramBase, ramSize) && Sorted(ws) && Mirrors(ws, t, t.Keys) && k <= |ws|
    requires forall i | 0 <= i < k :: ws[i].base <= addr
    requires forall i | k <= i < |ws| :: ws[i].base > addr
    requires b in t && Contains(b, t[b].size, addr)
    ensures k > 0 && ws[k - 1].base == b
  {
    assert HasBase(ws, b);
    var i :| 0 <= i < |ws| && ws[i].base == b;
    assert i < k;
    var last, size := ws[k - 1], t[b].size;
    assert b == last.base || Apart(b, size, last.base, last.dev.size);
  }

  class Bus {
    const mem: C.MainMem
    var devices: Table
    var lookup: Option<seq<Window>>

    ghost predicate Valid()
      reads this, mem, mem.l2, mem.l2.entries, mem.l2.ram.bytes
    {
      && mem.Valid()
      && Separated(devices, mem.ram.base, mem.ram.size)
      && (lookup.Some? ==> Sorted(lookup.value) && Mirrors(lookup.value, devices, devices.Keys))
    }

    constructor (mem: C.MainMem)
      requires mem.Valid()
      ensures Valid() && devices == map[] && this.mem == mem
    {
      this.mem := mem;
      devices, lookup := map[], None;
    }

    /** Register a device window; refused when it overlaps RAM or a registered window. */
    method AddDevice(base: nat, dev: Device) returns (ok: bool)
      requires Valid()
      modifies this
      ensures Valid()
      ensures ok <==> Added(old(devices), mem.ram.base, mem.ram.size, base, dev).Some?
      ensures devices == if ok then old(devices)[base := dev] else old(devices)
    {
      var end := base + dev.size;
      if !(end <= mem.ram.base || base >= mem.ram.base + mem.ram.size) {
        return false;
      }
      var todo := devices.Keys;
      while todo != {}
        invariant todo <= devices.Keys
        invariant forall b | b in devices && b !in todo :: Apart(base, dev.size, b, devices[b].size)
      {
        var b :| b in todo;
        if !(end <= b || base >= b + devices[b].size) {
          return false;
        }
        todo := todo - {b};
      }
      AddedKeeps(devices, mem.ram.base, mem.ram.size, base, dev);
      devices := devices[base := dev];
      lookup := None;
      return true;
    }

    /** The window that contains an address, by binary search over the sorted windows. */
    method FindDevice(addr: nat) returns (r: Option<(nat, nat)>)
      requires Valid()
      modifies this`lookup
      ensures Valid() && devices == old(devices)
      ensures r.Some? ==> var (base, offset) := r.value;
                          base in devices && base <= addr < base + devices[base].size && offset == addr - base
      ensures r.None? ==> forall b | b in devices :: !(b <= addr < b + devices[b].size)
    {
      hide Inv;
      if lookup == None {
        var sorted := SortedWindows(devices);
        lookup := Some(sorted);
      }
      var ws := lookup.value;
      var k := CountBelow(ws, addr);
      if k > 0 && addr < ws[k - 1].end {
        return Some((ws[k - 1].base, addr - ws[k - 1].base));
      }
      forall b | b in devices
        ensures !Contains(b, devices[b].size, addr)
      {
        if Contains(b, devices[b].size, addr) {
          OnlyLastOwns(devices, mem.ram.base, mem.ram.size, ws, addr, k, b);
        }
      }
      return None;
    }

    /** Devices first, then main memory. A device access leaves cache and RAM alone. */
    method Read(addr: nat, size: nat) returns (r: Access)
      requires Valid()
      modifies this`lookup, mem.l2, mem.l2.entries, mem.ram.bytes
      ensures Valid() && devices == old(devices) && mem.l2.Memory() == old(mem.l2.Memory())
      ensures r.Mmio? <==> exists b :: b in devices && b <= addr < b + devices[b].size
      ensures r.Mmio? ==> r.base in devices && r.base <= addr < r.base + devices[r.base].size && r.offset == addr - r.base
      ensures r.Mmio? ==> mem.l2.View() == old(mem.l2.View())
      ensures r.Memory? && mem.ram.base <= addr && addr + size <= mem.ram.base + mem.ram.size ==>
                r.bytes == mem.l2.Memory()[addr - mem.ram.base..addr - mem.ram.base + size]
    {
      var d := FindDevice(addr);
      if d.Some? {
        return Mmio(d.value.0, d.value.1);
      }
      var bytes := mem.Read(addr, size);
      return Memory(bytes);
    }

    /** Any store is accepted; a bulk store to RAM that reaches past it or over a valid line changes RAM alone. */
    method Write(addr: nat, data: seq<Byte>) returns (r: Access)
      requires Valid()
      modifies this`lookup, mem.l2, mem.l2.entries, mem.ram.bytes
      ensures devices == old(devices)
      ensures r.Mmio? <==> exists b :: b in devices && b <= addr < b + devices[b].size
      ensures r.Mmio? ==> r.base in devices && r.base <= addr < r.base + devices[r.base].size && r.offset == addr - r.base
      ensures r.Mmio? ==> Valid() && mem.l2.View() == old(mem.l2.View())
      ensures r.Memory? && |data| <= 8 ==>
                Valid() && mem.l2.Memory() == T.Stored(mem.l2.Cfg(), old(mem.l2.Memory()), addr, data)
      ensures r.Memory? && |data| > 8 && mem.ram.base <= addr < mem.ram.base + mem.ram.size ==>
                mem.l2.View() == old(mem.l2.View()).(ram := RamWrite(mem.l2.Cfg(), old(mem.ram.bytes[..]), addr, data))
      ensures r.Memory? && old(H.Allowed(mem.l2.Cfg(), mem.l2.View(), H.Store(addr, data))) ==>
                Valid() && mem.l2.Memory() == T.Stored(mem.l2.Cfg(), old(mem.l2.Memory()), addr, data)
    {
      hide Inv, H.Uncovered;
      var d := FindDevice(addr);
      if d.Some? {
        return Mmio(d.value.0, d.value.1);
      }
      mem.Write(addr, data);
      return Memory(data);
    }
  }
}
