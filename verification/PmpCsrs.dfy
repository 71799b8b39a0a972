/**
 The protection entries in the control registers: eight one-byte configurations to a register, and the
 arrays the engine shares.
 */
module PmpCsrs {
  import opened Bits
  import opened PmpModel
  import opened PmpDecision

  // ---- byte lanes ----

  /** Byte `j` of a register. */
  function Lane(v: nat, j: nat): (b: nat)
    ensures b < 0x100
  {
    if j == 0 then v % 0x100 else Lane(v / 0x100, j - 1)
  }

  function SetLane(v: nat, j: nat, b: nat): nat
    requires b < 0x100
  {
    if j == 0 then v - v % 0x100 + b else SetLane(v / 0x100, j - 1, b) * 0x100 + v % 0x100
  }

  /** The shifts and masks by which the program reads and replaces a byte. */
  lemma {:induction false} LaneIsShift(v: nat, j: nat)
    ensures Lane(v, j) == v / Pow2(8 * j) % 0x100
  {
    if j == 0 {
      assert Pow2(0) == 1;
    } else {
      LaneIsShift(v / 0x100, j - 1);
      Pow256(j);
      DivDiv(v, 0x100, Pow2(8 * (j - 1)));
    }
  }

  lemma {:induction false} SetLaneIsMask(v: nat, j: nat, b: nat)
    requires b < 0x100
    ensures SetLane(v, j, b) == v - Lane(v, j) * Pow2(8 * j) + b * Pow2(8 * j)
  {
    if j == 0 {
      assert Pow2(0) == 1;
    } else {
      var p, l := Pow2(8 * (j - 1)), Lane(v, j);
      SetLaneIsMask(v / 0x100, j - 1, b);
      Pow256(j);
      MulAssociate(l, p, 0x100);
      MulAssociate(b, p, 0x100);
    }
  }

  lemma Pow256(j: nat)
    requires j > 0
    ensures Pow2(8 * j) == 0x100 * Pow2(8 * (j - 1))
  {
    hide Pow2;
    PowerSum(8, 8 * (j - 1));
    EighthPower();
    assert 8 + 8 * (j - 1) == 8 * j;
  }

  lemma EighthPower()
    ensures Pow2(8) == 0x100
  {
    PowerSum(4, 4);
  }

  lemma {:induction false} LaneOfSetLane(v: nat, j: nat, b: nat, k: nat)
    requires b < 0x100
    ensures Lane(SetLane(v, j, b), k) == if k == j then b else Lane(v, k)
  {
    if j > 0 && k > 0 {
      LaneOfSetLane(v / 0x100, j - 1, b, k - 1);
    }
  }

  lemma {:induction false} SetOwnLane(v: nat, j: nat)
    ensures SetLane(v, j, Lane(v, j)) == v
  {
    if j > 0 {
      SetOwnLane(v / 0x100, j - 1);
    }
  }

  // ---- the registers ----

  /** pmpcfg and pmpaddr by their numbers; a register that is absent reads as zero and is not written. */
  datatype Csrs = Csrs(cfg: map<nat, nat>, addr: map<nat, nat>)

  function CfgRegister(i: nat): nat {
    i / 8 * 2
  }

  function ReadCfg(c: Csrs, i: nat): (b: nat)
    ensures b < 0x100
  {
    if CfgRegister(i) in c.cfg then Lane(c.cfg[CfgRegister(i)], i % 8) else 0
  }

  function ReadAddr(c: Csrs, i: nat): (v: nat)
    ensures v < MASK64
  {
    if i in c.addr then c.addr[i] % MASK64 else 0
  }

  /** Entry `i` as the decision sees it. */
  function EntryOf(c: Csrs, i: nat): Entry {
    Entry(ReadCfg(c, i), ReadAddr(c, i))
  }

  /** Eight configuration bytes to each even-numbered register; what is absent reads as zero. */
  lemma EntryIs(c: Csrs, i: nat)
    ensures EntryOf(c, i).cfg == if i / 8 * 2 in c.cfg then c.cfg[i / 8 * 2] / Pow2(8 * (i % 8)) % 0x100 else 0
    ensures EntryOf(c, i).addr == if i in c.addr then c.addr[i] % 0x1_0000_0000_0000_0000 else 0
  {
    hide Lane, Pow2;
    if i / 8 * 2 in c.cfg {
      LaneIsShift(c.cfg[i / 8 * 2], i % 8);
    }
  }

  function EntriesOf(c: Csrs, n: nat): Entries {
    seq(n, i requires 0 <= i < n => EntryOf(c, i))
  }

  // ---- the shared arrays ----

  datatype Flat = Flat(cfg: seq<nat>, addr: seq<nat>)

  ghost predicate FlatWf(f: Flat, n: nat) {
    |f.cfg| >= n && |f.addr| >= n && forall i | 0 <= i < n :: f.cfg[i] < 0x100
  }

  /** The arrays as rebuilt from the registers: entries first, zeros after them. */
  function Rebuilt(c: Csrs, n: nat, f: Flat): Flat {
    Flat(seq(|f.cfg|, i requires 0 <= i < |f.cfg| => if i < n then ReadCfg(c, i) else 0),
         seq(|f.addr|, i requires 0 <= i < |f.addr| => if i < n then ReadAddr(c, i) else 0))
  }

  function StoreCfg(c: Csrs, i: nat, b: nat): Csrs
    requires b < 0x100
  {
    if CfgRegister(i) in c.cfg
    then c.(cfg := c.cfg[CfgRegister(i) := SetLane(c.cfg[CfgRegister(i)], i % 8, b)])
    else c
  }

  function StoreAddr(c: Csrs, i: nat, v: nat): Csrs {
    if i in c.addr then c.(addr := c.addr[i := v]) else c
  }

  /** The first `n` configurations written back, in ascending order. */
  function SyncCfg(c: Csrs, f: Flat, n: nat): Csrs
    requires FlatWf(f, n)
  {
    if n == 0 then c else StoreCfg(SyncCfg(c, f, n - 1), n - 1, f.cfg[n - 1])
  }

  function SyncAddr(c: Csrs, f: Flat, n: nat): Csrs
    requires n <= |f.addr|
  {
    if n == 0 then c else StoreAddr(SyncAddr(c, f, n - 1), n - 1, f.addr[n - 1])
  }

  function SyncFromFlat(c: Csrs, f: Flat, n: nat): Csrs
    requires FlatWf(f, n)
  {
    SyncAddr(SyncCfg(c, f, n), f, n)
  }

  /** Which entry byte `j` of register `r` belongs to, or -1 when none does. */
  function EntryAt(r: nat, j: nat): int {
    if r % 2 == 0 && j < 8 then r / 2 * 8 + j else -1
  }

  lemma EntryAtIff(r: nat, j: nat, i: nat)
    ensures EntryAt(r, j) == i <==> CfgRegister(i) == r && j == i % 8
  {
  }

  lemma {:induction false} SyncCfgLanes(c: Csrs, f: Flat, n: nat, r: nat, j: nat)
    requires FlatWf(f, n) && r in c.cfg
    ensures SyncCfg(c, f, n).cfg.Keys == c.cfg.Keys && SyncCfg(c, f, n).addr == c.addr
    ensures Lane(SyncCfg(c, f, n).cfg[r], j) == if 0 <= EntryAt(r, j) < n then f.cfg[EntryAt(r, j)] else Lane(c.cfg[r], j)
  {
    hide Lane, SetLane, EntryAt, CfgRegister;
    if n > 0 {
      SyncCfgLanes(c, f, n - 1, r, j);
      var d, i := SyncCfg(c, f, n - 1), n - 1;
      EntryAtIff(r, j, i);
      if CfgRegister(i) == r {
        LaneOfSetLane(d.cfg[r], i % 8, f.cfg[i], j);
      }
    }
  }

  lemma {:induction false} SyncAddrValues(c: Csrs, f: Flat, n: nat)
    requires n <= |f.addr|
    ensures SyncAddr(c, f, n).cfg == c.cfg && SyncAddr(c, f, n).addr.Keys == c.addr.Keys
    ensures forall i | i in c.addr :: SyncAddr(c, f, n).addr[i] == if i < n then f.addr[i] else c.addr[i]
  {
    if n > 0 {
      SyncAddrValues(c, f, n - 1);
    }
  }

  /**
   Writing the arrays back changes exactly the byte lanes and address registers of existing entries; every
   other byte of every register, and the set of registers, stay as they were.
   */
  lemma SyncFrame(c: Csrs, f: Flat, n: nat, r: nat, j: nat)
    requires FlatWf(f, n) && r in c.cfg
    ensures SyncFromFlat(c, f, n).cfg.Keys == c.cfg.Keys && SyncFromFlat(c, f, n).addr.Keys == c.addr.Keys
    ensures Lane(SyncFromFlat(c, f, n).cfg[r], j)
         == if 0 <= EntryAt(r, j) < n then f.cfg[EntryAt(r, j)] else Lane(c.cfg[r], j)
    ensures forall i | i in c.addr :: SyncFromFlat(c, f, n).addr[i] == if i < n then f.addr[i] else c.addr[i]
  {
    SyncCfgLanes(c, f, n, r, j);
    SyncAddrValues(SyncCfg(c, f, n), f, n);
  }

  /** What is written back is what the decision reads next, for entries whose registers exist. */
  lemma SyncThenRead(c: Csrs, f: Flat, n: nat, i: nat)
    requires FlatWf(f, n) && i < n && CfgRegister(i) in c.cfg && i in c.addr
    ensures EntryOf(SyncFromFlat(c, f, n), i) == Entry(f.cfg[i], f.addr[i] % MASK64)
  {
    hide Lane, SyncFromFlat;
    SyncFrame(c, f, n, CfgRegister(i), i % 8);
    assert EntryAt(CfgRegister(i), i % 8) == i;
  }

  lemma {:induction false} SyncCfgIsIdentity(c: Csrs, f: Flat, n: nat)
    requires FlatWf(f, n) && forall i | 0 <= i < n :: f.cfg[i] == ReadCfg(c, i)
    ensures SyncCfg(c, f, n) == c
  {
    if n > 0 {
      SyncCfgIsIdentity(c, f, n - 1);
      var r := CfgRegister(n - 1);
      if r in c.cfg {
        SetOwnLane(c.cfg[r], (n - 1) % 8);
        assert c.cfg[r := c.cfg[r]] == c.cfg;
      }
    }
  }

  lemma {:induction false} SyncAddrIsIdentity(c: Csrs, f: Flat, n: nat)
    requires n <= |f.addr| && forall i | 0 <= i < n && i in c.addr :: f.addr[i] == c.addr[i]
    ensures SyncAddr(c, f, n) == c
  {
    if n > 0 {
      SyncAddrIsIdentity(c, f, n - 1);
      if n - 1 in c.addr {
        assert c.addr[n - 1 := c.addr[n - 1]] == c.addr;
      }
    }
  }

  /** Rebuilding the arrays and writing them back changes no register. */
  lemma RebuildThenSync(c: Csrs, n: nat, f: Flat)
    requires |f.cfg| >= n && |f.addr| >= n
    requires forall i | i in c.addr :: c.addr[i] < MASK64
    ensures FlatWf(Rebuilt(c, n, f), n) && SyncFromFlat(c, Rebuilt(c, n, f), n) == c
  {
    SyncCfgIsIdentity(c, Rebuilt(c, n, f), n);
    SyncAddrIsIdentity(c, Rebuilt(c, n, f), n);
  }
}
