/**
 The protection unit in place: decoding by counting bits, the loop over entries, and the arrays rebuilt
 from the registers and written back to them.
 */
module PmpClass {
  import opened Bits
  import opened Priv
  import opened PmpModel
  import opened PmpDecision
  import opened PmpCsrs

  /** Counts trailing ones one bit at a time, up to the width of the address field. */
  method CountAndDecode(v: nat) returns (r: Region)
    ensures r == DecodeNapot(v)
  {
    var val := Field(v);
    var trailing: nat, temp: nat := 0, val;
    while temp % 2 == 1 && trailing < ADDRESS_BITS
      invariant trailing <= ADDRESS_BITS
      invariant TrailingOnes(val) == trailing + TrailingOnes(temp)
      decreases temp
    {
      trailing := trailing + 1;
      temp := temp / 2;
    }
    if trailing >= ADDRESS_BITS {
      return Region(0, MASK64);
    }
    if trailing == 0 {
      assert Pow2(0) == 1;
      return Region(val * 4, 8);
    }
    r := Region((val - val % Pow2(trailing)) * 4, 8 * Pow2(trailing));
  }

  /** Clears one byte under a mask and puts another in its place. */
  method ReplaceByte(v: nat, j: nat, b: nat) returns (r: nat)
    requires b < 0x100
    ensures r == SetLane(v, j, b)
  {
    hide SetLane, Lane, Pow2;
    LaneIsShift(v, j);
    SetLaneIsMask(v, j, b);
    var unit := Pow2(8 * j);
    r := v - v / unit % 0x100 * unit + b * unit;
  }

  class Pmp {
    const numEntries: nat
    var cfgRegs: map<nat, nat>
    var addrRegs: map<nat, nat>
    const flatCfg: array<nat>
    const flatAddr: array<nat>
    var dirty: bool

    ghost predicate Valid()
      reads this
    {
      flatCfg != flatAddr && numEntries <= flatCfg.Length && numEntries <= flatAddr.Length
    }

    ghost function Registers(): Csrs
      reads this
    {
      Csrs(cfgRegs, addrRegs)
    }

    ghost function Arrays(): Flat
      reads this, flatCfg, flatAddr
    {
      Flat(flatCfg[..], flatAddr[..])
    }

    constructor (numEntries: nat, cfgRegs: map<nat, nat>, addrRegs: map<nat, nat>)
      requires numEntries <= 64
      ensures Valid() && dirty && Registers() == Csrs(cfgRegs, addrRegs) && this.numEntries == numEntries
      ensures fresh(flatCfg) && fresh(flatAddr)
    {
      this.numEntries, this.cfgRegs, this.addrRegs, dirty := numEntries, cfgRegs, addrRegs, true;
      flatCfg := new nat[64](_ => 0);
      flatAddr := new nat[64](_ => 0);
    }

    method ReadConfig(i: nat) returns (b: nat)
      requires Valid()
      ensures b == ReadCfg(Registers(), i)
    {
      var reg := i / 8 * 2;
      if reg !in cfgRegs {
        return 0;
      }
      b := cfgRegs[reg] / Pow2(8 * (i % 8)) % 0x100;
      LaneIsShift(cfgRegs[reg], i % 8);
    }

    method ReadAddress(i: nat) returns (v: nat)
      requires Valid()
      ensures v == ReadAddr(Registers(), i)
    {
      v := if i in addrRegs then addrRegs[i] % MASK64 else 0;
    }

    method RebuildCache()
      requires Valid()
      modifies flatCfg, flatAddr, this`dirty
      ensures Valid() && !dirty && Arrays() == Rebuilt(Registers(), numEntries, old(Arrays()))
      ensures forall k | 0 <= k < numEntries :: Entry(flatCfg[k], flatAddr[k]) == EntryOf(Registers(), k)
      ensures forall k | numEntries <= k < flatCfg.Length :: flatCfg[k] == 0
      ensures forall k | numEntries <= k < flatAddr.Length :: flatAddr[k] == 0
    {
      for i := 0 to numEntries
        invariant forall k | 0 <= k < i :: flatCfg[k] == ReadCfg(Registers(), k) && flatAddr[k] == ReadAddr(Registers(), k)
      {
        flatCfg[i] := ReadConfig(i);
        flatAddr[i] := ReadAddress(i);
      }
      for i := numEntries to flatCfg.Length
        invariant forall k | 0 <= k < numEntries :: flatCfg[k] == ReadCfg(Registers(), k) && flatAddr[k] == ReadAddr(Registers(), k)
        invariant forall k | numEntries <= k < i :: flatCfg[k] == 0
      {
        flatCfg[i] := 0;
      }
      for i := numEntries to flatAddr.Length
        invariant forall k | 0 <= k < flatCfg.Length :: flatCfg[k] == if k < numEntries then ReadCfg(Registers(), k) else 0
        invariant forall k | 0 <= k < numEntries :: flatAddr[k] == ReadAddr(Registers(), k)
        invariant forall k | numEntries <= k < i :: flatAddr[k] == 0
      {
        flatAddr[i] := 0;
      }
      dirty := false;
      assert flatCfg[..] == Rebuilt(Registers(), numEntries, old(Arrays())).cfg;
      assert flatAddr[..] == Rebuilt(Registers(), numEntries, old(Arrays())).addr;
    }

    /** Replaces one byte of a configuration register, if the register exists. */
    method StoreConfig(i: nat)
      requires Valid() && i < numEntries && flatCfg[i] < 0x100
      modifies this`cfgRegs
      ensures Registers() == StoreCfg(old(Registers()), i, flatCfg[i])
    {
      var reg := i / 8 * 2;
      if reg !in cfgRegs {
        return;
      }
      var val := ReplaceByte(cfgRegs[reg], i % 8, flatCfg[i]);
      cfgRegs := cfgRegs[reg := val];
    }

    method SyncBack()
      requires Valid() && FlatWf(Arrays(), numEntries)
      modifies this
      ensures Valid() && !dirty && Registers() == SyncFromFlat(old(Registers()), Arrays(), numEntries)
    {
      ghost var c, f := Registers(), Arrays();
      for i := 0 to numEntries
        invariant Registers() == SyncCfg(c, f, i)
      {
        StoreConfig(i);
      }
      ghost var d := Registers();
      for i := 0 to numEntries
        invariant Registers() == SyncAddr(d, f, i)
      {
        if i in addrRegs {
          addrRegs := addrRegs[i := flatAddr[i]];
        }
      }
      dirty := false;
    }

    method MatchEntry(i: nat, a: Access) returns (hit: bool)
      requires Valid() && i < numEntries
      ensures hit == Matches(EntriesOf(Registers(), numEntries), i, a)
    {
      var cfg := ReadConfig(i);
      var addr := ReadAddress(i);
      var r: Region;
      match AMode(cfg)
      case Off =>
        return false;
      case Tor =>
        var lo: int := 0;
        if i > 0 {
          var prev := ReadAddress(i - 1);
          lo := prev * 4;
        }
        r := Region(lo, addr * 4 - lo);
        hit := InRange(a, r);
      case Na4 =>
        r := Region(addr * 4, 4);
        hit := InRange(a, r);
      case Napot =>
        r := CountAndDecode(addr);
        hit := InRange(a, r);
    }

    /** The loop over the entries, lowest first. */
    method CheckAccess(mode: Mode, ms: Mstatus, mdid: nat, split: nat, a: Access) returns (ok: bool)
      requires Valid()
      ensures ok == Check(EntriesOf(Registers(), numEntries), mode, ms, mdid, split, a)
      ensures mode == M && !ms.mprv ==> ok
      ensures var es := EntriesOf(Registers(), numEntries);
        && NoWrap(a) && Faithful(es) && NoneContains(es, if mdid != 0 then split else 0, a)
        && !(mode == M && (!ms.mprv || (ms.mpp != 0 && ms.mpp != 1)))
        ==> !ok
    {
      Uncovered(EntriesOf(Registers(), numEntries), mode, ms, mdid, split, a);
      hide Matches, CheckPerm, NoneContains, Faithful;
      if mode == M && !ms.mprv {
        return true;
      }
      if mdid != 0 && split > 0 && split >= numEntries {
        return false;
      }
      if numEntries == 0 {
        return false;
      }
      ghost var es := EntriesOf(Registers(), numEntries);
      for i := 0 to numEntries
        invariant Check(es, mode, ms, mdid, split, a)
               == Scan(es, if i < Start(mdid, split) then Start(mdid, split) else i, a, ActsAsM(mode, ms))
      {
        if mdid != 0 && split > 0 && i < split {
          continue;
        }
        var hit := MatchEntry(i, a);
        if hit {
          var cfg := ReadConfig(i);
          return CheckPerm(cfg, a.write, a.execute);
        }
      }
      return mode == M && ms.mpp != 0 && ms.mpp != 1;
    }
  }

  lemma Uncovered(es: Entries, mode: Mode, ms: Mstatus, mdid: nat, split: nat, a: Access)
    ensures NoWrap(a) && Faithful(es) && NoneContains(es, if mdid != 0 then split else 0, a)
            && !(mode == M && (!ms.mprv || (ms.mpp != 0 && ms.mpp != 1)))
            ==> !Check(es, mode, ms, mdid, split, a)
  {
    hide Check, Faithful, RangeOf, Contains;
    if NoWrap(a) && Faithful(es) && NoneContains(es, if mdid != 0 then split else 0, a) {
      UncoveredIsRefused(es, mode, ms, mdid, split, a);
    }
  }
}
