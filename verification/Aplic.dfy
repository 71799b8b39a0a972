/**
 The wired-interrupt controller in place: one array of sources that device calls and register writes
 change, and the list of messages handed to the IMSIC. Every method is tied to `AplicModel`.
 */
module AplicClass {
  import opened AplicModel

  class APLIC {
    const sources: array<Source>
    var ie: bool
    var dm: bool
    var sent: seq<Msi>

    ghost predicate Valid()
      reads this, sources
    {
      View().Wf()
    }

    ghost function View(): Aplic
      reads this, sources
    {
      Aplic(ie, dm, sources[..], sent)
    }

    constructor (numSources: nat)
      ensures Valid() && fresh(sources) && View() == Initial(numSources)
      ensures sources.Length == numSources + 1 && ie && !dm && sent == []
      ensures forall k | 0 <= k < sources.Length :: sources[k] == Source(0, 0, false, false, false)
    {
      sources := new Source[numSources + 1](_ => Source(INACTIVE, 0, false, false, false));
      ie, dm, sent := true, false, [];
    }

    /** Sends the message of a source that is pending and enabled while the domain is on, and unpends it. */
    method DeliverFromSource(s: nat)
      requires Valid() && 0 < s < sources.Length
      modifies this`sent, sources
      ensures Valid() && View() == Deliver(old(View()), s)
    {
      if !ie || !sources[s].pending || !sources[s].enabled {
        assert sources[..] == sources[..][s := sources[s]];
        return;
      }
      sources[s] := sources[s].(pending := false);
      var target := sources[s].target;
      var hart, eiid := target / 0x4_0000 % 0x4000, target % 0x800;
      if eiid == 0 {
        return;
      }
      sent := sent + [Msi(s, hart, eiid)];
    }

    method DriveSource(s: int, level: bool)
      requires Valid()
      modifies this`sent, sources
      ensures Valid() && View() == SetIrq(old(View()), s, level)
    {
      if !(0 < s < sources.Length) {
        return;
      }
      var sm := sources[s].sm;
      if sm == INACTIVE {
        return;
      }
      var before := sources[s];
      sources[s] := sources[s].(input := level);
      var update := false;
      if sm == LEVEL_HIGH && level && !before.pending {
        update := true;
      } else if sm == LEVEL_LOW && !level && !before.pending {
        update := true;
      } else if sm == EDGE_RISE && level && !before.input && !before.pending {
        update := true;
      } else if sm == EDGE_FALL && !level && before.input && !before.pending {
        update := true;
      }
      if update {
        sources[s] := sources[s].(pending := true);
        DeliverFromSource(s);
      }
    }

    method Bind(s: int, hart: int, eiid: nat)
      requires Valid()
      modifies sources
      ensures Valid() && View() == BindSource(old(View()), s, hart, eiid)
    {
      if !(0 < s < sources.Length) || !(0 <= hart <= 0x3FFF) {
        return;
      }
      sources[s] := sources[s].(sm := LEVEL_HIGH, target := hart * 0x4_0000 + eiid % 0x800, enabled := true);
    }

    /** Returns whether the pending bit was set. */
    method PendBySoftware(s: nat, on: bool) returns (pended: bool)
      requires Valid() && 0 < s < sources.Length
      modifies sources
      ensures Valid() && pended == (on && MayPend(old(sources[s])))
      ensures View() == if pended then Update(old(View()), s, old(sources[s]).(pending := true), false)
                        else if on then old(View()) else SetPending(old(View()), s, false)
    {
      var sm := sources[s].sm;
      if sm == INACTIVE {
        return false;
      }
      if sm == LEVEL_HIGH || sm == LEVEL_LOW {
        if !on {
          sources[s] := sources[s].(pending := false);
          return false;
        }
        if !InputActive(sources[s]) {
          return false;
        }
        sources[s] := sources[s].(pending := true);
        return true;
      }
      sources[s] := sources[s].(pending := on);
      return on;
    }

    /** One bit of a bitmap or numbered write. */
    method WriteBit(s: nat, op: BitOp)
      requires Valid() && 0 < s < sources.Length
      modifies this`sent, sources
      ensures Valid() && View() == BitWrite(old(View()), s, op)
    {
      match op
      case SetIp =>
        var pended := PendBySoftware(s, true);
        if pended {
          DeliverFromSource(s);
        }
      case ClrIp =>
        var _ := PendBySoftware(s, false);
      case SetIe =>
        sources[s] := sources[s].(enabled := true);
        DeliverFromSource(s);
      case ClrIe =>
        sources[s] := sources[s].(enabled := false);
    }

    method WriteDomain(val: nat)
      requires Valid()
      modifies this, sources
      ensures Valid() && View() == WriteDomaincfg(old(View()), val)
    {
      ie, dm := val / 0x100 % 2 == 1, val / 4 % 2 == 1;
      if !ie {
        return;
      }
      ghost var a := View();
      for s := 1 to sources.Length
        invariant Valid() && View() == DeliverBelow(a, s)
      {
        DeliverFromSource(s);
      }
    }

    method WriteSourceConfig(s: nat, val: nat)
      requires Valid() && 0 < s < sources.Length
      modifies sources
      ensures Valid() && View() == WriteSourcecfg(old(View()), s, val)
    {
      var sm := val % 8;
      sources[s] := sources[s].(sm := sm);
      if sm == INACTIVE {
        sources[s] := sources[s].(pending := false, enabled := false);
      } else if InputActive(sources[s]) {
        sources[s] := sources[s].(pending := true);
      }
    }

    method WriteBitmap(op: BitOp, word: nat, val: nat)
      requires Valid()
      modifies this`sent, sources
      ensures Valid() && View() == BitmapBelow(old(View()), op, word, val, 32)
    {
      hide BitWrite, BitOf;
      for i := 0 to 32
        invariant Valid() && View() == BitmapBelow(old(View()), op, word, val, i)
      {
        var src := word * 32 + i;
        if BitOf(val, i) && 0 < src < sources.Length {
          WriteBit(src, op);
        }
      }
    }

    method StoreRegister(offset: nat, val: nat)
      requires Valid()
      modifies this, sources
      ensures Valid() && View() == MmioWrite(old(View()), offset, val)
    {
      hide BitWrite, BitmapBelow, WriteDomaincfg, Decode;
      var v := val % 0x1_0000_0000;
      var r := Decode(offset, sources.Length - 1);
      match r
      case Domaincfg => WriteDomain(v);
      case Sourcecfg(s) => WriteSourceConfig(s, v);
      case TargetOf(s) =>
        sources[s] := sources[s].(target := v);
      case Bitmap(op, word) => WriteBitmap(op, word, v);
      case Numbered(op) =>
        if 0 < v < sources.Length {
          WriteBit(v, op);
        }
      case Ignored =>
    }
  }
}
