/**
 The translation side of a hart in place: two TLB objects and the registers that steer them.
 */
module HartMmuClass {
  import opened Options
  import opened Priv
  import opened TlbModel
  import opened Sv39
  import opened Translate
  import C = TlbClass

  class HartMmu {
    const dtlb: C.TLB
    const itlb: C.TLB
    var satp: nat
    var mmuMode: nat
    var mode: Mode
    var mstatus: Mstatus
    var mdid: nat

    ghost function Registers(): Regs
      reads this
    {
      Regs(satp, mmuMode, mode, mstatus, mdid)
    }

    ghost function View(): Core
      reads this, dtlb, itlb, dtlb.entries, itlb.entries
    {
      Core(dtlb.View(), itlb.View(), Registers())
    }

    /** The two TLBs are separate objects with separate slots and one policy. */
    ghost predicate Valid()
      reads this, dtlb, itlb, dtlb.entries, itlb.entries
    {
      && dtlb != itlb && dtlb.Valid() && itlb.Valid() && dtlb.policy == itlb.policy
      && (forall i, j | 0 <= i < |dtlb.entries| && 0 <= j < |itlb.entries| :: dtlb.entries[i] != itlb.entries[j])
    }

    constructor (size: nat, policy: Policy, mstatus: Mstatus)
      requires size >= 1
      ensures Valid() && fresh(dtlb) && fresh(itlb)
      ensures forall mem: Memory :: CoreInv(View(), mem)
    {
      dtlb := new C.TLB(size, policy);
      itlb := new C.TLB(size, policy);
      satp, mmuMode, mode, this.mstatus, mdid := 0, BARE, M, mstatus, 0;
    }

    /** Load and store translation; `AccessFault` stands for the delivered fault of a denied walk. */
    method TranslateAddr(va: nat, kind: Kind, read: Reader, device: nat -> bool) returns (out: Outcome)
      requires Valid()
      modifies dtlb, dtlb.entries
      ensures Valid() && (View(), [out]) == Step(dtlb.policy, old(View()), Access(va, kind, read, device))
      ensures mmuMode == 0 || (mode == M && (!mstatus.mprv || mstatus.mpp == 3)) ==> out == Address(va % 0x1_0000_0000_0000_0000)
      ensures mmuMode != 0 && (mode == M ==> mstatus.mprv && mstatus.mpp != 3) ==>
                out == OutcomeAt(old(dtlb.View()), Registers(), va,
                                 if mode == U then 0 else if mode == S then 1 else mstatus.mpp, kind, read)
    {
      AccessLevel(dtlb.policy, dtlb.View(), Registers(), va, kind, read, device);
      hide OutcomeAt, Inv, WalkOutcome, HitOutcome, MissStep, Contents, DropDomain, Flush, FlushAll, FetchStep, C.Views;
      if mmuMode == BARE {
        return Address(va % P64);
      }
      var eff := EffectiveLevel(mode, mstatus);
      if eff.None? {
        return Address(va % P64);
      }
      var asid := SatpAsid(satp);
      var hit := dtlb.LookupVpn(va / P12, asid);
      if hit.Some? {
        return HitOutcome(va, hit.value, eff.value, mstatus, kind);
      }
      out := WalkAndInsert(va, eff.value, kind, read, device);
    }

    /** A load or store that missed: walk, and hold the page unless it is a device's. */
    method WalkAndInsert(va: nat, level: nat, kind: Kind, read: Reader, device: nat -> bool) returns (out: Outcome)
      requires Valid()
      modifies dtlb, dtlb.entries
      ensures Valid() && itlb.View() == old(itlb.View())
      ensures (dtlb.View(), out) == MissStep(dtlb.policy, old(dtlb.View()), Registers(), va, level, kind, read, device)
    {
      hide Inv, WalkOutcome, TranslateVa, Contents, Insert, C.Views;
      out := WalkOutcome(va, satp, level, mstatus, kind, read);
      if out.Address? && !device(out.pa) {
        MappedPage(va, satp, level, mstatus, kind, read);
        dtlb.InsertEntry(va / P12, Mapping(out.pa / P12, TranslateVa(va, satp, read).perm, 0, mdid, SatpAsid(satp)));
      }
    }

    lemma MappedPage(va: nat, satp: nat, level: nat, ms: Mstatus, kind: Kind, read: Reader)
      requires WalkOutcome(va, satp, level, ms, kind, read).Address?
      ensures TranslateVa(va, satp, read).Mapped?
    {
    }

    /** Fetch translation with the permission check that follows it. */
    method TranslateFetch(va: nat, read: Reader, device: nat -> bool) returns (out: Outcome)
      requires Valid()
      modifies itlb, itlb.entries
      ensures Valid() && (View(), [out]) == Step(dtlb.policy, old(View()), FetchAt(va, read, device))
      ensures mmuMode == 0 || mode == M ==> out == Address(va % 0x1_0000_0000_0000_0000)
      ensures mmuMode != 0 && mode != M ==>
                out == OutcomeAt(old(itlb.View()), Registers(), va, if mode == U then 0 else 1, Fetch, read)
    {
      FetchLevel(itlb.policy, itlb.View(), Registers(), va, read, device);
      hide OutcomeAt, Inv, HitOutcome, FetchMiss, Contents, DropDomain, Flush, FlushAll, TranslateStep, C.Views;
      if mmuMode == BARE || mode == M {
        return Address(va % P64);
      }
      var asid := SatpAsid(satp);
      var hit := itlb.LookupVpn(va / P12, asid);
      if hit.Some? {
        return HitOutcome(va, hit.value, Level(mode), mstatus, Fetch);
      }
      out := WalkFetch(va, read, device);
    }

    /** A fetch that missed: the page is held before its permission is looked at. */
    method WalkFetch(va: nat, read: Reader, device: nat -> bool) returns (out: Outcome)
      requires Valid()
      modifies itlb, itlb.entries
      ensures Valid() && dtlb.View() == old(dtlb.View())
      ensures (itlb.View(), out) == FetchMiss(itlb.policy, old(itlb.View()), Registers(), va, read, device)
    {
      hide Inv, TranslateVa, CheckPtePerm, Contents, Insert, C.Views;
      match TranslateVa(va, satp, read)
      case WalkDenied => out := AccessFault;
      case Unmapped => out := PageFault;
      case Mapped(pa, perm) =>
        if !device(pa) {
          itlb.InsertEntry(va / P12, Mapping(pa / P12, perm, 0, mdid, SatpAsid(satp)));
        }
        out := if CheckPtePerm(Level(mode), perm, mstatus, Fetch) then Address(pa) else PageFault;
    }

    /** Empties both TLBs. */
    method FlushBoth()
      requires Valid()
      modifies dtlb, itlb, dtlb.entries, itlb.entries
      ensures Valid() && dtlb.View() == FlushAll(old(dtlb.View())) && itlb.View() == FlushAll(old(itlb.View()))
    {
      hide Inv, Contents, FlushAll, C.Views;
      itlb.FlushEverything();
      dtlb.FlushEverything();
    }

    /** Every satp write flushes both TLBs, whether or not the mode changes. */
    method SetSatp(v: nat)
      requires Valid()
      modifies this`satp, this`mmuMode, dtlb, itlb, dtlb.entries, itlb.entries
      ensures Valid() && View() == Step(dtlb.policy, old(View()), WriteSatp(v)).0
      ensures mmuMode == satp / 0x1000_0000_0000_0000 == v / 0x1000_0000_0000_0000 % 16
      ensures satp % 0x1000_0000_0000_0000 == v % 0x1000_0000_0000
    {
      hide Inv, Contents, TranslateStep, FetchStep, DropDomain, Flush, FlushAll, C.Views;
      SatpWrittenOk(Registers(), v);
      var cleared := v / P60 * P60 + v % P44;
      satp := cleared % P64;
      FlushBoth();
      mmuMode := v / P60 % 16;
    }

    /** SFENCE.VMA for one page, or for everything. */
    method Sfence(vpn: Option<Vpn>)
      requires Valid()
      modifies dtlb, itlb, dtlb.entries, itlb.entries
      ensures Valid()
      ensures View() == Step(dtlb.policy, old(View()), if vpn.None? then SfenceAll else SfencePage(vpn.value)).0
    {
      hide Inv, Contents, TranslateStep, FetchStep, DropDomain, SatpWritten, C.Views;
      if vpn.None? {
        FlushBoth();
      } else {
        itlb.FlushPage(vpn.value);
        dtlb.FlushPage(vpn.value);
      }
    }

    method MfenceDid(did: nat)
      requires Valid()
      modifies dtlb, itlb, dtlb.entries, itlb.entries
      ensures Valid() && View() == Step(dtlb.policy, old(View()), FenceDid(did)).0
    {
      hide Inv, Contents, TranslateStep, FetchStep, SatpWritten, DropDomain, Flush, FlushAll;
      itlb.FlushByMdid(did);
      dtlb.FlushByMdid(did);
    }
  }
}
