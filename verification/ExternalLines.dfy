/**
 The external interrupt lines of a hart: the IMSIC drives them when one of its files reports something,
 the PLIC otherwise.
 */
module ExternalLines {
  import opened Options
  import H = HartIrqClass
  import IC = ImsicClass
  import IM = ImsicModel
  import I = Interrupts
  import IntCache = InterruptCache
  import PC = PlicClass
  import PM = PlicModel

  /** The two interrupt files of one hart. */
  datatype Files = Files(m: IM.File, s: IM.File)

  function ImsicLines(f: Files): set<nat>
    requires IM.Shape(f.m) && IM.Shape(f.s)
  {
    (if IM.PeekTopei(f.m) != 0 then {I.MEI} else {}) + (if IM.PeekTopei(f.s) != 0 then {I.SEI} else {})
  }

  function PlicLines(p: PM.Plic, hart: nat): set<nat>
    requires p.Wf()
  {
    (if PM.MLine(p, hart) then {I.MEI} else {}) + (if PM.SLine(p, hart) then {I.SEI} else {})
  }

  /** The PLIC is asked only when the IMSIC is absent or has nothing to report. */
  function External(imsic: Option<Files>, plic: Option<PM.Plic>, hart: nat): (ext: set<nat>)
    requires imsic.Some? ==> IM.Shape(imsic.value.m) && IM.Shape(imsic.value.s)
    requires plic.Some? ==> plic.value.Wf()
    ensures ext <= {I.SEI, I.MEI}
  {
    if imsic.Some? && ImsicLines(imsic.value) != {} then ImsicLines(imsic.value)
    else if plic.Some? then PlicLines(plic.value, hart)
    else {}
  }

  /** The lines are down exactly when no file has an identity on top and no claim of the hart would succeed. */
  lemma LinesDownIff(imsic: Option<Files>, plic: Option<PM.Plic>, hart: nat)
    requires imsic.Some? ==> IM.Shape(imsic.value.m) && IM.Shape(imsic.value.s)
    requires plic.Some? ==> plic.value.Wf()
    ensures External(imsic, plic, hart) == {}
       <==> && (imsic.Some? ==> IM.Top(imsic.value.m) == -1 && IM.Top(imsic.value.s) == -1)
            && (plic.Some? ==>
                  && (2 * hart < plic.value.numContexts ==> PM.Drain(plic.value, 2 * hart) == [])
                  && (2 * hart + 1 < plic.value.numContexts ==> PM.Drain(plic.value, 2 * hart + 1) == []))
  {
    hide IM.PeekTopei, IM.Top, PM.MLine, PM.SLine, PM.Drain;
    if imsic.Some? {
      IM.ZeroIsNothing(imsic.value.m);
      IM.ZeroIsNothing(imsic.value.s);
    }
    if plic.Some? {
      PM.LineIsDrain(plic.value, hart);
    }
  }

  /**
   Each line by itself: machine external (11) with the M file or the even context of the hart, supervisor
   external (9) with the S file or the odd context, the contexts counting while neither file reports anything.
   */
  lemma LinesAre(imsic: Option<Files>, plic: Option<PM.Plic>, hart: nat)
    requires imsic.Some? ==> IM.Shape(imsic.value.m) && IM.Shape(imsic.value.s)
    requires plic.Some? ==> plic.value.Wf()
    ensures var quiet := imsic.Some? ==> IM.Top(imsic.value.m) == -1 && IM.Top(imsic.value.s) == -1;
      && (11 in External(imsic, plic, hart) <==>
            || (imsic.Some? && IM.Top(imsic.value.m) != -1)
            || (quiet && plic.Some? && 2 * hart < plic.value.numContexts && PM.Drain(plic.value, 2 * hart) != []))
      && (9 in External(imsic, plic, hart) <==>
            || (imsic.Some? && IM.Top(imsic.value.s) != -1)
            || (quiet && plic.Some? && 2 * hart + 1 < plic.value.numContexts && PM.Drain(plic.value, 2 * hart + 1) != []))
  {
    hide IM.PeekTopei, IM.Top, PM.MLine, PM.SLine, PM.Drain;
    if imsic.Some? {
      IM.ZeroIsNothing(imsic.value.m);
      IM.ZeroIsNothing(imsic.value.s);
      assert 11 in ImsicLines(imsic.value) <==> IM.Top(imsic.value.m) != -1;
      assert 9 in ImsicLines(imsic.value) <==> IM.Top(imsic.value.s) != -1;
    }
    if plic.Some? {
      PM.LineIsDrain(plic.value, hart);
    }
  }

  /**
   Over every history: on a hit within 2^16 bumps, with the interrupt files and the PLIC contexts of the
   hart reporting nothing and SSIP and SSIE not both set, a full poll of the devices would take nothing.
   */
  lemma FastPathSoundWithDevices(start: I.Core, es: seq<IntCache.Event>, imsic: Option<Files>, plic: Option<PM.Plic>)
    requires IntCache.Fresh(start)
    requires imsic.Some? ==> IM.Shape(imsic.value.m) && IM.Shape(imsic.value.s)
    requires plic.Some? ==> plic.value.Wf()
    ensures var c := IntCache.Run(start, es);
      && I.FastHit(c) && c.bumps - c.fill < I.MODULUS && !(I.SSI in c.mip && I.SSI in c.mie)
      && (imsic.Some? ==> IM.Top(imsic.value.m) == -1 && IM.Top(imsic.value.s) == -1)
      && (plic.Some? ==>
            && (2 * c.id < plic.value.numContexts ==> PM.Drain(plic.value, 2 * c.id) == [])
            && (2 * c.id + 1 < plic.value.numContexts ==> PM.Drain(plic.value, 2 * c.id + 1) == []))
      ==> !I.CheckFull(c, External(imsic, plic, c.id)).1
  {
    hide External, I.CheckFull, I.FastHit, IM.Top, PM.Drain, IM.Shape;
    LinesDownIff(imsic, plic, IntCache.Run(start, es).id);
    IntCache.FastPathSound(start, es);
  }

  /** The query of a poll, over the device objects. */
  method Query(m: IC.ImsicFile?, s: IC.ImsicFile?, plic: PC.PLIC?, hart: nat) returns (ext: set<nat>)
    requires (m == null <==> s == null) && (m != null ==> m.Valid() && s.Valid()) && (plic != null ==> plic.Valid())
    ensures ext == External(if m == null then None else Some(Files(m.View(), s.View())),
                            if plic == null then None else Some(plic.View()), hart)
  {
    hide IM.PeekTopei, PM.FindHighest, IM.Inv;
    ext := {};
    if m != null {
      var mTop := m.Peek();
      if mTop != 0 {
        ext := ext + {I.MEI};
      }
      var sTop := s.Peek();
      if sTop != 0 {
        ext := ext + {I.SEI};
      }
    }
    if ext == {} && plic != null {
      var mip := plic.GetPendingMip(hart);
      ext := (if mip / PM.MEIP % 2 == 1 then {I.MEI} else {}) + (if mip / PM.SEIP % 2 == 1 then {I.SEI} else {});
      LineBits(plic.View(), hart);
    }
  }

  /** A whole poll: the lines as the devices drive them, then the hart. */
  method PollDevices(h: H.HartIrq, m: IC.ImsicFile?, s: IC.ImsicFile?, plic: PC.PLIC?) returns (taken: bool)
    requires h.Valid()
    requires (m == null <==> s == null) && (m != null ==> m.Valid() && s.Valid()) && (plic != null ==> plic.Valid())
    modifies h, h.clint.msip, set v | v in h.clint.states
    ensures h.Valid()
    ensures (h.View(), taken) == I.Poll(old(h.View()), old(External(if m == null then None else Some(Files(m.View(), s.View())),
                                                                   if plic == null then None else Some(plic.View()), h.id)))
  {
    hide External, I.Poll;
    var ext := Query(m, s, plic, h.id);
    taken := h.CheckPendingInterrupts(ext);
  }

  lemma LineBits(p: PM.Plic, hart: nat)
    requires p.Wf()
    ensures PM.PendingMip(p, hart) / PM.MEIP % 2 == 1 <==> PM.MLine(p, hart)
    ensures PM.PendingMip(p, hart) / PM.SEIP % 2 == 1 <==> PM.SLine(p, hart)
  {
    hide PM.MLine, PM.SLine;
  }
}
