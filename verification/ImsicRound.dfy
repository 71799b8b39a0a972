/**
 The hand-off of one interrupt file in place: the file object, the engine's mirror of it and the saved
 pending bank.
 */
module ImsicRoundClass {
  import opened Options
  import opened Words
  import opened ImsicModel
  import opened ImsicHandoff
  import C = ImsicClass

  /** The engine's memory for one file. */
  class Mirror {
    const eip: array<Word>
    const eie: array<Word>
    var eidelivery: bool
    var eithreshold: nat
    var gate: bool

    ghost predicate Valid() {
      eip.Length == WORDS && eie.Length == WORDS && eip != eie
    }

    ghost function View(): Copy
      reads this, eip, eie
    {
      Copy(eip[..], eie[..], eidelivery, eithreshold, gate)
    }

    constructor ()
      ensures Valid() && fresh(eip) && fresh(eie)
    {
      eip := new Word[WORDS](_ => Zero());
      eie := new Word[WORDS](_ => Zero());
      eidelivery, eithreshold, gate := false, 0, false;
    }
  }

  method CopyWords(src: array<Word>, dst: array<Word>)
    requires src.Length == dst.Length && src != dst
    modifies dst
    ensures dst[..] == src[..]
  {
    for i := 0 to src.Length
      invariant dst[..i] == src[..i]
    {
      dst[i] := src[i];
    }
  }

  class Handoff {
    const file: C.ImsicFile
    const mirror: Mirror
    var before: Option<seq<Word>>

    ghost predicate Valid()
      reads this, file, file.eip, file.eie, mirror, mirror.eip, mirror.eie
    {
      && file.Valid() && mirror.Valid()
      && {file.eip, file.eie} !! {mirror.eip, mirror.eie}
      && Wf(View())
    }

    ghost function View(): Round
      reads this, file, file.eip, file.eie, mirror, mirror.eip, mirror.eie
    {
      Round(file.View(), before, mirror.View())
    }

    constructor ()
      ensures Valid() && Pending(View().device) == {} && before == None
    {
      file := new C.ImsicFile();
      mirror := new Mirror();
      before := None;
    }

    /** Looks for a bit that is not an IPI. */
    method HasExternalBit() returns (found: bool)
      requires Valid()
      ensures found == HasExternal(file.eip[..])
    {
      if !IsZero(AndNot(file.eip[0], SwMask())) {
        return true;
      }
      for i := 1 to WORDS
        invariant forall k | 1 <= k < i :: IsZero(file.eip[k])
      {
        if !IsZero(file.eip[i]) {
          return true;
        }
      }
      return false;
    }

    method MarshalFile()
      requires Valid()
      modifies this`before, mirror, mirror.eip, mirror.eie
      ensures Valid() && View() == Marshal(old(View()).device)
      ensures mirror.eip[..] == file.eip[..] && mirror.eie[..] == file.eie[..]
      ensures mirror.eidelivery == file.eidelivery && mirror.eithreshold == file.eithreshold
    {
      before := Some(file.eip[..]);
      CopyWords(file.eip, mirror.eip);
      CopyWords(file.eie, mirror.eie);
      mirror.eidelivery := file.eidelivery;
      mirror.eithreshold := file.eithreshold;
      mirror.gate := HasExternalBit();
    }

    /** The merged pending bank, word by word, in place. */
    method MergeInto()
      requires Valid()
      modifies file.eip
      ensures file.eip[..] == Merge(mirror.eip[..], before, old(file.eip[..]))
    {
      if before == None {
        CopyWords(mirror.eip, file.eip);
        return;
      }
      var p := before.value;
      for i := 0 to WORDS
        invariant forall k | 0 <= k < i :: file.eip[k] == Or(mirror.eip[k], AndNot(old(file.eip[k]), p[k]))
        invariant forall k | i <= k < WORDS :: file.eip[k] == old(file.eip[k])
      {
        file.eip[i] := Or(mirror.eip[i], AndNot(file.eip[i], p[i]));
      }
    }

    method UnmarshalFile()
      requires Valid()
      modifies file, file.eip, file.eie
      ensures Valid() && file.View() == Unmarshal(old(View()))
      ensures file.eie[..] == mirror.eie[..] && file.eidelivery == mirror.eidelivery && file.eithreshold == mirror.eithreshold
    {
      MergeInto();
      CopyWords(mirror.eie, file.eie);
      file.eidelivery := mirror.eidelivery;
      file.eithreshold := mirror.eithreshold;
      file.UpdateAnyExt();
    }

    method PublishEip()
      requires Valid()
      modifies mirror`gate, mirror.eip
      ensures Valid() && View() == Publish(old(View()))
    {
      CopyWords(file.eip, mirror.eip);
      mirror.gate := file.anyExt;
    }

    /** An MSI arrives from a device. */
    method SetIpNumber(n: int)
      requires Valid()
      modifies file`anyExt, file.eip, mirror`gate, mirror.eip
      ensures Valid() && View() == Step(old(View()), Inject(n))
    {
      file.SetPendingBit(n);
      PublishEip();
    }

    /** A device withdraws its level. */
    method ClearIpNumber(n: int)
      requires Valid()
      modifies file`anyExt, file.eip, mirror`gate, mirror.eip
      ensures Valid() && View() == Step(old(View()), Withdraw(n))
    {
      file.ClearPendingBit(n);
      PublishEip();
    }
  }
}
