/** The connection that carries the era policy out: its lock, its fields and its two channels. */
module Interpose {
  import opened Prelude
  import opened EraProbeSpec
  import EraProbeRuns

  class InterposedConn {
    const era: Era
    var probeID: nat
    var probeGen: nat
    var probing: bool
    var expired: bool
    var detected: Option<Era>
    var mismatch: bool
    var armed: Option<nat>
    var injected: Option<nat>
    /** Where the goroutines are, and what has happened. */
    ghost var world: State

    ghost predicate Valid()
      reads this
    {
      && world.era == era
      && world.probe == Probe(probeID, probeGen, probing, expired, detected, mismatch)
      && world.armed == armed && world.injected == injected
      && Inv(world)
    }

    constructor (pinned: Era)
      ensures Valid() && world == Initial(pinned)
    {
      era := pinned;
      probeID, probeGen, probing, expired, detected, mismatch := 0, 0, false, false, None, false;
      armed, injected := None, None;
      world := Initial(pinned);
      new;
      EraProbeRuns.InitialInv(pinned);
    }

    /** Leaves a mismatch under the modern pin and nothing otherwise. */
    method FailLocked()
      modifies this`mismatch
      ensures mismatch == (old(mismatch) || era == Modern)
    {
      if era != Modern {
        return;
      }
      mismatch := true;
    }

    /** The client writes `server/discover`; the result says whether it goes to the backend at all. */
    method WriteDiscover(id: nat) returns (probed: bool)
      requires Valid() && Enabled(world, EraProbeSpec.WriteDiscover(id))
      modifies this
      ensures Valid() && world == Step(old(world), EraProbeSpec.WriteDiscover(id))
      ensures probed == (era != Legacy)
      ensures probed ==> probing && probeID == id && probeGen == old(probeGen) + 1
    {
      hide Inv;
      EraProbeRuns.StepKeeps(world, EraProbeSpec.WriteDiscover(id));
      world := Step(world, EraProbeSpec.WriteDiscover(id));
      if era == Legacy {
        detected := Some(Legacy);
        probed := false;
      } else {
        ArmProbeLocked(id);
        probed := true;
      }
    }

    method ArmProbeLocked(id: nat)
      modifies this`probeID, this`probeGen, this`probing, this`expired
      ensures Probe(probeID, probeGen, probing, expired, detected, mismatch)
           == ArmProbe(old(Probe(probeID, probeGen, probing, expired, detected, mismatch)), id)
    {
      probeID := id;
      probeGen := probeGen + 1;
      probing := true;
      expired := false;
    }

    /** The deadline of the probe just armed is handed to the watcher. */
    method SendArm(gen: nat)
      requires Valid() && Enabled(world, EraProbeSpec.SendArm) && world.writer.gen == gen
      modifies this
      ensures Valid() && world == Step(old(world), EraProbeSpec.SendArm)
      ensures armed == Some(probeGen) && gen == probeGen
    {
      EraProbeRuns.StepKeeps(world, EraProbeSpec.SendArm);
      armed := Some(gen);
      world := Step(world, EraProbeSpec.SendArm);
    }

    /** The client writes `initialize`; the result says whether the policy lets it. */
    method RefuseFallback(id: nat) returns (refused: bool)
      requires Valid() && Enabled(world, WriteInitialize(id))
      modifies this
      ensures Valid() && world == Step(old(world), WriteInitialize(id))
      ensures refused == (era == Modern)
      ensures refused ==> mismatch && world.writer == Idle && world.wire == old(world.wire)
    {
      hide Inv;
      EraProbeRuns.StepKeeps(world, WriteInitialize(id));
      world := Step(world, WriteInitialize(id));
      if era != Modern {
        return false;
      }
      if !mismatch {
        mismatch := true;
      }
      return true;
    }

    /** The fallback the policy allowed settles the era before it is written. */
    method CommitLegacy()
      requires Valid() && Enabled(world, Commit)
      modifies this
      ensures Valid() && world == Step(old(world), Commit)
      ensures detected == Some(Legacy)
    {
      hide Inv;
      EraProbeRuns.StepKeeps(world, Commit);
      world := Step(world, Commit);
      detected := Some(Legacy);
    }

    /** A response of the backend, and whether the client is to be given it: it always is. */
    method OnProbeAnswer(id: nat, ok: bool) returns (deliver: bool)
      requires Valid() && world.reader == Holding(id, ok)
      modifies this
      ensures Valid() && world == Step(old(world), Inspect)
      ensures deliver
    {
      hide Inv;
      EraProbeRuns.StepKeeps(world, Inspect);
      EraProbeRuns.NeverBoth(world);
      deliver := AnswerLocked(id, ok);
      world := Step(world, Inspect);
    }

    method AnswerLocked(id: nat, ok: bool) returns (deliver: bool)
      modifies this`probing, this`detected, this`mismatch
      ensures (Probe(probeID, probeGen, probing, expired, detected, mismatch), deliver)
           == EraProbeSpec.OnProbeAnswer(era, old(Probe(probeID, probeGen, probing, expired, detected, mismatch)), id, ok)
    {
      if !probing || id != probeID {
        return true;
      }
      if expired {
        return false;
      }
      probing := false;
      if !ok {
        FailLocked();
        return true;
      }
      detected := Some(Modern);
      return true;
    }

    /** The deadline being watched has passed; the result is the probe to answer in the backend's place. */
    method OnProbeExpired(gen: nat) returns (answer: Option<nat>)
      requires Valid() && world.watcher == Firing(gen)
      modifies this
      ensures Valid() && world == Step(old(world), Judge)
      ensures answer.Some? <==> old(probing && probeGen == gen)
      ensures answer.Some? ==> world.watcher == Injecting(answer.value) && answer.value == probeID && !probing
    {
      hide Inv;
      EraProbeRuns.StepKeeps(world, Judge);
      answer := ExpireLocked(gen);
      world := Step(world, Judge);
    }

    method ExpireLocked(gen: nat) returns (answer: Option<nat>)
      modifies this`probing, this`expired, this`mismatch
      ensures (Probe(probeID, probeGen, probing, expired, detected, mismatch), answer.Some?)
           == EraProbeSpec.OnProbeExpired(era, old(Probe(probeID, probeGen, probing, expired, detected, mismatch)), gen)
      ensures answer.Some? ==> answer.value == probeID
    {
      if !probing || probeGen != gen {
        return None;
      }
      probing := false;
      expired := true;
      FailLocked();
      return Some(probeID);
    }

    /** The refusal of the watcher, or of the writer for a probe it did not send, takes the slot of the channel. */
    method InjectAnswer(id: nat, ghost e: Event)
      requires Valid() && Enabled(world, e)
      requires (e == Inject && world.watcher.id == id) || (e == InjectRefusal && world.writer.id == id)
      modifies this
      ensures Valid() && world == Step(old(world), e)
      ensures injected == Some(id)
    {
      hide Inv;
      EraProbeRuns.StepKeeps(world, e);
      world := Step(world, e);
      injected := Some(id);
    }

    /** The read of what the policy says in the backend's place: whatever it answers, it is an error. */
    method ReadInjected() returns (r: Response)
      requires Valid() && Enabled(world, EraProbeSpec.ReadInjected)
      modifies this
      ensures Valid() && world == Step(old(world), EraProbeSpec.ReadInjected)
      ensures Some(r.id) == old(injected) && !r.ok && injected == None
      ensures world.delivered == old(world.delivered) + [r]
    {
      hide Inv;
      EraProbeRuns.StepKeeps(world, EraProbeSpec.ReadInjected);
      r := Response(injected.value, false);
      world := Step(world, EraProbeSpec.ReadInjected);
      injected := None;
    }
  }
}
