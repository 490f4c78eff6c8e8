/** The methods of RunnerLease (src/execution/runner-lease.ts) as loops and branches over the shared
    steps of LeaseSteps.dfy, with the steps of other processes in between. */
module LeaseProcess {
  import opened Wrappers
  import opened LeaseSteps

  /** The file system and the clock, with the run so far. */
  class World {
    const stale: int
    var state: State
    ghost var states: seq<State>
    ghost var steps: seq<Step>

    ghost predicate Valid()
      reads this
    {
      states != [] && IsRun(stale, states, steps) && states[|states| - 1] == state
    }

    constructor (stale: int, state: State)
      ensures this.stale == stale && this.state == state && states == [state] && steps == [] && Valid()
    {
      this.stale, this.state, states, steps := stale, state, [state], [];
    }

    /** One step, if it is possible. */
    method Perform(step: Step) returns (done: bool)
      requires Valid()
      modifies this
      ensures Valid() && done == Next(stale, old(state), step).Some?
      ensures state == if done then Next(stale, old(state), step).value else old(state)
      ensures steps == old(steps) + if done then [step] else []
      ensures states == old(states) + if done then [state] else []
      ensures old(states) <= states
    {
      var next := Next(stale, state, step);
      done := next.Some?;
      if done {
        RunExtends(stale, states, steps, step, next.value);
        state := next.value;
        states, steps := states + [next.value], steps + [step];
      }
    }

    /** The other processes and the clock take their turn; what they cannot do is skipped. */
    method Interfere(me: Process, others: seq<Step>)
      requires Valid()
      modifies this
      ensures Valid() && PhaseOf(state, me) == PhaseOf(old(state), me)
              && InFlight(state, me) == InFlight(old(state), me)
      ensures ExtendsWithout(me, old(steps), steps)
      ensures old(states) <= states
    {
      hide IsRun;
      for i := 0 to |others|
        invariant Valid() && PhaseOf(state, me) == PhaseOf(old(state), me)
                  && InFlight(state, me) == InFlight(old(state), me)
        invariant ExtendsWithout(me, old(steps), steps)
        invariant old(states) <= states
      {
        if IsOther(me, others[i]) {
          OthersLeaveMe(stale, state, others[i], me);
          var done := Perform(others[i]);
        }
      }
    }
  }

  predicate IsOther(me: Process, step: Step) { step.Tick? || step.p != me }

  /** The later steps start with the earlier ones and go on without me. */
  ghost predicate ExtendsWithout(me: Process, earlier: seq<Step>, later: seq<Step>) {
    earlier <= later && forall i :: |earlier| <= i < |later| ==> IsOther(me, later[i])
  }

  lemma RunExtends(stale: int, states: seq<State>, steps: seq<Step>, step: Step, t: State)
    requires IsRun(stale, states, steps) && Next(stale, states[|states| - 1], step) == Some(t)
    ensures IsRun(stale, states + [t], steps + [step])
  {
    hide Next;
  }

  lemma OthersLeaveMe(stale: int, s: State, step: Step, me: Process)
    requires IsOther(me, step)
    ensures Next(stale, s, step).Some? ==> PhaseOf(Next(stale, s, step).value, me) == PhaseOf(s, me)
    ensures Next(stale, s, step).Some? ==> InFlight(Next(stale, s, step).value, me) == InFlight(s, me)
  {
  }

  /** A phase without what it remembers beyond the attempt. */
  function Kind(phase: Phase): Phase {
    match phase
    case Stamped(_) => Stamped(0)
    case Checking(k, _, _) => Checking(k, None, 0)
    case _ => phase
  }

  /** The phases that a step may lead to; none when it is not possible. */
  function Leads(phase: Phase, step: Step): set<Phase> {
    match (step, phase)
    case (StartAcquire(_), Idle) => {Making(0)}
    case (MakeDirectory(_), Making(k)) => {Made, Reading(k)}
    case (TakeStamp(_), Made) => {Stamped(0)}
    case (WriteFirst(_), Stamped(_)) => {Owning, Refused}
    case (ReadRecord(_), Reading(k)) => {Checking(k, None, 0)}
    case (CheckAge(_), Checking(k, _, _)) => {Refused, TakingOver(k)}
    case (RenameAway(_), TakingOver(k)) => {if k + 1 < ATTEMPTS then Making(k + 1) else Refused}
    case (StartRelease(_), Idle) => {Releasing}
    case (StartRelease(_), Refused) => {Releasing}
    case (StartRelease(_), Owning) => {Releasing}
    case (ReadForRelease(_), Releasing) => {Idle, Removing}
    case (Remove(_), Removing) => {Idle}
    case _ => {}
  }

  lemma PhaseDecides(stale: int, s: State, step: Step)
    requires !step.Tick? && Leads(PhaseOf(s, step.p), step) != {}
    ensures Next(stale, s, step).Some?
    ensures Kind(PhaseOf(Next(stale, s, step).value, step.p)) in Leads(PhaseOf(s, step.p), step)
    ensures step.Remove? ==> Next(stale, s, step).value.dir.Absent?
  {
  }

  /** A valid run that starts with the earlier one. */
  ghost predicate Continues(valid: bool, oldStates: seq<State>, states: seq<State>, oldSteps: seq<Step>,
                            steps: seq<Step>) {
    valid && oldStates <= states && oldSteps <= steps
  }

  /** The last step of a run. */
  ghost predicate EndsWith(stale: int, states: seq<State>, steps: seq<Step>, step: Step) {
    && steps != [] && |states| == |steps| + 1 && steps[|steps| - 1] == step
    && Next(stale, states[|steps| - 1], step) == Some(states[|steps|])
  }

  lemma ReadDecides(stale: int, s: State, me: Process, t: State)
    requires Next(stale, s, ReadForRelease(me)) == Some(t)
    ensures PhaseOf(t, me).Removing? <==> HoldsOwnRecord(s, me)
  {
  }

  /** What the other processes do before the n-th step of this one. */
  type Schedule = nat -> seq<Step>

  class RunnerLease {
    const me: Process
    const world: World
    /** Whether the heartbeat timer runs. */
    var timer: bool

    constructor (me: Process, world: World)
      ensures this.me == me && this.world == world && !timer
    {
      this.me, this.world, timer := me, world, false;
    }

    /** Waits for the others' turn, then does a step of its own. */
    method Do(step: Step, others: seq<Step>)
      requires world.Valid() && !step.Tick? && step.p == me && Leads(PhaseOf(world.state, me), step) != {}
      modifies world
      ensures Continues(world.Valid(), old(world.states), world.states, old(world.steps), world.steps)
      ensures Kind(PhaseOf(world.state, me)) in Leads(PhaseOf(old(world.state), me), step)
      ensures step.Remove? ==> world.state.dir.Absent?
      ensures EndsWith(world.stale, world.states, world.steps, step) && world.states[|world.steps|] == world.state
      ensures |world.steps| > |old(world.steps)|
    {
      hide Leads, Kind;
      world.Interfere(me, others);
      PhaseDecides(world.stale, world.state, step);
      var done := world.Perform(step);
    }

    /** One attempt: make the directory and write the first heartbeat, or else look at the record there. */
    method Attempt(attempt: nat, schedule: Schedule)
      requires world.Valid() && PhaseOf(world.state, me) == Making(attempt) && attempt < ATTEMPTS
      modifies world
      ensures Continues(world.Valid(), old(world.states), world.states, old(world.steps), world.steps)
      ensures PhaseOf(world.state, me)
              in {Owning, Refused, if attempt + 1 < ATTEMPTS then Making(attempt + 1) else Refused}
    {
      hide IsRun, Next, PhaseOf, InFlight;
      Do(MakeDirectory(me), schedule(6 * attempt + 1));
      if PhaseOf(world.state, me).Made? {
        Do(TakeStamp(me), schedule(6 * attempt + 2));
        Do(WriteFirst(me), schedule(6 * attempt + 3));
      } else {
        LookAtRecord(attempt, schedule);
      }
    }

    /** Gives up before a fresh record, and renames the directory of a stale one away. */
    method LookAtRecord(attempt: nat, schedule: Schedule)
      requires world.Valid() && PhaseOf(world.state, me) == Reading(attempt) && attempt < ATTEMPTS
      modifies world
      ensures Continues(world.Valid(), old(world.states), world.states, old(world.steps), world.steps)
      ensures PhaseOf(world.state, me) in {Refused, if attempt + 1 < ATTEMPTS then Making(attempt + 1) else Refused}
    {
      hide IsRun, Next, PhaseOf, InFlight;
      Do(ReadRecord(me), schedule(6 * attempt + 4));
      Do(CheckAge(me), schedule(6 * attempt + 5));
      if PhaseOf(world.state, me).TakingOver? {
        Do(RenameAway(me), schedule(6 * attempt + 6));
      }
    }

    /** Up to five attempts to make the directory, each of which may take a stale one away first. The whole
        is a run of the shared steps; it ends owning or refused. */
    method AcquireLease(schedule: Schedule) returns (owned: bool)
      requires world.Valid() && PhaseOf(world.state, me).Idle?
      modifies this, world
      ensures Continues(world.Valid(), old(world.states), world.states, old(world.steps), world.steps)
      ensures owned == timer == PhaseOf(world.state, me).Owning?
      ensures !owned ==> PhaseOf(world.state, me).Refused?
      ensures AgainstOwner(world.stale, world.states, world.steps, me) ==> !owned
    {
      hide IsRun, Next, PhaseOf, InFlight;
      timer := false;
      Do(StartAcquire(me), schedule(0));
      hide Leads, Kind;
      var attempt := 0;
      while PhaseOf(world.state, me).Making?
        invariant Continues(world.Valid(), old(world.states), world.states, old(world.steps), world.steps) && !timer
        invariant PhaseOf(world.state, me).Making? ==> PhaseOf(world.state, me) == Making(attempt) && attempt < ATTEMPTS
        invariant var phase := PhaseOf(world.state, me); phase.Making? || phase.Owning? || phase.Refused?
        decreases ATTEMPTS - attempt
      {
        Attempt(attempt, schedule);
        attempt := attempt + 1;
      }
      AcquireAgainstOwnerFails(world.stale, world.states, world.steps, me);
      timer := PhaseOf(world.state, me).Owning?;
      return timer;
    }

    /** Stops the timer, and removes the directory exactly if the record read, at step i of the run, is this
        process's own. */
    method ReleaseLease(schedule: Schedule) returns (removed: bool, ghost i: nat)
      requires world.Valid() && PhaseOf(world.state, me) in {Idle, Refused, Owning}
      modifies this, world
      ensures Continues(world.Valid(), old(world.states), world.states, old(world.steps), world.steps)
      ensures !timer && PhaseOf(world.state, me).Idle? && (removed ==> world.state.dir.Absent?)
      ensures |old(world.steps)| <= i < |world.steps| < |world.states| && world.steps[i] == ReadForRelease(me)
      ensures removed <==> HoldsOwnRecord(world.states[i], me)
    {
      hide IsRun, Next, PhaseOf, InFlight, EndsWith, HoldsOwnRecord;
      timer := false;
      Do(StartRelease(me), schedule(0));
      i := ReadOwner(schedule);
      removed := PhaseOf(world.state, me).Removing?;
      if removed {
        RemoveDirectory(schedule);
      }
    }

    method RemoveDirectory(schedule: Schedule)
      requires world.Valid() && PhaseOf(world.state, me).Removing?
      modifies world
      ensures Continues(world.Valid(), old(world.states), world.states, old(world.steps), world.steps)
      ensures PhaseOf(world.state, me).Idle? && world.state.dir.Absent? && |world.steps| < |world.states|
    {
      hide IsRun, Next, PhaseOf, InFlight;
      Do(Remove(me), schedule(2));
    }

    method ReadOwner(schedule: Schedule) returns (ghost i: nat)
      requires world.Valid() && PhaseOf(world.state, me).Releasing?
      modifies world
      ensures Continues(world.Valid(), old(world.states), world.states, old(world.steps), world.steps)
      ensures |old(world.steps)| <= i < |world.steps| < |world.states| && world.steps[i] == ReadForRelease(me)
      ensures PhaseOf(world.state, me) == if HoldsOwnRecord(world.states[i], me) then Removing else Idle
    {
      hide IsRun, Next, PhaseOf, InFlight;
      Do(ReadForRelease(me), schedule(1));
      i := |world.steps| - 1;
      ReadDecides(world.stale, world.states[i], me, world.state);
    }
  }

  /** The run is one in which another process beats and keeps the lease, with reads checked in time. */
  ghost predicate AgainstOwner(stale: int, states: seq<State>, steps: seq<Step>, me: Process) {
    exists o, gap, latency ::
      gap + latency < stale && me != o && TimelyRun(stale, states, steps, o, gap, latency)
  }

  /** Whatever interferes, another process owns throughout such a run, so this one does not end owning. */
  lemma AcquireAgainstOwnerFails(stale: int, states: seq<State>, steps: seq<Step>, me: Process)
    requires states != []
    ensures AgainstOwner(stale, states, steps, me) ==> !PhaseOf(states[|states| - 1], me).Owning?
  {
    if AgainstOwner(stale, states, steps, me) {
      var o, gap, latency :|
        gap + latency < stale && me != o && TimelyRun(stale, states, steps, o, gap, latency);
      OwnerKeepsLease(stale, states, steps, o, gap, latency);
      assert Safe(states[|states| - 1], o, gap);
      assert Harmless(states[|states| - 1], me, gap);
    }
  }
}
