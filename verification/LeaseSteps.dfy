/** The heartbeat lease (src/execution/runner-lease.ts) as interleaved steps of processes that share a
    clock and a directory. */
module LeaseSteps {
  import opened Wrappers

  type Process = nat

  datatype Record = Record(owner: Process, heartbeatAt: int)

  /** The lease directory, and the record in it once there is one. */
  datatype Directory = Absent | Present(record: Option<Record>)

  /** Where a process is in acquire or release. */
  datatype Phase =
    | Idle
    | Making(attempt: nat)
    | Made
    | Stamped(stamp: int)
    | Reading(attempt: nat)
    | Checking(attempt: nat, record: Option<Record>, readAt: int)
    | TakingOver(attempt: nat)
    | Owning
    | Refused
    | Releasing
    | Removing

  /** inFlight holds the heartbeats that a process has stamped but not yet renamed into place. */
  datatype State = State(now: int, dir: Directory, phases: map<Process, Phase>, inFlight: map<Process, set<int>>)

  datatype Step =
    | Tick(d: nat)
    | StartAcquire(p: Process)
    | MakeDirectory(p: Process)
    | TakeStamp(p: Process)
    | WriteFirst(p: Process)
    | ReadRecord(p: Process)
    | CheckAge(p: Process)
    | RenameAway(p: Process)
    | Beat(p: Process)
    | Land(p: Process, stamp: int)
    | StartRelease(p: Process)
    | ReadForRelease(p: Process)
    | Remove(p: Process)

  const ATTEMPTS := 5

  function PhaseOf(s: State, p: Process): Phase {
    if p in s.phases then s.phases[p] else Idle
  }

  function InFlight(s: State, p: Process): set<int> {
    if p in s.inFlight then s.inFlight[p] else {}
  }

  function Goes(s: State, p: Process, phase: Phase): State {
    s.(phases := s.phases[p := phase])
  }

  function RecordIn(dir: Directory): Option<Record> {
    if dir.Present? then dir.record else None
  }

  /** The age check of acquire passes over a record that is missing or too old. */
  predicate Refuses(stale: int, record: Option<Record>, now: int) {
    record.Some? && now - record.value.heartbeatAt < stale
  }

  /** What a step of acquire makes of its process's phase and of the directory. */
  function Acquire(stale: int, now: int, dir: Directory, phase: Phase, step: Step): Option<(Phase, Directory)> {
    match (step, phase)
    case (StartAcquire(_), Idle) => Some((Making(0), dir))
    case (MakeDirectory(_), Making(k)) => Some(if dir.Absent? then (Made, Present(None)) else (Reading(k), dir))
    case (TakeStamp(_), Made) => Some((Stamped(now), dir))
    case (WriteFirst(p), Stamped(stamp)) =>
      Some(if dir.Absent? then (Refused, dir) else (Owning, Present(Some(Record(p, stamp)))))
    case (ReadRecord(_), Reading(k)) => Some((Checking(k, RecordIn(dir), now), dir))
    case (CheckAge(_), Checking(k, record, _)) =>
      Some((if Refuses(stale, record, now) then Refused else TakingOver(k), dir))
    case (RenameAway(_), TakingOver(k)) => Some((if k + 1 < ATTEMPTS then Making(k + 1) else Refused, Absent))
    case _ => None
  }

  /** The same for a step of release. */
  function Release(dir: Directory, phase: Phase, step: Step): Option<(Phase, Directory)> {
    match (step, phase)
    case (StartRelease(_), Idle) => Some((Releasing, dir))
    case (StartRelease(_), Refused) => Some((Releasing, dir))
    case (StartRelease(_), Owning) => Some((Releasing, dir))
    case (ReadForRelease(p), Releasing) =>
      Some((if RecordIn(dir).Some? && RecordIn(dir).value.owner == p then Removing else Idle, dir))
    case (Remove(_), Removing) => Some((Idle, Absent))
    case _ => None
  }

  function Move(stale: int, now: int, dir: Directory, phase: Phase, step: Step): Option<(Phase, Directory)> {
    if step.StartRelease? || step.ReadForRelease? || step.Remove? then Release(dir, phase, step)
    else Acquire(stale, now, dir, phase, step)
  }

  /** Heartbeats. */
  function Hold(s: State, step: Step): Option<State>
    requires !step.Tick?
  {
    match (step, PhaseOf(s, step.p))
    case (Beat(p), Owning) => Some(s.(inFlight := s.inFlight[p := InFlight(s, p) + {s.now}]))
    case (Land(p, stamp), _) =>
      if stamp !in InFlight(s, p) then None
      else
        var landed := s.(inFlight := s.inFlight[p := InFlight(s, p) - {stamp}]);
        Some(if s.dir.Absent? then landed else landed.(dir := Present(Some(Record(p, stamp)))))
    case _ => None
  }

  /** The state after a step, when the step is possible. */
  function Next(stale: int, s: State, step: Step): Option<State> {
    if step.Tick? then Some(s.(now := s.now + step.d))
    else if step.Beat? || step.Land? then Hold(s, step)
    else
      var (phase, dir) :- Move(stale, s.now, s.dir, PhaseOf(s, step.p), step);
      Some(Goes(s, step.p, phase).(dir := dir))
  }

  /** Nothing but mkdir makes the directory: a heartbeat that finds none is lost, and a process whose first
      heartbeat finds none is refused. Whoever begins to own has just written its record. */
  lemma OnlyMkdirMakes(stale: int, s: State, step: Step, t: State)
    requires Next(stale, s, step) == Some(t)
    ensures s.dir.Absent? && t.dir.Present? ==> step.MakeDirectory?
    ensures !step.Tick? && PhaseOf(s, step.p) != Owning && PhaseOf(t, step.p) == Owning
            ==> step.WriteFirst? && RecordIn(t.dir).Some? && RecordIn(t.dir).value.owner == step.p
    ensures step.WriteFirst? && s.dir.Absent? ==> PhaseOf(t, step.p) == Refused
  {
  }

  ghost predicate IsRun(stale: int, states: seq<State>, steps: seq<Step>) {
    && |states| == |steps| + 1
    && forall i :: 0 <= i < |steps| ==> Next(stale, states[i], steps[i]) == Some(states[i + 1])
  }

  // ---------- the assumptions ----------

  predicate HoldsOwnRecord(s: State, o: Process) {
    RecordIn(s.dir).Some? && RecordIn(s.dir).value.owner == o
  }

  /** The record in place is the owner's, and the owner is still beating. */
  predicate Owns(s: State, o: Process) { PhaseOf(s, o).Owning? && HoldsOwnRecord(s, o) }

  /** The process neither holds nor is about to take, write or remove the lease; a record it has read was
      then no older than gap. */
  predicate Harmless(s: State, p: Process, gap: int) {
    && InFlight(s, p) == {}
    && match PhaseOf(s, p)
       case Idle => true
       case Making(_) => true
       case Reading(_) => true
       case Refused => true
       case Releasing => true
       case Checking(_, record, readAt) => record.Some? && readAt - record.value.heartbeatAt <= gap
       case _ => false
  }

  ghost predicate Safe(s: State, o: Process, gap: int) {
    Owns(s, o) && forall p :: p != o ==> Harmless(s, p, gap)
  }

  /** Heartbeats land often enough that the owner's record is never older than gap, and no process waits
      longer than latency between reading a record and checking its age. */
  ghost predicate Timely(s: State, o: Process, gap: int, latency: int) {
    && (Owns(s, o) ==> s.now - s.dir.record.value.heartbeatAt <= gap)
    && (forall p :: PhaseOf(s, p).Checking? ==> s.now - PhaseOf(s, p).readAt <= latency)
  }

  ghost predicate TimelyRun(stale: int, states: seq<State>, steps: seq<Step>, o: Process, gap: int, latency: int) {
    && IsRun(stale, states, steps)
    && Safe(states[0], o, gap)
    && (forall i :: 0 <= i < |states| ==> Timely(states[i], o, gap, latency))
    && (forall i :: 0 <= i < |steps| && steps[i] == StartRelease(o) ==> !PhaseOf(states[i], o).Owning?)
  }

  // ---------- safety ----------

  lemma StepKeepsSafe(stale: int, s: State, step: Step, t: State, o: Process, gap: int, latency: int)
    requires gap + latency < stale
    requires Safe(s, o, gap) && Timely(s, o, gap, latency) && Next(stale, s, step) == Some(t) && step != StartRelease(o)
    ensures Safe(t, o, gap)
    ensures !step.Tick? && step.p != o ==> t.dir == s.dir
  {
    if !step.Tick? && step.p != o {
      assert Harmless(s, step.p, gap);
    }
    forall p | p != o ensures Harmless(t, p, gap) {
      assert Harmless(s, p, gap);
    }
  }

  /** As long as the owner does not release, it owns in every state, and no step of another process touches the
      directory. */
  lemma {:induction false} OwnerKeepsLease(stale: int, states: seq<State>, steps: seq<Step>, o: Process, gap: int,
                                           latency: int)
    requires gap + latency < stale && TimelyRun(stale, states, steps, o, gap, latency)
    ensures forall i :: 0 <= i < |states| ==> Safe(states[i], o, gap)
    ensures forall i :: 0 <= i < |steps| && !steps[i].Tick? && steps[i].p != o ==> states[i + 1].dir == states[i].dir
    decreases |steps|
  {
    if |steps| > 0 {
      var n := |steps| - 1;
      assert steps == steps[..n] + [steps[n]];
      OwnerKeepsLease(stale, states[..n + 1], steps[..n], o, gap, latency);
      assert Safe(states[..n + 1][n], o, gap);
      StepKeepsSafe(stale, states[n], steps[n], states[n + 1], o, gap, latency);
    }
  }

  // ---------- the rules of a run ----------

  /** stays: no owner releases. windowUnread: nobody reads while the directory has no record yet.
      removedUnread: nobody reads while there is no directory. drained: who removes the directory has no
      heartbeat under way. prompt: a record is no older than allowed while its owner is releasing, either. */
  datatype Rules = Rules(stays: bool, windowUnread: bool, removedUnread: bool, drained: bool, prompt: bool)

  const ALL_RULES := Rules(true, true, true, true, true)

  /** The stale limit, the age a record may have, the time a check may take, and the rules. */
  datatype Terms = Terms(stale: int, gap: int, latency: int, rules: Rules)

  predicate Allows(rules: Rules, step: Step, dir: Directory, phase: Phase, underWay: set<int>) {
    && (rules.stays && step.StartRelease? ==> !phase.Owning?)
    && (rules.windowUnread && step.ReadRecord? ==> dir != Present(None))
    && (rules.removedUnread && step.ReadRecord? ==> !dir.Absent?)
    && (rules.drained && step.Remove? ==> underWay == {})
  }

  predicate Obeys(rules: Rules, s: State, step: Step) {
    step.Tick? || Allows(rules, step, s.dir, PhaseOf(s, step.p), InFlight(s, step.p))
  }

  predicate IsLeaving(s: State, o: Process) {
    (PhaseOf(s, o).Releasing? || PhaseOf(s, o).Removing?) && HoldsOwnRecord(s, o)
  }

  ghost predicate OnTime(c: Terms, s: State) {
    && (forall o :: Timely(s, o, c.gap, c.latency))
    && (c.rules.prompt ==> forall o :: IsLeaving(s, o) ==> s.now - s.dir.record.value.heartbeatAt <= c.gap)
  }

  ghost predicate RuledRun(c: Terms, states: seq<State>, steps: seq<Step>) {
    && IsRun(c.stale, states, steps)
    && (forall i :: 0 <= i < |states| ==> OnTime(c, states[i]))
    && (forall i :: 0 <= i < |steps| ==> Obeys(c.rules, states[i], steps[i]))
  }

  /** Some run within the terms leads from s to t. */
  ghost predicate Connects(c: Terms, s: State, t: State) {
    exists states, steps :: RuledRun(c, states, steps) && states[0] == s && states[|states| - 1] == t
  }

  lemma NoStepConnects(c: Terms, s: State)
    requires OnTime(c, s)
    ensures Connects(c, s, s)
  {
    assert RuledRun(c, [s], []);
    assert [s][0] == s && [s][|[s]| - 1] == s;
  }

  predicate Gives(stale: int, s: State, step: Step, t: State) {
    var u := Next(stale, s, step);
    u.Some? && u.value.now == t.now && u.value.dir == t.dir && u.value.phases == t.phases
    && u.value.inFlight == t.inFlight
  }

  lemma RunGoesOn(c: Terms, states: seq<State>, steps: seq<Step>, step: Step, t: State)
    requires RuledRun(c, states, steps) && Next(c.stale, states[|states| - 1], step) == Some(t)
    requires Obeys(c.rules, states[|states| - 1], step) && OnTime(c, t)
    ensures RuledRun(c, states + [t], steps + [step])
  {
    hide Next, OnTime, Obeys;
    var more, longer := states + [t], steps + [step];
    forall i | 0 <= i < |longer|
      ensures Next(c.stale, more[i], longer[i]) == Some(more[i + 1]) && Obeys(c.rules, more[i], longer[i])
    {
      if i < |steps| {
        assert more[i] == states[i] && longer[i] == steps[i] && more[i + 1] == states[i + 1];
      }
    }
  }

  lemma StepConnects(c: Terms, start: State, s: State, step: Step, t: State)
    requires Connects(c, start, s) && Gives(c.stale, s, step, t) && Obeys(c.rules, s, step) && OnTime(c, t)
    ensures Connects(c, start, t)
  {
    assert Next(c.stale, s, step) == Some(t);
    hide Next, OnTime, Obeys, RuledRun, Gives;
    var states, steps :| RuledRun(c, states, steps) && states[0] == start && states[|states| - 1] == s;
    assert |states| == |steps| + 1 by {
      RunLength(c, states, steps);
    }
    RunGoesOn(c, states, steps, step, t);
    var more := states + [t];
    assert more[0] == start && more[|more| - 1] == t;
  }

  lemma RunLength(c: Terms, states: seq<State>, steps: seq<Step>)
    requires RuledRun(c, states, steps)
    ensures |states| == |steps| + 1
  {
  }

  // ---------- runs of two processes ----------

  /** o and p are in these phases, o has these heartbeats under way, and nobody else does anything. */
  function Pair(o: Process, p: Process, now: int, dir: Directory, a: Phase, x: set<int>, b: Phase): State {
    State(now, dir, map[o := a, p := b], map[o := x])
  }

  function Recorded(o: Process, heartbeatAt: int): Directory { Present(Some(Record(o, heartbeatAt))) }

  predicate InTime(c: Terms, now: int, phase: Phase) {
    phase.Checking? ==> now - phase.readAt <= c.latency
  }

  /** The record is young enough, or its owner is neither beating nor held to be prompt. */
  predicate YoungFor(c: Terms, now: int, dir: Directory, o: Process, phase: Phase) {
    RecordIn(dir).Some? && RecordIn(dir).value.owner == o
    ==> now - RecordIn(dir).value.heartbeatAt <= c.gap || (!phase.Owning? && !c.rules.prompt)
  }

  lemma PairOnTime(c: Terms, o: Process, p: Process, now: int, dir: Directory, a: Phase, x: set<int>, b: Phase)
    requires o != p
    requires InTime(c, now, a) && InTime(c, now, b) && YoungFor(c, now, dir, o, a) && YoungFor(c, now, dir, p, b)
    ensures OnTime(c, Pair(o, p, now, dir, a, x, b))
  {
    var t := Pair(o, p, now, dir, a, x, b);
    forall q ensures Timely(t, q, c.gap, c.latency) {}
  }

  /** A step of o other than a heartbeat. */
  lemma FirstMoves(c: Terms, start: State, o: Process, p: Process, now: int, dir: Directory, a: Phase, x: set<int>,
                   b: Phase, step: Step, a': Phase, dir': Directory)
    requires o != p && !step.Tick? && !step.Beat? && !step.Land? && step.p == o
    requires Connects(c, start, Pair(o, p, now, dir, a, x, b)) && Allows(c.rules, step, dir, a, x)
    requires Move(c.stale, now, dir, a, step) == Some((a', dir'))
    requires InTime(c, now, a') && InTime(c, now, b) && YoungFor(c, now, dir', o, a') && YoungFor(c, now, dir', p, b)
    ensures Connects(c, start, Pair(o, p, now, dir', a', x, b))
  {
    hide Connects, Move, Allows, InTime, YoungFor, OnTime, Gives, Pair, PhaseOf, InFlight;
    PairOnTime(c, o, p, now, dir', a', x, b);
    PairIs(o, p, now, dir, a, x, b);
    FirstGives(c.stale, o, p, now, dir, a, x, b, step, a', dir');
    StepConnects(c, start, Pair(o, p, now, dir, a, x, b), step, Pair(o, p, now, dir', a', x, b));
  }

  lemma FirstGives(stale: int, o: Process, p: Process, now: int, dir: Directory, a: Phase, x: set<int>, b: Phase,
                   step: Step, a': Phase, dir': Directory)
    requires o != p && !step.Tick? && !step.Beat? && !step.Land? && step.p == o
    requires Move(stale, now, dir, a, step) == Some((a', dir'))
    ensures Gives(stale, Pair(o, p, now, dir, a, x, b), step, Pair(o, p, now, dir', a', x, b))
  {
    hide Move;
  }

  lemma SecondGives(stale: int, o: Process, p: Process, now: int, dir: Directory, a: Phase, x: set<int>, b: Phase,
                    step: Step, b': Phase, dir': Directory)
    requires o != p && !step.Tick? && !step.Beat? && !step.Land? && step.p == p
    requires Move(stale, now, dir, b, step) == Some((b', dir'))
    ensures Gives(stale, Pair(o, p, now, dir, a, x, b), step, Pair(o, p, now, dir', a, x, b'))
  {
    hide Move;
  }

  lemma PairIs(o: Process, p: Process, now: int, dir: Directory, a: Phase, x: set<int>, b: Phase)
    requires o != p
    ensures var s := Pair(o, p, now, dir, a, x, b);
            && s.now == now && s.dir == dir && PhaseOf(s, o) == a && PhaseOf(s, p) == b
            && InFlight(s, o) == x && InFlight(s, p) == {}
  {
  }

  /** A step of p other than a heartbeat. */
  lemma SecondMoves(c: Terms, start: State, o: Process, p: Process, now: int, dir: Directory, a: Phase, x: set<int>,
                    b: Phase, step: Step, b': Phase, dir': Directory)
    requires o != p && !step.Tick? && !step.Beat? && !step.Land? && step.p == p
    requires Connects(c, start, Pair(o, p, now, dir, a, x, b)) && Allows(c.rules, step, dir, b, {})
    requires Move(c.stale, now, dir, b, step) == Some((b', dir'))
    requires InTime(c, now, a) && InTime(c, now, b') && YoungFor(c, now, dir', o, a) && YoungFor(c, now, dir', p, b')
    ensures Connects(c, start, Pair(o, p, now, dir', a, x, b'))
  {
    hide Connects, Move, Allows, InTime, YoungFor, OnTime, Gives, Pair, PhaseOf, InFlight;
    PairOnTime(c, o, p, now, dir', a, x, b');
    PairIs(o, p, now, dir, a, x, b);
    SecondGives(c.stale, o, p, now, dir, a, x, b, step, b', dir');
    StepConnects(c, start, Pair(o, p, now, dir, a, x, b), step, Pair(o, p, now, dir', a, x, b'));
  }

  lemma TimeMoves(c: Terms, start: State, o: Process, p: Process, now: int, dir: Directory, a: Phase, x: set<int>,
                  b: Phase, d: nat)
    requires o != p && Connects(c, start, Pair(o, p, now, dir, a, x, b))
    requires InTime(c, now + d, a) && InTime(c, now + d, b)
    requires YoungFor(c, now + d, dir, o, a) && YoungFor(c, now + d, dir, p, b)
    ensures Connects(c, start, Pair(o, p, now + d, dir, a, x, b))
  {
    hide Connects, InTime, YoungFor;
    PairOnTime(c, o, p, now + d, dir, a, x, b);
    StepConnects(c, start, Pair(o, p, now, dir, a, x, b), Tick(d), Pair(o, p, now + d, dir, a, x, b));
  }

  lemma FirstBeats(c: Terms, start: State, o: Process, p: Process, now: int, h: int, b: Phase)
    requires o != p && now - h <= c.gap && InTime(c, now, b)
    requires Connects(c, start, Pair(o, p, now, Recorded(o, h), Owning, {}, b))
    ensures Connects(c, start, Pair(o, p, now, Recorded(o, h), Owning, {now}, b))
  {
    hide Connects, InTime;
    PairOnTime(c, o, p, now, Recorded(o, h), Owning, {now}, b);
    var s, t := Pair(o, p, now, Recorded(o, h), Owning, {}, b), Pair(o, p, now, Recorded(o, h), Owning, {now}, b);
    assert InFlight(s, o) + {now} == {now};
    StepConnects(c, start, s, Beat(o), t);
  }

  lemma FirstLands(c: Terms, start: State, o: Process, p: Process, now: int, dir: Directory, a: Phase, b: Phase)
    requires o != p && c.gap >= 0 && InTime(c, now, a) && InTime(c, now, b) && dir.Present?
    requires Connects(c, start, Pair(o, p, now, dir, a, {now}, b))
    ensures Connects(c, start, Pair(o, p, now, Recorded(o, now), a, {}, b))
  {
    hide Connects, InTime;
    PairOnTime(c, o, p, now, Recorded(o, now), a, {}, b);
    var s, t := Pair(o, p, now, dir, a, {now}, b), Pair(o, p, now, Recorded(o, now), a, {}, b);
    assert InFlight(s, o) - {now} == {};
    StepConnects(c, start, s, Land(o, now), t);
  }

  /** o makes the directory and writes its first heartbeat. */
  lemma FirstAcquires(c: Terms, start: State, o: Process, p: Process, now: int, k: nat, x: set<int>, b: Phase)
    requires o != p && c.gap >= 0 && InTime(c, now, b)
    requires Connects(c, start, Pair(o, p, now, Absent, Making(k), x, b))
    ensures Connects(c, start, Pair(o, p, now, Recorded(o, now), Owning, x, b))
  {
    hide Connects;
    FirstMoves(c, start, o, p, now, Absent, Making(k), x, b, MakeDirectory(o), Made, Present(None));
    FirstMoves(c, start, o, p, now, Present(None), Made, x, b, TakeStamp(o), Stamped(now), Present(None));
    FirstMoves(c, start, o, p, now, Present(None), Stamped(now), x, b, WriteFirst(o), Owning, Recorded(o, now));
  }

  lemma SecondAcquires(c: Terms, start: State, o: Process, p: Process, now: int, k: nat, a: Phase, x: set<int>)
    requires o != p && c.gap >= 0 && InTime(c, now, a)
    requires Connects(c, start, Pair(o, p, now, Absent, a, x, Making(k)))
    ensures Connects(c, start, Pair(o, p, now, Recorded(p, now), a, x, Owning))
  {
    hide Connects;
    SecondMoves(c, start, o, p, now, Absent, a, x, Making(k), MakeDirectory(p), Made, Present(None));
    SecondMoves(c, start, o, p, now, Present(None), a, x, Made, TakeStamp(p), Stamped(now), Present(None));
    SecondMoves(c, start, o, p, now, Present(None), a, x, Stamped(now), WriteFirst(p), Owning, Recorded(p, now));
  }

  /** p finds nothing to respect and takes the directory away. */
  lemma TakesAway(c: Terms, start: State, o: Process, p: Process, now: int, dir: Directory, a: Phase, x: set<int>,
                  record: Option<Record>, readAt: int)
    requires o != p && InTime(c, now, a) && YoungFor(c, now, dir, o, a) && YoungFor(c, now, dir, p, TakingOver(0))
    requires !Refuses(c.stale, record, now)
    requires Connects(c, start, Pair(o, p, now, dir, a, x, Checking(0, record, readAt)))
    ensures Connects(c, start, Pair(o, p, now, Absent, a, x, Making(1)))
  {
    hide Connects;
    SecondMoves(c, start, o, p, now, dir, a, x, Checking(0, record, readAt), CheckAge(p), TakingOver(0), dir);
    SecondMoves(c, start, o, p, now, dir, a, x, TakingOver(0), RenameAway(p), Making(1), Absent);
  }

  /** o reads its own record and removes the directory. */
  lemma Removes(c: Terms, start: State, o: Process, p: Process, now: int, h: int, x: set<int>, b: Phase)
    requires o != p && now - h <= c.gap && InTime(c, now, b) && (c.rules.drained ==> x == {})
    requires Connects(c, start, Pair(o, p, now, Recorded(o, h), Releasing, x, b))
    ensures Connects(c, start, Pair(o, p, now, Absent, Idle, x, b))
  {
    hide Connects;
    FirstMoves(c, start, o, p, now, Recorded(o, h), Releasing, x, b, ReadForRelease(o), Removing, Recorded(o, h));
    FirstMoves(c, start, o, p, now, Recorded(o, h), Removing, x, b, Remove(o), Idle, Absent);
  }

  /** o, back from a release, acquires the lease. */
  lemma AcquiresAnew(c: Terms, start: State, o: Process, p: Process, now: int, x: set<int>, b: Phase)
    requires o != p && c.gap >= 0 && InTime(c, now, b)
    requires Connects(c, start, Pair(o, p, now, Absent, Idle, x, b))
    ensures Connects(c, start, Pair(o, p, now, Recorded(o, now), Owning, x, b))
  {
    hide Connects;
    FirstMoves(c, start, o, p, now, Absent, Idle, x, b, StartAcquire(o), Making(0), Absent);
    FirstAcquires(c, start, o, p, now, 0, x, b);
  }

  // ---------- the bound is needed ----------

  /** o owns with a record stamped at h, and p has read a record of o stamped at r at the time at. */
  function Waiting(o: Process, p: Process, now: int, h: int, r: int, at: int): State {
    Pair(o, p, now, Recorded(o, h), Owning, {}, Checking(0, Some(Record(o, r)), at))
  }

  /** One beat and a tick of time. */
  lemma OneMoreTick(c: Terms, start: State, o: Process, p: Process, now: int, h: int, r: int, at: int)
    requires p != o && c.gap >= 1 && now + 1 - at <= c.latency && now - h <= c.gap
    requires Connects(c, start, Waiting(o, p, now, h, r, at))
    ensures Connects(c, start, Waiting(o, p, now + 1, now, r, at))
  {
    hide Connects;
    var b := Checking(0, Some(Record(o, r)), at);
    FirstBeats(c, start, o, p, now, h, b);
    FirstLands(c, start, o, p, now, Recorded(o, h), Owning, b);
    TimeMoves(c, start, o, p, now, Recorded(o, now), Owning, {}, b, 1);
  }

  lemma {:induction false} TimePasses(c: Terms, start: State, o: Process, p: Process, now: int, h: int, r: int,
                                      at: int, n: nat)
    returns (last: int)
    requires p != o && c.gap >= 1 && now + n - at <= c.latency && now - h <= c.gap
    requires Connects(c, start, Waiting(o, p, now, h, r, at))
    ensures Connects(c, start, Waiting(o, p, now + n, last, r, at)) && now + n - last <= c.gap
    decreases n
  {
    hide Connects;
    if n == 0 {
      last := h;
    } else {
      OneMoreTick(c, start, o, p, now, h, r, at);
      last := TimePasses(c, start, o, p, now + 1, now, r, at, n - 1);
    }
  }

  /** o owns since time zero, and p has not yet looked. */
  function Owned(o: Process, p: Process): State { Pair(o, p, 0, Recorded(o, 0), Owning, {}, Making(0)) }

  /** p reads a record of the oldest allowed age. */
  lemma ReadsOldRecord(c: Terms, start: State, o: Process, p: Process)
    requires p != o && c.gap >= 1 && c.latency >= 0 && Connects(c, start, Owned(o, p))
    ensures Connects(c, start, Waiting(o, p, c.gap, 0, 0, c.gap))
  {
    hide Connects;
    var dir := Recorded(o, 0);
    SecondMoves(c, start, o, p, 0, dir, Owning, {}, Making(0), MakeDirectory(p), Reading(0), dir);
    TimeMoves(c, start, o, p, 0, dir, Owning, {}, Reading(0), c.gap);
    SecondMoves(c, start, o, p, c.gap, dir, Owning, {}, Reading(0), ReadRecord(p), Checking(0, Some(Record(o, 0)),
        c.gap), dir);
  }

  /** It checks the age as late as allowed, while the owner beats on, and renames the directory away. */
  lemma LateCheckTakesOver(c: Terms, start: State, o: Process, p: Process) returns (s: State)
    requires p != o && c.gap >= 1 && c.latency >= 0 && c.gap + c.latency >= c.stale
    requires Connects(c, start, Owned(o, p))
    ensures s == Pair(o, p, c.gap + c.latency, Absent, Owning, {}, Making(1)) && Connects(c, start, s)
  {
    hide Connects;
    ReadsOldRecord(c, start, o, p);
    var last := TimePasses(c, start, o, p, c.gap, 0, 0, c.gap, c.latency);
    var now := c.gap + c.latency;
    TakesAway(c, start, o, p, now, Recorded(o, last), Owning, {}, Some(Record(o, 0)), c.gap);
    s := Pair(o, p, now, Absent, Owning, {}, Making(1));
  }

  /** Some timely run of an owner that does not release ends in s. */
  ghost predicate Reachable(stale: int, o: Process, gap: int, latency: int, s: State) {
    exists states, steps :: TimelyRun(stale, states, steps, o, gap, latency) && states[|states| - 1] == s
  }

  lemma ConnectedIsReachable(c: Terms, s: State, t: State, o: Process)
    requires c.rules.stays && Safe(s, o, c.gap) && Connects(c, s, t)
    ensures Reachable(c.stale, o, c.gap, c.latency, t)
  {
    hide Next, Timely, Safe;
    var states, steps :| RuledRun(c, states, steps) && states[0] == s && states[|states| - 1] == t;
    assert TimelyRun(c.stale, states, steps, o, c.gap, c.latency);
  }

  /** The owner is safe in every timely run. */
  ghost predicate AlwaysSafe(stale: int, gap: int, latency: int) {
    forall o, s :: Reachable(stale, o, gap, latency, s) ==> Safe(s, o, gap)
  }

  /** A beating owner keeps the lease exactly when the age a record may have and the time a check may take
      add up to less than the stale limit; being within the limit itself is not enough. */
  lemma AlwaysSafeIff(stale: int, gap: int, latency: int)
    requires gap >= 1 && latency >= 0
    ensures AlwaysSafe(stale, gap, latency) <==> gap + latency < stale
  {
    if gap + latency < stale {
      forall o, s | Reachable(stale, o, gap, latency, s) ensures Safe(s, o, gap) {
        var states, steps :| TimelyRun(stale, states, steps, o, gap, latency) && states[|states| - 1] == s;
        OwnerKeepsLease(stale, states, steps, o, gap, latency);
      }
    } else {
      var s := LateRun(stale, gap, latency);
      assert !Safe(s, 0, gap);
    }
  }

  /** A timely run in which process 0 beats all along and its directory is taken away. */
  lemma LateRun(stale: int, gap: int, latency: int) returns (s: State)
    requires gap >= 1 && latency >= 0 && gap + latency >= stale
    ensures Reachable(stale, 0, gap, latency, s) && s.dir.Absent? && PhaseOf(s, 0).Owning?
  {
    hide Connects, Reachable;
    var c := Terms(stale, gap, latency, ALL_RULES);
    NoStepConnects(c, Owned(0, 1));
    s := LateCheckTakesOver(c, Owned(0, 1), 0, 1);
    ConnectedIsReachable(c, Owned(0, 1), s, 0);
  }

  // ---------- one owner at most ----------

  /** There is no directory, and nobody has looked at one or has a heartbeat under way. */
  ghost predicate Fresh(s: State) {
    s.dir.Absent? && forall p :: InFlight(s, p) == {} && var phase := PhaseOf(s, p);
      phase.Idle? || phase.Making? || phase.Refused? || phase.Releasing?
  }

  ghost predicate OthersHarmless(s: State, o: Process, gap: int) {
    forall p :: p != o ==> Harmless(s, p, gap)
  }

  ghost predicate Free(s: State, gap: int) {
    s.dir.Absent? && forall p :: Harmless(s, p, gap)
  }

  /** o has made the directory and has not yet written its first heartbeat. */
  ghost predicate InWindow(s: State, o: Process, gap: int) {
    && s.dir == Present(None) && InFlight(s, o) == {} && (PhaseOf(s, o).Made? || PhaseOf(s, o).Stamped?)
    && OthersHarmless(s, o, gap)
  }

  /** The record is o's, and o owns or is leaving. */
  ghost predicate Held(s: State, o: Process, gap: int) {
    (Owns(s, o) || IsLeaving(s, o)) && OthersHarmless(s, o, gap)
  }

  ghost predicate OneAtMost(rules: Rules, s: State, gap: int) {
    || (Free(s, gap) && (rules.stays ==> forall p :: !PhaseOf(s, p).Reading?))
    || exists o :: InWindow(s, o, gap) || (Held(s, o, gap) && (rules.stays ==> Owns(s, o)))
  }

  /** Enough to keep every successor alone. */
  predicate Suffices(rules: Rules) {
    rules.windowUnread && (rules.stays || (rules.removedUnread && rules.drained && rules.prompt))
  }

  /** Other processes stay harmless when a read finds a record of the allowed age or none is read. */
  lemma OthersStayHarmless(c: Terms, s: State, step: Step, t: State, o: Process)
    requires c.gap + c.latency < c.stale && OnTime(c, s) && Next(c.stale, s, step) == Some(t)
    requires OthersHarmless(s, o, c.gap) && (!step.Tick? && step.p != o ==> !(step.MakeDirectory? && s.dir.Absent?))
    requires step.ReadRecord? ==>
               RecordIn(s.dir).Some? && s.now - RecordIn(s.dir).value.heartbeatAt <= c.gap
    requires !step.Tick? && step.p != o ==> !HoldsOwnRecord(s, step.p)
    ensures OthersHarmless(t, o, c.gap)
    ensures step.Tick? || step.p != o
            ==> t.dir == s.dir && PhaseOf(t, o) == PhaseOf(s, o) && InFlight(t, o) == InFlight(s, o)
  {
    if !step.Tick? && step.p != o {
      assert Harmless(s, step.p, c.gap);
      assert Timely(s, o, c.gap, c.latency);
    }
    forall p | p != o ensures Harmless(t, p, c.gap) {
      assert Harmless(s, p, c.gap);
    }
  }

  lemma FreeStep(c: Terms, s: State, step: Step, t: State)
    requires c.gap + c.latency < c.stale && Suffices(c.rules) && OnTime(c, s) && Obeys(c.rules, s, step)
    requires Next(c.stale, s, step) == Some(t)
    requires Free(s, c.gap) && (c.rules.stays ==> forall p :: !PhaseOf(s, p).Reading?)
    ensures (Free(t, c.gap) && (c.rules.stays ==> forall p :: !PhaseOf(t, p).Reading?))
            || (step.MakeDirectory? && InWindow(t, step.p, c.gap))
  {
    if !step.Tick? {
      assert Harmless(s, step.p, c.gap);
      assert Timely(s, step.p, c.gap, c.latency);
    }
    forall p | step.Tick? || p != step.p ensures Harmless(t, p, c.gap) && PhaseOf(t, p) == PhaseOf(s, p) {
      assert Harmless(s, p, c.gap);
    }
  }

  lemma WindowStep(c: Terms, s: State, step: Step, t: State, o: Process)
    requires c.gap + c.latency < c.stale && Suffices(c.rules) && OnTime(c, s) && Obeys(c.rules, s, step)
    requires Next(c.stale, s, step) == Some(t) && InWindow(s, o, c.gap)
    ensures InWindow(t, o, c.gap) || (Held(t, o, c.gap) && Owns(t, o))
  {
    hide OnTime, OthersHarmless;
    OthersStayHarmless(c, s, step, t, o);
  }

  lemma RecordIsYoung(c: Terms, s: State, o: Process)
    requires OnTime(c, s) && (Owns(s, o) || (IsLeaving(s, o) && c.rules.prompt))
    ensures s.now - RecordIn(s.dir).value.heartbeatAt <= c.gap
  {
    assert Timely(s, o, c.gap, c.latency);
  }

  lemma HeldStep(c: Terms, s: State, step: Step, t: State, o: Process)
    requires c.gap + c.latency < c.stale && Suffices(c.rules) && OnTime(c, s) && Obeys(c.rules, s, step)
    requires Next(c.stale, s, step) == Some(t) && Held(s, o, c.gap) && (c.rules.stays ==> Owns(s, o))
    ensures (Held(t, o, c.gap) && (c.rules.stays ==> Owns(t, o))) || (Free(t, c.gap) && !c.rules.stays)
  {
    RecordIsYoung(c, s, o);
    OthersStayHarmless(c, s, step, t, o);
    hide OnTime;
    if step == Remove(o) {
      forall p ensures Harmless(t, p, c.gap) {}
    }
  }

  lemma OneAtMostStep(c: Terms, s: State, step: Step, t: State)
    requires c.gap + c.latency < c.stale && Suffices(c.rules) && OnTime(c, s) && Obeys(c.rules, s, step)
    requires Next(c.stale, s, step) == Some(t) && OneAtMost(c.rules, s, c.gap)
    ensures OneAtMost(c.rules, t, c.gap)
  {
    hide Next, Free, InWindow, Held, OnTime, Obeys, Suffices, Owns;
    if Free(s, c.gap) && (c.rules.stays ==> forall p :: !PhaseOf(s, p).Reading?) {
      FreeStep(c, s, step, t);
    } else {
      var o :| InWindow(s, o, c.gap) || (Held(s, o, c.gap) && (c.rules.stays ==> Owns(s, o)));
      if InWindow(s, o, c.gap) {
        WindowStep(c, s, step, t, o);
      } else {
        HeldStep(c, s, step, t, o);
      }
    }
  }

  ghost predicate OneOwner(s: State) {
    forall p, q :: PhaseOf(s, p).Owning? && PhaseOf(s, q).Owning? ==> p == q
  }

  lemma OneOwns(rules: Rules, s: State, gap: int)
    requires OneAtMost(rules, s, gap)
    ensures OneOwner(s)
  {
    if Free(s, gap) {
      forall p ensures !PhaseOf(s, p).Owning? {
        assert Harmless(s, p, gap);
      }
    } else {
      var o :| InWindow(s, o, gap) || Held(s, o, gap);
      forall p | p != o ensures !PhaseOf(s, p).Owning? {
        assert Harmless(s, p, gap);
      }
    }
  }

  lemma FreshIsFree(rules: Rules, s: State, gap: int)
    requires Fresh(s)
    ensures OneAtMost(rules, s, gap)
  {
    forall p ensures Harmless(s, p, gap) && !PhaseOf(s, p).Reading? {
      assert InFlight(s, p) == {};
    }
  }

  /** Within the bound and under sufficient rules, no run from an absent directory ever has two owners. */
  lemma {:induction false} AtMostOneOwner(c: Terms, states: seq<State>, steps: seq<Step>)
    requires c.gap + c.latency < c.stale && Suffices(c.rules) && RuledRun(c, states, steps) && Fresh(states[0])
    ensures OneAtMost(c.rules, states[|steps|], c.gap)
    ensures forall i :: 0 <= i < |states| ==> OneOwner(states[i])
    decreases |steps|
  {
    hide Next, Fresh, OnTime, Obeys, OneAtMost, OneOwner, Suffices;
    var n := |steps|;
    if n > 0 {
      AtMostOneOwner(c, states[..n], steps[..n - 1]);
      OneAtMostStep(c, states[n - 1], steps[n - 1], states[n]);
    } else {
      FreshIsFree(c.rules, states[0], c.gap);
    }
    OneOwns(c.rules, states[n], c.gap);
    forall i | 0 <= i < |states| ensures OneOwner(states[i]) {
      if i < n {
        assert states[..n][i] == states[i];
      }
    }
  }

  // ---------- each rule is needed ----------

  /** Some run within the terms leads from an absent directory to s. */
  ghost predicate FreshlyReachable(c: Terms, s: State) {
    exists s0 :: Fresh(s0) && Connects(c, s0, s)
  }

  /** Two processes are about to make the directory. */
  function Both(o: Process, p: Process): State { Pair(o, p, 0, Absent, Making(0), {}, Making(0)) }

  lemma BothStart(c: Terms, o: Process, p: Process)
    requires p != o
    ensures Fresh(Both(o, p)) && Connects(c, Both(o, p), Both(o, p))
  {
    NoStepConnects(c, Both(o, p));
  }

  /** The rules without one of them. */
  const BUT_WINDOW := ALL_RULES.(windowUnread := false)
  const BUT_REMOVED := ALL_RULES.(removedUnread := false, stays := false)
  const BUT_DRAINED := ALL_RULES.(drained := false, stays := false)
  const BUT_PROMPT := ALL_RULES.(prompt := false, stays := false)

  ghost predicate TwoOwners(c: Terms, o: Process, p: Process, s: State) {
    FreshlyReachable(c, s) && PhaseOf(s, o).Owning? && PhaseOf(s, p).Owning?
  }

  lemma PairOwns(c: Terms, o: Process, p: Process, s: State, now: int, dir: Directory)
    requires p != o && s == Pair(o, p, now, dir, Owning, {}, Owning) && Connects(c, Both(o, p), s)
    ensures TwoOwners(c, o, p, s)
  {
    hide Connects;
    BothStart(c, o, p);
  }

  /** The check comes too late: p takes the directory of a beating owner away. */
  lemma LateCheckMakesTwo(c: Terms, o: Process, p: Process) returns (s: State)
    requires p != o && c.gap >= 1 && c.latency >= 0 && c.gap + c.latency >= c.stale && c.rules == ALL_RULES
    ensures TwoOwners(c, o, p, s)
  {
    hide Connects, TwoOwners;
    var start := Both(o, p);
    BothStart(c, o, p);
    FirstAcquires(c, start, o, p, 0, 0, {}, Making(0));
    var taken := LateCheckTakesOver(c, start, o, p);
    SecondAcquires(c, start, o, p, c.gap + c.latency, 1, Owning, {});
    s := Pair(o, p, c.gap + c.latency, Recorded(p, c.gap + c.latency), Owning, {}, Owning);
    PairOwns(c, o, p, s, c.gap + c.latency, Recorded(p, c.gap + c.latency));
  }

  /** p reads in the window between o's mkdir and o's first heartbeat, takes the directory away and acquires;
      o's first heartbeat then lands in p's directory. */
  lemma ReadInWindowMakesTwo(c: Terms, o: Process, p: Process) returns (s: State)
    requires p != o && c.gap >= 0 && c.latency >= 0 && c.rules == BUT_WINDOW
    ensures TwoOwners(c, o, p, s)
  {
    hide Connects, TwoOwners;
    var start, open := Both(o, p), Present(None);
    BothStart(c, o, p);
    FirstMoves(c, start, o, p, 0, Absent, Making(0), {}, Making(0), MakeDirectory(o), Made, open);
    SecondMoves(c, start, o, p, 0, open, Made, {}, Making(0), MakeDirectory(p), Reading(0), open);
    SecondMoves(c, start, o, p, 0, open, Made, {}, Reading(0), ReadRecord(p), Checking(0, None, 0), open);
    TakesAway(c, start, o, p, 0, open, Made, {}, None, 0);
    SecondAcquires(c, start, o, p, 0, 1, Made, {});
    var dir := Recorded(p, 0);
    FirstMoves(c, start, o, p, 0, dir, Made, {}, Owning, TakeStamp(o), Stamped(0), dir);
    FirstMoves(c, start, o, p, 0, dir, Stamped(0), {}, Owning, WriteFirst(o), Owning, Recorded(o, 0));
    s := Pair(o, p, 0, Recorded(o, 0), Owning, {}, Owning);
    PairOwns(c, o, p, s, 0, Recorded(o, 0));
  }

  /** p finds the directory taken but reads after o has removed it, and takes away what o makes anew. */
  lemma ReadAfterRemovalMakesTwo(c: Terms, o: Process, p: Process) returns (s: State)
    requires p != o && c.gap >= 0 && c.latency >= 0 && c.rules == BUT_REMOVED
    ensures TwoOwners(c, o, p, s)
  {
    hide Connects, TwoOwners;
    var start, dir := Both(o, p), Recorded(o, 0);
    BothStart(c, o, p);
    FirstAcquires(c, start, o, p, 0, 0, {}, Making(0));
    SecondMoves(c, start, o, p, 0, dir, Owning, {}, Making(0), MakeDirectory(p), Reading(0), dir);
    FirstMoves(c, start, o, p, 0, dir, Owning, {}, Reading(0), StartRelease(o), Releasing, dir);
    Removes(c, start, o, p, 0, 0, {}, Reading(0));
    SecondMoves(c, start, o, p, 0, Absent, Idle, {}, Reading(0), ReadRecord(p), Checking(0, None, 0), Absent);
    AcquiresAnew(c, start, o, p, 0, {}, Checking(0, None, 0));
    TakesAway(c, start, o, p, 0, dir, Owning, {}, None, 0);
    SecondAcquires(c, start, o, p, 0, 1, Owning, {});
    s := Pair(o, p, 0, Recorded(p, 0), Owning, {}, Owning);
    PairOwns(c, o, p, s, 0, Recorded(p, 0));
  }

  /** o removes the directory with a heartbeat under way, which lands in that of its successor p; o then takes
      p's directory for its own, removes it and acquires the lease again. */
  lemma HeartbeatUnderWayMakesTwo(c: Terms, o: Process, p: Process) returns (s: State)
    requires p != o && c.gap >= 0 && c.latency >= 0 && c.rules == BUT_DRAINED
    ensures TwoOwners(c, o, p, s)
  {
    hide Connects, TwoOwners;
    var start, dir := Both(o, p), Recorded(o, 0);
    BothStart(c, o, p);
    FirstAcquires(c, start, o, p, 0, 0, {}, Making(0));
    FirstBeats(c, start, o, p, 0, 0, Making(0));
    FirstMoves(c, start, o, p, 0, dir, Owning, {0}, Making(0), StartRelease(o), Releasing, dir);
    Removes(c, start, o, p, 0, 0, {0}, Making(0));
    SecondAcquires(c, start, o, p, 0, 0, Idle, {0});
    LandsAndRemoves(c, start, o, p);
    AcquiresAnew(c, start, o, p, 0, {}, Owning);
    s := Pair(o, p, 0, dir, Owning, {}, Owning);
    PairOwns(c, o, p, s, 0, dir);
  }

  lemma LandsAndRemoves(c: Terms, start: State, o: Process, p: Process)
    requires p != o && c.gap >= 0 && Connects(c, start, Pair(o, p, 0, Recorded(p, 0), Idle, {0}, Owning))
    ensures Connects(c, start, Pair(o, p, 0, Absent, Idle, {}, Owning))
  {
    hide Connects;
    var dir := Recorded(o, 0);
    FirstLands(c, start, o, p, 0, Recorded(p, 0), Idle, Owning);
    FirstMoves(c, start, o, p, 0, dir, Idle, {}, Owning, StartRelease(o), Releasing, dir);
    Removes(c, start, o, p, 0, 0, {}, Owning);
  }

  /** o takes so long between reading its own record and removing the directory that p takes it for stale and
      acquires the lease; o then removes p's directory and acquires the lease again. */
  lemma LateReleaseMakesTwo(c: Terms, o: Process, p: Process) returns (s: State)
    requires p != o && c.gap >= 0 && c.latency >= 0 && c.rules == BUT_PROMPT
    ensures TwoOwners(c, o, p, s)
  {
    hide Connects, TwoOwners;
    var start, now := Both(o, p), if c.stale > 0 then c.stale else 0;
    BothStart(c, o, p);
    FirstAcquires(c, start, o, p, 0, 0, {}, Making(0));
    TakenWhileLeaving(c, start, o, p, now);
    FirstMoves(c, start, o, p, now, Recorded(p, now), Removing, {}, Owning, Remove(o), Idle, Absent);
    AcquiresAnew(c, start, o, p, now, {}, Owning);
    s := Pair(o, p, now, Recorded(o, now), Owning, {}, Owning);
    PairOwns(c, o, p, s, now, Recorded(o, now));
  }

  lemma TakenWhileLeaving(c: Terms, start: State, o: Process, p: Process, now: nat)
    requires p != o && c.gap >= 0 && c.latency >= 0 && c.rules == BUT_PROMPT && now >= c.stale
    requires Connects(c, start, Owned(o, p))
    ensures Connects(c, start, Pair(o, p, now, Recorded(p, now), Removing, {}, Owning))
  {
    hide Connects;
    var dir := Recorded(o, 0);
    FirstMoves(c, start, o, p, 0, dir, Owning, {}, Making(0), StartRelease(o), Releasing, dir);
    FirstMoves(c, start, o, p, 0, dir, Releasing, {}, Making(0), ReadForRelease(o), Removing, dir);
    TimeMoves(c, start, o, p, 0, dir, Removing, {}, Making(0), now);
    SecondMoves(c, start, o, p, now, dir, Removing, {}, Making(0), MakeDirectory(p), Reading(0), dir);
    SecondMoves(c, start, o, p, now, dir, Removing, {}, Reading(0), ReadRecord(p), Checking(0, Some(Record(o, 0)),
        now), dir);
    TakesAway(c, start, o, p, now, dir, Removing, {}, Some(Record(o, 0)), now);
    SecondAcquires(c, start, o, p, now, 1, Removing, {});
  }

  // ---------- exactly these terms ----------

  /** No run within the terms, from an absent directory, ever has two owners. */
  ghost predicate AlwaysOne(c: Terms) {
    forall s :: FreshlyReachable(c, s) ==> OneOwner(s)
  }

  /** Every rule of the one is among those of the other. */
  predicate IsLaxer(rules: Rules, strict: Rules) {
    && (rules.stays ==> strict.stays) && (rules.windowUnread ==> strict.windowUnread)
    && (rules.removedUnread ==> strict.removedUnread) && (rules.drained ==> strict.drained)
    && (rules.prompt ==> strict.prompt)
  }

  lemma LaxerReaches(c: Terms, strict: Rules, s: State)
    requires IsLaxer(c.rules, strict) && FreshlyReachable(c.(rules := strict), s)
    ensures FreshlyReachable(c, s)
  {
    hide Fresh, Timely, Next;
    var d := c.(rules := strict);
    var s0 :| Fresh(s0) && Connects(d, s0, s);
    var states, steps :| RuledRun(d, states, steps) && states[0] == s0 && states[|states| - 1] == s;
    assert RuledRun(c, states, steps);
    assert Connects(c, s0, s);
  }

  /** A stricter run with two owners breaks the laxer terms as well. */
  lemma BreaksLaxer(c: Terms, strict: Rules, s: State)
    requires IsLaxer(c.rules, strict) && TwoOwners(c.(rules := strict), 0, 1, s)
    ensures !AlwaysOne(c)
  {
    LaxerReaches(c, strict, s);
    hide FreshlyReachable, PhaseOf;
    assert !OneOwner(s);
  }

  /** From an absent directory there is never a second owner exactly when the time bound holds, nobody reads
      before the first heartbeat, and either no owner releases or nobody reads after a removal, a heartbeat is
      never under way at a removal, and releases are prompt. */
  lemma AlwaysOneIff(c: Terms)
    requires c.gap >= 1 && c.latency >= 0
    ensures AlwaysOne(c) <==> Suffices(c.rules) && c.gap + c.latency < c.stale
  {
    hide FreshlyReachable, OneOwner, TwoOwners;
    if c.gap + c.latency >= c.stale {
      var s := LateCheckMakesTwo(c.(rules := ALL_RULES), 0, 1);
      BreaksLaxer(c, ALL_RULES, s);
    } else if !c.rules.windowUnread {
      var s := ReadInWindowMakesTwo(c.(rules := BUT_WINDOW), 0, 1);
      BreaksLaxer(c, BUT_WINDOW, s);
    } else if !c.rules.stays && !c.rules.removedUnread {
      var s := ReadAfterRemovalMakesTwo(c.(rules := BUT_REMOVED), 0, 1);
      BreaksLaxer(c, BUT_REMOVED, s);
    } else if !c.rules.stays && !c.rules.drained {
      var s := HeartbeatUnderWayMakesTwo(c.(rules := BUT_DRAINED), 0, 1);
      BreaksLaxer(c, BUT_DRAINED, s);
    } else if !c.rules.stays && !c.rules.prompt {
      var s := LateReleaseMakesTwo(c.(rules := BUT_PROMPT), 0, 1);
      BreaksLaxer(c, BUT_PROMPT, s);
    } else {
      forall s | FreshlyReachable(c, s) ensures OneOwner(s) {
        ReachedHasOneOwner(c, s);
      }
    }
  }

  lemma ReachedHasOneOwner(c: Terms, s: State)
    requires c.gap + c.latency < c.stale && Suffices(c.rules) && FreshlyReachable(c, s)
    ensures OneOwner(s)
  {
    hide Fresh, OneOwner, Suffices, OnTime, Obeys, Next;
    var s0 :| Fresh(s0) && Connects(c, s0, s);
    var states, steps :| RuledRun(c, states, steps) && states[0] == s0 && states[|states| - 1] == s;
    AtMostOneOwner(c, states, steps);
  }
}
