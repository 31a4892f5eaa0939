/**
 The centroid update worker as a state machine.  Each step is one stretch of code that runs without another thread
 in between: a synchronized block, one read of the stop flag, one counter operation, one callback.  A run is any
 sequence of enabled steps, so everything proved here holds under every interleaving of `update`, `joinUpdate`,
 `stop` and the worker's own continuations.

 `asked`, `home` and `failed` are history: for which centroid each callback was registered, where it has got to, and
 which centroids' last calculation failed.
 */
module UpdateWorker {

  type CentroidId = string

  /** How far one call of `update` has come.  From `Claimed` to `Delayed` it owns its centroid. */
  datatype Phase =
    | Queued  // handed to the thread pool
    | Claimed  // has put its centroid into the updating set
    | Admitted  // has seen the stop flag clear
    | Running  // has been counted, and its updater is at work
    | Ran(ok: bool)
    | Delayed(ok: bool)  // waits before it lets go of its centroid
    | Erased(ok: bool)  // has taken its centroid out of the updating set
    | Firing(callbacks: seq<nat>)  // has taken the callbacks and is calling them
    | Done

  datatype Task = Task(id: CentroidId, phase: Phase)

  /** Where a callback is. */
  datatype Place = WaitingFor(id: CentroidId) | TakenBy(task: nat) | Fired

  datatype State = State(
    updating: set<CentroidId>,
    waiting: map<CentroidId, seq<nat>>,
    tasks: seq<Task>,
    joiners: map<nat, CentroidId>,  // registered, and about to call update
    inProgress: nat,
    decrements: nat,  // delayed decrements still to come
    stopping: bool,
    fired: seq<nat>,
    callbacks: nat,  // how many have been registered
    asked: seq<CentroidId>,
    home: map<nat, Place>,
    failed: set<CentroidId>
  )

  const INITIAL := State({}, map[], [], map[], 0, 0, false, [], 0, [], map[], {})

  // ---------------------------------------------------------------- steps

  datatype Step =
    | Register(id: CentroidId)  // joinUpdate: onUpdateSpecificOnce
    | CallUpdate(joiner: nat)  // joinUpdate: update
    | Trigger(id: CentroidId)  // update on its own, as the debouncer calls it
    | Stop
    | Claim(t: nat)
    | CheckStop(t: nat)
    | Begin(t: nat)
    | Calculate(t: nat, ok: bool)
    | AfterRun(t: nat)
    | Release(t: nat)
    | Echo(t: nat)
    | Fire(t: nat)
    | Decrement

  predicate IsInternal(step: Step) {
    !step.Register? && !step.Trigger? && !step.Stop?
  }

  predicate At(s: State, t: nat) {
    t < |s.tasks|
  }

  predicate Enabled(s: State, step: Step) {
    match step
    case Register(_) => true
    case CallUpdate(joiner) => joiner in s.joiners
    case Trigger(_) => true
    case Stop => true
    case Claim(t) => At(s, t) && s.tasks[t].phase.Queued?
    case CheckStop(t) => At(s, t) && s.tasks[t].phase.Claimed?
    case Begin(t) => At(s, t) && s.tasks[t].phase.Admitted?
    case Calculate(t, ok) => At(s, t) && s.tasks[t].phase.Running?
    case AfterRun(t) => At(s, t) && s.tasks[t].phase.Ran?
    case Release(t) => At(s, t) && s.tasks[t].phase.Delayed?
    case Echo(t) => At(s, t) && s.tasks[t].phase.Erased?
    case Fire(t) => At(s, t) && s.tasks[t].phase.Firing?
    case Decrement => s.decrements > 0 && s.inProgress > 0
  }

  function Waiting(s: State, id: CentroidId): seq<nat> {
    if id in s.waiting then s.waiting[id] else []
  }

  function Moved(s: State, t: nat, phase: Phase): State
    requires At(s, t)
  {
    s.(tasks := s.tasks[t := s.tasks[t].(phase := phase)])
  }

  function Queue(s: State, id: CentroidId): State {
    if s.stopping then s else s.(tasks := s.tasks + [Task(id, Queued)])
  }

  /** The callbacks in `cbs` now belong to task `t`. */
  function Rehome(home: map<nat, Place>, cbs: seq<nat>, t: nat): map<nat, Place> {
    map c | c in home :: if c in cbs then TakenBy(t) else home[c]
  }

  function Apply(s: State, step: Step): State
    requires Enabled(s, step)
  {
    match step
    case Register(id) =>
      var cb := s.callbacks;
      s.(waiting := s.waiting[id := Waiting(s, id) + [cb]],
         callbacks := cb + 1,
         asked := s.asked + [id],
         home := s.home[cb := WaitingFor(id)],
         joiners := s.joiners[cb := id])
    case CallUpdate(joiner) =>
      Queue(s, s.joiners[joiner]).(joiners := s.joiners - {joiner})
    case Trigger(id) => Queue(s, id)
    case Stop => s.(stopping := true)
    case Claim(t) =>
      var id := s.tasks[t].id;
      if id in s.updating then Moved(s, t, Done)
      else Moved(s, t, Claimed).(updating := s.updating + {id})
    case CheckStop(t) => Moved(s, t, if s.stopping then Done else Admitted)
    case Begin(t) => Moved(s, t, Running).(inProgress := s.inProgress + 1)
    case Calculate(t, ok) =>
      var id := s.tasks[t].id;
      Moved(s, t, Ran(ok)).(failed := if ok then s.failed - {id} else s.failed + {id})
    case AfterRun(t) =>
      if s.stopping then Moved(s, t, Done).(decrements := s.decrements + 1)
      else Moved(s, t, Delayed(s.tasks[t].phase.ok))
    case Release(t) =>
      Moved(s, t, Erased(s.tasks[t].phase.ok)).(updating := s.updating - {s.tasks[t].id})
    case Echo(t) =>
      var id := s.tasks[t].id;
      if !s.tasks[t].phase.ok then Moved(s, t, Done).(decrements := s.decrements + 1)
      else
        var cbs := Waiting(s, id);
        Moved(s, t, Firing(cbs)).(
          waiting := if id in s.waiting then s.waiting[id := []] else s.waiting,
          home := Rehome(s.home, cbs, t))
    case Fire(t) =>
      var cbs := s.tasks[t].phase.callbacks;
      if cbs == [] || s.stopping then Moved(s, t, Done).(decrements := s.decrements + 1)
      else
        Moved(s, t, Firing(cbs[1..])).(
          fired := s.fired + [cbs[0]],
          home := s.home[cbs[0] := Fired])
    case Decrement => s.(decrements := s.decrements - 1, inProgress := s.inProgress - 1)
  }

  // ---------------------------------------------------------------- runs

  ghost predicate IsRun(s: State, steps: seq<Step>, s': State)
    decreases |steps|
  {
    if steps == [] then s' == s
    else Enabled(s, steps[0]) && IsRun(Apply(s, steps[0]), steps[1..], s')
  }

  ghost predicate Reachable(s: State) {
    exists steps :: IsRun(INITIAL, steps, s)
  }

  // ---------------------------------------------------------------- the invariant

  predicate Owns(p: Phase) {
    p.Claimed? || p.Admitted? || p.Running? || p.Ran? || p.Delayed?
  }

  predicate Counted(p: Phase) {
    p.Running? || p.Ran? || p.Delayed? || p.Erased? || p.Firing?
  }

  function CountedTasks(tasks: seq<Task>): nat {
    if tasks == [] then 0 else CountedTasks(tasks[..|tasks| - 1]) + if Counted(tasks[|tasks| - 1].phase) then 1 else 0
  }

  /** No two calculations of one centroid at a time. */
  ghost predicate Exclusive(updating: set<CentroidId>, tasks: seq<Task>) {
    && (forall t :: 0 <= t < |tasks| && Owns(tasks[t].phase) ==> tasks[t].id in updating)
    && (forall t, u :: 0 <= t < u < |tasks| && Owns(tasks[t].phase) && Owns(tasks[u].phase) ==>
          tasks[t].id != tasks[u].id)
  }

  /** The counter is the number of calculations begun and not yet over, plus the decrements still to come. */
  ghost predicate CounterExact(s: State) {
    s.inProgress == CountedTasks(s.tasks) + s.decrements
  }

  ghost predicate Distinct(cbs: seq<nat>) {
    forall i, j :: 0 <= i < j < |cbs| ==> cbs[i] != cbs[j]
  }

  ghost predicate AllAt(home: map<nat, Place>, cbs: seq<nat>, place: Place) {
    forall i :: 0 <= i < |cbs| ==> cbs[i] in home && home[cbs[i]] == place
  }

  /** The list holds exactly the callbacks that are at the place, each once. */
  ghost predicate Holds(home: map<nat, Place>, cbs: seq<nat>, place: Place) {
    Distinct(cbs) && AllAt(home, cbs, place) && forall c <- home :: home[c] == place ==> c in cbs
  }

  function Taken(tasks: seq<Task>, t: nat): seq<nat> {
    if t < |tasks| && tasks[t].phase.Firing? then tasks[t].phase.callbacks else []
  }

  /** Every callback ever registered is in exactly one list, once, until a stop cuts a task short. */
  ghost predicate Conserved(s: State) {
    && (forall c :: c in s.home <==> 0 <= c < s.callbacks)
    && (forall id :: Holds(s.home, Waiting(s, id), WaitingFor(id)))
    && (forall t: nat :: Distinct(Taken(s.tasks, t)) && AllAt(s.home, Taken(s.tasks, t), TakenBy(t)))
    && (forall t: nat :: !s.stopping ==> Holds(s.home, Taken(s.tasks, t), TakenBy(t)))
    && Holds(s.home, s.fired, Fired)
    && (forall j <- s.joiners :: j < s.callbacks)
  }

  /** The task will still look at the callbacks of its centroid, unless its calculation fails. */
  predicate WillEcho(p: Phase) {
    p.Queued? || Owns(p) || (p.Erased? && p.ok)
  }

  /** A failed calculation whose task still owns its centroid, so that no later one has begun. */
  predicate HasFailed(p: Phase) {
    (p.Ran? || p.Delayed?) && !p.ok
  }

  ghost predicate HasJoiner(s: State, id: CentroidId) {
    exists j <- s.joiners :: s.joiners[j] == id
  }

  ghost predicate HasTask(s: State, id: CentroidId) {
    exists t :: 0 <= t < |s.tasks| && s.tasks[t].id == id && WillEcho(s.tasks[t].phase)
  }

  ghost predicate HasOwner(s: State, id: CentroidId) {
    exists t :: 0 <= t < |s.tasks| && s.tasks[t].id == id && Owns(s.tasks[t].phase)
  }

  /** Without stop, a centroid with waiting callbacks has someone on the way, unless its last calculation failed. */
  ghost predicate Covered(s: State) {
    !s.stopping ==>
      && (forall t :: 0 <= t < |s.tasks| && HasFailed(s.tasks[t].phase) ==> s.tasks[t].id in s.failed)
      && (forall id <- s.updating :: HasOwner(s, id))
      && (forall id :: Waiting(s, id) != [] ==> HasJoiner(s, id) || HasTask(s, id) || id in s.failed)
  }

  /** A waiting callback waits for the centroid it was registered for. */
  ghost predicate Recorded(s: State) {
    |s.asked| == s.callbacks
    && forall c <- s.home :: s.home[c].WaitingFor? ==> c < |s.asked| && s.asked[c] == s.home[c].id
  }

  ghost predicate Inv(s: State) {
    Exclusive(s.updating, s.tasks) && CounterExact(s) && Conserved(s) && Covered(s) && Recorded(s)
  }

  // ---------------------------------------------------------------- every step keeps it

  /** The task a step moves on, if it moves one. */
  function Mover(step: Step): int {
    match step
    case Claim(t) => t
    case CheckStop(t) => t
    case Begin(t) => t
    case Calculate(t, _) => t
    case AfterRun(t) => t
    case Release(t) => t
    case Echo(t) => t
    case Fire(t) => t
    case _ => -1
  }

  /** What a step does to the tasks. */
  lemma TaskEffect(s: State, step: Step)
    requires Enabled(s, step)
    ensures var tasks, tasks', t := s.tasks, Apply(s, step).tasks, Mover(step);
      if t >= 0 then t < |tasks| && tasks' == tasks[t := tasks'[t]] && tasks'[t].id == tasks[t].id
      else tasks' == tasks || (|tasks'| == |tasks| + 1 && tasks'[..|tasks|] == tasks && tasks'[|tasks|].phase == Queued)
  {
    hide Rehome, Waiting;
    match step {
      case Register(_) =>
      case CallUpdate(_) =>
      case Trigger(_) =>
      case Stop =>
      case Claim(_) =>
      case CheckStop(_) =>
      case Begin(_) =>
      case Calculate(_, _) =>
      case AfterRun(_) =>
      case Release(_) =>
      case Echo(_) =>
      case Fire(_) =>
      case Decrement =>
    }
  }

  lemma KeepsExclusive(s: State, step: Step)
    requires Exclusive(s.updating, s.tasks) && Enabled(s, step)
    ensures Exclusive(Apply(s, step).updating, Apply(s, step).tasks)
  {
    hide Apply, Enabled;
    var s', t := Apply(s, step), Mover(step);
    TaskEffect(s, step);
    UpdatingEffect(s, step);
    if t >= 0 {
      MoveKeepsExclusive(s.updating, s'.updating, s.tasks, t, s'.tasks[t]);
    }
  }

  /** What a step does to the set of centroids being updated. */
  lemma UpdatingEffect(s: State, step: Step)
    requires Enabled(s, step)
    ensures var s', t := Apply(s, step), Mover(step);
      if t < 0 then s'.updating == s.updating
      else
        && t < |s.tasks| == |s'.tasks|
        && (|| (s'.updating == s.updating && (Owns(s'.tasks[t].phase) ==> Owns(s.tasks[t].phase)))
            || (s.tasks[t].id !in s.updating && s'.updating == s.updating + {s.tasks[t].id})
            || (Owns(s.tasks[t].phase) && !Owns(s'.tasks[t].phase) && s'.updating == s.updating - {s.tasks[t].id}))
  {
    hide Rehome, Waiting;
    if !step.Claim? && !step.Release? {
      UpdatingUntouched(s, step);
    }
  }

  lemma UpdatingUntouched(s: State, step: Step)
    requires Enabled(s, step) && !step.Claim? && !step.Release?
    ensures var s', t := Apply(s, step), Mover(step);
      s'.updating == s.updating && (t >= 0 && Owns(s'.tasks[t].phase) ==> Owns(s.tasks[t].phase))
  {
    hide Rehome, Waiting;
    match step {
      case Register(_) =>
      case CallUpdate(_) =>
      case Trigger(_) =>
      case Stop =>
      case CheckStop(_) =>
      case Begin(_) =>
      case Calculate(_, _) =>
      case AfterRun(_) =>
      case Echo(_) =>
      case Fire(_) =>
      case Decrement =>
    }
  }

  lemma MoveKeepsExclusive(updating: set<CentroidId>, updating': set<CentroidId>, tasks: seq<Task>, t: nat, task: Task)
    requires Exclusive(updating, tasks) && t < |tasks| && task.id == tasks[t].id
    requires || (updating' == updating && (Owns(task.phase) ==> Owns(tasks[t].phase)))
             || (task.id !in updating && updating' == updating + {task.id})
             || (Owns(tasks[t].phase) && !Owns(task.phase) && updating' == updating - {task.id})
    ensures Exclusive(updating', tasks[t := task])
  {
  }

  lemma {:induction false} CountAfterMove(tasks: seq<Task>, t: nat, task: Task)
    requires t < |tasks|
    ensures CountedTasks(tasks[t := task])
         == CountedTasks(tasks) - (if Counted(tasks[t].phase) then 1 else 0) + if Counted(task.phase) then 1 else 0
    decreases |tasks|
  {
    var n := |tasks| - 1;
    if t < n {
      CountAfterMove(tasks[..n], t, task);
      assert tasks[t := task][..n] == tasks[..n][t := task];
    } else {
      assert tasks[t := task][..n] == tasks[..n];
    }
  }

  lemma KeepsCounter(s: State, step: Step)
    requires CounterExact(s) && Enabled(s, step)
    ensures CounterExact(Apply(s, step))
  {
    hide Apply, Enabled;
    var s', t := Apply(s, step), Mover(step);
    TaskEffect(s, step);
    CounterEffect(s, step);
    if t >= 0 {
      CountAfterMove(s.tasks, t, s'.tasks[t]);
    }
  }

  lemma CounterEffect(s: State, step: Step)
    requires Enabled(s, step)
    ensures var s', t := Apply(s, step), Mover(step);
      s'.inProgress - s'.decrements - (s.inProgress - s.decrements)
        == if t < 0 then 0
           else (if Counted(s'.tasks[t].phase) then 1 else 0) - (if Counted(s.tasks[t].phase) then 1 else 0)
  {
    hide Rehome, Waiting;
    if step.Begin? || step.AfterRun? || step.Echo? || step.Fire? || step.Decrement? {
      assert Mover(step) >= 0 ==> Counted(s.tasks[Mover(step)].phase) == !step.Begin?;
    } else {
      CounterUntouched(s, step);
    }
  }

  lemma CounterUntouched(s: State, step: Step)
    requires Enabled(s, step)
    requires !step.Begin? && !step.AfterRun? && !step.Echo? && !step.Fire? && !step.Decrement?
    ensures var s', t := Apply(s, step), Mover(step);
      && s'.inProgress == s.inProgress && s'.decrements == s.decrements
      && (t >= 0 ==> Counted(s'.tasks[t].phase) == Counted(s.tasks[t].phase))
  {
    hide Rehome, Waiting;
    match step {
      case Register(_) =>
      case CallUpdate(_) =>
      case Trigger(_) =>
      case Stop =>
      case Claim(_) =>
      case CheckStop(_) =>
      case Calculate(_, _) =>
      case Release(_) =>
    }
  }

  lemma HoldsAfterAdd(home: map<nat, Place>, cbs: seq<nat>, place: Place, c: nat)
    requires Holds(home, cbs, place) && c !in cbs
    ensures Holds(home[c := place], cbs + [c], place)
  {
  }

  lemma HoldsElsewhere(home: map<nat, Place>, cbs: seq<nat>, place: Place, c: nat, other: Place)
    requires Holds(home, cbs, place) && c !in cbs && other != place
    ensures Holds(home[c := other], cbs, place)
  {
  }

  lemma HoldsAfterRehome(home: map<nat, Place>, cbs: seq<nat>, place: Place, moved: seq<nat>, t: nat)
    requires Holds(home, cbs, place) && place != TakenBy(t) && forall c <- moved :: c !in cbs
    ensures Holds(Rehome(home, moved, t), cbs, place)
  {
  }

  lemma RegisterKeepsConserved(s: State, id: CentroidId)
    requires Conserved(s)
    ensures Conserved(Apply(s, Register(id)))
  {
    var s', c := Apply(s, Register(id)), s.callbacks;
    forall k ensures Holds(s'.home, Waiting(s', k), WaitingFor(k)) {
      if k == id {
        HoldsAfterAdd(s.home, Waiting(s, id), WaitingFor(id), c);
      } else {
        HoldsElsewhere(s.home, Waiting(s, k), WaitingFor(k), c, WaitingFor(id));
      }
    }
    forall t: nat | !s.stopping ensures Holds(s'.home, Taken(s.tasks, t), TakenBy(t)) {
      HoldsElsewhere(s.home, Taken(s.tasks, t), TakenBy(t), c, WaitingFor(id));
    }
    HoldsElsewhere(s.home, s.fired, Fired, c, WaitingFor(id));
  }

  lemma EchoKeepsConserved(s: State, t: nat)
    requires Conserved(s) && Enabled(s, Echo(t)) && s.tasks[t].phase.ok
    ensures Conserved(Apply(s, Echo(t)))
  {
    var s', id := Apply(s, Echo(t)), s.tasks[t].id;
    var cbs := Waiting(s, id);
    assert Taken(s.tasks, t) == [] && Taken(s'.tasks, t) == cbs;
    assert Holds(s.home, cbs, WaitingFor(id));
    forall k ensures Holds(s'.home, Waiting(s', k), WaitingFor(k)) {
      assert Holds(s.home, Waiting(s, k), WaitingFor(k));
      if k != id {
        HoldsAfterRehome(s.home, Waiting(s, k), WaitingFor(k), cbs, t);
      }
    }
    forall u: nat ensures Distinct(Taken(s'.tasks, u)) && AllAt(s'.home, Taken(s'.tasks, u), TakenBy(u)) {
      assert Distinct(Taken(s.tasks, u)) && AllAt(s.home, Taken(s.tasks, u), TakenBy(u));
      assert u != t ==> Taken(s'.tasks, u) == Taken(s.tasks, u);
    }
    forall u: nat | !s.stopping ensures Holds(s'.home, Taken(s'.tasks, u), TakenBy(u)) {
      assert Holds(s.home, Taken(s.tasks, u), TakenBy(u));
      if u != t {
        HoldsAfterRehome(s.home, Taken(s.tasks, u), TakenBy(u), cbs, t);
      }
    }
    HoldsAfterRehome(s.home, s.fired, Fired, cbs, t);
  }

  lemma FireKeepsConserved(s: State, t: nat)
    requires Conserved(s) && Enabled(s, Fire(t)) && s.tasks[t].phase.callbacks != [] && !s.stopping
    ensures Conserved(Apply(s, Fire(t)))
  {
    var s', cbs := Apply(s, Fire(t)), s.tasks[t].phase.callbacks;
    var c := cbs[0];
    assert Taken(s.tasks, t) == cbs && Taken(s'.tasks, t) == cbs[1..];
    assert Holds(s.home, cbs, TakenBy(t)) && s.home[c] == TakenBy(t);
    forall k ensures Holds(s'.home, Waiting(s', k), WaitingFor(k)) {
      assert Holds(s.home, Waiting(s, k), WaitingFor(k));
      HoldsElsewhere(s.home, Waiting(s, k), WaitingFor(k), c, Fired);
    }
    forall u: nat ensures Holds(s'.home, Taken(s'.tasks, u), TakenBy(u)) {
      assert Holds(s.home, Taken(s.tasks, u), TakenBy(u));
      if u != t {
        assert Taken(s'.tasks, u) == Taken(s.tasks, u);
        HoldsElsewhere(s.home, Taken(s.tasks, u), TakenBy(u), c, Fired);
      } else {
        HoldsAfterDrop(s.home, cbs, TakenBy(t), Fired);
      }
    }
    HoldsAfterAdd(s.home, s.fired, Fired, c);
  }

  lemma HoldsAfterDrop(home: map<nat, Place>, cbs: seq<nat>, place: Place, other: Place)
    requires cbs != [] && Holds(home, cbs, place) && other != place
    ensures Holds(home[cbs[0] := other], cbs[1..], place)
  {
    assert forall c <- cbs :: c == cbs[0] || c in cbs[1..];
  }

  /** The other steps leave every list alone, unless a stop cuts one short. */
  lemma OtherKeepsConserved(s: State, step: Step)
    requires Conserved(s) && Enabled(s, step) && !step.Register?
    requires step.Echo? ==> !s.tasks[step.t].phase.ok
    requires step.Fire? ==> s.tasks[step.t].phase.callbacks == [] || s.stopping
    ensures Conserved(Apply(s, step))
  {
    var s' := Apply(s, step);
    OtherEffect(s, step);
    hide Apply, Enabled;
    assert forall k :: Waiting(s', k) == Waiting(s, k);
    forall t: nat ensures Distinct(Taken(s'.tasks, t)) && AllAt(s.home, Taken(s'.tasks, t), TakenBy(t)) {
      assert Distinct(Taken(s.tasks, t)) && AllAt(s.home, Taken(s.tasks, t), TakenBy(t));
    }
    forall t: nat | !s'.stopping ensures Holds(s.home, Taken(s'.tasks, t), TakenBy(t)) {
      assert Holds(s.home, Taken(s.tasks, t), TakenBy(t));
    }
  }

  lemma OtherEffect(s: State, step: Step)
    requires Enabled(s, step) && !step.Register?
    requires step.Echo? ==> !s.tasks[step.t].phase.ok
    requires step.Fire? ==> s.tasks[step.t].phase.callbacks == [] || s.stopping
    ensures var s' := Apply(s, step);
      && s'.home == s.home && s'.fired == s.fired && s'.callbacks == s.callbacks && s'.waiting == s.waiting
      && s'.joiners.Keys <= s.joiners.Keys && (s.stopping ==> s'.stopping)
      && forall t: nat :: Taken(s'.tasks, t) == Taken(s.tasks, t) || (s.stopping && Taken(s'.tasks, t) == [])
  {
    TaskEffect(s, step);
    match step {
      case CallUpdate(_) =>
      case Trigger(_) =>
      case Stop =>
      case Claim(_) =>
      case CheckStop(_) =>
      case Begin(_) =>
      case Calculate(_, _) =>
      case AfterRun(_) =>
      case Release(_) =>
      case Echo(_) =>
      case Fire(_) =>
      case Decrement =>
    }
  }

  lemma KeepsConserved(s: State, step: Step)
    requires Conserved(s) && Enabled(s, step)
    ensures Conserved(Apply(s, step))
  {
    if step.Register? {
      RegisterKeepsConserved(s, step.id);
    } else if step.Echo? && s.tasks[step.t].phase.ok {
      EchoKeepsConserved(s, step.t);
    } else if step.Fire? && s.tasks[step.t].phase.callbacks != [] && !s.stopping {
      FireKeepsConserved(s, step.t);
    } else {
      OtherKeepsConserved(s, step);
    }
  }

  lemma KeepsRecorded(s: State, step: Step)
    requires Recorded(s) && Enabled(s, step)
    ensures Recorded(Apply(s, step))
  {
    if !step.Register? && !step.Echo? && !step.Fire? {
      HomesUntouched(s, step);
    }
  }

  lemma HomesUntouched(s: State, step: Step)
    requires Enabled(s, step) && !step.Register? && !step.Echo? && !step.Fire?
    ensures var s' := Apply(s, step); s'.home == s.home && s'.asked == s.asked && s'.callbacks == s.callbacks
  {
    hide Rehome, Waiting;
    match step {
      case CallUpdate(_) =>
      case Trigger(_) =>
      case Stop =>
      case Claim(_) =>
      case CheckStop(_) =>
      case Begin(_) =>
      case Calculate(_, _) =>
      case AfterRun(_) =>
      case Release(_) =>
      case Decrement =>
    }
  }

  // ---------------------------------------------------------------- nobody is left waiting

  lemma KeepsCovered(s: State, step: Step)
    requires Exclusive(s.updating, s.tasks) && Covered(s) && Enabled(s, step)
    requires forall j <- s.joiners :: j < s.callbacks
    ensures Covered(Apply(s, step))
  {
    var s' := Apply(s, step);
    if !s'.stopping {
      FailuresRecorded(s, step);
      forall id <- s'.updating ensures HasOwner(s', id) {
        OwnerStays(s, step, id);
      }
      forall id | Waiting(s', id) != [] ensures HasJoiner(s', id) || HasTask(s', id) || id in s'.failed {
        CoverStays(s, step, id);
      }
    }
    hide Apply;
  }

  /** What a step does to failures. */
  lemma FailureEffect(s: State, step: Step)
    requires Enabled(s, step)
    ensures var s', t := Apply(s, step), Mover(step);
      && (forall id <- s.failed ::
            id in s'.failed || (t >= 0 && s.tasks[t].id == id && Owns(s.tasks[t].phase) && WillEcho(s'.tasks[t].phase)))
      && (t >= 0 && HasFailed(s'.tasks[t].phase) ==> HasFailed(s.tasks[t].phase) || s.tasks[t].id in s'.failed)
  {
    hide Rehome, Waiting;
    if Mover(step) >= 0 && !step.Calculate? {
      FailuresUntouched(s, step);
    }
  }

  lemma FailuresUntouched(s: State, step: Step)
    requires Enabled(s, step) && !step.Calculate? && Mover(step) >= 0
    ensures var s', t := Apply(s, step), Mover(step);
      s'.failed == s.failed && (HasFailed(s'.tasks[t].phase) ==> HasFailed(s.tasks[t].phase))
  {
    hide Rehome, Waiting;
    match step {
      case Claim(_) =>
      case CheckStop(_) =>
      case Begin(_) =>
      case AfterRun(_) =>
      case Release(_) =>
      case Echo(_) =>
      case Fire(_) =>
    }
  }

  lemma FailuresRecorded(s: State, step: Step)
    requires Exclusive(s.updating, s.tasks) && Enabled(s, step)
    requires forall t :: 0 <= t < |s.tasks| && HasFailed(s.tasks[t].phase) ==> s.tasks[t].id in s.failed
    ensures var s' := Apply(s, step);
      forall t :: 0 <= t < |s'.tasks| && HasFailed(s'.tasks[t].phase) ==> s'.tasks[t].id in s'.failed
  {
    var s' := Apply(s, step);
    TaskEffect(s, step);
    FailureEffect(s, step);
    hide Apply, Enabled;
    forall t | 0 <= t < |s'.tasks| && HasFailed(s'.tasks[t].phase) ensures s'.tasks[t].id in s'.failed {
      assert t < |s.tasks| && t != Mover(step) ==> s'.tasks[t] == s.tasks[t] && Owns(s.tasks[t].phase);
    }
  }

  lemma OwnerStays(s: State, step: Step, id: CentroidId)
    requires Exclusive(s.updating, s.tasks) && Covered(s) && Enabled(s, step)
    requires !s.stopping && id in Apply(s, step).updating
    ensures HasOwner(Apply(s, step), id)
  {
    hide Apply, Enabled, Waiting, HasFailed, HasTask, HasJoiner;
    var s', t := Apply(s, step), Mover(step);
    TaskEffect(s, step);
    OwnerEffect(s, step);
    if id in s.updating {
      var u :| 0 <= u < |s.tasks| && s.tasks[u].id == id && Owns(s.tasks[u].phase);
      assert u != t ==> s'.tasks[u] == s.tasks[u];
      assert s'.tasks[u].id == id && Owns(s'.tasks[u].phase);
    } else {
      assert id in s'.updating - s.updating;
      assert s'.tasks[t].id == id && Owns(s'.tasks[t].phase);
    }
  }

  /** Without stop, a step that ends an ownership releases the centroid, and one that adds a centroid owns it. */
  lemma OwnerEffect(s: State, step: Step)
    requires Enabled(s, step) && !s.stopping
    ensures var s', t := Apply(s, step), Mover(step);
      && (t < 0 ==> s'.updating == s.updating)
      && (t >= 0 && Owns(s.tasks[t].phase) && !Owns(s'.tasks[t].phase) ==> s.tasks[t].id !in s'.updating)
      && (t >= 0 ==> s'.updating - s.updating <= {s.tasks[t].id})
      && (t >= 0 && s'.updating != s.updating && s.tasks[t].id in s'.updating ==> Owns(s'.tasks[t].phase))
  {
    hide Rehome, Waiting;
    match step {
      case Register(_) =>
      case CallUpdate(_) =>
      case Trigger(_) =>
      case Stop =>
      case Claim(_) =>
      case CheckStop(_) =>
      case Begin(_) =>
      case Calculate(_, _) =>
      case AfterRun(_) =>
      case Release(_) =>
      case Echo(_) =>
      case Fire(_) =>
      case Decrement =>
    }
  }

  lemma CoverStays(s: State, step: Step, id: CentroidId)
    requires Exclusive(s.updating, s.tasks) && Covered(s) && Enabled(s, step)
    requires forall j <- s.joiners :: j < s.callbacks
    requires !Apply(s, step).stopping && Waiting(Apply(s, step), id) != []
    ensures var s' := Apply(s, step); HasJoiner(s', id) || HasTask(s', id) || id in s'.failed
  {
    var s' := Apply(s, step);
    if step.Claim? && id in s.updating {
      OwnerStays(s, step, id);
    }
    if step.Register? && step.id == id {
      assert s'.joiners[s.callbacks] == id;
    } else if HasJoiner(s, id) {
      JoinerCoverStays(s, step, id);
    } else {
      if HasTask(s, id) {
        var u :| 0 <= u < |s.tasks| && s.tasks[u].id == id && WillEcho(s.tasks[u].phase);
        TaskCoverStays(s, step, id, u);
      }
      if id in s.failed {
        FailureCoverStays(s, step, id);
      }
    }
  }

  /** Only a successful calculation clears a failure, and its task will answer. */
  lemma FailureCoverStays(s: State, step: Step, id: CentroidId)
    requires Enabled(s, step) && id in s.failed
    ensures HasTask(Apply(s, step), id) || id in Apply(s, step).failed
  {
    hide Apply;
    TaskEffect(s, step);
    FailureEffect(s, step);
    var s', t := Apply(s, step), Mover(step);
    if id !in s'.failed {
      assert s'.tasks[t].id == id && WillEcho(s'.tasks[t].phase);
    }
  }

  lemma JoinerCoverStays(s: State, step: Step, id: CentroidId)
    requires Enabled(s, step) && HasJoiner(s, id) && !s.stopping && (forall j <- s.joiners :: j < s.callbacks)
    ensures var s' := Apply(s, step); HasJoiner(s', id) || HasTask(s', id)
  {
    var s' := Apply(s, step);
    var j :| j in s.joiners && s.joiners[j] == id;
    if step == CallUpdate(j) {
      assert s'.tasks[|s.tasks|] == Task(id, Queued);
    } else {
      assert j in s'.joiners && s'.joiners[j] == id;
    }
  }

  lemma TaskCoverStays(s: State, step: Step, id: CentroidId, u: nat)
    requires Covered(s) && Enabled(s, step) && !Apply(s, step).stopping
    requires u < |s.tasks| && s.tasks[u].id == id && WillEcho(s.tasks[u].phase)
    requires step.Claim? && id in s.updating ==> HasOwner(Apply(s, step), id)
    requires Waiting(Apply(s, step), id) != []
    ensures HasTask(Apply(s, step), id) || id in s.failed
  {
    var s', t := Apply(s, step), Mover(step);
    TaskEffect(s, step);
    if u != t {
      assert s'.tasks[u] == s.tasks[u];
    } else if !(step.Claim? && id in s.updating) {
      assert WillEcho(s'.tasks[u].phase) || HasFailed(s.tasks[u].phase);
    }
  }

  // ---------------------------------------------------------------- over whole runs

  lemma KeepsInv(s: State, step: Step)
    requires Inv(s) && Enabled(s, step)
    ensures Inv(Apply(s, step))
  {
    hide Conserved, Covered, Exclusive, CounterExact, Recorded, Apply;
    KeepsRecorded(s, step);
    assert forall j <- s.joiners :: j < s.callbacks by {
      JoinersAreRegistered(s);
    }
    KeepsExclusive(s, step);
    KeepsCounter(s, step);
    KeepsConserved(s, step);
    KeepsCovered(s, step);
  }

  lemma JoinersAreRegistered(s: State)
    requires Conserved(s)
    ensures forall j <- s.joiners :: j < s.callbacks
  {
  }

  lemma {:induction false} RunKeepsInv(s: State, steps: seq<Step>, s': State)
    requires Inv(s) && IsRun(s, steps, s')
    ensures Inv(s')
    decreases |steps|
  {
    if steps != [] {
      KeepsInv(s, steps[0]);
      RunKeepsInv(Apply(s, steps[0]), steps[1..], s');
    }
  }

  lemma InitialInv()
    ensures Inv(INITIAL)
  {
    forall place: Place ensures Holds(map[], [], place) {}
    assert forall id :: Waiting(INITIAL, id) == [];
    assert forall t: nat :: Taken(INITIAL.tasks, t) == [];
    hide Holds, Waiting, Taken;
    assert Conserved(INITIAL);
    assert Covered(INITIAL);
  }

  /** The invariant holds in every state of every run, whatever fails and whenever stop comes. */
  lemma ReachableInv(s: State)
    requires Reachable(s)
    ensures Inv(s)
  {
    hide Inv, IsRun;
    var steps :| IsRun(INITIAL, steps, s);
    InitialInv();
    RunKeepsInv(INITIAL, steps, s);
  }

  /** Two updaters never work on one centroid at the same time. */
  lemma OneUpdaterPerCentroid(s: State, t: nat, u: nat)
    requires Reachable(s) && At(s, t) && At(s, u) && s.tasks[t].phase.Running? && s.tasks[u].phase.Running?
    requires s.tasks[t].id == s.tasks[u].id
    ensures t == u
  {
    ReachableInv(s);
  }

  /** A callback is called at most once, and only if it was registered. */
  lemma FiresAtMostOnce(s: State)
    requires Reachable(s)
    ensures Distinct(s.fired) && forall c <- s.fired :: c < s.callbacks
  {
    ReachableInv(s);
    forall c <- s.fired ensures c < s.callbacks {
      assert c in s.home;
    }
  }

  // ---------------------------------------------------------------- quiescence

  ghost predicate Quiescent(s: State) {
    s.joiners == map[] && s.decrements == 0 && forall t :: 0 <= t < |s.tasks| ==> s.tasks[t].phase == Done
  }

  /** A state is quiescent exactly when the worker has no step left to take on its own. */
  lemma StuckIffQuiescent(s: State)
    requires Inv(s)
    ensures Quiescent(s) <==> forall step :: IsInternal(step) ==> !Enabled(s, step)
  {
    if !Quiescent(s) {
      var step := NextInternal(s);
    }
  }

  lemma NextInternal(s: State) returns (step: Step)
    requires Inv(s) && !Quiescent(s)
    ensures IsInternal(step) && Enabled(s, step)
  {
    if s.joiners != map[] {
      var j :| j in s.joiners;
      step := CallUpdate(j);
    } else if s.decrements > 0 {
      step := Decrement;
    } else {
      var t :| 0 <= t < |s.tasks| && s.tasks[t].phase != Done;
      match s.tasks[t].phase {
        case Queued => step := Claim(t);
        case Claimed => step := CheckStop(t);
        case Admitted => step := Begin(t);
        case Running => step := Calculate(t, true);
        case Ran(_) => step := AfterRun(t);
        case Delayed(_) => step := Release(t);
        case Erased(_) => step := Echo(t);
        case Firing(_) => step := Fire(t);
      }
    }
  }

  /** Without stop, once the worker is quiescent every callback has fired, or a calculation of its centroid failed. */
  lemma NobodyLeftWaiting(s: State, c: nat)
    requires Reachable(s) && Quiescent(s) && !s.stopping && c < s.callbacks
    ensures c in s.fired || exists id <- s.failed :: c in Waiting(s, id)
  {
    ReachableInv(s);
    hide Reachable, Exclusive, CounterExact, Conserved;
    if c !in s.fired {
      var id :| c in Waiting(s, id);
      assert id in s.failed;
    }
  }

  /** In particular, without stop and without failures no `joinUpdate` waits for ever. */
  lemma EveryJoinIsAnswered(s: State)
    requires Reachable(s) && Quiescent(s) && !s.stopping && s.failed == {}
    ensures forall c :: 0 <= c < s.callbacks ==> c in s.fired
    ensures |s.fired| == s.callbacks
  {
    forall c | 0 <= c < s.callbacks ensures c in s.fired {
      NobodyLeftWaiting(s, c);
    }
    FiresAtMostOnce(s);
    ReachableInv(s);
    DistinctBelow(s.fired, s.callbacks);
  }

  lemma {:induction false} DistinctBelow(cbs: seq<nat>, n: nat)
    requires Distinct(cbs) && forall c <- cbs :: c < n
    ensures |cbs| <= n && ((forall c :: 0 <= c < n ==> c in cbs) ==> |cbs| == n)
    decreases n
  {
    if n == 0 {
      assert forall i :: 0 <= i < |cbs| ==> cbs[i] in cbs;
    } else if n - 1 in cbs {
      var i :| 0 <= i < |cbs| && cbs[i] == n - 1;
      var rest: seq<nat> := cbs[..i] + cbs[i + 1..];
      forall k | 0 <= k < |rest| ensures rest[k] < n - 1 {
        assert rest[k] == cbs[if k < i then k else k + 1];
        assert cbs[if k < i then k else k + 1] in cbs;
      }
      forall c <- cbs ensures c == n - 1 || c in rest {
        var k :| 0 <= k < |cbs| && cbs[k] == c;
        assert k != i ==> rest[if k < i then k else k - 1] == c;
      }
      DistinctBelow(rest, n - 1);
    } else {
      DistinctBelow(cbs, n - 1);
    }
  }

  // ---------------------------------------------------------------- the worker comes to rest

  function PhaseRank(p: Phase): nat {
    match p
    case Queued => 9
    case Claimed => 8
    case Admitted => 7
    case Running => 6
    case Ran(_) => 5
    case Delayed(_) => 4
    case Erased(_) => 3
    case Firing(_) => 2
    case Done => 0
  }

  function TaskRank(tasks: seq<Task>): nat {
    if tasks == [] then 0 else TaskRank(tasks[..|tasks| - 1]) + PhaseRank(tasks[|tasks| - 1].phase)
  }

  lemma {:induction false} TaskRankAfterMove(tasks: seq<Task>, t: nat, task: Task)
    requires t < |tasks|
    ensures TaskRank(tasks[t := task]) == TaskRank(tasks) - PhaseRank(tasks[t].phase) + PhaseRank(task.phase)
    decreases |tasks|
  {
    var n := |tasks| - 1;
    if t < n {
      TaskRankAfterMove(tasks[..n], t, task);
      assert tasks[t := task][..n] == tasks[..n][t := task];
    } else {
      assert tasks[t := task][..n] == tasks[..n];
    }
  }

  /** How many more steps the worker can take on its own. */
  function Rank(s: State): int {
    TaskRank(s.tasks) + 10 * |s.joiners| + s.decrements + s.callbacks - |s.fired|
  }

  lemma RankIsPositive(s: State)
    requires Inv(s)
    ensures Rank(s) >= 0
  {
    forall c <- s.fired ensures c < s.callbacks {
      assert c in s.home;
    }
    DistinctBelow(s.fired, s.callbacks);
  }

  lemma InternalStepLowersRank(s: State, step: Step)
    requires Enabled(s, step) && IsInternal(step)
    ensures Rank(Apply(s, step)) < Rank(s)
  {
    var s', t := Apply(s, step), Mover(step);
    TaskEffect(s, step);
    MoveLowersRank(s, step);
    hide Apply, PhaseRank;
    if t >= 0 {
      TaskRankAfterMove(s.tasks, t, s'.tasks[t]);
    }
  }

  lemma MoveLowersRank(s: State, step: Step)
    requires Enabled(s, step) && IsInternal(step)
    ensures var s', t := Apply(s, step), Mover(step);
      if t >= 0 then
        && s'.joiners == s.joiners && s'.callbacks == s.callbacks
        && PhaseRank(s'.tasks[t].phase) + s'.decrements - |s'.fired|
             < PhaseRank(s.tasks[t].phase) + s.decrements - |s.fired|
      else
        && s'.callbacks == s.callbacks && s'.fired == s.fired
        && TaskRank(s'.tasks) + 10 * |s'.joiners| + s'.decrements < TaskRank(s.tasks) + 10 * |s.joiners| + s.decrements
  {
    hide Rehome, Waiting, TaskRank;
    if step.CallUpdate? {
      CallUpdateLowersRank(s, step.joiner);
    } else if !step.Fire? && !step.Decrement? {
      PhaseOnlyLowersRank(s, step);
    }
  }

  lemma PhaseOnlyLowersRank(s: State, step: Step)
    requires Enabled(s, step) && IsInternal(step) && !step.CallUpdate? && !step.Fire? && !step.Decrement?
    ensures var s', t := Apply(s, step), Mover(step);
      && s'.joiners == s.joiners && s'.callbacks == s.callbacks && s'.fired == s.fired
      && PhaseRank(s'.tasks[t].phase) + s'.decrements < PhaseRank(s.tasks[t].phase) + s.decrements
  {
    hide Rehome, Waiting;
    match step {
      case Claim(_) =>
      case CheckStop(_) =>
      case Begin(_) =>
      case Calculate(_, _) =>
      case AfterRun(_) =>
      case Release(_) =>
      case Echo(_) =>
    }
  }

  lemma CallUpdateLowersRank(s: State, j: nat)
    requires j in s.joiners
    ensures var s' := Apply(s, CallUpdate(j));
            TaskRank(s'.tasks) + 10 * |s'.joiners| < TaskRank(s.tasks) + 10 * |s.joiners|
  {
    var s' := Apply(s, CallUpdate(j));
    assert s.joiners == s'.joiners[j := s.joiners[j]];
    assert !s.stopping ==> s'.tasks[..|s.tasks|] == s.tasks;
  }

  ghost predicate AllInternal(steps: seq<Step>) {
    forall i :: 0 <= i < |steps| ==> IsInternal(steps[i])
  }

  /** Left alone, the worker stops after a bounded number of steps, whichever it takes; it is then quiescent. */
  lemma {:induction false} ComesToRest(s: State, steps: seq<Step>, s': State)
    requires Inv(s) && IsRun(s, steps, s') && AllInternal(steps)
    ensures |steps| <= Rank(s)
    decreases |steps|
  {
    if steps == [] {
      RankIsPositive(s);
    } else {
      KeepsInv(s, steps[0]);
      InternalStepLowersRank(s, steps[0]);
      ComesToRest(Apply(s, steps[0]), steps[1..], s');
    }
  }

  // ---------------------------------------------------------------- what failures do

  /** Only the calculations of centroids in `bad` may fail. */
  ghost predicate Permits(bad: iset<CentroidId>, s: State, step: Step)
    requires Enabled(s, step)
  {
    step.Calculate? && !step.ok ==> s.tasks[step.t].id in bad
  }

  ghost predicate IsRunWithin(bad: iset<CentroidId>, s: State, steps: seq<Step>, s': State)
    decreases |steps|
  {
    if steps == [] then s' == s
    else Enabled(s, steps[0]) && Permits(bad, s, steps[0]) && IsRunWithin(bad, Apply(s, steps[0]), steps[1..], s')
  }

  ghost predicate ReachableWithin(bad: iset<CentroidId>, s: State) {
    exists steps :: IsRunWithin(bad, INITIAL, steps, s)
  }

  ghost predicate FailedWithin(bad: iset<CentroidId>, s: State) {
    forall id <- s.failed :: id in bad
  }

  lemma {:induction false} RunWithinIsRun(bad: iset<CentroidId>, s: State, steps: seq<Step>, s': State)
    requires IsRunWithin(bad, s, steps, s') && FailedWithin(bad, s)
    ensures IsRun(s, steps, s') && FailedWithin(bad, s')
    decreases |steps|
  {
    hide Apply;
    if steps != [] {
      StepFailsWithin(bad, s, steps[0]);
      RunWithinIsRun(bad, Apply(s, steps[0]), steps[1..], s');
    }
  }

  lemma StepFailsWithin(bad: iset<CentroidId>, s: State, step: Step)
    requires Enabled(s, step) && Permits(bad, s, step) && FailedWithin(bad, s)
    ensures FailedWithin(bad, Apply(s, step))
  {
    hide Rehome, Waiting;
    match step {
      case Register(_) =>
      case CallUpdate(_) =>
      case Trigger(_) =>
      case Stop =>
      case Claim(_) =>
      case CheckStop(_) =>
      case Begin(_) =>
      case Calculate(_, _) =>
      case AfterRun(_) =>
      case Release(_) =>
      case Echo(_) =>
      case Fire(_) =>
      case Decrement =>
    }
  }

  lemma WithinIsReachable(bad: iset<CentroidId>, s: State)
    requires ReachableWithin(bad, s)
    ensures Reachable(s) && FailedWithin(bad, s)
  {
    hide Apply, IsRun, IsRunWithin;
    var steps :| IsRunWithin(bad, INITIAL, steps, s);
    RunWithinIsRun(bad, INITIAL, steps, s);
  }

  /** At rest without stop, every join on the centroid has been answered. */
  ghost predicate AnswersAll(s: State, id: CentroidId) {
    Quiescent(s) && !s.stopping ==>
      forall c: nat :: c < s.callbacks && c < |s.asked| && s.asked[c] == id ==> c in s.fired
  }

  /**
   If only the calculations of the centroids in `bad` can fail, then a centroid's joins are answered on every run that
   comes to rest without a stop if and only if the centroid is not one of those.
   */
  lemma JoinsAnsweredIffCannotFail(bad: iset<CentroidId>, id: CentroidId)
    ensures (forall s :: ReachableWithin(bad, s) ==> AnswersAll(s, id)) <==> id !in bad
  {
    hide ReachableWithin, Reachable, Inv, Quiescent;
    if id in bad {
      var s := FailureStrandsAJoin(bad, id);
      assert s.asked[0] == id && 0 !in s.fired;
      assert !AnswersAll(s, id);
    } else {
      forall s | ReachableWithin(bad, s) ensures AnswersAll(s, id) {
        if Quiescent(s) && !s.stopping {
          forall c: nat | c < s.callbacks && c < |s.asked| && s.asked[c] == id ensures c in s.fired {
            CannotFailIsAnswered(bad, s, c);
          }
        }
      }
    }
  }

  lemma CannotFailIsAnswered(bad: iset<CentroidId>, s: State, c: nat)
    requires ReachableWithin(bad, s) && Quiescent(s) && !s.stopping
    requires c < s.callbacks && c < |s.asked| && s.asked[c] !in bad
    ensures c in s.fired
  {
    hide ReachableWithin, Reachable, Inv, Quiescent;
    WithinIsReachable(bad, s);
    ReachableInv(s);
    NobodyLeftWaiting(s, c);
    forall id | c in Waiting(s, id) ensures s.asked[c] == id {
      WaitsForWhatItAsked(s, id, c);
    }
  }

  lemma WaitsForWhatItAsked(s: State, id: CentroidId, c: nat)
    requires Inv(s) && c in Waiting(s, id)
    ensures c < |s.asked| && s.asked[c] == id
  {
    hide Exclusive, CounterExact, Covered;
    assert Holds(s.home, Waiting(s, id), WaitingFor(id));
    assert s.home[c] == WaitingFor(id);
  }

  lemma {:induction false} RunThenStep(
      bad: iset<CentroidId>, s: State, steps: seq<Step>, s': State, step: Step)
    requires IsRunWithin(bad, s, steps, s') && Enabled(s', step) && Permits(bad, s', step)
    ensures IsRunWithin(bad, s, steps + [step], Apply(s', step))
    decreases |steps|
  {
    if steps == [] {
      assert ([] + [step])[1..] == [];
    } else {
      RunThenStep(bad, Apply(s, steps[0]), steps[1..], s', step);
      assert (steps + [step])[1..] == steps[1..] + [step];
    }
  }

  lemma Start(bad: iset<CentroidId>)
    ensures ReachableWithin(bad, INITIAL)
  {
    assert IsRunWithin(bad, INITIAL, [], INITIAL);
  }

  lemma After(bad: iset<CentroidId>, s: State, step: Step) returns (s': State)
    requires ReachableWithin(bad, s) && Enabled(s, step) && Permits(bad, s, step)
    ensures s' == Apply(s, step) && ReachableWithin(bad, s')
  {
    s' := Apply(s, step);
    var steps :| IsRunWithin(bad, INITIAL, steps, s);
    RunThenStep(bad, INITIAL, steps, s, step);
  }

  lemma JoinUntilItsTask(bad: iset<CentroidId>, id: CentroidId) returns (s: State)
    ensures ReachableWithin(bad, s) && s.tasks == [Task(id, Queued)] && s.joiners == map[] && s.fired == []
    ensures s.callbacks == 1 && s.asked == [id]
    ensures s.updating == {} && s.inProgress == 0 && s.decrements == 0 && !s.stopping
  {
    hide ReachableWithin;
    Start(bad);
    s := After(bad, INITIAL, Register(id));
    s := After(bad, s, CallUpdate(0));
    assert s.joiners == map[];
  }

  lemma JoinUntilItsRun(bad: iset<CentroidId>, id: CentroidId) returns (s: State)
    ensures ReachableWithin(bad, s) && s.tasks == [Task(id, Running)] && s.joiners == map[] && s.fired == []
    ensures s.callbacks == 1 && s.asked == [id]
    ensures s.inProgress == 1 && s.decrements == 0 && !s.stopping
  {
    hide ReachableWithin;
    s := JoinUntilItsTask(bad, id);
    s := After(bad, s, Claim(0));
    s := After(bad, s, CheckStop(0));
    s := After(bad, s, Begin(0));
  }

  /** A failed calculation leaves its waiters waiting: they are answered only by a later successful one. */
  lemma FailureStrandsAJoin(bad: iset<CentroidId>, id: CentroidId) returns (s: State)
    requires id in bad
    ensures ReachableWithin(bad, s) && Quiescent(s) && !s.stopping && s.fired == []
    ensures s.callbacks == 1 && s.asked == [id]
  {
    hide ReachableWithin;
    s := JoinUntilItsRun(bad, id);
    s := After(bad, s, Calculate(0, false));
    s := After(bad, s, AfterRun(0));
    s := After(bad, s, Release(0));
    s := After(bad, s, Echo(0));
    assert s.tasks == [Task(id, Done)];
    s := After(bad, s, Decrement);
  }

  // ---------------------------------------------------------------- which calculation answers a join

  /** The calculation of task `t` was still to begin. */
  predicate NotBegun(s: State, t: nat) {
    t < |s.tasks| ==> s.tasks[t].phase.Queued? || s.tasks[t].phase.Claimed? || s.tasks[t].phase.Admitted?
  }

  /** A calculation that has begun and may still answer. */
  predicate Halfway(p: Phase) {
    p.Running? || ((p.Ran? || p.Delayed? || p.Erased?) && p.ok)
  }

  /** A calculation that has begun and will not take any more callbacks. */
  predicate Spent(p: Phase) {
    p.Firing? || p.Done? || ((p.Ran? || p.Delayed? || p.Erased?) && !p.ok)
  }

  ghost predicate NobodyHalfway(s: State, id: CentroidId) {
    forall t :: 0 <= t < |s.tasks| && s.tasks[t].id == id ==> !Halfway(s.tasks[t].phase)
  }

  /** Whoever takes the callback registered now will begin its calculation after the registration. */
  ghost predicate AnsweredAfresh(s: State, id: CentroidId) {
    forall steps, s' :: IsRun(Apply(s, Register(id)), steps, s') && s.callbacks in s'.home ==>
      s'.home[s.callbacks].TakenBy? ==> NotBegun(s, s'.home[s.callbacks].task)
  }

  /**
   A join is sure to be answered by a calculation that begins after it, and so reads every change made before it, if
   and only if no calculation of its centroid is between its beginning and its taking of the callbacks.
   */
  lemma AnsweredAfreshIffNobodyHalfway(s: State, id: CentroidId)
    requires Reachable(s) && !s.stopping
    ensures AnsweredAfresh(s, id) <==> NobodyHalfway(s, id)
  {
    hide Reachable, Apply, IsRun, Inv;
    ReachableInv(s);
    RegisterStarts(s, id);
    var s1, c := Apply(s, Register(id)), s.callbacks;
    if NobodyHalfway(s, id) {
      forall steps, s' | IsRun(s1, steps, s') && c in s'.home && s'.home[c].TakenBy?
        ensures NotBegun(s, s'.home[c].task)
      {
        RunKeepsAfresh(s, id, s1, steps, s');
      }
    } else {
      var t :| 0 <= t < |s.tasks| && s.tasks[t].id == id && Halfway(s.tasks[t].phase);
      var steps, s' := HalfwayTakes(s1, t, c);
      assert !NotBegun(s, t);
    }
  }

  lemma RegisterStarts(s: State, id: CentroidId)
    requires Inv(s)
    ensures var s1, c := Apply(s, Register(id)), s.callbacks;
      && Inv(s1) && s1.tasks == s.tasks && s1.stopping == s.stopping
      && c in Waiting(s1, id) && c in s1.home && s1.home[c] == WaitingFor(id)
  {
    hide Inv;
    KeepsInv(s, Register(id));
  }

  /** What holds of the callback registered at `s` in every later state `x`, if nobody was halfway. */
  ghost predicate Afresh(s: State, id: CentroidId, x: State) {
    && |s.tasks| <= |x.tasks|
    && (forall t :: 0 <= t < |s.tasks| ==> x.tasks[t].id == s.tasks[t].id)
    && (forall t: nat :: t < |s.tasks| && s.tasks[t].id == id && !NotBegun(s, t) ==> Spent(x.tasks[t].phase))
    && s.callbacks in x.home
    && var place := x.home[s.callbacks];
       place == WaitingFor(id) || place == Fired || (place.TakenBy? && NotBegun(s, place.task))
  }

  lemma {:induction false} RunKeepsAfresh(s: State, id: CentroidId, x: State, steps: seq<Step>, s': State)
    requires Inv(x) && Afresh(s, id, x) && IsRun(x, steps, s')
    ensures Afresh(s, id, s')
    decreases |steps|
  {
    hide Inv, Afresh, Apply;
    if steps != [] {
      KeepsInv(x, steps[0]);
      StepKeepsAfresh(s, id, x, steps[0]);
      RunKeepsAfresh(s, id, Apply(x, steps[0]), steps[1..], s');
    }
  }

  lemma StepKeepsAfresh(s: State, id: CentroidId, x: State, step: Step)
    requires Inv(x) && Afresh(s, id, x) && Enabled(x, step)
    ensures Afresh(s, id, Apply(x, step))
  {
    hide Inv, Apply, Enabled;
    TaskEffect(x, step);
    SpentStays(x, step);
    var x', t := Apply(x, step), Mover(step);
    forall u: nat | u < |s.tasks| && s.tasks[u].id == id && !NotBegun(s, u) ensures Spent(x'.tasks[u].phase) {
      assert Spent(x.tasks[u].phase);
      assert u != t ==> x'.tasks[u] == x.tasks[u];
    }
    PlaceEffect(x, step, s.callbacks);
  }

  lemma SpentStays(s: State, step: Step)
    requires Enabled(s, step)
    ensures var t := Mover(step); t >= 0 && Spent(s.tasks[t].phase) ==> Spent(Apply(s, step).tasks[t].phase)
  {
    hide Rehome, Waiting;
    match step {
      case Register(_) =>
      case CallUpdate(_) =>
      case Trigger(_) =>
      case Stop =>
      case Claim(_) =>
      case CheckStop(_) =>
      case Begin(_) =>
      case Calculate(_, _) =>
      case AfterRun(_) =>
      case Release(_) =>
      case Echo(_) =>
      case Fire(_) =>
      case Decrement =>
    }
  }

  /** A callback stays where it is, fires, or is taken by a task of the centroid it waits for. */
  lemma PlaceEffect(s: State, step: Step, c: nat)
    requires Inv(s) && Enabled(s, step) && c in s.home
    ensures var s', t := Apply(s, step), Mover(step);
      && c in s'.home
      && (|| s'.home[c] == s.home[c] || s'.home[c] == Fired
          || (&& 0 <= t < |s.tasks| && s'.home[c] == TakenBy(t) && s.home[c] == WaitingFor(s.tasks[t].id)
              && !Spent(s.tasks[t].phase)))
  {
    hide Exclusive, CounterExact, Covered, Recorded;
    if step.Echo? {
      assert Holds(s.home, Waiting(s, s.tasks[step.t].id), WaitingFor(s.tasks[step.t].id));
    }
  }

  /** A calculation that is halfway takes the callback if nothing else moves. */
  lemma {:induction false} HalfwayTakes(s: State, t: nat, c: nat) returns (steps: seq<Step>, s': State)
    requires !s.stopping && At(s, t) && Halfway(s.tasks[t].phase) && c in Waiting(s, s.tasks[t].id) && c in s.home
    ensures IsRun(s, steps, s') && c in s'.home && s'.home[c] == TakenBy(t)
    decreases PhaseRank(s.tasks[t].phase)
  {
    var step := match s.tasks[t].phase
      case Running => Calculate(t, true)
      case Ran(_) => AfterRun(t)
      case Delayed(_) => Release(t)
      case _ => Echo(t);
    if step.Echo? {
      steps, s' := [step], Apply(s, step);
      assert IsRun(s', steps[1..], s');
    } else {
      var rest;
      rest, s' := HalfwayTakes(Apply(s, step), t, c);
      steps := [step] + rest;
      assert steps[1..] == rest;
    }
  }

  /** The failing side: a join that comes while a calculation is at work may be answered by that calculation. */
  lemma JoinCanGetTheRunBeforeIt(id: CentroidId) returns (s: State)
    ensures Reachable(s) && !s.stopping && !AnsweredAfresh(s, id)
  {
    hide ReachableWithin, Reachable, AnsweredAfresh;
    s := JoinUntilItsRun(iset{}, id);
    WithinIsReachable(iset{}, s);
    assert Halfway(s.tasks[0].phase);
    AnsweredAfreshIffNobodyHalfway(s, id);
  }

  // ---------------------------------------------------------------- what stop does

  /** At rest the counter is zero, so after a stop `join` returns. */
  lemma JoinReturns(s: State)
    requires Reachable(s) && Quiescent(s)
    ensures s.inProgress == 0
  {
    ReachableInv(s);
    NoneCounted(s.tasks);
  }

  lemma {:induction false} NoneCounted(tasks: seq<Task>)
    ensures CountedTasks(tasks) == 0 <==> forall t :: 0 <= t < |tasks| ==> !Counted(tasks[t].phase)
    decreases |tasks|
  {
    if tasks != [] {
      NoneCounted(tasks[..|tasks| - 1]);
    }
  }

  ghost predicate NobodyAdmitted(s: State) {
    forall t :: 0 <= t < |s.tasks| ==> !s.tasks[t].phase.Admitted?
  }

  ghost predicate NobodyRunning(s: State) {
    forall t :: 0 <= t < |s.tasks| ==> !s.tasks[t].phase.Running?
  }

  ghost predicate Stopped(s: State) {
    s.stopping && s.inProgress == 0
  }

  /** `join` has seen a zero counter after stop, and from there some run starts an updater. */
  ghost predicate MayStillStart(s: State) {
    exists steps, s' :: IsRun(s, steps, s') && !NobodyRunning(s')
  }

  /**
   When `join` returns, no updater is at work; none will start later if and only if no task has read the stop flag
   without yet having been counted.
   */
  lemma JoinIsFinalIffNobodyAdmitted(s: State)
    requires Reachable(s) && Stopped(s)
    ensures NobodyRunning(s)
    ensures MayStillStart(s) <==> !NobodyAdmitted(s)
  {
    ReachableInv(s);
    NoneCounted(s.tasks);
    if t :| 0 <= t < |s.tasks| && s.tasks[t].phase.Admitted? {
      var s' := Apply(s, Begin(t));
      assert IsRun(s', [], s');
      assert [Begin(t)][1..] == [];
      assert IsRun(s, [Begin(t)], s') && s'.tasks[t].phase.Running?;
    }
    if steps, s' :| IsRun(s, steps, s') && !NobodyRunning(s') {
      if NobodyAdmitted(s) {
        StaysStopped(s, steps, s');
      }
    }
  }

  lemma {:induction false} StaysStopped(s: State, steps: seq<Step>, s': State)
    requires s.stopping && NobodyAdmitted(s) && NobodyRunning(s) && IsRun(s, steps, s')
    ensures NobodyRunning(s')
    decreases |steps|
  {
    if steps != [] {
      StepStaysStopped(s, steps[0]);
      StaysStopped(Apply(s, steps[0]), steps[1..], s');
    }
  }

  lemma StepStaysStopped(s: State, step: Step)
    requires s.stopping && NobodyAdmitted(s) && NobodyRunning(s) && Enabled(s, step)
    ensures var s' := Apply(s, step); s'.stopping && NobodyAdmitted(s') && NobodyRunning(s')
  {
    TaskEffect(s, step);
  }

  /** The race is real: a task that has passed the check can start its updater after `join` has returned. */
  lemma JoinCanReturnEarly() returns (s: State)
    ensures Reachable(s) && Stopped(s) && MayStillStart(s)
  {
    hide ReachableWithin, Reachable;
    Start(iset{});
    s := After(iset{}, INITIAL, Trigger("c"));
    s := After(iset{}, s, Claim(0));
    s := After(iset{}, s, CheckStop(0));
    s := After(iset{}, s, Stop);
    WithinIsReachable(iset{}, s);
    assert s.tasks[0].phase.Admitted?;
    JoinIsFinalIffNobodyAdmitted(s);
  }
}
