/**
 The debouncer: a write is passed on after a delay, and further writes of the same key are held back while it is in
 flight.  Timers are ideal: each fires at the instant it is due, those due at one instant in any order, and time
 does not move past a due timer.  Code takes no time, but other threads may run between a write's look at the stop
 flag and its entry into the set of keys in flight.

 `State` is the debouncer with its pending timers and its history.  A timer is named by what set it: the flight
 (an index of `starts`) whose value it passes on or whose key it frees, or the write (an index of `writes`) it
 tries again.  The class below runs on the real fields and is proved against the functions on `State`.
 */
module Debouncer {

  type Key = nat

  /** A key and the instant at which something happened to it. */
  datatype Dated = Dated(key: Key, at: nat)

  datatype Delays = Delays(initial: nat, interval: nat, requeue: nat)

  /** The constructor's choice of delays, in milliseconds. */
  function UsualDelays(initial: nat, interval: nat): Delays {
    Delays(initial, interval, interval + 10)
  }

  /** A write that has seen the stop flag clear and is about to enter, for the first time or again. */
  datatype Entry = Entry(write: nat, again: bool)

  datatype State = State(
    delays: Delays,
    now: nat,
    inFlight: set<Key>,
    numInFlight: int,
    stopping: bool,
    stoppedAt: nat,
    starts: seq<Dated>,  // the flights begun
    writes: seq<Dated>,  // the writes made
    toCall: set<nat>,  // flights whose value is still to be passed on
    toRemove: set<nat>,  // flights whose key is still to be freed
    toRequeue: set<nat>,  // writes still to be tried again
    checking: set<nat>,  // writes being tried again, about to look at the stop flag once more
    entering: set<Entry>,
    calls: map<nat, nat>  // when each flight's value was passed on
  )

  function Initial(delays: Delays): State {
    State(delays, 0, {}, 0, false, 0, [], [], {}, {}, {}, {}, {}, map[])
  }

  // ---------------------------------------------------------------- what each operation does

  function RemoveDebounced(s: State, key: Key): State {
    if key in s.inFlight then s.(inFlight := s.inFlight - {key}, numInFlight := s.numInFlight - 1) else s
  }

  predicate MayStart(s: State, key: Key) {
    !s.stopping && key !in s.inFlight
  }

  function Started(s: State, key: Key): State {
    var flight := |s.starts|;
    s.(inFlight := s.inFlight + {key}, numInFlight := s.numInFlight + 1,
       starts := s.starts + [Dated(key, s.now)], toCall := s.toCall + {flight}, toRemove := s.toRemove + {flight})
  }

  function WriteIfNotInFlight(s: State, key: Key): State {
    if MayStart(s, key) then Started(s, key) else s
  }

  function Write(s: State, key: Key): State {
    var s1 := s.(writes := s.writes + [Dated(key, s.now)]);
    if MayStart(s, key) then Started(s1, key) else s1.(toRequeue := s.toRequeue + {|s.writes|})
  }

  function Stop(s: State): State {
    if s.stopping then s else s.(stopping := true, stoppedAt := s.now)
  }

  function FireCall(s: State, flight: nat): State {
    var s1 := s.(toCall := s.toCall - {flight});
    if s.stopping then s1 else s1.(calls := s.calls[flight := s.now])
  }

  function FireRemove(s: State, flight: nat): State
    requires flight < |s.starts|
  {
    RemoveDebounced(s.(toRemove := s.toRemove - {flight}), s.starts[flight].key)
  }

  function FireRequeue(s: State, write: nat): State
    requires write < |s.writes|
  {
    var s1, key := s.(toRequeue := s.toRequeue - {write}), s.writes[write].key;
    if s.stopping then RemoveDebounced(s1, key) else WriteIfNotInFlight(s1, key)
  }

  // ---------------------------------------------------------------- the same, thread by thread

  /** A write up to its look at the stop flag. */
  function BeginWrite(s: State, key: Key): State {
    var w, s1 := |s.writes|, s.(writes := s.writes + [Dated(key, s.now)]);
    if s.stopping then s1.(toRequeue := s.toRequeue + {w}) else s1.(entering := s.entering + {Entry(w, false)})
  }

  /** The entry itself, which does not look at the stop flag again, and the timers it sets. */
  function Enter(s: State, e: Entry): State
    requires e.write < |s.writes|
  {
    var s1, key := s.(entering := s.entering - {e}), s.writes[e.write].key;
    if key !in s.inFlight then Started(s1, key)
    else if e.again then s1
    else s1.(toRequeue := s.toRequeue + {e.write})
  }

  /** The timer of a retry up to its first look at the stop flag. */
  function BeginRetry(s: State, write: nat): State
    requires write < |s.writes|
  {
    var s1 := s.(toRequeue := s.toRequeue - {write});
    if s.stopping then RemoveDebounced(s1, s.writes[write].key) else s1.(checking := s.checking + {write})
  }

  /** The second look. */
  function Recheck(s: State, write: nat): State {
    var s1 := s.(checking := s.checking - {write});
    if s.stopping then s1 else s1.(entering := s.entering + {Entry(write, true)})
  }

  /** What one thread does without another in between is what the operation does. */
  lemma UndisturbedWrite(s: State, key: Key)
    requires forall e <- s.entering :: e.write < |s.writes|
    ensures var s1, e := BeginWrite(s, key), Entry(|s.writes|, false);
      Write(s, key) == if e in s1.entering then Enter(s1, e) else s1
  {
    var e := Entry(|s.writes|, false);
    assert s.entering + {e} - {e} == s.entering;
  }

  lemma UndisturbedRetry(s: State, write: nat)
    requires write < |s.writes| && write !in s.checking && Entry(write, true) !in s.entering
    ensures var s1, e := BeginRetry(s, write), Entry(write, true);
      FireRequeue(s, write) == if write in s1.checking then Enter(Recheck(s1, write), e) else s1
  {
    var e := Entry(write, true);
    assert s.entering + {e} - {e} == s.entering && s.checking + {write} - {write} == s.checking;
  }

  datatype Event =
    | Wrote(key: Key)
    | Entered(entry: Entry)
    | Stopped
    | Called(flight: nat)
    | Removed(flight: nat)
    | Retried(write: nat)
    | Rechecked(write: nat)
    | Passed(time: nat)

  /** Timer `i` of a kind that takes `delay` is due at the given time. */
  predicate DueAt(origins: seq<Dated>, i: nat, delay: nat, time: nat) {
    i < |origins| && origins[i].at + delay == time
  }

  predicate NoneDueBefore(pending: set<nat>, origins: seq<Dated>, delay: nat, time: nat) {
    forall i <- pending :: i < |origins| && time <= origins[i].at + delay
  }

  predicate NothingDueBefore(s: State, time: nat) {
    && NoneDueBefore(s.toCall, s.starts, s.delays.initial, time)
    && NoneDueBefore(s.toRemove, s.starts, s.delays.interval, time)
    && NoneDueBefore(s.toRequeue, s.writes, s.delays.requeue, time)
  }

  /** No thread is in the middle of a write. */
  predicate Idle(s: State) {
    s.checking == {} && s.entering == {}
  }

  predicate Enabled(s: State, e: Event) {
    match e
    case Wrote(_) => true
    case Entered(entry) => entry in s.entering && entry.write < |s.writes|
    case Stopped => true
    case Called(flight) => flight in s.toCall && DueAt(s.starts, flight, s.delays.initial, s.now)
    case Removed(flight) => flight in s.toRemove && DueAt(s.starts, flight, s.delays.interval, s.now)
    case Retried(write) => write in s.toRequeue && DueAt(s.writes, write, s.delays.requeue, s.now)
    case Rechecked(write) => write in s.checking
    case Passed(time) => s.now < time && NothingDueBefore(s, time) && Idle(s)
  }

  function Next(s: State, e: Event): State
    requires Enabled(s, e)
  {
    match e
    case Wrote(key) => BeginWrite(s, key)
    case Entered(entry) => Enter(s, entry)
    case Stopped => Stop(s)
    case Called(flight) => FireCall(s, flight)
    case Removed(flight) => FireRemove(s, flight)
    case Retried(write) => BeginRetry(s, write)
    case Rechecked(write) => Recheck(s, write)
    case Passed(time) => s.(now := time)
  }

  predicate IsRun(s: State, events: seq<Event>, s': State)
    decreases |events|
  {
    if events == [] then s' == s else Enabled(s, events[0]) && IsRun(Next(s, events[0]), events[1..], s')
  }

  ghost predicate Reachable(delays: Delays, s: State) {
    exists events :: IsRun(Initial(delays), events, s)
  }

  // ---------------------------------------------------------------- what every run keeps

  /** The counter is the size of the in-flight set, no timer is overdue, and nothing began in the future. */
  predicate Consistent(s: State) {
    && s.numInFlight == |s.inFlight|
    && NothingDueBefore(s, s.now)
    && (s.stopping ==> s.stoppedAt <= s.now)
    && EntriesInTime(s)
    && (forall i | 0 <= i < |s.starts| :: s.starts[i].at <= LastMoment(s))
  }

  /** Writes in the middle began at this instant, and none of them after a stop. */
  predicate EntriesInTime(s: State) {
    && (forall w <- s.checking :: DueAt(s.writes, w, s.delays.requeue, s.now))
    && (forall e <- s.entering :: DueAt(s.writes, e.write, if e.again then s.delays.requeue else 0, s.now))
    && (s.stopping && s.entering != {} ==> s.now == s.stoppedAt)
  }

  /** The last moment a flight could begin. */
  function LastMoment(s: State): nat {
    if s.stopping then s.stoppedAt else s.now
  }

  /** Some pending removal will free the key. */
  predicate WillBeFreed(s: State, key: Key) {
    exists i <- s.toRemove :: i < |s.starts| && s.starts[i].key == key
  }

  /** A key in flight is freed by a removal still to come. */
  predicate FlightsEnd(s: State) {
    forall key <- s.inFlight :: WillBeFreed(s, key)
  }

  /** A removal still to come is of a key in flight, and its flight is the key's last; the others lasted `interval`. */
  predicate FlightsTimed(s: State) {
    && (forall i <- s.toRemove :: i < |s.starts| && s.starts[i].key in s.inFlight)
    && (forall i <- s.toRemove, j | 0 <= j < |s.starts| && s.starts[j].key == s.starts[i].key :: j <= i)
    && (forall i | 0 <= i < |s.starts| && i !in s.toRemove :: s.starts[i].at + s.delays.interval <= s.now)
  }

  /** Flights of one key begin at least `interval` apart. */
  predicate StartsSpaced(starts: seq<Dated>, interval: nat) {
    forall i, j :: 0 <= i < j < |starts| && starts[i].key == starts[j].key ==> starts[i].at + interval <= starts[j].at
  }

  /** A flight whose value has been passed on began `interval` after the ones of its key before it. */
  predicate CallsApart(s: State) {
    forall i: nat, j <- s.calls :: i < j < |s.starts| && s.starts[i].key == s.starts[j].key ==>
      s.starts[i].at + s.delays.interval <= s.starts[j].at
  }

  /** A flight's value is passed on `initial` after it begins. */
  predicate CallsOnTime(s: State) {
    forall i <- s.calls :: DueAt(s.starts, i, s.delays.initial, s.calls[i])
  }

  /** Every flight's value has been passed on or is still to be. */
  predicate CallsMatchStarts(s: State) {
    forall i | 0 <= i < |s.starts| :: i in s.toCall <==> i !in s.calls
  }

  /** The flight passes on its value no earlier than the write and no later than `requeue + initial` after it. */
  predicate Serves(d: Delays, start: Dated, w: Dated) {
    start.key == w.key && w.at <= start.at + d.initial && start.at <= w.at + d.requeue
  }

  predicate Served(s: State, w: Dated) {
    exists i | 0 <= i < |s.starts| :: Serves(s.delays, s.starts[i], w)
  }

  predicate WritesServed(s: State) {
    forall i | 0 <= i < |s.writes| :: Underway(s, i) || Served(s, s.writes[i])
  }

  /** A write that will still try to start a flight. */
  predicate Underway(s: State, write: nat) {
    write in s.toRequeue || write in s.checking || Entry(write, false) in s.entering || Entry(write, true) in s.entering
  }

  /** The delays for which no write can get lost. */
  predicate Sufficient(d: Delays) {
    d.interval <= d.requeue + d.initial
  }

  ghost predicate Inv(s: State) {
    && Consistent(s)
    && FlightsEnd(s)
    && CallsOnTime(s)
    && CallsApart(s)
    && (!s.stopping ==> FlightsTimed(s) && StartsSpaced(s.starts, s.delays.interval) && CallsMatchStarts(s))
    && (!s.stopping && Sufficient(s.delays) ==> WritesServed(s))
  }

  // ---------------------------------------------------------------- every event keeps it

  lemma FreeingIsConsistent(s: State, key: Key)
    requires Consistent(s)
    ensures Consistent(RemoveDebounced(s, key))
  {}

  lemma StartIsConsistent(s: State, key: Key)
    requires Consistent(s) && key !in s.inFlight && LastMoment(s) == s.now
    ensures Consistent(Started(s, key))
  {
    var s' := Started(s, key);
    assert NoneDueBefore(s'.toCall, s'.starts, s.delays.initial, s.now);
    assert NoneDueBefore(s'.toRemove, s'.starts, s.delays.interval, s.now);
  }

  lemma KeepsConsistent(s: State, e: Event)
    requires Consistent(s) && Enabled(s, e)
    ensures Consistent(Next(s, e))
  {
    match e {
      case Wrote(key) => WriteIsConsistent(s, key);
      case Entered(entry) => EntryIsConsistent(s, entry);
      case Stopped =>
      case Called(_) =>
      case Removed(flight) => FreeingIsConsistent(s.(toRemove := s.toRemove - {flight}), s.starts[flight].key);
      case Retried(write) => FreeingIsConsistent(s.(toRequeue := s.toRequeue - {write}), s.writes[write].key);
      case Rechecked(_) =>
      case Passed(_) =>
    }
  }

  lemma WriteIsConsistent(s: State, key: Key)
    requires Consistent(s)
    ensures Consistent(BeginWrite(s, key))
  {
    var s1 := s.(writes := s.writes + [Dated(key, s.now)]);
    assert Consistent(s1);
  }

  lemma EntryIsConsistent(s: State, entry: Entry)
    requires Consistent(s) && Enabled(s, Entered(entry))
    ensures Consistent(Enter(s, entry))
  {
    var s1, key := s.(entering := s.entering - {entry}), s.writes[entry.write].key;
    assert Consistent(s1);
    if key !in s.inFlight {
      StartIsConsistent(s1, key);
    }
  }

  lemma KeepsFlightsEnd(s: State, e: Event)
    requires Consistent(s) && FlightsEnd(s) && Enabled(s, e)
    ensures FlightsEnd(Next(s, e))
  {
    var s' := Next(s, e);
    forall key <- s'.inFlight ensures WillBeFreed(s', key) {
      if key in s.inFlight {
        var i :| i in s.toRemove && i < |s.starts| && s.starts[i].key == key;
        assert i in s'.toRemove && s'.starts[i] == s.starts[i];
      } else {
        assert e.Entered? && |s.starts| in s'.toRemove && s'.starts[|s.starts|].key == key;
      }
    }
  }

  /** A flight begins: the one before is over, so no removal of the key was pending. */
  lemma StartIsTimed(s: State, key: Key)
    requires FlightsTimed(s) && key !in s.inFlight
    ensures FlightsTimed(Started(s, key))
  {
    var s' := Started(s, key);
    forall i <- s'.toRemove, j | 0 <= j < |s'.starts| && s'.starts[j].key == s'.starts[i].key ensures j <= i {}
  }

  lemma RemovalIsTimed(s: State, flight: nat)
    requires FlightsTimed(s) && Enabled(s, Removed(flight))
    ensures FlightsTimed(FireRemove(s, flight))
  {
    var s' := FireRemove(s, flight);
    forall i <- s'.toRemove ensures s.starts[i].key != s.starts[flight].key {
      assert s.starts[i].key == s.starts[flight].key ==> i <= flight <= i;
    }
  }

  lemma KeepsFlightsTimed(s: State, e: Event)
    requires Consistent(s) && FlightsTimed(s) && Enabled(s, e) && !Next(s, e).stopping
    ensures FlightsTimed(Next(s, e))
  {
    match e {
      case Wrote(_) =>
      case Entered(entry) =>
        var key := s.writes[entry.write].key;
        if key !in s.inFlight {
          StartIsTimed(s.(entering := s.entering - {entry}), key);
        }
      case Stopped =>
      case Called(_) =>
      case Removed(flight) => RemovalIsTimed(s, flight);
      case Retried(_) =>
      case Rechecked(_) =>
      case Passed(_) =>
    }
  }

  lemma KeepsStartsSpaced(s: State, e: Event)
    requires Enabled(s, e) && StartsSpaced(s.starts, s.delays.interval) && FlightsTimed(s)
    ensures StartsSpaced(Next(s, e).starts, s.delays.interval)
  {}

  lemma KeepsCallsApart(s: State, e: Event)
    requires Enabled(s, e) && CallsOnTime(s) && CallsApart(s)
    requires !s.stopping ==> StartsSpaced(s.starts, s.delays.interval)
    ensures CallsApart(Next(s, e))
  {}

  lemma KeepsCallsOnTime(s: State, e: Event)
    requires CallsOnTime(s) && Enabled(s, e)
    ensures CallsOnTime(Next(s, e))
  {}

  lemma KeepsCallsMatchStarts(s: State, e: Event)
    requires Consistent(s) && CallsOnTime(s) && CallsMatchStarts(s) && Enabled(s, e) && !Next(s, e).stopping
    ensures CallsMatchStarts(Next(s, e))
  {}

  lemma KeepsServed(s: State, e: Event, w: Dated)
    requires Enabled(s, e) && Served(s, w)
    ensures Served(Next(s, e), w)
  {
    var i :| 0 <= i < |s.starts| && Serves(s.delays, s.starts[i], w);
    assert Next(s, e).starts[i] == s.starts[i];
  }

  /** A write that enters is served by the flight it starts; one that was tried again, else by the one in its way. */
  lemma EntryServes(s: State, entry: Entry)
    requires Consistent(s) && FlightsEnd(s) && Sufficient(s.delays) && Enabled(s, Entered(entry))
    requires entry.again || s.writes[entry.write].key !in s.inFlight
    ensures Served(Next(s, Entered(entry)), s.writes[entry.write])
  {
    var s', w := Next(s, Entered(entry)), s.writes[entry.write];
    if w.key in s.inFlight {
      assert WillBeFreed(s, w.key);
      var i :| i in s.toRemove && i < |s.starts| && s.starts[i].key == w.key;
      assert Serves(s'.delays, s'.starts[i], w);
    } else {
      assert Serves(s'.delays, s'.starts[|s.starts|], w);
    }
  }

  lemma KeepsWritesServed(s: State, e: Event)
    requires Consistent(s) && FlightsEnd(s) && Sufficient(s.delays) && WritesServed(s)
    requires Enabled(s, e) && !Next(s, e).stopping
    ensures WritesServed(Next(s, e))
  {
    hide Consistent, FlightsEnd, Sufficient, Served;
    var s' := Next(s, e);
    forall i | 0 <= i < |s'.writes| ensures Underway(s', i) || Served(s', s'.writes[i]) {
      if i < |s.writes| {
        if !Underway(s, i) {
          KeepsServed(s, e, s.writes[i]);
        } else if e.Entered? && e.entry.write == i {
          if e.entry.again || s.writes[i].key !in s.inFlight {
            EntryServes(s, e.entry);
          }
        }
      }
    }
  }

  lemma KeepsInv(s: State, e: Event)
    requires Inv(s) && Enabled(s, e)
    ensures Inv(Next(s, e)) && Next(s, e).delays == s.delays
  {
    var s' := Next(s, e);
    assert s'.delays == s.delays && (s.stopping ==> s'.stopping);
    hide Next, Enabled, Consistent, FlightsEnd, FlightsTimed, StartsSpaced, CallsOnTime, CallsApart, CallsMatchStarts,
        WritesServed, Sufficient;
    KeepsConsistent(s, e);
    KeepsFlightsEnd(s, e);
    KeepsCallsOnTime(s, e);
    KeepsCallsApart(s, e);
    if !s'.stopping {
      KeepsStartsSpaced(s, e);
      KeepsFlightsTimed(s, e);
      KeepsCallsMatchStarts(s, e);
      if Sufficient(s.delays) {
        KeepsWritesServed(s, e);
      }
    }
  }

  lemma {:induction false} RunKeepsInv(s: State, events: seq<Event>, s': State)
    requires Inv(s) && IsRun(s, events, s')
    ensures Inv(s') && s'.delays == s.delays
    decreases |events|
  {
    hide Inv, Next, Enabled;
    if events != [] {
      KeepsInv(s, events[0]);
      RunKeepsInv(Next(s, events[0]), events[1..], s');
    }
  }

  lemma ReachableInv(d: Delays, s: State)
    requires Reachable(d, s)
    ensures Inv(s) && s.delays == d
  {
    var events :| IsRun(Initial(d), events, s);
    assert Inv(Initial(d));
    RunKeepsInv(Initial(d), events, s);
  }

  // ---------------------------------------------------------------- what follows

  /** Some flight of the written key passed its value on at or after the write, and within `requeue + initial` of it. */
  predicate Answered(s: State, w: Dated) {
    exists i <- s.calls :: i < |s.starts| && s.starts[i].key == w.key
        && w.at <= s.calls[i] <= w.at + s.delays.requeue + s.delays.initial
  }

  /** Every write that long ago has been answered. */
  predicate AnswersInTime(s: State) {
    forall w <- s.writes :: s.now > w.at + s.delays.requeue + s.delays.initial ==> Answered(s, w)
  }

  lemma SufficientDelaysAnswer(d: Delays, s: State)
    requires Reachable(d, s) && !s.stopping && Sufficient(d)
    ensures AnswersInTime(s)
  {
    ReachableInv(d, s);
    forall w <- s.writes | s.now > w.at + s.delays.requeue + s.delays.initial ensures Answered(s, w) {
      var n :| 0 <= n < |s.writes| && s.writes[n] == w;
      assert !Underway(s, n);
      var i :| 0 <= i < |s.starts| && Serves(s.delays, s.starts[i], w);
      assert i !in s.toCall;
      assert i in s.calls && s.calls[i] == s.starts[i].at + s.delays.initial;
    }
  }

  /** The calls for one key are at least `interval` apart, and each comes exactly `initial` after its flight began. */
  lemma CallsSpaced(d: Delays, s: State, i: nat, j: nat)
    requires Reachable(d, s) && i < j
    requires i in s.calls && j in s.calls
    ensures j < |s.starts| && s.calls[i] == s.starts[i].at + d.initial && s.calls[j] == s.starts[j].at + d.initial
    ensures s.starts[i].key == s.starts[j].key ==> s.calls[i] + d.interval <= s.calls[j]
  {
    ReachableInv(d, s);
  }

  /** The polling `join` reads the size of the in-flight set, and once `interval` has passed after a stop it reads 0. */
  lemma JoinReturns(d: Delays, s: State)
    requires Reachable(d, s)
    ensures s.numInFlight == |s.inFlight|
    ensures s.stopping && s.now > s.stoppedAt + d.interval ==> s.inFlight == {} && s.numInFlight == 0
  {
    ReachableInv(d, s);
  }

  /** Some later flight begins. */
  ghost predicate MayStillFly(s: State) {
    exists events, s' :: IsRun(s, events, s') && s'.inFlight != {}
  }

  /**
   `join` returns once the counter is zero.  After a stop, a flight can still begin if and only if some write has seen
   the stop flag clear and has not entered yet; and whatever begins then, its value is not passed on.
   */
  lemma JoinIsFinalIffNobodyEnters(d: Delays, s: State)
    requires Reachable(d, s) && s.stopping && s.numInFlight == 0
    ensures s.inFlight == {}
    ensures MayStillFly(s) <==> s.entering != {}
  {
    ReachableInv(d, s);
    hide Reachable;
    if e :| e in s.entering {
      var s' := Next(s, Entered(e));
      assert IsRun(s', [], s');
      assert [Entered(e)][1..] == [];
      assert IsRun(s, [Entered(e)], s') && s.writes[e.write].key in s'.inFlight;
    }
    if events, s' :| IsRun(s, events, s') && s'.inFlight != {} {
      if s.entering == {} {
        StaysEmpty(s, events, s');
      }
    }
  }

  lemma {:induction false} StaysEmpty(s: State, events: seq<Event>, s': State)
    requires IsRun(s, events, s') && s.stopping && s.entering == {} && s.inFlight == {}
    ensures s'.inFlight == {}
    decreases |events|
  {
    if events != [] {
      StaysEmpty(Next(s, events[0]), events[1..], s');
    }
  }

  /** After a stop no value is passed on. */
  lemma {:induction false} NoCallsAfterStop(s: State, events: seq<Event>, s': State)
    requires IsRun(s, events, s') && s.stopping
    ensures s'.stopping && s'.calls == s.calls
    decreases |events|
  {
    if events != [] {
      assert Next(s, events[0]).stopping && Next(s, events[0]).calls == s.calls;
      NoCallsAfterStop(Next(s, events[0]), events[1..], s');
    }
  }

  // ---------------------------------------------------------------- delays that lose a write

  lemma {:induction false} RunExtends(s: State, events: seq<Event>, s': State, e: Event)
    requires IsRun(s, events, s') && Enabled(s', e)
    ensures IsRun(s, events + [e], Next(s', e))
    decreases |events|
  {
    hide Next, Enabled;
    if events == [] {
      assert (events + [e])[1..] == [];
    } else {
      RunExtends(Next(s, events[0]), events[1..], s', e);
      assert (events + [e])[1..] == events[1..] + [e];
    }
  }

  lemma Extend(d: Delays, s: State, e: Event)
    requires Reachable(d, s) && Enabled(s, e)
    ensures Reachable(d, Next(s, e))
  {
    var events :| IsRun(Initial(d), events, s);
    RunExtends(Initial(d), events, s, e);
  }

  /** Letting time pass up to `time`. */
  lemma Wait(d: Delays, s: State, time: nat) returns (s': State)
    requires Reachable(d, s) && s.now <= time && NothingDueBefore(s, time) && Idle(s)
    ensures Reachable(d, s') && s' == s.(now := time)
  {
    if s.now == time {
      return s;
    }
    Extend(d, s, Passed(time));
    return Next(s, Passed(time));
  }

  /** A write on a fresh debouncer that enters undisturbed. */
  lemma StartedAtOnce(d: Delays, key: Key) returns (s: State)
    ensures Reachable(d, s)
    ensures s == State(d, 0, {key}, 1, false, 0, [Dated(key, 0)], [Dated(key, 0)], {0}, {0}, {}, {}, {}, map[])
  {
    s := Begun(d, key);
    hide Reachable;
    Extend(d, s, Entered(Entry(0, false)));
    s := Next(s, Entered(Entry(0, false)));
  }

  /** A write on a fresh debouncer up to its look at the stop flag. */
  lemma Begun(d: Delays, key: Key) returns (s: State)
    ensures Reachable(d, s)
    ensures s == Initial(d).(writes := [Dated(key, 0)], entering := {Entry(0, false)})
  {
    s := Initial(d);
    assert Reachable(d, s) by {
      assert IsRun(s, [], s);
    }
    Extend(d, s, Wrote(key));
    s := Next(s, Wrote(key));
  }

  /** One flight, begun at 0, whose value has just been passed on. */
  lemma FirstWrite(d: Delays) returns (s: State)
    requires d.initial <= d.interval
    ensures Reachable(d, s)
    ensures s == State(d, d.initial, {0}, 1, false, 0, [Dated(0, 0)], [Dated(0, 0)], {}, {0}, {}, {}, {},
                       map[0 := d.initial])
  {
    s := StartedAtOnce(d, 0);
    s := Wait(d, s, d.initial);
    assert s == State(d, d.initial, {0}, 1, false, 0, [Dated(0, 0)], [Dated(0, 0)], {0}, {0}, {}, {}, {}, map[]);
    hide Reachable;
    Extend(d, s, Called(0));
    s := Next(s, Called(0));
  }

  /** The same flight, and a second write made one instant later. */
  lemma SecondWrite(d: Delays) returns (s: State)
    requires !Sufficient(d)
    ensures Reachable(d, s)
    ensures s == State(d, d.initial + 1, {0}, 1, false, 0, [Dated(0, 0)], [Dated(0, 0), Dated(0, d.initial + 1)],
                       {}, {0}, {1}, {}, {}, map[0 := d.initial])
  {
    s := FirstWrite(d);
    hide Reachable;
    s := Wait(d, s, d.initial + 1);
    Extend(d, s, Wrote(0));
    s := Next(s, Wrote(0));
    Extend(d, s, Entered(Entry(1, false)));
    s := Next(s, Entered(Entry(1, false)));
  }

  /**
   With an interval over `requeue + initial` a write can be lost: made just after the value of the flight was passed
   on, and tried again while that flight still holds its key.  From then on no timer is pending.
   */
  lemma WriteLost(d: Delays) returns (s: State)
    requires !Sufficient(d)
    ensures Reachable(d, s) && !s.stopping && !AnswersInTime(s)
    ensures s.toCall == s.toRemove == s.toRequeue == {} && Idle(s)
  {
    var s0 := SecondWrite(d);
    hide Reachable;
    var s1 := Wait(d, s0, d.initial + 1 + d.requeue);
    Extend(d, s1, Retried(1));
    s1 := Next(s1, Retried(1));
    Extend(d, s1, Rechecked(1));
    s1 := Next(s1, Rechecked(1));
    Extend(d, s1, Entered(Entry(1, true)));
    var s2 := Wait(d, Next(s1, Entered(Entry(1, true))), d.interval);
    Extend(d, s2, Removed(0));
    s := Next(s2, Removed(0));
    s := Wait(d, s, d.interval + d.initial + 1 + d.requeue + d.initial + 1);
    assert s.writes[1] in s.writes && !Answered(s, s.writes[1]);
  }

  /** Every run without a stop answers each write in time exactly if the interval is at most `requeue + initial`. */
  lemma AnswersInTimeIffSufficient(d: Delays)
    ensures (forall s | Reachable(d, s) && !s.stopping :: AnswersInTime(s)) <==> d.interval <= d.requeue + d.initial
  {
    if Sufficient(d) {
      forall s | Reachable(d, s) && !s.stopping ensures AnswersInTime(s) {
        SufficientDelaysAnswer(d, s);
      }
    } else {
      var s := WriteLost(d);
    }
  }

  /** The constructor's delays lose no write. */
  lemma UsualDelaysAnswer(initial: nat, interval: nat, s: State, w: Dated)
    requires Reachable(UsualDelays(initial, interval), s) && !s.stopping && w in s.writes
    requires s.now > w.at + interval + 10 + initial
    ensures exists i <- s.calls ::
              i < |s.starts| && s.starts[i].key == w.key && w.at <= s.calls[i] <= w.at + interval + 10 + initial
  {
    var d := UsualDelays(initial, interval);
    ReachableInv(d, s);
    SufficientDelaysAnswer(d, s);
    assert Answered(s, w);
  }

  /** The race is real: a write between its look and its entry, then stop, and `join` returns before the flight. */
  lemma JoinCanReturnEarly(d: Delays, key: Key) returns (s: State)
    ensures Reachable(d, s) && s.stopping && s.numInFlight == 0 && MayStillFly(s)
  {
    s := Begun(d, key);
    hide Reachable;
    Extend(d, s, Stopped);
    s := Next(s, Stopped);
    assert Entry(0, false) in s.entering;
    JoinIsFinalIffNobodyEnters(d, s);
  }

  /** With the constructor's delays, a call comes `initial` after its flight began, and calls for one key are apart. */
  lemma UsualCallsSpaced(initial: nat, interval: nat, s: State, i: nat, j: nat)
    requires Reachable(UsualDelays(initial, interval), s) && i < j && i in s.calls && j in s.calls
    ensures j < |s.starts| && s.calls[i] == s.starts[i].at + initial && s.calls[j] == s.starts[j].at + initial
    ensures s.starts[i].key == s.starts[j].key ==> s.calls[i] + interval <= s.calls[j]
  {
    CallsSpaced(UsualDelays(initial, interval), s, i, j);
  }

  /** Without stop, a flight holds its key for exactly the interval and passes its value on exactly after `initial`. */
  lemma UsualFlightLasts(initial: nat, interval: nat, s: State, i: nat)
    requires Reachable(UsualDelays(initial, interval), s) && !s.stopping && i < |s.starts|
    ensures s.now < s.starts[i].at + interval ==> s.starts[i].key in s.inFlight
    ensures i in s.toRemove ==> s.now <= s.starts[i].at + interval
    ensures Enabled(s, Removed(i)) <==> i in s.toRemove && s.now == s.starts[i].at + interval
    ensures if i in s.calls then s.calls[i] == s.starts[i].at + initial else s.now <= s.starts[i].at + initial
    ensures forall k <- s.inFlight ::
              exists j :: 0 <= j < |s.starts| && s.starts[j].key == k && s.now <= s.starts[j].at + interval
  {
    ReachableInv(UsualDelays(initial, interval), s);
    forall k <- s.inFlight
      ensures exists j :: 0 <= j < |s.starts| && s.starts[j].key == k && s.now <= s.starts[j].at + interval
    {
      assert WillBeFreed(s, k);
    }
  }

  /** A write whose key is in flight begins nothing and is tried again exactly `interval + 10` after it was made. */
  lemma UsualWriteHeldBack(initial: nat, interval: nat, s: State, w: nat)
    requires Reachable(UsualDelays(initial, interval), s) && Enabled(s, Entered(Entry(w, false)))
    ensures var s' := Next(s, Entered(Entry(w, false)));
      if s.writes[w].key in s.inFlight then s'.starts == s.starts && w in s'.toRequeue
      else s'.starts == s.starts + [Dated(s.writes[w].key, s.writes[w].at)] && s'.toRequeue == s.toRequeue
  {
    ReachableInv(UsualDelays(initial, interval), s);
  }

  lemma UsualRetryDue(initial: nat, interval: nat, s: State, w: nat)
    requires Reachable(UsualDelays(initial, interval), s) && w in s.toRequeue
    ensures w < |s.writes| && s.now <= s.writes[w].at + interval + 10
    ensures Enabled(s, Retried(w)) <==> s.now == s.writes[w].at + interval + 10
  {
    ReachableInv(UsualDelays(initial, interval), s);
  }

  /** After a stop a write sets a retry, and a retry frees its key. */
  lemma StoppedWritesOnlyFree(s: State, key: Key, w: nat)
    requires s.stopping
    ensures var s' := Next(s, Wrote(key));
      s'.starts == s.starts && s'.inFlight == s.inFlight && |s.writes| in s'.toRequeue
    ensures Enabled(s, Retried(w)) ==>
              var s' := Next(s, Retried(w));
              s'.starts == s.starts && s'.inFlight == s.inFlight - {s.writes[w].key} && w !in s'.toRequeue
  {}

  // ---------------------------------------------------------------- the class

  /**
   The debouncer's own fields, as one thread moves them undisturbed.  The clock, the timers it has set and the history
   are ghost.
   */
  class Debouncer {
    const delays: Delays
    var inFlight: set<Key>
    var numInFlight: int
    var stopping: bool
    ghost var rest: State

    ghost function Value(): State
      reads this
    {
      rest.(delays := delays, inFlight := inFlight, numInFlight := numInFlight, stopping := stopping)
    }

    constructor (initial: nat, interval: nat)
      ensures Value() == Initial(UsualDelays(initial, interval))
    {
      delays := UsualDelays(initial, interval);
      inFlight, numInFlight, stopping := {}, 0, false;
      rest := Initial(UsualDelays(initial, interval));
    }

    method StopWriting()
      modifies this
      ensures Value() == Stop(old(Value()))
    {
      if !stopping {
        rest := rest.(stoppedAt := rest.now);
      }
      stopping := true;
    }

    method RemoveFromFlight(key: Key)
      modifies this
      ensures Value() == RemoveDebounced(old(Value()), key)
    {
      if key in inFlight {
        inFlight := inFlight - {key};
        numInFlight := numInFlight - 1;
      }
    }

    method TryWrite(key: Key) returns (wrote: bool)
      modifies this
      ensures wrote <==> MayStart(old(Value()), key)
      ensures Value() == WriteIfNotInFlight(old(Value()), key)
    {
      if stopping {
        return false;
      }
      wrote := false;
      if key !in inFlight {
        wrote := true;
        inFlight := inFlight + {key};
        numInFlight := numInFlight + 1;
      }
      if wrote {
        ghost var flight := |rest.starts|;
        rest := rest.(
          starts := rest.starts + [Dated(key, rest.now)],
          toCall := rest.toCall + {flight},
          toRemove := rest.toRemove + {flight});
      }
    }

    method WriteKey(key: Key)
      modifies this
      ensures Value() == Write(old(Value()), key)
    {
      ghost var write := |rest.writes|;
      rest := rest.(writes := rest.writes + [Dated(key, rest.now)]);
      var wrote := TryWrite(key);
      if !wrote {
        rest := rest.(toRequeue := rest.toRequeue + {write});
      }
    }

    /** The timer set for a flight's value: passes it on unless stopping. */
    method OnCall(ghost flight: nat) returns (calls: bool)
      requires flight < |rest.starts|
      modifies this
      ensures calls <==> !stopping
      ensures Value() == FireCall(old(Value()), flight)
    {
      rest := rest.(toCall := rest.toCall - {flight});
      calls := !stopping;
      if calls {
        rest := rest.(calls := rest.calls[flight := rest.now]);
      }
    }

    /** The timer that ends a flight. */
    method OnRemove(ghost flight: nat, key: Key)
      requires flight < |rest.starts| && rest.starts[flight].key == key
      modifies this
      ensures Value() == FireRemove(old(Value()), flight)
    {
      rest := rest.(toRemove := rest.toRemove - {flight});
      RemoveFromFlight(key);
    }

    /** The timer that tries a write again. */
    method OnRequeue(ghost write: nat, key: Key)
      requires write < |rest.writes| && rest.writes[write].key == key
      modifies this
      ensures Value() == FireRequeue(old(Value()), write)
    {
      rest := rest.(toRequeue := rest.toRequeue - {write});
      if stopping {
        RemoveFromFlight(key);
      } else {
        var wrote := TryWrite(key);
      }
    }

    /** What `join` polls: it returns once nothing is in flight. */
    method ReadyToJoin() returns (ready: bool)
      requires Consistent(Value())
      ensures ready <==> inFlight == {}
    {
      ready := numInFlight == 0;
    }
  }
}
