/**
 When a centroid counts as up to date.  A membership change is three steps: the change, the reading of the clock, and
 the landing of that reading as the stamp of change.  A run of the updater is many: it reads the clock, reads the
 membership, saves the centroid, and later its starting time lands as well.  On its way it may ask for the removal of
 members, which nobody stamps.  No writer awaits the landing of its stamp, nor the run its removals.  The machine
 below interleaves these steps for one centroid that is never deleted.

 The verdict is sound when no two readings of the clock agree, the stamps of change land in their order, and no run
 asks for the removal of a member.  The server's clock counts seconds, its writes go through a pool of threads, and
 its runs aim some removals at the wrong document: each hypothesis is shown to be needed.
 */
module Freshness {
  import opened Wrappers

  type Document = nat

  datatype Verdict = UpToDate(value: bool) | CentroidDoesNotExist

  /**
   The decision on the two stored stamps: without a change the centroid is up to date, with a change only if a run
   is known that began no earlier.
   */
  function Decide(lastCalculated: Option<nat>, lastChanged: Option<nat>, exists_: bool): (v: Verdict)
    ensures v == CentroidDoesNotExist <==> lastCalculated.None? && lastChanged.None? && !exists_
    ensures v == UpToDate(true) <==>
      if lastChanged.None? then lastCalculated.Some? || exists_
      else lastCalculated.Some? && lastChanged.value <= lastCalculated.value
  {
    if lastChanged.None? && lastCalculated.None? then
      if exists_ then UpToDate(true) else CentroidDoesNotExist
    else if lastChanged.None? then
      UpToDate(true)
    else if lastCalculated.None? then
      UpToDate(false)
    else
      UpToDate(!(lastChanged.value > lastCalculated.value))
  }

  /** A run of the updater: the clock at its beginning, and the membership each of its reads saw. */
  datatype Run = Run(start: nat, seen: seq<set<Document>>)

  datatype State = State(
    clock: nat,  // the last reading
    members: set<Document>,
    unstamped: nat,  // changes made for which the clock is still to be read
    stamping: multiset<nat>,  // stamps of change on their way
    lastChanged: Option<nat>,
    running: Option<Run>,
    stored: Option<Run>,  // the run that made the stored centroid; none before the centroid is created
    landing: set<nat>,  // run stamps on their way
    lastCalculated: Option<nat>,
    asked: set<Document>  // whose removal runs have asked for
  )

  const INITIAL := State(0, {}, 0, multiset{}, None, None, None, {}, None, {})

  datatype Event =
    | Created
    | Added(document: Document)
    | Removed(document: Document)
    | Stamped(reading: nat)
    | ChangeLanded(stamp: nat)
    | Started(reading: nat)
    | Read
    | Asked(document: Document)
    | Dropped(document: Document)
    | Saved
    | Aborted
    | Landed(start: nat)

  /**
   Whether no two readings of the clock agree, whether the stamps of change land in order, and whether runs ask for no
   removal but of documents that do not exist, which does nothing: see `CentroidUpdater.RunsAimedIff`.
   */
  datatype Setting = Setting(strict: bool, ordered: bool, aimed: bool)

  const SOUND := Setting(true, true, true)

  /** Clock readings never go back; on a strict clock no two of them agree. */
  predicate Reads(setting: Setting, s: State, reading: nat) {
    if setting.strict then s.clock < reading else s.clock <= reading
  }

  ghost predicate Enabled(setting: Setting, s: State, e: Event) {
    match e
    case Created => s.stored.None?
    case Added(d) => s.stored.Some? && d !in s.members
    case Removed(d) => s.stored.Some? && d in s.members
    case Stamped(reading) => s.unstamped > 0 && Reads(setting, s, reading)
    case ChangeLanded(stamp) => stamp in s.stamping && (setting.ordered ==> forall t <- s.stamping :: stamp <= t)
    case Started(reading) => s.stored.Some? && s.running.None? && Reads(setting, s, reading)
    case Read => s.running.Some?
    case Asked(d) => !setting.aimed && s.running.Some? && exists r <- s.running.value.seen :: d in r
    case Dropped(d) => d in s.asked
    case Saved => s.running.Some? && s.running.value.seen != []
    case Aborted => s.running.Some?
    case Landed(start) => start in s.landing
  }

  ghost function Next(setting: Setting, s: State, e: Event): State
    requires Enabled(setting, s, e)
  {
    match e
    case Created => s.(stored := Some(Run(s.clock, [s.members])))
    case Added(d) => s.(members := s.members + {d}, unstamped := s.unstamped + 1)
    case Removed(d) => s.(members := s.members - {d}, unstamped := s.unstamped + 1)
    case Stamped(reading) =>
      s.(clock := reading, unstamped := s.unstamped - 1, stamping := s.stamping + multiset{reading})
    case ChangeLanded(stamp) => s.(stamping := s.stamping - multiset{stamp}, lastChanged := Some(stamp))
    case Started(reading) => s.(clock := reading, running := Some(Run(reading, [])))
    case Read => s.(running := Some(s.running.value.(seen := s.running.value.seen + [s.members])))
    case Asked(d) => s.(asked := s.asked + {d})
    case Dropped(d) => s.(asked := s.asked - {d}, members := s.members - {d})
    case Saved => s.(stored := s.running, running := None, landing := s.landing + {s.running.value.start})
    case Aborted => s.(running := None)
    case Landed(start) => s.(landing := s.landing - {start}, lastCalculated := Some(start))
  }

  ghost predicate IsRun(setting: Setting, s: State, events: seq<Event>, s': State)
    decreases |events|
  {
    if events == [] then s' == s
    else Enabled(setting, s, events[0]) && IsRun(setting, Next(setting, s, events[0]), events[1..], s')
  }

  ghost predicate Reachable(setting: Setting, s: State) {
    exists events :: IsRun(setting, INITIAL, events, s)
  }

  // ---------------------------------------------------------------- what every run keeps

  /** The run saw only the membership `members`. */
  predicate Saw(run: Run, members: set<Document>) {
    forall r <- run.seen :: r == members
  }

  /** The stored centroid was made by a run all of whose reads saw the current membership. */
  predicate Fresh(s: State) {
    s.stored.Some? && s.stored.value.seen != [] && Saw(s.stored.value, s.members)
  }

  /** Every change made has been stamped. */
  predicate Settled(s: State) {
    s.unstamped == 0 && s.stamping == multiset{}
  }

  predicate BeganBefore(setting: Setting, run: Run, stamp: nat) {
    if setting.strict then run.start < stamp else run.start <= stamp
  }

  /**
   A run that missed a change began before the latest change stamp, unless that is still to come; at the least, there
   has been a change.
   */
  ghost predicate Noticed(setting: Setting, s: State, run: Run) {
    || Saw(run, s.members)
    || if setting.aimed then
         || s.unstamped > 0
         || (exists stamp <- s.stamping :: BeganBefore(setting, run, stamp))
         || (s.lastChanged.Some? && (setting.ordered ==> BeganBefore(setting, run, s.lastChanged.value)))
       else
         !Settled(s) || s.lastChanged.Some?
  }

  /** Without a change there are no members, and runs that aim well ask for nothing. */
  predicate Changes(setting: Setting, s: State) {
    && (Settled(s) && s.lastChanged.None? ==> s.members == {})
    && (setting.aimed ==> s.asked == {})
  }

  /** No stamp is ahead of the clock, and in order none on its way is behind the one that has landed. */
  ghost predicate ChangeStamps(setting: Setting, s: State) {
    && (forall stamp <- s.stamping :: stamp <= s.clock)
    && (s.lastChanged.Some? ==> s.lastChanged.value <= s.clock)
    && (setting.ordered && s.lastChanged.Some? ==> forall stamp <- s.stamping :: s.lastChanged.value <= stamp)
  }

  /** Stamps of runs are those of the stored run or of earlier ones. */
  predicate RunStamps(s: State) {
    && (s.stored.None? ==>
          && s.landing == {} && s.lastCalculated.None? && s.running.None?
          && Settled(s) && s.lastChanged.None?)
    && (s.stored.Some? ==>
          && s.stored.value.start <= s.clock && s.stored.value.seen != []
          && (forall t <- s.landing :: t <= s.stored.value.start)
          && (s.lastCalculated.Some? ==> s.lastCalculated.value <= s.stored.value.start)
          && (s.running.Some? ==> s.stored.value.start <= s.running.value.start <= s.clock))
  }

  ghost predicate Inv(setting: Setting, s: State) {
    && Changes(setting, s) && ChangeStamps(setting, s) && RunStamps(s)
    && (s.stored.Some? ==> Noticed(setting, s, s.stored.value))
    && (s.running.Some? ==> Noticed(setting, s, s.running.value))
  }

  lemma KeepsNoticed(setting: Setting, s: State, e: Event, run: Run)
    requires Enabled(setting, s, e) && Changes(setting, s) && ChangeStamps(setting, s)
    requires Noticed(setting, s, run) && run.start <= s.clock
    ensures Noticed(setting, Next(setting, s, e), run)
  {
    if e.Stamped? {
      assert e.reading in Next(setting, s, e).stamping;
    } else if e.ChangeLanded? {
      LandingKeepsNoticed(setting, s, e.stamp, run);
    }
  }

  lemma LandingKeepsNoticed(setting: Setting, s: State, stamp: nat, run: Run)
    requires Enabled(setting, s, ChangeLanded(stamp)) && ChangeStamps(setting, s) && Noticed(setting, s, run)
    ensures Noticed(setting, Next(setting, s, ChangeLanded(stamp)), run)
  {
    hide Saw;
    assert forall t <- s.stamping :: t == stamp || t in Next(setting, s, ChangeLanded(stamp)).stamping;
  }

  lemma KeepsStamps(setting: Setting, s: State, e: Event)
    requires Enabled(setting, s, e) && Changes(setting, s) && ChangeStamps(setting, s) && RunStamps(s)
    ensures Changes(setting, Next(setting, s, e))
    ensures ChangeStamps(setting, Next(setting, s, e)) && RunStamps(Next(setting, s, e))
    ensures s.stored.Some? ==>
              Next(setting, s, e).stored.Some? && s.stored.value.start <= Next(setting, s, e).stored.value.start
  {
    if e.Stamped? {
      assert e.reading in Next(setting, s, e).stamping;
    }
  }

  lemma KeepsInv(setting: Setting, s: State, e: Event)
    requires Enabled(setting, s, e) && Inv(setting, s)
    ensures Inv(setting, Next(setting, s, e))
  {
    KeepsStamps(setting, s, e);
    if s.stored.Some? {
      KeepsNoticed(setting, s, e, s.stored.value);
    }
    if s.running.Some? {
      KeepsNoticed(setting, s, e, s.running.value);
    }
  }

  lemma {:induction false} RunKeepsInv(setting: Setting, s: State, events: seq<Event>, s': State)
    requires Inv(setting, s) && IsRun(setting, s, events, s')
    ensures Inv(setting, s')
    ensures s.stored.Some? ==> s'.stored.Some? && s.stored.value.start <= s'.stored.value.start
    decreases |events|
  {
    if events != [] {
      KeepsInv(setting, s, events[0]);
      KeepsStamps(setting, s, events[0]);
      RunKeepsInv(setting, Next(setting, s, events[0]), events[1..], s');
    }
  }

  lemma ReachableInv(setting: Setting, s: State)
    requires Reachable(setting, s)
    ensures Inv(setting, s)
  {
    var events :| IsRun(setting, INITIAL, events, s);
    RunKeepsInv(setting, INITIAL, events, s);
  }

  // ---------------------------------------------------------------- the verdict

  function IsUpToDate(s: State): Verdict {
    Decide(s.lastCalculated, s.lastChanged, s.stored.Some?)
  }

  /**
   On a strict clock, with stamps in order and runs that aim well, a true verdict means a fresh centroid, provided
   every change is stamped; and this even if the run stamp was read at an earlier moment than the change stamp.
   */
  lemma VerdictSound(earlier: State, events: seq<Event>, s: State)
    requires Reachable(SOUND, earlier) && IsRun(SOUND, earlier, events, s)
    requires Settled(s) && s.stored.Some?
    requires Decide(earlier.lastCalculated, s.lastChanged, true) == UpToDate(true)
    ensures Fresh(s)
  {
    ReachableInv(SOUND, earlier);
    RunKeepsInv(SOUND, earlier, events, s);
  }

  /** A centroid that is not fresh, with every change stamped, gets the verdict false. */
  lemma StaleIsNoticed(s: State)
    requires Reachable(SOUND, s) && Settled(s) && s.stored.Some? && !Fresh(s)
    ensures IsUpToDate(s) == UpToDate(false)
  {
    if IsUpToDate(s) == UpToDate(true) {
      VerdictSound(s, [], s);
    }
  }

  /** From any state with no run in progress and every change stamped, one run makes the verdict true. */
  lemma RunRefreshes(s: State, reading: nat) returns (s': State)
    requires Reachable(SOUND, s) && s.stored.Some? && s.running.None? && Settled(s) && s.clock < reading
    ensures IsRun(SOUND, s, [Started(reading), Read, Saved, Landed(reading)], s')
    ensures IsUpToDate(s') == UpToDate(true) && Fresh(s') && s'.members == s.members
  {
    hide Reachable;
    ReachableInv(SOUND, s);
    var events: seq<Event> := [];
    assert IsRun(SOUND, s, events, s);
    hide IsRun;
    s' := s;
    events, s' := Further(SOUND, s, events, s', Started(reading));
    events, s' := Further(SOUND, s, events, s', Read);
    events, s' := Further(SOUND, s, events, s', Saved);
    events, s' := Further(SOUND, s, events, s', Landed(reading));
    assert events == [Started(reading), Read, Saved, Landed(reading)];
  }

  lemma Further(setting: Setting, s: State, events: seq<Event>, s1: State, e: Event)
    returns (more: seq<Event>, s': State)
    requires IsRun(setting, s, events, s1) && Enabled(setting, s1, e)
    ensures more == events + [e] && s' == Next(setting, s1, e) && IsRun(setting, s, more, s')
  {
    more, s' := events + [e], Next(setting, s1, e);
    RunExtends(setting, s, events, s1, e);
  }

  // ---------------------------------------------------------------- why the three hypotheses are needed

  lemma {:induction false} RunExtends(setting: Setting, s: State, events: seq<Event>, s': State, e: Event)
    requires IsRun(setting, s, events, s') && Enabled(setting, s', e)
    ensures IsRun(setting, s, events + [e], Next(setting, s', e))
    decreases |events|
  {
    if events == [] {
      assert (events + [e])[1..] == [];
    } else {
      RunExtends(setting, Next(setting, s, events[0]), events[1..], s', e);
      assert (events + [e])[1..] == events[1..] + [e];
    }
  }

  lemma Start(setting: Setting) returns (s: State)
    ensures s == Next(setting, INITIAL, Created) && Reachable(setting, s)
  {
    assert IsRun(setting, INITIAL, [], INITIAL);
    s := After(setting, INITIAL, Created);
  }

  lemma After(setting: Setting, s: State, e: Event) returns (s': State)
    requires Reachable(setting, s) && Enabled(setting, s, e)
    ensures s' == Next(setting, s, e) && Reachable(setting, s')
  {
    s' := Next(setting, s, e);
    var events :| IsRun(setting, INITIAL, events, s);
    RunExtends(setting, INITIAL, events, s, e);
  }

  /** A run and a change within one second: the run reads the membership, then the change is made and stamped. */
  lemma MissedChange(ordered: bool, aimed: bool, second: nat) returns (s: State)
    ensures Reachable(Setting(false, ordered, aimed), s) && Settled(s) && s.stored.Some?
    ensures s.lastChanged == s.lastCalculated == Some(second)
    ensures IsUpToDate(s) == UpToDate(true) && !Fresh(s)
  {
    hide Reachable;
    var setting := Setting(false, ordered, aimed);
    s := Start(setting);
    s := After(setting, s, Started(second));
    s := After(setting, s, Read);
    s := After(setting, s, Added(0));
    s := After(setting, s, Stamped(second));
    s := After(setting, s, ChangeLanded(second));
    s := After(setting, s, Saved);
    s := After(setting, s, Landed(second));
    ghost var first := s.stored.value.seen[0];
    assert first in s.stored.value.seen && 0 in s.members && 0 !in first;
  }

  /** The stamps of two changes land the wrong way round, and the run between them seems to come after both. */
  lemma OvertakenStamp(strict: bool, aimed: bool) returns (s: State)
    ensures Reachable(Setting(strict, false, aimed), s) && Settled(s) && s.stored.Some?
    ensures IsUpToDate(s) == UpToDate(true) && !Fresh(s)
  {
    hide Reachable;
    var setting := Setting(strict, false, aimed);
    s := Start(setting);
    s := After(setting, s, Added(0));
    s := After(setting, s, Stamped(1));
    s := After(setting, s, Started(2));
    s := After(setting, s, Read);
    s := After(setting, s, Saved);
    ghost var first := s.stored.value.seen[0];
    s := After(setting, s, Landed(2));
    s := After(setting, s, Added(1));
    s := After(setting, s, Stamped(3));
    s := After(setting, s, ChangeLanded(3));
    s := After(setting, s, ChangeLanded(1));
    assert first in s.stored.value.seen && 1 in s.members && 1 !in first;
  }

  /** A run reads the membership and has a member of it removed, which nobody stamps; nothing else is on its way. */
  lemma UnstampedRemoval(strict: bool, ordered: bool) returns (s: State)
    ensures Reachable(Setting(strict, ordered, false), s) && Settled(s) && s.asked == {} && s.stored.Some?
    ensures IsUpToDate(s) == UpToDate(true) && !Fresh(s)
  {
    hide Reachable;
    var setting := Setting(strict, ordered, false);
    s := Start(setting);
    s := After(setting, s, Added(0));
    s := After(setting, s, Stamped(1));
    s := After(setting, s, ChangeLanded(1));
    s := After(setting, s, Started(2));
    s := After(setting, s, Read);
    ghost var first := s.running.value.seen[0];
    assert first in s.running.value.seen && 0 in first;
    s := After(setting, s, Asked(0));
    s := After(setting, s, Dropped(0));
    s := After(setting, s, Saved);
    s := After(setting, s, Landed(2));
    assert first in s.stored.value.seen && 0 !in s.members;
  }

  /** In every reachable state of the setting where all changes are stamped, a true verdict means a fresh centroid. */
  ghost predicate VouchesForFreshness(setting: Setting) {
    forall s | Reachable(setting, s) && Settled(s) && s.stored.Some? && IsUpToDate(s) == UpToDate(true) :: Fresh(s)
  }

  /**
   A true verdict vouches for a fresh centroid if and only if the clock is strict, the stamps land in order and runs ask
   for the removal of no member.
   */
  lemma VouchesIff(setting: Setting)
    ensures VouchesForFreshness(setting) <==> setting.strict && setting.ordered && setting.aimed
  {
    hide Reachable;
    if setting == SOUND {
      forall s | Reachable(SOUND, s) && Settled(s) && s.stored.Some? && IsUpToDate(s) == UpToDate(true)
        ensures Fresh(s)
      {
        ReachableInv(SOUND, s);
      }
    } else if !setting.aimed {
      var s := UnstampedRemoval(setting.strict, setting.ordered);
    } else if !setting.ordered {
      var s := OvertakenStamp(setting.strict, setting.aimed);
    } else {
      var s := MissedChange(true, true, 0);
    }
  }

  /** The states with the given stamps in which a verdict may be asked for. */
  ghost predicate HasStamps(s: State, calculated: nat, changed: nat) {
    && Reachable(Setting(false, true, true), s) && Settled(s)
    && s.lastCalculated == Some(calculated) && s.lastChanged == Some(changed)
  }

  /**
   On a clock that may repeat itself, the other two hypotheses given, two stamps for which the verdict is true vouch
   for a fresh centroid exactly if they differ.
   */
  lemma CoarseVerdictSoundIffStampsDiffer(calculated: nat, changed: nat)
    requires Decide(Some(calculated), Some(changed), true) == UpToDate(true)
    ensures (forall s | HasStamps(s, calculated, changed) :: Fresh(s)) <==> changed != calculated
  {
    if changed == calculated {
      var s := MissedChange(true, true, changed);
      assert HasStamps(s, calculated, changed);
    } else {
      forall s | HasStamps(s, calculated, changed) ensures Fresh(s) {
        ReachableInv(Setting(false, true, true), s);
      }
    }
  }

  /** Before the first change any verdict is sound, in every setting. */
  lemma UnchangedIsFresh(setting: Setting, s: State)
    requires Reachable(setting, s) && Settled(s) && s.lastChanged.None? && s.stored.Some?
    ensures IsUpToDate(s) == UpToDate(true) && Fresh(s)
  {
    ReachableInv(setting, s);
  }

  // ---------------------------------------------------------------- joining a centroid

  /** What the server does on a join: answer at once with this result, or wait for an update. */
  datatype JoinStep = Answer(recomputed: bool) | Fail | WaitForUpdate

  function JoinCentroid(verdict: Verdict, ignoreMissing: bool): JoinStep {
    if ignoreMissing && verdict == CentroidDoesNotExist then Answer(false)
    else if verdict == CentroidDoesNotExist then Fail
    else if verdict.value then Answer(false)
    else WaitForUpdate
  }

  /** A join of an existing centroid that waits for no update finds it fresh, provided every change is stamped. */
  lemma JoinAnswersWhenFresh(s: State, ignoreMissing: bool)
    requires Reachable(SOUND, s) && Settled(s) && s.stored.Some?
    ensures JoinCentroid(IsUpToDate(s), ignoreMissing) in {Answer(false), WaitForUpdate}
    ensures JoinCentroid(IsUpToDate(s), ignoreMissing) == Answer(false) ==> Fresh(s)
  {
    if IsUpToDate(s) == UpToDate(true) {
      VerdictSound(s, [], s);
    }
  }

  /**
   What a join gets for any stamps: an error only for a centroid that is not there and is not to be ignored, a wait
   exactly if a change is stamped after the last calculation, and otherwise an answer at once that nothing was computed.
   */
  lemma JoinByStamps(lastCalculated: Option<nat>, lastChanged: Option<nat>, exists_: bool, ignoreMissing: bool)
    ensures var join := JoinCentroid(Decide(lastCalculated, lastChanged, exists_), ignoreMissing);
      && (join == Fail <==> lastCalculated.None? && lastChanged.None? && !exists_ && !ignoreMissing)
      && (join == WaitForUpdate <==>
            lastChanged.Some? && (lastCalculated.None? || lastCalculated.value < lastChanged.value))
      && (join != Fail && join != WaitForUpdate ==> join == Answer(false))
  {}

  /** A centroid that was never created: an error, or nothing to do if the caller ignores it. */
  lemma JoinOfMissing(setting: Setting, s: State, ignoreMissing: bool)
    requires Reachable(setting, s) && s.stored.None?
    ensures JoinCentroid(IsUpToDate(s), ignoreMissing) == if ignoreMissing then Answer(false) else Fail
  {
    ReachableInv(setting, s);
  }

  // ---------------------------------------------------------------- the stamps as stored

  /** The metadata of one centroid, as kept beside it. */
  class CentroidMetadata {
    var lastCalculated: Option<nat>
    var lastDocumentChange: Option<nat>

    method SetLastCalculatedTimestamp(timestamp: nat)
      modifies this`lastCalculated
      ensures lastCalculated == Some(timestamp)
    {
      lastCalculated := Some(timestamp);
    }

    method SetLastDocumentChangeTimestamp(timestamp: nat)
      modifies this`lastDocumentChange
      ensures lastDocumentChange == Some(timestamp)
    {
      lastDocumentChange := Some(timestamp);
    }

    method IsCentroidUpToDate(exists_: bool) returns (v: Verdict)
      ensures v == Decide(lastCalculated, lastDocumentChange, exists_)
    {
      var calculated, changed := lastCalculated, lastDocumentChange;
      if changed.None? && calculated.None? {
        if exists_ {
          return UpToDate(true);
        }
        return CentroidDoesNotExist;
      }
      if changed.None? {
        return UpToDate(true);
      }
      if calculated.None? {
        return UpToDate(false);
      }
      if changed.value > calculated.value {
        return UpToDate(false);
      }
      return UpToDate(true);
    }
  }
}
