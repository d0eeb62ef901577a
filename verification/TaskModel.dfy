/** The global timer task as a state machine: the schedule, two indexes that must agree with
    it, and counters. Whole runs are reasoned about here; the class refines each step. */
module TaskModel {
  import opened Bits
  import opened Options
  import opened WheelModel
  import opened WheelBatches
  import opened WheelCancels

  type ConnectionIndex = map<nat, set<nat>>

  datatype Registration = Registration(connectionId: nat, delay: nat, kind: nat)

  datatype Task = Task(
    schedule: Schedule,
    connectionTimers: ConnectionIndex,
    entryToConnection: map<nat, nat>,
    nextEventId: nat,
    processed: nat,
    cancelled: nat)

  datatype Command =
    | RegisterTimer(registration: Registration)
    | BatchRegisterTimers(registrations: seq<Registration>)
    | CancelTimer(id: nat)
    | BatchCancelTimers(ids: seq<nat>)
    | ClearConnectionTimers(connectionId: nat)
    | Tick(now: nat)
    /** A command that only reports, or a new tick interval. */
    | Idle

  // --- steps

  function Link(index: ConnectionIndex, connectionId: nat, id: nat): ConnectionIndex {
    index[connectionId := (if connectionId in index then index[connectionId] else {}) + {id}]
  }

  /** Forget some ids; a connection left without timers goes with them. */
  function Unlink(index: ConnectionIndex, ids: set<nat>): ConnectionIndex {
    map c | c in index && index[c] - ids != {} :: index[c] - ids
  }

  function Register(t: Task, r: Registration): Task {
    var id := t.schedule.nextEntryId;
    t.(schedule := AddTimer(t.schedule, r.delay, TimerEvent(t.nextEventId, r.connectionId, r.kind)),
       connectionTimers := Link(t.connectionTimers, r.connectionId, id),
       entryToConnection := t.entryToConnection[id := r.connectionId],
       nextEventId := t.nextEventId + 1)
  }

  function RegisterAll(t: Task, rs: seq<Registration>): Task {
    if rs == [] then t
    else Register(RegisterAll(t, rs[..|rs| - 1]), rs[|rs| - 1])
  }

  /** The registrations with the delays that the batch path of the wheel gives them. */
  function Laned(s: Schedule, rs: seq<Registration>): (l: seq<Registration>)
    ensures |l| == |rs|
    ensures forall i :: 0 <= i < |l| ==> l[i] == rs[i].(delay := LaneDelay(s.config, s.currentTime, rs[i].delay))
  {
    seq(|rs|, i requires 0 <= i < |rs| => rs[i].(delay := LaneDelay(s.config, s.currentTime, rs[i].delay)))
  }

  ghost function CancelAll(t: Task, ids: set<nat>): Task {
    t.(schedule := CancelTimers(t.schedule, ids),
       connectionTimers := Unlink(t.connectionTimers, ids),
       entryToConnection := t.entryToConnection - ids,
       cancelled := t.cancelled + |t.schedule.timers.Keys * ids|)
  }

  function TimersOf(t: Task, connectionId: nat): set<nat> {
    if connectionId in t.connectionTimers then t.connectionTimers[connectionId] else {}
  }

  function AdvanceTo(t: Task, now: nat): Task
    requires t.schedule.config.slotDuration > 0
  {
    var due := DueTimers(t.schedule.timers, now);
    t.(schedule := Advance(t.schedule, now),
       connectionTimers := Unlink(t.connectionTimers, due.Keys),
       entryToConnection := t.entryToConnection - due.Keys,
       processed := t.processed + |due|)
  }

  /** What keeps the wheel a wheel. A batch cancel repeats a live id only together with all
      the timers of its slot: `WheelCancels.RepeatableIffAlwaysSafe` shows that no weaker
      condition on the timers would do. A batch registration has no expiry that wraps to
      before the clock: `WheelBatches.LanesKeepWheelIff` shows the same of that. */
  ghost predicate CommandOk(t: Task, c: Command)
    requires ConfigOk(t.schedule.config)
  {
    && (c.BatchCancelTimers? ==> Repeatable(t.schedule, c.ids))
    && (c.BatchRegisterTimers? ==> InTime(t.schedule, c.registrations))
  }

  ghost predicate InTime(s: Schedule, rs: seq<Registration>) {
    forall i :: 0 <= i < |rs| ==> s.currentTime <= LaneExpiry(s.config, s.currentTime, rs[i].delay)
  }

  ghost function Step(t: Task, c: Command): Task
    requires ConfigOk(t.schedule.config) && CommandOk(t, c)
  {
    match c
    case RegisterTimer(r) => Register(t, r)
    case BatchRegisterTimers(rs) => RegisterAll(t, Laned(t.schedule, rs))
    case CancelTimer(id) => CancelAll(t, {id})
    case BatchCancelTimers(ids) => CancelAll(t, set id | id in ids)
    case ClearConnectionTimers(connectionId) => CancelAll(t, TimersOf(t, connectionId))
    case Tick(now) => AdvanceTo(t, now)
    case Idle => t
  }

  /** One turn of the run loop: the next expiry is asked for before anything else happens. */
  ghost function Turn(t: Task, c: Command): Task
    requires ConfigOk(t.schedule.config) && CommandOk(t, c)
  {
    Step(t.(schedule := QueryNextExpiry(t.schedule)), c)
  }

  /** The timers that fire in a turn. */
  function Fired(t: Task, c: Command): Timers {
    match c
    case Tick(now) => DueTimers(t.schedule.timers, now)
    case _ => map[]
  }

  // --- the invariant

  ghost predicate OwnedBy(ids: set<nat>, c: nat, entryToConnection: map<nat, nat>) {
    forall id :: id in ids ==> id in entryToConnection && entryToConnection[id] == c
  }

  /** Each connection's set is exactly the ids mapped to it, and no set is empty. */
  ghost predicate Linked(index: ConnectionIndex, entryToConnection: map<nat, nat>) {
    && (forall id :: id in entryToConnection ==>
          entryToConnection[id] in index && id in index[entryToConnection[id]])
    && (forall c :: c in index ==> index[c] != {} && OwnedBy(index[c], c, entryToConnection))
  }

  /** Every timer belongs to the connection its event names; event ids equal timer ids. */
  ghost predicate Labelled(timers: Timers, entryToConnection: map<nat, nat>) {
    && timers.Keys == entryToConnection.Keys
    && forall id :: id in timers ==>
         timers[id].event.id == id && timers[id].event.connectionId == entryToConnection[id]
  }

  /** The three indexes coincide and no timer is unaccounted for. */
  ghost predicate TaskOk(t: Task) {
    && ScheduleOk(t.schedule)
    && Labelled(t.schedule.timers, t.entryToConnection)
    && Linked(t.connectionTimers, t.entryToConnection)
    && t.nextEventId == t.schedule.nextEntryId
    && t.schedule.nextEntryId == 1 + |t.schedule.timers| + t.processed + t.cancelled
  }

  // --- every step keeps it

  lemma LinkKeepsLinked(index: ConnectionIndex, e2c: map<nat, nat>, connectionId: nat, id: nat)
    requires Linked(index, e2c) && id !in e2c
    ensures Linked(Link(index, connectionId, id), e2c[id := connectionId])
  {
  }

  lemma AddKeepsCache(s: Schedule, delay: nat, event: TimerEvent)
    requires ScheduleOk(s) && CacheSound(s) && CacheReady(s)
    ensures CacheSound(AddTimer(s, delay, event)) && CacheReady(AddTimer(s, delay, event))
  {
  }

  lemma RegisterKeepsOk(t: Task, r: Registration)
    requires TaskOk(t)
    ensures TaskOk(Register(t, r))
    ensures CacheSound(t.schedule) && CacheReady(t.schedule) ==>
        CacheSound(Register(t, r).schedule) && CacheReady(Register(t, r).schedule)
  {
    hide Linked, Link, ScheduleOk, CacheSound, CacheReady, Labelled;
    var event := TimerEvent(t.nextEventId, r.connectionId, r.kind);
    var s, s' := t.schedule, AddTimer(t.schedule, r.delay, event);
    AddKeepsSchedule(s, r.delay, event);
    TaskParts(t);
    LinkKeepsLinked(t.connectionTimers, t.entryToConnection, r.connectionId, s.nextEntryId);
    if CacheSound(s) && CacheReady(s) { AddKeepsCache(s, r.delay, event); }
    LabelAdded(s.timers, t.entryToConnection, s'.timers[s.nextEntryId], r.connectionId);
  }

  lemma LabelAdded(timers: Timers, e2c: map<nat, nat>, e: TimerEntry, connectionId: nat)
    requires Labelled(timers, e2c) && e.id !in timers
    requires e.event.id == e.id && e.event.connectionId == connectionId
    ensures Labelled(timers[e.id := e], e2c[e.id := connectionId])
    ensures |timers[e.id := e]| == |timers| + 1
  {
    assert timers[e.id := e].Keys == timers.Keys + {e.id};
  }

  lemma LabelRemoved(timers: Timers, e2c: map<nat, nat>, ids: set<nat>)
    requires Labelled(timers, e2c)
    ensures Labelled(timers - ids, e2c - ids)
  {
  }

  lemma {:induction false} RegisterAllKeepsOk(t: Task, rs: seq<Registration>)
    requires TaskOk(t)
    ensures TaskOk(RegisterAll(t, rs))
    ensures CacheSound(t.schedule) && CacheReady(t.schedule) ==>
        CacheSound(RegisterAll(t, rs).schedule) && CacheReady(RegisterAll(t, rs).schedule)
    decreases |rs|
  {
    if rs != [] {
      RegisterAllKeepsOk(t, rs[..|rs| - 1]);
      RegisterKeepsOk(RegisterAll(t, rs[..|rs| - 1]), rs[|rs| - 1]);
    }
  }

  lemma UnlinkKeepsLinked(index: ConnectionIndex, e2c: map<nat, nat>, ids: set<nat>)
    requires Linked(index, e2c)
    ensures Linked(Unlink(index, ids), e2c - ids)
  {
    forall id | id in e2c && id !in ids
      ensures e2c[id] in Unlink(index, ids) && id in Unlink(index, ids)[e2c[id]]
    {
      assert id in index[e2c[id]] - ids;
    }
  }

  lemma Removed<V>(m: map<nat, V>, ids: set<nat>)
    ensures |m - ids| + |m.Keys * ids| == |m|
  {
    assert (m - ids).Keys == m.Keys - ids;
    assert m.Keys == (m.Keys - ids) + m.Keys * ids;
  }

  lemma CancelAllKeepsOk(t: Task, ids: set<nat>)
    requires TaskOk(t)
    ensures TaskOk(CancelAll(t, ids))
    ensures CacheSound(t.schedule) ==> CacheSound(CancelAll(t, ids).schedule)
  {
    UnlinkKeepsLinked(t.connectionTimers, t.entryToConnection, ids);
    Removed(t.schedule.timers, ids);
    CancelKeepsSchedule(t.schedule, ids);
  }

  lemma DueIsRemoved(timers: Timers, now: nat)
    ensures PendingTimers(timers, now) == timers - DueTimers(timers, now).Keys
    ensures |PendingTimers(timers, now)| + |DueTimers(timers, now)| == |timers|
  {
    hide DueTimers, PendingTimers;
    var due := DueTimers(timers, now);
    PendingIsRest(timers, now);
    Removed(timers, due.Keys);
    assert timers.Keys * due.Keys == due.Keys;
  }

  lemma PendingIsRest(timers: Timers, now: nat)
    ensures PendingTimers(timers, now) == timers - DueTimers(timers, now).Keys
    ensures DueTimers(timers, now).Keys <= timers.Keys
  {
  }

  lemma AdvanceToKeepsOk(t: Task, now: nat)
    requires TaskOk(t)
    ensures TaskOk(AdvanceTo(t, now))
    ensures CacheSound(t.schedule) ==> CacheSound(AdvanceTo(t, now).schedule)
  {
    hide Linked, Unlink, Labelled, DueTimers, PendingTimers, CacheSound;
    UnlinkKeepsLinked(t.connectionTimers, t.entryToConnection, DueTimers(t.schedule.timers, now).Keys);
    DueIsRemoved(t.schedule.timers, now);
    AdvancedIsOk(t.schedule, now);
    LabelRemoved(t.schedule.timers, t.entryToConnection, DueTimers(t.schedule.timers, now).Keys);
    AdvanceKeepsCache(t.schedule, now);
    hide ScheduleOk;
  }

  lemma AdvanceKeepsCache(s: Schedule, now: nat)
    requires s.config.slotDuration > 0
    ensures CacheSound(s) ==> CacheSound(Advance(s, now))
  {
  }

  lemma StepKeepsOk(t: Task, c: Command)
    requires TaskOk(t) && CommandOk(t, c)
    ensures TaskOk(Step(t, c))
    ensures CacheSound(t.schedule) && CacheReady(t.schedule) ==> CacheSound(Step(t, c).schedule)
  {
    hide CommandOk, TaskOk, CacheSound, CacheReady, Register, RegisterAll, CancelAll, AdvanceTo, TimersOf;
    match c
    case RegisterTimer(r) => RegisterKeepsOk(t, r);
    case BatchRegisterTimers(rs) => RegisterAllKeepsOk(t, Laned(t.schedule, rs));
    case CancelTimer(id) => CancelAllKeepsOk(t, {id});
    case BatchCancelTimers(ids) => CancelAllKeepsOk(t, set id | id in ids);
    case ClearConnectionTimers(connectionId) => CancelAllKeepsOk(t, TimersOf(t, connectionId));
    case Tick(now) => AdvanceToKeepsOk(t, now);
    case Idle =>
  }

  lemma QueryMakesReady(s: Schedule)
    ensures CacheReady(QueryNextExpiry(s))
    ensures CacheSound(s) ==> CacheSound(QueryNextExpiry(s))
  {
  }

  lemma QueryKeepsOk(t: Task)
    requires TaskOk(t)
    ensures TaskOk(t.(schedule := QueryNextExpiry(t.schedule)))
  {
  }

  /** Asking first keeps the cache a lower bound through any command. */
  lemma TurnKeepsOk(t: Task, c: Command)
    requires TaskOk(t) && CacheSound(t.schedule) && CommandOk(t, c)
    ensures TaskOk(Turn(t, c)) && CacheSound(Turn(t, c).schedule)
  {
    QueryMakesReady(t.schedule);
    StepKeepsOk(t.(schedule := QueryNextExpiry(t.schedule)), c);
  }

  /** Without asking first, adding one timer keeps the cache a lower bound exactly when the
      cache was filled or the new timer is not later than any live one. */
  lemma AddKeepsCacheIff(s: Schedule, delay: nat, event: TimerEvent)
    requires ScheduleOk(s) && CacheSound(s)
    ensures CacheSound(AddTimer(s, delay, event))
            <==> s.cachedNextExpiry.Some?
                 || forall id :: id in s.timers ==> s.currentTime + delay <= s.timers[id].expiryTime
  {
    var s' := AddTimer(s, delay, event);
    assert s.nextEntryId !in s.timers;
    assert forall id :: id in s.timers ==> id in s'.timers && s'.timers[id] == s.timers[id];
    if s.cachedNextExpiry.None? {
      assert s'.cachedNextExpiry == Some(s.currentTime + delay);
    }
  }

  /** It does happen: two timers, the earlier one cancelled, then a later one added, all
      without asking. The cache ends up beyond a live timer. */
  lemma CacheCanOverrun(config: Config, a: TimerEvent, b: TimerEvent, c: TimerEvent)
    requires ConfigOk(config)
    ensures var s0 := Schedule(config, config.startTime, map[], 1, None);
            var s1 := AddTimer(AddTimer(s0, 10 * MILLISECOND, a), 20 * MILLISECOND, b);
            var s2 := CancelTimers(s1, {1});
            var s3 := AddTimer(s2, 30 * MILLISECOND, c);
            && CacheSound(s1) && CacheSound(s2) && s2.cachedNextExpiry == None
            && 2 in s3.timers && s3.timers[2].expiryTime == config.startTime + 20 * MILLISECOND
            && s3.cachedNextExpiry == Some(config.startTime + 30 * MILLISECOND) && !CacheSound(s3)
  {
    var s0 := Schedule(config, config.startTime, map[], 1, None);
    var s1 := AddTimer(AddTimer(s0, 10 * MILLISECOND, a), 20 * MILLISECOND, b);
    assert s1.timers[1].expiryTime == config.startTime + 10 * MILLISECOND;
    assert DropsCache(s1, {1});
  }

  // --- runs

  /** What holds between any two turns. */
  ghost predicate RunOk(t: Task) {
    TaskOk(t) && CacheSound(t.schedule)
  }

  lemma TurnKeepsRunOk(t: Task, c: Command)
    requires RunOk(t) && CommandOk(t, c)
    ensures RunOk(Turn(t, c))
  {
    TurnKeepsOk(t, c);
  }

  /** The state before turn `k` of a run, as long as the run is allowed up to there: a turn
      that is not is passed over. */
  ghost function At(t: Task, run: seq<Command>, k: nat): (t': Task)
    requires RunOk(t) && k <= |run|
    ensures RunOk(t')
  {
    if k == 0 then t
    else
      var before := At(t, run, k - 1);
      if CommandOk(before, run[k - 1]) then
        TurnKeepsRunOk(before, run[k - 1]);
        Turn(before, run[k - 1])
      else before
  }

  /** No batch cancel before turn `k` repeats a live id harmfully. */
  ghost predicate Allowed(t: Task, run: seq<Command>, k: nat)
    requires RunOk(t) && k <= |run|
  {
    forall i :: 0 <= i < k ==> CommandOk(At(t, run, i), run[i])
  }

  const WAKEUP_SLACK: nat := 5 * MILLISECOND
  const IDLE_WAKEUP: nat := 1000 * MILLISECOND

  /** When the loop will look at the wheel again. */
  ghost function NextWakeup(s: Schedule, now: nat): nat {
    match QueryNextExpiry(s).cachedNextExpiry
    case Some(expiry) => if expiry <= now + WAKEUP_SLACK then now + WAKEUP_SLACK else expiry
    case None => now + IDLE_WAKEUP
  }

  /** The wakeup in plain numbers: a second from now without timers; else the earliest expiry
      of a live timer, or what the cache holds in its place, but at least five milliseconds
      from now. */
  ghost predicate WakesAt(s: Schedule, now: nat, wakeup: nat) {
    match s.cachedNextExpiry
    case Some(t) => wakeup == Later(now + 5_000_000, t)
    case None =>
      if s.timers == map[] then wakeup == now + 1_000_000_000
      else exists t: nat :: IsEarliest(s.timers, Some(t)) && wakeup == Later(now + 5_000_000, t)
  }

  function Later(a: nat, b: nat): nat {
    if a <= b then b else a
  }

  lemma NextWakeupIs(s: Schedule, now: nat)
    ensures WakesAt(s, now, NextWakeup(s, now))
  {
    if s.cachedNextExpiry.None? && s.timers != map[] {
      assert IsEarliest(s.timers, Earliest(s.timers));
      assert IsEarliest(s.timers, Some(Earliest(s.timers).value));
    }
  }

  /** The loop never wakes for nothing: in a state whose cache is exact or empty, a wakeup
      beyond the slack is the expiry of some live timer, or there is none. */
  lemma WakesForATimer(s: Schedule, now: nat)
    requires s.cachedNextExpiry.Some? ==> CacheExact(s)
    ensures var wakeup := NextWakeup(s, now);
            || wakeup == now + 5_000_000
            || (s.timers == map[] && wakeup == now + 1_000_000_000)
            || exists id :: id in s.timers && s.timers[id].expiryTime == wakeup
  {
    NextWakeupIs(s, now);
  }

  /** In every state a run can reach, no live timer is overslept by more than the slack. */
  lemma NeverOversleeps(t: Task, run: seq<Command>, k: nat, now: nat, id: nat)
    requires RunOk(t) && k <= |run| && Allowed(t, run, k)
    requires id in At(t, run, k).schedule.timers
    ensures var wakeup := NextWakeup(At(t, run, k).schedule, now);
            var expiry := At(t, run, k).schedule.timers[id].expiryTime;
            now + WAKEUP_SLACK <= wakeup <= if expiry <= now + WAKEUP_SLACK then now + WAKEUP_SLACK else expiry
  {
    hide At, TaskOk, NextWakeup;
    WakesInTime(At(t, run, k).schedule, now, id);
  }

  lemma WakesInTime(s: Schedule, now: nat, id: nat)
    requires CacheSound(s) && id in s.timers
    ensures var wakeup, expiry := NextWakeup(s, now), s.timers[id].expiryTime;
            now + WAKEUP_SLACK <= wakeup <= if expiry <= now + WAKEUP_SLACK then now + WAKEUP_SLACK else expiry
  {
    hide Earliest, CacheReady, IsEarliest;
    QueryMakesReady(s);
    ReadyHasExpiry(QueryNextExpiry(s), id);
    QueryKeepsTimers(s);
  }

  lemma ReadyHasExpiry(s: Schedule, id: nat)
    requires CacheReady(s) && id in s.timers
    ensures s.cachedNextExpiry.Some?
  {
  }

  /** What makes a timer go away. */
  predicate Ends(e: TimerEntry, c: Command) {
    match c
    case RegisterTimer(_) => false
    case BatchRegisterTimers(_) => false
    case CancelTimer(id) => id == e.id
    case BatchCancelTimers(ids) => e.id in ids
    case ClearConnectionTimers(connectionId) => connectionId == e.event.connectionId
    case Tick(now) => e.expiryTime <= now
    case Idle => false
  }

  ghost predicate IsLive(t: Task, e: TimerEntry) {
    e.id in t.schedule.timers && t.schedule.timers[e.id] == e
  }

  lemma {:induction false} RegisterAllGrows(t: Task, rs: seq<Registration>)
    requires TaskOk(t)
    ensures var t' := RegisterAll(t, rs);
            && t'.schedule.nextEntryId >= t.schedule.nextEntryId
            && forall id :: id < t.schedule.nextEntryId ==>
                 (id in t'.schedule.timers <==> id in t.schedule.timers)
                 && (id in t.schedule.timers ==> t'.schedule.timers[id] == t.schedule.timers[id])
    decreases |rs|
  {
    if rs != [] { RegisterAllGrows(t, rs[..|rs| - 1]); }
  }

  /** A step ends exactly the timers its command ends, and no id ever comes back. */
  lemma StepEnds(t: Task, c: Command, e: TimerEntry)
    requires TaskOk(t) && CommandOk(t, c) && e.id < t.schedule.nextEntryId
    ensures IsLive(Step(t, c), e) <==> IsLive(t, e) && !Ends(e, c)
    ensures Step(t, c).schedule.nextEntryId >= t.schedule.nextEntryId
  {
    hide CommandOk, TaskOk, CancelAll, AdvanceTo, IsLive, Register, RegisterAll, TimersOf;
    match c
    case RegisterTimer(r) => RegisterEnds(t, r, e);
    case BatchRegisterTimers(rs) => RegisterAllEnds(t, Laned(t.schedule, rs), e);
    case CancelTimer(id) => CancelEnds(t, {id}, e);
    case BatchCancelTimers(ids) => CancelEnds(t, (set id | id in ids), e);
    case ClearConnectionTimers(connectionId) =>
      CancelEnds(t, TimersOf(t, connectionId), e);
      if IsLive(t, e) { OwnedByItsConnection(t, connectionId, e); }
    case Tick(now) => TickEnds(t, now, e);
    case Idle =>
  }

  /** The live timers a command takes away. */
  function Ended(timers: Timers, c: Command): set<nat> {
    set id | id in timers && Ends(timers[id], c)
  }

  /** The counters: what a tick ends has been processed, what any other command ends has been
      cancelled. */
  lemma StepCounts(t: Task, c: Command)
    requires TaskOk(t) && CommandOk(t, c)
    ensures var ended := |Ended(t.schedule.timers, c)|;
            && Step(t, c).processed == t.processed + (if c.Tick? then ended else 0)
            && Step(t, c).cancelled == t.cancelled + (if c.Tick? then 0 else ended)
  {
    hide CommandOk, Ended, CancelTimers, Unlink, TimersOf, Advance, ScheduleOk, Labelled, Linked, RegisterAll;
    var timers := t.schedule.timers;
    match c
    case RegisterTimer(_) => NothingEnds(timers, c);
    case BatchRegisterTimers(rs) =>
      NothingEnds(timers, c);
      RegisterAllCounts(t, Laned(t.schedule, rs));
    case CancelTimer(id) => CancelledAre(t, {id}, c);
    case BatchCancelTimers(ids) => CancelledAre(t, (set id | id in ids), c);
    case ClearConnectionTimers(connectionId) =>
      forall id | id in timers
        ensures id in TimersOf(t, connectionId) <==> Ends(timers[id], c)
      {
        TimerHasItsId(t, id);
        OwnedByItsConnection(t, connectionId, timers[id]);
      }
      EndedAre(timers, TimersOf(t, connectionId), c);
    case Tick(now) => DueAreEnded(timers, now);
    case Idle => NothingEnds(timers, c);
  }

  lemma NothingEnds(timers: Timers, c: Command)
    requires c.RegisterTimer? || c.BatchRegisterTimers? || c.Idle?
    ensures |Ended(timers, c)| == 0
  {
    assert Ended(timers, c) == {};
  }

  lemma TimerHasItsId(t: Task, id: nat)
    requires TaskOk(t) && id in t.schedule.timers
    ensures IsLive(t, t.schedule.timers[id]) && t.schedule.timers[id].id == id
  {
  }

  lemma EndedAre(timers: Timers, ids: set<nat>, c: Command)
    requires forall id :: id in timers ==> (id in ids <==> Ends(timers[id], c))
    ensures Ended(timers, c) == timers.Keys * ids
  {
  }

  lemma CancelledAre(t: Task, ids: set<nat>, c: Command)
    requires TaskOk(t)
    requires c.CancelTimer? || c.BatchCancelTimers?
    requires ids == if c.CancelTimer? then {c.id} else set id | id in c.ids
    ensures Ended(t.schedule.timers, c) == t.schedule.timers.Keys * ids
  {
    EndedAre(t.schedule.timers, ids, c);
  }

  lemma DueAreEnded(timers: Timers, now: nat)
    ensures |DueTimers(timers, now)| == |Ended(timers, Tick(now))|
  {
    assert DueTimers(timers, now).Keys == Ended(timers, Tick(now));
  }

  lemma {:induction false} RegisterAllCounts(t: Task, rs: seq<Registration>)
    ensures RegisterAll(t, rs).processed == t.processed && RegisterAll(t, rs).cancelled == t.cancelled
    decreases |rs|
  {
    if rs != [] { RegisterAllCounts(t, rs[..|rs| - 1]); }
  }

  lemma RegisterEnds(t: Task, r: Registration, e: TimerEntry)
    requires e.id < t.schedule.nextEntryId
    ensures IsLive(Register(t, r), e) <==> IsLive(t, e)
    ensures Register(t, r).schedule.nextEntryId >= t.schedule.nextEntryId
  {
  }

  lemma RegisterAllEnds(t: Task, rs: seq<Registration>, e: TimerEntry)
    requires TaskOk(t) && e.id < t.schedule.nextEntryId
    ensures IsLive(RegisterAll(t, rs), e) <==> IsLive(t, e)
    ensures RegisterAll(t, rs).schedule.nextEntryId >= t.schedule.nextEntryId
  {
    RegisterAllGrows(t, rs);
  }

  lemma CancelEnds(t: Task, ids: set<nat>, e: TimerEntry)
    ensures IsLive(CancelAll(t, ids), e) <==> IsLive(t, e) && e.id !in ids
    ensures CancelAll(t, ids).schedule.nextEntryId == t.schedule.nextEntryId
  {
  }

  lemma TickEnds(t: Task, now: nat, e: TimerEntry)
    requires TaskOk(t)
    ensures IsLive(AdvanceTo(t, now), e) <==> IsLive(t, e) && now < e.expiryTime
    ensures AdvanceTo(t, now).schedule.nextEntryId == t.schedule.nextEntryId
  {
  }

  lemma OwnedByItsConnection(t: Task, connectionId: nat, e: TimerEntry)
    requires TaskOk(t) && IsLive(t, e)
    ensures e.id in TimersOf(t, connectionId) <==> connectionId == e.event.connectionId
  {
    assert t.entryToConnection[e.id] == e.event.connectionId;
  }

  lemma TurnEnds(t: Task, c: Command, e: TimerEntry)
    requires RunOk(t) && CommandOk(t, c) && e.id < t.schedule.nextEntryId
    ensures IsLive(Turn(t, c), e) <==> IsLive(t, e) && !Ends(e, c)
    ensures Turn(t, c).schedule.nextEntryId >= t.schedule.nextEntryId
    ensures e in Fired(t, c).Values <==> IsLive(t, e) && c.Tick? && Ends(e, c)
  {
    var t1 := t.(schedule := QueryNextExpiry(t.schedule));
    assert TaskOk(t1);
    StepEnds(t1, c, e);
    FiredAre(t, c, e);
    hide TaskOk, Step, CacheSound;
  }

  lemma FiredAre(t: Task, c: Command, e: TimerEntry)
    requires RunOk(t)
    ensures e in Fired(t, c).Values <==> IsLive(t, e) && c.Tick? && Ends(e, c)
  {
    if c.Tick? && IsLive(t, e) && e.expiryTime <= c.now {
      assert DueTimers(t.schedule.timers, c.now)[e.id] == e;
    }
  }

  ghost predicate EndedBefore(run: seq<Command>, i: nat, j: nat, e: TimerEntry)
    requires j <= |run|
  {
    exists k :: i <= k < j && Ends(e, run[k])
  }

  /** From the turn a timer is seen on, it is live until the first command that ends it and
      never again; it fires in a turn exactly when that turn is its first end and a tick. */
  lemma {:induction false} FiresExactlyOnce(t: Task, run: seq<Command>, i: nat, j: nat, e: TimerEntry)
    requires RunOk(t) && i <= j <= |run| && Allowed(t, run, j)
    requires IsLive(At(t, run, i), e)
    ensures IsLive(At(t, run, j), e) <==> !EndedBefore(run, i, j, e)
    ensures At(t, run, j).schedule.nextEntryId > e.id
    ensures j < |run| ==>
        (e in Fired(At(t, run, j), run[j]).Values
         <==> !EndedBefore(run, i, j, e) && run[j].Tick? && e.expiryTime <= run[j].now)
    decreases j - i
  {
    hide RunOk, Turn, IsLive, Fired, CommandOk;
    LiveIdBelow(At(t, run, i), e);
    AtUnfolds(t, run, j);
    if i < j {
      FiresExactlyOnce(t, run, i, j - 1, e);
      TurnEnds(At(t, run, j - 1), run[j - 1], e);
    }
    if j < |run| { FiredAre(At(t, run, j), run[j], e); }
  }

  lemma AtUnfolds(t: Task, run: seq<Command>, j: nat)
    requires RunOk(t) && j <= |run|
    ensures ConfigOk(At(t, run, j).schedule.config)
    ensures j > 0 && CommandOk(At(t, run, j - 1), run[j - 1]) ==> At(t, run, j) == Turn(At(t, run, j - 1), run[j - 1])
  {
    hide Turn;
  }

  /** The timer a registration asks for. */
  function NewTimer(s: Schedule, id: nat, r: Registration): TimerEntry {
    TimerEntry(id, s.currentTime + r.delay, TimerEvent(id, r.connectionId, r.kind))
  }

  /** A registration in turn `i` creates a live timer that expires its delay after the
      wheel's clock, under an id never used before. */
  lemma RegistrationIsLive(t: Task, run: seq<Command>, i: nat)
    requires RunOk(t) && i < |run| && run[i].RegisterTimer?
    ensures var before := At(t, run, i).schedule;
            && IsLive(At(t, run, i + 1), NewTimer(before, before.nextEntryId, run[i].registration))
            && before.nextEntryId !in before.timers
  {
    hide At, RunOk, Turn, NewTimer;
    AtUnfolds(t, run, i);
    assert CommandOk(At(t, run, i), run[i]);
    AtUnfolds(t, run, i + 1);
    TurnRegisters(At(t, run, i), run[i].registration);
  }

  /** The timer a batch registration makes of a member: its expiry is that of a lane. */
  function BatchTimer(s: Schedule, id: nat, r: Registration): TimerEntry {
    TimerEntry(id, LaneExpiry(s.config, s.currentTime, r.delay), TimerEvent(id, r.connectionId, r.kind))
  }

  /** Every member of an allowed batch registration becomes a live timer, under consecutive
      ids never used before. It is the timer a single registration would have made if and only
      if its expiry fits 64 bits, counted from the start. */
  lemma BatchMembersAreLive(t: Task, run: seq<Command>, i: nat, j: nat)
    requires RunOk(t) && i < |run| && run[i].BatchRegisterTimers? && Allowed(t, run, i + 1)
    requires j < |run[i].registrations|
    ensures var before := At(t, run, i).schedule;
            var r, id := run[i].registrations[j], before.nextEntryId + j;
            && IsLive(At(t, run, i + 1), BatchTimer(before, id, r)) && id !in before.timers
            && (BatchTimer(before, id, r) == NewTimer(before, id, r)
                <==> Elapsed(before.config.startTime, before.currentTime) + r.delay < U64_LIMIT)
  {
    hide At, RunOk, Turn, NewTimer, BatchTimer, CommandOk;
    AtUnfolds(t, run, i);
    AtUnfolds(t, run, i + 1);
    TurnRegistersAll(At(t, run, i), run[i].registrations, j);
    BatchTimerIff(At(t, run, i), At(t, run, i).schedule.nextEntryId + j, run[i].registrations[j]);
  }

  lemma BatchTimerIff(t: Task, id: nat, r: Registration)
    requires RunOk(t)
    ensures BatchTimer(t.schedule, id, r) == NewTimer(t.schedule, id, r)
            <==> Elapsed(t.schedule.config.startTime, t.schedule.currentTime) + r.delay < U64_LIMIT
  {
    hide LaneExpiry;
    LaneExpiryIff(t.schedule.config, t.schedule.currentTime, r.delay);
  }

  lemma TurnRegistersAll(t: Task, rs: seq<Registration>, j: nat)
    requires RunOk(t) && j < |rs| && CommandOk(t, BatchRegisterTimers(rs))
    ensures var id := t.schedule.nextEntryId + j;
            id !in t.schedule.timers && IsLive(Turn(t, BatchRegisterTimers(rs)), BatchTimer(t.schedule, id, rs[j]))
  {
    hide RegisterAll, QueryNextExpiry, LaneExpiry;
    QueryKeepsOk(t);
    var s := QueryNextExpiry(t.schedule);
    QueryKeepsTimers(t.schedule);
    RegisteredAre(t.(schedule := s), Laned(s, rs), j);
  }

  lemma QueryKeepsTimers(s: Schedule)
    ensures QueryNextExpiry(s) == s.(cachedNextExpiry := QueryNextExpiry(s).cachedNextExpiry)
  {
  }

  lemma {:induction false} RegisteredAre(t: Task, rs: seq<Registration>, j: nat)
    requires TaskOk(t) && j < |rs|
    ensures IsLive(RegisterAll(t, rs), NewTimer(t.schedule, t.schedule.nextEntryId + j, rs[j]))
    decreases |rs|
  {
    hide RegisterAll, TaskOk, AddTimers, Register, IsLive, NewTimer;
    var n := |rs| - 1;
    var before := RegisterAll(t, rs[..n]);
    RegisterAllShape(t, rs[..n]);
    RegisterAllKeepsOk(t, rs[..n]);
    RegisterAllKeepsClock(t, rs[..n]);
    RegisterAllUnfolds(t, rs, n);
    assert rs[..n + 1] == rs;
    if j < n {
      RegisteredAre(t, rs[..n], j);
      LiveStaysLive(before, NewTimer(t.schedule, t.schedule.nextEntryId + j, rs[j]), rs[n]);
    } else {
      RegisteredIsLive(before, rs[n]);
      NewTimerAtClock(t.schedule, before.schedule, before.schedule.nextEntryId, rs[n]);
    }
  }

  lemma NewTimerAtClock(s: Schedule, s': Schedule, id: nat, r: Registration)
    requires s.currentTime == s'.currentTime
    ensures NewTimer(s, id, r) == NewTimer(s', id, r)
  {
  }

  lemma RegisteredIsLive(t: Task, r: Registration)
    requires TaskOk(t)
    ensures IsLive(Register(t, r), NewTimer(t.schedule, t.schedule.nextEntryId, r))
  {
  }

  lemma LiveStaysLive(t: Task, e: TimerEntry, r: Registration)
    requires TaskOk(t) && IsLive(t, e)
    ensures IsLive(Register(t, r), e)
  {
  }

  lemma {:induction false} RegisterAllKeepsClock(t: Task, rs: seq<Registration>)
    ensures RegisterAll(t, rs).schedule.currentTime == t.schedule.currentTime
    decreases |rs|
  {
    if rs != [] { RegisterAllKeepsClock(t, rs[..|rs| - 1]); }
  }

  lemma TurnRegisters(t: Task, r: Registration)
    requires RunOk(t)
    ensures var id := t.schedule.nextEntryId;
            id !in t.schedule.timers && IsLive(Turn(t, RegisterTimer(r)), NewTimer(t.schedule, id, r))
  {
  }

  lemma LiveIdBelow(t: Task, e: TimerEntry)
    requires RunOk(t) && IsLive(t, e)
    ensures e.id < t.schedule.nextEntryId
  {
  }

  /** After an advance the clock is less than one slot behind, unless the jump was longer
      than a revolution: then it stays behind by the slots it did not count. */
  lemma ClockCatchesUp(s: Schedule, now: nat)
    requires ScheduleOk(s) && s.currentTime <= now
    ensures var behind := now - Advance(s, now).currentTime;
            behind < s.config.slotDuration <==> SlotsToAdvance(s, now) <= s.config.slotCount
    ensures SlotsToAdvance(s, now) > s.config.slotCount ==>
        Advance(s, now).currentTime == s.currentTime + s.config.slotCount * s.config.slotDuration
  {
    var d, n := s.config.slotDuration, s.config.slotCount;
    var q := SlotsToAdvance(s, now);
    assert now - s.currentTime == q * d + (now - s.currentTime) % d;
    if q > n {
      assert (q - n) * d == q * d - n * d;
      MulAtLeast(q - n, d);
    }
    ClockStaysBehind(s.config, s.currentTime, now);
  }

  // --- how the task carries its steps out

  /** The wheel entries of a batch of registrations, with consecutive event ids. */
  function Batch(startEventId: nat, rs: seq<Registration>): (b: seq<(nat, TimerEvent)>)
    ensures |b| == |rs|
    ensures forall i :: 0 <= i < |rs| ==>
        b[i] == (rs[i].delay, TimerEvent(startEventId + i, rs[i].connectionId, rs[i].kind))
  {
    seq(|rs|, i requires 0 <= i < |rs| =>
      (rs[i].delay, TimerEvent(startEventId + i, rs[i].connectionId, rs[i].kind)))
  }

  /** The batch path seen from the task and from the wheel. */
  lemma LanedBatch(s: Schedule, startEventId: nat, rs: seq<Registration>)
    ensures Batch(startEventId, Laned(s, rs)) == LaneBatch(s.config, s.currentTime, Batch(startEventId, rs))
    ensures InTime(s, rs) <==> NoneBehind(s.config, s.currentTime, Batch(startEventId, rs))
  {
    hide LaneDelay, LaneExpiry;
    var b := Batch(startEventId, rs);
    assert forall i :: 0 <= i < |rs| ==> b[i].0 == rs[i].delay;
  }

  /** Every expiry of a batch fits 64 bits, counted from the start. */
  ghost predicate ExpiriesFit(s: Schedule, rs: seq<Registration>) {
    forall i :: 0 <= i < |rs| ==> Elapsed(s.config.startTime, s.currentTime) + rs[i].delay < U64_LIMIT
  }

  lemma FitsAlike(s: Schedule, startEventId: nat, rs: seq<Registration>)
    ensures ExpiriesFit(s, rs) <==> AllFit(s.config, s.currentTime, Batch(startEventId, rs))
  {
    hide Elapsed;
    var b := Batch(startEventId, rs);
    assert forall i :: 0 <= i < |rs| ==> b[i].0 == rs[i].delay;
  }

  lemma NothingLaned(s: Schedule)
    ensures Laned(s, []) == [] && InTime(s, []) && ExpiriesFit(s, [])
  {
  }

  /** The delays make no difference to the two indexes. */
  lemma {:induction false} LanedLinksAlike(t: Task, rs: seq<Registration>)
    ensures var lanes := Laned(t.schedule, rs);
            && RegisterAll(t, lanes).connectionTimers == RegisterAll(t, rs).connectionTimers
            && RegisterAll(t, lanes).entryToConnection == RegisterAll(t, rs).entryToConnection
            && RegisterAll(t, lanes).schedule.nextEntryId == RegisterAll(t, rs).schedule.nextEntryId
    decreases |rs|
  {
    hide LaneDelay, Link, AddTimer;
    var lanes := Laned(t.schedule, rs);
    RegisterAllShape(t, lanes);
    RegisterAllShape(t, rs);
    if rs != [] {
      var n := |rs| - 1;
      RegisterAllShape(t, lanes[..n]);
      RegisterAllShape(t, rs[..n]);
      LanedLinksAlike(t, rs[..n]);
      assert lanes[..n] == Laned(t.schedule, rs[..n]);
      RegisterLinks(RegisterAll(t, lanes[..n]), lanes[n]);
      RegisterLinks(RegisterAll(t, rs[..n]), rs[n]);
    }
  }

  lemma {:induction false} RegisterAllShape(t: Task, rs: seq<Registration>)
    ensures RegisterAll(t, rs).schedule == AddTimers(t.schedule, Batch(t.nextEventId, rs))
    ensures RegisterAll(t, rs).nextEventId == t.nextEventId + |rs|
    ensures RegisterAll(t, rs).schedule.nextEntryId == t.schedule.nextEntryId + |rs|
    ensures RegisterAll(t, rs).processed == t.processed && RegisterAll(t, rs).cancelled == t.cancelled
    decreases |rs|
  {
    if rs != [] {
      var n := |rs| - 1;
      RegisterAllShape(t, rs[..n]);
      assert Batch(t.nextEventId, rs)[..n] == Batch(t.nextEventId, rs[..n]);
    }
  }

  /** A batch registration seen as one step. */
  lemma RegisterAllIs(t: Task, rs: seq<Registration>, t': Task)
    requires t'.schedule == AddTimers(t.schedule, Batch(t.nextEventId, rs))
    requires t'.connectionTimers == RegisterAll(t, rs).connectionTimers
    requires t'.entryToConnection == RegisterAll(t, rs).entryToConnection
    requires t'.nextEventId == t.nextEventId + |rs| && t'.processed == t.processed && t'.cancelled == t.cancelled
    ensures t' == RegisterAll(t, rs)
  {
    RegisterAllShape(t, rs);
  }

  lemma RegisterNone(t: Task)
    ensures RegisterAll(t, []) == t
  {
  }

  lemma RegisterAllUnfolds(t: Task, rs: seq<Registration>, i: nat)
    requires i < |rs|
    ensures RegisterAll(t, rs[..i + 1]) == Register(RegisterAll(t, rs[..i]), rs[i])
  {
    assert rs[..i + 1][..i] == rs[..i];
  }

  lemma UnlinkOne(index: ConnectionIndex, e2c: map<nat, nat>, id: nat)
    requires Linked(index, e2c) && id in e2c
    ensures var c := e2c[id];
            && c in index
            && Unlink(index, {id}) == if index[c] - {id} == {} then index - {c} else index[c := index[c] - {id}]
  {
    forall c | c in index && c != e2c[id]
      ensures index[c] - {id} == index[c]
    {
    }
  }

  /** The groups hold, per connection, exactly the given ids that belong to it. */
  ghost predicate GroupedByConnection(groups: map<nat, seq<nat>>, e2c: map<nat, nat>, ids: set<nat>) {
    && (forall c, id :: c in groups && id in groups[c] ==> id in ids && id in e2c && e2c[id] == c)
    && (forall id :: id in ids && id in e2c ==> e2c[id] in groups && id in groups[e2c[id]])
  }

  function AddToGroup(groups: map<nat, seq<nat>>, c: nat, id: nat): map<nat, seq<nat>> {
    groups[c := (if c in groups then groups[c] else []) + [id]]
  }

  lemma GroupConnection(groups: map<nat, seq<nat>>, e2c: map<nat, nat>, ids: set<nat>, id: nat)
    requires GroupedByConnection(groups, e2c, ids)
    ensures id in e2c ==> GroupedByConnection(AddToGroup(groups, e2c[id], id), e2c, ids + {id})
    ensures id !in e2c || id in ids ==> GroupedByConnection(groups, e2c, ids + {id})
  {
    if id in e2c {
      var g := AddToGroup(groups, e2c[id], id);
      assert forall c, i :: c in g && i in g[c] ==> (c in groups && i in groups[c]) || (c == e2c[id] && i == id);
      assert forall c, i :: c in groups && i in groups[c] ==> c in g && i in g[c];
      assert id in g[e2c[id]];
    }
  }

  /** The connections in `done` have been unlinked, the others not yet. */
  ghost function PartlyUnlinked(index: ConnectionIndex, ids: set<nat>, done: set<nat>): ConnectionIndex {
    map c | c in index && (c !in done || index[c] - ids != {}) :: if c in done then index[c] - ids else index[c]
  }

  lemma NothingUnlinked(index: ConnectionIndex, ids: set<nat>)
    ensures PartlyUnlinked(index, ids, {}) == index
  {
  }

  lemma UnlinkStep(index: ConnectionIndex, ids: set<nat>, done: set<nat>, c: nat)
    requires c !in done
    ensures c in PartlyUnlinked(index, ids, done) <==> c in index
    ensures c in index ==>
        var part := PartlyUnlinked(index, ids, done);
        && part[c] == index[c]
        && PartlyUnlinked(index, ids, done + {c})
           == if index[c] - ids == {} then part - {c} else part[c := index[c] - ids]
    ensures c !in index ==> PartlyUnlinked(index, ids, done + {c}) == PartlyUnlinked(index, ids, done)
  {
  }

  lemma AllUnlinked(index: ConnectionIndex, e2c: map<nat, nat>, ids: set<nat>, groups: map<nat, seq<nat>>)
    requires Linked(index, e2c) && GroupedByConnection(groups, e2c, ids)
    ensures PartlyUnlinked(index, ids, groups.Keys) == Unlink(index, ids)
  {
    forall c | c in index && c !in groups
      ensures index[c] - ids == index[c]
    {
      assert forall id :: id in index[c] ==> id !in ids;
    }
  }

  /** Within one connection the group removes exactly the given ids. */
  lemma GroupRemoves(index: ConnectionIndex, e2c: map<nat, nat>, ids: set<nat>, groups: map<nat, seq<nat>>, c: nat)
    requires Linked(index, e2c) && GroupedByConnection(groups, e2c, ids) && c in groups && c in index
    ensures index[c] - (set id | id in groups[c]) == index[c] - ids
  {
  }

  ghost function IdsOf(es: seq<TimerEntry>): set<nat> {
    set e | e in es :: e.id
  }

  lemma IdsOfOneMore(es: seq<TimerEntry>, i: nat)
    requires i < |es|
    ensures IdsOf(es[..i + 1]) == IdsOf(es[..i]) + {es[i].id}
  {
    assert es[..i + 1] == es[..i] + [es[i]];
  }

  lemma DueLength(t: Task, now: nat, expired: seq<TimerEntry>)
    requires TaskOk(t) && ListsExactly(expired, DueTimers(t.schedule.timers, now))
    ensures |expired| == |DueTimers(t.schedule.timers, now)|
    ensures IdsOf(expired) == DueTimers(t.schedule.timers, now).Keys
  {
    ListLength(expired, DueTimers(t.schedule.timers, now));
  }

  lemma {:induction false} ListLength(es: seq<TimerEntry>, timers: Timers)
    requires ListsExactly(es, timers) && forall id :: id in timers ==> timers[id].id == id
    ensures |es| == |timers|
    ensures timers.Keys == IdsOf(es)
    decreases |es|
  {
    forall id | id in timers
      ensures id in IdsOf(es)
    {
      assert timers[id] in es;
    }
    if es == [] {
      assert timers.Keys == {};
    } else {
      var n := |es| - 1;
      var e := es[n];
      assert e in es;
      var rest := timers - {e.id};
      assert es == es[..n] + [e];
      assert ListsExactly(es[..n], rest);
      ListLength(es[..n], rest);
      assert rest.Keys == timers.Keys - {e.id};
    }
  }

  lemma RegisterLinks(t: Task, r: Registration)
    ensures Register(t, r).connectionTimers == Link(t.connectionTimers, r.connectionId, t.schedule.nextEntryId)
    ensures Register(t, r).entryToConnection == t.entryToConnection[t.schedule.nextEntryId := r.connectionId]
  {
  }

  /** Cancelling one id, in terms of its own connection only. */
  lemma CancelOne(t: Task, id: nat)
    requires TaskOk(t)
    ensures id in t.entryToConnection <==> id in t.schedule.timers
    ensures id !in t.schedule.timers ==> CancelAll(t, {id}) == t.(schedule := CancelTimers(t.schedule, {id}))
    ensures id in t.schedule.timers ==>
        var c := t.entryToConnection[id];
        && c in t.connectionTimers
        && CancelAll(t, {id}) ==
           t.(schedule := CancelTimers(t.schedule, {id}),
              connectionTimers := if t.connectionTimers[c] - {id} == {} then t.connectionTimers - {c}
                                  else t.connectionTimers[c := t.connectionTimers[c] - {id}],
              entryToConnection := t.entryToConnection - {id},
              cancelled := t.cancelled + 1)
  {
    hide TaskOk, Unlink, CancelTimers, Linked;
    TaskParts(t);
    if id in t.schedule.timers {
      UnlinkOne(t.connectionTimers, t.entryToConnection, id);
      assert t.schedule.timers.Keys * {id} == {id};
    } else {
      UnlinkNone(t.connectionTimers, t.entryToConnection, {id});
      assert t.schedule.timers.Keys * {id} == {};
      assert t.entryToConnection - {id} == t.entryToConnection;
    }
  }

  lemma UnlinkNone(index: ConnectionIndex, e2c: map<nat, nat>, ids: set<nat>)
    requires Linked(index, e2c) && ids !! e2c.Keys
    ensures Unlink(index, ids) == index
  {
    forall c | c in index
      ensures index[c] - ids == index[c]
    {
      assert forall id :: id in index[c] ==> id in e2c;
    }
  }

  /** An allowed batch cancel is safe on every wheel with the task's schedule. */
  lemma AllowedCancelIsSafe(t: Task, w: Wheel, ids: seq<nat>)
    requires WheelOk(w) && View(w) == t.schedule
    ensures CommandOk(t, BatchCancelTimers(ids)) ==>
        BatchSafe(w.slots, w.timerMap, ids) && Step(t, BatchCancelTimers(ids)) == CancelAll(t, set id | id in ids)
  {
    hide WheelOk, BatchSafe, Repeatable, CancelAll;
    WheelBasics(w);
    if CommandOk(t, BatchCancelTimers(ids)) {
      RepeatableIsSafe(w, ids);
    }
  }

  lemma EmptyCancel(t: Task)
    requires TaskOk(t)
    ensures CancelAll(t, {}) == t && t.schedule.timers.Keys * {} == {}
  {
    hide TaskOk, Unlink, Linked;
    TaskParts(t);
    UnlinkNone(t.connectionTimers, t.entryToConnection, {});
    assert t.schedule.timers - {} == t.schedule.timers;
    assert t.entryToConnection - {} == t.entryToConnection;
  }

  /** Requests that cannot succeed: the id is not live, or an earlier request took it. */
  ghost predicate FailsAt(ids: seq<nat>, live: set<nat>, i: int) {
    0 <= i < |ids| && (ids[i] !in live || ids[i] in ids[..i])
  }

  ghost function Taken(ids: seq<nat>, i: nat): set<nat>
    requires i <= |ids|
  {
    set id | id in ids[..i]
  }

  /** The bookkeeping of a batch cancel after its first `i` requests. */
  ghost predicate Collected(ids: seq<nat>, i: nat, e2c0: map<nat, nat>, e2c: map<nat, nat>,
                            groups: map<nat, seq<nat>>, successes: nat, failures: seq<nat>)
    requires i <= |ids|
  {
    && e2c == e2c0 - Taken(ids, i)
    && GroupedByConnection(groups, e2c0, Taken(ids, i))
    && successes == |e2c0.Keys * Taken(ids, i)|
    && FailuresAre(ids, i, e2c0.Keys, failures)
  }

  ghost predicate FailuresAre(ids: seq<nat>, i: nat, live: set<nat>, failures: seq<nat>) {
    forall j: nat :: j in failures <==> j < i && FailsAt(ids, live, j)
  }

  lemma CollectOneMore(ids: seq<nat>, i: nat, e2c0: map<nat, nat>, e2c: map<nat, nat>,
                       groups: map<nat, seq<nat>>, successes: nat, failures: seq<nat>)
    requires i < |ids| && Collected(ids, i, e2c0, e2c, groups, successes, failures)
    ensures ids[i] in e2c ==>
        ids[i] in e2c0 && e2c[ids[i]] == e2c0[ids[i]]
        && Collected(ids, i + 1, e2c0, e2c - {ids[i]}, AddToGroup(groups, e2c[ids[i]], ids[i]), successes + 1, failures)
    ensures ids[i] !in e2c ==> Collected(ids, i + 1, e2c0, e2c, groups, successes, failures + [i])
  {
    hide GroupedByConnection, AddToGroup, FailuresAre, Taken;
    var id := ids[i];
    GroupConnection(groups, e2c0, Taken(ids, i), id);
    FailuresOneMore(ids, i, e2c0.Keys, failures);
    TakenOneMore(ids, i);
    TakeOff(e2c0, Taken(ids, i), id);
  }

  lemma TakenOneMore(ids: seq<nat>, i: nat)
    requires i < |ids|
    ensures Taken(ids, i + 1) == Taken(ids, i) + {ids[i]}
  {
    assert ids[..i + 1] == ids[..i] + [ids[i]];
  }

  lemma TakeOff(m: map<nat, nat>, taken: set<nat>, id: nat)
    ensures m - (taken + {id}) == m - taken - {id}
    ensures id in m - taken ==> |m.Keys * (taken + {id})| == |m.Keys * taken| + 1
    ensures id !in m - taken ==> m.Keys * (taken + {id}) == m.Keys * taken && m - (taken + {id}) == m - taken
  {
    if id in m - taken { assert m.Keys * (taken + {id}) == m.Keys * taken + {id}; }
  }

  lemma FailuresOneMore(ids: seq<nat>, i: nat, live: set<nat>, failures: seq<nat>)
    requires i < |ids| && FailuresAre(ids, i, live, failures)
    ensures ids[i] in live && ids[i] !in Taken(ids, i) ==> FailuresAre(ids, i + 1, live, failures)
    ensures ids[i] !in live || ids[i] in Taken(ids, i) ==> FailuresAre(ids, i + 1, live, failures + [i])
  {
  }

  lemma NothingCollected(ids: seq<nat>, e2c: map<nat, nat>)
    ensures Collected(ids, 0, e2c, e2c, map[], 0, [])
  {
    var none := Taken(ids, 0);
    assert none == {} && e2c - none == e2c && e2c.Keys * none == {};
  }

  lemma CollectedAll(ids: seq<nat>, e2c0: map<nat, nat>, e2c: map<nat, nat>,
                     groups: map<nat, seq<nat>>, successes: nat, failures: seq<nat>)
    requires Collected(ids, |ids|, e2c0, e2c, groups, successes, failures)
    ensures var all := set id | id in ids;
            && e2c == e2c0 - all && GroupedByConnection(groups, e2c0, all) && successes == |e2c0.Keys * all|
    ensures forall i: nat :: i in failures <==> FailsAt(ids, e2c0.Keys, i)
  {
    assert ids[..|ids|] == ids;
    assert Taken(ids, |ids|) == set id | id in ids;
  }

  lemma CancelAllParts(t: Task, ids: set<nat>, t': Task)
    requires TaskOk(t) && t'.schedule == CancelTimers(t.schedule, ids)
    requires t'.connectionTimers == Unlink(t.connectionTimers, ids) && t'.entryToConnection == t.entryToConnection - ids
    requires t'.nextEventId == t.nextEventId && t'.processed == t.processed
    requires t'.cancelled == t.cancelled + |t.entryToConnection.Keys * ids|
    ensures t' == CancelAll(t, ids)
  {
    hide Unlink, CancelTimers, Linked, ScheduleOk;
  }

  lemma TaskParts(t: Task)
    requires TaskOk(t)
    ensures Linked(t.connectionTimers, t.entryToConnection)
    ensures t.entryToConnection.Keys == t.schedule.timers.Keys
  {
  }

  /** Clearing a connection removes its entry and touches no other. */
  lemma ClearParts(t: Task, connectionId: nat)
    requires TaskOk(t)
    ensures var ids := TimersOf(t, connectionId);
            && ids <= t.schedule.timers.Keys
            && CancelAll(t, ids) ==
               t.(schedule := CancelTimers(t.schedule, ids),
                  connectionTimers := t.connectionTimers - {connectionId},
                  entryToConnection := t.entryToConnection - ids,
                  cancelled := t.cancelled + |ids|)
  {
    hide TaskOk, Unlink, CancelTimers, CancelAll, Linked, TimersOf;
    TaskParts(t);
    OwnTimers(t, connectionId);
    var ids := TimersOf(t, connectionId);
    UnlinkConnection(t.connectionTimers, t.entryToConnection, connectionId);
    CancelLive(t, ids, t.connectionTimers - {connectionId});
  }

  lemma OwnTimers(t: Task, connectionId: nat)
    requires Linked(t.connectionTimers, t.entryToConnection)
    ensures TimersOf(t, connectionId)
            == if connectionId in t.connectionTimers then t.connectionTimers[connectionId] else {}
    ensures TimersOf(t, connectionId) <= t.entryToConnection.Keys
  {
    OwnTimersLive(t.connectionTimers, t.entryToConnection, connectionId);
  }

  lemma CancelLive(t: Task, ids: set<nat>, index: ConnectionIndex)
    requires ids <= t.entryToConnection.Keys == t.schedule.timers.Keys
    requires Unlink(t.connectionTimers, ids) == index
    ensures CancelAll(t, ids) == t.(schedule := CancelTimers(t.schedule, ids), connectionTimers := index,
                                    entryToConnection := t.entryToConnection - ids,
                                    cancelled := t.cancelled + |ids|)
  {
    hide Unlink, CancelTimers;
    assert t.schedule.timers.Keys * ids == ids;
  }

  lemma OwnTimersLive(index: ConnectionIndex, e2c: map<nat, nat>, c: nat)
    requires Linked(index, e2c)
    ensures c in index ==> index[c] <= e2c.Keys
  {
  }

  lemma UnlinkConnection(index: ConnectionIndex, e2c: map<nat, nat>, c: nat)
    requires Linked(index, e2c)
    ensures Unlink(index, if c in index then index[c] else {}) == index - {c}
  {
    var ids := if c in index then index[c] else {};
    forall d | d in index && d != c
      ensures index[d] - ids == index[d]
    {
      forall id | id in index[d]
        ensures id !in ids
      {
        OneOwner(index, e2c, d, c, id);
      }
    }
  }

  lemma OneOwner(index: ConnectionIndex, e2c: map<nat, nat>, d: nat, c: nat, id: nat)
    requires Linked(index, e2c) && d in index && id in index[d] && c != d
    ensures c in index ==> id !in index[c]
  {
  }

  lemma CancelNothing(s: Schedule)
    ensures CancelTimers(s, {}) == s
  {
    assert s.timers - {} == s.timers;
  }

  /** Cancelling one more id after others is cancelling them together. */
  lemma CancelMore(s: Schedule, ids: set<nat>, id: nat)
    requires id in s.timers && id !in ids
    ensures CancelTimers(CancelTimers(s, ids), {id}) == CancelTimers(s, ids + {id})
    ensures id in CancelTimers(s, ids).timers
  {
    var s1 := CancelTimers(s, ids);
    assert s1.timers - {id} == s.timers - (ids + {id});
    assert DropsCache(s, ids + {id}) <==>
           DropsCache(s, ids) || (s.cachedNextExpiry.Some?
                                  && s.timers[id].expiryTime <= s.cachedNextExpiry.value + MILLISECOND);
    assert DropsCache(s1, {id}) <==>
           !DropsCache(s, ids) && s.cachedNextExpiry.Some?
           && s.timers[id].expiryTime <= s.cachedNextExpiry.value + MILLISECOND;
  }

  lemma NothingDue(t: Task, now: nat)
    requires TaskOk(t) && |DueTimers(t.schedule.timers, now)| == 0
    ensures AdvanceTo(t, now) == t.(schedule := Advance(t.schedule, now))
  {
    hide TaskOk, Linked, Unlink, Advance, DueTimers;
    TaskParts(t);
    UnlinkNone(t.connectionTimers, t.entryToConnection, {});
    assert DueTimers(t.schedule.timers, now).Keys == {};
    assert t.entryToConnection - {} == t.entryToConnection;
  }
}
