/** The global timer task: one wheel and two indexes by connection, kept in step. */
module GlobalTimerTasks {
  import opened Bits
  import opened Options
  import opened Sequences
  import opened WheelModel
  import opened WheelBatches
  import opened WheelCancels
  import opened TimingWheels
  import opened TaskModel

  const SLOT_COUNT: nat := 512
  const SLOT_DURATION: nat := 10 * MILLISECOND

  class GlobalTimerTask {
    const timingWheel: TimingWheel
    var connectionTimers: ConnectionIndex
    var entryToConnection: map<nat, nat>
    var nextEventId: nat
    var processedTimers: nat
    var cancelledTimers: nat

    ghost function Model(): Task
      reads this, timingWheel
    {
      Task(timingWheel.Schedule(), connectionTimers, entryToConnection, nextEventId, processedTimers, cancelledTimers)
    }

    ghost predicate Valid()
      reads this, timingWheel
    {
      timingWheel.Valid() && timingWheel.slotDuration == SLOT_DURATION && TaskOk(Model())
    }

    constructor (now: nat)
      ensures Valid() && fresh(timingWheel)
      ensures RunOk(Model())
      ensures Model().schedule == Schedule(Config(512, 10_000_000, now), now, map[], 1, None)
      ensures Model() == Task(Model().schedule, map[], map[], 1, 0, 0)
    {
      assert Pow2(9) == SLOT_COUNT by { Pow2Sum(4, 4); assert Pow2(4) == 16; }
      timingWheel := new TimingWheel(SLOT_COUNT, SLOT_DURATION, now, 9);
      connectionTimers := map[];
      entryToConnection := map[];
      nextEventId := 1;
      processedTimers := 0;
      cancelledTimers := 0;
    }

    static lemma NextIdOf(wheel: TimingWheel)
      ensures wheel.Schedule().nextEntryId == wheel.nextEntryId
    {
    }

    static lemma CacheOf(wheel: TimingWheel)
      ensures wheel.Schedule().cachedNextExpiry == wheel.cachedNextExpiry
    {
    }

    method RegisterTimer(registration: Registration) returns (entryId: nat)
      requires Valid()
      modifies this, timingWheel
      ensures Valid()
      ensures Model() == Register(old(Model()), registration)
      ensures entryId == old(Model()).schedule.nextEntryId
    {
      hide TimingWheel.Valid, TimingWheel.Schedule, TaskOk, WheelModel.AddTimer, Link;
      RegisterKeepsOk(Model(), registration);
      NextIdOf(timingWheel);
      var eventId := nextEventId;
      nextEventId := nextEventId + 1;
      var event := TimerEvent(eventId, registration.connectionId, registration.kind);
      entryId := timingWheel.AddTimer(registration.delay, event);
      connectionTimers := Link(connectionTimers, registration.connectionId, entryId);
      entryToConnection := entryToConnection[entryId := registration.connectionId];
    }

    /** Registers a batch through the wheel's batch path. Wheel and indexes go on agreeing if
        and only if the command is allowed; it is the same as registering the list one by one if
        and only if every expiry fits 64 bits, counted from the wheel's start. */
    method BatchRegisterTimers(registrations: seq<Registration>) returns (entryIds: seq<nat>)
      requires Valid() && timingWheel.nextEntryId + |registrations| < U64_LIMIT
      modifies this, timingWheel
      ensures Valid() <==> CommandOk(old(Model()), Command.BatchRegisterTimers(registrations))
      ensures Valid() ==> Model() == Step(old(Model()), Command.BatchRegisterTimers(registrations))
      ensures Model() == RegisterAll(old(Model()), registrations)
              <==> ExpiriesFit(old(Model()).schedule, registrations)
      ensures |entryIds| == |registrations|
      ensures forall i :: 0 <= i < |entryIds| ==> entryIds[i] == old(Model()).schedule.nextEntryId + i
    {
      hide TimingWheel.Valid, TimingWheel.Schedule, TimingWheel.State, TaskOk, AddTimers, RegisterAll, InTime,
           WheelAddAll, Pow2, Batch, Laned, ExpiriesFit;
      ghost var before, lanes := Model(), Laned(Model().schedule, registrations);
      if registrations == [] {
        RegisterNone(Model());
        NothingLaned(Model().schedule);
        return [];
      }
      NextIdOf(timingWheel);
      RegisterAllKeepsOk(before, lanes);
      RegisterAllShape(before, registrations);
      LanedLinksAlike(before, registrations);
      entryIds := AddBatch(registrations);
      LinkAll(before, registrations, entryIds);
      if timingWheel.Valid() { RegisterAllIs(before, lanes, Model()); }
      if ExpiriesFit(before.schedule, registrations) { RegisterAllIs(before, registrations, Model()); }
    }

    method AddBatch(registrations: seq<Registration>) returns (entryIds: seq<nat>)
      requires timingWheel.Valid() && timingWheel.slotDuration == SLOT_DURATION
      requires timingWheel.nextEntryId + |registrations| < U64_LIMIT
      modifies this`nextEventId, timingWheel
      ensures nextEventId == old(nextEventId) + |registrations|
      ensures timingWheel.Valid() <==> InTime(old(timingWheel.Schedule()), registrations)
      ensures timingWheel.Valid() ==>
          timingWheel.Schedule() == AddTimers(old(timingWheel.Schedule()),
                                              Batch(old(nextEventId), Laned(old(timingWheel.Schedule()), registrations)))
      ensures timingWheel.Schedule() == AddTimers(old(timingWheel.Schedule()), Batch(old(nextEventId), registrations))
              <==> ExpiriesFit(old(timingWheel.Schedule()), registrations)
      ensures |entryIds| == |registrations|
      ensures forall i :: 0 <= i < |entryIds| ==> entryIds[i] == old(timingWheel.nextEntryId) + i
    {
      hide TimingWheel.Valid, TimingWheel.Schedule, TimingWheel.State, AddTimers, WheelAddAll, Pow2, Appended, AllFit,
           NoneBehind, Batch, Laned, LaneBatch, InTime, ExpiriesFit;
      var timersForWheel := Batch(nextEventId, registrations);
      ClockOf(timingWheel);
      LanedBatch(timingWheel.Schedule(), nextEventId, registrations);
      FitsAlike(timingWheel.Schedule(), nextEventId, registrations);
      nextEventId := nextEventId + |registrations|;
      entryIds := timingWheel.BatchAddTimers(timersForWheel);
    }

    static lemma ClockOf(wheel: TimingWheel)
      ensures wheel.Schedule().config == wheel.Settings() && wheel.Schedule().currentTime == wheel.currentTime
    {
    }

    method LinkAll(ghost before: Task, registrations: seq<Registration>, entryIds: seq<nat>)
      requires connectionTimers == before.connectionTimers && entryToConnection == before.entryToConnection
      requires |entryIds| == |registrations|
      requires forall i :: 0 <= i < |entryIds| ==> entryIds[i] == before.schedule.nextEntryId + i
      modifies this`connectionTimers, this`entryToConnection
      ensures connectionTimers == RegisterAll(before, registrations).connectionTimers
      ensures entryToConnection == RegisterAll(before, registrations).entryToConnection
    {
      assert registrations[..0] == [];
      for i := 0 to |registrations|
        invariant connectionTimers == RegisterAll(before, registrations[..i]).connectionTimers
        invariant entryToConnection == RegisterAll(before, registrations[..i]).entryToConnection
      {
        hide RegisterAll, Register, Link;
        RegisterAllUnfolds(before, registrations, i);
        RegisterAllShape(before, registrations[..i]);
        RegisterLinks(RegisterAll(before, registrations[..i]), registrations[i]);
        connectionTimers := Link(connectionTimers, registrations[i].connectionId, entryIds[i]);
        entryToConnection := entryToConnection[entryIds[i] := registrations[i].connectionId];
      }
      assert registrations[..|registrations|] == registrations;
    }

    method CancelTimer(entryId: nat) returns (cancelled: bool)
      requires Valid()
      modifies this, timingWheel
      ensures Valid()
      ensures Model() == CancelAll(old(Model()), {entryId})
      ensures cancelled == (entryId in old(Model()).schedule.timers)
    {
      hide TimingWheel.Valid, TimingWheel.Schedule, TaskOk, CancelTimers, CancelAll;
      ghost var before := Model();
      CancelAllKeepsOk(before, {entryId});
      CancelOne(before, entryId);
      cancelled := timingWheel.CancelTimer(entryId);
      if cancelled {
        var connectionId := entryToConnection[entryId];
        entryToConnection := entryToConnection - {entryId};
        var entryIds := connectionTimers[connectionId] - {entryId};
        connectionTimers :=
          if entryIds == {} then connectionTimers - {connectionId} else connectionTimers[connectionId := entryIds];
        cancelledTimers := cancelledTimers + 1;
      }
    }

    /** Takes the grouped ids out of their connections' sets, dropping sets left empty. */
    method UnlinkGroups(groups: map<nat, seq<nat>>, ghost e2c: map<nat, nat>, ghost ids: set<nat>)
      requires Linked(connectionTimers, e2c) && GroupedByConnection(groups, e2c, ids)
      modifies this`connectionTimers
      ensures connectionTimers == Unlink(old(connectionTimers), ids)
    {
      ghost var index := connectionTimers;
      hide Linked, GroupedByConnection, Unlink, PartlyUnlinked;
      var left := groups.Keys;
      NothingUnlinked(index, ids);
      assert groups.Keys - left == {};
      while left != {}
        invariant left <= groups.Keys
        invariant connectionTimers == PartlyUnlinked(index, ids, groups.Keys - left)
        decreases left
      {
        var connectionId :| connectionId in left;
        UnlinkStep(index, ids, groups.Keys - left, connectionId);
        assert groups.Keys - left + {connectionId} == groups.Keys - (left - {connectionId});
        if connectionId in connectionTimers {
          GroupRemoves(index, e2c, ids, groups, connectionId);
          var entryIds := RemoveAll(connectionTimers[connectionId], groups[connectionId]);
          connectionTimers :=
            if entryIds == {} then connectionTimers - {connectionId} else connectionTimers[connectionId := entryIds];
        }
        left := left - {connectionId};
      }
      assert groups.Keys - left == groups.Keys;
      AllUnlinked(index, e2c, ids, groups);
    }

    method RemoveAll(ids: set<nat>, gone: seq<nat>) returns (rest: set<nat>)
      ensures rest == ids - (set id | id in gone)
    {
      rest := ids;
      for i := 0 to |gone|
        invariant rest == ids - (set id | id in gone[..i])
      {
        TakeOneMore(gone, i);
        rest := rest - {gone[i]};
      }
      assert gone[..|gone|] == gone;
    }

    /** Cancels a batch. Wheel and indexes go on agreeing if and only if the wheel's safety
        condition holds, and then exactly the live ids go; otherwise the indexes keep a timer
        that is queued nowhere. Any request that repeats no live id harmfully meets the
        condition. Each request that finds its id already gone, or never live, is a failure. */
    method BatchCancelTimers(entryIds: seq<nat>) returns (successes: nat, failures: seq<nat>)
      requires Valid()
      modifies this, timingWheel
      ensures Valid() <==> BatchSafe(old(timingWheel.slots), old(timingWheel.timerMap), entryIds)
      ensures Valid() ==> Model() == CancelAll(old(Model()), set id | id in entryIds)
      ensures !Valid() ==> KeepsStranded(entryToConnection, entryIds, timingWheel.slots, timingWheel.timerMap)
      ensures CommandOk(old(Model()), Command.BatchCancelTimers(entryIds)) ==>
          Valid() && Model() == Step(old(Model()), Command.BatchCancelTimers(entryIds))
      ensures successes == |old(Model()).schedule.timers.Keys * set id | id in entryIds|
      ensures forall i: nat :: i in failures <==>
          i < |entryIds| && (entryIds[i] !in old(Model()).schedule.timers || entryIds[i] in entryIds[..i])
    {
      hide TimingWheel.Valid, TimingWheel.Schedule, TaskOk, CancelAll, BatchSafe, KeepsStranded, CommandOk, Step;
      ghost var before, ids := Model(), set id | id in entryIds;
      WheelParts(timingWheel);
      CancelAllKeepsOk(before, ids);
      AllowedCancelIsSafe(before, timingWheel.State(), entryIds);
      if entryIds == [] {
        EmptyCancel(before);
        assert ids == {} && BatchSafe(timingWheel.slots, timingWheel.timerMap, entryIds) by {
          EmptyBatch(timingWheel.State());
        }
        return 0, [];
      }
      successes, failures := CancelListed(entryIds);
    }

    method CancelListed(entryIds: seq<nat>) returns (successes: nat, failures: seq<nat>)
      requires Valid() && entryIds != []
      modifies this, timingWheel
      ensures timingWheel.Valid() <==> BatchSafe(old(timingWheel.slots), old(timingWheel.timerMap), entryIds)
      ensures timingWheel.Valid() ==> Model() == CancelAll(old(Model()), set id | id in entryIds)
      ensures !timingWheel.Valid() ==>
          KeepsStranded(entryToConnection, entryIds, timingWheel.slots, timingWheel.timerMap)
      ensures successes == |old(Model()).schedule.timers.Keys * set id | id in entryIds|
      ensures forall i: nat :: i in failures <==> FailsAt(entryIds, old(Model()).schedule.timers.Keys, i)
    {
      hide TimingWheel.Valid, TimingWheel.Schedule, TaskOk, CancelTimers, Unlink, BatchSafe, LosesUnrequested,
           LeavesBehind, KeepsStranded, CancelAll, FailsAt;
      ghost var slots0, map0 := timingWheel.slots, timingWheel.timerMap;
      ghost var before, e2c, ids := Model(), entryToConnection, set id | id in entryIds;
      WheelParts(timingWheel);
      TaskParts(before);
      var cancelledCount := timingWheel.BatchCancelTimers(entryIds);
      successes, failures := UnlinkListed(entryIds);
      if timingWheel.Valid() {
        CancelAllParts(before, ids, Model());
      } else {
        LostIsKept(e2c, slots0, map0, entryIds, entryToConnection, timingWheel.slots, timingWheel.timerMap, cancelledCount);
      }
    }

    /** Takes the requested ids out of both indexes. */
    method UnlinkListed(entryIds: seq<nat>) returns (successes: nat, failures: seq<nat>)
      requires Linked(connectionTimers, entryToConnection)
      modifies this`connectionTimers, this`entryToConnection, this`cancelledTimers
      ensures connectionTimers == Unlink(old(connectionTimers), set id | id in entryIds)
      ensures entryToConnection == old(entryToConnection) - set id | id in entryIds
      ensures successes == |old(entryToConnection).Keys * set id | id in entryIds|
      ensures cancelledTimers == old(cancelledTimers) + successes
      ensures forall i: nat :: i in failures <==> FailsAt(entryIds, old(entryToConnection).Keys, i)
    {
      hide Unlink, Linked, Collected, GroupedByConnection, FailsAt;
      ghost var e2c := entryToConnection;
      var connectionsToUpdate;
      connectionsToUpdate, successes, failures := CollectCancelled(entryIds);
      CollectedAll(entryIds, e2c, entryToConnection, connectionsToUpdate, successes, failures);
      UnlinkGroups(connectionsToUpdate, e2c, set id | id in entryIds);
    }

    static lemma WheelParts(wheel: TimingWheel)
      requires wheel.Valid()
      ensures WheelOk(wheel.State()) && Indexed(wheel.slots, wheel.timerMap)
      ensures View(wheel.State()) == wheel.Schedule() && ConfigOk(wheel.Schedule().config)
      ensures wheel.Schedule().timers.Keys == wheel.timerMap.Keys
    {
      FoundKeys(wheel.slots, wheel.timerMap);
    }

    /** Drops the reverse mapping of every requested id still there and groups those ids by
        connection; the others are recorded as failures. */
    method CollectCancelled(entryIds: seq<nat>)
      returns (connectionsToUpdate: map<nat, seq<nat>>, successes: nat, failures: seq<nat>)
      modifies this`entryToConnection, this`cancelledTimers
      ensures Collected(entryIds, |entryIds|, old(entryToConnection), entryToConnection,
                        connectionsToUpdate, successes, failures)
      ensures cancelledTimers == old(cancelledTimers) + successes
    {
      hide Collected, AddToGroup;
      connectionsToUpdate, successes, failures := map[], 0, [];
      NothingCollected(entryIds, entryToConnection);
      for i := 0 to |entryIds|
        invariant Collected(entryIds, i, old(entryToConnection), entryToConnection,
                            connectionsToUpdate, successes, failures)
        invariant cancelledTimers == old(cancelledTimers) + successes
      {
        var entryId := entryIds[i];
        CollectOneMore(entryIds, i, old(entryToConnection), entryToConnection, connectionsToUpdate, successes, failures);
        if entryId in entryToConnection {
          connectionsToUpdate := AddToGroup(connectionsToUpdate, entryToConnection[entryId], entryId);
          entryToConnection := entryToConnection - {entryId};
          cancelledTimers := cancelledTimers + 1;
          successes := successes + 1;
        } else {
          failures := failures + [i];
        }
      }
    }

    method ClearConnectionTimers(connectionId: nat) returns (count: nat)
      requires Valid()
      modifies this, timingWheel
      ensures Valid()
      ensures Model() == CancelAll(old(Model()), TimersOf(old(Model()), connectionId))
      ensures count == |TimersOf(old(Model()), connectionId)|
    {
      hide TimingWheel.Valid, TimingWheel.Schedule, TaskOk, CancelTimers, CancelAll, Unlink;
      ghost var before := Model();
      ghost var all := TimersOf(before, connectionId);
      CancelAllKeepsOk(before, all);
      ClearParts(before, connectionId);
      if connectionId !in connectionTimers {
        EmptyCancel(before);
        return 0;
      }
      var entryIds := connectionTimers[connectionId];
      connectionTimers := connectionTimers - {connectionId};
      count := CancelEach(entryIds);
    }

    /** Cancels the ids one by one, in any order. */
    method CancelEach(entryIds: set<nat>) returns (count: nat)
      requires timingWheel.Valid() && entryIds <= timingWheel.Schedule().timers.Keys
      modifies this`entryToConnection, this`cancelledTimers, timingWheel
      ensures timingWheel.Valid()
      ensures timingWheel.Schedule() == CancelTimers(old(timingWheel.Schedule()), entryIds)
      ensures entryToConnection == old(entryToConnection) - entryIds
      ensures count == |entryIds| && cancelledTimers == old(cancelledTimers) + count
    {
      hide TimingWheel.Valid, TimingWheel.Schedule, CancelTimers;
      ghost var schedule := timingWheel.Schedule();
      count := 0;
      var left := entryIds;
      CancelNothing(schedule);
      assert entryIds - left == {} && entryToConnection - {} == entryToConnection;
      while left != {}
        invariant left <= entryIds && timingWheel.Valid()
        invariant timingWheel.Schedule() == CancelTimers(schedule, entryIds - left)
        invariant entryToConnection == old(entryToConnection) - (entryIds - left)
        invariant count == |entryIds| - |left| && cancelledTimers == old(cancelledTimers) + count
        decreases left
      {
        var entryId :| entryId in left;
        CancelMore(schedule, entryIds - left, entryId);
        assert entryIds - left + {entryId} == entryIds - (left - {entryId});
        var cancelled := timingWheel.CancelTimer(entryId);
        if cancelled {
          entryToConnection := entryToConnection - {entryId};
          count := count + 1;
          cancelledTimers := cancelledTimers + 1;
        }
        left := left - {entryId};
      }
      assert entryIds - left == entryIds;
    }

    /** Fires everything due: exactly the due timers, each once. */
    method AdvanceTimingWheel(now: nat) returns (expired: seq<TimerEntry>)
      requires Valid() && SlotsToAdvance(Model().schedule, now) < U64_LIMIT
      modifies this, timingWheel
      ensures Valid()
      ensures Model() == AdvanceTo(old(Model()), now)
      ensures ListsExactly(expired, Fired(old(Model()), Tick(now)))
    {
      hide TimingWheel.Valid, TimingWheel.Schedule, TaskOk, Linked, Unlink, GroupedByConnection, ListsExactly,
           DueTimers, WheelModel.Advance, IdsOf;
      ghost var before, e2c := Model(), entryToConnection;
      ghost var due := DueTimers(before.schedule.timers, now);
      AdvanceToKeepsOk(before, now);
      TaskParts(before);
      expired := timingWheel.Advance(now);
      DueLength(before, now, expired);
      if expired == [] {
        NothingDue(before, now);
        return;
      }
      var expiredByConnection := GroupExpired(expired);
      ForgetExpired(expired);
      UnlinkGroups(expiredByConnection, e2c, due.Keys);
      processedTimers := processedTimers + |expired|;
    }

    method ForgetExpired(expired: seq<TimerEntry>)
      modifies this`entryToConnection
      ensures entryToConnection == old(entryToConnection) - IdsOf(expired)
    {
      for i := 0 to |expired|
        invariant entryToConnection == old(entryToConnection) - IdsOf(expired[..i])
      {
        IdsOfOneMore(expired, i);
        entryToConnection := entryToConnection - {expired[i].id};
      }
      assert expired[..|expired|] == expired;
    }

    method GroupExpired(expired: seq<TimerEntry>) returns (groups: map<nat, seq<nat>>)
      ensures GroupedByConnection(groups, entryToConnection, IdsOf(expired))
    {
      groups := map[];
      for i := 0 to |expired|
        invariant GroupedByConnection(groups, entryToConnection, IdsOf(expired[..i]))
      {
        hide GroupedByConnection, IdsOf;
        var id := expired[i].id;
        IdsOfOneMore(expired, i);
        GroupConnection(groups, entryToConnection, IdsOf(expired[..i]), id);
        if id in entryToConnection {
          groups := AddToGroup(groups, entryToConnection[id], id);
        }
      }
      assert expired[..|expired|] == expired;
    }

    /** The next wakeup: the cached or computed next expiry, but never sooner than the slack. */
    method GetNextWakeupTime(now: nat) returns (wakeup: nat)
      requires Valid()
      modifies timingWheel
      ensures Valid()
      ensures Model() == old(Model()).(schedule := QueryNextExpiry(old(Model()).schedule))
      ensures wakeup == NextWakeup(old(Model()).schedule, now)
      ensures WakesAt(old(Model()).schedule, now, wakeup)
    {
      hide TimingWheel.Valid, TimingWheel.Schedule, TaskOk, Earliest, WakesAt;
      NextWakeupIs(Model().schedule, now);
      QueryKeepsOk(Model());
      var expiry := timingWheel.NextExpiryTime();
      CacheOf(timingWheel);
      match expiry {
        case Some(t) => wakeup := if t <= now + WAKEUP_SLACK then now + WAKEUP_SLACK else t;
        case None => wakeup := now + IDLE_WAKEUP;
      }
    }
  }

  /** The task still knows the connection of a timer that nobody cancelled and that is queued
      nowhere. */
  ghost predicate KeepsStranded(entryToConnection: map<nat, nat>, ids: seq<nat>, slots: Slots, timerMap: Index) {
    exists id :: id in entryToConnection && id !in ids && Stranded(slots, timerMap, id)
  }

  lemma LostIsKept(e2c0: map<nat, nat>, slots0: Slots, map0: Index, ids: seq<nat>, e2c: map<nat, nat>,
                   slots: Slots, timerMap: Index, count: int)
    requires Indexed(slots0, map0) && LosesUnrequested(slots0, slots, ids)
    requires LeavesBehind(slots0, map0, ids, slots, timerMap, count)
    requires e2c0.Keys == map0.Keys && e2c == e2c0 - set id | id in ids
    ensures KeepsStranded(e2c, ids, slots, timerMap)
  {
    hide Indexed, LosesUnrequested, LeavesBehind, Stranded;
    LostIsStranded(slots0, map0, ids, slots, timerMap, count);
    var id :| id in map0 && id !in ids && Stranded(slots, timerMap, id);
    assert id in e2c;
  }
}
