/** What the timing wheel stores and what it is for.

    `Wheel` is the concrete state: slots of queued entries plus a positional index.
    `Schedule` is the specification: a plain map from timer id to timer, a clock and a
    cached next expiry. `View` reads the schedule off a wheel. */
module WheelModel {
  import opened Bits
  import opened Options

  datatype TimerEvent = TimerEvent(id: nat, connectionId: nat, kind: nat)

  datatype TimerEntry = TimerEntry(id: nat, expiryTime: nat, event: TimerEvent)

  /** Instants and durations are nanoseconds. */
  datatype Config = Config(slotCount: nat, slotDuration: nat, startTime: nat)

  const MILLISECOND: nat := 1_000_000

  ghost predicate ConfigOk(c: Config) {
    c.slotCount > 0 && c.slotDuration > 0
  }

  // ---------------------------------------------------------------------------------
  // The specification: a set of timers
  // ---------------------------------------------------------------------------------

  type Timers = map<nat, TimerEntry>

  datatype Schedule = Schedule(
    config: Config,
    currentTime: nat,
    timers: Timers,
    nextEntryId: nat,
    cachedNextExpiry: Option<nat>)

  function Earlier(cached: Option<nat>, expiry: nat): Option<nat> {
    match cached
    case None => Some(expiry)
    case Some(t) => if expiry < t then Some(expiry) else cached
  }

  function AddTimer(s: Schedule, delay: nat, event: TimerEvent): Schedule {
    var expiry := s.currentTime + delay;
    s.(timers := s.timers[s.nextEntryId := TimerEntry(s.nextEntryId, expiry, event)],
       nextEntryId := s.nextEntryId + 1,
       cachedNextExpiry := Earlier(s.cachedNextExpiry, expiry))
  }

  /** Adding a batch means adding its timers one after the other. */
  function AddTimers(s: Schedule, batch: seq<(nat, TimerEvent)>): Schedule {
    if batch == [] then s
    else var last := batch[|batch| - 1];
         AddTimer(AddTimers(s, batch[..|batch| - 1]), last.0, last.1)
  }

  /** The cache is dropped when a cancelled timer expires within a millisecond of it. */
  ghost predicate DropsCache(s: Schedule, ids: set<nat>) {
    s.cachedNextExpiry.Some?
    && exists id :: id in ids && id in s.timers
                    && s.timers[id].expiryTime <= s.cachedNextExpiry.value + MILLISECOND
  }

  ghost function CancelTimers(s: Schedule, ids: set<nat>): Schedule {
    s.(timers := s.timers - ids,
       cachedNextExpiry := if DropsCache(s, ids) then None else s.cachedNextExpiry)
  }

  /** How many slots an advance to `now` passes over, before the one-revolution limit. */
  function SlotsToAdvance(s: Schedule, now: nat): nat
    requires s.config.slotDuration > 0
  {
    Elapsed(s.currentTime, now) / s.config.slotDuration
  }

  function DueTimers(timers: Timers, now: nat): Timers {
    map id | id in timers && timers[id].expiryTime <= now :: timers[id]
  }

  function PendingTimers(timers: Timers, now: nat): Timers {
    map id | id in timers && timers[id].expiryTime > now :: timers[id]
  }

  /** Every due timer leaves; the clock moves by whole slots, at most one revolution.
      The cache is forgotten only if some timer left and the clock moved. */
  function Advance(s: Schedule, now: nat): Schedule
    requires s.config.slotDuration > 0
  {
    var steps := SlotsToAdvance(s, now);
    s.(currentTime := s.currentTime + Smaller(s.config.slotCount, steps) * s.config.slotDuration,
       timers := PendingTimers(s.timers, now),
       cachedNextExpiry :=
         if steps > 0 && DueTimers(s.timers, now) != map[] then None else s.cachedNextExpiry)
  }

  /** `t` is the earliest expiry of any timer; absent exactly when there is no timer. */
  ghost predicate IsEarliest(timers: Timers, t: Option<nat>) {
    match t
    case None => timers == map[]
    case Some(m) =>
      && (exists id :: id in timers && timers[id].expiryTime == m)
      && (forall id :: id in timers ==> m <= timers[id].expiryTime)
  }

  lemma {:induction false} EarliestExists(timers: Timers) returns (t: Option<nat>)
    ensures IsEarliest(timers, t)
    decreases |timers|
  {
    if timers == map[] {
      return None;
    }
    var id :| id in timers;
    var rest := timers - {id};
    assert rest.Keys == timers.Keys - {id};
    var r := EarliestExists(rest);
    assert forall i :: i in timers ==> i == id || i in rest;
    t := Earlier(r, timers[id].expiryTime);
    if r.Some? {
      var j :| j in rest && rest[j].expiryTime == r.value;
      assert j in timers && timers[j].expiryTime == r.value;
    }
  }

  ghost function Earliest(timers: Timers): (t: Option<nat>)
    ensures IsEarliest(timers, t)
  {
    assert exists t :: IsEarliest(timers, t) by { var t := EarliestExists(timers); }
    var t :| IsEarliest(timers, t);
    t
  }

  lemma EarliestUnique(timers: Timers, t: Option<nat>)
    requires IsEarliest(timers, t)
    ensures t == Earliest(timers)
  {
    var e := Earliest(timers);
    if t.Some? && e.Some? {
      var i :| i in timers && timers[i].expiryTime == t.value;
      var j :| j in timers && timers[j].expiryTime == e.value;
    }
  }

  /** A query fills an empty cache with the true minimum. */
  ghost function QueryNextExpiry(s: Schedule): Schedule {
    if s.cachedNextExpiry.Some? then s
    else s.(cachedNextExpiry := Earliest(s.timers))
  }

  function Clear(s: Schedule): Schedule {
    s.(timers := map[], cachedNextExpiry := None)
  }

  lemma ClearForgetsTimers(s: Schedule)
    ensures IsEarliest(Clear(s).timers, Clear(s).cachedNextExpiry)
    ensures forall id, delay, event :: id in AddTimer(Clear(s), delay, event).timers <==> id == s.nextEntryId
  {
  }

  /** The cache never lies beyond a live timer. */
  ghost predicate CacheSound(s: Schedule) {
    s.cachedNextExpiry.Some? ==>
      forall id :: id in s.timers ==> s.cachedNextExpiry.value <= s.timers[id].expiryTime
  }

  /** The cache is filled, or there is nothing it could miss. */
  ghost predicate CacheReady(s: Schedule) {
    s.cachedNextExpiry.Some? || s.timers == map[]
  }

  /** The schedule's own invariant: the clock is not before the start, ids are keys below the
      counter and nothing live expires before the current time. */
  ghost predicate ScheduleOk(s: Schedule) {
    && ConfigOk(s.config) && s.config.startTime <= s.currentTime
    && forall id :: id in s.timers ==>
         s.timers[id].id == id < s.nextEntryId && s.currentTime <= s.timers[id].expiryTime
  }

  // ---------------------------------------------------------------------------------
  // The concrete wheel
  // ---------------------------------------------------------------------------------

  type Slots = seq<seq<TimerEntry>>

  type Index = map<nat, (nat, nat)>

  datatype Wheel = Wheel(
    config: Config,
    currentSlot: nat,
    currentTime: nat,
    slots: Slots,
    timerMap: Index,
    nextEntryId: nat,
    cachedNextExpiry: Option<nat>)

  predicate InBounds(slots: Slots, at: (nat, nat)) {
    at.0 < |slots| && at.1 < |slots[at.0]|
  }

  /** The index is a bijection between the ids it holds and the positions in the slots. */
  ghost predicate Indexed(slots: Slots, timerMap: Index) {
    && (forall id :: id in timerMap ==>
          InBounds(slots, timerMap[id]) && slots[timerMap[id].0][timerMap[id].1].id == id)
    && (forall s: nat, p: nat :: s < |slots| && p < |slots[s]| ==>
          slots[s][p].id in timerMap && timerMap[slots[s][p].id] == (s, p))
  }

  /** The slot a timer with this expiry belongs to. */
  function SlotIndex(c: Config, expiry: nat): nat
    requires c.slotCount > 0 && c.slotDuration > 0
  {
    (Elapsed(c.startTime, expiry) / c.slotDuration) % c.slotCount
  }

  ghost predicate Placed(c: Config, slots: Slots)
    requires ConfigOk(c)
  {
    && |slots| == c.slotCount
    && forall s: nat, p: nat :: s < |slots| && p < |slots[s]| ==> SlotIndex(c, slots[s][p].expiryTime) == s
  }

  /** The pointer and the clock move together: `currentTime` is a whole number of slots
      after the start, and `currentSlot` is that number modulo the slot count. */
  ghost predicate Aligned(c: Config, currentSlot: nat, currentTime: nat)
    requires ConfigOk(c)
  {
    && c.startTime <= currentTime
    && (currentTime - c.startTime) % c.slotDuration == 0
    && currentSlot == SlotIndex(c, currentTime)
  }

  /** The timers an index finds in the slots. */
  ghost function Find(slots: Slots, timerMap: Index): Timers {
    map id | id in timerMap && InBounds(slots, timerMap[id]) :: slots[timerMap[id].0][timerMap[id].1]
  }

  ghost function View(w: Wheel): Schedule {
    Schedule(w.config, w.currentTime, Find(w.slots, w.timerMap), w.nextEntryId, w.cachedNextExpiry)
  }

  ghost predicate WheelOk(w: Wheel) {
    && ConfigOk(w.config)
    && Indexed(w.slots, w.timerMap)
    && Placed(w.config, w.slots)
    && Aligned(w.config, w.currentSlot, w.currentTime)
    && ScheduleOk(View(w))
  }

  /** A wheel as it is built. */
  function NewWheel(c: Config): Wheel {
    Wheel(c, 0, c.startTime, seq(c.slotCount, _ => []), map[], 1, None)
  }

  lemma NewWheelIsOk(c: Config)
    requires ConfigOk(c)
    ensures WheelOk(NewWheel(c)) && View(NewWheel(c)).timers == map[]
  {
    QuotientAndRemainder(0, c.slotDuration, 0, 0);
    QuotientAndRemainder(0, c.slotCount, 0, 0);
  }

  lemma WheelBasics(w: Wheel)
    requires WheelOk(w)
    ensures ConfigOk(w.config) && |w.slots| == w.config.slotCount && Indexed(w.slots, w.timerMap)
    ensures w.currentSlot < |w.slots|
  {
  }

  /** A wheel determines its index: two bijections onto the same positions are equal. */
  lemma IndexUnique(slots: Slots, m: Index, m': Index)
    requires Indexed(slots, m) && Indexed(slots, m')
    ensures m == m'
  {
    forall id | id in m
      ensures id in m' && m'[id] == m[id]
    {
      assert slots[m[id].0][m[id].1].id == id;
    }
    forall id | id in m'
      ensures id in m
    {
      assert slots[m'[id].0][m'[id].1].id == id;
    }
  }

  /** The timers seen through the index are exactly the entries queued in the slots. */
  lemma FoundIffQueued(slots: Slots, timerMap: Index, e: TimerEntry)
    requires Indexed(slots, timerMap)
    ensures (e.id in Find(slots, timerMap) && Find(slots, timerMap)[e.id] == e)
            <==> exists s: nat, p: nat :: s < |slots| && p < |slots[s]| && slots[s][p] == e
  {
    var timers := Find(slots, timerMap);
    if e.id in timers && timers[e.id] == e {
      var at := timerMap[e.id];
      assert slots[at.0][at.1] == e;
    }
  }

  // --- adding

  /** Push an entry to the back of a slot. */
  function Place(slots: Slots, s: nat, e: TimerEntry): Slots
    requires s < |slots|
  {
    slots[s := slots[s] + [e]]
  }

  /** Record the position the entry is pushed to. */
  function PlaceIndex(slots: Slots, timerMap: Index, s: nat, e: TimerEntry): Index
    requires s < |slots|
  {
    timerMap[e.id := (s, |slots[s]|)]
  }

  lemma PlaceKeepsIndex(slots: Slots, timerMap: Index, s: nat, e: TimerEntry)
    requires Indexed(slots, timerMap) && s < |slots| && e.id !in timerMap
    ensures Indexed(Place(slots, s, e), PlaceIndex(slots, timerMap, s, e))
    ensures Find(Place(slots, s, e), PlaceIndex(slots, timerMap, s, e)) == Find(slots, timerMap)[e.id := e]
  {
    var slots': Slots := Place(slots, s, e);
    var m' := PlaceIndex(slots, timerMap, s, e);
    assert slots'[s][|slots[s]|] == e;
    assert forall t: nat, p: nat :: t < |slots| && p < |slots[t]| ==> p < |slots'[t]| && slots'[t][p] == slots[t][p];
    forall t: nat, p: nat | t < |slots'| && p < |slots'[t]|
      ensures (p < |slots[t]| && slots'[t][p] == slots[t][p]) || (t == s && p == |slots[s]| && slots'[t][p] == e)
      ensures slots'[t][p].id in m' && m'[slots'[t][p].id] == (t, p)
    {
    }
    hide Place, PlaceIndex;
    assert m' == timerMap[e.id := (s, |slots[s]|)];
  }

  lemma PlaceKeepsPlaced(c: Config, slots: Slots, s: nat, e: TimerEntry)
    requires ConfigOk(c) && Placed(c, slots) && s == SlotIndex(c, e.expiryTime) && s < |slots|
    ensures Placed(c, Place(slots, s, e))
  {
    var slots': Slots := Place(slots, s, e);
    forall t: nat, p: nat | t < |slots'| && p < |slots'[t]|
      ensures SlotIndex(c, slots'[t][p].expiryTime) == t
    {
      if p < |slots[t]| { assert slots'[t][p] == slots[t][p]; }
    }
  }

  function WheelAdd(w: Wheel, delay: nat, event: TimerEvent): Wheel
    requires w.config.slotCount > 0 && w.config.slotDuration > 0 && |w.slots| == w.config.slotCount
  {
    var expiry := w.currentTime + delay;
    var s := SlotIndex(w.config, expiry);
    var e := TimerEntry(w.nextEntryId, expiry, event);
    w.(slots := Place(w.slots, s, e),
       timerMap := PlaceIndex(w.slots, w.timerMap, s, e),
       nextEntryId := w.nextEntryId + 1,
       cachedNextExpiry := Earlier(w.cachedNextExpiry, expiry))
  }

  lemma AddKeepsSchedule(s: Schedule, delay: nat, event: TimerEvent)
    requires ScheduleOk(s)
    ensures ScheduleOk(AddTimer(s, delay, event)) && s.nextEntryId !in s.timers
  {
  }

  lemma NextIdIsUnused(w: Wheel)
    requires Indexed(w.slots, w.timerMap) && ScheduleOk(View(w))
    ensures w.nextEntryId !in w.timerMap
  {
    assert View(w).timers.Keys == w.timerMap.Keys;
  }

  lemma WheelAddView(w: Wheel, delay: nat, event: TimerEvent)
    requires ConfigOk(w.config) && |w.slots| == w.config.slotCount
    requires Indexed(w.slots, w.timerMap) && ScheduleOk(View(w))
    ensures Indexed(WheelAdd(w, delay, event).slots, WheelAdd(w, delay, event).timerMap)
    ensures View(WheelAdd(w, delay, event)) == AddTimer(View(w), delay, event)
  {
    hide Indexed, ScheduleOk, SlotIndex, Earlier, Find, Place, PlaceIndex;
    var expiry := w.currentTime + delay;
    NextIdIsUnused(w);
    SlotIndexInRange(w.config, expiry);
    PlaceKeepsIndex(w.slots, w.timerMap, SlotIndex(w.config, expiry), TimerEntry(w.nextEntryId, expiry, event));
  }

  lemma SlotIndexInRange(c: Config, expiry: nat)
    requires ConfigOk(c)
    ensures SlotIndex(c, expiry) < c.slotCount
  {
  }

  lemma WheelAddRefines(w: Wheel, delay: nat, event: TimerEvent)
    requires WheelOk(w)
    ensures WheelOk(WheelAdd(w, delay, event))
    ensures View(WheelAdd(w, delay, event)) == AddTimer(View(w), delay, event)
  {
    hide Indexed, ScheduleOk, Placed, SlotIndex, Place, PlaceIndex, AddTimer, Find;
    var expiry := w.currentTime + delay;
    WheelBasics(w);
    SlotIndexInRange(w.config, expiry);
    AddKeepsSchedule(View(w), delay, event);
    WheelAddView(w, delay, event);
    PlaceKeepsPlaced(w.config, w.slots, SlotIndex(w.config, expiry), TimerEntry(w.nextEntryId, expiry, event));
  }

  /** Folding `WheelAdd` over a batch, oldest first. */
  function WheelAddAll(w: Wheel, batch: seq<(nat, TimerEvent)>): (w': Wheel)
    requires w.config.slotCount > 0 && w.config.slotDuration > 0 && |w.slots| == w.config.slotCount
    ensures w'.config == w.config && |w'.slots| == |w.slots|
    ensures w'.nextEntryId == w.nextEntryId + |batch| && w'.currentTime == w.currentTime
    ensures w'.currentSlot == w.currentSlot
  {
    if batch == [] then w
    else var last := batch[|batch| - 1];
         WheelAdd(WheelAddAll(w, batch[..|batch| - 1]), last.0, last.1)
  }

  lemma {:induction false} WheelAddAllRefines(w: Wheel, batch: seq<(nat, TimerEvent)>)
    requires WheelOk(w)
    ensures WheelOk(WheelAddAll(w, batch))
    ensures View(WheelAddAll(w, batch)) == AddTimers(View(w), batch)
    decreases |batch|
  {
    if batch != [] {
      var n := |batch| - 1;
      WheelAddAllRefines(w, batch[..n]);
      WheelAddRefines(WheelAddAll(w, batch[..n]), batch[n].0, batch[n].1);
    }
  }

  // --- cancelling

  /** Swap with the last element, then pop. */
  function SwapRemove<T>(s: seq<T>, p: nat): seq<T>
    requires p < |s|
  {
    s[p := s[|s| - 1]][..|s| - 1]
  }

  function RemoveAt(slots: Slots, at: (nat, nat)): Slots
    requires InBounds(slots, at)
  {
    slots[at.0 := SwapRemove(slots[at.0], at.1)]
  }

  /** The moved entry is re-indexed at the freed position; the cancelled id goes. */
  function RemoveIndex(slots: Slots, timerMap: Index, id: nat, at: (nat, nat)): Index
    requires InBounds(slots, at)
  {
    var last := |slots[at.0]| - 1;
    if at.1 == last then timerMap - {id}
    else (timerMap - {id})[slots[at.0][last].id := at]
  }

  lemma RemoveKeepsIndex(slots: Slots, timerMap: Index, id: nat)
    requires Indexed(slots, timerMap) && id in timerMap
    ensures Indexed(RemoveAt(slots, timerMap[id]), RemoveIndex(slots, timerMap, id, timerMap[id]))
    ensures Find(RemoveAt(slots, timerMap[id]), RemoveIndex(slots, timerMap, id, timerMap[id]))
            == Find(slots, timerMap) - {id}
  {
    var at := timerMap[id];
    var slots': Slots := RemoveAt(slots, at);
    var m' := RemoveIndex(slots, timerMap, id, at);
    hide RemoveAt, RemoveIndex, Find;
    forall t: nat, q: nat | t < |slots'| && q < |slots'[t]|
      ensures slots'[t][q].id in m' && m'[slots'[t][q].id] == (t, q)
    {
      RemoveMovesEntry(slots, timerMap, id, t, q);
    }
    forall i | i in m'
      ensures i in timerMap && i != id && InBounds(slots', m'[i])
      ensures slots'[m'[i].0][m'[i].1] == slots[timerMap[i].0][timerMap[i].1]
      ensures slots'[m'[i].0][m'[i].1].id == i
    {
      RemoveMovesId(slots, timerMap, id, i);
    }
    RemoveIndexKeys(slots, timerMap, id);
    FindsTheRest(slots, timerMap, id, slots', m');
  }

  /** An index that leaves out one id and finds every other timer as before. */
  lemma FindsTheRest(slots: Slots, timerMap: Index, id: nat, slots': Slots, m': Index)
    requires m'.Keys == timerMap.Keys - {id}
    requires forall i :: i in m' ==>
        && InBounds(slots, timerMap[i]) && InBounds(slots', m'[i])
        && slots'[m'[i].0][m'[i].1] == slots[timerMap[i].0][timerMap[i].1]
    ensures Find(slots', m') == Find(slots, timerMap) - {id}
  {
  }

  lemma RemoveIndexKeys(slots: Slots, timerMap: Index, id: nat)
    requires Indexed(slots, timerMap) && id in timerMap
    ensures RemoveIndex(slots, timerMap, id, timerMap[id]).Keys == timerMap.Keys - {id}
  {
    var (s, p) := timerMap[id];
    var last := |slots[s]| - 1;
    assert timerMap[slots[s][last].id] == (s, last);
  }

  lemma RemoveMovesEntry(slots: Slots, timerMap: Index, id: nat, t: nat, q: nat)
    requires Indexed(slots, timerMap) && id in timerMap
    requires InBounds(RemoveAt(slots, timerMap[id]), (t, q))
    ensures var m' := RemoveIndex(slots, timerMap, id, timerMap[id]);
            var e := RemoveAt(slots, timerMap[id])[t][q];
            e.id in m' && m'[e.id] == (t, q)
  {
    var at := timerMap[id];
    assert slots[at.0][at.1].id == id;
    RemoveMoves(slots, at, t, q);
    var o := if (t, q) == at then |slots[t]| - 1 else q;
    assert timerMap[slots[t][o].id] == (t, o);
    hide RemoveAt, SwapRemove;
  }

  /** After a swap-remove the freed position holds the old last entry; nothing else moved. */
  lemma RemoveMoves(slots: Slots, at: (nat, nat), t: nat, q: nat)
    requires InBounds(slots, at)
    requires InBounds(RemoveAt(slots, at), (t, q))
    ensures var o := if (t, q) == at then |slots[t]| - 1 else q;
            o < |slots[t]| && (t, o) != at && RemoveAt(slots, at)[t][q] == slots[t][o]
            && (o != q ==> at.1 != |slots[at.0]| - 1) && (o == q && t == at.0 ==> q < |slots[t]| - 1)
  {
  }

  lemma RemoveMovesId(slots: Slots, timerMap: Index, id: nat, i: nat)
    requires Indexed(slots, timerMap) && id in timerMap
    requires i in RemoveIndex(slots, timerMap, id, timerMap[id])
    ensures i in timerMap && i != id
    ensures var m' := RemoveIndex(slots, timerMap, id, timerMap[id]);
            var slots': Slots := RemoveAt(slots, timerMap[id]);
            InBounds(slots', m'[i]) && slots'[m'[i].0][m'[i].1] == slots[timerMap[i].0][timerMap[i].1]
  {
    var (s, p) := timerMap[id];
    var last := |slots[s]| - 1;
    assert timerMap[slots[s][last].id] == (s, last);
  }

  lemma RemoveKeepsPlaced(c: Config, slots: Slots, at: (nat, nat))
    requires ConfigOk(c) && Placed(c, slots) && InBounds(slots, at)
    ensures Placed(c, RemoveAt(slots, at))
  {
    var slots': Slots := RemoveAt(slots, at);
    forall t: nat, q: nat | t < |slots'| && q < |slots'[t]|
      ensures SlotIndex(c, slots'[t][q].expiryTime) == t
    {
      var o := if t == at.0 && q == at.1 then |slots[t]| - 1 else q;
      assert slots'[t][q] == slots[t][o];
    }
  }

  /** What cancelling a live id does to the wheel. */
  function WheelRemove(w: Wheel, id: nat): Wheel
    requires id in w.timerMap && InBounds(w.slots, w.timerMap[id])
  {
    var at := w.timerMap[id];
    var expiry := w.slots[at.0][at.1].expiryTime;
    w.(slots := RemoveAt(w.slots, at),
       timerMap := RemoveIndex(w.slots, w.timerMap, id, at),
       cachedNextExpiry :=
         if w.cachedNextExpiry.Some? && expiry <= w.cachedNextExpiry.value + MILLISECOND then None
         else w.cachedNextExpiry)
  }

  lemma WheelRemoveRefines(w: Wheel, id: nat)
    requires WheelOk(w) && id in w.timerMap
    ensures WheelOk(WheelRemove(w, id))
    ensures View(WheelRemove(w, id)) == CancelTimers(View(w), {id})
  {
    RemoveKeepsIndex(w.slots, w.timerMap, id);
    RemoveKeepsPlaced(w.config, w.slots, w.timerMap[id]);
    CancelKeepsSchedule(View(w), {id});
    assert View(w).timers[id] == w.slots[w.timerMap[id].0][w.timerMap[id].1];
    assert View(WheelRemove(w, id)) == CancelTimers(View(w), {id});
  }

  /** Without unfolding the invariant: the index holds the live ids, at positions in the slots. */
  lemma TimersAreIndexed(w: Wheel)
    requires WheelOk(w)
    ensures View(w).timers.Keys == w.timerMap.Keys
    ensures forall id :: id in w.timerMap ==>
        InBounds(w.slots, w.timerMap[id]) && View(w).timers[id] == w.slots[w.timerMap[id].0][w.timerMap[id].1]
  {
    assert Indexed(w.slots, w.timerMap);
  }

  lemma CancelAbsent(s: Schedule, id: nat)
    requires id !in s.timers
    ensures CancelTimers(s, {id}) == s
  {
    assert s.timers - {id} == s.timers;
  }

  /** `WheelRemove` written out. */
  lemma RemovalIs(w: Wheel, id: nat)
    requires id in w.timerMap && InBounds(w.slots, w.timerMap[id])
    ensures var at := w.timerMap[id];
            var expiry := w.slots[at.0][at.1].expiryTime;
            WheelRemove(w, id)
            == w.(slots := RemoveAt(w.slots, at),
                  timerMap := RemoveIndex(w.slots, w.timerMap, id, at),
                  cachedNextExpiry :=
                    if w.cachedNextExpiry.Some? && expiry <= w.cachedNextExpiry.value + MILLISECOND then None
                    else w.cachedNextExpiry)
  {
  }

  lemma CancelKeepsSchedule(s: Schedule, ids: set<nat>)
    requires ScheduleOk(s)
    ensures ScheduleOk(CancelTimers(s, ids))
  {
  }

  // --- how good the cache is

  /** The cache holds the earliest expiry of a live timer. */
  ghost predicate CacheExact(s: Schedule) {
    s.cachedNextExpiry.Some? && IsEarliest(s.timers, s.cachedNextExpiry)
  }

  /** A cancellation empties the cache or leaves it exact. It empties it exactly if one of the
      timers cancelled expires at most a millisecond after the value cached. */
  lemma CancelKeepsCacheExact(s: Schedule, ids: set<nat>)
    requires CacheExact(s)
    ensures var q := CancelTimers(s, ids);
            && (q.cachedNextExpiry.Some? ==> CacheExact(q))
            && (q.cachedNextExpiry.None?
                <==> exists id :: id in ids && id in s.timers
                       && s.timers[id].expiryTime <= s.cachedNextExpiry.value + 1_000_000)
  {
    var q, m := CancelTimers(s, ids), s.cachedNextExpiry.value;
    var first :| first in s.timers && s.timers[first].expiryTime == m;
    if q.cachedNextExpiry.Some? {
      assert first !in ids;
      assert first in q.timers && q.timers[first].expiryTime == m;
    }
  }

  /** An advance empties the cache or leaves it exact if and only if a whole slot has passed
      or nothing was due; else the cache names a timer that is gone. */
  lemma AdvanceKeepsCacheExactIff(s: Schedule, now: nat)
    requires ConfigOk(s.config) && CacheExact(s)
    ensures var q := Advance(s, now);
            (q.cachedNextExpiry.Some? ==> CacheExact(q))
            <==> now >= s.currentTime + s.config.slotDuration || now < s.cachedNextExpiry.value
    ensures var q := Advance(s, now);
            q.cachedNextExpiry.None?
            <==> now >= s.currentTime + s.config.slotDuration && now >= s.cachedNextExpiry.value
  {
    var q, m, d := Advance(s, now), s.cachedNextExpiry.value, s.config.slotDuration;
    var first :| first in s.timers && s.timers[first].expiryTime == m;
    WholeSlotIff(s, now);
    if now >= m {
      assert first in DueTimers(s.timers, now);
      assert forall id :: id in q.timers ==> q.timers[id].expiryTime > now;
    } else {
      assert DueTimers(s.timers, now) == map[];
      assert q.timers == s.timers;
    }
  }

  lemma WholeSlotIff(s: Schedule, now: nat)
    requires s.config.slotDuration > 0
    ensures SlotsToAdvance(s, now) > 0 <==> now >= s.currentTime + s.config.slotDuration
  {
    var e, d := Elapsed(s.currentTime, now), s.config.slotDuration;
    if e < d { QuotientAndRemainder(e, d, 0, e); } else { DivMonotone(d, e, d); QuotientAndRemainder(d, d, 1, 0); }
  }

  // --- advancing

  ghost predicate SameBut(before: Slots, after: Slots, c: nat) {
    |before| == |after| && forall t :: 0 <= t < |after| && t != c ==> after[t] == before[t]
  }

  ghost predicate AllAfter(es: seq<TimerEntry>, now: nat) {
    forall e :: e in es ==> e.expiryTime > now
  }

  ghost predicate DistinctIds(es: seq<TimerEntry>) {
    forall i, j :: 0 <= i < j < |es| ==> es[i].id != es[j].id
  }

  /** The index is exact except that it still holds stale positions for `rest`, entries
      taken out of the slots and not yet dealt with. */
  ghost predicate IndexedExcept(slots: Slots, timerMap: Index, rest: seq<TimerEntry>) {
    && (forall id :: id in timerMap ==>
          || (exists q :: 0 <= q < |rest| && rest[q].id == id)
          || (InBounds(slots, timerMap[id]) && slots[timerMap[id].0][timerMap[id].1].id == id))
    && (forall s: nat, p: nat :: s < |slots| && p < |slots[s]| ==>
          slots[s][p].id in timerMap && timerMap[slots[s][p].id] == (s, p))
    && (forall q :: 0 <= q < |rest| ==> rest[q].id in timerMap)
    && DistinctIds(rest)
    && (forall s: nat, p: nat, q :: s < |slots| && p < |slots[s]| && 0 <= q < |rest| ==> slots[s][p].id != rest[q].id)
  }

  /** The timers of `all` are shared out: each is still indexed or has expired, never both;
      everything expired was due, each timer once, and nothing is altered. */
  ghost predicate Partition(all: Timers, slots: Slots, timerMap: Index, rest: seq<TimerEntry>,
                            expired: seq<TimerEntry>, now: nat)
  {
    && DistinctIds(expired)
    && (forall e :: e in expired ==>
          e.id in all && all[e.id] == e && e.expiryTime <= now && e.id !in timerMap)
    && (forall id :: id in all ==> id in timerMap || all[id] in expired)
    && (forall s: nat, p: nat :: s < |slots| && p < |slots[s]| ==>
          slots[s][p].id in all && all[slots[s][p].id] == slots[s][p])
    && (forall q :: 0 <= q < |rest| ==> rest[q].id in all && all[rest[q].id] == rest[q])
  }

  lemma DrainSlot(slots: Slots, timerMap: Index, c: nat)
    requires Indexed(slots, timerMap) && c < |slots|
    ensures IndexedExcept(slots[c := []], timerMap, slots[c])
  {
    assert forall q :: 0 <= q < |slots[c]| ==> timerMap[slots[c][q].id] == (c, q);
  }

  lemma RestExpires(all: Timers, slots: Slots, timerMap: Index, rest: seq<TimerEntry>,
                    expired: seq<TimerEntry>, now: nat)
    requires IndexedExcept(slots, timerMap, rest) && Partition(all, slots, timerMap, rest, expired, now)
    requires rest != [] && rest[0].expiryTime <= now
    ensures IndexedExcept(slots, timerMap - {rest[0].id}, rest[1..])
    ensures Partition(all, slots, timerMap - {rest[0].id}, rest[1..], expired + [rest[0]], now)
  {
  }

  lemma PlacedLength(c: Config, slots: Slots)
    requires ConfigOk(c) && Placed(c, slots)
    ensures |slots| == c.slotCount
  {
  }

  lemma DrainRest(cfg: Config, all: Timers, slots: Slots, timerMap: Index, c: nat,
                  expired: seq<TimerEntry>, now: nat)
    requires ConfigOk(cfg) && Placed(cfg, slots) && c < |slots|
    requires Partition(all, slots, timerMap, [], expired, now)
    ensures Partition(all, slots[c := []], timerMap, slots[c], expired, now)
    ensures Placed(cfg, slots[c := []]) && SameBut(slots, slots[c := []], c)
    ensures forall e :: e in slots[c] ==> SlotIndex(cfg, e.expiryTime) == c
  {
    var slots': Slots := slots[c := []];
    assert forall t: nat, p: nat :: t < |slots'| && p < |slots'[t]| ==> slots'[t][p] == slots[t][p];
  }

  lemma FoundKeys(slots: Slots, timerMap: Index)
    requires Indexed(slots, timerMap)
    ensures Find(slots, timerMap).Keys == timerMap.Keys
  {
  }

  lemma NoRest(slots: Slots, timerMap: Index)
    requires IndexedExcept(slots, timerMap, [])
    ensures Indexed(slots, timerMap)
  {
  }

  lemma SameAsItself(slots: Slots, c: nat)
    ensures SameBut(slots, slots, c)
  {
  }

  lemma NoneAfter(es: seq<TimerEntry>, now: nat)
    ensures AllAfter(es[..0], now)
  {
  }

  lemma OneMoreAfter(es: seq<TimerEntry>, i: nat, now: nat)
    requires i < |es| && AllAfter(es[..i], now) && es[i].expiryTime > now
    ensures AllAfter(es[..i + 1], now)
  {
    assert es[..i + 1] == es[..i] + [es[i]];
  }

  lemma SameButTransitive(a: Slots, b: Slots, d: Slots, c: nat)
    requires SameBut(a, b, c) && SameBut(b, d, c)
    ensures SameBut(a, d, c)
  {
  }

  lemma PlaceCases(slots: Slots, s: nat, e: TimerEntry, t: nat, p: nat)
    requires s < |slots| && InBounds(Place(slots, s, e), (t, p))
    ensures InBounds(slots, (t, p)) ==> Place(slots, s, e)[t][p] == slots[t][p]
    ensures !InBounds(slots, (t, p)) ==> t == s && p == |slots[s]| && Place(slots, s, e)[t][p] == e
  {
  }

  lemma RestStays(slots: Slots, timerMap: Index, rest: seq<TimerEntry>, s: nat)
    requires IndexedExcept(slots, timerMap, rest) && rest != [] && s < |slots|
    ensures IndexedExcept(Place(slots, s, rest[0]), PlaceIndex(slots, timerMap - {rest[0].id}, s, rest[0]), rest[1..])
  {
    var e := rest[0];
    var slots': Slots := Place(slots, s, e);
    var m' := PlaceIndex(slots, timerMap - {e.id}, s, e);
    forall t: nat, p: nat | t < |slots'| && p < |slots'[t]|
      ensures slots'[t][p].id in m' && m'[slots'[t][p].id] == (t, p)
      ensures forall q :: 0 <= q < |rest[1..]| ==> slots'[t][p].id != rest[1..][q].id
    {
      PlaceCases(slots, s, e, t, p);
    }
    forall id | id in m' && !exists q :: 0 <= q < |rest[1..]| && rest[1..][q].id == id
      ensures InBounds(slots', m'[id]) && slots'[m'[id].0][m'[id].1].id == id
    {
      if id != e.id {
        assert forall q :: 1 <= q < |rest| ==> rest[q] == rest[1..][q - 1];
        assert InBounds(slots, m'[id]);
      }
    }
  }

  lemma RestStaysInPartition(all: Timers, slots: Slots, timerMap: Index, rest: seq<TimerEntry>,
                             expired: seq<TimerEntry>, now: nat, s: nat)
    requires IndexedExcept(slots, timerMap, rest) && Partition(all, slots, timerMap, rest, expired, now)
    requires rest != [] && s < |slots|
    ensures Partition(all, Place(slots, s, rest[0]), PlaceIndex(slots, timerMap - {rest[0].id}, s, rest[0]),
                      rest[1..], expired, now)
  {
    var slots': Slots := Place(slots, s, rest[0]);
    forall t: nat, p: nat | t < |slots'| && p < |slots'[t]|
      ensures slots'[t][p].id in all && all[slots'[t][p].id] == slots'[t][p]
    {
      PlaceCases(slots, s, rest[0], t, p);
    }
  }

  /** Taking out position `i` of slot `c` leaves the entries behind it one position lower. */
  function ShiftRemove(slots: Slots, c: nat, i: nat): Slots
    requires InBounds(slots, (c, i))
  {
    slots[c := slots[c][..i] + slots[c][i + 1..]]
  }

  lemma ShiftMoves(slots: Slots, c: nat, i: nat)
    requires InBounds(slots, (c, i))
    ensures var slots': Slots := ShiftRemove(slots, c, i);
            && |slots'| == |slots|
            && |slots'[c]| == |slots[c]| - 1
            && (forall t :: 0 <= t < |slots| && t != c ==> slots'[t] == slots[t])
            && (forall p :: 0 <= p < i ==> slots'[c][p] == slots[c][p])
            && (forall p :: i <= p < |slots[c]| - 1 ==> slots'[c][p] == slots[c][p + 1])
  {
  }

  function ShiftedPosition(at: (nat, nat), c: nat, i: nat, j: nat): (nat, nat) {
    if at.0 == c && i < at.1 <= j then (c, at.1 - 1) else at
  }

  /** `m` is the old index without `gone`, renumbered behind `i` as far as position `j`. */
  ghost predicate Renumbered(old_map: Index, m: Index, gone: nat, c: nat, i: nat, j: nat) {
    && m.Keys == old_map.Keys - {gone}
    && forall id :: id in m ==> m[id] == ShiftedPosition(old_map[id], c, i, j)
  }

  lemma RenumberStep(slots: Slots, timerMap: Index, m: Index, c: nat, i: nat, j: nat)
    requires Indexed(slots, timerMap) && InBounds(slots, (c, i)) && i <= j < |slots[c]| - 1
    requires Renumbered(timerMap, m, slots[c][i].id, c, i, j)
    ensures Renumbered(timerMap, m[slots[c][j + 1].id := (c, j)], slots[c][i].id, c, i, j + 1)
  {
    var id := slots[c][j + 1].id;
    assert timerMap[id] == (c, j + 1) && timerMap[slots[c][i].id] == (c, i);
    var m' := m[id := (c, j)];
    forall k | k in m'
      ensures m'[k] == ShiftedPosition(timerMap[k], c, i, j + 1)
    {
      OnlyAtItsPosition(slots, timerMap, k, id);
    }
  }

  lemma OnlyAtItsPosition(slots: Slots, timerMap: Index, k: nat, id: nat)
    requires Indexed(slots, timerMap) && k in timerMap && id in timerMap
    ensures timerMap[k] == timerMap[id] ==> k == id
  {
  }

  lemma ShiftKeepsIndex(slots: Slots, timerMap: Index, m: Index, c: nat, i: nat)
    requires Indexed(slots, timerMap) && InBounds(slots, (c, i))
    requires Renumbered(timerMap, m, slots[c][i].id, c, i, |slots[c]| - 1)
    ensures Indexed(ShiftRemove(slots, c, i), m)
  {
    var slots': Slots := ShiftRemove(slots, c, i);
    forall t: nat, p: nat | t < |slots'| && p < |slots'[t]|
      ensures slots'[t][p].id in m && m[slots'[t][p].id] == (t, p)
    {
      ShiftedEntry(slots, timerMap, m, c, i, t, p);
    }
    forall id | id in m
      ensures InBounds(slots', m[id]) && slots'[m[id].0][m[id].1].id == id
    {
      ShiftedId(slots, timerMap, m, c, i, id);
    }
  }

  lemma ShiftedEntry(slots: Slots, timerMap: Index, m: Index, c: nat, i: nat, t: nat, p: nat)
    requires Indexed(slots, timerMap) && InBounds(slots, (c, i))
    requires Renumbered(timerMap, m, slots[c][i].id, c, i, |slots[c]| - 1)
    requires InBounds(ShiftRemove(slots, c, i), (t, p))
    ensures var e := ShiftRemove(slots, c, i)[t][p]; e.id in m && m[e.id] == (t, p)
  {
    var o := if t == c && p >= i then p + 1 else p;
    var slots': Slots := ShiftRemove(slots, c, i);
    assert slots'[t][p] == slots[t][o];
    assert timerMap[slots[t][o].id] == (t, o) && timerMap[slots[c][i].id] == (c, i);
  }

  lemma ShiftedId(slots: Slots, timerMap: Index, m: Index, c: nat, i: nat, id: nat)
    requires Indexed(slots, timerMap) && InBounds(slots, (c, i)) && id in m
    requires Renumbered(timerMap, m, slots[c][i].id, c, i, |slots[c]| - 1)
    ensures InBounds(ShiftRemove(slots, c, i), m[id])
    ensures ShiftRemove(slots, c, i)[m[id].0][m[id].1].id == id
  {
    var at := timerMap[id];
    assert slots[at.0][at.1].id == id;
    assert at != (c, i);
    ShiftMoves(slots, c, i);
  }

  lemma ShiftKeepsPlaced(cfg: Config, slots: Slots, c: nat, i: nat)
    requires ConfigOk(cfg) && Placed(cfg, slots) && InBounds(slots, (c, i))
    ensures Placed(cfg, ShiftRemove(slots, c, i))
  {
    var slots': Slots := ShiftRemove(slots, c, i);
    forall t: nat, p: nat | t < |slots'| && p < |slots'[t]|
      ensures SlotIndex(cfg, slots'[t][p].expiryTime) == t
    {
      var o := if t == c && p >= i then p + 1 else p;
      assert slots'[t][p] == slots[t][o];
    }
  }

  lemma ShiftKeepsPartition(all: Timers, slots: Slots, timerMap: Index, m: Index, c: nat, i: nat,
                            expired: seq<TimerEntry>, now: nat)
    requires Indexed(slots, timerMap) && InBounds(slots, (c, i)) && slots[c][i].expiryTime <= now
    requires Partition(all, slots, timerMap, [], expired, now)
    requires m.Keys == timerMap.Keys - {slots[c][i].id}
    ensures Partition(all, ShiftRemove(slots, c, i), m, [], expired + [slots[c][i]], now)
  {
    var slots': Slots := ShiftRemove(slots, c, i);
    forall t: nat, p: nat | t < |slots'| && p < |slots'[t]|
      ensures slots'[t][p].id in all && all[slots'[t][p].id] == slots'[t][p]
    {
      var o := if t == c && p >= i then p + 1 else p;
      assert slots'[t][p] == slots[t][o];
    }
  }

  // --- the clock and the slots

  /** How many slots ahead of `currentSlot` the slot `s` lies, going round the wheel. */
  function Ahead(slotCount: nat, currentSlot: nat, s: nat): (d: nat)
    requires s < slotCount && currentSlot < slotCount
    ensures d < slotCount
  {
    if s >= currentSlot then s - currentSlot else s + slotCount - currentSlot
  }

  lemma ModStep(x: nat, d: nat, n: nat)
    requires n > 0
    ensures ((x % n) + d) % n == (x + d) % n
  {
    var q := (x + d) / n;
    var k := x / n;
    assert x == k * n + x % n;
    assert x % n + d == (q - k) * n + (x + d) % n;
    QuotientAndRemainder(x % n + d, n, q - k, (x + d) % n);
  }

  /** Counted from the start, an expiry lies as many ticks after the current time's tick
      as it lies ticks after the current time. */
  lemma TicksAdd(c: Config, currentTime: nat, expiry: nat)
    requires ConfigOk(c) && c.startTime <= currentTime <= expiry
    requires (currentTime - c.startTime) % c.slotDuration == 0
    ensures (expiry - c.startTime) / c.slotDuration
            == (currentTime - c.startTime) / c.slotDuration + (expiry - currentTime) / c.slotDuration
  {
    var dur := c.slotDuration;
    var k := (currentTime - c.startTime) / dur;
    var ticks := (expiry - currentTime) / dur;
    var r := (expiry - currentTime) % dur;
    assert currentTime - c.startTime == k * dur;
    assert expiry - currentTime == ticks * dur + r;
    assert (k + ticks) * dur == k * dur + ticks * dur;
    QuotientAndRemainder(expiry - c.startTime, dur, k + ticks, r);
  }

  /** Going `ticks` slots round the wheel from `k % n` leads `ticks % n` slots ahead. */
  lemma AheadIsRemainder(k: nat, ticks: nat, n: nat)
    requires n > 0
    ensures Ahead(n, k % n, (k + ticks) % n) == ticks % n
  {
    var r := ticks % n;
    ModStep(ticks, k, n);
    ModStep(k, r, n);
    var a := k % n + r;
    assert (k + ticks) % n == a % n;
    if a < n {
      QuotientAndRemainder(a, n, 0, a);
    } else {
      QuotientAndRemainder(a, n, 1, a - n);
    }
  }

  lemma AlignedSlotInRange(c: Config, currentSlot: nat, currentTime: nat)
    requires ConfigOk(c) && Aligned(c, currentSlot, currentTime)
    ensures currentSlot < c.slotCount
  {
  }

  /** A timer that expires no earlier than the current time waits in a slot that is at
      most as many slots ahead as its expiry is: its slot distance never overshoots. */
  lemma SlotDistance(c: Config, currentSlot: nat, currentTime: nat, expiry: nat)
    requires ConfigOk(c) && Aligned(c, currentSlot, currentTime) && currentTime <= expiry
    ensures currentSlot < c.slotCount && SlotIndex(c, expiry) < c.slotCount
    ensures var d := Ahead(c.slotCount, currentSlot, SlotIndex(c, expiry));
            var ticks := (expiry - currentTime) / c.slotDuration;
            d == ticks % c.slotCount && d <= ticks && currentTime + d * c.slotDuration <= expiry
  {
    var k := (currentTime - c.startTime) / c.slotDuration;
    var ticks := (expiry - currentTime) / c.slotDuration;
    TicksAdd(c, currentTime, expiry);
    AheadIsRemainder(k, ticks, c.slotCount);
    var d := ticks % c.slotCount;
    ModAtMost(ticks, c.slotCount);
    MulMonotone(d, ticks, c.slotDuration);
    assert expiry - currentTime == ticks * c.slotDuration + (expiry - currentTime) % c.slotDuration;
  }

  lemma ModAtMost(x: nat, n: nat)
    requires n > 0
    ensures x % n <= x
  {
    assert x == (x / n) * n + x % n;
    assert (x / n) * n >= 0;
  }

  lemma MulMonotone(a: nat, b: nat, d: nat)
    requires a <= b
    ensures a * d <= b * d
  {
    assert (b - a) * d >= 0;
  }

  /** A timer due at `now` waits in a slot the advance to `now` visits. */
  lemma DueIsWithinReach(c: Config, currentSlot: nat, currentTime: nat, expiry: nat, now: nat)
    requires ConfigOk(c) && Aligned(c, currentSlot, currentTime) && currentTime <= expiry <= now
    ensures currentSlot < c.slotCount && SlotIndex(c, expiry) < c.slotCount
    ensures Ahead(c.slotCount, currentSlot, SlotIndex(c, expiry))
            <= Smaller(c.slotCount, Elapsed(currentTime, now) / c.slotDuration)
  {
    SlotDistance(c, currentSlot, currentTime, expiry);
    DivMonotone(expiry - currentTime, now - currentTime, c.slotDuration);
  }

  /** The slots up to `j` ahead of where an advance began hold nothing due any more. */
  ghost predicate VisitedClear(slots: Slots, from: nat, j: nat, now: nat) {
    from < |slots| && forall s :: 0 <= s < |slots| && Ahead(|slots|, from, s) <= j ==> AllAfter(slots[s], now)
  }

  lemma StartVisited(slots: Slots, from: nat, now: nat)
    requires from < |slots| && AllAfter(slots[from], now)
    ensures VisitedClear(slots, from, 0, now)
  {
  }

  /** Pointer and clock after `j` slots. */
  function SlotAfter(from: nat, j: nat, n: nat): nat
    requires n > 0
  {
    (from + j) % n
  }

  function TimeAfter(t: nat, j: nat, d: nat): nat {
    t + j * d
  }

  lemma NotYetTurned(from: nat, n: nat, t: nat, d: nat)
    requires from < n
    ensures SlotAfter(from, 0, n) == from && TimeAfter(t, 0, d) == t
  {
    SmallMod(from, n);
  }

  lemma TurnedIs(from: nat, j: nat, n: nat, t: nat, d: nat)
    requires n > 0
    ensures SlotAfter(from, j, n) == (from + j) % n && TimeAfter(t, j, d) == t + j * d
  {
  }

  lemma TurnOneMore(from: nat, j: nat, n: nat, t: nat, d: nat)
    requires n > 0
    ensures SlotAfter(from, j + 1, n) == SlotAfter(SlotAfter(from, j, n), 1, n)
    ensures TimeAfter(t, j + 1, d) == TimeAfter(t, j, d) + d
  {
    ModStep(from + j, 1, n);
    MulSucc(j, d);
  }

  lemma VisitTurned(before: Slots, after: Slots, from: nat, j: nat, now: nat)
    requires j > 0 && VisitedClear(before, from, j - 1, now) && |after| == |before| > 0
    requires SlotAfter(from, j, |before|) < |before|
    requires SameBut(before, after, SlotAfter(from, j, |before|)) && AllAfter(after[SlotAfter(from, j, |before|)], now)
    ensures VisitedClear(after, from, j, now)
  {
    hide VisitedClear, SameBut, AllAfter;
    TurnedIs(from, j, |before|, 0, 0);
    VisitOneMore(before, after, from, j, now);
  }

  lemma VisitOneMore(before: Slots, after: Slots, from: nat, j: nat, now: nat)
    requires j > 0 && VisitedClear(before, from, j - 1, now) && |after| == |before|
    requires SameBut(before, after, (from + j) % |before|) && AllAfter(after[(from + j) % |before|], now)
    ensures VisitedClear(after, from, j, now)
  {
    var n, c := |before|, (from + j) % |before|;
    forall s | 0 <= s < n && Ahead(n, from, s) <= j
      ensures AllAfter(after[s], now)
    {
      if s != c && Ahead(n, from, s) == j {
        assert s == from + j || s == from + j - n;
        if s == from + j - n { QuotientAndRemainder(from + j, n, 1, s); }
        else { QuotientAndRemainder(from + j, n, 0, s); }
      }
    }
  }

  lemma StartPartition(w: Wheel, now: nat)
    requires WheelOk(w)
    ensures Partition(View(w).timers, w.slots, w.timerMap, [], [], now)
  {
  }

  /** The list holds exactly the given timers, each once. */
  ghost predicate ListsExactly(es: seq<TimerEntry>, timers: Timers) {
    DistinctIds(es) && forall e :: e in es <==> e.id in timers && timers[e.id] == e
  }

  /** Once every slot within reach is clear, nothing due is left anywhere, so what expired
      is exactly what was due and the wheel is again a wheel. */
  lemma FinishAdvance(before: Wheel, after: Wheel, steps: nat, expired: seq<TimerEntry>, now: nat)
    requires WheelOk(before) && ConfigOk(before.config) && after.config == before.config
    requires steps == Smaller(before.config.slotCount, SlotsToAdvance(View(before), now))
    requires Indexed(after.slots, after.timerMap) && Placed(after.config, after.slots)
    requires Aligned(after.config, after.currentSlot, after.currentTime)
    requires after.currentTime == before.currentTime + steps * before.config.slotDuration
    requires after.nextEntryId == before.nextEntryId
    requires after.cachedNextExpiry == if steps > 0 && expired != [] then None else before.cachedNextExpiry
    requires Partition(View(before).timers, after.slots, after.timerMap, [], expired, now)
    requires VisitedClear(after.slots, before.currentSlot, steps, now)
    ensures WheelOk(after)
    ensures View(after) == Advance(View(before), now)
    ensures ListsExactly(expired, DueTimers(View(before).timers, now))
  {
    hide Indexed, Placed, Aligned, Partition, VisitedClear, ScheduleOk, Find, SlotIndex, DueTimers, PendingTimers,
         ListsExactly, Elapsed, Smaller;
    LeftIsPending(before, after, steps, expired, now);
    ExpiredIsDue(View(before).timers, after.slots, after.timerMap, expired, now);
    AdvancedIsOk(View(before), now);
    ZeroStepsAtMost(before.config.slotCount, SlotsToAdvance(View(before), now));
    assert View(after) == Advance(View(before), now);
  }

  lemma ZeroStepsAtMost(slotCount: nat, steps: nat)
    ensures slotCount > 0 ==> (Smaller(slotCount, steps) > 0 <==> steps > 0)
  {
  }

  /** An advance keeps the set of timers sound: none left is earlier than the clock. */
  lemma AdvancedIsOk(s: Schedule, now: nat)
    requires ScheduleOk(s)
    ensures ScheduleOk(Advance(s, now))
  {
    hide DueTimers;
    ClockStaysBehind(s.config, s.currentTime, now);
  }

  /** If what is left is what is not due, what has gone is what is due. */
  lemma ExpiredIsDue(all: Timers, slots: Slots, timerMap: Index, expired: seq<TimerEntry>, now: nat)
    requires Indexed(slots, timerMap) && Find(slots, timerMap) == PendingTimers(all, now)
    requires Partition(all, slots, timerMap, [], expired, now)
    ensures ListsExactly(expired, DueTimers(all, now))
    ensures expired == [] <==> DueTimers(all, now) == map[]
  {
    FoundKeys(slots, timerMap);
    hide Indexed, Find;
    var due := DueTimers(all, now);
    forall e: TimerEntry | e.id in due && due[e.id] == e
      ensures e in expired
    {
      assert e.id !in timerMap;
    }
    if expired != [] { assert expired[0].id in due; }
    if due != map[] {
      var id :| id in due;
      assert due[id] in expired;
    }
  }

  lemma LeftIsPending(before: Wheel, after: Wheel, steps: nat, expired: seq<TimerEntry>, now: nat)
    requires WheelOk(before) && ConfigOk(before.config) && after.config == before.config
    requires steps == Smaller(before.config.slotCount, SlotsToAdvance(View(before), now))
    requires Indexed(after.slots, after.timerMap) && Placed(after.config, after.slots)
    requires Partition(View(before).timers, after.slots, after.timerMap, [], expired, now)
    requires VisitedClear(after.slots, before.currentSlot, steps, now)
    ensures View(after).timers == PendingTimers(View(before).timers, now)
    ensures View(after).timers.Keys == after.timerMap.Keys
  {
    hide Indexed, Partition, Placed, Aligned, VisitedClear, WheelOk, SlotsToAdvance;
    FoundKeys(after.slots, after.timerMap);
    GoneHasExpired(View(before).timers, after.slots, after.timerMap, expired, now);
    var all, left := View(before).timers, View(after).timers;
    forall id | id in left
      ensures id in all && left[id] == all[id] && all[id].expiryTime > now
    {
      ClearedIsPending(before, after, steps, expired, now, id);
    }
  }

  lemma GoneHasExpired(all: Timers, slots: Slots, timerMap: Index, expired: seq<TimerEntry>, now: nat)
    requires Partition(all, slots, timerMap, [], expired, now)
    ensures forall id :: id in all && id !in timerMap ==> all[id].expiryTime <= now
  {
    assert forall id :: id in all ==> id in timerMap || all[id] in expired;
  }

  lemma ClearedIsPending(before: Wheel, after: Wheel, steps: nat, expired: seq<TimerEntry>, now: nat, id: nat)
    requires WheelOk(before) && ConfigOk(before.config) && after.config == before.config
    requires steps == Smaller(before.config.slotCount, SlotsToAdvance(View(before), now))
    requires Indexed(after.slots, after.timerMap) && Placed(after.config, after.slots)
    requires Partition(View(before).timers, after.slots, after.timerMap, [], expired, now)
    requires VisitedClear(after.slots, before.currentSlot, steps, now)
    requires id in after.timerMap
    ensures var (s, p) := after.timerMap[id];
            && InBounds(after.slots, (s, p)) && id in View(before).timers
            && View(before).timers[id] == after.slots[s][p] && after.slots[s][p].expiryTime > now
  {
    var (s, p) := after.timerMap[id];
    var e := after.slots[s][p];
    assert e.id == id && View(before).timers[id] == e;
    assert before.currentTime <= e.expiryTime;
    if e.expiryTime <= now {
      DueIsWithinReach(before.config, before.currentSlot, before.currentTime, e.expiryTime, now);
    }
  }

  lemma ClockStaysBehind(c: Config, currentTime: nat, now: nat)
    requires ConfigOk(c)
    ensures var steps := Smaller(c.slotCount, Elapsed(currentTime, now) / c.slotDuration);
            currentTime + steps * c.slotDuration <= if now < currentTime then currentTime else now
  {
    var q := Elapsed(currentTime, now) / c.slotDuration;
    MulMonotone(Smaller(c.slotCount, q), q, c.slotDuration);
    assert Elapsed(currentTime, now) == q * c.slotDuration + Elapsed(currentTime, now) % c.slotDuration;
    if now < currentTime { QuotientAndRemainder(0, c.slotDuration, 0, 0); }
  }

  /** One step of the clock keeps it aligned with the pointer. */
  lemma TickKeepsAligned(c: Config, currentSlot: nat, currentTime: nat)
    requires ConfigOk(c) && Aligned(c, currentSlot, currentTime)
    ensures Aligned(c, (currentSlot + 1) % c.slotCount, currentTime + c.slotDuration)
  {
    var k := (currentTime - c.startTime) / c.slotDuration;
    assert currentTime + c.slotDuration - c.startTime == (k + 1) * c.slotDuration;
    QuotientAndRemainder(currentTime + c.slotDuration - c.startTime, c.slotDuration, k + 1, 0);
    ModStep(k, 1, c.slotCount);
  }

  // --- the next expiry

  ghost predicate EarliestIn(es: seq<TimerEntry>, t: Option<nat>) {
    match t
    case None => es == []
    case Some(m) => (exists e :: e in es && e.expiryTime == m) && forall e :: e in es ==> m <= e.expiryTime
  }

  /** `t` is the earliest expiry in the `k` slots starting at `from`. */
  ghost predicate Scanned(slots: Slots, from: nat, k: nat, t: Option<nat>) {
    && from < |slots|
    && (match t
        case None => forall s :: 0 <= s < |slots| && Ahead(|slots|, from, s) < k ==> slots[s] == []
        case Some(m) =>
          && (exists s, p :: 0 <= s < |slots| && 0 <= p < |slots[s]| && slots[s][p].expiryTime == m)
          && forall s, e :: 0 <= s < |slots| && Ahead(|slots|, from, s) < k && e in slots[s] ==> m <= e.expiryTime)
  }

  lemma NothingScanned(slots: Slots, from: nat)
    requires from < |slots|
    ensures Scanned(slots, from, 0, None)
  {
  }

  lemma NothingInEmptySlot()
    ensures EarliestIn([], None)
  {
  }

  lemma AheadOf(n: nat, from: nat, k: nat, s: nat)
    requires from < n && k < n && s < n
    ensures (from + k) % n < n
    ensures Ahead(n, from, s) == k <==> s == (from + k) % n
  {
    if from + k < n { QuotientAndRemainder(from + k, n, 0, from + k); }
    else { QuotientAndRemainder(from + k, n, 1, from + k - n); }
  }

  lemma ScanOneMore(slots: Slots, from: nat, k: nat, t: Option<nat>, slotEarliest: Option<nat>)
    requires Scanned(slots, from, k, t) && k < |slots|
    requires (from + k) % |slots| < |slots| && EarliestIn(slots[(from + k) % |slots|], slotEarliest)
    ensures Scanned(slots, from, k + 1,
                    if t.None? || (slotEarliest.Some? && slotEarliest.value < t.value) then slotEarliest else t)
  {
    forall s | 0 <= s < |slots|
      ensures Ahead(|slots|, from, s) < k + 1 ==> Ahead(|slots|, from, s) < k || s == (from + k) % |slots|
    {
      AheadOf(|slots|, from, k, s);
    }
    if slotEarliest.Some? {
      var e :| e in slots[(from + k) % |slots|] && e.expiryTime == slotEarliest.value;
    }
  }

  /** The early exit is safe: everything in the slots not reached expires no earlier. */
  lemma ScanFindsEarliest(w: Wheel, k: nat, t: Option<nat>)
    requires WheelOk(w) && Scanned(w.slots, w.currentSlot, k, t)
    requires k >= w.config.slotCount
             || (t.Some? && k > 0 && t.value <= w.currentTime + w.config.slotDuration * (k - 1) + w.config.slotDuration)
    ensures IsEarliest(View(w).timers, t)
  {
    var timers := View(w).timers;
    forall id | id in timers
      ensures t.Some? && t.value <= timers[id].expiryTime
    {
      var (s, p) := w.timerMap[id];
      var e := w.slots[s][p];
      assert timers[id] == e && w.currentTime <= e.expiryTime && SlotIndex(w.config, e.expiryTime) == s;
      SlotDistance(w.config, w.currentSlot, w.currentTime, e.expiryTime);
      var d := Ahead(w.config.slotCount, w.currentSlot, s);
      if d < k {
        assert e in w.slots[s];
      } else {
        MulMonotone(k, d, w.config.slotDuration);
      }
    }
    if t.Some? {
      var s, p :| 0 <= s < |w.slots| && 0 <= p < |w.slots[s]| && w.slots[s][p].expiryTime == t.value;
      assert timers[w.slots[s][p].id].expiryTime == t.value;
    }
  }
}
