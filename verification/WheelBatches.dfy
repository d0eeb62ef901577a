/** Batch operations of the wheel, described slot by slot. */
module WheelBatches {
  import opened Bits
  import opened Options
  import opened WheelModel

  // --- adding a batch

  /** The entries a batch creates, in order. */
  function NewEntries(w: Wheel, batch: seq<(nat, TimerEvent)>): (es: seq<TimerEntry>)
    ensures |es| == |batch|
    ensures forall i :: 0 <= i < |es| ==>
        es[i] == TimerEntry(w.nextEntryId + i, w.currentTime + batch[i].0, batch[i].1)
  {
    seq(|batch|, i requires 0 <= i < |batch| =>
      TimerEntry(w.nextEntryId + i, w.currentTime + batch[i].0, batch[i].1))
  }

  /** The entries that belong to slot `s`, in order. */
  function Chosen(c: Config, es: seq<TimerEntry>, s: nat): (r: seq<TimerEntry>)
    requires c.slotCount > 0 && c.slotDuration > 0
    ensures forall e :: e in r ==> e in es && SlotIndex(c, e.expiryTime) == s
  {
    if es == [] then []
    else
      var last := es[|es| - 1];
      Chosen(c, es[..|es| - 1], s) + if SlotIndex(c, last.expiryTime) == s then [last] else []
  }

  function EarliestOver(cached: Option<nat>, es: seq<TimerEntry>): Option<nat> {
    if es == [] then cached
    else Earlier(EarliestOver(cached, es[..|es| - 1]), es[|es| - 1].expiryTime)
  }

  /** Adding one timer after the other appends to every slot its own entries in order. */
  lemma {:induction false} WheelAddAllShape(w: Wheel, batch: seq<(nat, TimerEvent)>, s: nat)
    requires ConfigOk(w.config) && |w.slots| == w.config.slotCount && s < |w.slots|
    ensures WheelAddAll(w, batch).slots[s] == w.slots[s] + Chosen(w.config, NewEntries(w, batch), s)
    decreases |batch|
  {
    if batch != [] {
      WheelAddAllShape(w, batch[..|batch| - 1], s);
      ShapeStep(w, batch, s);
    }
  }

  lemma ShapeStep(w: Wheel, batch: seq<(nat, TimerEvent)>, s: nat)
    requires ConfigOk(w.config) && |w.slots| == w.config.slotCount && s < |w.slots| && batch != []
    requires var b := batch[..|batch| - 1];
             WheelAddAll(w, b).slots[s] == w.slots[s] + Chosen(w.config, NewEntries(w, b), s)
    ensures WheelAddAll(w, batch).slots[s] == w.slots[s] + Chosen(w.config, NewEntries(w, batch), s)
  {
    hide WheelAddAll, WheelAdd, Chosen, NewEntries;
    var n := |batch| - 1;
    WheelAddAllUnfolds(w, batch);
    NewEntriesPrefix(w, batch, n);
    AppendToSlot(WheelAddAll(w, batch[..n]), batch[n].0, batch[n].1, s);
    ChosenUnfolds(w.config, NewEntries(w, batch), s);
  }

  lemma WheelAddAllUnfolds(w: Wheel, batch: seq<(nat, TimerEvent)>)
    requires ConfigOk(w.config) && |w.slots| == w.config.slotCount && batch != []
    ensures var n := |batch| - 1;
            WheelAddAll(w, batch) == WheelAdd(WheelAddAll(w, batch[..n]), batch[n].0, batch[n].1)
  {
  }

  lemma {:induction false} WheelAddAllCache(w: Wheel, batch: seq<(nat, TimerEvent)>)
    requires ConfigOk(w.config) && |w.slots| == w.config.slotCount
    ensures WheelAddAll(w, batch).cachedNextExpiry == EarliestOver(w.cachedNextExpiry, NewEntries(w, batch))
    decreases |batch|
  {
    if batch != [] {
      var n := |batch| - 1;
      WheelAddAllCache(w, batch[..n]);
      NewEntriesPrefix(w, batch, n);
      hide NewEntries;
    }
  }

  lemma NewEntriesPrefix(w: Wheel, batch: seq<(nat, TimerEvent)>, n: nat)
    requires n <= |batch|
    ensures NewEntries(w, batch)[..n] == NewEntries(w, batch[..n])
  {
  }

  lemma ChosenUnfolds(c: Config, es: seq<TimerEntry>, s: nat)
    requires ConfigOk(c) && es != []
    ensures var last := es[|es| - 1];
            Chosen(c, es, s)
            == Chosen(c, es[..|es| - 1], s) + if SlotIndex(c, last.expiryTime) == s then [last] else []
  {
  }

  lemma AppendToSlot(w: Wheel, delay: nat, event: TimerEvent, s: nat)
    requires w.config.slotCount > 0 && w.config.slotDuration > 0 && |w.slots| == w.config.slotCount && s < |w.slots|
    ensures var e := TimerEntry(w.nextEntryId, w.currentTime + delay, event);
            WheelAdd(w, delay, event).slots[s]
            == w.slots[s] + if SlotIndex(w.config, e.expiryTime) == s then [e] else []
  {
  }

  /** The wheel after entries have been appended to their slots, in order. The index is the
      one that fits the slots. */
  ghost predicate Appended(w: Wheel, es: seq<TimerEntry>, w': Wheel)
    requires ConfigOk(w.config)
  {
    && w' == w.(slots := w'.slots, timerMap := w'.timerMap, nextEntryId := w.nextEntryId + |es|,
                cachedNextExpiry := EarliestOver(w.cachedNextExpiry, es))
    && |w'.slots| == |w.slots| && Indexed(w'.slots, w'.timerMap)
    && forall s :: 0 <= s < |w.slots| ==> w'.slots[s] == w.slots[s] + Chosen(w.config, es, s)
  }

  /** Grouped insertion of the entries that one-by-one insertion makes equals it. */
  lemma GroupedEqualsFolded(w: Wheel, w': Wheel, batch: seq<(nat, TimerEvent)>)
    requires WheelOk(w) && Appended(w, NewEntries(w, batch), w')
    ensures w' == WheelAddAll(w, batch) && WheelOk(w')
    ensures View(w') == AddTimers(View(w), batch)
  {
    hide WheelOk, Indexed, View, WheelAddAll, AddTimers, NewEntries, Chosen, EarliestOver;
    WheelBasics(w);
    var folded := WheelAddAll(w, batch);
    WheelAddAllRefines(w, batch);
    WheelBasics(folded);
    forall s | 0 <= s < |w.slots|
      ensures w'.slots[s] == folded.slots[s]
    {
      WheelAddAllShape(w, batch, s);
    }
    FoldKeepsRest(w, batch);
    assert w'.slots == folded.slots;
    WheelAddAllCache(w, batch);
    IndexUnique(w'.slots, w'.timerMap, folded.timerMap);
  }

  lemma {:induction false} ChosenHas(c: Config, es: seq<TimerEntry>, e: TimerEntry)
    requires ConfigOk(c) && e in es
    ensures e in Chosen(c, es, SlotIndex(c, e.expiryTime))
    decreases |es|
  {
    hide SlotIndex;
    var n := |es| - 1;
    if e != es[n] {
      assert es == es[..n] + [es[n]];
      ChosenHas(c, es[..n], e);
    }
  }

  /** An appended entry is the timer of its id. */
  lemma AppendedIsFound(w: Wheel, es: seq<TimerEntry>, w': Wheel, i: nat)
    requires WheelOk(w) && Appended(w, es, w') && i < |es|
    ensures es[i].id in View(w').timers && View(w').timers[es[i].id] == es[i]
  {
    hide WheelOk, Indexed, Find, SlotIndex, Chosen, EarliestOver;
    WheelBasics(w);
    var e := es[i];
    var s := SlotIndex(w.config, e.expiryTime);
    SlotIndexInRange(w.config, e.expiryTime);
    ChosenHas(w.config, es, e);
    assert e in w'.slots[s];
    var p: nat :| p < |w'.slots[s]| && w'.slots[s][p] == e;
    FoundIffQueued(w'.slots, w'.timerMap, e);
  }

  lemma NothingAppended(w: Wheel)
    requires WheelOk(w)
    ensures Appended(w, [], w) && WheelAddAll(w, []) == w && AddTimers(View(w), []) == View(w)
  {
    assert forall s :: 0 <= s < |w.slots| ==> w.slots[s] + [] == w.slots[s];
  }

  lemma NothingInLanes(w: Wheel)
    ensures LaneEntries(w, []) == []
  {
  }

  lemma FoldIsAppended(w: Wheel, batch: seq<(nat, TimerEvent)>)
    requires WheelOk(w)
    ensures WheelOk(WheelAddAll(w, batch)) && Appended(w, NewEntries(w, batch), WheelAddAll(w, batch))
  {
    hide WheelOk, Indexed, WheelAddAll, NewEntries, Chosen, EarliestOver;
    WheelBasics(w);
    var folded := WheelAddAll(w, batch);
    WheelAddAllRefines(w, batch);
    WheelBasics(folded);
    FoldKeepsRest(w, batch);
    WheelAddAllCache(w, batch);
    forall s | 0 <= s < |w.slots|
      ensures folded.slots[s] == w.slots[s] + Chosen(w.config, NewEntries(w, batch), s)
    {
      WheelAddAllShape(w, batch, s);
    }
  }

  /** What adding one by one makes of an entry of the batch. */
  lemma FoldedIsFound(w: Wheel, batch: seq<(nat, TimerEvent)>, i: nat)
    requires WheelOk(w) && i < |batch|
    ensures var timers := AddTimers(View(w), batch).timers;
            w.nextEntryId + i in timers && timers[w.nextEntryId + i] == NewEntries(w, batch)[i]
  {
    hide WheelOk, Appended, View, WheelAddAll, AddTimers;
    WheelBasics(w);
    FoldIsAppended(w, batch);
    WheelAddAllRefines(w, batch);
    AppendedIsFound(w, NewEntries(w, batch), WheelAddAll(w, batch), i);
  }

  /** Appending any other entries under the same ids ends in a different set of timers. */
  lemma {:induction false} OtherEntriesDiffer(w: Wheel, es: seq<TimerEntry>, w': Wheel,
                                              batch: seq<(nat, TimerEvent)>, i: nat)
    requires WheelOk(w) && Appended(w, es, w') && i < |es| == |batch|
    requires es[i].id == w.nextEntryId + i && es[i] != NewEntries(w, batch)[i]
    ensures View(w') != AddTimers(View(w), batch)
  {
    hide WheelOk, Appended, View, AddTimers, NewEntries;
    AppendedIsFound(w, es, w', i);
    FoldedIsFound(w, batch, i);
  }

  lemma {:induction false} FoldKeepsRest(w: Wheel, batch: seq<(nat, TimerEvent)>)
    requires w.config.slotCount > 0 && w.config.slotDuration > 0 && |w.slots| == w.config.slotCount
    ensures var f := WheelAddAll(w, batch);
            f == w.(slots := f.slots, timerMap := f.timerMap, nextEntryId := w.nextEntryId + |batch|,
                    cachedNextExpiry := f.cachedNextExpiry)
    decreases |batch|
  {
    if batch != [] { FoldKeepsRest(w, batch[..|batch| - 1]); }
  }

  /** Half way through the insertion: the slots in `done` have all their new entries, the
      others none. */
  ghost predicate PartlyAdded(w: Wheel, es: seq<TimerEntry>, slots: Slots, done: set<nat>)
    requires ConfigOk(w.config)
  {
    && |slots| == |w.slots|
    && forall s :: 0 <= s < |slots| ==>
         slots[s] == if s in done then w.slots[s] + Chosen(w.config, es, s) else w.slots[s]
  }

  lemma NothingAdded(w: Wheel, es: seq<TimerEntry>)
    requires ConfigOk(w.config)
    ensures PartlyAdded(w, es, w.slots, {})
  {
  }

  lemma EverythingAdded(w: Wheel, es: seq<TimerEntry>, slots: Slots, groups: map<nat, seq<TimerEntry>>)
    requires ConfigOk(w.config) && GroupedBySlot(w.config, es, groups)
    requires PartlyAdded(w, es, slots, groups.Keys)
    ensures |slots| == |w.slots|
    ensures forall s :: 0 <= s < |slots| ==> slots[s] == w.slots[s] + Chosen(w.config, es, s)
  {
  }

  lemma OneMoreAdded(w: Wheel, es: seq<TimerEntry>, before: Slots, after: Slots, done: set<nat>, s: nat)
    requires ConfigOk(w.config) && PartlyAdded(w, es, before, done) && s < |w.slots|
    requires after == before[s := w.slots[s] + Chosen(w.config, es, s)]
    ensures PartlyAdded(w, es, after, done + {s})
  {
  }

  lemma UntouchedSlot(w: Wheel, es: seq<TimerEntry>, slots: Slots, done: set<nat>, s: nat)
    requires ConfigOk(w.config) && PartlyAdded(w, es, slots, done) && s < |w.slots| && s !in done
    ensures |slots| == |w.slots| && slots[s] == w.slots[s] && slots[s := w.slots[s]] == slots
  {
  }

  lemma GroupOf(c: Config, es: seq<TimerEntry>, groups: map<nat, seq<TimerEntry>>, s: nat)
    requires ConfigOk(c) && GroupedBySlot(c, es, groups) && s in groups
    ensures groups[s] == Chosen(c, es, s)
  {
  }

  lemma NothingGrouped(c: Config)
    requires ConfigOk(c)
    ensures GroupedBySlot(c, [], map[])
  {
  }

  /** An entry of the batch that has not been inserted yet is not indexed yet. */
  lemma NotIndexedYet(w: Wheel, es: seq<TimerEntry>, slots: Slots, timerMap: Index,
                      done: set<nat>, s: nat, k: nat)
    requires WheelOk(w) && Numbered(w, es) && s < |w.slots| && s !in done
    requires var mine := Chosen(w.config, es, s);
             k < |mine| && |slots| == |w.slots| && slots[s] == w.slots[s] + mine[..k]
             && PartlyAdded(w, es, slots[s := w.slots[s]], done)
    requires Indexed(slots, timerMap)
    ensures Chosen(w.config, es, s)[k].id !in timerMap
  {
    var e := Chosen(w.config, es, s)[k];
    forall t: nat, p: nat | t < |slots| && p < |slots[t]|
      ensures slots[t][p].id != e.id
    {
      NotQueuedYet(w, es, slots, done, s, k, t, p);
    }
  }

  /** The entries carry the next free ids, in order. */
  ghost predicate Numbered(w: Wheel, es: seq<TimerEntry>) {
    forall i :: 0 <= i < |es| ==> es[i].id == w.nextEntryId + i
  }

  lemma NotQueuedYet(w: Wheel, es: seq<TimerEntry>, slots: Slots,
                     done: set<nat>, s: nat, k: nat, t: nat, p: nat)
    requires WheelOk(w) && Numbered(w, es) && s < |w.slots| && s !in done && t < |slots| && p < |slots[t]|
    requires var mine := Chosen(w.config, es, s);
             k < |mine| && |slots| == |w.slots| && slots[s] == w.slots[s] + mine[..k]
             && PartlyAdded(w, es, slots[s := w.slots[s]], done)
    ensures slots[t][p].id != Chosen(w.config, es, s)[k].id
  {
    var mine := Chosen(w.config, es, s);
    var e, f := mine[k], slots[t][p];
    assert e in mine;
    hide WheelOk, Chosen, IdsAscend, Numbered;
    WheelBasics(w);
    WhereQueued(w, es, slots, done, s, k, t, p);
    IdNotBelow(w, es, e);
    if p < |w.slots[t]| {
      QueuedIdBelow(w, t, p);
    } else if t == s {
      NumberedAscend(w, es);
      ChosenSorted(w.config, es, s);
      AscendingIds(mine, p - |w.slots[s]|, k);
    } else {
      ChosenApart(w, es, e, s, f, t);
    }
  }

  /** An entry queued half way through is old, or an earlier member for its slot, or a member
      for a slot already done. */
  lemma WhereQueued(w: Wheel, es: seq<TimerEntry>, slots: Slots, done: set<nat>, s: nat, k: nat, t: nat, p: nat)
    requires ConfigOk(w.config) && s < |w.slots| && s !in done && t < |slots| && p < |slots[t]|
    requires var mine := Chosen(w.config, es, s);
             k < |mine| && |slots| == |w.slots| && slots[s] == w.slots[s] + mine[..k]
             && PartlyAdded(w, es, slots[s := w.slots[s]], done)
    ensures var n, mine := |w.slots[t]|, Chosen(w.config, es, t);
            if p < n then slots[t][p] == w.slots[t][p]
            else p - n < |mine| && slots[t][p] == mine[p - n] && (t == s ==> p - n < k)
  {
    hide Chosen;
    assert slots[s := w.slots[s]][t] == if t == s then w.slots[s] else slots[t];
  }

  lemma IdNotBelow(w: Wheel, es: seq<TimerEntry>, e: TimerEntry)
    requires ConfigOk(w.config) && Numbered(w, es) && e in es
    ensures w.nextEntryId <= e.id
  {
  }

  lemma NumberedAscend(w: Wheel, es: seq<TimerEntry>)
    requires Numbered(w, es)
    ensures IdsAscend(es)
  {
  }

  /** Entries chosen for different slots carry different ids. */
  lemma ChosenApart(w: Wheel, es: seq<TimerEntry>, e: TimerEntry, s: nat, f: TimerEntry, t: nat)
    requires ConfigOk(w.config) && Numbered(w, es) && s != t
    requires e in Chosen(w.config, es, s) && f in Chosen(w.config, es, t)
    ensures e.id != f.id
  {
    hide Chosen;
    var i :| 0 <= i < |es| && es[i] == e;
    var j :| 0 <= j < |es| && es[j] == f;
  }

  lemma QueuedIdBelow(w: Wheel, t: nat, p: nat)
    requires WheelOk(w) && InBounds(w.slots, (t, p))
    ensures w.slots[t][p].id < w.nextEntryId
  {
    assert View(w).timers[w.slots[t][p].id] == w.slots[t][p];
  }

  lemma AscendingIds(es: seq<TimerEntry>, i: nat, j: nat)
    requires IdsAscend(es) && i < j < |es|
    ensures es[i].id < es[j].id
  {
  }

  /** The chosen entries keep the order of their ids. */
  lemma {:induction false} ChosenSorted(c: Config, es: seq<TimerEntry>, s: nat)
    requires ConfigOk(c) && IdsAscend(es)
    ensures IdsAscend(Chosen(c, es, s))
    decreases |es|
  {
    if es != [] {
      var before, last := es[..|es| - 1], es[|es| - 1];
      ChosenSorted(c, before, s);
      AppendAscending(Chosen(c, before, s), before, last);
    }
  }

  ghost predicate IdsAscend(es: seq<TimerEntry>) {
    forall i, j :: 0 <= i < j < |es| ==> es[i].id < es[j].id
  }

  lemma AppendAscending(some: seq<TimerEntry>, all: seq<TimerEntry>, last: TimerEntry)
    requires IdsAscend(some) && (forall e :: e in some ==> e in all) && forall e :: e in all ==> e.id < last.id
    ensures IdsAscend(some + [last])
  {
    forall i | 0 <= i < |some|
      ensures some[i].id < last.id
    {
      assert some[i] in some;
    }
  }

  /** Grouping by slot: `groups` holds the chosen entries of every slot that has any. */
  ghost predicate GroupedBySlot(c: Config, es: seq<TimerEntry>, groups: map<nat, seq<TimerEntry>>)
    requires ConfigOk(c)
  {
    forall s: nat :: Chosen(c, es, s) == if s in groups then groups[s] else []
  }

  lemma GroupOneMore(c: Config, es: seq<TimerEntry>, groups: map<nat, seq<TimerEntry>>, e: TimerEntry)
    requires ConfigOk(c) && GroupedBySlot(c, es, groups)
    ensures var s := SlotIndex(c, e.expiryTime);
            GroupedBySlot(c, es + [e], groups[s := (if s in groups then groups[s] else []) + [e]])
  {
    assert (es + [e])[..|es|] == es;
  }

  /** Appending the next entry to a slot that already has the first `k`. */
  lemma PlaceOnBase(slots0: Slots, base: seq<TimerEntry>, entries: seq<TimerEntry>, slots: Slots, s: nat, k: nat)
    requires s < |slots0| && slots0[s] == base && k < |entries|
    requires slots == slots0[s := base + entries[..k]]
    ensures slots[s := base] == slots0 && slots[s] == base + entries[..k]
    ensures Place(slots, s, entries[k]) == slots0[s := base + entries[..k + 1]]
  {
    assert base + entries[..k] + [entries[k]] == base + entries[..k + 1];
  }

  // --- what the lanes make of a batch

  /** The expiry a lane works out: clock, delay and their sum are cut off to 64 bits. */
  function LaneExpiry(c: Config, currentTime: nat, delay: nat): nat {
    c.startTime + AsU64(AsU64(Elapsed(c.startTime, currentTime)) + AsU64(delay))
  }

  /** It is the expiry of the scalar path exactly if that fits 64 bits, counted from the
      start. */
  lemma LaneExpiryIff(c: Config, currentTime: nat, delay: nat)
    requires c.startTime <= currentTime
    ensures LaneExpiry(c, currentTime, delay) == currentTime + delay
            <==> currentTime - c.startTime + delay < U64_LIMIT
  {
    WordSumIff(currentTime - c.startTime, delay);
  }

  /** The entries the batch path makes. */
  function LaneEntries(w: Wheel, batch: seq<(nat, TimerEvent)>): (es: seq<TimerEntry>)
    ensures |es| == |batch|
    ensures forall i :: 0 <= i < |es| ==>
        es[i] == TimerEntry(w.nextEntryId + i, LaneExpiry(w.config, w.currentTime, batch[i].0), batch[i].1)
  {
    seq(|batch|, i requires 0 <= i < |batch| =>
      TimerEntry(w.nextEntryId + i, LaneExpiry(w.config, w.currentTime, batch[i].0), batch[i].1))
  }

  /** The delay that has the expiry of a lane, if that is not before the clock. */
  function LaneDelay(c: Config, currentTime: nat, delay: nat): nat {
    Elapsed(currentTime, LaneExpiry(c, currentTime, delay))
  }

  function LaneBatch(c: Config, currentTime: nat, batch: seq<(nat, TimerEvent)>): (b: seq<(nat, TimerEvent)>)
    ensures |b| == |batch|
    ensures forall i :: 0 <= i < |b| ==> b[i] == (LaneDelay(c, currentTime, batch[i].0), batch[i].1)
  {
    seq(|batch|, i requires 0 <= i < |batch| => (LaneDelay(c, currentTime, batch[i].0), batch[i].1))
  }

  /** No lane comes out before the clock. */
  ghost predicate NoneBehind(c: Config, currentTime: nat, batch: seq<(nat, TimerEvent)>) {
    forall i :: 0 <= i < |batch| ==> currentTime <= LaneExpiry(c, currentTime, batch[i].0)
  }

  /** Every expiry fits 64 bits, counted from the start. */
  ghost predicate AllFit(c: Config, currentTime: nat, batch: seq<(nat, TimerEvent)>) {
    forall i :: 0 <= i < |batch| ==> Elapsed(c.startTime, currentTime) + batch[i].0 < U64_LIMIT
  }

  /** When all expiries fit, the lanes change nothing. */
  lemma FittingBatch(c: Config, currentTime: nat, batch: seq<(nat, TimerEvent)>)
    requires c.startTime <= currentTime && AllFit(c, currentTime, batch)
    ensures NoneBehind(c, currentTime, batch) && LaneBatch(c, currentTime, batch) == batch
  {
    forall i | 0 <= i < |batch|
      ensures LaneExpiry(c, currentTime, batch[i].0) == currentTime + batch[i].0
    {
      LaneExpiryIff(c, currentTime, batch[i].0);
    }
    hide LaneExpiry;
  }

  lemma FirstMisfit(w: Wheel, batch: seq<(nat, TimerEvent)>) returns (i: nat)
    requires w.config.startTime <= w.currentTime && !AllFit(w.config, w.currentTime, batch)
    ensures i < |batch| && LaneEntries(w, batch)[i] != NewEntries(w, batch)[i]
  {
    i :| 0 <= i < |batch| && Elapsed(w.config.startTime, w.currentTime) + batch[i].0 >= U64_LIMIT;
    LaneExpiryIff(w.config, w.currentTime, batch[i].0);
  }

  lemma LanesAreNew(w: Wheel, batch: seq<(nat, TimerEvent)>)
    requires NoneBehind(w.config, w.currentTime, batch)
    ensures LaneEntries(w, batch) == NewEntries(w, LaneBatch(w.config, w.currentTime, batch))
  {
    hide LaneExpiry;
  }

  /** The wheel is a wheel afterwards if and only if no lane came out before the clock, and
      then the timers have been added with the delays of the lanes. */
  lemma LanesKeepWheelIff(w: Wheel, batch: seq<(nat, TimerEvent)>, w': Wheel)
    requires WheelOk(w) && Appended(w, LaneEntries(w, batch), w')
    ensures WheelOk(w') <==> NoneBehind(w.config, w.currentTime, batch)
    ensures WheelOk(w') ==>
        var lanes := LaneBatch(w.config, w.currentTime, batch);
        w' == WheelAddAll(w, lanes) && View(w') == AddTimers(View(w), lanes)
  {
    hide WheelOk, Appended, View, WheelAddAll, AddTimers, LaneExpiry;
    WheelBasics(w);
    if NoneBehind(w.config, w.currentTime, batch) {
      LanesAreNew(w, batch);
      GroupedEqualsFolded(w, w', LaneBatch(w.config, w.currentTime, batch));
    } else {
      var i: nat :| i < |batch| && LaneExpiry(w.config, w.currentTime, batch[i].0) < w.currentTime;
      AppendedIsFound(w, LaneEntries(w, batch), w', i);
      AppendedKeepsClock(w, LaneEntries(w, batch), w');
      EarlyTimerIsWrong(w', LaneEntries(w, batch)[i]);
    }
  }

  lemma AppendedKeepsClock(w: Wheel, es: seq<TimerEntry>, w': Wheel)
    requires ConfigOk(w.config) && Appended(w, es, w')
    ensures w'.currentTime == w.currentTime && w'.config == w.config
  {
  }

  lemma EarlyTimerIsWrong(w: Wheel, e: TimerEntry)
    requires e.id in View(w).timers && View(w).timers[e.id] == e && e.expiryTime < w.currentTime
    ensures !WheelOk(w)
  {
  }

  /** It happens: on a new wheel a delay of 2^64 nanoseconds is due at once in a batch, and
      one nanosecond less, ten milliseconds later, comes out before the clock. */
  lemma LongDelaysWrap(c: Config, event: TimerEvent)
    requires ConfigOk(c)
    ensures var w := NewWheel(c);
            && LaneBatch(c, w.currentTime, [(U64_LIMIT, event)]) == [(0, event)]
            && AddTimer(View(w), U64_LIMIT, event).timers[1].expiryTime == c.startTime + U64_LIMIT
    ensures c.slotDuration == 10 * MILLISECOND ==>
        var clock := Advance(View(NewWheel(c)), c.startTime + 10 * MILLISECOND).currentTime;
        && clock == c.startTime + 10 * MILLISECOND && LaneExpiry(c, clock, U64_LIMIT - 1) == clock - 1
        && !NoneBehind(c, clock, [(U64_LIMIT - 1, event)])
  {
    assert LaneExpiry(c, c.startTime, U64_LIMIT) == c.startTime;
    if c.slotDuration == 10 * MILLISECOND {
      QuotientAndRemainder(10 * MILLISECOND, c.slotDuration, 1, 0);
      var clock := c.startTime + 10 * MILLISECOND;
      QuotientAndRemainder(10 * MILLISECOND + (U64_LIMIT - 1), U64_LIMIT, 1, 10 * MILLISECOND - 1);
      assert LaneExpiry(c, clock, U64_LIMIT - 1) == clock - 1;
      assert [(U64_LIMIT - 1, event)][0].0 == U64_LIMIT - 1;
    }
  }
}
