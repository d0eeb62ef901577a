/** The timing wheel itself: slots, positional index, pointer, clock and cache, updated in
    place. Every method is tied to the plain schedule of `WheelModel`. */
module TimingWheels {
  import opened Bits
  import opened Options
  import opened Sequences
  import opened WheelModel
  import opened WheelBatches
  import opened WheelCancels

  class TimingWheel {
    const slotCount: nat
    const slotMask: nat
    const slotDuration: nat
    const startTime: nat
    ghost const slotBits: nat

    var currentSlot: nat
    var currentTime: nat
    var slots: Slots
    var timerMap: Index
    var nextEntryId: nat
    var cachedNextExpiry: Option<nat>

    ghost function Settings(): Config {
      Config(slotCount, slotDuration, startTime)
    }

    ghost function State(): Wheel
      reads this
    {
      Wheel(Settings(), currentSlot, currentTime, slots, timerMap, nextEntryId, cachedNextExpiry)
    }

    ghost predicate Built() {
      slotBits <= 32 && slotCount == Pow2(slotBits) && slotMask == slotCount - 1 && slotDuration > 0
    }

    /** What holds even half way through an advance. */
    ghost predicate Coherent()
      reads this
    {
      && Built()
      && Indexed(slots, timerMap)
      && Placed(Settings(), slots)
      && Aligned(Settings(), currentSlot, currentTime)
    }

    ghost predicate Valid()
      reads this
      ensures Valid() ==> startTime <= currentTime
    {
      Built() && WheelOk(State())
    }

    ghost function Schedule(): Schedule
      reads this
    {
      View(State())
    }

    constructor (slotCount: nat, slotDuration: nat, now: nat, ghost slotBits: nat)
      requires slotBits <= 32 && slotCount == Pow2(slotBits) && slotDuration > 0
      ensures Valid()
      ensures State() == NewWheel(Config(slotCount, slotDuration, now))
      ensures Schedule() == WheelModel.Schedule(Config(slotCount, slotDuration, now), now, map[], 1, None)
    {
      this.slotCount := slotCount;
      this.slotMask := slotCount - 1;
      this.slotDuration := slotDuration;
      this.startTime := now;
      this.slotBits := slotBits;
      currentSlot := 0;
      currentTime := now;
      slots := seq(slotCount, _ => []);
      timerMap := map[];
      nextEntryId := 1;
      cachedNextExpiry := None;
      new;
      QuotientAndRemainder(0, slotDuration, 0, 0);
      QuotientAndRemainder(0, slotCount, 0, 0);
      assert Find(slots, timerMap) == map[];
    }

    /** The masked slot offset is the slot the specification assigns. */
    function CalculateSlotIndex(expiryTime: nat): (s: nat)
      requires Built()
      ensures s == SlotIndex(Settings(), expiryTime) < slotCount
    {
      TruncatedMask(Elapsed(startTime, expiryTime) / slotDuration, slotBits);
      BitAnd(AsU64(Elapsed(startTime, expiryTime) / slotDuration), slotMask)
    }

    /** The pointer masked to a slot: the remainder modulo the slot count. */
    function Wrap(pointer: nat): (s: nat)
      requires Built()
      ensures s == pointer % slotCount && s < slotCount
    {
      MaskIsMod(pointer, slotBits);
      BitAnd(pointer, slotMask)
    }

    method AddTimer(delay: nat, event: TimerEvent) returns (entryId: nat)
      requires Valid()
      modifies this
      ensures Valid()
      ensures State() == WheelAdd(old(State()), delay, event)
      ensures Schedule() == WheelModel.AddTimer(old(Schedule()), delay, event)
      ensures entryId == old(nextEntryId)
    {
      assert |slots| == slotCount;
      ghost var before := State();
      assert WheelOk(before);
      hide WheelOk, View, SlotIndex, WheelModel.AddTimer, CalculateSlotIndex, Place, PlaceIndex;
      WheelAddRefines(before, delay, event);
      entryId := nextEntryId;
      nextEntryId := nextEntryId + 1;
      var expiryTime := currentTime + delay;
      var slotIndex := CalculateSlotIndex(expiryTime);
      var entry := TimerEntry(entryId, expiryTime, event);
      slots, timerMap := Place(slots, slotIndex, entry), PlaceIndex(slots, timerMap, slotIndex, entry);
      match cachedNextExpiry {
        case None => cachedNextExpiry := Some(expiryTime);
        case Some(currentEarliest) =>
          if expiryTime < currentEarliest {
            cachedNextExpiry := Some(expiryTime);
          }
      }
      assert State() == WheelAdd(before, delay, event);
    }

    method CancelTimer(entryId: nat) returns (cancelled: bool)
      requires Valid()
      modifies this`slots, this`timerMap, this`cachedNextExpiry
      ensures Valid()
      ensures Schedule() == CancelTimers(old(Schedule()), {entryId})
      ensures cancelled == (entryId in old(Schedule()).timers)
      ensures cachedNextExpiry ==
          if cancelled && old(cachedNextExpiry).Some?
             && old(Schedule()).timers[entryId].expiryTime <= old(cachedNextExpiry).value + 1_000_000 then None
          else old(cachedNextExpiry)
    {
      hide WheelOk, View, WheelModel.CancelTimers, WheelRemove, Indexed;
      ghost var before := State();
      TimersAreIndexed(before);
      if entryId !in timerMap {
        CancelAbsent(View(before), entryId);
        return false;
      }
      WheelRemoveRefines(before, entryId);
      RemovalIs(before, entryId);
      var (slotIndex, positionInSlot) := timerMap[entryId];
      timerMap := timerMap - {entryId};
      var cancelledExpiry := slots[slotIndex][positionInSlot].expiryTime;
      SwapAndPop(slotIndex, positionInSlot);
      if cachedNextExpiry.Some? && cancelledExpiry <= cachedNextExpiry.value + MILLISECOND {
        cachedNextExpiry := None;
      }
      assert State() == WheelRemove(before, entryId);
      cancelled := true;
    }

    /** Pops the last entry of a slot, after swapping the entry to remove into its place. */
    method SwapAndPop(slotIndex: nat, positionInSlot: nat)
      requires InBounds(slots, (slotIndex, positionInSlot))
      modifies this`slots, this`timerMap
      ensures slots == RemoveAt(old(slots), (slotIndex, positionInSlot))
      ensures timerMap == SwapIndex(old(slots), old(timerMap), (slotIndex, positionInSlot))
    {
      var slot := slots[slotIndex];
      var last := |slot| - 1;
      if positionInSlot == last {
        assert SwapRemove(slot, positionInSlot) == slot[..last];
        slots := slots[slotIndex := slot[..last]];
      } else {
        slot := slot[positionInSlot := slot[last]][last := slot[positionInSlot]];
        slot := slot[..last];
        assert slot == SwapRemove(slots[slotIndex], positionInSlot);
        slots := slots[slotIndex := slot];
        timerMap := timerMap[slot[positionInSlot].id := (slotIndex, positionInSlot)];
      }
    }

    /** Removes an entry of the current slot and renumbers the entries behind it. */
    method RemoveShifting(i: nat)
      requires Indexed(slots, timerMap) && InBounds(slots, (currentSlot, i))
      modifies this`slots, this`timerMap
      ensures slots == ShiftRemove(old(slots), currentSlot, i)
      ensures Renumbered(old(timerMap), timerMap, old(slots)[currentSlot][i].id, currentSlot, i,
                         |old(slots)[currentSlot]| - 1)
    {
      ghost var slots0, map0 := slots, timerMap;
      var entry := slots[currentSlot][i];
      slots := slots[currentSlot := slots[currentSlot][..i] + slots[currentSlot][i + 1..]];
      timerMap := timerMap - {entry.id};
      ShiftMoves(slots0, currentSlot, i);
      for j := i to |slots[currentSlot]|
        invariant slots == ShiftRemove(slots0, currentSlot, i)
        invariant Renumbered(map0, timerMap, entry.id, currentSlot, i, j)
      {
        RenumberStep(slots0, map0, timerMap, currentSlot, i, j);
        timerMap := timerMap[slots[currentSlot][j].id := (currentSlot, j)];
      }
    }

    /** Moves the due entry at position `i` of the current slot to the expired list. */
    method ExpireAt(i: nat, now: nat, ghost all: Timers, expired: seq<TimerEntry>) returns (expired': seq<TimerEntry>)
      requires Coherent() && InBounds(slots, (currentSlot, i)) && slots[currentSlot][i].expiryTime <= now
      requires Partition(all, slots, timerMap, [], expired, now)
      modifies this`slots, this`timerMap
      ensures Coherent() && Partition(all, slots, timerMap, [], expired', now)
      ensures currentSlot < |slots| && |slots[currentSlot]| == |old(slots)[currentSlot]| - 1
      ensures SameBut(old(slots), slots, currentSlot)
      ensures i <= |slots[currentSlot]| && slots[currentSlot][..i] == old(slots)[currentSlot][..i]
      ensures expired' == expired + [old(slots)[currentSlot][i]]
    {
      ghost var slots0, map0 := slots, timerMap;
      expired' := expired + [slots[currentSlot][i]];
      RemoveShifting(i);
      ShiftKeepsIndex(slots0, map0, timerMap, currentSlot, i);
      ShiftKeepsPlaced(Settings(), slots0, currentSlot, i);
      ShiftKeepsPartition(all, slots0, map0, timerMap, currentSlot, i, expired, now);
      ShiftMoves(slots0, currentSlot, i);
    }

    /** Takes the due entries out of the current slot, shifting the rest forward. */
    method CheckCurrentSlot(now: nat, ghost all: Timers) returns (expired: seq<TimerEntry>)
      requires Coherent() && Partition(all, slots, timerMap, [], [], now)
      modifies this`slots, this`timerMap
      ensures Coherent() && Partition(all, slots, timerMap, [], expired, now)
      ensures SameBut(old(slots), slots, currentSlot)
      ensures AllAfter(slots[currentSlot], now)
    {
      hide Coherent, Partition, SameBut, AllAfter;
      expired := [];
      var i := 0;
      CurrentSlotInRange();
      SameAsItself(slots, currentSlot);
      NoneAfter(slots[currentSlot], now);
      while i < |slots[currentSlot]|
        invariant Coherent() && Partition(all, slots, timerMap, [], expired, now)
        invariant currentSlot < |slots| && i <= |slots[currentSlot]|
        invariant SameBut(old(slots), slots, currentSlot)
        invariant AllAfter(slots[currentSlot][..i], now)
        decreases |slots[currentSlot]| - i
      {
        ghost var before := slots;
        if slots[currentSlot][i].expiryTime <= now {
          expired := ExpireAt(i, now, all, expired);
          SameButTransitive(old(slots), before, slots, currentSlot);
        } else {
          OneMoreAfter(slots[currentSlot], i, now);
          i := i + 1;
        }
      }
      assert slots[currentSlot][..i] == slots[currentSlot];
    }

    lemma CurrentSlotInRange()
      requires Coherent()
      ensures currentSlot < |slots|
    {
    }

    /** Empties the current slot, then expires or re-queues its entries one by one. */
    method ProcessSlot(now: nat, ghost all: Timers, expired: seq<TimerEntry>) returns (expired': seq<TimerEntry>)
      requires Coherent() && Partition(all, slots, timerMap, [], expired, now)
      modifies this`slots, this`timerMap
      ensures Coherent() && Partition(all, slots, timerMap, [], expired', now)
      ensures currentSlot < |slots| && SameBut(old(slots), slots, currentSlot)
      ensures AllAfter(slots[currentSlot], now)
    {
      AlignedSlotInRange(Settings(), currentSlot, currentTime);
      PlacedLength(Settings(), slots);
      DrainSlot(slots, timerMap, currentSlot);
      DrainRest(Settings(), all, slots, timerMap, currentSlot, expired, now);
      hide Indexed, IndexedExcept, Partition, Placed, Aligned;
      var entriesToProcess := TakeCurrentSlot();
      expired' := expired;
      assert entriesToProcess[0..] == entriesToProcess;
      hide SameBut;
      for k := 0 to |entriesToProcess|
        invariant IndexedExcept(slots, timerMap, entriesToProcess[k..])
        invariant Partition(all, slots, timerMap, entriesToProcess[k..], expired', now)
        invariant Placed(Settings(), slots)
        invariant SameBut(old(slots), slots, currentSlot)
        invariant currentSlot < |slots| && AllAfter(slots[currentSlot], now)
      {
        ghost var before := slots;
        assert entriesToProcess[k..][1..] == entriesToProcess[k + 1..];
        expired' := ProcessEntry(entriesToProcess[k], now, all, entriesToProcess[k..], expired');
        SameButTransitive(old(slots), before, slots, currentSlot);
      }
      assert entriesToProcess[|entriesToProcess|..] == [];
      NoRest(slots, timerMap);
    }

    /** Pops the whole current slot, front first. */
    method TakeCurrentSlot() returns (entriesToProcess: seq<TimerEntry>)
      requires currentSlot < |slots|
      modifies this`slots
      ensures entriesToProcess == old(slots)[currentSlot]
      ensures slots == old(slots)[currentSlot := []]
    {
      entriesToProcess := [];
      while |slots[currentSlot]| > 0
        invariant |slots| == |old(slots)| && slots == old(slots)[currentSlot := slots[currentSlot]]
        invariant entriesToProcess + slots[currentSlot] == old(slots)[currentSlot]
        decreases |slots[currentSlot]|
      {
        entriesToProcess := entriesToProcess + [slots[currentSlot][0]];
        slots := slots[currentSlot := slots[currentSlot][1..]];
      }
    }

    /** A popped entry expires if it is due, and is otherwise queued again in its slot. */
    method ProcessEntry(entry: TimerEntry, now: nat, ghost all: Timers, ghost rest: seq<TimerEntry>,
                        expired: seq<TimerEntry>) returns (expired': seq<TimerEntry>)
      requires Built() && Placed(Settings(), slots) && currentSlot < |slots|
      requires rest != [] && rest[0] == entry && SlotIndex(Settings(), entry.expiryTime) == currentSlot
      requires IndexedExcept(slots, timerMap, rest) && Partition(all, slots, timerMap, rest, expired, now)
      requires AllAfter(slots[currentSlot], now)
      modifies this`slots, this`timerMap
      ensures IndexedExcept(slots, timerMap, rest[1..]) && Partition(all, slots, timerMap, rest[1..], expired', now)
      ensures Placed(Settings(), slots) && SameBut(old(slots), slots, currentSlot)
      ensures currentSlot < |slots| && AllAfter(slots[currentSlot], now)
    {
      hide IndexedExcept, Partition, Placed;
      timerMap := timerMap - {entry.id};
      if entry.expiryTime <= now {
        RestExpires(all, slots, old(timerMap), rest, expired, now);
        expired' := expired + [entry];
      } else {
        var newSlotIndex := CalculateSlotIndex(entry.expiryTime);
        RestStays(slots, old(timerMap), rest, newSlotIndex);
        RestStaysInPartition(all, slots, old(timerMap), rest, expired, now, newSlotIndex);
        PlaceKeepsPlaced(Settings(), slots, newSlotIndex, entry);
        slots, timerMap := Place(slots, newSlotIndex, entry), PlaceIndex(slots, timerMap, newSlotIndex, entry);
        expired' := expired;
      }
    }

    /** Fires every timer due at `now`: exactly those, each once, whatever the distance
        the clock jumps, and leaves exactly the others queued. */
    method Advance(now: nat) returns (expired: seq<TimerEntry>)
      requires Valid()
      requires SlotsToAdvance(Schedule(), now) < U64_LIMIT
      modifies this`slots, this`timerMap, this`currentSlot, this`currentTime, this`cachedNextExpiry
      ensures Valid()
      ensures Schedule() == WheelModel.Advance(old(Schedule()), now)
      ensures ListsExactly(expired, DueTimers(old(Schedule()).timers, now))
    {
      AlignedSlotInRange(Settings(), currentSlot, currentTime);
      hide Indexed, Partition, Placed, Aligned, VisitedClear, ScheduleOk, AllAfter, SameBut, ListsExactly, Find;
      ghost var before := State();
      ghost var all := Schedule().timers;
      StartPartition(before, now);
      expired := CheckCurrentSlot(now, all);
      StartVisited(slots, currentSlot, now);
      var elapsed := Elapsed(currentTime, now);
      var slotsToAdvance := AsU64(elapsed / slotDuration);
      SmallMod(elapsed / slotDuration, U64_LIMIT);
      if slotsToAdvance == 0 {
        FinishAdvance(before, State(), 0, expired, now);
        return;
      }
      var maxAdvance := Smaller(slotCount, slotsToAdvance);
      expired := AdvancePointer(maxAdvance, now, all, expired);
      if expired != [] {
        cachedNextExpiry := None;
      }
      FinishAdvance(before, State(), maxAdvance, expired, now);
    }

    /** Moves the pointer slot by slot, processing every slot it enters. */
    method AdvancePointer(maxAdvance: nat, now: nat, ghost all: Timers, expired: seq<TimerEntry>)
      returns (expired': seq<TimerEntry>)
      requires Coherent() && currentSlot < |slots| && VisitedClear(slots, currentSlot, 0, now)
      requires Partition(all, slots, timerMap, [], expired, now)
      modifies this`slots, this`timerMap, this`currentSlot, this`currentTime
      ensures Coherent() && Partition(all, slots, timerMap, [], expired', now)
      ensures currentTime == old(currentTime) + maxAdvance * slotDuration
      ensures VisitedClear(slots, old(currentSlot), maxAdvance, now)
    {
      ghost var from := currentSlot;
      expired' := expired;
      CoherentSizes();
      NotYetTurned(from, slotCount, currentTime, slotDuration);
      TurnedIs(from, maxAdvance, slotCount, currentTime, slotDuration);
      hide *;
      for j := 0 to maxAdvance
        invariant Coherent() && Partition(all, slots, timerMap, [], expired', now)
        invariant currentSlot == SlotAfter(from, j, slotCount)
        invariant currentTime == TimeAfter(old(currentTime), j, slotDuration)
        invariant |slots| == slotCount && VisitedClear(slots, from, j, now)
      {
        ghost var before := slots;
        TurnOneMore(from, j, slotCount, old(currentTime), slotDuration);
        expired' := EnterNextSlot(now, all, expired');
        VisitTurned(before, slots, from, j + 1, now);
      }
    }

    lemma CoherentSizes()
      requires Coherent()
      ensures ConfigOk(Settings()) && slotCount > 0 && slotDuration > 0 && |slots| == slotCount
    {
    }

    /** Moves the pointer and the clock by one slot and processes the slot entered. */
    method EnterNextSlot(now: nat, ghost all: Timers, expired: seq<TimerEntry>) returns (expired': seq<TimerEntry>)
      requires Coherent() && Partition(all, slots, timerMap, [], expired, now)
      modifies this`slots, this`timerMap, this`currentSlot, this`currentTime
      ensures Coherent() && Partition(all, slots, timerMap, [], expired', now)
      ensures slotCount > 0 && currentSlot == SlotAfter(old(currentSlot), 1, slotCount)
      ensures currentTime == old(currentTime) + slotDuration
      ensures |slots| == |old(slots)| == slotCount && currentSlot < slotCount
      ensures SameBut(old(slots), slots, currentSlot) && AllAfter(slots[currentSlot], now)
    {
      PlacedLength(Settings(), slots);
      TickKeepsAligned(Settings(), currentSlot, currentTime);
      hide Indexed, Partition, Placed, Aligned, AllAfter, Pow2, Wrap;
      currentSlot := Wrap(currentSlot + 1);
      currentTime := currentTime + slotDuration;
      expired' := ProcessSlot(now, all, expired);
    }

    /** The earliest expiry, by scanning the slots in time order and stopping as soon as no
        later slot can hold anything earlier. */
    method NextExpiryTime() returns (earliest: Option<nat>)
      requires Valid()
      modifies this`cachedNextExpiry
      ensures Valid()
      ensures Schedule() == QueryNextExpiry(old(Schedule()))
      ensures earliest == cachedNextExpiry
    {
      ghost var before := State();
      FoundKeys(slots, timerMap);
      if cachedNextExpiry.Some? {
        return cachedNextExpiry;
      }
      if timerMap == map[] {
        assert IsEarliest(Schedule().timers, None);
        EarliestUnique(Schedule().timers, None);
        return None;
      }
      hide Indexed, Placed, Aligned, ScheduleOk, Find, Scanned, IsEarliest;
      ghost var scanned;
      earliest, scanned := ScanForEarliest();
      ScanFindsEarliest(before, scanned, earliest);
      EarliestUnique(Schedule().timers, earliest);
      cachedNextExpiry := earliest;
    }

    /** Looks at the slots in time order from the current one, at most once round, and
        stops early when the earliest expiry found lies within the slot just read. */
    method ScanForEarliest() returns (earliest: Option<nat>, ghost scanned: nat)
      requires Coherent()
      ensures Scanned(slots, currentSlot, scanned, earliest)
      ensures scanned >= slotCount
              || (earliest.Some? && scanned > 0
                  && earliest.value <= currentTime + slotDuration * (scanned - 1) + slotDuration)
    {
      AlignedSlotInRange(Settings(), currentSlot, currentTime);
      PlacedLength(Settings(), slots);
      hide Coherent, Scanned, Pow2, Wrap;
      NothingScanned(slots, currentSlot);
      earliest, scanned := None, 0;
      for offset := 0 to slotCount
        invariant scanned == offset && Scanned(slots, currentSlot, offset, earliest)
      {
        var slotIndex := Wrap(currentSlot + offset);
        var empty := slots[slotIndex] == [];
        earliest := ScanSlot(slotIndex, offset, earliest);
        scanned := offset + 1;
        if empty {
          continue;
        }
        var nextSlotBaseline := currentTime + slotDuration * offset;
        if earliest.value <= nextSlotBaseline + slotDuration {
          break;
        }
      }
    }

    /** Takes one more slot into account; an empty one is skipped. */
    method ScanSlot(slotIndex: nat, ghost offset: nat, earliest: Option<nat>) returns (earliest': Option<nat>)
      requires |slots| == slotCount && currentSlot < slotCount && offset < slotCount
      requires slotIndex == (currentSlot + offset) % slotCount && slotIndex < slotCount
      requires Scanned(slots, currentSlot, offset, earliest)
      ensures Scanned(slots, currentSlot, offset + 1, earliest')
      ensures slots[slotIndex] != [] ==> earliest'.Some?
    {
      hide Scanned, EarliestIn;
      earliest' := earliest;
      if slots[slotIndex] == [] {
        NothingInEmptySlot();
        ScanOneMore(slots, currentSlot, offset, earliest, None);
        return;
      }
      var slotEarliest := EarliestInSlot(slots[slotIndex]);
      ScanOneMore(slots, currentSlot, offset, earliest, slotEarliest);
      if earliest.None? || slotEarliest.value < earliest.value {
        earliest' := slotEarliest;
      }
    }

    method EarliestInSlot(slot: seq<TimerEntry>) returns (earliest: Option<nat>)
      requires slot != []
      ensures EarliestIn(slot, earliest) && earliest.Some?
    {
      earliest := None;
      for i := 0 to |slot|
        invariant EarliestIn(slot[..i], earliest)
      {
        TakeOneMore(slot, i);
        if earliest.None? || slot[i].expiryTime < earliest.value {
          earliest := Some(slot[i].expiryTime);
        }
      }
      assert slot[..|slot|] == slot;
    }

    method Clear()
      requires Valid()
      modifies this`slots, this`timerMap, this`cachedNextExpiry
      ensures Valid()
      ensures Schedule() == WheelModel.Clear(old(Schedule()))
      ensures Schedule().timers == map[] && cachedNextExpiry == None && |slots| == |old(slots)|
      ensures forall s :: 0 <= s < |slots| ==> slots[s] == []
    {
      for s := 0 to |slots|
        invariant |slots| == |old(slots)| && forall t :: 0 <= t < s ==> slots[t] == []
      {
        slots := slots[s := []];
      }
      timerMap := map[];
      cachedNextExpiry := None;
    }

    // --- batch insertion

    /** Ids, expiries and slots of a whole batch, computed in lanes of eight and four with
        32-bit casts: lane by lane the values that one-by-one insertion computes. */
    method SimdCalculateBatchMetadata(timers: seq<(nat, TimerEvent)>, startId: nat)
      returns (entryIds: seq<nat>, expiryTimes: seq<nat>, slotIndices: seq<nat>)
      requires Built() && startTime <= currentTime && slotDuration < U64_LIMIT
      requires startId + |timers| < U64_LIMIT
      ensures |entryIds| == |expiryTimes| == |slotIndices| == |timers|
      ensures forall i :: 0 <= i < |timers| ==>
          && entryIds[i] == startId + i
          && expiryTimes[i] == LaneExpiry(Settings(), currentTime, timers[i].0)
          && slotIndices[i] == SlotIndex(Settings(), expiryTimes[i])
    {
      var len := |timers|;
      entryIds := [];
      var id, i := startId, 0;
      if startId < U32_LIMIT && startId + len < U32_LIMIT {
        while i + 8 <= len
          invariant i <= len && id == startId + i && |entryIds| == i
          invariant forall k :: 0 <= k < i ==> entryIds[k] == startId + k
        {
          forall j {:trigger AsU32(id + j)} | 0 <= j < 8
            ensures AsU32(id + j) == id + j
          {
            SmallMod(id + j, U32_LIMIT);
          }
          var lanes := [AsU32(id), AsU32(id + 1), AsU32(id + 2), AsU32(id + 3),
                        AsU32(id + 4), AsU32(id + 5), AsU32(id + 6), AsU32(id + 7)];
          entryIds := entryIds + lanes;
          id, i := id + 8, i + 8;
        }
      } else {
        while i + 4 <= len
          invariant i <= len && id == startId + i && |entryIds| == i
          invariant forall k :: 0 <= k < i ==> entryIds[k] == startId + k
        {
          entryIds := entryIds + [id, id + 1, id + 2, id + 3];
          id, i := id + 4, i + 4;
        }
      }
      while i < len
        invariant i <= len && id == startId + i && |entryIds| == i
        invariant forall k :: 0 <= k < i ==> entryIds[k] == startId + k
      {
        entryIds := entryIds + [id];
        id, i := id + 1, i + 1;
      }
      var delayNanos := seq(len, k requires 0 <= k < len => AsU64(timers[k].0));
      hide AsU64, SlotIndex, Pow2;
      expiryTimes, slotIndices :=
        SimdProcessDelays(delayNanos, AsU64(currentTime - startTime));
    }

    /** The first entries of `delays` have their expiry and slot worked out. */
    ghost predicate LanesDone(delays: seq<nat>, currentTimeNanos: nat, expiryTimes: seq<nat>, slotIndices: seq<nat>)
      requires Built()
    {
      && |expiryTimes| == |slotIndices| <= |delays|
      && forall k :: 0 <= k < |expiryTimes| ==>
           && expiryTimes[k] == startTime + AsU64(currentTimeNanos + delays[k])
           && slotIndices[k] == SlotIndex(Settings(), expiryTimes[k])
    }

    /** A lane's slot, its offset cast to 32 bits before masking. */
    function LaneSlot32(totalNanos: nat): nat
      requires Built()
    {
      BitAnd(AsU32(totalNanos / slotDuration), AsU32(slotMask))
    }

    /** A remainder lane's slot, its offset kept at 64 bits. */
    function LaneSlot64(totalNanos: nat): nat
      requires Built()
    {
      BitAnd(AsU64(totalNanos / slotDuration), AsU32(slotMask))
    }

    /** Either cast finds the slot of the scalar path, for every total. */
    lemma LaneCorrect(totalNanos: nat)
      requires Built()
      ensures LaneSlot32(totalNanos) == SlotIndex(Settings(), startTime + totalNanos)
      ensures LaneSlot64(totalNanos) == SlotIndex(Settings(), startTime + totalNanos)
    {
      MaskFitsU32(slotBits);
      TruncatedMask(totalNanos / slotDuration, slotBits);
    }

    lemma LaneAppended(delays: seq<nat>, currentTimeNanos: nat, expiryTimes: seq<nat>, slotIndices: seq<nat>)
      requires Built() && LanesDone(delays, currentTimeNanos, expiryTimes, slotIndices) && |expiryTimes| < |delays|
      ensures var expiry := startTime + AsU64(currentTimeNanos + delays[|expiryTimes|]);
              LanesDone(delays, currentTimeNanos, expiryTimes + [expiry], slotIndices + [SlotIndex(Settings(), expiry)])
    {
      hide SlotIndex, AsU64;
    }

    /** The results of four lanes: a wrapping 64-bit addition, a division, a 32-bit mask. */
    method PushLanes(delayNanos: seq<nat>, i: nat, currentTimeNanos: nat,
                     expiryTimes: seq<nat>, slotIndices: seq<nat>)
      returns (expiryTimes': seq<nat>, slotIndices': seq<nat>)
      requires Built() && i + 4 <= |delayNanos|
      requires LanesDone(delayNanos, currentTimeNanos, expiryTimes, slotIndices) && |expiryTimes| == i
      ensures |expiryTimes'| == i + 4 && LanesDone(delayNanos, currentTimeNanos, expiryTimes', slotIndices')
    {
      hide LanesDone, SlotIndex, AsU64, LaneSlot32, LaneSlot64, Pow2;
      expiryTimes', slotIndices' := expiryTimes, slotIndices;
      for j := 0 to 4
        invariant |expiryTimes'| == i + j && LanesDone(delayNanos, currentTimeNanos, expiryTimes', slotIndices')
      {
        var totalNanos := AsU64(currentTimeNanos + delayNanos[i + j]);
        LaneCorrect(totalNanos);
        LaneAppended(delayNanos, currentTimeNanos, expiryTimes', slotIndices');
        expiryTimes' := expiryTimes' + [startTime + totalNanos];
        slotIndices' := slotIndices' + [LaneSlot32(totalNanos)];
      }
    }

    /** Four delays at a time, then the remainder one by one. */
    method SimdProcessDelays(delayNanos: seq<nat>, currentTimeNanos: nat)
      returns (expiryTimes: seq<nat>, slotIndices: seq<nat>)
      requires Built()
      ensures |expiryTimes| == |slotIndices| == |delayNanos|
      ensures forall k :: 0 <= k < |delayNanos| ==>
          && expiryTimes[k] == startTime + AsU64(currentTimeNanos + delayNanos[k])
          && slotIndices[k] == SlotIndex(Settings(), expiryTimes[k])
    {
      expiryTimes, slotIndices := [], [];
      assert LanesDone(delayNanos, currentTimeNanos, expiryTimes, slotIndices);
      hide SlotIndex, AsU64, LaneSlot32, LaneSlot64, Pow2;
      var i := 0;
      while i + 4 <= |delayNanos|
        invariant i <= |delayNanos| && |expiryTimes| == i
        invariant LanesDone(delayNanos, currentTimeNanos, expiryTimes, slotIndices)
      {
        hide LanesDone;
        expiryTimes, slotIndices :=
          PushLanes(delayNanos, i, currentTimeNanos, expiryTimes, slotIndices);
        i := i + 4;
      }
      while i < |delayNanos|
        invariant i <= |delayNanos| && |expiryTimes| == i
        invariant LanesDone(delayNanos, currentTimeNanos, expiryTimes, slotIndices)
      {
        hide LanesDone;
        var totalNanos := AsU64(currentTimeNanos + delayNanos[i]);
        LaneCorrect(totalNanos);
        LaneAppended(delayNanos, currentTimeNanos, expiryTimes, slotIndices);
        expiryTimes := expiryTimes + [startTime + totalNanos];
        slotIndices := slotIndices + [LaneSlot64(totalNanos)];
        i := i + 1;
      }
    }

    /** Inserts a batch grouped by slot, whatever order the groups are visited in. The wheel
        stays one if and only if no expiry wraps to before the clock, and then the timers have
        been added one after the other with the delays of the lanes. These are the delays given
        if and only if every expiry fits 64 bits. */
    method BatchAddTimers(timers: seq<(nat, TimerEvent)>) returns (result: seq<nat>)
      requires Valid() && slotDuration < U64_LIMIT && nextEntryId + |timers| < U64_LIMIT
      modifies this`slots, this`timerMap, this`nextEntryId, this`cachedNextExpiry
      ensures Appended(old(State()), LaneEntries(old(State()), timers), State())
      ensures Valid() <==> NoneBehind(Settings(), currentTime, timers)
      ensures Valid() ==> State() == WheelAddAll(old(State()), LaneBatch(Settings(), currentTime, timers))
      ensures Valid() ==>
          Schedule() == WheelModel.AddTimers(old(Schedule()), LaneBatch(Settings(), currentTime, timers))
      ensures Schedule() == WheelModel.AddTimers(old(Schedule()), timers) <==> AllFit(Settings(), currentTime, timers)
      ensures |result| == |timers| && forall i :: 0 <= i < |timers| ==> result[i] == old(nextEntryId) + i
    {
      hide WheelOk, Appended, View, AddTimers, WheelAddAll, AllFit, NoneBehind, LaneExpiry, NewEntries, LaneBatch,
           LaneEntries, Pow2;
      ghost var before := State();
      if timers == [] {
        NothingAppended(before);
        NothingInLanes(before);
      } else {
        result := AppendBatch(timers);
      }
      LanesKeepWheelIff(before, timers, State());
      if AllFit(Settings(), currentTime, timers) {
        FittingBatch(Settings(), currentTime, timers);
      } else {
        var i := FirstMisfit(before, timers);
        OtherEntriesDiffer(before, LaneEntries(before, timers), State(), timers, i);
      }
      if timers == [] {
        return [];
      }
    }

    method AppendBatch(timers: seq<(nat, TimerEvent)>) returns (entryIds: seq<nat>)
      requires Valid() && slotDuration < U64_LIMIT && nextEntryId + |timers| < U64_LIMIT
      modifies this`slots, this`timerMap, this`nextEntryId, this`cachedNextExpiry
      ensures Appended(old(State()), LaneEntries(old(State()), timers), State())
      ensures |entryIds| == |timers| && forall i :: 0 <= i < |timers| ==> entryIds[i] == old(nextEntryId) + i
    {
      ghost var before, es := State(), LaneEntries(State(), timers);
      var startId := nextEntryId;
      nextEntryId := nextEntryId + |timers|;
      PlacedLength(Settings(), slots);
      assert Indexed(slots, timerMap);
      hide WheelOk, Indexed, EarliestOver, Chosen, GroupedBySlot, LaneExpiry, SlotIndex, Placed, Aligned, Pow2;
      var expiryTimes, slotIndices;
      entryIds, expiryTimes, slotIndices := SimdCalculateBatchMetadata(timers, startId);
      var slotGroups, earliestExpiry := GroupBySlot(timers, entryIds, expiryTimes, slotIndices, es);
      InsertGroups(before, es, slotGroups);
      cachedNextExpiry := earliestExpiry;
    }

    /** Collects the new entries of each slot in order, and the earliest expiry seen. */
    method GroupBySlot(timers: seq<(nat, TimerEvent)>, entryIds: seq<nat>, expiryTimes: seq<nat>,
                       slotIndices: seq<nat>, ghost es: seq<TimerEntry>)
      returns (slotGroups: map<nat, seq<TimerEntry>>, earliestExpiry: Option<nat>)
      requires Built() && |entryIds| == |expiryTimes| == |slotIndices| == |timers| == |es|
      requires forall i :: 0 <= i < |es| ==>
          && es[i] == TimerEntry(entryIds[i], expiryTimes[i], timers[i].1)
          && slotIndices[i] == SlotIndex(Settings(), es[i].expiryTime)
      ensures GroupedBySlot(Settings(), es, slotGroups)
      ensures forall s :: s in slotGroups ==> s < slotCount
      ensures earliestExpiry == EarliestOver(cachedNextExpiry, es)
    {
      earliestExpiry := cachedNextExpiry;
      slotGroups := map[];
      NothingGrouped(Settings());
      assert es[..0] == [];
      hide GroupedBySlot;
      for index := 0 to |timers|
        invariant GroupedBySlot(Settings(), es[..index], slotGroups)
        invariant forall s :: s in slotGroups ==> s < slotCount
        invariant earliestExpiry == EarliestOver(cachedNextExpiry, es[..index])
      {
        var entry := TimerEntry(entryIds[index], expiryTimes[index], timers[index].1);
        var slotIndex := slotIndices[index];
        assert entry == es[index];
        TakeOneMore(es, index);
        assert es[..index + 1][..index] == es[..index];
        GroupOneMore(Settings(), es[..index], slotGroups, entry);
        if earliestExpiry.None? || entry.expiryTime < earliestExpiry.value {
          earliestExpiry := Some(entry.expiryTime);
        }
        var group := if slotIndex in slotGroups then slotGroups[slotIndex] else [];
        slotGroups := slotGroups[slotIndex := group + [entry]];
      }
      assert es[..|timers|] == es;
    }

    /** Appends every group to its slot, visiting the groups in any order. */
    method InsertGroups(ghost before: Wheel, ghost es: seq<TimerEntry>, slotGroups: map<nat, seq<TimerEntry>>)
      requires Built() && before.config == Settings() && WheelOk(before) && Numbered(before, es)
      requires slots == before.slots && Indexed(slots, timerMap) && |slots| == slotCount
      requires GroupedBySlot(Settings(), es, slotGroups)
      requires forall s :: s in slotGroups ==> s < slotCount
      modifies this`slots, this`timerMap
      ensures |slots| == |before.slots| && Indexed(slots, timerMap)
      ensures forall s :: 0 <= s < |slots| ==>
          slots[s] == before.slots[s] + Chosen(Settings(), es, s)
    {
      hide WheelOk, Chosen, Indexed, PartlyAdded, GroupedBySlot, Numbered;
      NothingAdded(before, es);
      var left := slotGroups.Keys;
      assert slotGroups.Keys - left == {};
      while left != {}
        invariant left <= slotGroups.Keys
        invariant PartlyAdded(before, es, slots, slotGroups.Keys - left)
        invariant Indexed(slots, timerMap)
        decreases left
      {
        var s :| s in left;
        GroupOf(Settings(), es, slotGroups, s);
        InsertGroup(before, es, slotGroups.Keys - left, s, slotGroups[s]);
        assert slotGroups.Keys - left + {s} == slotGroups.Keys - (left - {s});
        left := left - {s};
      }
      assert slotGroups.Keys - left == slotGroups.Keys;
      EverythingAdded(before, es, slots, slotGroups);
    }

    method InsertGroup(ghost before: Wheel, ghost es: seq<TimerEntry>, ghost done: set<nat>,
                       s: nat, entries: seq<TimerEntry>)
      requires Built() && before.config == Settings() && WheelOk(before) && s < |before.slots| && s !in done
      requires Numbered(before, es) && entries == Chosen(Settings(), es, s)
      requires PartlyAdded(before, es, slots, done) && Indexed(slots, timerMap)
      modifies this`slots, this`timerMap
      ensures PartlyAdded(before, es, slots, done + {s}) && Indexed(slots, timerMap)
    {
      ghost var base := before.slots[s];
      UntouchedSlot(before, es, slots, done, s);
      assert base + entries[..0] == base;
      hide WheelOk, Chosen, Indexed, Find, PartlyAdded, Numbered, Place, PlaceIndex;
      for k := 0 to |entries|
        invariant |slots| == |old(slots)| && slots == old(slots)[s := base + entries[..k]]
        invariant Indexed(slots, timerMap)
      {
        var entry := entries[k];
        PlaceOnBase(old(slots), base, entries, slots, s, k);
        NotIndexedYet(before, es, slots, timerMap, done, s, k);
        PlaceKeepsIndex(slots, timerMap, s, entry);
        slots, timerMap := Place(slots, s, entry), PlaceIndex(slots, timerMap, s, entry);
      }
      assert entries[..|entries|] == entries;
      OneMoreAdded(before, es, old(slots), slots, done, s);
    }

    // --- batch cancellation

    /** Serves the requests of one slot, last position first. */
    method CancelInSlot(s: nat, entries: seq<Request>, ghost safe: bool)
      returns (cancelledCount: nat, needCacheInvalidation: bool)
      requires s < |slots| && Requestable(slots[s], entries)
      requires Named(slots[s], entries) && Located(slots, timerMap)
      requires safe ==> Servable(slots, timerMap, s, entries)
      modifies this`slots, this`timerMap
      ensures Tracked(old(slots), old(timerMap), slots, timerMap, s, entries, |entries|)
      ensures |slots| == |old(slots)| && cancelledCount == |old(slots)[s]| - |slots[s]|
      ensures needCacheInvalidation <==> LosesNear(cachedNextExpiry, old(slots)[s], slots[s])
      ensures safe ==> Serving(old(slots), old(timerMap), slots, timerMap, s, entries, |entries|)
      ensures safe ==> cancelledCount == |Find(old(slots), old(timerMap))| - |Find(slots, timerMap)|
      ensures safe ==> (needCacheInvalidation
                        <==> Touches(cachedNextExpiry, Find(old(slots), old(timerMap)), IdsUpTo(entries, |entries|)))
    {
      hide Indexed, Requestable, Servable, Harmless, Serving, Touches, Find, IdsUpTo, Drain, Named, Located, Tracked, LosesNear;
      TrackingStarts(slots, timerMap, s, entries);
      NothingLostNear(cachedNextExpiry, slots[s], entries);
      ghost var timers0 := Find(slots, timerMap);
      cancelledCount, needCacheInvalidation := 0, false;
      ServingStarts(slots, timerMap, s, entries, cachedNextExpiry);
      for k := 0 to |entries|
        invariant slots == old(slots)[s := Drain(old(slots)[s], entries, k)]
        invariant Tracked(old(slots), old(timerMap), slots, timerMap, s, entries, k)
        invariant cancelledCount == |old(slots)[s]| - |slots[s]|
        invariant needCacheInvalidation <==> LosesNear(cachedNextExpiry, old(slots)[s], slots[s])
        invariant safe ==> Serving(old(slots), old(timerMap), slots, timerMap, s, entries, k)
        invariant safe ==> cancelledCount == |timers0| - |timers0 - IdsUpTo(entries, k)|
        invariant safe ==> (needCacheInvalidation <==> Touches(cachedNextExpiry, timers0, IdsUpTo(entries, k)))
      {
        DrainLength(old(slots)[s], entries, k);
        LosesOneMore(cachedNextExpiry, old(slots)[s], entries, k);
        var removed, touching := ServeRequest(old(slots), old(timerMap), s, entries, k, safe);
        cancelledCount := cancelledCount + if removed then 1 else 0;
        needCacheInvalidation := needCacheInvalidation || touching;
      }
      if safe { ServingEnds(old(slots), old(timerMap), slots, timerMap, s, entries); }
    }

    /** Swap-removes the requested entry if its position is still in range. */
    method ServeRequest(ghost slots0: Slots, ghost map0: Index, s: nat, entries: seq<Request>, k: nat, ghost safe: bool)
      returns (removed: bool, touching: bool)
      requires k < |entries| && s < |slots0| && slots == slots0[s := Drain(slots0[s], entries, k)]
      requires Named(slots0[s], entries) && Tracked(slots0, map0, slots, timerMap, s, entries, k)
      requires safe ==> Servable(slots0, map0, s, entries) && Serving(slots0, map0, slots, timerMap, s, entries, k)
      modifies this`slots, this`timerMap
      ensures slots == slots0[s := Drain(slots0[s], entries, k + 1)]
      ensures Tracked(slots0, map0, slots, timerMap, s, entries, k + 1)
      ensures removed <==> entries[k].1 < |Drain(slots0[s], entries, k)|
      ensures touching <==> removed && Near(cachedNextExpiry, Drain(slots0[s], entries, k)[entries[k].1])
      ensures safe ==> Serving(slots0, map0, slots, timerMap, s, entries, k + 1)
      ensures safe ==> ServeEffect(cachedNextExpiry, Find(slots0, map0), entries, k, removed, touching)
    {
      hide Indexed, Requestable, Servable, Harmless, Serving, Touches, Find, SwapRemove, IdsUpTo, ServeEffect, Drain,
           Named, Tracked, SwapIndex;
      var (entryId, positionInSlot) := entries[k];
      removed, touching := positionInSlot < |slots[s]|, false;
      if removed {
        if safe {
          ServeFinds(slots0, map0, slots, timerMap, s, entries, k);
          ServeRemoves(slots0, map0, slots, timerMap, s, entries, k);
          ServingEffectOfRemoval(cachedNextExpiry, Find(slots0, map0), entries, k);
        }
        DrainOneMore(slots0, slots, s, entries, k);
        TrackRemoval(slots0, map0, slots, timerMap, s, entries, k);
        var expiry := slots[s][positionInSlot].expiryTime;
        touching := cachedNextExpiry.Some? && expiry <= cachedNextExpiry.value + MILLISECOND;
        RemoveForBatch(entryId, s, positionInSlot, safe);
      } else {
        DrainSkips(slots0, slots, s, entries, k);
        TrackSkip(slots0, map0, slots, timerMap, s, entries, k);
        if safe {
          ServeSkips(slots0, map0, slots, timerMap, s, entries, k);
          ServingEffectOfSkip(cachedNextExpiry, Find(slots0, map0), entries, k);
        }
      }
    }

    method RemoveForBatch(entryId: nat, s: nat, positionInSlot: nat, ghost safe: bool)
      requires InBounds(slots, (s, positionInSlot))
      requires safe ==> Indexed(slots, timerMap) && entryId in timerMap && timerMap[entryId] == (s, positionInSlot)
      modifies this`slots, this`timerMap
      ensures slots == RemoveAt(old(slots), (s, positionInSlot))
      ensures timerMap == SwapIndex(old(slots), old(timerMap), (s, positionInSlot)) - {entryId}
      ensures safe ==> timerMap == RemoveIndex(old(slots), old(timerMap), entryId, (s, positionInSlot))
    {
      if safe { LastIsAnother(slots, timerMap, entryId); }
      SwapAndPop(s, positionInSlot);
      timerMap := timerMap - {entryId};
    }

    /** Cancels a batch, grouped by slot. Exactly the timers requested go, and the wheel stays
        one, if and only if no live id is repeated ahead of timers that are not requested;
        otherwise such a timer is lost from the slots but not from the index. */
    method BatchCancelTimers(entryIds: seq<nat>) returns (cancelledCount: nat)
      requires Valid()
      modifies this`slots, this`timerMap, this`cachedNextExpiry
      ensures LeavesBehind(old(slots), old(timerMap), entryIds, slots, timerMap, cancelledCount)
      ensures |slots| == |old(slots)|
      ensures cachedNextExpiry == if AnyLosesNear(old(cachedNextExpiry), old(slots), slots) then None
                                  else old(cachedNextExpiry)
      ensures Valid() <==> BatchSafe(old(slots), old(timerMap), entryIds)
      ensures BatchSafe(old(slots), old(timerMap), entryIds) ==>
          && Schedule() == CancelTimers(old(Schedule()), set id | id in entryIds)
          && cancelledCount == |old(Schedule()).timers| - |Schedule().timers|
      ensures !BatchSafe(old(slots), old(timerMap), entryIds) ==> LosesUnrequested(old(slots), slots, entryIds)
    {
      hide Pow2, Indexed, WheelOk, Find, BatchSafe, LosesUnrequested, GroupedRequests, PartlyDrained, BatchProgress,
           CancelTimers, LeavesBehind, Located, Served, Queued, AnyLosesNear;
      ghost var before := State();
      WheelBasics(before);
      ghost var safe := BatchSafe(slots, timerMap, entryIds);
      if entryIds == [] {
        EmptyBatch(before);
        EmptyBatchLeaves(slots, timerMap);
        AnyLosesStarts(cachedNextExpiry, slots);
        return 0;
      }
      var slotGroups := GroupRequests(entryIds);
      var needCacheInvalidation;
      cancelledCount, needCacheInvalidation := CancelGroups(entryIds, slotGroups, safe);
      if needCacheInvalidation {
        cachedNextExpiry := None;
      }
      BatchOutcome(before, entryIds, slotGroups, State(), cancelledCount, needCacheInvalidation);
      EveryBatchLeaves(before.slots, before.timerMap, entryIds, slotGroups, slots, timerMap, cancelledCount);
      if !safe {
        LostIsStranded(before.slots, before.timerMap, entryIds, slots, timerMap, cancelledCount);
        NotIndexedNotOk(State());
      }
    }

    method GroupRequests(entryIds: seq<nat>) returns (slotGroups: map<nat, seq<Request>>)
      requires Indexed(slots, timerMap)
      ensures GroupedRequests(entryIds, timerMap, slotGroups)
      ensures forall s :: s in slotGroups ==> s < |slots|
    {
      slotGroups := map[];
      for i := 0 to |entryIds|
        invariant GroupedRequests(entryIds[..i], timerMap, slotGroups)
        invariant forall s :: s in slotGroups ==> s < |slots|
      {
        var entryId := entryIds[i];
        GroupRequest(entryIds[..i], timerMap, slotGroups, entryId);
        TakeOneMore(entryIds, i);
        if entryId in timerMap {
          var (slotIndex, positionInSlot) := timerMap[entryId];
          var group := if slotIndex in slotGroups then slotGroups[slotIndex] else [];
          slotGroups := slotGroups[slotIndex := group + [(entryId, positionInSlot)]];
        }
      }
      assert entryIds[..|entryIds|] == entryIds;
    }

    /** Serves the groups in any order. */
    method CancelGroups(ghost ids: seq<nat>, slotGroups: map<nat, seq<Request>>, ghost safe: bool)
      returns (cancelledCount: nat, needCacheInvalidation: bool)
      requires Indexed(slots, timerMap) && safe == BatchSafe(slots, timerMap, ids)
      requires GroupedRequests(ids, timerMap, slotGroups) && forall s :: s in slotGroups ==> s < |slots|
      modifies this`slots, this`timerMap
      ensures PartlyDrained(old(slots), old(timerMap), ids, slots, slotGroups.Keys)
      ensures Located(slots, timerMap) && timerMap.Keys == old(timerMap).Keys - Served(ids, old(timerMap), slotGroups.Keys)
      ensures cancelledCount == Queued(old(slots)) - Queued(slots)
      ensures |slots| == |old(slots)| && (needCacheInvalidation <==> AnyLosesNear(cachedNextExpiry, old(slots), slots))
      ensures safe ==> BatchProgress(old(slots), old(timerMap), ids, cachedNextExpiry, slots, timerMap,
                                     slotGroups.Keys, cancelledCount, needCacheInvalidation)
    {
      hide Indexed, BatchSafe, PartlyDrained, BatchProgress, GroupedRequests, Requested, Located, Served, Queued, AnyLosesNear;
      ghost var slots0, map0 := slots, timerMap;
      AnyLosesStarts(cachedNextExpiry, slots);
      NothingTracked(slots, timerMap, ids);
      var left := slotGroups.Keys;
      cancelledCount, needCacheInvalidation := 0, false;
      assert slotGroups.Keys - left == {};
      NothingServed(slots0, map0, ids, cachedNextExpiry);
      while left != {}
        invariant left <= slotGroups.Keys && |slots| == |slots0|
        invariant PartlyDrained(slots0, map0, ids, slots, slotGroups.Keys - left)
        invariant Located(slots, timerMap) && timerMap.Keys == map0.Keys - Served(ids, map0, slotGroups.Keys - left)
        invariant cancelledCount == Queued(slots0) - Queued(slots)
        invariant needCacheInvalidation <==> AnyLosesNear(cachedNextExpiry, slots0, slots)
        invariant safe ==> BatchProgress(slots0, map0, ids, cachedNextExpiry, slots, timerMap,
                                         slotGroups.Keys - left, cancelledCount, needCacheInvalidation)
        decreases left
      {
        var s :| s in left;
        GroupIsRequested(ids, map0, slotGroups, s);
        var count, touched;
        count, touched :=
          CancelGroup(slots0, map0, ids, slotGroups.Keys - left, s, slotGroups[s], safe, cancelledCount, needCacheInvalidation);
        assert slotGroups.Keys - left + {s} == slotGroups.Keys - (left - {s});
        left := left - {s};
        cancelledCount, needCacheInvalidation := count, touched;
      }
      assert slotGroups.Keys - left == slotGroups.Keys;
    }

    method CancelGroup(ghost slots0: Slots, ghost map0: Index, ghost ids: seq<nat>, ghost done: set<nat>,
                       s: nat, group: seq<Request>, ghost safe: bool, cancelledCount: nat, needCacheInvalidation: bool)
      returns (count: nat, touched: bool)
      requires Indexed(slots0, map0) && safe == BatchSafe(slots0, map0, ids)
      requires s < |slots0| && s !in done && group == Requested(ids, map0, s)
      requires PartlyDrained(slots0, map0, ids, slots, done) && Located(slots, timerMap)
      requires timerMap.Keys == map0.Keys - Served(ids, map0, done)
      requires |slots| == |slots0| && (needCacheInvalidation <==> AnyLosesNear(cachedNextExpiry, slots0, slots))
      requires safe ==> BatchProgress(slots0, map0, ids, cachedNextExpiry, slots, timerMap, done,
                                      cancelledCount, needCacheInvalidation)
      modifies this`slots, this`timerMap
      ensures |slots| == |slots0| && PartlyDrained(slots0, map0, ids, slots, done + {s}) && Located(slots, timerMap)
      ensures timerMap.Keys == map0.Keys - Served(ids, map0, done + {s})
      ensures count == cancelledCount + Queued(old(slots)) - Queued(slots)
      ensures touched <==> AnyLosesNear(cachedNextExpiry, slots0, slots)
      ensures safe ==> BatchProgress(slots0, map0, ids, cachedNextExpiry, slots, timerMap, done + {s}, count, touched)
    {
      hide *;
      var entries := SortDescending(group);
      GroupIsSorted(ids, map0, s);
      ghost var slots1, map1 := slots, timerMap;
      if safe {
        ProgressIsIndexed(slots0, map0, ids, cachedNextExpiry, slots, timerMap, done, cancelledCount, needCacheInvalidation);
      }
      GroupCanBeServed(slots0, map0, ids, slots, timerMap, done, s, safe);
      var cancelled, touching := CancelInSlot(s, entries, safe);
      GroupIsServed(slots0, map0, ids, done, s, slots1, map1, slots, timerMap);
      AnyLosesOneMore(cachedNextExpiry, slots0, slots1, s, slots[s]);
      count, touched := cancelledCount + cancelled, needCacheInvalidation || touching;
      if safe {
        ServingEnds(slots1, map1, slots, timerMap, s, entries);
        ProgressStep(slots0, map0, ids, cachedNextExpiry, s, slots1, map1, done, cancelledCount,
                     needCacheInvalidation, slots, timerMap, cancelled, touching);
      }
    }
  }
}
