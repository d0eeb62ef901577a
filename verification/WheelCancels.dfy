/** Batch cancellation, slot by slot: which requests a descending swap-remove honours, and
    exactly when a repeated id makes it remove a timer nobody asked for. */
module WheelCancels {
  import opened Bits
  import opened Options
  import opened WheelModel

  /** A requested id with the position it had when the batch began. */
  type Request = (nat, nat)

  /** The requests that fall into slot `s`, in the order given. */
  function Requested(ids: seq<nat>, timerMap: Index, s: nat): seq<Request> {
    if ids == [] then []
    else
      var last := ids[|ids| - 1];
      Requested(ids[..|ids| - 1], timerMap, s)
      + if last in timerMap && timerMap[last].0 == s then [(last, timerMap[last].1)] else []
  }

  lemma {:induction false} RequestedAre(ids: seq<nat>, timerMap: Index, s: nat, r: Request)
    ensures r in Requested(ids, timerMap, s) <==> r.0 in ids && r.0 in timerMap && timerMap[r.0] == (s, r.1)
    ensures r.0 in timerMap && timerMap[r.0] == (s, r.1) ==>
        multiset(Requested(ids, timerMap, s))[r] == multiset(ids)[r.0]
    decreases |ids|
  {
    if ids != [] {
      var n := |ids| - 1;
      RequestedAre(ids[..n], timerMap, s, r);
      assert ids == ids[..n] + [ids[n]];
    }
  }

  ghost predicate Descending(rs: seq<Request>) {
    forall i, j :: 0 <= i < j < |rs| ==> rs[i].1 >= rs[j].1
  }

  function Insert(r: Request, rs: seq<Request>): (out: seq<Request>)
    ensures multiset(out) == multiset(rs) + multiset{r}
  {
    if rs == [] || rs[0].1 <= r.1 then [r] + rs
    else
      assert rs == [rs[0]] + rs[1..];
      [rs[0]] + Insert(r, rs[1..])
  }

  /** The requests of a slot, last position first. */
  function SortDescending(rs: seq<Request>): (out: seq<Request>)
    ensures multiset(out) == multiset(rs)
  {
    if rs == [] then []
    else
      assert rs == [rs[0]] + rs[1..];
      Insert(rs[0], SortDescending(rs[1..]))
  }

  lemma {:induction false} InsertKeepsDescending(r: Request, rs: seq<Request>)
    requires Descending(rs)
    ensures Descending(Insert(r, rs))
    decreases |rs|
  {
    if rs != [] && rs[0].1 > r.1 {
      var rest := Insert(r, rs[1..]);
      InsertKeepsDescending(r, rs[1..]);
      forall j | 0 <= j < |rest|
        ensures rest[j].1 <= rs[0].1
      {
        InsertElement(r, rs[1..], rest[j]);
      }
    }
  }

  lemma InsertElement(r: Request, rs: seq<Request>, q: Request)
    requires q in Insert(r, rs)
    ensures q == r || exists i :: 0 <= i < |rs| && rs[i] == q
  {
    assert q in multiset(Insert(r, rs));
    assert q == r || q in multiset(rs);
  }

  lemma {:induction false} SortIsDescending(rs: seq<Request>)
    ensures Descending(SortDescending(rs))
    decreases |rs|
  {
    if rs != [] {
      SortIsDescending(rs[1..]);
      InsertKeepsDescending(rs[0], SortDescending(rs[1..]));
    }
  }

  // --- one slot

  /** The slot after the first `k` requests: each one still in range is swap-removed. */
  function Drain(slot: seq<TimerEntry>, rs: seq<Request>, k: nat): seq<TimerEntry>
    requires k <= |rs|
  {
    if k == 0 then slot
    else
      var before := Drain(slot, rs, k - 1);
      if rs[k - 1].1 < |before| then SwapRemove(before, rs[k - 1].1) else before
  }

  /** No repetition among the first `k` requests found anything left to remove. */
  predicate Harmless(slot: seq<TimerEntry>, rs: seq<Request>, k: nat)
    requires k <= |rs|
  {
    k == 0
    || (Harmless(slot, rs, k - 1)
        && (k >= 2 && rs[k - 1].1 == rs[k - 2].1 ==> rs[k - 1].1 >= |Drain(slot, rs, k - 1)|))
  }

  ghost predicate Hit(rs: seq<Request>, k: nat, q: nat)
    requires k <= |rs|
  {
    exists i :: 0 <= i < k && rs[i].1 == q
  }

  /** `v` is lost although nobody asked for it, behind a position requested twice. */
  ghost predicate Victim(slot: seq<TimerEntry>, rs: seq<Request>, k: nat, v: nat)
    requires k <= |rs|
  {
    && v < |slot| && !Hit(rs, |rs|, v) && slot[v] !in Drain(slot, rs, k)
    && exists a :: 0 <= a < k - 1 && rs[a].1 == rs[a + 1].1 < v
  }

  ghost predicate HasVictim(slot: seq<TimerEntry>, rs: seq<Request>, k: nat)
    requires k <= |rs|
  {
    exists v :: Victim(slot, rs, k, v)
  }

  ghost predicate Requestable(slot: seq<TimerEntry>, rs: seq<Request>) {
    DistinctIds(slot) && Descending(rs) && forall i :: 0 <= i < |rs| ==> rs[i].1 < |slot|
  }

  lemma SwapRemoveElements(s: seq<TimerEntry>, p: nat)
    requires DistinctIds(s) && p < |s|
    ensures DistinctIds(SwapRemove(s, p))
    ensures forall e :: e in SwapRemove(s, p) <==> e in s && e != s[p]
  {
    var r := SwapRemove(s, p);
    forall e | e in s && e != s[p]
      ensures e in r
    {
      var i :| 0 <= i < |s| && s[i] == e;
      if i == |s| - 1 { assert r[p] == e; } else { assert r[i] == e; }
    }
  }

  /** Positions below the last request served are still untouched. */
  lemma {:induction false} DrainPrefix(slot: seq<TimerEntry>, rs: seq<Request>, k: nat)
    requires Requestable(slot, rs) && k <= |rs|
    ensures var bound := if k == 0 then |slot| else rs[k - 1].1;
            && bound <= |Drain(slot, rs, k)|
            && forall q :: 0 <= q < bound ==> Drain(slot, rs, k)[q] == slot[q]
  {
    if k > 0 { DrainPrefix(slot, rs, k - 1); }
  }

  lemma {:induction false} DrainShrinks(slot: seq<TimerEntry>, rs: seq<Request>, k: nat)
    requires Requestable(slot, rs) && k <= |rs|
    ensures DistinctIds(Drain(slot, rs, k)) && forall e :: e in Drain(slot, rs, k) ==> e in slot
  {
    if k > 0 {
      DrainShrinks(slot, rs, k - 1);
      var before := Drain(slot, rs, k - 1);
      if rs[k - 1].1 < |before| { SwapRemoveElements(before, rs[k - 1].1); }
    }
  }

  /** Either every repetition was harmless and exactly the requested positions are gone,
      or an entry that was not requested is lost. */
  lemma {:induction false} DrainOutcome(slot: seq<TimerEntry>, rs: seq<Request>, k: nat)
    requires Requestable(slot, rs) && k <= |rs|
    ensures Harmless(slot, rs, k) ==>
        forall q :: 0 <= q < |slot| ==> (slot[q] in Drain(slot, rs, k) <==> !Hit(rs, k, q))
    ensures !Harmless(slot, rs, k) ==> HasVictim(slot, rs, k)
  {
    if k > 0 {
      DrainOutcome(slot, rs, k - 1);
      DrainStep(slot, rs, k);
    }
  }

  lemma HitOneMore(rs: seq<Request>, k: nat, q: nat)
    requires 0 < k <= |rs|
    ensures Hit(rs, k, q) <==> Hit(rs, k - 1, q) || rs[k - 1].1 == q
  {
  }

  lemma DrainStep(slot: seq<TimerEntry>, rs: seq<Request>, k: nat)
    requires Requestable(slot, rs) && 0 < k <= |rs|
    requires Harmless(slot, rs, k - 1) ==>
        forall q :: 0 <= q < |slot| ==> (slot[q] in Drain(slot, rs, k - 1) <==> !Hit(rs, k - 1, q))
    requires !Harmless(slot, rs, k - 1) ==> HasVictim(slot, rs, k - 1)
    ensures Harmless(slot, rs, k) ==>
        forall q :: 0 <= q < |slot| ==> (slot[q] in Drain(slot, rs, k) <==> !Hit(rs, k, q))
    ensures !Harmless(slot, rs, k) ==> HasVictim(slot, rs, k)
  {
    if !Harmless(slot, rs, k - 1) {
      var before, p := Drain(slot, rs, k - 1), rs[k - 1].1;
      DrainShrinks(slot, rs, k - 1);
      if p < |before| { SwapRemoveElements(before, p); }
      var v :| Victim(slot, rs, k - 1, v);
      assert Victim(slot, rs, k, v);
    } else if !Harmless(slot, rs, k) {
      HarmTakesVictim(slot, rs, k);
    } else {
      HarmlessStep(slot, rs, k);
    }
  }

  lemma HarmlessStep(slot: seq<TimerEntry>, rs: seq<Request>, k: nat)
    requires Requestable(slot, rs) && 0 < k <= |rs| && Harmless(slot, rs, k)
    requires forall q :: 0 <= q < |slot| ==> (slot[q] in Drain(slot, rs, k - 1) <==> !Hit(rs, k - 1, q))
    ensures forall q :: 0 <= q < |slot| ==> (slot[q] in Drain(slot, rs, k) <==> !Hit(rs, k, q))
  {
    var before, p := Drain(slot, rs, k - 1), rs[k - 1].1;
    HarmlessUnfolds(slot, rs, k);
    DrainUnfolds(slot, rs, k);
    DrainPrefix(slot, rs, k - 1);
    DrainShrinks(slot, rs, k - 1);
    hide Drain, SwapRemove, Harmless;
    if p < |before| { SwapRemoveElements(before, p); }
    forall q | 0 <= q < |slot|
      ensures slot[q] in Drain(slot, rs, k) <==> !Hit(rs, k, q)
    {
      HitOneMore(rs, k, q);
      if k == 1 || rs[k - 2].1 != p {
        assert before[p] == slot[p];
      } else {
        assert Hit(rs, k - 1, p);
      }
    }
  }

  /** A repeated request that finds an entry at its position finds one not requested. */
  lemma HarmFindsStranger(slot: seq<TimerEntry>, rs: seq<Request>, k: nat) returns (v: nat)
    requires Requestable(slot, rs) && 1 < k <= |rs| && rs[k - 1].1 == rs[k - 2].1 < |Drain(slot, rs, k - 1)|
    requires forall q :: 0 <= q < |slot| ==> (slot[q] in Drain(slot, rs, k - 1) <==> !Hit(rs, k - 1, q))
    ensures rs[k - 1].1 < v < |slot| && slot[v] == Drain(slot, rs, k - 1)[rs[k - 1].1] && !Hit(rs, k - 1, v)
  {
    var before, p := Drain(slot, rs, k - 1), rs[k - 1].1;
    DrainPrefix(slot, rs, k - 1);
    DrainShrinks(slot, rs, k - 1);
    assert before[p] in before;
    assert Hit(rs, k - 1, p);
    assert forall q :: 0 <= q < p ==> slot[q].id != before[p].id;
    hide Drain, Hit, DistinctIds;
    v :| 0 <= v < |slot| && slot[v] == before[p];
    assert slot[v] in before;
  }

  lemma HarmTakesVictim(slot: seq<TimerEntry>, rs: seq<Request>, k: nat)
    requires Requestable(slot, rs) && 0 < k <= |rs|
    requires Harmless(slot, rs, k - 1) && !Harmless(slot, rs, k)
    requires forall q :: 0 <= q < |slot| ==> (slot[q] in Drain(slot, rs, k - 1) <==> !Hit(rs, k - 1, q))
    ensures HasVictim(slot, rs, k)
  {
    var v := HarmFindsStranger(slot, rs, k);
    DrainShrinks(slot, rs, k - 1);
    SwapRemoveElements(Drain(slot, rs, k - 1), rs[k - 1].1);
    assert slot[v] !in Drain(slot, rs, k);
    hide Drain, Harmless, DistinctIds;
    assert !Hit(rs, |rs|, v);
    assert rs[k - 2].1 == rs[k - 2 + 1].1 < v;
    assert Victim(slot, rs, k, v);
  }

  /** When every repetition was harmless, everything behind a twice requested position was
      requested too. */
  lemma {:induction false} HarmlessIsBenign(slot: seq<TimerEntry>, rs: seq<Request>, k: nat, a: nat, v: nat)
    requires Requestable(slot, rs) && k <= |rs| && Harmless(slot, rs, k)
    requires a + 1 < k && rs[a].1 == rs[a + 1].1 < v < |slot|
    ensures Hit(rs, k, v)
    decreases k
  {
    hide Hit, Drain;
    if a + 2 < k {
      HarmlessIsBenign(slot, rs, k - 1, a, v);
    } else {
      RepeatAtEnd(slot, rs, k, v);
    }
    HitOneMore(rs, k, v);
  }

  /** A harmless repeat finds only the entries before its position left. */
  lemma RepeatAtEnd(slot: seq<TimerEntry>, rs: seq<Request>, k: nat, v: nat)
    requires Requestable(slot, rs) && 2 <= k <= |rs| && Harmless(slot, rs, k)
    requires rs[k - 2].1 == rs[k - 1].1 < v < |slot|
    ensures Hit(rs, k - 1, v)
  {
    hide Drain, Harmless, Descending, DistinctIds;
    HarmlessUnfolds(slot, rs, k);
    DrainPrefix(slot, rs, k - 1);
    DrainOutcome(slot, rs, k - 1);
    BehindPrefix(slot, Drain(slot, rs, k - 1), v);
  }

  lemma DrainUnfolds(slot: seq<TimerEntry>, rs: seq<Request>, k: nat)
    requires 0 < k <= |rs|
    ensures var before, p := Drain(slot, rs, k - 1), rs[k - 1].1;
            Drain(slot, rs, k) == if p < |before| then SwapRemove(before, p) else before
  {
  }

  lemma HarmlessUnfolds(slot: seq<TimerEntry>, rs: seq<Request>, k: nat)
    requires 0 < k <= |rs| && Harmless(slot, rs, k)
    ensures Harmless(slot, rs, k - 1)
    ensures k >= 2 && rs[k - 1].1 == rs[k - 2].1 ==> rs[k - 1].1 >= |Drain(slot, rs, k - 1)|
  {
  }

  lemma BehindPrefix(slot: seq<TimerEntry>, before: seq<TimerEntry>, v: nat)
    requires DistinctIds(slot) && |before| <= v < |slot| && before == slot[..|before|]
    ensures slot[v] !in before
  {
  }

  // --- the whole batch

  /** The condition under which a batch request does what it says: a live id may be repeated
      only if every timer queued behind it in its slot is requested as well. */
  ghost predicate BatchSafe(slots: Slots, timerMap: Index, ids: seq<nat>) {
    forall id: nat, q: nat ::
      id in timerMap && multiset(ids)[id] > 1 && InBounds(slots, (timerMap[id].0, q)) && q > timerMap[id].1
      ==> slots[timerMap[id].0][q].id in ids
  }

  function SortedRequests(ids: seq<nat>, timerMap: Index, s: nat): seq<Request> {
    SortDescending(Requested(ids, timerMap, s))
  }

  lemma SortedRequestsAre(slots: Slots, timerMap: Index, ids: seq<nat>, s: nat)
    requires Indexed(slots, timerMap) && s < |slots|
    ensures Requestable(slots[s], SortedRequests(ids, timerMap, s))
    ensures forall r: Request :: r in SortedRequests(ids, timerMap, s)
                        <==> r.0 in ids && r.0 in timerMap && timerMap[r.0] == (s, r.1)
  {
    var rs := SortedRequests(ids, timerMap, s);
    SortIsDescending(Requested(ids, timerMap, s));
    forall r: Request
      ensures r in rs <==> r.0 in ids && r.0 in timerMap && timerMap[r.0] == (s, r.1)
    {
      RequestedAre(ids, timerMap, s, r);
      assert r in rs <==> r in multiset(rs);
      assert r in Requested(ids, timerMap, s) <==> r in multiset(Requested(ids, timerMap, s));
    }
    forall i | 0 <= i < |rs|
      ensures rs[i].1 < |slots[s]|
    {
      assert rs[i] in rs;
    }
    assert DistinctIds(slots[s]) by {
      forall i, j | 0 <= i < j < |slots[s]|
        ensures slots[s][i].id != slots[s][j].id
      {
        assert timerMap[slots[s][i].id] == (s, i) && timerMap[slots[s][j].id] == (s, j);
      }
    }
  }

  /** In a descending list a value that occurs twice occurs twice in a row. */
  lemma {:induction false} TwiceMeansAdjacent(rs: seq<Request>, r: Request)
    requires Descending(rs) && multiset(rs)[r] > 1
    requires forall q :: q in rs && q.1 == r.1 ==> q == r
    ensures exists a :: 0 <= a < |rs| - 1 && rs[a] == rs[a + 1] == r
    decreases |rs|
  {
    assert rs == [rs[0]] + rs[1..];
    if rs[0] == r {
      assert multiset(rs[1..])[r] > 0;
      var j :| 0 <= j < |rs[1..]| && rs[1..][j] == r;
      assert rs[j + 1] == r && rs[0].1 >= rs[1].1 >= rs[j + 1].1;
      assert rs[1] in rs;
      assert rs[0] == rs[0 + 1] == r;
    } else {
      TwiceMeansAdjacent(rs[1..], r);
      var a :| 0 <= a < |rs[1..]| - 1 && rs[1..][a] == rs[1..][a + 1] == r;
      assert rs[a + 1] == rs[a + 1 + 1] == r;
    }
  }

  lemma AdjacentMeansTwice(rs: seq<Request>, a: nat)
    requires a + 1 < |rs| && rs[a] == rs[a + 1]
    ensures multiset(rs)[rs[a]] > 1
  {
    assert rs == rs[..a] + [rs[a], rs[a + 1]] + rs[a + 2..];
  }

  /** The batch condition is exactly that no slot suffers a harmful repetition. */
  lemma SafeIffHarmless(slots: Slots, timerMap: Index, ids: seq<nat>)
    requires Indexed(slots, timerMap)
    ensures BatchSafe(slots, timerMap, ids)
            <==> forall s :: 0 <= s < |slots| ==> SlotHarmless(slots, timerMap, ids, s)
  {
    if BatchSafe(slots, timerMap, ids) {
      forall s | 0 <= s < |slots|
        ensures SlotHarmless(slots, timerMap, ids, s)
      {
        SafeSlotIsHarmless(slots, timerMap, ids, s);
      }
    }
    if forall s :: 0 <= s < |slots| ==> SlotHarmless(slots, timerMap, ids, s) {
      forall id: nat, q: nat | id in timerMap && multiset(ids)[id] > 1
                               && InBounds(slots, (timerMap[id].0, q)) && q > timerMap[id].1
        ensures slots[timerMap[id].0][q].id in ids
      {
        assert SlotHarmless(slots, timerMap, ids, timerMap[id].0);
        HarmlessSlotIsSafe(slots, timerMap, ids, id, q);
      }
    }
  }

  ghost predicate SlotHarmless(slots: Slots, timerMap: Index, ids: seq<nat>, s: nat)
    requires s < |slots|
  {
    var rs := SortedRequests(ids, timerMap, s);
    Harmless(slots[s], rs, |rs|)
  }

  lemma SafeSlotIsHarmless(slots: Slots, timerMap: Index, ids: seq<nat>, s: nat)
    requires Indexed(slots, timerMap) && BatchSafe(slots, timerMap, ids) && s < |slots|
    ensures SlotHarmless(slots, timerMap, ids, s)
  {
    var rs := SortedRequests(ids, timerMap, s);
    SortedRequestsAre(slots, timerMap, ids, s);
    DrainOutcome(slots[s], rs, |rs|);
    if !Harmless(slots[s], rs, |rs|) {
      var v :| Victim(slots[s], rs, |rs|, v);
      VictimBreaksSafety(slots, timerMap, ids, s, v);
      assert false;
    }
  }

  /** A victim is a timer behind a repeated id that was not itself requested. */
  lemma VictimBreaksSafety(slots: Slots, timerMap: Index, ids: seq<nat>, s: nat, v: nat)
    requires Indexed(slots, timerMap) && s < |slots|
    requires var rs := SortedRequests(ids, timerMap, s); Victim(slots[s], rs, |rs|, v)
    ensures slots[s][v].id !in ids && !BatchSafe(slots, timerMap, ids)
  {
    hide Harmless, Drain;
    var rs := SortedRequests(ids, timerMap, s);
    SortedRequestsAre(slots, timerMap, ids, s);
    RequestsAreNamed(slots, timerMap, ids, s);
    hide SortedRequests;
    var a :| 0 <= a < |rs| - 1 && rs[a].1 == rs[a + 1].1 < v;
    assert rs[a] in rs && rs[a] == rs[a + 1];
    RepeatedInSlot(ids, timerMap, s, a);
    VictimIsUnrequested(slots, timerMap, ids, s, v);
    assert rs[a].0 in timerMap && timerMap[rs[a].0] == (s, rs[a].1);
  }

  lemma RepeatedInSlot(ids: seq<nat>, timerMap: Index, s: nat, a: nat)
    requires var rs := SortedRequests(ids, timerMap, s);
             a + 1 < |rs| && rs[a] == rs[a + 1] && rs[a].0 in timerMap && timerMap[rs[a].0] == (s, rs[a].1)
    ensures multiset(ids)[SortedRequests(ids, timerMap, s)[a].0] > 1
  {
    AdjacentMeansTwice(SortedRequests(ids, timerMap, s), a);
    RequestedAre(ids, timerMap, s, SortedRequests(ids, timerMap, s)[a]);
  }

  lemma VictimIsUnrequested(slots: Slots, timerMap: Index, ids: seq<nat>, s: nat, v: nat)
    requires Indexed(slots, timerMap) && s < |slots| && v < |slots[s]|
    requires var rs := SortedRequests(ids, timerMap, s); !Hit(rs, |rs|, v)
    ensures slots[s][v].id !in ids
  {
    var rs := SortedRequests(ids, timerMap, s);
    SortedRequestsAre(slots, timerMap, ids, s);
    hide SortedRequests;
    assert timerMap[slots[s][v].id] == (s, v);
    assert forall i :: 0 <= i < |rs| ==> rs[i].1 != v;
    assert (slots[s][v].id, v) !in rs;
  }

  lemma HarmlessSlotIsSafe(slots: Slots, timerMap: Index, ids: seq<nat>, id: nat, q: nat)
    requires Indexed(slots, timerMap) && id in timerMap && multiset(ids)[id] > 1
    requires InBounds(slots, (timerMap[id].0, q)) && q > timerMap[id].1
    requires SlotHarmless(slots, timerMap, ids, timerMap[id].0)
    ensures slots[timerMap[id].0][q].id in ids
  {
    var (s, p) := timerMap[id];
    var rs := SortedRequests(ids, timerMap, s);
    SortedRequestsAre(slots, timerMap, ids, s);
    RequestedAre(ids, timerMap, s, (id, p));
    assert forall r :: r in rs && r.1 == p ==> slots[s][p].id == r.0;
    TwiceMeansAdjacent(rs, (id, p));
    var a :| 0 <= a < |rs| - 1 && rs[a] == rs[a + 1] == (id, p);
    HarmlessIsBenign(slots[s], rs, |rs|, a, q);
    var i :| 0 <= i < |rs| && rs[i].1 == q;
    assert rs[i] in rs;
    assert slots[s][q].id == rs[i].0;
  }

  // --- what a caller can tell without seeing the slots

  /** A live id is repeated only if every timer of its slot is requested as well. This can be
      read off the set of timers alone. */
  ghost predicate Repeatable(s: Schedule, ids: seq<nat>)
    requires ConfigOk(s.config)
  {
    forall id: nat, v: nat ::
      id in s.timers && v in s.timers && multiset(ids)[id] > 1
      && SlotIndex(s.config, s.timers[id].expiryTime) == SlotIndex(s.config, s.timers[v].expiryTime)
      ==> v in ids
  }

  lemma DistinctIsRepeatable(s: Schedule, ids: seq<nat>)
    requires ConfigOk(s.config) && forall id :: id in s.timers ==> multiset(ids)[id] <= 1
    ensures Repeatable(s, ids)
  {
  }

  lemma RepeatableIsSafe(w: Wheel, ids: seq<nat>)
    requires WheelOk(w) && Repeatable(View(w), ids)
    ensures BatchSafe(w.slots, w.timerMap, ids)
  {
    hide Aligned, ScheduleOk;
    var timers := View(w).timers;
    forall id: nat, q: nat | id in w.timerMap && multiset(ids)[id] > 1
                             && InBounds(w.slots, (w.timerMap[id].0, q)) && q > w.timerMap[id].1
      ensures w.slots[w.timerMap[id].0][q].id in ids
    {
      var (s, p) := w.timerMap[id];
      var v := w.slots[s][q].id;
      assert timers[id] == w.slots[s][p] && timers[v] == w.slots[s][q];
    }
  }

  /** Two timers of one slot with their places exchanged. */
  function Exchanged(w: Wheel, s: nat, p: nat, q: nat): Wheel
    requires InBounds(w.slots, (s, p)) && InBounds(w.slots, (s, q))
  {
    w.(slots := w.slots[s := w.slots[s][p := w.slots[s][q]][q := w.slots[s][p]]],
       timerMap := w.timerMap[w.slots[s][p].id := (s, q)][w.slots[s][q].id := (s, p)])
  }

  lemma ExchangeKeepsView(w: Wheel, s: nat, p: nat, q: nat)
    requires WheelOk(w) && InBounds(w.slots, (s, p)) && InBounds(w.slots, (s, q)) && p < q
    ensures WheelOk(Exchanged(w, s, p, q)) && View(Exchanged(w, s, p, q)) == View(w)
  {
    hide Aligned, ScheduleOk, Find;
    ExchangeKeepsIndex(w, s, p, q);
    ExchangeKeepsPlaced(w.config, w.slots, s, p, q);
  }

  lemma ExchangeKeepsPlaced(c: Config, slots: Slots, s: nat, p: nat, q: nat)
    requires ConfigOk(c) && Placed(c, slots) && InBounds(slots, (s, p)) && InBounds(slots, (s, q)) && p < q
    ensures Placed(c, slots[s := slots[s][p := slots[s][q]][q := slots[s][p]]])
  {
  }

  lemma ExchangeKeepsIndex(w: Wheel, s: nat, p: nat, q: nat)
    requires Indexed(w.slots, w.timerMap) && InBounds(w.slots, (s, p)) && InBounds(w.slots, (s, q)) && p < q
    ensures var x := Exchanged(w, s, p, q);
            Indexed(x.slots, x.timerMap) && Find(x.slots, x.timerMap) == Find(w.slots, w.timerMap)
  {
    var x := Exchanged(w, s, p, q);
    forall t: nat, r: nat | t < |x.slots| && r < |x.slots[t]|
      ensures x.slots[t][r].id in x.timerMap && x.timerMap[x.slots[t][r].id] == (t, r)
    {
      ExchangedEntry(w, s, p, q, t, r);
    }
    forall id | id in x.timerMap
      ensures id in w.timerMap && InBounds(x.slots, x.timerMap[id]) && InBounds(w.slots, w.timerMap[id])
      ensures x.slots[x.timerMap[id].0][x.timerMap[id].1] == w.slots[w.timerMap[id].0][w.timerMap[id].1]
      ensures x.slots[x.timerMap[id].0][x.timerMap[id].1].id == id
    {
      ExchangedId(w, s, p, q, id);
    }
    ExchangedKeys(w, s, p, q);
    hide Exchanged;
  }

  lemma ExchangedKeys(w: Wheel, s: nat, p: nat, q: nat)
    requires Indexed(w.slots, w.timerMap) && InBounds(w.slots, (s, p)) && InBounds(w.slots, (s, q))
    ensures Exchanged(w, s, p, q).timerMap.Keys == w.timerMap.Keys
  {
  }

  lemma ExchangedEntry(w: Wheel, s: nat, p: nat, q: nat, t: nat, r: nat)
    requires Indexed(w.slots, w.timerMap) && InBounds(w.slots, (s, p)) && InBounds(w.slots, (s, q)) && p < q
    requires InBounds(Exchanged(w, s, p, q).slots, (t, r))
    ensures var x := Exchanged(w, s, p, q);
            x.slots[t][r].id in x.timerMap && x.timerMap[x.slots[t][r].id] == (t, r)
  {
    var x := Exchanged(w, s, p, q);
    assert w.timerMap[w.slots[s][p].id] == (s, p) && w.timerMap[w.slots[s][q].id] == (s, q);
    if t != s || (r != p && r != q) { assert x.slots[t][r] == w.slots[t][r] && w.timerMap[w.slots[t][r].id] == (t, r); }
  }

  lemma ExchangedId(w: Wheel, s: nat, p: nat, q: nat, id: nat)
    requires Indexed(w.slots, w.timerMap) && InBounds(w.slots, (s, p)) && InBounds(w.slots, (s, q)) && p < q
    requires id in Exchanged(w, s, p, q).timerMap
    ensures var x := Exchanged(w, s, p, q);
            && id in w.timerMap && InBounds(x.slots, x.timerMap[id]) && InBounds(w.slots, w.timerMap[id])
            && x.slots[x.timerMap[id].0][x.timerMap[id].1] == w.slots[w.timerMap[id].0][w.timerMap[id].1]
            && x.slots[x.timerMap[id].0][x.timerMap[id].1].id == id
  {
    var a, b := w.slots[s][p], w.slots[s][q];
    assert w.timerMap[a.id] == (s, p) && w.timerMap[b.id] == (s, q);
  }

  /** No weaker condition on the set of timers would do: it holds if and only if the batch is
      safe on every wheel that holds these timers. */
  lemma RepeatableIffAlwaysSafe(w: Wheel, ids: seq<nat>)
    requires WheelOk(w)
    ensures Repeatable(View(w), ids)
            <==> forall x: Wheel :: WheelOk(x) && View(x) == View(w) ==> BatchSafe(x.slots, x.timerMap, ids)
  {
    if Repeatable(View(w), ids) {
      forall x: Wheel | WheelOk(x) && View(x) == View(w)
        ensures BatchSafe(x.slots, x.timerMap, ids)
      {
        RepeatableIsSafe(x, ids);
      }
    } else {
      var x := UnsafeArrangement(w, ids);
    }
  }

  /** The repeated timer in front, the one that is lost behind it. */
  lemma UnsafeArrangement(w: Wheel, ids: seq<nat>) returns (x: Wheel)
    requires WheelOk(w) && !Repeatable(View(w), ids)
    ensures WheelOk(x) && View(x) == View(w) && !BatchSafe(x.slots, x.timerMap, ids)
  {
    var timers := View(w).timers;
    var id, v :| id in timers && v in timers && multiset(ids)[id] > 1 && v !in ids
                 && SlotIndex(w.config, timers[id].expiryTime) == SlotIndex(w.config, timers[v].expiryTime);
    var (s, p) := w.timerMap[id];
    var q := w.timerMap[v].1;
    SameSlot(w, id, v);
    hide WheelOk, View, SlotIndex, Find;
    if p < q {
      x := w;
    } else {
      x := Exchanged(w, s, q, p);
      ExchangeKeepsView(w, s, q, p);
    }
    assert x.timerMap[id].1 < x.timerMap[v].1 && InBounds(x.slots, (x.timerMap[id].0, x.timerMap[v].1));
  }

  lemma SameSlot(w: Wheel, id: nat, v: nat)
    requires WheelOk(w) && id in View(w).timers && v in View(w).timers && id != v
    requires SlotIndex(w.config, View(w).timers[id].expiryTime) == SlotIndex(w.config, View(w).timers[v].expiryTime)
    ensures id in w.timerMap && v in w.timerMap
    ensures w.timerMap[id].0 == w.timerMap[v].0 && w.timerMap[id].1 != w.timerMap[v].1
    ensures InBounds(w.slots, w.timerMap[id]) && InBounds(w.slots, w.timerMap[v])
    ensures w.slots[w.timerMap[id].0][w.timerMap[id].1].id == id && w.slots[w.timerMap[v].0][w.timerMap[v].1].id == v
  {
    hide Aligned, ScheduleOk;
  }

  // --- a wheel on which a batch goes wrong

  /** A new wheel after two timers of equal delay. */
  function TwoTogether(c: Config, delay: nat, a: TimerEvent, b: TimerEvent): Wheel
    requires c.slotCount > 0 && c.slotDuration > 0
  {
    WheelAdd(WheelAdd(NewWheel(c), delay, a), delay, b)
  }

  lemma TwoTogetherIsOk(c: Config, delay: nat, a: TimerEvent, b: TimerEvent)
    requires ConfigOk(c)
    ensures WheelOk(TwoTogether(c, delay, a, b))
  {
    hide WheelOk, SlotIndex;
    NewWheelIsOk(c);
    WheelAddRefines(NewWheel(c), delay, a);
    WheelAddRefines(WheelAdd(NewWheel(c), delay, a), delay, b);
  }

  lemma TwoTogetherShareSlot(c: Config, delay: nat, a: TimerEvent, b: TimerEvent)
    requires ConfigOk(c)
    ensures var w, s, expiry := TwoTogether(c, delay, a, b), SlotIndex(c, c.startTime + delay), c.startTime + delay;
            && s < |w.slots| && w.slots[s] == [TimerEntry(1, expiry, a), TimerEntry(2, expiry, b)]
            && 1 in w.timerMap && w.timerMap[1] == (s, 0)
  {
    hide SlotIndex;
    SlotIndexInRange(c, c.startTime + delay);
  }

  /** Two timers of equal delay on a new wheel: cancelling the first one twice loses the
      second, which nobody named. */
  lemma RepeatedCancelLosesNeighbour(c: Config, delay: nat, a: TimerEvent, b: TimerEvent)
    requires ConfigOk(c)
    ensures var w, s := TwoTogether(c, delay, a, b), SlotIndex(c, c.startTime + delay);
            && WheelOk(w) && !BatchSafe(w.slots, w.timerMap, [1, 1])
            && s < |w.slots| && |w.slots[s]| == 2 && w.slots[s][1].id == 2
            && Drained(w.slots, w.timerMap, [1, 1], s) == []
  {
    hide WheelOk, SlotIndex, TwoTogether, SortedRequests;
    TwoTogetherIsOk(c, delay, a, b);
    TwoTogetherShareSlot(c, delay, a, b);
    var w, s := TwoTogether(c, delay, a, b), SlotIndex(c, c.startTime + delay);
    RequestsOfRepeatedId(w.timerMap, 1, s, 0);
    assert multiset([1, 1])[1] == 2 && w.slots[w.timerMap[1].0][1].id == 2;
    DrainedTwice(w.slots[s], 1);
  }

  lemma DrainedTwice(slot: seq<TimerEntry>, id: nat)
    requires |slot| == 2
    ensures Drain(slot, [(id, 0), (id, 0)], 2) == []
  {
    assert Drain(slot, [(id, 0), (id, 0)], 1) == [slot[1]];
  }

  lemma RequestsOfRepeatedId(timerMap: Index, id: nat, s: nat, p: nat)
    requires id in timerMap && timerMap[id] == (s, p)
    ensures SortedRequests([id, id], timerMap, s) == [(id, p), (id, p)]
  {
    assert [id, id][..1] == [id] && [id][..0] == [];
    assert Requested([id], timerMap, s) == [(id, p)];
    assert Requested([id, id], timerMap, s) == [(id, p), (id, p)];
    assert SortDescending([(id, p)]) == [(id, p)];
    assert [(id, p), (id, p)][1..] == [(id, p)];
  }

  // --- while a batch is being served

  ghost function IdsUpTo(rs: seq<Request>, k: nat): set<nat>
    requires k <= |rs|
  {
    set i | 0 <= i < k :: rs[i].0
  }

  /** The cache must go: some of the timers expires within a millisecond of it. */
  ghost predicate Touches(cached: Option<nat>, timers: Timers, ids: set<nat>) {
    cached.Some? && exists id :: id in ids && id in timers && timers[id].expiryTime <= cached.value + MILLISECOND
  }

  lemma {:induction false} HarmlessSoFar(slot: seq<TimerEntry>, rs: seq<Request>, k: nat, n: nat)
    requires k <= n <= |rs| && Harmless(slot, rs, n)
    ensures Harmless(slot, rs, k)
    decreases n
  {
    if k < n { HarmlessSoFar(slot, rs, k, n - 1); }
  }

  /** What a safe batch keeps while it serves slot `s`: the index stays exact and the timers
      are the original ones without those served. */
  ghost predicate Serving(slots0: Slots, map0: Index, slots: Slots, timerMap: Index, s: nat,
                          rs: seq<Request>, k: nat)
    requires k <= |rs|
  {
    && Indexed(slots, timerMap)
    && Find(slots, timerMap) == Find(slots0, map0) - IdsUpTo(rs, k)
    && s < |slots0| && slots == slots0[s := Drain(slots0[s], rs, k)]
  }

  /** The requests of a slot belong to it, and none of their repetitions does harm. */
  ghost predicate Servable(slots0: Slots, map0: Index, s: nat, rs: seq<Request>) {
    && Indexed(slots0, map0) && s < |slots0|
    && Requestable(slots0[s], rs) && Harmless(slots0[s], rs, |rs|)
    && forall i :: 0 <= i < |rs| ==> rs[i].0 in map0 && map0[rs[i].0] == (s, rs[i].1)
  }

  lemma ServeFinds(slots0: Slots, map0: Index, slots: Slots, timerMap: Index, s: nat, rs: seq<Request>, k: nat)
    requires k < |rs| && Servable(slots0, map0, s, rs) && Serving(slots0, map0, slots, timerMap, s, rs, k)
    requires rs[k].1 < |slots[s]|
    ensures rs[k].0 in timerMap && timerMap[rs[k].0] == (s, rs[k].1) && slots[s][rs[k].1] == slots0[s][rs[k].1]
    ensures rs[k].0 in Find(slots0, map0) && Find(slots0, map0)[rs[k].0] == slots[s][rs[k].1]
    ensures Indexed(slots, timerMap)
  {
    hide Drain, Harmless, Requestable;
    ServedInPlace(slots0[s], rs, k);
    var e := slots0[s][rs[k].1];
    assert timerMap[slots[s][rs[k].1].id] == (s, rs[k].1);
    assert e == slots[s][rs[k].1] && e.id == rs[k].0;
  }

  /** A request that finds its position still in range finds its own entry there. */
  lemma ServedInPlace(slot: seq<TimerEntry>, rs: seq<Request>, k: nat)
    requires Requestable(slot, rs) && Harmless(slot, rs, |rs|) && k < |rs| && rs[k].1 < |Drain(slot, rs, k)|
    ensures rs[k].1 < |slot| && Drain(slot, rs, k)[rs[k].1] == slot[rs[k].1]
  {
    HarmlessSoFar(slot, rs, k + 1, |rs|);
    DrainPrefix(slot, rs, k);
  }

  lemma ServeRemoves(slots0: Slots, map0: Index, slots: Slots, timerMap: Index, s: nat, rs: seq<Request>, k: nat)
    requires k < |rs| && Servable(slots0, map0, s, rs) && Serving(slots0, map0, slots, timerMap, s, rs, k)
    requires InBounds(slots, (s, rs[k].1))
    ensures Serving(slots0, map0, RemoveAt(slots, (s, rs[k].1)),
                    RemoveIndex(slots, timerMap, rs[k].0, (s, rs[k].1)), s, rs, k + 1)
    ensures |Find(slots0, map0) - IdsUpTo(rs, k)| == |Find(slots0, map0) - IdsUpTo(rs, k + 1)| + 1
  {
    ServeFinds(slots0, map0, slots, timerMap, s, rs, k);
    RemoveKeepsIndex(slots, timerMap, rs[k].0);
    FoundKeys(slots, timerMap);
    DrainOneMore(slots0, slots, s, rs, k);
    IdsOneMore(Find(slots0, map0), rs, k);
    hide Indexed, Find, Drain, Harmless, RemoveAt, RemoveIndex, Requestable, Servable, IdsUpTo;
  }

  lemma DrainOneMore(slots0: Slots, slots: Slots, s: nat, rs: seq<Request>, k: nat)
    requires k < |rs| && s < |slots0| && slots == slots0[s := Drain(slots0[s], rs, k)]
    requires InBounds(slots, (s, rs[k].1))
    ensures RemoveAt(slots, (s, rs[k].1)) == slots0[s := Drain(slots0[s], rs, k + 1)]
  {
  }

  lemma IdsOneMore(timers: Timers, rs: seq<Request>, k: nat)
    requires k < |rs|
    ensures timers - IdsUpTo(rs, k + 1) == timers - IdsUpTo(rs, k) - {rs[k].0}
    ensures rs[k].0 in timers - IdsUpTo(rs, k) ==>
        |timers - IdsUpTo(rs, k)| == |timers - IdsUpTo(rs, k + 1)| + 1
  {
    assert IdsUpTo(rs, k + 1) == IdsUpTo(rs, k) + {rs[k].0};
    var before, after := timers - IdsUpTo(rs, k), timers - IdsUpTo(rs, k + 1);
    assert after == before - {rs[k].0};
    assert after.Keys == before.Keys - {rs[k].0};
  }

  /** The entry that would be swapped in is never the one being removed. */
  lemma LastIsAnother(slots: Slots, timerMap: Index, id: nat)
    requires Indexed(slots, timerMap) && id in timerMap
    ensures var (s, p) := timerMap[id];
            var last := |slots[s]| - 1;
            last >= 0 && slots[s][last].id in timerMap && (p != last ==> slots[s][last].id != id)
  {
    var (s, p) := timerMap[id];
    assert timerMap[slots[s][|slots[s]| - 1].id] == (s, |slots[s]| - 1);
  }

  lemma ServeSkips(slots0: Slots, map0: Index, slots: Slots, timerMap: Index, s: nat, rs: seq<Request>, k: nat)
    requires k < |rs| && Servable(slots0, map0, s, rs) && Serving(slots0, map0, slots, timerMap, s, rs, k)
    requires rs[k].1 >= |slots[s]|
    ensures k > 0 && rs[k] == rs[k - 1] && IdsUpTo(rs, k + 1) == IdsUpTo(rs, k)
    ensures Serving(slots0, map0, slots, timerMap, s, rs, k + 1)
  {
    hide Drain, Harmless, Requestable, Indexed, Find, IdsUpTo, Servable, Named;
    ServableIsNamed(slots0, map0, s, rs);
    NextRequest(slots0[s], rs, k);
    UpToOneMore(rs, k);
    assert IdsUpTo(rs, k + 1) == IdsUpTo(rs, k);
    DrainSkips(slots0, slots, s, rs, k);
  }

  lemma ServableIsNamed(slots0: Slots, map0: Index, s: nat, rs: seq<Request>)
    requires Servable(slots0, map0, s, rs)
    ensures s < |slots0| && Named(slots0[s], rs)
  {
    hide Harmless;
  }

  lemma ServingStarts(slots: Slots, timerMap: Index, s: nat, rs: seq<Request>, cached: Option<nat>)
    requires s < |slots|
    ensures slots == slots[s := Drain(slots[s], rs, 0)]
    ensures Servable(slots, timerMap, s, rs) ==> Serving(slots, timerMap, slots, timerMap, s, rs, 0)
    ensures var timers := Find(slots, timerMap);
            timers - IdsUpTo(rs, 0) == timers && !Touches(cached, timers, IdsUpTo(rs, 0))
  {
    assert IdsUpTo(rs, 0) == {};
  }

  lemma ServingEnds(slots0: Slots, map0: Index, slots: Slots, timerMap: Index, s: nat, rs: seq<Request>)
    requires Serving(slots0, map0, slots, timerMap, s, rs, |rs|)
    ensures Indexed(slots, timerMap) && Find(slots, timerMap) == Find(slots0, map0) - IdsUpTo(rs, |rs|)
  {
  }

  /** The request's share in the count and in the decision to drop the cache. */
  ghost predicate ServeEffect(cached: Option<nat>, timers: Timers, rs: seq<Request>, k: nat,
                              removed: bool, touching: bool)
    requires k < |rs|
  {
    && |timers - IdsUpTo(rs, k)| == |timers - IdsUpTo(rs, k + 1)| + (if removed then 1 else 0)
    && (Touches(cached, timers, IdsUpTo(rs, k + 1)) <==> Touches(cached, timers, IdsUpTo(rs, k)) || touching)
  }

  lemma ServingEffectOfRemoval(cached: Option<nat>, timers: Timers, rs: seq<Request>, k: nat)
    requires k < |rs| && rs[k].0 in timers
    requires |timers - IdsUpTo(rs, k)| == |timers - IdsUpTo(rs, k + 1)| + 1
    ensures ServeEffect(cached, timers, rs, k, true,
                        cached.Some? && timers[rs[k].0].expiryTime <= cached.value + MILLISECOND)
  {
    assert IdsUpTo(rs, k + 1) == IdsUpTo(rs, k) + {rs[k].0};
  }

  lemma ServingEffectOfSkip(cached: Option<nat>, timers: Timers, rs: seq<Request>, k: nat)
    requires k < |rs| && IdsUpTo(rs, k + 1) == IdsUpTo(rs, k)
    ensures ServeEffect(cached, timers, rs, k, false, false)
  {
  }

  lemma DrainSkips(slots0: Slots, slots: Slots, s: nat, rs: seq<Request>, k: nat)
    requires k < |rs| && s < |slots0| && slots == slots0[s := Drain(slots0[s], rs, k)]
    requires rs[k].1 >= |slots[s]|
    ensures slots == slots0[s := Drain(slots0[s], rs, k + 1)]
  {
  }

  // --- all the slots of a batch

  ghost predicate GroupedRequests(ids: seq<nat>, timerMap: Index, groups: map<nat, seq<Request>>) {
    forall s: nat :: Requested(ids, timerMap, s) == if s in groups then groups[s] else []
  }

  lemma GroupRequest(ids: seq<nat>, timerMap: Index, groups: map<nat, seq<Request>>, id: nat)
    requires GroupedRequests(ids, timerMap, groups)
    ensures id !in timerMap ==> GroupedRequests(ids + [id], timerMap, groups)
    ensures id in timerMap ==>
        var (s, p) := timerMap[id];
        GroupedRequests(ids + [id], timerMap, groups[s := (if s in groups then groups[s] else []) + [(id, p)]])
  {
    assert (ids + [id])[..|ids|] == ids;
  }

  /** The slots in `done` have been served, the others are as they were. */
  ghost predicate PartlyDrained(slots0: Slots, map0: Index, ids: seq<nat>, slots: Slots, done: set<nat>) {
    && |slots| == |slots0|
    && forall s :: 0 <= s < |slots| ==>
         slots[s] == if s in done then Drained(slots0, map0, ids, s) else slots0[s]
  }

  ghost function Drained(slots0: Slots, map0: Index, ids: seq<nat>, s: nat): seq<TimerEntry>
    requires s < |slots0|
  {
    var rs := SortedRequests(ids, map0, s);
    Drain(slots0[s], rs, |rs|)
  }

  ghost function Served(ids: seq<nat>, map0: Index, done: set<nat>): set<nat> {
    set id | id in ids && id in map0 && map0[id].0 in done
  }

  lemma ServedOneMore(slots0: Slots, map0: Index, ids: seq<nat>, done: set<nat>, s: nat)
    requires Indexed(slots0, map0) && s < |slots0|
    ensures var rs := SortedRequests(ids, map0, s);
            Served(ids, map0, done + {s}) == Served(ids, map0, done) + IdsUpTo(rs, |rs|)
  {
    hide Indexed, SortedRequests, Requestable;
    var rs := SortedRequests(ids, map0, s);
    SortedRequestsAre(slots0, map0, ids, s);
    forall id | id in ids && id in map0 && map0[id].0 == s
      ensures id in IdsUpTo(rs, |rs|)
    {
      assert (id, map0[id].1) in rs;
    }
    forall i | 0 <= i < |rs|
      ensures rs[i].0 in Served(ids, map0, done + {s})
    {
      assert rs[i] in rs;
    }
  }

  /** A slot not served yet can be, whatever happened to the others. */
  lemma StillServable(slots0: Slots, map0: Index, ids: seq<nat>, slots: Slots, timerMap: Index,
                      done: set<nat>, s: nat)
    requires Indexed(slots0, map0) && Indexed(slots, timerMap) && BatchSafe(slots0, map0, ids)
    requires PartlyDrained(slots0, map0, ids, slots, done) && s < |slots0| && s !in done
    ensures Servable(slots, timerMap, s, SortedRequests(ids, map0, s))
  {
    var rs := SortedRequests(ids, map0, s);
    SortedRequestsAre(slots0, map0, ids, s);
    SafeSlotIsHarmless(slots0, map0, ids, s);
    assert slots[s] == slots0[s];
    forall i | 0 <= i < |rs|
      ensures rs[i].0 in timerMap && timerMap[rs[i].0] == (s, rs[i].1)
    {
      assert rs[i] in rs;
      assert slots0[s][rs[i].1].id == rs[i].0;
    }
  }

  /** The state of a safe batch between two slots. */
  ghost predicate BatchProgress(slots0: Slots, map0: Index, ids: seq<nat>, cached: Option<nat>,
                                slots: Slots, timerMap: Index, done: set<nat>, count: int, touched: bool)
  {
    && Indexed(slots, timerMap)
    && Find(slots, timerMap) == Find(slots0, map0) - Served(ids, map0, done)
    && count == |Find(slots0, map0)| - |Find(slots, timerMap)|
    && (touched <==> Touches(cached, Find(slots0, map0), Served(ids, map0, done)))
  }

  lemma TouchesUnion(cached: Option<nat>, timers: Timers, a: set<nat>, b: set<nat>)
    ensures Touches(cached, timers, a + b) <==> Touches(cached, timers, a) || Touches(cached, timers - a, b)
  {
  }

  lemma ProgressStep(slots0: Slots, map0: Index, ids: seq<nat>, cached: Option<nat>, s: nat,
                     slots1: Slots, map1: Index, done: set<nat>, count1: int, touched1: bool,
                     slots2: Slots, map2: Index, count: int, touched: bool)
    requires Indexed(slots0, map0) && s < |slots0|
    requires BatchProgress(slots0, map0, ids, cached, slots1, map1, done, count1, touched1)
    requires var rs := SortedRequests(ids, map0, s);
             && Indexed(slots2, map2)
             && Find(slots2, map2) == Find(slots1, map1) - IdsUpTo(rs, |rs|)
             && count == |Find(slots1, map1)| - |Find(slots2, map2)|
             && (touched <==> Touches(cached, Find(slots1, map1), IdsUpTo(rs, |rs|)))
    ensures BatchProgress(slots0, map0, ids, cached, slots2, map2, done + {s}, count1 + count, touched1 || touched)
  {
    hide Indexed, Find, Touches, Served, IdsUpTo, SortedRequests;
    var rs := SortedRequests(ids, map0, s);
    ServedOneMore(slots0, map0, ids, done, s);
    var t0, a, b := Find(slots0, map0), Served(ids, map0, done), IdsUpTo(rs, |rs|);
    TouchesUnion(cached, t0, a, b);
    MinusTwice(t0, a, b);
  }

  lemma MinusTwice(timers: Timers, a: set<nat>, b: set<nat>)
    ensures timers - a - b == timers - (a + b)
  {
  }

  /** Once every group is served, every requested timer is. */
  lemma ProgressEnds(w: Wheel, ids: seq<nat>, groups: map<nat, seq<Request>>, w': Wheel, count: int, touched: bool)
    requires WheelOk(w) && GroupedRequests(ids, w.timerMap, groups)
    requires BatchProgress(w.slots, w.timerMap, ids, w.cachedNextExpiry, w'.slots, w'.timerMap,
                           groups.Keys, count, touched)
    requires PartlyDrained(w.slots, w.timerMap, ids, w'.slots, groups.Keys)
    requires w' == w.(slots := w'.slots, timerMap := w'.timerMap,
                      cachedNextExpiry := if touched then None else w.cachedNextExpiry)
    ensures WheelOk(w')
    ensures View(w') == CancelTimers(View(w), set id | id in ids)
  {
    hide Indexed, Find, Placed, Aligned, ScheduleOk, PartlyDrained, GroupedRequests, Served, Touches, DropsCache;
    var wanted := set id | id in ids;
    ServedAreWanted(w, ids, groups);
    DrainedPlaced(w, ids, w'.slots, groups.Keys);
    CancelKeepsSchedule(View(w), wanted);
    assert View(w').timers == View(w).timers - wanted;
    assert View(w') == CancelTimers(View(w), wanted);
  }

  lemma ServedAreWanted(w: Wheel, ids: seq<nat>, groups: map<nat, seq<Request>>)
    requires Indexed(w.slots, w.timerMap) && GroupedRequests(ids, w.timerMap, groups)
    ensures var timers, served := View(w).timers, Served(ids, w.timerMap, groups.Keys);
            var wanted := set id | id in ids;
            && timers - served == timers - wanted
            && (Touches(w.cachedNextExpiry, timers, served) <==> DropsCache(View(w), wanted))
  {
    FoundKeys(w.slots, w.timerMap);
    forall id | id in ids && id in w.timerMap
      ensures w.timerMap[id].0 in groups
    {
      RequestedAre(ids, w.timerMap, w.timerMap[id].0, (id, w.timerMap[id].1));
    }
    var timers, served, wanted := View(w).timers, Served(ids, w.timerMap, groups.Keys), set id | id in ids;
    SameEffect(w.cachedNextExpiry, timers, served, wanted);
    assert DropsCache(View(w), wanted) <==> Touches(w.cachedNextExpiry, timers, wanted);
  }

  lemma SameEffect(cached: Option<nat>, timers: Timers, a: set<nat>, b: set<nat>)
    requires forall id :: id in timers ==> (id in a <==> id in b)
    ensures timers - a == timers - b
    ensures Touches(cached, timers, a) <==> Touches(cached, timers, b)
  {
  }

  lemma DrainedPlaced(w: Wheel, ids: seq<nat>, slots: Slots, done: set<nat>)
    requires WheelOk(w) && PartlyDrained(w.slots, w.timerMap, ids, slots, done)
    ensures Placed(w.config, slots)
  {
    forall s: nat, p: nat | s < |slots| && p < |slots[s]|
      ensures SlotIndex(w.config, slots[s][p].expiryTime) == s
    {
      OnlyFromItsSlot(w.slots, w.timerMap, ids, slots, done, s, slots[s][p]);
    }
  }

  lemma OnlyFromItsSlot(slots0: Slots, map0: Index, ids: seq<nat>, slots: Slots, done: set<nat>,
                        s: nat, e: TimerEntry)
    requires Indexed(slots0, map0) && PartlyDrained(slots0, map0, ids, slots, done)
    requires s < |slots| && e in slots[s]
    ensures e in slots0[s]
  {
    if s in done {
      SortedRequestsAre(slots0, map0, ids, s);
      var rs := SortedRequests(ids, map0, s);
      DrainShrinks(slots0[s], rs, |rs|);
    }
  }

  /** A timer that was queued and not requested is in no slot any more. */
  ghost predicate LosesUnrequested(slots0: Slots, slots: Slots, ids: seq<nat>) {
    exists s, e :: 0 <= s < |slots0| && e in slots0[s] && e.id !in ids
                   && forall t :: 0 <= t < |slots| ==> e !in slots[t]
  }

  lemma UnsafeBatchLoses(slots0: Slots, map0: Index, ids: seq<nat>, groups: map<nat, seq<Request>>, slots: Slots)
    requires Indexed(slots0, map0) && GroupedRequests(ids, map0, groups)
    requires PartlyDrained(slots0, map0, ids, slots, groups.Keys)
    requires !BatchSafe(slots0, map0, ids)
    ensures LosesUnrequested(slots0, slots, ids)
  {
    var s, v := FindVictim(slots0, map0, ids);
    assert Requested(ids, map0, s) != [];
    hide Indexed, BatchSafe, SortedRequests, GroupedRequests;
    var e := slots0[s][v];
    forall t | 0 <= t < |slots|
      ensures e !in slots[t]
    {
      if t != s { NotInOtherSlot(slots0, map0, ids, slots, groups.Keys, s, v, t); }
    }
    assert e in slots0[s];
  }

  lemma FindVictim(slots0: Slots, map0: Index, ids: seq<nat>) returns (s: nat, v: nat)
    requires Indexed(slots0, map0) && !BatchSafe(slots0, map0, ids)
    ensures InBounds(slots0, (s, v)) && slots0[s][v].id !in ids
    ensures slots0[s][v] !in Drained(slots0, map0, ids, s)
    ensures SortedRequests(ids, map0, s) != []
  {
    SafeIffHarmless(slots0, map0, ids);
    s :| 0 <= s < |slots0| && !SlotHarmless(slots0, map0, ids, s);
    var rs := SortedRequests(ids, map0, s);
    SortedRequestsAre(slots0, map0, ids, s);
    DrainOutcome(slots0[s], rs, |rs|);
    v :| Victim(slots0[s], rs, |rs|, v);
    VictimBreaksSafety(slots0, map0, ids, s, v);
  }

  lemma NotInOtherSlot(slots0: Slots, map0: Index, ids: seq<nat>, slots: Slots, done: set<nat>,
                       s: nat, v: nat, t: nat)
    requires Indexed(slots0, map0) && PartlyDrained(slots0, map0, ids, slots, done)
    requires InBounds(slots0, (s, v)) && t < |slots| && t != s
    ensures slots0[s][v] !in slots[t]
  {
    var e := slots0[s][v];
    assert forall p: nat :: p < |slots0[t]| ==> map0[slots0[t][p].id] == (t, p);
    assert e !in slots0[t];
    if e in slots[t] { OnlyFromItsSlot(slots0, map0, ids, slots, done, t, e); }
  }

  lemma NothingServed(slots0: Slots, map0: Index, ids: seq<nat>, cached: Option<nat>)
    requires Indexed(slots0, map0)
    ensures PartlyDrained(slots0, map0, ids, slots0, {})
    ensures BatchProgress(slots0, map0, ids, cached, slots0, map0, {}, 0, false)
  {
    assert Served(ids, map0, {}) == {};
  }

  lemma DrainedOneMore(slots0: Slots, map0: Index, ids: seq<nat>, slots: Slots, done: set<nat>, s: nat)
    requires PartlyDrained(slots0, map0, ids, slots, done) && s < |slots0| && s !in done
    ensures |slots| == |slots0| && slots[s] == slots0[s]
    ensures PartlyDrained(slots0, map0, ids, slots[s := Drained(slots0, map0, ids, s)], done + {s})
  {
  }

  lemma EmptyBatch(w: Wheel)
    ensures BatchSafe(w.slots, w.timerMap, [])
    ensures View(w) == CancelTimers(View(w), set id | id in [])
  {
    var none := set id: nat | id in [];
    assert none == {};
    assert View(w).timers - none == View(w).timers;
  }

  lemma GroupIsRequested(ids: seq<nat>, timerMap: Index, groups: map<nat, seq<Request>>, s: nat)
    requires GroupedRequests(ids, timerMap, groups) && s in groups
    ensures groups[s] == Requested(ids, timerMap, s)
  {
  }

  /** What a batch amounts to once all its groups are served. */
  lemma BatchOutcome(w: Wheel, ids: seq<nat>, groups: map<nat, seq<Request>>, w': Wheel, count: int, touched: bool)
    requires WheelOk(w) && GroupedRequests(ids, w.timerMap, groups)
    requires PartlyDrained(w.slots, w.timerMap, ids, w'.slots, groups.Keys)
    requires BatchSafe(w.slots, w.timerMap, ids) ==>
        BatchProgress(w.slots, w.timerMap, ids, w.cachedNextExpiry, w'.slots, w'.timerMap, groups.Keys, count, touched)
    requires w' == w.(slots := w'.slots, timerMap := w'.timerMap,
                      cachedNextExpiry := if touched then None else w.cachedNextExpiry)
    ensures BatchSafe(w.slots, w.timerMap, ids) ==>
        && WheelOk(w') && View(w') == CancelTimers(View(w), set id | id in ids)
        && count == |View(w).timers| - |View(w').timers|
    ensures !BatchSafe(w.slots, w.timerMap, ids) ==> LosesUnrequested(w.slots, w'.slots, ids)
  {
    hide Indexed, Placed, Aligned, ScheduleOk, GroupedRequests, PartlyDrained, BatchSafe, LosesUnrequested,
         CancelTimers, Find;
    if BatchSafe(w.slots, w.timerMap, ids) {
      ProgressEnds(w, ids, groups, w', count, touched);
    } else {
      UnsafeBatchLoses(w.slots, w.timerMap, ids, groups, w'.slots);
    }
  }

  // --- what holds of every batch, also of one that goes wrong

  /** The index finds every queued entry; it may know further ids. */
  ghost predicate Located(slots: Slots, timerMap: Index) {
    forall s: nat, p: nat :: s < |slots| && p < |slots[s]| ==>
      slots[s][p].id in timerMap && timerMap[slots[s][p].id] == (s, p)
  }

  /** The requests name the entries at their positions. */
  ghost predicate Named(slot: seq<TimerEntry>, rs: seq<Request>) {
    Requestable(slot, rs) && forall i :: 0 <= i < |rs| ==> rs[i].1 < |slot| && slot[rs[i].1].id == rs[i].0
  }

  /** After `k` requests of slot `s`: exactly the ids requested have left the index. */
  ghost predicate Tracked(slots0: Slots, map0: Index, slots: Slots, timerMap: Index, s: nat,
                          rs: seq<Request>, k: nat)
    requires k <= |rs|
  {
    && s < |slots0| && slots == slots0[s := Drain(slots0[s], rs, k)]
    && Located(slots, timerMap) && timerMap.Keys == map0.Keys - IdsUpTo(rs, k)
  }

  /** The index once the last entry of a slot has moved to position `at`. */
  function SwapIndex(slots: Slots, timerMap: Index, at: (nat, nat)): Index
    requires InBounds(slots, at)
  {
    var last := |slots[at.0]| - 1;
    if at.1 == last then timerMap else timerMap[slots[at.0][last].id := at]
  }

  /** A request finds its entry still in place unless it repeats the one before. */
  lemma NextRequest(slot: seq<TimerEntry>, rs: seq<Request>, k: nat)
    requires Named(slot, rs) && k < |rs|
    ensures var d, p := Drain(slot, rs, k), rs[k].1;
            (p < |d| && d[p].id == rs[k].0) || (k > 0 && rs[k] == rs[k - 1])
  {
    DrainPrefix(slot, rs, k);
  }

  lemma UpToOneMore(rs: seq<Request>, k: nat)
    requires k < |rs|
    ensures IdsUpTo(rs, k + 1) == IdsUpTo(rs, k) + {rs[k].0}
    ensures k > 0 ==> rs[k - 1].0 in IdsUpTo(rs, k)
  {
  }

  lemma TrackRemoval(slots0: Slots, map0: Index, slots: Slots, timerMap: Index, s: nat, rs: seq<Request>, k: nat)
    requires k < |rs| && Tracked(slots0, map0, slots, timerMap, s, rs, k) && Named(slots0[s], rs)
    requires InBounds(slots, (s, rs[k].1))
    ensures var at := (s, rs[k].1);
            Tracked(slots0, map0, RemoveAt(slots, at), SwapIndex(slots, timerMap, at) - {rs[k].0}, s, rs, k + 1)
  {
    hide Named, Drain, IdsUpTo, Located, RemoveAt, SwapIndex;
    var (id, p) := rs[k];
    NextRequest(slots0[s], rs, k);
    UpToOneMore(rs, k);
    DrainOneMore(slots0, slots, s, rs, k);
    RemovalKeepsLocated(slots, timerMap, id, (s, p));
    assert map0.Keys - IdsUpTo(rs, k + 1) == map0.Keys - IdsUpTo(rs, k) - {id};
  }

  lemma RemovalKeepsLocated(slots: Slots, timerMap: Index, id: nat, at: (nat, nat))
    requires Located(slots, timerMap) && InBounds(slots, at)
    requires slots[at.0][at.1].id == id || id !in timerMap
    ensures Located(RemoveAt(slots, at), SwapIndex(slots, timerMap, at) - {id})
    ensures (SwapIndex(slots, timerMap, at) - {id}).Keys == timerMap.Keys - {id}
  {
    var left: Slots := RemoveAt(slots, at);
    var m := SwapIndex(slots, timerMap, at) - {id};
    var last := |slots[at.0]| - 1;
    assert slots[at.0][last].id in timerMap;
    forall t: nat, q: nat | t < |left| && q < |left[t]|
      ensures left[t][q].id in m && m[left[t][q].id] == (t, q)
    {
      RemoveMoves(slots, at, t, q);
    }
  }

  lemma TrackSkip(slots0: Slots, map0: Index, slots: Slots, timerMap: Index, s: nat, rs: seq<Request>, k: nat)
    requires k < |rs| && Tracked(slots0, map0, slots, timerMap, s, rs, k) && Named(slots0[s], rs)
    requires rs[k].1 >= |slots[s]|
    ensures Tracked(slots0, map0, slots, timerMap, s, rs, k + 1)
  {
    hide Named, IdsUpTo, Located, Drain;
    NextRequest(slots0[s], rs, k);
    DrainSkips(slots0, slots, s, rs, k);
    UpToOneMore(rs, k);
    assert IdsUpTo(rs, k + 1) == IdsUpTo(rs, k);
  }

  /** A slot whose turn has come is as it was when the batch began. */
  lemma GroupCanBeServed(slots0: Slots, map0: Index, ids: seq<nat>, slots: Slots, timerMap: Index,
                         done: set<nat>, s: nat, safe: bool)
    requires Indexed(slots0, map0) && safe == BatchSafe(slots0, map0, ids) && (safe ==> Indexed(slots, timerMap))
    requires PartlyDrained(slots0, map0, ids, slots, done) && s < |slots0| && s !in done
    ensures var rs := SortedRequests(ids, map0, s);
            && |slots| == |slots0| && slots[s] == slots0[s] && Requestable(slots[s], rs) && Named(slots[s], rs)
            && (safe ==> Servable(slots, timerMap, s, rs))
            && PartlyDrained(slots0, map0, ids, slots[s := Drain(slots[s], rs, |rs|)], done + {s})
  {
    hide Indexed, BatchSafe, Servable, Requestable, Named, PartlyDrained, SortedRequests;
    SortedRequestsAre(slots0, map0, ids, s);
    RequestsAreNamed(slots0, map0, ids, s);
    DrainedOneMore(slots0, map0, ids, slots, done, s);
    if safe { StillServable(slots0, map0, ids, slots, timerMap, done, s); }
  }

  /** What serving a whole group has done. */
  lemma GroupIsServed(slots0: Slots, map0: Index, ids: seq<nat>, done: set<nat>, s: nat,
                      slots1: Slots, map1: Index, slots: Slots, timerMap: Index)
    requires Indexed(slots0, map0) && s < |slots0| && map1.Keys == map0.Keys - Served(ids, map0, done)
    requires var rs := SortedRequests(ids, map0, s); Tracked(slots1, map1, slots, timerMap, s, rs, |rs|)
    ensures var rs := SortedRequests(ids, map0, s); slots == slots1[s := Drain(slots1[s], rs, |rs|)]
    ensures Located(slots, timerMap) && timerMap.Keys == map0.Keys - Served(ids, map0, done + {s})
    ensures Queued(slots1) - Queued(slots) == |slots1[s]| - |slots[s]|
  {
    hide Indexed, Located, Served, IdsUpTo, SortedRequests, Queued, Drain;
    var rs := SortedRequests(ids, map0, s);
    ServedOneMore(slots0, map0, ids, done, s);
    QueuedUpdate(slots1, s, slots[s]);
    assert map0.Keys - Served(ids, map0, done) - IdsUpTo(rs, |rs|) == map0.Keys - Served(ids, map0, done + {s});
  }

  lemma GroupIsSorted(ids: seq<nat>, map0: Index, s: nat)
    ensures SortDescending(Requested(ids, map0, s)) == SortedRequests(ids, map0, s)
  {
  }

  lemma ProgressIsIndexed(slots0: Slots, map0: Index, ids: seq<nat>, cached: Option<nat>,
                          slots: Slots, timerMap: Index, done: set<nat>, count: int, touched: bool)
    requires BatchProgress(slots0, map0, ids, cached, slots, timerMap, done, count, touched)
    ensures Indexed(slots, timerMap)
  {
  }

  lemma NothingTracked(slots: Slots, timerMap: Index, ids: seq<nat>)
    requires Indexed(slots, timerMap)
    ensures Located(slots, timerMap) && timerMap.Keys == timerMap.Keys - Served(ids, timerMap, {})
  {
  }

  lemma NotIndexedNotOk(w: Wheel)
    requires !Indexed(w.slots, w.timerMap)
    ensures !WheelOk(w)
  {
  }

  lemma TrackingStarts(slots: Slots, timerMap: Index, s: nat, rs: seq<Request>)
    requires Located(slots, timerMap) && s < |slots|
    ensures Tracked(slots, timerMap, slots, timerMap, s, rs, 0)
  {
    assert IdsUpTo(rs, 0) == {};
    assert slots == slots[s := slots[s]];
  }

  lemma RequestsAreNamed(slots: Slots, timerMap: Index, ids: seq<nat>, s: nat)
    requires Indexed(slots, timerMap) && s < |slots|
    ensures Named(slots[s], SortedRequests(ids, timerMap, s))
  {
    var rs := SortedRequests(ids, timerMap, s);
    SortedRequestsAre(slots, timerMap, ids, s);
    forall i | 0 <= i < |rs|
      ensures rs[i].1 < |slots[s]| && slots[s][rs[i].1].id == rs[i].0
    {
      assert rs[i] in rs;
    }
  }

  lemma DrainLength(slot: seq<TimerEntry>, rs: seq<Request>, k: nat)
    requires k < |rs|
    ensures |Drain(slot, rs, k + 1)| == |Drain(slot, rs, k)| - if rs[k].1 < |Drain(slot, rs, k)| then 1 else 0
  {
  }

  /** An entry of the slot has gone that expires within a millisecond of the cache. */
  ghost predicate LosesNear(cached: Option<nat>, slot0: seq<TimerEntry>, slot: seq<TimerEntry>) {
    exists e :: e in slot0 && e !in slot && Near(cached, e)
  }

  predicate Near(cached: Option<nat>, e: TimerEntry) {
    cached.Some? && e.expiryTime <= cached.value + MILLISECOND
  }

  lemma LosesOneMore(cached: Option<nat>, slot: seq<TimerEntry>, rs: seq<Request>, k: nat)
    requires k < |rs| && Requestable(slot, rs)
    ensures var d, p := Drain(slot, rs, k), rs[k].1;
            LosesNear(cached, slot, Drain(slot, rs, k + 1))
            <==> LosesNear(cached, slot, d) || (p < |d| && Near(cached, d[p]))
  {
    var d, p := Drain(slot, rs, k), rs[k].1;
    DrainShrinks(slot, rs, k);
    if p < |d| {
      SwapRemoveElements(d, p);
      assert d[p] in d;
      hide SwapRemove;
      if LosesNear(cached, slot, d) {
        var e :| e in slot && e !in d && Near(cached, e);
        assert e !in Drain(slot, rs, k + 1);
      }
    }
  }

  lemma NothingLostNear(cached: Option<nat>, slot: seq<TimerEntry>, rs: seq<Request>)
    ensures !LosesNear(cached, slot, Drain(slot, rs, 0))
  {
  }

  /** The same over all slots. */
  ghost predicate AnyLosesNear(cached: Option<nat>, slots0: Slots, slots: Slots)
    requires |slots| == |slots0|
  {
    exists s :: 0 <= s < |slots0| && LosesNear(cached, slots0[s], slots[s])
  }

  lemma AnyLosesStarts(cached: Option<nat>, slots: Slots)
    ensures !AnyLosesNear(cached, slots, slots)
  {
  }

  lemma AnyLosesOneMore(cached: Option<nat>, slots0: Slots, slots: Slots, s: nat, slot: seq<TimerEntry>)
    requires |slots| == |slots0| && s < |slots| && slots[s] == slots0[s]
    ensures AnyLosesNear(cached, slots0, slots[s := slot])
            <==> AnyLosesNear(cached, slots0, slots) || LosesNear(cached, slots0[s], slot)
  {
    hide LosesNear;
    assert !LosesNear(cached, slots0[s], slots0[s]) by { NothingLostNear(cached, slots0[s], []); }
    var after := slots[s := slot];
    if AnyLosesNear(cached, slots0, slots) {
      var t :| 0 <= t < |slots0| && LosesNear(cached, slots0[t], slots[t]);
      assert after[t] == slots[t];
    }
    if LosesNear(cached, slots0[s], slot) { assert after[s] == slot; }
    if AnyLosesNear(cached, slots0, after) {
      var t :| 0 <= t < |slots0| && LosesNear(cached, slots0[t], after[t]);
      if t != s { assert slots[t] == after[t]; }
    }
  }

  /** The number of entries queued in all slots. */
  function Queued(slots: Slots): nat {
    if slots == [] then 0 else Queued(slots[..|slots| - 1]) + |slots[|slots| - 1]|
  }

  lemma {:induction false} QueuedUpdate(slots: Slots, s: nat, slot: seq<TimerEntry>)
    requires s < |slots|
    ensures Queued(slots[s := slot]) == Queued(slots) - |slots[s]| + |slot|
    decreases |slots|
  {
    var n := |slots| - 1;
    if s < n {
      QueuedUpdate(slots[..n], s, slot);
      assert slots[s := slot][..n] == slots[..n][s := slot];
    } else {
      assert slots[s := slot][..n] == slots[..n];
    }
  }

  /** What is left of every slot, of the index and of the count, whatever the batch. */
  ghost predicate LeavesBehind(slots0: Slots, map0: Index, ids: seq<nat>, slots: Slots, timerMap: Index, count: int) {
    && |slots| == |slots0|
    && (forall s :: 0 <= s < |slots0| ==> slots[s] == Drained(slots0, map0, ids, s))
    && Located(slots, timerMap)
    && (forall id :: id in timerMap <==> id in map0 && id !in ids)
    && count == Queued(slots0) - Queued(slots)
  }

  lemma EveryBatchLeaves(slots0: Slots, map0: Index, ids: seq<nat>, groups: map<nat, seq<Request>>,
                         slots: Slots, timerMap: Index, count: int)
    requires Indexed(slots0, map0) && GroupedRequests(ids, map0, groups)
    requires PartlyDrained(slots0, map0, ids, slots, groups.Keys) && Located(slots, timerMap)
    requires timerMap.Keys == map0.Keys - Served(ids, map0, groups.Keys) && count == Queued(slots0) - Queued(slots)
    ensures LeavesBehind(slots0, map0, ids, slots, timerMap, count)
  {
    hide Indexed, Located;
    forall s | 0 <= s < |slots0|
      ensures slots[s] == Drained(slots0, map0, ids, s)
    {
      if s !in groups { assert SortedRequests(ids, map0, s) == []; }
    }
    forall id | id in map0 && id in ids
      ensures id in Served(ids, map0, groups.Keys)
    {
      RequestedAre(ids, map0, map0[id].0, (id, map0[id].1));
    }
  }

  /** Nothing is left behind by an empty batch that was not there before. */
  lemma EmptyBatchLeaves(slots: Slots, timerMap: Index)
    requires Indexed(slots, timerMap)
    ensures LeavesBehind(slots, timerMap, [], slots, timerMap, 0)
  {
    forall s | 0 <= s < |slots|
      ensures slots[s] == Drained(slots, timerMap, [], s)
    {
      assert SortedRequests([], timerMap, s) == [];
    }
  }

  /** An id the index still knows although its timer is queued nowhere. */
  ghost predicate Stranded(slots: Slots, timerMap: Index, id: nat) {
    id in timerMap && forall s: nat, p: nat :: s < |slots| && p < |slots[s]| ==> slots[s][p].id != id
  }

  /** The timer an unsafe batch loses stays in the index, which is then wrong. */
  lemma LostIsStranded(slots0: Slots, map0: Index, ids: seq<nat>, slots: Slots, timerMap: Index, count: int)
    requires Indexed(slots0, map0) && LosesUnrequested(slots0, slots, ids)
    requires LeavesBehind(slots0, map0, ids, slots, timerMap, count)
    ensures exists id :: id in map0 && id !in ids && Stranded(slots, timerMap, id)
    ensures !Indexed(slots, timerMap)
  {
    var s, e :| 0 <= s < |slots0| && e in slots0[s] && e.id !in ids && forall t :: 0 <= t < |slots| ==> e !in slots[t];
    hide LosesUnrequested;
    var p :| 0 <= p < |slots0[s]| && slots0[s][p] == e;
    forall t: nat, q: nat | t < |slots| && q < |slots[t]|
      ensures slots[t][q].id != e.id
    {
      LeftWasThere(slots0, map0, ids, slots, timerMap, count, t, q);
      var f := slots[t][q];
      assert f in slots[t] && f != e;
      var o :| 0 <= o < |slots0[t]| && slots0[t][o] == f;
      assert map0[f.id] == (t, o) && map0[e.id] == (s, p);
    }
    assert Stranded(slots, timerMap, e.id);
  }

  lemma LeftWasThere(slots0: Slots, map0: Index, ids: seq<nat>, slots: Slots, timerMap: Index, count: int,
                     t: nat, q: nat)
    requires Indexed(slots0, map0) && LeavesBehind(slots0, map0, ids, slots, timerMap, count)
    requires t < |slots| && q < |slots[t]|
    ensures slots[t][q] in slots0[t]
  {
    hide Indexed, Located;
    SortedRequestsAre(slots0, map0, ids, t);
    DrainShrinks(slots0[t], SortedRequests(ids, map0, t), |SortedRequests(ids, map0, t)|);
  }
}
