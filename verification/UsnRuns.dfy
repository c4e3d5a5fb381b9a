/** Whole runs of register, clock and update on values, and when they keep every device in order. */
module UsnRuns {
  import opened Wrappers
  import opened UsnBookings
  import opened UsnSchedule
  import opened UsnSettle
  import opened UsnLogs
  import opened UsnUpdate

  /** usn_device_conf_t without the handlers: the devices, the last checked block and the clock. */
  datatype State = State(ids: seq<seq<byte>>, slots: seq<Slot>, last: nat, now: Time)

  datatype Op = Register(id: seq<byte>) | Clock(t: Time) | Update(chain: Chain)

  const START: State := State([], [], 0, 0)

  predicate Legal(s: State, op: Op) {
    && |s.ids| == |s.slots|
    && match op
       case Register(_) => true
       case Clock(t) => s.now <= t < MAX_TS
       case Update(chain) => |chain.states| == |s.slots|
  }

  function Step(s: State, op: Op): State
    requires Legal(s, op)
  {
    match op
    case Register(id) => s.(ids := s.ids + [id], slots := s.slots + [Slot([], -1)])
    case Clock(t) => s.(now := t)
    case Update(chain) =>
      var (slots, ok) := UpdatedState(s.ids, s.slots, s.last, s.now, chain);
      s.(slots := slots, last := if ok then chain.block.value else s.last)
  }

  /** Is this update an initial fetch? */
  predicate Fetches(s: State, op: Op) {
    op.Update? && s.last == 0 && op.chain.block.Some? && op.chain.block.value != 0
  }

  /** A fetch after which each device is sound or has an expired booking; what is no fetch does no harm. */
  predicate Harmless(s: State, op: Op)
    requires Legal(s, op)
  {
    Fetches(s, op) ==>
      var mid := Updated(s.ids, SettleAll(s.slots, s.now), s.last, op.chain).0;
      forall i :: 0 <= i < |mid| ==> Anchored(mid[i], s.now) || HasExpired(mid[i], s.now)
  }

  /** The run invariant: every index is sound. */
  predicate Sound(s: State) {
    |s.ids| == |s.slots| && s.now < MAX_TS && AllAnchored(s.slots, s.now)
  }

  lemma InOrderIsAnchored(ds: seq<Slot>, now: Time)
    requires AllInOrder(ds, now)
    ensures AllAnchored(ds, now)
  {
    forall i | 0 <= i < |ds| ensures Anchored(ds[i], now) {
      assert InOrder(ds[i], now);
    }
  }

  /** Between the checks of an update that fetches nothing, sound devices stay sound. */
  lemma LogsKeepAnchored(s: State, chain: Chain)
    requires Sound(s) && Legal(s, Update(chain)) && !Fetches(s, Update(chain))
    ensures AllAnchored(Updated(s.ids, SettleAll(s.slots, s.now), s.last, chain).0, s.now)
  {
    hide SettleAll, FetchAll, ApplyAll, AllInOrder, AllAnchored;
    var first := SettleAll(s.slots, s.now);
    SettleKeepsOrder(s.slots, s.now, first);
    if chain.block.Some? && chain.block.value != s.last && chain.logs.Some? {
      BatchKeepsAnchored(s.ids, first, chain.logs.value, s.now);
    }
  }

  /** An update of sound devices, successful or not, ends in order exactly if it is harmless; then they stay sound. */
  lemma UpdateKeepsOrderIff(s: State, op: Op)
    requires Sound(s) && Legal(s, op) && op.Update?
    ensures AllInOrder(Step(s, op).slots, s.now) <==> Harmless(s, op)
    ensures Harmless(s, op) ==> AllAnchored(Step(s, op).slots, s.now)
  {
    hide SettleAll, Updated, AllInOrder, Anchored, HasExpired;
    UpdateInOrderIff(s.ids, s.slots, s.last, s.now, op.chain);
    assert op == Update(op.chain);
    if !Fetches(s, op) { LogsKeepAnchored(s, op.chain); }
    if AllInOrder(Step(s, op).slots, s.now) { InOrderIsAnchored(Step(s, op).slots, s.now); }
  }

  lemma StepKeepsSound(s: State, op: Op)
    requires Sound(s) && Legal(s, op) && Harmless(s, op)
    ensures Sound(Step(s, op))
  {
    if op.Update? { UpdateKeepsOrderIff(s, op); }
  }

  // ----- runs --------------------------------------------------------------------------------

  predicate LegalRun(s: State, ops: seq<Op>)
    decreases |ops|
  {
    ops == [] || (Legal(s, ops[0]) && LegalRun(Step(s, ops[0]), ops[1..]))
  }

  function End(s: State, ops: seq<Op>): State
    requires LegalRun(s, ops)
    decreases |ops|
  {
    if ops == [] then s else End(Step(s, ops[0]), ops[1..])
  }

  predicate EveryUpdateInOrder(s: State, ops: seq<Op>)
    requires LegalRun(s, ops)
    decreases |ops|
  {
    ops != [] ==>
      && (ops[0].Update? ==> AllInOrder(Step(s, ops[0]).slots, s.now))
      && EveryUpdateInOrder(Step(s, ops[0]), ops[1..])
  }

  predicate EveryFetchHarmless(s: State, ops: seq<Op>)
    requires LegalRun(s, ops)
    decreases |ops|
  {
    ops != [] ==> Harmless(s, ops[0]) && EveryFetchHarmless(Step(s, ops[0]), ops[1..])
  }

  /** Every update of a run ends with all devices in order if and only if every initial fetch in it is harmless. */
  lemma {:induction false} RunInOrderIff(s: State, ops: seq<Op>)
    requires Sound(s) && LegalRun(s, ops)
    ensures EveryUpdateInOrder(s, ops) <==> EveryFetchHarmless(s, ops)
    ensures EveryFetchHarmless(s, ops) ==> Sound(End(s, ops))
    decreases |ops|
  {
    hide Sound, Legal, Step, AllInOrder, Harmless;
    if ops == [] {
    } else {
      var op := ops[0];
      if op.Update? { UpdateKeepsOrderIff(s, op); } else { OnlyUpdatesFetch(s, op); }
      if Harmless(s, op) {
        StepKeepsSound(s, op);
        RunInOrderIff(Step(s, op), ops[1..]);
      }
    }
  }

  lemma OnlyUpdatesFetch(s: State, op: Op)
    requires Legal(s, op) && !op.Update?
    ensures Harmless(s, op)
  {
  }

  lemma StartIsSound()
    ensures Sound(START) && Unused(START)
  {
  }

  // ----- runs whose initial fetch is complete -------------------------------------------------

  /** The initial fetch, when it is made, reads every device, and it is made once: no later block has the number 0. */
  predicate Complete(s: State, op: Op)
    requires Legal(s, op)
  {
    op.Update? && op.chain.block.Some? ==>
      if op.chain.block.value == 0 then s.last == 0
      else s.last == 0 ==> UpdatedState(s.ids, s.slots, s.last, s.now, op.chain).1
  }

  /** Before the initial fetch no device has been used. */
  predicate Unused(s: State) {
    s.last == 0 ==> forall i :: 0 <= i < |s.slots| ==> s.slots[i] == Slot([], -1)
  }

  lemma UnusedStays(ds: seq<Slot>, now: Time)
    requires forall i :: 0 <= i < |ds| ==> ds[i] == Slot([], -1)
    ensures SettleAll(ds, now) == ds
  {
  }

  lemma IdleFetchIsSound(ds: seq<Slot>, states: seq<Option<seq<Option<Booking>>>>, now: Time)
    requires |ds| == |states| && forall i :: 0 <= i < |ds| ==> ds[i].current == -1
    ensures AllAnchored(FetchAll(ds, states, |ds|).0, now)
  {
    FetchKeepsAnchoredIff(ds, states, now);
  }

  /** A fetch of unused devices is harmless, also if it fails half-way. */
  lemma UnusedFetchIsHarmless(s: State, op: Op)
    requires Unused(s) && Legal(s, op)
    ensures Harmless(s, op)
  {
    hide FetchAll, Anchored, HasExpired;
    if Fetches(s, op) {
      UnusedStays(s.slots, s.now);
      IdleFetchIsSound(s.slots, op.chain.states, s.now);
    }
  }

  /** Without a successful fetch the last block stays 0 and the devices stay unused. */
  lemma CompleteKeepsUnused(s: State, op: Op)
    requires Sound(s) && Unused(s) && Legal(s, op) && Complete(s, op)
    ensures Unused(Step(s, op))
  {
    hide SettleAll, FetchAll, ApplyAll;
    if op.Update? && s.last == 0 { UnusedStays(s.slots, s.now); }
  }

  lemma UpdateStep(s: State, chain: Chain)
    requires Legal(s, Update(chain))
    ensures var (mid, ok) := Updated(s.ids, SettleAll(s.slots, s.now), s.last, chain);
            Step(s, Update(chain))
            == State(s.ids, SettleAll(mid, s.now), if ok then chain.block.value else s.last, s.now)
  {
  }

  /** All of this for one update. */
  lemma UpdateOutcome(s: State, op: Op)
    requires Legal(s, op) && op.Update?
    ensures Sound(s) ==> (AllInOrder(Step(s, op).slots, s.now) <==> Harmless(s, op))
    ensures Sound(s) && Harmless(s, op) ==> Sound(Step(s, op))
    ensures Sound(s) && Unused(s) ==> AllInOrder(Step(s, op).slots, s.now) && Sound(Step(s, op))
    ensures Sound(s) && Unused(s) && Complete(s, op) ==> Unused(Step(s, op))
  {
    hide Legal, Step, AllInOrder, Harmless, Sound, Unused, Complete;
    if Sound(s) {
      UpdateKeepsOrderIff(s, op);
      if Unused(s) {
        UnusedFetchIsHarmless(s, op);
        if Complete(s, op) { CompleteKeepsUnused(s, op); }
      }
      if Harmless(s, op) { StepKeepsSound(s, op); }
    }
  }

  predicate CompleteRun(s: State, ops: seq<Op>)
    requires LegalRun(s, ops)
    decreases |ops|
  {
    ops != [] ==> Complete(s, ops[0]) && CompleteRun(Step(s, ops[0]), ops[1..])
  }

  /** So from the start, a run with a complete initial fetch keeps every index sound and ends every update in order. */
  lemma RunInOrder(ops: seq<Op>)
    requires LegalRun(START, ops) && CompleteRun(START, ops)
    ensures EveryUpdateInOrder(START, ops) && Sound(End(START, ops))
  {
    StartIsSound();
    CompleteIsHarmless(START, ops);
    RunInOrderIff(START, ops);
  }

  lemma {:induction false} CompleteIsHarmless(s: State, ops: seq<Op>)
    requires Sound(s) && Unused(s) && LegalRun(s, ops) && CompleteRun(s, ops)
    ensures EveryFetchHarmless(s, ops)
    decreases |ops|
  {
    hide Sound, Unused, Legal, Complete, Step, Harmless;
    if ops == [] {
    } else {
      UnusedFetchIsHarmless(s, ops[0]);
      StepKeepsSound(s, ops[0]);
      CompleteKeepsUnused(s, ops[0]);
      CompleteIsHarmless(Step(s, ops[0]), ops[1..]);
    }
  }

  // ----- why the initial fetch must not be repeated ---------------------------------------------

  /** A booking that matters only by its times. */
  function Rent(from: Time, until: Time): Booking { Booking([], from, until, [], NO_PROPS) }

  /** The answer for a device with these bookings. */
  function Answer(bs: seq<Booking>): (r: seq<Option<Booking>>)
    ensures |r| == |bs|
  {
    seq(|bs|, i requires 0 <= i < |bs| => Some(bs[i]))
  }

  lemma {:induction false} FetchedAnswer(bs: seq<Booking>)
    requires forall i :: 0 <= i < |bs| ==> bs[i].from != 0
    ensures Fetched(Answer(bs)) == (bs, true)
  {
    if bs == [] {
    } else {
      var p := bs[..|bs| - 1];
      FetchedAnswer(p);
      assert Answer(bs)[..|bs| - 1] == Answer(p);
      assert bs == p + [bs[|bs| - 1]];
    }
  }

  /** The first of two devices, when it is read and the second fails or has no bookings. */
  lemma FetchOfTwo(a: Slot, b: Slot, bs: seq<Booking>, fails: bool)
    requires forall i :: 0 <= i < |bs| ==> bs[i].from != 0
    ensures FetchAll([a, b], [Some(Answer(bs)), if fails then None else Some(Answer([]))], 2)
            == ([a.(bookings := bs), if fails then b else b.(bookings := [])], !fails)
  {
    hide Fetched, Answer, FetchAll;
    FetchedAnswer(bs);
    FetchedAnswer([]);
    var ds := [a, b];
    var states := [Some(Answer(bs)), if fails then None else Some(Answer([]))];
    NothingFetched(ds, states);
    FetchStep(ds, states, 0);
    var p := ds[0 := a.(bookings := bs)];
    assert FetchAll(ds, states, 1) == (p, true);
    FetchStep(ds, states, 1);
    var q := if fails then b else b.(bookings := []);
    assert FetchSlot(p[1], states[1]) == (q, !fails);
    assert FetchAll(ds, states, 2) == (p[1 := q], !fails);
    assert p[1 := q] == [a.(bookings := bs), q];
  }

  lemma NothingFetched(ds: seq<Slot>, states: seq<Option<seq<Option<Booking>>>>)
    requires |ds| == |states|
    ensures FetchAll(ds, states, 0) == (ds, true)
  {
  }

  lemma FetchStep(ds: seq<Slot>, states: seq<Option<seq<Option<Booking>>>>, m: nat)
    requires m < |ds| == |states| && FetchAll(ds, states, m).1
    ensures var p := FetchAll(ds, states, m).0;
            FetchAll(ds, states, m + 1) == (p[m := FetchSlot(p[m], states[m]).0], FetchSlot(p[m], states[m]).1)
  {
  }

  /** Nothing is over, and the third booking alone is running: it becomes the current one. */
  lemma ThirdStarts()
    ensures Settle(Slot([Rent(60, 70), Rent(75, 80), Rent(10, 90)], -1), 50)
            == Slot([Rent(60, 70), Rent(75, 80), Rent(10, 90)], 2)
  {
    hide Live, FirstStart, Find;
    var bs := [Rent(60, 70), Rent(75, 80), Rent(10, 90)];
    LiveAll(bs, 50);
    FirstStartIsMinimum(bs, 50);
    assert Running(bs[2], 50);
    FindIs(bs, 10, 2);
  }

  /** No check repairs the index 2 into a list of one, as long as that booking is not over. */
  lemma StaleSettles(now: Time)
    requires 50 <= now < 90
    ensures var d := Slot([Rent(10, 90)], 2);
            Settle(d, now) == d && !InOrder(d, now) && !Anchored(d, now) && !HasExpired(d, now)
  {
    hide Live;
    LiveAll([Rent(10, 90)], now);
    assert Slot([Rent(10, 90)], 2).bookings[0] == Rent(10, 90);
  }

  lemma UnusedSettles(now: Time)
    ensures Settle(Slot([], -1), now) == Slot([], -1)
  {
  }

  /**
   * Two new devices at time 50. The initial fetch reads three bookings of the first and fails on the second; the
   * check behind it makes the third booking the current one. The next update fetches again: by then the first two
   * are gone from the chain, and the index 2 stays behind a list of one.
   */
  lemma StaleIndexStays(first: Chain, second: Chain)
    requires first == Chain(Some(7), [Some(Answer([Rent(60, 70), Rent(75, 80), Rent(10, 90)])), None], None)
    requires second == Chain(Some(7), [Some(Answer([Rent(10, 90)])), Some(Answer([]))], None)
    ensures var s0 := Step(Step(Step(START, Register([1])), Register([2])), Clock(50));
            && Legal(s0, Update(first))
            && var s1 := Step(s0, Update(first));
               && s1.last == 0 && s1.slots == [Slot([Rent(60, 70), Rent(75, 80), Rent(10, 90)], 2), Slot([], -1)]
               && Legal(s1, Update(second))
               && var s2 := Step(s1, Update(second));
                  && s2.last == 7 && s2.slots == [Slot([Rent(10, 90)], 2), Slot([], -1)]
                  && forall now: Time :: 50 <= now < 90
                      ==> SettleAll(s2.slots, now) == s2.slots && !InOrder(s2.slots[0], now)
  {
    hide Settle, Answer, FetchAll, InOrder;
    var unused, three, one := Slot([], -1), [Rent(60, 70), Rent(75, 80), Rent(10, 90)], [Rent(10, 90)];
    var s0 := Step(Step(Step(START, Register([1])), Register([2])), Clock(50));
    assert s0.slots == [unused, unused] && s0.ids == [[1], [2]];
    UnusedSettles(50);
    assert SettleAll(s0.slots, 50) == [unused, unused];
    FetchOfTwo(unused, unused, three, true);
    ThirdStarts();
    var s1 := Step(s0, Update(first));
    assert s1.slots == [Slot(three, 2), unused];
    RunningStays();
    assert SettleAll(s1.slots, 50) == [Slot(three, 2), unused];
    FetchOfTwo(Slot(three, 2), unused, one, false);
    var s2 := Step(s1, Update(second));
    StaleSettles(50);
    assert s2.slots == [Slot(one, 2), unused];
    forall now: Time | 50 <= now < 90
      ensures SettleAll(s2.slots, now) == s2.slots && !InOrder(s2.slots[0], now)
    {
      StaleSettles(now);
      UnusedSettles(now);
    }
  }

  lemma RunningStays()
    ensures var d := Slot([Rent(60, 70), Rent(75, 80), Rent(10, 90)], 2);
            Settle(d, 50) == d
  {
    hide Live;
    LiveAll([Rent(60, 70), Rent(75, 80), Rent(10, 90)], 50);
  }
}
