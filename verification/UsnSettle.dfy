/** What check_actions achieves: device by device, independent of the order in which events fire. */
module UsnSettle {
  import opened Wrappers
  import opened UsnBookings
  import opened UsnSchedule

  /** The bookings that have not ended, in order (usn_remove_old_bookings keeps these too, see Unexpired). */
  function Live(bs: seq<Booking>, now: Time): seq<Booking> {
    if bs == [] then []
    else
      var p, b := Live(bs[..|bs| - 1], now), bs[|bs| - 1];
      if Due(b.until, now) then p else p + [b]
  }

  predicate Running(b: Booking, now: Time) { Due(b.from, now) && b.until > now }

  /** Start of the earliest-starting running booking; the maximum if none runs. */
  function FirstStart(bs: seq<Booking>, now: Time): Time {
    if bs == [] then MAX_TS
    else
      var t, b := FirstStart(bs[..|bs| - 1], now), bs[|bs| - 1];
      if Running(b, now) && b.from < t then b.from else t
  }

  function Holder(bs: seq<Booking>, now: Time): int {
    var t := FirstStart(bs, now);
    if t == MAX_TS then -1 else Find(bs, t)
  }

  /** Expired bookings go; a device that lost one, or was idle, starts its earliest running booking. */
  function Settle(d: Slot, now: Time): Slot {
    var live := Live(d.bookings, now);
    if live == d.bookings && d.current != -1 then d else Slot(live, Holder(live, now))
  }

  function SettleAll(ds: seq<Slot>, now: Time): (r: seq<Slot>)
    ensures |r| == |ds|
    ensures forall i :: 0 <= i < |ds| ==> r[i] == Settle(ds[i], now)
  {
    seq(|ds|, i requires 0 <= i < |ds| => Settle(ds[i], now))
  }

  // ----- facts about the pieces ---------------------------------------------

  lemma {:induction false} LiveAll(bs: seq<Booking>, now: Time)
    ensures |Live(bs, now)| <= |bs|
    ensures (forall i :: 0 <= i < |bs| ==> !Due(bs[i].until, now)) <==> Live(bs, now) == bs
    ensures forall b :: b in Live(bs, now) <==> b in bs && !Due(b.until, now)
  {
    if bs == [] {
    } else {
      LiveAll(bs[..|bs| - 1], now);
      assert bs == bs[..|bs| - 1] + [bs[|bs| - 1]];
    }
  }

  lemma {:induction false} LiveRemove(bs: seq<Booking>, n: nat, now: Time)
    requires n < |bs| && Due(bs[n].until, now)
    ensures Live(RemoveAt(bs, n), now) == Live(bs, now)
  {
    var p := bs[..|bs| - 1];
    if n == |bs| - 1 {
      assert RemoveAt(bs, n) == p;
    } else {
      LiveRemove(p, n, now);
      RemoveAtPrefix(bs, n);
      var r := RemoveAt(bs, n);
      assert r[..|r| - 1] == RemoveAt(p, n);
    }
  }

  lemma {:induction false} FirstStartIsMinimum(bs: seq<Booking>, now: Time)
    ensures var t := FirstStart(bs, now);
            && (t == MAX_TS <==> forall i :: 0 <= i < |bs| ==> !Running(bs[i], now))
            && (t != MAX_TS ==> exists i :: 0 <= i < |bs| && Running(bs[i], now) && bs[i].from == t)
            && (forall i :: 0 <= i < |bs| && Running(bs[i], now) ==> t <= bs[i].from)
  {
    if bs == [] {
    } else {
      var p := bs[..|bs| - 1];
      FirstStartIsMinimum(p, now);
      assert forall i :: 0 <= i < |p| ==> p[i] == bs[i];
    }
  }

  // ----- the event loop computes Settle ------------------------------------------

  lemma StartKeepsSettle(ds: seq<Slot>, now: Time)
    requires !Quiet(ds, now) && Next(ds, now).kind == Start
    ensures var e := Next(ds, now);
            0 <= e.device < |ds| && Settle(Handled(ds[e.device], e), now) == Settle(ds[e.device], now)
  {
    DueEvent(ds, now);
    NextMeans(ds, now);
    var e := Next(ds, now);
    var bs := ds[e.device].bookings;
    var n: nat :| StopOf(ds, e, n) || StartOf(ds, e, n, now);
    assert Running(bs[n], now);
    FirstStartIsMinimum(bs, now);
    forall i | 0 <= i < |bs| && Running(bs[i], now)
      ensures e.ts <= bs[i].from
    {
      assert StartOf(ds, Event(bs[i].from, e.device, Start), i, now);
    }
    assert FirstStart(bs, now) == e.ts;
  }

  lemma StopKeepsSettle(ds: seq<Slot>, now: Time)
    requires !Quiet(ds, now) && Next(ds, now).kind == Stop
    ensures var e := Next(ds, now);
            0 <= e.device < |ds| && Settle(Handled(ds[e.device], e), now) == Settle(ds[e.device], now)
  {
    DueEvent(ds, now);
    var e := Next(ds, now);
    var bs := ds[e.device].bookings;
    var n := FindUntil(bs, e.ts);
    LiveRemove(bs, n, now);
    LiveAll(bs, now);
  }

  lemma QuietIsSettled(ds: seq<Slot>, now: Time)
    requires Quiet(ds, now)
    ensures SettleAll(ds, now) == ds
  {
    NextMeans(ds, now);
    forall i | 0 <= i < |ds|
      ensures Settle(ds[i], now) == ds[i]
    {
      var bs := ds[i].bookings;
      forall k | 0 <= k < |bs|
        ensures !Due(bs[k].until, now)
        ensures ds[i].current == -1 ==> !Running(bs[k], now)
      {
        assert StopOf(ds, Event(bs[k].until, i, Stop), k);
        if Startable(bs[k], ds[i].current, now) {
          assert StartOf(ds, Event(bs[k].from, i, Start), k, now);
        }
      }
      LiveAll(bs, now);
      FirstStartIsMinimum(bs, now);
    }
  }

  /** The global earliest-event loop and the per-device settlement are the same function. */
  lemma {:induction false} LoopSettles(ds: seq<Slot>, now: Time)
    ensures Settled(ds, now) == SettleAll(ds, now)
    decreases Measure(ds)
  {
    if Quiet(ds, now) {
      QuietIsSettled(ds, now);
    } else {
      DueEvent(ds, now);
      var e := Next(ds, now);
      var next := Handle(ds, e);
      if e.kind == Start { StartKeepsSettle(ds, now); } else { StopKeepsSettle(ds, now); }
      LoopSettles(next, now);
      assert SettleAll(next, now) == SettleAll(ds, now);
    }
  }

  lemma {:induction false} SettledIsQuiet(ds: seq<Slot>, now: Time)
    ensures Quiet(Settled(ds, now), now)
    decreases Measure(ds)
  {
    if !Quiet(ds, now) {
      DueEvent(ds, now);
      SettledIsQuiet(Handle(ds, Next(ds, now)), now);
    }
  }

  /** Where the loop of a check stands after dispatching exactly `handled`; None if it would not dispatch those. */
  function Trail(start: seq<Slot>, now: Time, handled: seq<Event>): Option<seq<Slot>> {
    if handled == [] then Some(start)
    else
      var p, e := Trail(start, now, handled[..|handled| - 1]), handled[|handled| - 1];
      if p.Some? && !Quiet(p.value, now) && e == Next(p.value, now) then Some(Handle(p.value, e)) else None
  }

  lemma TrailStep(start: seq<Slot>, now: Time, ds: seq<Slot>, handled: seq<Event>)
    requires Trail(start, now, handled) == Some(ds) && !Quiet(ds, now)
    ensures var e := Next(ds, now);
            && 0 <= e.device < |ds|
            && Trail(start, now, handled + [e]) == Some(Handle(ds, e))
            && Measure(Handle(ds, e)) < Measure(ds)
  {
    DueEvent(ds, now);
    assert (handled + [Next(ds, now)])[..|handled|] == handled;
  }

  lemma LoopStep(ds: seq<Slot>, now: Time)
    requires !Quiet(ds, now)
    ensures var next := Handle(ds, Next(ds, now));
            Dispatched(ds, now) == [Next(ds, now)] + Dispatched(next, now) && Settled(ds, now) == Settled(next, now)
  {
  }

  lemma TrailLast(start: seq<Slot>, now: Time, ds: seq<Slot>, handled: seq<Event>) returns (before: seq<Slot>)
    requires handled != [] && Trail(start, now, handled) == Some(ds)
    ensures var p := handled[..|handled| - 1];
            && Trail(start, now, p) == Some(before)
            && Dispatched(before, now) == [handled[|p|]] + Dispatched(ds, now)
            && Settled(before, now) == Settled(ds, now)
  {
    before := Trail(start, now, handled[..|handled| - 1]).value;
    LoopStep(before, now);
  }

  lemma TrailStarts(start: seq<Slot>, now: Time)
    ensures Trail(start, now, []) == Some(start)
  {
  }

  lemma {:induction false} TrailPrefix(start: seq<Slot>, now: Time, ds: seq<Slot>, handled: seq<Event>)
    requires Trail(start, now, handled) == Some(ds)
    ensures Dispatched(start, now) == handled + Dispatched(ds, now)
    ensures Settled(start, now) == Settled(ds, now)
    decreases |handled|
  {
    hide Trail, Dispatched, Settled;
    if handled == [] {
      TrailStarts(start, now);
    } else {
      var p := handled[..|handled| - 1];
      var before := TrailLast(start, now, ds, handled);
      TrailPrefix(start, now, before, p);
      ConcatSnoc(p, handled[|p|], Dispatched(ds, now));
      assert handled == p + [handled[|p|]];
    }
  }

  lemma ConcatSnoc<T>(a: seq<T>, x: T, b: seq<T>)
    ensures a + ([x] + b) == (a + [x]) + b
  {
  }

  lemma TrailEnd(start: seq<Slot>, now: Time, ds: seq<Slot>, handled: seq<Event>)
    requires Trail(start, now, handled) == Some(ds) && Quiet(ds, now)
    ensures ds == SettleAll(start, now) && handled == Dispatched(start, now)
  {
    TrailPrefix(start, now, ds, handled);
    LoopSettles(start, now);
  }

  /** Checking again at once does nothing. */
  lemma SettleIdempotent(ds: seq<Slot>, now: Time)
    ensures SettleAll(SettleAll(ds, now), now) == SettleAll(ds, now)
    ensures Dispatched(SettleAll(ds, now), now) == []
  {
    LoopSettles(ds, now);
    SettledIsQuiet(ds, now);
    QuietIsSettled(Settled(ds, now), now);
  }

  // ----- the run invariant ------------------------------------------------------

  predicate Active(b: Booking, now: Time) { b.from <= now < b.until }

  /** Between checks: a device is idle or its index names a booking that has started. */
  predicate Anchored(d: Slot, now: Time) {
    d.current == -1 || (0 <= d.current < |d.bookings| && d.bookings[d.current].from <= now)
  }

  /** After a check: nothing expired, and the index is set exactly when some booking is active. */
  predicate InOrder(d: Slot, now: Time) {
    && (forall k :: 0 <= k < |d.bookings| ==> d.bookings[k].until > now)
    && (d.current != -1 <==> exists k :: 0 <= k < |d.bookings| && Active(d.bookings[k], now))
    && (d.current != -1 ==> 0 <= d.current < |d.bookings| && Active(d.bookings[d.current], now))
  }

  predicate AllAnchored(ds: seq<Slot>, now: Time) {
    forall i :: 0 <= i < |ds| ==> Anchored(ds[i], now)
  }

  predicate AllInOrder(ds: seq<Slot>, now: Time) {
    forall i :: 0 <= i < |ds| ==> InOrder(ds[i], now)
  }

  predicate HasExpired(d: Slot, now: Time) {
    exists k :: 0 <= k < |d.bookings| && d.bookings[k].until <= now
  }

  lemma LiveIsUnexpired(bs: seq<Booking>, now: Time)
    requires now < MAX_TS
    ensures forall k :: 0 <= k < |Live(bs, now)| ==> Live(bs, now)[k].until > now
    ensures Live(bs, now) == bs <==> forall k :: 0 <= k < |bs| ==> bs[k].until > now
  {
    LiveAll(bs, now);
    forall k | 0 <= k < |Live(bs, now)| ensures Live(bs, now)[k].until > now {
      assert Live(bs, now)[k] in Live(bs, now);
    }
  }

  /** A device that starts its earliest running booking from a purged list is in order. */
  lemma HolderInOrder(live: seq<Booking>, now: Time)
    requires now < MAX_TS && forall k :: 0 <= k < |live| ==> live[k].until > now
    ensures InOrder(Slot(live, Holder(live, now)), now)
  {
    FirstStartIsMinimum(live, now);
    var t := FirstStart(live, now);
    if t == MAX_TS {
      forall k | 0 <= k < |live| ensures !Active(live[k], now) {
        assert !Running(live[k], now);
      }
    } else {
      assert Active(live[Find(live, t)], now);
    }
  }

  /** A check puts a device in order exactly when it was anchored or something on it expired. */
  lemma SettlePutsInOrder(d: Slot, now: Time)
    requires now < MAX_TS
    ensures InOrder(Settle(d, now), now) <==> Anchored(d, now) || HasExpired(d, now)
    ensures InOrder(Settle(d, now), now) ==> Anchored(Settle(d, now), now)
  {
    LiveIsUnexpired(d.bookings, now);
    if Live(d.bookings, now) != d.bookings || d.current == -1 {
      HolderInOrder(Live(d.bookings, now), now);
    }
  }

  lemma SettleKeepsOrder(ds: seq<Slot>, now: Time, after: seq<Slot>)
    requires now < MAX_TS && AllAnchored(ds, now) && after == SettleAll(ds, now)
    ensures AllInOrder(after, now) && AllAnchored(after, now)
  {
    forall i | 0 <= i < |ds| ensures InOrder(after[i], now) && Anchored(after[i], now) {
      SettlePutsInOrder(ds[i], now);
    }
  }

  /** Adding logs and letting time pass keep a device anchored. */
  lemma {:induction false} AddKeepsAnchored(bs: seq<Booking>, current: int, ls: seq<Log>, now: Time, later: Time)
    requires Anchored(Slot(bs, current), now) && now <= later
    ensures Anchored(Slot(AddAll(bs, ls), current), later)
  {
    ReplayKeepsEarlier(bs, ls);
  }

  // ----- usn_remove_old_bookings --------------------------------------------------

  /** The bookings that usn_remove_old_bookings keeps, in order. */
  function Unexpired(bs: seq<Booking>, now: Time): seq<Booking> {
    if bs == [] then []
    else
      var p, b := Unexpired(bs[..|bs| - 1], now), bs[|bs| - 1];
      if b.until <= now then p else p + [b]
  }

  /** A check leaves the list that usn_remove_old_bookings would leave, except at the largest timestamp. */
  lemma {:induction false} CheckPurgesLikeRemoveOld(bs: seq<Booking>, now: Time)
    ensures Live(bs, now) == Unexpired(bs, now)
            <==> (now < MAX_TS || forall k :: 0 <= k < |bs| ==> bs[k].until < MAX_TS)
    ensures |Unexpired(bs, now)| <= |Live(bs, now)|
  {
    if bs == [] {
    } else {
      var p, b := bs[..|bs| - 1], bs[|bs| - 1];
      CheckPurgesLikeRemoveOld(p, now);
      if forall k :: 0 <= k < |p| ==> p[k].until < MAX_TS {
        assert forall k :: 0 <= k < |bs| ==> bs[k] == if k < |p| then p[k] else b;
      } else {
        var k :| 0 <= k < |p| && p[k].until >= MAX_TS;
        assert bs[k] == p[k];
      }
      if now == MAX_TS {
        UnexpiredAtMax(bs);
        UnexpiredAtMax(p);
      }
    }
  }

  lemma {:induction false} UnexpiredAtMax(bs: seq<Booking>)
    ensures Unexpired(bs, MAX_TS) == []
  {
    if bs == [] {
    } else {
      UnexpiredAtMax(bs[..|bs| - 1]);
    }
  }
}
