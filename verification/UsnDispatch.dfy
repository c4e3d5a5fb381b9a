/** Properties of the whole sequence of events one check hands to the booking handler. */
module UsnDispatch {
  import opened UsnBookings
  import opened UsnSchedule
  import opened UsnSettle

  // ----- chronological dispatch ------------------------------------------------

  predicate Chronological(es: seq<Event>) {
    forall i, j :: 0 <= i < j < |es| ==> es[i].ts <= es[j].ts
  }

  /** Some expired booking of the device ended after a still running one began. */
  ghost predicate Overlaps(d: Slot, now: Time) {
    exists x, r :: OverlapPair(d, x, r, now)
  }

  predicate OverlapPair(d: Slot, x: Booking, r: Booking, now: Time) {
    x in d.bookings && r in d.bookings && Due(x.until, now) && Running(r, now) && r.from < x.until
  }

  ghost predicate AnyOverlap(ds: seq<Slot>, now: Time) {
    exists i :: 0 <= i < |ds| && Overlaps(ds[i], now)
  }

  lemma RemoveAtKeeps(bs: seq<Booking>, n: nat)
    requires n < |bs|
    ensures forall b :: b in RemoveAt(bs, n) ==> b in bs
    ensures forall b :: b in bs ==> b in RemoveAt(bs, n) || b == bs[n]
  {
    assert bs == bs[..n] + [bs[n]] + bs[n + 1..];
  }

  /** The bookings left on a device after an event were there before. */
  lemma HandledKeeps(d: Slot, e: Event)
    ensures forall b :: b in Handled(d, e).bookings ==> b in d.bookings
  {
    var n := FindUntil(d.bookings, e.ts);
    if e.kind == Stop && n < |d.bookings| { RemoveAtKeeps(d.bookings, n); }
  }

  lemma OverlapNotCreated(ds: seq<Slot>, e: Event, now: Time)
    requires !AnyOverlap(ds, now)
    ensures !AnyOverlap(Handle(ds, e), now)
  {
    var next := Handle(ds, e);
    forall i | 0 <= i < |next| ensures !Overlaps(next[i], now) {
      HandledKeeps(ds[i], e);
      forall x, r | OverlapPair(next[i], x, r, now) ensures OverlapPair(ds[i], x, r, now) {
      }
      assert !Overlaps(ds[i], now);
    }
  }

  /** Without overlap, handling the earliest event never enables an earlier one. */
  lemma EnabledNotEarlier(ds: seq<Slot>, now: Time, f: Event, n: nat)
    requires !Quiet(ds, now) && !AnyOverlap(ds, now)
    requires StopOf(Handle(ds, Next(ds, now)), f, n) || StartOf(Handle(ds, Next(ds, now)), f, n, now)
    ensures Next(ds, now).ts <= f.ts
  {
    DueEvent(ds, now);
    NextMeans(ds, now);
    var e := Next(ds, now);
    var next := Handle(ds, e);
    var d := ds[f.device];
    HandledKeeps(d, e);
    var b := next[f.device].bookings[n];
    var k :| 0 <= k < |d.bookings| && d.bookings[k] == b;
    if f.kind == Stop {
      assert StopOf(ds, f, k);
    } else if Startable(b, d.current, now) {
      assert StartOf(ds, f, k, now);
    } else {
      var m := FindUntil(d.bookings, e.ts);
      assert !OverlapPair(d, d.bookings[m], b, now);
    }
  }

  lemma NextNotEarlier(ds: seq<Slot>, now: Time)
    requires !Quiet(ds, now) && !AnyOverlap(ds, now)
    ensures Next(Handle(ds, Next(ds, now)), now).ts >= Next(ds, now).ts
  {
    var next := Handle(ds, Next(ds, now));
    NextMeans(next, now);
    var f := Next(next, now);
    if f != IDLE {
      var n: nat :| StopOf(next, f, n) || StartOf(next, f, n, now);
      EnabledNotEarlier(ds, now, f, n);
    }
  }

  lemma {:induction false} ChronologicalWithoutOverlap(ds: seq<Slot>, now: Time)
    requires !AnyOverlap(ds, now)
    ensures Chronological(Dispatched(ds, now))
    decreases Measure(ds)
  {
    if !Quiet(ds, now) {
      DueEvent(ds, now);
      var next := Handle(ds, Next(ds, now));
      NextNotEarlier(ds, now);
      OverlapNotCreated(ds, Next(ds, now), now);
      ChronologicalWithoutOverlap(next, now);
      var rest := Dispatched(next, now);
      assert rest != [] ==> rest[0] == Next(next, now);
    }
  }

  /** An overlap whose expired half was just stopped makes the running half start too late. */
  lemma StartComesLate(ds: seq<Slot>, now: Time, i: nat, r: Booking, ts: Time)
    requires i < |ds| && ds[i].current == -1 && r in ds[i].bookings && Running(r, now) && r.from < ts
    ensures !Quiet(ds, now) && Next(ds, now).ts < ts
  {
    NextMeans(ds, now);
    var k :| 0 <= k < |ds[i].bookings| && ds[i].bookings[k] == r;
    assert StartOf(ds, Event(r.from, i, Start), k, now);
  }

  /** Handling one event keeps an overlap, or makes the next event an earlier one. */
  lemma OverlapPersists(ds: seq<Slot>, now: Time)
    requires !Quiet(ds, now) && AnyOverlap(ds, now)
    ensures var e := Next(ds, now);
            var next := Handle(ds, e);
            AnyOverlap(next, now) || (!Quiet(next, now) && Next(next, now).ts < e.ts)
  {
    DueEvent(ds, now);
    var e := Next(ds, now);
    var next := Handle(ds, e);
    var i :| 0 <= i < |ds| && Overlaps(ds[i], now);
    var x, r :| OverlapPair(ds[i], x, r, now);
    if i == e.device && e.kind == Stop {
      RemoveAtKeeps(ds[i].bookings, FindUntil(ds[i].bookings, e.ts));
    }
    assert r in next[i].bookings;
    if x in next[i].bookings {
      assert OverlapPair(next[i], x, r, now);
      assert Overlaps(next[i], now);
    } else {
      StartComesLate(next, now, i, r, e.ts);
    }
  }

  lemma QuietHasNoOverlap(ds: seq<Slot>, now: Time)
    requires Quiet(ds, now)
    ensures !AnyOverlap(ds, now)
  {
    QuietIsSettled(ds, now);
    forall i | 0 <= i < |ds| ensures !Overlaps(ds[i], now) {
      assert Settle(ds[i], now) == ds[i];
      LiveAll(ds[i].bookings, now);
      assert forall x :: x in ds[i].bookings ==> !Due(x.until, now);
    }
  }

  lemma DisorderedTail(e: Event, es: seq<Event>)
    ensures !Chronological(es) ==> !Chronological([e] + es)
    ensures es != [] && es[0].ts < e.ts ==> !Chronological([e] + es)
  {
    var all := [e] + es;
    if !Chronological(es) {
      var a, b :| 0 <= a < b < |es| && es[a].ts > es[b].ts;
      assert all[a + 1].ts > all[b + 1].ts;
    } else if es != [] && es[0].ts < e.ts {
      assert all[0].ts > all[1].ts;
    }
  }

  lemma {:induction false} OverlapBreaksOrder(ds: seq<Slot>, now: Time)
    requires AnyOverlap(ds, now)
    ensures !Chronological(Dispatched(ds, now))
    decreases Measure(ds)
  {
    if Quiet(ds, now) {
      QuietHasNoOverlap(ds, now);
    } else {
      DueEvent(ds, now);
      OverlapPersists(ds, now);
      var next := Handle(ds, Next(ds, now));
      DisorderedTail(Next(ds, now), Dispatched(next, now));
      if AnyOverlap(next, now) {
        OverlapBreaksOrder(next, now);
      }
    }
  }

  /** Events are dispatched in order of time exactly when no expired booking overlaps a running one. */
  lemma ChronologicalIff(ds: seq<Slot>, now: Time)
    ensures Chronological(Dispatched(ds, now)) <==> !AnyOverlap(ds, now)
  {
    if AnyOverlap(ds, now) {
      OverlapBreaksOrder(ds, now);
    } else {
      ChronologicalWithoutOverlap(ds, now);
    }
  }

  predicate DisjointIntervals(bs: seq<Booking>) {
    && (forall i :: 0 <= i < |bs| ==> bs[i].from <= bs[i].until)
    && (forall i, j :: 0 <= i < |bs| && 0 <= j < |bs| && i != j ==>
          bs[i].until <= bs[j].from || bs[j].until <= bs[i].from)
  }

  /** In particular for pairwise disjoint rental intervals, which may be empty. */
  lemma DisjointIsChronological(ds: seq<Slot>, now: Time)
    requires forall i :: 0 <= i < |ds| ==> DisjointIntervals(ds[i].bookings)
    ensures Chronological(Dispatched(ds, now))
  {
    forall i | 0 <= i < |ds| ensures !Overlaps(ds[i], now) {
    }
    ChronologicalIff(ds, now);
  }

  // ----- one STOP for every booking that ended, START only for active bookings -------

  function StopTimes(es: seq<Event>, device: int): multiset<Time> {
    if es == [] then multiset{}
    else
      var first := if es[0].kind == Stop && es[0].device == device then multiset{es[0].ts} else multiset{};
      first + StopTimes(es[1..], device)
  }

  function ExpiredTimes(bs: seq<Booking>, now: Time): multiset<Time> {
    if bs == [] then multiset{}
    else
      var b := bs[|bs| - 1];
      ExpiredTimes(bs[..|bs| - 1], now) + if Due(b.until, now) then multiset{b.until} else multiset{}
  }

  lemma {:induction false} ExpiredRemove(bs: seq<Booking>, n: nat, now: Time)
    requires n < |bs| && Due(bs[n].until, now)
    ensures ExpiredTimes(bs, now) == ExpiredTimes(RemoveAt(bs, n), now) + multiset{bs[n].until}
  {
    var p := bs[..|bs| - 1];
    if n == |bs| - 1 {
      assert RemoveAt(bs, n) == p;
    } else {
      ExpiredRemove(p, n, now);
      RemoveAtPrefix(bs, n);
      var r := RemoveAt(bs, n);
      assert r[..|r| - 1] == RemoveAt(p, n);
    }
  }

  lemma {:induction false} NothingExpired(bs: seq<Booking>, now: Time)
    requires forall i :: 0 <= i < |bs| ==> !Due(bs[i].until, now)
    ensures ExpiredTimes(bs, now) == multiset{}
  {
    if bs == [] {
    } else {
      NothingExpired(bs[..|bs| - 1], now);
    }
  }

  /** Each booking that ended produces exactly one STOP on its own device. */
  lemma {:induction false} OneStopPerExpiredBooking(ds: seq<Slot>, now: Time, i: nat)
    requires i < |ds|
    ensures StopTimes(Dispatched(ds, now), i) == ExpiredTimes(ds[i].bookings, now)
    decreases Measure(ds)
  {
    if Quiet(ds, now) {
      QuietIsSettled(ds, now);
      LiveAll(ds[i].bookings, now);
      assert Settle(ds[i], now) == ds[i];
      NothingExpired(ds[i].bookings, now);
    } else {
      DueEvent(ds, now);
      var e := Next(ds, now);
      var next := Handle(ds, e);
      OneStopPerExpiredBooking(next, now, i);
      assert Dispatched(ds, now)[1..] == Dispatched(next, now);
      if e.kind == Stop && e.device == i {
        ExpiredRemove(ds[i].bookings, FindUntil(ds[i].bookings, e.ts), now);
      }
    }
  }

  predicate StartsActive(ds: seq<Slot>, e: Event, b: Booking, now: Time) {
    0 <= e.device < |ds| && b in ds[e.device].bookings && b.from == e.ts && Active(b, now)
  }

  lemma NextStartIsActive(ds: seq<Slot>, now: Time)
    requires !Quiet(ds, now) && Next(ds, now).kind == Start
    ensures exists b :: StartsActive(ds, Next(ds, now), b, now)
  {
    NextMeans(ds, now);
    DueEvent(ds, now);
    var e := Next(ds, now);
    var n: nat :| StopOf(ds, e, n) || StartOf(ds, e, n, now);
    assert StartsActive(ds, e, ds[e.device].bookings[n], now);
  }

  /** A device that may start something: it was idle, or loses a booking in this check. */
  predicate MayStart(ds: seq<Slot>, device: int, now: Time) {
    0 <= device < |ds| && (ds[device].current == -1 || HasExpired(ds[device], now))
  }

  lemma NextMayStart(ds: seq<Slot>, now: Time, device: int)
    requires !Quiet(ds, now)
    ensures MayStart(Handle(ds, Next(ds, now)), device, now) ==> MayStart(ds, device, now)
    ensures MayStart(ds, Next(ds, now).device, now)
  {
    DueEvent(ds, now);
    var e := Next(ds, now);
    var d := ds[e.device];
    if e.kind == Stop {
      assert d.bookings[FindUntil(d.bookings, e.ts)].until <= now;
      assert HasExpired(d, now);
    }
  }

  /**
   * A START is only ever fired for a booking that is active now, on a device that was idle or had an expired booking;
   * a booking that came and went in between gets a STOP alone.
   */
  lemma {:induction false} StartsAreActive(ds: seq<Slot>, now: Time, e: Event)
    requires e in Dispatched(ds, now) && e.kind == Start
    ensures MayStart(ds, e.device, now) && exists b :: StartsActive(ds, e, b, now)
    decreases Measure(ds)
  {
    var first := Next(ds, now);
    NextMayStart(ds, now, e.device);
    if e == first {
      NextStartIsActive(ds, now);
    } else {
      DueEvent(ds, now);
      var next := Handle(ds, first);
      assert e in Dispatched(next, now);
      StartsAreActive(next, now, e);
      var b :| StartsActive(next, e, b, now);
      HandledKeeps(ds[first.device], first);
      assert StartsActive(ds, e, b, now);
    }
  }

  // ----- STOPs never come late --------------------------------------------------------

  lemma StopWasThere(ds: seq<Slot>, first: Event, e: Event, n: nat)
    requires 0 <= first.device < |ds| && StopOf(Handle(ds, first), e, n)
    ensures exists k: nat :: StopOf(ds, e, k)
  {
    HandledKeeps(ds[first.device], first);
    var b := Handle(ds, first)[e.device].bookings[n];
    var k :| 0 <= k < |ds[e.device].bookings| && ds[e.device].bookings[k] == b;
    assert StopOf(ds, e, k);
  }

  /** Every STOP of a check is the end of a booking that was there before it. */
  lemma {:induction false} StopsWereThere(ds: seq<Slot>, now: Time, e: Event)
    requires e in Dispatched(ds, now) && e.kind == Stop
    ensures exists n: nat :: StopOf(ds, e, n)
    decreases Measure(ds)
  {
    hide Handle, Candidates, Earliest;
    var first := Next(ds, now);
    if e == first {
      NextMeans(ds, now);
      var n: nat :| StopOf(ds, e, n) || StartOf(ds, e, n, now);
    } else {
      DueEvent(ds, now);
      var next := Handle(ds, first);
      assert e in Dispatched(next, now);
      StopsWereThere(next, now, e);
      var n: nat :| StopOf(next, e, n);
      StopWasThere(ds, first, e, n);
    }
  }

  /** No event handed out before a STOP, for any device, is later than it, also when bookings overlap. */
  predicate StopsInOrder(es: seq<Event>) {
    forall i, j :: 0 <= i < j < |es| && es[j].kind == Stop ==> es[i].ts <= es[j].ts
  }

  lemma {:induction false} StopsComeInOrder(ds: seq<Slot>, now: Time)
    ensures StopsInOrder(Dispatched(ds, now))
    decreases Measure(ds)
  {
    if Quiet(ds, now) {
    } else {
      DueEvent(ds, now);
      NextMeans(ds, now);
      var e := Next(ds, now);
      var rest := Dispatched(Handle(ds, e), now);
      StopsComeInOrder(Handle(ds, e), now);
      forall j | 0 <= j < |rest| && rest[j].kind == Stop ensures e.ts <= rest[j].ts {
        assert rest[j] in Dispatched(ds, now);
        StopsWereThere(ds, now, rest[j]);
      }
      assert Dispatched(ds, now) == [e] + rest;
    }
  }
}
