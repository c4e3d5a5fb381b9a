/** The USN booking scheduler on values: candidate events, the event loop, and the settled state it reaches. */
module UsnSchedule {
  import opened UsnBookings

  /** One device: its booking list and the index of the running booking (-1: idle). */
  datatype Slot = Slot(bookings: seq<Booking>, current: int)

  datatype Kind = NoEvent | Start | Stop
  datatype Event = Event(ts: Time, device: int, kind: Kind)

  const IDLE: Event := Event(MAX_TS, -1, NoEvent)

  /** The all-ones timestamp never beats the initial event, so it is never due. */
  predicate Due(ts: Time, now: Time) { ts <= now && ts != MAX_TS }

  // ----- candidate events, in scan order -------------------------------------

  predicate Startable(b: Booking, current: int, now: Time) {
    b.from > now || (current == -1 && b.until > now)
  }

  function BookingEvents(b: Booking, device: nat, current: int, now: Time): seq<Event> {
    [Event(b.until, device, Stop)] + if Startable(b, current, now) then [Event(b.from, device, Start)] else []
  }

  /** Candidates of the first `n` bookings of a device. */
  function DeviceEvents(d: Slot, n: nat, device: nat, now: Time): seq<Event>
    requires n <= |d.bookings|
  {
    if n == 0 then []
    else DeviceEvents(d, n - 1, device, now) + BookingEvents(d.bookings[n - 1], device, d.current, now)
  }

  /** Candidates of the first `m` devices. */
  function Candidates(ds: seq<Slot>, m: nat, now: Time): seq<Event>
    requires m <= |ds|
  {
    if m == 0 then []
    else Candidates(ds, m - 1, now) + DeviceEvents(ds[m - 1], |ds[m - 1].bookings|, m - 1, now)
  }

  /** The first candidate with the smallest timestamp below the maximum. */
  function Earliest(cs: seq<Event>): Event {
    if cs == [] then IDLE
    else
      var e, c := Earliest(cs[..|cs| - 1]), cs[|cs| - 1];
      if c.ts < e.ts then c else e
  }

  predicate FirstMinimum(cs: seq<Event>, k: int) {
    0 <= k < |cs| && cs[k].ts < MAX_TS &&
    forall j :: 0 <= j < |cs| ==> cs[k].ts <= cs[j].ts && (j < k ==> cs[k].ts < cs[j].ts)
  }

  lemma {:induction false} EarliestBound(cs: seq<Event>)
    ensures forall j :: 0 <= j < |cs| ==> Earliest(cs).ts <= cs[j].ts
    ensures Earliest(cs).ts == MAX_TS <==> Earliest(cs) == IDLE
  {
    if cs == [] {
    } else {
      EarliestBound(cs[..|cs| - 1]);
      assert forall j :: 0 <= j < |cs| - 1 ==> cs[..|cs| - 1][j] == cs[j];
    }
  }

  /** Ties go to the candidate scanned first. */
  lemma {:induction false} EarliestIsFirstMinimum(cs: seq<Event>)
    requires Earliest(cs) != IDLE
    ensures exists k :: FirstMinimum(cs, k) && cs[k] == Earliest(cs)
  {
    var p := cs[..|cs| - 1];
    EarliestBound(p);
    EarliestBound(cs);
    if Earliest(cs) == Earliest(p) {
      EarliestIsFirstMinimum(p);
      var k :| FirstMinimum(p, k) && p[k] == Earliest(p);
      assert cs[k] == p[k];
      assert forall j :: 0 <= j < k ==> cs[j] == p[j];
      assert FirstMinimum(cs, k);
    } else {
      assert forall j :: 0 <= j < |cs| - 1 ==> cs[j] == p[j];
      assert FirstMinimum(cs, |cs| - 1);
    }
  }

  lemma {:induction false} EarliestAppend(cs: seq<Event>, xs: seq<Event>)
    ensures |xs| == 1 ==> Earliest(cs + xs) == if xs[0].ts < Earliest(cs).ts then xs[0] else Earliest(cs)
    ensures |xs| == 2 ==> Earliest(cs + xs) == Earliest((cs + [xs[0]]) + [xs[1]])
  {
    if |xs| == 1 {
      assert (cs + xs)[..|cs + xs| - 1] == cs;
    } else if |xs| == 2 {
      assert cs + xs == (cs + [xs[0]]) + [xs[1]];
    }
  }

  /** usn_get_next_event on a device list. */
  function Next(ds: seq<Slot>, now: Time): Event {
    Earliest(Candidates(ds, |ds|, now))
  }

  /** The same candidates as a relation, without the scan order. */
  predicate StopOf(ds: seq<Slot>, e: Event, n: nat) {
    0 <= e.device < |ds| && n < |ds[e.device].bookings| &&
    e == Event(ds[e.device].bookings[n].until, e.device, Stop)
  }

  predicate StartOf(ds: seq<Slot>, e: Event, n: nat, now: Time) {
    0 <= e.device < |ds| && n < |ds[e.device].bookings| &&
    (ds[e.device].bookings[n].from > now || (ds[e.device].current == -1 && ds[e.device].bookings[n].until > now)) &&
    e == Event(ds[e.device].bookings[n].from, e.device, Start)
  }

  lemma {:induction false} DeviceEventsAre(d: Slot, n: nat, device: nat, now: Time, e: Event)
    requires n <= |d.bookings|
    ensures e in DeviceEvents(d, n, device, now) <==>
            exists k :: 0 <= k < n && e in BookingEvents(d.bookings[k], device, d.current, now)
  {
    if n == 0 {
    } else {
      DeviceEventsAre(d, n - 1, device, now, e);
    }
  }

  lemma DeviceCandidatesAre(ds: seq<Slot>, m: nat, now: Time, e: Event)
    requires m < |ds|
    ensures e in DeviceEvents(ds[m], |ds[m].bookings|, m, now) <==>
            e.device == m && exists n :: StopOf(ds, e, n) || StartOf(ds, e, n, now)
  {
    var d := ds[m];
    DeviceEventsAre(d, |d.bookings|, m, now, e);
    if e in DeviceEvents(d, |d.bookings|, m, now) {
      var k :| 0 <= k < |d.bookings| && e in BookingEvents(d.bookings[k], m, d.current, now);
      assert StopOf(ds, e, k) || StartOf(ds, e, k, now);
    }
    if n: nat :| e.device == m && (StopOf(ds, e, n) || StartOf(ds, e, n, now)) {
      assert e in BookingEvents(d.bookings[n], m, d.current, now);
    }
  }

  lemma {:induction false} CandidatesAre(ds: seq<Slot>, m: nat, now: Time, e: Event)
    requires m <= |ds|
    ensures e in Candidates(ds, m, now) <==>
            0 <= e.device < m && exists n :: StopOf(ds, e, n) || StartOf(ds, e, n, now)
  {
    hide DeviceEvents, StopOf, StartOf;
    if m == 0 {
    } else {
      CandidatesAre(ds, m - 1, now, e);
      DeviceCandidatesAre(ds, m - 1, now, e);
    }
  }

  /** What the next event means: it is a candidate, and no candidate is earlier. */
  lemma NextMeans(ds: seq<Slot>, now: Time)
    ensures var e := Next(ds, now);
            && (forall x: Event, n: nat :: StopOf(ds, x, n) || StartOf(ds, x, n, now) ==> e.ts <= x.ts)
            && (e != IDLE ==> e.ts < MAX_TS && exists n: nat :: StopOf(ds, e, n) || StartOf(ds, e, n, now))
  {
    var cs := Candidates(ds, |ds|, now);
    var e := Next(ds, now);
    EarliestBound(cs);
    if e != IDLE {
      EarliestIsFirstMinimum(cs);
      assert e in cs;
      CandidatesAre(ds, |ds|, now, e);
      var n: nat :| StopOf(ds, e, n) || StartOf(ds, e, n, now);
    }
    forall x: Event, n: nat | StopOf(ds, x, n) || StartOf(ds, x, n, now)
      ensures e.ts <= x.ts
    {
      CandidatesAre(ds, |ds|, now, x);
      assert x in cs;
    }
  }

  // ----- handling one event ----------------------------------------------------

  function FindUntil(bs: seq<Booking>, ts: Time): (n: nat)
    ensures n <= |bs|
    ensures n < |bs| ==> bs[n].until == ts
    ensures forall i :: 0 <= i < n ==> bs[i].until != ts
  {
    if bs == [] then 0
    else
      var last := |bs| - 1;
      var n := FindUntil(bs[..last], ts);
      if n < last || bs[last].until == ts then n else n + 1
  }

  function RemoveAt(bs: seq<Booking>, n: nat): seq<Booking>
    requires n < |bs|
  {
    bs[..n] + bs[n + 1..]
  }

  lemma RemoveAtPrefix(bs: seq<Booking>, n: nat)
    requires n < |bs| - 1
    ensures RemoveAt(bs, n) == RemoveAt(bs[..|bs| - 1], n) + [bs[|bs| - 1]]
  {
  }

  /** usn_event_handled on the event's device. */
  function Handled(d: Slot, e: Event): Slot {
    match e.kind
    case NoEvent => d
    case Start =>
      var n := Find(d.bookings, e.ts);
      if n < |d.bookings| then d.(current := n) else d
    case Stop =>
      var n := FindUntil(d.bookings, e.ts);
      if n < |d.bookings| then Slot(RemoveAt(d.bookings, n), -1) else d
  }

  function Handle(ds: seq<Slot>, e: Event): (r: seq<Slot>)
    ensures |r| == |ds|
  {
    if 0 <= e.device < |ds| then ds[e.device := Handled(ds[e.device], e)] else ds
  }

  // ----- termination measure --------------------------------------------------

  function Weight(d: Slot): nat {
    2 * |d.bookings| + if d.current == -1 then 1 else 0
  }

  /** 2 * (total bookings) + (number of idle devices). */
  function Measure(ds: seq<Slot>): nat {
    if ds == [] then 0 else Measure(ds[..|ds| - 1]) + Weight(ds[|ds| - 1])
  }

  lemma {:induction false} MeasureUpdate(ds: seq<Slot>, i: nat, d: Slot)
    requires i < |ds|
    ensures Measure(ds[i := d]) == Measure(ds) - Weight(ds[i]) + Weight(d)
  {
    var p := ds[..|ds| - 1];
    if i == |ds| - 1 {
      assert ds[i := d][..|ds| - 1] == p;
    } else {
      MeasureUpdate(p, i, d);
      assert ds[i := d][..|ds| - 1] == p[i := d];
    }
  }

  /** A due START finds its device idle, a due STOP finds the booking it ends; either way the measure drops. */
  lemma DueEvent(ds: seq<Slot>, now: Time)
    requires Next(ds, now) != IDLE && Due(Next(ds, now).ts, now)
    ensures var e := Next(ds, now);
            && 0 <= e.device < |ds|
            && var d := ds[e.device];
               && (e.kind == Start ==> d.current == -1 && Find(d.bookings, e.ts) < |d.bookings|)
               && (e.kind == Stop ==> FindUntil(d.bookings, e.ts) < |d.bookings|)
               && e.kind != NoEvent
               && Weight(Handled(d, e)) < Weight(d)
               && Measure(Handle(ds, e)) < Measure(ds)
  {
    NextMeans(ds, now);
    var e := Next(ds, now);
    var n: nat :| StopOf(ds, e, n) || StartOf(ds, e, n, now);
    MeasureUpdate(ds, e.device, Handled(ds[e.device], e));
  }

  // ----- the loop of check_actions ---------------------------------------------

  predicate Quiet(ds: seq<Slot>, now: Time) {
    Next(ds, now) == IDLE || !Due(Next(ds, now).ts, now)
  }

  /** The events handed to the booking handler, in order. */
  function Dispatched(ds: seq<Slot>, now: Time): seq<Event>
    decreases Measure(ds)
  {
    if Quiet(ds, now) then []
    else
      DueEvent(ds, now);
      [Next(ds, now)] + Dispatched(Handle(ds, Next(ds, now)), now)
  }

  function Settled(ds: seq<Slot>, now: Time): seq<Slot>
    decreases Measure(ds)
  {
    if Quiet(ds, now) then ds
    else
      DueEvent(ds, now);
      Settled(Handle(ds, Next(ds, now)), now)
  }

  /** The loop makes at most Measure steps, so at most that many handler calls. */
  lemma {:induction false} HandlerCallsBounded(ds: seq<Slot>, now: Time)
    ensures |Dispatched(ds, now)| <= Measure(ds) - Measure(Settled(ds, now))
    decreases Measure(ds)
  {
    if !Quiet(ds, now) {
      DueEvent(ds, now);
      HandlerCallsBounded(Handle(ds, Next(ds, now)), now);
    }
  }
}
