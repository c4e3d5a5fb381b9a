/** usn_device_t and usn_device_conf_t: the mutable booking scheduler. */
module UsnApi {
  import opened Wrappers
  import opened UsnBookings
  import opened UsnSchedule
  import opened UsnSettle
  import opened UsnDispatch
  import opened UsnLogs
  import opened UsnUpdate
  import opened UsnRuns

  /** An event names a booking by its start or by its end. */
  predicate Hits(b: Booking, e: Event) {
    (e.kind == Start && b.from == e.ts) || (e.kind == Stop && b.until == e.ts)
  }

  class Device {
    const id: seq<byte>
    var bookings: seq<Booking>
    var current: int

    constructor (id: seq<byte>)
      ensures this.id == id && Value() == Slot([], -1)
    {
      this.id, bookings, current := id, [], -1;
    }

    function Value(): Slot
      reads this
    {
      Slot(bookings, current)
    }

    /** usn_add_booking: 1 if a booking was appended, 0 if an existing one was renewed. */
    method AddBooking(l: Log) returns (added: bool)
      modifies this`bookings
      ensures bookings == Add(old(bookings), l)
      ensures added <==> Find(old(bookings), l.from) == |old(bookings)|
    {
      for i := 0 to |bookings|
        invariant bookings == old(bookings)
        invariant forall k :: 0 <= k < i ==> bookings[k].from != l.from
      {
        if bookings[i].from == l.from {
          FindIs(bookings, l.from, i);
          bookings := bookings[i := bookings[i].(until := l.until)];
          if l.props.Some? {
            bookings := bookings[i := bookings[i].(props := l.props.value)];
          }
          return false;
        }
      }
      FindIs(bookings, l.from, |bookings|);
      var props := if l.props.Some? then l.props.value else NO_PROPS;
      bookings := bookings + [Booking(l.txHash, l.from, l.until, l.controller, props)];
      return true;
    }

    /** usn_event_handled: 0 when the event found its booking, -1 otherwise. */
    method EventHandled(e: Event) returns (r: int)
      modifies this
      ensures Value() == Handled(old(Value()), e)
      ensures r == 0 || (r == -1 && Value() == old(Value()))
      ensures r == 0 <==> exists n :: 0 <= n < |old(bookings)| && Hits(old(bookings)[n], e)
    {
      ghost var bs := bookings;
      for n := 0 to |bookings|
        invariant bookings == bs && current == old(current)
        invariant e.kind == Start ==> forall k :: 0 <= k < n ==> bookings[k].from != e.ts
        invariant e.kind == Stop ==> forall k :: 0 <= k < n ==> bookings[k].until != e.ts
      {
        var b := bookings[n];
        if e.kind == Start && b.from == e.ts {
          FindIs(bookings, e.ts, n);
          current := n;
          return 0;
        }
        if e.kind == Stop && b.until == e.ts {
          assert FindUntil(bs, e.ts) == n;
          if n + 1 < |bookings| {
            bookings := bookings[..n] + bookings[n + 1..];
          } else {
            bookings := bookings[..n];
          }
          current := -1;
          assert bookings == RemoveAt(bs, n);
          return 0;
        }
      }
      return -1;
    }

    /** The part of usn_remove_old_bookings for one device. */
    method RemoveOldBookings(now: Time)
      modifies this`bookings
      ensures bookings == Unexpired(old(bookings), now)
    {
      var n := 0;
      ghost var k := 0;
      while n < |bookings|
        invariant n <= |bookings| && k + |bookings| - n == |old(bookings)|
        invariant bookings[n..] == old(bookings)[k..]
        invariant bookings[..n] == Unexpired(old(bookings)[..k], now)
      {
        assert bookings[n] == bookings[n..][0] == old(bookings)[k];
        assert old(bookings)[..k + 1][..k] == old(bookings)[..k];
        assert old(bookings)[k + 1..] == old(bookings)[k..][1..];
        ghost var rest := bookings[n..][1..];
        if bookings[n].until <= now {
          bookings := bookings[..n] + bookings[n + 1..];
        } else {
          n := n + 1;
        }
        assert bookings[n..] == rest;
        k := k + 1;
      }
      assert old(bookings)[..k] == old(bookings);
    }

    /** The loop over getState calls: None is a failed call; a state without a start is skipped. */
    method Fetch(states: seq<Option<Booking>>) returns (ok: bool)
      modifies this`bookings
      ensures (bookings, ok) == Fetched(states)
    {
      bookings := [];
      for n := 0 to |states|
        invariant (bookings, true) == Fetched(states[..n])
      {
        assert states[..n + 1][..n] == states[..n];
        if states[n].None? {
          FetchStops(states, n);
          return false;
        }
        if states[n].value.from != 0 {
          bookings := bookings + [states[n].value];
        }
      }
      assert states[..|states|] == states;
      return true;
    }
  }

  ghost function Values(devices: seq<Device>): (s: seq<Slot>)
    reads devices
    ensures |s| == |devices|
    ensures forall i :: 0 <= i < |s| ==> s[i] == devices[i].Value()
  {
    seq(|devices|, i requires 0 <= i < |devices| reads devices => devices[i].Value())
  }

  function IdsOf(devices: seq<Device>): (s: seq<seq<byte>>)
    ensures |s| == |devices|
    ensures forall i :: 0 <= i < |s| ==> s[i] == devices[i].id
  {
    seq(|devices|, i requires 0 <= i < |devices| => devices[i].id)
  }

  /** One booking of the scan: the STOP candidate first, then the START candidate, each only if strictly earlier. */
  lemma ScanBooking(before: seq<Event>, d: Slot, n: nat, device: nat, now: Time)
    requires n < |d.bookings|
    ensures var b := d.bookings[n];
            var e := Earliest(before + DeviceEvents(d, n, device, now));
            var stopped := if b.until < e.ts then Event(b.until, device, Stop) else e;
            Earliest(before + DeviceEvents(d, n + 1, device, now)) ==
            if Startable(b, d.current, now) && b.from < stopped.ts then Event(b.from, device, Start) else stopped
  {
    var seen, more := before + DeviceEvents(d, n, device, now), BookingEvents(d.bookings[n], device, d.current, now);
    assert before + DeviceEvents(d, n + 1, device, now) == seen + more;
    EarliestAppend(seen, more);
    EarliestAppend(seen, [more[0]]);
    if |more| == 2 { EarliestAppend(seen + [more[0]], [more[1]]); }
  }

  lemma Snoc<T>(a: seq<T>, b: seq<T>, x: T)
    ensures a + b + [x] == a + (b + [x])
  {
  }

  lemma IdleOrDevice(ds: seq<Slot>, now: Time)
    ensures var e := Next(ds, now);
            (e == IDLE <==> e.kind == NoEvent) && (e == IDLE <==> e.device == -1) && (e != IDLE ==> e.ts != MAX_TS)
  {
    NextMeans(ds, now);
  }

  class Config {
    var devices: seq<Device>
    var now: Time
    var lastCheckedBlock: nat
    const hasHandler: bool
    /** Every event passed to booking_handler so far. */
    var calls: seq<Event>

    constructor (hasHandler: bool)
      ensures Valid() && View() == START && Sound(View()) && Unused(View())
      ensures devices == [] && calls == [] && this.hasHandler == hasHandler
    {
      devices, now, lastCheckedBlock, calls := [], 0, 0, [];
      this.hasHandler := hasHandler;
      new;
      StartIsSound();
    }

    ghost predicate Valid()
      reads this`devices
    {
      forall i, j :: 0 <= i < j < |devices| ==> devices[i] != devices[j]
    }

    ghost function Slots(): seq<Slot>
      reads this`devices, devices
    {
      Values(devices)
    }

    function Ids(): seq<seq<byte>>
      reads this`devices
    {
      IdsOf(devices)
    }

    /** The configuration as a value. */
    ghost function View(): State
      reads this, devices
    {
      State(Ids(), Slots(), lastCheckedBlock, now)
    }

    /** usn_register_device; None is a url without '@', refused with -1. */
    method RegisterDevice(id: Option<seq<byte>>) returns (r: int)
      requires Valid()
      modifies this`devices
      ensures Valid()
      ensures id.None? ==> r == -1 && devices == old(devices)
      ensures id.Some? ==> r == 0 && |devices| == |old(devices)| + 1 && devices[..|old(devices)|] == old(devices)
                           && fresh(devices[|old(devices)|]) && devices[|old(devices)|].id == id.value
      ensures id.Some? ==> View() == Step(old(View()), Register(id.value))
    {
      if id.None? { return -1; }
      var d := new Device(id.value);
      devices := devices + [d];
      return 0;
    }

    /** The caller sets the clock before each usn_update_state. */
    method SetNow(t: Time)
      requires Valid() && now <= t
      modifies this`now
      ensures t < MAX_TS ==> View() == Step(old(View()), Clock(t))
      ensures now == t && Slots() == old(Slots())
    {
      now := t;
    }

    /** usn_get_next_event */
    method NextEvent() returns (e: Event)
      requires Valid()
      ensures e == Next(Slots(), now)
    {
      hide BookingEvents;
      e := Event(MAX_TS, -1, NoEvent);
      ghost var ds := Slots();
      for i := 0 to |devices|
        invariant e == Earliest(Candidates(ds, i, now))
      {
        var device := devices[i];
        ghost var d := ds[i];
        ghost var before := Candidates(ds, i, now);
        assert before + DeviceEvents(d, 0, i, now) == before;
        for n := 0 to |device.bookings|
          invariant device == devices[i]
          invariant e == Earliest(before + DeviceEvents(d, n, i, now))
        {
          var b := device.bookings[n];
          ScanBooking(before, d, n, i, now);
          if b.until < e.ts {
            e := Event(b.until, i, Stop);
          }
          if (b.from > now || (device.current == -1 && b.until > now)) && b.from < e.ts {
            e := Event(b.from, i, Start);
          }
        }
      }
    }

    /** The handler call and the bookkeeping for one due event. */
    method Dispatch(e: Event)
      requires Valid() && 0 <= e.device < |devices|
      modifies this`calls, devices
      ensures Slots() == Handle(old(Slots()), e)
      ensures calls == if hasHandler then old(calls) + [e] else old(calls)
    {
      if hasHandler {
        calls := calls + [e];
      }
      var r := devices[e.device].EventHandled(e);
    }

    /** check_actions: settles every device, reports each event once, and returns the time of the next one. */
    method CheckActions() returns (ts: Time)
      requires Valid()
      modifies this`calls, devices
      ensures Valid()
      ensures Slots() == SettleAll(old(Slots()), now)
      ensures calls == if hasHandler then old(calls) + Dispatched(old(Slots()), now) else old(calls)
      ensures ts == Next(Slots(), now).ts && Quiet(Slots(), now)
      ensures ts >= now
    {
      hide SettleAll, Dispatched, Candidates, Earliest, Handle, Measure;
      ghost var start := Slots();
      ghost var ds, handled := start, [];
      while true
        invariant Slots() == ds && Trail(start, now, handled) == Some(ds)
        invariant calls == if hasHandler then old(calls) + handled else old(calls)
        decreases Measure(ds)
      {
        var e := NextEvent();
        IdleOrDevice(ds, now);
        if e.kind != NoEvent && e.ts <= now && e.device != -1 {
          TrailStep(start, now, ds, handled);
          Dispatch(e);
          Snoc(old(calls), handled, e);
          ds, handled := Handle(ds, e), handled + [e];
        } else {
          TrailEnd(start, now, ds, handled);
          return e.ts;
        }
      }
    }

    /** usn_remove_old_bookings */
    method RemoveOldBookings()
      requires Valid()
      modifies devices
      ensures forall i :: 0 <= i < |devices| ==>
                && devices[i].bookings == Unexpired(old(devices[i].bookings), now)
                && devices[i].current == old(devices[i].current)
    {
      for i := 0 to |devices|
        invariant forall k :: 0 <= k < i ==>
                    && devices[k].bookings == Unexpired(old(devices[k].bookings), now)
                    && devices[k].current == old(devices[k].current)
        invariant forall k :: i <= k < |devices| ==> devices[k].Value() == old(devices[k].Value())
      {
        devices[i].RemoveOldBookings(now);
      }
    }

    /** find_device_by_id, or |devices| */
    method FindDevice(id: seq<byte>) returns (n: nat)
      ensures n == FindId(Ids(), id)
    {
      for i := 0 to |devices|
        invariant forall k :: 0 <= k < i ==> devices[k].id != id
      {
        if devices[i].id == id { return i; }
      }
      return |devices|;
    }

    method ApplyLogs(es: seq<Entry>)
      requires Valid()
      modifies devices
      ensures Slots() == ApplyAll(Ids(), old(Slots()), es)
    {
      ghost var ds := Slots();
      for n := 0 to |es|
        invariant Slots() == ApplyAll(Ids(), ds, es[..n])
      {
        assert es[..n + 1][..n] == es[..n];
        ghost var before := Slots();
        var i := FindDevice(es[n].id);
        if i < |devices| && es[n].log.Some? {
          var added := devices[i].AddBooking(es[n].log.value);
        }
        assert Slots() == Apply(Ids(), before, es[n]);
      }
      assert es[..|es|] == es;
    }

    method FetchDevices(states: seq<Option<seq<Option<Booking>>>>) returns (ok: bool)
      requires Valid() && |states| == |devices|
      modifies devices
      ensures (Slots(), ok) == FetchAll(old(Slots()), states, |states|)
    {
      ghost var ds := Slots();
      for i := 0 to |devices|
        invariant (Slots(), true) == FetchAll(ds, states, i)
      {
        ghost var before := Slots();
        var good := states[i].Some?;
        if good {
          good := devices[i].Fetch(states[i].value);
        }
        assert Slots() == before[i := FetchSlot(before[i], states[i]).0];
        if !good {
          assert FetchAll(ds, states, i + 1) == (Slots(), false);
          FetchAllStops(ds, states, i + 1, |states|);
          return false;
        }
      }
      return true;
    }

    /** usn_update_bookings: the first time all states are read, afterwards the logs since the last block. */
    method UpdateBookings(chain: Chain) returns (ok: bool)
      requires Valid() && |chain.states| == |devices|
      modifies this`lastCheckedBlock, devices
      ensures (Slots(), ok) == Updated(Ids(), old(Slots()), old(lastCheckedBlock), chain)
      ensures lastCheckedBlock == if ok then chain.block.value else old(lastCheckedBlock)
      ensures ok <==> Readable(old(lastCheckedBlock), chain)
      ensures !ok && old(lastCheckedBlock) != 0 ==> Slots() == old(Slots())
      ensures forall i :: 0 <= i < |devices| ==> devices[i].current == old(devices[i].current)
      ensures ok && chain.block.value == old(lastCheckedBlock) ==> Slots() == old(Slots())
      ensures ok && chain.block.value != old(lastCheckedBlock) && old(lastCheckedBlock) == 0 ==>
                forall i :: 0 <= i < |devices| ==> devices[i].bookings == Booked(chain.states[i].value)
      ensures ok && chain.block.value != old(lastCheckedBlock) && old(lastCheckedBlock) != 0 ==>
                forall i :: 0 <= i < |devices| ==>
                  devices[i].bookings == AddAll(old(devices[i].bookings), LogsOf(Ids(), chain.logs.value, i))
    {
      hide Booked, AllRead, AddAll, LogsOf, ApplyAll, FetchAll;
      UpdatedMeans(Ids(), Slots(), lastCheckedBlock, chain);
      FetchKeepsIndex(Slots(), chain.states, |devices|);
      if chain.block.None? { return false; }
      var block := chain.block.value;
      if lastCheckedBlock == block { return true; }
      if lastCheckedBlock == 0 {
        ok := FetchDevices(chain.states);
        if !ok { return; }
      } else {
        if chain.logs.None? { return false; }
        ApplyLogs(chain.logs.value);
      }
      lastCheckedBlock := block;
      return true;
    }

    /** usn_update_state: returns how long to sleep. */
    method UpdateState(chain: Chain, wait: nat) returns (delay: nat)
      requires Valid() && |chain.states| == |devices|
      modifies this`calls, this`lastCheckedBlock, devices
      ensures delay <= wait
      ensures now + delay <= Next(Slots(), now).ts
      ensures delay < wait ==> now + delay == Next(Slots(), now).ts
      ensures Quiet(Slots(), now)
      ensures View() == Step(old(View()), Update(chain))
      ensures var mid := Updated(Ids(), SettleAll(old(Slots()), now), old(lastCheckedBlock), chain).0;
              && Slots() == SettleAll(mid, now)
              && calls == old(calls) + if hasHandler then Dispatched(old(Slots()), now) + Dispatched(mid, now) else []
      ensures old(Sound(View())) ==> (AllInOrder(Slots(), now) <==> Harmless(old(View()), Update(chain)))
      ensures old(Sound(View())) && Harmless(old(View()), Update(chain)) ==> Sound(View())
      ensures old(Sound(View()) && Unused(View())) ==> AllInOrder(Slots(), now) && Sound(View())
      ensures old(Sound(View()) && Unused(View())) && Complete(old(View()), Update(chain)) ==> Unused(View())
    {
      hide SettleAll, Dispatched, Updated, Candidates, Earliest, Quiet, AllInOrder, AllAnchored;
      hide Sound, Unused, Complete, Harmless, Readable, Booked, LogsOf, AddAll, Step, UpdatedState;
      ghost var before := View();
      var first := CheckActions();
      ghost var checked := Slots();
      var ok := UpdateBookings(chain);
      ghost var mid := Slots();
      assert (mid, ok) == Updated(Ids(), checked, before.last, chain);
      var nextAction := CheckActions();
      delay := if nextAction - now < wait then nextAction - now else wait;
      UpdateStep(before, chain);
      UpdateOutcome(before, Update(chain));
    }
  }
}
