/** usn_update_bookings on values: the initial fetch, the later logs, and what the fetch does to the current index. */
module UsnUpdate {
  import opened Wrappers
  import opened UsnBookings
  import opened UsnSchedule
  import opened UsnSettle
  import opened UsnLogs

  /** The bookings read before the first failing call, and whether there was none. */
  function Fetched(states: seq<Option<Booking>>): (seq<Booking>, bool) {
    if states == [] then ([], true)
    else
      var (bs, ok) := Fetched(states[..|states| - 1]);
      var s := states[|states| - 1];
      if !ok || s.None? then (bs, false)
      else if s.value.from == 0 then (bs, true)
      else (bs + [s.value], true)
  }

  lemma {:induction false} FetchStops(states: seq<Option<Booking>>, n: nat)
    requires n < |states| && states[n].None? && Fetched(states[..n]).1
    ensures Fetched(states) == (Fetched(states[..n]).0, false)
  {
    var p := states[..|states| - 1];
    if n == |p| {
    } else {
      assert p[..n] == states[..n];
      FetchStops(p, n);
    }
  }

  /** The answers of the chain during one usn_update_bookings. */
  datatype Chain = Chain(block: Option<nat>, states: seq<Option<seq<Option<Booking>>>>, logs: Option<seq<Entry>>)

  /** One device after the initial fetch; the running index stays as it was. */
  function FetchSlot(d: Slot, states: Option<seq<Option<Booking>>>): (Slot, bool) {
    if states.None? then (d, false)
    else var (bs, ok) := Fetched(states.value); (d.(bookings := bs), ok)
  }

  /** The first `m` devices fetched in turn, stopping at the first failure. */
  function FetchAll(ds: seq<Slot>, states: seq<Option<seq<Option<Booking>>>>, m: nat): (r: (seq<Slot>, bool))
    requires m <= |ds| == |states|
    ensures |r.0| == |ds|
    ensures forall i :: m <= i < |ds| ==> r.0[i] == ds[i]
  {
    if m == 0 then (ds, true)
    else
      var (p, ok) := FetchAll(ds, states, m - 1);
      if !ok then (p, false)
      else var (d, good) := FetchSlot(p[m - 1], states[m - 1]); (p[m - 1 := d], good)
  }

  lemma {:induction false} FetchAllStops(ds: seq<Slot>, states: seq<Option<seq<Option<Booking>>>>, m: nat, n: nat)
    requires m <= n <= |ds| == |states| && !FetchAll(ds, states, m).1
    ensures FetchAll(ds, states, n) == FetchAll(ds, states, m)
    decreases n
  {
    if m == n {
    } else {
      FetchAllStops(ds, states, m, n - 1);
    }
  }

  /** The devices after usn_update_bookings, and whether it succeeded. */
  function Updated(ids: seq<seq<byte>>, ds: seq<Slot>, last: nat, chain: Chain): (r: (seq<Slot>, bool))
    requires |ids| == |ds| == |chain.states|
    ensures |r.0| == |ds|
  {
    if chain.block.None? then (ds, false)
    else if chain.block.value == last then (ds, true)
    else if last == 0 then FetchAll(ds, chain.states, |ds|)
    else if chain.logs.None? then (ds, false)
    else (ApplyAll(ids, ds, chain.logs.value), true)
  }

  /** usn_update_state: a check, the update, another check. */
  function UpdatedState(ids: seq<seq<byte>>, ds: seq<Slot>, last: nat, now: Time, chain: Chain): (r: (seq<Slot>, bool))
    requires |ids| == |ds| == |chain.states|
    ensures |r.0| == |ds|
  {
    var (mid, ok) := Updated(ids, SettleAll(ds, now), last, chain);
    (SettleAll(mid, now), ok)
  }

  // ----- what one update leaves behind -------------------------------------------------------

  /** The states that were read and carry a start, in order. */
  function Booked(states: seq<Option<Booking>>): seq<Booking> {
    if states == [] then []
    else (if states[0].Some? && states[0].value.from != 0 then [states[0].value] else []) + Booked(states[1..])
  }

  predicate AllRead(states: Option<seq<Option<Booking>>>) {
    states.Some? && forall n :: 0 <= n < |states.value| ==> states.value[n].Some?
  }

  lemma {:induction false} BookedNext(states: seq<Option<Booking>>, s: Option<Booking>)
    ensures Booked(states + [s]) == Booked(states) + if s.Some? && s.value.from != 0 then [s.value] else []
  {
    if states == [] {
      assert [s][1..] == [];
    } else {
      BookedNext(states[1..], s);
      assert (states + [s])[1..] == states[1..] + [s];
    }
  }

  /** A fetch without a failure reads exactly those. */
  lemma {:induction false} FetchedIs(states: seq<Option<Booking>>)
    ensures Fetched(states).1 <==> AllRead(Some(states))
    ensures Fetched(states).1 ==> Fetched(states).0 == Booked(states)
  {
    if states == [] {
    } else {
      var p, s := states[..|states| - 1], states[|states| - 1];
      FetchedIs(p);
      BookedNext(p, s);
      assert states == p + [s];
    }
  }

  lemma {:induction false} FetchAllIs(ds: seq<Slot>, states: seq<Option<seq<Option<Booking>>>>, m: nat)
    requires m <= |ds| == |states|
    ensures FetchAll(ds, states, m).1 <==> forall i :: 0 <= i < m ==> AllRead(states[i])
    ensures FetchAll(ds, states, m).1 ==>
              forall i :: 0 <= i < m ==> FetchAll(ds, states, m).0[i] == ds[i].(bookings := Booked(states[i].value))
  {
    hide Fetched, Booked, AllRead;
    if m == 0 {
    } else {
      FetchAllIs(ds, states, m - 1);
      if states[m - 1].Some? { FetchedIs(states[m - 1].value); } else { Unread(); }
    }
  }

  lemma Unread()
    ensures !AllRead(None)
  {
  }

  /** Can the update be carried out: the block is known, and what has to be read can be read. */
  predicate Readable(last: nat, chain: Chain) {
    chain.block.Some? &&
    (chain.block.value == last
     || if last == 0 then forall i :: 0 <= i < |chain.states| ==> AllRead(chain.states[i]) else chain.logs.Some?)
  }

  /**
   * An update that can be carried out leaves each device alone in a block that was checked before, gives it the
   * bookings that were read the first time, and later applies the logs that name it, one after the other. Of any other
   * update nothing is left unless it was the first.
   */
  lemma UpdatedMeans(ids: seq<seq<byte>>, ds: seq<Slot>, last: nat, chain: Chain)
    requires |ids| == |ds| == |chain.states|
    ensures var (after, ok) := Updated(ids, ds, last, chain);
            && (ok <==> Readable(last, chain))
            && (!ok && last != 0 ==> after == ds)
            && (ok ==> forall i :: 0 <= i < |ds| ==>
                  after[i] == if chain.block.value == last then ds[i]
                              else if last == 0 then ds[i].(bookings := Booked(chain.states[i].value))
                              else ds[i].(bookings := AddAll(ds[i].bookings, LogsOf(ids, chain.logs.value, i))))
  {
    hide FetchAll, Booked, AllRead, ApplyAll, LogsOf, AddAll;
    FetchAllIs(ds, chain.states, |ds|);
    if last != 0 && chain.logs.Some? {
      forall i | 0 <= i < |ds|
        ensures ApplyAll(ids, ds, chain.logs.value)[i]
                == ds[i].(bookings := AddAll(ds[i].bookings, LogsOf(ids, chain.logs.value, i)))
      {
        BatchPerDevice(ids, ds, chain.logs.value, i);
      }
    }
  }

  lemma {:induction false} FetchKeepsIndex(ds: seq<Slot>, states: seq<Option<seq<Option<Booking>>>>, m: nat)
    requires m <= |ds| == |states|
    ensures forall i :: 0 <= i < |ds| ==> FetchAll(ds, states, m).0[i].current == ds[i].current
  {
    if m == 0 {
    } else {
      FetchKeepsIndex(ds, states, m - 1);
    }
  }

  lemma {:induction false} LogOfAt(ids: seq<seq<byte>>, es: seq<Entry>, n: nat, i: nat)
    requires n < |es| && es[n].log.Some? && FindId(ids, es[n].id) == i
    ensures |LogsOf(ids, es[..n], i)| < |LogsOf(ids, es, i)|
    ensures LogsOf(ids, es, i)[|LogsOf(ids, es[..n], i)|] == es[n].log.value
    ensures LogsOf(ids, es, i)[|LogsOf(ids, es[..n], i)| + 1..] == LogsOf(ids, es[n + 1..], i)
  {
    var p := es[..|es| - 1];
    if n == |p| {
      assert es[n + 1..] == [];
    } else {
      LogOfAt(ids, p, n, i);
      var q := es[n + 1..];
      assert p[..n] == es[..n] && q[..|q| - 1] == p[n + 1..] && q[|q| - 1] == es[|p|];
    }
  }

  lemma {:induction false} LogsOfNone(ids: seq<seq<byte>>, es: seq<Entry>, i: nat, key: Time)
    requires forall m :: 0 <= m < |es| && es[m].log.Some? && FindId(ids, es[m].id) == i ==> es[m].log.value.from != key
    ensures forall k :: 0 <= k < |LogsOf(ids, es, i)| ==> LogsOf(ids, es, i)[k].from != key
  {
    if es == [] {
    } else {
      LogsOfNone(ids, es[..|es| - 1], i, key);
    }
  }

  /** So the last log for a start on a device, if none after it names the same, is in its list after the update. */
  lemma LogArrives(ids: seq<seq<byte>>, ds: seq<Slot>, last: nat, chain: Chain, n: nat, i: nat)
    requires |ids| == |ds| == |chain.states| && last != 0 && chain.block.Some? && chain.block.value != last
    requires chain.logs.Some? && n < |chain.logs.value| && chain.logs.value[n].log.Some?
    requires i < |ids| && ids[i] == chain.logs.value[n].id && ids[i] !in ids[..i]
    requires forall m :: n < m < |chain.logs.value| && chain.logs.value[m].log.Some?
                         && chain.logs.value[m].id == ids[i] ==>
                           chain.logs.value[m].log.value.from != chain.logs.value[n].log.value.from
    ensures var l := chain.logs.value[n].log.value;
            exists b :: b in Updated(ids, ds, last, chain).0[i].bookings && b.from == l.from && b.until == l.until
  {
    hide AddAll, LogsOf, Updated;
    var es := chain.logs.value;
    var ls, l := LogsOf(ids, es, i), es[n].log.value;
    var k := |LogsOf(ids, es[..n], i)|;
    forall m | 0 <= m < i ensures ids[m] != ids[i] {
      assert ids[..i][m] == ids[m];
    }
    UpdatedMeans(ids, ds, last, chain);
    LogOfAt(ids, es, n, i);
    LogsOfNone(ids, es[n + 1..], i, l.from);
    forall j | k < j < |ls| ensures ls[j].from != ls[k].from {
      assert ls[j] == ls[k + 1..][j - k - 1];
    }
    ReplayLastUntilWins(ds[i].bookings, ls, k);
    var fin := AddAll(ds[i].bookings, ls);
    assert fin[Find(fin, l.from)] in fin;
  }

  // ----- the current index and the initial fetch -------------------------------------------

  /** Was device i read? Only if all devices before it were read without a failure, and its size could be read. */
  predicate Read(ds: seq<Slot>, states: seq<Option<seq<Option<Booking>>>>, i: nat)
    requires i < |ds| == |states|
  {
    FetchAll(ds, states, i).1 && states[i].Some?
  }

  lemma {:induction false} FetchedAt(ds: seq<Slot>, states: seq<Option<seq<Option<Booking>>>>, m: nat, i: nat)
    requires i < m <= |ds| == |states|
    ensures FetchAll(ds, states, m).0[i]
            == if Read(ds, states, i) then ds[i].(bookings := Fetched(states[i].value).0) else ds[i]
  {
    if i == m - 1 {
    } else {
      FetchedAt(ds, states, m - 1, i);
    }
  }

  /**
   * The fetch does not touch the index: it stays sound for an idle device, or if it names a started booking of the new
   * list.
   */
  predicate FetchKeeps(ds: seq<Slot>, states: seq<Option<seq<Option<Booking>>>>, i: nat, now: Time)
    requires i < |ds| == |states|
  {
    if Read(ds, states, i) then
      var bs := Fetched(states[i].value).0;
      ds[i].current == -1 || (0 <= ds[i].current < |bs| && bs[ds[i].current].from <= now)
    else Anchored(ds[i], now)
  }

  /** Exactly then every device is sound after the initial fetch, successful or not. */
  lemma FetchKeepsAnchoredIff(ds: seq<Slot>, states: seq<Option<seq<Option<Booking>>>>, now: Time)
    requires |ds| == |states|
    ensures AllAnchored(FetchAll(ds, states, |ds|).0, now)
            <==> forall i :: 0 <= i < |ds| ==> FetchKeeps(ds, states, i, now)
  {
    hide FetchAll, Fetched;
    var after := FetchAll(ds, states, |ds|).0;
    forall i | 0 <= i < |ds| ensures Anchored(after[i], now) <==> FetchKeeps(ds, states, i, now) {
      FetchedAt(ds, states, |ds|, i);
    }
  }

  /**
   * After usn_update_state everything is in order exactly if each device was sound, or had an expired booking, before
   * the second check.
   */
  lemma UpdateInOrderIff(ids: seq<seq<byte>>, ds: seq<Slot>, last: nat, now: Time, chain: Chain)
    requires |ids| == |ds| == |chain.states| && now < MAX_TS
    ensures var mid := Updated(ids, SettleAll(ds, now), last, chain).0;
            AllInOrder(UpdatedState(ids, ds, last, now, chain).0, now) <==>
            forall i :: 0 <= i < |mid| ==> Anchored(mid[i], now) || HasExpired(mid[i], now)
  {
    hide Updated, InOrder, Anchored, HasExpired, Settle;
    var mid := Updated(ids, SettleAll(ds, now), last, chain).0;
    forall i | 0 <= i < |mid|
      ensures InOrder(Settle(mid[i], now), now) <==> Anchored(mid[i], now) || HasExpired(mid[i], now)
    {
      SettlePutsInOrder(mid[i], now);
    }
  }
}
