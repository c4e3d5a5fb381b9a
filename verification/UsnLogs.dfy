/** A batch of contract logs over all devices of a configuration. */
module UsnLogs {
  import opened Wrappers
  import opened UsnBookings
  import opened UsnSchedule
  import opened UsnSettle

  /** A log entry as received; `log` is None when a topic or the data field is malformed. */
  datatype Entry = Entry(id: seq<byte>, log: Option<Log>)

  /** find_device_by_id, or |ids|. */
  function FindId(ids: seq<seq<byte>>, id: seq<byte>): (n: nat)
    ensures n <= |ids|
    ensures n < |ids| ==> ids[n] == id
    ensures forall i :: 0 <= i < n ==> ids[i] != id
  {
    if ids == [] then 0
    else
      var last := |ids| - 1;
      var n := FindId(ids[..last], id);
      if n < last || ids[last] == id then n else n + 1
  }

  function Apply(ids: seq<seq<byte>>, ds: seq<Slot>, e: Entry): (r: seq<Slot>)
    requires |ids| == |ds|
    ensures |r| == |ds|
  {
    var n := FindId(ids, e.id);
    if n < |ds| && e.log.Some? then ds[n := ds[n].(bookings := Add(ds[n].bookings, e.log.value))] else ds
  }

  function ApplyAll(ids: seq<seq<byte>>, ds: seq<Slot>, es: seq<Entry>): (r: seq<Slot>)
    requires |ids| == |ds|
    ensures |r| == |ds|
  {
    if es == [] then ds else Apply(ids, ApplyAll(ids, ds, es[..|es| - 1]), es[|es| - 1])
  }

  /** The logs of a batch that reach device `i`. */
  function LogsOf(ids: seq<seq<byte>>, es: seq<Entry>, i: nat): seq<Log> {
    if es == [] then []
    else
      var p, e := LogsOf(ids, es[..|es| - 1], i), es[|es| - 1];
      if e.log.Some? && FindId(ids, e.id) == i then p + [e.log.value] else p
  }

  lemma {:induction false} BatchPerDevice(ids: seq<seq<byte>>, ds: seq<Slot>, es: seq<Entry>, i: nat)
    requires |ids| == |ds| && i < |ds|
    ensures ApplyAll(ids, ds, es)[i] == ds[i].(bookings := AddAll(ds[i].bookings, LogsOf(ids, es, i)))
  {
    if es == [] {
    } else {
      BatchPerDevice(ids, ds, es[..|es| - 1], i);
      var ls, p := LogsOf(ids, es, i), LogsOf(ids, es[..|es| - 1], i);
      if ls != p {
        assert ls[..|ls| - 1] == p;
      }
    }
  }

  /** Receiving the same block range twice leaves every device as receiving it once. */
  lemma BatchIdempotent(ids: seq<seq<byte>>, ds: seq<Slot>, es: seq<Entry>)
    requires |ids| == |ds|
    ensures ApplyAll(ids, ApplyAll(ids, ds, es), es) == ApplyAll(ids, ds, es)
  {
    var once := ApplyAll(ids, ds, es);
    forall i | 0 <= i < |ds|
      ensures ApplyAll(ids, once, es)[i] == once[i]
    {
      BatchPerDevice(ids, ds, es, i);
      BatchPerDevice(ids, once, es, i);
      ReplayIdempotent(ds[i].bookings, LogsOf(ids, es, i));
    }
  }

  /** A batch keeps every device anchored. */
  lemma BatchKeepsAnchored(ids: seq<seq<byte>>, ds: seq<Slot>, es: seq<Entry>, now: Time)
    requires |ids| == |ds| && AllAnchored(ds, now)
    ensures AllAnchored(ApplyAll(ids, ds, es), now)
  {
    forall i | 0 <= i < |ds| ensures Anchored(ApplyAll(ids, ds, es)[i], now) {
      BatchPerDevice(ids, ds, es, i);
      AddKeepsAnchored(ds[i].bookings, ds[i].current, LogsOf(ids, es, i), now, now);
    }
  }
}
