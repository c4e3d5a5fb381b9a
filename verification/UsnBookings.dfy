/** The booking list of one USN device and the replay of rent / return logs into it. */
module UsnBookings {
  import opened Wrappers

  /** uint64_t: block timestamps. */
  const MAX_TS := 0xFFFF_FFFF_FFFF_FFFF
  type Time = t: int | 0 <= t <= 0xFFFF_FFFF_FFFF_FFFF

  datatype Booking = Booking(txHash: seq<byte>, from: Time, until: Time, controller: seq<byte>, props: seq<byte>)

  /** One rent or return log; a return log carries no props. */
  datatype Log = Log(controller: seq<byte>, from: Time, until: Time, props: Option<seq<byte>>, txHash: seq<byte>)

  const NO_PROPS: seq<byte> := [0, 0, 0, 0, 0, 0, 0, 0, 0, 0, 0, 0, 0, 0, 0, 0]

  /** The first booking that starts at `key`, or |bs|. */
  function Find(bs: seq<Booking>, key: Time): (n: nat)
    ensures n <= |bs|
    ensures n < |bs| ==> bs[n].from == key
    ensures forall i :: 0 <= i < n ==> bs[i].from != key
  {
    if bs == [] then 0
    else
      var last := |bs| - 1;
      var n := Find(bs[..last], key);
      if n < last || bs[last].from == key then n else n + 1
  }

  lemma FindIs(bs: seq<Booking>, key: Time, n: nat)
    requires n <= |bs|
    requires n < |bs| ==> bs[n].from == key
    requires forall i :: 0 <= i < n ==> bs[i].from != key
    ensures Find(bs, key) == n
  {
  }

  function Renewed(b: Booking, l: Log): Booking {
    b.(until := l.until, props := if l.props.Some? then l.props.value else b.props)
  }

  function Opened(l: Log): Booking {
    Booking(l.txHash, l.from, l.until, l.controller, if l.props.Some? then l.props.value else NO_PROPS)
  }

  /** What usn_add_booking does to the list. */
  function Add(bs: seq<Booking>, l: Log): seq<Booking> {
    var n := Find(bs, l.from);
    if n < |bs| then bs[n := Renewed(bs[n], l)] else bs + [Opened(l)]
  }

  function AddAll(bs: seq<Booking>, ls: seq<Log>): seq<Booking> {
    if ls == [] then bs else Add(AddAll(bs, ls[..|ls| - 1]), ls[|ls| - 1])
  }

  predicate DistinctKeys(bs: seq<Booking>) {
    forall i, j :: 0 <= i < j < |bs| ==> bs[i].from != bs[j].from
  }

  // ----- replay is idempotent ------------------------------------------------

  /** What the logs of `ls` that carry b's own key do to b, taken alone. */
  function Fold(b: Booking, ls: seq<Log>): (r: Booking)
    ensures r.from == b.from && r.controller == b.controller && r.txHash == b.txHash
  {
    if ls == [] then b
    else
      var p, l := Fold(b, ls[..|ls| - 1]), ls[|ls| - 1];
      if l.from == b.from then Renewed(p, l) else p
  }

  /** Reading order of a list: is `i` the entry that logs for its key reach? */
  predicate Reached(bs: seq<Booking>, i: nat)
    requires i < |bs|
  {
    forall j :: 0 <= j < i ==> bs[j].from != bs[i].from
  }

  /** Every entry a log can reach already absorbs the whole batch. */
  predicate Absorbs(bs: seq<Booking>, ls: seq<Log>) {
    forall i :: 0 <= i < |bs| && Reached(bs, i) ==> Fold(bs[i], ls) == bs[i]
  }

  predicate Covers(bs: seq<Booking>, ls: seq<Log>) {
    forall k :: 0 <= k < |ls| ==> Find(bs, ls[k].from) < |bs|
  }

  lemma {:induction false} FoldAgain(b: Booking, ls: seq<Log>)
    requires ls != []
    requires Fold(b, ls[..|ls| - 1]) == b
    ensures ls[|ls| - 1].from == b.from ==> Fold(Renewed(b, ls[|ls| - 1]), ls) == Renewed(b, ls[|ls| - 1])
  {
    var l := ls[|ls| - 1];
    if l.from == b.from {
      FoldShape(b, Renewed(b, l), ls[..|ls| - 1]);
    }
  }

  /** Two starts that agree on key and identity fold to the same props unless no log sets any. */
  lemma {:induction false} FoldShape(a: Booking, b: Booking, ls: seq<Log>)
    requires a.from == b.from && a.controller == b.controller && a.txHash == b.txHash
    ensures Fold(a, ls).props == Fold(b, ls).props || (Fold(a, ls).props == a.props && Fold(b, ls).props == b.props)
  {
    if ls == [] {
    } else {
      FoldShape(a, b, ls[..|ls| - 1]);
    }
  }

  /** A freshly opened entry absorbs the logs before it (none carries its key) and the log that opened it. */
  lemma {:induction false} FoldForeign(b: Booking, ls: seq<Log>)
    requires forall k :: 0 <= k < |ls| ==> ls[k].from != b.from
    ensures Fold(b, ls) == b
  {
    if ls == [] {
    } else {
      FoldForeign(b, ls[..|ls| - 1]);
    }
  }

  lemma {:induction false} CoversAfter(bs: seq<Booking>, ls: seq<Log>)
    ensures Covers(AddAll(bs, ls), ls)
  {
    if ls == [] {
    } else {
      var p, l := ls[..|ls| - 1], ls[|ls| - 1];
      var mid := AddAll(bs, p);
      CoversAfter(bs, p);
      forall k | 0 <= k < |ls|
        ensures Find(Add(mid, l), ls[k].from) < |Add(mid, l)|
      {
        if k < |p| {
          assert Find(mid, p[k].from) < |mid|;
          assert Add(mid, l)[Find(mid, p[k].from)].from == ls[k].from;
        } else {
          assert Add(mid, l)[Find(mid, l.from)].from == ls[k].from;
        }
      }
    }
  }

  lemma {:induction false} AbsorbsAfter(bs: seq<Booking>, ls: seq<Log>)
    ensures Absorbs(AddAll(bs, ls), ls)
  {
    if ls == [] {
    } else {
      var p, l := ls[..|ls| - 1], ls[|ls| - 1];
      var mid := AddAll(bs, p);
      var fin := Add(mid, l);
      AbsorbsAfter(bs, p);
      CoversAfter(bs, p);
      forall i | 0 <= i < |fin| && Reached(fin, i)
        ensures Fold(fin[i], ls) == fin[i]
      {
        var n := Find(mid, l.from);
        if i < |mid| {
          assert Reached(mid, i) by {
            forall j | 0 <= j < i ensures mid[j].from != mid[i].from {
              assert fin[j].from == mid[j].from && fin[i].from == mid[i].from;
            }
          }
          FoldAgain(mid[i], ls);
          if mid[i].from == l.from {
            FindIs(mid, l.from, i);
          }
        } else {
          forall k | 0 <= k < |p| ensures p[k].from != l.from {
            assert Find(mid, p[k].from) < |mid|;
          }
          FoldForeign(fin[i], p);
        }
      }
    }
  }

  lemma {:induction false} NothingToAdd(bs: seq<Booking>, ls: seq<Log>)
    requires Covers(bs, ls)
    ensures |AddAll(bs, ls)| == |bs|
    ensures forall i :: 0 <= i < |bs| ==>
              AddAll(bs, ls)[i] == if Reached(bs, i) then Fold(bs[i], ls) else bs[i]
  {
    if ls == [] {
    } else {
      var p, l := ls[..|ls| - 1], ls[|ls| - 1];
      assert Covers(bs, p) by {
        forall k | 0 <= k < |p| ensures Find(bs, p[k].from) < |bs| {
          assert p[k] == ls[k];
        }
      }
      NothingToAdd(bs, p);
      var mid := AddAll(bs, p);
      forall i | 0 <= i < |bs| ensures mid[i].from == bs[i].from {
      }
      var n := Find(bs, l.from);
      assert n < |bs| by { assert l == ls[|ls| - 1]; }
      FindIs(mid, l.from, n);
      assert Reached(bs, n);
      assert forall i :: 0 <= i < |bs| && Reached(bs, i) && bs[i].from == l.from ==> !(n < i);
    }
  }

  /** Replaying a whole batch of logs a second time changes nothing. */
  lemma ReplayIdempotent(bs: seq<Booking>, ls: seq<Log>)
    ensures AddAll(AddAll(bs, ls), ls) == AddAll(bs, ls)
  {
    var once := AddAll(bs, ls);
    CoversAfter(bs, ls);
    AbsorbsAfter(bs, ls);
    NothingToAdd(once, ls);
  }

  // ----- what a batch leaves behind -----------------------------------------

  lemma {:induction false} ReplayKeepsKeysDistinct(bs: seq<Booking>, ls: seq<Log>)
    requires DistinctKeys(bs)
    ensures DistinctKeys(AddAll(bs, ls))
  {
    if ls == [] {
    } else {
      ReplayKeepsKeysDistinct(bs, ls[..|ls| - 1]);
      var mid, l := AddAll(bs, ls[..|ls| - 1]), ls[|ls| - 1];
      var n := Find(mid, l.from);
      assert forall i :: 0 <= i < |mid| ==> Add(mid, l)[i].from == mid[i].from;
    }
  }

  /** The last log of a key decides `until`; an existing booking keeps its place, controller and hash. */
  lemma {:induction false} ReplayLastUntilWins(bs: seq<Booking>, ls: seq<Log>, k: nat)
    requires k < |ls|
    requires forall j :: k < j < |ls| ==> ls[j].from != ls[k].from
    ensures var fin := AddAll(bs, ls);
            var n := Find(fin, ls[k].from);
            n < |fin| && fin[n].until == ls[k].until
  {
    var p, l := ls[..|ls| - 1], ls[|ls| - 1];
    var mid := AddAll(bs, p);
    var fin := Add(mid, l);
    assert fin == AddAll(bs, ls);
    var m := Find(mid, l.from);
    if k == |p| {
      FindIs(fin, l.from, m);
    } else {
      ReplayLastUntilWins(bs, p, k);
      assert p[k] == ls[k];
      var n := Find(mid, ls[k].from);
      assert l.from != ls[k].from;
      assert forall i :: 0 <= i < |mid| ==> fin[i].from == mid[i].from;
      FindIs(fin, ls[k].from, n);
    }
  }

  /** The last log of a key that carries props decides the props; logs without props leave them. */
  lemma {:induction false} ReplayLastPropsWin(bs: seq<Booking>, ls: seq<Log>, k: nat)
    requires k < |ls| && ls[k].props.Some?
    requires forall j :: k < j < |ls| && ls[j].from == ls[k].from ==> ls[j].props.None?
    ensures var fin := AddAll(bs, ls);
            var n := Find(fin, ls[k].from);
            n < |fin| && fin[n].props == ls[k].props.value
  {
    var p, l := ls[..|ls| - 1], ls[|ls| - 1];
    var mid := AddAll(bs, p);
    var fin := Add(mid, l);
    assert fin == AddAll(bs, ls);
    if k == |p| {
      FindIs(fin, l.from, Find(mid, l.from));
    } else {
      ReplayLastPropsWin(bs, p, k);
      assert p[k] == ls[k];
      assert forall i :: 0 <= i < |mid| ==> fin[i].from == mid[i].from;
      FindIs(fin, ls[k].from, Find(mid, ls[k].from));
    }
  }

  /** No other booking changes, and no other is added. */
  lemma {:induction false} ReplayTouchesLogged(bs: seq<Booking>, ls: seq<Log>, i: nat)
    requires i < |AddAll(bs, ls)| && forall k :: 0 <= k < |ls| ==> ls[k].from != AddAll(bs, ls)[i].from
    ensures i < |bs| && AddAll(bs, ls)[i] == bs[i]
  {
    if ls == [] {
    } else {
      var mid, l := AddAll(bs, ls[..|ls| - 1]), ls[|ls| - 1];
      if i < |mid| {
        assert Add(mid, l)[i].from == mid[i].from;
        ReplayTouchesLogged(bs, ls[..|ls| - 1], i);
      }
    }
  }

  /** A key is there once more only if it was not there: a later booking with the same start stays as it is. */
  lemma {:induction false} ReplayReachesFirst(bs: seq<Booking>, ls: seq<Log>, i: nat, j: nat)
    requires i < j < |AddAll(bs, ls)| && AddAll(bs, ls)[i].from == AddAll(bs, ls)[j].from
    ensures j < |bs| && AddAll(bs, ls)[j] == bs[j]
  {
    if ls == [] {
    } else {
      var mid, l := AddAll(bs, ls[..|ls| - 1]), ls[|ls| - 1];
      assert forall m :: 0 <= m < |mid| ==> Add(mid, l)[m].from == mid[m].from;
      if j < |mid| { ReplayReachesFirst(bs, ls[..|ls| - 1], i, j); }
    }
  }

  /** A booking opened by logs without props has none. */
  lemma {:induction false} ReplayNoProps(bs: seq<Booking>, ls: seq<Log>, i: nat)
    requires |bs| <= i < |AddAll(bs, ls)|
    requires forall k :: 0 <= k < |ls| && ls[k].from == AddAll(bs, ls)[i].from ==> ls[k].props.None?
    ensures AddAll(bs, ls)[i].props == seq(16, _ => 0)
  {
    if ls == [] {
    } else {
      var mid, l := AddAll(bs, ls[..|ls| - 1]), ls[|ls| - 1];
      if i < |mid| {
        assert Add(mid, l)[i].from == mid[i].from;
        ReplayNoProps(bs, ls[..|ls| - 1], i);
      }
    }
  }

  lemma {:induction false} ReplayKeepsEarlier(bs: seq<Booking>, ls: seq<Log>)
    ensures |bs| <= |AddAll(bs, ls)|
    ensures forall i :: 0 <= i < |bs| ==>
              var b := AddAll(bs, ls)[i];
              b.from == bs[i].from && b.controller == bs[i].controller && b.txHash == bs[i].txHash
  {
    if ls == [] {
    } else {
      ReplayKeepsEarlier(bs, ls[..|ls| - 1]);
    }
  }

  /** A key the list did not hold yet keeps the controller and hash of its first log. */
  lemma {:induction false} ReplayFirstIdentityKept(bs: seq<Booking>, ls: seq<Log>, k: nat)
    requires k < |ls|
    requires Find(bs, ls[k].from) == |bs|
    requires forall j :: 0 <= j < k ==> ls[j].from != ls[k].from
    ensures var fin := AddAll(bs, ls);
            var n := Find(fin, ls[k].from);
            n < |fin| && fin[n].controller == ls[k].controller && fin[n].txHash == ls[k].txHash
  {
    var p, l := ls[..|ls| - 1], ls[|ls| - 1];
    var mid := AddAll(bs, p);
    var fin := Add(mid, l);
    assert fin == AddAll(bs, ls);
    if k == |p| {
      NoNewKey(bs, p, l.from);
      FindIs(fin, l.from, |mid|);
    } else {
      ReplayFirstIdentityKept(bs, p, k);
      var n := Find(mid, p[k].from);
      assert forall i :: 0 <= i < |mid| ==> fin[i].from == mid[i].from;
      FindIs(fin, ls[k].from, n);
    }
  }

  lemma {:induction false} NoNewKey(bs: seq<Booking>, ls: seq<Log>, key: Time)
    requires Find(bs, key) == |bs|
    requires forall j :: 0 <= j < |ls| ==> ls[j].from != key
    ensures Find(AddAll(bs, ls), key) == |AddAll(bs, ls)|
  {
    if ls == [] {
    } else {
      NoNewKey(bs, ls[..|ls| - 1], key);
      var mid := AddAll(bs, ls[..|ls| - 1]);
      var fin := AddAll(bs, ls);
      assert forall i :: 0 <= i < |fin| ==> fin[i].from != key;
    }
  }
}
