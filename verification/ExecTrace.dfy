/** What a step asks of its environment, and what one call of the driver does, event by event. */
module ExecTrace {
  import opened Wrappers
  import opened ExecModel

  // ----- one step ---------------------------------------------------------------------------

  /**
   * in3_ctx_execute for a context, and the answers of the pre-handler, the node picker and the configuration; making
   * the payload, the call of the transport, looking for the data to sign, and the call of the signer.
   */
  datatype Act =
    | Visit(id: nat)
    | PreHandled(id: nat, code: Ret)
    | Picked(id: nat, code: Ret)
    | Configured(id: nat, entry: nat, code: Ret)
    | Packed(id: nat, code: Ret)
    | Transported(id: nat)
    | Found(id: nat, complete: bool)
    | Signed(id: nat, code: Ret)

  /** Every entry of c configured in turn, up to the first that fails or waits; then r is its answer. */
  predicate Configures(acts: seq<Act>, c: Ctx, r: Ret) {
    && |acts| <= c.len
    && (forall k :: 0 <= k < |acts| ==> acts[k].Configured? && acts[k].id == c.id && acts[k].entry == k)
    && (forall k :: 0 <= k < |acts| - 1 ==> acts[k].code == OK)
    && if acts != [] && acts[|acts| - 1].code != OK then r == acts[|acts| - 1].code else |acts| == c.len && r == OK
  }

  /** Node picking, and the configuration if it succeeded. */
  predicate Picks(acts: seq<Act>, c: Ctx, r: Ret) {
    && acts != [] && acts[0].Picked? && acts[0].id == c.id
    && if acts[0].code == OK then Configures(acts[1..], c, r) else |acts| == 1 && r == acts[0].code
  }

  /**
   * What precedes the answers of context c: nothing if they are there. Otherwise the pre-handler is asked; without its
   * answer, and without nodes, nodes are picked. Then the context waits for its transport.
   */
  predicate Prepares(acts: seq<Act>, c: Ctx, answered: bool, r: Ret) {
    if c.raw.Some? then acts == [] && r == OK
    else
      && acts != [] && acts[0].PreHandled? && acts[0].id == c.id
      && if acts[0].code != OK then |acts| == 1 && r == acts[0].code
         else if answered then |acts| == 1 && r == OK
         else if c.nodes.Some? then |acts| == 1 && r == WAITING
         else exists picked :: Picks(acts[1..], c, picked) && r == if picked == OK then WAITING else picked
  }

  /** The transport is called when there is a payload, the signer when there is something to sign. */
  predicate Calls(acts: seq<Act>, kind: Kind, id: nat, r: Option<Ret>) {
    match kind
    case Rpc =>
      && acts != [] && acts[0].Packed? && acts[0].id == id
      && if acts[0].code == OK then acts[1..] == [Transported(id)] && r == None else |acts| == 1 && r == Some(ENOMEM)
    case Sign =>
      && acts != [] && acts[0].Found? && acts[0].id == id
      && if !acts[0].complete then |acts| == 1 && r == Some(ECONFIG)
         else |acts| == 2 && acts[1].Signed? && acts[1].id == id
              && r == if acts[1].code == OK then None else Some(acts[1].code)
  }

  // ----- one call of the driver ---------------------------------------------------------------

  /**
   * An event of in3_send_ctx for one context, in the round of its outer loop:
   * the context was executed, for the first time in the round or again, with `size` contexts in the whole chain before;
   * afterwards its required contexts have all succeeded (`ready`) or not, and it has no response (`lacks`) or one;
   * `waited` tells whether the environment had to wait;
   * in3_send_ctx for the required context has answered;
   * the transport or the signer was called, `blind` for a request without nodes.
   */
  datatype Event =
    | Executed(round: nat, again: bool, size: nat, code: Ret, waited: bool, ready: bool, lacks: bool)
    | Returned(round: nat, code: Ret)
    | Supplied(round: nat, blind: bool, failure: Option<Ret>)

  /** May the required context be left behind with this answer? */
  predicate Goes(code: Ret) { code == OK || code == EIGNORE }

  /** Event f comes directly after e; the context is at position i. */
  predicate Follows(e: Event, f: Event, i: nat) {
    match e
    case Executed(round, _, _, code, waited, ready, lacks) =>
      && code == WAITING && round <= 10
      && (if !ready then f.Returned? && f.round == round
          else if lacks then f.Supplied? && f.round == round && (f.blind ==> waited)
          else f.Executed? && !f.again && f.round == round + 1)
    case Returned(round, code) =>
      && Goes(code) && f.Executed? && f.again && f.round == round
      && (code == EIGNORE ==> f.size == i + 1) && (code == OK ==> f.size > i + 1)
    case Supplied(round, _, failure) => failure.None? && f.Executed? && !f.again && f.round == round + 1
  }

  /** The call ends after e with r; None is the cut-off. */
  predicate Ends(e: Event, r: Option<Ret>) {
    match e
    case Executed(round, again, _, code, _, ready, _) =>
      if code != WAITING then r == Some(code)
      else if round > 10 then !again && r == Some(ERPC)
      else !ready && r == None
    case Returned(_, code) => !Goes(code) && r == Some(code)
    case Supplied(_, _, failure) => failure.Some? && r == failure
  }

  /** After e, round n + 1 may begin. */
  predicate Opens(e: Event, n: nat) {
    match e
    case Executed(round, _, _, code, _, ready, lacks) => code == WAITING && round == n <= 10 && ready && !lacks
    case Returned(_, _) => false
    case Supplied(round, _, failure) => round == n && failure.None?
  }

  predicate Chained(t: seq<Event>, i: nat) {
    && t != [] && t[0].Executed? && t[0].round == 1 && !t[0].again
    && forall k :: 0 <= k < |t| - 1 ==> Follows(t[k], t[k + 1], i)
  }

  /** A whole call. */
  predicate Drives(t: seq<Event>, i: nat, r: Option<Ret>) {
    Chained(t, i) && Ends(t[|t| - 1], r)
  }

  lemma ChainedNext(t: seq<Event>, e: Event, i: nat)
    requires Chained(t, i) && Follows(t[|t| - 1], e, i)
    ensures Chained(t + [e], i)
  {
    var u := t + [e];
    forall k | 0 <= k < |u| - 1 ensures Follows(u[k], u[k + 1], i) {
      assert k < |t| - 1 ==> u[k] == t[k] && u[k + 1] == t[k + 1];
    }
  }

  lemma ChainedFirst(e: Event, i: nat)
    requires e.Executed? && e.round == 1 && !e.again
    ensures Chained([e], i)
  {
  }

  /**
   * A required context that fails, other than ignorably, is the last thing that happens, and its code is the answer;
   * any other answer of it is followed by another execution, after an ignorable failure without it.
   */
  lemma RefusalEnds(t: seq<Event>, i: nat, r: Option<Ret>, k: nat)
    requires Drives(t, i, r) && k < |t| && t[k].Returned?
    ensures if t[k].code != OK && t[k].code != EIGNORE then k == |t| - 1 && r == Some(t[k].code)
            else k + 1 < |t| && t[k + 1].Executed? && (t[k].code == EIGNORE <==> t[k + 1].size == i + 1)
  {
    if k < |t| - 1 {
      assert Follows(t[k], t[k + 1], i);
      assert t[k + 1].size != i + 1 || t[k].code == EIGNORE;
    }
  }

  /** A transport or signer is called only after an execution that waits, with all required contexts done. */
  lemma SuppliedWhenReady(t: seq<Event>, i: nat, r: Option<Ret>, k: nat)
    requires Drives(t, i, r) && k < |t| && t[k].Supplied?
    ensures k > 0 && t[k - 1].Executed? && t[k - 1].code == WAITING && t[k - 1].ready && t[k - 1].lacks
    ensures t[k].blind ==> t[k - 1].waited
  {
    assert Follows(t[k - 1], t[k], i);
  }

  /** Rounds are counted one by one, each opened by one execution that waits. */
  lemma {:induction false} EveryRound(t: seq<Event>, i: nat, k: nat, n: nat)
    requires Chained(t, i) && k < |t| && 1 <= n <= t[k].round
    ensures exists j :: 0 <= j <= k && t[j].Executed? && !t[j].again && t[j].round == n
    decreases k
  {
    if k == 0 {
      assert t[0].round == n;
    } else {
      assert Follows(t[k - 1], t[k], i);
      if n <= t[k - 1].round {
        EveryRound(t, i, k - 1, n);
        var j :| 0 <= j <= k - 1 && t[j].Executed? && !t[j].again && t[j].round == n;
        assert j <= k;
      }
    }
  }

  function Supplies(t: seq<Event>): nat {
    if t == [] then 0 else Supplies(t[..|t| - 1]) + if t[|t| - 1].Supplied? then 1 else 0
  }

  lemma {:induction false} SuppliesUpTo(t: seq<Event>, i: nat)
    requires Chained(t, i)
    ensures Supplies(t) <= t[|t| - 1].round && (!t[|t| - 1].Supplied? ==> Supplies(t) < t[|t| - 1].round)
  {
    var p, e := t[..|t| - 1], t[|t| - 1];
    if p == [] {
    } else {
      assert forall k :: 0 <= k < |p| - 1 ==> Follows(p[k], p[k + 1], i) by {
        forall k | 0 <= k < |p| - 1 ensures Follows(p[k], p[k + 1], i) {
          assert Follows(t[k], t[k + 1], i);
        }
      }
      SuppliesUpTo(p, i);
      assert Follows(t[|p| - 1], t[|p|], i);
    }
  }

  lemma {:induction false} RoundsBounded(t: seq<Event>, i: nat, k: nat)
    requires Chained(t, i) && k < |t|
    ensures t[k].round <= if t[k].Executed? && !t[k].again then 11 else 10
    decreases k
  {
    if k > 0 {
      assert Follows(t[k - 1], t[k], i);
      RoundsBounded(t, i, k - 1);
    }
  }

  /** The outer loop executed the context in round n, and it had to wait. */
  predicate WaitedIn(t: seq<Event>, n: nat) {
    exists j :: 0 <= j < |t| && t[j].Executed? && !t[j].again && t[j].round == n && t[j].code == WAITING
  }

  /** The transport or the signer is called at most ten times; a context that waits is given up after eleven rounds. */
  lemma TenRounds(t: seq<Event>, i: nat, r: Option<Ret>)
    requires Drives(t, i, r)
    ensures Supplies(t) <= 10
    ensures t[|t| - 1].Executed? && t[|t| - 1].code == WAITING && r.Some? ==>
              r == Some(ERPC) && forall n: nat :: 1 <= n <= 11 ==> WaitedIn(t, n)
  {
    SuppliesUpTo(t, i);
    var last := |t| - 1;
    RoundsBounded(t, i, last);
    if t[last].Executed? && t[last].code == WAITING && r.Some? {
      forall n: nat | 1 <= n <= 11 ensures WaitedIn(t, n) {
        EveryRound(t, i, last, n);
        var j :| 0 <= j <= last && t[j].Executed? && !t[j].again && t[j].round == n;
        if j < last { assert Follows(t[j], t[j + 1], i); }
      }
    }
  }
}
