/** in3_ctx_execute: one resumable step of a request and of the contexts it requires; in3_send_ctx drives it. */
module ExecMachine {
  import opened Wrappers
  import opened ExecModel
  import opened ExecTrace
  import opened ExecHandling

  class Machine {
    const maxAttempts: nat
    /** in3_find_chain and in3_get_verifier succeed; a transport and a signer are configured. */
    const chainKnown: bool
    const verifierKnown: bool
    const hasTransport: bool
    const hasSigner: bool
    var stack: seq<Ctx>
    var created: nat
    /** Verifier calls that succeeded, and that failed. */
    ghost var passed: set<Check>
    ghost var refused: set<Check>
    /** How often the environment answered that it has to wait, and how often that it failed. */
    ghost var waits: nat
    ghost var fails: nat
    /** What was executed, and what the environment was asked before there was an answer, in order. */
    ghost var log: seq<Act>
    /** How many required contexts in3_send_ctx was called for. */
    ghost var subs: nat
    /** How many transport or signer calls were made while a required context had not succeeded. */
    ghost var early: nat
    /** How many required contexts were given up because their failure could be ignored. */
    ghost var ignored: nat

    constructor (maxAttempts: nat, chainKnown: bool, verifierKnown: bool, hasTransport: bool, hasSigner: bool,
                 first: Ctx)
      requires first.id == 0 && Shaped(first) && first.attempt == 0 && first.state == WAITING && first.sends == 0
      requires first.raw.None? && first.nodes.None? && first.parsed.None?
      ensures Valid() && stack == [first]
    {
      this.maxAttempts, this.chainKnown, this.verifierKnown, this.hasTransport, this.hasSigner :=
        maxAttempts, chainKnown, verifierKnown, hasTransport, hasSigner;
      stack, created, passed, refused, log, waits, fails, subs, early, ignored :=
        [first], 1, {}, {}, [], 0, 0, 0, 0, 0;
    }

    ghost predicate Valid()
      reads this
    {
      AllInv(stack, maxAttempts, passed) && Named(stack, created)
    }

    // ----- the environment: every answer is possible ------------------------------------

    /** ctx_add_required together with the first execution of the new context, which has to wait. */
    method AddRequired(i: nat)
      requires Valid() && i < |stack|
      modifies this`stack, this`created
      ensures Valid() && created == old(created) + 1 && |stack| == |old(stack)| + 1
      ensures Pushed(old(stack), stack, i, old(created))
    {
      var kind: Kind, len: nat, mayFail: bool, picked: nat := *, *, *, *;
      var nodes := if picked == 0 || kind == Sign then None else Some(seq(picked, _ => Node(false, 0, 0, 0)));
      var c := Ctx(created, kind, true, len + 1, mayFail, 0, false, WAITING, nodes, None, None, 0);
      hide AllInv, Named;
      assert Fresh(c, created);
      InsertKeeps(stack, i + 1, c, created, maxAttempts, passed);
      ghost var before := stack;
      stack, created := Insert(stack, i + 1, c), created + 1;
      assert stack == Insert(before, i + 1, c);
    }

    /** Any verifier, node picker or pre-handler: it may need another context first. */
    method Ask(i: nat) returns (ret: Ret)
      requires Valid() && i < |stack|
      modifies this`stack, this`created, this`waits, this`fails
      ensures Valid() && Pushed(old(stack), stack, i, old(created))
              && created == old(created) + (|stack| - |old(stack)|)
      ensures ret != WAITING ==> stack == old(stack)
      ensures waits == old(waits) + if ret == WAITING then 1 else 0
      ensures fails == old(fails) + if ret == WAITING || ret == OK then 0 else 1
    {
      ret := *;
      waits := waits + if ret == WAITING then 1 else 0;
      fails := fails + if ret == WAITING || ret == OK then 0 else 1;
      var needsMore: bool := *;
      if ret == WAITING && needsMore {
        AddRequired(i);
      }
    }

    /** verifier->verify for request k with the response of node n. */
    method Verify(i: nat, n: nat, k: nat) returns (ret: Ret)
      requires Valid() && i < |stack|
      modifies this`stack, this`created, this`passed, this`refused, this`waits, this`fails
      ensures Valid() && Pushed(old(stack), stack, i, old(created))
              && created == old(created) + (|stack| - |old(stack)|)
      ensures ret != WAITING ==> stack == old(stack)
      ensures fails == old(fails) && waits == old(waits) + if ret == WAITING then 1 else 0
      ensures passed == if ret == OK then old(passed) + {CheckOf(old(stack)[i], n, k)} else old(passed)
      ensures ret == OK || ret == WAITING ==> refused == old(refused)
      ensures ret != OK && ret != WAITING ==> refused == old(refused) + {CheckOf(old(stack)[i], n, k)}
    {
      ghost var c := stack[i];
      ret := Ask(i);
      fails := old(fails);
      if ret == OK {
        AllInvGrows(stack, maxAttempts, passed, passed + {CheckOf(c, n, k)});
        passed := passed + {CheckOf(c, n, k)};
      } else if ret != WAITING {
        refused := refused + {CheckOf(c, n, k)};
      }
    }

    /** Stores context i back. */
    method Update(i: nat, c: Ctx)
      requires Valid() && i < |stack| && c.id == stack[i].id && Inv(c, maxAttempts, passed)
      modifies this`stack
      ensures Valid() && stack == old(stack)[i := c]
    {
      stack := stack[i := c];
    }

    // ----- find_valid_result ------------------------------------------------------------------

    /** Is a missing result retried with another attempt? `max_attempts - 1` wraps around for 0. */
    predicate MayRetry(c: Ctx) { maxAttempts == 0 || c.attempt < maxAttempts - 1 }

    /**
     * The else-branch of the node loop: parse the response of node n and check every answer in it.
     * The context is handed in and out as a value; it is stored again before anything else looks at it.
     */
    method CheckResponse(i: nat, c: Ctx, n: nat) returns (d: Ctx, waiting: bool)
      requires Valid() && i < |stack| && c.id == stack[i].id && c.attempt == stack[i].attempt
      requires Shaped(c) && c.kind == Rpc && c.len >= 1 && c.raw.Some? && n < |c.raw.value|
      requires !c.raw.value[n].failed && c.raw.value[n].body != Empty
      modifies this`stack, this`created, this`passed, this`refused, this`waits, this`fails
      ensures Valid() && Pushed(old(stack), stack, i, old(created))
              && created == old(created) + (|stack| - |old(stack)|)
      ensures old(passed) <= passed && old(refused) <= refused
      ensures Handling(c, d) && (waiting ==> d.state == WAITING)
      ensures fails == old(fails) && old(waits) <= waits && (waiting ==> old(waits) < waits)
      ensures !waiting ==> stack == old(stack) && Judged(d, passed, n)
      ensures waiting ==> Parses(c, n)
      ensures Verdict(c, d, n, MayRetry(c), passed, refused)
      ensures (maxAttempts == 0 || c.attempt + 1 < maxAttempts) && (waiting || InPlay(d, n)) ==>
                Resulted(c, n, if waiting then 1 else c.len)
      ensures d.error == (c.error || Garbled(c, n))
    {
      hide AllInv, Named, Moved, Shaped, Insert, Handling, Judged, Verdict, Parses, Garbled, Resulted, Rejected;
      hide InPlay, Tree;
      var body := c.raw.value[n].body;
      var answers := Answers(body, c.len);
      ParsedOrGarbled(c, n);
      if answers.None? {
        GarbledHandles(c, n, MayRetry(c), passed, refused);
        return Rejected(c.(parsed := Tree(body), error := true, state := EINVALDT), n), false;
      }
      d := c.(parsed := Tree(body));
      for k := 0 to c.len
        invariant Valid() && stack == old(stack) && created == old(created) && old(passed) <= passed
                  && old(refused) <= refused
        invariant d == c.(parsed := Some(body), state := d.state)
        invariant fails == old(fails) && waits == old(waits)
        invariant k > 0 ==> d.state == OK
        invariant forall j :: 0 <= j < k ==> Check(c.id, c.attempt, n, j) in passed
        invariant maxAttempts == 0 || c.attempt + 1 < maxAttempts ==>
                    forall j :: 0 <= j < k ==> answers.value[j].hasResult
      {
        if !answers.value[k].hasResult && MayRetry(d) {
          RefusedHandles(c, n, k, ERPC, MayRetry(c), passed, refused);
          d := d.(state := ERPC);
          return Rejected(d, n), false;
        }
        var res := Verify(i, n, k);
        d := d.(state := res);
        if res == WAITING {
          WaitingHandles(c, n, MayRetry(c), passed, refused);
          if MayRetry(c) { ResultedUpTo(c, n, 1); }
          return d, true;
        } else if res < 0 {
          RefusedHandles(c, n, k, res, MayRetry(c), passed, refused);
          return Rejected(d, n), false;
        }
      }
      VerifiedHandles(c, n, d.state, MayRetry(c), passed, refused);
      if MayRetry(c) { ResultedUpTo(c, n, c.len); }
      return d, false;
    }

    /** Timing and judging one node: the body of the loop of find_valid_result up to its verdict. */
    method HandleNode(i: nat, c: Ctx, n: nat) returns (d: Ctx, waiting: bool)
      requires Valid() && i < |stack| && c.id == stack[i].id && c.attempt == stack[i].attempt
      requires Shaped(c) && c.kind == Rpc && c.len >= 1 && c.raw.Some? && n < |c.raw.value|
      requires c.nodes.None? ==> !Accepted(c)
      modifies this`stack, this`created, this`passed, this`refused, this`waits, this`fails
      ensures Valid() && Pushed(old(stack), stack, i, old(created))
              && created == old(created) + (|stack| - |old(stack)|)
      ensures old(passed) <= passed && old(refused) <= refused
      ensures Handling(c, d) && (waiting ==> d.state == WAITING)
      ensures fails == old(fails) && old(waits) <= waits && (waiting ==> old(waits) < waits)
      ensures !waiting ==> stack == old(stack) && Judged(d, passed, n)
      ensures Screened(c, d, n, MayRetry(c), passed, refused) && OnlyNode(c, d, n) && OutOfPlay(c, d)
      ensures (maxAttempts == 0 || c.attempt + 1 < maxAttempts) && (waiting || InPlay(d, n)) ==>
                Resulted(c, n, if waiting then 1 else c.len)
      ensures d.error == (c.error || Garbled(c, n)) && (waiting ==> Parses(c, n))
    {
      hide AllInv, Named, Moved, Insert, Screened, OnlyNode;
      TimedHandles(c, n);
      var t := Timed(c, n);
      if t.raw.value[n].failed || t.raw.value[n].body == Empty {
        RejectedJudged(c, t, n);
        d, waiting := Rejected(t, n), false;
      } else {
        d, waiting := CheckResponse(i, t, n);
        HandlingTwice(c, t, d);
        SameResulted(c, t, n, if waiting then 1 else c.len);
      }
      VerdictScreens(c, d, n, MayRetry(c), passed, refused);
    }

    /** find_valid_result */
    method FindValidResult(i: nat) returns (r: Ret, ghost reached: nat)
      requires Valid() && i < |stack| && stack[i].kind == Rpc && stack[i].hasMethod && stack[i].raw.Some?
      requires !stack[i].error && !Accepted(stack[i])
      modifies this`stack, this`created, this`passed, this`refused, this`waits, this`fails
      ensures r == OK || r == WAITING || r == EINVAL
      ensures fails == old(fails) && old(waits) <= waits && (r == WAITING ==> old(waits) < waits)
      ensures i < |stack| && Handling(old(stack)[i], stack[i])
      ensures Pushed(old(stack)[i := stack[i]], stack, i, old(created))
              && created == old(created) + (|stack| - |old(stack)|)
      ensures old(passed) <= passed && old(refused) <= refused
      ensures r != WAITING ==> stack == old(stack)[i := stack[i]]
      ensures r != EINVAL ==> Valid()
      ensures r == EINVAL ==> AllInv(stack[i := GivenUp(stack[i])], maxAttempts, passed) && Named(stack, created)
      ensures AllScreened(old(stack)[i], stack[i], reached, MayRetry(old(stack)[i]), passed, refused)
      ensures Untouched(old(stack)[i], stack[i], reached) && OutOfPlay(old(stack)[i], stack[i])
      ensures 0 < maxAttempts <= old(stack)[i].attempt + 1 ==>
                forall n: nat ::
                  n < reached && InPlay(old(stack)[i], n) && !InPlay(stack[i], n) && Parses(old(stack)[i], n) ==>
                    Refused(old(stack)[i], n, refused)
      ensures (maxAttempts == 0 || old(stack)[i].attempt + 1 < maxAttempts)
              && (r == WAITING || (r == OK && stack[i].nodes.Some?)) ==>
                reached > 0 && Resulted(old(stack)[i], reached - 1, if r == WAITING then 1 else old(stack)[i].len)
      ensures stack[i].error <==> AnyGarbled(stack[i], reached)
      ensures r == WAITING ==> stack[i].state == WAITING && reached > 0 && Parses(stack[i], reached - 1)
      ensures r == OK ==> Finished(stack[i], passed)
      ensures r == OK && stack[i].nodes.Some? ==> reached > 0 && AcceptedFrom(stack[i], passed, reached - 1)
      ensures r == EINVAL ==> stack[i].nodes.Some? && reached == |stack[i].nodes.value|
      ensures r == EINVAL ==> forall m :: 0 <= m < reached ==> stack[i].nodes.value[m].rejected
    {
      hide AllInv, Named, Moved, Insert, AllScreened, Screened, Untouched, OnlyNode, Garbled, AnyGarbled;
      hide Parses, Judged, Accepted, AcceptedFrom, Resulted, Refused, OutOfPlay, Internal;
      var c := stack[i];
      InvOf(stack, i);
      var count := if c.nodes.None? then 1 else |c.nodes.value|;
      HandlingSelf(c);
      NoneScreened(c, MayRetry(c), passed, refused);
      GarbledNext(c, 0);
      for n := 0 to count
        invariant Valid() && stack == old(stack) && created == old(created) && old(passed) <= passed
                  && old(refused) <= refused
        invariant Handling(stack[i], c)
        invariant fails == old(fails) && old(waits) <= waits
        invariant AllScreened(stack[i], c, n, MayRetry(stack[i]), passed, refused) && Untouched(stack[i], c, n)
        invariant OutOfPlay(stack[i], c) && (c.nodes.None? ==> !Accepted(c))
        invariant c.nodes.Some? ==> forall m :: 0 <= m < n ==> c.nodes.value[m].rejected
        invariant c.nodes.None? ==> n == 0
        invariant c.error <==> AnyGarbled(stack[i], n)
      {
        ghost var before, passed', refused' := c, passed, refused;
        var waiting;
        HandlingKeeps(stack[i], c);
        c, waiting := HandleNode(i, c, n);
        GarbledNext(old(stack)[i], n);
        SameGarbled(old(stack)[i], before, n);
        assert c.nodes.Some? ==> forall m :: 0 <= m < n ==> c.nodes.value[m].rejected by { StillRejected(before, c); }
        ScreenedNext(old(stack)[i], before, c, n, MayRetry(old(stack)[i]), passed', refused', passed, refused);
        StaysOutOfPlay(old(stack)[i], before, c);
        SameResulted(old(stack)[i], before, n, if waiting then 1 else c.len);
        if !MayRetry(old(stack)[i]) { OnlyRefused(old(stack)[i], c, n + 1, passed, refused); }
        HandlingTwice(old(stack)[i], before, c);
        HandlingKeeps(old(stack)[i], c);
        SameGarbled(old(stack)[i], c, n);
        SameGarbled(old(stack)[i], c, n + 1);
        if waiting { SameParses(before, c, n); }
        PushedKeeps(old(stack), stack, i, old(created), c);
        reached := n + 1;
        if waiting {
          WaitingInv(old(stack)[i], c, maxAttempts, passed);
          Update(i, c);
          return WAITING, reached;
        }
        if c.nodes.None? || !c.nodes.value[n].rejected {
          AcceptedInv(stack[i], c, n, maxAttempts, passed);
          Update(i, c);
          return OK, reached;
        }
      }
      SameGarbled(old(stack)[i], c, count);
      if !MayRetry(old(stack)[i]) { OnlyRefused(old(stack)[i], c, count, passed, refused); }
      FreedInv(stack, i, c, maxAttempts, passed);
      stack := stack[i := c];
      return EINVAL, count;
    }

    // ----- in3_ctx_execute ------------------------------------------------------------------

    /** ctx_set_error_intern */
    method SetError(i: nat, code: Ret) returns (r: Ret)
      requires Valid() && i < |stack| && code != OK
      modifies this`stack
      ensures Valid() && r == code && stack == old(stack)[i := Failed(old(stack)[i], code)]
      ensures if code == WAITING then stack == old(stack)
              else stack == old(stack)[i := old(stack)[i].(error := true, state := code)]
    {
      stack := stack[i := Failed(stack[i], code)];
      return code;
    }

    /** verifier->pre_handle: may answer the request itself, as long as no nodes are picked for it. */
    method PreHandle(i: nat) returns (r: Ret)
      requires Valid() && i < |stack| && stack[i].raw.None? && !stack[i].error
      modifies this`stack, this`created, this`waits, this`fails, this`log
      ensures Valid() && created == old(created) + (|stack| - |old(stack)|)
      ensures r == WAITING ==> Pushed(old(stack), stack, i, old(created))
      ensures r != WAITING && r != OK ==> stack == old(stack)
      ensures r == OK ==>
                && |stack| == |old(stack)| && Provided(old(stack)[i], stack[i])
                && stack == old(stack)[i := stack[i]]
      ensures old(waits) <= waits && (r == WAITING ==> old(waits) < waits)
      ensures r == OK ==> stack[i].nodes == old(stack)[i].nodes
      ensures log == old(log) + [PreHandled(old(stack)[i].id, r)]
      ensures old(fails) <= fails && (r != OK && r != WAITING ==> old(fails) < fails)
    {
      r := Ask(i);
      log := log + [PreHandled(old(stack)[i].id, r)];
      var answers: bool, response: Response := *, *;
      if r == OK && answers && stack[i].nodes.None? {
        stack := stack[i := stack[i].(raw := Some([response]))];
      }
    }

    /** in3_node_list_pick_nodes: at least one node, none of them rejected yet. */
    method PickNodes(i: nat) returns (r: Ret)
      requires Valid() && i < |stack| && stack[i].raw.None? && stack[i].nodes.None? && !stack[i].error
               && stack[i].kind == Rpc
      modifies this`stack, this`created, this`waits, this`fails, this`log
      ensures Valid() && created == old(created) + (|stack| - |old(stack)|)
      ensures r == WAITING ==> Pushed(old(stack), stack, i, old(created))
      ensures r != WAITING && r != OK ==> stack == old(stack)
      ensures r == OK ==>
                && |stack| == |old(stack)| && Provided(old(stack)[i], stack[i])
                && stack == old(stack)[i := stack[i]]
      ensures r == OK ==> stack[i].raw.None? && stack[i].nodes.Some? && |stack[i].nodes.value| >= 1
      ensures r == OK ==> forall n :: 0 <= n < |stack[i].nodes.value| ==>
                            !stack[i].nodes.value[n].rejected && stack[i].nodes.value[n].pending == 0
      ensures old(waits) <= waits && (r == WAITING ==> old(waits) < waits)
      ensures log == old(log) + [Picked(old(stack)[i].id, r)]
      ensures old(fails) <= fails && (r != OK && r != WAITING ==> old(fails) < fails)
    {
      r := Ask(i);
      if r == OK {
        var picked: seq<Node> := *;
        if picked == [] {
          fails := fails + 1;
          log := log + [Picked(old(stack)[i].id, EFIND)];
          return EFIND;
        }
        var nodes := seq(|picked|, n requires 0 <= n < |picked| =>
                           Node(false, picked[n].responses, picked[n].totalTime, 0));
        stack := stack[i := stack[i].(nodes := Some(nodes))];
      }
      log := log + [Picked(old(stack)[i].id, r)];
    }

    /** configure_request for entry k: it may have to pick nodes for signatures. */
    method Configure(i: nat, k: nat) returns (r: Ret)
      requires Valid() && i < |stack|
      modifies this`stack, this`created, this`waits, this`fails, this`log
      ensures Valid() && Pushed(old(stack), stack, i, old(created))
              && created == old(created) + (|stack| - |old(stack)|)
      ensures r != WAITING ==> stack == old(stack)
      ensures waits == old(waits) + if r == WAITING then 1 else 0
      ensures fails == old(fails) + if r == WAITING || r == OK then 0 else 1
      ensures log == old(log) + [Configured(old(stack)[i].id, k, r)]
    {
      ghost var id := stack[i].id;
      r := Ask(i);
      log := log + [Configured(id, k, r)];
    }

    /** Picks nodes for the request and configures every entry of it; the nodes stay if that has to wait. */
    method PickAndConfigure(i: nat) returns (r: Ret, ghost acts: seq<Act>)
      requires Valid() && i < |stack| && stack[i].raw.None? && stack[i].nodes.None? && !stack[i].error
               && stack[i].kind == Rpc
      modifies this`stack, this`created, this`waits, this`fails, this`log
      ensures Valid() && i < |stack| && created == old(created) + (|stack| - |old(stack)|)
      ensures Pushed(old(stack)[i := stack[i]], stack, i, old(created))
      ensures r != WAITING ==> stack == old(stack)[i := stack[i]]
      ensures r == OK || r == WAITING ==> Provided(old(stack)[i], stack[i])
      ensures r == OK ==> stack[i].nodes.Some?
      ensures r != OK && r != WAITING ==> exists d :: Provided(old(stack)[i], d) && stack[i] == Failed(d, r)
      ensures old(waits) <= waits && (r == WAITING ==> old(waits) < waits)
      ensures old(fails) <= fails && (r != OK && r != WAITING ==> old(fails) < fails)
      ensures stack[i].raw.None? && log == old(log) + acts && Picks(acts, old(stack)[i], r)
    {
      hide AllInv, Named, Insert;
      var c := stack[i];
      assert old(stack)[i := c] == old(stack);
      r := PickNodes(i);
      acts := [Picked(c.id, r)];
      if r != OK {
        if r == WAITING {
          PushedKeeps(old(stack), stack, i, old(created), c);
        } else {
          r := SetError(i, r);
        }
        return;
      }
      ghost var picked, configured := acts, [];
      for k := 0 to c.len
        invariant Valid() && created == old(created) && |stack| == |old(stack)| && stack == old(stack)[i := stack[i]]
        invariant Provided(c, stack[i]) && stack[i].nodes.Some? && stack[i].raw.None?
        invariant old(waits) <= waits && old(fails) <= fails
        invariant acts == picked + configured && log == old(log) + acts && |configured| == k
        invariant forall j :: 0 <= j < k ==> configured[j] == Configured(c.id, j, OK)
      {
        ghost var before := stack;
        r := Configure(i, k);
        configured := configured + [Configured(c.id, k, r)];
        acts := picked + configured;
        assert acts[1..] == configured;
        if r < 0 {
          PushedKeeps(before, stack, i, old(created), before[i]);
          r := SetError(i, r);
          return;
        }
      }
      assert acts[1..] == configured;
      return OK, acts;
    }

    /** The CT_RPC case up to the point where there is a response to look at. */
    method Prepare(i: nat) returns (r: Ret, ghost acts: seq<Act>)
      requires Valid() && i < |stack| && stack[i].kind == Rpc && !stack[i].error && !Accepted(stack[i])
      modifies this`stack, this`created, this`waits, this`fails, this`log
      ensures Valid() && i < |stack| && created == old(created) + (|stack| - |old(stack)|)
      ensures Moved(old(stack)[i], stack[i]) && stack[i].attempt == old(stack)[i].attempt
      ensures stack[i].kind == Rpc && stack[i].hasMethod == old(stack)[i].hasMethod
      ensures Pushed(old(stack)[i := stack[i]], stack, i, old(created))
      ensures r != WAITING ==> stack == old(stack)[i := stack[i]]
      ensures r == OK || r == WAITING ==> !stack[i].error
      ensures r == OK ==> stack[i].raw.Some? && !Accepted(stack[i])
      ensures r == OK || r == WAITING ==> chainKnown && verifierKnown
      ensures !chainKnown || !verifierKnown ==> r == EFIND && acts == []
      ensures r != OK && r != WAITING ==> stack[i].state == r
      ensures log == old(log) + acts
      ensures chainKnown && verifierKnown ==> Prepares(acts, old(stack)[i], stack[i].raw.Some?, r)
      ensures old(stack)[i].raw.Some? && chainKnown && verifierKnown ==> r == OK
      ensures r != OK && r != WAITING ==> stack[i].error
      ensures old(waits) <= waits && (r == WAITING && waits == old(waits) ==> Lacks(stack[i]))
      ensures r != OK && r != WAITING ==> old(fails) < fails || !chainKnown || !verifierKnown
    {
      hide AllInv, Named, Insert;
      var c := stack[i];
      LaterSelf(c);
      acts := [];
      if !chainKnown || !verifierKnown {
        r := SetError(i, EFIND);
        return;
      }
      if c.raw.None? {
        r := PreHandle(i);
        acts := [PreHandled(c.id, r)];
        if r < 0 {
          if r == WAITING { PushedKeeps(old(stack), stack, i, old(created), c); }
          r := SetError(i, r);
          return;
        }
      }
      if stack[i].raw.None? && stack[i].nodes.None? {
        assert stack[i] == c;
        assert stack == old(stack);
        ghost var asked, picks := acts, [];
        r, picks := PickAndConfigure(i);
        acts := asked + picks;
        assert acts[1..] == picks;
        if r != OK { return; }
      }
      r := if stack[i].raw.None? then WAITING else OK;
    }

    /** There is a response, and no attempt after this one. */
    predicate LastTry(c: Ctx) { c.raw.Some? && c.attempt + 1 >= maxAttempts }

    /** No response was valid: clean up, count the attempt, and decide whether to go on. */
    method GiveUpOrRetry(i: nat) returns (again: bool, r: Ret)
      requires i < |stack| && AllInv(stack[i := GivenUp(stack[i])], maxAttempts, passed) && Named(stack, created)
      modifies this`stack
      ensures Valid() && |stack| == |old(stack)| && stack == old(stack)[i := stack[i]]
      ensures Moved(old(stack)[i], stack[i]) && stack[i].attempt == old(stack)[i].attempt + 1
      ensures again == (stack[i].attempt < maxAttempts)
      ensures again ==> !stack[i].error && !Accepted(stack[i])
      ensures stack[i] == old(stack)[i].(nodes := None, raw := None, parsed := None, error := !again,
                                         attempt := stack[i].attempt, state := stack[i].state)
      ensures stack[i].state ==
                if again || (old(stack)[i].error && !old(stack)[i].mayFail) then old(stack)[i].state else r
      ensures !again ==> stack[i].error && stack[i].attempt == Limit(maxAttempts)
      ensures !again ==> r == GiveUpCode(old(stack)[i].error, old(stack)[i].mayFail)
      ensures !again ==> r == if !old(stack)[i].error then ELIMIT else if old(stack)[i].mayFail then EIGNORE else EINVAL
    {
      hide Named;
      InvOf(stack[i := GivenUp(stack[i])], i);
      var c := ResponseFree(stack[i]);
      c := c.(attempt := c.attempt + 1);
      if c.attempt < maxAttempts {
        again, r, c := true, OK, c.(error := false);
      } else {
        again, r := false, EINVAL;
        if c.mayFail {
          r, c := EIGNORE, c.(state := EIGNORE);
        }
        if !c.error {
          r, c := ELIMIT, c.(error := true, state := ELIMIT);
        }
      }
      Replaced(stack, i, GivenUp(stack[i]), c, created, maxAttempts, passed);
      stack := stack[i := c];
    }

    /** One attempt of a request whose required contexts are done: up to the decision whether there is another one. */
    method TryOnce(i: nat, ghost below: map<nat, nat>) returns (r: Ret, again: bool, ghost looked: map<nat, nat>)
      requires Valid() && i < |stack| && stack[i].kind == Rpc && stack[i].hasMethod && !stack[i].error
               && !Accepted(stack[i])
      requires Blocked(stack, i + 1) <==> Spoiled(stack, i + 1, below)
      requires forall j :: 0 <= j <= i ==> stack[j].id !in below
      modifies this`stack, this`created, this`passed, this`refused, this`waits, this`fails, this`log
      ensures Valid() && i < |stack| && created == old(created) + (|stack| - |old(stack)|)
      ensures old(passed) <= passed && old(refused) <= refused && old(waits) <= waits
      ensures Moved(old(stack)[i], stack[i]) && stack[i].kind == Rpc && stack[i].hasMethod
      ensures Pushed(old(stack)[i := stack[i]], stack, i, old(created))
      ensures r != WAITING ==> stack == old(stack)[i := stack[i]]
      ensures again ==> r == EINVAL && !stack[i].error && !Accepted(stack[i])
      ensures again ==> stack[i].attempt == old(stack)[i].attempt + 1 < Limit(maxAttempts)
      ensures r == OK ==> Finished(stack[i], passed)
      ensures old(log) <= log
      ensures old(stack)[i].raw.None? && chainKnown && verifierKnown ==>
                |log| > |old(log)| && log[|old(log)|].PreHandled? && log[|old(log)|].id == old(stack)[i].id
      ensures r == OK || r == WAITING ==> (stack[i].error <==> AnyGarbled(stack[i], Count(looked, stack[i].id)))
      ensures r == OK || r == WAITING ==> (Blocked(stack, i) <==> Spoiled(stack, i, looked))
      ensures r == OK || r == WAITING ==> forall j :: 0 <= j < i ==> stack[j].id !in looked
      ensures r == WAITING && stack[i].error ==> stack[i].state == WAITING
      ensures r == WAITING && stack[i].raw.None? ==> !stack[i].error
      ensures r == WAITING ==> old(waits) < waits || Lacks(stack[i])
      ensures r != OK && r != WAITING && !again ==> stack[i].error
      ensures r != OK && r != WAITING && LastTry(old(stack)[i]) && chainKnown && verifierKnown ==>
                !again && r == GiveUpCode(AnyGarbled(old(stack)[i], |old(stack)[i].raw.value|), old(stack)[i].mayFail)
    {
      hide AllInv, Named, Insert, Moved, Pushed, Finished, Garbled, AnyGarbled, Blocked, Spoiled;
      ghost var was := stack;
      again, looked := false, below[stack[i].id := 0];
      ghost var acts;
      r, acts := Prepare(i);
      GarbledNext(stack[i], 0);
      if r != OK {
        HandledId(was[i], stack[i]);
        if r == WAITING { OwnStep(was, stack, i, old(created), created, below, 0); }
        PrefixIds(was, stack, i, old(created), created, below, 0);
        return;
      }
      ghost var prepared, reached := stack, 0;
      r, reached := FindValidResult(i);
      MovedTwice(was[i], prepared[i], stack[i]);
      HandledId(was[i], stack[i]);
      looked := below[stack[i].id := reached];
      assert prepared[i := stack[i]] == was[i := stack[i]];
      if r == WAITING || r == OK {
        OwnStep(was, stack, i, old(created), created, below, reached);
        PrefixIds(was, stack, i, old(created), created, below, reached);
        return;
      }
      ghost var judged := stack;
      if was[i].raw.Some? { GarbledKept(was[i], judged[i], reached); }
      again, r := GiveUpOrRetry(i);
      MovedTwice(was[i], judged[i], stack[i]);
      HandledId(was[i], stack[i]);
      assert stack == was[i := stack[i]];
      NothingPushed(stack, i, old(created));
      if again { r := EINVAL; }
    }

    /** The request case: attempts, until one is accepted, has to wait, or is the last. */
    method ExecuteRpc(i: nat, ghost below: map<nat, nat>) returns (r: Ret, ghost looked: map<nat, nat>)
      requires Valid() && i < |stack| && stack[i].kind == Rpc && stack[i].hasMethod && !stack[i].error
               && !Accepted(stack[i])
      requires i + 1 < |stack| ==> Finished(stack[i + 1], passed)
      requires Blocked(stack, i + 1) <==> Spoiled(stack, i + 1, below)
      requires forall j :: 0 <= j <= i ==> stack[j].id !in below
      modifies this`stack, this`created, this`passed, this`refused, this`waits, this`fails, this`log
      ensures r == OK && i + 1 < |stack| ==> Finished(stack[i + 1], passed)
      ensures Valid() && i < |stack| && created == old(created) + (|stack| - |old(stack)|)
      ensures old(passed) <= passed && old(refused) <= refused
      ensures Evolved(old(stack), stack, i, old(created))
      ensures r != WAITING ==> Same(old(stack), stack, i)
      ensures r == OK ==> Finished(stack[i], passed)
      ensures old(log) <= log
      ensures old(stack)[i].raw.None? && chainKnown && verifierKnown ==>
                |log| > |old(log)| && log[|old(log)|].PreHandled? && log[|old(log)|].id == old(stack)[i].id
      ensures r == OK || r == WAITING ==> (stack[i].error <==> AnyGarbled(stack[i], Count(looked, stack[i].id)))
      ensures r == OK || r == WAITING ==> (Blocked(stack, i) <==> Spoiled(stack, i, looked))
      ensures r == OK || r == WAITING ==> forall j :: 0 <= j < i ==> stack[j].id !in looked
      ensures r == WAITING && stack[i].error ==> stack[i].state == WAITING
      ensures r == OK || r == WAITING ==> stack[i].hasMethod
      ensures r == WAITING && stack[i].raw.None? ==> !stack[i].error
      ensures old(waits) <= waits && (r == WAITING ==> old(waits) < waits || SomeLacks(stack, i))
      ensures r != OK && r != WAITING ==> SomeBroken(stack, i) && stack[i] != old(stack)[i]
      ensures r != OK && r != WAITING && LastTry(old(stack)[i]) && chainKnown && verifierKnown ==>
                r == GiveUpCode(AnyGarbled(old(stack)[i], |old(stack)[i].raw.value|), old(stack)[i].mayFail)
      decreases |stack| - i, Limit(maxAttempts) - stack[i].attempt, 0
    {
      hide AllInv, Named, Insert, Moved, Evolved, Same, Pushed, Finished, SomeLacks, SomeBroken, Garbled, AnyGarbled;
      hide Blocked, Spoiled, Count, GiveUpCode;
      ghost var was := stack;
      var again;
      r, again, looked := TryOnce(i, below);
      StepEvolved(was, stack, i, stack[i], old(created));
      if i + 1 < |was| { FinishedGrows(was[i + 1], old(passed), passed); }
      if again {
        ghost var freed := stack;
        r, looked := Execute(i);
        AttemptGrew(was[i], freed[i], stack[i], freed, stack, i, created, old(created));
        SameThenEvolved(was, freed, stack, i, old(created));
        if r != WAITING { SameTwice(was, freed, stack, i); }
      } else {
        if r == WAITING && Lacks(stack[i]) { LacksAt(stack, i, i); }
        if stack[i].error { BrokenAt(stack, i, i); }
      }
    }

    /** The switch over the kind of the context, when the required contexts are done. */
    method ExecuteOwn(i: nat, ghost below: map<nat, nat>) returns (r: Ret, ghost looked: map<nat, nat>)
      requires Valid() && i < |stack| && stack[i].hasMethod && !stack[i].error && !Accepted(stack[i])
      requires i + 1 < |stack| ==> Finished(stack[i + 1], passed)
      requires Blocked(stack, i + 1) <==> Spoiled(stack, i + 1, below)
      requires forall j :: 0 <= j <= i ==> stack[j].id !in below
      modifies this`stack, this`created, this`passed, this`refused, this`waits, this`fails, this`log
      ensures Valid() && i < |stack| && created == old(created) + (|stack| - |old(stack)|)
      ensures old(passed) <= passed && old(refused) <= refused
      ensures Evolved(old(stack), stack, i, old(created))
      ensures r != WAITING ==> Same(old(stack), stack, i)
      ensures r == OK ==> Finished(stack[i], passed)
      ensures r == OK && i + 1 < |stack| ==> Finished(stack[i + 1], passed)
      ensures r == OK || r == WAITING ==> (stack[i].error <==> AnyGarbled(stack[i], Count(looked, stack[i].id)))
      ensures r == OK || r == WAITING ==> (Blocked(stack, i) <==> Spoiled(stack, i, looked))
      ensures r == OK || r == WAITING ==> forall j :: 0 <= j < i ==> stack[j].id !in looked
      ensures r == WAITING && stack[i].error ==> stack[i].state == WAITING
      ensures r == OK || r == WAITING ==> stack[i].hasMethod
      ensures r == WAITING && stack[i].raw.None? ==> !stack[i].error
      ensures old(waits) <= waits && (r == WAITING ==> old(waits) < waits || SomeLacks(stack, i))
      ensures r != OK && r != WAITING ==> SomeBroken(stack, i)
      ensures r != OK && r != WAITING && stack[i] == old(stack)[i] ==>
                r == ERPC && stack[i].kind == Sign && Broken(stack[i])
      ensures old(stack)[i].kind == Sign ==> stack == old(stack) && log == old(log)
      ensures old(stack)[i].kind == Sign && old(stack)[i].raw.None? ==> r == WAITING
      ensures old(log) <= log
      ensures old(stack)[i].kind == Rpc && old(stack)[i].raw.None? && chainKnown && verifierKnown ==>
                |log| > |old(log)| && log[|old(log)|].PreHandled? && log[|old(log)|].id == old(stack)[i].id
      decreases |stack| - i, Limit(maxAttempts) - stack[i].attempt, 1
    {
      hide AllInv, Named, Insert, Moved, Pushed, SomeLacks, SomeBroken, Garbled, AnyGarbled, Internal;
      hide Blocked, Spoiled, Count, Evolved, Same;
      var c := stack[i];
      match c.kind
      case Rpc =>
        r, looked := ExecuteRpc(i, below);
      case Sign =>
        InvOf(stack, i);
        SameSelf(stack, i, created);
        looked := below;
        NothingLooked(stack, i, below);
        if Lacks(c) { LacksAt(stack, i, i); }
        if c.raw.None? {
          r := WAITING;
        } else if c.raw.value[0].failed {
          BrokenAt(stack, i, i);
          r := ERPC;
        } else {
          r := if c.raw.value[0].body == Empty then WAITING else OK;
        }
    }

    /** in3_ctx_execute */
    method Execute(i: nat) returns (r: Ret, ghost looked: map<nat, nat>)
      requires Valid() && i < |stack|
      modifies this`stack, this`created, this`passed, this`refused, this`waits, this`fails, this`log
      ensures Valid() && i < |stack| && created == old(created) + (|stack| - |old(stack)|)
      ensures old(passed) <= passed && old(refused) <= refused
      ensures Evolved(old(stack), stack, i, old(created))
      ensures r != WAITING ==> Same(old(stack), stack, i)
      ensures Blocked(old(stack), i) ==> stack == old(stack) && r == BlockedBy(old(stack), i)
      ensures old(stack)[i].error ==>
                var state := old(stack)[i].state;
                r == if state != OK && state != WAITING then state else EUNKNOWN
      ensures r != OK && r != WAITING && stack == old(stack) ==> Blocked(old(stack), i) || SignFails(old(stack), i)
      ensures Stuck(old(stack), i) ==> stack == old(stack) && r == WAITING
      ensures Done(old(stack)[i]) ==> stack == old(stack) && r == OK
      ensures AwaitsSigner(old(stack), i) ==> stack == old(stack) && r == WAITING
      ensures !old(stack)[i].error && !old(stack)[i].hasMethod ==>
                r == ECONFIG && stack == old(stack)[i := Failed(old(stack)[i], ECONFIG)]
      ensures r != OK && r != WAITING && stack == old(stack) && !Blocked(old(stack), i) ==> r == ERPC
      ensures old(log) + [Visit(old(stack)[i].id)] <= log
      ensures old(stack)[i].error || !old(stack)[i].hasMethod || Accepted(old(stack)[i]) ==>
                log == old(log) + [Visit(old(stack)[i].id)]
      ensures !old(stack)[i].error && old(stack)[i].hasMethod && !Accepted(old(stack)[i]) && i + 1 < |old(stack)| ==>
                old(log) + [Visit(old(stack)[i].id)] + [Visit(old(stack)[i + 1].id)] <= log
      ensures !old(stack)[i].error && old(stack)[i].hasMethod && !Accepted(old(stack)[i]) && i + 1 == |old(stack)|
              && old(stack)[i].kind == Rpc && old(stack)[i].raw.None? && chainKnown && verifierKnown ==>
                && |log| > |old(log)| + 1
                && log[|old(log)| + 1].PreHandled? && log[|old(log)| + 1].id == old(stack)[i].id
      ensures r == OK ==> Finished(stack[i], passed)
      ensures r == OK && i + 1 < |stack| && !Accepted(old(stack)[i]) ==> Finished(stack[i + 1], passed)
      ensures r == OK || r == WAITING ==> (stack[i].error <==> AnyGarbled(stack[i], Count(looked, stack[i].id)))
      ensures r == OK || r == WAITING ==> (Blocked(stack, i) <==> Spoiled(stack, i, looked))
      ensures r == OK || r == WAITING ==> forall j :: 0 <= j < i ==> stack[j].id !in looked
      ensures r == WAITING && stack[i].error ==> stack[i].state == WAITING
      ensures r == OK || r == WAITING ==> stack[i].hasMethod
      ensures r == WAITING && stack[i].raw.None? ==> !stack[i].error
      ensures old(waits) <= waits && (r == WAITING ==> old(waits) < waits || SomeLacks(stack, i))
      ensures r != OK && r != WAITING ==> SomeBroken(stack, i)
      decreases |stack| - i, Limit(maxAttempts) - stack[i].attempt
    {
      hide AllInv, Named, Insert, Moved, Evolved, Same, Pushed, SomeLacks, SomeBroken, Garbled, AnyGarbled;
      hide Blocked, BlockedBy, SignFails, Stuck, AwaitsSigner, Done, State, Spoiled, Count, Finished;
      var c := stack[i];
      ghost var below: map<nat, nat> := map[];
      looked := below;
      log := log + [Visit(c.id)];
      GarbledNext(c, 0);
      Links(stack, i);
      if !c.error { BlockedBelow(stack, i); }
      if c.error {
        BrokenAt(stack, i, i);
        SameSelf(stack, i, old(created));
        r := if c.state != OK && c.state != WAITING then c.state else EUNKNOWN;
        return;
      }
      if !c.hasMethod {
        r := SetError(i, ECONFIG);
        BrokenAt(stack, i, i);
        FailedMoves(c, ECONFIG);
        StepSame(old(stack), i, stack[i]);
        SameIsEvolved(old(stack), stack, i, old(created));
        return;
      }
      if c.parsed.Some? && c.state == OK {
        DoneFinished(stack, i, maxAttempts, passed);
        SameSelf(stack, i, old(created));
        r := OK;
        return;
      }
      if i + 1 < |stack| {
        r, below := Execute(i + 1);
        if r != OK {
          looked := below;
          EvolvedBelow(old(stack), stack, i, old(created));
          if r == WAITING { NothingLooked(stack, i, below); }
          if r != WAITING { SameBelow(old(stack), stack, i); }
          LacksBelow(stack, i);
          BrokenBelow(stack, i);
          return;
        }
        SameBelow(old(stack), stack, i);
      } else {
        SameSelf(stack, i, old(created));
      }
      ghost var ready := stack;
      r, looked := ExecuteOwn(i, below);
      SameThenEvolved(old(stack), ready, stack, i, old(created));
      if r != WAITING { SameTwice(old(stack), ready, stack, i); }
    }

    /**
     * Executing a context again after OK or WAITING; `mid` is the chain in between. It is refused, and nothing changes,
     * exactly if the chain is blocked, and that is so exactly if, on the way to an accepted context, a response that
     * the first execution looked at does not parse. Otherwise the second execution answers OK or WAITING, or something
     * new has happened, or a signature has failed.
     */
    method ExecuteAgain(i: nat) returns (first: Ret, second: Ret, ghost mid: seq<Ctx>, ghost looked: map<nat, nat>)
      requires Valid() && i < |stack|
      modifies this`stack, this`created, this`passed, this`refused, this`waits, this`fails, this`log
      ensures Valid() && i < |stack| && i < |mid|
      ensures first == OK || first == WAITING ==> (Blocked(mid, i) <==> Spoiled(mid, i, looked))
      ensures Blocked(mid, i) ==> second == BlockedBy(mid, i) && stack == mid
      ensures !Blocked(mid, i) ==> second == OK || second == WAITING || stack != mid || SignFails(mid, i)
      ensures first == OK && mid[i].nodes.Some? ==> (Blocked(mid, i) <==> AnyGarbled(mid[i], Count(looked, mid[i].id)))
      ensures first == OK && mid[i].nodes.Some? && !Blocked(mid, i) ==> second == OK && stack == mid
    {
      hide AllInv, Named, Insert, Moved, Evolved, Same, Pushed, SomeLacks, SomeBroken, Garbled, AnyGarbled;
      first, looked := Execute(i);
      mid := stack;
      InvOf(stack, i);
      if !mid[i].error { BlockedBelow(mid, i); }
      ghost var ignored;
      second, ignored := Execute(i);
    }

    /** Two nodes that nobody has rejected; the first has sent no JSON, the second a result. */
    predicate GarbledThenGood(c: Ctx) {
      && c.kind == Rpc && c.hasMethod && c.len == 1 && !c.error && c.parsed.None?
      && c.raw == Some([Response(false, Opaque), Response(false, Single(Entry(true)))])
      && c.nodes.Some? && forall n :: 0 <= n < |c.nodes.value| ==> !c.nodes.value[n].rejected
    }

    /**
     * The smallest case: unless the verifier refuses the second response, the request is accepted or waits, with an
     * error, and an execution changes nothing any more.
     */
    method SpoiledByFirstNode(i: nat) returns (first: Ret, second: Ret)
      requires Valid() && i < |stack| && GarbledThenGood(stack[i])
      modifies this`stack, this`created, this`passed, this`refused, this`waits, this`fails, this`log
      ensures first == OK || first == WAITING || (first == EINVAL && CheckOf(old(stack)[i], 1, 0) in refused)
      ensures first == OK || first == WAITING ==>
                && Valid() && i < |stack| && stack[i].error && stack[i].id == old(stack)[i].id
                && second == EUNKNOWN && Refusal(stack[i]) == EUNKNOWN
      ensures (first == OK || first == WAITING) && i > 0 ==> stack[i - 1] == old(stack)[i - 1]
    {
      hide AllInv, Named, Insert, Evolved, Same, SomeLacks, SomeBroken;
      ghost var c := stack[i];
      InvOf(stack, i);
      ghost var reached;
      first, reached := FindValidResult(i);
      second := first;
      assert Garbled(c, 0);
      if first == EINVAL {
        assert Screened(c, stack[i], 1, MayRetry(c), passed, refused);
      } else {
        assert Garbled(stack[i], 0);
        PushedKeeps(old(stack)[i := stack[i]], stack, i, old(created), stack[i]);
        assert i > 0 ==> stack[i - 1] == stack[..i][i - 1] == old(stack)[..i][i - 1];
        ghost var looked;
        second, looked := Execute(i);
      }
    }

    /**
     * The same request, required by another one that has no response of its own yet. Executing that one judges the
     * required one first; afterwards it has no error, and all the same it can never be executed again.
     */
    method SpoiledRequired(i: nat) returns (first: Ret, second: Ret)
      requires Valid() && i + 1 < |stack| && GarbledThenGood(stack[i + 1])
      requires stack[i].hasMethod && !stack[i].error && stack[i].raw.None?
      modifies this`stack, this`created, this`passed, this`refused, this`waits, this`fails, this`log
      ensures first == OK || first == WAITING || (first == EINVAL && CheckOf(old(stack)[i + 1], 1, 0) in refused)
      ensures first == OK || first == WAITING ==>
                && i < |stack| && stack[i] == old(stack)[i] && !stack[i].error
                && Blocked(stack, i) && BlockedBy(stack, i) == second == EUNKNOWN
    {
      hide AllInv, Named, Insert, Evolved, Same, SomeLacks, SomeBroken;
      InvOf(stack, i);
      first, second := SpoiledByFirstNode(i + 1);
      if first == OK || first == WAITING {
        assert Blocked(stack, i + 1);
        ghost var looked;
        second, looked := Execute(i);
      }
    }

    /**
     * One node, and its answer is an error instead of a result. While an attempt is left the node is rejected without
     * asking the verifier; in the last attempt the verifier decides.
     */
    method MissingResult(i: nat) returns (r: Ret)
      requires Valid() && i < |stack| && stack[i].kind == Rpc && stack[i].hasMethod && !stack[i].error
      requires stack[i].parsed.None? && stack[i].len == 1
      requires stack[i].raw == Some([Response(false, Single(Entry(false)))])
      requires InPlay(stack[i], 0)
      modifies this`stack, this`created, this`passed, this`refused, this`waits, this`fails, this`log
      ensures maxAttempts == 0 || old(stack)[i].attempt + 1 < maxAttempts ==> r == EINVAL
      ensures 0 < maxAttempts <= old(stack)[i].attempt + 1 ==>
                (r == EINVAL ==> CheckOf(old(stack)[i], 0, 0) in refused)
                && (r == OK ==> CheckOf(old(stack)[i], 0, 0) in passed)
    {
      hide AllInv, Named, Insert;
      ghost var c := stack[i];
      InvOf(stack, i);
      ghost var reached;
      r, reached := FindValidResult(i);
      assert !Answers(c.raw.value[0].body, c.len).value[0].hasResult;
      assert Parses(c, 0) && !Resulted(c, 0, 1);
      if r == EINVAL && 0 < maxAttempts <= c.attempt + 1 {
        assert Refused(c, 0, refused);
      }
    }

    /** A request that may fail, on its last attempt, and no node could be reached. */
    method FailableUnreachable(i: nat) returns (r: Ret)
      requires Valid() && i < |stack| && stack[i].kind == Rpc && stack[i].hasMethod && stack[i].mayFail
      requires !stack[i].error && stack[i].parsed.None? && LastTry(stack[i])
      requires stack[i].nodes.Some? && forall n :: 0 <= n < |stack[i].raw.value| ==> stack[i].raw.value[n].failed
      modifies this`stack, this`created, this`passed, this`refused, this`waits, this`fails, this`log
      ensures Valid() && r == ELIMIT
    {
      hide AllInv, Named, Insert, Evolved, Same, SomeLacks, SomeBroken;
      InvOf(stack, i);
      ghost var reached;
      r, reached := FindValidResult(i);
      var again;
      again, r := GiveUpOrRetry(i);
    }

    // ----- in3_send_ctx ------------------------------------------------------------------------

    /** in3_create_request, the transport and request_free: every node gets a response and possibly a time. */
    method Transport(i: nat) returns (ok: bool)
      requires Valid() && i < |stack| && stack[i].kind == Rpc && stack[i].raw.None? && !stack[i].error
      modifies this`stack, this`early, this`log
      ensures Valid() && |stack| == |old(stack)| && stack == old(stack)[i := stack[i]]
      ensures ok ==> Sent(old(stack)[i], stack[i])
      ensures ok ==> log == old(log) + [Packed(old(stack)[i].id, OK), Transported(old(stack)[i].id)]
      ensures !ok ==> exists code :: code != OK && log == old(log) + [Packed(old(stack)[i].id, code)]
                                     && stack[i] == Failed(old(stack)[i], code) && stack[i].error
      ensures early == old(early) + if State(old(stack), i + 1) == Success then 0 else 1
    {
      early := early + if State(stack, i + 1) == Success then 0 else 1;
      hide AllInv, Named;
      InvOf(stack, i);
      var c := stack[i];
      var payload: Ret :| payload != WAITING;
      log := log + [Packed(c.id, payload)];
      if payload < 0 {
        var _ := SetError(i, payload);
        return false;
      }
      var count := if c.nodes.None? then 1 else |c.nodes.value|;
      var responses: seq<Response>, times: seq<nat> := *, *;
      if |responses| != count {
        responses := seq(count, _ => Response(false, Empty));
      }
      c := c.(raw := Some(responses), sends := c.sends + 1);
      if c.nodes.Some? && |times| == count {
        c := c.(nodes := Some(seq(count, n requires 0 <= n < count => c.nodes.value[n].(pending := times[n]))));
      }
      log := log + [Transported(c.id)];
      Update(i, c);
      return true;
    }

    /** The signer, which needs the data and the account to sign with; it never waits. */
    method SignWith(i: nat) returns (r: Ret)
      requires Valid() && i < |stack| && stack[i].kind == Sign && stack[i].raw.None? && !stack[i].error
      modifies this`stack, this`early, this`log
      ensures Valid() && |stack| == |old(stack)| && stack == old(stack)[i := stack[i]]
      ensures r != WAITING && (r == OK ==> Sent(old(stack)[i], stack[i]))
      ensures |log| > |old(log)| && log[|old(log)|].Found? && log[|old(log)|].id == old(stack)[i].id
      ensures if !log[|old(log)|].complete then
                && log == old(log) + [Found(old(stack)[i].id, false)]
                && r == ECONFIG && stack[i] == Failed(old(stack)[i], ECONFIG)
              else
                && log == old(log) + [Found(old(stack)[i].id, true), Signed(old(stack)[i].id, r)]
                && var body := if r == OK then Opaque else Empty;
                   var called := old(stack)[i].(raw := Some([Response(false, body)]), sends := stack[i].sends);
                   && stack[i].sends == old(stack)[i].sends + 1
                   && stack[i] == if r == OK then called else Failed(called, r)
      ensures early == old(early) + if State(old(stack), i + 1) == Success then 0 else 1
    {
      early := early + if State(stack, i + 1) == Success then 0 else 1;
      hide AllInv, Named;
      InvOf(stack, i);
      var complete: bool := *;
      log := log + [Found(stack[i].id, complete)];
      if !complete {
        r := SetError(i, ECONFIG);
        return;
      }
      var c := stack[i];
      Update(i, c.(raw := Some([Response(false, Empty)]), sends := c.sends + 1));
      var res: Ret :| res != WAITING;
      log := log + [Signed(c.id, res)];
      if res < 0 {
        r := SetError(i, res);
        return;
      }
      Update(i, c.(raw := Some([Response(false, Opaque)]), sends := c.sends + 1));
      return OK;
    }

    /** What the driver sees of one execution. */
    method Step(i: nat, ghost round: nat, ghost again: bool) returns (r: Ret, ghost e: Event)
      requires Valid() && i < |stack|
      modifies this`stack, this`created, this`passed, this`refused, this`waits, this`fails, this`log
      ensures Valid() && i < |stack| && old(created) <= created && old(passed) <= passed && old(refused) <= refused
      ensures stack[..i] == old(stack)[..i] && stack[i].id == old(stack)[i].id && stack[i].sends == old(stack)[i].sends
      ensures Blocked(old(stack), i) ==> stack == old(stack) && r == BlockedBy(old(stack), i)
      ensures Stuck(old(stack), i) ==> stack == old(stack) && r == WAITING
      ensures Done(old(stack)[i]) ==> stack == old(stack) && r == OK
      ensures AwaitsSigner(old(stack), i) ==> stack == old(stack) && r == WAITING
      ensures |stack| == |old(stack)| + (created - old(created))
      ensures r == OK ==> Finished(stack[i], passed)
      ensures r == WAITING && stack[i].raw.None? ==> !stack[i].error
      ensures r != OK && r != WAITING ==> SomeBroken(stack, i)
      ensures e == Executed(round, again, |old(stack)|, r, old(waits) < waits, State(stack, i + 1) == Success,
                            stack[i].raw.None?)
      ensures r == WAITING ==> Stands(e, stack, i)
    {
      hide AllInv, Named, Insert, Moved, Evolved, Same, Pushed, Finished, SomeLacks, SomeBroken, State, AwaitsSigner;
      ghost var looked;
      if Stuck(stack, i) {
        BlockedBelow(stack, i);
        BlockedBelow(stack, i + 1);
      }
      r, looked := Execute(i);
      EvolvedAt(old(stack), stack, i, old(created));
      e := Executed(round, again, |old(stack)|, r, old(waits) < waits, State(stack, i + 1) == Success,
                    stack[i].raw.None?);
    }

    /** The execution that opens round `round` of the outer loop. */
    method OpenRound(i: nat, ghost round: nat, ghost t: seq<Event>) returns (r: Ret, ghost u: seq<Event>)
      requires Valid() && i < |stack|
      requires if round == 1 then t == [] else t != [] && Chained(t, i) && round > 1 && Opens(t[|t| - 1], round - 1)
      modifies this`stack, this`created, this`passed, this`refused, this`waits, this`fails, this`log
      ensures Valid() && i < |stack| && old(created) <= created && old(passed) <= passed && old(refused) <= refused
      ensures stack[..i] == old(stack)[..i] && stack[i].id == old(stack)[i].id && stack[i].sends == old(stack)[i].sends
      ensures Blocked(old(stack), i) ==> stack == old(stack) && r == BlockedBy(old(stack), i)
      ensures Stuck(old(stack), i) ==> stack == old(stack) && r == WAITING
      ensures Done(old(stack)[i]) ==> stack == old(stack) && r == OK
      ensures AwaitsSigner(old(stack), i) ==> stack == old(stack) && r == WAITING
      ensures |stack| == |old(stack)| + (created - old(created))
      ensures r == OK ==> Finished(stack[i], passed)
      ensures r == WAITING && stack[i].raw.None? ==> !stack[i].error
      ensures r != OK && r != WAITING ==> SomeBroken(stack, i)
      ensures u != [] && Chained(u, i) && u[|u| - 1].Executed? && u[|u| - 1].round == round && u[|u| - 1].code == r
      ensures r == WAITING ==> Stands(u[|u| - 1], stack, i)
      ensures if r != WAITING then Ends(u[|u| - 1], Some(r)) else round > 10 ==> Ends(u[|u| - 1], Some(ERPC))
    {
      hide AllInv, Named, Finished, SomeLacks, SomeBroken, State, Blocked, Stuck, Done, AwaitsSigner, Chained, Stands;
      ghost var e;
      r, e := Step(i, round, false);
      if t == [] { ChainedFirst(e, i); } else { ChainedNext(t, e, i); }
      u := if t == [] then [e] else t + [e];
      assert u[|u| - 1] == e;
    }

    /** Calls the transport or the signer; Some is an error. */
    method Supply(i: nat) returns (r: Option<Ret>, ghost acts: seq<Act>)
      requires Valid() && i < |stack| && stack[i].raw.None? && !stack[i].error
      modifies this`stack, this`early, this`log
      ensures Valid() && |stack| == |old(stack)| && stack == old(stack)[i := stack[i]]
      ensures stack[i].id == old(stack)[i].id && stack[i].sends <= old(stack)[i].sends + 1
      ensures r.None? ==> Sent(old(stack)[i], stack[i])
      ensures r.Some? ==> stack[i].error && r.value != OK && r.value != WAITING
      ensures log == old(log) + acts
      ensures if if old(stack)[i].kind == Sign then hasSigner else hasTransport
              then Calls(acts, old(stack)[i].kind, old(stack)[i].id, r)
              else acts == [] && r == Some(ECONFIG) && stack[i] == Failed(old(stack)[i], ECONFIG)
      ensures State(old(stack), i + 1) == Success ==> early == old(early)
    {
      hide AllInv, Named, State;
      acts := [];
      match stack[i].kind
      case Rpc =>
        if !hasTransport {
          var res := SetError(i, ECONFIG);
          return Some(res), acts;
        }
        var ok := Transport(i);
        r := if ok then None else Some(ENOMEM);
        acts := log[|old(log)|..];
      case Sign =>
        if !hasSigner {
          var res := SetError(i, ECONFIG);
          return Some(res), acts;
        }
        var res := SignWith(i);
        r := if res == OK then None else Some(res);
        acts := log[|old(log)|..];
    }

    /** Nobody can sign, and there is fuel enough to find out. */
    ghost predicate Unsigned(s: seq<Ctx>, i: nat, fuel: nat) { !hasSigner && AwaitsSigner(s, i) && i + fuel + 1 >= |s| }

    /** One turn of the inner loop of in3_send_ctx: send the required context, then execute this one again. */
    method SendOne(i: nat, left: nat, ghost t: seq<Event>) returns (ended: bool, r: Option<Ret>, ghost u: seq<Event>)
      requires Valid() && i + 1 < |stack| && State(stack, i + 1) != Success
      requires t != [] && Chained(t, i) && Stands(t[|t| - 1], stack, i) && t[|t| - 1].round <= 10
      modifies this
      ensures Valid() && i < |stack| && old(created) <= created && old(passed) <= passed && old(refused) <= refused
      ensures stack[..i] == old(stack)[..i] && stack[i].id == old(stack)[i].id && stack[i].sends == old(stack)[i].sends
      ensures old(subs) < subs && early == old(early)
      ensures r.None? ==> ended && old(subs) + left < subs
      ensures !ended ==> stack[i].raw.None? ==> !stack[i].error
      ensures r != Some(WAITING) || !ended
      ensures ended && r == Some(OK) ==> Finished(stack[i], passed)
      ensures ended && r.Some? && r.value != OK ==> SomeBroken(stack, i)
      ensures Stuck(old(stack), i) ==> stack == old(stack) && (!ended || r.None?)
      ensures u != [] && Chained(u, i)
      ensures u[|u| - 1].round == t[|t| - 1].round
      ensures if ended then Ends(u[|u| - 1], r) else Stands(u[|u| - 1], stack, i)
      ensures ended && u[|u| - 1].Returned? ==> r.Some? && stack[i].error && stack[i].state == r.value
      ensures old(ignored) <= ignored
              && (ignored == old(ignored) ==> |stack| == |old(stack)| + (created - old(created)))
      ensures Unsigned(old(stack), i, left + 1) ==>
                ended && r == Some(ECONFIG) && |stack| == |old(stack)| && AllFailed(stack, i, ECONFIG)
      decreases left, 3
    {
      hide AllInv, Named, Insert, Moved, Evolved, Same, Pushed, Finished, SomeLacks, SomeBroken, State;
      hide Blocked, Stuck, Done, Chained, AwaitsSigner;
      StuckMeans(stack, i);
      if AwaitsSigner(stack, i) { UnsignedBelow(stack, i); }
      ended, u := true, t;
      ghost var round, inner := t[|t| - 1].round, [];
      subs := subs + 1;
      r, inner := SendCtx(i + 1, left);
      PrefixBelow(old(stack), stack, i);
      if r.None? { return; }
      ChainedNext(u, Returned(round, r.value), i);
      u := u + [Returned(round, r.value)];
      assert u[|u| - 1] == Returned(round, r.value);
      if r.value == EIGNORE {
        ignored := ignored + 1;
        RemoveRequired(i);
      } else if r.value != OK {
        var res := SetError(i, r.value);
        BrokenAt(stack, i, i);
        return;
      }
      var res;
      ghost var e;
      res, e := Step(i, round, true);
      ChainedNext(u, e, i);
      u := u + [e];
      assert u[|u| - 1] == e;
      r, ended := Some(res), res != WAITING;
    }

    /**
     * The inner loop of in3_send_ctx: required contexts first; it may end the whole call. `t` is what happened in the
     * call so far, `u` what has happened afterwards.
     */
    method SendRequired(i: nat, rounds: nat, ghost t: seq<Event>)
      returns (ended: bool, r: Option<Ret>, left: nat, ghost u: seq<Event>)
      requires Valid() && i < |stack| && (stack[i].raw.None? ==> !stack[i].error)
      requires t != [] && Chained(t, i) && Stands(t[|t| - 1], stack, i) && t[|t| - 1].round <= 10
      modifies this
      ensures Valid() && i < |stack| && old(created) <= created && old(passed) <= passed && old(refused) <= refused
      ensures stack[..i] == old(stack)[..i] && stack[i].id == old(stack)[i].id && stack[i].sends == old(stack)[i].sends
      ensures left <= rounds && old(subs) + rounds <= subs + left && early == old(early)
      ensures !ended ==> i + 1 < |stack| ==> State(stack, i + 1) == Success
      ensures !ended ==> stack[i].raw.None? ==> !stack[i].error
      ensures ended ==> r != Some(WAITING) && (r.None? ==> old(subs) + rounds <= subs)
      ensures ended && r == Some(OK) ==> Finished(stack[i], passed)
      ensures ended && r.Some? && r.value != OK ==> SomeBroken(stack, i)
      ensures Stuck(old(stack), i) ==> ended && r.None? && stack == old(stack)
      ensures i + 1 == |old(stack)| ==> !ended && stack == old(stack) && created == old(created)
      ensures u != [] && Chained(u, i) && u[|u| - 1].round == t[|t| - 1].round
      ensures if ended then Ends(u[|u| - 1], r) else Stands(u[|u| - 1], stack, i) && u[|u| - 1].ready
      ensures ended && u[|u| - 1].Returned? ==> r.Some? && stack[i].error && stack[i].state == r.value
      ensures old(ignored) <= ignored
              && (ignored == old(ignored) ==> |stack| == |old(stack)| + (created - old(created)))
      ensures Unsigned(old(stack), i, rounds) && i + 1 < |old(stack)| ==>
                ended && r == Some(ECONFIG) && |stack| == |old(stack)| && AllFailed(stack, i, ECONFIG)
      decreases rounds, 0
    {
      hide AllInv, Named, Insert, Moved, Evolved, Same, Pushed, Finished, SomeLacks, SomeBroken, State;
      hide Blocked, Stuck, Done, Chained, AwaitsSigner;
      StuckMeans(stack, i);
      if Unsigned(stack, i, rounds) { UnsignedBelow(stack, i); }
      NoneRequired(stack);
      ended, r, left, u := false, None, rounds, t;
      while i + 1 < |stack| && State(stack, i + 1) != Success
        invariant Valid() && i < |stack| && old(created) <= created && old(passed) <= passed
        invariant old(refused) <= refused && early == old(early)
        invariant left <= rounds && old(subs) + rounds <= subs + left
        invariant stack[..i] == old(stack)[..i] && stack[i].id == old(stack)[i].id
        invariant stack[i].sends == old(stack)[i].sends && (stack[i].raw.None? ==> !stack[i].error)
        invariant Stuck(old(stack), i) ==> stack == old(stack)
        invariant i + 1 == |old(stack)| ==> stack == old(stack) && created == old(created)
        invariant u != [] && Chained(u, i) && Stands(u[|u| - 1], stack, i) && u[|u| - 1].round == t[|t| - 1].round
        invariant old(ignored) <= ignored
        invariant ignored == old(ignored) ==> |stack| == |old(stack)| + (created - old(created))
        invariant Unsigned(old(stack), i, rounds) ==> stack == old(stack) && left == rounds
        decreases left
      {
        ended, r := true, None;
        if left == 0 { return; }
        left := left - 1;
        ended, r, u := SendOne(i, left, u);
        if ended { return; }
      }
      NoneRequired(stack);
    }

    /** The part of in3_send_ctx for the context itself, when all required contexts have succeeded. */
    method SendOwn(i: nat, ghost t: seq<Event>) returns (r: Option<Ret>, ghost u: seq<Event>, ghost acts: seq<Act>)
      requires Valid() && i < |stack| && stack[i].raw.None? && !stack[i].error
      requires t != [] && Chained(t, i) && Stands(t[|t| - 1], stack, i) && t[|t| - 1].ready && t[|t| - 1].round <= 10
      modifies this`stack, this`early, this`log
      ensures Valid() && |stack| == |old(stack)| && stack == old(stack)[i := stack[i]]
      ensures stack[i].id == old(stack)[i].id && stack[i].sends <= old(stack)[i].sends + 1 && early == old(early)
      ensures u != [] && Chained(u, i) && u[|u| - 1].Supplied?
      ensures if r.Some? then Ends(u[|u| - 1], r) else Opens(u[|u| - 1], t[|t| - 1].round)
      ensures r.None? ==> Sent(old(stack)[i], stack[i])
      ensures r.Some? ==> stack[i].error && r.value != OK && r.value != WAITING
      ensures log == old(log) + acts
      ensures if if old(stack)[i].kind == Sign then hasSigner else hasTransport
              then Calls(acts, old(stack)[i].kind, old(stack)[i].id, r)
              else acts == [] && r == Some(ECONFIG) && stack[i] == Failed(old(stack)[i], ECONFIG)
    {
      hide AllInv, Named, SomeLacks, Chained, EmptySigned, State, Calls;
      ghost var blind := stack[i].kind == Rpc && stack[i].nodes.None? && !EmptySigned(stack, i + 1);
      if !t[|t| - 1].waited { HasNodes(stack, i); }
      r, acts := Supply(i);
      ghost var e := Supplied(t[|t| - 1].round, blind, r);
      ChainedNext(t, e, i);
      u := t + [e];
    }

    /** One round behind the execution: the required contexts, then the context itself if it still has no response. */
    method SendBoth(i: nat, rounds: nat, ghost t: seq<Event>)
      returns (ended: bool, r: Option<Ret>, left: nat, ghost u: seq<Event>)
      requires Valid() && i < |stack| && (stack[i].raw.None? ==> !stack[i].error)
      requires t != [] && Chained(t, i) && Stands(t[|t| - 1], stack, i) && t[|t| - 1].round <= 10
      modifies this
      ensures Valid() && i < |stack| && old(created) <= created && old(passed) <= passed && old(refused) <= refused
      ensures stack[..i] == old(stack)[..i] && stack[i].id == old(stack)[i].id
      ensures stack[i].sends <= old(stack)[i].sends + 1
      ensures left <= rounds && old(subs) + rounds <= subs + left && early == old(early)
      ensures !ended ==> r.None?
      ensures ended ==> r != Some(WAITING) && (r.None? ==> old(subs) + rounds <= subs)
      ensures ended && r == Some(OK) ==> Finished(stack[i], passed)
      ensures r.Some? && r.value != OK ==> SomeBroken(stack, i)
      ensures Stuck(old(stack), i) ==> ended && r.None? && stack == old(stack)
      ensures i + 1 == |old(stack)| ==> |stack| == i + 1 && created == old(created) && (ended ==> r.Some?)
      ensures u != [] && Chained(u, i)
      ensures if ended then Ends(u[|u| - 1], r) else Opens(u[|u| - 1], t[|t| - 1].round)
      ensures ended && u[|u| - 1].Returned? ==> r.Some? && stack[i].error && stack[i].state == r.value
      ensures ended && u[|u| - 1].Executed? ==> u[|u| - 1].round <= 10
      ensures old(ignored) <= ignored
              && (ignored == old(ignored) ==> |stack| == |old(stack)| + (created - old(created)))
      ensures Unsigned(old(stack), i, rounds) ==>
                ended && r == Some(ECONFIG) && |stack| == |old(stack)| && AllFailed(stack, i, ECONFIG)
      decreases rounds, 1
    {
      hide AllInv, Named, Insert, Finished, SomeLacks, SomeBroken, State, Blocked, Stuck, Done, Chained, AwaitsSigner;
      hide Stands, Opens, Sent, Follows, Ends, Calls;
      if Unsigned(stack, i, rounds) { UnsignedBelow(stack, i); }
      ended, r, left, u := SendRequired(i, rounds, t);
      if ended { return; }
      r := None;
      StandsOpens(u[|u| - 1], stack, i);
      if stack[i].raw.None? {
        ghost var acts;
        r, u, acts := SendOwn(i, u);
        if r.Some? {
          BrokenAt(stack, i, i);
          ended := true;
        }
      }
    }

    /**
     * in3_send_ctx. Nothing in the source bounds how often the environment may ask for another context, so a run is
     * cut off, with None, when it has sent required contexts `fuel` times; every run that ends is complete for some
     * fuel. `t` is what happened, event by event.
     */
    method SendCtx(i: nat, fuel: nat) returns (r: Option<Ret>, ghost t: seq<Event>)
      requires Valid() && i < |stack|
      modifies this
      ensures Valid() && i < |stack| && old(created) <= created && old(passed) <= passed && old(refused) <= refused
      ensures stack[..i] == old(stack)[..i] && stack[i].id == old(stack)[i].id
      ensures r != Some(WAITING)
      ensures r == Some(OK) ==> Finished(stack[i], passed)
      ensures r.Some? && r.value != OK ==> SomeBroken(stack, i)
      ensures stack[i].sends <= old(stack)[i].sends + 10
      ensures Blocked(old(stack), i) ==> r == Some(BlockedBy(old(stack), i)) && stack == old(stack)
      ensures Done(old(stack)[i]) ==> r == Some(OK) && stack == old(stack)
      ensures Stuck(old(stack), i) ==> r.None? && stack == old(stack)
      ensures r.None? ==> old(created) < created || i + 1 < |old(stack)|
      ensures old(subs) <= subs && (r.None? ==> old(subs) + fuel <= subs)
      ensures early == old(early)
      ensures Drives(t, i, r)
      ensures t[|t| - 1].Returned? ==> r.Some? && stack[i].error && stack[i].state == r.value
      ensures t[|t| - 1].Executed? && t[|t| - 1].code == WAITING && r.Some? ==> stack[i].error && stack[i].state == ERPC
      ensures old(ignored) <= ignored
              && (ignored == old(ignored) ==> |stack| == |old(stack)| + (created - old(created)))
      ensures Unsigned(old(stack), i, fuel) ==>
                r == Some(ECONFIG) && |stack| == |old(stack)| && AllFailed(stack, i, ECONFIG)
      decreases fuel, 2
    {
      hide AllInv, Named, Insert, Moved, Evolved, Same, Pushed, Finished, SomeLacks, SomeBroken, State;
      hide Blocked, Stuck, Done, Chained, AwaitsSigner, EmptySigned, Stands, Opens, Sent, Follows;
      var retryCount: nat, rounds: nat := 0, fuel;
      StuckMeans(stack, i);
      if Unsigned(stack, i, fuel) { UnsignedBelow(stack, i); }
      t := [];
      while true
        invariant Valid() && i < |stack| && old(created) <= created && old(passed) <= passed && old(refused) <= refused
        invariant rounds <= fuel && old(subs) + fuel <= subs + rounds && early == old(early)
        invariant stack[..i] == old(stack)[..i] && stack[i].id == old(stack)[i].id
        invariant retryCount <= 10 && stack[i].sends <= old(stack)[i].sends + retryCount
        invariant retryCount == 0 ==> stack == old(stack) && rounds == fuel && t == []
        invariant retryCount > 0 ==> !Blocked(old(stack), i) && !Stuck(old(stack), i) && !Done(old(stack)[i])
        invariant retryCount > 0 ==> !Unsigned(old(stack), i, fuel)
        invariant retryCount > 0 ==> t != [] && Chained(t, i) && Opens(t[|t| - 1], retryCount)
        invariant old(created) < created || i + 1 < |old(stack)| || |stack| == i + 1
        invariant old(ignored) <= ignored
        invariant ignored == old(ignored) ==> |stack| == |old(stack)| + (created - old(created))
        decreases 11 - retryCount
      {
        var res;
        res, t := OpenRound(i, retryCount + 1, t);
        if res != WAITING { return Some(res), t; }
        retryCount := retryCount + 1;
        if retryCount > 10 {
          res := SetError(i, ERPC);
          BrokenAt(stack, i, i);
          return Some(res), t;
        }
        var ended;
        ended, r, rounds, t := SendBoth(i, rounds, t);
        if ended { return; }
      }
    }

    /** A request requires a signature, and no signer is configured: the request fails for that reason. */
    method NoSigner(i: nat, fuel: nat) returns (r: Option<Ret>)
      requires Valid() && i + 2 == |stack| && fuel > 0 && !hasSigner
      requires stack[i].kind == Rpc && stack[i].hasMethod && !stack[i].error && stack[i].raw.None?
      requires stack[i + 1].kind == Sign && stack[i + 1].hasMethod && !stack[i + 1].error && stack[i + 1].raw.None?
      modifies this
      ensures Valid() && r == Some(ECONFIG) && |stack| == i + 2
      ensures stack[i].error && stack[i].state == ECONFIG && stack[i + 1].error && stack[i + 1].state == ECONFIG
    {
      hide AllInv, Named, Drives;
      InvOf(stack, i);
      InvOf(stack, i + 1);
      assert AwaitsSigner(stack, i + 1);
      assert Unsigned(stack, i, fuel);
      ghost var t;
      r, t := SendCtx(i, fuel);
    }

    /** ctx_handle_failable: the required context goes, with everything it requires. */
    method RemoveRequired(i: nat)
      requires Valid() && i < |stack|
      modifies this`stack
      ensures Valid() && stack == old(stack)[..i + 1]
    {
      stack := stack[..i + 1];
    }
  }
}
