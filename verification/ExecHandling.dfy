/** What one step may do to a context: judging a response, failing, moving ahead. */
module ExecHandling {
  import opened Wrappers
  import opened ExecModel
  import opened ExecTrace

  /** The answer of an environment call, and possibly a fresh context pushed with a WAITING answer. */
  ghost predicate Pushed(a: seq<Ctx>, b: seq<Ctx>, i: nat, id: nat) {
    i < |a| && (b == a || exists c :: Fresh(c, id) && b == Insert(a, i + 1, c))
  }

  /** A response that no node was asked for has been looked at; there is no node to reject, whatever it holds. */
  ghost predicate Internal(c: Ctx, passed: set<Check>) {
    && c.raw.Some? && |c.raw.value| >= 1
    && (Accepted(c) ==> AcceptedFrom(c, passed, 0))
    && (Parses(c, 0) ==> c.parsed == Some(c.raw.value[0].body) && c.state != WAITING)
    && (Garbled(c, 0) ==> c.error && c.state != WAITING)
  }

  /** What IN3_OK promises about the context it was returned for. */
  ghost predicate Finished(c: Ctx, passed: set<Check>) {
    if c.kind == Rpc then
      if c.nodes.Some? then Accepted(c) && exists n :: AcceptedFrom(c, passed, n) else Internal(c, passed)
    else c.raw.Some? && |c.raw.value| >= 1 && !c.raw.value[0].failed && c.raw.value[0].body != Empty
  }

  lemma FinishedGrows(c: Ctx, a: set<Check>, b: set<Check>)
    requires a <= b
    ensures Finished(c, a) ==> Finished(c, b)
  {
    if c.kind == Rpc && c.nodes.Some? && Finished(c, a) {
      var n :| AcceptedFrom(c, a, n);
      assert AcceptedFrom(c, b, n);
    } else if c.kind == Rpc && Finished(c, a) {
      assert Accepted(c) ==> AcceptedFrom(c, b, 0);
    }
  }

  /** An error the caller can find in the chain. */
  predicate Broken(c: Ctx) {
    c.error || (c.kind == Sign && c.raw.Some? && |c.raw.value| >= 1 && c.raw.value[0].failed)
  }

  /** A context that has to wait for its transport, with nodes to send to, or for its signer. */
  predicate Lacks(c: Ctx) {
    || (c.raw.None? && (c.kind == Rpc ==> c.nodes.Some?))
    || (c.kind == Sign && c.raw.Some? && |c.raw.value| >= 1 && !c.raw.value[0].failed && c.raw.value[0].body == Empty)
  }

  predicate SomeLacks(s: seq<Ctx>, i: nat) { exists j :: i <= j < |s| && Lacks(s[j]) }

  lemma LacksAt(s: seq<Ctx>, i: nat, j: nat)
    requires i <= j < |s| && Lacks(s[j])
    ensures SomeLacks(s, i)
  {
  }

  lemma LacksBelow(s: seq<Ctx>, i: nat)
    ensures SomeLacks(s, i + 1) ==> SomeLacks(s, i)
  {
  }

  predicate SomeBroken(s: seq<Ctx>, i: nat) { exists j :: i <= j < |s| && Broken(s[j]) }

  lemma BrokenAt(s: seq<Ctx>, i: nat, j: nat)
    requires i <= j < |s| && Broken(s[j])
    ensures SomeBroken(s, i)
  {
  }

  lemma BrokenBelow(s: seq<Ctx>, i: nat)
    ensures SomeBroken(s, i + 1) ==> SomeBroken(s, i)
  {
  }

  /** Handling the response of node n: the same response set, the same attempt. */
  predicate Handling(c: Ctx, d: Ctx) {
    Moved(c, d) && d.attempt == c.attempt && d.raw == c.raw && d.nodes.Some? == c.nodes.Some? && Shaped(d)
  }

  /** The response of node n has been checked: rejected, or everything in it passed. */
  ghost predicate Judged(c: Ctx, passed: set<Check>, n: nat) {
    && (c.nodes.Some? && n < |c.nodes.value| && c.raw.Some? && n < |c.raw.value| && !c.nodes.value[n].rejected ==>
          && !c.raw.value[n].failed && c.state == OK
          && Answers(c.raw.value[n].body, c.len).Some?
          && c.parsed == Some(c.raw.value[n].body)
          && (forall k :: 0 <= k < c.len ==> Check(c.id, c.attempt, n, k) in passed))
    && (c.nodes.None? && n == 0 ==> Internal(c, passed))
  }

  /** A response looked at and not accepted. */
  predicate Dismissed(c: Ctx, n: nat) {
    c.nodes.None? && n == 0 ==>
      && c.raw.Some? && |c.raw.value| >= 1 && !Accepted(c)
      && (Parses(c, 0) ==> c.parsed == Some(c.raw.value[0].body) && c.state != WAITING)
      && (Garbled(c, 0) ==> c.error && c.state != WAITING)
  }

  /** What node n sent is no answer to the requests: ctx_parse_response sets the error of the whole context. */
  predicate Garbled(c: Ctx, n: nat) {
    && c.raw.Some? && n < |c.raw.value| && !c.raw.value[n].failed && c.raw.value[n].body != Empty
    && Answers(c.raw.value[n].body, c.len).None?
  }

  /** What node n sent is an answer to the requests. */
  predicate Parses(c: Ctx, n: nat) {
    && c.raw.Some? && n < |c.raw.value| && !c.raw.value[n].failed && c.raw.value[n].body != Empty
    && Answers(c.raw.value[n].body, c.len).Some?
  }

  /** The first m answers of node n, or all of them, have results. */
  predicate Resulted(c: Ctx, n: nat, m: nat) {
    Parses(c, n) &&
    forall k :: 0 <= k < m && k < c.len ==> Answers(c.raw.value[n].body, c.len).value[k].hasResult
  }

  /** An answer of node n was refused by the verifier. */
  ghost predicate Refused(c: Ctx, n: nat, refused: set<Check>) {
    exists k: nat :: k < c.len && CheckOf(c, n, k) in refused
  }

  /** Giving up: a request that may fail is ignorable only if a response did not parse; without an error,
      it is a limit. */
  function GiveUpCode(garbled: bool, mayFail: bool): Ret {
    if !garbled then ELIMIT else if mayFail then EIGNORE else EINVAL
  }

  /** Some node before n did. */
  predicate AnyGarbled(c: Ctx, n: nat) { exists m: nat :: m < n && Garbled(c, m) }

  lemma GarbledNext(c: Ctx, n: nat)
    ensures AnyGarbled(c, n + 1) <==> AnyGarbled(c, n) || Garbled(c, n)
    ensures !AnyGarbled(c, 0)
  {
  }

  lemma SameGarbled(c: Ctx, d: Ctx, n: nat)
    requires Handling(c, d)
    ensures AnyGarbled(c, n) <==> AnyGarbled(d, n)
    ensures Garbled(c, n) <==> Garbled(d, n)
  {
    assert forall m: nat :: Garbled(c, m) <==> Garbled(d, m);
  }

  lemma SameParses(c: Ctx, d: Ctx, n: nat)
    requires Handling(c, d)
    ensures Parses(c, n) <==> Parses(d, n)
  {
  }

  lemma GarbledKept(c: Ctx, d: Ctx, n: nat)
    requires Moved(c, d) && c.attempt == d.attempt && c.raw.Some?
    ensures AnyGarbled(c, n) <==> AnyGarbled(d, n)
  {
    assert forall m: nat :: Garbled(c, m) <==> Garbled(d, m);
  }

  /** What executing a context with an error answers. */
  function Refusal(c: Ctx): Ret { if c.state != OK && c.state != WAITING then c.state else EUNKNOWN }

  // ----- chains that cannot be executed any more ------------------------------------------

  /** Executing context i meets a context with an error before it meets an accepted one. */
  predicate Blocked(s: seq<Ctx>, i: nat)
    decreases if i < |s| then |s| - i else 0
  {
    i < |s| && (s[i].error || (s[i].hasMethod && !Accepted(s[i]) && Blocked(s, i + 1)))
  }

  /** What it answers: the refusal of the first of them. */
  function BlockedBy(s: seq<Ctx>, i: nat): (r: Ret)
    requires Blocked(s, i)
    ensures r != OK && r != WAITING
    decreases |s| - i
  {
    if s[i].error then Refusal(s[i]) else BlockedBy(s, i + 1)
  }

  lemma BlockedBelow(s: seq<Ctx>, i: nat)
    requires i < |s| && !s[i].error
    ensures Blocked(s, i) <==> s[i].hasMethod && !Accepted(s[i]) && Blocked(s, i + 1)
    ensures Blocked(s, i) ==> BlockedBy(s, i) == BlockedBy(s, i + 1)
    ensures SignFails(s, i) <==>
      s[i].hasMethod && !Accepted(s[i]) && ((s[i].kind == Sign && Broken(s[i])) || SignFails(s, i + 1))
  {
  }

  /** A signature on the way has failed; that sets no error. */
  predicate SignFails(s: seq<Ctx>, i: nat)
    decreases if i < |s| then |s| - i else 0
  {
    i < |s| && s[i].hasMethod && !Accepted(s[i]) && ((s[i].kind == Sign && Broken(s[i])) || SignFails(s, i + 1))
  }

  /** An accepted request that can be executed again. */
  predicate Done(c: Ctx) { c.hasMethod && !c.error && Accepted(c) }

  /** A signature that waits for its data behind an accepted request, which in turn required one that has an error. */
  predicate Stuck(s: seq<Ctx>, i: nat) {
    && i + 2 < |s| && s[i].kind == Sign && s[i].hasMethod && !s[i].error && s[i].raw.None? && s[i].parsed.None?
    && Done(s[i + 1]) && State(s, i + 1) == Failure
  }

  lemma StuckMeans(s: seq<Ctx>, i: nat)
    ensures Stuck(s, i) ==> i + 1 < |s| && Done(s[i + 1]) && State(s, i + 1) == Failure
  {
  }

  /** The three contexts of such a chain: a signature, an accepted request, and one that has failed. */
  function StuckChain(): seq<Ctx> {
    var answer := Single(Entry(true));
    [Ctx(0, Sign, true, 1, false, 0, false, WAITING, None, None, None, 0),
     Ctx(1, Rpc, true, 1, false, 0, false, OK, None, Some([Response(false, answer)]), Some(answer), 0),
     Ctx(2, Rpc, true, 1, false, 0, true, EFIND, None, None, None, 0)]
  }

  /** It keeps the invariant, so the driver may meet it. */
  lemma StuckIsValid(maxAttempts: nat)
    ensures AllInv(StuckChain(), maxAttempts, {Check(1, 0, 0, 0)}) && Named(StuckChain(), 3) && Stuck(StuckChain(), 0)
  {
    var s := StuckChain();
    assert State(s, 2) == Failure;
    assert AcceptedFrom(s[1], {Check(1, 0, 0, 0)}, 0);
    forall j | 0 <= j < |s| ensures Inv(s[j], maxAttempts, {Check(1, 0, 0, 0)}) {
      assert j == 0 || j == 1 || j == 2;
    }
  }

  /** Every context waits for the next one, and the last is a signature without data. */
  predicate AwaitsSigner(s: seq<Ctx>, i: nat)
    decreases if i < |s| then |s| - i else 0
  {
    && i < |s| && s[i].hasMethod && !s[i].error && !Accepted(s[i])
    && if i + 1 == |s| then s[i].kind == Sign && s[i].raw.None? else AwaitsSigner(s, i + 1)
  }

  lemma {:induction false} AwaitsMeans(s: seq<Ctx>, i: nat)
    requires AwaitsSigner(s, i)
    ensures s[|s| - 1].kind == Sign && s[|s| - 1].raw.None? && State(s, i) != Success && !Blocked(s, i)
    decreases |s| - i
  {
    if i + 1 < |s| { AwaitsMeans(s, i + 1); }
  }

  /** Every context from i on has failed with the same code. */
  predicate AllFailed(s: seq<Ctx>, i: nat, code: Ret) {
    forall j :: i <= j < |s| ==> s[j].error && s[j].state == code
  }

  /** A signature that was answered with nothing: required, it makes its request wait for ever. */
  predicate EmptySigned(s: seq<Ctx>, i: nat) {
    exists j :: i <= j < |s| && s[j].kind == Sign && s[j].raw.Some? && Lacks(s[j])
  }

  /** A request that waits for its transport, with nothing else to wait for, has nodes to send to. */
  lemma HasNodes(s: seq<Ctx>, i: nat)
    requires i < |s| && State(s, i + 1) == Success && SomeLacks(s, i) && s[i].raw.None?
    ensures s[i].kind == Rpc && s[i].nodes.None? ==> EmptySigned(s, i + 1)
  {
    StateMeans(s, i + 1);
  }

  /** Event e is an execution that has to wait, and it left the chain as it is. */
  predicate Stands(e: Event, s: seq<Ctx>, i: nat) {
    && i < |s| && e.Executed? && e.code == WAITING && (e.ready <==> State(s, i + 1) == Success)
    && e.lacks == s[i].raw.None? && (!e.waited ==> SomeLacks(s, i))
  }

  lemma StandsOpens(e: Event, s: seq<Ctx>, i: nat)
    requires Stands(e, s, i) && e.ready && e.round <= 10
    ensures s[i].raw.Some? ==> Opens(e, e.round)
  {
  }

  lemma UnsignedBelow(s: seq<Ctx>, i: nat)
    requires AwaitsSigner(s, i)
    ensures if i + 1 == |s| then s[i].kind == Sign && s[i].raw.None?
            else AwaitsSigner(s, i + 1) && State(s, i + 1) != Success
    ensures !s[i].error && !Blocked(s, i) && !Stuck(s, i) && !Done(s[i])
  {
    AwaitsMeans(s, i);
    if i + 1 < |s| { AwaitsMeans(s, i + 1); }
    if i + 2 < |s| { BlockedBelow(s, i + 1); }
  }

  /** How many responses of the context named id were looked at. */
  function Count(looked: map<nat, nat>, id: nat): nat { if id in looked then looked[id] else 0 }

  /** Executing context i again meets a context of which a response that was looked at does not parse. */
  predicate Spoiled(s: seq<Ctx>, i: nat, looked: map<nat, nat>)
    decreases if i < |s| then |s| - i else 0
  {
    i < |s| &&
    (AnyGarbled(s[i], Count(looked, s[i].id)) || (s[i].hasMethod && !Accepted(s[i]) && Spoiled(s, i + 1, looked)))
  }

  /** Both depend on the chain from i on alone. */
  lemma {:induction false} SuffixSame(a: seq<Ctx>, i: nat, b: seq<Ctx>, j: nat, looked: map<nat, nat>)
    requires i <= |a| && j <= |b| && a[i..] == b[j..]
    ensures Blocked(a, i) <==> Blocked(b, j)
    ensures Spoiled(a, i, looked) <==> Spoiled(b, j, looked)
    decreases |a| - i
  {
    hide AnyGarbled, Accepted;
    assert |a| - i == |a[i..]| == |b[j..]| == |b| - j;
    if i == |a| {
    } else {
      assert a[i] == a[i..][0] == b[j..][0] == b[j];
      assert a[i + 1..] == a[i..][1..] && b[j + 1..] == b[j..][1..];
      SuffixSame(a, i + 1, b, j + 1, looked);
    }
  }

  /** A count for a context outside of the chain does not matter. */
  lemma {:induction false} SpoiledElsewhere(s: seq<Ctx>, i: nat, looked: map<nat, nat>, id: nat, n: nat)
    requires i <= |s| && forall k :: i <= k < |s| ==> s[k].id != id
    ensures Spoiled(s, i, looked[id := n]) <==> Spoiled(s, i, looked)
    decreases |s| - i
  {
    hide AnyGarbled, Accepted;
    if i == |s| {
    } else {
      SpoiledElsewhere(s, i + 1, looked, id, n);
    }
  }

  /** What context i adds to what is known of the chain below it, also when a fresh context comes in between. */
  lemma OwnStep(mid: seq<Ctx>, next: seq<Ctx>, i: nat, id: nat, created: nat, below: map<nat, nat>, reached: nat)
    requires i < |mid| && i < |next| && Pushed(mid[i := next[i]], next, i, id) && Named(next, created)
    requires Blocked(mid, i + 1) <==> Spoiled(mid, i + 1, below)
    requires next[i].error <==> AnyGarbled(next[i], reached)
    ensures Blocked(next, i) <==> Spoiled(next, i, below[next[i].id := reached])
  {
    hide AnyGarbled, Accepted;
    var looked := below[next[i].id := reached];
    var m := mid[i := next[i]];
    assert m[i + 1..] == mid[i + 1..];
    SuffixSame(m, i + 1, mid, i + 1, below);
    if next == m {
      SpoiledElsewhere(next, i + 1, below, next[i].id, reached);
    } else {
      var c :| Fresh(c, id) && next == Insert(m, i + 1, c);
      assert next[i + 2..] == m[i + 1..];
      SuffixSame(next, i + 2, m, i + 1, below);
      FreshIsClean(c, Count(looked, c.id));
      SpoiledElsewhere(next, i + 2, below, next[i].id, reached);
    }
  }

  /** What the chain predicates say about their first context. */
  lemma Links(s: seq<Ctx>, i: nat)
    requires i < |s|
    ensures s[i].error ==> Blocked(s, i) && BlockedBy(s, i) == Refusal(s[i]) && !Stuck(s, i)
    ensures Stuck(s, i) ==> i + 1 < |s| && Done(s[i + 1]) && s[i].kind == Sign && s[i].raw.None? && !Accepted(s[i])
    ensures Done(s[i]) <==> s[i].hasMethod && !s[i].error && Accepted(s[i])
    ensures AwaitsSigner(s, i) ==>
              && s[i].hasMethod && !s[i].error && !Accepted(s[i])
              && if i + 1 == |s| then s[i].kind == Sign && s[i].raw.None? else AwaitsSigner(s, i + 1)
    ensures !s[i].error && (Accepted(s[i]) || !s[i].hasMethod) ==>
              !Blocked(s, i) && !Stuck(s, i) && !Spoiled(s, i, map[]) && !AnyGarbled(s[i], Count(map[], s[i].id))
    ensures !Blocked(s, |s|) && !Spoiled(s, |s|, map[])
  {
  }

  /** A context of which nothing was looked at adds nothing. */
  lemma NothingLooked(s: seq<Ctx>, i: nat, below: map<nat, nat>)
    requires i < |s| && s[i].hasMethod && !s[i].error && !Accepted(s[i]) && s[i].id !in below
    requires Blocked(s, i + 1) <==> Spoiled(s, i + 1, below)
    ensures Blocked(s, i) <==> Spoiled(s, i, below)
    ensures !AnyGarbled(s[i], Count(below, s[i].id))
  {
  }

  lemma FreshIsClean(c: Ctx, n: nat)
    requires Fresh(c, c.id)
    ensures !c.error && c.hasMethod && !Accepted(c) && !AnyGarbled(c, n)
  {
  }

  function CheckOf(c: Ctx, n: nat, k: nat): Check { Check(c.id, c.attempt, n, k) }

  /** Request k is the first thing wrong with the answers of node n: no result while another try is left, or refused. */
  ghost predicate Culprit(c: Ctx, n: nat, k: nat, mayRetry: bool, passed: set<Check>, refused: set<Check>)
    requires c.raw.Some? && n < |c.raw.value| && Answers(c.raw.value[n].body, c.len).Some?
  {
    && k < c.len && (forall j: nat :: j < k ==> CheckOf(c, n, j) in passed)
    && ((mayRetry && !Answers(c.raw.value[n].body, c.len).value[k].hasResult) || CheckOf(c, n, k) in refused)
  }

  /** A reason to reject the response of node n. */
  ghost predicate Faulty(c: Ctx, n: nat, mayRetry: bool, passed: set<Check>, refused: set<Check>) {
    c.raw.Some? && n < |c.raw.value| &&
    (|| c.raw.value[n].failed || c.raw.value[n].body == Empty
     || Answers(c.raw.value[n].body, c.len).None?
     || exists k :: Culprit(c, n, k, mayRetry, passed, refused))
  }

  /**
   * What handling node n did to a node that was in play: its time is counted, and it is rejected only with a reason.
   */
  ghost predicate Screened(c: Ctx, d: Ctx, n: nat, mayRetry: bool, passed: set<Check>, refused: set<Check>) {
    c.nodes.Some? && n < |c.nodes.value| && !c.nodes.value[n].rejected ==>
      && d.nodes.Some? && n < |d.nodes.value| && d.nodes.value[n].pending == 0
      && (d.nodes.value[n].rejected ==> Faulty(c, n, mayRetry, passed, refused))
  }

  /** Nodes that were out of play stay as they are. */
  predicate OutOfPlay(c: Ctx, d: Ctx) {
    c.nodes.Some? ==>
      && d.nodes.Some? && |d.nodes.value| == |c.nodes.value|
      && forall m :: 0 <= m < |c.nodes.value| && c.nodes.value[m].rejected ==> d.nodes.value[m] == c.nodes.value[m]
  }

  /** The nodes are as they were, or node n is now rejected and there is a reason for it. */
  ghost predicate Verdict(c: Ctx, d: Ctx, n: nat, mayRetry: bool, passed: set<Check>, refused: set<Check>) {
    d.nodes == c.nodes || (d.nodes == Rejected(c, n).nodes && Faulty(c, n, mayRetry, passed, refused))
  }

  /** Nothing happened to the other nodes. */
  predicate OnlyNode(c: Ctx, d: Ctx, n: nat) {
    c.nodes.Some? ==>
      && d.nodes.Some? && |d.nodes.value| == |c.nodes.value|
      && forall m :: 0 <= m < |c.nodes.value| && m != n ==> d.nodes.value[m] == c.nodes.value[m]
  }

  lemma VerdictScreens(c: Ctx, d: Ctx, n: nat, mayRetry: bool, passed: set<Check>, refused: set<Check>)
    requires Verdict(Timed(c, n), d, n, mayRetry, passed, refused)
    ensures Screened(c, d, n, mayRetry, passed, refused) && OnlyNode(c, d, n) && OutOfPlay(c, d)
  {
    if Faulty(Timed(c, n), n, mayRetry, passed, refused) { SameFault(c, Timed(c, n), n, mayRetry, passed, refused); }
  }

  /** The same for all nodes before n. */
  ghost predicate AllScreened(c: Ctx, d: Ctx, n: nat, mayRetry: bool, passed: set<Check>, refused: set<Check>) {
    forall m: nat :: m < n ==> Screened(c, d, m, mayRetry, passed, refused)
  }

  lemma FaultyGrows(c: Ctx, n: nat, mayRetry: bool, passed: set<Check>, refused: set<Check>, passed': set<Check>,
                    refused': set<Check>)
    requires Faulty(c, n, mayRetry, passed, refused) && passed <= passed' && refused <= refused'
    ensures Faulty(c, n, mayRetry, passed', refused')
  {
    if !(c.raw.value[n].failed || c.raw.value[n].body == Empty) && Answers(c.raw.value[n].body, c.len).Some? {
      var k :| Culprit(c, n, k, mayRetry, passed, refused);
      assert Culprit(c, n, k, mayRetry, passed', refused');
    }
  }

  lemma SameFault(c: Ctx, d: Ctx, n: nat, mayRetry: bool, passed: set<Check>, refused: set<Check>)
    requires Faulty(d, n, mayRetry, passed, refused) && d.raw == c.raw && d.len == c.len && d.id == c.id
             && d.attempt == c.attempt
    ensures Faulty(c, n, mayRetry, passed, refused)
  {
    if !(c.raw.value[n].failed || c.raw.value[n].body == Empty) && Answers(c.raw.value[n].body, c.len).Some? {
      var k :| Culprit(d, n, k, mayRetry, passed, refused);
      assert forall j: nat :: CheckOf(d, n, j) == CheckOf(c, n, j);
      assert Culprit(c, n, k, mayRetry, passed, refused);
    }
  }

  lemma FaultFound(c: Ctx, n: nat, k: nat, mayRetry: bool, passed: set<Check>, refused: set<Check>)
    requires c.raw.Some? && n < |c.raw.value| && Answers(c.raw.value[n].body, c.len).Some?
    requires Culprit(c, n, k, mayRetry, passed, refused)
    ensures Faulty(c, n, mayRetry, passed, refused)
  {
  }

  /** The nodes from n on are as they were. */
  predicate Untouched(c: Ctx, d: Ctx, n: nat) {
    c.nodes.Some? ==>
      && d.nodes.Some? && |d.nodes.value| == |c.nodes.value|
      && forall m :: n <= m < |c.nodes.value| ==> d.nodes.value[m] == c.nodes.value[m]
  }

  lemma NoneScreened(c: Ctx, mayRetry: bool, passed: set<Check>, refused: set<Check>)
    ensures AllScreened(c, c, 0, mayRetry, passed, refused) && Untouched(c, c, 0) && OutOfPlay(c, c)
  {
  }

  lemma ScreenedNext(b: Ctx, c: Ctx, d: Ctx, n: nat, mayRetry: bool,
                     passed: set<Check>, refused: set<Check>, passed': set<Check>, refused': set<Check>)
    requires AllScreened(b, c, n, mayRetry, passed, refused) && Untouched(b, c, n) && Handling(b, c)
    requires Screened(c, d, n, mayRetry, passed', refused') && OnlyNode(c, d, n)
    requires passed <= passed' && refused <= refused'
    ensures AllScreened(b, d, n + 1, mayRetry, passed', refused') && Untouched(b, d, n + 1)
  {
    hide Faulty, Moved;
    forall m: nat | m < n + 1 ensures Screened(b, d, m, mayRetry, passed', refused') {
      assert m < n ==> Screened(b, c, m, mayRetry, passed, refused);
      if b.nodes.Some? && m < |b.nodes.value| && !b.nodes.value[m].rejected && d.nodes.value[m].rejected {
        if m < n {
          FaultyGrows(b, m, mayRetry, passed, refused, passed', refused');
        } else {
          HandlingKeeps(b, c);
          SameFault(b, c, n, mayRetry, passed', refused');
        }
      }
    }
  }

  lemma StaysOutOfPlay(a: Ctx, b: Ctx, c: Ctx)
    requires OutOfPlay(a, b) && OutOfPlay(b, c)
    ensures OutOfPlay(a, c)
  {
  }

  /** Without another attempt, an answer that parses is rejected only if the verifier refused something in it. */
  lemma OnlyRefused(c: Ctx, d: Ctx, n: nat, passed: set<Check>, refused: set<Check>)
    requires AllScreened(c, d, n, false, passed, refused)
    ensures forall m: nat :: m < n && InPlay(c, m) && !InPlay(d, m) && Parses(c, m) ==> Refused(c, m, refused)
  {
    forall m: nat | m < n && InPlay(c, m) && !InPlay(d, m) && Parses(c, m) ensures Refused(c, m, refused) {
      assert Screened(c, d, m, false, passed, refused);
      var k :| Culprit(c, m, k, false, passed, refused);
    }
  }

  /** A node that nobody has rejected. */
  predicate InPlay(c: Ctx, n: nat) { c.nodes.Some? && n < |c.nodes.value| && !c.nodes.value[n].rejected }

  lemma SameResulted(c: Ctx, d: Ctx, n: nat, m: nat)
    requires Handling(c, d)
    ensures Resulted(c, n, m) <==> Resulted(d, n, m)
  {
  }

  lemma HandlingTwice(a: Ctx, b: Ctx, c: Ctx)
    requires Handling(a, b) && Handling(b, c)
    ensures Handling(a, c)
  {
    MovedTwice(a, b, c);
  }

  /** The measured time of a node that is still in play is counted once. */
  function Timed(c: Ctx, n: nat): Ctx {
    if c.nodes.Some? && n < |c.nodes.value| && c.nodes.value[n].pending != 0 && !c.nodes.value[n].rejected then
      var w := c.nodes.value[n];
      c.(nodes := Some(c.nodes.value[n := Node(false, w.responses + 1, w.totalTime + w.pending, 0)]))
    else c
  }

  /** blacklist_node, or resetting the weight alone */
  function Rejected(c: Ctx, n: nat): Ctx {
    if c.nodes.Some? && n < |c.nodes.value| then
      c.(nodes := Some(c.nodes.value[n := c.nodes.value[n].(rejected := true)]))
    else c
  }

  lemma RejectedJudged(c: Ctx, d: Ctx, n: nat)
    requires Handling(c, d) && Dismissed(d, n)
    ensures Handling(c, Rejected(d, n))
    ensures forall passed :: Judged(Rejected(d, n), passed, n)
    ensures d.nodes.Some? && n < |d.nodes.value|
            ==> Rejected(d, n).nodes.Some? && Rejected(d, n).nodes.value[n].rejected
    ensures d.nodes.None? ==> Rejected(d, n).nodes.None?
  {
    RejectedHandles(d, n);
    HandlingTwice(c, d, Rejected(d, n));
  }

  /** response_free */
  function ResponseFree(c: Ctx): Ctx { c.(nodes := None, raw := None, parsed := None) }

  /** After a failed attempt, before it is decided whether there is another one. */
  function GivenUp(c: Ctx): Ctx { ResponseFree(c).(attempt := c.attempt + 1, error := true) }

  lemma ParsedHandles(c: Ctx, p: Option<Body>, e: bool, r: Ret)
    requires Shaped(c) && c.raw.Some? && c.kind == Rpc
    ensures Handling(c, c.(parsed := p, error := e, state := r))
  {
  }

  lemma TimedHandles(c: Ctx, n: nat)
    requires Shaped(c)
    ensures Handling(c, Timed(c, n))
  {
  }

  lemma RejectedHandles(c: Ctx, n: nat)
    requires Shaped(c)
    ensures Handling(c, Rejected(c, n))
  {
  }

  /** A context pushed behind a context that only moved ahead. */
  lemma StepEvolved(a: seq<Ctx>, b: seq<Ctx>, i: nat, d: Ctx, id: nat)
    requires i < |a| && Later(a[i], d) && Pushed(a[i := d], b, i, id)
    ensures Evolved(a, b, i, id)
    ensures b == a[i := d] ==> Same(a, b, i)
  {
    var m := a[i := d];
    StepSame(a, i, d);
    if b != m {
      var c :| Fresh(c, id) && b == Insert(m, i + 1, c);
      assert Grown(a, b, i, id, m, i + 1, c);
    }
  }

  lemma StepSame(a: seq<Ctx>, i: nat, d: Ctx)
    requires i < |a| && Later(a[i], d)
    ensures Same(a, a[i := d], i)
  {
    forall j | i <= j < |a| ensures Later(a[j], a[i := d][j]) {
      if j != i { LaterSelf(a[j]); }
    }
  }

  /** A response that does not parse: the error is set, and the node is rejected. */
  lemma GarbledHandles(c: Ctx, n: nat, mayRetry: bool, passed: set<Check>, refused: set<Check>)
    requires Shaped(c) && c.kind == Rpc && Garbled(c, n)
    ensures var d := Rejected(c.(parsed := Tree(c.raw.value[n].body), error := true, state := EINVALDT), n);
            && Handling(c, d) && Judged(d, passed, n) && Verdict(c, d, n, mayRetry, passed, refused) && d.error
            && !InPlay(d, n)
  {
    var d := c.(parsed := Tree(c.raw.value[n].body), error := true, state := EINVALDT);
    ParsedHandles(c, d.parsed, true, EINVALDT);
    RejectedJudged(c, d, n);
  }

  /** A response in which answer k is missing or was refused. */
  lemma RefusedHandles(c: Ctx, n: nat, k: nat, code: Ret, mayRetry: bool, passed: set<Check>, refused: set<Check>)
    requires Shaped(c) && c.kind == Rpc && Parses(c, n) && code != OK && code != WAITING
    requires Culprit(c, n, k, mayRetry, passed, refused)
    ensures var d := Rejected(c.(parsed := Some(c.raw.value[n].body), state := code), n);
            && Handling(c, d) && Judged(d, passed, n) && Verdict(c, d, n, mayRetry, passed, refused)
            && d.error == c.error && !InPlay(d, n)
  {
    var d := c.(parsed := Some(c.raw.value[n].body), state := code);
    ParsedHandles(c, d.parsed, c.error, code);
    RejectedJudged(c, d, n);
    FaultFound(c, n, k, mayRetry, passed, refused);
  }

  /** A response the verifier still waits for. */
  lemma WaitingHandles(c: Ctx, n: nat, mayRetry: bool, passed: set<Check>, refused: set<Check>)
    requires Shaped(c) && c.kind == Rpc && Parses(c, n)
    ensures var d := c.(parsed := Some(c.raw.value[n].body), state := WAITING);
            Handling(c, d) && Verdict(c, d, n, mayRetry, passed, refused)
  {
    ParsedHandles(c, Some(c.raw.value[n].body), c.error, WAITING);
  }

  /** Whether a response parses, and what is left of it if it does. */
  lemma ParsedOrGarbled(c: Ctx, n: nat)
    requires c.raw.Some? && n < |c.raw.value| && !c.raw.value[n].failed && c.raw.value[n].body != Empty
    ensures Garbled(c, n) <==> Answers(c.raw.value[n].body, c.len).None?
    ensures Parses(c, n) <==> Answers(c.raw.value[n].body, c.len).Some?
    ensures Parses(c, n) ==> Tree(c.raw.value[n].body) == Some(c.raw.value[n].body)
  {
  }

  lemma ResultedUpTo(c: Ctx, n: nat, m: nat)
    requires Parses(c, n)
    requires forall j :: 0 <= j < m && j < c.len ==> Answers(c.raw.value[n].body, c.len).value[j].hasResult
    ensures Resulted(c, n, m)
  {
  }

  /** A response in which every answer passed. */
  lemma VerifiedHandles(c: Ctx, n: nat, state: Ret, mayRetry: bool, passed: set<Check>, refused: set<Check>)
    requires Shaped(c) && c.kind == Rpc && c.raw.Some? && n < |c.raw.value| && !c.raw.value[n].failed
    requires Answers(c.raw.value[n].body, c.len).Some?
    requires forall k :: 0 <= k < c.len ==> Check(c.id, c.attempt, n, k) in passed
    requires state == OK
    ensures var d := c.(parsed := Some(c.raw.value[n].body), state := state);
            Handling(c, d) && Judged(d, passed, n) && Verdict(c, d, n, mayRetry, passed, refused)
  {
    ParsedHandles(c, Some(c.raw.value[n].body), c.error, state);
  }

  lemma HandlingSelf(c: Ctx)
    requires Shaped(c)
    ensures Handling(c, c)
  {
    LaterSelf(c);
  }

  lemma HandlingKeeps(c: Ctx, d: Ctx)
    requires Handling(c, d)
    ensures d.id == c.id && d.kind == c.kind && d.hasMethod == c.hasMethod && d.len == c.len && d.attempt == c.attempt
  {
  }

  /** The pushing context stays in place, and storing it afterwards is storing it before. */
  lemma PushedKeeps(a: seq<Ctx>, b: seq<Ctx>, i: nat, id: nat, d: Ctx)
    requires Pushed(a, b, i, id)
    ensures i < |b| && b[i] == a[i] && b[..i] == a[..i]
    ensures Pushed(a[i := d], b[i := d], i, id)
  {
    if b != a {
      var c :| Fresh(c, id) && b == Insert(a, i + 1, c);
      assert b[i := d] == Insert(a[i := d], i + 1, c);
    }
  }

  lemma StillRejected(c: Ctx, d: Ctx)
    requires Handling(c, d)
    ensures c.nodes.Some? ==> d.nodes.Some? && |d.nodes.value| == |c.nodes.value|
    ensures c.nodes.Some? ==>
              forall m :: 0 <= m < |c.nodes.value| && c.nodes.value[m].rejected ==> d.nodes.value[m].rejected
  {
    if c.nodes.Some? {
      forall m | 0 <= m < |c.nodes.value| && c.nodes.value[m].rejected ensures d.nodes.value[m].rejected {
        assert NodeLater(c.nodes.value[m], d.nodes.value[m]);
      }
    }
  }

  lemma WaitingInv(c: Ctx, d: Ctx, maxAttempts: nat, passed: set<Check>)
    requires Inv(c, maxAttempts, passed) && !c.error && Handling(c, d) && d.state == WAITING
    ensures Inv(d, maxAttempts, passed)
  {
  }

  lemma AcceptedInv(c: Ctx, d: Ctx, n: nat, maxAttempts: nat, passed: set<Check>)
    requires Inv(c, maxAttempts, passed) && !c.error && c.kind == Rpc && Handling(c, d) && Judged(d, passed, n)
             && d.raw.Some?
    requires if d.nodes.None? then n == 0 else n < |d.nodes.value| && !d.nodes.value[n].rejected
    requires d.nodes.Some? ==> forall m :: 0 <= m < n ==> d.nodes.value[m].rejected
    ensures Inv(d, maxAttempts, passed) && Finished(d, passed)
    ensures d.nodes.Some? ==> AcceptedFrom(d, passed, n)
  {
    if d.nodes.Some? {
      assert AcceptedFrom(d, passed, n);
    }
  }

  lemma DoneFinished(s: seq<Ctx>, i: nat, maxAttempts: nat, passed: set<Check>)
    requires i < |s| && AllInv(s, maxAttempts, passed) && Accepted(s[i])
    ensures Finished(s[i], passed)
  {
    var c := s[i];
    assert Inv(c, maxAttempts, passed);
    if c.nodes.None? {
      var n :| AcceptedFrom(c, passed, n);
      assert n == 0;
    }
  }

  lemma InvOf(s: seq<Ctx>, i: nat)
    requires i < |s|
    ensures forall m: nat, passed :: AllInv(s, m, passed) ==> Inv(s[i], m, passed)
  {
  }

  lemma FreedInv(s: seq<Ctx>, i: nat, c: Ctx, maxAttempts: nat, passed: set<Check>)
    requires i < |s| && AllInv(s, maxAttempts, passed) && !s[i].error && Handling(s[i], c)
    ensures AllInv(s[i := c][i := GivenUp(c)], maxAttempts, passed)
    ensures forall created: nat :: Named(s, created) ==> Named(s[i := c], created)
  {
    assert s[i := c][i := GivenUp(c)] == s[i := GivenUp(c)];
  }

  /** ctx_set_error_intern: waiting is not an error. */
  function Failed(c: Ctx, code: Ret): Ctx { if code == WAITING then c else c.(error := true, state := code) }

  /** The environment only added what was missing. */
  predicate Provided(c: Ctx, d: Ctx) {
    && d == c.(raw := d.raw, nodes := d.nodes)
    && (c.raw.Some? ==> d.raw == c.raw) && (c.nodes.Some? ==> d.nodes == c.nodes)
  }

  /** A transport or signer answered: one more call, a response for every node, perhaps new times. */
  predicate Sent(c: Ctx, d: Ctx) {
    && d == c.(raw := d.raw, nodes := d.nodes, sends := c.sends + 1) && d.raw.Some?
    && (c.nodes.None? ==> d.nodes.None?)
    && (c.nodes.Some? ==> && d.nodes.Some? && |d.nodes.value| == |c.nodes.value|
                          && forall n :: 0 <= n < |c.nodes.value| ==>
                               d.nodes.value[n] == c.nodes.value[n].(pending := d.nodes.value[n].pending))
  }

  lemma SameSelf(a: seq<Ctx>, i: nat, id: nat)
    requires i < |a|
    ensures Same(a, a, i) && Evolved(a, a, i, id)
  {
    forall j | i <= j < |a| ensures Later(a[j], a[j]) { LaterSelf(a[j]); }
  }

  lemma FailedMoves(c: Ctx, code: Ret)
    ensures Moved(c, Failed(c, code))
  {
    LaterSelf(c);
  }

  lemma EvolvedAt(a: seq<Ctx>, b: seq<Ctx>, i: nat, id: nat)
    requires i < |a| && Evolved(a, b, i, id)
    ensures i < |b| && |a| <= |b| && b[..i] == a[..i] && b[i].id == a[i].id && b[i].sends == a[i].sends
  {
    if !Same(a, b, i) {
      var m, p, c :| Grown(a, b, i, id, m, p, c);
      assert b[..i] == m[..i] && b[i] == m[i];
    }
  }

  lemma HandledId(c: Ctx, d: Ctx)
    requires Moved(c, d)
    ensures d.id == c.id && d.kind == c.kind && d.hasMethod == c.hasMethod
  {
  }

  lemma NothingPushed(s: seq<Ctx>, i: nat, id: nat)
    requires i < |s|
    ensures Pushed(s, s, i, id)
  {
  }

  lemma PrefixIds(a: seq<Ctx>, b: seq<Ctx>, i: nat, id: nat, created: nat, below: map<nat, nat>, n: nat)
    requires i < |a| && i < |b| && Pushed(a[i := b[i]], b, i, id) && Named(b, created)
    requires forall j :: 0 <= j <= i ==> a[j].id !in below
    ensures forall j :: 0 <= j < i ==> b[j].id !in below[b[i].id := n]
  {
    PushedKeeps(a[i := b[i]], b, i, id, b[i]);
    assert a[i := b[i]][..i] == a[..i];
    forall j | 0 <= j < i ensures b[j].id !in below[b[i].id := n] {
      assert b[j] == b[..i][j] == a[..i][j] == a[j];
    }
  }

  /** Another attempt is never taken back. */
  lemma AttemptGrew(c: Ctx, freed: Ctx, last: Ctx, a: seq<Ctx>, b: seq<Ctx>, i: nat, created: nat, id: nat)
    requires i < |a| && Evolved(a, b, i, id) && a[i] == freed && freed.attempt == c.attempt + 1
    requires i < |b| && b[i] == last
    ensures last != c
  {
    if !Same(a, b, i) {
      var m, p, x :| Grown(a, b, i, id, m, p, x);
      assert b[i] == m[i];
    }
  }

  lemma PrefixBelow(a: seq<Ctx>, b: seq<Ctx>, i: nat)
    requires i < |a| && i < |b| && b[..i + 1] == a[..i + 1]
    ensures b[..i] == a[..i] && b[i] == a[i]
  {
    assert b[..i] == b[..i + 1][..i] && a[..i] == a[..i + 1][..i];
    assert b[i] == b[..i + 1][i];
  }

  lemma SameIsEvolved(a: seq<Ctx>, b: seq<Ctx>, i: nat, id: nat)
    requires Same(a, b, i)
    ensures Evolved(a, b, i, id)
  {
  }

  lemma Replaced(s: seq<Ctx>, i: nat, c: Ctx, d: Ctx, created: nat, maxAttempts: nat, passed: set<Check>)
    requires i < |s| && AllInv(s[i := c], maxAttempts, passed) && Named(s, created) && Inv(d, maxAttempts, passed)
             && d.id == s[i].id
    ensures AllInv(s[i := d], maxAttempts, passed) && Named(s[i := d], created)
  {
    var t := s[i := d];
    forall j | 0 <= j < |s| ensures Inv(t[j], maxAttempts, passed) {
      if j != i { assert t[j] == s[i := c][j]; }
    }
  }
}
