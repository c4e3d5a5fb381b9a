/** Request contexts: their state, what may happen to it over time, and what an accepted response has behind it. */
module ExecModel {
  import opened Wrappers

  /** in3_ret_t has no positive member. */
  type Ret = r: int | -17 <= r <= 0
  const OK: Ret := 0
  const EUNKNOWN: Ret := -1
  const ENOMEM: Ret := -2
  const EINVAL: Ret := -4
  const EFIND: Ret := -5
  const ECONFIG: Ret := -6
  const ELIMIT: Ret := -7
  const EINVALDT: Ret := -9
  const ERPC: Ret := -11
  const WAITING: Ret := -16
  const EIGNORE: Ret := -17

  /** One answer inside a response: does it have a result. */
  datatype Entry = Entry(hasResult: bool)

  /** What a node sent: nothing, bytes that do not parse, an object, an array, or some other JSON value. */
  datatype Body = Empty | Opaque | Single(e: Entry) | Batch(es: seq<Entry>) | Scalar
  datatype Response = Response(failed: bool, body: Body)

  /** A selected node: `rejected` is a weight reset to NULL; `pending` is a measured time not yet counted. */
  datatype Node = Node(rejected: bool, responses: nat, totalTime: nat, pending: nat)

  datatype Kind = Rpc | Sign

  /** in3_ctx_t; `sends` counts the transport or sign calls made for it, `id` names it. */
  datatype Ctx = Ctx(
    id: nat, kind: Kind, hasMethod: bool, len: nat, mayFail: bool,
    attempt: nat, error: bool, state: Ret, nodes: Option<seq<Node>>,
    raw: Option<seq<Response>>, parsed: Option<Body>, sends: nat)

  /**
   * One successful call of the verifier: for request `entry` in the answer of `node` during `attempt` of context `id`.
   */
  datatype Check = Check(id: nat, attempt: nat, node: nat, entry: nat)

  datatype Progress = Success | WaitingForRequired | WaitingForResponse | Failure

  /** ctx_parse_response: the answers, if there are exactly `len`. */
  function Answers(b: Body, len: nat): (r: Option<seq<Entry>>)
    ensures r.Some? ==> |r.value| == len
    ensures r.Some? <==> (b.Single? && len == 1) || (b.Batch? && |b.es| == len)
    ensures r.Some? ==> r.value == if b.Single? then [b.e] else b.es
  {
    match b
    case Single(e) => if len == 1 then Some([e]) else None
    case Batch(es) => if |es| == len then Some(es) else None
    case Empty => None
    case Opaque => None
    case Scalar => None
  }

  /** The response_context a parse leaves behind, also when it fails. */
  function Tree(b: Body): Option<Body> {
    if b.Empty? || b.Opaque? then None else Some(b)
  }

  // ----- invariants ---------------------------------------------------------------------

  function Limit(maxAttempts: nat): nat { if maxAttempts == 0 then 1 else maxAttempts }

  predicate Shaped(c: Ctx) {
    && (c.hasMethod ==> c.len >= 1)
    && (c.nodes.Some? ==> |c.nodes.value| >= 1)
    && (c.raw.Some? ==> |c.raw.value| >= 1 && (c.nodes.Some? ==> |c.raw.value| == |c.nodes.value|))
    && (c.parsed.Some? ==> c.raw.Some?)
    && (c.kind == Sign ==> c.nodes.None? && c.parsed.None?)
  }

  /** The first node that is not rejected; a response that was not sent for comes from no node. */
  predicate FirstLeft(c: Ctx, n: int) {
    if c.nodes.None? then n == 0
    else 0 <= n < |c.nodes.value| && !c.nodes.value[n].rejected && forall m :: 0 <= m < n ==> c.nodes.value[m].rejected
  }

  /** The response of node n was accepted for good reason. */
  ghost predicate AcceptedFrom(c: Ctx, passed: set<Check>, n: int) {
    && FirstLeft(c, n)
    && c.raw.Some? && 0 <= n < |c.raw.value| && !c.raw.value[n].failed
    && Answers(c.raw.value[n].body, c.len).Some?
    && c.parsed == Some(c.raw.value[n].body)
    && (forall k :: 0 <= k < c.len ==> Check(c.id, c.attempt, n, k) in passed)
  }

  /** A response that counts as verified. */
  predicate Accepted(c: Ctx) { c.parsed.Some? && c.state == OK }

  ghost predicate Backed(c: Ctx, passed: set<Check>) {
    Accepted(c) ==> exists n :: AcceptedFrom(c, passed, n)
  }

  ghost predicate Inv(c: Ctx, maxAttempts: nat, passed: set<Check>) {
    && Shaped(c)
    && c.attempt <= Limit(maxAttempts)
    && (c.attempt == Limit(maxAttempts) ==> c.error && c.raw.None?)
    && c.sends <= c.attempt + (if c.raw.Some? then 1 else 0)
    && Backed(c, passed)
  }

  /** Whatever happens, one context causes at most max(1, maxAttempts) calls of the transport or the signer. */
  lemma CallsBounded(c: Ctx, maxAttempts: nat, passed: set<Check>)
    requires Inv(c, maxAttempts, passed)
    ensures c.sends <= Limit(maxAttempts)
  {
  }

  lemma BackedGrows(c: Ctx, a: set<Check>, b: set<Check>)
    requires Backed(c, a) && a <= b
    ensures Backed(c, b)
  {
    if Accepted(c) {
      var n :| AcceptedFrom(c, a, n);
      assert AcceptedFrom(c, b, n);
    }
  }

  // ----- how a context may change --------------------------------------------------------

  function Uncounted(n: Node): nat { if n.pending != 0 then 1 else 0 }

  /** A rejected node stays rejected; every measured time is counted once. */
  predicate NodeLater(a: Node, b: Node) {
    && (a.rejected ==> b.rejected)
    && b.totalTime + b.pending == a.totalTime + a.pending
    && b.responses + Uncounted(b) == a.responses + Uncounted(a)
  }

  predicate NodesLater(a: seq<Node>, b: seq<Node>) {
    |a| == |b| && forall n :: 0 <= n < |a| ==> NodeLater(a[n], b[n])
  }

  /** Progress of one context inside a step; within an attempt its nodes and responses stay. */
  predicate Moved(c: Ctx, d: Ctx) {
    && d.id == c.id && d.kind == c.kind && d.hasMethod == c.hasMethod && d.len == c.len && d.mayFail == c.mayFail
    && d.sends == c.sends && c.attempt <= d.attempt
    && (c.attempt == d.attempt ==>
          && (c.nodes.Some? ==> d.nodes.Some? && NodesLater(c.nodes.value, d.nodes.value))
          && (c.raw.Some? ==> d.raw == c.raw))
  }

  /** Progress over whole steps: besides, an error and an accepted response are final. */
  predicate Later(c: Ctx, d: Ctx) {
    Moved(c, d) && (c.error || (Accepted(c) && c.hasMethod) ==> d == c)
  }

  lemma MovedTwice(a: Ctx, b: Ctx, c: Ctx)
    requires Moved(a, b) && Moved(b, c)
    ensures Moved(a, c)
  {
    if a.attempt == c.attempt && a.nodes.Some? {
      forall n | 0 <= n < |a.nodes.value|
        ensures NodeLater(a.nodes.value[n], c.nodes.value[n])
      {
        assert NodeLater(a.nodes.value[n], b.nodes.value[n]) && NodeLater(b.nodes.value[n], c.nodes.value[n]);
      }
    }
  }

  lemma LaterTwice(a: Ctx, b: Ctx, c: Ctx)
    requires Later(a, b) && Later(b, c)
    ensures Later(a, c)
  {
    MovedTwice(a, b, c);
  }

  /** A context as ctx_add_required leaves it: created, executed once, nothing received. */
  predicate Fresh(c: Ctx, id: nat) {
    && c.id == id && c.hasMethod && Shaped(c) && c.attempt == 0 && !c.error && c.state == WAITING
    && c.raw.None? && c.parsed.None? && c.sends == 0
    && (c.nodes.Some? ==> forall n :: 0 <= n < |c.nodes.value| ==> !c.nodes.value[n].rejected)
  }

  // ----- the chain: the context required by stack[j] is stack[j + 1] ------------------------

  /** Nothing below i changed, everything from i on moved ahead. */
  ghost predicate Same(a: seq<Ctx>, b: seq<Ctx>, i: nat) {
    && |a| == |b| && i <= |a| && b[..i] == a[..i]
    && forall j :: i <= j < |a| ==> Later(a[j], b[j])
  }

  function Insert(s: seq<Ctx>, p: nat, c: Ctx): seq<Ctx>
    requires p <= |s|
  {
    s[..p] + [c] + s[p..]
  }

  /** The same, except that one fresh context may have been added behind position i. */
  ghost predicate Evolved(a: seq<Ctx>, b: seq<Ctx>, i: nat, id: nat) {
    Same(a, b, i) || exists m, p, c :: Grown(a, b, i, id, m, p, c)
  }

  ghost predicate Grown(a: seq<Ctx>, b: seq<Ctx>, i: nat, id: nat, m: seq<Ctx>, p: nat, c: Ctx) {
    Same(a, m, i) && i < p <= |m| && b == Insert(m, p, c) && Fresh(c, id)
  }

  lemma SameTwice(a: seq<Ctx>, b: seq<Ctx>, c: seq<Ctx>, i: nat)
    requires Same(a, b, i) && Same(b, c, i)
    ensures Same(a, c, i)
  {
    forall j | i <= j < |a| ensures Later(a[j], c[j]) { LaterTwice(a[j], b[j], c[j]); }
  }

  lemma SameThenEvolved(a: seq<Ctx>, b: seq<Ctx>, c: seq<Ctx>, i: nat, id: nat)
    requires Same(a, b, i) && Evolved(b, c, i, id)
    ensures Evolved(a, c, i, id)
  {
    if Same(b, c, i) {
      SameTwice(a, b, c, i);
    } else {
      var m, p, x :| Grown(b, c, i, id, m, p, x);
      SameTwice(a, b, m, i);
      assert Grown(a, c, i, id, m, p, x);
    }
  }

  /** What happened from i + 1 on also happened from i on, if context i is untouched. */
  lemma EvolvedBelow(a: seq<Ctx>, b: seq<Ctx>, i: nat, id: nat)
    requires i < |a| && Evolved(a, b, i + 1, id)
    ensures Evolved(a, b, i, id) && i < |b| && b[i] == a[i]
  {
    if Same(a, b, i + 1) {
      SameBelow(a, b, i);
    } else {
      var m, p, c :| Grown(a, b, i + 1, id, m, p, c);
      SameBelow(a, m, i);
      assert Grown(a, b, i, id, m, p, c);
      assert b[i] == m[i];
    }
  }

  lemma LaterSelf(c: Ctx)
    ensures Later(c, c)
  {
  }

  lemma SameBelow(a: seq<Ctx>, b: seq<Ctx>, i: nat)
    requires i < |a| && Same(a, b, i + 1)
    ensures Same(a, b, i) && b[i] == a[i]
  {
    assert b[i] == b[..i + 1][i] == a[..i + 1][i];
    assert b[..i] == b[..i + 1][..i] && a[..i] == a[..i + 1][..i];
    LaterSelf(a[i]);
  }

  ghost predicate AllInv(s: seq<Ctx>, maxAttempts: nat, passed: set<Check>) {
    forall j :: 0 <= j < |s| ==> Inv(s[j], maxAttempts, passed)
  }

  /** Names are unique. */
  predicate Named(s: seq<Ctx>, created: nat) {
    (forall j :: 0 <= j < |s| ==> s[j].id < created) && (forall j, k :: 0 <= j < k < |s| ==> s[j].id != s[k].id)
  }

  lemma AllInvGrows(s: seq<Ctx>, maxAttempts: nat, a: set<Check>, b: set<Check>)
    requires AllInv(s, maxAttempts, a) && a <= b
    ensures AllInv(s, maxAttempts, b)
  {
    forall j | 0 <= j < |s| ensures Inv(s[j], maxAttempts, b) { BackedGrows(s[j], a, b); }
  }

  lemma InsertKeeps(s: seq<Ctx>, p: nat, c: Ctx, created: nat, maxAttempts: nat, passed: set<Check>)
    requires p <= |s| && AllInv(s, maxAttempts, passed) && Named(s, created) && Fresh(c, created)
    ensures AllInv(Insert(s, p, c), maxAttempts, passed) && Named(Insert(s, p, c), created + 1)
  {
    var r := Insert(s, p, c);
    assert forall j :: 0 <= j < |r| ==> r[j] == if j < p then s[j] else if j == p then c else s[j - 1];
  }

  // ----- in3_ctx_state ----------------------------------------------------------------------

  predicate Answered(c: Ctx) { c.raw.Some? && (c.kind == Rpc ==> c.parsed.Some?) }

  function State(s: seq<Ctx>, i: nat): Progress
    requires i <= |s|
    decreases |s| - i
  {
    if i == |s| then Success else
    var required := State(s, i + 1);
    if required == Failure || s[i].error then Failure
    else if i + 1 < |s| && required != Success then WaitingForRequired
    else if !Answered(s[i]) then WaitingForResponse
    else Success
  }

  lemma NoneRequired(s: seq<Ctx>)
    ensures State(s, |s|) == Success
  {
  }

  /** The state looks at the whole chain: any error fails it, and success needs an answer everywhere. */
  lemma {:induction false} StateMeans(s: seq<Ctx>, i: nat)
    requires i <= |s|
    ensures State(s, i) == Failure <==> exists j :: i <= j < |s| && s[j].error
    ensures State(s, i) == Success <==>
              forall j :: i <= j < |s| ==> !s[j].error && s[j].raw.Some? && (s[j].kind == Rpc ==> s[j].parsed.Some?)
    ensures State(s, i) == WaitingForRequired <==>
              (forall j :: i <= j < |s| ==> !s[j].error) && exists j :: i < j < |s| && !Answered(s[j])
    decreases |s| - i
  {
    if i == |s| {
    } else {
      StateMeans(s, i + 1);
    }
  }
}
