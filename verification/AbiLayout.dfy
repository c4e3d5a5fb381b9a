/** The head/tail layout of the Contract ABI Specification, over already encoded parts. */
module AbiLayout {
  import opened Wrappers
  import opened Bytes

  /** One tuple member: its encoding, and whether it goes to the tail. */
  datatype Part = Part(dynamic: bool, body: seq<byte>)

  function HeadBytes(p: Part): nat { if p.dynamic then 32 else |p.body| }

  /** Bytes of the first n heads. */
  function HeadTotal(ps: seq<Part>, n: nat): nat
    requires n <= |ps|
  {
    if n == 0 then 0 else HeadTotal(ps, n - 1) + HeadBytes(ps[n - 1])
  }

  /** tail(X(1)) ... tail(X(n)) */
  function Tails(ps: seq<Part>, n: nat): seq<byte>
    requires n <= |ps|
  {
    if n == 0 then [] else Tails(ps, n - 1) + if ps[n - 1].dynamic then ps[n - 1].body else []
  }

  /** head(X(i)): the value itself, or the position of its tail counted from the first head. */
  function Head(ps: seq<Part>, i: nat): (h: seq<byte>)
    requires i < |ps|
    ensures |h| == HeadBytes(ps[i])
  {
    if ps[i].dynamic then U256(HeadTotal(ps, |ps|) + |Tails(ps, i)|) else ps[i].body
  }

  function Heads(ps: seq<Part>, n: nat): seq<byte>
    requires n <= |ps|
  {
    if n == 0 then [] else Heads(ps, n - 1) + Head(ps, n - 1)
  }

  /** enc of a tuple of parts */
  function Layout(ps: seq<Part>): seq<byte> {
    Heads(ps, |ps|) + Tails(ps, |ps|)
  }

  lemma {:induction false} HeadsSize(ps: seq<Part>, n: nat)
    requires n <= |ps|
    ensures |Heads(ps, n)| == HeadTotal(ps, n)
  {
    if n == 0 {
    } else {
      HeadsSize(ps, n - 1);
    }
  }

  predicate WholeWords(ps: seq<Part>) {
    forall i :: 0 <= i < |ps| ==> |ps[i].body| % 32 == 0
  }

  lemma LayoutWords(ps: seq<Part>)
    requires WholeWords(ps)
    ensures |Layout(ps)| % 32 == 0
  {
    TailWords(ps, |ps|);
    HeadWords(ps, |ps|);
    HeadsSize(ps, |ps|);
  }

  lemma {:induction false} TailWords(ps: seq<Part>, n: nat)
    requires n <= |ps| && WholeWords(ps)
    ensures |Tails(ps, n)| % 32 == 0
  {
    if n == 0 {
    } else {
      TailWords(ps, n - 1);
    }
  }

  lemma {:induction false} HeadWords(ps: seq<Part>, n: nat)
    requires n <= |ps| && WholeWords(ps)
    ensures HeadTotal(ps, n) % 32 == 0
  {
    if n == 0 {
    } else {
      HeadWords(ps, n - 1);
    }
  }

  lemma {:induction false} TotalsGrow(ps: seq<Part>, n: nat, m: nat)
    requires n <= m <= |ps|
    ensures |Tails(ps, n)| <= |Tails(ps, m)| && HeadTotal(ps, n) <= HeadTotal(ps, m)
  {
    if n == m {
    } else {
      TotalsGrow(ps, n, m - 1);
    }
  }

  /** The head of member n fits the reserved room, and its tail stays within the whole layout. */
  lemma PartRoom(ps: seq<Part>, n: nat)
    requires n < |ps|
    ensures |Heads(ps, n)| + HeadBytes(ps[n]) == |Heads(ps, n + 1)| <= HeadTotal(ps, |ps|)
    ensures HeadTotal(ps, |ps|) + |Tails(ps, n + 1)| <= |Layout(ps)|
  {
    HeadsSize(ps, n);
    HeadsSize(ps, n + 1);
    HeadsSize(ps, |ps|);
    TotalsGrow(ps, n + 1, |ps|);
  }

  // ----- where the parts are ---------------------------------------------------------

  predicate At(data: seq<byte>, off: nat, x: seq<byte>) {
    off + |x| <= |data| && data[off..off + |x|] == x
  }

  lemma AtEnd(a: seq<byte>, x: seq<byte>)
    ensures At(a + x, |a|, x)
  {
  }

  lemma AtLonger(data: seq<byte>, c: seq<byte>, off: nat, x: seq<byte>)
    requires At(data, off, x)
    ensures At(data + c, off, x)
  {
    assert (data + c)[off..off + |x|] == data[off..off + |x|];
  }

  lemma AtAfter(a: seq<byte>, data: seq<byte>, off: nat, x: seq<byte>)
    requires At(data, off, x)
    ensures At(a + data, |a| + off, x)
  {
    assert (a + data)[|a| + off..|a| + off + |x|] == data[off..off + |x|];
  }

  lemma {:induction false} HeadAt(ps: seq<Part>, i: nat, n: nat)
    requires i < n <= |ps|
    ensures At(Heads(ps, n), |Heads(ps, i)|, Head(ps, i))
  {
    if i < n - 1 {
      HeadAt(ps, i, n - 1);
      AtLonger(Heads(ps, n - 1), Head(ps, n - 1), |Heads(ps, i)|, Head(ps, i));
    } else {
      AtEnd(Heads(ps, i), Head(ps, i));
    }
  }

  lemma {:induction false} TailAt(ps: seq<Part>, i: nat, n: nat)
    requires i < n <= |ps| && ps[i].dynamic
    ensures At(Tails(ps, n), |Tails(ps, i)|, ps[i].body)
  {
    if i < n - 1 {
      TailAt(ps, i, n - 1);
      AtLonger(Tails(ps, n - 1), if ps[n - 1].dynamic then ps[n - 1].body else [], |Tails(ps, i)|, ps[i].body);
    } else {
      AtEnd(Tails(ps, i), ps[i].body);
    }
  }

  /** In the layout, head i stands after the earlier heads. */
  lemma LayoutHeadAt(ps: seq<Part>, i: nat)
    requires i < |ps|
    ensures At(Layout(ps), |Heads(ps, i)|, Head(ps, i))
  {
    HeadAt(ps, i, |ps|);
    AtLonger(Heads(ps, |ps|), Tails(ps, |ps|), |Heads(ps, i)|, Head(ps, i));
  }

  /** A dynamic body stands at the position its head names. */
  lemma LayoutTailAt(ps: seq<Part>, i: nat)
    requires i < |ps| && ps[i].dynamic
    ensures At(Layout(ps), HeadTotal(ps, |ps|) + |Tails(ps, i)|, ps[i].body)
  {
    HeadsSize(ps, |ps|);
    TailAt(ps, i, |ps|);
    AtAfter(Heads(ps, |ps|), Tails(ps, |ps|), |Tails(ps, i)|, ps[i].body);
  }
}
