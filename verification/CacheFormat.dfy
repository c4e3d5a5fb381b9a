/** The cached node list and white list: their bytes, how they are read back, and the round trips. */
module CacheFormat {
  import opened Wrappers
  import opened Bytes
  import opened TwosComplement

  datatype Weight = Weight(responses: nat, totalTime: nat, blacklistedUntil: nat)
  datatype Node = Node(
    capacity: nat, index: nat, deposit: nat, props: nat, address: seq<byte>, url: seq<byte>, attrs: byte)
  datatype VerifiedHash = VerifiedHash(block: nat, hash: seq<byte>)

  /** The part of in3_chain_t that is cached; the table of verified hashes may be missing. */
  datatype Chain = Chain(
    contract: seq<byte>, lastBlock: nat, nodes: seq<Node>, weights: seq<Weight>, hashes: Option<seq<VerifiedHash>>)

  const VERSION: byte := 6
  /** sizeof(uint32_t), sizeof(uint64_t), an address and a hash */
  const INT: nat := 4
  const LONG: nat := 8
  const ADDRESS: nat := 20
  const HASH: nat := 32

  predicate ValidWeight(w: Weight) {
    w.responses < Pow256(INT) && w.totalTime < Pow256(INT) && w.blacklistedUntil < Pow256(LONG)
  }

  predicate ValidNode(n: Node) {
    && n.capacity < Pow256(INT) && n.index < Pow256(INT) && n.deposit < Pow256(LONG) && n.props < Pow256(LONG)
    && |n.address| == ADDRESS && 0 !in n.url
  }

  predicate ValidHash(h: VerifiedHash) { h.block < Pow256(LONG) && |h.hash| == HASH }

  /** What the types of in3_chain_t guarantee; the table has room for `max` entries. */
  predicate ValidChain(c: Chain, max: nat) {
    && |c.contract| == ADDRESS && c.lastBlock < Pow256(LONG) && |c.nodes| == |c.weights| < Pow256(INT)
    && max < Pow256(INT)
    && (forall k :: 0 <= k < |c.nodes| ==> ValidNode(c.nodes[k]))
    && (forall k :: 0 <= k < |c.weights| ==> ValidWeight(c.weights[k]))
    && (c.hashes.Some? ==> |c.hashes.value| >= max)
    && (c.hashes.Some? ==> forall k :: 0 <= k < |c.hashes.value| ==> ValidHash(c.hashes.value[k]))
  }

  // ----- writing ------------------------------------------------------------------------------

  /** A number as it lies in memory, in either byte order. */
  function Raw(v: nat, k: nat, little: bool): (r: seq<byte>)
    ensures |r| == k
  {
    if little then Reverse(BE(v, k)) else BE(v, k)
  }

  function WeightBytes(w: Weight, little: bool): (r: seq<byte>)
    ensures |r| == 16
  {
    Raw(w.responses, INT, little) + Raw(w.totalTime, INT, little) + Raw(w.blacklistedUntil, LONG, little)
  }

  function WeightsBytes(ws: seq<Weight>, n: nat, little: bool): (r: seq<byte>)
    requires n <= |ws|
    ensures |r| == 16 * n
  {
    if n == 0 then [] else WeightsBytes(ws, n - 1, little) + WeightBytes(ws[n - 1], little)
  }

  function NodeBytes(n: Node): seq<byte> {
    BE(n.capacity, INT) + BE(n.index, INT) + BE(n.deposit, LONG) + BE(n.props, LONG) + n.address + n.url + [0]
  }

  function NodesBytes(ns: seq<Node>, n: nat): seq<byte>
    requires n <= |ns|
  {
    if n == 0 then [] else NodesBytes(ns, n - 1) + NodeBytes(ns[n - 1])
  }

  function HashBytes(h: VerifiedHash, little: bool): (r: seq<byte>)
    requires ValidHash(h)
    ensures |r| == 40
  {
    Raw(h.block, LONG, little) + h.hash
  }

  function HashesBytes(hs: seq<VerifiedHash>, n: nat, little: bool): (r: seq<byte>)
    requires n <= |hs| && forall k :: 0 <= k < |hs| ==> ValidHash(hs[k])
    ensures |r| == 40 * n
  {
    if n == 0 then [] else HashesBytes(hs, n - 1, little) + HashBytes(hs[n - 1], little)
  }

  /** How many entries are stored: those before the first without a block number. */
  function Used(hs: seq<VerifiedHash>, k: nat, max: nat): (r: nat)
    requires k <= max <= |hs|
    ensures k <= r <= max
    ensures forall j :: k <= j < r ==> hs[j].block != 0
    ensures r < max ==> hs[r].block == 0
    decreases max - k
  {
    if k == max || hs[k].block == 0 then k else Used(hs, k + 1, max)
  }

  function UsedHashes(c: Chain, max: nat): (r: seq<VerifiedHash>)
    requires ValidChain(c, max)
    ensures |r| <= max && forall k :: 0 <= k < |r| ==> ValidHash(r[k])
  {
    if c.hashes.None? then [] else c.hashes.value[..Used(c.hashes.value, 0, max)]
  }

  function Header(c: Chain): seq<byte> { [VERSION] + c.contract + BE(c.lastBlock, LONG) + BE(|c.nodes|, INT) }

  /** What in3_cache_store_nodelist stores. */
  function NodelistBytes(c: Chain, max: nat, little: bool): seq<byte>
    requires ValidChain(c, max)
  {
    var hs := UsedHashes(c, max);
    Header(c) + WeightsBytes(c.weights, |c.weights|, little) + NodesBytes(c.nodes, |c.nodes|)
    + BE(|hs|, INT) + HashesBytes(hs, |hs|, little)
  }

  // ----- reading; None is a read outside the data ------------------------------------------------

  function RawValue(s: seq<byte>, little: bool): nat { if little then LE(s) else ValueOf(s) }

  function ReadNumber(d: seq<byte>, p: nat, k: nat): Option<nat> {
    if p + k <= |d| then Some(ValueOf(d[p..p + k])) else None
  }

  /** strlen: where the string at p ends. */
  function Nul(d: seq<byte>, p: nat): (r: Option<nat>)
    requires p <= |d|
    ensures r.Some? ==> p <= r.value < |d| && d[r.value] == 0
    decreases |d| - p
  {
    if p == |d| then None else if d[p] == 0 then Some(p) else Nul(d, p + 1)
  }

  function WeightAt(d: seq<byte>, p: nat, little: bool): Weight
    requires p + 16 <= |d|
  {
    Weight(RawValue(d[p..p + 4], little), RawValue(d[p + 4..p + 8], little), RawValue(d[p + 8..p + 16], little))
  }

  function ReadWeights(d: seq<byte>, p: nat, n: nat, little: bool): Option<seq<Weight>> {
    if p + 16 * n <= |d| then Some(seq(n, k requires 0 <= k < n => WeightAt(d, p + 16 * k, little))) else None
  }

  function ReadNode(d: seq<byte>, p: nat): Option<(Node, nat)> {
    if p + 44 > |d| then None
    else
      var end := Nul(d, p + 44);
      if end.None? then None
      else
        var n := Node(
          ValueOf(d[p..p + 4]), ValueOf(d[p + 4..p + 8]), ValueOf(d[p + 8..p + 16]), ValueOf(d[p + 16..p + 24]),
          d[p + 24..p + 44], d[p + 44..end.value], 0);
        Some((n, end.value + 1))
  }

  function ReadNodes(d: seq<byte>, p: nat, n: nat): Option<(seq<Node>, nat)> {
    if n == 0 then Some(([], p))
    else
      var before := ReadNodes(d, p, n - 1);
      if before.None? then None
      else
        var node := ReadNode(d, before.value.1);
        if node.None? then None else Some((before.value.0 + [node.value.0], node.value.1))
  }

  function HashAt(d: seq<byte>, p: nat, little: bool): VerifiedHash
    requires p + 40 <= |d|
  {
    VerifiedHash(RawValue(d[p..p + 8], little), d[p + 8..p + 40])
  }

  function ReadHashes(d: seq<byte>, p: nat, n: nat, little: bool): Option<seq<VerifiedHash>> {
    if p + 40 * n <= |d| then Some(seq(n, k requires 0 <= k < n => HashAt(d, p + 40 * k, little))) else None
  }

  function Blank(n: nat): (r: seq<VerifiedHash>)
    ensures |r| == n
    ensures forall k :: 0 <= k < n ==> r[k] == VerifiedHash(0, Zeros(HASH))
  {
    seq(n, k => VerifiedHash(0, Zeros(HASH)))
  }

  /**
   * The table after loading: nothing happens without hashes, a missing table is allocated, a present one overwritten in
   * part.
   */
  function Overlay(table: Option<seq<VerifiedHash>>, read: seq<VerifiedHash>, stored: nat, max: nat)
    : (r: Option<seq<VerifiedHash>>)
    requires |read| <= max && (table.Some? ==> |table.value| >= max)
  {
    if stored == 0 then table
    else
      var present := if table.None? then Blank(max) else table.value;
      Some(read + present[|read|..])
  }

  /** The table of verified hashes after loading what the cursor p points to. */
  function LoadHashes(table: Option<seq<VerifiedHash>>, d: seq<byte>, p: nat, max: nat, little: bool)
    : Option<Option<seq<VerifiedHash>>>
    requires table.Some? ==> |table.value| >= max
  {
    var stored := ReadNumber(d, p, INT);
    if stored.None? then None
    else
      var read := ReadHashes(d, p + INT, if stored.value < max then stored.value else max, little);
      if read.None? then None else Some(Overlay(table, read.value, stored.value, max))
  }

  /** The chain in3_cache_update_nodelist builds, and the cursor behind the nodes. */
  function Load(c: Chain, d: seq<byte>, max: nat, little: bool): Option<(Chain, nat)>
    requires c.hashes.Some? ==> |c.hashes.value| >= max
  {
    if 33 > |d| then None
    else
      var count := ValueOf(d[29..33]);
      var weights := ReadWeights(d, 33, count, little);
      if weights.None? then None
      else
        var nodes := ReadNodes(d, 33 + 16 * count, count);
        if nodes.None? then None
        else
          var hashes := LoadHashes(c.hashes, d, nodes.value.1, max, little);
          if hashes.None? then None
          else Some((Chain(d[1..21], ValueOf(d[21..29]), nodes.value.0, weights.value, hashes.value), nodes.value.1))
  }

  // ----- what was written can be read ----------------------------------------------------------------

  predicate Has(d: seq<byte>, p: nat, chunk: seq<byte>) { p + |chunk| <= |d| && d[p..p + |chunk|] == chunk }

  lemma HasParts(d: seq<byte>, p: nat, a: seq<byte>, b: seq<byte>)
    ensures Has(d, p, a + b) <==> Has(d, p, a) && Has(d, p + |a|, b)
  {
    if p + |a + b| <= |d| {
      var s := d[p..p + |a + b|];
      assert d[p..p + |a|] == s[..|a|] && d[p + |a|..p + |a| + |b|] == s[|a|..];
      assert s == s[..|a|] + s[|a|..];
      assert (a + b)[..|a|] == a && (a + b)[|a|..] == b;
    }
  }

  lemma RawBack(v: nat, k: nat, little: bool)
    requires v < Pow256(k)
    ensures RawValue(Raw(v, k, little), little) == v
  {
    ValueOfBE(v, k);
    if little {
      ReverseTwice(BE(v, k));
      ReverseValue(Reverse(BE(v, k)));
    }
  }

  lemma ReverseTwice(s: seq<byte>)
    ensures Reverse(Reverse(s)) == s
  {
    forall k: nat | k < |s| ensures Reverse(Reverse(s))[k] == s[k] {
      ReverseAt(Reverse(s), k);
      ReverseAt(s, |s| - 1 - k);
    }
  }

  lemma NumberBack(d: seq<byte>, p: nat, v: nat, k: nat)
    requires v < Pow256(k) && Has(d, p, BE(v, k))
    ensures ReadNumber(d, p, k) == Some(v) && ValueOf(d[p..p + k]) == v
  {
    ValueOfBE(v, k);
  }

  lemma RawNumberBack(d: seq<byte>, p: nat, v: nat, k: nat, little: bool)
    requires v < Pow256(k) && Has(d, p, Raw(v, k, little))
    ensures RawValue(d[p..p + k], little) == v
  {
    RawBack(v, k, little);
  }

  lemma WeightBack(d: seq<byte>, p: nat, w: Weight, little: bool)
    requires ValidWeight(w) && Has(d, p, WeightBytes(w, little))
    ensures WeightAt(d, p, little) == w
  {
    hide Has, Raw, RawValue;
    var a, b, c := Raw(w.responses, INT, little), Raw(w.totalTime, INT, little), Raw(w.blacklistedUntil, LONG, little);
    HasParts(d, p, a + b, c);
    HasParts(d, p, a, b);
    RawNumberBack(d, p, w.responses, INT, little);
    RawNumberBack(d, p + 4, w.totalTime, INT, little);
    RawNumberBack(d, p + 8, w.blacklistedUntil, LONG, little);
  }

  lemma {:induction false} WeightsBack(d: seq<byte>, p: nat, ws: seq<Weight>, n: nat, little: bool)
    requires n <= |ws| && (forall k :: 0 <= k < |ws| ==> ValidWeight(ws[k])) && Has(d, p, WeightsBytes(ws, n, little))
    ensures ReadWeights(d, p, n, little) == Some(ws[..n])
  {
    hide WeightBytes, WeightAt, ValidWeight;
    if n > 0 {
      HasParts(d, p, WeightsBytes(ws, n - 1, little), WeightBytes(ws[n - 1], little));
      WeightsBack(d, p, ws, n - 1, little);
      WeightBack(d, p + 16 * (n - 1), ws[n - 1], little);
      var read := ReadWeights(d, p, n, little).value;
      assert read[..n - 1] == ReadWeights(d, p, n - 1, little).value;
      assert ws[..n] == ws[..n - 1] + [ws[n - 1]];
      assert read == read[..n - 1] + [read[n - 1]];
    } else {
      assert ReadWeights(d, p, 0, little).value == ws[..0];
    }
  }

  lemma {:induction false} NulFound(d: seq<byte>, p: nat, e: nat)
    requires p <= e < |d| && d[e] == 0 && forall j :: p <= j < e ==> d[j] != 0
    ensures Nul(d, p) == Some(e)
    decreases e - p
  {
    if p == e {
    } else {
      NulFound(d, p + 1, e);
    }
  }

  lemma UrlBack(d: seq<byte>, p: nat, url: seq<byte>)
    requires 0 !in url && Has(d, p, url + [0])
    ensures Nul(d, p) == Some(p + |url|) && d[p..p + |url|] == url
  {
    var s := d[p..p + |url| + 1];
    assert s == url + [0];
    assert forall j :: 0 <= j <= |url| ==> d[p + j] == s[j];
    assert forall j :: p <= j < p + |url| ==> d[j] == url[j - p];
    NulFound(d, p, p + |url|);
  }

  lemma NodeBack(d: seq<byte>, p: nat, n: Node)
    requires ValidNode(n) && Has(d, p, NodeBytes(n))
    ensures ReadNode(d, p) == Some((n.(attrs := 0), p + |NodeBytes(n)|))
  {
    hide Has, Nul;
    var a, b, c, e := BE(n.capacity, INT), BE(n.index, INT), BE(n.deposit, LONG), BE(n.props, LONG);
    assert NodeBytes(n) == (a + b + c + e + n.address) + (n.url + [0]);
    HasParts(d, p, a + b + c + e + n.address, n.url + [0]);
    HasParts(d, p, a + b + c + e, n.address);
    HasParts(d, p, a + b + c, e);
    HasParts(d, p, a + b, c);
    HasParts(d, p, a, b);
    NumberBack(d, p, n.capacity, INT);
    NumberBack(d, p + 4, n.index, INT);
    NumberBack(d, p + 8, n.deposit, LONG);
    NumberBack(d, p + 16, n.props, LONG);
    assert p + 44 <= |d| && d[p + 24..p + 44] == n.address by { HasIs(d, p + 24, n.address); }
    UrlBack(d, p + 44, n.url);
  }

  lemma HasIs(d: seq<byte>, p: nat, chunk: seq<byte>)
    requires Has(d, p, chunk)
    ensures p + |chunk| <= |d| && d[p..p + |chunk|] == chunk
  {
  }

  function Unmarked(ns: seq<Node>, n: nat): (r: seq<Node>)
    requires n <= |ns|
    ensures |r| == n && forall k :: 0 <= k < n ==> r[k] == ns[k].(attrs := 0)
  {
    seq(n, k requires 0 <= k < n => ns[k].(attrs := 0))
  }

  lemma {:induction false} NodesBack(d: seq<byte>, p: nat, ns: seq<Node>, n: nat)
    requires n <= |ns| && (forall k :: 0 <= k < |ns| ==> ValidNode(ns[k])) && Has(d, p, NodesBytes(ns, n))
    ensures ReadNodes(d, p, n) == Some((Unmarked(ns, n), p + |NodesBytes(ns, n)|))
  {
    hide NodeBytes, ValidNode, Has, ReadNode;
    if n == 0 {
    } else {
      HasParts(d, p, NodesBytes(ns, n - 1), NodeBytes(ns[n - 1]));
      NodesBack(d, p, ns, n - 1);
      NodeBack(d, p + |NodesBytes(ns, n - 1)|, ns[n - 1]);
      assert Unmarked(ns, n) == Unmarked(ns, n - 1) + [ns[n - 1].(attrs := 0)];
    }
  }

  lemma HashBack(d: seq<byte>, p: nat, h: VerifiedHash, little: bool)
    requires ValidHash(h) && Has(d, p, HashBytes(h, little))
    ensures HashAt(d, p, little) == h
  {
    hide Raw, RawValue;
    HasParts(d, p, Raw(h.block, LONG, little), h.hash);
    RawNumberBack(d, p, h.block, LONG, little);
  }

  lemma {:induction false} HashesBack(d: seq<byte>, p: nat, hs: seq<VerifiedHash>, n: nat, little: bool)
    requires n <= |hs| && (forall k :: 0 <= k < |hs| ==> ValidHash(hs[k])) && Has(d, p, HashesBytes(hs, n, little))
    ensures ReadHashes(d, p, n, little) == Some(hs[..n])
  {
    hide HashBytes, HashAt, ValidHash;
    if n > 0 {
      HasParts(d, p, HashesBytes(hs, n - 1, little), HashBytes(hs[n - 1], little));
      HashesBack(d, p, hs, n - 1, little);
      HashBack(d, p + 40 * (n - 1), hs[n - 1], little);
      var read := ReadHashes(d, p, n, little).value;
      assert read[..n - 1] == ReadHashes(d, p, n - 1, little).value;
      assert hs[..n] == hs[..n - 1] + [hs[n - 1]];
      assert read == read[..n - 1] + [read[n - 1]];
    } else {
      assert ReadHashes(d, p, 0, little).value == hs[..0];
    }
  }
}
