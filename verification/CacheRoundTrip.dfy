/** What comes back from the cache, for the node list and for the white list. */
module CacheRoundTrip {
  import opened Wrappers
  import opened Bytes
  import opened CacheFormat
  import opened CacheStore

  // ----- node list -------------------------------------------------------------------------------

  lemma HeaderBack(d: seq<byte>, c: Chain, max: nat)
    requires ValidChain(c, max) && Has(d, 0, Header(c))
    ensures |Header(c)| == 33 <= |d| && d[0] == VERSION
    ensures d[1..21] == c.contract && ValueOf(d[21..29]) == c.lastBlock && ValueOf(d[29..33]) == |c.nodes|
  {
    hide Has;
    assert Header(c) == ([VERSION] + c.contract + BE(c.lastBlock, LONG)) + BE(|c.nodes|, INT);
    HasParts(d, 0, [VERSION] + c.contract + BE(c.lastBlock, LONG), BE(|c.nodes|, INT));
    HasParts(d, 0, [VERSION] + c.contract, BE(c.lastBlock, LONG));
    HasParts(d, 0, [VERSION], c.contract);
    HasIs(d, 0, Header(c));
    HasIs(d, 0, [VERSION]);
    HasIs(d, 1, c.contract);
    NumberBack(d, 21, c.lastBlock, LONG);
    NumberBack(d, 29, |c.nodes|, INT);
  }

  /** The bytes of node k of the list, which follow the header, the weights and the nodes before it. */
  lemma NodeAt(c: Chain, max: nat, little: bool, k: nat)
    requires ValidChain(c, max) && k < |c.nodes|
    ensures var d, p, n := NodelistBytes(c, max, little), NodeStart(c, k), c.nodes[k];
            && p + 44 + |n.url| < |d| && NodeStart(c, k + 1) == p + 44 + |n.url| + 1
            && ValueOf(d[p..p + 4]) == n.capacity && ValueOf(d[p + 4..p + 8]) == n.index
            && ValueOf(d[p + 8..p + 16]) == n.deposit && ValueOf(d[p + 16..p + 24]) == n.props
            && d[p + 24..p + 44] == n.address && d[p + 44..p + 44 + |n.url|] == n.url && d[p + 44 + |n.url|] == 0
  {
    hide Header, WeightsBytes, HashesBytes, UsedHashes, Has, NodeBytes;
    var d, p, n := NodelistBytes(c, max, little), NodeStart(c, k), c.nodes[k];
    var head, ws, ns := Header(c), WeightsBytes(c.weights, |c.weights|, little), NodesBytes(c.nodes, |c.nodes|);
    var hs := UsedHashes(c, max);
    var tail := BE(|hs|, INT) + HashesBytes(hs, |hs|, little);
    assert d == head + ws + ns + tail;
    HasAll(d);
    HasParts(d, 0, head + ws + ns, tail);
    HasParts(d, 0, head + ws, ns);
    assert |head + ws| == 33 + 16 * |c.nodes| by { HasParts(d, 0, head, ws); HeaderBack(d, c, max); }
    HasNode(d, 33 + 16 * |c.nodes|, c.nodes, k, |c.nodes|);
    assert ValidNode(n);
    NodeFields(d, p, n);
  }

  lemma NodeFields(d: seq<byte>, p: nat, n: Node)
    requires ValidNode(n) && Has(d, p, NodeBytes(n))
    ensures |NodeBytes(n)| == 44 + |n.url| + 1 && p + 44 + |n.url| < |d|
    ensures ValueOf(d[p..p + 4]) == n.capacity && ValueOf(d[p + 4..p + 8]) == n.index
    ensures ValueOf(d[p + 8..p + 16]) == n.deposit && ValueOf(d[p + 16..p + 24]) == n.props
    ensures d[p + 24..p + 44] == n.address && d[p + 44..p + 44 + |n.url|] == n.url && d[p + 44 + |n.url|] == 0
  {
    hide Has;
    NodeBack(d, p, n);
    assert ReadNode(d, p).Some?;
  }

  function NodeStart(c: Chain, k: nat): nat
    requires k <= |c.nodes|
  {
    33 + 16 * |c.nodes| + |NodesBytes(c.nodes, k)|
  }

  lemma {:induction false} HasNode(d: seq<byte>, p: nat, ns: seq<Node>, k: nat, n: nat)
    requires k < n <= |ns| && Has(d, p, NodesBytes(ns, n))
    ensures Has(d, p + |NodesBytes(ns, k)|, NodeBytes(ns[k]))
    decreases n
  {
    hide Has, NodeBytes;
    HasParts(d, p, NodesBytes(ns, n - 1), NodeBytes(ns[n - 1]));
    if k < n - 1 { HasNode(d, p, ns, k, n - 1); }
  }

  lemma ReadFewer(d: seq<byte>, p: nat, n: nat, m: nat, little: bool)
    requires m <= n && ReadHashes(d, p, n, little).Some?
    ensures ReadHashes(d, p, m, little) == Some(ReadHashes(d, p, n, little).value[..m])
  {
    hide HashAt;
    assert ReadHashes(d, p, m, little).value == ReadHashes(d, p, n, little).value[..m];
  }

  /** The hashes behind the nodes: as many as fit are laid over the table. */
  lemma HashesLoaded(d: seq<byte>, p: nat, table: Option<seq<VerifiedHash>>, hs: seq<VerifiedHash>, max: nat,
                     little: bool)
    requires (table.Some? ==> |table.value| >= max) && |hs| < Pow256(INT)
    requires forall k :: 0 <= k < |hs| ==> ValidHash(hs[k])
    requires Has(d, p, BE(|hs|, INT) + HashesBytes(hs, |hs|, little))
    ensures LoadHashes(table, d, p, max, little)
            == Some(Overlay(table, hs[..if |hs| < max then |hs| else max], |hs|, max))
  {
    hide Has, ReadHashes, HashesBytes, Overlay, ValidHash;
    HasParts(d, p, BE(|hs|, INT), HashesBytes(hs, |hs|, little));
    NumberBack(d, p, |hs|, INT);
    HashesBack(d, p + INT, hs, |hs|, little);
    assert hs[..|hs|] == hs;
    ReadFewer(d, p + INT, |hs|, if |hs| < max then |hs| else max, little);
  }

  /**
   * Loading undoes storing: everything but the attributes of the nodes comes back, the hashes in use are laid over the
   * table that is there, and the bytes behind the cursor are exactly their number and the hashes.
   */
  lemma NodelistRoundTrip(c: Chain, max: nat, into: Chain, room: nat, little: bool)
    requires ValidChain(c, max) && (into.hashes.Some? ==> |into.hashes.value| >= room)
    ensures var d, hs := NodelistBytes(c, max, little), UsedHashes(c, max);
            && |d| > 33 && d[0] == VERSION
            && Load(into, d, room, little).Some?
            && var (loaded, p) := Load(into, d, room, little).value;
               && loaded == Chain(c.contract, c.lastBlock, Unmarked(c.nodes, |c.nodes|), c.weights,
                                  Overlay(into.hashes, hs[..if |hs| < room then |hs| else room], |hs|, room))
               && p + INT + 40 * |hs| == |d|
  {
    hide Has, Header, WeightsBytes, NodesBytes, HashesBytes, ReadWeights, ReadNodes, LoadHashes, UsedHashes, Overlay;
    hide ValidNode, ValidWeight, ValidHash;
    var d, hs := NodelistBytes(c, max, little), UsedHashes(c, max);
    var head, ws, ns := Header(c), WeightsBytes(c.weights, |c.weights|, little), NodesBytes(c.nodes, |c.nodes|);
    var tail := BE(|hs|, INT) + HashesBytes(hs, |hs|, little);
    assert d == head + ws + ns + tail;
    HasAll(d);
    HasParts(d, 0, head + ws + ns, tail);
    HasParts(d, 0, head + ws, ns);
    HasParts(d, 0, head, ws);
    HeaderBack(d, c, max);
    WeightsBack(d, 33, c.weights, |c.weights|, little);
    assert c.weights[..|c.weights|] == c.weights;
    NodesBack(d, 33 + 16 * |c.nodes|, c.nodes, |c.nodes|);
    HashesLoaded(d, 33 + 16 * |c.nodes| + |ns|, into.hashes, hs, room, little);
  }

  lemma HasAll(d: seq<byte>)
    ensures Has(d, 0, d)
  {
  }

  /** Into a chain without a table, with room for as many hashes: the hashes in use, and blank entries behind them. */
  lemma FreshTable(c: Chain, max: nat)
    requires ValidChain(c, max)
    ensures var hs := UsedHashes(c, max);
            Overlay(None, hs[..|hs|], |hs|, max) == if hs == [] then None else Some(hs + Blank(max - |hs|))
  {
    var hs := UsedHashes(c, max);
    assert Blank(max)[|hs|..] == Blank(max - |hs|);
    assert hs[..|hs|] == hs;
  }

  /**
   * So a table of that size comes back as it was exactly if it is in use at all and blank behind the first unused
   * entry.
   */
  lemma TableRestoredIff(c: Chain, max: nat)
    requires ValidChain(c, max) && c.hashes.Some? && |c.hashes.value| == max
    ensures var hs, table := UsedHashes(c, max), c.hashes.value;
            Overlay(None, hs[..|hs|], |hs|, max) == Some(table) <==>
            hs != [] && forall k :: |hs| <= k < max ==> table[k] == VerifiedHash(0, Zeros(HASH))
  {
    var hs, table := UsedHashes(c, max), c.hashes.value;
    FreshTable(c, max);
    var filled := hs + Blank(max - |hs|);
    assert table == hs + table[|hs|..];
    if forall k :: |hs| <= k < max ==> table[k] == VerifiedHash(0, Zeros(HASH)) {
      assert filled == table;
    }
    assert filled == table ==> forall k :: |hs| <= k < max ==> table[k] == filled[k];
  }

  /** Entry k is stored: it and all before it are in use. */
  predicate Stored(c: Chain, max: nat, k: nat) {
    c.hashes.Some? && k < max && forall j :: 0 <= j <= k && j < |c.hashes.value| ==> c.hashes.value[j].block != 0
  }

  lemma StoredAre(c: Chain, max: nat)
    requires ValidChain(c, max)
    ensures forall k: nat :: Stored(c, max, k) <==> k < |UsedHashes(c, max)|
    ensures forall k: nat :: Stored(c, max, k) ==> UsedHashes(c, max)[k] == c.hashes.value[k]
  {
    if c.hashes.Some? {
      var n := Used(c.hashes.value, 0, max);
      assert n < max ==> c.hashes.value[n].block == 0;
    }
  }

  /**
   * The table after loading what was stored, entry by entry: each entry in use that fits replaces the one that is
   * there, or a blank one in a table allocated for it, and the others stay; without entries in use nothing happens.
   */
  lemma HashesRoundTrip(c: Chain, max: nat, into: Chain, room: nat, little: bool)
    requires ValidChain(c, max) && (into.hashes.Some? ==> |into.hashes.value| >= room)
    ensures Load(into, NodelistBytes(c, max, little), room, little).Some?
    ensures var table := Load(into, NodelistBytes(c, max, little), room, little).value.0.hashes;
            && (table.None? <==> into.hashes.None? && !Stored(c, max, 0))
            && (table.Some? ==>
                  && |table.value| == (if into.hashes.Some? then |into.hashes.value| else room)
                  && forall k: nat :: k < |table.value| ==>
                       table.value[k] == if k < room && Stored(c, max, k) then c.hashes.value[k]
                                         else if into.hashes.Some? then into.hashes.value[k]
                                         else VerifiedHash(0, seq(HASH, _ => 0)))
  {
    hide NodelistBytes, Load, Stored, UsedHashes, ValidChain, Pow256;
    NodelistRoundTrip(c, max, into, room, little);
    StoredAre(c, max);
    assert Zeros(HASH) == seq(HASH, _ => 0);
  }

  // ----- white list --------------------------------------------------------------------------------

  /** The serialized addresses are cut into pieces of 20 bytes when they are counted. */
  function WhitelistBytes(lastBlock: nat, addresses: seq<byte>): seq<byte> {
    [VERSION] + BE(lastBlock, LONG) + BE(|addresses| / ADDRESS, INT) + addresses
  }

  class Whitelist {
    var lastBlock: nat
    var addresses: seq<byte>

    constructor (lastBlock: nat, addresses: seq<byte>)
      ensures this.lastBlock == lastBlock && this.addresses == addresses
    {
      this.lastBlock, this.addresses := lastBlock, addresses;
    }

    /** in3_cache_store_whitelist */
    method Store() returns (stored: seq<byte>)
      ensures stored == WhitelistBytes(lastBlock, addresses)
    {
      var bb := new Builder();
      bb.WriteByte(VERSION);
      bb.WriteLong(lastBlock);
      bb.WriteInt(|addresses| / ADDRESS);
      bb.WriteBytes(addresses);
      return bb.b;
    }

    /** in3_cache_update_whitelist; the product with 20 is cut down to 32 bits. */
    method Update(cached: Option<seq<byte>>) returns (r: Option<Ret>)
      modifies this
      ensures cached.None? ==> r == Some(OK) && lastBlock == old(lastBlock) && addresses == old(addresses)
      ensures cached.Some? && |cached.value| > 0 && cached.value[0] != VERSION ==>
                r == Some(EVERS) && lastBlock == old(lastBlock) && addresses == old(addresses)
      ensures cached.Some? && |cached.value| > 0 && cached.value[0] == VERSION ==>
                && (r == Some(OK) <==> LoadWhitelist(cached.value).Some?)
                && (r == Some(OK) ==> LoadWhitelist(cached.value) == Some((lastBlock, addresses)))
    {
      if cached.None? { return Some(OK); }
      var d := new Reader(cached.value);
      var version := d.ReadFixed(1);
      if version.None? { return None; }
      if version.value[0] != VERSION { return Some(EVERS); }
      var last := d.ReadLong();
      var count := d.ReadInt();
      if last.None? || count.None? { return None; }
      lastBlock := last.value;
      var read := d.ReadFixed(count.value * ADDRESS % Pow256(INT));
      if read.None? { return None; }
      addresses := read.value;
      return Some(OK);
    }
  }

  function LoadWhitelist(d: seq<byte>): Option<(nat, seq<byte>)> {
    if 13 > |d| then None
    else
      var size := ValueOf(d[9..13]) * ADDRESS % Pow256(INT);
      if 13 + size > |d| then None else Some((ValueOf(d[1..9]), d[13..13 + size]))
  }

  /** The white list comes back exactly if its bytes are whole addresses; otherwise the rest is lost. */
  lemma WhitelistRoundTrip(lastBlock: nat, addresses: seq<byte>)
    requires lastBlock < Pow256(LONG) && |addresses| < Pow256(INT)
    ensures var d := WhitelistBytes(lastBlock, addresses);
            && d[0] == VERSION
            && LoadWhitelist(d) == Some((lastBlock, addresses[..|addresses| - |addresses| % ADDRESS]))
            && (LoadWhitelist(d) == Some((lastBlock, addresses)) <==> |addresses| % ADDRESS == 0)
  {
    hide WhitelistBytes, LoadWhitelist, Pow256;
    WhitelistLoaded(lastBlock, addresses, |addresses| / ADDRESS);
    var kept := |addresses| - |addresses| % ADDRESS;
    assert kept == ADDRESS * (|addresses| / ADDRESS);
    assert kept == |addresses| ==> addresses[..kept] == addresses;
  }

  lemma NoWrap(v: nat, m: nat)
    requires v < m
    ensures v % m == v
  {
  }

  lemma WhitelistLoaded(lastBlock: nat, addresses: seq<byte>, n: nat)
    requires lastBlock < Pow256(LONG) && |addresses| < Pow256(INT) && n == |addresses| / ADDRESS
    ensures var d := WhitelistBytes(lastBlock, addresses);
            d[0] == VERSION && LoadWhitelist(d) == Some((lastBlock, addresses[..ADDRESS * n]))
  {
    hide Has, Pow256;
    var d := WhitelistBytes(lastBlock, addresses);
    HasAll(d);
    HasParts(d, 0, [VERSION] + BE(lastBlock, LONG) + BE(n, INT), addresses);
    HasParts(d, 0, [VERSION] + BE(lastBlock, LONG), BE(n, INT));
    HasParts(d, 0, [VERSION], BE(lastBlock, LONG));
    NumberBack(d, 1, lastBlock, LONG);
    NumberBack(d, 9, n, INT);
    HasIs(d, 13, addresses);
    NoWrap(n * ADDRESS, Pow256(INT));
    assert d[13..13 + n * ADDRESS] == d[13..13 + |addresses|][..n * ADDRESS];
  }
}
