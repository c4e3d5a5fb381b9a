/** Storing and loading the node list and the white list of a chain. */
module CacheStore {
  import opened Wrappers
  import opened Bytes
  import opened CacheFormat

  datatype Ret = OK | EVERS

  /** bytes_builder_t */
  class Builder {
    var b: seq<byte>

    constructor ()
      ensures b == []
    {
      b := [];
    }

    method WriteByte(v: byte)
      modifies this
      ensures b == old(b) + [v]
    {
      b := b + [v];
    }

    method WriteInt(v: nat)
      modifies this
      ensures b == old(b) + BE(v, INT)
    {
      b := b + BE(v, INT);
    }

    method WriteLong(v: nat)
      modifies this
      ensures b == old(b) + BE(v, LONG)
    {
      b := b + BE(v, LONG);
    }

    /** bb_write_fixed_bytes and bb_write_raw_bytes */
    method WriteBytes(s: seq<byte>)
      modifies this
      ensures b == old(b) + s
    {
      b := b + s;
    }

    method WriteNodes(ns: seq<Node>)
      modifies this
      ensures b == old(b) + NodesBytes(ns, |ns|)
    {
      hide NodeBytes;
      for i := 0 to |ns|
        invariant b == old(b) + NodesBytes(ns, i)
      {
        var n := ns[i];
        WriteInt(n.capacity);
        WriteInt(n.index);
        WriteLong(n.deposit);
        WriteLong(n.props);
        WriteBytes(n.address);
        WriteChars(n.url);
        NodeWritten(old(b), ns, i, b);
      }
    }

    /** Only the entries before the first unused one. */
    method WriteHashes(table: Option<seq<VerifiedHash>>, max: nat, little: bool)
      requires table.Some? ==> |table.value| >= max && forall k :: 0 <= k < |table.value| ==> ValidHash(table.value[k])
      modifies this
      ensures var hs := if table.None? then [] else table.value[..Used(table.value, 0, max)];
              b == old(b) + (BE(|hs|, INT) + HashesBytes(hs, |hs|, little))
    {
      hide HashBytes, ValidHash;
      if table.None? {
        WriteInt(0);
        return;
      }
      var count := 0;
      while count < max && table.value[count].block != 0
        invariant count <= max && Used(table.value, 0, max) == Used(table.value, count, max)
      {
        count := count + 1;
      }
      WriteInt(count);
      WriteBytes(HashesBytes(table.value[..count], count, little));
    }

    /** A string and the NUL behind it. */
    method WriteChars(s: seq<byte>)
      modifies this
      ensures b == old(b) + (s + [0])
    {
      b := b + (s + [0]);
    }
  }

  /** bytes_t with the cursor that moves through it. */
  class Reader {
    const data: seq<byte>
    var pos: nat

    constructor (data: seq<byte>)
      ensures this.data == data && pos == 0
    {
      this.data, pos := data, 0;
    }

    method ReadInt() returns (v: Option<nat>)
      modifies this
      ensures v == ReadNumber(data, old(pos), INT) && pos == old(pos) + INT
    {
      v, pos := ReadNumber(data, pos, INT), pos + INT;
    }

    method ReadLong() returns (v: Option<nat>)
      modifies this
      ensures v == ReadNumber(data, old(pos), LONG) && pos == old(pos) + LONG
    {
      v, pos := ReadNumber(data, pos, LONG), pos + LONG;
    }

    method ReadFixed(n: nat) returns (v: Option<seq<byte>>)
      modifies this
      ensures v == (if old(pos) + n <= |data| then Some(data[old(pos)..old(pos) + n]) else None) && pos == old(pos) + n
    {
      v := if pos + n <= |data| then Some(data[pos..pos + n]) else None;
      pos := pos + n;
    }

    /** What stands between the version and the weights. */
    method ReadHead() returns (h: Option<(seq<byte>, nat, nat)>)
      requires pos == 1
      modifies this
      ensures h.Some? <==> 33 <= |data|
      ensures h.Some? ==> h.value == (data[1..21], ValueOf(data[21..29]), ValueOf(data[29..33])) && pos == 33
    {
      var address := ReadFixed(ADDRESS);
      var last := ReadLong();
      var count := ReadInt();
      if address.None? || last.None? || count.None? { return None; }
      return Some((address.value, last.value, count.value));
    }

    /** b_new_chars: up to the NUL, and over it */
    method ReadChars() returns (v: Option<seq<byte>>)
      modifies this
      ensures v.Some? <==> old(pos) <= |data| && Nul(data, old(pos)).Some?
      ensures v.Some? ==> var end := Nul(data, old(pos)).value; v.value == data[old(pos)..end] && pos == end + 1
    {
      if pos > |data| { return None; }
      var end := pos;
      while end < |data| && data[end] != 0
        invariant pos <= end <= |data| && forall j :: pos <= j < end ==> data[j] != 0
      {
        end := end + 1;
      }
      if end == |data| {
        NoNul(data, pos);
        return None;
      }
      NulFound(data, pos, end);
      v := Some(data[pos..end]);
      pos := end + 1;
    }

    /** One node of the list. */
    method ReadOne() returns (n: Option<Node>)
      modifies this
      ensures n.Some? <==> ReadNode(data, old(pos)).Some?
      ensures n.Some? ==> ReadNode(data, old(pos)) == Some((n.value, pos))
    {
      hide Nul;
      var capacity := ReadInt();
      var index := ReadInt();
      var deposit := ReadLong();
      var props := ReadLong();
      var address := ReadFixed(ADDRESS);
      var url := ReadChars();
      if capacity.None? || index.None? || deposit.None? || props.None? || address.None? || url.None? { return None; }
      return Some(Node(capacity.value, index.value, deposit.value, props.value, address.value, url.value, 0));
    }

    method ReadAll(n: nat) returns (ns: Option<seq<Node>>)
      modifies this
      ensures ns.Some? <==> ReadNodes(data, old(pos), n).Some?
      ensures ns.Some? ==> ReadNodes(data, old(pos), n) == Some((ns.value, pos))
    {
      hide ReadNode;
      var nodes := [];
      for i := 0 to n
        invariant ReadNodes(data, old(pos), i) == Some((nodes, pos))
      {
        var node := ReadOne();
        if node.None? {
          NodesMissing(data, old(pos), i + 1, n);
          return None;
        }
        nodes := nodes + [node.value];
      }
      return Some(nodes);
    }
  }

  lemma {:induction false} NoNul(d: seq<byte>, p: nat)
    requires p <= |d| && forall j :: p <= j < |d| ==> d[j] != 0
    ensures Nul(d, p) == None
    decreases |d| - p
  {
    if p == |d| {
    } else {
      NoNul(d, p + 1);
    }
  }

  lemma {:induction false} NodesMissing(d: seq<byte>, p: nat, k: nat, n: nat)
    requires k <= n && ReadNodes(d, p, k).None?
    ensures ReadNodes(d, p, n).None?
  {
    if k == n {
    } else {
      NodesMissing(d, p, k, n - 1);
    }
  }

  class ChainCache {
    var contract: seq<byte>
    var lastBlock: nat
    var nodes: seq<Node>
    var weights: seq<Weight>
    var hashes: Option<seq<VerifiedHash>>

    constructor (c: Chain)
      ensures Value() == c
    {
      contract, lastBlock, nodes, weights, hashes := c.contract, c.lastBlock, c.nodes, c.weights, c.hashes;
    }

    function Value(): Chain
      reads this
    {
      Chain(contract, lastBlock, nodes, weights, hashes)
    }

    /** in3_cache_store_nodelist */
    method StoreNodelist(max: nat, little: bool) returns (stored: seq<byte>)
      requires ValidChain(Value(), max)
      ensures stored == NodelistBytes(Value(), max, little)
    {
      hide NodesBytes, WeightsBytes, HashesBytes, ValidNode, ValidWeight, ValidHash;
      var bb := new Builder();
      bb.WriteByte(VERSION);
      bb.WriteBytes(contract);
      bb.WriteLong(lastBlock);
      bb.WriteInt(|nodes|);
      assert bb.b == Header(Value());
      bb.WriteBytes(WeightsBytes(weights, |weights|, little));
      bb.WriteNodes(nodes);
      bb.WriteHashes(hashes, max, little);
      return bb.b;
    }

    /** in3_cache_update_nodelist; None is a read outside of what the cache returned. */
    method UpdateNodelist(cached: Option<seq<byte>>, max: nat, little: bool) returns (r: Option<Ret>)
      requires hashes.Some? ==> |hashes.value| >= max
      modifies this
      ensures cached.None? ==> r == Some(OK) && Value() == old(Value())
      ensures cached.Some? && |cached.value| > 0 && cached.value[0] != VERSION
              ==> r == Some(EVERS) && Value() == old(Value())
      ensures cached.Some? && |cached.value| > 0 && cached.value[0] == VERSION ==>
                && (r == Some(OK) <==> Load(old(Value()), cached.value, max, little).Some?)
                && (r == Some(OK) ==> Value() == Load(old(Value()), cached.value, max, little).value.0)
    {
      hide ReadNodes, ReadWeights, LoadHashes;
      if cached.None? { return Some(OK); }
      var d := new Reader(cached.value);
      var version := d.ReadFixed(1);
      if version.None? { return None; }
      if version.value[0] != VERSION { return Some(EVERS); }
      var head := d.ReadHead();
      if head.None? { return None; }
      var count := head.value.2;
      contract, lastBlock := head.value.0, head.value.1;
      var copied := ReadWeights(d.data, d.pos, count, little);
      if copied.None? { return None; }
      weights := copied.value;
      d.pos := d.pos + 16 * count;
      var list := d.ReadAll(count);
      if list.None? { return None; }
      nodes := list.value;
      var loaded := UpdateHashes(d, max, little);
      r := if loaded then Some(OK) else None;
    }

    /** The table is allocated if it is missing; entries that do not fit are left out. */
    method UpdateHashes(d: Reader, max: nat, little: bool) returns (ok: bool)
      requires hashes.Some? ==> |hashes.value| >= max
      modifies this`hashes, d
      ensures ok <==> LoadHashes(old(hashes), d.data, old(d.pos), max, little).Some?
      ensures ok ==> hashes == LoadHashes(old(hashes), d.data, old(d.pos), max, little).value
    {
      hide ReadHashes, Overlay;
      var stored := d.ReadInt();
      if stored.None? { return false; }
      var few := if stored.value < max then stored.value else max;
      var read := ReadHashes(d.data, d.pos, few, little);
      if read.None? { return false; }
      FewHashes(d.data, d.pos, few, little);
      hashes := Overlay(hashes, read.value, stored.value, max);
      return true;
    }
  }

  lemma FewHashes(d: seq<byte>, p: nat, n: nat, little: bool)
    ensures ReadHashes(d, p, n, little).Some? ==> |ReadHashes(d, p, n, little).value| == n
  {
  }

  lemma NodeWritten(front: seq<byte>, ns: seq<Node>, i: nat, b: seq<byte>)
    requires i < |ns|
    requires var n := ns[i];
             b == front + NodesBytes(ns, i) + BE(n.capacity, INT) + BE(n.index, INT) + BE(n.deposit, LONG)
                  + BE(n.props, LONG)
                  + n.address + (n.url + [0])
    ensures b == front + NodesBytes(ns, i + 1)
  {
    var n := ns[i];
    assert BE(n.capacity, INT) + BE(n.index, INT) + BE(n.deposit, LONG) + BE(n.props, LONG)
           + n.address + (n.url + [0]) == NodeBytes(n);
  }
}
