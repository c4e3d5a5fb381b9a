/** ENS names: the right-to-left loop of ens_hash against the recursive namehash of EIP-137. */
module Ens {
  import opened Wrappers
  import opened Bytes

  /** A 32-byte hash function. */
  type Digest = s: seq<byte> | |s| == 32
    witness [0, 0, 0, 0, 0, 0, 0, 0, 0, 0, 0, 0, 0, 0, 0, 0, 0, 0, 0, 0, 0, 0, 0, 0, 0, 0, 0, 0, 0, 0, 0, 0]
  type Hash = seq<byte> -> Digest

  const DOT: byte := 46

  /** The labels of a name, split at every dot; a name without a dot is one label, also when it is empty. */
  function Labels(s: seq<byte>, k: nat := 0): (r: seq<seq<byte>>)
    requires k <= |s|
    ensures |r| >= 1
    decreases |s| - k, |s|
  {
    if k == |s| then [s]
    else if s[k] == DOT then [s[..k]] + Labels(s[k + 1..])
    else Labels(s, k + 1)
  }

  /** Section "namehash algorithm" of EIP-137, on the labels of a name. */
  function Namehash(labels: seq<seq<byte>>, h: Hash): seq<byte> {
    if labels == [] then Zeros(32) else h(Namehash(labels[1..], h) + h(labels[0]))
  }

  /** The same section, on a name: the empty name has no labels. */
  function Eip137(name: seq<byte>, h: Hash): seq<byte> {
    if name == [] then Zeros(32) else Namehash(Labels(name), h)
  }

  predicate NoDot(s: seq<byte>, from: nat, to: nat)
    requires to <= |s|
  {
    forall j :: from <= j < to ==> s[j] != DOT
  }

  /** Up to its first dot, a name is its first label. */
  lemma {:induction false} FirstLabel(s: seq<byte>, k: nat, n: nat)
    requires k <= n <= |s| && NoDot(s, k, n) && (n < |s| ==> s[n] == DOT)
    ensures Labels(s, k) == if n == |s| then [s] else [s[..n]] + Labels(s[n + 1..])
    decreases n - k
  {
    if k == n {
    } else {
      FirstLabel(s, k + 1, n);
    }
  }

  /** next_token: the last dot at or before p, or -1. */
  method NextToken(c: seq<byte>, p: int) returns (r: int)
    requires -1 <= p < |c|
    ensures -1 <= r <= p
    ensures r >= 0 ==> c[r] == DOT
    ensures NoDot(c, r + 1, p + 1)
  {
    r := p;
    while r >= 0
      invariant -1 <= r <= p
      invariant NoDot(c, r + 1, p + 1)
    {
      if c[r] == DOT { return; }
      r := r - 1;
    }
  }

  /** What the buffer holds after the label domain[pos + 1..end] when it held the hash of what follows it. */
  lemma LabelAdded(domain: seq<byte>, pos: int, end: nat, h: Hash)
    requires -1 <= pos < end <= |domain| && NoDot(domain, pos + 1, end) && (end < |domain| ==> domain[end] == DOT)
    ensures Namehash(Labels(domain[pos + 1..]), h) == h(Rest(domain, end, h) + h(domain[pos + 1..end]))
  {
    var s := domain[pos + 1..];
    var n := end - (pos + 1);
    assert forall j :: 0 <= j < n ==> s[j] == domain[pos + 1 + j];
    FirstLabel(s, 0, n);
    assert s[..n] == domain[pos + 1..end];
    if end == |domain| {
      assert s[..n] == s;
      assert [s][1..] == [];
    } else {
      assert s[n + 1..] == domain[end + 1..];
      assert ([s[..n]] + Labels(s[n + 1..]))[1..] == Labels(domain[end + 1..]);
    }
  }

  /** The hash of the part behind position end. */
  function Rest(domain: seq<byte>, end: nat, h: Hash): seq<byte>
    requires end <= |domain|
  {
    if end == |domain| then Zeros(32) else Namehash(Labels(domain[end + 1..]), h)
  }

  lemma StartsEmpty(domain: seq<byte>, h: Hash)
    ensures Rest(domain, |domain|, h) == Zeros(32)
  {
  }

  lemma EndsWith(domain: seq<byte>, pos: nat, h: Hash)
    requires pos < |domain|
    ensures Rest(domain, pos, h) == Namehash(Labels(domain[pos + 1..]), h)
  {
  }

  /** sha3_to: hashes `input` into 32 bytes of the buffer. */
  method HashTo(input: seq<byte>, h: Hash, buffer: array<byte>, at: nat)
    requires at + 32 <= buffer.Length
    modifies buffer
    ensures buffer[..] == old(buffer[..at]) + h(input) + old(buffer[at + 32..])
  {
    var d := h(input);
    for i := 0 to 32
      invariant forall j :: at <= j < at + i ==> buffer[j] == d[j - at]
      invariant forall j :: 0 <= j < at || at + i <= j < buffer.Length ==> buffer[j] == old(buffer[j])
    {
      buffer[at + i] := d[i];
    }
  }

  /** ens_hash; the first half of the buffer is the root, the second half the hash of the current label. */
  method EnsHash(domain: seq<byte>, h: Hash) returns (dst: seq<byte>)
    ensures dst == Namehash(Labels(domain), h)
    ensures domain != [] ==> dst == Eip137(domain, h)
  {
    hide Labels, Namehash, Rest;
    var hash := new byte[64](_ => 0);
    var end := |domain|;
    var pos := NextToken(domain, end - 1);
    StartsEmpty(domain, h);
    assert hash[..32] == Zeros(32);
    while true
      invariant -1 <= pos < end <= |domain|
      invariant NoDot(domain, pos + 1, end) && (end < |domain| ==> domain[end] == DOT)
                && (pos >= 0 ==> domain[pos] == DOT)
      invariant hash[..32] == Rest(domain, end, h)
      decreases pos
    {
      ghost var root := hash[..32];
      LabelAdded(domain, pos, end, h);
      HashTo(domain[pos + 1..end], h, hash, 32);
      assert hash[..] == root + h(domain[pos + 1..end]);
      HashTo(hash[..], h, hash, 0);
      assert hash[..32] == Namehash(Labels(domain[pos + 1..]), h);
      if pos < 0 {
        assert domain[pos + 1..] == domain;
        break;
      }
      EndsWith(domain, pos, h);
      end := pos;
      pos := NextToken(domain, pos - 1);
    }
    return hash[..32];
  }

  /** The empty name is the exception: its one empty label is hashed, where EIP-137 has no label to hash. */
  lemma EmptyName(h: Hash)
    ensures Namehash(Labels([]), h) == h(Zeros(32) + h([]))
    ensures Eip137([], h) == Zeros(32)
  {
    assert Labels([]) == [[]];
    var empty: seq<byte> := [];
    assert [empty][1..] == [];
  }

  /** So the loop meets EIP-137 for exactly the non-empty names, unless the hash sends that one label to zero. */
  lemma MeetsEip137Iff(domain: seq<byte>, h: Hash)
    ensures Namehash(Labels(domain), h) == Eip137(domain, h) <==> domain != [] || h(Zeros(32) + h([])) == Zeros(32)
  {
    EmptyName(h);
  }
}
