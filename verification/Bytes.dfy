/** Byte strings and big-endian numbers. */
module Bytes {
  import opened Wrappers

  function Zeros(n: nat): (r: seq<byte>)
    ensures |r| == n
    ensures forall i :: 0 <= i < n ==> r[i] == 0
  {
    seq(n, i => 0)
  }

  function Pow256(k: nat): (r: nat)
    ensures r > 0
  {
    if k == 0 then 1 else 256 * Pow256(k - 1)
  }

  /** The number a big-endian byte string denotes (bytes_to_int, bytes_to_long). */
  function ValueOf(s: seq<byte>): nat {
    if s == [] then 0 else 256 * ValueOf(s[..|s| - 1]) + s[|s| - 1]
  }

  /** The shortest big-endian form; zero has no bytes (d_to_bytes of an integer token). */
  function Minimal(n: nat): seq<byte> {
    if n == 0 then [] else Minimal(n / 256) + [n % 256]
  }

  lemma {:induction false} MinimalValue(n: nat)
    ensures ValueOf(Minimal(n)) == n
  {
    if n == 0 {
    } else {
      MinimalValue(n / 256);
      assert Minimal(n)[..|Minimal(n)| - 1] == Minimal(n / 256);
    }
  }

  lemma {:induction false} MinimalSize(n: nat, k: nat)
    requires n < Pow256(k)
    ensures |Minimal(n)| <= k
  {
    if n == 0 {
    } else {
      MinimalSize(n / 256, k - 1);
    }
  }

  /** The low k bytes of n, most significant first (int_to_bytes, long_to_bytes). */
  function BE(n: nat, k: nat): (r: seq<byte>)
    ensures |r| == k
  {
    var m := Minimal(n);
    if |m| <= k then Zeros(k - |m|) + m else m[|m| - k..]
  }

  lemma ValueOfBE(n: nat, k: nat)
    requires n < Pow256(k)
    ensures ValueOf(BE(n, k)) == n
  {
    MinimalSize(n, k);
    MinimalValue(n);
    ValueOfZeros(k - |Minimal(n)|, Minimal(n));
  }

  lemma {:induction false} BEOfValue(s: seq<byte>)
    ensures ValueOf(s) < Pow256(|s|)
    ensures BE(ValueOf(s), |s|) == s
    ensures |Minimal(ValueOf(s))| <= |s|
  {
    if s == [] {
    } else {
      var p, c := s[..|s| - 1], s[|s| - 1];
      BEOfValue(p);
      assert ValueOf(s) / 256 == ValueOf(p) && ValueOf(s) % 256 == c;
      assert s == p + [c];
      var m := Minimal(ValueOf(p));
      if ValueOf(s) == 0 {
        assert p == Zeros(|p|) + [];
        assert s == Zeros(|s|);
      } else {
        assert Minimal(ValueOf(s)) == m + [c];
        assert Zeros(|p| - |m|) + m + [c] == Zeros(|p| - |m|) + (m + [c]);
      }
    }
  }

  /** A number that fits in k bytes has leading zeros only beyond them. */
  lemma BEExtend(n: nat, k: nat, m: nat)
    requires n < Pow256(k)
    ensures BE(n, m + k) == Zeros(m) + BE(n, k)
  {
    MinimalSize(n, k);
    assert Zeros(m + k - |Minimal(n)|) == Zeros(m) + Zeros(k - |Minimal(n)|);
  }

  lemma {:induction false} ValueOfZeros(k: nat, s: seq<byte>)
    ensures ValueOf(Zeros(k) + s) == ValueOf(s)
    decreases k + |s|
  {
    var z := Zeros(k) + s;
    if s != [] {
      ValueOfZeros(k, s[..|s| - 1]);
      assert z[..|z| - 1] == Zeros(k) + s[..|s| - 1];
    } else if k > 0 {
      ValueOfZeros(k - 1, []);
      assert z[..|z| - 1] == Zeros(k - 1) + [];
    } else {
      assert z == s;
    }
  }

  /** b_optimize_len: drop leading zero bytes, keeping at least one byte. */
  function Trim(s: seq<byte>): (r: seq<byte>)
    ensures |r| <= |s|
  {
    if |s| > 1 && s[0] == 0 then Trim(s[1..]) else s
  }

  lemma {:induction false} TrimValue(s: seq<byte>)
    ensures ValueOf(Trim(s)) == ValueOf(s)
    ensures s != [] ==> Trim(s) != [] && (|Trim(s)| > 1 ==> Trim(s)[0] != 0)
    decreases |s|
  {
    if |s| > 1 && s[0] == 0 {
      TrimValue(s[1..]);
      ValueOfZeros(1, s[1..]);
      assert Zeros(1) == [0] by { assert Zeros(0) == []; }
      assert s == [0] + s[1..];
    }
  }

  lemma {:induction false} TrimZeros(k: nat, s: seq<byte>)
    requires s != []
    ensures Trim(Zeros(k) + s) == Trim(s)
    decreases k
  {
    var z := Zeros(k) + s;
    if k > 0 {
      assert z[0] == 0 && z[1..] == Zeros(k - 1) + s;
      TrimZeros(k - 1, s);
    } else {
      assert z == s;
    }
  }

  lemma {:induction false} TrimAllZeros(k: nat)
    requires k > 0
    ensures Trim(Zeros(k)) == [0]
    decreases k
  {
    if k > 1 {
      assert Zeros(k)[1..] == Zeros(k - 1);
      TrimAllZeros(k - 1);
    } else {
      assert Zeros(1) == [0] by { assert Zeros(0) == []; }
    }
  }

  // ----- 32-byte words ---------------------------------------------------------

  /** Bytes per word. */
  const WORD: nat := 32

  /** word_size */
  function WordSize(n: nat): nat { (n + 31) / 32 }

  /** A 256-bit number. */
  function U256(n: nat): (r: seq<byte>)
    ensures |r| == 32
  {
    BE(n, WORD)
  }

  /** The bytes that fill up the last word. */
  function Gap(n: nat): (g: nat)
    ensures n + g == 32 * WordSize(n) && g < 32
  {
    32 * WordSize(n) - n
  }

  /** Right-aligned in at least one word. */
  function PadLeft(b: seq<byte>): (r: seq<byte>)
    ensures |r| == if b == [] then 32 else 32 * WordSize(|b|)
  {
    if b == [] then Zeros(WORD) else Zeros(Gap(|b|)) + b
  }

  /** Left-aligned in as many words as needed, possibly none. */
  function PadRight(b: seq<byte>): (r: seq<byte>)
    ensures |r| == 32 * WordSize(|b|)
  {
    b + Zeros(Gap(|b|))
  }

  /** Overwrites, extending at the end if needed. */
  function Put(buf: seq<byte>, p: nat, b: seq<byte>): (r: seq<byte>)
    requires p <= |buf|
    ensures |r| == if p + |b| < |buf| then |buf| else p + |b|
  {
    buf[..p] + b + if p + |b| < |buf| then buf[p + |b|..] else []
  }
}
