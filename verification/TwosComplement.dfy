/** The in-place two's complement of a 256-bit set, as used for negative ABI integers. */
module TwosComplement {
  import opened Wrappers
  import opened Bytes

  function Pow2(k: nat): (r: nat)
    ensures r > 0
  {
    if k == 0 then 1 else 2 * Pow2(k - 1)
  }

  lemma PowersOfTwo()
    ensures Pow2(0) == 1 && Pow2(1) == 2 && Pow2(2) == 4 && Pow2(3) == 8
    ensures Pow2(4) == 16 && Pow2(5) == 32 && Pow2(6) == 64 && Pow2(7) == 128 && Pow2(8) == 256
  {
    assert Pow2(2) == 2 * Pow2(1);
    assert Pow2(3) == 2 * Pow2(2);
    assert Pow2(4) == 2 * Pow2(3);
    assert Pow2(5) == 2 * Pow2(4);
    assert Pow2(6) == 2 * Pow2(5);
    assert Pow2(7) == 2 * Pow2(6);
  }

  lemma {:induction false} Pow2Sum(a: nat, b: nat)
    ensures Pow2(a + b) == Pow2(a) * Pow2(b)
  {
    if a == 0 {
    } else {
      Pow2Sum(a - 1, b);
    }
  }

  lemma {:induction false} Pow2OfBytes(i: nat)
    ensures Pow2(8 * i) == Pow256(i)
  {
    if i == 0 {
    } else {
      Pow2OfBytes(i - 1);
      PowersOfTwo();
      Pow2Sum(8, 8 * (i - 1));
    }
  }

  // ----- the bit set: bit k is bit k % 8 of byte k / 8 ----------------------------

  /** n shifted right by k bits, and the k bits shifted out. */
  function High(n: nat, k: nat): nat {
    if k == 0 then n else High(n, k - 1) / 2
  }

  function Low(n: nat, k: nat): nat {
    if k == 0 then 0 else Low(n, k - 1) + (if High(n, k - 1) % 2 == 1 then Pow2(k - 1) else 0)
  }

  predicate Bit(b: byte, r: nat) { High(b, r) % 2 == 1 }

  /** bs_isset */
  predicate IsSet(s: seq<byte>, k: nat)
    requires k / 8 < |s|
  {
    Bit(s[k / 8], k % 8)
  }

  lemma BitsOfByte(b: byte)
    ensures High(b, 1) == b / 2 && High(b, 2) == b / 4 && High(b, 3) == b / 8 && High(b, 4) == b / 16
    ensures High(b, 5) == b / 32 && High(b, 6) == b / 64 && High(b, 7) == b / 128 && High(b, 8) == 0
  {
    assert High(b, 2) == High(b, 1) / 2;
    assert High(b, 3) == High(b, 2) / 2;
    assert High(b, 4) == High(b, 3) / 2;
    assert High(b, 5) == High(b, 4) / 2;
    assert High(b, 6) == High(b, 5) / 2;
    assert High(b, 7) == High(b, 6) / 2;
  }

  lemma FlipFits(b: byte, r: nat)
    requires r < 8
    ensures Bit(b, r) ==> b - Pow2(r) >= 0
    ensures !Bit(b, r) ==> b + Pow2(r) < 256
  {
    PowersOfTwo();
    BitsOfByte(b);
    if r < 4 {
      if r < 2 { assert r == 0 || r == 1; } else { assert r == 2 || r == 3; }
    } else {
      if r < 6 { assert r == 4 || r == 5; } else { assert r == 6 || r == 7; }
    }
  }

  /** bs_toggle on one byte */
  function Flip(b: byte, r: nat): byte
    requires r < 8
  {
    FlipFits(b, r);
    if Bit(b, r) then b - Pow2(r) else b + Pow2(r)
  }

  /** The number with bit 0 of byte 0 least significant. */
  function LE(s: seq<byte>): nat {
    if s == [] then 0 else s[0] + 256 * LE(s[1..])
  }

  lemma {:induction false} LEBound(s: seq<byte>)
    ensures LE(s) < Pow256(|s|)
  {
    if s == [] {
    } else {
      LEBound(s[1..]);
    }
  }

  lemma {:induction false} LowHigh(n: nat, k: nat)
    ensures n == Low(n, k) + High(n, k) * Pow2(k)
  {
    if k == 0 {
    } else {
      LowHigh(n, k - 1);
      Halve(High(n, k - 1), Pow2(k - 1));
    }
  }

  lemma Halve(h: nat, p: nat)
    ensures h * p == (if h % 2 == 1 then p else 0) + (h / 2) * (2 * p)
  {
    var q := h / 2;
    assert h == 2 * q + h % 2;
    assert q * (2 * p) == (2 * q) * p;
    if h % 2 == 1 {
      assert h * p == (2 * q) * p + p;
    }
  }

  lemma AtLeast(m: nat, d: nat)
    ensures m == 0 || m * d >= d
  {
    if m > 0 {
      assert m * d == d + (m - 1) * d;
      assert (m - 1) * d >= 0;
    }
  }

  lemma SmallIsLow(n: nat, k: nat)
    requires n < Pow2(k)
    ensures Low(n, k) == n && High(n, k) == 0
  {
    LowHigh(n, k);
    AtLeast(High(n, k), Pow2(k));
  }

  lemma {:induction false} HighOfByte(b: byte, x: nat, k: nat)
    requires k <= 8
    ensures High(b + 256 * x, k) == High(b, k) + Pow2(8 - k) * x
  {
    if k > 0 {
      HighOfByte(b, x, k - 1);
      assert Pow2(9 - k) == 2 * Pow2(8 - k);
      var q := Pow2(8 - k) * x;
      assert (2 * Pow2(8 - k)) * x == 2 * q;
    } else {
      PowersOfTwo();
    }
  }

  lemma {:induction false} HighBeyondByte(b: byte, x: nat, k: nat)
    requires k >= 8
    ensures High(b + 256 * x, k) == High(x, k - 8)
  {
    if k > 8 {
      HighBeyondByte(b, x, k - 1);
    } else {
      HighOfByte(b, x, 8);
      BitsOfByte(b);
    }
  }

  lemma LowBitOfByte(b: byte, x: nat, k: nat)
    requires k < 8
    ensures High(b + 256 * x, k) % 2 == High(b, k) % 2
  {
    HighOfByte(b, x, k);
    assert Pow2(8 - k) == 2 * Pow2(7 - k);
    var q := Pow2(7 - k) * x;
    assert (2 * Pow2(7 - k)) * x == 2 * q;
  }

  lemma {:induction false} IsSetIsDigit(s: seq<byte>, k: nat)
    requires k / 8 < |s|
    ensures IsSet(s, k) <==> High(LE(s), k) % 2 == 1
  {
    if k >= 8 {
      IsSetIsDigit(s[1..], k - 8);
      HighBeyondByte(s[0], LE(s[1..]), k);
      assert s[k / 8] == s[1..][(k - 8) / 8];
    } else {
      LowBitOfByte(s[0], LE(s[1..]), k);
    }
  }

  lemma {:induction false} UpdateValue(s: seq<byte>, i: nat, v: byte)
    requires i < |s|
    ensures LE(s[i := v]) == LE(s) + (v - s[i]) * Pow256(i)
  {
    if i > 0 {
      UpdateValue(s[1..], i - 1, v);
      assert s[i := v][1..] == s[1..][i - 1 := v];
      var d, p := v - s[i], Pow256(i - 1);
      assert 256 * (d * p) == d * (256 * p);
    } else {
      assert s[i := v][1..] == s[1..];
    }
  }

  /** bs_toggle adds or removes exactly 2^k. */
  lemma ToggleValue(s: seq<byte>, k: nat)
    requires k / 8 < |s|
    ensures LE(s[k / 8 := Flip(s[k / 8], k % 8)]) == if IsSet(s, k) then LE(s) - Pow2(k) else LE(s) + Pow2(k)
  {
    var i, r := k / 8, k % 8;
    UpdateValue(s, i, Flip(s[i], r));
    Pow2OfBytes(i);
    Pow2Sum(8 * i, r);
    assert 8 * i + r == k;
    assert Pow2(k) == Pow256(i) * Pow2(r);
    SignedProduct(Pow2(r), Pow256(i));
  }

  lemma SignedProduct(a: nat, b: nat)
    ensures a * b == b * a && (0 - a) * b == 0 - b * a
  {
  }

  // ----- negation, digit by digit ---------------------------------------------------

  /** Adding a multiple of 2^k changes the high part alone. */
  lemma {:induction false} ShiftHigh(c: nat, c': nat, k: nat, m: int)
    requires c' == c + m * Pow2(k)
    ensures Low(c', k) == Low(c, k) && High(c', k) == High(c, k) + m
  {
    if k == 0 {
    } else {
      Doubled(m, Pow2(k - 1));
      ShiftHigh(c, c', k - 1, 2 * m);
    }
  }

  lemma Doubled(m: int, p: nat)
    ensures m * (2 * p) == (2 * m) * p
  {
  }

  /** Below bit k the two numbers add up to 2^k, from bit k on they agree. */
  ghost predicate NegatedBelow(n: nat, c: nat, k: nat) {
    Low(n, k) + Low(c, k) == Pow2(k) && High(n, k) == High(c, k)
  }

  lemma FlipDigit(n: nat, c: nat, k: nat, c': nat)
    requires NegatedBelow(n, c, k)
    requires c' == if High(c, k) % 2 == 1 then c - Pow2(k) else c + Pow2(k)
    ensures NegatedBelow(n, c', k + 1)
  {
    ShiftHigh(c, c', k, if High(c, k) % 2 == 1 then -1 else 1);
  }

  lemma NegatedAll(n: nat, c: nat, k: nat)
    requires NegatedBelow(n, c, k) && n < Pow2(k) && c < Pow2(k)
    ensures n + c == Pow2(k)
  {
    SmallIsLow(n, k);
    SmallIsLow(c, k);
  }

  // ----- byte order -----------------------------------------------------------------

  function Reverse(s: seq<byte>): (r: seq<byte>)
    ensures |r| == |s|
  {
    if s == [] then [] else Reverse(s[1..]) + [s[0]]
  }

  lemma {:induction false} ReverseAt(s: seq<byte>, k: nat)
    requires k < |s|
    ensures Reverse(s)[k] == s[|s| - 1 - k]
  {
    if k < |s| - 1 { ReverseAt(s[1..], k); }
  }

  lemma {:induction false} ReverseValue(s: seq<byte>)
    ensures ValueOf(Reverse(s)) == LE(s)
  {
    if s == [] {
    } else {
      ReverseValue(s[1..]);
      assert Reverse(s)[..|s| - 1] == Reverse(s[1..]);
    }
  }

  /** The second half of twos_complement: swap into big-endian order. */
  method SwapBytes(p: array<byte>)
    requires p.Length == 32
    modifies p
    ensures p[..] == Reverse(old(p[..]))
  {
    for i := 0 to 16
      invariant forall k :: 0 <= k < i ==> p[k] == old(p[31 - k]) && p[31 - k] == old(p[k])
      invariant forall k :: i <= k < 32 - i ==> p[k] == old(p[k])
    {
      p[i], p[31 - i] := p[31 - i], p[i];
    }
    ghost var was := old(p[..]);
    forall k | 0 <= k < 32 ensures p[..][k] == Reverse(was)[k] {
      ReverseAt(was, k);
    }
  }

  /** -n modulo 256^k: the one number below 256^k that n completes to 0 or to 256^k. */
  function Negated(n: nat, k: nat): (c: nat)
    requires n < Pow256(k)
    ensures c < Pow256(k)
    ensures n + c == 0 || n + c == Pow256(k)
  {
    if n == 0 then 0 else Pow256(k) - n
  }

  /** After the flipping loop has run from bit k = (lowest set bit) + 1 upwards; k is past the end only for zero. */
  ghost predicate Flipped(n: nat, c: nat, k: nat, bits: nat) {
    if k <= bits then NegatedBelow(n, c, k) else n == 0 && c == 0
  }

  lemma FlippedAll(n: nat, c: nat, k: nat, bytes: nat)
    requires k >= 8 * bytes && Flipped(n, c, k, 8 * bytes) && k <= 8 * bytes + 1
    requires n < Pow256(bytes) && c < Pow256(bytes)
    ensures c == Negated(n, bytes)
  {
    Pow2OfBytes(bytes);
    if k == 8 * bytes { NegatedAll(n, c, k); }
  }

  /** The first loop: the lowest set bit, or the number of bits for zero. */
  method LowestSet(p: array<byte>) returns (k: nat)
    ensures k <= 8 * p.Length
    ensures Low(LE(p[..]), k) == 0
    ensures k < 8 * p.Length ==> IsSet(p[..], k)
  {
    k := 0;
    while k < 8 * p.Length
      invariant k <= 8 * p.Length
      invariant Low(LE(p[..]), k) == 0
    {
      IsSetIsDigit(p[..], k);
      if IsSet(p[..], k) { return; }
      k := k + 1;
    }
  }

  lemma LowestStarts(s: seq<byte>, k: nat)
    requires k <= 8 * |s| && Low(LE(s), k) == 0
    requires k < 8 * |s| ==> IsSet(s, k)
    ensures Flipped(LE(s), LE(s), k + 1, 8 * |s|)
  {
    if k < 8 * |s| {
      IsSetIsDigit(s, k);
    } else {
      LEBound(s);
      Pow2OfBytes(|s|);
      SmallIsLow(LE(s), k);
    }
  }

  /** bs_toggle inside the flipping loop */
  method Toggle(p: array<byte>, k: nat, ghost n: nat)
    requires k < 8 * p.Length && NegatedBelow(n, LE(p[..]), k)
    modifies p
    ensures p[..] == old(p[..])[k / 8 := Flip(old(p[k / 8]), k % 8)]
    ensures NegatedBelow(n, LE(p[..]), k + 1)
  {
    ghost var before := p[..];
    ToggleValue(before, k);
    IsSetIsDigit(before, k);
    p[k / 8] := Flip(p[k / 8], k % 8);
    assert p[..] == before[k / 8 := Flip(before[k / 8], k % 8)];
    FlipDigit(n, LE(before), k, LE(p[..]));
  }

  /** twos_complement: flips every bit above the lowest set one, then turns the bytes around. */
  method ComplementInPlace(p: array<byte>)
    requires p.Length == 32
    modifies p
    ensures LE(old(p[..])) < Pow256(p.Length)
    ensures p[..] == U256(Negated(LE(old(p[..])), p.Length))
  {
    ghost var n := LE(p[..]);
    LEBound(p[..]);
    var k := LowestSet(p);
    LowestStarts(p[..], k);
    k := k + 1;
    while k < 8 * p.Length
      invariant k <= 8 * p.Length + 1
      invariant Flipped(n, LE(p[..]), k, 8 * p.Length)
    {
      Toggle(p, k, n);
      k := k + 1;
    }
    ghost var flipped := p[..];
    LEBound(flipped);
    FlippedAll(n, LE(flipped), k, p.Length);
    SwapBytes(p);
    ReverseValue(flipped);
    BEOfValue(p[..]);
  }

  lemma {:induction false} LowBound(n: nat, k: nat)
    ensures Low(n, k) < Pow2(k)
  {
    if k == 0 {
    } else {
      LowBound(n, k - 1);
    }
  }

  /** bs_from_ull for a set of 256 bits. */
  method FromUll(n: nat) returns (p: array<byte>)
    requires n < Pow256(8)
    ensures fresh(p) && p.Length == 32
    ensures LE(p[..]) == n
  {
    p := new byte[32](i => 0);
    LEZero(p[..]);
    ghost var bits := 8 * 8;
    var u, j := n, 0;
    while j < 64
      invariant j <= 64 && u == High(n, j)
      invariant LE(p[..]) == Low(n, j)
    {
      LowBound(n, j);
      if u % 2 == 1 {
        SetBit(p, j);
      }
      u, j := u / 2, j + 1;
    }
    Pow2OfBytes(8);
    assert j == bits;
    SmallIsLow(n, bits);
  }

  lemma {:induction false} LEZero(s: seq<byte>)
    requires forall i :: 0 <= i < |s| ==> s[i] == 0
    ensures LE(s) == 0
  {
    if s == [] {
    } else {
      LEZero(s[1..]);
    }
  }

  /** bs_set on a bit above everything set so far. */
  method SetBit(p: array<byte>, j: nat)
    requires j < 8 * p.Length && LE(p[..]) < Pow2(j)
    modifies p
    ensures LE(p[..]) == LE(old(p[..])) + Pow2(j)
  {
    ghost var before := p[..];
    IsSetIsDigit(before, j);
    SmallIsLow(LE(before), j);
    ToggleValue(before, j);
    p[j / 8] := Flip(p[j / 8], j % 8);
    assert p[..] == before[j / 8 := Flip(before[j / 8], j % 8)];
  }
}
