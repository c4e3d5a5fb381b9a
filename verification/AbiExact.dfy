/** What the encoder writes for one element, and for exactly which tokens that is what the specification asks for. */
module AbiExact {
  import opened Wrappers
  import opened Bytes
  import opened AbiLayout
  import opened AbiTypes

  // ----- words ---------------------------------------------------------------------------

  lemma WordPowers()
    ensures Pow256(8) == TWO_64 && Pow256(WORD) == TWO_256
  {
    assert Pow256(4) == 0x1_0000_0000;
    assert Pow256(16) == TWO_64 * TWO_64 by { PowerSum(8, 8); }
    PowerSum(16, 16);
  }

  lemma {:induction false} PowerSum(a: nat, b: nat)
    ensures Pow256(a + b) == Pow256(a) * Pow256(b)
  {
    if a == 0 {
    } else {
      PowerSum(a - 1, b);
    }
  }

  lemma {:induction false} PowersGrow(a: nat, b: nat)
    requires a <= b
    ensures Pow256(a) <= Pow256(b)
  {
    if a == b {
    } else {
      PowersGrow(a, b - 1);
    }
  }

  /** Different numbers have different words. */
  lemma WordValue(n: nat)
    requires n < TWO_256
    ensures ValueOf(U256(n)) == n
  {
    hide Pow256;
    WordPowers();
    ValueOfBE(n, WORD);
  }

  /** Up to 32 bytes, right-aligned, are the word of their number. */
  lemma PadLeftIsWord(b: seq<byte>)
    requires |b| <= 32
    ensures ValueOf(b) < TWO_256 && PadLeft(b) == U256(ValueOf(b))
  {
    hide Pow256, BE, PadLeft, Minimal, ValueOf;
    WordPowers();
    BEOfValue(b);
    PowersGrow(|b|, WORD);
    BEExtend(ValueOf(b), |b|, WORD - |b|);
    PadLeftZeros(b);
  }

  lemma PadLeftZeros(b: seq<byte>)
    requires |b| <= 32
    ensures PadLeft(b) == Zeros(32 - |b|) + b
  {
  }

  /** More bytes do not fit in one word. */
  lemma PadLeftSize(b: seq<byte>)
    ensures |PadLeft(b)| == 32 <==> |b| <= 32
  {
  }

  // ----- decimal notation ------------------------------------------------------------------

  lemma {:induction false} DigitsOfAll(s: seq<byte>)
    requires Decimal(s).Some?
    ensures DigitsOf(s) == s && forall i :: 0 <= i < |s| ==> Digit(s[i])
  {
    AllDigits(s);
    DigitsOfDigits(s);
  }

  lemma {:induction false} AllDigits(s: seq<byte>)
    requires Decimal(s).Some?
    ensures forall i :: 0 <= i < |s| ==> Digit(s[i])
  {
    if s == [] {
    } else {
      var p := s[..|s| - 1];
      AllDigits(p);
      assert forall i :: 0 <= i < |p| ==> s[i] == p[i];
    }
  }

  lemma {:induction false} DigitsOfDigits(s: seq<byte>)
    requires forall i :: 0 <= i < |s| ==> Digit(s[i])
    ensures DigitsOf(s) == s
  {
    if s == [] {
    } else {
      DigitsOfDigits(s[1..]);
      assert s == [s[0]] + s[1..];
    }
  }

  /** Reading a row of digits saturates. */
  lemma StrtoullSaturates(s: seq<byte>)
    requires Decimal(s).Some?
    ensures Strtoull(s) == if Decimal(s).value < TWO_64 then Decimal(s).value else TWO_64 - 1
  {
    DigitsOfAll(s);
  }

  /** The characters of a number denote more, as bytes, than the number. */
  lemma {:induction false} AsciiIsMore(s: seq<byte>)
    requires Decimal(s).Some?
    ensures Decimal(s).value <= ValueOf(s) && (s != [] ==> Decimal(s).value < ValueOf(s))
  {
    if s == [] {
    } else {
      AsciiIsMore(s[..|s| - 1]);
    }
  }

  /** With a sign in front they are far below the word of the negative number. */
  lemma {:induction false} AsciiOfSigned(s: seq<byte>)
    requires Decimal(s).Some?
    ensures ValueOf([MINUS] + s) + Decimal(s).value < Pow256(|s| + 1)
    ensures ValueOf([MINUS] + s) > 0
  {
    SignedBound(s);
  }

  /** The first byte bounds a number. */
  lemma {:induction false} SignedBound(s: seq<byte>)
    requires Decimal(s).Some?
    ensures 0 < ValueOf([MINUS] + s) < 46 * Pow256(|s|) && Decimal(s).value < Pow256(|s|)
  {
    if s == [] {
      assert ([MINUS] + s)[..0] == [];
      assert ValueOf([MINUS]) == MINUS;
      assert [MINUS] + s == [MINUS];
    } else {
      var p := s[..|s| - 1];
      SignedBound(p);
      assert ([MINUS] + s)[..|s|] == [MINUS] + p;
    }
  }

  // ----- one element -------------------------------------------------------------------------

  lemma MinusMod(m: nat)
    ensures (-(m as int)) % TWO_256 == MinusMod256(m % TWO_256)
  {
  }

  lemma WordOfWord(n: nat)
    requires n < TWO_256
    ensures PadLeft(U256(n)) == U256(n)
  {
    PadLeftZeros(U256(n));
  }

  /** What is written for a signed number, and what should be. */
  lemma SignedWords(s: seq<byte>)
    requires Signed(s) && Magnitude(s).Some?
    ensures var m := Magnitude(s).value;
            && IntToken(JStr(s)) == Some(U256(MinusMod256(if m < TWO_64 then m else TWO_64 - 1)))
            && Number(JStr(s)).Some? && Number(JStr(s)).value % TWO_256 == MinusMod256(m % TWO_256)
  {
    hide U256, Strtoull, Decimal;
    StrtoullSaturates(s[1..]);
    MinusMod(Magnitude(s).value);
  }

  /** A signed number as an int: right for every magnitude that can be read, and for no other. */
  lemma SignedExact(s: seq<byte>, t: Var)
    requires Signed(s) && Magnitude(s).Some? && t.kind == Int
    ensures Written(JStr(s), t) == Some(EncElem(JStr(s), t)) <==> Readable(Magnitude(s).value)
  {
    hide U256, IntToken, Number, Magnitude, PadLeft;
    var m := Magnitude(s).value;
    var n := if m < TWO_64 then m else TWO_64 - 1;
    SignedWords(s);
    WordOfWord(MinusMod256(n));
    WordValue(MinusMod256(n));
    WordValue(MinusMod256(m % TWO_256));
  }

  /** Characters written as they are never are the word of the number they denote. */
  lemma AsciiNeverRight(s: seq<byte>)
    requires Magnitude(s).Some?
    ensures PadLeft(s) != U256(Number(JStr(s)).value % TWO_256)
  {
    hide U256, PadLeft, Decimal;
    if |s| <= 32 {
      PadLeftIsWord(s);
      var n := Number(JStr(s)).value % TWO_256;
      assert n != ValueOf(s) by { AsciiDiffers(s); }
      WordValue(n);
      WordValue(ValueOf(s));
    } else {
      PadLeftSize(s);
    }
  }

  lemma AsciiDiffers(s: seq<byte>)
    requires Magnitude(s).Some? && |s| <= 32 && ValueOf(s) < TWO_256
    ensures Number(JStr(s)).value % TWO_256 != ValueOf(s)
  {
    hide Decimal, ValueOf, Pow256;
    if Signed(s) {
      AsciiOfSigned(s[1..]);
      assert s == [MINUS] + s[1..];
      PowersGrow(|s|, WORD);
      WordPowers();
      MinusMod(Magnitude(s).value);
    } else {
      AsciiIsMore(s);
    }
  }

  /** Numbers given as bytes or short integers. */
  lemma BytesExact(d: Json, t: Var)
    requires !IsPlainBytes(t) && (d.JInt? || d.JBytes?)
    ensures Written(d, t) == Some(EncElem(d, t)) <==> |ToBytes(d)| <= 32
  {
    hide U256, PadLeft, Minimal, ValueOf;
    var b := ToBytes(d);
    if d.JInt? { MinimalValue(d.n); }
    PadLeftSize(b);
    if |b| <= 32 { PadLeftIsWord(b); }
  }

  lemma BoolExact(d: Json, t: Var)
    requires !IsPlainBytes(t) && d.JBool?
    ensures Written(d, t) == Some(EncElem(d, t)) <==> t.kind != Int
  {
    hide U256, PadLeft;
    var b: seq<byte> := [if d.value then 1 else 0];
    assert b[..0] == [];
    PadLeftIsWord(b);
  }

  /** Bytes and strings: the words they should fill, and behind a length field the length itself. */
  lemma PlainBytesExact(d: Json, t: Var)
    requires IsPlainBytes(t) && HasValue(d, t)
    ensures Written(d, t) == Some(EncElem(d, t)) <==> FitsElem(d, t)
  {
    hide U256;
    var b := ToBytes(d);
    if Unsized(t) {
      WordValue(DLen(d));
      WordValue(|b|);
      assert (U256(DLen(d)) + PadRight(b))[..32] == U256(DLen(d));
      assert (U256(|b|) + PadRight(b))[..32] == U256(|b|);
    } else {
      assert [] + PadRight(b) == b + Zeros(Gap(|b|));
    }
  }

  /** The tokens the specification has an encoding for: a number for a number type, bytes that are not too many else. */
  predicate HasValue(d: Json, t: Var) {
    if Unsized(t) then DLen(d) < TWO_256 && |ToBytes(d)| < TWO_256
    else if IsPlainBytes(t) then |ToBytes(d)| <= t.typeLen
    else Number(d).Some?
  }

  /** The encoder writes what the specification asks for, exactly for the tokens that FitsElem admits. */
  lemma ElemExact(d: Json, t: Var)
    requires HasValue(d, t)
    ensures Written(d, t) == Some(EncElem(d, t)) <==> FitsElem(d, t)
  {
    if IsPlainBytes(t) {
      PlainBytesExact(d, t);
    } else if d.JStr? {
      if t.kind == Int && Signed(d.chars) {
        SignedExact(d.chars, t);
      } else {
        AsciiNeverRight(d.chars);
      }
    } else if d.JBool? {
      BoolExact(d, t);
    } else {
      BytesExact(d, t);
    }
  }

  /** In particular for what the encoder theorem assumes. */
  lemma FitsWritten(d: Json, t: Var)
    requires FitsElem(d, t)
    ensures Written(d, t) == Some(EncElem(d, t))
  {
    hide U256, PadLeft, Magnitude;
    if Unsized(t) {
    } else if IsPlainBytes(t) {
      PlainBytesExact(d, t);
    } else {
      ElemExact(d, t);
    }
  }

  // ----- what that means for single types -------------------------------------------------------

  /**
   * Decimal strings for an int: only those with a '-' are read as numbers at all, and only through 64 bits. Larger
   * magnitudes come out as -(2^64 - 1), which is right for just those that agree with it modulo 2^256, none of
   * which an int256 can hold.
   */
  lemma IntStringExact(s: seq<byte>, t: Var)
    requires Magnitude(s).Some? && t.kind == Int
    ensures var m, right := Magnitude(s).value, Written(JStr(s), t) == Some(EncElem(JStr(s), t));
            && (right <==> Signed(s) && (m < TWO_64 || m % TWO_256 == TWO_64 - 1))
            && (m < TWO_256 ==> (right <==> Signed(s) && m < TWO_64))
  {
    hide Written, EncElem, Magnitude;
    ElemExact(JStr(s), t);
  }

  /** The int "5" is written as the character code 53. */
  lemma FiveIsWrong(t: Var)
    requires t.kind == Int
    ensures var five := JStr([53]);
            && EncElem(five, t) == U256(5) && Written(five, t) == Some(U256(53)) && U256(5) != U256(53)
  {
    hide U256, PadLeft;
    var s: seq<byte> := [53];
    assert s[..0] == [];
    PadLeftIsWord(s);
    WordValue(5);
    WordValue(53);
  }

  /** The int "-18446744073709551616", -2^64, is written as -(2^64 - 1). */
  lemma MinusTwo64IsWrong(t: Var)
    requires t.kind == Int
    ensures var d := JStr([MINUS] + Notation(TWO_64));
            && EncElem(d, t) == U256(TWO_256 - TWO_64) && Written(d, t) == Some(U256(TWO_256 - TWO_64 + 1))
            && U256(TWO_256 - TWO_64) != U256(TWO_256 - TWO_64 + 1)
  {
    hide U256, PadLeft, IntToken, Number, Decimal, Notation;
    var s := [MINUS] + Notation(TWO_64);
    NotationBack(TWO_64);
    assert s[1..] == Notation(TWO_64);
    SignedWords(s);
    WordOfWord(TWO_256 - TWO_64 + 1);
    WordValue(TWO_256 - TWO_64);
    WordValue(TWO_256 - TWO_64 + 1);
  }

  /** Decimal notation. */
  function Notation(n: nat): seq<byte> {
    if n < 10 then [ZERO + n] else Notation(n / 10) + [ZERO + n % 10]
  }

  lemma {:induction false} NotationBack(n: nat)
    ensures Notation(n) != [] && Decimal(Notation(n)) == Some(n)
  {
    if n < 10 {
      assert Notation(n)[..0] == [];
    } else {
      NotationBack(n / 10);
      assert Notation(n)[..|Notation(n)| - 1] == Notation(n / 10);
    }
  }

  /** A number type never takes an unsigned or a non-int decimal string for its number. */
  lemma OtherStringsWrong(s: seq<byte>, t: Var)
    requires Magnitude(s).Some? && !IsPlainBytes(t) && t.kind != Int
    ensures Written(JStr(s), t) != Some(EncElem(JStr(s), t))
  {
    hide Written, EncElem, Magnitude;
    ElemExact(JStr(s), t);
  }

  /**
   * The length field of an unsized value comes from the token. It is right for every byte and string token, but for
   * an integer token (a hex literal of up to three bytes) only if the integer is 0 or 1, and not for false.
   */
  lemma LengthFieldExact(d: Json, t: Var)
    requires Unsized(t) && !d.JArr? && HasValue(d, t)
    ensures Written(d, t) == Some(EncElem(d, t)) <==> (d.JInt? ==> d.n <= 1) && d != JBool(false)
  {
    hide Written, EncElem;
    ElemExact(d, t);
    if d.JInt? && d.n > 0 { MinimalShort(d.n); }
  }

  /** The bytes 0x1234 get the length 4660. */
  lemma ShortHexIsWrong(t: Var)
    requires Unsized(t)
    ensures var d := JInt(0x1234);
            && EncElem(d, t) == U256(2) + PadRight([0x12, 0x34])
            && Written(d, t) == Some(U256(4660) + PadRight([0x12, 0x34]))
            && U256(2) != U256(4660)
  {
    hide U256, PadRight;
    assert Minimal(0x12) == [0x12] by { assert Minimal(0) == []; }
    assert Minimal(0x1234) == Minimal(0x12) + [0x34] == [0x12, 0x34];
    assert ToBytes(JInt(0x1234)) == [0x12, 0x34];
    WordValue(2);
    WordValue(4660);
  }

  lemma {:induction false} MinimalShort(n: nat)
    requires n > 0
    ensures 1 <= |Minimal(n)| <= n
    ensures n > 1 ==> |Minimal(n)| < n
  {
    if n / 256 == 0 {
    } else {
      MinimalShort(n / 256);
    }
  }

  // ----- the worked example of the specification ------------------------------------------

  lemma SmallWord(v: nat)
    requires 0 < v < 256
    ensures U256(v) == seq(31, _ => 0) + [v]
  {
    assert Minimal(v) == [v] by { assert Minimal(0) == []; }
    assert Zeros(31) == seq(31, _ => 0);
  }

  function SamTypes(): seq<Var> { [Var(Bytes, 0, 0), Var(Bool, 1, 0), Var(Uint, 32, -1)] }

  /** "dave", true and [1, 2, 3] */
  function SamValues(): seq<Json> {
    [JStr([0x64, 0x61, 0x76, 0x65]), JBool(true), JArr([JInt(1), JInt(2), JInt(3)])]
  }

  lemma SamParts()
    ensures AllFit(SamValues(), SamTypes())
    ensures PartsOf(SamValues(), SamTypes())
            == [Part(true, U256(4) + PadRight([0x64, 0x61, 0x76, 0x65])), Part(false, U256(1)),
                Part(true, U256(3) + (U256(1) + U256(2) + U256(3)))]
  {
    hide U256, PadRight;
    var ds, ts, es := SamValues(), SamTypes(), [JInt(1), JInt(2), JInt(3)];
    assert Minimal(0) == [] && Minimal(1) == [1] && Minimal(2) == [2] && Minimal(3) == [3];
    assert forall k :: 0 <= k < 3 ==> FitsElem(es[k], ts[2]) && EncElem(es[k], ts[2]) == U256(k + 1);
    assert EncElems(es, ts[2], 0) == [];
    assert EncElems(es, ts[2], 1) == U256(1);
    assert EncElems(es, ts[2], 2) == U256(1) + U256(2);
    assert EncElems(es, ts[2], 3) == U256(1) + U256(2) + U256(3);
    assert Enc(ds[2], ts[2]) == U256(3) + EncElems(es, ts[2], 3);
    assert Enc(ds[1], ts[1]) == U256(1);
    assert Enc(ds[0], ts[0]) == U256(4) + PadRight([0x64, 0x61, 0x76, 0x65]);
  }

  lemma SamLayout(a: seq<byte>, b: seq<byte>, c: seq<byte>)
    requires |b| == 32
    ensures Layout([Part(true, a), Part(false, b), Part(true, c)]) == U256(96) + b + U256(96 + |a|) + (a + c)
  {
    hide U256;
    var ps := [Part(true, a), Part(false, b), Part(true, c)];
    assert Tails(ps, 0) == [] && Tails(ps, 1) == a && Tails(ps, 2) == a && Tails(ps, 3) == a + c;
    assert HeadTotal(ps, 0) == 0 && HeadTotal(ps, 1) == 32 && HeadTotal(ps, 2) == 64 && HeadTotal(ps, 3) == 96;
    assert Heads(ps, 0) == [] && Heads(ps, 1) == U256(96);
    assert Heads(ps, 2) == U256(96) + b;
    assert Heads(ps, 3) == U256(96) + b + U256(96 + |a|);
  }

  /** sam("dave", true, [1, 2, 3]) for sam(bytes,bool,uint256[]), word for word as printed there. */
  lemma SpecificationExample()
    ensures AllFit(SamValues(), SamTypes())
    ensures var w := (v: byte) => seq(31, _ => 0) + [v];
            EncTuple(SamValues(), SamTypes())
            == w(0x60) + w(1) + w(0xa0)
               + ((w(4) + ([0x64, 0x61, 0x76, 0x65] + seq(28, _ => 0))) + (w(3) + (w(1) + w(2) + w(3))))
  {
    hide U256, PadRight, Enc, AllFit, PartsOf, Layout;
    SamParts();
    PadFour();
    SmallWord(1);
    SmallWord(2);
    SmallWord(3);
    SmallWord(4);
    SmallWord(0x60);
    SmallWord(0xa0);
    SamLayout(U256(4) + PadRight([0x64, 0x61, 0x76, 0x65]), U256(1), U256(3) + (U256(1) + U256(2) + U256(3)));
  }

  lemma PadFour()
    ensures PadRight([0x64, 0x61, 0x76, 0x65]) == [0x64, 0x61, 0x76, 0x65] + seq(28, _ => 0)
  {
  }
}
