/** ABI types, JSON values, and the head/tail encoding of the Solidity Contract ABI Specification. */
module AbiTypes {
  import opened Wrappers
  import opened Bytes
  import opened AbiLayout

  /** atype_t without tuples: the member types of a flat signature. */
  datatype Kind = Uint | Int | Bytes | Bool | Address | String

  /** var_t: arrayLen is -1 for T[], k for T[k], 0 for a plain type. */
  datatype Var = Var(kind: Kind, typeLen: nat, arrayLen: int)

  /** A JSON token. */
  datatype Json =
    | JNull
    | JBool(value: bool)
    | JInt(n: nat)
    | JBytes(bytes: seq<byte>)
    | JStr(chars: seq<byte>)
    | JArr(es: seq<Json>)

  /** d_len: for an integer token the field holds the number itself. */
  function DLen(d: Json): nat {
    match d
    case JNull => 0
    case JBool(v) => if v then 1 else 0
    case JInt(n) => n
    case JBytes(b) => |b|
    case JStr(s) => |s|
    case JArr(es) => |es|
  }

  /** d_to_bytes */
  function ToBytes(d: Json): seq<byte> {
    match d
    case JBool(v) => [if v then 1 else 0]
    case JInt(n) => Minimal(n)
    case JBytes(b) => b
    case JStr(s) => s
    case JNull => []
    case JArr(_) => []
  }

  const TWO_64: nat := 0x1_0000_0000_0000_0000
  const TWO_256: nat := 0x1_0000_0000_0000_0000_0000_0000_0000_0000_0000_0000_0000_0000_0000_0000_0000_0000

  /** Sizes an int can hold. */
  const INT_LIMIT: nat := 0x8000_0000

  /** A number stored in an int: the low 32 bits, signed. */
  function ToInt(n: int): int { (n + INT_LIMIT) % (2 * INT_LIMIT) - INT_LIMIT }

  const MINUS: byte := 45
  const PLUS: byte := 43
  const ZERO: byte := 48

  predicate Digit(c: byte) { ZERO <= c <= ZERO + 9 }

  /** The number a row of decimal digits denotes; an empty row counts as 0. */
  function Decimal(s: seq<byte>): Option<nat> {
    if s == [] then Some(0)
    else
      var p, c := Decimal(s[..|s| - 1]), s[|s| - 1];
      if p.Some? && Digit(c) then Some(10 * p.value + (c - ZERO)) else None
  }

  predicate Signed(s: seq<byte>) { s != [] && s[0] == MINUS }

  /** The magnitude a string in decimal notation denotes: an optional '-' and at least one digit, of any length. */
  function Magnitude(s: seq<byte>): Option<nat> {
    var digits := if Signed(s) then s[1..] else s;
    if digits == [] then None else Decimal(digits)
  }

  /** The number a token denotes. */
  function Number(d: Json): Option<int> {
    match d
    case JBool(v) => Some(if v then 1 else 0)
    case JInt(n) => Some(n)
    case JBytes(b) => Some(ValueOf(b))
    case JStr(s) =>
      var m := Magnitude(s);
      if m.None? then None
      else
        var n: int := m.value;
        Some(if Signed(s) then -n else n)
    case JNull => None
    case JArr(_) => None
  }

  // ----- strtoull ----------------------------------------------------------------------

  predicate Space(c: byte) { c == 32 || 9 <= c <= 13 }

  function SkipSpace(s: seq<byte>): seq<byte> {
    if s != [] && Space(s[0]) then SkipSpace(s[1..]) else s
  }

  /** The digits at the front of s. */
  function DigitsOf(s: seq<byte>): (r: seq<byte>)
    ensures r <= s && forall i :: 0 <= i < |r| ==> Digit(r[i])
  {
    if s != [] && Digit(s[0]) then [s[0]] + DigitsOf(s[1..]) else []
  }

  lemma {:induction false} DigitsHaveValue(s: seq<byte>)
    requires forall i :: 0 <= i < |s| ==> Digit(s[i])
    ensures Decimal(s).Some?
  {
    if s == [] {
    } else {
      DigitsHaveValue(s[..|s| - 1]);
    }
  }

  /** strtoull in base 10: white space, a sign, digits; the largest number if they denote more than that. */
  function Strtoull(s: seq<byte>): (n: nat)
    ensures n < TWO_64
  {
    var t := SkipSpace(s);
    var digits := DigitsOf(if t != [] && (t[0] == MINUS || t[0] == PLUS) then t[1..] else t);
    DigitsHaveValue(digits);
    var v := Decimal(digits).value;
    if v >= TWO_64 then TWO_64 - 1 else if Signed(t) && v > 0 then TWO_64 - v else v
  }

  /** White space, at most one sign, digits, and anything behind them. */
  lemma StrtoullMeans(blanks: seq<byte>, sign: seq<byte>, digits: seq<byte>, rest: seq<byte>)
    requires forall c :: c in blanks ==> c in {9, 10, 11, 12, 13, 32}
    requires sign == [] || sign == [MINUS] || sign == [PLUS]
    requires digits != [] && (forall c :: c in digits ==> Digit(c)) && (rest == [] || !Digit(rest[0]))
    ensures Decimal(digits).Some?
    ensures var v := Decimal(digits).value;
            Strtoull(blanks + (sign + (digits + rest)))
            == if v >= 0x1_0000_0000_0000_0000 then 0xFFFF_FFFF_FFFF_FFFF
               else if sign == [MINUS] && v > 0 then 0x1_0000_0000_0000_0000 - v else v
  {
    hide Decimal, DigitsOf, SkipSpace;
    DigitsHaveValue(digits);
    DigitsAre(digits, rest);
    assert digits[0] in digits;
    var t := sign + (digits + rest);
    assert if sign == [] then t == digits + rest else t[1..] == digits + rest;
    SpaceSkipped(blanks, t);
  }

  lemma {:induction false} SpaceSkipped(blanks: seq<byte>, t: seq<byte>)
    requires (forall c :: c in blanks ==> c in {9, 10, 11, 12, 13, 32}) && t != [] && !Space(t[0])
    ensures SkipSpace(blanks + t) == t
  {
    if blanks == [] {
      assert blanks + t == t;
    } else {
      assert blanks[0] in blanks && forall c :: c in blanks[1..] ==> c in blanks;
      assert (blanks + t)[1..] == blanks[1..] + t;
      SpaceSkipped(blanks[1..], t);
    }
  }

  lemma {:induction false} DigitsAre(digits: seq<byte>, rest: seq<byte>)
    requires (forall c :: c in digits ==> Digit(c)) && (rest == [] || !Digit(rest[0]))
    ensures DigitsOf(digits + rest) == digits
  {
    if digits == [] {
      assert digits + rest == rest;
    } else {
      assert digits[0] in digits && forall c :: c in digits[1..] ==> c in digits;
      assert (digits + rest)[1..] == digits[1..] + rest;
      DigitsAre(digits[1..], rest);
    }
  }

  /** -n modulo 2^256 */
  function MinusMod256(n: nat): (c: nat)
    requires n < TWO_256
    ensures c < TWO_256
  {
    if n == 0 then 0 else TWO_256 - n
  }

  predicate IsPlainBytes(t: Var) { t.kind == Bytes || t.kind == String }

  /** bytes and string without a fixed size */
  predicate Unsized(t: Var) { IsPlainBytes(t) && t.typeLen == 0 }

  /** is_dynamic */
  predicate IsDynamic(t: Var) { t.arrayLen < 0 || Unsized(t) }

  /** head_size of a member */
  function HeadSize(t: Var): nat {
    if IsDynamic(t) then 32
    else 32 * ((if t.arrayLen > 0 then t.arrayLen else 1) * ElemWords(t))
  }

  // ----- what the encoder writes ---------------------------------------------------------

  /** The bytes an int is taken from: the complement for a string with a sign, the token's bytes otherwise. */
  function IntToken(d: Json): Option<seq<byte>> {
    match d
    case JStr(s) => Some(if Signed(s) then U256(MinusMod256(Strtoull(s[1..]))) else s)
    case JInt(_) => Some(ToBytes(d))
    case JBytes(_) => Some(ToBytes(d))
    case JNull => None
    case JBool(_) => None
    case JArr(_) => None
  }

  /** One turn of the element loop, for any token; None is the error return. */
  function Written(d: Json, t: Var): Option<seq<byte>> {
    match t.kind
    case Int =>
      var b := IntToken(d);
      if b.None? then None else Some(PadLeft(b.value))
    case Uint => Some(PadLeft(ToBytes(d)))
    case Bool => Some(PadLeft(ToBytes(d)))
    case Address => Some(PadLeft(ToBytes(d)))
    case Bytes => Some((if t.typeLen == 0 then U256(DLen(d)) else []) + PadRight(ToBytes(d)))
    case String => Some((if t.typeLen == 0 then U256(DLen(d)) else []) + PadRight(ToBytes(d)))
  }

  // ----- the specification -----------------------------------------------------------

  /** Bytes on the left of the words that are reserved for them. */
  function FillWords(b: seq<byte>, words: nat): seq<byte> {
    b + Zeros(if |b| <= 32 * words then 32 * words - |b| else 0)
  }

  /** enc(d) for one value of the element type: numbers modulo 2^256, bytes on the left. */
  function EncElem(d: Json, t: Var): seq<byte> {
    if Unsized(t) then U256(|ToBytes(d)|) + PadRight(ToBytes(d))
    else if IsPlainBytes(t) then FillWords(ToBytes(d), WordSize(t.typeLen))
    else if Number(d).None? then []
    else U256(Number(d).value % TWO_256)
  }

  /** The concatenated encodings of the first n elements. */
  function EncElems(es: seq<Json>, t: Var, n: nat): seq<byte>
    requires n <= |es|
  {
    if n == 0 then [] else EncElems(es, t, n - 1) + EncElem(es[n - 1], t)
  }

  predicate Elements(d: Json, t: Var) {
    t.arrayLen == 0 || (d.JArr? && (t.arrayLen > 0 ==> |d.es| == t.arrayLen))
  }

  /** enc(d) of a member: T[k] is its elements in turn, T[] the same after their number. */
  function Enc(d: Json, t: Var): seq<byte>
    requires Elements(d, t)
  {
    if t.arrayLen == 0 then EncElem(d, t)
    else if t.arrayLen > 0 then EncElems(d.es, t, |d.es|)
    else U256(|d.es|) + EncElems(d.es, t, |d.es|)
  }

  /** The members of an argument tuple, encoded. */
  function Parts(ds: seq<Json>, ts: seq<Var>): (ps: seq<Part>)
    requires |ds| == |ts| && forall i :: 0 <= i < |ts| ==> Elements(ds[i], ts[i])
    ensures |ps| == |ts|
    ensures forall i :: 0 <= i < |ts| ==> ps[i] == Part(IsDynamic(ts[i]), Enc(ds[i], ts[i]))
  {
    seq(|ts|, i requires 0 <= i < |ts| => Part(IsDynamic(ts[i]), Enc(ds[i], ts[i])))
  }

  // ----- values that are encoded as specified --------------------------------------------

  /** A magnitude that strtoull does not spoil, at least modulo 2^256. */
  predicate Readable(m: nat) { m < TWO_64 || m % TWO_256 == TWO_64 - 1 }

  /**
   * The tokens the encoder writes as the specification says. A number in decimal notation has to be an int with a
   * sign and a magnitude that can be read; the length field of an unsized value must be its size.
   */
  predicate FitsElem(d: Json, t: Var) {
    if Unsized(t) then DLen(d) == |ToBytes(d)|
    else if IsPlainBytes(t) then |ToBytes(d)| <= t.typeLen && WordSize(|ToBytes(d)|) == WordSize(t.typeLen)
    else if d.JStr? then
      t.kind == Int && Signed(d.chars) && Magnitude(d.chars).Some? && Readable(Magnitude(d.chars).value)
    else if d.JBool? then t.kind != Int
    else (d.JInt? || d.JBytes?) && |ToBytes(d)| <= 32
  }

  predicate Fits(d: Json, t: Var) {
    && Elements(d, t)
    && (if t.arrayLen == 0 then FitsElem(d, t) else forall i :: 0 <= i < |d.es| ==> FitsElem(d.es[i], t))
    && (t.arrayLen != 0 ==> !Unsized(t))
    && t.arrayLen >= -1
  }

  predicate AllFit(ds: seq<Json>, ts: seq<Var>) {
    |ds| == |ts| && forall i :: 0 <= i < |ts| ==> Fits(ds[i], ts[i])
  }

  function PartsOf(ds: seq<Json>, ts: seq<Var>): (ps: seq<Part>)
    requires AllFit(ds, ts)
    ensures |ps| == |ts|
  {
    Parts(ds, ts)
  }

  /** enc of the argument tuple */
  function EncTuple(ds: seq<Json>, ts: seq<Var>): seq<byte>
    requires AllFit(ds, ts)
  {
    Layout(PartsOf(ds, ts))
  }

  // ----- sizes ------------------------------------------------------------------------

  /** Words of one element of a type that is not unsized. */
  function ElemWords(t: Var): nat {
    if IsPlainBytes(t) then WordSize(t.typeLen) else 1
  }

  lemma ElemSize(d: Json, t: Var)
    requires FitsElem(d, t)
    ensures !Unsized(t) ==> |EncElem(d, t)| == 32 * ElemWords(t)
    ensures |EncElem(d, t)| % 32 == 0
    ensures Unsized(t) ==> DLen(d) <= |EncElem(d, t)|
  {
  }

  lemma {:induction false} ElemsSize(es: seq<Json>, t: Var, n: nat)
    requires n <= |es| && !Unsized(t) && forall i :: 0 <= i < |es| ==> FitsElem(es[i], t)
    ensures |EncElems(es, t, n)| == 32 * (n * ElemWords(t))
  {
    hide EncElem, FitsElem, ElemWords;
    if n == 0 {
    } else {
      ElemsSize(es, t, n - 1);
      ElemSize(es[n - 1], t);
      OneMore(n, ElemWords(t));
    }
  }

  lemma {:induction false} ElemsWords(es: seq<Json>, t: Var, n: nat)
    requires n <= |es| && !Unsized(t) && forall i :: 0 <= i < |es| ==> FitsElem(es[i], t)
    ensures n <= |EncElems(es, t, n)| && |EncElems(es, t, n)| % 32 == 0
  {
    hide EncElem, FitsElem;
    if n == 0 {
    } else {
      ElemsWords(es, t, n - 1);
      ElemSize(es[n - 1], t);
    }
  }

  lemma OneMore(n: nat, w: nat)
    requires n > 0
    ensures n * w == (n - 1) * w + w
  {
  }

  /** A static member fills exactly its head. */
  lemma EncSize(d: Json, t: Var)
    requires Fits(d, t)
    ensures !IsDynamic(t) ==> |Enc(d, t)| == HeadSize(t)
    ensures |Enc(d, t)| % 32 == 0
    ensures Unsized(t) || t.arrayLen != 0 ==> DLen(d) <= |Enc(d, t)|
  {
    hide EncElem, FitsElem, EncElems;
    if t.arrayLen == 0 {
      ElemSize(d, t);
    } else {
      ElemsSize(d.es, t, |d.es|);
      ElemsWords(d.es, t, |d.es|);
    }
  }

  /** head_size over the first n members of a tuple. */
  function HeadSizes(ts: seq<Var>, n: nat): nat
    requires n <= |ts|
  {
    if n == 0 then 0 else HeadSizes(ts, n - 1) + HeadSize(ts[n - 1])
  }

  lemma PartIs(ds: seq<Json>, ts: seq<Var>, i: nat)
    requires AllFit(ds, ts) && i < |ts|
    ensures PartsOf(ds, ts)[i] == Part(IsDynamic(ts[i]), Enc(ds[i], ts[i]))
    ensures HeadBytes(PartsOf(ds, ts)[i]) == HeadSize(ts[i])
    ensures |PartsOf(ds, ts)[i].body| % 32 == 0
  {
    hide Enc, Fits;
    EncSize(ds[i], ts[i]);
  }

  lemma {:induction false} HeadSizesAre(ds: seq<Json>, ts: seq<Var>, n: nat)
    requires AllFit(ds, ts) && n <= |ts|
    ensures HeadTotal(PartsOf(ds, ts), n) == HeadSizes(ts, n)
  {
    hide Enc, Fits, HeadSize, HeadBytes, PartsOf;
    if n == 0 {
    } else {
      HeadSizesAre(ds, ts, n - 1);
      PartIs(ds, ts, n - 1);
    }
  }

  /** An encoded tuple is a whole number of words. */
  lemma TupleSize(ds: seq<Json>, ts: seq<Var>)
    requires AllFit(ds, ts)
    ensures |EncTuple(ds, ts)| % 32 == 0
  {
    var ps := PartsOf(ds, ts);
    forall i | 0 <= i < |ps| ensures |ps[i].body| % 32 == 0 {
      PartIs(ds, ts, i);
    }
    LayoutWords(ps);
  }
}
