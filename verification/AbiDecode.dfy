/** The pointer-following ABI decoder, and the round trip with the encoder. */
module AbiDecode {
  import opened Wrappers
  import opened Bytes
  import opened AbiLayout
  import opened AbiTypes
  import opened AbiExact

  // ----- decoding as a function; None is a read outside the data -----------------------

  /** bytes_to_int of the last four bytes of a word, as the int it is stored in */
  function Word32(data: seq<byte>, p: nat): Option<int> {
    if p + 32 <= |data| then Some(ToInt(ValueOf(data[p + 28..p + 32]))) else None
  }

  /** Follows a pointer to a length: where the values start, and the length. A negative pointer leaves the data. */
  function Target(data: seq<byte>, p: nat): Option<(nat, int)> {
    var dst := Word32(data, p);
    if dst.None? || dst.value < 0 then None
    else
      var len := Word32(data, dst.value);
      if len.None? then None else Some((dst.value + 32, len.value))
  }

  /** strncpy: up to the first NUL. */
  function UpToNul(s: seq<byte>): (r: seq<byte>)
    ensures r <= s && 0 !in r
  {
    if s == [] || s[0] == 0 then [] else [s[0]] + UpToNul(s[1..])
  }

  function IsTrue(word: seq<byte>): bool {
    var tmp := Trim(word);
    |tmp| > 1 || (|tmp| == 1 && tmp[0] != 0)
  }

  /** Where the bytes of a string or bytes value start, and how many there are. */
  function Extent(t: Var, data: seq<byte>, off: nat): Option<(nat, nat)> {
    if t.typeLen != 0 then Some((off, t.typeLen))
    else
      var target := Target(data, off);
      if target.None? || target.value.1 < 0 then None else Some((target.value.0, target.value.1))
  }

  /** get_data for a plain type: the value and the next offset. */
  function DecElem(t: Var, data: seq<byte>, off: nat): Option<(Json, nat)> {
    if IsPlainBytes(t) then
      var e := Extent(t, data, off);
      if e.None? || e.value.0 + e.value.1 > |data| then None
      else
        var s := data[e.value.0..e.value.0 + e.value.1];
        Some((if t.kind == String then JStr(UpToNul(s)) else JBytes(s),
              off + if t.typeLen != 0 then 32 * WordSize(e.value.1) else 32))
    else if off + 32 > |data| then None
    else if t.kind == Bool then Some((JBool(IsTrue(data[off..off + 32])), off + 32))
    else if t.kind == Address then Some((JBytes(data[off + 12..off + 32]), off + 32))
    else Some((JBytes(Trim(data[off..off + 32])), off + 32))
  }

  function DecElems(t: Var, data: seq<byte>, off: nat, n: nat): Option<(seq<Json>, nat)> {
    if n == 0 then Some(([], off))
    else
      var p := DecElems(t, data, off, n - 1);
      if p.None? then None
      else
        var e := DecElem(t, data, p.value.1);
        if e.None? then None else Some((p.value.0 + [e.value.0], e.value.1))
  }

  /** get_data for a member; a negative length of a T[] means no elements. */
  function Dec(t: Var, data: seq<byte>, off: nat): Option<(Json, nat)>
    requires t.arrayLen >= -1
  {
    if t.arrayLen == 0 then DecElem(t, data, off)
    else if t.arrayLen > 0 then
      var es := DecElems(t, data, off, t.arrayLen);
      if es.None? then None else Some((JArr(es.value.0), es.value.1))
    else
      var target := Target(data, off);
      if target.None? then None
      else
        var es := DecElems(t, data, target.value.0, if target.value.1 < 0 then 0 else target.value.1);
        if es.None? then None else Some((JArr(es.value.0), off + 32))
  }

  /** get_data for the first n members of a tuple. */
  function DecTuple(ts: seq<Var>, data: seq<byte>, off: nat, n: nat): Option<(seq<Json>, nat)>
    requires n <= |ts| && forall i :: 0 <= i < |ts| ==> ts[i].arrayLen >= -1
  {
    if n == 0 then Some(([], off))
    else
      var p := DecTuple(ts, data, off, n - 1);
      if p.None? then None
      else
        var e := Dec(ts[n - 1], data, p.value.1);
        if e.None? then None else Some((p.value.0 + [e.value.0], e.value.1))
  }

  // ----- get_data itself ------------------------------------------------------------------

  /** A var_t in memory; get_data switches its array length off and on again. */
  class VarDesc {
    const kind: Kind
    const typeLen: nat
    var arrayLen: int

    constructor (v: Var)
      ensures Value() == v
    {
      kind, typeLen, arrayLen := v.kind, v.typeLen, v.arrayLen;
    }

    function Value(): Var
      reads this
    {
      Var(kind, typeLen, arrayLen)
    }

    /** get_data: the value at `offset` and the moved offset. */
    method GetData(data: seq<byte>, offset: nat) returns (res: Option<(Json, nat)>)
      requires kind != Int && arrayLen >= -1
      modifies this`arrayLen
      ensures arrayLen == old(arrayLen)
      ensures res == Dec(Value(), data, offset)
      decreases if arrayLen != 0 then 1 else 0
    {
      hide DecElem, Word32;
      if arrayLen == 0 {
        res := GetPlain(data, offset);
        return;
      }
      var dst, len := offset, arrayLen;
      if arrayLen == -1 {
        var p := Word32(data, dst);
        if p.None? || p.value < 0 { return None; }
        var l := Word32(data, p.value);
        if l.None? { return None; }
        dst, len := p.value + 32, l.value;
      }
      ghost var start, plain := dst, Value().(arrayLen := 0);
      var ol := arrayLen;
      arrayLen := 0;
      var es: seq<Json> := [];
      var n := 0;
      while n < len
        invariant 0 <= n && (n <= len || n == 0)
        invariant arrayLen == 0
        invariant DecElems(Value(), data, start, n) == Some((es, dst))
      {
        var e := GetData(data, dst);
        if e.None? {
          arrayLen := ol;
          ElemsStop(plain, data, start, n + 1, len);
          SameElems(plain, Value(), data, start, len);
          return None;
        }
        es := es + [e.value.0];
        dst := e.value.1;
        n := n + 1;
      }
      arrayLen := ol;
      SameElems(plain, Value(), data, start, n);
      if ol == -1 {
        return Some((JArr(es), offset + 32));
      } else {
        return Some((JArr(es), dst));
      }
    }

    /** The switch of get_data. */
    method GetPlain(data: seq<byte>, offset: nat) returns (res: Option<(Json, nat)>)
      requires kind != Int && arrayLen == 0
      ensures res == DecElem(Value(), data, offset)
    {
      if kind == String || kind == Bytes {
        var dst, len := offset, typeLen;
        if typeLen == 0 {
          var p := Word32(data, dst);
          if p.None? || p.value < 0 { return None; }
          var l := Word32(data, p.value);
          if l.None? || l.value < 0 { return None; }
          dst, len := p.value + 32, l.value;
        }
        if dst + len > |data| { return None; }
        var value := if kind == String then JStr(UpToNul(data[dst..dst + len])) else JBytes(data[dst..dst + len]);
        return Some((value, offset + if typeLen != 0 then 32 * WordSize(len) else 32));
      }
      if offset + 32 > |data| { return None; }
      if kind == Address {
        return Some((JBytes(data[offset + 12..offset + 32]), offset + 32));
      }
      var tmp := Trim(data[offset..offset + 32]);
      if kind == Bool {
        return Some((JBool(|tmp| > 1 || (|tmp| == 1 && tmp[0] != 0)), offset + 32));
      }
      return Some((JBytes(tmp), offset + 32));
    }
  }

  /** Decoding an element does not look at the array length. */
  lemma SameElem(a: Var, b: Var, data: seq<byte>)
    requires a.kind == b.kind && a.typeLen == b.typeLen
    ensures forall off: nat :: DecElem(a, data, off) == DecElem(b, data, off)
  {
  }

  lemma {:induction false} SameElems(a: Var, b: Var, data: seq<byte>, off: nat, n: nat)
    requires a.kind == b.kind && a.typeLen == b.typeLen
    ensures DecElems(a, data, off, n) == DecElems(b, data, off, n)
  {
    hide DecElem;
    if n == 0 {
    } else {
      SameElem(a, b, data);
      SameElems(a, b, data, off, n - 1);
    }
  }

  lemma {:induction false} ElemsStop(t: Var, data: seq<byte>, off: nat, m: nat, n: nat)
    requires m <= n && DecElems(t, data, off, m).None?
    ensures DecElems(t, data, off, n).None?
  {
    if m == n {
    } else {
      ElemsStop(t, data, off, m, n - 1);
    }
  }

  lemma {:induction false} TupleStops(ts: seq<Var>, data: seq<byte>, off: nat, m: nat, n: nat)
    requires m <= n <= |ts| && forall i :: 0 <= i < |ts| ==> ts[i].arrayLen >= -1
    requires DecTuple(ts, data, off, m).None?
    ensures DecTuple(ts, data, off, n).None?
  {
    if m == n {
    } else {
      TupleStops(ts, data, off, m, n - 1);
    }
  }

  /** The A_TUPLE branch of get_data. */
  method GetTuple(descs: seq<VarDesc>, ghost ts: seq<Var>, data: seq<byte>) returns (res: Option<(Json, nat)>)
    requires |ts| == |descs| && forall i :: 0 <= i < |ts| ==> descs[i].Value() == ts[i]
    requires forall i :: 0 <= i < |ts| ==> ts[i].kind != Int && ts[i].arrayLen >= -1
    modifies descs
    ensures forall i :: 0 <= i < |ts| ==> descs[i].Value() == ts[i]
    ensures var r := DecTuple(ts, data, 0, |ts|);
            res == if r.None? then None else Some((JArr(r.value.0), r.value.1))
  {
    hide Dec;
    var es: seq<Json>, offset := [], 0;
    for i := 0 to |descs|
      invariant forall k :: 0 <= k < |ts| ==> descs[k].Value() == ts[k]
      invariant DecTuple(ts, data, 0, i) == Some((es, offset))
    {
      var e := descs[i].GetData(data, offset);
      if e.None? {
        TupleStops(ts, data, 0, i + 1, |ts|);
        return None;
      }
      es := es + [e.value.0];
      offset := e.value.1;
    }
    return Some((JArr(es), offset));
  }

  // ----- values that survive the round trip -----------------------------------------------

  /** Numbers, booleans, 20-byte addresses, strings, and bytes, of a fixed size also in the form of an integer token. */
  predicate TypedElem(d: Json, t: Var) {
    match t.kind
    case Uint => (d.JInt? || d.JBytes?) && |ToBytes(d)| <= 32
    case Bool => d.JBool?
    case Address => d.JBytes? && |d.bytes| == 20
    case Bytes => if t.typeLen == 0 then d.JBytes? else (d.JBytes? || d.JInt?) && |ToBytes(d)| == t.typeLen
    case String => d.JStr? && t.typeLen == 0
    case Int => false
  }

  /** A member type whose arrays hold values of a fixed size. */
  predicate InScope(t: Var) {
    t.kind != Int && t.arrayLen >= -1 && (t.arrayLen != 0 ==> !Unsized(t))
  }

  predicate Typed(d: Json, t: Var) {
    && InScope(t) && Elements(d, t)
    && if t.arrayLen == 0 then TypedElem(d, t) else forall i :: 0 <= i < |d.es| ==> TypedElem(d.es[i], t)
  }

  predicate AllTyped(ds: seq<Json>, ts: seq<Var>) {
    |ds| == |ts| && forall i :: 0 <= i < |ts| ==> Typed(ds[i], ts[i])
  }

  lemma TypedFits(d: Json, t: Var)
    requires Typed(d, t)
    ensures Fits(d, t)
  {
  }

  lemma AllTypedFit(ds: seq<Json>, ts: seq<Var>)
    requires AllTyped(ds, ts)
    ensures AllFit(ds, ts)
  {
    forall i | 0 <= i < |ts| ensures Fits(ds[i], ts[i]) { TypedFits(ds[i], ts[i]); }
  }

  /** What decoding returns: numbers as their shortest byte string, strings up to a NUL, bytes as bytes. */
  function NormElem(d: Json, t: Var): Json {
    match t.kind
    case Uint => JBytes(if ToBytes(d) == [] then [0] else Trim(ToBytes(d)))
    case String => if d.JStr? then JStr(UpToNul(d.chars)) else d
    case Bool => d
    case Address => d
    case Bytes => JBytes(ToBytes(d))
    case Int => d
  }

  function NormElems(es: seq<Json>, t: Var, n: nat): (r: seq<Json>)
    requires n <= |es|
    ensures |r| == n
  {
    if n == 0 then [] else NormElems(es, t, n - 1) + [NormElem(es[n - 1], t)]
  }

  function Norm(d: Json, t: Var): Json
    requires Elements(d, t)
  {
    if t.arrayLen == 0 then NormElem(d, t) else JArr(NormElems(d.es, t, |d.es|))
  }

  function NormAll(ds: seq<Json>, ts: seq<Var>, n: nat): (r: seq<Json>)
    requires n <= |ts| && AllTyped(ds, ts)
    ensures |r| == n
  {
    if n == 0 then [] else NormAll(ds, ts, n - 1) + [Norm(ds[n - 1], ts[n - 1])]
  }

  lemma {:induction false} UpToNulIs(s: seq<byte>)
    ensures UpToNul(s) == s <==> 0 !in s
  {
    if s != [] && s[0] != 0 {
      UpToNulIs(s[1..]);
      assert s == [s[0]] + s[1..];
    }
  }

  /** Nothing but leading zeros of numbers is lost, exactly for values without NUL characters. */
  lemma NormKeeps(d: Json, t: Var)
    requires TypedElem(d, t)
    ensures t.kind == Uint ==> ValueOf(NormElem(d, t).bytes) == ValueOf(ToBytes(d))
    ensures t.kind == String ==> (NormElem(d, t) == d <==> 0 !in d.chars)
    ensures t.kind == Bytes ==> NormElem(d, t) == JBytes(ToBytes(d)) && (d.JBytes? ==> NormElem(d, t) == d)
    ensures t.kind == Bool || t.kind == Address ==> NormElem(d, t) == d
  {
    if t.kind == Uint {
      TrimValue(ToBytes(d));
    } else if t.kind == String {
      UpToNulIs(d.chars);
    }
  }

  // ----- the round trip ------------------------------------------------------------------

  lemma WordAt(data: seq<byte>, p: nat, n: nat)
    requires At(data, p, U256(n)) && n < INT_LIMIT
    ensures Word32(data, p) == Some(n)
  {
    assert n < Pow256(4) by { IntFits(); }
    BEExtend(n, 4, 28);
    ValueOfBE(n, 4);
    assert U256(n)[28..] == BE(n, 4);
    assert data[p + 28..p + 32] == data[p..p + 32][28..];
  }

  lemma IntFits()
    ensures INT_LIMIT < Pow256(4)
  {
    assert Pow256(4) == 256 * Pow256(3) && Pow256(3) == 256 * Pow256(2) && Pow256(2) == 256 * Pow256(1);
  }

  /** A pointer to a length, behind which the values start. */
  lemma TargetAt(data: seq<byte>, off: nat, pos: nat, n: nat)
    requires At(data, off, U256(pos)) && At(data, pos, U256(n)) && pos < INT_LIMIT && n < INT_LIMIT
    ensures Target(data, off) == Some((pos + 32, n))
  {
    hide Word32, U256, At;
    WordAt(data, off, pos);
    WordAt(data, pos, n);
  }

  lemma AtParts(data: seq<byte>, p: nat, a: seq<byte>, b: seq<byte>)
    requires At(data, p, a + b)
    ensures At(data, p, a) && At(data, p + |a|, b)
  {
    var s := data[p..p + |a + b|];
    assert s[..|a|] == a && s[|a|..] == b;
    assert data[p..p + |a|] == s[..|a|];
    assert data[p + |a|..p + |a| + |b|] == s[|a|..];
  }

  /** A number or boolean, right-aligned in its word. */
  lemma PaddedNumber(b: seq<byte>)
    requires |b| <= 32
    ensures |PadLeft(b)| == 32
    ensures Trim(PadLeft(b)) == if b == [] then [0] else Trim(b)
  {
    if b == [] {
      TrimAllZeros(WORD);
    } else {
      TrimZeros(Gap(|b|), b);
    }
  }

  /** The word of a number is its bytes, right-aligned. */
  lemma TypedNumber(d: Json, t: Var)
    requires TypedElem(d, t) && !IsPlainBytes(t)
    ensures FitsElem(d, t) && EncElem(d, t) == PadLeft(ToBytes(d))
  {
    hide U256, PadLeft;
    FitsWritten(d, t);
  }

  lemma WordElem(data: seq<byte>, off: nat, d: Json, t: Var)
    requires TypedElem(d, t) && !IsPlainBytes(t) && At(data, off, EncElem(d, t))
    ensures DecElem(t, data, off) == Some((NormElem(d, t), off + |EncElem(d, t)|))
  {
    hide EncElem, PadLeft, Trim;
    var b := ToBytes(d);
    TypedNumber(d, t);
    PaddedNumber(b);
    if t.kind == Address {
      assert data[off + 12..off + 32] == data[off..off + 32][12..];
      PadLeftZeros(b);
      assert PadLeft(b)[12..] == b;
    } else if t.kind == Bool {
      TrimOne(b[0]);
    }
  }

  lemma TrimOne(b: byte)
    ensures Trim([b]) == [b]
  {
  }

  lemma BytesElem(data: seq<byte>, off: nat, d: Json, t: Var)
    requires TypedElem(d, t) && IsPlainBytes(t) && !Unsized(t) && At(data, off, EncElem(d, t))
    ensures DecElem(t, data, off) == Some((NormElem(d, t), off + |EncElem(d, t)|))
  {
    var b := ToBytes(d);
    assert EncElem(d, t) == b + Zeros(Gap(|b|));
    AtParts(data, off, b, Zeros(Gap(|b|)));
  }

  lemma PadRightStarts(data: seq<byte>, p: nat, b: seq<byte>)
    requires At(data, p, PadRight(b))
    ensures p + |b| <= |data| && data[p..p + |b|] == b
  {
    AtParts(data, p, b, Zeros(Gap(|b|)));
  }

  lemma UnsizedElem(data: seq<byte>, off: nat, pos: nat, d: Json, t: Var)
    requires TypedElem(d, t) && Unsized(t)
    requires At(data, off, U256(pos)) && At(data, pos, EncElem(d, t))
    requires pos < INT_LIMIT && |EncElem(d, t)| < INT_LIMIT
    ensures DecElem(t, data, off) == Some((NormElem(d, t), off + 32))
  {
    hide Target, U256, PadRight;
    var b := ToBytes(d);
    AtParts(data, pos, U256(|b|), PadRight(b));
    TargetAt(data, off, pos, |b|);
    PadRightStarts(data, pos + 32, b);
  }

  lemma StaticElem(data: seq<byte>, off: nat, d: Json, t: Var)
    requires TypedElem(d, t) && !Unsized(t) && At(data, off, EncElem(d, t))
    ensures DecElem(t, data, off) == Some((NormElem(d, t), off + |EncElem(d, t)|))
  {
    if IsPlainBytes(t) { BytesElem(data, off, d, t); } else { WordElem(data, off, d, t); }
  }

  lemma {:induction false} ElemsRoundTrip(data: seq<byte>, off: nat, es: seq<Json>, t: Var, n: nat)
    requires n <= |es| && !Unsized(t) && forall i :: 0 <= i < |es| ==> TypedElem(es[i], t)
    requires At(data, off, EncElems(es, t, n))
    ensures DecElems(t, data, off, n) == Some((NormElems(es, t, n), off + |EncElems(es, t, n)|))
  {
    hide EncElem, DecElem, NormElem, TypedElem;
    if n == 0 {
    } else {
      AtParts(data, off, EncElems(es, t, n - 1), EncElem(es[n - 1], t));
      ElemsRoundTrip(data, off, es, t, n - 1);
      StaticElem(data, off + |EncElems(es, t, n - 1)|, es[n - 1], t);
    }
  }

  /** A static member decodes from its own place. */
  lemma StaticRoundTrip(data: seq<byte>, off: nat, d: Json, t: Var)
    requires Typed(d, t) && !IsDynamic(t) && At(data, off, Enc(d, t))
    ensures Dec(t, data, off) == Some((Norm(d, t), off + |Enc(d, t)|))
  {
    hide EncElem, DecElem, NormElem, TypedElem;
    if t.arrayLen == 0 {
      StaticElem(data, off, d, t);
    } else {
      ElemsRoundTrip(data, off, d.es, t, |d.es|);
    }
  }

  /** A dynamic member decodes through the position in its head. */
  lemma DynamicRoundTrip(data: seq<byte>, off: nat, pos: nat, d: Json, t: Var)
    requires Typed(d, t) && IsDynamic(t)
    requires At(data, off, U256(pos)) && At(data, pos, Enc(d, t))
    requires pos < INT_LIMIT && |Enc(d, t)| < INT_LIMIT
    ensures Dec(t, data, off) == Some((Norm(d, t), off + 32))
  {
    hide EncElem, DecElem, NormElem, TypedElem, FitsElem, U256, Target, At;
    if t.arrayLen == 0 {
      UnsizedElem(data, off, pos, d, t);
    } else {
      TypedFits(d, t);
      EncSize(d, t);
      AtParts(data, pos, U256(|d.es|), EncElems(d.es, t, |d.es|));
      TargetAt(data, off, pos, |d.es|);
      ElemsRoundTrip(data, pos + 32, d.es, t, |d.es|);
    }
  }

  lemma MemberRoundTrip(ds: seq<Json>, ts: seq<Var>, i: nat)
    requires AllTyped(ds, ts) && i < |ts|
    requires AllFit(ds, ts) && |EncTuple(ds, ts)| < INT_LIMIT
    ensures var ps := PartsOf(ds, ts);
            Dec(ts[i], EncTuple(ds, ts), |Heads(ps, i)|) == Some((Norm(ds[i], ts[i]), |Heads(ps, i + 1)|))
  {
    hide Enc, Dec, Norm, Typed, Fits, U256, Heads, Tails, HeadTotal;
    var ps := PartsOf(ds, ts);
    var data := EncTuple(ds, ts);
    PartIs(ds, ts, i);
    PartRoom(ps, i);
    LayoutHeadAt(ps, i);
    if IsDynamic(ts[i]) {
      LayoutTailAt(ps, i);
      DynamicRoundTrip(data, |Heads(ps, i)|, HeadTotal(ps, |ps|) + |Tails(ps, i)|, ds[i], ts[i]);
    } else {
      StaticRoundTrip(data, |Heads(ps, i)|, ds[i], ts[i]);
    }
  }

  lemma {:induction false} MembersRoundTrip(ds: seq<Json>, ts: seq<Var>, n: nat)
    requires AllTyped(ds, ts) && n <= |ts|
    requires AllFit(ds, ts) && |EncTuple(ds, ts)| < INT_LIMIT
    ensures DecTuple(ts, EncTuple(ds, ts), 0, n) == Some((NormAll(ds, ts, n), |Heads(PartsOf(ds, ts), n)|))
  {
    hide Dec, Norm, EncTuple, PartsOf, AllTyped, AllFit;
    if n == 0 {
    } else {
      MembersRoundTrip(ds, ts, n - 1);
      MemberRoundTrip(ds, ts, n - 1);
    }
  }

  /** Decoding an encoded argument tuple returns its values. */
  lemma RoundTrip(ds: seq<Json>, ts: seq<Var>)
    requires AllTyped(ds, ts)
    requires AllFit(ds, ts) ==> |EncTuple(ds, ts)| < INT_LIMIT
    ensures AllFit(ds, ts)
    ensures DecTuple(ts, EncTuple(ds, ts), 0, |ts|) == Some((NormAll(ds, ts, |ts|), HeadSizes(ts, |ts|)))
  {
    AllTypedFit(ds, ts);
    MembersRoundTrip(ds, ts, |ts|);
    HeadsSize(PartsOf(ds, ts), |ts|);
    HeadSizesAre(ds, ts, |ts|);
  }

  /** req_parse_result: nothing, the single value, or an array of all values. */
  method ParseResult(descs: seq<VarDesc>, ghost ts: seq<Var>, data: seq<byte>) returns (res: Option<Json>)
    requires |ts| == |descs| && forall i :: 0 <= i < |ts| ==> descs[i].Value() == ts[i]
    requires forall i :: 0 <= i < |ts| ==> ts[i].kind != Int && ts[i].arrayLen >= -1
    modifies descs
    ensures forall i :: 0 <= i < |ts| ==> descs[i].Value() == ts[i]
    ensures res == Parsed(ts, data)
  {
    if |descs| == 0 { return Some(JNull); }
    if |descs| == 1 {
      var r := descs[0].GetData(data, 0);
      return if r.None? then None else Some(r.value.0);
    }
    var r := GetTuple(descs, ts, data);
    return if r.None? then None else Some(r.value.0);
  }

  function Parsed(ts: seq<Var>, data: seq<byte>): Option<Json>
    requires forall i :: 0 <= i < |ts| ==> ts[i].arrayLen >= -1
  {
    if |ts| == 0 then Some(JNull)
    else if |ts| == 1 then
      var r := Dec(ts[0], data, 0);
      if r.None? then None else Some(r.value.0)
    else
      var r := DecTuple(ts, data, 0, |ts|);
      if r.None? then None else Some(JArr(r.value.0))
  }

  /** Results encoded by the same rules come back, a single one without its array. */
  lemma ResultRoundTrip(ds: seq<Json>, ts: seq<Var>)
    requires AllTyped(ds, ts) && ts != []
    requires AllFit(ds, ts) ==> |EncTuple(ds, ts)| < INT_LIMIT
    ensures AllFit(ds, ts)
    ensures Parsed(ts, EncTuple(ds, ts)) == Some(if |ts| == 1 then Norm(ds[0], ts[0]) else JArr(NormAll(ds, ts, |ts|)))
  {
    hide Dec, Norm;
    RoundTrip(ds, ts);
    MemberRoundTrip(ds, ts, 0);
  }
}
