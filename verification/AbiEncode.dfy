/** The in-place ABI encoder. */
module AbiEncode {
  import opened Wrappers
  import opened Bytes
  import opened TwosComplement
  import opened AbiLayout
  import opened AbiTypes
  import opened AbiExact

  lemma PutInside(a: seq<byte>, g: seq<byte>, c: seq<byte>, x: seq<byte>)
    requires |x| <= |g|
    ensures Put(a + g + c, |a|, x) == a + x + g[|x|..] + c
  {
    var buf := a + g + c;
    assert buf[..|a|] == a;
    if |a| + |x| < |buf| {
      assert buf[|a| + |x|..] == g[|x|..] + c;
    } else {
      assert g[|x|..] + c == [];
    }
  }

  lemma PutTwice(buf: seq<byte>, p: nat, x: seq<byte>, y: seq<byte>)
    requires p <= |buf|
    ensures p + |x| <= |Put(buf, p, x)|
    ensures Put(Put(buf, p, x), p + |x|, y) == Put(buf, p, x + y)
  {
    var once := Put(buf, p, x);
    assert once[..p + |x|] == buf[..p] + x;
    assert buf[..p] + (x + y) == buf[..p] + x + y;
    if p + |x| + |y| < |buf| {
      assert once[p + |x| + |y|..] == buf[p + |x| + |y|..];
    }
  }

  lemma PutNothing(buf: seq<byte>, p: nat)
    requires p <= |buf|
    ensures Put(buf, p, []) == buf
  {
  }

  lemma PutAtEnd(buf: seq<byte>, x: seq<byte>)
    ensures Put(buf, |buf|, x) == buf + x
  {
    assert buf[..|buf|] == buf;
  }

  lemma WordOfUint32(n: nat)
    requires n < INT_LIMIT
    ensures Zeros(28) + BE(n, 4) == U256(n)
  {
    assert Pow256(4) == 256 * Pow256(3) && Pow256(3) == 256 * Pow256(2) && Pow256(2) == 256 * Pow256(1);
    BEExtend(n, 4, 28);
  }

  /** Memory a growing buffer exposes; nothing is known about its content. */
  method Uninitialised(n: nat) returns (s: seq<byte>)
    ensures |s| == n
  {
    s := Zeros(n);
  }

  /** strtoull in base 10 */
  method StrToUll(s: seq<byte>) returns (n: nat)
    ensures n == Strtoull(s)
  {
    var i := 0;
    while i < |s| && Space(s[i])
      invariant i <= |s| && SkipSpace(s[i..]) == SkipSpace(s)
    {
      assert s[i..][1..] == s[i + 1..];
      i := i + 1;
    }
    var t := s[i..];
    var negative := Signed(t);
    if t != [] && (t[0] == MINUS || t[0] == PLUS) { t := t[1..]; }
    var overflow := false;
    n, overflow := ReadDigits(t);
    if overflow { return TWO_64 - 1; }
    if negative && n > 0 { n := TWO_64 - n; }
  }

  /** The digits at the front of t, as far as they fit in 64 bits. */
  method ReadDigits(t: seq<byte>) returns (n: nat, overflow: bool)
    ensures Decimal(DigitsOf(t)).Some? && overflow == (Decimal(DigitsOf(t)).value >= TWO_64)
    ensures !overflow ==> n == Decimal(DigitsOf(t)).value
  {
    hide DigitsOf, Decimal;
    ghost var digits := DigitsOf(t);
    DigitsHaveValue(digits);
    DigitsEnd(t);
    NoDigits();
    n, overflow := 0, false;
    var k := 0;
    while k < |t| && Digit(t[k])
      invariant k <= |digits| && Decimal(digits[..k]).Some?
      invariant overflow == (Decimal(digits[..k]).value >= TWO_64)
      invariant !overflow ==> n == Decimal(digits[..k]).value
    {
      DecimalNext(digits, k);
      if !overflow {
        n := 10 * n + (t[k] - ZERO);
        overflow := n >= TWO_64;
      }
      k := k + 1;
    }
    assert digits[..k] == digits;
  }

  lemma NoDigits()
    ensures Decimal([]) == Some(0)
  {
  }

  lemma DecimalNext(s: seq<byte>, k: nat)
    requires k < |s| && Digit(s[k]) && Decimal(s[..k]).Some?
    ensures Decimal(s[..k + 1]) == Some(10 * Decimal(s[..k]).value + (s[k] - ZERO))
  {
    assert s[..k + 1][..k] == s[..k];
  }

  /** The digits at the front end where the first other character is. */
  lemma {:induction false} DigitsEnd(t: seq<byte>)
    ensures |DigitsOf(t)| < |t| ==> !Digit(t[|DigitsOf(t)|])
  {
    if t == [] || !Digit(t[0]) {
    } else {
      DigitsEnd(t[1..]);
    }
  }

  /** call_request_t, as far as encoding goes. */
  class CallRequest {
    var data: seq<byte>
    var error: bool
    /** How many bytes have been stored into the buffer. */
    ghost var written: nat

    constructor (selector: seq<byte>)
      ensures data == selector && !error && written == 0
    {
      data, error, written := selector, false, 0;
    }

    /** check_buffer */
    method CheckBuffer(pos: nat)
      modifies this`data
      ensures |data| == if pos > |old(data)| then pos else |old(data)|
      ensures data[..|old(data)|] == old(data)
    {
      if pos > |data| {
        var more := Uninitialised(pos - |data|);
        data := data + more;
      }
    }

    /** memset / memcpy into reserved space. */
    method Store(p: nat, b: seq<byte>)
      requires p + |b| <= |data|
      modifies this`data, this`written
      ensures data == Put(old(data), p, b) && written == old(written) + |b|
    {
      data := data[..p] + b + data[p + |b|..];
      written := written + |b|;
    }

    lemma ReservedPut(before: seq<byte>, p: nat, b: seq<byte>, after: seq<byte>)
      requires p <= |before| && |after| == if p + |b| > |before| then p + |b| else |before|
      requires after[..|before|] == before
      ensures Put(after, p, b) == Put(before, p, b)
    {
      assert after[..p] == after[..|before|][..p];
      if p + |b| < |before| {
        assert after == before;
      }
    }

    /** write_uint256 */
    method WriteUint256(p: nat, val: nat) returns (r: nat)
      requires p <= |data| && val < INT_LIMIT
      modifies this`data, this`written
      ensures r == 32 && data == Put(old(data), p, U256(val)) && written == old(written) + 32
    {
      CheckBuffer(p + 32);
      ghost var reserved := data;
      WordOfUint32(val);
      Store(p, Zeros(28));
      Store(p + 28, BE(val, 4));
      PutTwice(reserved, p, Zeros(28), BE(val, 4));
      ReservedPut(old(data), p, U256(val), reserved);
      return 32;
    }

    /** write_right */
    method WriteRight(p: nat, b: seq<byte>) returns (r: nat)
      requires p <= |data|
      modifies this`data, this`written
      ensures r == |PadLeft(b)| && data == Put(old(data), p, PadLeft(b)) && written == old(written) + r
    {
      var l := WordSize(|b|) * 32;
      if l == 0 { l := 32; }
      CheckBuffer(p + l);
      ghost var reserved := data;
      Store(p, Zeros(l - |b|));
      Store(p + (l - |b|), b);
      PutTwice(reserved, p, Zeros(l - |b|), b);
      assert PadLeft(b) == Zeros(l - |b|) + b;
      ReservedPut(old(data), p, PadLeft(b), reserved);
      return l;
    }

    /** write_left */
    method WriteLeft(p: nat, b: seq<byte>) returns (r: nat)
      requires p <= |data|
      modifies this`data, this`written
      ensures r == |PadRight(b)| && data == Put(old(data), p, PadRight(b)) && written == old(written) + r
    {
      var l := WordSize(|b|) * 32;
      CheckBuffer(p + l);
      ghost var reserved := data;
      Store(p, b);
      Store(p + |b|, Zeros(l - |b|));
      PutTwice(reserved, p, b, Zeros(l - |b|));
      ReservedPut(old(data), p, PadRight(b), reserved);
      return l;
    }

    /** bs_from_ull, twos_complement: the 32 bytes of -n. */
    method ComplementOf(n: nat) returns (b: seq<byte>)
      requires n < TWO_64
      ensures b == U256(MinusMod256(n)) && PadLeft(b) == b
    {
      WordPowers();
      var bs := FromUll(n);
      ComplementInPlace(bs);
      b := bs[..];
      assert Zeros(Gap(|b|)) + b == b;
    }

    /** The A_INT branch: the bytes to write, or None for a token an int cannot take. */
    method IntBytes(d: Json) returns (b: Option<seq<byte>>)
      ensures b == IntToken(d)
    {
      hide Strtoull, U256;
      match d {
        case JStr(s) =>
          var n := 0;
          if s != [] { n := StrToUll(s[1..]); }
          var complement := ComplementOf(n);
          if s != [] && s[0] == MINUS {
            b := Some(complement);
          } else {
            b := Some(s);
          }
        case JInt(_) => b := Some(ToBytes(d));
        case JBytes(_) => b := Some(ToBytes(d));
        case _ => b := None;
      }
    }

    /** One turn of the element loop of encode, for any token: the new position, or -1. */
    method EncodeElem(d: Json, t: Var, p: nat) returns (r: int)
      requires p <= |data|
      requires Unsized(t) ==> DLen(d) < INT_LIMIT
      modifies this
      ensures p <= |data| && (r == -1 || 0 <= r <= |data|)
      ensures Written(d, t).None? ==> r == -1 && error && data == old(data)
      ensures Written(d, t).Some? ==>
                && r == p + |Written(d, t).value| && data == Put(old(data), p, Written(d, t).value)
                && error == old(error) && written == old(written) + |Written(d, t).value|
    {
      hide IntToken;
      if t.kind == Int {
        var b := IntBytes(d);
        if b.None? {
          error := true;
          return -1;
        }
        var l := WriteRight(p, b.value);
        r := p + l;
      } else if t.kind == Address || t.kind == Uint || t.kind == Bool {
        var l := WriteRight(p, ToBytes(d));
        r := p + l;
      } else {
        r := p;
        ghost var before := data;
        if t.typeLen == 0 {
          var l := WriteUint256(r, DLen(d));
          r := r + l;
          PutTwice(before, p, U256(DLen(d)), PadRight(ToBytes(d)));
        } else {
          assert [] + PadRight(ToBytes(d)) == PadRight(ToBytes(d));
        }
        var l := WriteLeft(r, ToBytes(d));
        r := r + l;
      }
    }

    /** encode for a member; a dynamic member with a tail position leaves its offset at headPos. */
    method Encode(d: Json, t: Var, headPos: nat, tailPos: int) returns (r: int)
      requires Fits(d, t) && headPos <= |data|
      requires IsDynamic(t) && tailPos > headPos ==> tailPos == |data| && headPos + 32 <= |data| && headPos >= 4
      requires |Enc(d, t)| < INT_LIMIT && tailPos < INT_LIMIT
      modifies this
      ensures error == old(error)
      ensures if IsDynamic(t) && tailPos > headPos
              then && r == headPos + 32 && data == Put(old(data), headPos, U256(tailPos - 4)) + Enc(d, t)
                   && written == old(written) + 32 + |Enc(d, t)|
              else && r == headPos + |Enc(d, t)| && data == Put(old(data), headPos, Enc(d, t))
                   && written == old(written) + |Enc(d, t)|
      decreases if IsDynamic(t) && tailPos > headPos then 1 else 0
    {
      hide EncElem, FitsElem, EncElems, Written;
      if IsDynamic(t) && tailPos > headPos {
        var l := WriteUint256(headPos, tailPos - 4);
        ghost var before := data;
        r := Encode(d, t, tailPos, -1);
        PutAtEnd(before, Enc(d, t));
        return headPos + 32;
      }
      EncSize(d, t);
      if t.arrayLen == 0 {
        FitsWritten(d, t);
        r := EncodeElem(d, t, headPos);
      } else {
        r := EncodeArray(d, t, headPos);
      }
    }

    /** The array part of encode: the length of a T[], then the elements one after the other. */
    method EncodeArray(d: Json, t: Var, headPos: nat) returns (r: int)
      requires Fits(d, t) && t.arrayLen != 0 && headPos <= |data|
      requires DLen(d) < INT_LIMIT
      modifies this
      ensures error == old(error)
      ensures r == headPos + |Enc(d, t)| && data == Put(old(data), headPos, Enc(d, t))
              && written == old(written) + |Enc(d, t)|
    {
      hide EncElem, FitsElem, Written;
      var arrayLen := t.arrayLen;
      r := headPos;
      ghost var prefix: seq<byte> := [];
      PutNothing(data, headPos);
      if arrayLen < 0 {
        arrayLen := DLen(d);
        var l := WriteUint256(r, arrayLen);
        r := r + l;
        prefix := U256(arrayLen);
      }
      ArrayDone(prefix, d.es, t, arrayLen);
      if arrayLen == 0 { return; }
      ArrayDone(prefix, d.es, t, 0);
      for i := 0 to arrayLen
        invariant r == headPos + |ArrayBytes(prefix, d.es, t, i)| && r <= |data|
        invariant data == Put(old(data), headPos, ArrayBytes(prefix, d.es, t, i))
        invariant written == old(written) + |ArrayBytes(prefix, d.es, t, i)| && error == old(error)
      {
        ArrayStored(old(data), headPos, prefix, d.es, t, i);
        FitsWritten(d.es[i], t);
        r := EncodeElem(d.es[i], t, r);
      }
    }

    /** encode for the argument tuple, whose heads start at the end of the selector. */
    method EncodeTuple(d: Json, ts: seq<Var>, headPos: nat) returns (r: int)
      requires headPos == |data| == 4
      requires d.JArr? && |d.es| == |ts| ==> AllFit(d.es, ts) && 4 + |EncTuple(d.es, ts)| < INT_LIMIT
      modifies this
      ensures d.JArr? && |d.es| == |ts| ==>
                && r == 4 + HeadSizes(ts, |ts|) && error == old(error)
                && data == old(data) + EncTuple(d.es, ts)
                && written == old(written) + |EncTuple(d.es, ts)|
      ensures !(d.JArr? && |d.es| == |ts|) ==> r == -1 && error
    {
      hide Enc, Fits, HeadSize, Head, Heads, Tails, HeadTotal, Layout, HeadSizes, PartsOf;
      var tailStart := headPos + HeadSizes(ts, |ts|);
      CheckBuffer(tailStart);
      if |ts| != DLen(d) || !d.JArr? {
        error := true;
        return -1;
      }
      r := headPos;
      ghost var selector, ps := old(data), PartsOf(d.es, ts);
      ghost var gap := data[4..];
      HeadSizesAre(d.es, ts, |ts|);
      TupleStart(selector, ps, gap);
      for n := 0 to |ts|
        invariant r == 4 + |Heads(ps, n)| && |Heads(ps, n)| + |gap| == HeadTotal(ps, |ps|)
        invariant data == selector + Heads(ps, n) + gap + Tails(ps, n)
        invariant written == old(written) + |Heads(ps, n)| + |Tails(ps, n)| && error == old(error)
      {
        MemberRoom(d.es, ts, n);
        r := EncodeMember(d.es, ts, n, r, tailStart, selector, gap);
        gap := gap[HeadBytes(ps[n])..];
      }
      TupleEnd(selector, ps, gap);
    }

    /** One turn of the member loop: head n goes into the reserved room, a dynamic value to the end. */
    method EncodeMember(es: seq<Json>, ts: seq<Var>, n: nat, headPos: nat, tailStart: nat,
                        ghost selector: seq<byte>, ghost gap: seq<byte>)
      returns (r: nat)
      requires AllFit(es, ts) && n < |ts| && 4 + |EncTuple(es, ts)| < INT_LIMIT && |selector| == 4
      requires headPos == 4 + |Heads(PartsOf(es, ts), n)| && tailStart == 4 + HeadTotal(PartsOf(es, ts), |ts|)
      requires HeadBytes(PartsOf(es, ts)[n]) <= |gap| && headPos + |gap| == tailStart
      requires data == selector + Heads(PartsOf(es, ts), n) + gap + Tails(PartsOf(es, ts), n)
      modifies this
      ensures var ps := PartsOf(es, ts);
              && r == headPos + HeadBytes(ps[n]) && error == old(error)
              && data == selector + Heads(ps, n + 1) + gap[HeadBytes(ps[n])..] + Tails(ps, n + 1)
              && written == old(written) + HeadBytes(ps[n]) + if ps[n].dynamic then |ps[n].body| else 0
    {
      hide Enc, Fits, HeadSize, Head, Heads, Tails, HeadTotal, Layout, PartsOf, EncTuple;
      MemberRoom(es, ts, n);
      MemberStored(selector, PartsOf(es, ts), gap, n);
      r := Encode(es[n], ts[n], headPos, if |data| > tailStart then |data| else tailStart);
    }
  }

  /** What the array loop has stored after n elements. */
  function ArrayBytes(prefix: seq<byte>, es: seq<Json>, t: Var, n: nat): seq<byte>
    requires n <= |es|
  {
    prefix + EncElems(es, t, n)
  }

  lemma ArrayDone(prefix: seq<byte>, es: seq<Json>, t: Var, n: nat)
    requires n <= |es|
    ensures n == 0 ==> ArrayBytes(prefix, es, t, n) == prefix
    ensures n == |es| && t.arrayLen > 0 && n == t.arrayLen && prefix == []
            ==> ArrayBytes(prefix, es, t, n) == Enc(JArr(es), t)
    ensures n == |es| && t.arrayLen < 0 && prefix == U256(n) ==> ArrayBytes(prefix, es, t, n) == Enc(JArr(es), t)
  {
  }

  lemma ArrayStored(buf: seq<byte>, p: nat, prefix: seq<byte>, es: seq<Json>, t: Var, n: nat)
    requires n < |es| && p <= |buf|
    ensures var done, x := ArrayBytes(prefix, es, t, n), EncElem(es[n], t);
            && ArrayBytes(prefix, es, t, n + 1) == done + x
            && Put(Put(buf, p, done), p + |done|, x) == Put(buf, p, done + x)
  {
    hide EncElem;
    PutTwice(buf, p, ArrayBytes(prefix, es, t, n), EncElem(es[n], t));
  }

  /** What encode needs to know about member n: its head, and the room for it. */
  lemma MemberRoom(ds: seq<Json>, ts: seq<Var>, n: nat)
    requires AllFit(ds, ts) && n < |ts|
    ensures var ps := PartsOf(ds, ts);
            && Fits(ds[n], ts[n])
            && ps[n] == Part(IsDynamic(ts[n]), Enc(ds[n], ts[n]))
            && |Enc(ds[n], ts[n])| <= |EncTuple(ds, ts)|
            && |Heads(ps, n)| + HeadBytes(ps[n]) <= HeadTotal(ps, |ps|) == HeadSizes(ts, |ts|)
            && HeadTotal(ps, |ps|) + |Tails(ps, n)| + (if IsDynamic(ts[n]) then |Enc(ds[n], ts[n])| else 0)
               <= |EncTuple(ds, ts)|
            && |Heads(ps, n + 1)| == |Heads(ps, n)| + HeadBytes(ps[n])
            && |Tails(ps, n + 1)| == |Tails(ps, n)| + (if ps[n].dynamic then |ps[n].body| else 0)
            && Head(ps, n)
               == (if IsDynamic(ts[n]) then U256(HeadTotal(ps, |ps|) + |Tails(ps, n)|) else Enc(ds[n], ts[n]))
            && (IsDynamic(ts[n]) || HeadSize(ts[n]) > 0 ==> HeadTotal(ps, |ps|) > |Heads(ps, n)|)
  {
    hide Enc, Fits, HeadSize, PartsOf, HeadSizes;
    PartIs(ds, ts, n);
    PartRoom(PartsOf(ds, ts), n);
    HeadSizesAre(ds, ts, |ts|);
  }

  lemma TupleStart(selector: seq<byte>, ps: seq<Part>, gap: seq<byte>)
    ensures selector + gap == selector + Heads(ps, 0) + gap + Tails(ps, 0)
    ensures |Heads(ps, 0)| == 0 && |Tails(ps, 0)| == 0
  {
  }

  lemma TupleEnd(selector: seq<byte>, ps: seq<Part>, gap: seq<byte>)
    requires |Heads(ps, |ps|)| + |gap| == HeadTotal(ps, |ps|)
    ensures selector + Heads(ps, |ps|) + gap + Tails(ps, |ps|) == selector + Layout(ps)
    ensures |Layout(ps)| == |Heads(ps, |ps|)| + |Tails(ps, |ps|)| && |Heads(ps, |ps|)| == HeadTotal(ps, |ps|)
  {
    hide Heads, Tails;
    HeadsSize(ps, |ps|);
    assert gap == [];
  }

  /** Storing one member turns the buffer for n members into the buffer for n + 1. */
  lemma MemberStored(selector: seq<byte>, ps: seq<Part>, gap: seq<byte>, n: nat)
    requires n < |ps| && HeadBytes(ps[n]) <= |gap|
    ensures var buf := selector + Heads(ps, n) + gap + Tails(ps, n);
            var p := |selector| + |Heads(ps, n)|;
            Put(buf, p, Head(ps, n)) + (if ps[n].dynamic then ps[n].body else [])
            == selector + Heads(ps, n + 1) + gap[HeadBytes(ps[n])..] + Tails(ps, n + 1)
  {
    var a, c, h := selector + Heads(ps, n), Tails(ps, n), Head(ps, n);
    var b := if ps[n].dynamic then ps[n].body else [];
    PutInside(a, gap, c, h);
    assert Heads(ps, n + 1) == Heads(ps, n) + h && Tails(ps, n + 1) == c + b;
    Regroup(selector, Heads(ps, n), h, gap[|h|..], c, b);
  }

  lemma Regroup(s: seq<byte>, a: seq<byte>, h: seq<byte>, g: seq<byte>, c: seq<byte>, b: seq<byte>)
    ensures s + a + h + g + c + b == s + (a + h) + g + (c + b)
  {
  }
}
