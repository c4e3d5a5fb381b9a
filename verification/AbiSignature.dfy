/** Parsing the argument list of a function signature. */
module AbiSignature {
  import opened Wrappers
  import opened AbiTypes

  /** A token of the parsed list: the tuple itself, counting its members, or one member. */
  datatype Token = TupleToken(typeLen: nat, arrayLen: int) | Member(v: Var)

  // ----- numbers ------------------------------------------------------------------------

  predicate IsDigit(c: char) { '0' <= c <= '9' }

  predicate Blank(c: char) { c == ' ' || '\t' <= c <= '\r' }

  /** The value of the digits at the front of s. */
  function Digits(s: string, acc: nat): nat {
    if s == "" || !IsDigit(s[0]) then acc else Digits(s[1..], 10 * acc + (s[0] - '0') as nat)
  }

  /** atoi; what does not fit in an int keeps its low 32 bits. */
  function Atoi(s: string): int {
    if s != "" && Blank(s[0]) then Atoi(s[1..])
    else if s != "" && s[0] == '-' then ToInt(0 - Digits(s[1..], 0))
    else if s != "" && s[0] == '+' then ToInt(Digits(s[1..], 0))
    else ToInt(Digits(s, 0))
  }

  /** Decimal notation. */
  function Print(n: nat): (s: string)
    ensures s != "" && forall c :: c in s ==> IsDigit(c)
  {
    if n < 10 then [(n as char) + '0'] else Print(n / 10) + [((n % 10) as char) + '0']
  }

  lemma {:induction false} DigitsAppend(a: string, b: string, acc: nat)
    requires forall c :: c in a ==> IsDigit(c)
    ensures Digits(a + b, acc) == Digits(b, Digits(a, acc))
    decreases |a|
  {
    if a == "" {
      assert a + b == b;
    } else {
      assert (a + b)[1..] == a[1..] + b;
      assert a[0] in a;
      DigitsAppend(a[1..], b, 10 * acc + (a[0] - '0') as nat);
    }
  }

  lemma {:induction false} DigitsOfPrint(n: nat)
    ensures Digits(Print(n), 0) == n
  {
    if n < 10 {
      assert Print(n)[1..] == "";
    } else {
      DigitsOfPrint(n / 10);
      var last := [((n % 10) as char) + '0'];
      DigitsAppend(Print(n / 10), last, 0);
      assert last[1..] == "";
    }
  }

  lemma AtoiOfPrint(n: nat)
    ensures Atoi(Print(n)) == n <==> n < INT_LIMIT
  {
    DigitsOfPrint(n);
    assert IsDigit(Print(n)[0]);
  }

  /** atoi skips white space, takes one sign, and stops behind the digits. */
  lemma {:induction false} AtoiOfSigned(blanks: string, sign: string, n: nat, rest: string)
    requires forall c :: c in blanks ==> c as int in {9, 10, 11, 12, 13, 32}
    requires sign in ["", "+", "-"] && (rest == "" || !IsDigit(rest[0]))
    ensures Atoi(blanks + sign + Print(n) + rest) == ToInt(if sign == "-" then 0 - n else n)
    decreases |blanks|
  {
    hide Digits, Print, ToInt;
    var s := blanks + sign + Print(n) + rest;
    if blanks == "" {
      assert s == sign + (Print(n) + rest);
      assert sign != "" ==> s[1..] == Print(n) + rest;
      assert sign == "" ==> s == Print(n) + rest;
      assert IsDigit(Print(n)[0]) by { assert Print(n)[0] in Print(n); }
      DigitsOfPrint(n);
      DigitsAppend(Print(n), rest, 0);
      DigitsStop(rest, n);
    } else {
      assert blanks[0] in blanks && forall c :: c in blanks[1..] ==> c in blanks;
      assert s[1..] == blanks[1..] + sign + Print(n) + rest;
      AtoiOfSigned(blanks[1..], sign, n, rest);
    }
  }

  lemma DigitsStop(rest: string, n: nat)
    requires rest == "" || !IsDigit(rest[0])
    ensures Digits(rest, n) == n
  {
  }

  // ----- one type name -----------------------------------------------------------------

  /** Searches backwards from p for '[', never looking at the first character. */
  function LastBracket(name: string, p: int): (r: int)
    requires p < |name|
    ensures r == -1 || (0 < r <= p && name[r] == '[')
    decreases p
  {
    if p <= 0 then -1 else if name[p] == '[' then p else LastBracket(name, p - 1)
  }

  predicate StartsWith(s: string, prefix: string) { prefix <= s }

  /** The element type named by `name`, with its byte length as stored in a uint8_t. */
  function Base(name: string): Option<(Kind, int)> {
    if name == "address" then Some((Address, 20))
    else if StartsWith(name, "uint") then Some((Uint, if |name| == 4 then 32 else Truncated(Atoi(name[4..]), 8)))
    else if StartsWith(name, "int") then Some((Int, if |name| == 3 then 32 else Truncated(Atoi(name[3..]), 8)))
    else if name == "bool" then Some((Bool, 1))
    else if StartsWith(name, "bytes") then Some((Bytes, if |name| > 5 then Atoi(name[5..]) else 0))
    else if name == "string" then Some((String, 0))
    else None
  }

  /** Division rounding toward zero. */
  function Truncated(a: int, b: nat): int
    requires b > 0
  {
    if a < 0 then -((-a) / b) else a / b
  }

  /** The name without its array suffix, and the array length it stands for; None without an opening bracket. */
  function ArraySuffix(name: string): Option<(string, int)>
    requires name != ""
  {
    if name[|name| - 1] != ']' then Some((name, 0))
    else
      var p := LastBracket(name, |name| - 2);
      if p == -1 then None
      else Some((name[..p], if p + 1 == |name| - 1 then -1 else Atoi(name[p + 1..|name| - 1])))
  }

  /**
   * add_token on a non-empty name; None is the failure return. Names of 50 characters and more do not fit the buffer.
   */
  function TokenOf(name: string): Option<Var>
    requires name != ""
  {
    if |name| >= 50 then None
    else
      var a := ArraySuffix(name);
      if a.None? then None
      else
        var b := Base(a.value.0);
        if b.None? then None else Some(Var(b.value.0, b.value.1 % 256, a.value.1))
  }

  // ----- canonical names -----------------------------------------------------------------

  predicate Canonical(v: Var) {
    && -1 <= v.arrayLen < INT_LIMIT
    && match v.kind
       case Uint => 1 <= v.typeLen <= 32
       case Int => 1 <= v.typeLen <= 32
       case Bool => v.typeLen == 1
       case Address => v.typeLen == 20
       case Bytes => v.typeLen <= 32
       case String => v.typeLen == 0
  }

  function BaseName(v: Var): string {
    match v.kind
    case Uint => "uint" + Print(8 * v.typeLen)
    case Int => "int" + Print(8 * v.typeLen)
    case Bool => "bool"
    case Address => "address"
    case Bytes => "bytes" + if v.typeLen == 0 then "" else Print(v.typeLen)
    case String => "string"
  }

  function Suffix(v: Var): string {
    if v.arrayLen == 0 then "" else if v.arrayLen < 0 then "[]" else "[" + Print(v.arrayLen) + "]"
  }

  function Name(v: Var): string { BaseName(v) + Suffix(v) }

  predicate NameChar(c: char) { IsDigit(c) || 'a' <= c <= 'z' || c == '[' || c == ']' }

  predicate Letters(s: string) { forall c :: c in s ==> IsDigit(c) || 'a' <= c <= 'z' }

  lemma BaseNameChars(v: Var)
    ensures BaseName(v) != "" && Letters(BaseName(v))
  {
  }

  lemma NameChars(v: Var)
    ensures Name(v) != "" && forall c :: c in Name(v) ==> NameChar(c)
  {
    BaseNameChars(v);
  }

  lemma BaseOfName(v: Var)
    requires Canonical(v)
    ensures Base(BaseName(v)) == Some((v.kind, v.typeLen))
  {
    match v.kind {
      case Uint =>
        AtoiOfPrint(8 * v.typeLen);
        assert BaseName(v)[4..] == Print(8 * v.typeLen);
        assert BaseName(v)[0] == 'u';
      case Int =>
        AtoiOfPrint(8 * v.typeLen);
        assert BaseName(v)[3..] == Print(8 * v.typeLen);
        assert BaseName(v)[0] == 'i';
      case Bytes =>
        assert BaseName(v)[..5] == "bytes";
        assert BaseName(v)[1] == 'y';
        if v.typeLen > 0 {
          AtoiOfPrint(v.typeLen);
          assert BaseName(v)[5..] == Print(v.typeLen);
        }
      case Bool => assert BaseName(v)[0] == 'b';
      case Address => assert BaseName(v)[0] == 'a';
      case String => assert BaseName(v)[0] == 's';
    }
  }

  lemma {:induction false} LastBracketIs(name: string, p: int, q: int)
    requires 0 < q <= p < |name| && name[q] == '['
    requires forall i :: q < i <= p ==> name[i] != '['
    ensures LastBracket(name, p) == q
    decreases p
  {
    if q == p {
    } else {
      LastBracketIs(name, p - 1, q);
    }
  }

  lemma BracketOfName(base: string, inner: string)
    requires base != "" && forall c :: c in inner ==> IsDigit(c)
    ensures var name := base + "[" + inner + "]";
            name[|name| - 1] == ']' && LastBracket(name, |name| - 2) == |base| &&
            name[..|base|] == base && name[|base| + 1..|name| - 1] == inner
  {
    var name := base + "[" + inner + "]";
    forall i | |base| < i <= |name| - 2 ensures name[i] != '[' {
      assert name[i] == inner[i - |base| - 1];
      assert inner[i - |base| - 1] in inner;
    }
    LastBracketIs(name, |name| - 2, |base|);
  }

  lemma PlainSuffix(base: string)
    requires base != "" && Letters(base)
    ensures ArraySuffix(base) == Some((base, 0))
  {
    assert base[|base| - 1] in base;
  }

  lemma BracketSuffix(base: string, inner: string)
    requires base != "" && forall c :: c in inner ==> IsDigit(c)
    ensures ArraySuffix(base + "[" + inner + "]") == Some((base, if inner == "" then -1 else Atoi(inner)))
  {
    hide Atoi, LastBracket;
    BracketOfName(base, inner);
  }

  lemma NameShape(v: Var)
    requires Canonical(v)
    ensures v.arrayLen == 0 ==> Name(v) == BaseName(v)
    ensures v.arrayLen == -1 ==> Name(v) == BaseName(v) + "[" + "" + "]"
    ensures v.arrayLen > 0 ==> Name(v) == BaseName(v) + "[" + Print(v.arrayLen) + "]"
    ensures -1 <= v.arrayLen < INT_LIMIT
  {
    hide BaseName, Print;
  }

  lemma SuffixOfName(v: Var)
    requires Canonical(v)
    ensures ArraySuffix(Name(v)) == Some((BaseName(v), v.arrayLen))
  {
    hide BaseName, Name, ArraySuffix, Atoi, Canonical;
    BaseNameChars(v);
    NameShape(v);
    if v.arrayLen == 0 {
      PlainSuffix(BaseName(v));
    } else if v.arrayLen == -1 {
      BracketSuffix(BaseName(v), "");
    } else {
      BracketSuffix(BaseName(v), Print(v.arrayLen));
      AtoiOfPrint(v.arrayLen);
    }
  }

  /** Parsing a canonical name gives back its type. */
  lemma NameRoundTrip(v: Var)
    requires Canonical(v) && |Name(v)| < 50
    ensures Name(v) != "" && TokenOf(Name(v)) == Some(v)
  {
    NameChars(v);
    SuffixOfName(v);
    BaseOfName(v);
  }

  // ----- the list -------------------------------------------------------------------------

  /** add_token: appends the token of `name` and counts it in the tuple token; an empty name adds nothing. */
  function Added(ts: seq<Token>, name: string, tuple: nat): (r: Option<seq<Token>>)
    requires tuple < |ts| && ts[tuple].TupleToken?
    ensures r.Some? ==> tuple < |r.value| && r.value[tuple].TupleToken?
  {
    if name == "" then Some(ts)
    else
      var t := TokenOf(name);
      if t.None? then None
      else Some(ts[tuple := ts[tuple].(typeLen := (ts[tuple].typeLen + 1) % 256)] + [Member(t.value)])
  }

  /** strchr, or |s| */
  function IndexOf(s: string, c: char, from: nat): (r: nat)
    requires from <= |s|
    ensures from <= r <= |s|
    ensures r < |s| ==> s[r] == c
    ensures forall i :: from <= i < r ==> s[i] != c
    decreases |s| - from
  {
    if from == |s| || s[from] == c then from else IndexOf(s, c, from + 1)
  }

  /** What parse_tuple does on reaching ')' at c. */
  function Closed(text: string, c: nat, ts: seq<Token>, tuple: nat): Option<(nat, seq<Token>)>
    requires c < |text| && tuple < |ts| && ts[tuple].TupleToken?
  {
    if c + 1 < |text| && text[c + 1] == '[' then
      var end := IndexOf(text, ']', c);
      if end == |text| then None
      else Some((c, ts[tuple := ts[tuple].(arrayLen := if end <= c + 2 then -1 else Atoi(text[c + 2..end]))]))
    else Some((c, ts))
  }

  /** parse_tuple: where it stops, and the tokens it has appended. */
  function Parse(text: string, c: nat, ts: seq<Token>): (r: Option<(nat, seq<Token>)>)
    requires c <= |text|
    ensures r.Some? ==> c <= r.value.0 <= |text| && |r.value.1| > |ts| && Kept(ts, r.value.1)
    decreases |text| - c, 1
  {
    Scan(text, c, c, ts + [TupleToken(0, 0)], |ts|)
  }

  /** Tuple tokens stay where they are. */
  predicate Kept(a: seq<Token>, b: seq<Token>) {
    |a| <= |b| && forall i :: 0 <= i < |a| && a[i].TupleToken? ==> b[i].TupleToken?
  }

  /** The loop of parse_tuple at position c, with the current name starting at `start`. */
  function Scan(text: string, c: nat, start: nat, ts: seq<Token>, tuple: nat): (r: Option<(nat, seq<Token>)>)
    requires start <= c <= |text| && tuple < |ts| && ts[tuple].TupleToken?
    ensures r.Some? ==> c <= r.value.0 <= |text| && Kept(ts, r.value.1)
    decreases |text| - c, 0
  {
    if c == |text| then
      var a := Added(ts, text[start..c], tuple);
      if a.None? then None else Some((c, a.value))
    else if text[c] == '(' then
      var p := Parse(text, c + 1, ts);
      if p.None? || p.value.0 == |text| || text[p.value.0] != ')' then None
      else Scan(text, p.value.0 + 1, start, p.value.1, tuple)
    else if text[c] == ')' then
      var a := Added(ts, text[start..c], tuple);
      if a.None? then None else Closed(text, c, a.value, tuple)
    else if text[c] == ',' then
      var a := Added(ts, text[start..c], tuple);
      if a.None? then None else Scan(text, c + 1, c + 1, a.value, tuple)
    else Scan(text, c + 1, start, ts, tuple)
  }

  /** The token buffer that add_token and parse_tuple append to. */
  class Parser {
    const text: string
    var tokens: seq<Token>

    constructor (text: string)
      ensures this.text == text && tokens == []
    {
      this.text, tokens := text, [];
    }

    /** add_token */
    method AddToken(name: string, tuple: nat) returns (ok: bool)
      requires tuple < |tokens| && tokens[tuple].TupleToken?
      modifies this`tokens
      ensures ok == Added(old(tokens), name, tuple).Some?
      ensures tokens == if ok then Added(old(tokens), name, tuple).value else old(tokens)
    {
      if |name| == 0 { return true; }
      var t := TokenOf(name);
      if t.None? { return false; }
      tokens := tokens + [Member(t.value)];
      tokens := tokens[tuple := tokens[tuple].(typeLen := (tokens[tuple].typeLen + 1) % 256)];
      return true;
    }

    /** parse_tuple: the position of the closing parenthesis (or the end), None on failure. */
    method ParseTuple(first: nat) returns (r: Option<nat>)
      requires first <= |text|
      modifies this`tokens
      ensures var p := Parse(text, first, old(tokens));
              && r.Some? == p.Some?
              && (r.Some? ==> r.value == p.value.0 && tokens == p.value.1)
      decreases |text| - first
    {
      hide TokenOf, Atoi, IndexOf;
      var tuple := |tokens|;
      tokens := tokens + [TupleToken(0, 0)];
      ghost var goal := Scan(text, first, first, tokens, tuple);
      var c, start := first, first;
      while c < |text|
        invariant first <= start <= c <= |text| && tuple < |tokens| && tokens[tuple].TupleToken?
        invariant Scan(text, c, start, tokens, tuple) == goal
      {
        if text[c] == '(' {
          var p := ParseTuple(c + 1);
          if p.None? || p.value == |text| || text[p.value] != ')' { return None; }
          c := p.value;
        } else if text[c] == ')' {
          var ok := AddToken(text[start..c], tuple);
          if !ok { return None; }
          if c + 1 < |text| && text[c + 1] == '[' {
            var end := IndexOf(text, ']', c);
            if end == |text| { return None; }
            tokens := tokens[tuple := tokens[tuple].(arrayLen := if end <= c + 2 then -1 else Atoi(text[c + 2..end]))];
          }
          return Some(c);
        } else if text[c] == ',' {
          var ok := AddToken(text[start..c], tuple);
          if !ok { return None; }
          start := c + 1;
        }
        c := c + 1;
      }
      var ok := AddToken(text[start..c], tuple);
      return if ok then Some(c) else None;
    }
  }

  // ----- parsing undoes printing -------------------------------------------------------------

  /** The names of a list, separated by commas. */
  function Join(vs: seq<Var>): string {
    if vs == [] then "" else if |vs| == 1 then Name(vs[0]) else Name(vs[0]) + "," + Join(vs[1..])
  }

  predicate AllCanonical(vs: seq<Var>) {
    forall i :: 0 <= i < |vs| ==> Canonical(vs[i]) && |Name(vs[i])| < 50
  }

  function Members(vs: seq<Var>): (r: seq<Token>)
    ensures |r| == |vs|
  {
    if vs == [] then [] else [Member(vs[0])] + Members(vs[1..])
  }

  /** The loop passes over the characters of a name. */
  lemma {:induction false} ScanName(text: string, c: nat, end: nat, start: nat, ts: seq<Token>, tuple: nat)
    requires start <= c <= end <= |text| && tuple < |ts| && ts[tuple].TupleToken?
    requires forall i :: c <= i < end ==> NameChar(text[i])
    ensures Scan(text, c, start, ts, tuple) == Scan(text, end, start, ts, tuple)
    decreases end - c
  {
    if c == end {
    } else {
      ScanName(text, c + 1, end, start, ts, tuple);
    }
  }

  predicate TextAt(text: string, c: nat, s: string) {
    c + |s| <= |text| && text[c..c + |s|] == s
  }

  /** One name and the character after it. */
  lemma ScanMember(text: string, c: nat, v: Var, ts: seq<Token>, tuple: nat)
    requires Canonical(v) && |Name(v)| < 50 && tuple < |ts| && ts[tuple].TupleToken? && ts[tuple].typeLen < 255
    requires TextAt(text, c, Name(v))
    ensures Scan(text, c, c, ts, tuple) == Scan(text, c + |Name(v)|, c, ts, tuple)
    ensures Added(ts, text[c..c + |Name(v)|], tuple) == Some(Counted(ts, tuple, 1) + [Member(v)])
  {
    hide TokenOf, BaseName, Suffix;
    var end := c + |Name(v)|;
    NameChars(v);
    NameRoundTrip(v);
    forall i | c <= i < end ensures NameChar(text[i]) {
      assert text[i] == text[c..end][i - c];
      assert text[i] in Name(v);
    }
    ScanName(text, c, end, c, ts, tuple);
  }

  function Counted(ts: seq<Token>, tuple: nat, n: nat): (r: seq<Token>)
    requires tuple < |ts| && ts[tuple].TupleToken?
    ensures |r| == |ts| && r[tuple] == ts[tuple].(typeLen := ts[tuple].typeLen + n)
  {
    ts[tuple := ts[tuple].(typeLen := ts[tuple].typeLen + n)]
  }

  lemma CountedNone(ts: seq<Token>, tuple: nat)
    requires tuple < |ts| && ts[tuple].TupleToken?
    ensures Counted(ts, tuple, 0) + Members([]) == ts
  {
  }

  lemma CountedOnce(ts: seq<Token>, tuple: nat, v: Var, vs: seq<Var>)
    requires tuple < |ts| && ts[tuple].TupleToken?
    ensures var next := Counted(ts, tuple, 1) + [Member(v)];
            Counted(next, tuple, |vs|) + Members(vs) == Counted(ts, tuple, |vs| + 1) + Members([v] + vs)
  {
    hide Counted, Members;
    MembersCons(v, vs);
    CountedAppend(ts, tuple, [Member(v)], |vs|);
    Regroup(Counted(ts, tuple, |vs| + 1), [Member(v)], Members(vs));
  }

  lemma Regroup<T>(a: seq<T>, b: seq<T>, c: seq<T>)
    ensures (a + b) + c == a + (b + c)
  {
  }

  lemma MembersCons(v: Var, vs: seq<Var>)
    ensures Members([v] + vs) == [Member(v)] + Members(vs)
  {
    assert ([v] + vs)[1..] == vs;
  }

  lemma CountedAppend(ts: seq<Token>, tuple: nat, m: seq<Token>, n: nat)
    requires tuple < |ts| && ts[tuple].TupleToken?
    ensures Counted(Counted(ts, tuple, 1) + m, tuple, n) == Counted(ts, tuple, n + 1) + m
  {
    var k := ts[tuple].typeLen;
    assert Counted(ts, tuple, 1)[tuple] == ts[tuple].(typeLen := k + 1);
  }

  lemma TextParts(text: string, c: nat, a: string, b: string)
    requires TextAt(text, c, a + b)
    ensures TextAt(text, c, a) && TextAt(text, c + |a|, b)
  {
    var s := text[c..c + |a + b|];
    assert text[c..c + |a|] == s[..|a|] == a;
    assert text[c + |a|..c + |a| + |b|] == s[|a|..] == b;
  }

  /** A name before the closing bracket. */
  lemma ScanLast(text: string, c: nat, v: Var, ts: seq<Token>, tuple: nat)
    requires Canonical(v) && |Name(v)| < 50 && tuple < |ts| && ts[tuple].TupleToken? && ts[tuple].typeLen < 255
    requires TextAt(text, c, Name(v)) && c + |Name(v)| < |text| && text[c + |Name(v)|] == ')'
    ensures Scan(text, c, c, ts, tuple) == Closed(text, c + |Name(v)|, Counted(ts, tuple, 1) + [Member(v)], tuple)
  {
    hide Canonical, Name, Added, Closed;
    ScanMember(text, c, v, ts, tuple);
  }

  /** A name before a comma. */
  lemma ScanInner(text: string, c: nat, v: Var, ts: seq<Token>, tuple: nat)
    requires Canonical(v) && |Name(v)| < 50 && tuple < |ts| && ts[tuple].TupleToken? && ts[tuple].typeLen < 255
    requires TextAt(text, c, Name(v)) && c + |Name(v)| < |text| && text[c + |Name(v)|] == ','
    ensures var end := c + |Name(v)|;
            Scan(text, c, c, ts, tuple) == Scan(text, end + 1, end + 1, Counted(ts, tuple, 1) + [Member(v)], tuple)
  {
    hide Canonical, Name, Added;
    ScanMember(text, c, v, ts, tuple);
  }

  lemma ScanNone(text: string, c: nat, ts: seq<Token>, tuple: nat)
    requires tuple < |ts| && ts[tuple].TupleToken? && c < |text| && text[c] == ')'
    ensures Scan(text, c, c, ts, tuple) == Closed(text, c, Counted(ts, tuple, 0) + Members([]), tuple)
  {
    hide TokenOf, Counted, Members, Closed;
    CountedNone(ts, tuple);
  }

  lemma TextStarts(text: string, c: nat, s: string)
    requires TextAt(text, c, s) && s != ""
    ensures c < |text| && text[c] == s[0]
  {
    assert text[c] == text[c..c + |s|][0];
  }

  lemma {:induction false} ScanList(text: string, c: nat, vs: seq<Var>, ts: seq<Token>, tuple: nat)
    requires AllCanonical(vs) && tuple < |ts| && ts[tuple].TupleToken? && ts[tuple].typeLen + |vs| <= 255
    requires TextAt(text, c, Join(vs) + ")")
    ensures c + |Join(vs)| < |text|
    ensures Scan(text, c, c, ts, tuple)
            == Closed(text, c + |Join(vs)|, Counted(ts, tuple, |vs|) + Members(vs), tuple)
    decreases |vs|
  {
    hide Scan, Name, Counted, Members, Canonical, TextAt, Closed;
    TextParts(text, c, Join(vs), ")");
    TextStarts(text, c + |Join(vs)|, ")");
    if vs == [] {
      ScanNone(text, c, ts, tuple);
    } else {
      var v, rest := vs[0], vs[1..];
      var next := Counted(ts, tuple, 1) + [Member(v)];
      assert vs == [v] + rest;
      CountedOnce(ts, tuple, v, rest);
      if rest == [] {
        ScanLast(text, c, v, ts, tuple);
        CountedNone(next, tuple);
      } else {
        JoinParts(text, c, v, rest);
        ScanInner(text, c, v, ts, tuple);
        ScanList(text, c + |Name(v)| + 1, rest, next, tuple);
      }
    }
  }

  lemma JoinParts(text: string, c: nat, v: Var, rest: seq<Var>)
    requires rest != [] && TextAt(text, c, Join([v] + rest) + ")")
    ensures TextAt(text, c, Name(v)) && TextAt(text, c + |Name(v)| + 1, Join(rest) + ")")
    ensures text[c + |Name(v)|] == ','
    ensures |Join([v] + rest)| == |Name(v)| + 1 + |Join(rest)|
  {
    hide Name;
    assert ([v] + rest)[1..] == rest;
    var end := c + |Name(v)|;
    assert Join([v] + rest) + ")" == Name(v) + ("," + (Join(rest) + ")"));
    TextParts(text, c, Name(v), "," + (Join(rest) + ")"));
    TextParts(text, end, ",", Join(rest) + ")");
    assert text[end] == text[end..end + 1][0];
  }

  /** Up to the closing bracket, parsing has read one tuple token with the count and the types in order. */
  lemma ListRead(text: string, c: nat, vs: seq<Var>, before: seq<Token>)
    requires AllCanonical(vs) && |vs| <= 255 && TextAt(text, c, Join(vs) + ")")
    ensures c + |Join(vs)| < |text|
    ensures Parse(text, c, before)
            == Closed(text, c + |Join(vs)|, before + [TupleToken(|vs|, 0)] + Members(vs), |before|)
  {
    hide Closed, Scan, Join, Members;
    var ts := before + [TupleToken(0, 0)];
    ScanList(text, c, vs, ts, |before|);
    assert Counted(ts, |before|, |vs|) == before + [TupleToken(|vs|, 0)];
  }

  /** Parsing a printed argument list gives one tuple token with the count, then the types in order. */
  lemma ListRoundTrip(text: string, c: nat, vs: seq<Var>, before: seq<Token>)
    requires AllCanonical(vs) && |vs| <= 255
    requires TextAt(text, c, Join(vs) + ")")
    requires c + |Join(vs)| + 1 < |text| ==> text[c + |Join(vs)| + 1] != '['
    ensures Parse(text, c, before) == Some((c + |Join(vs)|, before + [TupleToken(|vs|, 0)] + Members(vs)))
  {
    hide Join, Members, Parse;
    ListRead(text, c, vs, before);
  }

  lemma ClosedArray(text: string, c: nat, ts: seq<Token>, tuple: nat, n: int)
    requires c < |text| && text[c] == ')' && tuple < |ts| && ts[tuple].TupleToken? && -1 <= n < INT_LIMIT
    requires TextAt(text, c + 1, "[" + ((if n < 0 then "" else Print(n)) + "]"))
    ensures Closed(text, c, ts, tuple) == Some((c, ts[tuple := ts[tuple].(arrayLen := n)]))
  {
    hide Atoi, Print, IndexOf;
    var digits := if n < 0 then "" else Print(n);
    var close := c + 2 + |digits|;
    TextParts(text, c + 1, "[", digits + "]");
    TextParts(text, c + 2, digits, "]");
    assert text[c + 1] == text[c + 1..c + 2][0] && text[close] == text[close..close + 1][0];
    forall i | c + 2 <= i < close ensures text[i] != ']' {
      assert text[i] == text[c + 2..close][i - c - 2];
      assert text[i] in digits;
    }
    var end := IndexOf(text, ']', c);
    assert end == close;
    if n >= 0 { AtoiOfPrint(n); }
  }

  /** A list with an array suffix: the length goes into the tuple token, -1 for an open one. */
  lemma ArrayRoundTrip(text: string, c: nat, vs: seq<Var>, n: int, before: seq<Token>)
    requires AllCanonical(vs) && |vs| <= 255 && -1 <= n < INT_LIMIT
    requires TextAt(text, c, Join(vs) + ")" + ("[" + ((if n < 0 then "" else Print(n)) + "]")))
    ensures Parse(text, c, before) == Some((c + |Join(vs)|, before + [TupleToken(|vs|, n)] + Members(vs)))
  {
    hide Join, Members, Parse, Print, Closed, TextAt, AllCanonical;
    var suffix := "[" + ((if n < 0 then "" else Print(n)) + "]");
    var end := c + |Join(vs)|;
    TextParts(text, c, Join(vs) + ")", suffix);
    TextParts(text, c, Join(vs), ")");
    TextStarts(text, end, ")");
    ListRead(text, c, vs, before);
    var ts := before + [TupleToken(|vs|, 0)] + Members(vs);
    ClosedArray(text, end, ts, |before|, n);
    assert ts[|before|] == TupleToken(|vs|, 0);
    assert ts[|before| := TupleToken(|vs|, n)] == before + [TupleToken(|vs|, n)] + Members(vs);
  }

  /**
   * A member that is itself a tuple is refused, whatever it holds: its text, brackets included, is taken for a name.
   * The caller removes inner brackets first.
   */
  lemma TupleRefused(text: string, c: nat, ts: seq<Token>, tuple: nat)
    requires c < |text| && text[c] == '(' && tuple < |ts| && ts[tuple].TupleToken?
    ensures Scan(text, c, c, ts, tuple) == None
  {
    var p := Parse(text, c + 1, ts);
    if p.Some? && p.value.0 < |text| && text[p.value.0] == ')' {
      BracketStays(text, p.value.0 + 1, c, p.value.1, tuple);
    }
  }

  lemma {:induction false} BracketStays(text: string, c: nat, start: nat, ts: seq<Token>, tuple: nat)
    requires start < c <= |text| && text[start] == '(' && tuple < |ts| && ts[tuple].TupleToken?
    ensures Scan(text, c, start, ts, tuple) == None
    decreases |text| - c
  {
    hide TokenOf, Closed;
    BracketIsNoName(text[start..c]);
    if c == |text| || text[c] == ')' || text[c] == ',' {
    } else if text[c] == '(' {
      var p := Parse(text, c + 1, ts);
      if p.Some? && p.value.0 < |text| && text[p.value.0] == ')' {
        BracketStays(text, p.value.0 + 1, start, p.value.1, tuple);
      }
    } else {
      BracketStays(text, c + 1, start, ts, tuple);
    }
  }

  lemma BracketIsNoName(name: string)
    requires name != "" && name[0] == '('
    ensures TokenOf(name) == None
  {
  }

  /** The names that carry no size have these. */
  lemma DefaultSizes()
    ensures TokenOf("uint") == Some(Var(Uint, 32, 0)) && TokenOf("int") == Some(Var(Int, 32, 0))
    ensures TokenOf("address") == Some(Var(Address, 20, 0)) && TokenOf("bool") == Some(Var(Bool, 1, 0))
    ensures TokenOf("bytes") == Some(Var(Bytes, 0, 0)) && TokenOf("string") == Some(Var(String, 0, 0))
  {
    assert "bytes"[0] == 'b' && "string"[0] == 's' && "bool"[1] == 'o';
  }
}
