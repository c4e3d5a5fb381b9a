/** splitTypes: cutting a list of (possibly nested) type names at its top-level commas. */
module SplitTypes {

  /** How many brackets are open at the end of s; negative if more are closed than opened. */
  function Depth(s: string): int {
    if s == "" then 0
    else
      var c := s[|s| - 1];
      Depth(s[..|s| - 1]) + if c == '(' then 1 else if c == ')' then -1 else 0
  }

  predicate NoTopComma(s: string) {
    forall i :: 0 <= i < |s| && s[i] == ',' ==> Depth(s[..i]) != 0
  }

  function Join(ps: seq<string>): string {
    if ps == [] then ""
    else if |ps| == 1 then ps[0]
    else ps[0] + "," + Join(ps[1..])
  }

  /**
   * A list that is cut everywhere it can be cut: no type holds a top-level comma, and none but the last leaves a
   * bracket open.
   */
  predicate Separate(ps: seq<string>) {
    && (forall i :: 0 <= i < |ps| ==> NoTopComma(ps[i]))
    && (forall i :: 0 <= i < |ps| - 1 ==> Depth(ps[i]) == 0)
  }

  /** A last type of at most one character is dropped. */
  function Kept(ps: seq<string>): seq<string>
    requires ps != []
  {
    if |ps[|ps| - 1]| > 1 then ps else ps[..|ps| - 1]
  }

  /** The first comma at or after i outside of all brackets, if `depth` are open at i. */
  function TopComma(s: string, i: nat, depth: int): (k: nat)
    requires i <= |s|
    ensures i <= k <= |s|
    decreases |s| - i
  {
    if i == |s| || (s[i] == ',' && depth == 0) then i
    else TopComma(s, i + 1, depth + if s[i] == '(' then 1 else if s[i] == ')' then -1 else 0)
  }

  /** The text cut at every such comma. */
  function Pieces(s: string): (ps: seq<string>)
    ensures ps != []
  {
    var k := TopComma(s, 0, 0);
    if k == |s| then [s] else [s[..k]] + Pieces(s[k + 1..])
  }

  function Unwrapped(types: string, removeBrackets: bool): string {
    if removeBrackets && |types| >= 2 && types[0] == '(' && types[|types| - 1] == ')' then types[1..|types| - 1]
    else types
  }

  // ----- a list is determined by its text ----------------------------------------------------

  lemma CommaInside(x: string, a: string)
    requires |a| < |x| && x[..|a|] == a && x[|a|] == ',' && Depth(a) == 0
    ensures !NoTopComma(x)
  {
  }

  lemma FirstCut(ps: seq<string>, x: string)
    requires Separate(ps) && |ps| > 1 && NoTopComma(x) && x <= Join(ps)
    ensures |x| <= |ps[0]|
  {
    hide NoTopComma;
    var s := Join(ps);
    if |ps[0]| < |x| {
      CommaInside(x, ps[0]);
    }
  }

  lemma {:induction false} JoinUnique(ps: seq<string>, qs: seq<string>)
    requires ps != [] && qs != [] && Separate(ps) && Separate(qs) && Join(ps) == Join(qs)
    ensures ps == qs
  {
    if |ps| > 1 && |qs| > 1 {
      FirstCut(ps, qs[0]);
      FirstCut(qs, ps[0]);
      assert ps[0] == Join(ps)[..|ps[0]|] && qs[0] == Join(qs)[..|qs[0]|];
      assert Join(ps[1..]) == Join(ps)[|ps[0]| + 1..] && Join(qs[1..]) == Join(qs)[|qs[0]| + 1..];
      JoinUnique(ps[1..], qs[1..]);
      assert ps == [ps[0]] + ps[1..] && qs == [qs[0]] + qs[1..];
    } else if |ps| > 1 {
      FirstCut(ps, qs[0]);
    } else if |qs| > 1 {
      FirstCut(qs, ps[0]);
    }
  }

  /** Cutting the last element at a comma. */
  lemma {:induction false} JoinCut(ps: seq<string>, a: string, b: string)
    ensures Join(ps + [a, b]) == Join(ps + [a + "," + b])
  {
    if ps == [] {
      assert Join([a, b][1..]) == b;
    } else {
      JoinCut(ps[1..], a, b);
      assert (ps + [a, b])[1..] == ps[1..] + [a, b];
      assert (ps + [a + "," + b])[1..] == ps[1..] + [a + "," + b];
    }
  }

  lemma DepthNext(s: string, p: nat, i: nat)
    requires p <= i < |s|
    ensures Depth(s[p..i + 1]) == Depth(s[p..i]) + if s[i] == '(' then 1 else if s[i] == ')' then -1 else 0
    ensures NoTopComma(s[p..i]) && (s[i] == ',' ==> Depth(s[p..i]) != 0) ==> NoTopComma(s[p..i + 1])
  {
    var t := s[p..i + 1];
    assert t[..|t| - 1] == s[p..i];
    if NoTopComma(s[p..i]) {
      forall j | 0 <= j < |t| - 1 && t[j] == ',' ensures Depth(t[..j]) != 0 {
        assert t[..j] == s[p..i][..j] && s[p..i][j] == ',';
      }
    }
  }

  /** The same, inside the text that has been read so far. */
  lemma CutAt(s: string, res: seq<string>, p: nat, i: nat)
    requires p <= i < |s| && s[i] == ',' && Join(res + [s[p..]]) == s
    ensures Join((res + [s[p..i]]) + [s[i + 1..]]) == s
  {
    JoinCut(res, s[p..i], s[i + 1..]);
    assert s[p..] == s[p..i] + "," + s[i + 1..];
    assert (res + [s[p..i]]) + [s[i + 1..]] == res + [s[p..i], s[i + 1..]];
  }

  lemma JoinOne(s: string)
    ensures Join([s]) == s
  {
  }

  lemma EmptyText()
    ensures Separate([""]) && Join([""]) == Join([])
  {
  }

  lemma NothingRead(s: string, p: nat)
    requires p <= |s|
    ensures Depth(s[p..p]) == 0 && NoTopComma(s[p..p])
  {
  }

  lemma {:induction false} TopCommaIs(s: string, i: nat)
    requires i <= |s| && NoTopComma(s[..i])
    ensures var k := TopComma(s, i, Depth(s[..i]));
            NoTopComma(s[..k]) && (k < |s| ==> s[k] == ',' && Depth(s[..k]) == 0)
    decreases |s| - i
  {
    hide Depth, NoTopComma;
    assert s[0..i] == s[..i];
    if i == |s| {
    } else {
      DepthNext(s, 0, i);
      assert s[0..i + 1] == s[..i + 1];
      if s[i] != ',' || Depth(s[..i]) != 0 { TopCommaIs(s, i + 1); }
    }
  }

  /** The pieces are separate and make up the text: by JoinUnique, no other list does. */
  lemma {:induction false} PiecesMeans(s: string)
    ensures Separate(Pieces(s)) && Join(Pieces(s)) == s
    decreases |s|
  {
    hide Depth, NoTopComma, TopComma;
    var k := TopComma(s, 0, 0);
    NothingRead(s, 0);
    assert s[..0] == s[0..0];
    TopCommaIs(s, 0);
    if k < |s| {
      PiecesMeans(s[k + 1..]);
      assert s == s[..k] + "," + s[k + 1..];
      assert Pieces(s)[1..] == Pieces(s[k + 1..]);
    } else {
      assert s[..k] == s;
    }
  }

  // ----- the function itself -------------------------------------------------------------------

  /** splitTypes */
  method Split(types: string, removeBrackets: bool) returns (res: seq<string>)
    ensures res == Kept(Pieces(Unwrapped(types, removeBrackets)))
  {
    hide Join, Depth, NoTopComma, Pieces;
    var s := types;
    if removeBrackets && |types| >= 1 && types[0] == '(' && types[|types| - 1] == ')' {
      s := types[1..|types| - 1];
    }
    var p, l := 0, 0;
    res := [];
    assert s[0..] == s;
    JoinOne(s);
    assert res + [s[0..]] == [s];
    NothingRead(s, 0);
    for i := 0 to |s|
      invariant p <= i && l == Depth(s[p..i]) && NoTopComma(s[p..i])
      invariant forall k :: 0 <= k < |res| ==> NoTopComma(res[k]) && Depth(res[k]) == 0
      invariant Join(res + [s[p..]]) == s
    {
      DepthNext(s, p, i);
      if s[i] == '(' {
        l := l + 1;
      } else if s[i] == ')' {
        l := l - 1;
      } else if s[i] == ',' && l == 0 {
        CutAt(s, res, p, i);
        res := res + [s[p..i]];
        p := i + 1;
        NothingRead(s, p);
      }
    }
    assert s[p..] == s[p..|s|];
    ghost var pieces := res + [s[p..]];
    PiecesMeans(s);
    JoinUnique(pieces, Pieces(s));
    if |s| > p + 1 {
      res := res + [s[p..]];
    }
  }

  /**
   * A bracketed text gives back the list in its brackets, and any other text, or any text if the brackets are to stay,
   * the list it is made of, except for a last type of at most one character. Every text is one of the two.
   */
  lemma SplitMeans(ts: seq<string>, removeBrackets: bool)
    requires Separate(ts) && ts != []
    ensures var list := if |ts[|ts| - 1]| <= 1 then ts[..|ts| - 1] else ts;
            && Kept(Pieces(Unwrapped("(" + Join(ts) + ")", true))) == list
            && (!removeBrackets || !("(" <= Join(ts)) || Join(ts)[|Join(ts)| - 1] != ')' ==>
                  Kept(Pieces(Unwrapped(Join(ts), removeBrackets))) == list)
  {
    hide Depth, NoTopComma, Join, Separate, Pieces;
    var text := "(" + Join(ts) + ")";
    assert text[1..|text| - 1] == Join(ts);
    PiecesMeans(Join(ts));
    JoinUnique(Pieces(Join(ts)), ts);
  }

  /** The text of a bracketed list gives back the list, exactly when its last type has more than one character. */
  lemma SplitUndoesJoin(ts: seq<string>)
    requires Separate(ts)
    ensures Kept(Pieces(Unwrapped("(" + Join(ts) + ")", true))) == ts <==> ts == [] || |ts[|ts| - 1]| > 1
  {
    hide Depth, NoTopComma, Join, Separate, Pieces, Unwrapped, Kept;
    EmptyText();
    SplitMeans(if ts == [] then [""] else ts, true);
  }

  lemma {:induction false} PlainText(s: string)
    requires '(' !in s && ')' !in s && ',' !in s
    ensures Depth(s) == 0 && NoTopComma(s)
  {
    if s == "" {
    } else {
      PlainText(s[..|s| - 1]);
      assert s[|s| - 1] in s;
    }
  }

  /** The smallest list that does not come back: of "(uint256,)" the second, empty name is lost. */
  lemma EmptyNameIsLost()
    ensures var ts := ["uint256", ""];
            && Separate(ts) && "(" + Join(ts) + ")" == "(uint256,)"
            && Kept(Pieces(Unwrapped("(uint256,)", true))) == ["uint256"]
  {
    hide Depth, NoTopComma, Pieces;
    var ts := ["uint256", ""];
    PlainText(ts[0]);
    PlainText(ts[1]);
    assert ts[1..] == [""];
    assert Join(ts) == "uint256" + "," + "" == "uint256,";
    assert "(uint256,)"[1..9] == "uint256,";
    PiecesMeans("uint256,");
    JoinUnique(Pieces("uint256,"), ts);
    assert ts[..1] == ["uint256"];
  }

  /** The output of a signature may come without brackets: "bool" and "uint256,bool" are lists as they stand. */
  lemma PlainOutputStays()
    ensures Kept(Pieces(Unwrapped("bool", true))) == ["bool"]
    ensures Kept(Pieces(Unwrapped("uint256,bool", true))) == ["uint256", "bool"]
  {
    hide Depth, NoTopComma, Pieces, Unwrapped, Kept;
    var ts := ["uint256", "bool"];
    PlainText(ts[0]);
    PlainText(ts[1]);
    assert ts[1..] == ["bool"];
    assert Join(ts) == "uint256" + "," + "bool" == "uint256,bool";
    SplitMeans(ts, true);
    SplitMeans(["bool"], true);
  }
}
