/** `moveToPrenexForm` and `separatePrenexParts`. The quantifier tokens are
    cut out of the text one by one (each by a first-occurrence replace),
    whitespace is collapsed, and the tokens are written in front of the rest
    in parentheses; `separatePrenexParts` reads that prefix back. */
module Prenex {
  import opened TextOps
  import opened Patterns

  /** `result.replace(q, '')` for each token `q` in turn. */
  function RemoveEachFirst(s: string, qs: seq<string>): string
    decreases |qs|
  {
    if qs == [] then s
    else ReplaceFirst(RemoveEachFirst(s, qs[..|qs| - 1]), qs[|qs| - 1], "")
  }

  /** The text left once the tokens are cut out and the whitespace is
      tidied: `result.replace(/\s+/g, ' ').trim()`. */
  function PrenexMatrix(formula: string): string
  {
    Trim(CollapseSpaces(RemoveEachFirst(formula, QuantifierMatches(formula))))
  }

  /** The result of `moveToPrenexForm`. */
  function PrenexForm(formula: string): string
  {
    var qs := QuantifierMatches(formula);
    if qs != [] then Join(qs, " ") + " (" + PrenexMatrix(formula) + ")"
    else PrenexMatrix(formula)
  }

  /** The text with every match of `[∀∃][a-zA-Z]+` cut out, scanned left
      to right: the reference for what the replaces of `moveToPrenexForm`
      leave. */
  function DeleteTokens(s: string): string
    decreases |s|
  {
    if |s| < 2 then s
    else if TokenAt(s, 0) then DeleteTokens(s[TokenEnd(s)..])
    else [s[0]] + DeleteTokens(s[1..])
  }

  /** What is left starts with a letter only where the text did. */
  lemma {:induction false} DeleteTokensStart(t: string)
    ensures DeleteTokens(t) != [] && IsLetter(DeleteTokens(t)[0]) ==> t != [] && IsLetter(t[0])
    decreases |t|
  {
    if |t| >= 2 && TokenAt(t, 0) {
      DeleteTokensStart(t[TokenEnd(t)..]);
    }
  }

  /** No token is left, and none is made where two pieces meet: a token is
      never followed by a letter. */
  lemma {:induction false} DeleteTokensNoToken(s: string)
    ensures NoToken(DeleteTokens(s))
    decreases |s|
  {
    if |s| >= 2 {
      if TokenAt(s, 0) {
        DeleteTokensNoToken(s[TokenEnd(s)..]);
      } else {
        var d := DeleteTokens(s[1..]);
        var r := [s[0]] + d;
        DeleteTokensNoToken(s[1..]);
        DeleteTokensStart(s[1..]);
        forall i | 0 <= i < |r| ensures !TokenAt(r, i) {
          if i > 0 {
            assert TokenAt(r, i) ==> TokenAt(d, i - 1);
          }
        }
      }
    }
  }

  /** Every character that is not a letter or a quantifier keeps its count. */
  lemma {:induction false} DeleteTokensKeeps(s: string, c: char)
    requires !IsLetter(c) && !IsQuantifier(c)
    ensures multiset(DeleteTokens(s))[c] == multiset(s)[c]
    decreases |s|
  {
    if |s| >= 2 {
      if TokenAt(s, 0) {
        var n := TokenEnd(s);
        DeleteTokensKeeps(s[n..], c);
        assert c !in s[..n];
        CountAfterDrop(s, n, c);
      } else {
        DeleteTokensKeeps(s[1..], c);
        KeepsFirst(s, DeleteTokens(s[1..]), c);
      }
    }
  }

  /** Cutting the first token of a list first. */
  lemma {:induction false} RemoveEachCons(s: string, q: string, qs: seq<string>)
    ensures RemoveEachFirst(s, [q] + qs) == RemoveEachFirst(ReplaceFirst(s, q, ""), qs)
    decreases |qs|
  {
    if qs != [] {
      var all := [q] + qs;
      var init, last := qs[..|qs| - 1], qs[|qs| - 1];
      assert all[..|all| - 1] == [q] + init && all[|all| - 1] == last;
      RemoveEachCons(s, q, init);
      assert RemoveEachFirst(s, all) == ReplaceFirst(RemoveEachFirst(s, [q] + init), last, "");
      assert RemoveEachFirst(ReplaceFirst(s, q, ""), qs)
          == ReplaceFirst(RemoveEachFirst(ReplaceFirst(s, q, ""), init), last, "");
    }
  }

  /** After a text without tokens, the first occurrence of the token that
      starts `t` is that token itself. */
  lemma CutFirstToken(x: string, t: string)
    requires NoToken(x) && TokenAt(t, 0)
    ensures ReplaceFirst(x + t, t[..TokenEnd(t)], "") == x + t[TokenEnd(t)..]
  {
    var n := TokenEnd(t);
    var m := t[..n];
    var s := x + t;
    assert OccursAt(s, m, |x|) by {
      assert s[|x|..|x| + n] == m;
    }
    NoTokenOccurrence(x, t, m);
    ReplaceFirstAt(s, m, "", |x|);
    assert s[..|x|] == x && s[|x| + n..] == t[n..];
  }

  /** A token does not occur in `x + t` at a position inside `x` when `x`
      has no token and `t` does not start with a letter. */
  lemma NoTokenOccurrence(x: string, t: string, m: string)
    requires NoToken(x) && IsToken(m) && (t == [] || !IsLetter(t[0]))
    ensures forall j :: 0 <= j < |x| ==> !OccursAt(x + t, m, j)
  {
    var s := x + t;
    forall j | 0 <= j < |x| ensures !OccursAt(s, m, j) {
      assert OccursAt(s, m, j) ==> s[j] == m[0] && s[j + 1] == m[1] by {
        if OccursAt(s, m, j) {
          assert s[j..j + |m|][0] == s[j] && s[j..j + |m|][1] == s[j + 1];
        }
      }
      if j + 1 < |x| {
        assert !TokenAt(x, j);
      } else if t != [] {
        assert s[j + 1] == t[0];
      }
    }
  }

  /** The replaces of the matches of `t`, in order, behind a text without
      tokens that does not join `t` into a new one, cut exactly those
      matches. */
  lemma {:induction false} RemoveEachAfter(x: string, t: string)
    requires NoToken(x)
    requires x == [] || t == [] || !(IsQuantifier(x[|x| - 1]) && IsLetter(t[0]))
    ensures RemoveEachFirst(x + t, QuantifierMatches(t)) == x + DeleteTokens(t)
    decreases |t|
  {
    if |t| < 2 {
    } else if TokenAt(t, 0) {
      var n := TokenEnd(t);
      assert t[n..] == [] || t[n..][0] == t[n];
      RemoveEachAfter(x, t[n..]);
      AfterTokenStep(x, t);
    } else {
      NoTokenExtend(x, t[0]);
      assert t[1..][0] == t[1];
      RemoveEachAfter(x + [t[0]], t[1..]);
      AfterSkipStep(x, t, x + [t[0]]);
    }
  }

  /** The step of `RemoveEachAfter` over a token at the start of `t`. */
  lemma AfterTokenStep(x: string, t: string)
    requires NoToken(x) && TokenAt(t, 0)
    requires RemoveEachFirst(x + t[TokenEnd(t)..], QuantifierMatches(t[TokenEnd(t)..]))
          == x + DeleteTokens(t[TokenEnd(t)..])
    ensures RemoveEachFirst(x + t, QuantifierMatches(t)) == x + DeleteTokens(t)
  {
    var n := TokenEnd(t);
    var rest := QuantifierMatches(t[n..]);
    assert QuantifierMatches(t) == [t[..n]] + rest;
    assert DeleteTokens(t) == DeleteTokens(t[n..]);
    RemoveEachCons(x + t, t[..n], rest);
    CutFirstToken(x, t);
  }

  /** The step of `RemoveEachAfter` over a first character that starts no
      token. */
  lemma AfterSkipStep(x: string, t: string, y: string)
    requires |t| >= 2 && !TokenAt(t, 0) && y == x + [t[0]]
    requires RemoveEachFirst(y + t[1..], QuantifierMatches(t[1..])) == y + DeleteTokens(t[1..])
    ensures RemoveEachFirst(x + t, QuantifierMatches(t)) == x + DeleteTokens(t)
  {
    var d := DeleteTokens(t[1..]);
    assert x + t == y + t[1..] by { MoveFirstAcross(x, t); }
    assert QuantifierMatches(t) == QuantifierMatches(t[1..]) by { QuantifierMatchesSkip(t); }
    assert x + DeleteTokens(t) == y + d by {
      DeleteTokensSkip(t);
      AppendFirst(x, t[0], d);
    }
  }

  /** Without a token at the start, the matches are those of the rest. */
  lemma QuantifierMatchesSkip(t: string)
    requires |t| >= 2 && !TokenAt(t, 0)
    ensures QuantifierMatches(t) == QuantifierMatches(t[1..])
  {
  }

  /** Without a token at the start, the first character is kept. */
  lemma DeleteTokensSkip(t: string)
    requires |t| >= 2 && !TokenAt(t, 0)
    ensures DeleteTokens(t) == [t[0]] + DeleteTokens(t[1..])
  {
  }

  /** The first character of `t` moved to the end of `x`. */
  lemma MoveFirstAcross(x: string, t: string)
    requires t != []
    ensures (x + [t[0]]) + t[1..] == x + t
  {
    assert t == [t[0]] + t[1..];
  }

  /** A character between two texts can be grouped with either. */
  lemma AppendFirst(x: string, c: char, d: string)
    ensures (x + [c]) + d == x + ([c] + d)
  {
  }

  /** One more character after a text without tokens makes none unless it
      is a letter after a quantifier. */
  lemma NoTokenExtend(x: string, c: char)
    requires NoToken(x) && (x == [] || !(IsQuantifier(x[|x| - 1]) && IsLetter(c)))
    ensures NoToken(x + [c])
  {
    var y := x + [c];
    forall i | 0 <= i < |y| ensures !TokenAt(y, i) {
      if i + 1 < |x| {
        assert !TokenAt(x, i);
      }
    }
  }

  /** Each first-occurrence replace of `moveToPrenexForm` cuts the token at
      its own match: together they delete every match and nothing else. */
  lemma RemoveEachIsDeleteTokens(s: string)
    ensures RemoveEachFirst(s, QuantifierMatches(s)) == DeleteTokens(s)
  {
    RemoveEachAfter([], s);
    assert [] + s == s;
  }

  /** The matrix holds no quantifier token: all of them went to the front. */
  lemma PrenexMatrixNoToken(formula: string)
    ensures NoToken(PrenexMatrix(formula))
  {
    RemoveEachIsDeleteTokens(formula);
    DeleteTokensNoToken(formula);
    CollapseKeepsNoToken(DeleteTokens(formula));
    NoTokenTrim(CollapseSpaces(DeleteTokens(formula)));
  }

  /** The matrix keeps every character of the formula that is not a letter,
      a quantifier or whitespace, as often as it occurs. */
  lemma PrenexMatrixKeeps(formula: string, c: char)
    requires !IsLetter(c) && !IsQuantifier(c) && !IsSpace(c)
    ensures multiset(PrenexMatrix(formula))[c] == multiset(formula)[c]
  {
    var d := DeleteTokens(formula);
    RemoveEachIsDeleteTokens(formula);
    DeleteTokensKeeps(formula, c);
    CollapseSpacesKeeps(d, c);
    TrimKeeps(CollapseSpaces(d), c);
  }

  /** `moveToPrenexForm` */
  method MoveToPrenexForm(formula: string) returns (result: string)
    ensures result == PrenexForm(formula)
  {
    result := formula;
    var quantifiers: seq<string> := [];
    var quantifierMatches := QuantifierMatches(formula);
    var i := 0;
    while i < |quantifierMatches|
      invariant 0 <= i <= |quantifierMatches|
      invariant quantifiers == quantifierMatches[..i]
      invariant result == RemoveEachFirst(formula, quantifiers)
    {
      var q := quantifierMatches[i];
      quantifiers := quantifiers + [q];
      assert quantifiers[..|quantifiers| - 1] == quantifierMatches[..i];
      result := ReplaceFirst(result, q, "");
      i := i + 1;
    }
    assert quantifiers == quantifierMatches;
    result := Trim(CollapseSpaces(result));
    if |quantifiers| > 0 {
      result := Join(quantifiers, " ") + " (" + result + ")";
    }
  }

  /** What `separatePrenexParts` returns. */
  datatype PrenexParts = PrenexParts(quantifiers: string, matrix: string)

  /** `separatePrenexParts`: the leading run of quantifier tokens, trimmed,
      and the rest, trimmed and with a leading `(` and a trailing `)`
      removed; with no leading token, no quantifiers and the whole text. */
  function SeparatePrenexParts(formula: string): PrenexParts
  {
    var n := PrefixMatchLength(formula);
    if n > 0 then PrenexParts(Trim(formula[..n]), StripOuterParens(Trim(formula[n..])))
    else PrenexParts("", formula)
  }

  predicate AllTokens(qs: seq<string>) {
    forall k :: 0 <= k < |qs| ==> IsToken(qs[k])
  }

  /** The letter run of a token followed by a non-letter ends with the
      token. */
  lemma LetterRunOfToken(q: string, rest: string)
    requires IsToken(q) && rest != [] && !IsLetter(rest[0])
    ensures LetterRun((q + rest)[1..]) == |q| - 1
    decreases |q|
  {
    var s := (q + rest)[1..];
    LetterRunPrefix(s, |q| - 1);
  }

  lemma {:induction false} LetterRunPrefix(s: string, n: nat)
    requires n < |s| && (forall k :: 0 <= k < n ==> IsLetter(s[k])) && !IsLetter(s[n])
    ensures LetterRun(s) == n
    decreases n
  {
    if n > 0 {
      LetterRunPrefix(s[1..], n - 1);
    }
  }

  /** The first and last characters of tokens joined by spaces. */
  lemma JoinEnds(qs: seq<string>)
    requires qs != [] && AllTokens(qs)
    ensures var j := Join(qs, " ");
      |j| >= 2 && j[0] == qs[0][0] && IsQuantifier(j[0]) && IsLetter(j[1]) && IsLetter(j[|j| - 1])
    decreases |qs|
  {
    if |qs| > 1 {
      JoinEnds(qs[1..]);
      assert Join(qs, " ") == qs[0] + " " + Join(qs[1..], " ");
    }
  }

  /** A single leading space before a non-space is all `trimStart` drops. */
  lemma TrimStartOneSpace(rest: string)
    requires rest != [] && IsSpace(rest[0]) && (|rest| == 1 || !IsSpace(rest[1]))
    ensures TrimStart(rest) == rest[1..]
  {
  }

  /** The token match at the start of `q + rest` is `q` when `rest` opens
      with a non-letter. */
  lemma TokenEndOf(q: string, rest: string)
    requires IsToken(q) && rest != [] && !IsLetter(rest[0])
    ensures TokenAt(q + rest, 0) && TokenEnd(q + rest) == |q|
  {
    assert (q + rest)[0] == q[0] && (q + rest)[1] == q[1];
    LetterRunOfToken(q, rest);
  }

  /** One repetition of `([∀∃][a-zA-Z]+\s*)` over a token and one space. */
  lemma PrefixStep(q: string, y: string)
    requires IsToken(q) && (y == [] || !IsSpace(y[0]))
    ensures PrefixMatchLength(q + " " + y) == |q| + 1 + PrefixMatchLength(y)
  {
    var rest := " " + y;
    var s := q + rest;
    assert q + " " + y == s;
    TokenEndOf(q, rest);
    assert TrimStart(s[TokenEnd(s)..]) == y by {
      assert s[|q|..] == rest;
      TrimStartOneSpace(rest);
      assert rest[1..] == y;
    }
    assert s[|q| + 1..] == y;
  }

  /** A text starting with `(` has no prefix match. */
  lemma NoPrefixAtParen(t: string)
    requires t != [] && t[0] == '('
    ensures PrefixMatchLength(t) == 0
  {
    assert !TokenAt(t, 0);
  }

  /** The prefix match over `q (…` covers the token and its space. */
  lemma PrefixOfOne(q: string, t: string)
    requires IsToken(q)
    ensures PrefixMatchLength(q + " (" + t) == |q| + 1
  {
    var y := "(" + t;
    assert q + " (" + t == q + " " + y;
    PrefixStep(q, y);
    NoPrefixAtParen(y);
  }

  /** The prefix match over `q1 q2 … qn (…` covers the tokens and the one
      space after the last. */
  lemma {:induction false} PrefixOfPrenex(qs: seq<string>, t: string)
    requires qs != [] && AllTokens(qs)
    ensures PrefixMatchLength(Join(qs, " ") + " (" + t) == |Join(qs, " ")| + 1
    decreases |qs|
  {
    if |qs| == 1 {
      assert Join(qs, " ") == qs[0];
      PrefixOfOne(qs[0], t);
    } else {
      var q := qs[0];
      var j' := Join(qs[1..], " ");
      var y := j' + " (" + t;
      PrefixOfPrenex(qs[1..], t);
      JoinEnds(qs[1..]);
      PrefixStep(q, y);
      JoinAfterFirst(qs, t);
    }
  }

  /** The prenex text after its first token and space is the prenex text of
      the remaining tokens. */
  lemma JoinAfterFirst(qs: seq<string>, t: string)
    requires |qs| > 1
    ensures Join(qs, " ") + " (" + t == qs[0] + " " + (Join(qs[1..], " ") + " (" + t)
    ensures |Join(qs, " ")| == |qs[0]| + 1 + |Join(qs[1..], " ")|
  {
    JoinCons(qs, " ");
  }

  /** A collapsed text has a token only where the original had one. */
  lemma {:induction false} CollapseKeepsNoToken(s: string)
    requires NoToken(s)
    ensures NoToken(CollapseSpaces(s))
    decreases |s|
  {
    if s != [] {
      var r := CollapseSpaces(s);
      if IsSpace(s[0]) {
        var t := TrimStart(s);
        NoTokenSlice(s, |s| - |t|, |s|);
        assert s[|s| - |t|..|s|] == t;
        CollapseKeepsNoToken(t);
        assert r == " " + CollapseSpaces(t);
        forall i | 0 <= i < |r| ensures !TokenAt(r, i) {
          if i > 0 { assert TokenAt(r, i) ==> TokenAt(CollapseSpaces(t), i - 1); }
        }
      } else {
        NoTokenSlice(s, 1, |s|);
        assert s[1..|s|] == s[1..];
        CollapseKeepsNoToken(s[1..]);
        var c := CollapseSpaces(s[1..]);
        assert r == [s[0]] + c;
        forall i | 0 <= i < |r| ensures !TokenAt(r, i) {
          if i > 0 {
            assert TokenAt(r, i) ==> TokenAt(c, i - 1);
          } else if |r| > 1 {
            assert !TokenAt(s, 0);
          }
        }
      }
    }
  }

  /** The quantifier part of `j (m)`, trimmed, is `j`. */
  lemma QuantifierPartOf(j: string, m: string)
    requires j != [] && !IsSpace(j[0]) && !IsSpace(j[|j| - 1])
    ensures var p := j + " (" + m + ")"; Trim(p[..|j| + 1]) == j
  {
    var p := j + " (" + m + ")";
    assert p[..|j| + 1] == j + " ";
    TrimTrailingSpaces(j, " ");
  }

  /** The matrix part of `j (m)`, trimmed and stripped, is `m`. */
  lemma MatrixPartOf(j: string, m: string)
    ensures var p := j + " (" + m + ")"; StripOuterParens(Trim(p[|j| + 1..])) == m
  {
    var p := j + " (" + m + ")";
    assert p[|j| + 1..] == "(" + m + ")";
    TrimUnchanged("(" + m + ")");
    StripParenthesised(m);
  }

  /** The joined tokens have no whitespace at either end. */
  lemma JoinTrimmed(qs: seq<string>)
    requires qs != [] && AllTokens(qs)
    ensures var j := Join(qs, " "); j != [] && !IsSpace(j[0]) && !IsSpace(j[|j| - 1])
  {
    JoinEnds(qs);
  }

  /** The prefix match over `q1 … qn (m)` ends after the space before
      `(`. */
  lemma PrefixOfSeparated(qs: seq<string>, m: string)
    requires qs != [] && AllTokens(qs)
    ensures PrefixMatchLength(Join(qs, " ") + " (" + m + ")") == |Join(qs, " ")| + 1
  {
    PrefixOfPrenex(qs, m + ")");
    assert Join(qs, " ") + " (" + m + ")" == Join(qs, " ") + " (" + (m + ")");
  }

  /** A prefix `j` without surrounding whitespace, matched up to the space
      before `(m)`, separates into `j` and `m`. */
  lemma SeparateParts(j: string, m: string)
    requires j != [] && !IsSpace(j[0]) && !IsSpace(j[|j| - 1])
    requires PrefixMatchLength(j + " (" + m + ")") == |j| + 1
    ensures SeparatePrenexParts(j + " (" + m + ")") == PrenexParts(j, m)
  {
    QuantifierPartOf(j, m);
    MatrixPartOf(j, m);
  }

  /** Separating `q1 … qn (m)` gives back the joined tokens and `m`. */
  lemma SeparateQuantified(qs: seq<string>, m: string)
    requires qs != [] && AllTokens(qs)
    ensures SeparatePrenexParts(Join(qs, " ") + " (" + m + ")") == PrenexParts(Join(qs, " "), m)
  {
    JoinTrimmed(qs);
    PrefixOfSeparated(qs, m);
    SeparateParts(Join(qs, " "), m);
  }

  /** A text whose tidied form has no token at its start is not split. */
  lemma SeparateUnquantified(formula: string)
    requires QuantifierMatches(formula) == []
    ensures SeparatePrenexParts(PrenexMatrix(formula)) == PrenexParts("", PrenexMatrix(formula))
  {
    MatrixWithoutToken(formula);
    NotSplit(PrenexMatrix(formula));
  }

  /** The matrix of a formula without quantifier tokens has none either. */
  lemma MatrixWithoutToken(formula: string)
    requires QuantifierMatches(formula) == []
    ensures NoToken(PrenexMatrix(formula))
  {
    assert RemoveEachFirst(formula, []) == formula;
    CollapseKeepsNoToken(formula);
    NoTokenTrim(CollapseSpaces(formula));
  }

  /** Trimming a text without a quantifier token leaves none. */
  lemma NoTokenTrim(c: string)
    requires NoToken(c)
    ensures NoToken(Trim(c))
  {
    var m := Trim(c);
    var i := |c| - |TrimStart(c)|;
    assert m == c[i..i + |m|];
    NoTokenSlice(c, i, i + |m|);
  }

  /** A text without a quantifier token is all matrix. */
  lemma NotSplit(m: string)
    requires NoToken(m)
    ensures SeparatePrenexParts(m) == PrenexParts("", m)
  {
    assert !TokenAt(m, 0);
  }

  /** `separatePrenexParts` reads back what `moveToPrenexForm` wrote: the
      quantifier tokens joined by spaces, and the matrix. */
  lemma SeparateAfterPrenex(formula: string)
    ensures SeparatePrenexParts(PrenexForm(formula))
         == PrenexParts(Join(QuantifierMatches(formula), " "), PrenexMatrix(formula))
  {
    var qs := QuantifierMatches(formula);
    if qs != [] {
      SeparateQuantified(qs, PrenexMatrix(formula));
    } else {
      SeparateUnquantified(formula);
    }
  }

  /** A prenex form with quantifiers is its separated parts put back
      together around ` (` and `)`, as `convertToPCNF` and `convertToPDNF`
      reassemble them. */
  lemma PrenexPartsOfQuantified(formula: string)
    requires QuantifierMatches(formula) != []
    ensures var parts := SeparatePrenexParts(PrenexForm(formula));
      PrenexForm(formula) == parts.quantifiers + " (" + parts.matrix + ")"
  {
    SeparateAfterPrenex(formula);
  }
}
