/** `convertToClausalForm`: the quantifier tokens are dropped, the text is
    cut at every `∧`, and each piece loses its surrounding whitespace and
    outer parentheses before the pieces are written as a set. */
module Clausal {
  import opened TextOps
  import opened Patterns
  import opened Prenex

  /** The text `split('∧')` is applied to: the normal form without its
      quantifier tokens and without a leading `(` and a trailing `)`. */
  function ClauseText(pcnf: string): string
  {
    StripOuterParens(RemoveQuantifierTokens(pcnf))
  }

  /** A prenex form `q1 … qn (m)` whose matrix has no token gives `m` as
      the text the clauses are cut from: the tokens go with their spaces and
      the outer parentheses are stripped. */
  lemma ClauseTextOfPrenex(qs: seq<string>, m: string)
    requires qs != [] && AllTokens(qs) && NoToken(m)
    ensures ClauseText(Join(qs, " ") + " (" + m + ")") == m
  {
    var u := "(" + m + ")";
    assert Join(qs, " ") + " (" + m + ")" == Join(qs, " ") + " " + u;
    RemoveTokensJoined(qs, u);
    NoTokenParenthesised(m);
    RemoveTokensIdentity(u);
    StripParenthesised(m);
  }

  /** The text the clauses are cut from, read off the prenex form of a
      quantified formula, is its matrix. */
  lemma ClauseTextOfPrenexForm(formula: string)
    requires QuantifierMatches(formula) != []
    ensures ClauseText(PrenexForm(formula)) == PrenexMatrix(formula)
  {
    PrenexMatrixNoToken(formula);
    ClauseTextOfPrenex(QuantifierMatches(formula), PrenexMatrix(formula));
  }

  /** The tokens of a prenex prefix go together with the spaces between
      them. */
  lemma {:induction false} RemoveTokensJoined(qs: seq<string>, v: string)
    requires qs != [] && AllTokens(qs) && v != [] && !IsSpace(v[0])
    ensures RemoveQuantifierTokens(Join(qs, " ") + " " + v) == RemoveQuantifierTokens(v)
    decreases |qs|
  {
    if |qs| == 1 {
      assert Join(qs, " ") == qs[0];
      RemoveTokensStep(qs[0], v);
    } else {
      var w := Join(qs[1..], " ") + " " + v;
      RemoveTokensJoined(qs[1..], v);
      JoinEnds(qs[1..]);
      JoinCons(qs, " ");
      Regroup(qs[0], " ", Join(qs[1..], " "), v);
      assert w[0] == Join(qs[1..], " ")[0];
      RemoveTokensStep(qs[0], w);
    }
  }

  // A step for the verifier: regrouping a concatenation, kept apart so
  // that the proof that uses it stays small.
  lemma Regroup(a: string, sep: string, b: string, v: string)
    ensures a + sep + b + sep + v == a + sep + (b + sep + v)
  {
  }

  /** A token and one space are deleted together. */
  lemma RemoveTokensStep(q: string, v: string)
    requires IsToken(q) && v != [] && !IsSpace(v[0])
    ensures RemoveQuantifierTokens(q + " " + v) == RemoveQuantifierTokens(v)
  {
    var rest := " " + v;
    var s := q + rest;
    assert q + " " + v == s;
    TokenEndOf(q, rest);
    assert TrimStart(s[TokenEnd(s)..]) == v by {
      assert s[|q|..] == rest;
      TrimStartOneSpace(rest);
      assert rest[1..] == v;
    }
  }

  /** Parentheses around a text without tokens make none. */
  lemma NoTokenParenthesised(m: string)
    requires NoToken(m)
    ensures NoToken("(" + m + ")")
  {
    var p := "(" + m + ")";
    forall i | 0 <= i < |p| ensures !TokenAt(p, i) {
      if 1 <= i < |m| {
        assert p[i] == m[i - 1] && p[i + 1] == m[i];
        assert !TokenAt(m, i - 1);
      }
    }
  }

  /** One piece after `trim`, the `/^\(|\)$/g` strip and `trim` again: it
      has no whitespace at either end and only characters of the segment. */
  function TidyClause(segment: string): (r: string)
    ensures r == [] || (!IsSpace(r[0]) && !IsSpace(r[|r| - 1]))
    ensures multiset(r) <= multiset(segment)
  {
    var a := Trim(segment);
    var b := StripOuterParens(a);
    TrimWithin(segment);
    StripOuterParensWithin(a);
    TrimWithin(b);
    Trim(b)
  }

  /** Tidying removes only whitespace and parentheses: every other character
      keeps its count. */
  lemma TidyClauseKeeps(segment: string, c: char)
    requires !IsSpace(c) && c != '(' && c != ')'
    ensures multiset(TidyClause(segment))[c] == multiset(segment)[c]
  {
    var a := Trim(segment);
    TrimKeeps(segment, c);
    StripOuterParensKeeps(a, c);
    TrimKeeps(StripOuterParens(a), c);
  }

  /** The clauses of the clausal form: the tidied `∧`-separated segments. */
  function ClausalPieces(pcnf: string): (pieces: seq<string>)
  {
    var segments := Split(ClauseText(pcnf), '∧');
    seq(|segments|, k requires 0 <= k < |segments| => TidyClause(segments[k]))
  }

  /** Tidying every segment keeps, over all of them, the count of every
      character that is not whitespace or a parenthesis. */
  lemma TidyAllKeeps(segments: seq<string>, x: char)
    requires !IsSpace(x) && x != '(' && x != ')'
    ensures CountAll(seq(|segments|, k requires 0 <= k < |segments| => TidyClause(segments[k])), x)
         == CountAll(segments, x)
  {
    var tidied := seq(|segments|, k requires 0 <= k < |segments| => TidyClause(segments[k]));
    forall k | 0 <= k < |segments| ensures multiset(tidied[k])[x] == multiset(segments[k])[x] {
      TidyClauseKeeps(segments[k], x);
    }
    CountAllPointwise(tidied, segments, x);
  }

  /** The clauses together hold every character of the normal form that
      cutting and tidying do not touch (not a letter, whitespace, a
      quantifier, a parenthesis or `∧`) exactly as often as the normal form
      does. */
  lemma ClausalPiecesKeep(pcnf: string, x: char)
    requires !IsLetter(x) && !IsSpace(x) && !IsQuantifier(x) && x != '(' && x != ')' && x != '∧'
    ensures CountAll(ClausalPieces(pcnf), x) == multiset(pcnf)[x]
  {
    var text := ClauseText(pcnf);
    RemoveQuantifierTokensKeeps(pcnf, x);
    StripOuterParensKeeps(RemoveQuantifierTokens(pcnf), x);
    SplitKeeps(text, '∧', x);
    TidyAllKeeps(Split(text, '∧'), x);
  }

  /** One clause per `∧` of the normal form, and one more: quantifier tokens
      hold no `∧`, nor does the strip remove one. */
  lemma ClausalPieceCount(pcnf: string)
    ensures |ClausalPieces(pcnf)| == 1 + multiset(pcnf)['∧']
  {
    RemoveQuantifierTokensKeeps(pcnf, '∧');
    StripOuterParensKeeps(RemoveQuantifierTokens(pcnf), '∧');
    SplitCount(ClauseText(pcnf), '∧');
  }

  /** No clause holds `∧`. */
  lemma ClausalPiecesWithoutAnd(pcnf: string)
    ensures forall k :: 0 <= k < |ClausalPieces(pcnf)| ==> '∧' !in ClausalPieces(pcnf)[k]
  {
    var segments := Split(ClauseText(pcnf), '∧');
    forall k | 0 <= k < |segments| ensures '∧' !in TidyClause(segments[k]) {
      var seg := segments[k];
      assert multiset(seg)['∧'] == 0;
      assert multiset(TidyClause(seg))['∧'] == 0;
    }
  }

  /** No clause starts or ends with whitespace. */
  lemma ClausalPiecesTrimmed(pcnf: string)
    ensures forall k :: 0 <= k < |ClausalPieces(pcnf)| ==> var p := ClausalPieces(pcnf)[k];
      p == [] || (!IsSpace(p[0]) && !IsSpace(p[|p| - 1]))
  {
    var pieces := ClausalPieces(pcnf);
    var segments := Split(ClauseText(pcnf), '∧');
    forall k | 0 <= k < |pieces|
      ensures pieces[k] == [] || (!IsSpace(pieces[k][0]) && !IsSpace(pieces[k][|pieces[k]| - 1]))
    {
      assert pieces[k] == TidyClause(segments[k]);
    }
  }

  /** A character that is not a letter, whitespace, a quantifier or a
      parenthesis reaches a clause only from the normal form. */
  lemma PiecesFreeOf(pcnf: string, c: char)
    requires !IsLetter(c) && !IsSpace(c) && !IsQuantifier(c) && c != '(' && c != ')'
    requires c !in pcnf
    ensures forall k :: 0 <= k < |ClausalPieces(pcnf)| ==> c !in ClausalPieces(pcnf)[k]
  {
    var text := ClauseText(pcnf);
    RemoveQuantifierTokensKeeps(pcnf, c);
    StripOuterParensKeeps(RemoveQuantifierTokens(pcnf), c);
    assert multiset(text)[c] == 0;
    SplitPartsWithin(text, '∧');
    var segments := Split(text, '∧');
    forall k | 0 <= k < |ClausalPieces(pcnf)| ensures c !in ClausalPieces(pcnf)[k] {
      assert ClausalPieces(pcnf)[k] == TidyClause(segments[k]);
      assert multiset(TidyClause(segments[k]))[c] <= multiset(segments[k])[c] <= multiset(text)[c];
    }
  }

  /** `convertToClausalForm`: `{ `, the clauses joined by `, `, and ` }`. */
  function ConvertToClausalForm(pcnf: string): string
  {
    "{ " + Join(ClausalPieces(pcnf), ", ") + " }"
  }
}
