/** `isHornClause`, `formatHornClause` and `convertToHornClauses`: a clause
    is cut at `∨` into literals, a literal starting with `¬` is negative, a
    clause with at most one positive literal is a Horn clause and is written
    as a goal, a fact or a rule. */
module Horn {
  import opened TextOps
  import opened Patterns
  import opened Clausal

  /** `parts.map(p => p.trim())` */
  function TrimAll(parts: seq<string>): (r: seq<string>)
    ensures |r| == |parts|
  {
    if parts == [] then [] else [Trim(parts[0])] + TrimAll(parts[1..])
  }

  /** `clause.split('∨').map(l => l.trim())` */
  function Literals(clause: string): seq<string>
  {
    TrimAll(Split(clause, '∨'))
  }

  /** Each trimmed part is the trim of the part at the same index. */
  lemma {:induction false} TrimAllAt(parts: seq<string>)
    ensures forall k :: 0 <= k < |parts| ==> TrimAll(parts)[k] == Trim(parts[k])
    decreases |parts|
  {
    if parts != [] {
      TrimAllAt(parts[1..]);
      forall k | 1 <= k < |parts| ensures TrimAll(parts)[k] == Trim(parts[k]) {
        assert TrimAll(parts)[k] == TrimAll(parts[1..])[k - 1];
      }
    }
  }

  /** There is one literal per `∨` of the clause, plus one; the k-th is the
      k-th `∨`-separated piece, trimmed, and holds no `∨`. */
  lemma LiteralsAre(clause: string)
    ensures |Literals(clause)| == 1 + multiset(clause)['∨']
    ensures forall k :: 0 <= k < |Literals(clause)| ==>
      Literals(clause)[k] == Trim(Split(clause, '∨')[k]) && '∨' !in Literals(clause)[k]
  {
    var parts := Split(clause, '∨');
    SplitCount(clause, '∨');
    TrimAllAt(parts);
    forall k | 0 <= k < |parts| ensures '∨' !in Trim(parts[k]) {
      TrimWithin(parts[k]);
      assert multiset(parts[k])['∨'] == 0;
    }
  }

  /** `l.startsWith('¬')` */
  predicate IsNegative(literal: string) {
    |literal| > 0 && literal[0] == '¬'
  }

  /** The literals that do not start with `¬`, in order. */
  function Positives(literals: seq<string>): (ps: seq<string>)
    ensures |ps| <= |literals|
    ensures forall k :: 0 <= k < |ps| ==> !IsNegative(ps[k]) && ps[k] in literals
  {
    if literals == [] then []
    else
      var rest := Positives(literals[1..]);
      if IsNegative(literals[0]) then rest else [literals[0]] + rest
  }

  /** The literals that start with `¬`, in order, each without its first
      character (`l.substring(1)`). */
  function NegativeAtoms(literals: seq<string>): (atoms: seq<string>)
    ensures |atoms| <= |literals|
    ensures forall k :: 0 <= k < |atoms| ==> "¬" + atoms[k] in literals
  {
    if literals == [] then []
    else
      var rest := NegativeAtoms(literals[1..]);
      if IsNegative(literals[0]) then
        assert "¬" + literals[0][1..] == literals[0];
        [literals[0][1..]] + rest
      else rest
  }

  /** Every literal is either positive or negative: the two lists together
      are as long as the literals. */
  lemma {:induction false} LiteralsPartition(literals: seq<string>)
    ensures |Positives(literals)| + |NegativeAtoms(literals)| == |literals|
  {
    if literals != [] {
      LiteralsPartition(literals[1..]);
    }
  }

  /** `isHornClause` */
  predicate IsHornClause(clause: string) {
    |Positives(Literals(clause))| <= 1
  }

  /** No positive literal is left exactly when every literal is negative. */
  lemma {:induction false} NoPositives(literals: seq<string>)
    ensures Positives(literals) == [] <==> forall i :: 0 <= i < |literals| ==> IsNegative(literals[i])
  {
    if literals != [] {
      NoPositives(literals[1..]);
      if IsNegative(literals[0]) {
        forall i | 0 <= i < |literals| && (forall j :: 0 <= j < |literals[1..]| ==> IsNegative(literals[1..][j]))
          ensures IsNegative(literals[i])
        {
          if i > 0 { assert literals[i] == literals[1..][i - 1]; }
        }
      }
    }
  }

  /** At most one positive literal, said position by position: of any two
      literals, one starts with `¬`. */
  lemma {:induction false} AtMostOnePositive(literals: seq<string>)
    ensures |Positives(literals)| <= 1 <==>
      forall i, j :: 0 <= i < j < |literals| ==> IsNegative(literals[i]) || IsNegative(literals[j])
  {
    if literals != [] {
      var rest := literals[1..];
      AtMostOnePositive(rest);
      NoPositives(rest);
      assert forall i :: 1 <= i < |literals| ==> literals[i] == rest[i - 1];
      if !IsNegative(literals[0]) && |Positives(literals)| > 1 {
        var k :| 0 <= k < |rest| && !IsNegative(rest[k]);
        assert !IsNegative(literals[k + 1]);
      }
    }
  }

  /** `isHornClause` holds iff of any two trimmed `∨`-separated literals one
      starts with `¬`. */
  lemma HornClauseIff(clause: string)
    ensures var ls := Literals(clause);
      IsHornClause(clause) <==> forall i, j :: 0 <= i < j < |ls| ==> IsNegative(ls[i]) || IsNegative(ls[j])
  {
    AtMostOnePositive(Literals(clause));
  }

  /** `formatHornClause`: a goal `:- B1, …, Bn.` when no literal is positive,
      a fact `H.` when none is negative, a rule `H :- B1, …, Bn.` otherwise;
      every shape ends with `.`. */
  function FormatHornClause(clause: string): (r: string)
    ensures |r| > 0 && r[|r| - 1] == '.'
  {
    var literals := Literals(clause);
    var positives := Positives(literals);
    var negatives := NegativeAtoms(literals);
    if |positives| == 0 then ":- " + Join(negatives, ", ") + "."
    else if |negatives| == 0 then positives[0] + "."
    else positives[0] + " :- " + Join(negatives, ", ") + "."
  }

  /** The head of a Horn clause that has a positive literal is that literal:
      the formatted clause starts with it. */
  lemma HornHead(clause: string, k: int)
    requires IsHornClause(clause)
    requires 0 <= k < |Literals(clause)| && !IsNegative(Literals(clause)[k])
    ensures var h := Literals(clause)[k]; |h| < |FormatHornClause(clause)| && FormatHornClause(clause)[..|h|] == h
  {
    var ls := Literals(clause);
    OnlyPositive(ls, k);
  }

  /** In literals with at most one positive, a positive literal is the first
      (and only) positive one. */
  lemma OnlyPositive(literals: seq<string>, k: int)
    requires |Positives(literals)| <= 1
    requires 0 <= k < |literals| && !IsNegative(literals[k])
    ensures |Positives(literals)| == 1 && Positives(literals)[0] == literals[k]
  {
    PositiveListed(literals, k);
    AtMostOnePositive(literals);
  }

  /** A positive literal occurs among the positives, and it is the first of
      them when no positive literal comes before it. */
  lemma {:induction false} PositiveListed(literals: seq<string>, k: int)
    requires 0 <= k < |literals| && !IsNegative(literals[k])
    ensures |Positives(literals)| > 0
    ensures (forall i :: 0 <= i < k ==> IsNegative(literals[i])) ==> Positives(literals)[0] == literals[k]
    decreases k
  {
    if k > 0 {
      PositiveListed(literals[1..], k - 1);
      assert literals[1..][k - 1] == literals[k];
    }
    else {
      assert Positives(literals) == [literals[0]] + Positives(literals[1..]);
    }
  }

  /** `s.replace(/[{}]/g, '')`: every brace is deleted. */
  function RemoveBraces(s: string): (r: string)
    ensures '{' !in r && '}' !in r
    decreases |s|
  {
    if s == [] then []
    else if s[0] == '{' || s[0] == '}' then RemoveBraces(s[1..])
    else [s[0]] + RemoveBraces(s[1..])
  }

  /** Deleting braces works piece by piece. */
  lemma {:induction false} RemoveBracesConcat(a: string, b: string)
    ensures RemoveBraces(a + b) == RemoveBraces(a) + RemoveBraces(b)
    decreases |a|
  {
    if a != [] {
      assert (a + b)[1..] == a[1..] + b;
      assert (a + b)[0] == a[0];
      RemoveBracesConcat(a[1..], b);
    } else {
      assert a + b == b;
    }
  }

  /** A text without braces is left as it is. */
  lemma {:induction false} RemoveBracesNone(s: string)
    requires '{' !in s && '}' !in s
    ensures RemoveBraces(s) == s
    decreases |s|
  {
    if s != [] {
      RemoveBracesNone(s[1..]);
      assert s == [s[0]] + s[1..];
    }
  }

  /** The clauses `convertToHornClauses` reads from the clausal form: braces
      deleted, cut at every `,`, each trimmed. */
  function HornInputs(clausalForm: string): seq<string>
  {
    TrimAll(Split(RemoveBraces(clausalForm), ','))
  }

  /** The elements of `xs` that `keep` accepts, in order. */
  function Select(xs: seq<string>, keep: string -> bool): (ys: seq<string>)
    ensures forall k :: 0 <= k < |ys| ==> keep(ys[k])
    decreases |xs|
  {
    if xs == [] then []
    else
      var init := Select(xs[..|xs| - 1], keep);
      if keep(xs[|xs| - 1]) then init + [xs[|xs| - 1]] else init
  }

  /** The elements of `xs` that `keep` refuses, in order. */
  function Reject(xs: seq<string>, keep: string -> bool): (ys: seq<string>)
    ensures forall k :: 0 <= k < |ys| ==> !keep(ys[k])
    decreases |xs|
  {
    if xs == [] then []
    else
      var init := Reject(xs[..|xs| - 1], keep);
      if keep(xs[|xs| - 1]) then init else init + [xs[|xs| - 1]]
  }

  /** Every element lands in exactly one of the two lists: together they
      hold each element once. */
  lemma {:induction false} SelectRejectPartition(xs: seq<string>, keep: string -> bool)
    ensures multiset(Select(xs, keep)) + multiset(Reject(xs, keep)) == multiset(xs)
    ensures |Select(xs, keep)| + |Reject(xs, keep)| == |xs|
    decreases |xs|
  {
    if xs != [] {
      var init, last := xs[..|xs| - 1], xs[|xs| - 1];
      SelectRejectPartition(init, keep);
      assert xs == init + [last];
      assert multiset(xs) == multiset(init) + multiset{last};
      if keep(last) {
        assert Select(xs, keep) == Select(init, keep) + [last];
        assert Reject(xs, keep) == Reject(init, keep);
      } else {
        assert Select(xs, keep) == Select(init, keep);
        assert Reject(xs, keep) == Reject(init, keep) + [last];
      }
    }
  }

  /** Selecting from a list with one more element in front. */
  lemma {:induction false} SelectCons(x: string, xs: seq<string>, keep: string -> bool)
    ensures Select([x] + xs, keep) == (if keep(x) then [x] else []) + Select(xs, keep)
    ensures Reject([x] + xs, keep) == (if keep(x) then [] else [x]) + Reject(xs, keep)
    decreases |xs|
  {
    if xs != [] {
      var ys := [x] + xs;
      var init := xs[..|xs| - 1];
      SelectCons(x, init, keep);
      assert ys[..|ys| - 1] == [x] + init;
      assert ys[|ys| - 1] == xs[|xs| - 1];
    }
  }

  /** Mapping a list with one more element in front. */
  lemma MapAllCons(x: string, xs: seq<string>, f: string -> string)
    ensures MapAll([x] + xs, f) == [f(x)] + MapAll(xs, f)
  {
    forall k | 0 <= k < |xs| + 1
      ensures MapAll([x] + xs, f)[k] == ([f(x)] + MapAll(xs, f))[k]
    {
      if k > 0 { assert ([x] + xs)[k] == xs[k - 1]; }
    }
  }

  /** `l.substring(1)` */
  function Unnegated(literal: string): string
  {
    if literal == [] then [] else literal[1..]
  }

  /** The positive literals are exactly the literals `startsWith('¬')`
      refuses, in order. */
  lemma {:induction false} PositivesAre(literals: seq<string>)
    ensures Positives(literals) == Reject(literals, IsNegative)
  {
    if literals != [] {
      PositivesAre(literals[1..]);
      SelectCons(literals[0], literals[1..], IsNegative);
      assert literals == [literals[0]] + literals[1..];
    }
  }

  /** The negative atoms are exactly the literals `startsWith('¬')` accepts,
      in order, each without its `¬`. */
  lemma {:induction false} NegativeAtomsAre(literals: seq<string>)
    ensures NegativeAtoms(literals) == MapAll(Select(literals, IsNegative), Unnegated)
  {
    if literals != [] {
      var x := literals[0];
      NegativeAtomsAre(literals[1..]);
      SelectCons(x, literals[1..], IsNegative);
      assert literals == [x] + literals[1..];
      if IsNegative(x) {
        MapAllCons(x, Select(literals[1..], IsNegative), Unnegated);
      }
    }
  }

  /** `convertToHornClauses` puts each clause into exactly one of its two
      lists, the Horn list holding the Horn clauses and the other list the
      rest. */
  lemma HornPartition(clauses: seq<string>)
    ensures multiset(Select(clauses, IsHornClause)) + multiset(Reject(clauses, IsHornClause)) == multiset(clauses)
    ensures forall k :: 0 <= k < |Select(clauses, IsHornClause)| ==> IsHornClause(Select(clauses, IsHornClause)[k])
    ensures forall k :: 0 <= k < |Reject(clauses, IsHornClause)| ==> !IsHornClause(Reject(clauses, IsHornClause)[k])
  {
    SelectRejectPartition(clauses, IsHornClause);
  }

  /** One more element is added to the list that takes it. */
  lemma SelectStep(xs: seq<string>, i: int, keep: string -> bool)
    requires 0 <= i < |xs|
    ensures Select(xs[..i + 1], keep) == Select(xs[..i], keep) + (if keep(xs[i]) then [xs[i]] else [])
    ensures Reject(xs[..i + 1], keep) == Reject(xs[..i], keep) + (if keep(xs[i]) then [] else [xs[i]])
  {
    assert xs[..i + 1][..i] == xs[..i];
  }

  /** `f` applied to each element. */
  function MapAll(xs: seq<string>, f: string -> string): (r: seq<string>)
    ensures |r| == |xs|
    ensures forall k :: 0 <= k < |r| ==> r[k] == f(xs[k])
  {
    seq(|xs|, k requires 0 <= k < |xs| => f(xs[k]))
  }

  /** Mapping one more element appends its image. */
  lemma MapAllAppend(xs: seq<string>, x: string, f: string -> string)
    ensures MapAll(xs + [x], f) == MapAll(xs, f) + [f(x)]
  {
    forall k | 0 <= k < |xs| + 1
      ensures MapAll(xs + [x], f)[k] == (MapAll(xs, f) + [f(x)])[k]
    {
      if k < |xs| { assert (xs + [x])[k] == xs[k]; }
    }
  }

  /** The `forEach` of `convertToHornClauses`, over any test and any
      formatting: an accepted clause is pushed formatted onto the first list,
      a refused one pushed as it is onto the second. */
  method SortClauses(clauses: seq<string>, isHorn: string -> bool, format: string -> string)
    returns (hornClauses: seq<string>, nonHornClauses: seq<string>)
    ensures hornClauses == MapAll(Select(clauses, isHorn), format)
    ensures nonHornClauses == Reject(clauses, isHorn)
  {
    hornClauses := [];
    nonHornClauses := [];
    var i := 0;
    while i < |clauses|
      invariant 0 <= i <= |clauses|
      invariant hornClauses == MapAll(Select(clauses[..i], isHorn), format)
      invariant nonHornClauses == Reject(clauses[..i], isHorn)
    {
      var clause := clauses[i];
      SelectStep(clauses, i, isHorn);
      if isHorn(clause) {
        MapAllAppend(Select(clauses[..i], isHorn), clause, format);
        hornClauses := hornClauses + [format(clause)];
      } else {
        nonHornClauses := nonHornClauses + [clause];
      }
      i := i + 1;
    }
    assert clauses[..i] == clauses;
  }

  const HornHeading := "Cláusulas de Horn:\n"
  const NonHornHeading := "Cláusulas não-Horn:\n{ "
  const NoClauses := "Nenhuma cláusula encontrada."

  /** The text `convertToHornClauses` builds from the two lists. */
  function HornText(horn: seq<string>, nonHorn: seq<string>): string
  {
    var start := "";
    var withHorn := if |horn| > 0 then start + HornHeading + Join(horn, "\n") + "\n\n" else start;
    var withNonHorn := if |nonHorn| > 0 then withHorn + NonHornHeading + Join(nonHorn, ", ") + " }" else withHorn;
    if |horn| == 0 && |nonHorn| == 0 then NoClauses else withNonHorn
  }

  /** The result of `convertToHornClauses`. */
  function HornReport(clausalForm: string): string
  {
    var clauses := HornInputs(clausalForm);
    HornText(MapAll(Select(clauses, IsHornClause), FormatHornClause), Reject(clauses, IsHornClause))
  }

  /** `convertToHornClauses`: each clause is pushed, formatted, onto the Horn
      list or, as it is, onto the non-Horn list. */
  method ConvertToHornClauses(clausalForm: string) returns (result: string)
    ensures result == HornReport(clausalForm)
  {
    var clauseContent := RemoveBraces(clausalForm);
    var clauses := TrimAll(Split(clauseContent, ','));
    var hornClauses, nonHornClauses := SortClauses(clauses, IsHornClause, FormatHornClause);
    result := "";
    if |hornClauses| > 0 {
      result := result + HornHeading + Join(hornClauses, "\n") + "\n\n";
    }
    if |nonHornClauses| > 0 {
      result := result + NonHornHeading + Join(nonHornClauses, ", ") + " }";
    }
    if |hornClauses| == 0 && |nonHornClauses| == 0 {
      result := NoClauses;
    }
    assert result == HornText(hornClauses, nonHornClauses);
    HornReportOf(clausalForm, clauses);
  }

  /** The report is the text built from the two lists of the clauses. */
  lemma HornReportOf(clausalForm: string, clauses: seq<string>)
    requires clauses == HornInputs(clausalForm)
    ensures HornReport(clausalForm) == HornText(MapAll(Select(clauses, IsHornClause), FormatHornClause), Reject(clauses, IsHornClause))
  {
  }

  /** With at least one clause the text opens with the Horn heading when
      there are Horn clauses and with the non-Horn heading otherwise, and is
      never `Nenhuma cláusula encontrada.`. */
  lemma HornTextOpens(horn: seq<string>, nonHorn: seq<string>)
    requires |horn| + |nonHorn| >= 1
    ensures var text := HornText(horn, nonHorn);
      text != NoClauses
      && (horn != [] ==> |text| >= |HornHeading| && text[..|HornHeading|] == HornHeading)
      && (horn == [] ==> |text| >= |NonHornHeading| && text[..|NonHornHeading|] == NonHornHeading)
  {
    var text := HornText(horn, nonHorn);
    if horn != [] {
      var withHorn := "" + HornHeading + Join(horn, "\n") + "\n\n";
      assert withHorn[..|HornHeading|] == HornHeading;
      if |nonHorn| > 0 {
        assert text == withHorn + (NonHornHeading + Join(nonHorn, ", ") + " }");
      }
      assert text[..|HornHeading|] == HornHeading;
      assert text[1] == 'l';
    } else {
      assert text == "" + NonHornHeading + Join(nonHorn, ", ") + " }";
      assert text == NonHornHeading + (Join(nonHorn, ", ") + " }");
      assert text[..|NonHornHeading|] == NonHornHeading;
      assert text[1] == 'l';
    }
  }

  /** The clausal form always yields at least one clause, so the report of
      `convertToHornClauses` is never `Nenhuma cláusula encontrada.`: it
      opens with the Horn heading exactly when some clause is a Horn clause,
      and with the non-Horn heading otherwise. */
  lemma HornReportNeverEmpty(clausalForm: string)
    ensures var report := HornReport(clausalForm);
      var horn := Select(HornInputs(clausalForm), IsHornClause);
      report != NoClauses
      && (horn != [] ==> |report| >= |HornHeading| && report[..|HornHeading|] == HornHeading)
      && (horn == [] ==> |report| >= |NonHornHeading| && report[..|NonHornHeading|] == NonHornHeading)
  {
    var clauses := HornInputs(clausalForm);
    SelectRejectPartition(clauses, IsHornClause);
    HornTextOpens(MapAll(Select(clauses, IsHornClause), FormatHornClause), Reject(clauses, IsHornClause));
  }

  /** A lone piece between two spaces is read back as itself. */
  lemma ReadOnePiece(p: string)
    requires ',' !in p && (p == [] || (!IsSpace(p[0]) && !IsSpace(p[|p| - 1])))
    ensures TrimAll(Split(" " + p + " ", ',')) == [p]
  {
    assert ',' !in " " + p + " ";
    SplitWithout(" " + p + " ", ',');
    TrimPadded(" ", p, " ");
  }

  /** A piece after a space and before a `,` is read back as itself, and the
      reading goes on after the `,`. */
  lemma ReadFirstPiece(p: string, rest: string)
    requires ',' !in p && (p == [] || (!IsSpace(p[0]) && !IsSpace(p[|p| - 1])))
    ensures TrimAll(Split(" " + p + [','] + rest, ',')) == [p] + TrimAll(Split(rest, ','))
  {
    assert ',' !in " " + p;
    SplitAfter(" " + p, ',', rest);
    TrimPadded(" ", p, []);
    assert " " + p + [] == " " + p;
    assert ([" " + p] + Split(rest, ','))[1..] == Split(rest, ',');
  }

  /** The joined pieces between two spaces, cut after the first piece. */
  lemma JoinAtComma(pieces: seq<string>)
    requires |pieces| > 1
    ensures " " + Join(pieces, ", ") + " " == " " + pieces[0] + [','] + (" " + Join(pieces[1..], ", ") + " ")
  {
    JoinCons(pieces, ", ");
  }

  /** Pieces without `,` and without surrounding whitespace, joined by `, `
      between two spaces, are read back by the `,` split and the trims. */
  lemma {:induction false} SplitJoined(pieces: seq<string>)
    requires |pieces| >= 1
    requires forall k :: 0 <= k < |pieces| ==> ',' !in pieces[k]
    requires forall k :: 0 <= k < |pieces| ==>
      pieces[k] == [] || (!IsSpace(pieces[k][0]) && !IsSpace(pieces[k][|pieces[k]| - 1]))
    ensures TrimAll(Split(" " + Join(pieces, ", ") + " ", ',')) == pieces
    decreases |pieces|
  {
    var p := pieces[0];
    if |pieces| == 1 {
      assert Join(pieces, ", ") == p;
      ReadOnePiece(p);
    } else {
      var rest := " " + Join(pieces[1..], ", ") + " ";
      calc {
        TrimAll(Split(" " + Join(pieces, ", ") + " ", ','));
        { JoinAtComma(pieces); }
        TrimAll(Split(" " + p + [','] + rest, ','));
        { ReadFirstPiece(p, rest); }
        [p] + TrimAll(Split(rest, ','));
        { SplitJoined(pieces[1..]); }
        [p] + pieces[1..];
        pieces;
      }
    }
  }

  /** A character that is not in the normal form, nor removed by it, is
      not in the joined clauses. */
  lemma JoinedClausesFree(pcnf: string, c: char)
    requires !IsLetter(c) && !IsSpace(c) && !IsQuantifier(c) && c != '(' && c != ')' && c != ','
    requires c !in pcnf
    ensures c !in Join(ClausalPieces(pcnf), ", ")
  {
    PiecesFreeOf(pcnf, c);
    JoinFreeOf(ClausalPieces(pcnf), ", ", c);
  }

  /** The braces of the clausal form go, the spaces inside them stay. */
  lemma ClausalBraces(pcnf: string)
    requires '{' !in pcnf && '}' !in pcnf
    ensures var j := Join(ClausalPieces(pcnf), ", ");
      RemoveBraces("{ " + j + " }") == " " + j + " "
  {
    var j := Join(ClausalPieces(pcnf), ", ");
    assert '{' !in j by {
      JoinedClausesFree(pcnf, '{');
    }
    assert '}' !in j by {
      JoinedClausesFree(pcnf, '}');
    }
    BracesAround(j);
  }

  /** The joined clauses, cut at `,` and trimmed, are the clauses again. */
  lemma ClausalCommas(pcnf: string)
    requires ',' !in pcnf
    ensures TrimAll(Split(" " + Join(ClausalPieces(pcnf), ", ") + " ", ',')) == ClausalPieces(pcnf)
  {
    ClausalPieceCount(pcnf);
    ClausalPiecesTrimmed(pcnf);
    PiecesFreeOf(pcnf, ',');
    SplitJoined(ClausalPieces(pcnf));
  }

  /** `convertToHornClauses` reads back exactly the clauses
      `convertToClausalForm` wrote, as long as the normal form has no `,`
      and no brace; a `,` inside a clause, as in `P(x, y)`, would cut it in
      two. */
  lemma HornReadsClausal(pcnf: string)
    requires ',' !in pcnf && '{' !in pcnf && '}' !in pcnf
    ensures HornInputs(ConvertToClausalForm(pcnf)) == ClausalPieces(pcnf)
  {
    var j := Join(ClausalPieces(pcnf), ", ");
    calc {
      HornInputs(ConvertToClausalForm(pcnf));
      TrimAll(Split(RemoveBraces("{ " + j + " }"), ','));
    == { ClausalBraces(pcnf); }
      TrimAll(Split(" " + j + " ", ','));
    == { ClausalCommas(pcnf); }
      ClausalPieces(pcnf);
    }
  }

  lemma OpeningBrace()
    ensures RemoveBraces("{ ") == " "
  {
    assert "{ "[1..] == " ";
    assert " "[1..] == [];
  }

  lemma ClosingBrace()
    ensures RemoveBraces(" }") == " "
  {
    assert " }"[1..] == "}";
    assert "}"[1..] == [];
  }

  /** Deleting the braces of `{ j }` leaves `j` between two spaces when `j`
      holds no brace. */
  lemma BracesAround(j: string)
    requires '{' !in j && '}' !in j
    ensures RemoveBraces("{ " + j + " }") == " " + j + " "
  {
    calc {
      RemoveBraces("{ " + j + " }");
    == { assert "{ " + j + " }" == "{ " + (j + " }"); }
      RemoveBraces("{ " + (j + " }"));
    == { RemoveBracesConcat("{ ", j + " }"); OpeningBrace(); }
      " " + RemoveBraces(j + " }");
    == { RemoveBracesConcat(j, " }"); RemoveBracesNone(j); ClosingBrace(); }
      " " + (j + " ");
    }
  }
}
