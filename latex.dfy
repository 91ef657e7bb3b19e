/** The text side of `parseFormula` and `detectFormulaType`: the eight LaTeX
    commands become logic symbols, and the letters written just before an
    argument list are collected. */
module Latex {
  import opened TextOps
  import opened Patterns

  /** The LaTeX commands, in the order `parseFormula` replaces them. */
  const Commands: seq<string> :=
    ["\\forall", "\\exists", "\\rightarrow", "\\leftrightarrow", "\\land", "\\lor", "\\neg", "\\lnot"]

  /** The symbol each command becomes, position by position. */
  const Symbols: seq<string> := ["∀", "∃", "→", "↔", "∧", "∨", "¬", "¬"]

  /** No symbol character appears in any command: every command is ASCII and
      every symbol lies above it. */
  lemma SymbolsOutsideCommands(i: int, j: int)
    requires 0 <= i < |Symbols| && 0 <= j < |Commands|
    ensures |Symbols[i]| > 0 && |Commands[j]| > 0
    ensures forall c :: c in Symbols[i] ==> c !in Commands[j]
  {
    var t := Commands[j];
    assert forall k :: 0 <= k < |t| ==> t[k] <= '~';
    assert forall c :: c in Symbols[i] ==> c > '~';
  }

  /** The first `n` replace-alls of `parseFormula`, applied in source order. */
  function SubstituteFirst(s: string, n: nat): string
    requires n <= |Commands|
  {
    if n == 0 then s
    else ReplaceAll(SubstituteFirst(s, n - 1), Commands[n - 1], Symbols[n - 1])
  }

  /** `processed`: the input after all eight replace-alls. */
  function SubstituteLatex(s: string): string
  {
    SubstituteFirst(s, |Commands|)
  }

  /** After the first `n` replacements none of the first `n` commands is left:
      each replacement removes its own command, and since it inserts a
      symbol that no command contains it cannot bring back an earlier one. */
  lemma {:induction false} SubstituteFirstRemoves(s: string, n: nat)
    requires n <= |Commands|
    ensures forall j :: 0 <= j < n ==> !Contains(SubstituteFirst(s, n), Commands[j])
  {
    if n > 0 {
      SubstituteFirstRemoves(s, n - 1);
      var before := SubstituteFirst(s, n - 1);
      forall j | 0 <= j < n
        ensures !Contains(SubstituteFirst(s, n), Commands[j])
      {
        SymbolsOutsideCommands(n - 1, j);
        SymbolsOutsideCommands(n - 1, n - 1);
        ReplaceAllLeavesNo(before, Commands[n - 1], Symbols[n - 1], Commands[j]);
      }
    }
  }

  /** `processed` holds none of `\forall`, `\exists`, `\rightarrow`,
      `\leftrightarrow`, `\land`, `\lor`, `\neg`, `\lnot`. */
  lemma NoCommandLeft(s: string)
    ensures forall j :: 0 <= j < |Commands| ==> !Contains(SubstituteLatex(s), Commands[j])
  {
    SubstituteFirstRemoves(s, |Commands|);
  }

  /** Text without any command is left as it is. */
  lemma {:induction false} SubstituteFirstKeeps(s: string, n: nat)
    requires n <= |Commands|
    requires forall j :: 0 <= j < |Commands| ==> !Contains(s, Commands[j])
    ensures SubstituteFirst(s, n) == s
  {
    if n > 0 {
      SubstituteFirstKeeps(s, n - 1);
    }
  }

  /** The substitution is idempotent: a second pass finds nothing to do. */
  lemma SubstituteLatexIdempotent(s: string)
    ensures SubstituteLatex(SubstituteLatex(s)) == SubstituteLatex(s)
  {
    NoCommandLeft(s);
    SubstituteFirstKeeps(SubstituteLatex(s), |Commands|);
  }

  datatype FormulaType = FirstOrder | Propositional

  /** `detectFormulaType`: first-order exactly when `∀` or `∃` occurs. */
  function DetectFormulaType(formula: string): (t: FormulaType)
    ensures t == FirstOrder <==> Contains(formula, "∀") || Contains(formula, "∃")
  {
    ContainsChar(formula, '∀');
    ContainsChar(formula, '∃');
    if '∀' in formula || '∃' in formula then FirstOrder else Propositional
  }

  /** The names `parseFormula` adds to `variables`: for each match of
      `[a-zA-Z]\([^)]*\)` in the processed text, the one-letter string before
      its `(`. */
  function VariableNames(processed: string): (names: set<string>)
    ensures forall v :: v in names ==> |v| == 1 && IsLetter(v[0])
    ensures '(' !in processed ==> names == {}
  {
    NameSetOf(CallHeads(processed))
  }

  /** The one-letter names of a sequence of letters. */
  function NameSetOf(heads: seq<char>): set<string>
  {
    set k | 0 <= k < |heads| :: [heads[k]]
  }

  lemma NameSetOfCons(c: char, heads: seq<char>)
    ensures NameSetOf([c] + heads) == {[c]} + NameSetOf(heads)
  {
    var hs := [c] + heads;
    forall v | v in NameSetOf(hs) ensures v in {[c]} + NameSetOf(heads) {
      var k :| 0 <= k < |hs| && v == [hs[k]];
      if k > 0 { assert hs[k] == heads[k - 1]; }
    }
    forall v | v in NameSetOf(heads) ensures v in NameSetOf(hs) {
      var k :| 0 <= k < |heads| && v == [heads[k]];
      assert hs[k + 1] == heads[k];
    }
    assert [hs[0]] in NameSetOf(hs);
  }

  /** No name is added exactly when `[a-zA-Z]\([^)]*\)` matches nowhere in
      the processed text. */
  lemma VariableNamesNone(processed: string)
    ensures VariableNames(processed) == {} <==> forall i :: !CallAt(processed, i)
  {
    var heads := CallHeads(processed);
    CallHeadsNone(processed);
    if heads != [] {
      assert [heads[0]] in NameSetOf(heads);
    }
  }

  /** The letter of the first match is added, and the names after it are
      those of the text after the `)` that closes that match. */
  lemma VariableNamesFirst(processed: string, i: int)
    requires CallAt(processed, i) && forall j :: 0 <= j < i ==> !CallAt(processed, j)
    ensures var close := i + 2 + IndexOf(processed[i + 2..], ")");
      close < |processed|
      && VariableNames(processed) == {[processed[i]]} + VariableNames(processed[close + 1..])
  {
    CallHeadsFirst(processed, i);
    var close := i + 2 + IndexOf(processed[i + 2..], ")");
    NameSetOfCons(processed[i], CallHeads(processed[close + 1..]));
  }
}
