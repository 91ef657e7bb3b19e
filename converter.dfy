/** The `LogicFormulaConverter` object: the `variables` set that
    `parseFormula` fills, the `steps` list that `addStep` grows, and the
    chain of `convertFormula` from the raw input to the four results, with
    the page output left out. */
module Converter {
  import opened TextOps
  import opened Patterns
  import opened Latex
  import opened Negation
  import opened Renaming
  import opened Prenex
  import opened Distribution
  import opened Clausal
  import opened Horn

  /** One entry of `steps`. */
  datatype Step = Step(title: string, formula: string)

  /** What `parseFormula` returns. */
  datatype ParsedFormula = ParsedFormula(original: string, processed: string, formulaType: FormulaType)

  /** The four texts `convertFormula` shows. */
  datatype Results = Results(pcnf: string, pdnf: string, clausal: string, horn: string)

  /** A conversion either yields the four results or stops with the message
      shown for an empty input. */
  datatype Outcome = Converted(results: Results) | Refused(message: string)

  const EmptyInput := "Por favor, digite uma fórmula válida."

  const ImplicationsTitle := "Eliminação de Implicações e Biimpicações"
  const NegationTitle := "Forma Normal de Negação (NNF)"
  const RenamingTitle := "Renomeação de Variáveis Ligadas"
  const PrenexTitle := "Forma Prenex"

  /** The four intermediate formulas of a conversion, in order. */
  function Stages(input: string, rw: Rewrites): (r: seq<string>)
    ensures |r| == 4
  {
    var step1 := EliminateImplications(SubstituteLatex(input), rw);
    var step2 := MoveNegationsInward(step1, rw);
    var step3 := Renamed(step2);
    [step1, step2, step3, PrenexForm(step3)]
  }

  /** The `steps` a conversion records. */
  function StepsOf(input: string, rw: Rewrites): seq<Step>
  {
    var s := Stages(input, rw);
    [Step(ImplicationsTitle, s[0]), Step(NegationTitle, s[1]), Step(RenamingTitle, s[2]), Step(PrenexTitle, s[3])]
  }

  /** The distribution loops on the matrix of the prenex form stop within
      the given bounds. */
  predicate Terminates(input: string, rw: Rewrites, cnfBound: nat, dnfBound: nat)
  {
    var matrix := SeparatePrenexParts(Stages(input, rw)[3]).matrix;
    Saturate(rw.distributeOr, matrix, cnfBound).Some? && Saturate(rw.distributeAnd, matrix, dnfBound).Some?
  }

  /** The four results computed from a prenex formula. */
  function PrenexResults(prenexFormula: string, rw: Rewrites, cnfBound: nat, dnfBound: nat): Results
    requires Saturate(rw.distributeOr, SeparatePrenexParts(prenexFormula).matrix, cnfBound).Some?
    requires Saturate(rw.distributeAnd, SeparatePrenexParts(prenexFormula).matrix, dnfBound).Some?
  {
    var parts := SeparatePrenexParts(prenexFormula);
    var pcnf := parts.quantifiers + " (" + Saturate(rw.distributeOr, parts.matrix, cnfBound).value + ")";
    var pdnf := parts.quantifiers + " (" + Saturate(rw.distributeAnd, parts.matrix, dnfBound).value + ")";
    var clausal := ConvertToClausalForm(pcnf);
    Results(pcnf, pdnf, clausal, HornReport(clausal))
  }

  /** The four results of a conversion of a non-empty input. */
  function Conversion(input: string, rw: Rewrites, cnfBound: nat, dnfBound: nat): Results
    requires Terminates(input, rw, cnfBound, dnfBound)
  {
    PrenexResults(Stages(input, rw)[3], rw, cnfBound, dnfBound)
  }

  /** A step for the verifier: the stages as the converter computes them
      one after the other. */
  lemma StagesAre(input: string, rw: Rewrites, step1: string, step2: string, step3: string, step4: string)
    requires step1 == EliminateImplications(SubstituteLatex(input), rw)
    requires step2 == MoveNegationsInward(step1, rw) && step3 == Renamed(step2) && step4 == PrenexForm(step3)
    ensures StepsOf(input, rw)
      == [Step(ImplicationsTitle, step1), Step(NegationTitle, step2), Step(RenamingTitle, step3), Step(PrenexTitle, step4)]
    ensures Stages(input, rw)[3] == step4
  {
  }

  // A step for the verifier: the cleared set of names, joined with the new
  // ones, is just the new ones.
  lemma NoVariablesBefore(names: set<string>)
    ensures {} + names == names
  {
  }

  // A step for the verifier: four appends to an empty list give the
  // four-element list.
  lemma FourSteps(a: Step, b: Step, c: Step, d: Step)
    ensures [] + [a] + [b] + [c] + [d] == [a, b, c, d]
  {
  }

  /** A step for the verifier: the results as the converter computes them
      from the prenex form. */
  lemma ConversionIs(input: string, rw: Rewrites, cnfBound: nat, dnfBound: nat, step4: string, results: Results)
    requires Terminates(input, rw, cnfBound, dnfBound) && step4 == Stages(input, rw)[3]
    requires results == PrenexResults(step4, rw, cnfBound, dnfBound)
    ensures Conversion(input, rw, cnfBound, dnfBound) == results
  {
  }

  /** When the matrix of a quantified formula lacks `∨` or `∧`, both loops
      stop at once and the conjunctive and disjunctive forms are the prenex
      form itself. */
  lemma PlainMatrixIsNormal(formula: string, rw: Rewrites, cnfBound: nat, dnfBound: nat)
    requires QuantifierMatches(formula) != [] && !NeedsDistribution(PrenexMatrix(formula))
    ensures SeparatePrenexParts(PrenexForm(formula)).matrix == PrenexMatrix(formula)
    ensures var r := PrenexResults(PrenexForm(formula), rw, cnfBound, dnfBound);
      r.pcnf == PrenexForm(formula) && r.pdnf == PrenexForm(formula)
  {
    SeparateAfterPrenex(formula);
    PrenexPartsOfQuantified(formula);
  }

  /** Without quantifiers, a matrix that lacks `∨` or `∧` is still wrapped:
      the separated quantifier part is empty, so both forms are ` (`, the
      prenex form, and `)`. */
  lemma PlainUnquantified(formula: string, rw: Rewrites, cnfBound: nat, dnfBound: nat)
    requires QuantifierMatches(formula) == [] && !NeedsDistribution(PrenexMatrix(formula))
    ensures SeparatePrenexParts(PrenexForm(formula)) == PrenexParts("", PrenexForm(formula))
    ensures var r := PrenexResults(PrenexForm(formula), rw, cnfBound, dnfBound);
      r.pcnf == " (" + PrenexForm(formula) + ")" && r.pdnf == " (" + PrenexForm(formula) + ")"
  {
    var p := PrenexForm(formula);
    assert p == PrenexMatrix(formula);
    SeparateUnquantified(formula);
    PlainResultsUnquantified(p, rw, cnfBound, dnfBound);
  }

  /** Results of a formula that is its own matrix and needs no distribution. */
  lemma PlainResultsUnquantified(p: string, rw: Rewrites, cnfBound: nat, dnfBound: nat)
    requires SeparatePrenexParts(p) == PrenexParts("", p) && !NeedsDistribution(p)
    ensures var r := PrenexResults(p, rw, cnfBound, dnfBound);
      r.pcnf == " (" + p + ")" && r.pdnf == " (" + p + ")"
  {
    PlainResults(p, rw, cnfBound, dnfBound, "", p);
    EmptyPrefix(" (");
  }

  // A step for the verifier: the empty quantifier part in front of a text
  // leaves it as it is.
  lemma EmptyPrefix(x: string)
    ensures "" + x == x
  {
  }

  /** Results of a prenex formula whose matrix needs no distribution. */
  lemma PlainResults(prenexFormula: string, rw: Rewrites, cnfBound: nat, dnfBound: nat, quantifiers: string, matrix: string)
    requires SeparatePrenexParts(prenexFormula) == PrenexParts(quantifiers, matrix) && !NeedsDistribution(matrix)
    ensures var r := PrenexResults(prenexFormula, rw, cnfBound, dnfBound);
      r.pcnf == quantifiers + " (" + matrix + ")" && r.pdnf == quantifiers + " (" + matrix + ")"
  {
  }

  /** The results do not depend on the bounds used to state that the
      distribution loops stop. */
  lemma ConversionIndependentOfBounds(input: string, rw: Rewrites, cnfBound: nat, dnfBound: nat, cnfMore: nat, dnfMore: nat)
    requires Terminates(input, rw, cnfBound, dnfBound)
    requires cnfBound <= cnfMore && dnfBound <= dnfMore
    ensures Terminates(input, rw, cnfMore, dnfMore)
    ensures Conversion(input, rw, cnfMore, dnfMore) == Conversion(input, rw, cnfBound, dnfBound)
  {
    var matrix := SeparatePrenexParts(Stages(input, rw)[3]).matrix;
    SaturateMoreFuel(rw.distributeOr, matrix, cnfBound, cnfMore);
    SaturateMoreFuel(rw.distributeAnd, matrix, dnfBound, dnfMore);
  }

  /** The clausal form holds one clause per `∧` of the prenex conjunctive
      form plus one, and the Horn report is never `Nenhuma cláusula
      encontrada.`. */
  lemma ConversionReports(input: string, rw: Rewrites, cnfBound: nat, dnfBound: nat)
    requires Terminates(input, rw, cnfBound, dnfBound)
    ensures var r := Conversion(input, rw, cnfBound, dnfBound);
      |ClausalPieces(r.pcnf)| == 1 + multiset(r.pcnf)['∧'] && r.horn != NoClauses
  {
    var r := Conversion(input, rw, cnfBound, dnfBound);
    ClausalPieceCount(r.pcnf);
    HornReportNeverEmpty(r.clausal);
  }

  class LogicFormulaConverter {
    var variables: set<string>
    var steps: seq<Step>

    /** A converter starts with no variables and no steps; the event
        listeners it installs are not part of this model. */
    constructor()
      ensures variables == {} && steps == []
    {
      variables := {};
      steps := [];
    }

    /** `parseFormula`: the LaTeX commands become symbols, the letter before
        each argument list joins `variables`, and the type is detected on
        the processed text. */
    method ParseFormula(input: string) returns (parsed: ParsedFormula)
      modifies this
      ensures parsed.original == input && parsed.processed == SubstituteLatex(input)
      ensures parsed.formulaType == DetectFormulaType(parsed.processed)
      ensures variables == old(variables) + VariableNames(parsed.processed)
      ensures steps == old(steps)
    {
      var formula := SubstituteLatex(input);
      var heads := CallHeads(formula);
      var i := 0;
      while i < |heads|
        invariant 0 <= i <= |heads|
        invariant variables == old(variables) + set k | 0 <= k < i :: [heads[k]]
        invariant steps == old(steps)
      {
        assert (set k | 0 <= k < i + 1 :: [heads[k]]) == (set k | 0 <= k < i :: [heads[k]]) + {[heads[i]]};
        variables := variables + {[heads[i]]};
        i := i + 1;
      }
      parsed := ParsedFormula(input, formula, DetectFormulaType(formula));
    }

    /** `addStep` */
    method AddStep(title: string, formula: string)
      modifies this
      ensures steps == old(steps) + [Step(title, formula)]
      ensures variables == old(variables)
    {
      steps := steps + [Step(title, formula)];
    }

    /** The part of `convertFormula` between the check of the input and
        the normal forms: `steps` and `variables` start afresh, the input is
        parsed, and each of the four stages is recorded under its title. */
    method RecordSteps(input: string, rw: Rewrites) returns (step4: string)
      modifies this
      ensures step4 == Stages(input, rw)[3]
      ensures steps == StepsOf(input, rw)
      ensures variables == VariableNames(SubstituteLatex(input))
    {
      steps := [];
      variables := {};
      var parsedFormula := ParseFormula(input);
      NoVariablesBefore(VariableNames(parsedFormula.processed));
      var step1 := EliminateImplications(parsedFormula.processed, rw);
      AddStep(ImplicationsTitle, step1);
      var step2 := MoveNegationsInward(step1, rw);
      AddStep(NegationTitle, step2);
      var step3 := RenameBoundVariables(step2);
      AddStep(RenamingTitle, step3);
      step4 := MoveToPrenexForm(step3);
      AddStep(PrenexTitle, step4);
      FourSteps(Step(ImplicationsTitle, step1), Step(NegationTitle, step2), Step(RenamingTitle, step3), Step(PrenexTitle, step4));
      StagesAre(input, rw, step1, step2, step3, step4);
    }

    /** `convertFormula`, without the page output. An input that trims to
        nothing is refused and the object is left as it was; otherwise the
        steps and variables start afresh, and the four steps and the four
        results follow the chain of the converter. */
    method ConvertFormula(raw: string, rw: Rewrites, ghost cnfBound: nat, ghost dnfBound: nat)
      returns (outcome: Outcome)
      modifies this
      requires Trim(raw) != [] ==> Terminates(Trim(raw), rw, cnfBound, dnfBound)
      ensures Trim(raw) == [] ==>
        outcome == Refused(EmptyInput) && variables == old(variables) && steps == old(steps)
      ensures Trim(raw) != [] ==>
        outcome == Converted(Conversion(Trim(raw), rw, cnfBound, dnfBound))
        && steps == StepsOf(Trim(raw), rw)
        && variables == VariableNames(SubstituteLatex(Trim(raw)))
    {
      var input := Trim(raw);
      if input == [] {
        return Refused(EmptyInput);
      }
      var step4 := RecordSteps(input, rw);
      var pcnf := ConvertToPCNF(step4, rw.distributeOr, cnfBound);
      var pdnf := ConvertToPDNF(step4, rw.distributeAnd, dnfBound);
      var clausal := ConvertToClausalForm(pcnf);
      var horn := ConvertToHornClauses(clausal);
      var results := Results(pcnf, pdnf, clausal, horn);
      ConversionIs(input, rw, cnfBound, dnfBound, step4, results);
      outcome := Converted(results);
    }
  }
}
