/** `convertToCNF` and `convertToDNF`, and the prenex wrappers
    `convertToPCNF` and `convertToPDNF` around them. The distribution step
    itself is a pattern rewrite given as a string function; what is modelled
    is the loop that applies it while the text holds both `∨` and `∧` and
    stops as soon as the step changes nothing. */
module Distribution {
  import opened TextOps
  import opened Patterns
  import opened Prenex

  datatype Option<T> = None | Some(value: T)

  /** The loop condition: the text holds both `∨` and `∧`. */
  predicate NeedsDistribution(s: string) {
    Contains(s, "∨") && Contains(s, "∧")
  }

  /** `k` applications of `step` to `s`. */
  function Iterate(step: string -> string, s: string, k: nat): string
    decreases k
  {
    if k == 0 then s else Iterate(step, step(s), k - 1)
  }

  /** The value the distribution loop ends with when it stops within `fuel`
      applications of `step`, and `None` when it would need more. Where it
      stops, the text lacks `∨` or `∧` or the step leaves it as it is. */
  function Saturate(step: string -> string, s: string, fuel: nat): (r: Option<string>)
    ensures r.Some? ==> !NeedsDistribution(r.value) || step(r.value) == r.value
    ensures !NeedsDistribution(s) ==> r == Some(s)
    decreases fuel
  {
    if !NeedsDistribution(s) then Some(s)
    else if fuel == 0 then None
    else
      var d := step(s);
      if d == s then Some(s) else Saturate(step, d, fuel - 1)
  }

  /** More fuel than the loop needs changes nothing: the result does not
      depend on the bound used to state termination. */
  lemma {:induction false} SaturateMoreFuel(step: string -> string, s: string, fuel: nat, more: nat)
    requires Saturate(step, s, fuel).Some? && fuel <= more
    ensures Saturate(step, s, more) == Saturate(step, s, fuel)
    decreases fuel
  {
    if NeedsDistribution(s) && step(s) != s {
      SaturateMoreFuel(step, step(s), fuel - 1, more - 1);
    }
  }

  /** The loop result is an iterate of the step, reached after `k` rounds
      with `k` within the bound, and every earlier iterate still held both
      connectives and was changed by the step: the loop stops at the first
      iteration where the step returns an identical string. */
  lemma {:induction false} SaturateFirstStop(step: string -> string, s: string, fuel: nat)
    returns (k: nat)
    requires Saturate(step, s, fuel).Some?
    ensures k <= fuel && Saturate(step, s, fuel).value == Iterate(step, s, k)
    ensures forall i :: 0 <= i < k ==>
      NeedsDistribution(Iterate(step, s, i)) && step(Iterate(step, s, i)) != Iterate(step, s, i)
    decreases fuel
  {
    if !NeedsDistribution(s) || step(s) == s {
      k := 0;
    } else {
      var j := SaturateFirstStop(step, step(s), fuel - 1);
      k := j + 1;
      forall i | 0 <= i < k
        ensures NeedsDistribution(Iterate(step, s, i)) && step(Iterate(step, s, i)) != Iterate(step, s, i)
      {
        if i > 0 {
          assert Iterate(step, s, i) == Iterate(step, step(s), i - 1);
        }
      }
    }
  }

  /** Running the loop again on its own result stops at once with that
      result. */
  lemma SaturateAgain(step: string -> string, s: string, fuel: nat, again: nat)
    requires Saturate(step, s, fuel).Some? && again > 0
    ensures Saturate(step, Saturate(step, s, fuel).value, again) == Saturate(step, s, fuel)
  {
    var r := Saturate(step, s, fuel).value;
    assert !NeedsDistribution(r) || step(r) == r;
  }

  /** The `while` loop of `convertToCNF` and `convertToDNF`: apply `step`
      while the text holds both connectives, and stop when it returns an
      identical string. `bound` is a number of rounds within which the loop
      is known to stop. */
  method Distribute(step: string -> string, formula: string, ghost bound: nat) returns (result: string)
    requires Saturate(step, formula, bound).Some?
    ensures Saturate(step, formula, bound) == Some(result)
  {
    result := formula;
    ghost var fuel := bound;
    while Contains(result, "∨") && Contains(result, "∧")
      invariant Saturate(step, result, fuel) == Saturate(step, formula, bound)
      decreases fuel
    {
      var distributed := step(result);
      if distributed == result {
        break;
      }
      result := distributed;
      fuel := fuel - 1;
    }
  }

  /** `convertToCNF`, with `applyDistributivity` as `distributeOr`. */
  method ConvertToCNF(formula: string, distributeOr: string -> string, ghost bound: nat) returns (result: string)
    requires Saturate(distributeOr, formula, bound).Some?
    ensures Saturate(distributeOr, formula, bound) == Some(result)
  {
    result := Distribute(distributeOr, formula, bound);
  }

  /** `convertToDNF`, with `applyDistributivityDNF` as `distributeAnd`. */
  method ConvertToDNF(formula: string, distributeAnd: string -> string, ghost bound: nat) returns (result: string)
    requires Saturate(distributeAnd, formula, bound).Some?
    ensures Saturate(distributeAnd, formula, bound) == Some(result)
  {
    result := Distribute(distributeAnd, formula, bound);
  }

  /** `convertToPCNF`: the matrix of the prenex text in conjunctive form,
      written after the quantifier prefix. */
  method ConvertToPCNF(prenexFormula: string, distributeOr: string -> string, ghost bound: nat) returns (result: string)
    requires Saturate(distributeOr, SeparatePrenexParts(prenexFormula).matrix, bound).Some?
    ensures var parts := SeparatePrenexParts(prenexFormula);
      result == parts.quantifiers + " (" + Saturate(distributeOr, parts.matrix, bound).value + ")"
  {
    var parts := SeparatePrenexParts(prenexFormula);
    var matrix := ConvertToCNF(parts.matrix, distributeOr, bound);
    result := parts.quantifiers + " (" + matrix + ")";
  }

  /** `convertToPDNF`: the matrix of the prenex text in disjunctive form,
      written after the quantifier prefix. */
  method ConvertToPDNF(prenexFormula: string, distributeAnd: string -> string, ghost bound: nat) returns (result: string)
    requires Saturate(distributeAnd, SeparatePrenexParts(prenexFormula).matrix, bound).Some?
    ensures var parts := SeparatePrenexParts(prenexFormula);
      result == parts.quantifiers + " (" + Saturate(distributeAnd, parts.matrix, bound).value + ")"
  {
    var parts := SeparatePrenexParts(prenexFormula);
    var matrix := ConvertToDNF(parts.matrix, distributeAnd, bound);
    result := parts.quantifiers + " (" + matrix + ")";
  }
}
