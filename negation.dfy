/** `eliminateImplications` and `moveNegationsInward`. Their rewrites are
    regular expressions with capture groups whose matches depend on the
    engine's backtracking; they are taken as given string functions
    (`Rewrites`). The one literal rewrite, the deletion of `¬¬`, is modelled
    exactly. */
module Negation {
  import opened TextOps

  /** The pattern-based rewrites of the converter, one function per
      `replace` call whose match depends on the regular-expression engine. */
  datatype Rewrites = Rewrites(
    eliminateImplications: string -> string, // the three replaces of `eliminateImplications`
    deMorganAnd: string -> string,           // ¬(A ∧ B) to ¬A ∨ ¬B
    deMorganOr: string -> string,            // ¬(A ∨ B) to ¬A ∧ ¬B
    flipForall: string -> string,            // ¬∀x to ∃x¬
    flipExists: string -> string,            // ¬∃x to ∀x¬
    distributeOr: string -> string,          // `applyDistributivity`
    distributeAnd: string -> string          // `applyDistributivityDNF`
  )

  /** `result.replace(/¬¬/g, '')` */
  function DeleteDoubleNegations(s: string): string
  {
    ReplaceAll(s, "¬¬", "")
  }

  /** Two strings without `cc` whose seam is not `c`,`c` join without `cc`. */
  lemma NoPairAcross(a: string, b: string, c: char)
    requires !Contains(a, [c, c]) && !Contains(b, [c, c])
    requires !(a != [] && b != [] && a[|a| - 1] == c && b[0] == c)
    ensures !Contains(a + b, [c, c])
  {
    var s := a + b;
    forall k | 0 <= k <= |s| - 2
      ensures !OccursAt(s, [c, c], k)
    {
      if k + 2 <= |a| {
        assert a[k..k + 2] == s[k..k + 2];
        assert !OccursAt(a, [c, c], k);
      } else if k >= |a| {
        assert b[k - |a|..k - |a| + 2] == s[k..k + 2];
        assert !OccursAt(b, [c, c], k - |a|);
      } else {
        PairAt(s, c, k);
      }
    }
  }

  /** A pair `cc` occurs at `i` exactly when both characters there are `c`. */
  lemma PairAt(s: string, c: char, i: int)
    requires 0 <= i && i + 1 < |s|
    ensures OccursAt(s, [c, c], i) <==> s[i] == c && s[i + 1] == c
  {
    assert s[i..i + 2] == [s[i], s[i + 1]];
  }

  /** Deleting `¬¬` left to right leaves no `¬¬`: a run of `¬` loses its
      pairs from the left and at most one `¬` of it stays. */
  lemma {:induction false} NoDoubleNegationLeft(s: string)
    ensures !Contains(DeleteDoubleNegations(s), "¬¬")
    decreases |s|
  {
    var k := IndexOf(s, "¬¬");
    if k >= 0 {
      var a := s[..k];
      var rest := s[k + 2..];
      NoDoubleNegationLeft(rest);
      assert "¬¬" == ['¬', '¬'];
      NoneBeforeFirst(s, "¬¬");
      if k > 0 {
        PairAt(s, '¬', k - 1);
        PairAt(s, '¬', k);
      }
      var b := DeleteDoubleNegations(rest);
      assert !Contains(a, "¬¬");
      assert !(a != [] && a[|a| - 1] == '¬');
      assert !Contains(b, "¬¬");
      NoPairAcross(a, b, '¬');
      assert DeleteDoubleNegations(s) == a + "" + b;
      assert a + "" + b == a + b;
    }
  }

  /** `eliminateImplications` applied to the processed text. */
  function EliminateImplications(processed: string, rw: Rewrites): string
  {
    rw.eliminateImplications(processed)
  }

  /** `moveNegationsInward`: the five replaces in source order. */
  function MoveNegationsInward(formula: string, rw: Rewrites): string
  {
    rw.flipExists(rw.flipForall(DeleteDoubleNegations(rw.deMorganOr(rw.deMorganAnd(formula)))))
  }
}
