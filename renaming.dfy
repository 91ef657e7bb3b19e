/** `renameBoundVariables`: the names after `∀`/`∃` are read once from the
    input; walking them in order, a name seen before gets the next counter
    value appended, and every occurrence of it anywhere in the text is
    replaced, as `result.replace(new RegExp(varName, 'g'), newName)` does (the
    name is letters only, so the expression matches it literally). Scopes
    play no part. */
module Renaming {
  import opened TextOps
  import opened Patterns

  /** The text and the counter after some of the names were processed. */
  datatype RenameState = RenameState(text: string, counter: nat)

  predicate NonEmptyNames(names: seq<string>) {
    forall k :: 0 <= k < |names| ==> names[k] != []
  }

  /** What the `forEach` does from a given point on, with the names already
      seen in `used`. */
  function RenameFrom(names: seq<string>, st: RenameState, used: set<string>): RenameState
    requires NonEmptyNames(names)
    decreases |names|
  {
    if names == [] then st
    else
      var v := names[0];
      var next := if v in used
        then RenameState(ReplaceAll(st.text, v, v + DecimalString(st.counter)), st.counter + 1)
        else st;
      RenameFrom(names[1..], next, used + {v})
  }

  /** The result of `renameBoundVariables` on `formula`. */
  function Renamed(formula: string): string
  {
    RenameFrom(BoundNames(formula), RenameState(formula, 1), {}).text
  }

  /** The set of names in a sequence. */
  function NameSet(names: seq<string>): set<string>
  {
    set k | 0 <= k < |names| :: names[k]
  }

  lemma NameSetCons(names: seq<string>)
    requires names != []
    ensures NameSet(names) == {names[0]} + NameSet(names[1..])
  {
    var a := NameSet(names);
    var b := {names[0]} + NameSet(names[1..]);
    forall x | x in a ensures x in b {
      var k :| 0 <= k < |names| && names[k] == x;
      if k > 0 { assert names[1..][k - 1] == x; }
    }
    forall x | x in b ensures x in a {
      if x != names[0] {
        var k :| 0 <= k < |names[1..]| && names[1..][k] == x;
        assert names[k + 1] == x;
      }
    }
  }

  /** The counter advances once for every name that was already seen: it
      ends `|names|` minus the number of new distinct names beyond where it
      started. */
  lemma {:induction false} CounterCountsRepeats(names: seq<string>, st: RenameState, used: set<string>)
    requires NonEmptyNames(names)
    ensures RenameFrom(names, st, used).counter == st.counter + |names| - |NameSet(names) - used|
    decreases |names|
  {
    if names != [] {
      var v := names[0];
      NameSetCons(names);
      var next := if v in used
        then RenameState(ReplaceAll(st.text, v, v + DecimalString(st.counter)), st.counter + 1)
        else st;
      CounterCountsRepeats(names[1..], next, used + {v});
      var rest := NameSet(names[1..]);
      assert NameSet(names) - used == ({v} - used) + (rest - (used + {v}));
      assert ({v} - used) !! (rest - (used + {v}));
    }
  }

  /** When no name repeats and none was seen before, the text comes out as
      it went in. */
  lemma {:induction false} DistinctNamesKeepText(names: seq<string>, st: RenameState, used: set<string>)
    requires NonEmptyNames(names)
    requires forall i, j :: 0 <= i < j < |names| ==> names[i] != names[j]
    requires forall k :: 0 <= k < |names| ==> names[k] !in used
    ensures RenameFrom(names, st, used) == st
    decreases |names|
  {
    if names != [] {
      DistinctNamesKeepText(names[1..], st, used + {names[0]});
    }
  }

  /** `renameBoundVariables` returns its input unchanged when no bound name
      occurs twice. */
  lemma RenamedUnchanged(formula: string)
    requires var names := BoundNames(formula);
      forall i, j :: 0 <= i < j < |names| ==> names[i] != names[j]
    ensures Renamed(formula) == formula
  {
    DistinctNamesKeepText(BoundNames(formula), RenameState(formula, 1), {});
  }

  /** `renameBoundVariables` */
  method RenameBoundVariables(formula: string) returns (result: string)
    ensures result == Renamed(formula)
  {
    result := formula;
    var variableCounter: nat := 1;
    var boundVars := BoundNames(formula);
    var usedNames: set<string> := {};
    var i := 0;
    while i < |boundVars|
      invariant 0 <= i <= |boundVars|
      invariant RenameFrom(boundVars[i..], RenameState(result, variableCounter), usedNames)
             == RenameFrom(boundVars, RenameState(formula, 1), {})
    {
      var varName := boundVars[i];
      if varName in usedNames {
        var newName := varName + DecimalString(variableCounter);
        variableCounter := variableCounter + 1;
        result := ReplaceAll(result, varName, newName);
      }
      usedNames := usedNames + {varName};
      assert boundVars[i..][1..] == boundVars[i + 1..];
      i := i + 1;
    }
  }
}
