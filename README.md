# Logic formula converter, modelled in Dafny

This project models the normalisation pipeline of the `LogicFormulaConverter`
class in `script.js`. The page takes a formula typed in a LaTeX-like
notation (`\forall x (P(x) \rightarrow Q(x))`) and shows the following:

- four intermediate steps:
  - elimination of implications;
  - negation normal form;
  - renaming of bound variables;
  - prenex form;
- the prenex conjunctive and disjunctive normal forms (PCNF, PDNF);
- the clausal form;
- a Horn-clause report.

The converter works on text throughout. Its tools are regular-expression
replacements, `split`, `trim` and `join`. There is no formula tree, no
scope-aware renaming and no Skolemisation. The model follows that text
processing exactly. Each JavaScript built-in it uses is written out over
`seq<char>`:

- `includes`, `indexOf`;
- `replace` with a string, and `replace` with a global literal pattern;
- `split` on one character, `join`, `trim`;
- the `\s+` collapse and the `/^\(|\)$/g` strip.

The global scans of `[∀∃][a-zA-Z]+`, `[a-zA-Z]\([^)]*\)` and
`^([∀∃][a-zA-Z]+\s*)+` are written out as the left-to-right scans the
engine performs.

Modules, in dependency order:

| module | file | what it holds |
|---|---|---|
| `TextOps` | `text_ops.dfy` | the string built-ins |
| `Patterns` | `patterns.dfy` | the regular-expression scans that need no backtracking |
| `Latex` | `latex.dfy` | the substitution and the variable scan of `parseFormula`, and `detectFormulaType` |
| `Negation` | `negation.dfy` | `eliminateImplications`, `moveNegationsInward` |
| `Renaming` | `renaming.dfy` | `renameBoundVariables` |
| `Prenex` | `prenex.dfy` | `moveToPrenexForm`, `separatePrenexParts` |
| `Distribution` | `distribution.dfy` | `convertToCNF`/`convertToDNF` and `convertToPCNF`/`convertToPDNF` |
| `Clausal` | `clausal.dfy` | `convertToClausalForm` |
| `Horn` | `horn.dfy` | `isHornClause`, `formatHornClause`, `convertToHornClauses` |
| `Converter` | `converter.dfy` | the class: `variables`, `steps`, `parseFormula`, `addStep`, `convertFormula` |

The source does its work step by step in several places. The model keeps
that shape:

- the loops of `renameBoundVariables`, `moveToPrenexForm` and
  `convertToCNF`/`convertToDNF`, and the sorting loop of
  `convertToHornClauses`, are `method`s with `while` loops;
- `variables` and `steps` are fields of a class that `ParseFormula`,
  `AddStep` and `ConvertFormula` update.

Each such method is proved against a function that states its result. The
properties are then proved about those functions.

Some rewrites are regular expressions with capture groups, and their
matches depend on the engine's backtracking. These are taken as given
string functions, collected in `Negation.Rewrites`:

- the three replaces of `eliminateImplications`;
- the De Morgan replaces and the quantifier flips of `moveNegationsInward`;
- `applyDistributivity` and `applyDistributivityDNF`.

The deletion of `¬¬` is a plain literal replace, and it is modelled exactly.

The textbook procedure for these normal forms differs from what the code
does in four places. The model follows the code:

- The textbook procedure works on a parsed formula tree. The code rewrites
  text.
- The textbook procedure renames bound variables apart scope by scope
  (alpha-renaming). The code replaces every occurrence of a repeated name
  in the whole text.
- The textbook clausal form Skolemises existential quantifiers. The code
  only deletes the quantifier tokens before it cuts the clauses.
- A parser would reject malformed formulas with an error. The code's only
  error path is the empty input and a `catch` that displays a message.

## Model

| member | source | states |
|---|---|---|
| TextOps.ContainsChar | script.js:127-128 | `includes` of a one-character string holds exactly when that character occurs in the text |
| TextOps.IndexOf | script.js:202 | the index is -1 exactly when the pattern does not occur; otherwise the pattern occurs there and at no earlier index |
| TextOps.ReplaceFirst | script.js:202 | a string `replace` changes nothing when the pattern is absent; otherwise it replaces the first occurrence of the pattern, and only that one |
| TextOps.ReplaceAll | script.js:102-110 | a global literal replace; `ReplaceAllAbsent`, `ReplaceAllKeeps` and `ReplaceAllLeavesNo` state what it keeps and what it leaves |
| TextOps.ReplaceAllAbsent | script.js:102-110 | a global literal replace leaves a text without the pattern as it is |
| TextOps.ReplaceAllKeeps | script.js:102-110 | a global replace keeps the count of every character that is in neither the pattern nor the replacement |
| TextOps.ReplaceAllLeavesNo | script.js:102-110 | after a global replace whose replacement shares no character with `t`, no `t` is left when `t` is the pattern, and none is created when the input had none |
| TextOps.Split | script.js:307 | `split` on one character yields at least one piece, and no piece holds the separator |
| TextOps.SplitCount | script.js:307 | `split` yields exactly one piece more than there are separators |
| TextOps.JoinSplit | script.js:307 | joining the pieces of a split with the same separator gives back the input |
| TextOps.SplitAfter | script.js:321 | a piece without the separator, followed by the separator, becomes the first piece, and splitting goes on after it |
| TextOps.SplitKeeps | script.js:307 | the pieces of a split hold together every character other than the separator exactly as often as the input |
| TextOps.Join | script.js:210 | `join`, with `[]` joining to the empty text; `JoinSplit` states that it undoes `split` on the same separator |
| TextOps.Trim | script.js:36 | `trim` returns a slice of its input that neither starts nor ends with whitespace |
| TextOps.TrimDropsSpaces | script.js:36 | everything `trim` drops at either end is whitespace |
| TextOps.TrimPadded | script.js:321 | whitespace around an already trimmed text is exactly what `trim` removes |
| TextOps.TrimKeeps | script.js:36 | `trim` keeps the count of every character that is not whitespace |
| TextOps.CollapseSpaces | script.js:206 | the `\s+` collapse never lengthens the text, empties only the empty text, turns leading whitespace into one space, and every whitespace character it leaves is a plain space |
| TextOps.CollapseHasNoDoubleSpace | script.js:206 | after the `\s+` collapse, no two adjacent characters are both whitespace |
| TextOps.CollapseSpacesKeeps | script.js:206 | the collapse keeps the count of every character that is not whitespace |
| TextOps.StripOuterParens | script.js:244 | the `/^\(\|\)$/g` strip returns a prefix of its input, or a slice starting at index 1 |
| TextOps.StripOuterParensCases | script.js:244 | the strip drops the first character exactly when it is `(` and the last exactly when it is a `)` left over after that; nothing else changes |
| TextOps.StripOuterParensKeeps | script.js:304 | the strip keeps the count of every character other than `(` and `)` |
| TextOps.StripParenthesised | script.js:244 | stripping `(m)` gives `m` |
| TextOps.DecimalString | script.js:181 | the counter appended to a renamed variable is a non-empty string of decimal digits |
| TextOps.DecimalStringValue | script.js:181 | those digits denote the counter's value |
| TextOps.DecimalStringInjective | script.js:181 | different counter values give different suffixes |
| Patterns.QuantifierMatches | script.js:198 | the matches of `[∀∃][a-zA-Z]+` are whole tokens, and there are none exactly when no token starts anywhere in the text |
| Patterns.QuantifierMatchesAt | script.js:198 | the k-th match is the text of the k-th token of the input, it is not followed by a letter, the matches come left to right without overlap, and every place where a token starts yields a match |
| Patterns.BoundNames | script.js:175-179 | one name per match: the match minus its quantifier, non-empty and made of letters |
| Patterns.RemoveQuantifierTokensKeeps | script.js:301 | deleting the tokens keeps the count of every character that is not a letter, whitespace or a quantifier |
| Patterns.RemoveTokensIdentity | script.js:301 | a text in which no token starts comes back unchanged: letters and whitespace outside tokens are kept |
| Patterns.RemoveQuantifierTokens | script.js:301 | the deletion of `[∀∃][a-zA-Z]+\s*` never lengthens the text; `RemoveQuantifierTokensKeeps`, `RemoveTokensIdentity` and `Clausal.ClauseTextOfPrenex` state what it keeps |
| Patterns.PrefixMatchLength | script.js:237 | the match of `^([∀∃][a-zA-Z]+\s*)+` fits in the text, and it is non-empty exactly when a token starts at index 0 |
| Patterns.CallHeads | script.js:113-117 | the names found by `[a-zA-Z]\([^)]*\)` are letters, and there are none in a text without `(` |
| Patterns.CallHeadsCount | script.js:113 | there are at most as many matches as opening parentheses |
| Patterns.CallHeadsNone | script.js:113 | no name is found exactly when `[a-zA-Z]\([^)]*\)` matches nowhere |
| Patterns.CallHeadsFirst | script.js:113-115 | the scan takes the letter of the first place where the pattern matches, then goes on after the `)` that closes that match |
| Latex.SubstituteLatex | script.js:102-110 | the chain of eight replaces; `NoCommandLeft` and `SubstituteLatexIdempotent` state what it guarantees |
| Latex.NoCommandLeft | script.js:102-110 | after the eight replaces, none of `\forall`, `\exists`, `\rightarrow`, `\leftrightarrow`, `\land`, `\lor`, `\neg`, `\lnot` is left |
| Latex.SubstituteFirstRemoves | script.js:102-110 | after the first n replaces, none of the first n commands is left |
| Latex.SubstituteFirst | script.js:103-110 | the first n replaces in order; `SubstituteFirstRemoves` and `SubstituteFirstKeeps` state what they remove and what they leave |
| Latex.SubstituteFirstKeeps | script.js:103-110 | a text holding none of the eight commands is left as it is by any number of the replaces |
| Latex.SubstituteLatexIdempotent | script.js:102-110 | substituting a second time changes nothing |
| Latex.DetectFormulaType | script.js:126-131 | the type is first-order exactly when the text holds `∀` or `∃`, and propositional otherwise |
| Latex.VariableNames | script.js:113-117 | every name added to `variables` is a single letter, and there are none when the text has no `(` |
| Latex.VariableNamesNone | script.js:113-117 | `variables` gains no name exactly when the pattern matches nowhere in the processed text |
| Latex.VariableNamesFirst | script.js:113-117 | the letter of the first match is added, together with the names found after the `)` that closes it |
| Negation.DeleteDoubleNegations | script.js:157 | the left-to-right deletion of `¬¬`; `NoDoubleNegationLeft` states its result |
| Negation.EliminateImplications | script.js:133-144 | the three replaces of script.js:137-141 together, as one given rewrite |
| Negation.MoveNegationsInward | script.js:146-166 | the two De Morgan replaces, the `¬¬` deletion and the two quantifier flips in order; only the deletion is modelled exactly |
| Negation.NoDoubleNegationLeft | script.js:157 | after the left-to-right deletion of `¬¬`, no `¬¬` is left |
| Renaming.Renamed | script.js:168-188 | the text the `forEach` produces; `CounterCountsRepeats`, `RenamedUnchanged` and `DistinctNamesKeepText` state its properties |
| Renaming.RenameFrom | script.js:176-185 | the `forEach` from a given point on; `CounterCountsRepeats` and `DistinctNamesKeepText` state how the counter advances and when the text is kept |
| Renaming.RenameBoundVariables | script.js:168-188 | the loop returns the text that walking the bound names in order produces |
| Renaming.CounterCountsRepeats | script.js:172-184 | the counter advances once for every match whose name was seen before: by the number of matches minus the number of distinct names not seen before |
| Renaming.RenamedUnchanged | script.js:168-188 | when no bound name occurs twice, the text comes back unchanged |
| Renaming.DistinctNamesKeepText | script.js:178-185 | distinct names that were never seen before change neither the text nor the counter |
| Prenex.PrenexForm | script.js:190-214 | the result of `moveToPrenexForm`; `PrenexMatrixNoToken` and `PrenexMatrixKeeps` state what its matrix holds, `SeparateAfterPrenex` and `PrenexPartsOfQuantified` how it is read back |
| Prenex.MoveToPrenexForm | script.js:190-214 | the loop returns the joined tokens before the tidied rest in parentheses, or only the tidied rest when there are no tokens; the rest is `PrenexMatrix`, whose contents `PrenexMatrixNoToken` and `PrenexMatrixKeeps` state |
| Prenex.RemoveEachFirst | script.js:199-203 | the first-occurrence deletion of each match in turn; `RemoveEachIsDeleteTokens` states its result |
| Prenex.RemoveEachIsDeleteTokens | script.js:198-203 | deleting the first occurrence of each match in turn is `DeleteTokens`: one left-to-right scan that cuts out each token where it starts and keeps every other character in order |
| Prenex.DeleteTokensNoToken | script.js:198-203 | no token starts anywhere in what is left after the tokens are deleted |
| Prenex.DeleteTokensKeeps | script.js:198-203 | cutting out the tokens keeps the count of every character that is neither a letter nor a quantifier |
| Prenex.PrenexMatrix | script.js:198-206 | the tidied rest; `PrenexMatrixNoToken` and `PrenexMatrixKeeps` state what it holds |
| Prenex.PrenexMatrixNoToken | script.js:198-206 | no quantifier token starts anywhere in the matrix |
| Prenex.PrenexMatrixKeeps | script.js:198-206 | the matrix holds every character that is not a letter, a quantifier or whitespace exactly as often as the formula |
| Prenex.CollapseKeepsNoToken | script.js:206 | the collapse creates no quantifier token |
| Prenex.PrefixOfPrenex | script.js:237 | the prefix match over `q1 … qn (…` covers exactly the tokens and the one space after them |
| Prenex.SeparatePrenexParts | script.js:236-252 | `separatePrenexParts`; `SeparateQuantified`, `SeparateUnquantified` and `SeparateAfterPrenex` state its result |
| Prenex.SeparateQuantified | script.js:236-246 | separating `q1 … qn (m)` gives back the joined tokens and `m` |
| Prenex.SeparateUnquantified | script.js:248-251 | a text without tokens is not split: no quantifiers, and the whole text as matrix |
| Prenex.SeparateAfterPrenex | script.js:190-252 | `separatePrenexParts` reads back what `moveToPrenexForm` wrote: the joined tokens and the matrix |
| Prenex.PrenexPartsOfQuantified | script.js:216-234 | a quantified prenex form equals its parts put back together as `quantifiers + ' (' + matrix + ')'` |
| Distribution.Saturate | script.js:254-281 | where the loop stops, the text lacks `∨` or `∧`, or the step leaves it unchanged; a text lacking either connective is returned as it is |
| Distribution.SaturateFirstStop | script.js:260-263 | the result is the k-th iterate of the step, and every earlier iterate held both connectives and was changed by the step |
| Distribution.SaturateMoreFuel | script.js:260-264 | the result does not depend on the termination bound |
| Distribution.SaturateAgain | script.js:260-264 | running the loop again on its result returns that result |
| Distribution.Distribute | script.js:256-266 | the `while` loop ends with the value `Saturate` specifies |
| Distribution.ConvertToCNF | script.js:254-267 | `convertToCNF` is the loop over `applyDistributivity` |
| Distribution.ConvertToDNF | script.js:269-281 | `convertToDNF` is the loop over `applyDistributivityDNF` |
| Distribution.ConvertToPCNF | script.js:216-224 | the result is the quantifiers, ` (`, the CNF loop's result on the matrix, and `)` |
| Distribution.ConvertToPDNF | script.js:226-234 | the result is the quantifiers, ` (`, the DNF loop's result on the matrix, and `)` |
| Clausal.ClauseText | script.js:301-304 | the text `split('∧')` is applied to; `ClauseTextOfPrenex` and `ClauseTextOfPrenexForm` state it for a prenex form |
| Clausal.ClauseTextOfPrenex | script.js:301-304 | for `q1 … qn (m)` with tokens `qi` and no token in `m`, the tokens with their spaces and the outer parentheses go, and exactly `m` is left |
| Clausal.ClauseTextOfPrenexForm | script.js:198-304 | the text the clauses are cut from, read off the prenex form of a quantified formula, is its matrix |
| Clausal.ClausalPieces | script.js:306-313 | the tidied `∧`-separated segments; `ClausalPieceCount`, `ClausalPiecesWithoutAnd`, `ClausalPiecesTrimmed` and `ClausalPiecesKeep` state what they hold |
| Clausal.TidyClause | script.js:307-313 | a tidied clause has no whitespace at either end and only characters of its segment |
| Clausal.TidyClauseKeeps | script.js:307-313 | tidying removes only whitespace and parentheses: every other character keeps its count |
| Clausal.ClausalPieceCount | script.js:299-316 | there is exactly one clause per `∧` of the normal form, plus one |
| Clausal.ClausalPiecesWithoutAnd | script.js:307 | no clause holds `∧` |
| Clausal.ClausalPiecesTrimmed | script.js:312 | no clause starts or ends with whitespace |
| Clausal.PiecesFreeOf | script.js:299-313 | a character other than a letter, whitespace, a quantifier or a parenthesis appears in a clause only if it appears in the normal form |
| Clausal.ClausalPiecesKeep | script.js:299-313 | the clauses together hold every character that is not a letter, whitespace, a quantifier, a parenthesis or `∧` exactly as often as the normal form |
| Clausal.ConvertToClausalForm | script.js:299-316 | the clauses joined with `, ` inside `{ ` and ` }`; `ClausalPieceCount`, `ClausalPiecesKeep` and `HornReadsClausal` state what it holds |
| Horn.Literals | script.js:353 | `split('∨')` and `trim`; `LiteralsAre` states what the literals are |
| Horn.LiteralsAre | script.js:353 | one literal per `∨` of the clause plus one; the k-th is the k-th `∨`-separated piece, trimmed, and holds no `∨` |
| Horn.Positives | script.js:354 | the positive literals are literals of the clause that do not start with `¬` |
| Horn.NegativeAtoms | script.js:362 | each negative atom, with `¬` put back in front, is a literal of the clause |
| Horn.PositivesAre | script.js:354 | the positive literals are exactly the literals not starting with `¬`, in order |
| Horn.NegativeAtomsAre | script.js:362 | the negative atoms are exactly the literals starting with `¬`, in order, each without its first character |
| Horn.LiteralsPartition | script.js:353-362 | every literal is positive or negative: the two counts add up to the number of literals |
| Horn.IsHornClause | script.js:351-357 | at most one positive literal; `HornClauseIff` states it in terms of the literals |
| Horn.HornClauseIff | script.js:351-357 | `isHornClause` holds iff, of any two trimmed `∨`-separated literals, at least one starts with `¬` |
| Horn.NoPositives | script.js:354 | no positive literal is left exactly when every literal starts with `¬` |
| Horn.AtMostOnePositive | script.js:356 | at most one positive literal means that, of any two literals, one starts with `¬` |
| Horn.FormatHornClause | script.js:359-374 | every formatted clause (goal, fact or rule) ends with `.` |
| Horn.HornHead | script.js:367-373 | the only positive literal of a Horn clause is the head the formatted clause starts with |
| Horn.RemoveBraces | script.js:320 | no brace is left |
| Horn.SelectRejectPartition | script.js:326-332 | the two lists together hold every clause exactly once, and their lengths add up |
| Horn.HornPartition | script.js:326-332 | every clause lands in exactly one list; the Horn list holds only Horn clauses and the other list none |
| Horn.SortClauses | script.js:326-332 | the loop builds the formatted Horn clauses and the non-Horn clauses, each in input order |
| Horn.HornInputs | script.js:320-321 | the clauses read from the clausal form; `HornReadsClausal` states them for a clausal form the converter wrote |
| Horn.HornReport | script.js:318-349 | the report built from the sorted clauses; `HornReportNeverEmpty` states its heading |
| Horn.HornText | script.js:334-348 | the report built from the two lists; `HornTextOpens` states how it opens and that it is never the empty-report message when there is a clause |
| Horn.ConvertToHornClauses | script.js:318-349 | the method returns the report built from the two lists of the clauses it reads |
| Horn.HornTextOpens | script.js:334-346 | with at least one clause, the report is never `Nenhuma cláusula encontrada.`; it opens with the Horn heading when there are Horn clauses, and with the non-Horn heading otherwise |
| Horn.HornReportNeverEmpty | script.js:318-346 | the report of any clausal text opens with the Horn heading exactly when some clause is Horn, and is never `Nenhuma cláusula encontrada.` |
| Horn.HornReadsClausal | script.js:299-321 | `convertToHornClauses` reads back exactly the clauses `convertToClausalForm` wrote, when the normal form has no `,` and no brace |
| Converter.Stages | script.js:55-71 | the four intermediate formulas in order; `RecordSteps` and `ConvertFormula` state that the prenex stage they compute is the fourth, and the stage lemmas of each module state what each stage holds |
| Converter.StepsOf | script.js:55-71 | the four stages under their titles; `RecordSteps` and `ConvertFormula` state that `steps` ends as exactly this list |
| Converter.Conversion | script.js:74-87 | the four results of a conversion; `ConversionReports` states the clause count and the non-empty Horn report, `ConversionIndependentOfBounds` that the results do not depend on the loop bounds, and `ConvertFormula` that it returns them |
| Converter.ConversionIndependentOfBounds | script.js:74-80 | the four results do not depend on the bounds used to state that the distribution loops stop |
| Converter.ConversionReports | script.js:74-88 | the clausal form holds one clause per `∧` of the PCNF plus one, and the Horn report is never `Nenhuma cláusula encontrada.` |
| Converter.PlainMatrixIsNormal | script.js:216-234 | for a quantified formula whose matrix lacks `∨` or `∧`, the PCNF and the PDNF are the prenex form itself |
| Converter.PlainUnquantified | script.js:216-234 | for a formula without quantifiers whose matrix lacks `∨` or `∧`, the PCNF and the PDNF are ` (`, the prenex form and `)`, since the quantifier part is empty |
| Converter.LogicFormulaConverter.constructor | script.js:2-6 | a new converter has no variables and no steps |
| Converter.LogicFormulaConverter.ParseFormula | script.js:97-124 | `processed` is the substituted input, the type is detected on it, and exactly its variable names are added to `variables` |
| Converter.LogicFormulaConverter.AddStep | script.js:376-378 | the step is appended to `steps`, and nothing else changes |
| Converter.LogicFormulaConverter.RecordSteps | script.js:47-72 | `steps` and `variables` start afresh, `variables` ends as exactly the names of the input, `steps` is the four stages under their titles, and the prenex stage is returned |
| Converter.LogicFormulaConverter.ConvertFormula | script.js:35-95 | an input that trims to nothing is refused with `Por favor, digite uma fórmula válida.` and the object is left as it was; otherwise `steps` is the four titled stages, `variables` holds exactly the names of this input, and the outcome is the four results of the chain |

## Left out

- Page output is not modelled: `initializeEventListeners`, `clearAll`, `displayOriginalFormula`, `displaySteps`, `displayResult`, `showLoading`, `showError` and the example list (script.js:8-33, 380-446). These only write to the page. `ConvertFormula` returns the message or the results instead of displaying them.
- The `async` wrapper and the `try`/`catch` of `convertFormula` (script.js:35-95) are not modelled. Nothing in the model throws, so the `catch` branch cannot be reached.
- The capture-group rewrites are given string functions (`Negation.Rewrites`):
  - `eliminateImplications` (script.js:137-141);
  - the De Morgan and quantifier-flip replaces (script.js:151-154, 160-163);
  - `applyDistributivity` and `applyDistributivityDNF` (script.js:283-297).

  Their matches depend on regular-expression backtracking, so nothing is proved about what they produce.
- Distribution.Distribute: the `while` loops of `convertToCNF`/`convertToDNF` need not stop for an arbitrary step function. The model therefore takes a ghost bound within which the loop is required to stop. `SaturateMoreFuel` shows the result does not depend on the bound.
- Horn.HornReadsClausal: the round trip holds only for normal forms without `,` and without braces. The source cuts clauses at every `,`, so a clause such as `P(x, y)` is read back as two.
- Horn.FormatHornClause: the contract states only that the formatted clause ends with `.`. The three shapes (goal, fact, rule) are the function's body; `HornHead` states the head of a rule or fact.
- Text is a sequence of UTF-16 code units. Every symbol the converter handles lies in the Basic Multilingual Plane, so one `char` stands for one code unit.
