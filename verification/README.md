# Spreadsheet formula evaluation, modelled in Dafny

This project models the formula pipeline of a small spreadsheet engine. It has two stages.

- **Expression parser** (`FormulaParser`). A recursive-descent evaluator over a flat token list with one forward cursor:
  - `expression := term (('+' | '-') term)*`
  - `term := factor (('*' | '/') factor)*`
  - `factor := number | '(' expression ')'`

  Failures are classified as missing-parentheses or invalid-formula. A zero divisor makes the term return +Infinity instead of failing.
- **Formula evaluator** (`FormulaEvaluator.evaluate`). It turns a formula's raw tokens into a (result, error) pair in five steps:
  1. It short-circuits the empty formula.
  2. It substitutes numbers and cell values. Each cell reference's error overwrites the previous one.
  3. It strips trailing tokens that end in `+ - * / (` and records invalid-formula when it does.
  4. It runs the parser. A parser failure overwrites the error and keeps the previous result.
  5. It remaps a +Infinity result to divide-by-zero.

## Modules

| file | module | what it holds |
|---|---|---|
| `definitions.dfy` | `Definitions` | The error catalog as a closed datatype (`NoError` is the empty string), plus `Option` and `Result`. |
| `ext_number.dfy` | `ExtNumber` | Numbers: exact reals plus +Infinity, -Infinity and NaN, combined as IEEE 754 combines them. |
| `tokens.dfy` | `Tokens` | The tagged token type: `Num`, `Op`, `LParen`, `RParen`, `Other`. The text of each symbol, and which tokens end in `+ - * / (`. |
| `formula_parser.dfy` | `FormulaParser` | The parser as mutually recursive functions over `(tokens, cursor)`, returning a value and the cursor after it, or an error. |
| `grammar.dfy` | `Grammar` | A reference semantics: expression trees, their exact value, and the tokens that write them out. Round-trip lemmas connect it to the parser. |
| `formula_evaluator.dfy` | `FormulaEvaluator` | Cell reading, substitution, the trailing repair, `Evaluate`, and the error slot as a sequence of writes. |
| `evaluator_properties.dfy` | `EvaluatorProperties` | Whole evaluations stated against the reference grammar. |
| `examples.dfy` | `Examples` | Concrete evaluations. |

### Modelling choices

**Cursor.** The source's `getToken` returns `formula[index++]`. Past the end of the list it reads `undefined` and still moves the cursor. The model keeps the cursor as a `nat` that may pass the end.

- Each loop of `parseTerm` and `parseExpression` reads one token too many and steps back, so its caller reads that operator again. The model returns the cursor on that operator.
- A zero divisor returns at once, with the cursor after the divisor.

**Parser termination.** The parser's termination measure is the number of tokens left, paired with a level number:

| function | level |
|---|---|
| factor | 0 |
| term | 1 |
| term loop | 2 |
| expression | 3 |
| expression loop | 4 |

**Number recognition.** The substitution step decides once whether a token is a number, a cell reference or text. Whether a string is a number, its value, whether it is a cell label, and the cell a label names are all parameters of `Evaluate`, bundled in an `Environment`. `isNumber` takes precedence over `isCellReference`, as in the source.

**Adjacent numbers.** A number factor absorbs every number token that directly follows it. After substitution these tokens are numbers, not strings, so the source's `numStr += token` adds them. The model therefore gives the run the sum of its values.

The variable is named `numStr` and the loop ends in `parseFloat` (src/Engine/FormulaParser.ts:44-48), as if digit strings were joined. On the substituted list every such token is a number, so `+=` adds. The model follows the code.

**Trailing trim.** The repair's regular expression tests the text of each token:
- the four operators and `(` end in an invalid character;
- `)` and numbers do not;
- an unrecognised fragment does when its last character is one of `+ - * / (`.

The comment at src/Engine/FormulaEvaluator.ts:51 speaks of removing an operator or parenthesis. The regular expression at :52 tests the token's last character, so a fragment such as `a+` is removed too. The model follows the code.

| `Examples.NegativeInfinityCalculated` | src/Engine/FormulaParser.ts:66-71 | `0 - 8 / 0` calculates to -Infinity: the term `8 / 0` returns +Infinity and the subtraction negates it. |
**Non-finite values.** A number token may be +Infinity or -Infinity. A cell value may also be NaN, because `isNumber` (src/Engine/FormulaEvaluator.ts:90-92) rejects only strings that convert to NaN. A cell holding +Infinity always reports divide-by-zero (`Evaluate`'s ensures), so it reads as 0. A cell holding -Infinity or NaN can report no error, as `0 - 8 / 0` does (`Examples.NegativeInfinityUnreported`), and then reads as its value. The source pushes such a value as a number. The parser's `/[0-9]/` test finds no digit in its text (`Infinity`, `-Infinity`, `NaN`), so the value fails as a factor. The model substitutes it as the fragment with that text (`Tokens.NumberToken`).

**Stale result.** `Evaluate` takes the result left by the previous call. The source keeps that result when the parser fails, and the +Infinity check reads it.

**Header comment.** The parser's header comment calls it a Shunting Yard implementation. The code is recursive descent, and the model follows the code.

## Model

| member | source | states |
|---|---|---|
| `FormulaParser.AbsorbNumbers` | src/Engine/FormulaParser.ts:44-47 | The run read after a number is maximal: every token in it is a number, and it stops at the end of the list or at the first token that is not a number. The total is the starting value plus the run's values. |
| `FormulaParser.ParseFactor` | src/Engine/FormulaParser.ts:34-52 | A factor succeeds only on a number or on `(`, and a `(` factor ends with `)`. A success consumes at least one token and leaves the cursor within the list. Every failure is missing-parentheses or invalid-formula. |
| `FormulaParser.ParseFactorCases` | src/Engine/FormulaParser.ts:37-51 | A number absorbs the maximal following run of numbers and adds their values. After `(` and an inner expression, the factor succeeds exactly when `)` follows, and otherwise fails with missing-parentheses, also at the end of the list. Any other token, or the end of the list, fails with invalid-formula. |
| `FormulaParser.ParseTerm` | src/Engine/FormulaParser.ts:59-77 | A term consumes at least one token and leaves the cursor within the list. The cursor stops on a token that is not `*` or `/`, unless the term ended early on a zero divisor with +Infinity. Failures are parse errors. |
| `FormulaParser.TermRest` | src/Engine/FormulaParser.ts:61-76 | The term loop never moves the cursor back past its start or beyond the list. It exits on a token other than `*` or `/` except through the zero-divisor return. |
| `FormulaParser.ZeroDivisorEndsTerm` | src/Engine/FormulaParser.ts:66-71 | A `/` whose divisor is zero ends the term with +Infinity. The cursor stays just after the divisor and the rest of the term is not read, whatever the previous value. |
| `FormulaParser.ParseExpression` | src/Engine/FormulaParser.ts:84-98 | An expression consumes at least one token, leaves the cursor within the list, and never stops on `+` or `-`. |
| `FormulaParser.ExpressionRest` | src/Engine/FormulaParser.ts:86-97 | The expression loop keeps the cursor within the list and exits only on a token other than `+` or `-`. |
| `FormulaParser.Calculate` | src/Engine/FormulaParser.ts:105-111 | A value is returned exactly when one expression consumed the whole list, and it is that expression's value. Leftover tokens fail with invalid-formula. Every failure is a parse error. |
| `ExtNumber.Sum` | src/Engine/FormulaParser.ts:89-90 | Addition is exact on finite values. The result is NaN exactly when an operand is NaN or the operands are opposite infinities. Otherwise an infinite operand gives its infinity. |
| `ExtNumber.Difference` | src/Engine/FormulaParser.ts:91-92 | Subtraction is exact on finite values. The result is NaN exactly for NaN or for like infinities. `x - +Infinity` is -Infinity. |
| `ExtNumber.Product` | src/Engine/FormulaParser.ts:64-65 | Multiplication is exact on finite values. Infinity times zero is NaN. Otherwise an infinite operand gives the infinity of the product's sign. |
| `ExtNumber.Quotient` | src/Engine/FormulaParser.ts:67-68 | For a non-zero divisor: exact on finite values, a finite value over an infinity is 0, two infinities give NaN, and an infinity over a finite value keeps the quotient's sign. |
| `Grammar.CalculateRoundTrip` | src/Engine/FormulaParser.ts:59-111 | Every expression tree without a zero divisor, written out as tokens, calculates to the tree's exact value. So `*` and `/` bind tighter than `+` and `-`, both associate to the left, and groups nest. |
| `Grammar.FactorRoundTrip` | src/Engine/FormulaParser.ts:34-48 | A written-out factor followed by something other than a number parses to its value, and the cursor lands just after it. |
| `Grammar.TermRoundTrip` | src/Engine/FormulaParser.ts:59-77 | Parsing a written-out term reaches the term loop just after the term, carrying the term's value. |
| `Grammar.TermOperandRoundTrip` | src/Engine/FormulaParser.ts:60-73 | The same for a compound term: the left operand, the operator and the right factor are consumed in that order. |
| `Grammar.TermTailRoundTrip` | src/Engine/FormulaParser.ts:62-73 | One turn of the term loop over `* f` or `/ f` combines the left value with `f`'s value and continues after `f`. |
| `Grammar.ExpressionRoundTrip` | src/Engine/FormulaParser.ts:84-98 | Parsing a written-out expression reaches the expression loop just after it, carrying its value. |
| `Grammar.ExpressionOperandRoundTrip` | src/Engine/FormulaParser.ts:85-94 | The same for a compound expression. |
| `Grammar.ExpressionTailRoundTrip` | src/Engine/FormulaParser.ts:87-94 | One turn of the expression loop over `+ t` or `- t` combines the left value with `t`'s value and continues after `t`. |
| `Grammar.TermLoopExit` | src/Engine/FormulaParser.ts:73-76 | The term loop stops on a token other than `*` or `/`, with the value unchanged and the cursor back on that token. |
| `Grammar.ExpressionLoopExit` | src/Engine/FormulaParser.ts:94-97 | The expression loop stops on a token other than `+` or `-`, with the cursor back on that token. |
| `Grammar.TermStep` | src/Engine/FormulaParser.ts:62-73 | A `*` or a `/` by a non-zero factor multiplies or divides the value and continues after the factor. |
| `Grammar.ExpressionStep` | src/Engine/FormulaParser.ts:87-94 | A `+` or a `-` followed by a term adds or subtracts the term's value and continues after it. |
| `Grammar.UnparseEndsWell` | src/Engine/FormulaEvaluator.ts:52-54 | A written-out expression is non-empty and ends in a number or `)`, so the trailing repair leaves it alone. |
| `Tokens.Classify` | src/Engine/FormulaEvaluator.ts:46-47 | A text token keeps its text. It is an unrecognised fragment exactly when it is not one of the six symbols. |
| `Tokens.ClassifyText` | src/Engine/FormulaEvaluator.ts:46-47 | Classifying a token's text gives the token back. |
| `Tokens.EndsInvalidSymbols` | src/Engine/FormulaEvaluator.ts:52 | The four operators and `(` end invalidly. Numbers and `)` do not. |
| `FormulaEvaluator.GetCellValue` | src/Engine/FormulaEvaluator.ts:113-133 | A cell error other than empty and empty-formula gives `(0, error)`. Otherwise an empty cell formula gives `(0, invalid-cell)`, and otherwise the result is `(value, "")`. |
| `FormulaEvaluator.GetCellValueReportsUsable` | src/Engine/FormulaEvaluator.ts:119-131 | A reading reports no error exactly when the cell has no real error and a non-empty formula. An erroneous reading contributes 0. |
| `FormulaEvaluator.SubstituteToken` | src/Engine/FormulaEvaluator.ts:39-47 | A number becomes its value and a cell reference the value its cell reads as, each a number token when finite and otherwise the non-finite value's text (`NumberToken`). Any other token keeps its text. |
| `Tokens.NumberToken` | src/Engine/FormulaParser.ts:43-45 | A substituted value is a number token exactly when it is finite. A non-finite value becomes a fragment that is not a symbol and is not removed by the trailing repair. |
| `FormulaEvaluator.Substitute` | src/Engine/FormulaEvaluator.ts:36-49 | Substitution preserves length and order, replacing each token as `SubstituteToken` does. |
| `FormulaEvaluator.SubstitutionErrorNone` | src/Engine/FormulaEvaluator.ts:27-49 | A formula without cell references leaves the error empty. |
| `FormulaEvaluator.SubstitutionErrorLast` | src/Engine/FormulaEvaluator.ts:42-44 | The substitution pass leaves the error of the last cell reference, even an empty one. Earlier errors are overwritten. |
| `FormulaEvaluator.TrimTrailing` | src/Engine/FormulaEvaluator.ts:51-60 | The repair returns a prefix whose last token does not end invalidly, and every dropped token ends invalidly. |
| `FormulaEvaluator.TrimTrailingUnique` | src/Engine/FormulaEvaluator.ts:53-59 | The repair removes exactly the maximal invalid suffix: it is the only prefix with those properties. |
| `FormulaEvaluator.Evaluate` | src/Engine/FormulaEvaluator.ts:26-74 | The empty formula gives `(0, empty-formula)`. A parse success sets the result; a failure keeps the previous one. A +Infinity result reports divide-by-zero. Otherwise the parse error, then invalid-formula if anything was trimmed, then the substitution's error. |
| `FormulaEvaluator.SubstitutionErrorIsLastWrite` | src/Engine/FormulaEvaluator.ts:37-49 | The substitution's error is the last of the cell references' writes, or empty. |
| `FormulaEvaluator.ErrorIsLastWrite` | src/Engine/FormulaEvaluator.ts:42-73 | The reported error is the last write among, in order: each cell reference, the trailing repair, the parser's failure and the +Infinity remap. |
| `EvaluatorProperties.TrimmedIffInvalidEnding` | src/Engine/FormulaEvaluator.ts:51-60 | The repair removes something exactly when the formula is non-empty and its substituted last token ends in `+ - * / (`. |
| `EvaluatorProperties.TrimKeepsWellEnded` | src/Engine/FormulaEvaluator.ts:53-59 | A list ending in a number or `)` passes the repair unchanged. |
| `EvaluatorProperties.EvaluateWellFormed` | src/Engine/FormulaEvaluator.ts:36-73 | A formula that substitutes to a written-out expression without a zero divisor evaluates to the expression's exact value, with the substitution's error. |
| `EvaluatorProperties.EvaluateRepairsTrailing` | src/Engine/FormulaEvaluator.ts:51-69 | Such an expression followed by tokens ending in `+ - * / (` evaluates to the expression's value with invalid-formula. |
| `EvaluatorProperties.StaleInfinityMasksParseError` | src/Engine/FormulaEvaluator.ts:64-72 | When the previous result is +Infinity and the parser fails, the outcome is `(+Infinity, divide-by-zero)`: the parse error is replaced. |
| `EvaluatorProperties.EvaluateIdempotent` | src/Engine/FormulaEvaluator.ts:26-74 | Evaluating the same formula again, over the same cells and with the first outcome's result as the previous one, gives the same result and error. |
| `EvaluatorProperties.NonFiniteReadingFails` | src/Engine/FormulaEvaluator.ts:42-44 | A reference that reads as +Infinity, -Infinity or NaN fails as a factor. The formula made of it alone fails with invalid-formula and keeps the previous result, remapped to divide-by-zero if that result is +Infinity. |
| `EvaluatorProperties.NegativeInfinityNotRemapped` | src/Engine/FormulaEvaluator.ts:70-72 | A -Infinity result in a formula without references never reports divide-by-zero. |
| `Examples.MultiplicationBindsTighter` | src/Engine/FormulaParser.ts:59-98 | `3 + 4 * 2` is 11. |
| `Examples.SubtractionAssociatesLeft` | src/Engine/FormulaParser.ts:84-98 | `8 - 2 - 1` is 5. |
| `Examples.GroupEvaluates` | src/Engine/FormulaParser.ts:37-42 | `(1 + 2)` is 3. |
| `Examples.DivisionByZeroPropagates` | src/Engine/FormulaParser.ts:66-71 | `8 / 0 + 1` is +Infinity. |
| `Examples.DivisionByZeroLeavesRest` | src/Engine/FormulaParser.ts:66-71 | `8 / 0 * 2` fails with invalid-formula, because `* 2` is left over. |
| `Examples.UnclosedGroup` | src/Engine/FormulaParser.ts:39-41 | `(1 + 2` fails with missing-parentheses. |
| `Examples.AdjacentNumbersAbsorbed` | src/Engine/FormulaParser.ts:43-48 | The numbers `3` and `4` side by side form one factor worth 7. |
| `Examples.StrayClosingParenthesis` | src/Engine/FormulaParser.ts:49-51 | `)` alone fails with invalid-formula. |
| `Examples.ReferenceEvaluates` | src/Engine/FormulaEvaluator.ts:42-44 | `A1 + 5`, with A1 holding 10, gives `(15, "")`. |
| `Examples.DivideByZeroReported` | src/Engine/FormulaEvaluator.ts:70-72 | `8 / 0` gives `(+Infinity, divide-by-zero)`. |
| `Examples.NegativeInfinityCalculated` | src/Engine/FormulaParser.ts:66-71 | `0 - 8 / 0` calculates to -Infinity: the term `8 / 0` returns +Infinity and the subtraction negates it. |
| `Examples.NegativeInfinityUnreported` | src/Engine/FormulaEvaluator.ts:70-72 | `0 - 8 / 0` gives `(-Infinity, "")`: the zero divisor makes the term +Infinity, the subtraction turns it into -Infinity, and only +Infinity is remapped. |
| `Examples.TrailingOperatorRepaired` | src/Engine/FormulaEvaluator.ts:51-60 | `3 +` gives `(3, invalid-formula)`. |
| `Examples.LaterReferenceMasksError` | src/Engine/FormulaEvaluator.ts:42-44 | In `a + b`, where both cells read as finite values, an error-free `b` hides any error of `a`. The result is the sum of the two readings with no error. |
| `Examples.LaterReferenceMasksErrorOnSheet` | src/Engine/FormulaEvaluator.ts:42-44 | `B1 + A1`, where B1 reports divide-by-zero and A1 holds 10, gives `(10, "")`. |
| `Examples.EmptyFormulaReported` | src/Engine/FormulaEvaluator.ts:30-34 | The empty formula gives `(0, empty-formula)` whatever came before. |

## Left out

- **String-to-number conversion.** `Number(token)`, `isNaN` and `parseFloat` are left out. Tokens are tagged by the `Environment` functions that stand for `isNumber` and `Number`.
- **Cell labels and the cell store.** `Cell.isValidCellLabel` and `SheetMemory.getCellByLabel` are not part of this model. They are the `Environment`'s `isCellReference` and `cellByLabel`.
- **Fragments with digits or dots.** An unrecognised text fragment that contains a digit would reach `parseFloat`, and one that contains a `.` would join a number run by string concatenation. The model treats every fragment as digit-free and dot-free, so as a factor it fails with invalid-formula and it never joins a run.
- **Floating point.** IEEE 754 rounding, overflow of finite values to an infinity, and signed zero are left out. Finite values are exact reals.
- **Cell errors.** A referenced cell's error is assumed to be one of the catalog's messages.
- **Instance fields and getters.** The fields `_errorMessage` and `_result`, the `error` and `result` getters, and the unused `_errorOccured`, `_currentFormula` and `_lastResult` are left out. The only one kept is the previous result, which `Evaluate` takes as a parameter.
- **Determinism.** No lemma states that the same tokens always give the same outcome, because every operation is a pure function. Evaluating a formula a second time, where the previous result changes, is stated by `EvaluatorProperties.EvaluateIdempotent`.
