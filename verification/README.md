# Calculator expression engine

A Dafny model of the expression-building state machine of a browser
calculator (`script.js`). The page keeps two strings, the expression being
composed and the last result. Every button click dispatches on its
`data-action` to one state-changing function. Those functions are digit and
operator entry, the decimal-point guard, backspace, clear, negate, submit and
percentage. The model keeps the two fields in an immutable `Engine.State`,
writes each function as one pure transition, and folds click sequences with
`Dispatch.Run`.

The result is kept as the text it displays as. For a JS number this is its
`String(...)` form, and for the initial value it is `''`. The script's test
`result !== ''` then becomes `result != ""`, and `startFromResult`'s
`result + value` becomes concatenation. Every numeric step on the result is
opaque. The model takes these steps from an `Engine.Arithmetic` record
passed to each transition:

- `evaluate` is `evaluateExpression`.
- `negated` is `-result`.
- `isFiniteNumber` is `!isNaN(result) && isFinite(result)`.
- `hundredth` is `result /= 100`.
- `parsedHundredth` is `parseFloat(result) / 100`.

`evaluate` returns `Engine.Evaluation`. That is either `Produced(text)` or
`Threw`, for an `eval` that throws on text like `5+`. A throw escapes
`buttonClick` before any assignment, so the model leaves the state unchanged.

Files:

- `jstext.dfy` (module `JsText`) holds the JavaScript string primitives the
  script uses: `slice` (with `Clamp` for negative and out-of-range
  positions), `search`, `indexOf` and `lastIndexOf`. It also holds two
  coercion tests on a string of at most one character.
  `ParseIntIsNaN` is `isNaN(parseInt(c))` (`script.js:139`), true unless the
  character is an ASCII digit. `NumberIsNaN` is `isNaN(c)`
  (`script.js:205`), true unless the string is empty, a digit, or white
  space.
- `engine.dfy` (module `Engine`) holds the state, the transitions, and the
  lemmas that reduce the decimal-point guard of `addValue` to its meaning.
- `dispatch.dfy` (module `Dispatch`) holds the click events, `buttonClick`,
  runs of clicks, and lemmas about several clicks in a row.
- `shape.dfy` (module `Shape`) holds the shape invariant of the expression
  and its preservation over click sequences.

Notes on `script.js` that the lemmas make precise:

- The variable `lastOperatorIndex` at `script.js:91` holds the position of
  the first operator, because `search` finds the first match. Its disjunct
  in the decimal guard is redundant (`Engine.SearchBeforeLastNumber`,
  `Engine.PointBeforeBoundaryReduced`).
- The conjunct at `script.js:109-110` can never fail
  (`Engine.NoMinusInCurrentNumberAlways`).
- A throwing `eval` at `script.js:155` (on `5+` or `.`) leaves both fields
  unchanged in `submit` and in `percentage` (`Engine.Submit`,
  `Engine.Percentage`).
- `isNaN(expression.slice(-1))` at `script.js:205` also accepts a trailing
  white-space character, because `Number(' ')` is 0 (`JsText.NumberIsNaN`,
  `Engine.DecimalPress`).
- The `result = ''` branch of `percentage` at `script.js:190-194` is never
  taken. `evaluateExpression` returns either a finite number or the
  placeholder `' '` (`script.js:158-159`). `!isNaN(' ')` and `isFinite(' ')`
  both hold, because `Number(' ')` is 0. So `1/0` followed by `%` leaves the
  result 0 rather than empty. `Dispatch.PercentThenOperator` covers both
  branches, so it holds whichever values the finiteness test gives.

## Model

| member | source | states |
|---|---|---|
| JsText.IndexOfAny | script.js:91 | `search`/`indexOf`: the result is -1 or a matching position, and no earlier position matches |
| JsText.Slice | script.js:134 | `slice`: within bounds it is the sub-sequence; `slice(-1)` is the last character and `slice(0, -1)` all but the last, via `Clamp`, which counts negative positions from the end and clamps to the string; on an empty string it is empty |
| JsText.LastIndexOfAny | script.js:94-101 | `lastIndexOf`: the result is -1 or a matching position, and no later position matches |
| Engine.LastNumberIndex | script.js:97-102 | the maximum of the four `lastIndexOf` calls is the position of the last operator of any kind, or -1 when there is none |
| Engine.SearchBeforeLastNumber | script.js:91-102 | the index named `lastOperatorIndex` (really the first operator) never exceeds the last operator's index, and is -1 exactly when that one is |
| Engine.NoMinusInCurrentNumberAlways | script.js:109-110 | the second conjunct of the decimal guard holds for every expression |
| Engine.PointBeforeBoundaryReduced | script.js:105-108 | the first conjunct is equivalent to "last `.` before last operator, or no `.`" |
| Engine.PointGuardMeaning | script.js:105-111 | the whole guard holds exactly when every `.` has an operator after it, so the current operand has no point |
| Engine.AddValue | script.js:88-118 | a non-point value is appended; a point is appended or dropped; the result never changes |
| Engine.AddPointExactly | script.js:88-113 | `addValue('.')` appends exactly when the current operand has no point, and otherwise changes nothing |
| Engine.IsLastCharOperator | script.js:138-140 | true exactly for an empty expression or one whose last character is not an ASCII digit |
| Engine.StartFromResult | script.js:143-145 | from an empty expression, the new expression is the result's text followed by the operator; the result is kept |
| Engine.Backspace | script.js:133-135 | the removed character, appended back, restores the expression; on an empty expression nothing changes; the result is kept |
| Engine.Clear | script.js:127-130 | both fields become empty, whatever the prior state |
| Engine.Submit | script.js:148-151 | a produced value becomes the result and the expression is emptied; a throwing evaluation changes nothing |
| Engine.Negate | script.js:168-181 | empty expression: only the result is negated (or nothing, if both are empty); otherwise the result is kept and only a leading `-` is added or removed |
| Engine.Percentage | script.js:184-200 | a non-empty expression is emptied unless evaluation throws, and a non-finite value leaves the result empty; an empty expression stays empty, and with both fields empty nothing changes |
| Engine.Decimal | script.js:203-208 | the result is kept; after a trailing `.` or operator nothing changes |
| Engine.DecimalPress | script.js:203-208 | a point click appends `.` exactly when the expression is empty or ends in a digit or white space and the current operand has no point; otherwise nothing changes |
| Dispatch.PressOperator | script.js:45-57 | three outcomes, one per case: seed result+operator (empty expression, some result), append (last character a digit), or no change (both empty, or a trailing non-digit) |
| Dispatch.TypingDigits | script.js:29-32 | a run of digit clicks appends exactly those digits in order and keeps the result |
| Dispatch.BackspaceRepeated | script.js:133-135 | any number of backspaces on an empty expression change nothing |
| Dispatch.BackspaceUndoesClick | script.js:133-135 | a backspace right after a non-point character click restores the state before it |
| Dispatch.RepeatedOperator | script.js:49-56 | an operator click right after another operator click is ignored, whatever the first one did |
| Dispatch.ClearForgetsHistory | script.js:127-130 | after a clear, any later clicks behave the same whatever the earlier state, and as on a fresh page |
| Dispatch.ChainFromResult | script.js:143-151 | a submit that produces a value, then an operator click, gives the expression value+operator and keeps the value as result |
| Dispatch.PercentThenOperator | script.js:184-200 | after a percentage click, an operator click seeds the next expression from the stored value (the hundredth of the evaluated value, or of the previous result) when that value is non-empty; with an empty value both fields end empty |
| Dispatch.NegateTwice | script.js:174-176 | two negates of a non-empty expression without a leading `-` restore the state |
| Dispatch.NegateTwiceSigned | script.js:178-179 | two negates of an expression with exactly one leading `-` restore the state |
| Shape.DecimalOnCalculatorText | script.js:203-208 | on text of digits, operators and points, a point is appended exactly when the expression is empty or ends in a digit and the current operand has no point |
| Shape.StepKeepsInvariant | script.js:28-78 | digit, operator, point, backspace and clear clicks keep the expression well formed: no leading operator, no adjacent operators, no operator after `.`, one `.` per operand |
| Shape.RunKeepsInvariant | script.js:28-78 | any sequence of those clicks keeps the expression well formed, given a result that is empty or a well-formed operand ending in a digit |
| Shape.FreshRunsWellFormed | script.js:11-14 | from the page-load state, those clicks only ever compose well-formed expressions |
| Shape.SignedStepKeepsInvariant | script.js:168-181 | adding negate, the expression stays well formed apart from at most one leading `-`, given a negation that keeps results seedable |
| Shape.SignedRunKeepsInvariant | script.js:168-181 | the same for any sequence of those clicks |
| Shape.SignedRunWithoutResult | script.js:168-181 | while the result is empty, typed clicks and negations keep it empty and keep the expression well formed after at most one leading `-`, whatever negation the result would get |
| Shape.FreshRunsSignedWellFormed | script.js:11-14 | from the page-load state, those clicks and negations only compose expressions well formed after at most one leading `-` |

## Left out

- DOM access and rendering (`script.js:2-8`, `:81`, `:85`, `:121-124`). `updateDisplay` only copies the two strings out, and `Dispatch.ButtonClick` returns the state it would show.
- The body of `evaluateExpression` (`eval` plus `toFixed`/`parseFloat` rounding). It is JavaScript code execution and floating point, so it is the opaque `Arithmetic.evaluate`.
- Arithmetic on the result (`-result`, `result /= 100`, `parseFloat(result) / 100`, the finiteness test). These are floating point with JavaScript coercion, so they are opaque `Arithmetic` fields.
- Button `data-value`s. The HTML is not part of this model. Values are single characters. The invariants assume digit buttons carry `0`-`9`, operator buttons `+ - * /`, and the point button `.`.
- Results that are not well-formed operands, such as the `' '` placeholder or exponent forms like `1e-7`. Through `startFromResult` they would enter the expression. `Shape.RunKeepsInvariant` and `Shape.SignedRunKeepsInvariant` exclude them by a hypothesis on the starting result (`Shape.SeedableResult`, `Shape.SignedSeedableResult`).
- Shape.SignedStepKeepsInvariant: holds only under `Shape.NegationKeepsShape`, an assumption about the opaque negation. It says every seedable text negates to a seedable text. JavaScript's `-result` meets it only on texts in canonical number form: `'0.0000001'` is seedable, but `-'0.0000001'` displays as `-1e-7`, which is not. The results the script stores are numbers, so their texts are canonical, but the model does not track that. `Shape.FreshRunsSignedWellFormed` needs no such assumption, because from a fresh page the result stays empty (`Shape.SignedRunWithoutResult`).
- Shape.SignedRunKeepsInvariant: holds only under `Shape.NegationKeepsShape`, for the same reason, since it applies `Shape.SignedStepKeepsInvariant` once per click.
- Submit and percentage clicks inside the invariants. They store whatever the opaque evaluation produces, so nothing can be said about the shape of the next seeded expression.
- JavaScript strings are UTF-16 code units and Dafny characters are Unicode scalar values. The two agree on every character the calculator produces.
- Engine.Percentage: does not say that the `result = ''` fallback is unreachable (see the notes above). The test stays the opaque `Arithmetic.isFiniteNumber`, so the model keeps the branch as written.
