/**
 The calculator's expression engine: two strings of session state and one
 pure transition per state-changing function of the page script. The result
 is kept as the text it displays as; every numeric step on it (evaluating the
 expression, negating, dividing by 100) is an opaque function supplied in an
 `Arithmetic` record, so the model says only how the state moves around them.
 */
module Engine {
  import opened JsText

  /** The expression being composed and the last result, as displayed. */
  datatype State = State(expression: string, result: string)

  /** The state at page load and after `clear`. */
  const Fresh: State := State("", "")

  /** Outcome of `evaluateExpression`: either it returns (a number or the
      blank placeholder, as display text) or `eval` throws, which abandons
      the whole button click before any assignment. */
  datatype Evaluation = Threw | Produced(text: string)

  /** The numeric steps the engine delegates, each on display text. */
  datatype Arithmetic = Arithmetic(
    evaluate: string -> Evaluation,   // evaluateExpression() on an expression
    negated: string -> string,        // -result
    isFiniteNumber: string -> bool,   // !isNaN(result) && isFinite(result)
    hundredth: string -> string,      // result /= 100
    parsedHundredth: string -> string // parseFloat(result) / 100
  )

  /** Every `.` of `e` has an operator somewhere after it: the operand now
      being typed holds no decimal point yet. */
  predicate CurrentOperandHasNoPoint(e: string) {
    forall i :: 0 <= i < |e| && e[i] == '.' ==> exists k :: i < k < |e| && IsOperator(e[k])
  }

  /** The index the script calls the last operator index: `search` on the
      operator class finds the FIRST operator. */
  function SearchOperator(e: string): (i: int) {
    IndexOfAny(e, Operators)
  }

  /** The largest of the four `lastIndexOf` results: the position of the last
      operator of any kind, or -1 when there is none. */
  function LastNumberIndex(e: string): (i: int)
    ensures -1 <= i < |e|
    ensures 0 <= i ==> IsOperator(e[i])
    ensures forall j :: i < j < |e| ==> !IsOperator(e[j])
  {
    Max(Max(LastIndexOf(e, '+'), LastIndexOf(e, '-')), Max(LastIndexOf(e, '*'), LastIndexOf(e, '/')))
  }

  /** First conjunct of the decimal-point guard in `addValue`. */
  predicate PointBeforeBoundary(e: string) {
    var lastDecimalIndex := LastIndexOf(e, '.');
    lastDecimalIndex < SearchOperator(e) || lastDecimalIndex < LastNumberIndex(e) || lastDecimalIndex == -1
  }

  /** Second conjunct of the decimal-point guard in `addValue`. */
  predicate NoMinusInCurrentNumber(e: string) {
    e == "" || IndexOf(Slice(e, LastNumberIndex(e) + 1, |e|), '-') == -1
  }

  predicate PointGuard(e: string) {
    PointBeforeBoundary(e) && NoMinusInCurrentNumber(e)
  }

  /** `addValue`: a `.` is appended only when the guard allows it; any other
      character is appended as it is. The result is never touched. */
  function AddValue(s: State, v: char): (r: State)
    ensures r.result == s.result
    ensures v != '.' ==> r.expression == s.expression + [v]
    ensures v == '.' ==> r.expression == s.expression || r.expression == s.expression + ['.']
  {
    if v == '.' then
      if PointGuard(s.expression) then State(s.expression + ['.'], s.result) else s
    else
      State(s.expression + [v], s.result)
  }

  /** `isLastCharOperator`: `isNaN(parseInt(expression.slice(-1)))`, which
      holds for an empty expression and for any last character that is not a
      digit, including `.`. */
  function IsLastCharOperator(e: string): (b: bool)
    ensures b <==> e == "" || !IsDigit(e[|e| - 1])
  {
    ParseIntIsNaN(Slice(e, -1, |e|))
  }

  /** `startFromResult`: the result's text and the operator are appended. */
  function StartFromResult(s: State, v: char): (r: State)
    ensures r.result == s.result
    ensures s.expression == "" ==> r.expression == s.result + [v]
  {
    State(s.expression + s.result + [v], s.result)
  }

  /** `backspace`: `expression.slice(0, -1)`. */
  function Backspace(s: State): (r: State)
    ensures r.result == s.result
    ensures s.expression == "" ==> r == s
    ensures s.expression != "" ==> r.expression + [s.expression[|s.expression| - 1]] == s.expression
  {
    State(Slice(s.expression, 0, -1), s.result)
  }

  /** `clear`. */
  function Clear(s: State): (r: State)
    ensures r.expression == "" && r.result == ""
  {
    Fresh
  }

  /** `submit`: the evaluated value becomes the result and the expression is
      emptied; a throwing evaluation leaves both fields as they were. */
  function Submit(ar: Arithmetic, s: State): (r: State)
    ensures ar.evaluate(s.expression).Produced? ==> r == State("", ar.evaluate(s.expression).text)
    ensures ar.evaluate(s.expression).Threw? ==> r == s
  {
    match ar.evaluate(s.expression)
    case Threw => s
    case Produced(v) => State("", v)
  }

  /** `negate`: with an empty expression the result is negated in place;
      otherwise only a leading `-` of the expression is added or removed. */
  function Negate(ar: Arithmetic, s: State): (r: State)
    ensures s.expression == "" && s.result != "" ==> r == State("", ar.negated(s.result))
    ensures s.expression == "" && s.result == "" ==> r == s
    ensures s.expression != "" ==> r.result == s.result
    ensures s.expression != "" && !StartsWith(s.expression, '-') ==> r.expression == ['-'] + s.expression
    ensures StartsWith(s.expression, '-') ==> ['-'] + r.expression == s.expression
  {
    if s.expression == "" && s.result != "" then
      State(s.expression, ar.negated(s.result))
    else if !StartsWith(s.expression, '-') && s.expression != "" then
      State(['-'] + s.expression, s.result)
    else if StartsWith(s.expression, '-') then
      State(Slice(s.expression, 1, |s.expression|), s.result)
    else
      s
  }

  /** `percentage`: a non-empty expression is evaluated and replaced, its
      value divided by 100 when it is a finite number and dropped otherwise;
      with an empty expression an existing result is divided by 100. */
  function Percentage(ar: Arithmetic, s: State): (r: State)
    ensures s.expression != "" && ar.evaluate(s.expression).Produced? ==> r.expression == ""
    ensures s.expression != "" && ar.evaluate(s.expression).Produced? && !ar.isFiniteNumber(ar.evaluate(s.expression).text) ==> r.result == ""
    ensures s.expression != "" && ar.evaluate(s.expression).Threw? ==> r == s
    ensures s.expression == "" ==> r.expression == ""
    ensures s.expression == "" && s.result == "" ==> r == s
  {
    if s.expression != "" then
      match ar.evaluate(s.expression)
      case Threw => s
      case Produced(v) =>
        State("", if ar.isFiniteNumber(v) then ar.hundredth(v) else "")
    else if s.result != "" then
      State(s.expression, ar.parsedHundredth(s.result))
    else
      s
  }

  /** `decimal`: the point is passed on to `addValue` only when the expression
      does not end in `.` and its last character (if any) is not NaN to
      `isNaN`, that is, a digit or white space. */
  function Decimal(s: State, v: char): (r: State)
    ensures r.result == s.result
    ensures EndsWith(s.expression, '.') ==> r == s
    ensures s.expression != "" && IsOperator(s.expression[|s.expression| - 1]) ==> r == s
  {
    if !EndsWith(s.expression, '.') && !NumberIsNaN(Slice(s.expression, -1, |s.expression|)) then
      AddValue(s, v)
    else
      s
  }

  // ---------------------------------------------------------------------
  // The decimal-point guard of addValue, reduced to its meaning.

  /** `search` finds no operator that `lastIndexOf` misses: the first
      operator is an operator, so by the contract of `LastNumberIndex` it
      cannot lie after the last one, and either index is -1 only when the
      expression holds no operator at all. */
  lemma SearchBeforeLastNumber(e: string)
    ensures SearchOperator(e) <= LastNumberIndex(e)
    ensures SearchOperator(e) == -1 <==> LastNumberIndex(e) == -1
  {
  }

  /** The second conjunct (`slice(lastNumberIndex + 1).indexOf('-') === -1`)
      can never fail: the slice is the text after the last operator, which
      holds no operator and so no `-`. */
  lemma NoMinusInCurrentNumberAlways(e: string)
    ensures NoMinusInCurrentNumber(e)
  {
  }

  /** The first conjunct says no more than "the last point lies before the
      last operator, or there is no point": the `search` disjunct (first
      operator, despite its name) is subsumed by the `lastIndexOf` one. */
  lemma PointBeforeBoundaryReduced(e: string)
    ensures PointBeforeBoundary(e) <==> LastIndexOf(e, '.') < LastNumberIndex(e) || LastIndexOf(e, '.') == -1
  {
    SearchBeforeLastNumber(e);
  }

  /** The whole guard allows a point exactly when the current operand holds
      none yet. With the second conjunct always true and the first reduced,
      the guard says the last point (if any) precedes the last operator; then
      every point has that operator after it, and conversely an operator
      after the last point can lie no later than the last operator. */
  lemma PointGuardMeaning(e: string)
    ensures PointGuard(e) <==> CurrentOperandHasNoPoint(e)
  {
    NoMinusInCurrentNumberAlways(e);
    PointBeforeBoundaryReduced(e);
  }

  /** `addValue('.')` appends a point exactly when the current operand has
      none, and otherwise changes nothing. */
  lemma AddPointExactly(s: State)
    ensures AddValue(s, '.') == if CurrentOperandHasNoPoint(s.expression)
                                then State(s.expression + ".", s.result) else s
  {
    PointGuardMeaning(s.expression);
  }

  /** A decimal-point press with the point character appends it exactly when
      the expression is empty or ends in a digit or white space, and the
      current operand has no point; in every other case nothing changes. */
  lemma DecimalPress(s: State)
    ensures Decimal(s, '.') ==
            if (s.expression == "" || IsDigit(s.expression[|s.expression| - 1]) || IsWhiteSpace(s.expression[|s.expression| - 1]))
               && CurrentOperandHasNoPoint(s.expression)
            then State(s.expression + ".", s.result) else s
  {
    AddPointExactly(s);
  }
}
