/**
 The shape the click guards keep the expression in: it never starts with an
 operator, never holds two operators side by side or an operator right after
 a point, and holds at most one point per operand. Digit, operator, decimal,
 backspace and clear clicks preserve this shape as long as the result that
 an operator click may copy in has it too.
 */
module Shape {
  import opened JsText
  import Engine
  import Dispatch

  /** Only digits, operators and points. */
  predicate Alphabet(e: string) {
    forall i :: 0 <= i < |e| ==> IsDigit(e[i]) || IsOperator(e[i]) || e[i] == '.'
  }

  predicate NoLeadingOperator(e: string) {
    0 < |e| ==> !IsOperator(e[0])
  }

  predicate NoAdjacentOperators(e: string) {
    forall i :: 0 < i < |e| ==> !(IsOperator(e[i - 1]) && IsOperator(e[i]))
  }

  predicate NoOperatorAfterPoint(e: string) {
    forall i :: 0 < i < |e| ==> !(e[i - 1] == '.' && IsOperator(e[i]))
  }

  /** Between any two points there is an operator. */
  predicate OnePointPerOperand(e: string) {
    forall i, j :: 0 <= i < j < |e| && e[i] == '.' && e[j] == '.' ==> exists k :: i < k < j && IsOperator(e[k])
  }

  predicate WellFormed(e: string) {
    && Alphabet(e)
    && NoLeadingOperator(e)
    && NoAdjacentOperators(e)
    && NoOperatorAfterPoint(e)
    && OnePointPerOperand(e)
  }

  /** A result an operator click may seed the expression with: none at all,
      or a well-formed operand ending in a digit (a digit string, say). */
  predicate SeedableResult(r: string) {
    r == "" || (WellFormed(r) && IsDigit(r[|r| - 1]))
  }

  predicate Invariant(s: Engine.State) {
    WellFormed(s.expression) && SeedableResult(s.result)
  }

  /** The clicks the invariant is about, with the values their buttons carry. */
  predicate Typed(ev: Dispatch.Event) {
    match ev
    case Number(d) => IsDigit(d)
    case Operator(v) => IsOperator(v)
    case Decimal(v) => v == '.'
    case Backspace => true
    case Clear => true
    case Other => true
    case _ => false
  }

  lemma AppendDigitKeeps(e: string, d: char)
    requires WellFormed(e) && IsDigit(d)
    ensures WellFormed(e + [d])
  {
    var e' := e + [d];
    assert forall i :: 0 <= i < |e| ==> e'[i] == e[i];
  }

  lemma AppendOperatorKeeps(e: string, op: char)
    requires WellFormed(e) && e != "" && IsDigit(e[|e| - 1]) && IsOperator(op)
    ensures WellFormed(e + [op])
  {
    var e' := e + [op];
    assert forall i :: 0 <= i < |e| ==> e'[i] == e[i];
  }

  lemma AppendPointKeeps(e: string)
    requires WellFormed(e) && (e == "" || IsDigit(e[|e| - 1])) && Engine.CurrentOperandHasNoPoint(e)
    ensures WellFormed(e + ".")
  {
    var e' := e + ".";
    assert forall i :: 0 <= i < |e| ==> e'[i] == e[i];
    forall i, j | 0 <= i < j < |e'| && e'[i] == '.' && e'[j] == '.'
      ensures exists k :: i < k < j && IsOperator(e'[k])
    {
      if j == |e| {
        assert e[i] == '.';
        var k :| i < k < |e| && IsOperator(e[k]);
        assert e'[k] == e[k];
      } else {
        var k :| i < k < j && IsOperator(e[k]);
        assert e'[k] == e[k];
      }
    }
  }

  lemma PrefixKeeps(e: string, n: nat)
    requires WellFormed(e) && n <= |e|
    ensures WellFormed(e[..n])
  {
    var p := e[..n];
    forall i, j | 0 <= i < j < |p| && p[i] == '.' && p[j] == '.'
      ensures exists k :: i < k < j && IsOperator(p[k])
    {
      var k :| i < k < j && IsOperator(e[k]);
      assert p[k] == e[k];
    }
  }

  /** With only digits, operators and points in the expression, a point click
      appends exactly when the expression is empty or ends in a digit and the
      current operand has no point yet: the white-space case of
      `Engine.DecimalPress` cannot arise. */
  lemma DecimalOnCalculatorText(s: Engine.State)
    requires Alphabet(s.expression)
    ensures Engine.Decimal(s, '.') ==
            if (s.expression == "" || IsDigit(s.expression[|s.expression| - 1]))
               && Engine.CurrentOperandHasNoPoint(s.expression)
            then Engine.State(s.expression + ".", s.result) else s
  {
    Engine.DecimalPress(s);
  }

  /** One typed click keeps the invariant. */
  lemma StepKeepsInvariant(ar: Engine.Arithmetic, s: Engine.State, ev: Dispatch.Event)
    requires Invariant(s) && Typed(ev)
    ensures Invariant(Dispatch.ButtonClick(ar, s, ev))
  {
    var e := s.expression;
    match ev {
      case Number(d) =>
        AppendDigitKeeps(e, d);
      case Operator(v) =>
        if e == "" && s.result != "" {
          AppendOperatorKeeps(s.result, v);
        } else if e != "" && IsDigit(e[|e| - 1]) {
          AppendOperatorKeeps(e, v);
        }
      case Decimal(v) =>
        Engine.DecimalPress(s);
        if e != "" {
          var c := e[|e| - 1];
          assert IsDigit(c) || IsOperator(c) || c == '.';
        }
        if (e == "" || IsDigit(e[|e| - 1])) && Engine.CurrentOperandHasNoPoint(e) {
          AppendPointKeeps(e);
        }
      case Backspace =>
        if e != "" {
          PrefixKeeps(e, |e| - 1);
        }
      case Clear =>
      case Other =>
    }
  }

  /** Any sequence of typed clicks keeps the invariant. */
  lemma {:induction false} RunKeepsInvariant(ar: Engine.Arithmetic, s: Engine.State, evs: seq<Dispatch.Event>)
    requires Invariant(s)
    requires forall i :: 0 <= i < |evs| ==> Typed(evs[i])
    ensures Invariant(Dispatch.Run(ar, s, evs))
    decreases |evs|
  {
    if evs != [] {
      StepKeepsInvariant(ar, s, evs[0]);
      RunKeepsInvariant(ar, Dispatch.ButtonClick(ar, s, evs[0]), evs[1..]);
    }
  }

  /** From a fresh page, typed clicks only ever compose well-formed
      expressions. */
  lemma FreshRunsWellFormed(ar: Engine.Arithmetic, evs: seq<Dispatch.Event>)
    requires forall i :: 0 <= i < |evs| ==> Typed(evs[i])
    ensures WellFormed(Dispatch.Run(ar, Engine.Fresh, evs).expression)
  {
    RunKeepsInvariant(ar, Engine.Fresh, evs);
  }

  // ---------------------------------------------------------------------
  // The same shape with one leading minus, which `negate` adds and strips.

  /** A well-formed expression, optionally behind a single leading `-`. */
  predicate SignedWellFormed(e: string) {
    WellFormed(e) || (StartsWith(e, '-') && WellFormed(e[1..]))
  }

  predicate SignedSeedableResult(r: string) {
    r == "" || (SignedWellFormed(r) && IsDigit(r[|r| - 1]))
  }

  predicate SignedInvariant(s: Engine.State) {
    SignedWellFormed(s.expression) && SignedSeedableResult(s.result)
  }

  /** The supplied negation of the result keeps a seedable result seedable,
      as negating a number's text does ("5" and "-5", "0.25" and "-0.25"). */
  ghost predicate NegationKeepsShape(ar: Engine.Arithmetic) {
    forall t :: SignedSeedableResult(t) ==> SignedSeedableResult(ar.negated(t))
  }

  predicate SignedTyped(ev: Dispatch.Event) {
    Typed(ev) || ev.Negate?
  }

  /** Dropping the first character keeps every point closed: the operator
      that follows a point lies after it, so never at position 0. */
  lemma SignedCurrentOperand(e: string)
    requires e != "" && Engine.CurrentOperandHasNoPoint(e)
    ensures Engine.CurrentOperandHasNoPoint(e[1..])
  {
    var t := e[1..];
    forall i | 0 <= i < |t| && t[i] == '.'
      ensures exists k :: i < k < |t| && IsOperator(t[k])
    {
      assert e[i + 1] == t[i];
      var k :| i + 1 < k < |e| && IsOperator(e[k]);
      assert t[k - 1] == e[k];
    }
  }

  /** A signed expression holds only digits, operators and points. */
  lemma SignedAlphabet(e: string)
    requires SignedWellFormed(e)
    ensures Alphabet(e)
  {
    if !WellFormed(e) {
      assert forall i :: 1 <= i < |e| ==> e[i] == e[1..][i - 1];
    }
  }

  lemma SignedAppendDigit(e: string, d: char)
    requires SignedWellFormed(e) && IsDigit(d)
    ensures SignedWellFormed(e + [d])
  {
    if WellFormed(e) {
      AppendDigitKeeps(e, d);
    } else {
      assert (e + [d])[1..] == e[1..] + [d];
      AppendDigitKeeps(e[1..], d);
    }
  }

  lemma SignedAppendOperator(e: string, op: char)
    requires SignedWellFormed(e) && e != "" && IsDigit(e[|e| - 1]) && IsOperator(op)
    ensures SignedWellFormed(e + [op])
  {
    if WellFormed(e) {
      AppendOperatorKeeps(e, op);
    } else {
      assert (e + [op])[1..] == e[1..] + [op];
      AppendOperatorKeeps(e[1..], op);
    }
  }

  lemma SignedAppendPoint(e: string)
    requires SignedWellFormed(e) && (e == "" || IsDigit(e[|e| - 1])) && Engine.CurrentOperandHasNoPoint(e)
    ensures SignedWellFormed(e + ".")
  {
    if WellFormed(e) {
      AppendPointKeeps(e);
    } else {
      SignedCurrentOperand(e);
      AppendPointKeeps(e[1..]);
      assert (e + ".")[1..] == e[1..] + ".";
    }
  }

  lemma SignedDropLast(e: string)
    requires SignedWellFormed(e) && e != ""
    ensures SignedWellFormed(e[..|e| - 1])
  {
    if WellFormed(e) {
      PrefixKeeps(e, |e| - 1);
    } else if |e| > 1 {
      var t := e[1..];
      PrefixKeeps(t, |t| - 1);
      assert e[..|e| - 1][1..] == t[..|t| - 1];
    } else {
      assert e[..|e| - 1] == "";
    }
  }

  /** One typed click or negate keeps the signed invariant, provided the
      supplied negation keeps a seedable result seedable. */
  lemma SignedStepKeepsInvariant(ar: Engine.Arithmetic, s: Engine.State, ev: Dispatch.Event)
    requires NegationKeepsShape(ar)
    requires SignedInvariant(s) && SignedTyped(ev)
    ensures SignedInvariant(Dispatch.ButtonClick(ar, s, ev))
  {
    var e := s.expression;
    match ev {
      case Number(d) =>
        SignedAppendDigit(e, d);
      case Operator(v) =>
        if e == "" && s.result != "" {
          SignedAppendOperator(s.result, v);
        } else if e != "" && IsDigit(e[|e| - 1]) {
          SignedAppendOperator(e, v);
        }
      case Decimal(v) =>
        Engine.DecimalPress(s);
        SignedAlphabet(e);
        if (e == "" || IsDigit(e[|e| - 1])) && Engine.CurrentOperandHasNoPoint(e) {
          SignedAppendPoint(e);
        }
      case Backspace =>
        if e != "" {
          SignedDropLast(e);
        }
      case Negate =>
        if e != "" && !StartsWith(e, '-') {
          assert (['-'] + e)[1..] == e;
        }
      case Clear =>
      case Other =>
    }
  }

  /** Typed clicks and negations, in any number and order, keep the signed
      invariant. */
  lemma {:induction false} SignedRunKeepsInvariant(ar: Engine.Arithmetic, s: Engine.State, evs: seq<Dispatch.Event>)
    requires NegationKeepsShape(ar)
    requires SignedInvariant(s)
    requires forall i :: 0 <= i < |evs| ==> SignedTyped(evs[i])
    ensures SignedInvariant(Dispatch.Run(ar, s, evs))
    decreases |evs|
  {
    if evs != [] {
      SignedStepKeepsInvariant(ar, s, evs[0]);
      SignedRunKeepsInvariant(ar, Dispatch.ButtonClick(ar, s, evs[0]), evs[1..]);
    }
  }

  /** While the result is empty, typed clicks and negations keep it empty
      and keep the expression signed well formed, whatever the negation of a
      result would be: `negate` only reaches the result when it is non-empty,
      so each step behaves as under a negation that changes nothing. */
  lemma {:induction false} SignedRunWithoutResult(ar: Engine.Arithmetic, s: Engine.State, evs: seq<Dispatch.Event>)
    requires SignedWellFormed(s.expression) && s.result == ""
    requires forall i :: 0 <= i < |evs| ==> SignedTyped(evs[i])
    ensures SignedWellFormed(Dispatch.Run(ar, s, evs).expression)
    ensures Dispatch.Run(ar, s, evs).result == ""
    decreases |evs|
  {
    if evs != [] {
      var inert := ar.(negated := t => t);
      assert Dispatch.ButtonClick(ar, s, evs[0]) == Dispatch.ButtonClick(inert, s, evs[0]);
      SignedStepKeepsInvariant(inert, s, evs[0]);
      SignedRunWithoutResult(ar, Dispatch.ButtonClick(ar, s, evs[0]), evs[1..]);
    }
  }

  /** From a fresh page, typed clicks and negations only ever compose
      expressions that are well formed after at most one leading `-`. */
  lemma FreshRunsSignedWellFormed(ar: Engine.Arithmetic, evs: seq<Dispatch.Event>)
    requires forall i :: 0 <= i < |evs| ==> SignedTyped(evs[i])
    ensures SignedWellFormed(Dispatch.Run(ar, Engine.Fresh, evs).expression)
  {
    SignedRunWithoutResult(ar, Engine.Fresh, evs);
  }
}
