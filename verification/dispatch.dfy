/**
 The per-click dispatch of `buttonClick`: each button action is one event,
 and a click is one transition of the engine state. `Run` folds a sequence
 of clicks; the lemmas here relate several clicks to each other.
 */
module Dispatch {
  import opened JsText
  import Engine

  /** One button click, by its `data-action`, carrying its `data-value` where
      the script reads it. The four operator actions (addition, subtraction,
      multiplication, division) share one branch and so one constructor;
      `Other` is a click whose action matches no case. */
  datatype Event =
    | Number(value: char)
    | Clear
    | Backspace
    | Operator(value: char)
    | Submit
    | Negate
    | Mod
    | Decimal(value: char)
    | Other

  /** The operator branch of `buttonClick`: seed from the result when the
      expression is empty and a result exists; append when the expression is
      non-empty and its last character is a digit; otherwise ignore. */
  function PressOperator(s: Engine.State, v: char): (r: Engine.State)
    ensures s.expression == "" && s.result != "" ==> r == Engine.State(s.result + [v], s.result)
    ensures s.expression != "" && IsDigit(s.expression[|s.expression| - 1]) && v != '.'
            ==> r == Engine.State(s.expression + [v], s.result)
    ensures (s.expression == "" && s.result == "") || (s.expression != "" && !IsDigit(s.expression[|s.expression| - 1]))
            ==> r == s
  {
    if s.expression == "" && s.result != "" then
      Engine.StartFromResult(s, v)
    else if s.expression != "" && !Engine.IsLastCharOperator(s.expression) then
      Engine.AddValue(s, v)
    else
      s
  }

  /** `buttonClick` without the display update that follows every case. */
  function ButtonClick(ar: Engine.Arithmetic, s: Engine.State, ev: Event): (r: Engine.State) {
    match ev
    case Number(v) => Engine.AddValue(s, v)
    case Clear => Engine.Clear(s)
    case Backspace => Engine.Backspace(s)
    case Operator(v) => PressOperator(s, v)
    case Submit => Engine.Submit(ar, s)
    case Negate => Engine.Negate(ar, s)
    case Mod => Engine.Percentage(ar, s)
    case Decimal(v) => Engine.Decimal(s, v)
    case Other => s
  }

  /** The state after a sequence of clicks. */
  function Run(ar: Engine.Arithmetic, s: Engine.State, evs: seq<Event>): (r: Engine.State)
    decreases |evs|
  {
    if evs == [] then s else Run(ar, ButtonClick(ar, s, evs[0]), evs[1..])
  }

  /** One digit click per character of `ds`. */
  function DigitClicks(ds: string): (evs: seq<Event>)
    ensures |evs| == |ds|
    ensures forall i :: 0 <= i < |ds| ==> evs[i] == Number(ds[i])
  {
    seq(|ds|, i requires 0 <= i < |ds| => Number(ds[i]))
  }

  lemma {:induction false} RunAppend(ar: Engine.Arithmetic, s: Engine.State, evs: seq<Event>, ev: Event)
    ensures Run(ar, s, evs + [ev]) == ButtonClick(ar, Run(ar, s, evs), ev)
    decreases |evs|
  {
    if evs == [] {
      assert [ev][1..] == [];
    } else {
      assert (evs + [ev])[1..] == evs[1..] + [ev];
      RunAppend(ar, ButtonClick(ar, s, evs[0]), evs[1..], ev);
    }
  }

  lemma RunPair(ar: Engine.Arithmetic, s: Engine.State, e1: Event, e2: Event)
    ensures Run(ar, s, [e1, e2]) == ButtonClick(ar, ButtonClick(ar, s, e1), e2)
  {
    var s1 := ButtonClick(ar, s, e1);
    assert [e1, e2][1..] == [e2];
    assert [e2][1..] == [];
    // Run unfolds one click at a time; the second unfolding is spelled out.
    assert Run(ar, s1, [e2]) == Run(ar, ButtonClick(ar, s1, e2), []);
  }

  /** A run of digit clicks appends exactly those digits, in order, and
      leaves the result alone. */
  lemma {:induction false} TypingDigits(ar: Engine.Arithmetic, s: Engine.State, ds: string)
    requires forall i :: 0 <= i < |ds| ==> IsDigit(ds[i])
    ensures Run(ar, s, DigitClicks(ds)) == Engine.State(s.expression + ds, s.result)
    decreases |ds|
  {
    if ds == [] {
      assert s.expression + ds == s.expression;
    } else {
      var init := ds[..|ds| - 1];
      assert DigitClicks(ds) == DigitClicks(init) + [Number(ds[|ds| - 1])];
      RunAppend(ar, s, DigitClicks(init), Number(ds[|ds| - 1]));
      TypingDigits(ar, s, init);
      assert s.expression + init + [ds[|ds| - 1]] == s.expression + ds;
    }
  }

  /** Backspace on an empty expression changes nothing, however often it is
      repeated. */
  lemma {:induction false} BackspaceRepeated(ar: Engine.Arithmetic, s: Engine.State, n: nat)
    requires s.expression == ""
    ensures Run(ar, s, seq(n, _ => Backspace)) == s
    decreases n
  {
    if n > 0 {
      assert seq(n, _ => Backspace)[1..] == seq(n - 1, _ => Backspace);
      BackspaceRepeated(ar, s, n - 1);
    }
  }

  /** A backspace right after a non-point character click takes that
      character back off, restoring the state exactly. */
  lemma BackspaceUndoesClick(ar: Engine.Arithmetic, s: Engine.State, v: char)
    requires v != '.'
    ensures Run(ar, s, [Number(v), Backspace]) == s
  {
    RunPair(ar, s, Number(v), Backspace);
    var t := ButtonClick(ar, s, Number(v));
    assert Engine.Backspace(t).expression == s.expression;
  }

  /** A second operator click right after a first one is ignored, whichever
      of the three outcomes the first click had. */
  lemma RepeatedOperator(s: Engine.State, a: char, b: char)
    requires IsOperator(a)
    ensures PressOperator(PressOperator(s, a), b) == PressOperator(s, a)
  {
    var t := PressOperator(s, a);
    if s.expression == "" && s.result != "" {
      assert t.expression == s.result + [a];
    } else if s.expression != "" && IsDigit(s.expression[|s.expression| - 1]) {
      assert t.expression == s.expression + [a];
    } else {
      assert t == s;
    }
  }

  /** `clear` forgets the past: whatever two states a clear starts from, every
      later sequence of clicks behaves identically. */
  lemma ClearForgetsHistory(ar: Engine.Arithmetic, s1: Engine.State, s2: Engine.State, evs: seq<Event>)
    ensures Run(ar, s1, [Clear] + evs) == Run(ar, s2, [Clear] + evs)
    ensures Run(ar, s1, [Clear] + evs) == Run(ar, Engine.Fresh, evs)
  {
    assert ([Clear] + evs)[1..] == evs;
  }

  /** Chaining: after a submit whose evaluation produced a non-empty value,
      an operator click starts the next expression from that value. */
  lemma ChainFromResult(ar: Engine.Arithmetic, s: Engine.State, op: char)
    requires ar.evaluate(s.expression).Produced? && ar.evaluate(s.expression).text != ""
    ensures Run(ar, s, [Submit, Operator(op)])
            == Engine.State(ar.evaluate(s.expression).text + [op], ar.evaluate(s.expression).text)
  {
    RunPair(ar, s, Submit, Operator(op));
  }

  /** Chaining after a percentage: the value it stores, when non-empty, seeds
      the next expression on an operator click; when the value was not a
      finite number the result is left empty and the operator is ignored. */
  lemma PercentThenOperator(ar: Engine.Arithmetic, s: Engine.State, op: char)
    requires s.expression != "" ==> ar.evaluate(s.expression).Produced?
    ensures s.expression != "" ==>
              var v := ar.evaluate(s.expression).text;
              var r := if ar.isFiniteNumber(v) then ar.hundredth(v) else "";
              Run(ar, s, [Mod, Operator(op)]) == if r == "" then Engine.Fresh else Engine.State(r + [op], r)
    ensures s.expression == "" && s.result != "" ==>
              var r := ar.parsedHundredth(s.result);
              Run(ar, s, [Mod, Operator(op)]) == if r == "" then Engine.Fresh else Engine.State(r + [op], r)
  {
    RunPair(ar, s, Mod, Operator(op));
  }

  /** Two negations of a non-empty expression without a leading minus
      restore it; the result is untouched throughout. */
  lemma NegateTwice(ar: Engine.Arithmetic, s: Engine.State)
    requires s.expression != "" && !StartsWith(s.expression, '-')
    ensures Run(ar, s, [Negate, Negate]) == s
  {
    RunPair(ar, s, Negate, Negate);
    var t := Engine.Negate(ar, s);
    assert t.expression[1..] == s.expression;
  }

  /** Two negations of an expression with exactly one leading minus restore
      it as well. */
  lemma NegateTwiceSigned(ar: Engine.Arithmetic, s: Engine.State)
    requires 2 <= |s.expression| && s.expression[0] == '-' && s.expression[1] != '-'
    ensures Run(ar, s, [Negate, Negate]) == s
  {
    RunPair(ar, s, Negate, Negate);
    var t := Engine.Negate(ar, s);
    assert ['-'] + t.expression == s.expression;
  }
}
