/**
 * The history-keeping keypad window of calculator/gui_new.py (the
 * `CalculatorGUI` class declared inside the fallback branch of the outer
 * constructor): the same entry fields as the keypad of calculator/gui.py,
 * only the operators `+ - × ÷`, and a newest-first list of past
 * computations capped at 200 entries.
 */
module HistoryKeypad {
  import opened Results
  import opened Text
  import opened Numerals
  import opened Core
  import opened Display
  import opened Operators
  import Keypad

  /** The most entries the history keeps. */
  const MaxHistory: nat := 200

  /** The left operand, operator and right operand of a computation. */
  datatype Computation = Computation(left: real, op: Op, right: real)

  /** One history line: the computation and the text that was shown for it. */
  datatype HistoryEntry = HistoryEntry(expression: Computation, result: string)

  /**
   * The operator dispatch of `_compute`; an operator other than `+ - × ÷`
   * gives the right operand back.
   */
  function OperateBasic(op: Op, a: real, b: real): (r: Result<real, MathError>)
    ensures r.Failure? <==> op == Divide && b == 0.0
    ensures r.Failure? ==> r.error == ZeroDivisionError("division by zero")
    ensures op == Plus ==> r == Success(a + b)
    ensures op == Minus ==> r == Success(a - b)
    ensures op == Times ==> r == Success(a * b)
    ensures op == Divide && b != 0.0 ==> r.Success? && r.value * b == a
    ensures !op.IsBasic() ==> r == Success(b)
  {
    match op
    case Plus => Success(SafeAdd(a, b))
    case Minus => Success(SafeSub(a, b))
    case Times => Success(SafeMul(a, b))
    case Divide => SafeDiv(a, b)
    case _ => Success(b)
  }

  /** On `+ - × ÷` both windows compute the same thing. */
  lemma AgreesWithKeypad(op: Op, a: real, b: real, power: Keypad.PowerFn)
    requires op.IsBasic()
    ensures OperateBasic(op, a, b) == Keypad.Operate(op, a, b, power)
  {
  }

  /**
   * `history.insert(0, e)` followed by keeping the first 200 entries: the
   * new entry comes first, the older entries follow in their order, and only
   * the oldest are dropped.
   */
  function Record(history: seq<HistoryEntry>, e: HistoryEntry): (r: seq<HistoryEntry>)
    ensures |r| == if |history| < MaxHistory then |history| + 1 else MaxHistory
    ensures r[0] == e
    ensures r[1..] == history[..|r| - 1]
  {
    var inserted := [e] + history;
    if |inserted| > MaxHistory then inserted[..MaxHistory] else inserted
  }

  /** Below the cap nothing is dropped. */
  lemma RecordBelowCap(history: seq<HistoryEntry>, e: HistoryEntry)
    requires |history| < MaxHistory
    ensures Record(history, e) == [e] + history
  {
    var r := Record(history, e);
    assert r[1..] == history;
    assert r == [r[0]] + r[1..];
  }

  /** Two computations in a row appear newest first, ahead of all older ones. */
  lemma RecordTwice(history: seq<HistoryEntry>, e1: HistoryEntry, e2: HistoryEntry)
    ensures Record(Record(history, e1), e2)[..2] == [e2, e1]
  {
    var r1 := Record(history, e1);
    var r2 := Record(r1, e2);
    assert r2[1] == r2[1..][0] == r1[0];
  }

  /** The entry state and history of the history-keeping window. */
  class CalculatorGUI {
    var currentNumber: string
    var operation: Option<Op>
    var lastNumber: Option<real>
    var shouldReset: bool
    var history: seq<HistoryEntry>
    /** The `.10g` rendering of a non-integral result in `core.format_result`. */
    const formatFraction: real -> string

    /** The history is capped, and only `+ - × ÷` are ever pending. */
    predicate Valid()
      reads this
    {
      |history| <= MaxHistory && (operation.Some? ==> operation.value.IsBasic())
    }

    constructor(formatFraction: real -> string)
      ensures Valid()
      ensures currentNumber == "0" && operation == None && lastNumber == None && !shouldReset
      ensures history == [] && this.formatFraction == formatFraction
    {
      currentNumber := "0";
      operation := None;
      lastNumber := None;
      shouldReset := false;
      history := [];
      this.formatFraction := formatFraction;
    }

    /** A digit key `0`–`9`. */
    method PressDigit(d: char)
      requires Valid() && IsDigit(d)
      modifies this
      ensures Valid()
      ensures currentNumber == EnterDigit(old(currentNumber), old(shouldReset), d)
      ensures !shouldReset
      ensures operation == old(operation) && lastNumber == old(lastNumber) && history == old(history)
    {
      if shouldReset {
        currentNumber := [d];
        shouldReset := false;
      } else {
        currentNumber := (if currentNumber == "0" then "" else currentNumber) + [d];
      }
    }

    /** The `.` key. */
    method PressPoint()
      requires Valid()
      modifies this
      ensures Valid()
      ensures currentNumber == EnterPoint(old(currentNumber))
      ensures shouldReset == old(shouldReset) && operation == old(operation)
      ensures lastNumber == old(lastNumber) && history == old(history)
    {
      if '.' !in currentNumber {
        currentNumber := currentNumber + ".";
      }
    }

    /**
     * An operator key: `+ - × ÷` remember the displayed number (`0.0` when it
     * does not parse) and the operator; any other operator is not a key of
     * this window and changes nothing.
     */
    method PressOperator(op: Op)
      requires Valid()
      modifies this
      ensures Valid()
      ensures !op.IsBasic() ==>
        currentNumber == old(currentNumber) && operation == old(operation)
        && lastNumber == old(lastNumber) && shouldReset == old(shouldReset)
      ensures op.IsBasic() ==>
        && lastNumber == Some(if ParseNum(old(currentNumber)).Some? then ParseNum(old(currentNumber)).value else 0.0)
        && operation == Some(op) && shouldReset
      ensures currentNumber == old(currentNumber) && history == old(history)
    {
      if op.IsBasic() {
        match ParseNum(currentNumber) {
          case Some(v) => lastNumber := Some(v);
          case None => lastNumber := Some(0.0);
        }
        operation := Some(op);
        shouldReset := true;
      }
    }

    /**
     * The `=` key.  Without a pending operator and operand nothing changes.
     * Otherwise the pending operation is always cleared; a result is shown
     * and recorded first in the history, and a failure shows `Error` and
     * leaves the history as it was.
     */
    method Compute()
      requires Valid()
      modifies this
      ensures Valid()
      ensures old(operation).None? || old(lastNumber).None? ==>
        currentNumber == old(currentNumber) && operation == old(operation)
        && lastNumber == old(lastNumber) && shouldReset == old(shouldReset) && history == old(history)
      ensures old(operation).Some? && old(lastNumber).Some? ==>
        && operation == None && lastNumber == None && shouldReset
        && (ParseNum(old(currentNumber)).None? ==> currentNumber == "Error" && history == old(history))
        && (ParseNum(old(currentNumber)).Some? ==>
              var c := Computation(old(lastNumber).value, old(operation).value, ParseNum(old(currentNumber)).value);
              var r := OperateBasic(c.op, c.left, c.right);
              && (r.Failure? ==> currentNumber == "Error" && history == old(history))
              && (r.Success? ==>
                    currentNumber == FormatResult(r.value, formatFraction)
                    && history == Record(old(history), HistoryEntry(c, currentNumber))))
    {
      if operation.None? || lastNumber.None? {
        return;
      }
      var parsed := ParseNum(currentNumber);
      if parsed.None? {
        currentNumber := "Error";
      } else {
        var cur := parsed.value;
        var res := OperateBasic(operation.value, lastNumber.value, cur);
        if res.Failure? {
          currentNumber := "Error";
        } else {
          var out := FormatResult(res.value, formatFraction);
          history := [HistoryEntry(Computation(lastNumber.value, operation.value, cur), out)] + history;
          if |history| > MaxHistory {
            history := history[..MaxHistory];
          }
          currentNumber := out;
        }
      }
      operation := None;
      lastNumber := None;
      shouldReset := true;
    }

    /** The `Recall` button of a history line shows its text. */
    method Recall(v: string)
      requires Valid()
      modifies this
      ensures Valid()
      ensures currentNumber == v
      ensures operation == old(operation) && lastNumber == old(lastNumber)
      ensures shouldReset == old(shouldReset) && history == old(history)
    {
      currentNumber := v;
    }

    /** The `Clear History` button. */
    method ClearHistory()
      requires Valid()
      modifies this
      ensures Valid()
      ensures history == []
      ensures currentNumber == old(currentNumber) && operation == old(operation)
      ensures lastNumber == old(lastNumber) && shouldReset == old(shouldReset)
    {
      history := [];
    }
  }

  /**
   * `7 ÷ 0 =` shows `Error`, records nothing and clears the pending
   * division.
   */
  method DivisionByZeroNotRecorded(formatFraction: real -> string) returns (shown: string, recorded: nat, pending: bool)
    ensures shown == "Error" && recorded == 0 && !pending
  {
    var gui := new CalculatorGUI(formatFraction);
    gui.PressDigit('7');
    gui.PressOperator(Divide);
    gui.PressDigit('0');
    SingleDigit('0');
    gui.Compute();
    shown, recorded, pending := gui.currentNumber, |gui.history|, gui.operation.Some?;
  }
}
