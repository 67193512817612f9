/** The calculator screen as an object whose fields each key press updates
    in place.  Every method is tied to the value-level transition in Keypad,
    so the lemmas proved there hold of the screen. */
module ContentViewModel {

  import opened Keypad

  class ContentView {
    var visibleWorking: string
    var visibleResult: string
    var history: seq<string>
    var showAlert: bool

    /** The screen's state as a value. */
    function Screen(): State
      reads this
    {
      State(visibleWorking, visibleResult, history, showAlert)
    }

    constructor ()
      ensures Screen() == Initial
    {
      visibleWorking := "";
      visibleResult := "";
      history := [];
      showAlert := false;
    }

    /** Dispatches one key: clear, delete, evaluate, operator, or text. */
    method ButtonPressed(cell: string, eval: Evaluator)
      modifies this
      ensures Screen() == Press(old(Screen()), cell, eval)
      ensures cell == Equals ==>
        visibleWorking == old(visibleWorking) &&
        history == old(history) + [Entry(old(visibleWorking), visibleResult)]
      ensures cell != Equals ==> history == old(history)
    {
      if cell == Clear {
        visibleWorking := "";
        visibleResult := "";
      } else if cell == Delete {
        if visibleWorking != [] {
          visibleWorking := visibleWorking[..|visibleWorking| - 1];
        }
      } else if cell == Equals {
        visibleResult := CalculatorResult(eval);
        history := history + [Entry(visibleWorking, visibleResult)];
      } else if cell in OperatorSymbols {
        AddOperator(cell);
      } else {
        visibleWorking := visibleWorking + cell;
      }
    }

    /** Appends an operator, replacing a trailing one; refused on an empty
        expression. */
    method AddOperator(cell: string)
      requires cell in OperatorSymbols
      modifies this`visibleWorking
      ensures visibleWorking == AddOperatorTo(old(visibleWorking), cell)
      ensures old(visibleWorking) == [] ==> visibleWorking == []
      ensures old(visibleWorking) != [] && IsOperator(Last(old(visibleWorking))) ==>
        |visibleWorking| == |old(visibleWorking)| && Last(visibleWorking) == cell[0]
    {
      if visibleWorking == [] {
        return;
      }
      var lastCharacter := visibleWorking[|visibleWorking| - 1];
      if IsOperator(lastCharacter) {
        visibleWorking := visibleWorking[..|visibleWorking| - 1];
      }
      visibleWorking := visibleWorking + cell;
    }

    /** Validates and evaluates the expression; on failure raises the alert
        and yields the empty string. */
    method CalculatorResult(eval: Evaluator) returns (r: string)
      modifies this`showAlert
      ensures Keypad.CalculatorResult(visibleWorking, eval).None? ==> r == "" && showAlert
      ensures Keypad.CalculatorResult(visibleWorking, eval).Some? ==>
        r == Keypad.CalculatorResult(visibleWorking, eval).value && showAlert == old(showAlert)
      ensures !ValidInput(visibleWorking) ==> r == "" && showAlert
    {
      if !ValidInput(visibleWorking) {
        showAlert := true;
        return "";
      }
      var working := Substitute(visibleWorking);
      var out := eval(working);
      if out.Some? {
        r := out.value;
      } else {
        showAlert := true;
        r := "";
      }
    }
  }
}
