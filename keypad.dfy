/** The keypad logic of the calculator screen, stated on values.

    The screen keeps three strings (the expression typed so far, the last
    result, the list of past calculations) and an alert flag.  Every key
    press is one transition of this state.  The arithmetic itself is done by a
    foreign expression evaluator over floating point; here it is the
    parameter `eval`, which either yields the formatted result string or fails.
 */
module Keypad {

  datatype Option<T> = None | Some(value: T)

  /** The keys, row by row, as they are laid out on screen. */
  const Grid: seq<seq<string>> := [
    ["AC", "⌦", "%", "/"],
    ["7", "8", "9", "*"],
    ["4", "5", "6", "-"],
    ["1", "2", "3", "+"],
    [".", "0", "", "="]
  ]

  const OperatorSymbols: seq<string> := ["/", "*", "-", "+", "%"]

  /** The three keys that are commands rather than text. */
  const Clear := "AC"
  const Delete := "⌦"
  const Equals := "="

  /** The evaluator: the substituted expression in, the formatted result out,
      or None when the expression cannot be evaluated. */
  type Evaluator = string -> Option<string>

  predicate OnKeypad(cell: string) {
    exists r :: 0 <= r < |Grid| && cell in Grid[r]
  }

  /** A character is an operator when, as a one-character string, it is one
      of the operator symbols. */
  predicate IsOperator(c: char) {
    [c] in OperatorSymbols
  }

  function Last(s: string): char
    requires |s| > 0
  {
    s[|s| - 1]
  }

  // ---------------------------------------------------------------------
  // Validation before evaluation

  /** The check made before an expression is handed to the evaluator. */
  function ValidInput(working: string): (r: bool)
    ensures r <==>
      working != [] &&
      Last(working) !in "/*-+" &&
      (Last(working) == '%' ==> |working| > 1)
  {
    if working == [] then false
    else
      var last := Last(working);
      if (IsOperator(last) || last == '-') && (last != '%' || |working| == 1) then false
      else true
  }

  // ---------------------------------------------------------------------
  // Character substitution before evaluation

  /** Every occurrence of `target` in `s` replaced by `replacement`, everything else kept. */
  function Replace(s: string, target: char, replacement: string): (r: string)
    ensures forall i :: 0 <= i < |r| ==> r[i] in s || r[i] in replacement
  {
    if s == [] then []
    else (if s[0] == target then replacement else [s[0]]) + Replace(s[1..], target, replacement)
  }

  /** The number of occurrences of `x` in `s`. */
  function Count<T(==)>(s: seq<T>, x: T): nat
  {
    if s == [] then 0
    else (if s[0] == x then 1 else 0) + Count(s[1..], x)
  }

  lemma {:induction false} ReplaceAppend(a: string, b: string, target: char, replacement: string)
    ensures Replace(a + b, target, replacement) == Replace(a, target, replacement) + Replace(b, target, replacement)
  {
    if a == [] {
      assert a + b == b;
    } else {
      assert (a + b)[1..] == a[1..] + b;
      ReplaceAppend(a[1..], b, target, replacement);
    }
  }

  /** Each `target` becomes `replacement`: the replacement works occurrence by occurrence. */
  lemma EachOccurrenceReplaced(a: string, b: string, target: char, replacement: string)
    ensures Replace(a + [target] + b, target, replacement) ==
            Replace(a, target, replacement) + replacement + Replace(b, target, replacement)
  {
    ReplaceAppend(a + [target], b, target, replacement);
    ReplaceAppend(a, [target], target, replacement);
    assert Replace([target], target, replacement) == replacement + Replace([], target, replacement);
  }

  lemma {:induction false} ReplaceLength(s: string, target: char, replacement: string)
    ensures |Replace(s, target, replacement)| == |s| + (|replacement| - 1) * Count(s, target)
  {
    if s != [] {
      ReplaceLength(s[1..], target, replacement);
    }
  }

  lemma {:induction false} ReplaceRemovesTarget(s: string, target: char, replacement: string)
    requires target !in replacement
    ensures target !in Replace(s, target, replacement)
  {
    if s != [] {
      ReplaceRemovesTarget(s[1..], target, replacement);
    }
  }

  lemma {:induction false} ReplaceAbsent(s: string, target: char, replacement: string)
    ensures target !in s ==> Replace(s, target, replacement) == s
  {
    if s != [] {
      ReplaceAbsent(s[1..], target, replacement);
    }
  }

  lemma {:induction false} ReplaceBySelf(s: string, target: char)
    ensures Replace(s, target, [target]) == s
  {
    if s != [] {
      ReplaceBySelf(s[1..], target);
    }
  }

  /** The text handed to the evaluator: every `%` becomes a multiplication by
      0.01, then every `*` is replaced by `*`. */
  function Substitute(working: string): (r: string)
    ensures r == Replace(working, '%', "*0.01")
    ensures '%' !in r
    ensures |r| == |working| + 4 * Count(working, '%')
    ensures '%' !in working ==> r == working
  {
    var percent := Replace(working, '%', "*0.01");
    ReplaceBySelf(percent, '*');
    ReplaceRemovesTarget(working, '%', "*0.01");
    ReplaceLength(working, '%', "*0.01");
    ReplaceAbsent(working, '%', "*0.01");
    Replace(percent, '*', "*")
  }

  /** A number followed by `%` is evaluated as that number times 0.01. */
  lemma PercentOfNumber(n: string)
    requires '%' !in n
    ensures Substitute(n + "%") == n + "*0.01"
  {
    var p := "*0.01";
    EachOccurrenceReplaced(n, [], '%', p);
    ReplaceAbsent(n, '%', p);
    assert Replace([], '%', p) == [];
    assert n + ['%'] + [] == n + "%";
  }

  // ---------------------------------------------------------------------
  // Key presses

  datatype State = State(working: string, result: string, history: seq<string>, showAlert: bool)

  const Initial := State("", "", [], false)

  /** An operator typed after the expression: refused on an empty expression,
      replaces a trailing operator, and is appended otherwise. */
  function AddOperatorTo(working: string, op: string): (r: string)
    requires op in OperatorSymbols
    ensures working == [] ==> r == []
    ensures working != [] && IsOperator(Last(working)) ==>
      |r| == |working| && r[..|r| - 1] == working[..|working| - 1] && Last(r) == op[0]
    ensures working != [] && !IsOperator(Last(working)) ==> r == working + op
  {
    if working == [] then working
    else
      var kept := if IsOperator(Last(working)) then working[..|working| - 1] else working;
      kept + op
  }

  /** The expression without its last character; unchanged when empty. */
  function DropLast(working: string): (r: string)
    ensures working == [] ==> r == []
    ensures working != [] ==> r + [Last(working)] == working
  {
    if working == [] then [] else working[..|working| - 1]
  }

  /** Validation, then substitution and evaluation; None on either failure. */
  function CalculatorResult(working: string, eval: Evaluator): (r: Option<string>)
    ensures working == [] || Last(working) in "/*-+" || working == "%" ==> r == None
    ensures ValidInput(working) ==> r == eval(Replace(working, '%', "*0.01"))
    ensures r.Some? ==> ValidInput(working)
  {
    if !ValidInput(working) then None else eval(Substitute(working))
  }

  function Entry(working: string, result: string): string {
    working + " = " + result
  }

  /** One key press. */
  function Press(s: State, cell: string, eval: Evaluator): (t: State)
    ensures cell == Clear ==>
      t.working == "" && t.result == "" && t.history == s.history && t.showAlert == s.showAlert
    ensures cell == Delete ==>
      t.working == DropLast(s.working) && t.result == s.result &&
      t.history == s.history && t.showAlert == s.showAlert
    ensures cell == Equals ==>
      t.working == s.working && |t.history| == |s.history| + 1 &&
      t.history == s.history + [Entry(s.working, t.result)]
    ensures cell == Equals ==>
      match CalculatorResult(s.working, eval)
      case None => t.result == "" && t.showAlert
      case Some(v) => t.result == v && t.showAlert == s.showAlert
    ensures cell in OperatorSymbols ==>
      t == s.(working := AddOperatorTo(s.working, cell))
    ensures cell !in [Clear, Delete, Equals] + OperatorSymbols ==>
      t == s.(working := s.working + cell)
  {
    if cell == Clear then
      s.(working := "", result := "")
    else if cell == Delete then
      s.(working := DropLast(s.working))
    else if cell == Equals then
      var out := CalculatorResult(s.working, eval);
      var result := if out.Some? then out.value else "";
      var alert := if out.None? then true else s.showAlert;
      s.(result := result, history := s.history + [Entry(s.working, result)], showAlert := alert)
    else if cell in OperatorSymbols then
      s.(working := AddOperatorTo(s.working, cell))
    else
      s.(working := s.working + cell)
  }

  /** A sequence of key presses, first to last. */
  function Run(s: State, cells: seq<string>, eval: Evaluator): State
    decreases |cells|
  {
    if cells == [] then s else Run(Press(s, cells[0], eval), cells[1..], eval)
  }

  // ---------------------------------------------------------------------
  // Properties of key presses

  lemma ClearTwiceIsClearOnce(s: State, eval: Evaluator)
    ensures Press(Press(s, Clear, eval), Clear, eval) == Press(s, Clear, eval)
    ensures Press(s, Clear, eval).history == s.history
  {
  }

  /** `3+` ends in an operator: the result is empty, the alert is raised, and
      the history still records the attempt. */
  lemma TrailingOperatorStillRecorded(eval: Evaluator)
    ensures Press(State("3+", "", [], false), Equals, eval) == State("3+", "", ["3+ = "], true)
  {
    assert Last("3+") == '+';
    assert CalculatorResult("3+", eval) == None;
    assert Entry("3+", "") == "3+ = ";
  }

  /** What every reachable expression looks like: it does not start with an
      operator and it never holds two operators side by side. */
  predicate WellFormed(w: string) {
    (w != [] ==> !IsOperator(w[0])) &&
    forall i :: 0 <= i < |w| - 1 ==> !(IsOperator(w[i]) && IsOperator(w[i + 1]))
  }

  /** The keys that are typed as text (digits, `.` and the blank key) hold no operator. */
  lemma TextKeysHoldNoOperator(cell: string)
    requires OnKeypad(cell)
    requires cell !in [Clear, Delete, Equals] + OperatorSymbols
    ensures forall i :: 0 <= i < |cell| ==> !IsOperator(cell[i])
  {
    var r :| 0 <= r < |Grid| && cell in Grid[r];
    assert cell in ["7", "8", "9", "4", "5", "6", "1", "2", "3", ".", "0", ""];
  }

  lemma AppendTextKeepsWellFormed(w: string, cell: string)
    requires WellFormed(w)
    requires forall i :: 0 <= i < |cell| ==> !IsOperator(cell[i])
    ensures WellFormed(w + cell)
  {
    var v := w + cell;
    forall i | 0 <= i < |v| - 1
      ensures !(IsOperator(v[i]) && IsOperator(v[i + 1]))
    {
      if i + 1 >= |w| {
        assert v[i + 1] == cell[i + 1 - |w|];
      }
    }
  }

  lemma AddOperatorKeepsWellFormed(w: string, op: string)
    requires WellFormed(w)
    requires op in OperatorSymbols
    ensures WellFormed(AddOperatorTo(w, op))
  {
    if w != [] {
      var kept := if IsOperator(Last(w)) then w[..|w| - 1] else w;
      assert kept != [] && !IsOperator(Last(kept));
      var v := kept + op;
      assert v == AddOperatorTo(w, op);
      forall i | 0 <= i < |v| - 1
        ensures !(IsOperator(v[i]) && IsOperator(v[i + 1]))
      {
        if i + 1 < |kept| {
          assert v[i] == w[i] && v[i + 1] == w[i + 1];
        } else {
          assert v[i] == Last(kept);
        }
      }
      assert v[0] == w[0];
    }
  }

  lemma PressKeepsWellFormed(s: State, cell: string, eval: Evaluator)
    requires WellFormed(s.working)
    requires OnKeypad(cell)
    ensures WellFormed(Press(s, cell, eval).working)
  {
    if cell == Clear || cell == Equals {
    } else if cell == Delete {
      var w := s.working;
      if w != [] {
        var d := DropLast(w);
        assert forall i :: 0 <= i < |d| ==> d[i] == w[i];
      }
    } else if cell in OperatorSymbols {
      AddOperatorKeepsWellFormed(s.working, cell);
    } else {
      TextKeysHoldNoOperator(cell);
      AppendTextKeepsWellFormed(s.working, cell);
    }
  }

  lemma {:induction false} RunKeepsWellFormed(s: State, cells: seq<string>, eval: Evaluator)
    requires WellFormed(s.working)
    requires forall k :: 0 <= k < |cells| ==> OnKeypad(cells[k])
    ensures WellFormed(Run(s, cells, eval).working)
    decreases |cells|
  {
    if cells != [] {
      PressKeepsWellFormed(s, cells[0], eval);
      RunKeepsWellFormed(Press(s, cells[0], eval), cells[1..], eval);
    }
  }

  /** From the starting screen, no sequence of keypad presses builds an
      expression that starts with an operator or stacks two operators. */
  lemma ReachableExpressionsWellFormed(cells: seq<string>, eval: Evaluator)
    requires forall k :: 0 <= k < |cells| ==> OnKeypad(cells[k])
    ensures WellFormed(Run(Initial, cells, eval).working)
  {
    RunKeepsWellFormed(Initial, cells, eval);
  }

  /** On a reachable expression the lone-`%` case of the validation never
      arises: the expression is valid exactly when it is non-empty and its
      last character is not an operator other than `%`. */
  lemma ValidInputOnWellFormed(w: string)
    requires WellFormed(w)
    ensures w != "%"
    ensures ValidInput(w) <==> w != [] && (IsOperator(Last(w)) ==> Last(w) == '%')
  {
  }

  /** The history is append-only and grows by one entry per `=` and by
      nothing else. */
  lemma {:induction false} RunHistory(s: State, cells: seq<string>, eval: Evaluator)
    ensures |Run(s, cells, eval).history| == |s.history| + Count(cells, Equals)
    ensures Run(s, cells, eval).history[..|s.history|] == s.history
    decreases |cells|
  {
    if cells != [] {
      var t := Press(s, cells[0], eval);
      RunHistory(t, cells[1..], eval);
      assert t.history[..|s.history|] == s.history;
      var h := Run(t, cells[1..], eval).history;
      assert h[..|t.history|][..|s.history|] == h[..|s.history|];
    }
  }

  /** Keys typed as text, concatenated in order. */
  function Concat(cells: seq<string>): string {
    if cells == [] then "" else cells[0] + Concat(cells[1..])
  }

  /** Without commands or operators, the expression is the keys typed, in order,
      and nothing else on the screen changes. */
  lemma {:induction false} RunTextKeys(s: State, cells: seq<string>, eval: Evaluator)
    requires forall k :: 0 <= k < |cells| ==> cells[k] !in [Clear, Delete, Equals] + OperatorSymbols
    ensures Run(s, cells, eval) == s.(working := s.working + Concat(cells))
    decreases |cells|
  {
    if cells != [] {
      var t := Press(s, cells[0], eval);
      RunTextKeys(t, cells[1..], eval);
      assert s.working + cells[0] + Concat(cells[1..]) == s.working + Concat(cells);
    }
  }
}
