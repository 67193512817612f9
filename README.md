# Calculator keypad — a Dafny model

This project models the keypad logic of a single-screen calculator app (`ContentView`).
The screen holds four pieces of state:

- `visibleWorking`: the expression typed so far.
- `visibleResult`: the last result string.
- `history`: a list of `"<expression> = <result>"` lines.
- `showAlert`: the "Invalid Input" alert flag.

A key press is one of the following:

- `AC` clears the expression and the result.
- `⌦` drops the last character.
- `=` validates the expression and evaluates it, then appends one history line.
- An operator (`/ * - + %`) is refused on an empty expression. It replaces a trailing operator, and is appended otherwise.
- Every other key (digits, `.`, the blank key) is appended as typed.

Before evaluation, each `%` is rewritten to `*0.01`.

The model is split between two modules:

- `Keypad` (`keypad.dfy`) states everything on values. It defines the keypad grid, the operator symbols and `ValidInput`. It has the character substitution (`Replace`, `Substitute`) and one key press as a transition `Press` on a `State`. `Run` folds `Press` over a sequence of keys. It also holds the lemmas about runs.
- `ContentViewModel` (`content_view.dfy`) is the screen as a `class ContentView` whose fields the methods update in place. `ButtonPressed`, `AddOperator` and `CalculatorResult` mirror the source methods. Each one is proved to produce exactly the state that `Keypad.Press` (resp. `AddOperatorTo`, `CalculatorResult`) describes, so every lemma about `Press` and `Run` holds of the object.

The arithmetic uses `NSExpression` over `Double`, and the result is formatted with `String(format:)`. Both are foreign and floating point. They are modelled as a parameter `eval: string -> Option<string>`. `eval` receives the substituted expression and yields either the formatted result or `None` for failure.

Behaviour of the code worth knowing:

- A lone `"%"` is **rejected**: `validInput` returns false when the last character is `%` and the count is 1 (line 151). `ValidInputOnWellFormed` shows that no keypad sequence can produce a lone `"%"` anyway.
- A history line is appended on **every** `=`, failures included (line 108 runs unconditionally). A failed evaluation leaves the result `""`, so the line reads `"3+ = "`.
- A failed `=` does change state: the result becomes `""` and `showAlert` becomes true. Only the expression and the earlier history lines stay untouched.
- Nothing limits a number to one decimal point: `.` is appended like a digit.

## Model

| member | source | states |
|---|---|---|
| Keypad.ValidInput | Calculator_App/ContentView.swift:145-156 | valid iff non-empty, last char not one of `/ * - +`, and a trailing `%` only with length > 1 (so a lone `%` is rejected) |
| Keypad.ValidInputOnWellFormed | Calculator_App/ContentView.swift:145-156 | on every reachable (well-formed) expression, `%` alone cannot occur, and validity is "non-empty and not ending in an operator other than `%`" |
| Keypad.Substitute | Calculator_App/ContentView.swift:133-134 | the evaluated text equals the `%`→`*0.01` replacement (the `*`→`*` pass is a no-op), holds no `%`, is 4 longer per `%`, and is the identity on text without `%` |
| Keypad.Replace | Calculator_App/ContentView.swift:133-134 | `replacingOccurrences(of:with:)` for a one-character target: every character of the result comes from the input or from the replacement text |
| Keypad.ReplaceAppend | Calculator_App/ContentView.swift:133 | replacing a character distributes over concatenation |
| Keypad.EachOccurrenceReplaced | Calculator_App/ContentView.swift:133 | each occurrence of the target becomes the replacement text, in place |
| Keypad.ReplaceLength | Calculator_App/ContentView.swift:133 | length grows by (replacement length − 1) per occurrence |
| Keypad.ReplaceRemovesTarget | Calculator_App/ContentView.swift:133 | no target character remains when the replacement lacks it |
| Keypad.ReplaceAbsent | Calculator_App/ContentView.swift:133 | replacement is the identity on text without the target |
| Keypad.ReplaceBySelf | Calculator_App/ContentView.swift:134 | replacing a character by itself changes nothing |
| Keypad.PercentOfNumber | Calculator_App/ContentView.swift:133-134 | any `%`-free text followed by `%` (such as `50%`) is evaluated as that text followed by `*0.01` (`50*0.01`) |
| Keypad.AddOperatorTo | Calculator_App/ContentView.swift:116-125 | empty stays empty; after a trailing operator, same length, same earlier chars, last char the new operator; otherwise the operator is appended |
| Keypad.DropLast | Calculator_App/ContentView.swift:104-105 | removes exactly one trailing char (result + that char = old), no-op on empty |
| Keypad.CalculatorResult | Calculator_App/ContentView.swift:127-143 | fails (None) on an empty expression, on a trailing `/ * - +` and on a lone `%`; on valid input it is the evaluator applied to the `%`→`*0.01` rewrite; a result exists only for valid input |
| Keypad.Press | Calculator_App/ContentView.swift:99-114 | per key: `AC` empties expression and result, keeps history; `⌦` drops one char; `=` keeps the expression, appends exactly `"<expr> = <result>"`, result `""` and alert raised on failure; operators go through AddOperatorTo; other keys append verbatim; history changes only on `=` |
| Keypad.ClearTwiceIsClearOnce | Calculator_App/ContentView.swift:101-103 | `AC` twice equals `AC` once and leaves history unchanged |
| Keypad.TrailingOperatorStillRecorded | Calculator_App/ContentView.swift:106-108 | `=` on `3+` gives result `""`, raises the alert, and still records `"3+ = "` |
| Keypad.TextKeysHoldNoOperator | Calculator_App/ContentView.swift:12-18 | every grid key that is not a command or operator contains no operator character |
| Keypad.AppendTextKeepsWellFormed | Calculator_App/ContentView.swift:111-112 | appending operator-free text keeps the expression well formed |
| Keypad.AddOperatorKeepsWellFormed | Calculator_App/ContentView.swift:116-125 | adding an operator keeps no leading operator and no two adjacent operators |
| Keypad.PressKeepsWellFormed | Calculator_App/ContentView.swift:99-125 | every keypad key preserves well-formedness |
| Keypad.RunKeepsWellFormed | Calculator_App/ContentView.swift:99-125 | any sequence of keypad keys preserves well-formedness |
| Keypad.ReachableExpressionsWellFormed | Calculator_App/ContentView.swift:20-125 | from the empty screen, no key sequence yields a leading operator or two adjacent operators |
| Keypad.RunHistory | Calculator_App/ContentView.swift:106-108 | history is append-only: old lines are a prefix, and it grows by exactly the number of `=` presses |
| Keypad.RunTextKeys | Calculator_App/ContentView.swift:111-112 | keys without commands or operators append their concatenation and change nothing else |
| ContentViewModel.ContentView.constructor | Calculator_App/ContentView.swift:22-25 | a new screen is empty: no expression, result or history, alert off |
| ContentViewModel.ContentView.ButtonPressed | Calculator_App/ContentView.swift:99-114 | the new state is exactly `Press` of the old state; `=` keeps the expression and appends one line; other keys leave history alone |
| ContentViewModel.ContentView.AddOperator | Calculator_App/ContentView.swift:116-125 | updates only the expression, to `AddOperatorTo` of the old one |
| ContentViewModel.ContentView.CalculatorResult | Calculator_App/ContentView.swift:127-143 | invalid input or evaluator failure yields `""` and raises the alert; success yields the evaluator's string and leaves the alert as it was |

## Left out

- The SwiftUI `body`, layout, grid rendering, `buttonColor` and `buttonBackgroundColor` are left out because they are UI only (lines 28-97).
- The swapped display of working and result in the two `Text` views is left out because it is presentational (lines 45-50).
- `showHistoryPage` and the sheet wiring are left out because they are UI. `showAlert` is modelled only as a flag set on failure; its reset when the alert is dismissed is SwiftUI binding behaviour.
- `NSExpression` parsing and evaluation over `Double`, and `formatResult` (`truncatingRemainder`, `String(format:)`), are left out because they are foreign and floating point. Both are the parameter `eval`. The two-formatting-modes rule is therefore not modelled.
- `NSExpression(format:)` raises an Objective-C exception on text it cannot parse, rather than returning nil. The model treats every evaluation failure as `None`, which is the path the code takes when the value is not a `Double`.
- `HistoryView` and the `#Preview` block are left out because they are a read-only renderer of `history` and a preview (lines 166-186).
- Swift strings count grapheme clusters. The model counts `char`s. Every key that is appended to the expression (digits, `.`, the operators, the blank key) is one ASCII character or empty, so every reachable expression is ASCII and the two counts agree.
