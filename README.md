# Calculator core in Dafny

This project models the sequential logic of a PyQt desktop calculator (`calculator/`).
It covers four parts:

- **Arithmetic helpers** (`core.py`):
  - guarded `+ - × ÷`;
  - `factorial`, `nPr` and `nCr` on arguments truncated toward zero;
  - `to_number`;
  - the integer branch of `format_result`.
- **Expression rewriting** (`graphing.py`):
  - `prepare_expression`, which turns a TI-84 style formula into numpy syntax;
  - the list-backed function registry `GraphingCalculator`.
- **Keypad entry state machine** (`gui.py`): the display text `currentNumber`, the pending `operation`, the remembered `lastNumber` and the `shouldReset` flag. Each key press is one method of the `CalculatorGUI` class.
- **History-keeping keypad** (`gui_new.py`):
  - the same entry machine with only `+ - × ÷`;
  - a newest-first history capped at 200 entries.

Numbers are exact `real`s, so floats are modelled without rounding. Python exceptions are `Result` values carrying a `MathError`.

Python's `float(str)` is modelled concretely as `Numerals.ParseNum`. It accepts:

- an optional sign;
- digits with at most one `.` and at least one digit;
- an optional exponent `e`/`E`, with an optional sign and digits.

`re.sub` is modelled as a left-to-right, non-overlapping scan (`Expression.Sub`). It works over ASCII, and `\b` holds when the next character is not one of `[A-Za-z0-9_]` or the string ends there.

Modules:

| file | module | models |
|---|---|---|
| results.dfy | Results | `Option` and `Result` |
| text.dfy | Text | character classes, counting occurrences |
| numerals.dfy | Numerals | `str(int)` and `float(str)` on decimal literals |
| core.dfy | Core | calculator/core.py |
| expression.dfy | Expression | `GraphCanvas.prepare_expression` |
| graphing.dfy | Graphing | `GraphingCalculator` |
| operators.dfy | Operators | the operator keys |
| display.dfy | Display | display-text edits shared by both keypads |
| keypad.dfy | Keypad | `CalculatorGUI` of calculator/gui.py |
| history.dfy | HistoryKeypad | the inner `CalculatorGUI` of calculator/gui_new.py |

Behaviour of the code that is easy to misread:

- **Operators do not chain.** Pressing an operator while another is pending does not evaluate the pending one: calculator/gui.py:174-181 only overwrites the pending operator and remembers the display. `Keypad.PendingOperatorReplaced` proves that `2 + 3 × 4 =` shows `12`.
- **Implicit products are found in one pass.** The digit-letter rule of calculator/graphing.py:99 is a single non-overlapping scan, and it still inserts `*` after every digit run that is followed by a letter, chained products such as `2x3y` included. `Expression.ChainedImplicitProducts` shows `2x3y` becoming `2*x3*y`, and the contract of `Expression.PrepareExpression` states that no digit is directly followed by a letter in the output, for every input.
- **The history keypad is dead code.** calculator/gui_new.py declares its history-keeping `CalculatorGUI` inside the `except` block of the outer class's constructor (gui_new.py:32-218), so it never runs. It is modelled as written.

## Model

| member | source | states |
|---|---|---|
| Core.ToNumber | calculator/core.py:7-11 | fails exactly when `float` fails, with `ValueError("Invalid number")`; otherwise the parsed value |
| Core.ToNumberReadsIntegers | calculator/core.py:7-11 | `to_number` reads back every integer rendered by `str(int)` |
| Core.Truncate | calculator/core.py:41 | `int()` truncates toward zero: the result lies within 1 of the argument, on the zero side |
| Core.SafeDiv | calculator/core.py:32-35 | fails exactly when `b == 0`, with `ZeroDivisionError("division by zero")`; otherwise the result times `b` is `a` |
| Core.ArithmeticInverses | calculator/core.py:23-35 | `safe_sub` undoes `safe_add` and vice versa; `safe_div` undoes `safe_mul` for a non-zero divisor |
| Core.SafeAdd | calculator/core.py:23-24 | `safe_add` gives the sum: subtracting `b` from it gives `a` back |
| Core.SafeSub | calculator/core.py:26-27 | `safe_sub` gives the difference: adding `b` to it gives `a` back |
| Core.SafeMul | calculator/core.py:29-30 | `safe_mul` gives the product: a non-zero `b` divides it back to `a`, and a zero `b` gives `0` |
| Core.Fact | calculator/core.py:44 | `n!` is at least 1 and at least `n` |
| Core.FallingFactorials | calculator/core.py:51 | the falling product n·(n-1)···(n-k+1) times (n-k)! is n! |
| Core.Falling | calculator/core.py:51 | `math.perm(n, k)` for `k <= n` is a positive whole number |
| Core.BinomialFactorials | calculator/core.py:58 | C(n,k) · k! · (n-k)! = n!, for Pascal's-rule binomials |
| Core.Binomial | calculator/core.py:58 | `math.comb(n, k)` for `k <= n` is a positive whole number |
| Core.BinomialTimesFact | calculator/core.py:51-58 | C(n,k) · k! is the falling product, i.e. nPr |
| Core.BinomialSymmetric | calculator/core.py:58 | C(n,k) = C(n,n-k) |
| Core.Factorial | calculator/core.py:40-44 | fails exactly when `int(n) < 0`, with `ValueError("factorial of negative number")`; otherwise `int(n)!` |
| Core.FactorialOfNegativeFraction | calculator/core.py:40-44 | an argument in (-1, 0) truncates to 0 and gives 1, not an error |
| Core.FactorialRecurrence | calculator/core.py:40-44 | on whole numbers, `factorial(0) == 1` and `factorial(k+1) == (k+1) * factorial(k)` |
| Core.NPr | calculator/core.py:46-51 | fails exactly when, after truncation, `r < 0`, `n < 0` or `r > n`, with `ValueError("invalid nPr params")`; otherwise the result times (n-r)! is n! |
| Core.NCr | calculator/core.py:53-58 | fails on the same arguments, with `ValueError("invalid nCr params")`; otherwise the result times r! times (n-r)! is n! |
| Core.NCrIsNPrOverFactorial | calculator/core.py:46-58 | `nCr` succeeds exactly when `nPr` does, and then `nCr · r! == nPr` |
| Core.NCrSymmetric | calculator/core.py:53-58 | `nCr(n, r) == nCr(n, n-r)` for all integers, including the error cases |
| Core.FormatIntegral | calculator/core.py:13-17 | a whole value renders as `str(int(v))`: no `.`, a leading `-` exactly when negative, digits elsewhere with no leading zero, and `float` reads it back as the same value |
| Core.FormatResult | calculator/core.py:13-21 | a whole value renders as text that `float` reads back as that value; any other value takes the `.10g` rendering |
| Numerals.NatToDecimal | calculator/core.py:17 | `str` of a natural number: at least one digit, only digits, worth `n`, no leading zero |
| Numerals.ParseDigits | calculator/core.py:9 | `float` of a run of digits is the number they spell |
| Numerals.ParseNum | calculator/core.py:9 | `float` rejects the empty text and a lone sign or point |
| Numerals.IntToDecimalRoundTrip | calculator/core.py:17 | `float(str(i)) == i` for every integer |
| Numerals.IntToDecimal | calculator/core.py:17 | `str(int)` is non-empty and starts with `-` exactly for a negative integer |
| Numerals.IntToDecimalShape | calculator/core.py:17 | `str(i)` has at least one character, no `.`, a leading `-` exactly when negative, digits elsewhere and no leading zero (only `0` starts with `0`) |
| Expression.DigitRunEnd | calculator/graphing.py:99 | the end of the maximal digit run `\d+` that starts at `i` |
| Expression.LowerCount | calculator/graphing.py:86 | `lower()` keeps the length, leaves no uppercase letter and turns every `X` into `x` |
| Expression.Lower | calculator/graphing.py:86 | `lower()` keeps the length and lower-cases each character in place |
| Expression.LowerUnchanged | calculator/graphing.py:86 | `lower()` leaves a string without uppercase letters alone |
| Expression.SubCount | calculator/graphing.py:87-96 | a substitution whose pattern and replacement hold a character equally often keeps that character's count |
| Expression.Sub | calculator/graphing.py:87-96 | `re.sub` with a replacement at least as long as the pattern never shortens the text, and with one of equal length keeps its length |
| Expression.SubRemoves | calculator/graphing.py:87 | substituting a character by text without it removes every occurrence |
| Expression.SubUnchanged | calculator/graphing.py:87-96 | a substitution whose pattern never matches changes nothing |
| Expression.ApplyRulesCount | calculator/graphing.py:87-96 | the chain of substitutions keeps the count of a character that no rule mentions |
| Expression.ApplyRulesUnchanged | calculator/graphing.py:87-96 | the chain of substitutions leaves an input that no rule matches alone |
| Expression.InsertProductsSeparates | calculator/graphing.py:99 | after inserting `*`, no digit is directly followed by a letter |
| Expression.InsertProducts | calculator/graphing.py:99 | inserting `*` between a digit run and a letter never shortens the text |
| Expression.InsertProductsCount | calculator/graphing.py:99 | inserting `*` keeps the count of every other character |
| Expression.InsertProductsUnchanged | calculator/graphing.py:99 | an input with no digit directly before a letter is unchanged |
| Expression.ChainedImplicitProducts | calculator/graphing.py:99 | `2x3y` becomes `2*x3*y` |
| Expression.WrapXWraps | calculator/graphing.py:101 | by induction over the left-to-right scan: the scan replacing `x` by `(x)` leaves each `x` with `(` before it and `)` after it |
| Expression.WrapX | calculator/graphing.py:101 | the last stage of `prepare_expression`: its output has every `x` wrapped as `(x)` and is never shorter than its input |
| Expression.WrapXKeepsSeparation | calculator/graphing.py:101 | wrapping `x` does not put a letter right after a digit |
| Expression.WrapXUnchanged | calculator/graphing.py:101 | a string without `x` is unchanged by the wrapping |
| Expression.WrapXCount | calculator/graphing.py:101 | the wrapping keeps the count of every character other than the parentheses |
| Expression.PrepareHasNoCaret | calculator/graphing.py:87 | the output holds no `^` |
| Expression.PrepareHasNoUpper | calculator/graphing.py:86-101 | the output holds no uppercase letter |
| Expression.PrepareWrapsX | calculator/graphing.py:86-101 | every `x` in the output is wrapped as `(x)`, and there are as many as there were `x` and `X` in the input |
| Expression.PrepareExpression | calculator/graphing.py:83-101 | the prepared expression has every `x` wrapped as `(x)` and no digit directly followed by a letter |
| Expression.PrepareUnchanged | calculator/graphing.py:83-101 | lowercase input with no rule match, no digit before a letter and no `x` is returned unchanged |
| Graphing.GraphingCalculator.constructor | calculator/graphing.py:176-178 | starts with no functions and an empty current function |
| Graphing.GraphingCalculator.SetFunction | calculator/graphing.py:180-182 | changes only the current function |
| Graphing.GraphingCalculator.AddFunction | calculator/graphing.py:184-189 | appends exactly when the text is non-empty and new, returns whether it did, and keeps the list free of empties and duplicates |
| Graphing.GraphingCalculator.ClearFunctions | calculator/graphing.py:191-194 | empties the list and resets the current function to `""` |
| Graphing.GraphingCalculator.GetFunctions | calculator/graphing.py:196-198 | returns a sequence equal to the list |
| Graphing.AddTwice | calculator/graphing.py:184-189 | adding the same function twice stores it once; the second call returns false |
| Display.Backspace | calculator/gui.py:155-156 | `←` drops exactly the last character of a display longer than one character and otherwise shows `0`, so it never leaves the display empty |
| Display.EnterDigitShifts | calculator/gui.py:143-145 | after an integer, a digit keeps the display a run of digits worth ten times the old value plus the digit (`0` is replaced, not extended) |
| Display.EnterDigit | calculator/gui.py:139-145 | a digit key ends the display with that digit; after a reset or on `0` the display becomes the digit alone, otherwise the old display is kept in front |
| Display.EnterDigitAfterReset | calculator/gui.py:140-142 | after a result or an operator, a digit makes the display read that digit alone |
| Display.DigitsAppend | calculator/gui.py:145 | appending a digit to a run of digits shifts its value one place |
| Display.BackspaceUndoesDigit | calculator/gui.py:139-156 | `←` right after a digit restores the display |
| Display.EnterPointOnce | calculator/gui.py:147-149 | `.` leaves exactly one point on a display with at most one, and a second press changes nothing |
| Display.EnterPoint | calculator/gui.py:147-149 | `.` leaves a display that already has a point unchanged; otherwise it keeps the old text in front and adds the one point |
| Display.EnterPointKeepsValue | calculator/gui.py:147-149 | `.` does not change the value of an integer display |
| Display.ToggleSignNegates | calculator/gui.py:161-166 | `±` negates the value of every display that parses and has no leading `+` |
| Display.ToggleSign | calculator/gui.py:161-166 | `±` leaves an empty or `0` display alone and otherwise removes the leading `-` when there is one and adds one when there is none |
| Display.ToggleSignTwice | calculator/gui.py:161-166 | `±` twice restores the display when neither it nor its unsigned part is `""` or `"0"` and the unsigned part has no `-` of its own |
| Keypad.Operate | calculator/gui.py:221-234 | fails exactly on `÷` by zero, a failing `^`, or `nPr`/`nCr` with invalid arguments; `÷` gives a quotient that times the divisor is the dividend; `nPr`/`nCr` give the core count |
| Keypad.OperateInverses | calculator/gui.py:221-228 | `-` undoes `+`, `+` undoes `-`, and `÷` undoes `×` for a non-zero divisor |
| Keypad.Evaluate | calculator/gui.py:220-234 | a display that does not parse fails with `ValueError`; otherwise the operator is applied to the parsed value |
| Keypad.FactorialText | calculator/gui.py:203-207 | `x!` shows `Error` on an unparsable display or a negative truncation; otherwise `str` of the factorial: digits only, no leading zero, read by `float` as the factorial |
| Keypad.ErrorIsNotANumber | calculator/gui.py:177-179 | the text `Error` does not parse |
| Keypad.CalculatorGUI.constructor | calculator/gui.py:26-31 | starts with `("0", None, None, false)`, memory `0.0` and angle mode `DEG` |
| Keypad.CalculatorGUI.PressDigit | calculator/gui.py:139-145 | after a reset the display becomes the digit and the flag clears; otherwise `0` is replaced or the digit appended |
| Keypad.CalculatorGUI.PressPoint | calculator/gui.py:147-149 | appends `.` only when none is present and changes nothing else |
| Keypad.CalculatorGUI.PressBackspace | calculator/gui.py:155-156 | drops the last character, or shows `0`; never empties the display |
| Keypad.CalculatorGUI.PressSign | calculator/gui.py:161-166 | adds or removes a leading `-`, except on `""` and `0` |
| Keypad.CalculatorGUI.PressOperator | calculator/gui.py:174-181 | remembers the parsed display (or `0.0`), overwrites the operator without evaluating, sets the reset flag |
| Keypad.CalculatorGUI.PressFactorial | calculator/gui.py:203-207 | shows `FactorialText` of the display and changes nothing else |
| Keypad.CalculatorGUI.ExecuteOperation | calculator/gui.py:216-243 | no pending operation: nothing changes; success: shows `format_result`, clears the pending operation and sets the reset flag; failure: shows `Error` and keeps the pending operation |
| Keypad.CalculatorGUI.Clear | calculator/gui.py:245-249 | restores `("0", None, None, false)`; memory and angle mode untouched |
| Keypad.PendingOperatorReplaced | calculator/gui.py:174-241 | `2 + 3 × 4 =` shows `12` |
| Keypad.OperatorAfterError | calculator/gui.py:174-181 | an operator after `Error` remembers `0.0` |
| HistoryKeypad.OperateBasic | calculator/gui_new.py:149-158 | `+ - ×` give the sum, difference and product; `÷` fails exactly on a zero divisor with `division by zero`, and otherwise gives the quotient; any operator outside `+ - × ÷` gives the right operand back |
| HistoryKeypad.AgreesWithKeypad | calculator/gui_new.py:149-156 | on `+ - × ÷` the two windows compute the same result |
| HistoryKeypad.Record | calculator/gui_new.py:160-162 | the new entry comes first, older entries follow in order, the length is capped at 200 and only the oldest are dropped |
| HistoryKeypad.RecordBelowCap | calculator/gui_new.py:160-162 | below the cap nothing is dropped |
| HistoryKeypad.RecordTwice | calculator/gui_new.py:160 | two computations in a row appear newest first |
| HistoryKeypad.CalculatorGUI.constructor | calculator/gui_new.py:57-61 | starts with `("0", None, None, false)` and an empty history |
| HistoryKeypad.CalculatorGUI.PressDigit | calculator/gui_new.py:124-129 | the same digit entry as the other keypad; the history is untouched |
| HistoryKeypad.CalculatorGUI.PressPoint | calculator/gui_new.py:130-132 | appends `.` only when none is present |
| HistoryKeypad.CalculatorGUI.PressOperator | calculator/gui_new.py:133-139 | only `+ - × ÷` are taken: they remember the parsed display (or `0.0`) and set the reset flag; other operators change nothing |
| HistoryKeypad.CalculatorGUI.Compute | calculator/gui_new.py:144-170 | no pending operation: nothing changes; otherwise the pending operation is always cleared and the reset flag set, a success records the entry through `Record` and shows the result, a failure shows `Error` and leaves the history unchanged, and the history never exceeds 200 entries |
| HistoryKeypad.CalculatorGUI.Recall | calculator/gui_new.py:189-192 | sets the display to exactly the given text |
| HistoryKeypad.CalculatorGUI.ClearHistory | calculator/gui_new.py:194-196 | empties the history and changes nothing else |
| HistoryKeypad.DivisionByZeroNotRecorded | calculator/gui_new.py:144-170 | `7 ÷ 0 =` shows `Error`, records nothing and clears the pending operation |

## Left out

- **Floating-point behaviour.** Rounding, overflow, infinities and NaN are not modelled, because numbers are exact reals. For the same reason the model does not capture:
  - the `math.isfinite` test and the `OverflowError` of `float(v)` on huge integers in `format_result`;
  - the `except` branch `str(v)` of `format_result`.
- **The `.10g` branch of `format_result`** (calculator/core.py:19). It is a parameter `formatFraction` of the keypad classes.
- **`math.pow`** (calculator/core.py:37-38). It is a parameter `power` of the gui.py keypad, whose failures are `Result` failures.
- **`deg_to_rad` and `rad_to_deg`** (calculator/core.py:60-64). They are float conversions, and nothing in the modelled code calls them.
- **Unsupported `float` syntax.** `ParseNum` does not accept the surrounding whitespace, digit-group underscores, `inf`/`nan` or non-ASCII digits that Python's `float` also accepts.
- **Non-ASCII text.** `lower()`, `\d` and `\b` are modelled on ASCII only.
- **The float keys of gui.py.** `%`, `x²`, `√`, `π`, `e` (calculator/gui.py:151-153, 168-172, 189-201) depend on float arithmetic and on the float `repr`.
- **The `rand` key** (calculator/gui.py:186-187). It is nondeterministic.
- **Keys with no branch.** `MC`, `MR`, `M+`, `M-`, `1/x`, `DEG`, `RAD`, `INV`, the function keys, the parentheses, `|x|`, `⌊x⌋`, `⌈x⌉` and `EE` only refresh the display in `button_click`. They have no method.
- **The outer `except` of `button_click`** (calculator/gui.py:212-214). No modelled key raises past its own handler, so this branch is not reachable in the model.
- **Display plumbing.** `update_display`, `update_history_display`, the widget and layout builders, `make_button`, `on_plot` and `set_styles` are Qt UI plumbing or file I/O.
- **Plotting.** `GraphCanvas` plotting, axes, window and mouse handling (calculator/graphing.py:11-81, 103-171) are rendering, and `eval` of the rewritten expression (calculator/graphing.py:73) is dynamic evaluation. Only the rewriting is modelled.
- **Entry points.** `Main.py` and `launcher.py` only start processes.
- **Python's digit limit for `str(int)`.** The model renders integers of any size.
- HistoryKeypad.CalculatorGUI.Compute: the expression text. The history text `f"{last} {op} {cur}"` is a float `repr`, so it is kept as the structured triple `Computation(left, op, right)`.
- HistoryKeypad.CalculatorGUI.Compute: exceptions from the display refresh. A failure of `update_history_display` inside the `try` is not modelled.
- Keypad.Evaluate: the error message. Its `ValueError` message omits the offending text that Python appends. The message is never shown, since the keypad displays `Error`.
- Display.ToggleSignTwice: the extra precondition. It also requires the unsigned part not to start with `-`. On a display such as `--5`, `±` twice yields `5`. No key produces a second leading `-`.
- Graphing.GraphingCalculator.GetFunctions: returns the list as a `seq` value. A value cannot alias, so later changes to the calculator's list never show in the result, which is what Python's `.copy()` provides. Only the allocation of a new list object is not modelled.
