# Dice roller: a verified model of the `/roll-dice` interpreter

The service answers `GET /roll-dice?dice_to_roll=...` with the result of a
roll written in dice notation, for example `"2d8 + 6"`: two eight-sided dice
plus six. Its handler `test_function` (main.py) does two things. It parses the
notation into a triple `(num_dice, dice_type, modifier)`. Then it draws
`num_dice` values with `random.randint(1, dice_type)` and adds their sum to
the modifier. Any exception raised on the way is caught and sent to the
error branch.

This project models that interpreter in Dafny and proves what it does:

- `wrappers.dfy`: `Option` and `Result`. A `None` or `Failure` value stands for a Python exception.
- `pystr.dfy` (module `PyStr`): the Python string operations the parser uses.
  - `str.split(sep)` with a one-character separator, together with its inverse `Join`.
  - `s.strip(chars)`, used with two sets of ASCII whitespace. `StrSpace` is what `str.strip()` removes: space, `\t\n\v\f\r` and the separators 0x1C-0x1F. `IntSpace` is what `int()` skips around a numeral: space and `\t\n\v\f\r` only.
- `pyint.dfy` (module `PyInt`): the integer conversions, over ASCII.
  - `ParseInt` is `int(s)`, and `Show` is its inverse `str(n)`.
  - `ParseStripped` is `int(s.strip())`, the form the code uses for the die size and the modifier.
- `notation.dfy` (module `Notation`): the parser, lines 25-29 of main.py.
  - `Parse` follows the code step by step. It splits on every lower-case `d`, reads segment 0 with `int()`, unpacks segment 1 split on `+` into exactly two values, then strips and reads both.
  - `Format` writes the canonical notation of a roll.
  - `Error` names the exception that ends the handler, in the order the code can raise them: `BadCount`, `MissingDieTerm` (the `IndexError` on `parts[1]`), `UnpackMismatch`, `BadDieSize`, `BadModifier`, and `EmptyDieRange` from `randint`.
- `roller.dfy` (module `Roller`): the evaluator, lines 32-35, and the whole handler.
  - `Evaluate` is a method with a loop that appends one draw per die. Each draw is an arbitrary value in `[1, dieSize]`, chosen nondeterministically.
  - `RollDice` parses, then evaluates. Parse errors and the `randint` error end in the same error result.

## Behaviour the code has and a reader might not expect

The model follows the code in each of these points:

- Only a lower-case `d` separates. `"2D8+6"` is rejected.
- Segments after a second `d` are dropped, not folded into a later field. `"2d8+6d"` parses as `2d8+6`.
- The count and the die size are signed integers. The code does not guard them:
  - `"-2d6+1"` parses, rolls nothing, and totals 1.
  - A die size below 1 fails only when at least one die is rolled, because that is when `randint` raises.
- The count may carry a `+` sign (`"+2d6+1"`), because segment 0 is never split on `+`.
- A `+` sign on the die size or the modifier is a second `+`, so the unpacking fails.
- A subtraction such as `"2d6-1"` has no `+`, so the unpacking fails.
- The count is read with `int()` alone, but the die size and the modifier are stripped first. `str.strip()` removes the separators 0x1C-0x1F, and `int()` does not skip them. So `"\x1c2d8+6"` fails at the count, while `"2d\x1c8+6"` parses like `"2d8+6"`.

Examples:

- `"2d8+6"` is `Format(RollSpec(2, 8, 6))`. It parses by `ParseFormat`, and its total lies in `[8, 22]` by `TotalBounds`.
- `"d6+1"` fails by `EmptyCount`.
- `"3d6"` fails by `PlusCount`.
- `"3dx+2"` fails by `ParseFields` and `ParseIntChars`.
- `" 2 d 8 + 6 "` parses like `"2d8+6"` by `ParsePadded`.
- `"\x1c2d8+6"` fails by `CountSeparator`.

## Model

| member | source | states |
|---|---|---|
| PyStr.Split | main.py:25 | `s.split(sep)` gives one piece more than there are separators, and no piece contains the separator |
| PyStr.JoinSplit | main.py:25 | joining the pieces of a split with the separator gives the input back |
| PyStr.SplitJoin | main.py:25 | splitting a join of separator-free pieces gives those pieces back, so Split is exactly Python's split |
| PyStr.SplitFirst | main.py:25 | the text before the first separator is the first piece; the rest splits on its own |
| PyStr.SplitNoSep | main.py:25-26 | a string with no separator splits into a single piece, itself |
| PyStr.Strip | main.py:28-29 | the stripped string neither starts nor ends with a character of the set and is no longer than the input |
| PyStr.StripShape | main.py:28-29 | what strip keeps is the contiguous piece of the input between its leading and its trailing characters of the set |
| PyStr.StripPad | main.py:28-29 | characters of the set added on either side do not change what strip returns |
| PyStr.StripOneChar | main.py:28-29 | one character of the set before or after the input is stripped away |
| PyStr.StripIdempotent | main.py:28-29 | stripping twice is the same as stripping once |
| PyInt.ParseInt | main.py:26 | `int(s)` succeeds exactly when the input, stripped of what `int()` skips (space and `\t\n\v\f\r`), is an optional sign followed by one or more digits |
| PyInt.ParseStripped | main.py:28-29 | `int(s.strip())` succeeds exactly when the input, stripped of everything `str.strip()` removes, is such a literal, and gives its value |
| PyInt.ParseIntShow | main.py:26 | round trip: `int(str(n)) == n` for every integer |
| PyInt.ShowIsLiteral | main.py:26 | `str(n)` is a literal `int()` accepts, denoting `n`, with no whitespace, `+` or `d` in it |
| PyInt.ParseIntPad | main.py:26 | `int()` gives the same result when space or `\t\n\v\f\r` is added around its argument |
| PyInt.ParseIntSeparatorPad | main.py:26-29 | a separator 0x1C-0x1F before or after a string makes `int()` raise, while `int(s.strip())` is unchanged by it |
| PyInt.ParseIntRejectsSeparator | main.py:26 | `int()` raises on any string holding a separator 0x1C-0x1F |
| PyInt.ParseIntChars | main.py:26 | `int()` rejects a blank field and any field holding a character other than space, `\t\n\v\f\r`, a sign or a digit |
| PyInt.LiteralChars | main.py:27-29 | a literal holds no whitespace and no `d`, and holds a `+` only as its leading sign |
| Notation.Parse | main.py:25-29 | a successful parse needs a `d` in the input; parsing never raises the evaluator's error |
| Notation.ParseDieTerm | main.py:27-29 | the die term parses only if it holds exactly one `+`; otherwise it fails with the number of pieces the split gave |
| Notation.ParseFields | main.py:25-29 | on `a + "d" + b + "+" + c`, success iff `int(a)`, `int(b.strip())` and `int(c.strip())` all succeed, giving their values; otherwise the first rejected field is named |
| Notation.DieTermFields | main.py:27-29 | on `b + "+" + c`, the die size and modifier are `int(b.strip())` and `int(c.strip())`, and a rejection names the field |
| Notation.ParseLiterals | main.py:25-29 | a well-formed input made of three signed digit strings parses to exactly the three values written |
| Notation.ParseFormat | main.py:25-29 | round trip: the canonical notation of any roll parses back to that roll |
| Notation.ParsePadded | main.py:25-29 | whitespace never changes the outcome, success or error: around the count what `int()` skips, around the die size and the modifier all that `str.strip()` removes |
| Notation.CountSeparator | main.py:25-26 | a separator 0x1C-0x1F before or after the count makes the parse fail at the count |
| Notation.BadCountFirst | main.py:25-26 | a count `int()` rejects ends the parse with that error, whatever follows the `d` |
| Notation.EmptyCount | main.py:25-26 | an empty count (input starting with `d`) fails at the count, whatever follows |
| Notation.NoSeparatorFails | main.py:25-27 | an input with no lower-case `d` fails: at the count if it is no integer, else for the missing second segment |
| Notation.ParseTwoSegments | main.py:25-27 | an input with exactly one `d` is read as count and die term |
| Notation.PlusCount | main.py:27 | a parse succeeds only if the second segment has exactly one `+`; with none or several it fails at the unpacking |
| Notation.TailIgnored | main.py:25-27 | everything from a second `d` onwards is discarded and cannot change the outcome |
| Roller.Range | main.py:32 | `range(n)` is `0, 1, ..., n - 1`: n elements, none when n <= 0 |
| Roller.RangeLength | main.py:32 | the comprehension runs once per element of `range(num_dice)`: n times, never for n <= 0 |
| Roller.RangeFails | main.py:32 | `randint(1, dice_type)` raises on a draw from an empty range, which happens exactly when no outcome of the roll exists |
| Roller.Sum | main.py:35 | `sum(dice_rolls)`: values that are each at least 1 add up to at least their number |
| Roller.Evaluate | main.py:32-35 | fails exactly when a die must be rolled from an empty range; otherwise one roll per die, each in `[1, dieSize]`, total = sum + modifier |
| Roller.SumBounds | main.py:35 | the sum of values in `[lo, hi]` lies between `n * lo` and `n * hi` |
| Roller.TotalBounds | main.py:32-35 | every outcome's total lies between count + modifier and count * dieSize + modifier |
| Roller.OneFacedDie | main.py:32-35 | with a one-faced die every roll is 1 and the total is the number of dice plus the modifier |
| Roller.NoDice | main.py:32-35 | with a count of zero or less nothing is rolled and the total is the modifier |
| Roller.RollDice | main.py:23-40 | a parse error is returned as is; a parsed roll fails only on an empty die range; a success lies within the dice's bounds |

## Left out

- The FastAPI application, CORS middleware and route decorators (main.py:10-22): framework plumbing.
- The icon file, the `ai-plugin.json` descriptor with environment substitution, and the OpenAPI schema (main.py:43-87): file and environment I/O, not part of the interpreter.
- The response text at main.py:36 is not modelled. `RollDice` returns `Success(total)` instead.
- The error branch at main.py:38-40 is not modelled. It prints the exception, then builds `JSONResponse(content={"error": err})`. The exception object cannot be serialised to JSON, so building that response raises `TypeError` inside the `except` block. The client then gets the framework's own server error, not the JSON body. `RollDice` returns `Failure(error)`, which names the exception that reached the error branch.
- Roller.Evaluate: the draws are arbitrary values in `[1, dieSize]`. The Mersenne Twister state behind `random.randint` is not modelled, so neither are uniformity, independence nor the generator's state changing.
- PyInt.ParseInt: covers only ASCII digits, `+`/`-` and ASCII whitespace. It rejects underscore digit groups such as `"1_000"`, non-ASCII digits and non-ASCII whitespace, all of which Python's `int()` accepts.
- PyInt.ParseInt: does not model the limit on the length of integer strings. Python 3.11, and the security releases of 3.7-3.10, raise `ValueError` when a numeral has more than `sys.get_int_max_str_digits()` digits, 4300 by default. On those versions `"1" * 4301 + "d6+1"` fails at main.py:26, but the model accepts numerals of any length. The program does not pin a Python version.
- PyInt.ParseIntShow: holds for every integer only on a Python without that limit. Where the limit applies, `str(n)` itself raises for `n` with more than 4300 digits.
- Notation.ParseLiterals: holds for numerals of any length only on a Python without that limit.
- Notation.ParseFormat: holds for every roll only on a Python without that limit. Where it applies, it holds for rolls whose numbers have at most 4300 digits.
- PyStr.Strip: with `StrSpace`, removes ASCII whitespace only. Python's `str.strip()` also removes non-ASCII whitespace such as U+00A0.
- Integer width: Python's integers and Dafny's `int` are both unbounded, so no overflow arises in the arithmetic. The only bound is the string-length limit above.
