# todo: strict number parsing and argument dispatch

This project models the two pieces of logic in the early revision of the
`todo` command-line task tracker (`src/todo.c`):

- `atoi_pedantic`, a strict decimal parser. It accepts a C string only when
  every character is a decimal digit and returns its value; at the first
  non-digit it returns 0, so 0 also means "invalid". Module `Atoi` models it
  as a method with a loop (`Atoi.AtoiPedantic`) proved equal to the function
  `Atoi.ParsedValue`, which is defined from `Atoi.Value`, the value of a digit
  string accumulated left to right as `10 * acc + digit`. `Value` is related to
  an independent positional definition (`PositionalValue`) and to its inverse,
  the canonical decimal spelling `Decimal`, in both directions.
- The argument dispatch of `main` and the call order of `print_all`. Module
  `Dispatch` models them as a pure function `Dispatch.Run` from the argument
  vector (program name included, so `argc` is its length) to an `Outcome`:
  the exit status (`EXIT_SUCCESS` = 0, `EXIT_FAILURE` = 1) and the sequence of
  listing calls made, each with the file path and line limit it receives.
  The number argument is parsed with `ParsedValue`, the function
  `AtoiPedantic` is proved to compute.

A C string is modelled as the `seq<char>` of the characters before its
terminating NUL. `isdigit` is the C-locale test `'0' <= c <= '9'`, `isspace`
the C-locale blank, tab, newline, vertical tab, form feed and carriage return.
The record path `"~/.todo"` is an uninterpreted constant passed to every
listing call.

This revision spells the long listing flags `--all`, `--done` and `--todo`
(with the short forms `-a`, `-d` and `-t`); the finished tool spells the
combined listing `--print-all` and uses the names `--done` and `--todo` to
close and reopen a record instead. The model follows this revision.

## Model

| member | source | states |
|---|---|---|
| `Atoi.AtoiPedantic` | src/todo.c:71-81 | the loop returns exactly `ParsedValue(s)`: 0 for the empty string, 0 when any character is not a digit, and the decimal value `Value(s)` when all are digits; its invariant keeps the accumulator below 10^i after i digits |
| `Atoi.DigitValue` | src/todo.c:78 | `c - '0'` of a digit is a single decimal digit value, at most 9 |
| `Atoi.ValueIsPositional` | src/todo.c:73-78 | accumulating `10 * acc + digit` left to right gives the positional value d0·10^(n-1) + … + d(n-1) |
| `Atoi.ValueAppend` | src/todo.c:78 | the value of a concatenation is the left value shifted by the width of the right part plus the right value |
| `Atoi.ValueBound` | src/todo.c:78 | a string of n digits has a value below 10^n |
| `Atoi.ValueLowerBound` | src/todo.c:78 | a string of n digits with a nonzero first digit has a value of at least 10^(n-1) |
| `Atoi.DecimalRoundTrip` | src/todo.c:73-80 | every natural number spelled in decimal parses back to itself |
| `Atoi.DecimalOfValue` | src/todo.c:73-80 | every digit string without a leading zero is the decimal spelling of its parsed value |
| `Atoi.DecimalStep` | src/todo.c:78 | appending digit d to a positive number q (`10 * q + d`) appends that digit's character to its decimal spelling |
| `Atoi.AllZerosValue` | src/todo.c:78 | a string of zeros only (the empty string included) is all digits and has value 0 |
| `Atoi.LeadingZerosIgnored` | src/todo.c:78 | prefixing zeros changes neither whether the string is accepted nor the parsed value |
| `Atoi.NonZeroDigitPositive` | src/todo.c:78 | an all-digit string with any digit other than '0' has a positive value |
| `Atoi.ZeroMeansInvalidOrAllZeros` | src/todo.c:74-80 | the parser returns 0 if and only if some character is not a digit or every character is '0', so a literal zero is indistinguishable from invalid input |
| `Atoi.SignsAndWhitespaceRejected` | src/todo.c:75-76 | a '+', a '-' or a white-space character at any position makes the result 0 |
| `Atoi.NineDigitsFitInInt` | src/todo.c:78 | for strings of at most nine characters the result and the value of every all-digit prefix (each intermediate `10 * result + digit`) stay below 10^9, under the 32-bit `int` maximum, so the accumulator cannot overflow |
| `Dispatch.PrintAll` | src/todo.c:51-55 | `print_all` makes exactly two calls, the todo listing then the done listing, both with its own path and limit |
| `Dispatch.Run` | src/todo.c:14-49 | the exit status is success or failure; it is failure exactly when there are two arguments and the number parses to 0, and then nothing is listed; a listing happens exactly when there are two arguments, the number is nonzero and the flag is a listing flag; every listing gets the record path and the parsed number |
| `Dispatch.NoArgumentsSucceed` | src/todo.c:16-18 | with no arguments the run succeeds and lists nothing |
| `Dispatch.OtherArgumentCountsDoNothing` | src/todo.c:20-48 | with one argument or more than two the run succeeds and lists nothing |
| `Dispatch.InvalidNumberFails` | src/todo.c:25-31 | with a flag and a number that parses to 0 the run fails and lists nothing, whatever the flag |
| `Dispatch.ZeroNumberFailsLikeGarbage` | src/todo.c:26-31 | a number made only of zeros (or empty) fails exactly as a non-numeric one does |
| `Dispatch.AllFlagListsTodoThenDone` | src/todo.c:33-35 | `-a`/`--all` with a valid number succeeds, listing open then closed records with the same limit |
| `Dispatch.DoneFlagListsDone` | src/todo.c:36-38 | `-d`/`--done` with a valid number succeeds, listing only closed records |
| `Dispatch.TodoFlagListsTodo` | src/todo.c:39-41 | `-t`/`--todo` with a valid number succeeds, listing only open records |
| `Dispatch.UnknownFlagDoesNothing` | src/todo.c:42-45 | any other flag with a valid number succeeds and lists nothing |
| `Dispatch.DecimalLimitReachesListing` | src/todo.c:25-45 | a positive limit written in decimal, with any number of leading zeros, reaches every listing call unchanged |

## Left out

- `printf` output (the diagnostic line in `main` and the bodies of `print_todo` and `print_done`): terminal output only; the two listing functions are stubs that read no file, so a listing is modelled as the call it receives.
- The record file (locating it, classifying its lines, selecting, closing, reopening, appending): no code for it exists in this revision.
- `TODO_PATH` is passed through as an opaque string; no tilde expansion or path resolution happens in the source.
- `Atoi.AtoiPedantic` uses unbounded integers and does not model overflow of the C `int` accumulator for long digit strings, because signed overflow is undefined behaviour in C; `Atoi.NineDigitsFitInInt` shows that up to nine characters the model and the 32-bit program agree.
- `Dispatch.Run` uses `ParsedValue` as the parsed number, so it carries the same unbounded-integer simplification.
- `Atoi.AtoiPedantic` takes the characters before the terminating NUL, so it is only meaningful on sequences without `'\0'`: a NUL inside the sequence is treated as a non-digit, where the C loop would stop there.
- Characters are Dafny `char` values rather than C bytes; the `(unsigned char)` cast only matters for bytes outside ASCII, which are non-digits in both.
- `argv[0]` (the program name) is carried in the vector but never inspected, as in the source.
