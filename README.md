# prime-checker in Dafny

A model of `prime_checker.py`, a small command-line tool that says whether an
integer is prime. The model covers three pieces:

- `is_prime`: the trial-division test. It rejects every n below 2. Otherwise
  it tries each candidate divisor from 2 up to and including `math.isqrt(n)`
  and stops at the first one that divides n.
- `format_result`: the sentence `"<n> is a prime integer"` or
  `"<n> is NOT a prime integer"`.
- `interactive_mode`: the read loop. Each line is stripped. A line whose
  lowercase form is `quit`, `q` or `exit` prints `Goodbye!` and ends the loop.
  A line that `int()` accepts prints its verdict. Any other line prints an
  error and the loop goes on.

The Dafny modules follow those pieces:

- `Primality` (`primality.dfy`) holds the mathematical predicate `Prime`, the
  exact integer square root `Isqrt`, and `IsPrime`. `IsPrime` is the source's
  loop, written as a `for` loop with an early `return`.
- `Decimal` (`decimal.dfy`) holds `IntToString` (Python's `str(n)`) and
  `ParseInt` (a simplified `int()`).
- `Text` (`text.dfy`) holds `Strip` (`str.strip()`) and `Lower`
  (`str.lower()`).
- `PrimeChecker` (`prime_checker.dfy`) holds `FormatResult`, the transcript
  function `Session` and the loop method `InteractiveMode`.

`Session(lines)` is the sequence of lines `interactive_mode` prints when it
is fed `lines`. `InteractiveMode` is the same loop written imperatively, and
it is proved to produce `Session(lines)`.

`FormatResult` is a function, so it cannot call the method `IsPrime`. It
decides with the predicate `Prime` instead. `IsPrime` is proved to return
exactly `Prime(n)`, so the two agree.

The program's only parsing is `int()` (prime_checker.py:27,
prime_checker.py:42). The error text for a line it rejects is
`Error: '<text>' is not a valid integer. Try again.` (prime_checker.py:29).

## Model

| member | source | states |
|---|---|---|
| `Primality.IsPrime` | prime_checker.py:5-11 | The result is exactly mathematical primality (n >= 2 and no divisor d with 1 < d < n). It is also exactly n >= 2 plus "no i in [2, isqrt(n)] divides n". |
| `Primality.SqrtBoundSuffices` | prime_checker.py:8-11 | For n >= 2, n is prime if and only if no i with 2 <= i <= isqrt(n) divides n. Both directions are proved. |
| `Primality.Isqrt` | prime_checker.py:8 | `math.isqrt(n)` is the exact integer square root: r*r <= n < (r+1)*(r+1). |
| `Primality.IsqrtUnique` | prime_checker.py:8 | Only one r satisfies the square-root property, so any such r is the value of isqrt(n). |
| `Primality.IsqrtBelow` | prime_checker.py:8 | For n >= 2, 1 <= isqrt(n) < n. So each candidate the loop tries is a proper divisor candidate, and the first divisor found proves n composite. |
| `Primality.BelowTwoNotPrime` | prime_checker.py:6-7 | Every n < 2 (1, 0 and all negatives) is not prime. |
| `Primality.SquareNotPrime` | prime_checker.py:8 | For k >= 2, isqrt(k*k) = k. The loop reaches the divisor k, so k*k is rejected. |
| `Primality.ExclusiveBoundAccepts25` | prime_checker.py:8 | The inclusive bound matters. An exclusive loop bound, range(2, isqrt(n)), finds no divisor of 25, yet 25 is not prime. |
| `Primality.PrimeExamples` | test_prime_checker.py:11-22 | 2, 3 and 17 are prime. |
| `Primality.NonPrimeExamples` | test_prime_checker.py:11-22 | 4, 20, 1, 0 and -5 are not prime. |
| `Decimal.ParseInt` | prime_checker.py:26-30 | A text is accepted exactly when it is 1 to 4300 ASCII digits, or a '+' or '-' followed by 1 to 4300 ASCII digits. A negative result comes from a leading '-', and without a leading '-' the value is non-negative. |
| `Decimal.ParseIntCanonical` | prime_checker.py:27 | Round trip from text: for an accepted text s, str(int(s)) is s with a '+' dropped and leading zeros removed, and a negative zero becomes "0". The value has at most 4300 digits, so str() of it stays within the limit. |
| `Decimal.CanonicalExamples` | prime_checker.py:27 | int("-0") is 0, and the canonical forms of "-0", "+007" and "-05" are "0", "7" and "-5". |
| `Decimal.DigitsOfNat` | prime_checker.py:16-17 | Reading back the digits that str(n) writes for n >= 0 gives n. |
| `Decimal.IntToString` | prime_checker.py:16-17 | str(n) is non-empty, and it starts with '-' exactly when n is negative. |
| `Decimal.ParseIntString` | prime_checker.py:27 | Round trip from values: int(str(n)) == n for every integer n of at most 4300 digits, negatives included. A longer str(n) is rejected. |
| `Decimal.IntToStringInjective` | prime_checker.py:16-17 | Different integers have different decimal forms. |
| `Decimal.IntToStringChars` | prime_checker.py:16-17 | str(n) is non-empty and holds only digits and '-'; in particular it holds no space. |
| `Decimal.IntToStringExamples` | test_prime_checker.py:27-32 | str(7) = "7", str(10) = "10" and str(-5) = "-5". |
| `Decimal.ParseIntExamples` | prime_checker.py:27 | "7", "-5", "+5" and "007" give 7, -5, 5 and 7. "abc", "", "-" and "1 2" are rejected. |
| `Text.Strip` | prime_checker.py:22 | strip() never lengthens the text, and its result neither starts nor ends with whitespace. |
| `Text.TrimStartSpec` | prime_checker.py:22 | Stripping the start removes exactly the longest all-whitespace prefix. The rest is a suffix of the input that does not start with whitespace. |
| `Text.TrimEndSpec` | prime_checker.py:22 | Stripping the end removes exactly the longest all-whitespace suffix. The rest is a prefix of the input that does not end with whitespace. |
| `Text.StripSpec` | prime_checker.py:22 | strip() returns a contiguous part s[k..k+m] of the input. Everything outside that part is whitespace, and the part neither starts nor ends with whitespace. |
| `Text.StripIdempotent` | prime_checker.py:22 | Stripping twice gives the same text as stripping once. |
| `Text.StripUnchanged` | prime_checker.py:22 | Text that neither starts nor ends with whitespace is returned unchanged. |
| `Text.Lower` | prime_checker.py:23 | lower() gives one character for each character of the input. |
| `Text.LowerSpec` | prime_checker.py:23 | No ASCII capital is left, and every character that is not an ASCII capital is kept. |
| `Text.LowerEquals` | prime_checker.py:23 | For a word w without capitals, lower(t) == w exactly when t matches w letter by letter up to ASCII case. |
| `PrimeChecker.FormatResult` | prime_checker.py:14-17 | The sentence is longer than str(n) and starts with str(n). |
| `PrimeChecker.FormatResultVerdict` | prime_checker.py:14-17 | The sentence is str(n) + " is a prime integer" exactly when n is prime. It is str(n) + " is NOT a prime integer" exactly when n is not. |
| `PrimeChecker.FormatResultInjective` | prime_checker.py:14-17 | Two equal sentences come from the same n: the sentence names its number unambiguously. |
| `PrimeChecker.FormatResultPrimeExample` | test_prime_checker.py:27-28 | format_result(7) = "7 is a prime integer". |
| `PrimeChecker.FormatResultCompositeExample` | test_prime_checker.py:31-32 | format_result(10) = "10 is NOT a prime integer". |
| `PrimeChecker.InvalidMessage` | prime_checker.py:29 | The error message of an unparseable line is longer than the line and ends in '.'. So it never equals a verdict sentence or Goodbye!. |
| `PrimeChecker.ExitKeywordNotInteger` | prime_checker.py:23 | No exit keyword is a text int() accepts, so testing for the keywords before parsing hides no number. |
| `PrimeChecker.ExitKeywordsUpToCase` | prime_checker.py:23 | A stripped line is an exit keyword exactly when it is quit, q or exit in any mix of ASCII letter case. |
| `PrimeChecker.ExitLineUpToCase` | prime_checker.py:22-23 | A raw line ends the loop exactly when its stripped text is quit, q or exit in any mix of ASCII letter case. |
| `PrimeChecker.Respond` | prime_checker.py:26-31 | For a non-exit line, the output is the error message for the stripped text exactly when int() rejects that text. When int() accepts it as n, the output is format_result(n). It is never Goodbye!. |
| `PrimeChecker.Session` | prime_checker.py:20-31 | The loop prints at most one line per input line. |
| `PrimeChecker.InteractiveMode` | prime_checker.py:20-31 | The imperative loop (strip, exit test, parse, print, continue or return) prints exactly Session(lines). |
| `PrimeChecker.Responses` | prime_checker.py:26-31 | The i-th reply is the reply to the i-th line, one reply per line. |
| `PrimeChecker.StopsAtFirstExit` | prime_checker.py:22-25 | When line k is the first exit keyword, the output is the replies to lines 0..k-1 followed by Goodbye!. No later line is read. With k = 0 the output is just Goodbye!, with no verdict. |
| `PrimeChecker.AnswersEveryLine` | prime_checker.py:21-31 | Without an exit keyword, every line gets its reply, in order. |
| `PrimeChecker.GoodbyeOnlyAtExit` | prime_checker.py:23-25 | Goodbye! is printed if and only if some line is an exit keyword. Whenever it is printed, it is the last output. |
| `PrimeChecker.InvalidLineContinues` | prime_checker.py:27-30 | An unparseable line prints the error message with its stripped text, and processing continues with the next line. |
| `PrimeChecker.PrimeThenQuitExample` | test_prime_checker.py:69-75 | Input "7", "quit" prints "7 is a prime integer", then "Goodbye!". |
| `PrimeChecker.CompositeThenQuitExample` | test_prime_checker.py:78-84 | Input "10", "quit" prints "10 is NOT a prime integer", then "Goodbye!". |
| `PrimeChecker.InvalidReplyExample` | test_prime_checker.py:87-92 | "abc" is not an exit keyword, and its reply is the error message for "abc". |
| `PrimeChecker.InvalidMessageExample` | test_prime_checker.py:92 | The error message for "abc" is "Error: 'abc' is not a valid integer. Try again.". |
| `PrimeChecker.InvalidThenPrimeExample` | test_prime_checker.py:87-94 | Input "abc", "7", "quit" prints the error for "abc", then "7 is a prime integer", then "Goodbye!". |
| `PrimeChecker.ImmediateQuitExamples` | test_prime_checker.py:97-112 | A first line of "quit", "QUIT", "Q" or "Exit" prints only "Goodbye!". |

## Left out

- `main` (prime_checker.py:34-46) is left out. Its argument-count checks, `sys.exit` codes and printing to stderr are process plumbing.
- Real `input()` and `print()` are not modelled, and neither is the prompt text. Input is a given sequence of lines, and output is the sequence of printed lines.
- When the lines run out, `input()` raises `EOFError` in the source, and nothing handles it. In the model the transcript simply ends there.
- Decimal.ParseInt: does not accept underscores between digits ("1_000") or non-ASCII decimal digits, both of which Python's `int()` accepts. It models `int()` only on text that is already stripped, which is all the interactive loop passes it. Its limit of 4300 digits is CPython's default for `sys.get_int_max_str_digits()` since 3.11 and the 3.10.7, 3.9.14, 3.8.14 and 3.7.14 security releases. Earlier releases have no limit, and the limit can be changed at run time.
- Text.Lower: lowercases ASCII letters only. Python's `str.lower()` also lowercases other scripts. Only the exit-keyword test uses it, and there the difference does not show. In Unicode's case mappings, no character other than the ASCII capitals lowercases to one of the letters of quit, q or exit. U+0130 lowercases to two characters, "i" followed by U+0307, so it cannot produce "quit" either.
- `math.isqrt` is taken as a specified function, not an algorithm to verify. The recursive body of `Isqrt` only shows that the specification can be met.
- `format_result` calls `is_prime`. The model's FormatResult uses the predicate `Prime` instead, which `IsPrime` is proved to return.
- Integers are unbounded, as Python's are, and nothing wraps around. The conversions are bounded: `int()` rejects more than 4300 digits, as `Decimal.ParseInt` models.
- Decimal.IntToString: writes integers of any size. Python's `str()` raises ValueError above 4300 digits. A number that reaches `format_result` through the interactive loop never has that many digits (`Decimal.ParseIntCanonical`).
- The test file's subprocess runs and monkeypatched I/O are not modelled. Their expected outputs appear as the example lemmas above.
