/**
 * prime_checker.py above the primality test: the verdict sentence of
 * format_result and the line-by-line behaviour of interactive_mode, as the
 * sequence of lines it prints for a given sequence of input lines.
 */
module PrimeChecker {
  import opened Primality
  import opened Decimal
  import opened Text

  const PrimeSuffix := " is a prime integer"
  const NotPrimeSuffix := " is NOT a prime integer"
  const Goodbye := "Goodbye!"

  /** format_result(n): the decimal form of n, then the verdict. */
  function FormatResult(n: int): (r: string)
    ensures |IntToString(n)| < |r| && r[..|IntToString(n)|] == IntToString(n)
  {
    if Prime(n) then IntToString(n) + PrimeSuffix else IntToString(n) + NotPrimeSuffix
  }

  /**
   * The sentence says "prime" exactly for primes and "NOT a prime" exactly
   * for the rest.  This is FormatResult's own case split; what makes it a
   * statement about the program is that its parts are characterized apart:
   * Prime by IsPrime and SqrtBoundSuffices, str(n) by ParseIntString and
   * IntToStringInjective.
   */
  lemma FormatResultVerdict(n: int)
    ensures FormatResult(n) == IntToString(n) + PrimeSuffix <==> Prime(n)
    ensures FormatResult(n) == IntToString(n) + NotPrimeSuffix <==> !Prime(n)
  {
    if !Prime(n) {
      var s := IntToString(n);
      assert (s + NotPrimeSuffix)[|s| + 4] != (s + PrimeSuffix)[|s| + 4];
    }
  }

  /** In a + x, where a has no space and x starts with one, the first space is at |a|. */
  lemma FirstSpaceAt(a: string, x: string)
    requires forall i :: 0 <= i < |a| ==> a[i] != ' '
    requires |x| > 0 && x[0] == ' '
    ensures (a + x)[|a|] == ' '
    ensures forall i :: 0 <= i < |a| ==> (a + x)[i] != ' '
  {
  }

  /** A decimal form never holds a space, so it ends where the sentence's first space is. */
  lemma SamePrefixBeforeSpace(a: string, x: string, b: string, y: string)
    requires forall i :: 0 <= i < |a| ==> a[i] != ' '
    requires forall i :: 0 <= i < |b| ==> b[i] != ' '
    requires |x| > 0 && x[0] == ' ' && |y| > 0 && y[0] == ' '
    requires a + x == b + y
    ensures a == b
  {
    FirstSpaceAt(a, x);
    FirstSpaceAt(b, y);
    assert |a| == |b|;
    assert a == (a + x)[..|a|] && b == (b + y)[..|b|];
  }

  /** The sentence names its number unambiguously: different n give different sentences. */
  lemma FormatResultInjective(m: int, n: int)
    requires FormatResult(m) == FormatResult(n)
    ensures m == n
  {
    var pm := if Prime(m) then PrimeSuffix else NotPrimeSuffix;
    var pn := if Prime(n) then PrimeSuffix else NotPrimeSuffix;
    IntToStringChars(m);
    IntToStringChars(n);
    SamePrefixBeforeSpace(IntToString(m), pm, IntToString(n), pn);
    IntToStringInjective(m, n);
  }

  /** The unit test format_result(7). */
  lemma FormatResultPrimeExample()
    ensures FormatResult(7) == "7 is a prime integer"
  {
    assert Prime(7) by {
      IsqrtUnique(7, 2);
      SqrtBoundSuffices(7);
    }
    IntToStringExamples();
    assert FormatResult(7) == IntToString(7) + PrimeSuffix;
  }

  /** The unit test format_result(10). */
  lemma FormatResultCompositeExample()
    ensures FormatResult(10) == "10 is NOT a prime integer"
  {
    assert !Prime(10) by {
      assert 10 % 2 == 0;
    }
    IntToStringExamples();
    assert FormatResult(10) == IntToString(10) + NotPrimeSuffix;
  }

  /** The reply to an unparseable line. */
  function InvalidMessage(text: string): (r: string)
    ensures |r| > |text| && r[|r| - 1] == '.'
  {
    "Error: '" + text + "' is not a valid integer. Try again."
  }

  /** The exit test: the stripped line, lower-cased, is quit, q or exit. */
  predicate IsExitKeyword(text: string) {
    Lower(text) in {"quit", "q", "exit"}
  }

  /** No exit keyword is an integer, so testing for them first hides no number. */
  lemma ExitKeywordNotInteger(text: string)
    requires IsExitKeyword(text)
    ensures ParseInt(text).None?
  {
    var w := Lower(text);
    assert w[0] == 'q' || w[0] == 'e';
    assert LowerChar(text[0]) == w[0];
    assert !IsDigit(text[0]) && text[0] != '-' && text[0] != '+';
  }

  /** A raw input line that ends the loop. */
  predicate IsExitLine(line: string) {
    IsExitKeyword(Strip(line))
  }

  /** The exit keywords are quit, q and exit in any mix of ASCII letter case. */
  lemma ExitKeywordsUpToCase(t: string)
    ensures IsExitKeyword(t) <==>
      (|t| == 4 && forall i :: 0 <= i < 4 ==> SameUpToCase(t[i], "quit"[i]))
      || (|t| == 1 && SameUpToCase(t[0], 'q'))
      || (|t| == 4 && forall i :: 0 <= i < 4 ==> SameUpToCase(t[i], "exit"[i]))
  {
    LowerEquals(t, "quit");
    LowerEquals(t, "q");
    LowerEquals(t, "exit");
  }

  /** A line ends the loop exactly when its stripped text is quit, q or exit in any ASCII case. */
  lemma ExitLineUpToCase(line: string)
    ensures IsExitLine(line) <==>
      (|Strip(line)| == 4 && forall i :: 0 <= i < 4 ==> SameUpToCase(Strip(line)[i], "quit"[i]))
      || (|Strip(line)| == 1 && SameUpToCase(Strip(line)[0], 'q'))
      || (|Strip(line)| == 4 && forall i :: 0 <= i < 4 ==> SameUpToCase(Strip(line)[i], "exit"[i]))
  {
    ExitKeywordsUpToCase(Strip(line));
  }

  /**
   * What the loop prints for one line that is not an exit keyword: the
   * verdict when the stripped line is an integer, the error message otherwise.
   */
  function Respond(line: string): (r: string)
    ensures ParseInt(Strip(line)).None? <==> r == InvalidMessage(Strip(line))
    ensures ParseInt(Strip(line)).Some? ==> r == FormatResult(ParseInt(Strip(line)).value)
    ensures r != Goodbye
  {
    var text := Strip(line);
    match ParseInt(text)
    case None => InvalidMessage(text)
    case Some(n) =>
      var v := FormatResult(n);
      assert v[|v| - 1] == 'r';
      v
  }

  /**
   * interactive_mode over a finite sequence of input lines: the lines it
   * prints, in order.  Running out of lines ends the transcript.
   */
  function Session(lines: seq<string>): (out: seq<string>)
    ensures |out| <= |lines|
  {
    if lines == [] then []
    else if IsExitLine(lines[0]) then [Goodbye]
    else [Respond(lines[0])] + Session(lines[1..])
  }

  /** interactive_mode as the loop it is: read, strip, test, reply. */
  method InteractiveMode(lines: seq<string>) returns (out: seq<string>)
    ensures out == Session(lines)
  {
    out := [];
    var i := 0;
    while i < |lines|
      invariant 0 <= i <= |lines|
      invariant out + Session(lines[i..]) == Session(lines)
    {
      var userInput := Strip(lines[i]);
      assert lines[i..][0] == lines[i] && lines[i..][1..] == lines[i + 1..];
      if IsExitKeyword(userInput) {
        assert Session(lines[i..]) == [Goodbye];
        out := out + [Goodbye];
        return;
      }
      var reply: string;
      match ParseInt(userInput) {
        case None => reply := InvalidMessage(userInput);
        case Some(n) => reply := FormatResult(n);
      }
      assert Session(lines[i..]) == [reply] + Session(lines[i + 1..]);
      out := out + [reply];
      i := i + 1;
    }
  }

  /** The replies to a run of lines none of which is an exit keyword. */
  function Responses(lines: seq<string>): (out: seq<string>)
    ensures |out| == |lines|
    ensures forall i :: 0 <= i < |lines| ==> out[i] == Respond(lines[i])
  {
    if lines == [] then [] else [Respond(lines[0])] + Responses(lines[1..])
  }

  /**
   * The first exit keyword ends the session: the lines before it are
   * answered one by one, it is answered with Goodbye!, and no line after it
   * is read (the result does not depend on lines[k + 1..]).
   */
  lemma {:induction false} StopsAtFirstExit(lines: seq<string>, k: nat)
    requires k < |lines| && IsExitLine(lines[k])
    requires forall i :: 0 <= i < k ==> !IsExitLine(lines[i])
    ensures Session(lines) == Responses(lines[..k]) + [Goodbye]
  {
    if k > 0 {
      var rest := lines[1..];
      StopsAtFirstExit(rest, k - 1);
      assert rest[..k - 1] == lines[..k][1..];
      assert Session(lines) == [Respond(lines[0])] + Session(rest);
      assert Responses(lines[..k]) == [Respond(lines[0])] + Responses(rest[..k - 1]);
    }
  }

  /** Without an exit keyword every line is answered, in order, until the lines run out. */
  lemma {:induction false} AnswersEveryLine(lines: seq<string>)
    requires forall i :: 0 <= i < |lines| ==> !IsExitLine(lines[i])
    ensures Session(lines) == Responses(lines)
  {
    if lines != [] {
      AnswersEveryLine(lines[1..]);
    }
  }

  /** Among the exit lines up to index j, the first one. */
  lemma FirstExit(lines: seq<string>, j: nat) returns (k: nat)
    requires j < |lines| && IsExitLine(lines[j])
    ensures k <= j && IsExitLine(lines[k])
    ensures forall i :: 0 <= i < k ==> !IsExitLine(lines[i])
  {
    if exists i :: 0 <= i < j && IsExitLine(lines[i]) {
      var i :| 0 <= i < j && IsExitLine(lines[i]);
      k := FirstExit(lines, i);
    } else {
      k := j;
    }
  }

  /**
   * Goodbye! is printed exactly when some line is an exit keyword, and then
   * it is the last line printed.
   */
  lemma {:induction false} GoodbyeOnlyAtExit(lines: seq<string>)
    ensures Goodbye in Session(lines) <==> exists k :: 0 <= k < |lines| && IsExitLine(lines[k])
    ensures Goodbye in Session(lines) ==> Session(lines)[|Session(lines)| - 1] == Goodbye
  {
    if exists j :: 0 <= j < |lines| && IsExitLine(lines[j]) {
      var j :| 0 <= j < |lines| && IsExitLine(lines[j]);
      var k := FirstExit(lines, j);
      StopsAtFirstExit(lines, k);
    } else {
      AnswersEveryLine(lines);
      assert Goodbye !in Responses(lines);
    }
  }

  /** An unparseable line is reported with its stripped text, and the loop goes on. */
  lemma InvalidLineContinues(line: string, rest: seq<string>)
    requires !IsExitLine(line) && ParseInt(Strip(line)).None?
    ensures Session([line] + rest) == [InvalidMessage(Strip(line))] + Session(rest)
  {
    assert ([line] + rest)[1..] == rest;
  }

  /** Session fed "7" then "quit". */
  lemma PrimeThenQuitExample()
    ensures Session(["7", "quit"]) == ["7 is a prime integer", "Goodbye!"]
  {
    FormatResultPrimeExample();
    StripUnchanged("7");
    StripUnchanged("quit");
    assert ParseInt("7") == Some(7);
    assert Lower("7") == "7" && Lower("quit") == "quit";
    assert ["7", "quit"][1..] == ["quit"];
  }

  /** Session fed "10" then "quit". */
  lemma CompositeThenQuitExample()
    ensures Session(["10", "quit"]) == ["10 is NOT a prime integer", "Goodbye!"]
  {
    FormatResultCompositeExample();
    StripUnchanged("10");
    StripUnchanged("quit");
    assert ParseInt("10") == Some(10) by {
      assert AllDigits("10");
      assert "10"[..1] == "1";
      assert DigitsValue("10") == 10;
    }
    assert Lower("10") == "10" && Lower("quit") == "quit";
    assert ["10", "quit"][1..] == ["quit"];
  }

  /** The reply to the line "abc". */
  lemma InvalidReplyExample()
    ensures !IsExitLine("abc")
    ensures Respond("abc") == InvalidMessage("abc")
  {
    StripUnchanged("abc");
    assert ParseInt("abc") == None by {
      assert !IsDigit("abc"[0]);
    }
  }

  /** The error message for "abc", as the test spells it out. */
  lemma InvalidMessageExample()
    ensures InvalidMessage("abc") == "Error: 'abc' is not a valid integer. Try again."
  {
  }

  /** Session fed "abc", "7", then "quit": the error does not end the loop. */
  lemma InvalidThenPrimeExample()
    ensures Session(["abc", "7", "quit"]) == [InvalidMessage("abc"), "7 is a prime integer", "Goodbye!"]
  {
    PrimeThenQuitExample();
    InvalidReplyExample();
    var lines := ["abc", "7", "quit"];
    assert lines[0] == "abc" && lines[1..] == ["7", "quit"];
    assert Session(lines) == [Respond("abc")] + Session(["7", "quit"]);
  }

  /** An exit keyword as the first line, in any letter case, prints only Goodbye!. */
  lemma ImmediateQuitExamples()
    ensures Session(["quit"]) == ["Goodbye!"]
    ensures Session(["QUIT"]) == ["Goodbye!"]
    ensures Session(["Q"]) == ["Goodbye!"]
    ensures Session(["Exit"]) == ["Goodbye!"]
  {
    StripUnchanged("quit");
    StripUnchanged("QUIT");
    StripUnchanged("Q");
    StripUnchanged("Exit");
    assert Lower("quit") == "quit" && Lower("QUIT") == "quit" && Lower("Q") == "q" && Lower("Exit") == "exit";
  }
}
