/**
 * The two string operations the interactive loop applies to a line:
 * str.strip() and str.lower().
 */
module Text {

  /**
   * The characters Python's str.isspace accepts, and so the ones str.strip()
   * removes when called without arguments.
   */
  predicate IsSpace(c: char) {
    c == ' ' || '\t' <= c <= '\r' || '\U{1C}' <= c <= '\U{1F}'
    || c == '\U{85}' || c == '\U{A0}' || c == '\U{1680}'
    || '\U{2000}' <= c <= '\U{200A}' || c == '\U{2028}' || c == '\U{2029}'
    || c == '\U{202F}' || c == '\U{205F}' || c == '\U{3000}'
  }

  /** Drops the leading whitespace. */
  function TrimStart(s: string): string {
    if s != [] && IsSpace(s[0]) then TrimStart(s[1..]) else s
  }

  /** Drops the trailing whitespace. */
  function TrimEnd(s: string): string {
    if s != [] && IsSpace(s[|s| - 1]) then TrimEnd(s[..|s| - 1]) else s
  }

  /** str.strip(): the text between the leading and the trailing whitespace. */
  function Strip(s: string): (r: string)
    ensures |r| <= |s|
    ensures r != [] ==> !IsSpace(r[0]) && !IsSpace(r[|r| - 1])
  {
    TrimStartSpec(s);
    TrimEndSpec(TrimStart(s));
    TrimEnd(TrimStart(s))
  }

  /** TrimStart removes the longest all-space prefix and nothing else. */
  lemma {:induction false} TrimStartSpec(s: string)
    ensures |TrimStart(s)| <= |s| && TrimStart(s) == s[|s| - |TrimStart(s)|..]
    ensures forall i :: 0 <= i < |s| - |TrimStart(s)| ==> IsSpace(s[i])
    ensures TrimStart(s) != [] ==> !IsSpace(TrimStart(s)[0])
  {
    if s != [] && IsSpace(s[0]) {
      var t, r := s[1..], TrimStart(s);
      TrimStartSpec(t);
      assert r == TrimStart(t) && r == t[|t| - |r|..];
      assert t[|t| - |r|..] == s[|s| - |r|..];
      forall i | 0 <= i < |s| - |r|
        ensures IsSpace(s[i])
      {
        if i > 0 {
          assert s[i] == t[i - 1];
        }
      }
    }
  }

  /** TrimEnd removes the longest all-space suffix and nothing else. */
  lemma {:induction false} TrimEndSpec(s: string)
    ensures |TrimEnd(s)| <= |s| && TrimEnd(s) == s[..|TrimEnd(s)|]
    ensures forall i :: |TrimEnd(s)| <= i < |s| ==> IsSpace(s[i])
    ensures TrimEnd(s) != [] ==> !IsSpace(TrimEnd(s)[|TrimEnd(s)| - 1])
  {
    if s != [] && IsSpace(s[|s| - 1]) {
      var t, r := s[..|s| - 1], TrimEnd(s);
      TrimEndSpec(t);
      assert r == TrimEnd(t) && r == t[..|r|];
      assert t[..|r|] == s[..|r|];
      forall i | |r| <= i < |s|
        ensures IsSpace(s[i])
      {
        if i < |s| - 1 {
          assert s[i] == t[i];
        }
      }
    }
  }

  /**
   * Strip is complete: the result is s[k..k + |Strip(s)|], everything outside
   * it is whitespace, and the result neither starts nor ends with whitespace.
   */
  lemma StripSpec(s: string) returns (k: nat)
    ensures k + |Strip(s)| <= |s| && Strip(s) == s[k..k + |Strip(s)|]
    ensures forall i :: 0 <= i < k ==> IsSpace(s[i])
    ensures forall i :: k + |Strip(s)| <= i < |s| ==> IsSpace(s[i])
    ensures Strip(s) != [] ==> !IsSpace(Strip(s)[0]) && !IsSpace(Strip(s)[|Strip(s)| - 1])
  {
    var t := TrimStart(s);
    var r := TrimEnd(t);
    TrimStartSpec(s);
    TrimEndSpec(t);
    k := |s| - |t|;
    assert r == s[k..k + |r|] by {
      assert t == s[k..] && r == t[..|r|];
    }
    SpaceTailShift(s, k, |r|);
  }

  /** Whitespace at the tail of s[k..] is whitespace at the tail of s. */
  lemma SpaceTailShift(s: string, k: nat, m: nat)
    requires k + m <= |s|
    requires forall i :: m <= i < |s| - k ==> IsSpace(s[k..][i])
    ensures forall i :: k + m <= i < |s| ==> IsSpace(s[i])
  {
    forall i | k + m <= i < |s|
      ensures IsSpace(s[i])
    {
      assert s[i] == s[k..][i - k];
    }
  }

  /** Stripping twice is stripping once. */
  lemma StripIdempotent(s: string)
    ensures Strip(Strip(s)) == Strip(s)
  {
    var k := StripSpec(s);
    StripUnchanged(Strip(s));
  }

  /** Lowercase of one character; only ASCII capitals change. */
  function LowerChar(c: char): char {
    if 'A' <= c <= 'Z' then (c as int + 32) as char else c
  }

  /** str.lower(), on ASCII letters: one character for each character. */
  function Lower(s: string): (r: string)
    ensures |r| == |s|
  {
    seq(|s|, i requires 0 <= i < |s| => LowerChar(s[i]))
  }

  /** No ASCII capital is left, and nothing but ASCII capitals changes. */
  lemma LowerSpec(s: string)
    ensures forall i :: 0 <= i < |s| ==> !('A' <= Lower(s)[i] <= 'Z')
    ensures forall i :: 0 <= i < |s| && !('A' <= s[i] <= 'Z') ==> Lower(s)[i] == s[i]
  {
  }

  /** c is w, or the capital of w when w is an ASCII lowercase letter. */
  predicate SameUpToCase(c: char, w: char) {
    c == w || ('a' <= w <= 'z' && c as int == w as int - 32)
  }

  /**
   * Comparing the lowercase form with a word that has no capitals is the
   * letter-by-letter comparison that ignores ASCII case.
   */
  lemma LowerEquals(t: string, w: string)
    requires forall i :: 0 <= i < |w| ==> !('A' <= w[i] <= 'Z')
    ensures Lower(t) == w <==> |t| == |w| && forall i :: 0 <= i < |t| ==> SameUpToCase(t[i], w[i])
  {
    if |t| == |w| && forall i :: 0 <= i < |t| ==> SameUpToCase(t[i], w[i]) {
      forall i | 0 <= i < |t|
        ensures Lower(t)[i] == w[i]
      {
        assert SameUpToCase(t[i], w[i]);
      }
    }
  }

  /** Text that neither starts nor ends with whitespace is left as it is. */
  lemma StripUnchanged(s: string)
    requires s == [] || (!IsSpace(s[0]) && !IsSpace(s[|s| - 1]))
    ensures Strip(s) == s
  {
  }
}
