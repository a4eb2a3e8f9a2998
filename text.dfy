/** Python's `str.strip()` with no argument, which every version applies to
    the OCR text before storing it. */
module Text {

  /** The characters for which Python's `str.isspace()` holds. */
  predicate IsSpace(c: char)
  {
    ('\t' <= c <= '\r') || ('\U{1c}' <= c <= ' ') || c == '\U{85}' || c == '\U{a0}'
    || c == '\U{1680}' || ('\U{2000}' <= c <= '\U{200a}') || c == '\U{2028}' || c == '\U{2029}'
    || c == '\U{202f}' || c == '\U{205f}' || c == '\U{3000}'
  }

  predicate AllSpace(s: string)
  {
    forall k :: 0 <= k < |s| ==> IsSpace(s[k])
  }

  /** Number of whitespace characters at the front of `s`. */
  function LeadingSpace(s: string): (n: nat)
    ensures n <= |s|
    ensures forall k :: 0 <= k < n ==> IsSpace(s[k])
    ensures n < |s| ==> !IsSpace(s[n])
  {
    if s != [] && IsSpace(s[0]) then 1 + LeadingSpace(s[1..]) else 0
  }

  /** Number of whitespace characters at the end of `s`. */
  function TrailingSpace(s: string): (n: nat)
    ensures n <= |s|
    ensures forall k :: |s| - n <= k < |s| ==> IsSpace(s[k])
    ensures n < |s| ==> !IsSpace(s[|s| - 1 - n])
  {
    if s != [] && IsSpace(s[|s| - 1]) then 1 + TrailingSpace(s[..|s| - 1]) else 0
  }

  /** `s.lstrip()`: drop whitespace from the front, one character at a time. */
  function StripStart(s: string): string
  {
    if s != [] && IsSpace(s[0]) then StripStart(s[1..]) else s
  }

  /** `s.rstrip()`: drop whitespace from the end, one character at a time. */
  function StripEnd(s: string): string
  {
    if s != [] && IsSpace(s[|s| - 1]) then StripEnd(s[..|s| - 1]) else s
  }

  /** `s.strip()`: `s` with its leading and trailing whitespace removed. */
  function Strip(s: string): string
  {
    StripEnd(StripStart(s))
  }

  lemma {:induction false} StripStartCount(s: string)
    ensures StripStart(s) == s[LeadingSpace(s)..]
  {
    if s != [] && IsSpace(s[0]) {
      StripStartCount(s[1..]);
      assert s[1..][LeadingSpace(s[1..])..] == s[LeadingSpace(s)..];
    }
  }

  lemma {:induction false} StripEndCount(s: string)
    ensures StripEnd(s) == s[..|s| - TrailingSpace(s)]
  {
    if s != [] && IsSpace(s[|s| - 1]) {
      StripEndCount(s[..|s| - 1]);
      assert s[..|s| - 1][..|s| - 1 - TrailingSpace(s[..|s| - 1])] == s[..|s| - TrailingSpace(s)];
    }
  }

  /** Stripping both ends is the slice between the leading and the
      trailing run of whitespace, or nothing when those runs meet. */
  lemma StripCount(s: string)
    ensures var i := LeadingSpace(s);
      Strip(s) == if i == |s| then [] else s[i..|s| - TrailingSpace(s)]
  {
    var i := LeadingSpace(s);
    StripStartCount(s);
    if i < |s| {
      StripEndAfterStart(s, i);
    } else {
      assert s[i..] == [];
    }
  }

  lemma StripEndAfterStart(s: string, i: nat)
    requires i < |s| && !IsSpace(s[i])
    ensures StripEnd(s[i..]) == s[i..|s| - TrailingSpace(s)]
  {
    var t := s[i..];
    StripEndCount(t);
    TrailingSpaceSuffix(s, i);
    assert t[..|t| - TrailingSpace(t)] == s[i..|s| - TrailingSpace(s)];
  }

  /** Cutting off a prefix that ends before the last non-space character
      leaves the trailing run unchanged. */
  lemma {:induction false} TrailingSpaceSuffix(s: string, i: nat)
    requires i < |s| && !IsSpace(s[i])
    ensures TrailingSpace(s[i..]) == TrailingSpace(s)
    decreases |s|
  {
    if IsSpace(s[|s| - 1]) {
      var init := s[..|s| - 1];
      assert i < |init|;
      TrailingSpaceSuffix(init, i);
      assert s[i..][..|s[i..]| - 1] == init[i..];
    }
  }

  /** What `strip()` promises: the result is the slice of `s` left after
      cutting whitespace from both ends, it neither starts nor ends with
      whitespace, and it is empty exactly when `s` is all whitespace. */
  lemma StripSpec(s: string)
    ensures var r := Strip(s);
      (exists i, j :: 0 <= i <= j <= |s| && r == s[i..j] && AllSpace(s[..i]) && AllSpace(s[j..]))
      && (r != [] ==> !IsSpace(r[0]) && !IsSpace(r[|r| - 1]))
      && (r == [] <==> AllSpace(s))
  {
    var r := Strip(s);
    var i := LeadingSpace(s);
    StripCount(s);
    if i == |s| {
      assert s[..i] == s;
      assert r == s[i..i];
    } else {
      var j := |s| - TrailingSpace(s);
      assert r == s[i..j];
      assert !AllSpace(s) by {
        assert !IsSpace(s[i]);
      }
    }
  }

  /** Stripping twice is stripping once. */
  lemma {:induction false} StripIdempotent(s: string)
    ensures Strip(Strip(s)) == Strip(s)
  {
    var r := Strip(s);
    StripSpec(s);
    StripCount(r);
    if r != [] {
      assert LeadingSpace(r) == 0;
      assert r[0..] == r;
      assert TrailingSpace(r) == 0;
    }
  }

  /** A string that is not empty but holds only whitespace (a lone "\f", as
      the OCR engine returns for a blank crop) is truthy in Python, yet strips
      to the empty string. */
  lemma {:induction false} WhitespaceOnlyStripsToEmpty(s: string)
    requires s != [] && AllSpace(s)
    ensures Strip(s) == []
  {
    StripSpec(s);
  }
}
