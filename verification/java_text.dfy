/**
 The few pieces of Java's `String` and `Character` behaviour the quiz relies on:
 `Character.isWhitespace`, `String.strip`, `String.toLowerCase` (restricted to ASCII
 letters), `String.indexOf(char, int)` and the decimal rendering of a counter.
 Strings are sequences of Unicode scalar values.
 */
module JavaText {

  /** A Java reference that may be `null`. */
  datatype Nullable<T> = Null | NonNull(value: T)

  /** `Character.isWhitespace`: the ASCII controls TAB..CR and FS..US, the space
      separators other than the three non-breaking ones, and the line and
      paragraph separators. */
  predicate IsWhitespace(c: char)
    ensures c == '\U{A0}' || c == '\U{2007}' || c == '\U{202F}' ==> !IsWhitespace(c)
    ensures IsLineTerminator(c) ==> (IsWhitespace(c) <==> c != '\U{85}')
  {
    || ('\t' <= c <= '\r')
    || ('\U{1C}' <= c <= ' ')
    || c == '\U{1680}'
    || ('\U{2000}' <= c <= '\U{2006}')
    || ('\U{2008}' <= c <= '\U{200A}')
    || c == '\U{2028}' || c == '\U{2029}'
    || c == '\U{205F}' || c == '\U{3000}'
  }

  /** The characters the regular-expression `.` does not match (no DOTALL flag). */
  predicate IsLineTerminator(c: char) {
    c == '\n' || c == '\r' || c == '\U{85}' || c == '\U{2028}' || c == '\U{2029}'
  }

  predicate IsUpper(c: char) {
    'A' <= c <= 'Z'
  }

  function LowerChar(c: char): (d: char)
    ensures !IsUpper(d)
    ensures IsUpper(c) ==> d as int == c as int + 32
    ensures !IsUpper(c) ==> d == c
  {
    if IsUpper(c) then (c as int + 32) as char else c
  }

  /** `toLowerCase`, on ASCII letters only. */
  function Lower(s: string): (r: string)
    ensures |r| == |s|
  {
    seq(|s|, k requires 0 <= k < |s| => LowerChar(s[k]))
  }

  predicate IsLowerCase(s: string) {
    forall k :: 0 <= k < |s| ==> !IsUpper(s[k])
  }

  /** Lower-casing leaves no upper-case letter behind, moves each upper-case letter
      to its lower-case partner and keeps every other character in place. */
  lemma LowerSpec(s: string)
    ensures IsLowerCase(Lower(s))
    ensures forall k :: 0 <= k < |s| ==>
              if IsUpper(s[k]) then Lower(s)[k] as int == s[k] as int + 32 else Lower(s)[k] == s[k]
  {
  }

  lemma LowerIdempotent(s: string)
    ensures Lower(Lower(s)) == Lower(s)
    ensures IsLowerCase(s) ==> Lower(s) == s
  {
  }

  lemma LowerAppend(a: string, b: string)
    ensures Lower(a + b) == Lower(a) + Lower(b)
  {
  }

  /** Lower-casing never creates or destroys whitespace. */
  lemma LowerKeepsWhitespace(c: char)
    ensures IsWhitespace(LowerChar(c)) == IsWhitespace(c)
  {
  }

  predicate AllWhitespace(s: string) {
    forall k :: 0 <= k < |s| ==> IsWhitespace(s[k])
  }

  /** The input with its leading whitespace removed. */
  function StripLeading(s: string): (r: string)
    ensures |r| <= |s|
    ensures r == [] || !IsWhitespace(r[0])
    decreases |s|
  {
    if |s| > 0 && IsWhitespace(s[0]) then StripLeading(s[1..]) else s
  }

  /** The input with its trailing whitespace removed. */
  function StripTrailing(s: string): (r: string)
    ensures |r| <= |s|
    ensures r == [] || !IsWhitespace(r[|r| - 1])
    decreases |s|
  {
    if |s| > 0 && IsWhitespace(s[|s| - 1]) then StripTrailing(s[..|s| - 1]) else s
  }

  /** Leading-whitespace removal keeps a suffix and cuts off only whitespace. */
  lemma {:induction false} StripLeadingIsSuffix(s: string)
    ensures var r := StripLeading(s);
            r == s[|s| - |r|..] && AllWhitespace(s[..|s| - |r|])
    decreases |s|
  {
    if |s| > 0 && IsWhitespace(s[0]) {
      StripLeadingIsSuffix(s[1..]);
    }
  }

  /** Trailing-whitespace removal keeps a prefix and cuts off only whitespace. */
  lemma {:induction false} StripTrailingIsPrefix(s: string)
    ensures var r := StripTrailing(s);
            r == s[..|r|] && AllWhitespace(s[|r|..])
    decreases |s|
  {
    if |s| > 0 && IsWhitespace(s[|s| - 1]) {
      StripTrailingIsPrefix(s[..|s| - 1]);
    }
  }

  /** `String.strip`: the input without its leading and trailing whitespace. */
  function Strip(s: string): (r: string)
    ensures |r| <= |s|
    ensures r == [] || (!IsWhitespace(r[0]) && !IsWhitespace(r[|r| - 1]))
  {
    StripTrailingIsPrefix(StripLeading(s));
    StripTrailing(StripLeading(s))
  }

  /** What `strip` keeps is a contiguous slice of the input, and everything it cuts
      off on either side is whitespace. */
  lemma StripIsSlice(s: string)
    ensures var r := Strip(s); var lo := |s| - |StripLeading(s)|;
            && lo + |r| <= |s| && r == s[lo..lo + |r|]
            && AllWhitespace(s[..lo]) && AllWhitespace(s[lo + |r|..])
  {
    var t := StripLeading(s);
    var r := StripTrailing(t);
    var lo := |s| - |t|;
    StripLeadingIsSuffix(s);
    StripTrailingIsPrefix(t);
    assert Strip(s) == r;
    assert t[..|r|] == s[lo..lo + |r|];
    assert t[|r|..] == s[lo + |r|..];
  }

  lemma {:induction false} StripLeadingWhitespacePrefix(w: string, s: string)
    requires AllWhitespace(w)
    ensures StripLeading(w + s) == StripLeading(s)
    decreases |w|
  {
    if w != [] {
      assert (w + s)[1..] == w[1..] + s;
      StripLeadingWhitespacePrefix(w[1..], s);
    } else {
      assert w + s == s;
    }
  }

  lemma {:induction false} StripTrailingWhitespaceSuffix(s: string, w: string)
    requires AllWhitespace(w)
    ensures StripTrailing(s + w) == StripTrailing(s)
    decreases |w|
  {
    if w != [] {
      assert (s + w)[..|s + w| - 1] == s + w[..|w| - 1];
      StripTrailingWhitespaceSuffix(s, w[..|w| - 1]);
    } else {
      assert s + w == s;
    }
  }

  /** Appending text after a string that holds a non-whitespace character does not
      change where its leading whitespace ends. */
  lemma {:induction false} StripLeadingAppend(s: string, w: string)
    requires !AllWhitespace(s)
    ensures StripLeading(s + w) == StripLeading(s) + w
    decreases |s|
  {
    if IsWhitespace(s[0]) {
      assert (s + w)[1..] == s[1..] + w;
      StripLeadingAppend(s[1..], w);
    }
  }

  /** `strip` leaves nothing exactly of a blank input. */
  lemma StripEmptyIff(s: string)
    ensures Strip(s) == [] <==> AllWhitespace(s)
  {
    StripIsSlice(s);
    var lo := |s| - |StripLeading(s)|;
    if Strip(s) == [] {
      assert s == s[..lo] + s[lo..];
    }
    if AllWhitespace(s) {
      StripLeadingIsSuffix(s);
    }
  }

  /** Surrounding whitespace does not survive `strip`. */
  lemma StripIgnoresSurroundingWhitespace(w1: string, s: string, w2: string)
    requires AllWhitespace(w1) && AllWhitespace(w2)
    ensures Strip(w1 + s + w2) == Strip(s)
  {
    assert w1 + s + w2 == w1 + (s + w2);
    StripLeadingWhitespacePrefix(w1, s + w2);
    if AllWhitespace(s) {
      assert AllWhitespace(s + w2);
      StripEmptyIff(s + w2);
      StripEmptyIff(s);
    } else {
      StripLeadingAppend(s, w2);
      StripTrailingWhitespaceSuffix(StripLeading(s), w2);
    }
  }

  lemma StripIdempotent(s: string)
    ensures Strip(Strip(s)) == Strip(s)
  {
  }

  lemma {:induction false} StripLeadingLower(s: string)
    ensures StripLeading(Lower(s)) == Lower(StripLeading(s))
    decreases |s|
  {
    if |s| > 0 {
      LowerKeepsWhitespace(s[0]);
      if IsWhitespace(s[0]) {
        assert Lower(s)[1..] == Lower(s[1..]);
        StripLeadingLower(s[1..]);
      }
    }
  }

  lemma {:induction false} StripTrailingLower(s: string)
    ensures StripTrailing(Lower(s)) == Lower(StripTrailing(s))
    decreases |s|
  {
    if |s| > 0 {
      LowerKeepsWhitespace(s[|s| - 1]);
      if IsWhitespace(s[|s| - 1]) {
        assert Lower(s)[..|s| - 1] == Lower(s[..|s| - 1]);
        StripTrailingLower(s[..|s| - 1]);
      }
    }
  }

  /** Stripping and lower-casing commute. */
  lemma StripLower(s: string)
    ensures Strip(Lower(s)) == Lower(Strip(s))
  {
    StripLeadingLower(s);
    StripTrailingLower(StripLeading(s));
  }

  /** `s.indexOf(c, from)`: the first position at or after `from` holding `c`, or -1. */
  function IndexOf(s: string, c: char, from: nat): (r: int)
    ensures r == -1 <==> forall k :: from <= k < |s| ==> s[k] != c
    ensures r != -1 ==> from <= r < |s| && s[r] == c
    ensures r != -1 ==> forall k :: from <= k < r ==> s[k] != c
    decreases |s| - from
  {
    if from >= |s| then -1
    else if s[from] == c then from
    else IndexOf(s, c, from + 1)
  }

  function DigitChar(d: nat): (c: char)
    requires d < 10
    ensures '0' <= c <= '9'
  {
    ('0' as int + d) as char
  }

  /** The decimal rendering of a non-negative `int`, as string concatenation does it. */
  function Decimal(n: nat): (r: string)
    ensures |r| >= 1
    ensures forall k :: 0 <= k < |r| ==> '0' <= r[k] <= '9'
    ensures |r| > 1 ==> r[0] != '0'
  {
    if n < 10 then [DigitChar(n)] else Decimal(n / 10) + [DigitChar(n % 10)]
  }

  /** Reads back a string of decimal digits. */
  function ParseDecimal(s: string): nat
    requires forall k :: 0 <= k < |s| ==> '0' <= s[k] <= '9'
  {
    if s == [] then 0
    else ParseDecimal(s[..|s| - 1]) * 10 + (s[|s| - 1] as int - '0' as int)
  }

  lemma {:induction false} DecimalRoundTrip(n: nat)
    ensures ParseDecimal(Decimal(n)) == n
  {
    if n >= 10 {
      var r := Decimal(n);
      assert r[..|r| - 1] == Decimal(n / 10);
      DecimalRoundTrip(n / 10);
    }
  }
}
