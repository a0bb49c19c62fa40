/** String helpers with the JavaScript semantics the form and the card rely on:
    `String.prototype.trim`, `.length` (UTF-16 code units), ASCII `toUpperCase`,
    decimal rendering of numbers and `padStart`. */
module Text {

  /** ECMAScript WhiteSpace and LineTerminator code points: the set `trim` strips. */
  predicate IsJsWhitespace(c: char) {
    || c == ' ' || c == '\t' || c == '\n' || c == '\r' || c == '\U{000B}' || c == '\U{000C}'
    || c == '\U{00A0}' || c == '\U{1680}' || ('\U{2000}' <= c <= '\U{200A}')
    || c == '\U{2028}' || c == '\U{2029}' || c == '\U{202F}' || c == '\U{205F}'
    || c == '\U{3000}' || c == '\U{FEFF}'
  }

  predicate AllWhitespace(s: string) {
    forall k :: 0 <= k < |s| ==> IsJsWhitespace(s[k])
  }

  /** Drops leading whitespace; the result is a suffix of `s`. */
  function TrimStart(s: string): (r: string)
    ensures |r| <= |s| && r == s[|s| - |r|..]
    ensures AllWhitespace(s[..|s| - |r|])
    ensures |r| > 0 ==> !IsJsWhitespace(r[0])
    decreases |s|
  {
    if |s| > 0 && IsJsWhitespace(s[0]) then TrimStart(s[1..]) else s
  }

  /** Drops trailing whitespace; the result is a prefix of `s`. */
  function TrimEnd(s: string): (r: string)
    ensures |r| <= |s| && r == s[..|r|]
    ensures AllWhitespace(s[|r|..])
    ensures |r| > 0 ==> !IsJsWhitespace(r[|r| - 1])
    decreases |s|
  {
    if |s| > 0 && IsJsWhitespace(s[|s| - 1]) then TrimEnd(s[..|s| - 1]) else s
  }

  /** `String.prototype.trim`: the result is empty exactly when `s` is all whitespace,
      and otherwise neither starts nor ends with whitespace. */
  function Trim(s: string): (r: string)
    ensures |r| <= |s|
    ensures |r| == 0 <==> AllWhitespace(s)
    ensures |r| > 0 ==> !IsJsWhitespace(r[0]) && !IsJsWhitespace(r[|r| - 1])
  {
    TrimEmptyIff(s);
    TrimEnd(TrimStart(s))
  }

  lemma TrimEmptyIff(s: string)
    ensures |TrimEnd(TrimStart(s))| == 0 <==> AllWhitespace(s)
    ensures |TrimEnd(TrimStart(s))| > 0 ==> !IsJsWhitespace(TrimEnd(TrimStart(s))[0])
  {
    var t := TrimStart(s);
    TrimStartEmptyIff(s);
    TrimEndEmptyIff(t);
    if |TrimEnd(t)| > 0 {
      assert TrimEnd(t)[0] == t[0];
    }
  }

  lemma TrimStartEmptyIff(s: string)
    ensures |TrimStart(s)| == 0 <==> AllWhitespace(s)
  {
    var t := TrimStart(s);
    if |t| == 0 {
      assert s[..|s|] == s;
    }
    if AllWhitespace(s) {
      assert AllWhitespace(t);
    }
  }

  lemma TrimEndEmptyIff(s: string)
    ensures |TrimEnd(s)| == 0 <==> AllWhitespace(s)
  {
    var r := TrimEnd(s);
    if |r| == 0 {
      assert s[0..] == s;
    }
    if AllWhitespace(s) {
      assert AllWhitespace(r);
    }
  }

  /** Whitespace padding on either side of a trimmed text is removed exactly. */
  lemma {:induction false} TrimStartPadded(a: string, s: string)
    requires AllWhitespace(a)
    requires |s| == 0 || !IsJsWhitespace(s[0])
    ensures TrimStart(a + s) == s
    decreases |a|
  {
    if |a| > 0 {
      assert (a + s)[1..] == a[1..] + s;
      TrimStartPadded(a[1..], s);
    } else {
      assert a + s == s;
    }
  }

  lemma {:induction false} TrimEndPadded(s: string, b: string)
    requires AllWhitespace(b)
    requires |s| == 0 || !IsJsWhitespace(s[|s| - 1])
    ensures TrimEnd(s + b) == s
    decreases |b|
  {
    if |b| > 0 {
      assert (s + b)[..|s + b| - 1] == s + b[..|b| - 1];
      TrimEndPadded(s, b[..|b| - 1]);
    } else {
      assert s + b == s;
    }
  }

  /** `trim` removes exactly the surrounding whitespace of an already trimmed text. */
  lemma TrimPadded(a: string, s: string, b: string)
    requires AllWhitespace(a) && AllWhitespace(b)
    requires |s| > 0 && !IsJsWhitespace(s[0]) && !IsJsWhitespace(s[|s| - 1])
    ensures Trim(a + s + b) == s
  {
    assert a + s + b == a + (s + b);
    TrimStartPadded(a, s + b);
    TrimEndPadded(s, b);
  }

  /** Re-padding a trimmed text with whitespace and trimming again gives the same text,
      whether or not anything was left after the first trim. */
  lemma TrimRepadded(a: string, s: string, b: string)
    requires AllWhitespace(a) && AllWhitespace(b)
    ensures Trim(a + Trim(s) + b) == Trim(s)
  {
    var t := Trim(s);
    if |t| == 0 {
      assert a + t + b == a + b;
      assert AllWhitespace(a + b);
    } else {
      TrimPadded(a, t, b);
    }
  }

  /** Trimming twice is the same as trimming once. */
  lemma TrimIdempotent(s: string)
    ensures Trim(Trim(s)) == Trim(s)
  {
    var r := Trim(s);
    if |r| > 0 {
      TrimPadded("", r, "");
      assert "" + r + "" == r;
    }
  }

  /** JavaScript `.length`: characters outside the Basic Multilingual Plane take two
      UTF-16 code units, all others one. */
  function Utf16Length(s: string): (n: nat)
    ensures |s| <= n <= 2 * |s|
    ensures n == |s| <==> forall i :: 0 <= i < |s| ==> s[i] as int <= 0xFFFF
    ensures n == 2 * |s| <==> forall i :: 0 <= i < |s| ==> s[i] as int > 0xFFFF
  {
    if |s| == 0 then 0 else CodeUnits(s[0]) + Utf16Length(s[1..])
  }

  /** UTF-16 code units of one character: a surrogate pair above U+FFFF, one unit below. */
  function CodeUnits(c: char): nat {
    if c as int > 0xFFFF then 2 else 1
  }

  /** One character is as long as its code units, and lengths add up over concatenation;
      together these determine `Utf16Length` on every text. */
  lemma {:induction false} Utf16LengthConcat(s: string, t: string)
    ensures Utf16Length(s + t) == Utf16Length(s) + Utf16Length(t)
    ensures |s| == 1 ==> Utf16Length(s) == CodeUnits(s[0])
    decreases |s|
  {
    if |s| > 0 {
      assert (s + t)[1..] == s[1..] + t;
      Utf16LengthConcat(s[1..], t);
    } else {
      assert s + t == t;
    }
  }

  /** Texts of equal length whose characters pairwise take the same number of code units
      have the same JavaScript length. */
  lemma {:induction false} Utf16LengthPointwise(s: string, t: string)
    requires |s| == |t|
    requires forall i :: 0 <= i < |s| ==> CodeUnits(s[i]) == CodeUnits(t[i])
    ensures Utf16Length(s) == Utf16Length(t)
  {
    if |s| > 0 {
      Utf16LengthPointwise(s[1..], t[1..]);
    }
  }

  predicate IsAsciiLower(c: char) {
    'a' <= c <= 'z'
  }

  predicate IsAsciiUpper(c: char) {
    'A' <= c <= 'Z'
  }

  predicate NoAsciiLower(s: string) {
    forall i :: 0 <= i < |s| ==> !IsAsciiLower(s[i])
  }

  /** ASCII `toLowerCase` of one character, used only to compare texts up to case. */
  function LowerChar(c: char): char {
    if IsAsciiUpper(c) then (c as int + 32) as char else c
  }

  /** `a` and `b` spell the same text when ASCII letter case is ignored. */
  predicate SameIgnoringCase(a: string, b: string) {
    |a| == |b| && forall i :: 0 <= i < |a| ==> LowerChar(a[i]) == LowerChar(b[i])
  }

  /** `toUpperCase` restricted to ASCII letters. */
  function UpperChar(c: char): (u: char)
    ensures !IsAsciiLower(u)
    ensures LowerChar(u) == LowerChar(c)
    ensures CodeUnits(u) == CodeUnits(c)
  {
    if IsAsciiLower(c) then (c as int - 32) as char else c
  }

  /** Upper-cases every ASCII letter: the same text up to case, with no lower-case ASCII
      letter left, and the same JavaScript length. */
  function ToUpper(s: string): (r: string)
    ensures SameIgnoringCase(r, s)
    ensures NoAsciiLower(r)
    ensures Utf16Length(r) == Utf16Length(s)
  {
    var r := seq(|s|, i requires 0 <= i < |s| => UpperChar(s[i]));
    Utf16LengthPointwise(r, s);
    r
  }

  /** The two properties above pin the upper-cased text down completely: any text that
      matches `s` up to case and has no lower-case ASCII letter is `ToUpper(s)`. */
  lemma ToUpperUnique(s: string, r: string)
    requires SameIgnoringCase(r, s) && NoAsciiLower(r)
    ensures r == ToUpper(s)
  {
    var u := ToUpper(s);
    forall i | 0 <= i < |s|
      ensures r[i] == u[i]
    {
      assert LowerChar(r[i]) == LowerChar(u[i]);
    }
  }

  lemma ToUpperIdempotent(s: string)
    ensures ToUpper(ToUpper(s)) == ToUpper(s)
  {
    ToUpperUnique(s, ToUpper(ToUpper(s)));
  }

  // ---- decimal text ----

  type Digit = d: int | 0 <= d < 10

  predicate IsDigitChar(c: char) {
    '0' <= c <= '9'
  }

  predicate AllDigits(s: string) {
    forall k :: 0 <= k < |s| ==> IsDigitChar(s[k])
  }

  function DigitChar(d: Digit): (c: char)
    ensures IsDigitChar(c)
  {
    ('0' as int + d) as char
  }

  function DigitValue(c: char): (d: Digit)
    requires IsDigitChar(c)
    ensures DigitChar(d) == c
  {
    c as int - '0' as int
  }

  /** The value of a string of decimal digits, most significant first. */
  function DigitsValue(s: string): nat
    requires AllDigits(s)
  {
    if |s| == 0 then 0 else 10 * DigitsValue(s[..|s| - 1]) + DigitValue(s[|s| - 1])
  }

  /** `String(n)` for a non-negative integer: at least one digit, no leading zero. */
  function NatToString(n: nat): (s: string)
    ensures |s| >= 1 && AllDigits(s)
    ensures |s| > 1 ==> s[0] != '0'
    ensures n < 10 <==> |s| == 1
  {
    if n < 10 then [DigitChar(n)] else NatToString(n / 10) + [DigitChar(n % 10)]
  }

  /** Reading back the digits `String(n)` wrote gives `n`. */
  lemma {:induction false} NatToStringRoundTrip(n: nat)
    ensures DigitsValue(NatToString(n)) == n
  {
    var s := NatToString(n);
    if n >= 10 {
      NatToStringRoundTrip(n / 10);
      assert s[..|s| - 1] == NatToString(n / 10);
    }
  }

  /** `String(i)` for any integer: a minus sign before the digits of a negative value. */
  function IntToString(i: int): (s: string)
    ensures IsIntText(s)
    ensures s[0] == '-' <==> i < 0
    ensures var d := if i < 0 then s[1..] else s; |d| > 1 ==> d[0] != '0'
  {
    if i < 0 then "-" + NatToString(-i) else NatToString(i)
  }

  predicate IsIntText(s: string) {
    || (|s| >= 1 && AllDigits(s))
    || (|s| >= 2 && s[0] == '-' && AllDigits(s[1..]))
  }

  /** Reads an optionally signed decimal integer. */
  function IntValue(s: string): int
    requires IsIntText(s)
  {
    if |s| >= 1 && AllDigits(s) then DigitsValue(s) else -(DigitsValue(s[1..]) as int)
  }

  lemma IntToStringRoundTrip(i: int)
    ensures IntValue(IntToString(i)) == i
  {
    if i < 0 {
      var d := NatToString(-i);
      var s := "-" + d;
      assert s[0] == '-' && !IsDigitChar(s[0]);
      assert s[1..] == d;
      NatToStringRoundTrip(-i);
    } else {
      NatToStringRoundTrip(i);
    }
  }

  /** `String.prototype.padStart(n, fill)` with a one-character fill. Lengths here count
      characters where JavaScript counts UTF-16 code units; the two agree on the decimal
      texts this is applied to. */
  function PadStart(s: string, n: nat, fill: char): (r: string)
    ensures |s| >= n ==> r == s
    ensures |s| < n ==> |r| == n
    ensures |r| >= |s| && r[|r| - |s|..] == s
    ensures forall k :: 0 <= k < |r| - |s| ==> r[k] == fill
  {
    if |s| >= n then s else seq(n - |s|, _ => fill) + s
  }
}
