/**
 * The ECMAScript string and number operations that the test-data generators and the
 * inventory page call: the `\s` character class, `toLowerCase`, a global
 * `replace(/\s+/g, c)`, the decimal rendering of a whole number inside a template
 * literal, and `parseInt` without a radix.
 */
module JsText {

  // ---------------------------------------------------------------------------
  // Character classes
  // ---------------------------------------------------------------------------

  /**
   * The `\s` class of an ECMAScript regular expression: the WhiteSpace code points
   * (TAB, VT, FF, ZWNBSP and every space separator) and the LineTerminator code
   * points (LF, CR, LS, PS). `parseInt` trims exactly the same set
   * (StrWhiteSpaceChar).
   */
  predicate IsWhitespace(c: char) {
    c == '\t' || c == '\n' || c == '\U{000B}' || c == '\U{000C}' || c == '\r'
    || c == ' ' || c == '\U{00A0}' || c == '\U{1680}'
    || ('\U{2000}' <= c <= '\U{200A}')
    || c == '\U{2028}' || c == '\U{2029}' || c == '\U{202F}' || c == '\U{205F}'
    || c == '\U{3000}' || c == '\U{FEFF}'
  }

  predicate NoWhitespace(s: string) {
    forall i :: 0 <= i < |s| ==> !IsWhitespace(s[i])
  }

  predicate IsUpperAscii(c: char) { 'A' <= c <= 'Z' }

  predicate NoUpperAscii(s: string) {
    forall i :: 0 <= i < |s| ==> !IsUpperAscii(s[i])
  }

  predicate IsDigit(c: char) { '0' <= c <= '9' }

  predicate AllDigits(s: string) {
    forall i :: 0 <= i < |s| ==> IsDigit(s[i])
  }

  // ---------------------------------------------------------------------------
  // toLowerCase
  // ---------------------------------------------------------------------------

  /** The lower-case mapping of one character, for the ASCII letters. */
  function LowerChar(c: char): (l: char)
    ensures !IsUpperAscii(l)
    ensures IsUpperAscii(c) ==> 'a' <= l <= 'z' && l as int == c as int + 32
    ensures !IsUpperAscii(c) ==> l == c
    ensures IsWhitespace(l) <==> IsWhitespace(c)
  {
    if IsUpperAscii(c) then (c as int + 32) as char else c
  }

  /** `s.toLowerCase()`, character by character. */
  function ToLower(s: string): (r: string)
    ensures |r| == |s| && NoUpperAscii(r)
    ensures forall i :: 0 <= i < |s| ==> (IsWhitespace(r[i]) <==> IsWhitespace(s[i]))
  {
    seq(|s|, i requires 0 <= i < |s| => LowerChar(s[i]))
  }

  /** `toLowerCase` changes a string exactly when it holds an upper-case letter. */
  lemma ToLowerFixedPoint(s: string)
    ensures ToLower(s) == s <==> NoUpperAscii(s)
  {
    if NoUpperAscii(s) {
      assert forall i :: 0 <= i < |s| ==> ToLower(s)[i] == s[i];
    }
  }

  // ---------------------------------------------------------------------------
  // replace(/\s+/g, sep)
  // ---------------------------------------------------------------------------

  /** `s` without its leading run of whitespace; also `trimStart`. */
  function DropWhitespace(s: string): (r: string)
    ensures |r| <= |s| && r == s[|s| - |r|..]
    ensures r == [] || !IsWhitespace(r[0])
    ensures forall i :: 0 <= i < |s| - |r| ==> IsWhitespace(s[i])
  {
    if s != [] && IsWhitespace(s[0]) then DropWhitespace(s[1..]) else s
  }

  /**
   * `s.replace(/\s+/g, sep)`: the regular expression is greedy, so every maximal
   * run of whitespace is replaced by a single `sep`; all else is kept.
   */
  function ReplaceWhitespaceRuns(s: string, sep: char): (r: string)
    ensures |r| <= |s|
    ensures forall i :: 0 <= i < |r| ==> r[i] == sep || r[i] in s
    ensures !IsWhitespace(sep) ==> NoWhitespace(r)
    decreases |s|
  {
    if s == [] then []
    else if IsWhitespace(s[0]) then
      var rest := DropWhitespace(s);
      assert forall c :: c in rest ==> c in s;
      [sep] + ReplaceWhitespaceRuns(rest, sep)
    else
      [s[0]] + ReplaceWhitespaceRuns(s[1..], sep)
  }

  /**
   * The same replacement as a left-to-right scan that remembers whether the last
   * character was whitespace: a whitespace character emits `sep` only when it
   * starts a run.
   */
  function ReplaceWhitespaceScan(s: string, sep: char, inRun: bool): string {
    if s == [] then []
    else if IsWhitespace(s[0]) then
      (if inRun then [] else [sep]) + ReplaceWhitespaceScan(s[1..], sep, true)
    else
      [s[0]] + ReplaceWhitespaceScan(s[1..], sep, false)
  }

  lemma {:induction false} ScanInRun(s: string, sep: char)
    ensures ReplaceWhitespaceScan(s, sep, true) == ReplaceWhitespaceScan(DropWhitespace(s), sep, false)
  {
    if s != [] && IsWhitespace(s[0]) {
      ScanInRun(s[1..], sep);
    }
  }

  /** Replacing whole runs at once and scanning character by character agree. */
  lemma {:induction false} ReplaceWhitespaceRunsIsScan(s: string, sep: char)
    ensures ReplaceWhitespaceRuns(s, sep) == ReplaceWhitespaceScan(s, sep, false)
    decreases |s|
  {
    if s == [] {
    } else if IsWhitespace(s[0]) {
      ReplaceWhitespaceRunsIsScan(DropWhitespace(s), sep);
      ScanInRun(s[1..], sep);
    } else {
      ReplaceWhitespaceRunsIsScan(s[1..], sep);
    }
  }

  /** The replacement leaves a string unchanged exactly when it has no whitespace. */
  lemma {:induction false} ReplaceWhitespaceRunsFixedPoint(s: string, sep: char)
    requires !IsWhitespace(sep)
    ensures ReplaceWhitespaceRuns(s, sep) == s <==> NoWhitespace(s)
  {
    if NoWhitespace(s) {
      NoWhitespaceUnchanged(s, sep);
    }
  }

  lemma {:induction false} NoWhitespaceUnchanged(s: string, sep: char)
    requires NoWhitespace(s)
    ensures ReplaceWhitespaceRuns(s, sep) == s
  {
    if s != [] {
      NoWhitespaceUnchanged(s[1..], sep);
    }
  }

  // ---------------------------------------------------------------------------
  // Whole numbers as decimal text
  // ---------------------------------------------------------------------------

  function DigitChar(d: nat): (c: char)
    requires d < 10
    ensures IsDigit(c) && DigitValue(c) == d
  {
    (d + '0' as int) as char
  }

  /** The value of a digit in radix up to 36: 0-9, then a-z or A-Z for 10-35; 36 for no digit. */
  function DigitValue(c: char): (v: nat)
    ensures v <= 36
    ensures v < 10 <==> IsDigit(c)
  {
    if '0' <= c <= '9' then c as int - '0' as int
    else if 'a' <= c <= 'z' then c as int - 'a' as int + 10
    else if 'A' <= c <= 'Z' then c as int - 'A' as int + 10
    else 36
  }

  /** The value of a digit string read most significant digit first. */
  function DigitsValue(z: string, radix: nat): nat {
    if z == [] then 0 else DigitsValue(z[..|z| - 1], radix) * radix + DigitValue(z[|z| - 1])
  }

  /**
   * What `${n}` gives for a whole number below 10^21: its decimal digits, with no
   * leading zero.
   */
  function NatToString(n: nat): (s: string)
    ensures |s| >= 1 && AllDigits(s)
    ensures s[0] == '0' ==> n == 0
    decreases n
  {
    if n < 10 then [DigitChar(n)] else NatToString(n / 10) + [DigitChar(n % 10)]
  }

  /** Reading the rendered digits back gives the number. */
  lemma {:induction false} NatToStringRoundTrip(n: nat)
    ensures DigitsValue(NatToString(n), 10) == n
    decreases n
  {
    if n >= 10 {
      var s := NatToString(n);
      assert s[..|s| - 1] == NatToString(n / 10);
      NatToStringRoundTrip(n / 10);
    }
  }

  lemma {:induction false} DigitsValuePositive(z: string)
    requires |z| >= 1 && AllDigits(z) && z[0] != '0'
    ensures DigitsValue(z, 10) >= 1
  {
    if |z| > 1 {
      DigitsValuePositive(z[..|z| - 1]);
    }
  }

  /** Rendering the value of a digit string without leading zeros gives that string back. */
  lemma {:induction false} CanonicalDigitsRoundTrip(z: string)
    requires |z| >= 1 && AllDigits(z) && (z[0] == '0' ==> |z| == 1)
    ensures NatToString(DigitsValue(z, 10)) == z
  {
    if |z| > 1 {
      var init := z[..|z| - 1];
      DigitsValuePositive(init);
      CanonicalDigitsRoundTrip(init);
      var d := DigitValue(z[|z| - 1]);
      var v := DigitsValue(z, 10);
      assert v == DigitsValue(init, 10) * 10 + d;
      assert v / 10 == DigitsValue(init, 10) && v % 10 == d;
      assert DigitChar(d) == z[|z| - 1];
      assert z == init + [z[|z| - 1]];
    } else {
      assert DigitChar(DigitValue(z[0])) == z[0];
    }
  }

  /** A number below 10^k is rendered with at most k digits. */
  lemma {:induction false} NatToStringLength(n: nat, k: nat)
    requires k >= 1 && n < Pow10(k)
    ensures |NatToString(n)| <= k
    decreases k
  {
    if n >= 10 {
      NatToStringLength(n / 10, k - 1);
    }
  }

  function Pow10(k: nat): (p: nat)
    ensures p >= 1
  {
    if k == 0 then 1 else 10 * Pow10(k - 1)
  }

  /** The longest prefix of `s` made of radix-`radix` digits. */
  function RadixPrefix(s: string, radix: nat): (z: string)
    ensures z <= s
    ensures forall i :: 0 <= i < |z| ==> DigitValue(z[i]) < radix
    ensures |z| == |s| || DigitValue(s[|z|]) >= radix
  {
    if s != [] && DigitValue(s[0]) < radix then [s[0]] + RadixPrefix(s[1..], radix) else []
  }

  /** The longest suffix of `s` made of decimal digits. */
  function DigitSuffix(s: string): (z: string)
    ensures |z| <= |s| && z == s[|s| - |z|..]
    ensures AllDigits(z)
    ensures |z| == |s| || !IsDigit(s[|s| - |z| - 1])
  {
    if s != [] && IsDigit(s[|s| - 1]) then DigitSuffix(s[..|s| - 1]) + [s[|s| - 1]] else []
  }

  /** A run of digits followed by a non-digit is the whole digit prefix. */
  lemma {:induction false} DigitPrefixOf(d: string, t: string)
    requires AllDigits(d) && (t == [] || !IsDigit(t[0]))
    ensures RadixPrefix(d + t, 10) == d
  {
    if d == [] {
      assert d + t == t;
    } else {
      assert (d + t)[0] == d[0] && (d + t)[1..] == d[1..] + t;
      DigitPrefixOf(d[1..], t);
    }
  }

  /** A run of digits after a non-digit is the whole digit suffix. */
  lemma {:induction false} DigitSuffixOf(t: string, d: string)
    requires AllDigits(d) && (t == [] || !IsDigit(t[|t| - 1]))
    ensures DigitSuffix(t + d) == d
  {
    if d == [] {
      assert t + d == t;
    } else {
      var init, c := d[..|d| - 1], d[|d| - 1];
      assert AllDigits(init) && IsDigit(c);
      assert d == init + [c];
      calc {
        DigitSuffix(t + d);
        { SnocAssoc(t, init, c); }
        DigitSuffix((t + init) + [c]);
        { DigitSuffixSnoc(t + init, c); }
        DigitSuffix(t + init) + [c];
        { DigitSuffixOf(t, init); }
        init + [c];
        d;
      }
    }
  }

  lemma SnocAssoc(t: string, init: string, c: char)
    ensures t + (init + [c]) == (t + init) + [c]
  {
  }

  /** A digit appended to a string extends its digit suffix by that digit. */
  lemma DigitSuffixSnoc(s: string, c: char)
    requires IsDigit(c)
    ensures DigitSuffix(s + [c]) == DigitSuffix(s) + [c]
  {
    var u := s + [c];
    assert u[|u| - 1] == c && u[..|u| - 1] == s;
  }

  // ---------------------------------------------------------------------------
  // parseInt
  // ---------------------------------------------------------------------------

  /** A Number as `parseInt` can produce it: a whole number or NaN. */
  datatype JsNumber = Int(value: int) | NaN

  /**
   * `parseInt(input)` with no radix: trim leading whitespace, take one optional
   * sign, treat a `0x`/`0X` prefix as radix 16 (radix 10 otherwise), and read the
   * longest run of digits of that radix; no digit at all gives NaN.
   */
  function ParseInt(input: string): (n: JsNumber)
    ensures DropWhitespace(input) == [] ==> n == NaN
    ensures n.Int? && n.value < 0 ==> DropWhitespace(input)[0] == '-'
  {
    ParseSigned(DropWhitespace(input))
  }

  /** What the sign in front of the digits does to the number read after it. */
  function ApplySign(sign: string, n: JsNumber): JsNumber {
    if sign == "-" && n.Int? then Int(-n.value) else n
  }

  function ParseSigned(s: string): JsNumber {
    if s != [] && s[0] == '-' then
      match ParseUnsigned(s[1..])
      case NaN => NaN
      case Int(v) => Int(-v)
    else if s != [] && s[0] == '+' then ParseUnsigned(s[1..])
    else ParseUnsigned(s)
  }

  function ParseUnsigned(s: string): JsNumber {
    if |s| >= 2 && s[0] == '0' && (s[1] == 'x' || s[1] == 'X') then ParseDigits(s[2..], 16)
    else ParseDigits(s, 10)
  }

  function ParseDigits(s: string, radix: nat): JsNumber {
    var digits := RadixPrefix(s, radix);
    if digits == [] then NaN else Int(DigitsValue(digits, radix))
  }

  lemma DigitIsNotWhitespace(c: char)
    requires IsDigit(c)
    ensures !IsWhitespace(c)
  {
  }

  lemma TrimNothing(s: string)
    requires s == [] || !IsWhitespace(s[0])
    ensures DropWhitespace(s) == s
  {
  }

  lemma UnsignedDecimal(s: string)
    requires s != [] && IsDigit(s[0]) && (|s| >= 2 ==> IsDigit(s[1]))
    ensures ParseSigned(s) == ParseDigits(s, 10)
  {
  }

  /** On a non-empty run of decimal digits, `parseInt` reads the whole run. */
  lemma ParseIntOfDigits(t: string)
    requires |t| >= 1 && AllDigits(t)
    ensures ParseInt(t) == Int(DigitsValue(t, 10))
  {
    DigitIsNotWhitespace(t[0]);
    TrimNothing(t);
    UnsignedDecimal(t);
    assert RadixPrefix(t, 10) == t by {
      DigitPrefixOf(t, []);
      assert t + [] == t;
    }
  }

  /** `parseInt` inverts the decimal rendering of a whole number. */
  lemma ParseIntOfNatToString(n: nat)
    ensures ParseInt(NatToString(n)) == Int(n)
  {
    ParseIntOfDigits(NatToString(n));
    NatToStringRoundTrip(n);
  }

  /** Removing leading whitespace stops exactly at the first other character. */
  lemma {:induction false} DropWhitespaceOf(ws: string, u: string)
    requires forall i :: 0 <= i < |ws| ==> IsWhitespace(ws[i])
    requires u == [] || !IsWhitespace(u[0])
    ensures DropWhitespace(ws + u) == u
    decreases |ws|
  {
    if ws == [] {
      assert ws + u == u;
    } else {
      assert (ws + u)[0] == ws[0] && (ws + u)[1..] == ws[1..] + u;
      DropWhitespaceOf(ws[1..], u);
    }
  }

  /** A run of radix digits followed by a non-digit is the whole radix prefix. */
  lemma {:induction false} RadixPrefixOf(d: string, t: string, radix: nat)
    requires forall i :: 0 <= i < |d| ==> DigitValue(d[i]) < radix
    requires t == [] || DigitValue(t[0]) >= radix
    ensures RadixPrefix(d + t, radix) == d
    decreases |d|
  {
    if d == [] {
      assert d + t == t;
    } else {
      assert (d + t)[0] == d[0] && (d + t)[1..] == d[1..] + t;
      RadixPrefixOf(d[1..], t, radix);
      assert d == [d[0]] + d[1..];
    }
  }

  /** A sign of its own in front of text that does not begin with another sign. */
  lemma ParseSignedOf(sign: string, u: string)
    requires sign == "" || sign == "+" || sign == "-"
    requires u == [] || (u[0] != '+' && u[0] != '-')
    ensures ParseSigned(sign + u) == ApplySign(sign, ParseUnsigned(u))
  {
    if sign == "" {
      assert sign + u == u;
    } else {
      assert (sign + u)[0] == sign[0] && (sign + u)[1..] == u;
    }
  }

  /** Once the whitespace is trimmed off to a sign and `u`, the sign applies to what `u` reads as. */
  lemma ParseAfterTrim(input: string, sign: string, u: string)
    requires sign == "" || sign == "+" || sign == "-"
    requires u == [] || (u[0] != '+' && u[0] != '-')
    requires DropWhitespace(input) == sign + u
    ensures ParseInt(input) == ApplySign(sign, ParseUnsigned(u))
  {
    ParseSignedOf(sign, u);
  }

  /** Leading whitespace before a sign, or before text that does not start with whitespace. */
  lemma TrimBeforeSign(ws: string, sign: string, u: string)
    requires forall i :: 0 <= i < |ws| ==> IsWhitespace(ws[i])
    requires sign == "" || sign == "+" || sign == "-"
    requires u == [] || !IsWhitespace(u[0])
    ensures DropWhitespace(ws + sign + u) == sign + u
  {
    assert ws + sign + u == ws + (sign + u);
    if sign == "" {
      assert sign + u == u;
    } else {
      assert (sign + u)[0] == sign[0];
    }
    DropWhitespaceOf(ws, sign + u);
  }

  /** Decimal digits that do not form a `0x` prefix are read in radix 10. */
  lemma DecimalNotHex(digits: string, rest: string)
    requires |digits| >= 1 && AllDigits(digits) && (rest == [] || !IsDigit(rest[0]))
    requires !(digits == "0" && rest != [] && (rest[0] == 'x' || rest[0] == 'X'))
    ensures ParseUnsigned(digits + rest) == ParseDigits(digits + rest, 10)
  {
    var u := digits + rest;
    assert u[0] == digits[0];
    if |digits| >= 2 {
      assert u[1] == digits[1];
    } else if rest != [] {
      assert u[1] == rest[0];
    }
  }

  lemma TrimDecimal(ws: string, sign: string, digits: string, rest: string)
    requires forall i :: 0 <= i < |ws| ==> IsWhitespace(ws[i])
    requires sign == "" || sign == "+" || sign == "-"
    requires |digits| >= 1 && AllDigits(digits)
    ensures DropWhitespace(ws + sign + digits + rest) == sign + (digits + rest)
  {
    var u := digits + rest;
    assert ws + sign + digits + rest == ws + sign + u;
    assert u[0] == digits[0];
    DigitIsNotWhitespace(digits[0]);
    TrimBeforeSign(ws, sign, u);
  }

  lemma DecimalOfTrimmed(input: string, sign: string, digits: string, rest: string)
    requires sign == "" || sign == "+" || sign == "-"
    requires |digits| >= 1 && AllDigits(digits) && (rest == [] || !IsDigit(rest[0]))
    requires !(digits == "0" && rest != [] && (rest[0] == 'x' || rest[0] == 'X'))
    requires DropWhitespace(input) == sign + (digits + rest)
    ensures ParseInt(input) == ApplySign(sign, Int(DigitsValue(digits, 10)))
  {
    DecimalNotHex(digits, rest);
    RadixPrefixOf(digits, rest, 10);
    assert (digits + rest)[0] == digits[0];
    ParseAfterTrim(input, sign, digits + rest);
  }

  /**
   * `parseInt` on leading whitespace, at most one sign, a run of decimal digits not
   * read as a `0x` prefix, and text that does not continue the run: the value of
   * the run, negated after `-`.
   */
  lemma ParseIntOfParts(ws: string, sign: string, digits: string, rest: string)
    requires forall i :: 0 <= i < |ws| ==> IsWhitespace(ws[i])
    requires sign == "" || sign == "+" || sign == "-"
    requires |digits| >= 1 && AllDigits(digits) && (rest == [] || !IsDigit(rest[0]))
    requires !(digits == "0" && rest != [] && (rest[0] == 'x' || rest[0] == 'X'))
    ensures ParseInt(ws + sign + digits + rest) == ApplySign(sign, Int(DigitsValue(digits, 10)))
  {
    TrimDecimal(ws, sign, digits, rest);
    DecimalOfTrimmed(ws + sign + digits + rest, sign, digits, rest);
  }

  /** `0x` or `0X` switches to radix 16 for what follows. */
  lemma HexPrefix(x: string, v: string)
    requires x == "0x" || x == "0X"
    ensures ParseUnsigned(x + v) == ParseDigits(v, 16)
  {
    var u := x + v;
    assert u[0] == '0' && u[1] == x[1] && u[2..] == v;
  }

  lemma TrimHex(ws: string, sign: string, x: string, digits: string, rest: string)
    requires forall i :: 0 <= i < |ws| ==> IsWhitespace(ws[i])
    requires sign == "" || sign == "+" || sign == "-"
    requires x == "0x" || x == "0X"
    ensures DropWhitespace(ws + sign + x + digits + rest) == sign + (x + (digits + rest))
  {
    var u := x + (digits + rest);
    assert ws + sign + x + digits + rest == ws + sign + u;
    assert u[0] == '0';
    TrimBeforeSign(ws, sign, u);
  }

  lemma HexOfTrimmed(input: string, sign: string, x: string, digits: string, rest: string)
    requires sign == "" || sign == "+" || sign == "-"
    requires x == "0x" || x == "0X"
    requires forall i :: 0 <= i < |digits| ==> DigitValue(digits[i]) < 16
    requires rest == [] || DigitValue(rest[0]) >= 16
    requires DropWhitespace(input) == sign + (x + (digits + rest))
    ensures ParseInt(input) == if digits == [] then NaN else ApplySign(sign, Int(DigitsValue(digits, 16)))
  {
    var v := digits + rest;
    HexPrefix(x, v);
    RadixPrefixOf(digits, rest, 16);
    assert (x + v)[0] == '0';
    ParseAfterTrim(input, sign, x + v);
  }

  /**
   * `parseInt` on leading whitespace, at most one sign, `0x` or `0X`, a run of
   * hexadecimal digits and text that does not continue the run: the value of the
   * run in radix 16, negated after `-`; NaN when the run is empty.
   */
  lemma ParseIntOfHexParts(ws: string, sign: string, x: string, digits: string, rest: string)
    requires forall i :: 0 <= i < |ws| ==> IsWhitespace(ws[i])
    requires sign == "" || sign == "+" || sign == "-"
    requires x == "0x" || x == "0X"
    requires forall i :: 0 <= i < |digits| ==> DigitValue(digits[i]) < 16
    requires rest == [] || DigitValue(rest[0]) >= 16
    ensures ParseInt(ws + sign + x + digits + rest)
         == if digits == [] then NaN else ApplySign(sign, Int(DigitsValue(digits, 16)))
  {
    TrimHex(ws, sign, x, digits, rest);
    HexOfTrimmed(ws + sign + x + digits + rest, sign, x, digits, rest);
  }

  /**
   * `parseInt` on leading whitespace, at most one sign and then no digit: NaN. After
   * a sign anything but a digit may follow, whitespace and a second sign included;
   * with no sign, the text after the whitespace is taken not to start with
   * whitespace or a sign, so that `ws` and `sign` are the parts `parseInt` takes.
   */
  lemma ParseIntOfNoDigits(ws: string, sign: string, rest: string)
    requires forall i :: 0 <= i < |ws| ==> IsWhitespace(ws[i])
    requires sign == "" || sign == "+" || sign == "-"
    requires rest == [] || !IsDigit(rest[0])
    requires sign == "" ==> (rest == [] || !(IsWhitespace(rest[0]) || rest[0] == '+' || rest[0] == '-'))
    ensures ParseInt(ws + sign + rest) == NaN
  {
    UnsignedNoDigits(rest);
    if sign == "" {
      TrimBeforeSign(ws, sign, rest);
      ParseAfterTrim(ws + sign + rest, sign, rest);
    } else {
      assert ws + sign + rest == ws + (sign + rest);
      DropWhitespaceOf(ws, sign + rest);
      SignedNoDigits(ws + sign + rest, sign, rest);
    }
  }

  /** Trimmed text that is a sign and then no number is NaN. */
  lemma SignedNoDigits(input: string, sign: string, rest: string)
    requires sign == "+" || sign == "-"
    requires DropWhitespace(input) == sign + rest
    requires ParseUnsigned(rest) == NaN
    ensures ParseInt(input) == NaN
  {
    var u := sign + rest;
    assert u[0] == sign[0] && u[1..] == rest;
  }

  /** Text that does not start with a digit reads no number, with or without `0x`. */
  lemma UnsignedNoDigits(u: string)
    requires u == [] || !IsDigit(u[0])
    ensures ParseUnsigned(u) == NaN
  {
    assert ParseUnsigned(u) == ParseDigits(u, 10);
    assert u != [] ==> DigitValue(u[0]) >= 10;
  }

  /** Text whose first character could begin a number for `parseInt`: whitespace, a sign or a digit. */
  predicate StartsLikeNumber(t: string) {
    t != [] && (IsWhitespace(t[0]) || t[0] == '+' || t[0] == '-' || IsDigit(t[0]))
  }

  /** Text that does not start with whitespace, a sign or a digit is NaN, not 0. */
  lemma ParseIntNotANumber(t: string)
    requires !StartsLikeNumber(t)
    ensures ParseInt(t) == NaN
  {
    assert DropWhitespace(t) == t;
    assert ParseSigned(t) == ParseUnsigned(t) == ParseDigits(t, 10);
  }
}
