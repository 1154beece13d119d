/**
 * Python's `int(text, base)` for the two bases the tools use, and the `_to_int`
 * converter both tools give argparse for `--vid`, `--pid`, `--report-id` and `--scan`.
 */
module PyInt {
  import opened Common
  import opened PyStr

  /** White space `int()` skips around its digits: Python's ASCII white space
      (not the separators U+001C..U+001F) and the non-ASCII white space. */
  predicate IsIntSpace(c: char) {
    IsSpace(c) && !('\U{1C}' <= c <= '\U{1F}')
  }

  /** The value of a digit in bases up to 36 (either case), 36 for any other character. */
  function DigitValue(c: char): (d: nat)
    ensures d <= 36
  {
    if '0' <= c <= '9' then c as int - '0' as int
    else if 'a' <= c <= 'z' then c as int - 'a' as int + 10
    else if 'A' <= c <= 'Z' then c as int - 'A' as int + 10
    else 36
  }

  predicate IsDigit(c: char, base: nat) {
    DigitValue(c) < base
  }

  /** Digits of `base` with single underscores between them: not first, not last, never two in a row. */
  predicate WellFormedDigits(v: string, base: nat) {
    && v != []
    && IsDigit(v[0], base) && IsDigit(v[|v| - 1], base)
    && (forall i :: 0 <= i < |v| ==> IsDigit(v[i], base) || v[i] == '_')
    && (forall i :: 0 <= i < |v| - 1 ==> v[i] == '_' ==> v[i + 1] != '_')
  }

  /** The number the digits of `v` spell in `base`, underscores skipped. */
  function DigitsValue(v: string, base: nat): (n: int)
    ensures n >= 0
    decreases |v|
  {
    if v == [] then 0
    else if v[|v| - 1] == '_' then DigitsValue(v[..|v| - 1], base)
    else DigitsValue(v[..|v| - 1], base) * base + DigitValue(v[|v| - 1])
  }

  /** In base 16 `int()` also accepts a `0x` prefix, which one underscore may follow. */
  function SkipBasePrefix(u: string, base: nat): string {
    if base == 16 && |u| >= 2 && u[0] == '0' && (u[1] == 'x' || u[1] == 'X') then
      var w := u[2..];
      if w != [] && w[0] == '_' then w[1..] else w
    else u
  }

  /** The digits after the sign: a number, or `None` where `int()` raises `ValueError`. */
  function ParseUnsigned(u: string, base: nat): Option<int> {
    var v := SkipBasePrefix(u, base);
    if WellFormedDigits(v, base) then Some(DigitsValue(v, base)) else None
  }

  /** An optional sign, then the digits. */
  function ParseSigned(t: string, base: nat): Option<int> {
    var negative := t != [] && t[0] == '-';
    var digits := if t != [] && (t[0] == '-' || t[0] == '+') then t[1..] else t;
    match ParseUnsigned(digits, base)
    case None => None
    case Some(m) => Some(if negative then -m else m)
  }

  /**
   * `int(text, base)`: white space around, an optional sign, the `0x` prefix in
   * base 16, then digits. `None` where Python raises `ValueError`.
   */
  function ParseInt(text: string, base: nat): Option<int> {
    ParseSigned(TrimEnd(TrimStart(text, IsIntSpace), IsIntSpace), base)
  }

  /**
   * `_to_int(value)`: strip and lower-case; a `0x` prefix or an `h` suffix selects
   * base 16 for what remains, anything else is read in base 10.
   */
  function ToInt(value: string): Option<int> {
    ToIntCleaned(Lower(Strip(value)))
  }

  /** `_to_int` once the text is stripped and lower-cased: one `int()` call on what `Radix` picks. */
  function ToIntCleaned(cleaned: string): Option<int> {
    var (text, base) := Radix(cleaned);
    ParseInt(text, base)
  }

  /** A `0x` prefix or an `h` suffix is cut off and selects base 16; otherwise base 10. */
  function Radix(cleaned: string): (string, nat) {
    if StartsWith(cleaned, "0x") then (cleaned[2..], 16)
    else if cleaned != [] && cleaned[|cleaned| - 1] == 'h' then (cleaned[..|cleaned| - 1], 16)
    else (cleaned, 10)
  }

  /** The lower-case digit for `d`. */
  function DigitChar(d: nat): (c: char)
    requires d < 16
    ensures DigitValue(c) == d
    ensures '0' <= c <= '9' || 'a' <= c <= 'f'
  {
    if d < 10 then ('0' as int + d) as char else ('a' as int + d - 10) as char
  }

  /** The digits of `n` in `base` without leading zeros: `str(n)` in base 10, `format(n, "x")` in base 16. */
  function Digits(n: nat, base: nat): string
    requires 2 <= base <= 16
    decreases n
  {
    if n < base then [DigitChar(n)] else Digits(n / base, base) + [DigitChar(n % base)]
  }

  /** `str(n)`: a minus sign for negative numbers, then the decimal digits. */
  function Str(n: int): string {
    if n < 0 then "-" + Digits(-n, 10) else Digits(n, 10)
  }

  /** `Digits` writes lower-case digits of `base`, so they are well formed. */
  lemma {:induction false} DigitsShape(n: nat, base: nat)
    requires 2 <= base <= 16
    ensures Digits(n, base) != []
    ensures forall i :: 0 <= i < |Digits(n, base)| ==>
      IsDigit(Digits(n, base)[i], base) && ('0' <= Digits(n, base)[i] <= '9' || 'a' <= Digits(n, base)[i] <= 'f')
    decreases n
  {
    if n >= base {
      DivMod(n, base);
      DigitsShape(n / base, base);
      var p := Digits(n / base, base);
      assert Digits(n, base) == p + [DigitChar(n % base)];
      forall i | 0 <= i < |Digits(n, base)|
        ensures IsDigit(Digits(n, base)[i], base) && ('0' <= Digits(n, base)[i] <= '9' || 'a' <= Digits(n, base)[i] <= 'f')
      {
        if i < |p| { assert Digits(n, base)[i] == p[i]; }
      }
    }
  }

  /** `Digits` and `DigitsValue` are inverse: the digits of `n` are well formed and spell `n`. */
  lemma {:induction false} DigitsRoundTrip(n: nat, base: nat)
    requires 2 <= base <= 16
    ensures WellFormedDigits(Digits(n, base), base)
    ensures DigitsValue(Digits(n, base), base) == n
  {
    DigitsShape(n, base);
    DigitsSpell(n, base);
  }

  lemma {:induction false} DigitsSpell(n: nat, base: nat)
    requires 2 <= base <= 16
    ensures DigitsValue(Digits(n, base), base) == n
    decreases n
  {
    if n >= base {
      var q, r := n / base, n % base;
      DivMod(n, base);
      var p := Digits(q, base);
      var d := DigitChar(r);
      var s := p + [d];
      assert Digits(n, base) == s;
      DigitsSpell(q, base);
      assert s[..|s| - 1] == p;
      assert s[|s| - 1] == d;
      DigitsValueStep(s, base, DigitsValue(p, base), DigitValue(d));
    }
  }

  lemma {:induction false} DigitsValueStep(s: string, base: nat, prefix: int, last: int)
    requires s != [] && s[|s| - 1] != '_'
    requires DigitsValue(s[..|s| - 1], base) == prefix && DigitValue(s[|s| - 1]) == last
    ensures DigitsValue(s, base) == prefix * base + last
  {
  }

  lemma {:induction false} DivMod(n: nat, base: nat)
    requires 2 <= base <= n
    ensures n == (n / base) * base + n % base && 0 <= n % base < base
    ensures n / base < n
  {
  }

  /**
   * Well-formed digits of `base` (either case, single underscores between them),
   * without sign, white space or prefix, parse to the number they spell.
   */
  lemma {:induction false} ParsePlainDigits(d: string, base: nat)
    requires 2 <= base <= 16 && WellFormedDigits(d, base)
    ensures ParseInt(d, base) == Some(DigitsValue(d, base))
  {
    NoBasePrefix(d, base);
    UnsignedText(d, base, DigitsValue(d, base));
  }

  lemma {:induction false} NoBasePrefix(d: string, base: nat)
    requires 2 <= base <= 16 && WellFormedDigits(d, base)
    ensures ParseUnsigned(d, base) == Some(DigitsValue(d, base))
    ensures d[0] != '-' && d[0] != '+' && !IsIntSpace(d[0]) && !IsIntSpace(d[|d| - 1])
  {
    assert SkipBasePrefix(d, base) == d by {
      if |d| >= 2 { assert d[1] != 'x' && d[1] != 'X'; }
    }
  }

  lemma {:induction false} UnspacedIntText(t: string)
    requires t != [] && !IsIntSpace(t[0]) && !IsIntSpace(t[|t| - 1])
    ensures TrimEnd(TrimStart(t, IsIntSpace), IsIntSpace) == t
  {
  }

  /** Digits `k` with no white space around them. */
  lemma {:induction false} UnsignedText(t: string, base: nat, k: int)
    requires t != [] && t[0] != '+' && t[0] != '-' && !IsIntSpace(t[0]) && !IsIntSpace(t[|t| - 1])
    requires ParseUnsigned(t, base) == Some(k)
    ensures ParseInt(t, base) == Some(k)
  {
    assert ParseSigned(t, base) == Some(k);
    UnspacedIntText(t);
  }

  /** A minus sign, then digits `k`, with no white space around them. */
  lemma {:induction false} NegativeText(t: string, base: nat, k: int)
    requires t != [] && t[0] == '-' && !IsIntSpace(t[|t| - 1])
    requires ParseUnsigned(t[1..], base) == Some(k)
    ensures ParseInt(t, base) == Some(-k)
  {
    assert ParseSigned(t, base) == Some(-k);
    UnspacedIntText(t);
  }

  /** Well-formed digits made of the characters `Digits` writes only. */
  predicate DigitText(d: string, base: nat) {
    && WellFormedDigits(d, base)
    && forall i :: 0 <= i < |d| ==> '0' <= d[i] <= '9' || 'a' <= d[i] <= 'f'
  }

  /** Lower-case text without white space at its ends is its own `strip().lower()`. */
  lemma {:induction false} CleanText(s: string)
    requires s != [] && !IsSpace(s[0]) && !IsSpace(s[|s| - 1])
    requires forall i :: 0 <= i < |s| ==> !('A' <= s[i] <= 'Z')
    ensures ToInt(s) == ToIntCleaned(s)
  {
    StripUnspaced(s);
    assert Lower(s) == s;
  }

  /** A decimal number, as `str()` writes it, reads back unchanged. */
  lemma {:induction false} ToIntDecimal(n: int)
    ensures ToInt(Str(n)) == Some(n)
  {
    var m := if n < 0 then -n else n;
    DigitsShape(m, 10);
    DigitsRoundTrip(m, 10);
    if n < 0 {
      NegativeDecimalText(Digits(m, 10));
    } else {
      DecimalText(Digits(m, 10));
    }
  }

  lemma {:induction false} DecimalText(d: string)
    requires DigitText(d, 10)
    ensures ToInt(d) == Some(DigitsValue(d, 10))
  {
    CleanText(d);
    assert d[|d| - 1] != 'h';
    if |d| >= 2 { assert d[1] != 'x'; }
    NotHexPrefixed(d);
    DecimalBranch(d);
    ParsePlainDigits(d, 10);
  }

  lemma {:induction false} NegativeDecimalText(d: string)
    requires DigitText(d, 10)
    ensures ToInt("-" + d) == Some(-DigitsValue(d, 10))
  {
    SignedClean(d);
    NegativeCleaned(d);
  }

  /** A minus sign before lower-case digits is already clean. */
  lemma {:induction false} SignedClean(d: string)
    requires DigitText(d, 10)
    ensures ToInt("-" + d) == ToIntCleaned("-" + d)
  {
    var s := "-" + d;
    assert s[|s| - 1] == d[|d| - 1];
    SignedNoUpper(d);
    CleanText(s);
  }

  lemma {:induction false} NegativeCleaned(d: string)
    requires DigitText(d, 10)
    ensures ToIntCleaned("-" + d) == Some(-DigitsValue(d, 10))
  {
    NegativeParse(d);
    NegativeRadix(d);
  }

  lemma {:induction false} NegativeParse(d: string)
    requires DigitText(d, 10)
    ensures ParseInt("-" + d, 10) == Some(-DigitsValue(d, 10))
  {
    var s := "-" + d;
    assert s[1..] == d;
    NoBasePrefix(d, 10);
    NegativeText(s, 10, DigitsValue(d, 10));
  }

  lemma {:induction false} NegativeRadix(d: string)
    requires DigitText(d, 10)
    ensures ToIntCleaned("-" + d) == ParseInt("-" + d, 10)
  {
    var s := "-" + d;
    assert s[1] == d[0] && s[|s| - 1] == d[|d| - 1];
    NotHexPrefixed(s);
    DecimalBranch(s);
  }

  lemma {:induction false} SignedNoUpper(d: string)
    requires DigitText(d, 10)
    ensures forall i :: 0 <= i < |"-" + d| ==> !('A' <= ("-" + d)[i] <= 'Z')
  {
    forall i | 0 < i < |"-" + d| ensures !('A' <= ("-" + d)[i] <= 'Z') {
      assert ("-" + d)[i] == d[i - 1];
    }
  }

  lemma {:induction false} NotHexPrefixed(c: string)
    requires |c| < 2 || c[1] != 'x'
    ensures !StartsWith(c, "0x")
  {
    if |c| >= 2 { assert c[..2][1] == c[1]; }
  }

  /** Text that neither starts with `0x` nor ends in `h` is read in base 10. */
  lemma {:induction false} DecimalBranch(c: string)
    requires !StartsWith(c, "0x")
    requires c == [] || c[|c| - 1] != 'h'
    ensures ToIntCleaned(c) == ParseInt(c, 10)
  {
  }

  /** Hexadecimal digits behind `0x` read back as the number they spell. */
  lemma {:induction false} ToIntHexPrefix(n: nat)
    ensures ToInt("0x" + Digits(n, 16)) == Some(n)
  {
    DigitsShape(n, 16);
    DigitsRoundTrip(n, 16);
    HexPrefixText(Digits(n, 16));
  }

  /**
   * Whatever well-formed hexadecimal digits follow `0x` (leading zeros and single
   * underscores included) are read in base 16.
   */
  lemma {:induction false} HexPrefixText(d: string)
    requires WellFormedDigits(d, 16) && forall i :: 0 <= i < |d| ==> !('A' <= d[i] <= 'Z')
    ensures ToInt("0x" + d) == Some(DigitsValue(d, 16))
  {
    var s := "0x" + d;
    assert s[0] == '0' && s[|s| - 1] == d[|d| - 1];
    CleanText(s);
    assert StartsWith(s, "0x") && s[2..] == d;
    ParsePlainDigits(d, 16);
  }

  /** Hexadecimal digits followed by `h` read back as the number they spell. */
  lemma {:induction false} ToIntHexSuffix(n: nat)
    ensures ToInt(Digits(n, 16) + "h") == Some(n)
  {
    DigitsShape(n, 16);
    DigitsRoundTrip(n, 16);
    HexSuffixText(Digits(n, 16));
  }

  /**
   * Whatever well-formed hexadecimal digits precede `h` (leading zeros and single
   * underscores included) are read in base 16.
   */
  lemma {:induction false} HexSuffixText(d: string)
    requires WellFormedDigits(d, 16) && forall i :: 0 <= i < |d| ==> !('A' <= d[i] <= 'Z')
    ensures ToInt(d + "h") == Some(DigitsValue(d, 16))
  {
    var s := d + "h";
    assert s[0] == d[0] && s[|s| - 1] == 'h';
    CleanText(s);
    if |s| >= 2 { assert s[1] != 'x'; }
    NotHexPrefixed(s);
    assert s[..|s| - 1] == d;
    ParsePlainDigits(d, 16);
  }

  /** Letter case does not matter: texts that lower to the same string convert alike. */
  lemma {:induction false} ToIntIgnoresCase(s: string, t: string)
    requires Lower(s) == Lower(t)
    ensures ToInt(s) == ToInt(t)
  {
    LowerStrip(s);
    LowerStrip(t);
  }

  /** White space around the text is ignored. */
  lemma {:induction false} ToIntStrips(w1: string, s: string, w2: string)
    requires forall i :: 0 <= i < |w1| ==> IsSpace(w1[i])
    requires forall i :: 0 <= i < |w2| ==> IsSpace(w2[i])
    requires s != [] && !IsSpace(s[0]) && !IsSpace(s[|s| - 1])
    ensures ToInt(w1 + s + w2) == ToInt(s)
  {
    StripPadded(w1, s, w2);
    StripUnspaced(s);
  }

  /** Empty or blank text is refused. */
  lemma {:induction false} ToIntBlank(w: string)
    requires forall i :: 0 <= i < |w| ==> IsSpace(w[i])
    ensures ToInt(w) == None
  {
    StripBlank(w);
    assert Lower([]) == [];
    assert Radix([]) == ([], 10);
  }

  /** A `0x` prefix or an `h` suffix with no digits is refused. */
  lemma {:induction false} ToIntMarkerOnly()
    ensures ToInt("0x") == None && ToInt("0X") == None && ToInt("h") == None && ToInt("H") == None
  {
    MarkerOnly("0x", "0x");
    MarkerOnly("0X", "0x");
    MarkerOnly("h", "h");
    MarkerOnly("H", "h");
  }

  lemma {:induction false} MarkerOnly(m: string, c: string)
    requires ((m == "0x" || m == "0X") && c == "0x") || ((m == "h" || m == "H") && c == "h")
    ensures ToInt(m) == None
  {
    StripUnspaced(m);
    assert Lower(m) == c;
    assert StartsWith("0x", "0x");
    assert !StartsWith("h", "0x");
    assert Radix(c) == ([], 16);
  }

  /**
   * `int(text, 16)` takes its own optional `0x` prefix, so after `_to_int` has cut one
   * `0x` a second one is still accepted: `"0x0x1f"` converts to 31.
   */
  lemma {:induction false} ToIntDoublePrefix(n: nat)
    ensures ToInt("0x0x" + Digits(n, 16)) == Some(n)
  {
    var d := Digits(n, 16);
    DigitsShape(n, 16);
    DigitsRoundTrip(n, 16);
    var s := "0x0x" + d;
    assert s[0] == '0' && s[|s| - 1] == d[|d| - 1];
    CleanText(s);
    DoublePrefixRadix(d);
    DoublePrefixParse(d);
  }

  lemma {:induction false} DoublePrefixRadix(d: string)
    ensures Radix("0x0x" + d) == ("0x" + d, 16)
  {
    var s := "0x0x" + d;
    assert s[..2] == "0x" && s[2..] == "0x" + d;
  }

  lemma {:induction false} DoublePrefixParse(d: string)
    requires DigitText(d, 16)
    ensures ParseInt("0x" + d, 16) == Some(DigitsValue(d, 16))
  {
    var t := "0x" + d;
    assert t[2..] == d && t[|t| - 1] == d[|d| - 1];
    assert SkipBasePrefix(t, 16) == d;
    UnsignedText(t, 16, DigitsValue(d, 16));
  }
}
