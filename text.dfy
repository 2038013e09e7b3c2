/**
 * Character-level helpers: the whitespace sets of JavaScript's `String.prototype.trim`
 * and Python's `str.strip`, trimming over an arbitrary whitespace predicate, and the
 * decimal rendering of a natural number used in Python f-strings.
 */
module Text {

  /** ECMAScript WhiteSpace and LineTerminator code points: what `trim()` removes. */
  predicate JsWhiteSpace(c: char) {
    var n := c as int;
    (0x09 <= n <= 0x0D) || n == 0x20 || n == 0xA0 || n == 0x1680
    || (0x2000 <= n <= 0x200A) || n == 0x2028 || n == 0x2029 || n == 0x202F
    || n == 0x205F || n == 0x3000 || n == 0xFEFF
  }

  /** The code points for which Python's `str.isspace()` holds: what `strip()` removes. */
  predicate PyWhiteSpace(c: char) {
    var n := c as int;
    (0x09 <= n <= 0x0D) || (0x1C <= n <= 0x20) || n == 0x85 || n == 0xA0 || n == 0x1680
    || (0x2000 <= n <= 0x200A) || n == 0x2028 || n == 0x2029 || n == 0x202F
    || n == 0x205F || n == 0x3000
  }

  /** True when every character of `s` is whitespace according to `ws`. */
  predicate AllSpace(ws: char -> bool, s: string) {
    forall k :: 0 <= k < |s| ==> ws(s[k])
  }

  /** `s` without its leading whitespace; `TrimStartSpec` states what that leaves. */
  function TrimStart(ws: char -> bool, s: string): string {
    if s != [] && ws(s[0]) then TrimStart(ws, s[1..]) else s
  }

  /** `TrimStart` leaves the longest suffix of `s` that does not start with whitespace. */
  lemma {:induction false} TrimStartSpec(ws: char -> bool, s: string)
    ensures |TrimStart(ws, s)| <= |s| && TrimStart(ws, s) == s[|s| - |TrimStart(ws, s)|..]
    ensures AllSpace(ws, s[..|s| - |TrimStart(ws, s)|])
    ensures TrimStart(ws, s) != [] ==> !ws(TrimStart(ws, s)[0])
  {
    if s != [] && ws(s[0]) {
      TrimStartSpec(ws, s[1..]);
      var r := TrimStart(ws, s[1..]);
      assert s[1..][|s| - 1 - |r|..] == s[|s| - |r|..];
      assert s[..|s| - |r|] == [s[0]] + s[1..][..|s| - 1 - |r|];
    }
  }

  /** `s` without its trailing whitespace; `TrimEndSpec` states what that leaves. */
  function TrimEnd(ws: char -> bool, s: string): string {
    if s != [] && ws(s[|s| - 1]) then TrimEnd(ws, s[..|s| - 1]) else s
  }

  /** `TrimEnd` leaves the longest prefix of `s` that does not end with whitespace. */
  lemma {:induction false} TrimEndSpec(ws: char -> bool, s: string)
    ensures |TrimEnd(ws, s)| <= |s| && TrimEnd(ws, s) == s[..|TrimEnd(ws, s)|]
    ensures AllSpace(ws, s[|TrimEnd(ws, s)|..])
    ensures TrimEnd(ws, s) != [] ==> !ws(TrimEnd(ws, s)[|TrimEnd(ws, s)| - 1])
  {
    if s != [] && ws(s[|s| - 1]) {
      TrimEndSpec(ws, s[..|s| - 1]);
      var r := TrimEnd(ws, s[..|s| - 1]);
      assert s[..|s| - 1][..|r|] == s[..|r|];
      assert s[|r|..] == s[..|s| - 1][|r|..] + [s[|s| - 1]];
    }
  }

  /** `r` sits at offset `i` of `s` with only whitespace before and after it. */
  predicate Padded(ws: char -> bool, s: string, i: int, r: string) {
    0 <= i <= |s| - |r| && r == s[i..i + |r|]
    && AllSpace(ws, s[..i]) && AllSpace(ws, s[i + |r|..])
  }

  /**
   * `s` without leading and trailing whitespace: empty exactly when `s` is all
   * whitespace, and otherwise starting and ending with a non-whitespace character.
   * `TrimIsInfix` shows it is what lies between the two runs of whitespace.
   */
  function Trim(ws: char -> bool, s: string): (r: string)
    ensures r == [] <==> AllSpace(ws, s)
    ensures r != [] ==> !ws(r[0]) && !ws(r[|r| - 1])
  {
    TrimEmpty(ws, s);
    TrimBorders(ws, s);
    TrimEnd(ws, TrimStart(ws, s))
  }

  /** The trimmed string is the infix of `s` left between a whitespace prefix and a whitespace suffix. */
  lemma TrimIsInfix(ws: char -> bool, s: string)
    ensures exists i :: Padded(ws, s, i, Trim(ws, s))
  {
    TrimPadded(ws, s);
    assert Trim(ws, s) == TrimEnd(ws, TrimStart(ws, s));
  }

  lemma TrimPadded(ws: char -> bool, s: string)
    ensures exists i :: Padded(ws, s, i, TrimEnd(ws, TrimStart(ws, s)))
  {
    var t := TrimStart(ws, s);
    TrimStartSpec(ws, s);
    TrimEndSpec(ws, t);
    TrimCore(ws, s, |s| - |t|, t, TrimEnd(ws, t));
  }

  lemma TrimEmpty(ws: char -> bool, s: string)
    ensures TrimEnd(ws, TrimStart(ws, s)) == [] <==> AllSpace(ws, s)
  {
    var t := TrimStart(ws, s);
    TrimStartSpec(ws, s);
    TrimEndSpec(ws, t);
    TrimCore(ws, s, |s| - |t|, t, TrimEnd(ws, t));
  }

  lemma TrimBorders(ws: char -> bool, s: string)
    ensures var r := TrimEnd(ws, TrimStart(ws, s)); r != [] ==> !ws(r[0]) && !ws(r[|r| - 1])
  {
    var t := TrimStart(ws, s);
    TrimStartSpec(ws, s);
    TrimEndSpec(ws, t);
    TrimCore(ws, s, |s| - |t|, t, TrimEnd(ws, t));
  }

  /**
   * Cutting a whitespace prefix that leaves `t` not starting with whitespace, then a
   * whitespace suffix that leaves `r` not ending with whitespace, trims `s` to `r`.
   */
  lemma TrimCore(ws: char -> bool, s: string, i: nat, t: string, r: string)
    requires i <= |s| && t == s[i..] && AllSpace(ws, s[..i]) && (t != [] ==> !ws(t[0]))
    requires |r| <= |t| && r == t[..|r|] && AllSpace(ws, t[|r|..]) && (r != [] ==> !ws(r[|r| - 1]))
    ensures Padded(ws, s, i, r)
    ensures r == [] <==> AllSpace(ws, s)
    ensures r != [] ==> !ws(r[0]) && !ws(r[|r| - 1])
  {
    assert s[i..][..|r|] == s[i..i + |r|];
    assert s[i + |r|..] == t[|r|..];
    if r == [] {
      assert s[..i] == s;
    } else {
      assert r[0] == t[0] == s[i];
    }
  }

  /** Trimming is idempotent: a trimmed string has nothing left to trim. */
  lemma TrimIdempotent(ws: char -> bool, s: string)
    ensures Trim(ws, Trim(ws, s)) == Trim(ws, s)
  {
    var r := Trim(ws, s);
    assert TrimStart(ws, r) == r;
    assert TrimEnd(ws, r) == r;
  }

  /** JavaScript's `s.trim()`. */
  function JsTrim(s: string): string {
    Trim(JsWhiteSpace, s)
  }

  /** Python's `s.strip()` with no argument. */
  function PyStrip(s: string): string {
    Trim(PyWhiteSpace, s)
  }

  /** The digit character for `d`. */
  function DigitChar(d: nat): char
    requires d < 10
  {
    ('0' as int + d) as char
  }

  predicate IsDigit(c: char) {
    '0' <= c <= '9'
  }

  /** The value of one decimal digit. */
  function DigitValue(c: char): nat
    requires IsDigit(c)
  {
    c as int - '0' as int
  }

  /** The value of a string of decimal digits. */
  function DigitsValue(s: string): nat
    requires forall k :: 0 <= k < |s| ==> IsDigit(s[k])
  {
    if s == [] then 0
    else 10 * DigitsValue(s[..|s| - 1]) + DigitValue(s[|s| - 1])
  }

  /**
   * The canonical decimal rendering of `n`, as Python's `str(n)` and f-strings print it:
   * digits only, no leading zero, and reading it back gives `n`.
   */
  function Decimal(n: nat): (r: string)
    ensures |r| >= 1 && forall k :: 0 <= k < |r| ==> IsDigit(r[k])
    ensures r[0] != '0' || n == 0
    ensures DigitsValue(r) == n
  {
    if n < 10 then [DigitChar(n)]
    else
      var r := Decimal(n / 10) + [DigitChar(n % 10)];
      assert r[..|r| - 1] == Decimal(n / 10);
      r
  }

  /** Distinct numbers have distinct decimal renderings. */
  lemma DecimalInjective(a: nat, b: nat)
    requires Decimal(a) == Decimal(b)
    ensures a == b
  {
    assert a == DigitsValue(Decimal(a));
  }
}
