/**
 * The character-level string operations the server relies on: Python's
 * `str.strip()`, `str.lower()`, `str.replace(c, "")`, `str.isdigit()` with
 * `int()`, and the decimal rendering of a length (`f"{n}"`).
 */
module Text {

  /** Characters Python's `str.isspace()` accepts, hence what `str.strip()` removes. */
  predicate IsSpace(c: char)
  {
    || c == ' ' || c == '\t' || c == '\n' || c == '\r' || c == '\U{000B}' || c == '\U{000C}'
    || ('\U{001C}' <= c <= '\U{001F}')
    || c == '\U{0085}' || c == '\U{00A0}' || c == '\U{1680}'
    || ('\U{2000}' <= c <= '\U{200A}')
    || c == '\U{2028}' || c == '\U{2029}' || c == '\U{202F}' || c == '\U{205F}' || c == '\U{3000}'
  }

  /** `s` with leading whitespace removed. */
  function TrimStart(s: string): (r: string)
    ensures |r| <= |s| && r == s[|s| - |r|..]
    ensures forall k :: 0 <= k < |s| - |r| ==> IsSpace(s[k])
    ensures r == [] || !IsSpace(r[0])
  {
    if |s| > 0 && IsSpace(s[0]) then TrimStart(s[1..]) else s
  }

  /** `s` with trailing whitespace removed. */
  function TrimEnd(s: string): (r: string)
    ensures |r| <= |s| && r == s[..|r|]
    ensures forall k :: |r| <= k < |s| ==> IsSpace(s[k])
    ensures r == [] || !IsSpace(r[|r| - 1])
  {
    if |s| > 0 && IsSpace(s[|s| - 1]) then TrimEnd(s[..|s| - 1]) else s
  }

  /**
   * Python's `s.strip()`: the result is a contiguous slice of `s` that neither
   * starts nor ends with whitespace, and everything cut off is whitespace.
   */
  function Strip(s: string): (r: string)
    ensures exists i, j ::
              && 0 <= i <= j <= |s| && r == s[i..j]
              && (forall k :: 0 <= k < i ==> IsSpace(s[k]))
              && (forall k :: j <= k < |s| ==> IsSpace(s[k]))
    ensures r == [] || (!IsSpace(r[0]) && !IsSpace(r[|r| - 1]))
  {
    var t := TrimStart(s);
    var r := TrimEnd(t);
    var i := |s| - |t|;
    assert r == s[i..i + |r|];
    r
  }

  predicate IsUpper(c: char) { 'A' <= c <= 'Z' }

  /** ASCII case mapping, the part of Python's `str.lower()` this model keeps. */
  function LowerChar(c: char): (r: char)
    ensures !IsUpper(r)
    ensures IsUpper(c) ==> r as int == c as int + 32
    ensures !IsUpper(c) ==> r == c
  {
    if IsUpper(c) then (c as int + 32) as char else c
  }

  /** Python's `s.lower()` on the ASCII range: same length, each character mapped. */
  function Lower(s: string): (r: string)
    ensures |r| == |s|
    ensures forall k :: 0 <= k < |s| ==> r[k] == LowerChar(s[k])
    ensures forall k :: 0 <= k < |r| ==> !IsUpper(r[k])
  {
    seq(|s|, k requires 0 <= k < |s| => LowerChar(s[k]))
  }

  /** Python's `s.replace(c, "")` for a one-character `c`. */
  function Without(s: string, c: char): (r: string)
    ensures c !in r
    ensures |r| <= |s|
    ensures forall x :: x != c ==> (x in r <==> x in s)
    ensures c !in s ==> r == s
    ensures |s| == 1 ==> r == (if s[0] == c then [] else s)
  {
    if |s| == 0 then []
    else if s[0] == c then Without(s[1..], c)
    else [s[0]] + Without(s[1..], c)
  }

  /** `replace` works piecewise: removing `c` from a concatenation removes it from each part, in order. */
  lemma {:induction false} WithoutAppend(a: string, b: string, c: char)
    ensures Without(a + b, c) == Without(a, c) + Without(b, c)
    decreases |a|
  {
    if |a| > 0 {
      assert (a + b)[1..] == a[1..] + b;
      WithoutAppend(a[1..], b, c);
    } else {
      assert a + b == b;
    }
  }

  predicate IsDigit(c: char) { '0' <= c <= '9' }

  /** Python's `s.isdigit()` restricted to ASCII digits: non-empty and all digits. */
  predicate IsDigits(s: string)
  {
    |s| > 0 && forall k :: 0 <= k < |s| ==> IsDigit(s[k])
  }

  function DigitValue(c: char): nat
    requires IsDigit(c)
  {
    c as int - '0' as int
  }

  function DigitChar(d: nat): (c: char)
    requires d < 10
    ensures IsDigit(c) && DigitValue(c) == d
  {
    ('0' as int + d) as char
  }

  /** Python's `int(s)` on a string of ASCII digits: the value it denotes in base ten. */
  function DecimalValue(s: string): nat
    requires forall k :: 0 <= k < |s| ==> IsDigit(s[k])
  {
    if |s| == 0 then 0
    else DecimalValue(s[..|s| - 1]) * 10 + DigitValue(s[|s| - 1])
  }

  /**
   * The decimal numeral Python prints for a natural number (`f"{n}"`): all
   * digits, no leading zero, and reading it back gives `n`.
   */
  function Decimal(n: nat): (r: string)
    ensures IsDigits(r)
    ensures DecimalValue(r) == n
    ensures |r| == 1 || r[0] != '0'
  {
    if n < 10 then [DigitChar(n)]
    else
      var r := Decimal(n / 10) + [DigitChar(n % 10)];
      assert r[..|r| - 1] == Decimal(n / 10);
      r
  }

  /** Reading a numeral without leading zeros and printing the value back gives the numeral. */
  lemma {:induction false} DecimalOfValue(s: string)
    requires IsDigits(s)
    requires |s| == 1 || s[0] != '0'
    ensures Decimal(DecimalValue(s)) == s
    decreases |s|
  {
    var n := DecimalValue(s);
    if |s| == 1 {
      assert n == DecimalValue(s[..0]) * 10 + DigitValue(s[0]) == DigitValue(s[0]);
      assert s == [DigitChar(n)];
    } else {
      var init := s[..|s| - 1];
      var m := DecimalValue(init);
      assert n == m * 10 + DigitValue(s[|s| - 1]);
      assert init[0] == s[0];
      LeadingDigitBound(init);
      DecimalOfValue(init);
      assert n / 10 == m && n % 10 == DigitValue(s[|s| - 1]);
      assert s == init + [s[|s| - 1]];
    }
  }

  /** A numeral with a non-zero leading digit denotes a number at least 1. */
  lemma {:induction false} LeadingDigitBound(s: string)
    requires IsDigits(s) && s[0] != '0'
    ensures DecimalValue(s) >= 1
    decreases |s|
  {
    if |s| > 1 {
      assert s[..|s| - 1][0] == s[0];
      LeadingDigitBound(s[..|s| - 1]);
    }
  }

  /** A leading zero adds nothing to the value of a numeral. */
  lemma {:induction false} LeadingZeroValue(s: string)
    requires IsDigits(s) && |s| > 1 && s[0] == '0'
    ensures DecimalValue(s) == DecimalValue(s[1..])
    decreases |s|
  {
    var init := s[..|s| - 1];
    assert s[1..][..|s| - 2] == init[1..];
    if |s| > 2 {
      assert init[0] == '0';
      LeadingZeroValue(init);
    } else {
      assert DecimalValue(init) == DecimalValue(init[..0]) * 10 + DigitValue(init[0]) == 0;
    }
  }

  /**
   * Every digit string is a run of zeros followed by the numeral of its
   * value: `int()` ignores leading zeros and otherwise reads the digits back.
   */
  lemma {:induction false} LeadingZeros(s: string)
    requires IsDigits(s)
    ensures exists z :: 0 <= z < |s| && (forall k :: 0 <= k < z ==> s[k] == '0') && s[z..] == Decimal(DecimalValue(s))
    decreases |s|
  {
    if |s| == 1 || s[0] != '0' {
      DecimalOfValue(s);
      assert s[0..] == s;
    } else {
      LeadingZeroValue(s);
      LeadingZeros(s[1..]);
      var z :| 0 <= z < |s| - 1 && (forall k :: 0 <= k < z ==> s[1..][k] == '0') && s[1..][z..] == Decimal(DecimalValue(s[1..]));
      assert s[z + 1..] == s[1..][z..];
      assert forall k :: 0 <= k < z + 1 ==> s[k] == '0' by {
        forall k | 0 <= k < z + 1 ensures s[k] == '0' {
          if k > 0 {
            assert s[k] == s[1..][k - 1];
          }
        }
      }
    }
  }
}
