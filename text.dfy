/**
 * The string utilities of the .NET base library that the server relies on,
 * restricted to ASCII: `ToUpper`/`ToLower`, `int.ToString()` and the 32-bit
 * integer parser behind `int.Parse`, `int.TryParse` and `Convert.ToInt32(string)`.
 */
module Text {
  import opened Wrappers

  const INT32_MIN: int := -0x8000_0000
  const INT32_MAX: int := 0x7FFF_FFFF

  predicate IsInt32(i: int) {
    INT32_MIN <= i <= INT32_MAX
  }

  predicate IsDigit(c: char) {
    '0' <= c <= '9'
  }

  predicate AllDigits(s: string) {
    forall i :: 0 <= i < |s| ==> IsDigit(s[i])
  }

  // ----- ASCII case folding -----

  function UpperChar(c: char): char {
    if 'a' <= c <= 'z' then (c as int - 32) as char else c
  }

  function LowerChar(c: char): char {
    if 'A' <= c <= 'Z' then (c as int + 32) as char else c
  }

  /** `String.ToUpper`, folding ASCII letters only. */
  function Upper(s: string): string {
    seq(|s|, i requires 0 <= i < |s| => UpperChar(s[i]))
  }

  /** `String.ToLower`, folding ASCII letters only. */
  function Lower(s: string): string {
    seq(|s|, i requires 0 <= i < |s| => LowerChar(s[i]))
  }

  /** Case-insensitive comparison against an upper-case word, as `s.ToUpper() == word` does. */
  lemma UpperEqualsWord(s: string, word: string)
    requires forall i :: 0 <= i < |word| ==> !('a' <= word[i] <= 'z')
    ensures Upper(s) == word <==>
      |s| == |word| && forall i :: 0 <= i < |s| ==> (s[i] == word[i] || ('a' <= s[i] <= 'z' && s[i] as int - 32 == word[i] as int))
  {
    if Upper(s) == word {
      forall i | 0 <= i < |s|
        ensures s[i] == word[i] || ('a' <= s[i] <= 'z' && s[i] as int - 32 == word[i] as int)
      {
        assert Upper(s)[i] == UpperChar(s[i]);
      }
    }
  }

  // ----- decimal printing (`int.ToString()`) -----

  function DigitChar(d: nat): (c: char)
    requires d < 10
    ensures IsDigit(c)
  {
    ('0' as int + d) as char
  }

  function DigitValue(c: char): nat
    requires IsDigit(c)
  {
    c as int - '0' as int
  }

  /** The shortest decimal spelling of `n`. */
  function NatToString(n: nat): (s: string)
    ensures 1 <= |s| && AllDigits(s)
  {
    if n < 10 then [DigitChar(n)] else NatToString(n / 10) + [DigitChar(n % 10)]
  }

  /** `int.ToString()` in the invariant culture: a minus sign, then the digits of the magnitude. */
  function IntToString(i: int): string {
    if i < 0 then "-" + NatToString(-i) else NatToString(i)
  }

  // ----- decimal parsing (`int.Parse`, `int.TryParse`) -----

  /** The value of an all-digit string, most significant digit first. */
  function DigitsValue(s: string): nat
    requires AllDigits(s)
  {
    if s == [] then 0 else DigitsValue(s[..|s| - 1]) * 10 + DigitValue(s[|s| - 1])
  }

  /** The characters `NumberStyles.Integer` lets surround a number: tab, line feed, vertical tab, form feed, carriage return, space. */
  predicate IsWhite(c: char) {
    c == ' ' || '\t' <= c <= '\r'
  }

  function TrimStart(s: string): string {
    if |s| > 0 && IsWhite(s[0]) then TrimStart(s[1..]) else s
  }

  function TrimEnd(s: string): string {
    if |s| > 0 && IsWhite(s[|s| - 1]) then TrimEnd(s[..|s| - 1]) else s
  }

  /**
   * The parser behind `int.Parse` and `int.TryParse`: optional surrounding white
   * space, an optional sign, at least one ASCII digit, and a value in the 32-bit
   * range. `None` stands for `FormatException`/`OverflowException` (or `false`).
   */
  function ParseInt32(s: string): (r: Option<int>)
    ensures r.Some? ==> IsInt32(r.value)
  {
    var t := TrimEnd(TrimStart(s));
    var negative := |t| > 0 && t[0] == '-';
    var digits := if |t| > 0 && (t[0] == '-' || t[0] == '+') then t[1..] else t;
    if |digits| == 0 || !AllDigits(digits) then None
    else
      var v: int := if negative then -(DigitsValue(digits) as int) else DigitsValue(digits);
      if IsInt32(v) then Some(v) else None
  }

  lemma {:induction false} NatToStringValue(n: nat)
    ensures DigitsValue(NatToString(n)) == n
  {
    var s := NatToString(n);
    if n >= 10 {
      NatToStringValue(n / 10);
      assert s[..|s| - 1] == NatToString(n / 10);
    }
  }

  /** Printing a 32-bit integer and parsing it back gives the integer. */
  lemma ParseIntToString(i: int)
    requires IsInt32(i)
    ensures ParseInt32(IntToString(i)) == Some(i)
  {
    var s := IntToString(i);
    var m: nat := if i < 0 then -i else i;
    NatToStringValue(m);
    var d := NatToString(m);
    assert TrimStart(s) == s;
    assert TrimEnd(s) == s by {
      assert s[|s| - 1] == d[|d| - 1];
    }
    if i < 0 {
      assert s[1..] == d;
    }
  }

  /** A parsed value is spelled by digits alone once the sign and white space are set aside: text without any digit never parses. */
  lemma ParseNeedsADigit(s: string)
    requires forall i :: 0 <= i < |s| ==> !IsDigit(s[i])
    ensures ParseInt32(s) == None
  {
    TrimmedIsSlice(s);
    var t := TrimEnd(TrimStart(s));
    var digits := if |t| > 0 && (t[0] == '-' || t[0] == '+') then t[1..] else t;
    if |digits| > 0 {
      assert digits[0] in t;
      assert !IsDigit(digits[0]);
    }
  }

  lemma {:induction false} TrimmedIsSlice(s: string)
    ensures forall c :: c in TrimEnd(TrimStart(s)) ==> c in s
  {
    TrimStartIsSlice(s);
    TrimEndIsSlice(TrimStart(s));
  }

  lemma {:induction false} TrimStartIsSlice(s: string)
    ensures forall c :: c in TrimStart(s) ==> c in s
  {
    if |s| > 0 && IsWhite(s[0]) {
      TrimStartIsSlice(s[1..]);
    }
  }

  lemma {:induction false} TrimEndIsSlice(s: string)
    ensures forall c :: c in TrimEnd(s) ==> c in s
  {
    if |s| > 0 && IsWhite(s[|s| - 1]) {
      TrimEndIsSlice(s[..|s| - 1]);
    }
  }
}
