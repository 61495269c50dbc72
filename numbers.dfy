/** Decimal text and integers: Python's `int(s)` on a string and `str(n)` / f-string
    formatting of an integer, restricted to ASCII digits. */
module Numbers {
  import opened Wrappers
  import opened Seqs
  import opened Text

  function DigitValue(c: char): nat
    requires IsDigit(c)
  {
    c as int - '0' as int
  }

  function DigitChar(d: nat): char
    requires d < 10
  {
    ('0' as int + d) as char
  }

  lemma DigitCharValue(d: nat)
    requires d < 10
    ensures IsDigit(DigitChar(d)) && DigitValue(DigitChar(d)) == d
  {
  }

  predicate AllDigits(s: string) {
    forall i :: 0 <= i < |s| ==> IsDigit(s[i])
  }

  /** The value of a string of decimal digits, most significant first. */
  function DigitsValue(s: string): nat
    requires AllDigits(s)
  {
    if s == [] then 0 else DigitsValue(s[..|s| - 1]) * 10 + DigitValue(s[|s| - 1])
  }

  /** The digit part that `int()` accepts: digits, with single underscores allowed
      between two digits. */
  predicate IsDigitGroup(s: string) {
    && |s| > 0
    && IsDigit(s[0])
    && forall i :: 0 <= i < |s| ==> GroupChar(s, i)
  }

  /** A digit, or an underscore followed by a digit. */
  predicate GroupChar(s: string, i: int)
    requires 0 <= i < |s|
  {
    IsDigit(s[i]) || (s[i] == '_' && i + 1 < |s| && IsDigit(s[i + 1]))
  }

  /** The digits of a digit group once its underscores are dropped. */
  lemma DigitGroupDigits(body: string)
    requires IsDigitGroup(body)
    ensures AllDigits(RemoveChar(body, '_'))
  {
    var digits := RemoveChar(body, '_');
    forall i | 0 <= i < |digits| ensures IsDigit(digits[i]) {
      assert digits[i] != '_' && digits[i] in body;
      var j :| 0 <= j < |body| && body[j] == digits[i];
      assert GroupChar(body, j);
    }
  }

  /** The value of a digit group, underscores ignored. */
  function GroupValue(body: string): nat
    requires IsDigitGroup(body)
  {
    DigitGroupDigits(body);
    DigitsValue(RemoveChar(body, '_'))
  }

  /** The whitespace `int()` skips around a number on an ASCII string: tab, line feed,
      vertical tab, form feed, carriage return and the space. Unlike `str.strip()`,
      it does not skip the separators 0x1c..0x1f. */
  predicate IsIntSpace(c: char) {
    c == ' ' || (9 <= c as int <= 13)
  }

  function TrimIntLeft(s: string): string {
    if |s| > 0 && IsIntSpace(s[0]) then TrimIntLeft(s[1..]) else s
  }

  function TrimIntRight(s: string): string {
    if |s| > 0 && IsIntSpace(s[|s| - 1]) then TrimIntRight(s[..|s| - 1]) else s
  }

  /** The text `int()` reads once the whitespace it skips is gone from both ends. */
  function StripIntSpace(s: string): string {
    TrimIntRight(TrimIntLeft(s))
  }

  /** A string that begins and ends with something other than `int()`'s whitespace
      keeps all of it. */
  lemma IntSpaceTrimmed(s: string)
    requires s == [] || (!IsIntSpace(s[0]) && !IsIntSpace(s[|s| - 1]))
    ensures StripIntSpace(s) == s
  {
  }

  /** `int(s)`: surrounding whitespace, then an optional sign, then a digit group;
      anything else raises ValueError, modelled as None. */
  function ParseInt(s: string): Option<int> {
    var t := StripIntSpace(s);
    var signed := |t| > 0 && (t[0] == '+' || t[0] == '-');
    var body := if signed then t[1..] else t;
    if !IsDigitGroup(body) then None
    else if signed && t[0] == '-' then Some(-(GroupValue(body) as int))
    else Some(GroupValue(body))
  }

  /** `str(n)` for a non-negative `n`. */
  function NatToDecimal(n: nat): (s: string)
    ensures |s| > 0 && AllDigits(s) && DigitsValue(s) == n
    ensures n > 0 ==> s[0] != '0'
  {
    if n < 10 then DigitCharValue(n); [DigitChar(n)]
    else
      DigitCharValue(n % 10);
      var s := NatToDecimal(n / 10) + [DigitChar(n % 10)];
      assert s[..|s| - 1] == NatToDecimal(n / 10);
      s
  }

  /** `str(n)`. */
  function IntToDecimal(n: int): string {
    if n < 0 then "-" + NatToDecimal(-n) else NatToDecimal(n)
  }

  /** A plain run of digits is a digit group worth its digits' value. */
  lemma DigitsAreGroup(s: string)
    requires |s| > 0 && AllDigits(s)
    ensures IsDigitGroup(s) && GroupValue(s) == DigitsValue(s)
  {
    forall i | 0 <= i < |s| ensures GroupChar(s, i) && s[i] != '_' {
      assert IsDigit(s[i]);
    }
    RemoveAbsentChar(s, '_');
  }

  /** `int()` of a plain run of digits is its value. */
  lemma ParseDigits(s: string)
    requires |s| > 0 && AllDigits(s)
    ensures ParseInt(s) == Some(DigitsValue(s))
  {
    assert !IsIntSpace(s[0]) && !IsIntSpace(s[|s| - 1]);
    IntSpaceTrimmed(s);
    assert !(s[0] == '+' || s[0] == '-');
    DigitsAreGroup(s);
  }

  /** `int(str(n)) == n`. */
  lemma ParseIntToDecimal(n: int)
    ensures ParseInt(IntToDecimal(n)) == Some(n)
  {
    if n < 0 {
      var s := IntToDecimal(n);
      var d := NatToDecimal(-n);
      assert s == "-" + d && s[1..] == d;
      assert !IsIntSpace(s[0]) && IsDigit(s[|s| - 1]) && !IsIntSpace(s[|s| - 1]);
      IntSpaceTrimmed(s);
      DigitsAreGroup(d);
    } else {
      ParseDigits(NatToDecimal(n));
    }
  }

  /** `int()` does not skip a leading file separator (0x1c), which `str.strip()` would
      remove: `int("\x1c9")` raises. */
  lemma ParseIntKeepsSeparator()
    ensures ParseInt([28 as char, '9']) == None
    ensures Strip([28 as char, '9']) == "9"
  {
    var s := [28 as char, '9'];
    assert !IsIntSpace(s[0]) && !IsIntSpace(s[1]);
    IntSpaceTrimmed(s);
    assert !IsDigit(s[0]) && s[0] != '+' && s[0] != '-';
    assert s[1..] == "9" && IsSpace(s[0]) && !IsSpace('9');
    assert TrimLeft(s) == TrimLeft("9") == "9";
    StripTrimmed("9");
  }
}
