/** `normalize_phone` and `is_valid_phone`: the phone field is stripped, spaces and
    dashes are dropped, and a number is accepted when it holds 9 to 12 digits. */
module Phone {
  import opened Wrappers
  import opened Seqs
  import opened Text

  /** `normalize_phone(p)`: `(p or "").strip()`, then `replace(" ", "")`, then
      `replace("-", "")`. None stands for a missing value. */
  function NormalizePhone(p: Option<string>): (r: string)
    ensures ' ' !in r && '-' !in r
  {
    RemoveChar(RemoveChar(Strip(p.GetOr("")), ' '), '-')
  }

  /** The digits of `p`, in order: `"".join([c for c in p if c.isdigit()])`. */
  function DigitsOf(p: string): string {
    Filter(IsDigit, p)
  }

  /** `is_valid_phone(p)`. */
  predicate IsValidPhone(p: string) {
    9 <= |DigitsOf(p)| <= 12
  }

  /** The positions of `p` that hold a digit. */
  function DigitPositions(p: string): set<int> {
    set i | 0 <= i < |p| && IsDigit(p[i])
  }

  /** The number of characters of `p` that are digits. */
  function DigitCount(p: string): nat {
    |DigitPositions(p)|
  }

  /** A number is valid exactly when 9 to 12 of its characters are digits;
      what the other characters are does not matter. */
  lemma ValidPhoneCount(p: string)
    ensures IsValidPhone(p) <==> 9 <= DigitCount(p) <= 12
  {
    DigitsOfCount(p);
  }

  lemma {:induction false} DigitsOfCount(p: string)
    ensures |DigitsOf(p)| == DigitCount(p)
    decreases |p|
  {
    if p != [] {
      var n := |p| - 1;
      var init := p[..n];
      DigitsOfCount(init);
      assert p == init + [p[n]];
      FilterAppend(IsDigit, init, [p[n]]);
      DigitPositionsLast(p);
      if IsDigit(p[n]) {
        assert n !in DigitPositions(init);
      }
    }
  }

  /** The digit positions of `p` are those of all but its last character, plus the last
      position when it holds a digit. */
  lemma DigitPositionsLast(p: string)
    requires p != []
    ensures var n := |p| - 1;
      DigitPositions(p) == DigitPositions(p[..n]) + (if IsDigit(p[n]) then {n} else {})
  {
    var n := |p| - 1;
    forall i ensures i in DigitPositions(p) <==> i in DigitPositions(p[..n]) + (if IsDigit(p[n]) then {n} else {}) {
      if 0 <= i < n {
        assert p[..n][i] == p[i];
      }
    }
  }

  /** Normalising drops only whitespace, spaces and dashes, so the digits and with them
      the validity of a number are unchanged. */
  lemma NormalizeKeepsDigits(p: Option<string>)
    ensures DigitsOf(NormalizePhone(p)) == DigitsOf(p.GetOr(""))
    ensures IsValidPhone(NormalizePhone(p)) <==> IsValidPhone(p.GetOr(""))
  {
    var s := Strip(p.GetOr(""));
    var noSpace := RemoveChar(s, ' ');
    FilterFusion(x => x != '-', IsDigit, IsDigit, noSpace);
    FilterFusion(x => x != ' ', IsDigit, IsDigit, s);
    StripKeepsNonSpace(IsDigit, p.GetOr(""));
  }

  /** A missing or empty phone normalises to the empty string. */
  lemma NormalizeMissing(p: Option<string>)
    requires p == None || p == Some("")
    ensures NormalizePhone(p) == ""
  {
    StripTrimmed("");
  }

  /** Normalising an already normal number changes nothing, provided the plain space
      is the only whitespace the input holds. */
  lemma NormalizeIdempotent(p: Option<string>)
    requires forall i :: 0 <= i < |p.GetOr("")| && IsSpace(p.GetOr("")[i]) ==> p.GetOr("")[i] == ' '
    ensures NormalizePhone(Some(NormalizePhone(p))) == NormalizePhone(p)
  {
    var s := p.GetOr("");
    var r := NormalizePhone(p);
    StripChars(s);
    forall i | 0 <= i < |r| ensures !IsSpace(r[i]) {
      var c := r[i];
      assert c in RemoveChar(Strip(s), ' ');
      var j :| 0 <= j < |Strip(s)| && Strip(s)[j] == c;
      assert c in s;
    }
    StripTrimmed(r);
    RemoveAbsentChar(r, ' ');
    RemoveAbsentChar(r, '-');
  }

  /** Other whitespace is another matter: a tab behind a leading dash survives the first
      normalisation and is stripped by the second. */
  lemma NormalizeNotIdempotent()
    ensures NormalizePhone(Some("-\t5")) == "\t5"
    ensures NormalizePhone(Some("\t5")) == "5"
  {
    StripTrimmed("-\t5");
    RemoveAbsentChar("-\t5", ' ');
    assert TrimLeft("\t5") == "5";
    StripTrimmed("5");
    RemoveAbsentChar("5", ' ');
    RemoveAbsentChar("5", '-');
  }
}
