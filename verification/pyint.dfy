/** Python's `int(text)` in base 10 and `str(n)` for integers, restricted to
    ASCII digits. */
module PyInt {
  import opened PyStr
  import opened Optional

  predicate IsDigit(c: char) {
    '0' <= c <= '9'
  }

  function DigitValue(c: char): (d: nat)
    requires IsDigit(c)
    ensures d < 10
  {
    (c as int) - ('0' as int)
  }

  function DigitChar(d: nat): (c: char)
    requires d < 10
    ensures IsDigit(c) && DigitValue(c) == d
  {
    ('0' as int + d) as char
  }

  /** The body of a decimal literal that `int()` accepts: digits, where a
      single underscore may separate two digits. */
  predicate IsDigitGroups(s: string) {
    && |s| > 0
    && IsDigit(s[0])
    && forall i :: 0 <= i < |s| ==>
         IsDigit(s[i]) || (s[i] == '_' && i + 1 < |s| && IsDigit(s[i + 1]))
  }

  /** The value of a run of digits and underscores; underscores are
      skipped. */
  function GroupsValue(s: string): nat {
    if |s| == 0 then 0
    else if IsDigit(s[|s| - 1]) then GroupsValue(s[..|s| - 1]) * 10 + DigitValue(s[|s| - 1])
    else GroupsValue(s[..|s| - 1])
  }

  /** `int(text)`: surrounding whitespace is ignored, one optional sign, then
      digit groups; anything else is a `ValueError` (`None`). */
  function ParseInt(text: string): Option<int> {
    var t := Strip(text);
    if |t| > 0 && (t[0] == '-' || t[0] == '+') then
      if IsDigitGroups(t[1..]) then
        Some(if t[0] == '-' then -(GroupsValue(t[1..]) as int) else GroupsValue(t[1..]))
      else None
    else if IsDigitGroups(t) then Some(GroupsValue(t))
    else None
  }

  /** `int()` refuses text with nothing but whitespace. */
  lemma ParseIntBlank(text: string)
    requires AllSpace(text)
    ensures ParseInt(text) == None
  {
    StripSurrounded(text, [], []);
    assert text + [] + [] == text;
  }

  /** The decimal digits of `n`, most significant first, without leading
      zeros. */
  function NatToString(n: nat): (s: string)
    ensures |s| > 0
    ensures forall i :: 0 <= i < |s| ==> IsDigit(s[i])
    ensures |s| > 1 ==> s[0] != '0'
  {
    if n < 10 then [DigitChar(n)]
    else
      var s := NatToString(n / 10) + [DigitChar(n % 10)];
      assert s[0] == NatToString(n / 10)[0];
      s
  }

  /** `str(n)`. */
  function IntToString(n: int): (s: string)
    ensures |s| > 0
  {
    if n < 0 then "-" + NatToString(-n) else NatToString(n)
  }

  lemma {:induction false} NatToStringValue(n: nat)
    ensures GroupsValue(NatToString(n)) == n
  {
    var s := NatToString(n);
    if n < 10 {
      assert s[..0] == [];
    } else {
      assert s[..|s| - 1] == NatToString(n / 10);
      NatToStringValue(n / 10);
    }
  }

  /** The decimal text of an integer has no surrounding whitespace. */
  lemma IntToStringTrimmed(n: int)
    ensures Trimmed(IntToString(n))
  {
    var s := IntToString(n);
    var digits := NatToString(if n < 0 then -n else n);
    assert s[|s| - 1] == digits[|digits| - 1];
    assert IsDigit(s[|s| - 1]);
    assert s[0] == '-' || IsDigit(s[0]);
  }

  /** The decimal text of a natural number is a run of digit groups. */
  lemma NatToStringGroups(m: nat)
    ensures IsDigitGroups(NatToString(m))
  {
  }

  /** `int()` of trimmed unsigned digit groups is their value. */
  lemma ParseUnsigned(t: string)
    requires Strip(t) == t
    requires IsDigitGroups(t)
    ensures ParseInt(t) == Some(GroupsValue(t) as int)
  {
    assert t[0] != '-' && t[0] != '+';
  }

  /** `int()` of trimmed digit groups after a minus sign is their negated
      value. */
  lemma ParseNegative(t: string, digits: string)
    requires t == "-" + digits
    requires Strip(t) == t
    requires IsDigitGroups(digits)
    ensures ParseInt(t) == Some(-(GroupsValue(digits) as int))
  {
    assert t[0] == '-';
    assert t[1..] == digits;
  }

  /** `int(str(n)) == n`: a timestamp written to a stream as a decimal string
      parses back to the same integer. */
  lemma IntRoundTrip(n: int)
    ensures ParseInt(IntToString(n)) == Some(n)
  {
    var m: nat := if n < 0 then -n else n;
    var digits := NatToString(m);
    NatToStringValue(m);
    NatToStringGroups(m);
    var s := IntToString(n);
    IntToStringTrimmed(n);
    StripTrimmed(s);
    if n < 0 {
      ParseNegative(s, digits);
    } else {
      ParseUnsigned(s);
    }
  }
}
