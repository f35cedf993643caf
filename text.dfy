/**
 * The two string helpers the form relies on: `string.Trim` and `int.TryParse`, and
 * `int.ToString`, which fills the parent field when a dictionary is selected.
 * Whitespace is a fixed set of characters; culture-dependent signs are not modelled.
 */
module Text {
  import opened Models

  /** The characters `Trim` removes: the Unicode white-space characters. */
  predicate IsSpace(c: char) {
    c == ' ' || c == '\t' || c == '\n' || c == '\r' || c == '\U{000B}' || c == '\U{000C}'
    || c == '\U{0085}' || c == '\U{00A0}' || c == '\U{1680}' || ('\U{2000}' <= c <= '\U{200A}')
    || c == '\U{2028}' || c == '\U{2029}' || c == '\U{202F}' || c == '\U{205F}' || c == '\U{3000}'
  }

  /** True when the text holds nothing but whitespace (what `IsNullOrEmpty(x.Trim())` tests). */
  ghost predicate Blank(s: string) {
    forall i :: 0 <= i < |s| ==> IsSpace(s[i])
  }

  function TrimStart(s: string): (r: string)
    ensures |r| <= |s| && r == s[|s| - |r|..]
    ensures r == [] || !IsSpace(r[0])
    ensures forall i :: 0 <= i < |s| - |r| ==> IsSpace(s[i])
  {
    if |s| > 0 && IsSpace(s[0]) then TrimStart(s[1..]) else s
  }

  function TrimEnd(s: string): (r: string)
    ensures |r| <= |s| && r == s[..|r|]
    ensures r == [] || !IsSpace(r[|r| - 1])
    ensures forall i :: |r| <= i < |s| ==> IsSpace(s[i])
  {
    if |s| > 0 && IsSpace(s[|s| - 1]) then TrimEnd(s[..|s| - 1]) else s
  }

  /**
   * Removes leading and trailing whitespace: the result is a slice of the input with only
   * whitespace cut off on either side, and it is empty exactly for blank text.
   */
  function Trim(s: string): (r: string)
    ensures exists a, b ::
      && 0 <= a <= b <= |s| && r == s[a..b]
      && (forall i :: 0 <= i < a ==> IsSpace(s[i]))
      && (forall i :: b <= i < |s| ==> IsSpace(s[i]))
    ensures r == [] || (!IsSpace(r[0]) && !IsSpace(r[|r| - 1]))
    ensures r == [] <==> Blank(s)
  {
    var t := TrimStart(s);
    var a := |s| - |t|;
    var r := TrimEnd(t);
    assert r == s[a..a + |r|];
    assert forall i :: a + |r| <= i < |s| ==> s[i] == t[i - a];
    r
  }

  /** Trimming twice is trimming once. */
  lemma TrimIdempotent(s: string)
    ensures Trim(Trim(s)) == Trim(s)
  {
    var r := Trim(s);
    assert TrimStart(r) == r;
    assert TrimEnd(r) == r;
  }

  predicate IsDigit(c: char) {
    '0' <= c <= '9'
  }

  predicate AllDigits(s: string) {
    forall i :: 0 <= i < |s| ==> IsDigit(s[i])
  }

  /** The decimal value of a digit string, most significant digit first. */
  function DigitsValue(s: string): nat
    requires AllDigits(s)
  {
    if |s| == 0 then 0 else DigitsValue(s[..|s| - 1]) * 10 + (s[|s| - 1] as int - '0' as int)
  }

  const Int32Min: int := -0x8000_0000
  const Int32Max: int := 0x7FFF_FFFF

  predicate IsInt32(n: int) {
    Int32Min <= n <= Int32Max
  }

  /** An optional sign followed by at least one decimal digit. */
  predicate SignedDigits(s: string) {
    || (|s| > 0 && AllDigits(s))
    || (|s| > 1 && (s[0] == '-' || s[0] == '+') && AllDigits(s[1..]))
  }

  /**
   * `int.TryParse` on already trimmed text: an optional sign followed by at least one
   * decimal digit, whose value fits in 32 bits. Anything else does not parse here, including
   * the trailing NUL characters .NET tolerates after the digits.
   */
  function ParseInt(s: string): (r: Option<int>)
    ensures r.Some? ==> SignedDigits(s) && IsInt32(r.value)
    ensures |s| > 0 && AllDigits(s) ==>
      r == if IsInt32(DigitsValue(s)) then Some(DigitsValue(s)) else None
    ensures |s| > 1 && s[0] == '+' && AllDigits(s[1..]) ==>
      r == if IsInt32(DigitsValue(s[1..])) then Some(DigitsValue(s[1..])) else None
    ensures |s| > 1 && s[0] == '-' && AllDigits(s[1..]) ==>
      r == if IsInt32(-(DigitsValue(s[1..]) as int)) then Some(-(DigitsValue(s[1..]) as int)) else None
    ensures s == [] ==> r == None
  {
    var signed := |s| > 0 && (s[0] == '-' || s[0] == '+');
    var body := if signed then s[1..] else s;
    if |body| == 0 || !AllDigits(body) then None
    else
      var v := if |s| > 0 && s[0] == '-' then -(DigitsValue(body) as int) else DigitsValue(body);
      if IsInt32(v) then Some(v) else None
  }

  function Digit(d: nat): (c: char)
    requires d < 10
    ensures IsDigit(c) && c as int - '0' as int == d
  {
    ('0' as int + d) as char
  }

  /** Decimal digits of `n` without leading zeros: only zero itself starts with '0'. */
  function FormatNat(n: nat): (r: string)
    ensures |r| >= 1 && AllDigits(r)
    ensures r[0] == '0' <==> n == 0
  {
    if n < 10 then [Digit(n)] else FormatNat(n / 10) + [Digit(n % 10)]
  }

  /** `int.ToString()` with the invariant culture: a minus sign for negative numbers. */
  function FormatInt(n: int): (r: string)
    ensures |r| >= 1
    ensures n < 0 ==> r[0] == '-' && |r| >= 2 && AllDigits(r[1..])
    ensures n >= 0 ==> AllDigits(r)
  {
    if n < 0 then "-" + FormatNat(-n) else FormatNat(n)
  }

  lemma {:induction false} DigitsOfFormat(n: nat)
    ensures DigitsValue(FormatNat(n)) == n
  {
    var r := FormatNat(n);
    if n >= 10 {
      DigitsOfFormat(n / 10);
      assert r[..|r| - 1] == FormatNat(n / 10);
    }
  }

  /** A formatted number begins and ends with a character that is not whitespace. */
  lemma FormatIsTrimmed(n: int)
    ensures Trim(FormatInt(n)) == FormatInt(n)
  {
    var s := FormatInt(n);
    assert !IsSpace(s[0]) && !IsSpace(s[|s| - 1]);
    assert TrimStart(s) == s;
    assert TrimEnd(s) == s;
  }

  /**
   * Parsing a formatted 32-bit number gives it back, and formatting leaves nothing for
   * `Trim` to remove: the parent id shown when a dictionary is selected reads back as itself.
   */
  lemma ParseFormatRoundTrip(n: int)
    requires IsInt32(n)
    ensures Trim(FormatInt(n)) == FormatInt(n)
    ensures ParseInt(FormatInt(n)) == Some(n)
  {
    FormatIsTrimmed(n);
    var s := FormatInt(n);
    if n < 0 {
      var body := FormatNat(-n);
      DigitsOfFormat(-n);
      assert s[0] == '-' && s[1..] == body && AllDigits(s[1..]);
      assert DigitsValue(s[1..]) == -n;
    } else {
      DigitsOfFormat(n);
      assert |s| > 0 && AllDigits(s) && DigitsValue(s) == n;
    }
  }
}
