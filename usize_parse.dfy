/** `usize::from_str` (Rust's `str::parse::<usize>()`), which the parser uses
    for the age field, together with `ToDecimal`, the canonical decimal text
    of a number (`n.to_string()`), as its inverse. */
module UsizeParse {
  import opened Wrappers

  /** `usize::MAX`, taken on a 64-bit target. */
  const USIZE_MAX: nat := 0xFFFF_FFFF_FFFF_FFFF

  type Usize = n: nat | n <= USIZE_MAX

  predicate IsDigit(c: char)
  {
    '0' <= c <= '9'
  }

  predicate AllDigits(s: string)
  {
    forall k :: 0 <= k < |s| ==> IsDigit(s[k])
  }

  function DigitValue(c: char): (d: nat)
    requires IsDigit(c)
    ensures d < 10
  {
    c as int - '0' as int
  }

  function DigitChar(d: nat): (c: char)
    requires d < 10
    ensures IsDigit(c) && DigitValue(c) == d
  {
    ('0' as int + d) as char
  }

  /** The value of a string of decimal digits, most significant first. */
  function DecimalValue(ds: string): nat
    requires AllDigits(ds)
    decreases |ds|
  {
    if ds == [] then 0
    else DecimalValue(ds[..|ds| - 1]) * 10 + DigitValue(ds[|ds| - 1])
  }

  /** The text left once one optional leading `+` is taken off. */
  function Unsigned(s: string): string
  {
    if |s| > 0 && s[0] == '+' then s[1..] else s
  }

  /** `s.parse::<usize>()`: fails on the empty text, on a lone `+`, on any
      character other than a decimal digit apart from one leading `+` (so on
      every `-`), and on a value above `USIZE_MAX`. Whitespace is not
      trimmed and leading zeros are accepted. */
  function ParseUsize(s: string): (r: Option<Usize>)
    ensures r.Some? ==> s != [] && s != "+"
    ensures r.Some? ==> forall k :: 0 <= k < |s| ==> IsDigit(s[k]) || (k == 0 && s[k] == '+')
    ensures r.Some? ==> AllDigits(Unsigned(s)) && r.value == DecimalValue(Unsigned(s))
    ensures r.None? ==>
      Unsigned(s) == [] || !AllDigits(Unsigned(s)) || DecimalValue(Unsigned(s)) > USIZE_MAX
  {
    var ds := Unsigned(s);
    if ds == [] || !AllDigits(ds) then None
    else if DecimalValue(ds) <= USIZE_MAX then Some(DecimalValue(ds))
    else None
  }

  /** The decimal text of `n`, with no sign and no leading zero. */
  function ToDecimal(n: nat): (s: string)
    ensures s != [] && AllDigits(s) && DecimalValue(s) == n
    ensures s[0] == '0' ==> n == 0
    decreases n
  {
    if n < 10 then [DigitChar(n)]
    else
      var front := ToDecimal(n / 10);
      assert (front + [DigitChar(n % 10)])[..|front|] == front;
      front + [DigitChar(n % 10)]
  }

  /** Parsing the decimal text of a number gives the number back exactly when
      it fits in a `usize`; otherwise the parse overflows. */
  lemma ParseToDecimal(n: nat)
    ensures ParseUsize(ToDecimal(n)) == if n <= USIZE_MAX then Some(n) else None
  {
  }

  /** The empty text and a lone `+` are rejected. */
  lemma ParseEmpty()
    ensures ParseUsize("") == None
    ensures ParseUsize("+") == None
  {
  }

  /** A character that is not a digit rejects the text, unless it is a `+` in
      the first position; in particular every `-` is rejected. */
  lemma ParseRejectsNonDigit(s: string, k: nat)
    requires k < |s| && !IsDigit(s[k])
    requires k > 0 || s[k] != '+'
    ensures ParseUsize(s) == None
  {
    var ds := Unsigned(s);
    if |s| > 0 && s[0] == '+' {
      assert ds[k - 1] == s[k];
    } else {
      assert ds[k] == s[k];
    }
  }

  /** One leading `+` is accepted and changes nothing; a second is not. */
  lemma ParsePlus(t: string)
    ensures ParseUsize(['+'] + t) == if |t| > 0 && t[0] == '+' then None else ParseUsize(t)
  {
    assert (['+'] + t)[1..] == t;
    if |t| > 0 && t[0] == '+' {
      assert !IsDigit(t[0]);
    }
  }

  /** A digit string whose first digit is not zero has a positive value. */
  lemma {:induction false} LeadingNonZero(ds: string)
    requires ds != [] && AllDigits(ds) && ds[0] != '0'
    ensures DecimalValue(ds) >= 1
    decreases |ds|
  {
    if |ds| > 1 {
      LeadingNonZero(ds[..|ds| - 1]);
    }
  }

  /** Prepending `0` to a digit string does not change its value. */
  lemma {:induction false} LeadingZero(ds: string)
    requires AllDigits(ds)
    ensures AllDigits(['0'] + ds) && DecimalValue(['0'] + ds) == DecimalValue(ds)
    decreases |ds|
  {
    if ds != [] {
      var init := ds[..|ds| - 1];
      LeadingZero(init);
      assert (['0'] + ds)[..|ds|] == ['0'] + init;
    }
  }

  /** A leading `0` changes no parse of a non-empty text that does not
      start with `+`. */
  lemma ParseLeadingZero(ds: string)
    requires ds != [] && ds[0] != '+'
    ensures ParseUsize(['0'] + ds) == ParseUsize(ds)
  {
    assert (['0'] + ds)[0] == '0';
    if AllDigits(ds) {
      LeadingZero(ds);
    } else {
      var k :| 0 <= k < |ds| && !IsDigit(ds[k]);
      assert (['0'] + ds)[k + 1] == ds[k];
    }
  }

  /** A digit string with no leading zero is the decimal text of its value:
      `ToDecimal` is the inverse of `DecimalValue` on canonical digit strings. */
  lemma {:induction false} CanonicalDigits(ds: string)
    requires ds != [] && AllDigits(ds) && (ds[0] == '0' ==> |ds| == 1)
    ensures ToDecimal(DecimalValue(ds)) == ds
    decreases |ds|
  {
    var last := ds[|ds| - 1];
    if |ds| == 1 {
      assert DigitChar(DigitValue(last)) == last;
    } else {
      var init := ds[..|ds| - 1];
      CanonicalDigits(init);
      LeadingNonZero(init);
      var v := DecimalValue(ds);
      assert v / 10 == DecimalValue(init) && v % 10 == DigitValue(last);
      assert DigitChar(DigitValue(last)) == last;
      assert ds == init + [last];
    }
  }

  /** A number parsed from a canonical digit string (no sign, no leading
      zero) formats back to that same string. */
  lemma ParseCanonical(ds: string, v: Usize)
    requires ds != [] && AllDigits(ds) && (ds[0] == '0' ==> |ds| == 1)
    requires ParseUsize(ds) == Some(v)
    ensures ToDecimal(v) == ds
  {
    CanonicalDigits(ds);
  }
}
