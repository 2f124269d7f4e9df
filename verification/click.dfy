/**
 The click parameter types the library hands to its list and key/value types
 as item converters: click.STRING, click.INT, or any other converter, seen
 only through what it returns or raises for one string.
 */
module Click {
  import opened Wrappers
  import opened Py

  /** An item converter (`item_type` in the library). */
  datatype ParamType =
    | StringType
    | IntType
      /** any other converter, such as click.Path or a user-defined type */
    | CustomType(convert: string -> Outcome)
  {
    /** `item_type.convert(item, param, ctx)` for one string item. */
    function Convert(item: string): (r: Outcome)
      ensures StringType? ==> r == Returned(PyStr(item))
      ensures IntType? ==> (r.Returned? <==> ParseInt(item).Some?)
      ensures IntType? && r.Returned? ==> r.value == PyInt(ParseInt(item).value)
      ensures IntType? && r.Raised? ==> r.error == BadParameter
    {
      match this
      case StringType => Returned(PyStr(item))
      case IntType =>
        (match ParseInt(item)
         case Some(n) => Returned(PyInt(n))
         case None => Raised(BadParameter))
      case CustomType(f) => f(item)
    }
  }

  predicate IsDigit(c: char) { '0' <= c <= '9' }

  predicate AllDigits(s: string)
  {
    forall i :: 0 <= i < |s| ==> IsDigit(s[i])
  }

  /** The value of a string of decimal digits, most significant first. */
  function DigitsValue(ds: string): (n: nat)
    requires AllDigits(ds)
    decreases |ds|
  {
    if |ds| == 0 then 0
    else DigitsValue(ds[..|ds| - 1]) * 10 + (ds[|ds| - 1] as int - '0' as int)
  }

  /** `int(s)` for an optionally signed run of ASCII decimal digits. */
  function ParseInt(s: string): Option<int>
  {
    if |s| > 0 && (s[0] == '-' || s[0] == '+') then
      if |s| > 1 && AllDigits(s[1..]) then
        var n: int := DigitsValue(s[1..]);
        Some(if s[0] == '-' then -n else n)
      else None
    else if |s| > 0 && AllDigits(s) then Some(DigitsValue(s))
    else None
  }

  function DigitChar(d: nat): (c: char)
    requires d < 10
    ensures IsDigit(c) && c as int - '0' as int == d
  {
    ('0' as int + d) as char
  }

  /** The decimal digits of `n`, as `str(n)` writes a non-negative int. */
  function ShowNat(n: nat): (s: string)
    ensures |s| > 0 && AllDigits(s)
  {
    if n < 10 then [DigitChar(n)] else ShowNat(n / 10) + [DigitChar(n % 10)]
  }

  /** `str(n)` for any int. */
  function ShowInt(n: int): string
  {
    if n < 0 then "-" + ShowNat(-n) else ShowNat(n)
  }

  lemma {:induction false} DigitsOfShowNat(n: nat)
    ensures DigitsValue(ShowNat(n)) == n
  {
    var s := ShowNat(n);
    if n >= 10 {
      DigitsOfShowNat(n / 10);
      assert s[..|s| - 1] == ShowNat(n / 10);
    }
  }

  /** click.INT reads back what `str` writes: converting the decimal text of
      any int gives that int. */
  lemma IntTypeRoundTrip(n: int)
    ensures IntType.Convert(ShowInt(n)) == Returned(PyInt(n))
  {
    var s := ShowInt(n);
    if n < 0 {
      DigitsOfShowNat(-n);
      assert s[1..] == ShowNat(-n);
    } else {
      DigitsOfShowNat(n);
    }
  }
}
