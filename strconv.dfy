/** The parts of Go's strconv package that the codec relies on, for base 10
    and 64-bit sizes: AppendInt/AppendUint (formatting) and
    ParseInt/ParseUint (parsing, with their ErrSyntax and ErrRange errors). */
module Strconv {
  import opened Common

  const MaxUint64: nat := 0xFFFF_FFFF_FFFF_FFFF
  const MaxInt64: nat := 0x7FFF_FFFF_FFFF_FFFF
  const MinInt64: int := -0x8000_0000_0000_0000

  predicate IsInt64(i: int) {
    MinInt64 <= i <= MaxInt64
  }

  predicate AllDigits(s: bytes) {
    forall i :: 0 <= i < |s| ==> IsDigit(s[i])
  }

  function DigitValue(c: byte): (d: nat)
    requires IsDigit(c)
    ensures d < 10
  {
    c as int - '0' as int
  }

  function DigitChar(d: nat): (c: byte)
    requires d < 10
    ensures IsDigit(c) && DigitValue(c) == d
  {
    ('0' as int + d) as char
  }

  /** The number a string of decimal digits denotes, most significant digit first. */
  function Value(s: bytes): nat
    requires AllDigits(s)
  {
    if s == [] then 0 else 10 * Value(s[..|s| - 1]) + DigitValue(s[|s| - 1])
  }

  /** strconv.AppendUint(nil, n, 10). */
  function FormatUint(n: nat): (r: bytes)
    ensures |r| >= 1
  {
    if n < 10 then [DigitChar(n)] else FormatUint(n / 10) + [DigitChar(n % 10)]
  }

  /** AppendUint writes only digits, with no leading zero. */
  lemma {:induction false} FormatUintDigits(n: nat)
    ensures AllDigits(FormatUint(n))
    ensures FormatUint(n)[0] == '0' ==> n == 0 && FormatUint(n) == "0"
  {
    if n >= 10 {
      FormatUintDigits(n / 10);
      assert FormatUint(n)[0] == FormatUint(n / 10)[0];
    }
  }

  /** strconv.AppendInt(nil, i, 10): a minus sign for negative numbers, then the digits. */
  function FormatInt(i: int): (r: bytes)
    ensures |r| >= 1
  {
    if i < 0 then "-" + FormatUint(-i) else FormatUint(i)
  }

  /** AppendInt starts with a minus sign exactly for negative numbers, and
      otherwise with a digit. */
  lemma FormatIntSign(i: int)
    ensures FormatInt(i)[0] == '-' <==> i < 0
    ensures i >= 0 ==> IsDigit(FormatInt(i)[0])
  {
    FormatUintDigits(if i < 0 then -i else i);
  }

  /** The loop of strconv.ParseUint for base 10 and bit size 64: bytes are
      taken from the left; a non-digit is ErrSyntax and an accumulated value
      above the maximum is ErrRange, whichever is met first. */
  function ScanDigits(s: bytes, i: nat, acc: nat): (r: Result<nat>)
    requires i <= |s| && AllDigits(s[..i]) && acc == Value(s[..i]) && acc <= MaxUint64
    ensures r.Ok? <==> AllDigits(s) && Value(s) <= MaxUint64
    ensures r.Ok? ==> r.value == Value(s)
    ensures r.Err? ==> r.error == InvalidSyntax || r.error == OutOfRange
    decreases |s| - i
  {
    if i == |s| then
      assert s[..i] == s;
      Ok(acc)
    else if !IsDigit(s[i]) then
      Err(InvalidSyntax)
    else
      var next := 10 * acc + DigitValue(s[i]);
      assert s[..i + 1][..i] == s[..i];
      assert next == Value(s[..i + 1]);
      if next > MaxUint64 then
        assert AllDigits(s) ==> Value(s) > MaxUint64 by {
          if AllDigits(s) { ValuePrefix(s, i + 1); }
        }
        Err(OutOfRange)
      else
        ScanDigits(s, i + 1, next)
  }

  /** strconv.ParseUint(s, 10, 64). */
  function ParseUint(s: bytes): (r: Result<nat>)
    ensures r.Ok? <==> |s| > 0 && AllDigits(s) && Value(s) <= MaxUint64
    ensures r.Ok? ==> r.value == Value(s)
    ensures r.Err? ==> r.error == InvalidSyntax || r.error == OutOfRange
  {
    if s == [] then Err(InvalidSyntax) else ScanDigits(s, 0, 0)
  }

  /** strconv.ParseInt(s, 10, 64): an optional '+' or '-' sign, then ParseUint
      of the rest, then the signed 64-bit range check. */
  function ParseInt(s: bytes): (r: Result<int>)
    ensures r.Ok? ==> IsInt64(r.value)
    ensures r.Err? ==> r.error == InvalidSyntax || r.error == OutOfRange
  {
    if s == [] then Err(InvalidSyntax)
    else
      var neg := s[0] == '-';
      var digits := if s[0] == '+' || s[0] == '-' then s[1..] else s;
      match ParseUint(digits)
      case Err(e) => Err(e)
      case Ok(u) =>
        if !neg && u > MaxInt64 then Err(OutOfRange)
        else if neg && u > -MinInt64 then Err(OutOfRange)
        else Ok(if neg then -(u as int) else u as int)
  }

  /** A prefix of a digit string never denotes more than the whole string. */
  lemma {:induction false} ValuePrefix(s: bytes, i: nat)
    requires i <= |s| && AllDigits(s)
    ensures AllDigits(s[..i]) && Value(s[..i]) <= Value(s)
    decreases |s| - i
  {
    if i < |s| {
      ValuePrefix(s, i + 1);
      assert s[..i + 1][..i] == s[..i];
    } else {
      assert s[..i] == s;
    }
  }

  lemma {:induction false} ValueOfFormatUint(n: nat)
    ensures AllDigits(FormatUint(n)) && Value(FormatUint(n)) == n
  {
    FormatUintDigits(n);
    if n >= 10 {
      ValueOfFormatUint(n / 10);
      var r := FormatUint(n);
      assert r[..|r| - 1] == FormatUint(n / 10);
    }
  }

  /** Parsing what AppendUint produced gives the number back. */
  lemma FormatUintRoundTrip(n: nat)
    requires n <= MaxUint64
    ensures ParseUint(FormatUint(n)) == Ok(n)
  {
    ValueOfFormatUint(n);
  }

  /** Parsing what AppendInt produced gives the number back, for every int64. */
  lemma FormatIntRoundTrip(i: int)
    requires IsInt64(i)
    ensures ParseInt(FormatInt(i)) == Ok(i)
  {
    var r := FormatInt(i);
    FormatIntSign(i);
    if i < 0 {
      assert r[1..] == FormatUint(-i);
      FormatUintRoundTrip(-i);
    } else {
      FormatUintRoundTrip(i);
    }
  }

  /** ParseUint accepts no sign: a literal starting with '-' or '+' is ErrSyntax. */
  lemma ParseUintRejectsSign(s: bytes)
    requires |s| > 0 && (s[0] == '-' || s[0] == '+')
    ensures ParseUint(s) == Err(InvalidSyntax)
  {
  }

  /** ParseInt is lenient where bencode is strict: leading zeros, a '+' sign
      and "-0" are all accepted. */
  lemma ParseIntIsLenient()
    ensures ParseInt("007") == Ok(7)
    ensures ParseInt("+5") == Ok(5)
    ensures ParseInt("-0") == Ok(0)
  {
    assert "+5"[1..] == "5";
    assert ParseUint("5") == Ok(5);
    assert "-0"[1..] == "0";
  }
}
