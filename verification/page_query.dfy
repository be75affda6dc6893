/**
 The page number of `GET /api/todos?page=…`: JavaScript's `parseInt` applied to
 the query value, with `|| 1` replacing NaN and zero. `parseInt` without a
 radix skips leading white space, reads an optional sign, switches to base 16
 after a `0x`/`0X` prefix, and reads the longest run of digits that follows;
 with no digit at all it yields NaN, modelled as `None`.
 */
module PageQuery {
  import opened Common

  /** The white-space and line-terminator characters `parseInt` skips before the number. */
  predicate IsSpace(c: char) {
    var n := c as int;
    || n == 0x09 || n == 0x0A || n == 0x0B || n == 0x0C || n == 0x0D || n == 0x20
    || n == 0xA0 || n == 0x1680 || (0x2000 <= n <= 0x200A) || n == 0x2028 || n == 0x2029
    || n == 0x202F || n == 0x205F || n == 0x3000 || n == 0xFEFF
  }

  function TrimStart(s: string): (r: string)
    ensures |r| <= |s| && r == s[|s| - |r|..]
    ensures |r| > 0 ==> !IsSpace(r[0])
    ensures forall i :: 0 <= i < |s| - |r| ==> IsSpace(s[i])
  {
    if |s| > 0 && IsSpace(s[0]) then TrimStart(s[1..]) else s
  }

  /** Value of a digit character in bases up to 36; 36 for anything that is no digit. */
  function DigitValue(c: char): (d: nat)
    ensures d <= 36
  {
    if '0' <= c <= '9' then c as int - '0' as int
    else if 'a' <= c <= 'z' then c as int - 'a' as int + 10
    else if 'A' <= c <= 'Z' then c as int - 'A' as int + 10
    else 36
  }

  predicate IsDigit(c: char, radix: nat) {
    DigitValue(c) < radix
  }

  /** Length of the longest prefix of `s` made of digits of the given radix. */
  function DigitRun(s: string, radix: nat): (n: nat)
    ensures n <= |s|
    ensures forall i :: 0 <= i < n ==> IsDigit(s[i], radix)
    ensures n < |s| ==> !IsDigit(s[n], radix)
  {
    if |s| == 0 || !IsDigit(s[0], radix) then 0 else 1 + DigitRun(s[1..], radix)
  }

  /** The number a string of digits denotes, most significant digit first. */
  function DigitsValue(ds: string, radix: nat): nat
  {
    if |ds| == 0 then 0
    else DigitsValue(ds[..|ds| - 1], radix) * radix + DigitValue(ds[|ds| - 1])
  }

  /** The text after an optional leading sign. */
  function Unsigned(t: string): string
  {
    if |t| > 0 && (t[0] == '-' || t[0] == '+') then t[1..] else t
  }

  /** `0x` or `0X`: the digits that follow are hexadecimal. */
  predicate HexPrefix(u: string) {
    |u| >= 2 && u[0] == '0' && (u[1] == 'x' || u[1] == 'X')
  }

  function Radix(u: string): nat {
    if HexPrefix(u) then 16 else 10
  }

  /** The text where the digits start: after the `0x` prefix, if any. */
  function DigitsStart(u: string): string
  {
    if HexPrefix(u) then u[2..] else u
  }

  /** The number the digits at the start of `u` denote, after an optional `0x`; `None` without a digit. */
  function Magnitude(u: string): Option<nat>
  {
    var v := DigitsStart(u);
    var n := DigitRun(v, Radix(u));
    if n == 0 then None else Some(DigitsValue(v[..n], Radix(u)))
  }

  /**
   `parseInt(s)` with no radix argument; `None` stands for NaN. A number is
   read only where a decimal digit occurs: a hexadecimal one needs its `0x`.
   */
  function ParseInt(s: string): Option<int>
  {
    var t := TrimStart(s);
    match Magnitude(Unsigned(t))
    case None => None
    case Some(m) =>
      var magnitude: int := m;
      Some(if |t| > 0 && t[0] == '-' then -magnitude else magnitude)
  }

  /** `parseInt(req.query.page) || 1`; an absent parameter is `undefined`, which parses to NaN. */
  function PageNumber(query: Option<string>): (p: int)
    ensures p != 0
    ensures query.None? ==> p == 1
    ensures query.Some? && ParseInt(query.value).None? ==> p == 1
    ensures p != 1 ==> query.Some? && ParseInt(query.value) == Some(p)
    ensures query.Some? && ParseInt(query.value) == Some(0) ==> p == 1
    ensures query.Some? && ParseInt(query.value).Some? && ParseInt(query.value).value != 0 ==>
              p == ParseInt(query.value).value
  {
    if query.None? then 1
    else
      match ParseInt(query.value)
      case None => 1
      case Some(n) => if n == 0 then 1 else n
  }

  /** The decimal numeral of `n`, as the client writes it into `?page=`. */
  function Decimal(n: nat): (s: string)
    ensures |s| > 0
    ensures forall i :: 0 <= i < |s| ==> '0' <= s[i] <= '9'
    decreases n
  {
    var digit := ['0' + (n % 10) as char];
    if n < 10 then digit else Decimal(n / 10) + digit
  }

  /** A string of decimal digits (at least one) is a whole decimal digit run. */
  lemma {:induction false} DecimalDigitRun(s: string)
    requires forall i :: 0 <= i < |s| ==> '0' <= s[i] <= '9'
    ensures DigitRun(s, 10) == |s|
  {
    if |s| > 0 {
      DecimalDigitRun(s[1..]);
    }
  }

  /** The digits of `Decimal(n)` denote `n` again. */
  lemma {:induction false} DecimalValue(n: nat)
    ensures DigitsValue(Decimal(n), 10) == n
    decreases n
  {
    var s := Decimal(n);
    if n >= 10 {
      DecimalValue(n / 10);
      assert s[..|s| - 1] == Decimal(n / 10);
    }
  }

  /** A numeral of decimal digits has the magnitude its digits denote in base 10. */
  lemma DecimalMagnitude(d: string)
    requires |d| > 0 && forall i :: 0 <= i < |d| ==> '0' <= d[i] <= '9'
    ensures Magnitude(d) == Some(DigitsValue(d, 10))
  {
    if |d| >= 2 {
      assert '0' <= d[1] <= '9';
    }
    assert !HexPrefix(d);
    DecimalDigitRun(d);
    assert d[..|d|] == d;
  }

  /** Text that starts with a decimal digit is read from its first character. */
  lemma ParseUnsigned(d: string, m: nat)
    requires |d| > 0 && '0' <= d[0] <= '9' && Magnitude(d) == Some(m)
    ensures ParseInt(d) == Some(m)
  {
    assert !IsSpace(d[0]);
    assert TrimStart(d) == d;
    assert Unsigned(d) == d;
  }

  /** A minus sign negates the magnitude of the text it precedes. */
  lemma ParseMinus(d: string, m: nat)
    requires Magnitude(d) == Some(m)
    ensures ParseInt(['-'] + d) == Some(-(m as int))
  {
    var s := ['-'] + d;
    assert s[0] == '-' && s[1..] == d;
    assert TrimStart(s) == s;
    assert Unsigned(s) == d;
  }

  /** Round trip: parsing the decimal numeral of `n` gives back `n`. */
  lemma ParseDecimal(n: nat)
    ensures ParseInt(Decimal(n)) == Some(n)
  {
    DecimalMagnitude(Decimal(n));
    DecimalValue(n);
    ParseUnsigned(Decimal(n), n);
  }

  /** A positive page number written in decimal is read back unchanged. */
  lemma PageOfDecimal(n: nat)
    requires n >= 1
    ensures PageNumber(Some(Decimal(n))) == n
  {
    ParseDecimal(n);
  }

  /** `parseInt` reads a number only where a decimal digit occurs. */
  lemma ParseNeedsDecimalDigit(s: string)
    ensures ParseInt(s).Some? ==> exists i :: 0 <= i < |s| && '0' <= s[i] <= '9'
  {
    var u := Unsigned(TrimStart(s));
    if ParseInt(s).Some? {
      assert s[|s| - |u|] == u[0];
    }
  }

  /** A string with no decimal digit anywhere ("abc", "NaN", "undefined") reads as page 1. */
  lemma NonNumericIsFirstPage(s: string)
    requires forall i :: 0 <= i < |s| ==> !('0' <= s[i] <= '9')
    ensures ParseInt(s).None?
    ensures PageNumber(Some(s)) == 1
  {
    ParseNeedsDecimalDigit(s);
  }

  /** A minus sign before the decimal numeral of `n` reads as `-n`. */
  lemma ParseNegativeDecimal(n: nat)
    ensures ParseInt(['-'] + Decimal(n)) == Some(-(n as int))
  {
    DecimalMagnitude(Decimal(n));
    DecimalValue(n);
    ParseMinus(Decimal(n), n);
  }

  /** `?page=-n` passes `|| 1` unchanged: the page number is negative. */
  lemma PageOfNegativeDecimal(n: nat)
    requires n >= 1
    ensures PageNumber(Some(['-'] + Decimal(n))) == -(n as int)
  {
    ParseNegativeDecimal(n);
  }
}
