/** Cell values of the pandas tables the handlers work on, and the small
    calendar and number-formatting facts the handlers rely on. */
module Values {

  datatype Option<T> = None | Some(value: T)

  datatype Result<T> = Ok(value: T) | Err(msg: string)

  /** A pandas Timestamp without time zone. */
  datatype Stamp = Stamp(year: int, month: int, day: int, hour: int, minute: int, second: int)

  /** One dynamically typed cell. `Missing` stands for NaN, NaT and None and is
      distinct from `Num(0.0)` and from `Str("")`. Integers and floats share
      `Num`, because pandas compares them numerically (`56 == 56.0`) and a
      Python dict does not tell them apart as keys. */
  datatype Value = Missing | Num(x: real) | Str(s: string) | Time(t: Stamp)

  /** `pd.isna` */
  predicate IsNA(v: Value) { v.Missing? }

  /** `series == 0` on a numeric column; a string "0" or a missing cell is not 0. */
  predicate IsZero(v: Value) { v == Num(0.0) }

  /** `Series.replace(lut)` on one cell: a cell equal to a key is replaced,
      every other cell is kept. */
  function Replace(v: Value, lut: map<Value, Value>): Value
  {
    if v in lut then lut[v] else v
  }

  /** `lut.get(v, default)` for a lookup table of ids. */
  function GetOr(lut: map<Value, int>, v: Value, default: int): int
  {
    if v in lut then lut[v] else default
  }

  // ---------------------------------------------------------------------------
  // Calendar

  predicate IsLeapYear(y: int)
  {
    (y % 4 == 0 && y % 100 != 0) || y % 400 == 0
  }

  function DaysInMonth(y: int, m: int): (n: int)
    requires 1 <= m <= 12
    ensures 28 <= n <= 31
    ensures n == 29 <==> m == 2 && IsLeapYear(y)
  {
    if m == 2 then (if IsLeapYear(y) then 29 else 28)
    else if m == 4 || m == 6 || m == 9 || m == 11 then 30
    else 31
  }

  /** A day of the proleptic Gregorian calendar. */
  predicate IsValidDate(y: int, m: int, d: int)
  {
    1 <= m <= 12 && 1 <= d <= DaysInMonth(y, m)
  }

  /** The integer a numeric cell holds, if it holds one. */
  function AsInt(v: Value): (r: Option<int>)
    ensures r.Some? <==> v.Num? && v.x == v.x.Floor as real
    ensures r.Some? ==> v == Num(r.value as real)
  {
    if v.Num? && v.x == v.x.Floor as real then Some(v.x.Floor) else None
  }

  /** `pd.to_datetime(df[['YEAR', 'MONTH', 'DAY']], errors='coerce')` on one
      row: the midnight of that day, or nothing when a part is missing, not
      whole, or the three do not name a day. */
  function AssembleDate(year: Value, month: Value, day: Value): Option<Stamp>
  {
    match (AsInt(year), AsInt(month), AsInt(day))
    case (Some(y), Some(m), Some(d)) =>
      if IsValidDate(y, m, d) then Some(Stamp(y, m, d, 0, 0, 0)) else None
    case _ => None
  }

  lemma AssembleDateSpec(y: int, m: int, d: int)
    ensures AssembleDate(Num(y as real), Num(m as real), Num(d as real)) ==
            (if IsValidDate(y, m, d) then Some(Stamp(y, m, d, 0, 0, 0)) else None)
  {
    assert AsInt(Num(y as real)) == Some(y);
    assert AsInt(Num(m as real)) == Some(m);
    assert AsInt(Num(d as real)) == Some(d);
  }

  lemma AssembleDateNeedsAllParts(year: Value, month: Value, day: Value)
    ensures AssembleDate(year, month, day).Some? ==>
              !year.Missing? && !month.Missing? && !day.Missing?
    ensures AssembleDate(year, month, day).Some? ==>
              var s := AssembleDate(year, month, day).value;
              year == Num(s.year as real) && month == Num(s.month as real) &&
              day == Num(s.day as real) && IsValidDate(s.year, s.month, s.day)
  {
  }

  // ---------------------------------------------------------------------------
  // Decimal formatting of integers (Python's `str` of an int)

  function DigitChar(d: int): char
    requires 0 <= d < 10
  {
    "0123456789"[d]
  }

  function NatToString(n: nat): (s: string)
    ensures |s| > 0
    ensures forall i :: 0 <= i < |s| ==> '0' <= s[i] <= '9'
    decreases n
  {
    if n < 10 then [DigitChar(n)] else NatToString(n / 10) + [DigitChar(n % 10)]
  }

  function IntToString(i: int): (s: string)
    ensures |s| > 0
  {
    if i < 0 then "-" + NatToString(-i) else NatToString(i)
  }

  function DigitValue(c: char): int
    requires '0' <= c <= '9'
  {
    c as int - '0' as int
  }

  /** Reads back a string of decimal digits. */
  function DigitsValue(s: string): int
    requires forall i :: 0 <= i < |s| ==> '0' <= s[i] <= '9'
  {
    if s == [] then 0 else DigitsValue(s[..|s| - 1]) * 10 + DigitValue(s[|s| - 1])
  }

  predicate IsDigits(s: string)
  {
    |s| > 0 && forall i :: 0 <= i < |s| ==> '0' <= s[i] <= '9'
  }

  /** Inverse of `IntToString`: `int(s)` for an optionally signed digit string. */
  function ParseInt(s: string): Option<int>
  {
    if |s| > 0 && s[0] == '-' && IsDigits(s[1..]) then Some(-DigitsValue(s[1..]))
    else if IsDigits(s) then Some(DigitsValue(s))
    else None
  }

  lemma {:induction false} NatToStringRoundTrip(n: nat)
    ensures IsDigits(NatToString(n)) && DigitsValue(NatToString(n)) == n
    decreases n
  {
    if n < 10 {
      assert DigitValue(DigitChar(n)) == n;
      assert NatToString(n)[..0] == [];
    } else {
      NatToStringRoundTrip(n / 10);
      var s := NatToString(n);
      assert s[..|s| - 1] == NatToString(n / 10);
      assert DigitValue(DigitChar(n % 10)) == n % 10;
    }
  }

  lemma ParseIntOfDigits(d: string)
    requires IsDigits(d)
    ensures ParseInt(d) == Some(DigitsValue(d)) && ParseInt("-" + d) == Some(-DigitsValue(d))
  {
    assert d[0] != '-';
    var s := "-" + d;
    assert s[0] == '-' && s[1..] == d;
  }

  lemma IntToStringRoundTrip(i: int)
    ensures ParseInt(IntToString(i)) == Some(i)
  {
    var d := NatToString(if i < 0 then -i else i);
    NatToStringRoundTrip(if i < 0 then -i else i);
    ParseIntOfDigits(d);
  }
}
