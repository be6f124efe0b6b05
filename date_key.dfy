/** The date key under which an entry is stored: `year-month-day` with a
    one-based month and no zero padding (`2024-3-7`), and date equality that
    compares year, month and day only. */
module DateKey {
  import opened Calendar

  datatype Option<T> = None | Some(value: T)

  predicate IsDigit(c: char) {
    '0' <= c <= '9'
  }

  predicate AllDigits(s: string) {
    forall i :: 0 <= i < |s| ==> IsDigit(s[i])
  }

  function Digit(n: nat): (c: char)
    requires n < 10
    ensures IsDigit(c)
  {
    ('0' as int + n) as char
  }

  /** Decimal digits of n, most significant first, without leading zeros:
      what a JavaScript template literal prints for a non-negative integer. */
  function NatToString(n: nat): (s: string)
    ensures |s| >= 1 && AllDigits(s)
    ensures n >= 10 ==> s[0] != '0'
  {
    if n < 10 then [Digit(n)]
    else NatToString(n / 10) + [Digit(n % 10)]
  }

  /** What a JavaScript template literal prints for an integer. */
  function IntToString(i: int): string {
    if i < 0 then "-" + NatToString(-i) else NatToString(i)
  }

  /** The value of a string of decimal digits. */
  function ParseNat(s: string): nat
    requires AllDigits(s)
  {
    if s == [] then 0
    else 10 * ParseNat(s[..|s| - 1]) + (s[|s| - 1] as int - '0' as int)
  }

  /** Splits s at every '-'; there is always at least one piece. */
  function Split(s: string): (parts: seq<string>)
    ensures |parts| >= 1
  {
    if s == [] then [[]]
    else
      var rest := Split(s[1..]);
      if s[0] == '-' then [[]] + rest
      else [[s[0]] + rest[0]] + rest[1..]
  }

  /** formatDateKey: `${getFullYear()}-${getMonth() + 1}-${getDate()}`. */
  function Encode(d: Date): string {
    IntToString(d.year) + "-" + NatToString(d.month + 1) + "-" + NatToString(d.day)
  }

  /** Reads a key back into the valid date it names, if it names one. */
  function Decode(key: string): Option<Date> {
    if |key| > 0 && key[0] == '-' then DecodeFields(true, Split(key[1..]))
    else DecodeFields(false, Split(key))
  }

  /** The date named by the three '-'-separated fields of a key, if any. */
  function DecodeFields(negative: bool, parts: seq<string>): Option<Date> {
    if |parts| == 3 && AllDigits(parts[0]) && AllDigits(parts[1]) && AllDigits(parts[2])
       && ParseNat(parts[1]) >= 1 then
      var y: int := ParseNat(parts[0]);
      var d := Date(if negative then -y else y, ParseNat(parts[1]) - 1, ParseNat(parts[2]));
      if ValidDate(d) then Some(d) else None
    else None
  }

  /** isSameDate: the year, the month and the day agree. */
  predicate SameDate(a: Date, b: Date) {
    a.year == b.year && a.month == b.month && a.day == b.day
  }

  lemma {:induction false} ParseNatToString(n: nat)
    ensures ParseNat(NatToString(n)) == n
  {
    if n >= 10 {
      var s := NatToString(n);
      assert s[..|s| - 1] == NatToString(n / 10);
      ParseNatToString(n / 10);
    }
  }

  lemma {:induction false} SplitNoDash(a: string)
    requires '-' !in a
    ensures Split(a) == [a]
  {
    if a != [] {
      assert '-' !in a[1..] by {
        assert forall i :: 0 <= i < |a[1..]| ==> a[1..][i] == a[i + 1];
      }
      SplitNoDash(a[1..]);
      assert [a[0]] + a[1..] == a;
    }
  }

  lemma {:induction false} SplitAtDash(a: string, t: string)
    requires '-' !in a
    ensures Split(a + "-" + t) == [a] + Split(t)
  {
    var s := a + "-" + t;
    if a == [] {
      assert s[1..] == t;
    } else {
      assert s[1..] == a[1..] + "-" + t;
      SplitAtDash(a[1..], t);
      assert [a[0]] + a[1..] == a;
    }
  }

  lemma DigitsNoDash(s: string)
    requires AllDigits(s)
    ensures '-' !in s
  {
  }

  /** A key made of three digit strings splits back into them. */
  lemma {:induction false} SplitKey(y: string, m: string, dd: string)
    requires AllDigits(y) && AllDigits(m) && AllDigits(dd)
    ensures Split(y + "-" + m + "-" + dd) == [y, m, dd]
  {
    DigitsNoDash(y);
    DigitsNoDash(m);
    DigitsNoDash(dd);
    assert y + "-" + m + "-" + dd == y + "-" + (m + "-" + dd);
    SplitAtDash(y, m + "-" + dd);
    SplitAtDash(m, dd);
    SplitNoDash(dd);
  }

  lemma {:induction false} DecodeFieldsOfKey(d: Date)
    requires ValidDate(d)
    ensures DecodeFields(d.year < 0, [NatToString(if d.year < 0 then -d.year else d.year),
                                      NatToString(d.month + 1), NatToString(d.day)]) == Some(d)
  {
    ParseNatToString(if d.year < 0 then -d.year else d.year);
    ParseNatToString(d.month + 1);
    ParseNatToString(d.day);
  }

  /** Reading a valid date's key gives back that date. */
  lemma {:induction false} DecodeEncode(d: Date)
    requires ValidDate(d)
    ensures Decode(Encode(d)) == Some(d)
  {
    var y := NatToString(if d.year < 0 then -d.year else d.year);
    var m, dd := NatToString(d.month + 1), NatToString(d.day);
    SplitKey(y, m, dd);
    DecodeFieldsOfKey(d);
    if d.year < 0 {
      SignedKeyTail(y, m, dd);
    } else {
      assert Encode(d)[0] == y[0];
    }
  }

  /** Dropping the sign of a negative year's key leaves three digit fields. */
  lemma {:induction false} SignedKeyTail(y: string, m: string, dd: string)
    ensures ("-" + y + "-" + m + "-" + dd)[1..] == y + "-" + m + "-" + dd
  {
    var key := "-" + y + "-" + m + "-" + dd;
    forall i | 0 <= i < |key| - 1
      ensures key[1..][i] == (y + "-" + m + "-" + dd)[i]
    {
    }
  }

  /** Distinct valid dates get distinct keys. */
  lemma {:induction false} EncodeInjective(a: Date, b: Date)
    requires ValidDate(a) && ValidDate(b)
    ensures Encode(a) == Encode(b) <==> a == b
  {
    DecodeEncode(a);
    DecodeEncode(b);
  }

  /** isSameDate holds exactly when the two dates are equal, which is exactly
      when their keys are equal. */
  lemma {:induction false} SameDateIffSameKey(a: Date, b: Date)
    requires ValidDate(a) && ValidDate(b)
    ensures SameDate(a, b) <==> a == b
    ensures SameDate(a, b) <==> Encode(a) == Encode(b)
  {
    EncodeInjective(a, b);
  }
}
