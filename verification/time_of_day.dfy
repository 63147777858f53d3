/** Minute-of-day arithmetic: reading `HH:MM` strings the way the source's `timeToMinutes`
    does (split on ':' and read the first two fields as numbers) and writing a minute value
    back as a zero-padded `HH:MM` label. A malformed field is JavaScript's NaN, modelled as
    `None`. */
module TimeOfDay {
  import opened Types

  const MinutesPerDay: nat := 1440

  predicate IsDigit(c: char)
  {
    '0' <= c <= '9'
  }

  predicate AllDigits(f: string)
  {
    forall i :: 0 <= i < |f| ==> IsDigit(f[i])
  }

  function DigitValue(c: char): (d: nat)
    requires IsDigit(c)
    ensures d < 10
  {
    c as int - '0' as int
  }

  function DigitChar(d: nat): (c: char)
    requires d < 10
    ensures IsDigit(c) && DigitValue(c) == d
  {
    ('0' as int + d) as char
  }

  /** Decimal value of a digit string, most significant digit first; the empty string is 0. */
  function Decimal(f: string): nat
    requires AllDigits(f)
  {
    if |f| == 0 then 0 else 10 * Decimal(f[..|f| - 1]) + DigitValue(f[|f| - 1])
  }

  /** `Number(field)` for fields of decimal digits only (the empty field reads as 0). */
  function FieldValue(f: string): Option<nat>
  {
    if AllDigits(f) then Some(Decimal(f)) else None
  }

  /** Index of the first ':' in `s`, or `|s|` when there is none. */
  function ColonIndex(s: string): (i: nat)
    ensures i <= |s|
    ensures i < |s| ==> s[i] == ':'
    ensures forall j :: 0 <= j < i ==> s[j] != ':'
  {
    if |s| == 0 then 0 else if s[0] == ':' then 0 else 1 + ColonIndex(s[1..])
  }

  /** `timeToMinutes`: hours * 60 + minutes of the first two ':'-separated fields.
      Without a ':' the minutes field is undefined, which reads as NaN. */
  function TimeToMinutes(s: string): Option<nat>
  {
    var i := ColonIndex(s);
    if i == |s| then None
    else
      var rest := s[i + 1..];
      var j := ColonIndex(rest);
      match (FieldValue(s[..i]), FieldValue(rest[..j]))
      case (Some(h), Some(m)) => Some(h * 60 + m)
      case _ => None
  }

  /** `String(n).padStart(2, '0')` for the values the source pads (hours < 24, minutes < 60). */
  function Pad2(n: nat): (r: string)
    requires n < 100
    ensures |r| == 2 && AllDigits(r) && Decimal(r) == n
  {
    var r := [DigitChar(n / 10), DigitChar(n % 10)];
    assert r[..1] == [r[0]] && r[..1][..0] == [];
    assert Decimal(r[..1]) == n / 10;
    r
  }

  /** The label of minute `t` of the grid: hour `floor(t / 60) mod 24`, minute `t mod 60`. */
  function FormatMinutes(t: nat): string
  {
    Pad2((t / 60) % 24) + ":" + Pad2(t % 60)
  }

  /** A string of the exact shape the grid emits: two digits, ':', two digits, in range. */
  predicate WellFormedTime(s: string)
  {
    && |s| == 5 && s[2] == ':'
    && AllDigits(s[..2]) && AllDigits(s[3..])
    && Decimal(s[..2]) < 24 && Decimal(s[3..]) < 60
  }

  /** If `end <= start` the window runs past midnight and `end` gains a day. */
  function NormalizeEnd(start: int, end: int): int
  {
    if end <= start then end + MinutesPerDay else end
  }

  /** A minute count of less than two days wraps at most once. */
  lemma DayWrap(x: int)
    requires 0 <= x < 2 * MinutesPerDay
    ensures x % MinutesPerDay == if x < MinutesPerDay then x else x - MinutesPerDay
  {
    if x >= MinutesPerDay {
      assert x - MinutesPerDay == x % MinutesPerDay by {
        assert x == MinutesPerDay * 1 + (x - MinutesPerDay);
      }
    }
  }

  lemma MinuteSplit(t: nat)
    ensures ((t / 60) % 24) * 60 + t % 60 == t % MinutesPerDay
  {
    var h := t / 60;
    var m := t % 60;
    assert t == 60 * h + m;
    var q := h / 24;
    var hh := h % 24;
    assert h == 24 * q + hh;
    assert t == MinutesPerDay * q + (60 * hh + m);
    assert 0 <= 60 * hh + m < MinutesPerDay;
  }

  lemma ParseLabel(h: nat, m: nat)
    requires h < 100 && m < 100
    ensures TimeToMinutes(Pad2(h) + ":" + Pad2(m)) == Some(h * 60 + m)
  {
    var s := Pad2(h) + ":" + Pad2(m);
    assert s[0] != ':' && s[1] != ':' && s[2] == ':';
    assert ColonIndex(s[2..]) == 0;
    assert ColonIndex(s[1..]) == 1;
    assert ColonIndex(s) == 2;
    var rest := s[3..];
    assert rest == Pad2(m);
    assert rest[0] != ':' && rest[1] != ':';
    assert ColonIndex(rest[2..]) == 0;
    assert ColonIndex(rest[1..]) == 1;
    assert ColonIndex(rest) == 2;
    assert s[..2] == Pad2(h);
    assert rest[..2] == Pad2(m);
  }

  /** Formatting a grid minute and reading the label back yields the minute modulo one day:
      for `t` in [0, 1440) it is `t` itself. */
  lemma FormatThenParse(t: nat)
    ensures TimeToMinutes(FormatMinutes(t)) == Some(t % MinutesPerDay)
  {
    ParseLabel((t / 60) % 24, t % 60);
    MinuteSplit(t);
  }

  lemma Pad2OfDigits(f: string)
    requires |f| == 2 && AllDigits(f)
    ensures Decimal(f) < 100 && Pad2(Decimal(f)) == f
  {
    assert f[..1][..0] == [];
    assert Decimal(f[..1]) == DigitValue(f[0]);
    var d := Decimal(f);
    assert d == 10 * DigitValue(f[0]) + DigitValue(f[1]);
    assert d / 10 == DigitValue(f[0]) && d % 10 == DigitValue(f[1]);
  }

  /** Every well-formed `HH:MM` string reads as `HH * 60 + MM` and is reproduced exactly by
      formatting that value. */
  lemma ParseThenFormat(s: string)
    requires WellFormedTime(s)
    ensures TimeToMinutes(s) == Some(Decimal(s[..2]) * 60 + Decimal(s[3..]))
    ensures FormatMinutes(Decimal(s[..2]) * 60 + Decimal(s[3..])) == s
  {
    var h, m := Decimal(s[..2]), Decimal(s[3..]);
    Pad2OfDigits(s[..2]);
    Pad2OfDigits(s[3..]);
    assert s == Pad2(h) + ":" + Pad2(m);
    ParseLabel(h, m);
    var t := h * 60 + m;
    assert t / 60 == h && t % 60 == m;
    assert (t / 60) % 24 == h;
  }
}
