/**
 * Naive Python `datetime` values, their chronological comparison, and the
 * ISO 8601 extended date-time text that `datetime.isoformat()` writes and
 * `datetime.fromisoformat()` reads back (ISO 8601-1:2019, section 5.4).
 */
module IsoTime {
  import opened Wrappers

  /** The fields of a naive datetime, from the most to the least significant. */
  datatype DateTime = DateTime(year: int, month: int, day: int,
                               hour: int, minute: int, second: int, microsecond: int)
  {
    /** The range Python's `datetime` constructor accepts. */
    predicate Valid() {
      && 1 <= year <= 9999
      && 1 <= month <= 12
      && 1 <= day <= DaysInMonth(year, month)
      && 0 <= hour < 24
      && 0 <= minute < 60
      && 0 <= second < 60
      && 0 <= microsecond < 1000000
    }
  }

  /** A datetime value that Python can actually hold. */
  type Instant = d: DateTime | d.Valid() witness DateTime(1, 1, 1, 0, 0, 0, 0)

  predicate IsLeapYear(y: int) {
    y % 4 == 0 && (y % 100 != 0 || y % 400 == 0)
  }

  function DaysInMonth(y: int, m: int): int
    requires 1 <= m <= 12
  {
    if m == 2 then (if IsLeapYear(y) then 29 else 28)
    else if m == 4 || m == 6 || m == 9 || m == 11 then 30
    else 31
  }

  // ---------------------------------------------------------------------
  // Comparison
  // ---------------------------------------------------------------------

  /**
   * Python's `a > b` on naive datetimes: the first field, from the year down
   * to the microsecond, in which the two differ decides.
   */
  predicate Later(a: DateTime, b: DateTime): (r: bool)
    ensures r ==> a != b && a.year >= b.year
  {
    if a.year != b.year then a.year > b.year
    else if a.month != b.month then a.month > b.month
    else if a.day != b.day then a.day > b.day
    else if a.hour != b.hour then a.hour > b.hour
    else if a.minute != b.minute then a.minute > b.minute
    else if a.second != b.second then a.second > b.second
    else a.microsecond > b.microsecond
  }

  /** No datetime is later than itself. */
  lemma LaterIrreflexive(a: DateTime)
    ensures !Later(a, a)
  {
  }

  lemma LaterTransitive(a: DateTime, b: DateTime, c: DateTime)
    requires Later(a, b) && Later(b, c)
    ensures Later(a, c)
  {
  }

  /** Two different datetimes are ordered one way or the other. */
  lemma LaterTotal(a: DateTime, b: DateTime)
    requires a != b
    ensures Later(a, b) || Later(b, a)
  {
  }

  // ---------------------------------------------------------------------
  // Fixed-width decimal fields
  // ---------------------------------------------------------------------

  predicate IsDigit(c: char) {
    '0' <= c <= '9'
  }

  function DigitChar(n: int): (c: char)
    requires 0 <= n < 10
    ensures IsDigit(c) && c as int - '0' as int == n
  {
    ('0' as int + n) as char
  }

  function Pow10(n: nat): (r: nat)
    ensures r > 0
  {
    if n == 0 then 1 else 10 * Pow10(n - 1)
  }

  /** The `width` low-order decimal digits of `n`, zero-padded; equal to `%0*d` when `n < 10^width`. */
  function Digits(n: nat, width: nat): (s: string)
    ensures |s| == width
  {
    if width == 0 then "" else Digits(n / 10, width - 1) + [DigitChar(n % 10)]
  }

  /** Every character `Digits` writes is a decimal digit. */
  lemma {:induction false} DigitsAreDigits(n: nat, width: nat)
    ensures forall i :: 0 <= i < width ==> IsDigit(Digits(n, width)[i])
  {
    if width > 0 {
      DigitsAreDigits(n / 10, width - 1);
      var s := Digits(n, width);
      forall i | 0 <= i < width ensures IsDigit(s[i]) {
        if i < width - 1 {
          assert s[i] == Digits(n / 10, width - 1)[i];
        }
      }
    }
  }

  /** The value of a string of decimal digits; `None` if any character is not a digit (`DigitsValueDefined`). */
  function DigitsValue(s: string): (r: Option<nat>)
    ensures r.Some? ==> |s| == 0 || IsDigit(s[|s| - 1])
  {
    if s == [] then Some(0)
    else
      match DigitsValue(s[..|s| - 1])
      case None => None
      case Some(v) =>
        if IsDigit(s[|s| - 1]) then Some(10 * v + (s[|s| - 1] as int - '0' as int)) else None
  }

  /** A string has a value exactly when all its characters are digits, and the value has at most `|s|` digits. */
  lemma {:induction false} DigitsValueDefined(s: string)
    ensures DigitsValue(s).Some? <==> forall i :: 0 <= i < |s| ==> IsDigit(s[i])
    ensures DigitsValue(s).Some? ==> DigitsValue(s).value < Pow10(|s|)
  {
    if s != [] {
      var p := s[..|s| - 1];
      DigitsValueDefined(p);
      assert forall i :: 0 <= i < |p| ==> p[i] == s[i];
    }
  }

  lemma {:induction false} DigitsRoundTrip(n: nat, width: nat)
    requires n < Pow10(width)
    ensures DigitsValue(Digits(n, width)) == Some(n)
  {
    if width > 0 {
      var s := Digits(n, width);
      assert s[..|s| - 1] == Digits(n / 10, width - 1);
      assert n / 10 < Pow10(width - 1);
      DigitsRoundTrip(n / 10, width - 1);
    }
  }

  /** A digit string is the zero-padded rendering of its own value. */
  lemma {:induction false} DigitsOfValue(s: string)
    requires DigitsValue(s).Some?
    ensures Digits(DigitsValue(s).value, |s|) == s
  {
    if s != [] {
      var p := s[..|s| - 1];
      var w := DigitsValue(p).value;
      var v := DigitsValue(s).value;
      var d := s[|s| - 1] as int - '0' as int;
      assert v == 10 * w + d && 0 <= d < 10;
      assert v / 10 == w && v % 10 == d;
      DigitsOfValue(p);
      assert s == p + [s[|s| - 1]];
    }
  }

  // ---------------------------------------------------------------------
  // ISO 8601 extended form, as Python writes and reads it
  // ---------------------------------------------------------------------

  /**
   * `datetime.isoformat()` of a naive datetime: `YYYY-MM-DDTHH:MM:SS`,
   * followed by `.ffffff` only when the microsecond field is not zero.
   */
  function Format(d: Instant): (s: string)
    ensures |s| == (if d.microsecond == 0 then 19 else 26)
  {
    Digits(d.year, 4) + "-" + Digits(d.month, 2) + "-" + Digits(d.day, 2) + "T"
    + Digits(d.hour, 2) + ":" + Digits(d.minute, 2) + ":" + Digits(d.second, 2)
    + (if d.microsecond == 0 then "" else "." + Digits(d.microsecond, 6))
  }

  /** Whether `s` has the punctuation of one of the two forms `Format` writes. */
  predicate Shaped(s: string) {
    && (|s| == 19 || (|s| == 26 && s[19] == '.'))
    && s[4] == '-' && s[7] == '-' && s[10] == 'T' && s[13] == ':' && s[16] == ':'
  }

  /** Where the `k`-th digit field of a shaped string starts: year, month, day, hour, minute, second, fraction. */
  function FieldStart(k: nat): nat
    requires k < 7
  {
    [0, 5, 8, 11, 14, 17, 20][k]
  }

  /** Where the `k`-th digit field of a shaped string ends. */
  function FieldEnd(k: nat): nat
    requires k < 7
  {
    [4, 7, 10, 13, 16, 19, 26][k]
  }

  /** A shaped string has six digit fields, and a seventh when it carries a fraction. */
  function FieldCount(s: string): nat {
    if |s| == 26 then 7 else 6
  }

  /** The values of the first `k` digit fields of `s`, in order; `None` as soon as one is not all digits. */
  function FieldValues(s: string, k: nat): (r: Option<seq<nat>>)
    requires k <= 7 && (if k == 7 then 26 else 19) <= |s|
    ensures r.Some? ==> |r.value| == k
  {
    if k == 0 then Some([])
    else
      match FieldValues(s, k - 1)
      case None => None
      case Some(vs) =>
        match DigitsValue(s[FieldStart(k - 1)..FieldEnd(k - 1)])
        case None => None
        case Some(v) => Some(vs + [v])
  }

  /** Each value of accepted fields is the value of the field at its position. */
  lemma {:induction false} FieldValuesAt(s: string, k: nat, i: nat)
    requires k <= 7 && (if k == 7 then 26 else 19) <= |s|
    requires FieldValues(s, k).Some? && i < k
    ensures DigitsValue(s[FieldStart(i)..FieldEnd(i)]) == Some(FieldValues(s, k).value[i])
  {
    if i < k - 1 {
      FieldValuesAt(s, k - 1, i);
    }
  }

  /**
   * `datetime.fromisoformat()` restricted to the two forms above: `None`
   * stands for the `ValueError` it raises on a malformed string or on a
   * field out of range (such as 30 February).
   */
  function Parse(s: string): (r: Option<Instant>)
    ensures r.Some? ==> Shaped(s)
    ensures r.Some? && |s| == 19 ==> r.value.microsecond == 0
  {
    if !Shaped(s) then None
    else
      match FieldValues(s, FieldCount(s))
      case None => None
      case Some(v) =>
        var d := DateTime(v[0], v[1], v[2], v[3], v[4], v[5], if |s| == 26 then v[6] else 0);
        if d.Valid() then Some(d) else None
  }

  /** A field that follows a prefix of `s` sits at its offset in `s`. */
  lemma FieldAt(s: string, p: string, f: string)
    requires p + f <= s
    ensures s[|p|..|p| + |f|] == f
  {
    assert forall i :: |p| <= i < |p| + |f| ==> s[i] == (p + f)[i];
  }

  lemma PrefixOfPrefix(a: string, b: string, s: string)
    requires a + b <= s
    ensures a <= s
  {
    assert forall i :: 0 <= i < |a| ==> s[i] == (a + b)[i];
  }

  /** Where the fields and the punctuation of the `Format` layout sit, whatever the fields hold. */
  lemma Layout(year: string, month: string, day: string, hour: string, minute: string, second: string, tail: string)
    requires |year| == 4 && |month| == 2 && |day| == 2 && |hour| == 2 && |minute| == 2 && |second| == 2
    ensures var s := year + "-" + month + "-" + day + "T" + hour + ":" + minute + ":" + second + tail;
      && |s| == 19 + |tail| && s[19..] == tail
      && s[4] == '-' && s[7] == '-' && s[10] == 'T' && s[13] == ':' && s[16] == ':'
      && s[0..4] == year && s[5..7] == month && s[8..10] == day
      && s[11..13] == hour && s[14..16] == minute && s[17..19] == second
  {
    var s := year + "-" + month + "-" + day + "T" + hour + ":" + minute + ":" + second + tail;
    var p5 := year + "-";
    var p8 := p5 + month + "-";
    var p11 := p8 + day + "T";
    var p14 := p11 + hour + ":";
    var p17 := p14 + minute + ":";
    var head := p17 + second;
    assert s == head + tail;
    FieldAt(s, head, tail);
    PrefixOfPrefix(head, tail, s);
    FieldAt(s, p17, second);
    PrefixOfPrefix(p17, second, s);
    PrefixOfPrefix(p14 + minute, ":", s);
    FieldAt(s, p14, minute);
    PrefixOfPrefix(p14, minute, s);
    PrefixOfPrefix(p11 + hour, ":", s);
    FieldAt(s, p11, hour);
    PrefixOfPrefix(p11, hour, s);
    PrefixOfPrefix(p8 + day, "T", s);
    FieldAt(s, p8, day);
    PrefixOfPrefix(p8, day, s);
    PrefixOfPrefix(p5 + month, "-", s);
    FieldAt(s, p5, month);
    PrefixOfPrefix(p5, month, s);
    PrefixOfPrefix(year, "-", s);
    FieldAt(s, [], year);
  }

  /** Where `Format` puts each field. */
  lemma FormatSlices(d: Instant)
    ensures var s := Format(d);
      && Shaped(s)
      && s[0..4] == Digits(d.year, 4) && s[5..7] == Digits(d.month, 2) && s[8..10] == Digits(d.day, 2)
      && s[11..13] == Digits(d.hour, 2) && s[14..16] == Digits(d.minute, 2) && s[17..19] == Digits(d.second, 2)
      && (d.microsecond != 0 ==> s[20..26] == Digits(d.microsecond, 6))
  {
    var tail := if d.microsecond == 0 then "" else "." + Digits(d.microsecond, 6);
    Layout(Digits(d.year, 4), Digits(d.month, 2), Digits(d.day, 2), Digits(d.hour, 2), Digits(d.minute, 2),
           Digits(d.second, 2), tail);
    var s := Format(d);
    if d.microsecond != 0 {
      assert s[19..] == tail;
      assert s[19] == tail[0];
      assert s[20..26] == tail[1..];
    }
  }

  /** Reading one more field appends its value. */
  lemma FieldValuesSnoc(s: string, k: nat, vs: seq<nat>, v: nat)
    requires k < 7 && (if k == 6 then 26 else 19) <= |s|
    requires FieldValues(s, k) == Some(vs) && DigitsValue(s[FieldStart(k)..FieldEnd(k)]) == Some(v)
    ensures FieldValues(s, k + 1) == Some(vs + [v])
  {
  }

  /** The six fields every shaped string has read as the numbers their digits spell. */
  lemma SixFieldValues(s: string, year: nat, month: nat, day: nat, hour: nat, minute: nat, second: nat)
    requires 19 <= |s|
    requires DigitsValue(s[0..4]) == Some(year) && DigitsValue(s[5..7]) == Some(month)
    requires DigitsValue(s[8..10]) == Some(day) && DigitsValue(s[11..13]) == Some(hour)
    requires DigitsValue(s[14..16]) == Some(minute) && DigitsValue(s[17..19]) == Some(second)
    ensures FieldValues(s, 6) == Some([year, month, day, hour, minute, second])
  {
    FieldValuesSnoc(s, 0, [], year);
    FieldValuesSnoc(s, 1, [] + [year], month);
    FieldValuesSnoc(s, 2, [] + [year] + [month], day);
    FieldValuesSnoc(s, 3, [] + [year] + [month] + [day], hour);
    FieldValuesSnoc(s, 4, [] + [year] + [month] + [day] + [hour], minute);
    FieldValuesSnoc(s, 5, [] + [year] + [month] + [day] + [hour] + [minute], second);
    assert [] + [year] + [month] + [day] + [hour] + [minute] + [second] == [year, month, day, hour, minute, second];
  }

  /** A string whose digit fields read as the given numbers has those numbers as its fields' values. */
  lemma ShapedFieldValues(s: string, year: nat, month: nat, day: nat, hour: nat, minute: nat, second: nat, us: nat)
    requires |s| == 19 || |s| == 26
    requires DigitsValue(s[0..4]) == Some(year) && DigitsValue(s[5..7]) == Some(month)
    requires DigitsValue(s[8..10]) == Some(day) && DigitsValue(s[11..13]) == Some(hour)
    requires DigitsValue(s[14..16]) == Some(minute) && DigitsValue(s[17..19]) == Some(second)
    requires |s| == 26 ==> DigitsValue(s[20..26]) == Some(us)
    ensures |s| == 19 ==> FieldValues(s, 6) == Some([year, month, day, hour, minute, second])
    ensures |s| == 26 ==> FieldValues(s, 7) == Some([year, month, day, hour, minute, second, us])
  {
    SixFieldValues(s, year, month, day, hour, minute, second);
    if |s| == 26 {
      FieldValuesSnoc(s, 6, [year, month, day, hour, minute, second], us);
      assert [year, month, day, hour, minute, second] + [us] == [year, month, day, hour, minute, second, us];
    }
  }


  /** Each digit field `isoformat` writes reads back as the datetime's field. */
  lemma FormatDigitValues(d: Instant)
    ensures var s := Format(d);
      && Shaped(s)
      && DigitsValue(s[0..4]) == Some(d.year) && DigitsValue(s[5..7]) == Some(d.month)
      && DigitsValue(s[8..10]) == Some(d.day) && DigitsValue(s[11..13]) == Some(d.hour)
      && DigitsValue(s[14..16]) == Some(d.minute) && DigitsValue(s[17..19]) == Some(d.second)
      && (|s| == 26 ==> DigitsValue(s[20..26]) == Some(d.microsecond))
  {
    FormatSlices(d);
    assert Pow10(2) == 100 && Pow10(4) == 10000 && Pow10(6) == 1000000;
    DigitsRoundTrip(d.year, 4);
    DigitsRoundTrip(d.month, 2);
    DigitsRoundTrip(d.day, 2);
    DigitsRoundTrip(d.hour, 2);
    DigitsRoundTrip(d.minute, 2);
    DigitsRoundTrip(d.second, 2);
    if d.microsecond != 0 {
      DigitsRoundTrip(d.microsecond, 6);
    }
  }

  /** Reading back what `isoformat` wrote gives the same datetime. */
  lemma ParseFormat(d: Instant)
    ensures Parse(Format(d)) == Some(d)
  {
    FormatDigitValues(d);
    ShapedFieldValues(Format(d), d.year, d.month, d.day, d.hour, d.minute, d.second, d.microsecond);
  }

  /** The punctuation and the digit fields of a shaped string make up its first 19 characters. */
  lemma Reassemble(s: string)
    requires Shaped(s)
    ensures s[..19] == s[0..4] + "-" + s[5..7] + "-" + s[8..10] + "T"
                       + s[11..13] + ":" + s[14..16] + ":" + s[17..19]
  {
    assert s[0..5] == s[0..4] + "-";
    assert s[0..7] == s[0..5] + s[5..7];
    assert s[0..8] == s[0..7] + "-";
    assert s[0..10] == s[0..8] + s[8..10];
    assert s[0..11] == s[0..10] + "T";
    assert s[0..13] == s[0..11] + s[11..13];
    assert s[0..14] == s[0..13] + ":";
    assert s[0..16] == s[0..14] + s[14..16];
    assert s[0..17] == s[0..16] + ":";
    assert s[0..19] == s[0..17] + s[17..19];
  }

  /** What an accepted string's fields are made of. */
  lemma ParseFields(s: string)
    requires Parse(s).Some?
    ensures Shaped(s)
    ensures DigitsValue(s[0..4]) == Some(Parse(s).value.year)
    ensures DigitsValue(s[5..7]) == Some(Parse(s).value.month)
    ensures DigitsValue(s[8..10]) == Some(Parse(s).value.day)
    ensures DigitsValue(s[11..13]) == Some(Parse(s).value.hour)
    ensures DigitsValue(s[14..16]) == Some(Parse(s).value.minute)
    ensures DigitsValue(s[17..19]) == Some(Parse(s).value.second)
    ensures |s| == 26 ==> DigitsValue(s[20..26]) == Some(Parse(s).value.microsecond)
    ensures |s| == 19 ==> Parse(s).value.microsecond == 0
  {
    var n := FieldCount(s);
    FieldValuesAt(s, n, 0);
    FieldValuesAt(s, n, 1);
    FieldValuesAt(s, n, 2);
    FieldValuesAt(s, n, 3);
    FieldValuesAt(s, n, 4);
    FieldValuesAt(s, n, 5);
    if n == 7 {
      FieldValuesAt(s, n, 6);
    }
  }

  /** The fields of an accepted string are the zero-padded renderings of the parsed values. */
  lemma ParsedDigits(s: string)
    requires Parse(s).Some?
    ensures var d := Parse(s).value;
      && Shaped(s)
      && Digits(d.year, 4) == s[0..4] && Digits(d.month, 2) == s[5..7] && Digits(d.day, 2) == s[8..10]
      && Digits(d.hour, 2) == s[11..13] && Digits(d.minute, 2) == s[14..16] && Digits(d.second, 2) == s[17..19]
      && (|s| == 26 ==> Digits(d.microsecond, 6) == s[20..26])
      && (|s| == 19 ==> d.microsecond == 0)
  {
    ParseFields(s);
    DigitsOfValue(s[0..4]);
    DigitsOfValue(s[5..7]);
    DigitsOfValue(s[8..10]);
    DigitsOfValue(s[11..13]);
    DigitsOfValue(s[14..16]);
    DigitsOfValue(s[17..19]);
    if |s| == 26 {
      DigitsOfValue(s[20..26]);
    }
  }

  /**
   * Conversely, every string `Parse` accepts is what `isoformat` writes for
   * the result, except that an explicit `.000000` fraction is dropped.
   */
  lemma FormatParse(s: string)
    requires Parse(s).Some?
    ensures Format(Parse(s).value) == s
         || (Parse(s).value.microsecond == 0 && Format(Parse(s).value) + ".000000" == s)
  {
    ParsedDigits(s);
    FormatOfFields(s, Parse(s).value);
  }

  /** A shaped string whose fields render `d` is `Format(d)`, up to a `.000000` fraction. */
  lemma FormatOfFields(s: string, d: Instant)
    requires Shaped(s)
    requires && Digits(d.year, 4) == s[0..4] && Digits(d.month, 2) == s[5..7] && Digits(d.day, 2) == s[8..10]
             && Digits(d.hour, 2) == s[11..13] && Digits(d.minute, 2) == s[14..16] && Digits(d.second, 2) == s[17..19]
    requires |s| == 26 ==> Digits(d.microsecond, 6) == s[20..26]
    requires |s| == 19 ==> d.microsecond == 0
    ensures Format(d) == s || (d.microsecond == 0 && Format(d) + ".000000" == s)
  {
    var head := s[..19];
    var tail := if d.microsecond == 0 then "" else "." + Digits(d.microsecond, 6);
    assert Format(d) == head + tail by {
      Reassemble(s);
    }
    if |s| == 26 {
      assert s == head + "." + s[20..26] by {
        FractionSplit(s);
      }
      if d.microsecond == 0 {
        ZeroFraction();
      }
    }
  }

  /** A 26-character shaped string is its first 19 characters, a dot and six more. */
  lemma FractionSplit(s: string)
    requires |s| == 26 && s[19] == '.'
    ensures s == s[..19] + "." + s[20..26]
  {
  }

  /** The six-digit rendering of a zero fraction. */
  lemma ZeroFraction()
    ensures Digits(0, 6) == "000000"
  {
  }
}
