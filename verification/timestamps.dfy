/** The tolerant timestamp parser of the thread builder (`_parse_updated`):
    Gerrit's `"YYYY-MM-DD HH:MM:SS.fffffffff"` read as a date-time with
    microsecond resolution, where a missing or unreadable value becomes
    `datetime.min` instead of an error. */
module Timestamps {
  import opened Wrappers
  import opened Text
  import opened Seqs

  /** A `datetime` without time zone. */
  datatype DateTime = DateTime(year: int, month: int, day: int,
                               hour: int, minute: int, second: int, micro: int)

  /** `datetime.min`. */
  const Min := DateTime(1, 1, 1, 0, 0, 0, 0)

  predicate IsLeapYear(y: int)
  {
    y % 4 == 0 && (y % 100 != 0 || y % 400 == 0)
  }

  function DaysInMonth(y: int, m: int): int
  {
    if m == 2 then (if IsLeapYear(y) then 29 else 28)
    else if m == 4 || m == 6 || m == 9 || m == 11 then 30
    else 31
  }

  /** Every field within its range, the day at most 31. */
  predicate InRange(t: DateTime)
  {
    && 1 <= t.year <= 9999
    && 1 <= t.month <= 12
    && 1 <= t.day <= 31
    && 0 <= t.hour < 24
    && 0 <= t.minute < 60
    && 0 <= t.second < 60
    && 0 <= t.micro < 1000000
  }

  /** The values `datetime` accepts. */
  predicate Valid(t: DateTime)
  {
    InRange(t) && t.day <= DaysInMonth(t.year, t.month)
  }

  /** The fields, most significant first, as the digits of one mixed-radix
      number (month and day counted from 0). */
  function Digits(t: DateTime): seq<int>
  {
    [t.year, t.month - 1, t.day - 1, t.hour, t.minute, t.second, t.micro]
  }

  /** The radix of each digit after the first. */
  const Radices: seq<nat> := [12, 31, 24, 60, 60, 1000000]

  /** Lexicographic order on digit lists of equal length. */
  predicate LexLess(xs: seq<int>, ys: seq<int>)
    requires |xs| == |ys|
  {
    && xs != []
    && (|| LexLess(xs[..|xs| - 1], ys[..|ys| - 1])
        || (xs[..|xs| - 1] == ys[..|ys| - 1] && xs[|xs| - 1] < ys[|ys| - 1]))
  }

  /** Lists that agree before position `k` and differ there compare as
      their digits at `k` do. */
  lemma {:induction false} LexLessAt(xs: seq<int>, ys: seq<int>, k: nat)
    requires |xs| == |ys| && k < |xs|
    requires xs[..k] == ys[..k] && xs[k] < ys[k]
    ensures LexLess(xs, ys)
  {
    var n := |xs| - 1;
    if k < n {
      assert xs[..n][..k] == xs[..k] && ys[..n][..k] == ys[..k];
      LexLessAt(xs[..n], ys[..n], k);
    }
  }

  /** Chronological order: the fields compared one by one, most significant
      first. */
  predicate Before(a: DateTime, b: DateTime)
  {
    LexLess(Digits(a), Digits(b))
  }

  function Mix(high: int, radix: nat, low: int): int
  {
    high * radix + low
  }

  /** The value of a digit list in the mixed radix `rs`. */
  function Horner(ds: seq<int>, rs: seq<nat>): int
    requires |ds| == |rs| + 1
  {
    if rs == [] then ds[0]
    else Mix(Horner(ds[..|ds| - 1], rs[..|rs| - 1]), rs[|rs| - 1], ds[|ds| - 1])
  }

  /** The sort key: the fields read as one mixed-radix number (the count of
      microseconds since a fixed origin, every month taken as 31 days). */
  function Ticks(t: DateTime): int
  {
    (((((t.year * 12 + (t.month - 1)) * 31 + (t.day - 1)) * 24 + t.hour) * 60 + t.minute) * 60
      + t.second) * 1000000 + t.micro
  }

  /** `Ticks` is the value of the digits in the radices. */
  lemma TicksIsHorner(t: DateTime)
    ensures Ticks(t) == Horner(Digits(t), Radices)
  {
    var ds := Digits(t);
    var v1 := t.year;
    var v2 := v1 * 12 + (t.month - 1);
    var v3 := v2 * 31 + (t.day - 1);
    var v4 := v3 * 24 + t.hour;
    var v5 := v4 * 60 + t.minute;
    var v6 := v5 * 60 + t.second;
    assert Horner(ds[..1], Radices[..0]) == v1;
    assert ds[..2][..1] == ds[..1] && Radices[..1][..0] == Radices[..0];
    assert Horner(ds[..2], Radices[..1]) == v2;
    assert ds[..3][..2] == ds[..2] && Radices[..2][..1] == Radices[..1];
    assert Horner(ds[..3], Radices[..2]) == v3;
    assert ds[..4][..3] == ds[..3] && Radices[..3][..2] == Radices[..2];
    assert Horner(ds[..4], Radices[..3]) == v4;
    assert ds[..5][..4] == ds[..4] && Radices[..4][..3] == Radices[..3];
    assert Horner(ds[..5], Radices[..4]) == v5;
    assert ds[..6][..5] == ds[..5] && Radices[..5][..4] == Radices[..4];
    assert Horner(ds[..6], Radices[..5]) == v6;
    assert ds[..7][..6] == ds[..6] && Radices[..6][..5] == Radices[..5];
    assert ds[..7] == ds && Radices[..6] == Radices;
  }

  lemma {:induction false} MulAtLeast(d: int, radix: nat)
    requires d >= 1
    ensures d * radix >= radix
    decreases d
  {
    if d > 1 {
      MulAtLeast(d - 1, radix);
      assert d * radix == (d - 1) * radix + radix;
    }
  }

  lemma MixBelow(h1: int, h2: int, radix: nat, l1: int, l2: int)
    requires 0 <= l1 < radix && 0 <= l2 < radix && h1 < h2
    ensures Mix(h1, radix, l1) < Mix(h2, radix, l2)
  {
    MulAtLeast(h2 - h1, radix);
    assert h2 * radix == h1 * radix + (h2 - h1) * radix;
  }

  lemma MixOrder(h1: int, h2: int, radix: nat, l1: int, l2: int)
    requires 0 <= l1 < radix && 0 <= l2 < radix
    ensures Mix(h1, radix, l1) < Mix(h2, radix, l2) <==> h1 < h2 || (h1 == h2 && l1 < l2)
    ensures Mix(h1, radix, l1) == Mix(h2, radix, l2) <==> h1 == h2 && l1 == l2
  {
    if h1 < h2 {
      MixBelow(h1, h2, radix, l1, l2);
    } else if h2 < h1 {
      MixBelow(h2, h1, radix, l2, l1);
    }
  }

  /** Digits within their radices (the first is unbounded). */
  predicate DigitsIn(ds: seq<int>, rs: seq<nat>)
    requires |ds| == |rs| + 1
  {
    forall i :: 1 <= i < |ds| ==> 0 <= ds[i] < rs[i - 1]
  }

  lemma DigitsInPrefix(ds: seq<int>, rs: seq<nat>)
    requires |ds| == |rs| + 1 && rs != [] && DigitsIn(ds, rs)
    ensures DigitsIn(ds[..|rs|], rs[..|rs| - 1])
  {
    var n := |rs|;
    forall i | 1 <= i < n ensures 0 <= ds[..n][i] < rs[..n - 1][i - 1] {
      assert ds[..n][i] == ds[i];
      assert rs[..n - 1][i - 1] == rs[i - 1];
    }
  }

  /** A list no digit of which is below the corresponding digit of another
      does not come before it. */
  lemma {:induction false} NotBelowFloor(xs: seq<int>, ys: seq<int>)
    requires |xs| == |ys|
    requires forall i :: 0 <= i < |xs| ==> ys[i] <= xs[i]
    ensures !LexLess(xs, ys)
  {
    if xs != [] {
      var n := |xs| - 1;
      forall i | 0 <= i < n ensures ys[..n][i] <= xs[..n][i] {
        assert ys[..n][i] == ys[i] && xs[..n][i] == xs[i];
      }
      NotBelowFloor(xs[..n], ys[..n]);
    }
  }

  /** A mixed-radix value orders digit lists lexicographically, and equal
      values have equal digits. */
  lemma {:induction false} HornerOrder(xs: seq<int>, ys: seq<int>, rs: seq<nat>)
    requires |xs| == |ys| == |rs| + 1
    requires DigitsIn(xs, rs) && DigitsIn(ys, rs)
    ensures Horner(xs, rs) < Horner(ys, rs) <==> LexLess(xs, ys)
    ensures Horner(xs, rs) == Horner(ys, rs) <==> xs == ys
  {
    var n := |rs|;
    if n == 0 {
      assert LexLess(xs, ys) <==> xs[0] < ys[0] by {
        assert xs[..0] == ys[..0] == [];
        assert !LexLess(xs[..0], ys[..0]);
      }
      assert xs == ys <==> xs[0] == ys[0] by {
        if xs[0] == ys[0] {
          assert xs == [xs[0]] && ys == [ys[0]];
        }
      }
    } else {
      var xi, yi := xs[..n], ys[..n];
      DigitsInPrefix(xs, rs);
      DigitsInPrefix(ys, rs);
      HornerOrder(xi, yi, rs[..n - 1]);
      assert 0 <= xs[n] < rs[n - 1] && 0 <= ys[n] < rs[n - 1];
      MixOrder(Horner(xi, rs[..n - 1]), Horner(yi, rs[..n - 1]), rs[n - 1], xs[n], ys[n]);
      assert xs == ys <==> xi == yi && xs[n] == ys[n] by {
        assert xs == xi + [xs[n]] && ys == yi + [ys[n]];
      }
    }
  }

  /** Comparing `Ticks` is comparing date-times: the sort key orders valid
      values chronologically, and equal keys mean equal values. */
  lemma TicksOrder(a: DateTime, b: DateTime)
    requires InRange(a) && InRange(b)
    ensures Ticks(a) < Ticks(b) <==> Before(a, b)
    ensures Ticks(a) == Ticks(b) <==> a == b
  {
    TicksIsHorner(a);
    TicksIsHorner(b);
    assert DigitsIn(Digits(a), Radices) && DigitsIn(Digits(b), Radices);
    HornerOrder(Digits(a), Digits(b), Radices);
    if Digits(a) == Digits(b) {
      assert Digits(a)[0] == Digits(b)[0] && Digits(a)[1] == Digits(b)[1] && Digits(a)[2] == Digits(b)[2];
      assert Digits(a)[3] == Digits(b)[3] && Digits(a)[4] == Digits(b)[4] && Digits(a)[5] == Digits(b)[5];
      assert Digits(a)[6] == Digits(b)[6];
    }
  }

  /** A later hour of the same day is a later instant. */
  lemma LaterHour(a: DateTime, b: DateTime)
    requires InRange(a) && InRange(b)
    requires a.year == b.year && a.month == b.month && a.day == b.day && a.hour < b.hour
    ensures Ticks(a) < Ticks(b)
  {
    var da, db := Digits(a), Digits(b);
    assert da[..3] == [a.year, a.month - 1, a.day - 1] == db[..3];
    LexLessAt(da, db, 3);
    TicksOrder(a, b);
  }

  /** `datetime.min` is the least valid date-time. */
  lemma MinIsLeast(t: DateTime)
    requires Valid(t)
    ensures Ticks(Min) <= Ticks(t)
    ensures Ticks(Min) == Ticks(t) <==> t == Min
  {
    TicksOrder(t, Min);
    NotBelowFloor(Digits(t), Digits(Min));
  }

  // ---------------------------------------------------------------------
  // Parsing

  /** `datetime.strptime(h, "%Y-%m-%d %H:%M:%S")` for the zero-padded form:
      `None` where strptime raises `ValueError`. */
  function ParseHead(h: string): (r: Option<DateTime>)
    ensures r.Some? ==> Valid(r.value) && r.value.micro == 0
  {
    if |h| == 19 && h[4] == '-' && h[7] == '-' && h[10] == ' ' && h[13] == ':' && h[16] == ':'
       && AllDigits(h[0..4]) && AllDigits(h[5..7]) && AllDigits(h[8..10])
       && AllDigits(h[11..13]) && AllDigits(h[14..16]) && AllDigits(h[17..19])
    then
      var t := DateTime(Value(h[0..4]), Value(h[5..7]), Value(h[8..10]),
                        Value(h[11..13]), Value(h[14..16]), Value(h[17..19]), 0);
      if Valid(t) then Some(t) else None
    else None
  }

  /** The fraction as the parser uses it: its digits, padded with zeros or
      cut to exactly six. */
  function NormalizeFraction(frac: string): (r: string)
    ensures |r| == 6 && AllDigits(r)
  {
    var d := FilterDigits(frac) + "000000";
    assert forall k :: 0 <= k < |d| ==> IsDigit(d[k]);
    d[..6]
  }

  /** `_parse_updated`: never fails; what it cannot read becomes `Min`. */
  function ParseUpdated(value: string): (t: DateTime)
    ensures Valid(t)
    ensures Strip(value) == "" ==> t == Min
  {
    if value == "" then Min
    else
      var v := Strip(value);
      if '.' in v then
        var i := FirstIndex(v, '.');
        var frac := NormalizeFraction(v[i + 1..]);
        match ParseHead(v[..i])
        case None => Min
        case Some(t) => t.(micro := Value(frac))
      else
        match ParseHead(v)
        case None => Min
        case Some(t) => t
  }

  /** The sort key of a raw `updated` value. */
  function UpdatedKey(value: string): int
  {
    Ticks(ParseUpdated(value))
  }

  /** Every parse result, readable or not, sorts at or after an absent value. */
  lemma AbsentSortsFirst(value: string)
    ensures UpdatedKey("") <= UpdatedKey(value)
  {
    MinIsLeast(ParseUpdated(value));
  }

  lemma NormalizeFractionShape(frac: string)
    ensures |NormalizeFraction(frac)| == 6 && AllDigits(NormalizeFraction(frac))
    ensures |FilterDigits(frac)| >= 6 ==> NormalizeFraction(frac) == FilterDigits(frac)[..6]
    ensures |FilterDigits(frac)| < 6 ==>
              NormalizeFraction(frac)
              == FilterDigits(frac) + "000000"[..6 - |FilterDigits(frac)|]
  {
    var d := FilterDigits(frac);
    var n := NormalizeFraction(frac);
    assert forall k :: 0 <= k < 6 ==> n[k] == (d + "000000")[k];
  }

  // ---------------------------------------------------------------------
  // Gerrit's format, and reading it back

  /** `"YYYY-MM-DD HH:MM:SS"`. */
  function FormatHead(t: DateTime): string
    requires Valid(t)
  {
    Pad(t.year, 4) + "-" + Pad(t.month, 2) + "-" + Pad(t.day, 2) + " "
    + Pad(t.hour, 2) + ":" + Pad(t.minute, 2) + ":" + Pad(t.second, 2)
  }

  /** Gerrit's `"YYYY-MM-DD HH:MM:SS.fffffffff"`, nanoseconds included. */
  function FormatGerrit(t: DateTime): string
    requires Valid(t)
  {
    FormatHead(t) + "." + Pad(t.micro, 6) + "000"
  }

  lemma ParseFormatHead(t: DateTime)
    requires Valid(t)
    ensures ParseHead(FormatHead(t)) == Some(t.(micro := 0))
  {
    DateFields(t);
    TimeFields(t);
    ValuePad(t.year, 4);
    ValuePad(t.month, 2);
    ValuePad(t.day, 2);
    ValuePad(t.hour, 2);
    ValuePad(t.minute, 2);
    ValuePad(t.second, 2);
  }

  /** Where the date fields sit in the formatted head. */
  lemma DateFields(t: DateTime)
    requires Valid(t)
    ensures |FormatHead(t)| == 19
    ensures FormatHead(t)[4] == '-' && FormatHead(t)[7] == '-' && FormatHead(t)[10] == ' '
    ensures FormatHead(t)[0..4] == Pad(t.year, 4)
    ensures FormatHead(t)[5..7] == Pad(t.month, 2)
    ensures FormatHead(t)[8..10] == Pad(t.day, 2)
  {
    var h := FormatHead(t);
    assert h[0..4] == Pad(t.year, 4);
    assert h[5..7] == Pad(t.month, 2);
    assert h[8..10] == Pad(t.day, 2);
  }

  /** Where the time fields sit in the formatted head. */
  lemma TimeFields(t: DateTime)
    requires Valid(t)
    ensures |FormatHead(t)| == 19
    ensures FormatHead(t)[13] == ':' && FormatHead(t)[16] == ':'
    ensures FormatHead(t)[11..13] == Pad(t.hour, 2)
    ensures FormatHead(t)[14..16] == Pad(t.minute, 2)
    ensures FormatHead(t)[17..19] == Pad(t.second, 2)
  {
    var h := FormatHead(t);
    assert h[11..13] == Pad(t.hour, 2);
    assert h[14..16] == Pad(t.minute, 2);
    assert h[17..19] == Pad(t.second, 2);
  }

  lemma FormatHeadShape(t: DateTime)
    requires Valid(t)
    ensures |FormatHead(t)| == 19 && IsDigit(FormatHead(t)[0]) && IsDigit(FormatHead(t)[18])
    ensures '.' !in FormatHead(t)
  {
    var h := FormatHead(t);
    assert forall k :: 0 <= k < 19 && k !in {4, 7, 10, 13, 16} ==> IsDigit(h[k]);
    assert forall k :: 0 <= k < 19 ==> h[k] != '.';
  }

  /** A timestamp without a fraction reads back with zero microseconds. */
  lemma ParseWholeSeconds(t: DateTime)
    requires Valid(t)
    ensures ParseUpdated(FormatHead(t)) == t.(micro := 0)
  {
    ParseFormatHead(t);
    FormatHeadShape(t);
    StripKeeps(FormatHead(t));
  }

  /** Stripping `h + "." + frac`, where `h` starts with a non-space, leaves
      `h`, the dot, and `frac` without its trailing whitespace. */
  lemma StripAfterDot(h: string, frac: string)
    requires h != [] && !IsSpace(h[0])
    ensures Strip(h + "." + frac) == h + "." + TrimEnd(frac)
  {
    StripFromSolidStart(h + "." + frac);
    TrimEndAfter(h + ".", frac);
  }

  lemma {:induction false} TrimEndAfter(a: string, b: string)
    requires a != [] && !IsSpace(a[|a| - 1])
    ensures TrimEnd(a + b) == a + TrimEnd(b)
    decreases |b|
  {
    if b != [] && IsSpace(b[|b| - 1]) {
      assert (a + b)[..|a + b| - 1] == a + b[..|b| - 1];
      TrimEndAfter(a, b[..|b| - 1]);
    } else if b == [] {
      assert a + b == a;
    }
  }

  lemma FirstDotAfter(h: string, g: string)
    requires '.' !in h
    ensures '.' in h + "." + g && FirstIndex(h + "." + g, '.') == |h|
  {
    var v := h + "." + g;
    assert v[|h|] == '.';
    assert v[..|h|] == h;
  }

  /** How the parser reads a value with a dot: the head before the first
      dot, and the normalised fraction after it. */
  lemma ParseAtDot(value: string, head: string, g: string)
    requires value != "" && Strip(value) == head + "." + g && '.' !in head
    ensures ParseUpdated(value)
            == if ParseHead(head).Some? then ParseHead(head).value.(micro := Value(NormalizeFraction(g)))
               else Min
  {
    FirstDotAfter(head, g);
    var v := Strip(value);
    assert v[..|head|] == head && v[|head| + 1..] == g;
  }

  /** A value without a dot whose text `strptime` cannot read gives
      `datetime.min`, as a dotted one with an unreadable head does
      (`ParseAtDot`). */
  lemma UnreadableNoDot(value: string)
    requires value != "" && '.' !in Strip(value) && ParseHead(Strip(value)).None?
    ensures ParseUpdated(value) == Min
  {
  }

  /** In particular, a value without a dot whose stripped text is not the
      19 characters of `"%Y-%m-%d %H:%M:%S"`, or whose month is not 1 to 12,
      gives `datetime.min`. */
  lemma UnreadableShapes(value: string)
    requires value != "" && '.' !in Strip(value)
    requires var v := Strip(value);
             |v| != 19 || (|v| == 19 && AllDigits(v[5..7]) && !(1 <= Value(v[5..7]) <= 12))
    ensures ParseUpdated(value) == Min
  {
    UnreadableNoDot(value);
  }

  /** Whatever follows the first dot, only its digits count, padded or cut
      to six: the seconds and everything before them are read from the head. */
  lemma ParseFraction(t: DateTime, frac: string)
    requires Valid(t)
    ensures ParseUpdated(FormatHead(t) + "." + frac)
            == t.(micro := Value(NormalizeFraction(frac)))
  {
    var h := FormatHead(t);
    FormatHeadShape(t);
    ParseFormatHead(t);
    StripAfterDot(h, frac);
    var g := TrimEnd(frac);
    ParseAtDot(h + "." + frac, h, g);
    // What the strip removed is whitespace, which has no digits.
    TrimEndRemovesSpace(frac);
    assert frac == g + frac[|g|..];
    FilterDigitsIgnoresSpace(g, frac[|g|..]);
  }

  /** Round trip: a timestamp in Gerrit's nanosecond format reads back as
      the date-time it was written from. */
  lemma ParseFormatGerrit(t: DateTime)
    requires Valid(t)
    ensures ParseUpdated(FormatGerrit(t)) == t
  {
    var p := Pad(t.micro, 6);
    AppendAssoc(FormatHead(t) + ".", p, "000");
    NanoFraction(t.micro);
    ParseFraction(t, p + "000");
  }

  /** The nine fraction digits Gerrit writes read back as the microseconds. */
  lemma NanoFraction(micro: nat)
    requires micro < 1000000
    ensures Value(NormalizeFraction(Pad(micro, 6) + "000")) == micro
  {
    var p := Pad(micro, 6);
    var frac := p + "000";
    AllDigitsAppend(p, "000");
    FilterDigitsKeepsDigits(frac);
    assert (frac + "000000")[..6] == p;
    ValuePad(micro, 6);
  }
}
