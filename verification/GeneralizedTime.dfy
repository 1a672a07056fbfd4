// GeneralizedTime of a file's modification: gen_time and parse_gen_time of
// adapters/iec61850-rust/src/ber.rs.
module GeneralizedTime {
  import opened Octets
  import opened Calendar
  import opened TimeFormat

  const COMMA: Octet := 44

  function GenTime(ms: int): Text {
    var (secs, sod) := (ms / 1000, ms / 1000 % 86400);
    var d := CivilFromDays(secs / 86400);
    PadInt(d.year, 4) + PadInt(d.month, 2) + PadInt(d.day, 2)
    + PadInt(sod / 3600, 2) + PadInt(sod % 3600 / 60, 2) + PadInt(sod % 60, 2) + [DOT] + PadInt(ms % 1000, 3) + [ZED]
  }

  function LeadingDigits(s: Text): (d: Text)
    ensures |d| <= |s| && forall c :: c in d ==> IsDigit(c)
  {
    if s != [] && IsDigit(s[0]) then [s[0]] + LeadingDigits(s[1..]) else []
  }

  function ZeroFill(f: Text): (r: Text)
    ensures |f| <= 3 ==> |r| == 3
    decreases 3 - |f|
  {
    if |f| < 3 then ZeroFill(f + [48]) else f
  }

  // Fraction digits past the third are cut off.
  function MilliOf(frac: Text): nat {
    var digits := LeadingDigits(frac);
    NumberOf(ZeroFill(if |digits| > 3 then digits[..3] else digits)).GetOr(0)
  }

  method MilliLoop(frac: Text) returns (ms: nat)
    ensures ms == MilliOf(frac)
  {
    var f := LeadingDigits(frac);
    if |f| > 3 {
      f := f[..3];
    }
    ghost var cut := f;
    while |f| < 3
      invariant ZeroFill(f) == ZeroFill(cut)
    {
      f := f + [48];
    }
    return NumberOf(f).GetOr(0);
  }

  function MilliRest(rest: Text): nat {
    if rest != [] && (rest[0] == DOT || rest[0] == COMMA) then MilliOf(rest[1..]) else 0
  }

  function ParseGenTime(s: Text): Option<int> {
    if |s| < 14 || exists i :: 0 <= i < 14 && !IsDigit(s[i]) then None
    else
      match (NumberOf(s[0..4]), NumberOf(s[4..6]), NumberOf(s[6..8]),
             NumberOf(s[8..10]), NumberOf(s[10..12]), NumberOf(s[12..14]))
      case (Some(y), Some(mo), Some(d), Some(h), Some(mi), Some(se)) =>
        Some(StampMs(Stamp(Date(y, mo, d), h, mi, se, MilliRest(s[14..]))))
      case _ => None
  }

  // ----- four-digit years

  function GenDate(t: Stamp): (s: Text)
    requires Printable(t)
    ensures |s| == 8
  {
    Four(t.date.year) + Two(t.date.month) + Two(t.date.day)
  }

  function GenClock(t: Stamp): (s: Text)
    requires Printable(t)
    ensures |s| == 11
  {
    Two(t.hour) + Two(t.minute) + Two(t.second) + [DOT] + Three(t.milli) + [ZED]
  }

  lemma GenLayout(ms: int)
    ensures var t := StampOf(ms);
            GenTime(ms) == PadInt(t.date.year, 4) + PadInt(t.date.month, 2) + PadInt(t.date.day, 2)
                           + (PadInt(t.hour, 2) + PadInt(t.minute, 2) + PadInt(t.second, 2)
                              + [DOT] + PadInt(t.milli, 3) + [ZED])
  {
    var t := StampOf(ms);
    MinuteTwice(ms / 1000 % 86400);
    Split(PadInt(t.date.year, 4) + PadInt(t.date.month, 2) + PadInt(t.date.day, 2),
          PadInt(t.hour, 2), PadInt(t.minute, 2), PadInt(t.second, 2), PadInt(t.milli, 3));
  }

  lemma GenTimeIsText(ms: int)
    requires 0 <= StampOf(ms).date.year < 10000
    ensures Printable(StampOf(ms)) && GenTime(ms) == GenDate(StampOf(ms)) + GenClock(StampOf(ms))
  {
    var t := StampOf(ms);
    StampOfMs(ms);
    GenLayout(ms);
    Pad4(t.date.year);
    Pad2(t.date.month);
    Pad2(t.date.day);
    Pad2(t.hour);
    Pad2(t.minute);
    Pad2(t.second);
    Pad3(t.milli);
  }

  lemma Split(date: Text, h: Text, mi: Text, se: Text, ms: Text)
    ensures date + h + mi + se + [DOT] + ms + [ZED] == date + (h + mi + se + [DOT] + ms + [ZED])
  {
  }

  lemma MinuteTwice(sod: nat)
    ensures sod % 3600 / 60 == sod / 60 % 60
  {
    var q, r := sod / 60, sod % 60;
    ModUnique(sod, 3600, q / 60, q % 60 * 60 + r);
  }

  lemma PartOf(s: Text, n: nat, i: nat, j: nat)
    requires i <= j <= n <= |s|
    ensures s[..n][i..j] == s[i..j]
  {
  }

  lemma DateParts(y: Text, mo: Text, d: Text)
    requires |y| == 4 && |mo| == 2 && |d| == 2
    ensures (y + mo + d)[0..4] == y && (y + mo + d)[4..6] == mo && (y + mo + d)[6..8] == d
  {
  }

  lemma DateRead(t: Stamp, s: Text)
    requires Printable(t) && |s| >= 8 && s[..8] == GenDate(t)
    ensures NumberOf(s[0..4]) == Some(t.date.year)
    ensures NumberOf(s[4..6]) == Some(t.date.month) && NumberOf(s[6..8]) == Some(t.date.day)
    ensures forall i :: 0 <= i < 8 ==> IsDigit(s[i])
  {
    DateParts(Four(t.date.year), Two(t.date.month), Two(t.date.day));
    PartOf(s, 8, 0, 4);
    PartOf(s, 8, 4, 6);
    PartOf(s, 8, 6, 8);
    FourRead(t.date.year);
    TwoRead(t.date.month);
    TwoRead(t.date.day);
    assert forall i :: 0 <= i < 8 ==> s[i] == GenDate(t)[i];
  }

  lemma ClockRead(t: Stamp, s: Text)
    requires Printable(t) && |s| == 19 && s[8..] == GenClock(t)
    ensures NumberOf(s[8..10]) == Some(t.hour) && NumberOf(s[10..12]) == Some(t.minute)
            && NumberOf(s[12..14]) == Some(t.second)
    ensures forall i :: 8 <= i < 14 ==> IsDigit(s[i])
    ensures s[14] == DOT && s[15..] == Three(t.milli) + [ZED]
  {
    var c := s[8..];
    assert s[8..10] == c[0..2] == Two(t.hour);
    assert s[10..12] == c[2..4] == Two(t.minute);
    assert s[12..14] == c[4..6] == Two(t.second);
    assert s[15..] == c[7..];
    TwoRead(t.hour);
    TwoRead(t.minute);
    TwoRead(t.second);
  }

  lemma TwoRead(n: int)
    requires 0 <= n < 100
    ensures NumberOf(Two(n)) == Some(n)
  {
    NumberOfTwo(Two(n));
  }

  lemma FourRead(n: int)
    requires 0 <= n < 10000
    ensures NumberOf(Four(n)) == Some(n)
  {
    NumberOfFour(Four(n));
    assert n / 100 == n / 10 / 10 && n / 1000 == n / 10 / 10 / 10;
  }

  lemma MilliRead(n: int)
    requires 0 <= n < 1000
    ensures MilliOf(Three(n) + [ZED]) == n
  {
    var s := Three(n) + [ZED];
    assert LeadingDigits(s[3..]) == [];
    assert s[2..][1..] == s[3..] && s[1..][1..] == s[2..];
    assert LeadingDigits(s[2..]) == [s[2]];
    assert LeadingDigits(s[1..]) == [s[1], s[2]];
    assert LeadingDigits(s) == Three(n);
    NumberOfTwo(Three(n)[..2]);
    assert n / 100 == n / 10 / 10;
  }

  lemma GenTextParses(t: Stamp)
    requires Printable(t)
    ensures ParseGenTime(GenDate(t) + GenClock(t)) == Some(StampMs(t))
  {
    var s := GenDate(t) + GenClock(t);
    assert s[..8] == GenDate(t) && s[8..] == GenClock(t);
    DateRead(t, s);
    ClockRead(t, s);
    MilliRead(t.milli);
    assert s[14..][1..] == s[15..];
  }

  // ----- other years

  lemma DaysUpper(d: Date)
    requires 0 <= d.year && 0 <= d.month < 100 && d.day < 100
    ensures DaysFromCivil(d) <= 366 * d.year + 4000 - 719468
  {
  }

  lemma DaysLower(d: Date)
    requires 1 <= d.year && 1 <= d.month <= 12 && 1 <= d.day
    ensures DaysFromCivil(d) >= 365 * (d.year - 1) - 719468
  {
  }

  lemma {:induction false} NumberOfDigits(n: nat)
    ensures NumberOf(Digits(n)) == Some(n)
  {
    var s := Digits(n);
    if n < 10 {
      assert NumberOf(s[..0]) == Some(0);
    } else {
      NumberOfDigits(n / 10);
      assert s[..|s| - 1] == Digits(n / 10);
    }
  }

  // The first four digits of a longer year.
  lemma FirstFour(y: nat)
    requires y >= 10000
    ensures |Digits(y)| >= 5
    ensures exists a: nat :: NumberOf(Digits(y)[0..4]) == Some(a) && a <= 9999 && 10 * a <= y
  {
    DigitsLong(y);
    NumberOfFour(Digits(y)[0..4]);
    if y < 100000 {
      var d := Digits(y / 10);
      FourDigits(y / 10);
      NumberOfDigits(y / 10);
      assert Digits(y)[0..4] == d;
    }
  }

  lemma FourDigits(n: nat)
    requires 1000 <= n < 10000
    ensures |Digits(n)| == 4
  {
    Pad4(n);
    assert |Digits(n / 10 / 10 / 10)| >= 1;
    assert |Digits(n / 10 / 10)| >= 2;
    assert |Digits(n / 10)| >= 3;
  }

  lemma {:induction false} MilliBelow(f: Text)
    requires |f| == 3 && NumberOf(f).Some?
    ensures NumberOf(f).value < 1000
  {
    TwoBelow(f[..2]);
  }

  // A stamp in the columns of year a is earlier than year y, ten times as far from year 0.
  lemma TooEarly(a: nat, y: int, read: Stamp, t: Stamp)
    requires 10 * a <= y && y >= 10000 && ValidStamp(t) && t.date.year == y
    requires read.date.year == a && 0 <= read.date.month < 100 && read.date.day < 100
    requires read.hour < 100 && read.minute < 100 && read.second < 100 && read.milli < 1000
    ensures StampMs(read) < StampMs(t)
  {
    DaysUpper(read.date);
    DaysLower(t.date);
  }

  lemma LongYearText(ms: int)
    requires StampOf(ms).date.year >= 10000
    ensures |GenTime(ms)| >= 14 ==>
              exists a: nat :: NumberOf(GenTime(ms)[0..4]) == Some(a) && 10 * a <= StampOf(ms).date.year
  {
    var y := StampOf(ms).date.year;
    FirstFour(y);
    assert Digits(y) <= GenTime(ms);
    assert GenTime(ms)[0..4] == Digits(y)[0..4];
  }

  lemma LongYearMisread(ms: int)
    requires StampOf(ms).date.year >= 10000
    ensures ParseGenTime(GenTime(ms)) != Some(ms)
  {
    StampOfMs(ms);
    LongYearText(ms);
    MisreadAs(GenTime(ms), StampOf(ms));
  }

  lemma MisreadAs(s: Text, t: Stamp)
    requires ValidStamp(t) && t.date.year >= 10000
    requires |s| >= 14 ==> exists a: nat :: NumberOf(s[0..4]) == Some(a) && 10 * a <= t.date.year
    ensures ParseGenTime(s) != Some(StampMs(t))
  {
    if ParseGenTime(s).Some? {
      var read := ReadFields(s);
      TooEarly(read.date.year, t.date.year, read, t);
    }
  }

  lemma ReadFields(s: Text) returns (read: Stamp)
    requires ParseGenTime(s).Some?
    ensures ParseGenTime(s) == Some(StampMs(read)) && NumberOf(s[0..4]) == Some(read.date.year)
    ensures 0 <= read.date.month < 100 && read.date.day < 100
    ensures read.hour < 100 && read.minute < 100 && read.second < 100 && read.milli < 1000
  {
    TwoBelow(s[4..6]);
    TwoBelow(s[6..8]);
    TwoBelow(s[8..10]);
    TwoBelow(s[10..12]);
    TwoBelow(s[12..14]);
    MilliOfBelow(s);
    read := Stamp(Date(NumberOf(s[0..4]).value, NumberOf(s[4..6]).value, NumberOf(s[6..8]).value),
                  NumberOf(s[8..10]).value, NumberOf(s[10..12]).value, NumberOf(s[12..14]).value, MilliRest(s[14..]));
  }

  lemma MilliOfBelow(s: Text)
    requires |s| >= 14
    ensures MilliRest(s[14..]) < 1000
  {
    var rest := s[14..];
    if rest != [] && (rest[0] == DOT || rest[0] == COMMA) {
      var digits := LeadingDigits(rest[1..]);
      var f := ZeroFill(if |digits| > 3 then digits[..3] else digits);
      if NumberOf(f).Some? {
        MilliBelow(f);
      }
    }
  }

  lemma NegativeYearRefused(ms: int)
    requires StampOf(ms).date.year < 0
    ensures ParseGenTime(GenTime(ms)).None?
  {
    assert GenTime(ms)[0] == MINUS;
  }

  // What gen_time prints is parsed back exactly when the year has four digits; before year 0 it is refused,
  // and after 9999 it is refused or read as another time.
  lemma GenRoundTripExact(ms: int)
    ensures ParseGenTime(GenTime(ms)) == Some(ms) <==> 0 <= StampOf(ms).date.year < 10000
    ensures StampOf(ms).date.year < 0 ==> ParseGenTime(GenTime(ms)) == None
    ensures StampOf(ms).date.year >= 10000 ==> ParseGenTime(GenTime(ms)) != Some(ms)
  {
    var t := StampOf(ms);
    if t.date.year < 0 {
      NegativeYearRefused(ms);
    } else if t.date.year < 10000 {
      StampOfMs(ms);
      GenTimeIsText(ms);
      GenTextParses(t);
    } else {
      LongYearMisread(ms);
    }
  }

  // ----- every text that is read

  lemma {:induction false} LeadingOf(d: Text, tail: Text)
    requires AllDigits(d) && (tail == [] || !IsDigit(tail[0]))
    ensures LeadingDigits(d + tail) == d
  {
    if d == [] {
      assert d + tail == tail;
    } else {
      assert (d + tail)[1..] == d[1..] + tail;
      LeadingOf(d[1..], tail);
    }
  }

  lemma {:induction false} FilledNumber(f: Text)
    requires AllDigits(f) && |f| <= 3
    ensures NumberOf(f).Some? && NumberOf(ZeroFill(f)) == Some(NumberOf(f).value * Pow10(3 - |f|))
    decreases 3 - |f|
  {
    NumberOfExactly(f);
    if |f| < 3 {
      assert (f + [48])[..|f|] == f;
      FilledNumber(f + [48]);
      assert NumberOf(f + [48]) == Some(NumberOf(f).value * 10);
      TenMoved(NumberOf(f).value, Pow10(3 - |f| - 1));
    }
  }

  // Of a fraction three digits count, and fewer stand for as many of a second as they would in decimal.
  lemma MilliMeaning(d: Text, tail: Text)
    requires AllDigits(d) && (tail == [] || !IsDigit(tail[0]))
    ensures var n := Min(|d|, 3);
            NumberOf(d[..n]).Some? && MilliOf(d + tail) == NumberOf(d[..n]).value * Pow10(3 - n)
  {
    var n := Min(|d|, 3);
    LeadingOf(d, tail);
    assert d[..n] == if |d| > 3 then d[..3] else d;
    FilledNumber(d[..n]);
  }

  // Exactly the texts that begin with fourteen digits are read; a point or comma after them begins a fraction,
  // and what else follows is not looked at.
  lemma GenAccepted(s: Text)
    ensures ParseGenTime(s).Some? <==> |s| >= 14 && AllDigits(s[..14])
    ensures ParseGenTime(s).Some? ==>
              ParseGenTime(s).value
              == StampMs(Stamp(Date(NumberOf(s[0..4]).GetOr(0), NumberOf(s[4..6]).GetOr(0), NumberOf(s[6..8]).GetOr(0)),
                               NumberOf(s[8..10]).GetOr(0), NumberOf(s[10..12]).GetOr(0), NumberOf(s[12..14]).GetOr(0),
                               if |s| > 14 && (s[14] == 46 || s[14] == 44) then MilliOf(s[15..]) else 0))
  {
    if |s| >= 14 {
      PartDigits(s, 0, 4);
      PartDigits(s, 4, 6);
      PartDigits(s, 6, 8);
      PartDigits(s, 8, 10);
      PartDigits(s, 10, 12);
      PartDigits(s, 12, 14);
      FirstFourteen(s);
      assert |s| > 14 ==> s[14..][0] == s[14] && s[14..][1..] == s[15..];
    }
  }

  lemma FirstFourteen(s: Text)
    requires |s| >= 14
    ensures AllDigits(s[..14]) <==> forall i :: 0 <= i < 14 ==> IsDigit(s[i])
  {
    if AllDigits(s[..14]) {
      forall i | 0 <= i < 14
        ensures IsDigit(s[i])
      {
        assert IsDigit(s[..14][i]);
      }
    }
  }

  // ----- length

  lemma {:induction false} DigitsShort(n: nat)
    ensures |Digits(n)| <= n + 1
  {
    if n >= 10 {
      DigitsShort(n / 10);
    }
  }

  lemma PadShort(n: int, width: nat)
    requires width <= 4
    ensures |PadInt(n, width)| <= Max(n, -n) + 6
  {
    DigitsShort(if n >= 0 then n else -n);
  }

  lemma YearBound(ms: int)
    requires -TWO63 <= ms < TWO63
    ensures -300_000_000 < StampOf(ms).date.year < 300_000_000
  {
    StampOfMs(ms);
    var d := StampOf(ms).date;
    if d.year >= 1 {
      DaysLower(d);
    } else {
      DaysBelow(d);
    }
  }

  lemma DaysBelow(d: Date)
    requires d.year <= 0 && 0 <= d.month <= 12 && d.day <= 31
    ensures DaysFromCivil(d) <= 365 * d.year + 1000
  {
  }

  lemma FieldsShort(t: Stamp)
    requires ValidStamp(t) && -300_000_000 < t.date.year < 300_000_000
    ensures |PadInt(t.date.year, 4) + PadInt(t.date.month, 2) + PadInt(t.date.day, 2)
             + (PadInt(t.hour, 2) + PadInt(t.minute, 2) + PadInt(t.second, 2)
                + [DOT] + PadInt(t.milli, 3) + [ZED])| < TWO32 / 4
  {
    PadShort(t.date.year, 4);
    PadShort(t.date.month, 2);
    PadShort(t.date.day, 2);
    PadShort(t.hour, 2);
    PadShort(t.minute, 2);
    PadShort(t.second, 2);
    PadShort(t.milli, 3);
  }

  // The text of any 64-bit time is short enough for a length octet count.
  lemma GenTimeShort(ms: int)
    requires -TWO63 <= ms < TWO63
    ensures |GenTime(ms)| < TWO32 / 4
  {
    StampOfMs(ms);
    YearBound(ms);
    GenLayout(ms);
    FieldsShort(StampOf(ms));
  }

  // As in parse_ms, exactly day 00 of month 03 leaves a machine word, and a wrapping build reads the same days.
  lemma GenTrapsExactly(s: Text)
    requires ParseGenTime(s).Some?
    ensures var d := Date(NumberOf(s[0..4]).value, NumberOf(s[4..6]).value, NumberOf(s[6..8]).value);
            && (Traps(d) <==> d.month == 3 && d.day == 0) && WrappedDays(d) == DaysFromCivil(d)
  {
    FourBelow(s[0..4]);
    TwoBelow(s[4..6]);
    TwoBelow(s[6..8]);
    var d := Date(NumberOf(s[0..4]).value, NumberOf(s[4..6]).value, NumberOf(s[6..8]).value);
    FourDigitsFit(d);
    TrapsExactly(d);
    WrappedIsExact(d);
  }
}
