// RFC 3339 text of milliseconds since 1970 and back: format_ms and parse_ms of
// adapters/iec61850-rust/src/timefmt.rs.
module TimeFormat {
  import opened Octets
  import opened Calendar

  const MINUS: Octet := 45
  const DOT: Octet := 46
  const COLON: Octet := 58
  const TEE: Octet := 84
  const ZED: Octet := 90

  predicate IsDigit(c: Octet) {
    48 <= c <= 57
  }

  function Val(c: Octet): int {
    c - 48
  }

  // ----- format_ms

  function Digits(n: nat): (s: Text)
    ensures s != [] && forall c :: c in s ==> IsDigit(c)
  {
    if n < 10 then [48 + n] else Digits(n / 10) + [48 + n % 10]
  }

  function ZeroPad(s: Text, width: int): (r: Text)
    ensures |r| == if |s| < width then width else |s|
    ensures |s| >= width ==> r == s
    decreases width - |s|
  {
    if |s| < width then ZeroPad([48] + s, width) else s
  }

  // {:0width} of Rust: a sign counts as one of the width characters.
  function PadInt(n: int, width: nat): Text {
    if n >= 0 then ZeroPad(Digits(n), width) else [MINUS] + ZeroPad(Digits(-n), width - 1)
  }

  function Base(secs: int): Text {
    var (days, sod) := (secs / 86400, secs % 86400);
    var d := CivilFromDays(days);
    PadInt(d.year, 4) + [MINUS] + PadInt(d.month, 2) + [MINUS] + PadInt(d.day, 2) + [TEE]
    + PadInt(sod / 3600, 2) + [COLON] + PadInt(sod / 60 % 60, 2) + [COLON] + PadInt(sod % 60, 2)
  }

  function FormatMs(ms: int): Text {
    Base(ms / 1000) + [DOT] + PadInt(ms % 1000, 3) + [ZED]
  }

  // ----- parse_ms

  function NumberOf(s: Text): Option<nat> {
    if s == [] then Some(0)
    else
      var c, rest := s[|s| - 1], NumberOf(s[..|s| - 1]);
      if IsDigit(c) && rest.Some? then Some(rest.value * 10 + Val(c)) else None
  }

  // The position after a run of fraction digits, how many of them count (nine at most) and their number.
  function Fraction(s: Text, p: nat, digits: nat, ns: nat): (r: (nat, nat, nat))
    requires p <= |s|
    ensures p <= r.0 <= |s|
    decreases |s| - p
  {
    if p < |s| && IsDigit(s[p]) then
      if digits < 9 then Fraction(s, p + 1, digits + 1, ns * 10 + Val(s[p])) else Fraction(s, p + 1, digits, ns)
    else (p, digits, ns)
  }

  function Scale(digits: nat, ns: nat): nat
    decreases 9 - digits
  {
    if digits < 9 then Scale(digits + 1, ns * 10) else ns
  }

  predicate Separated(s: Text)
    requires |s| >= 20
  {
    s[4] == MINUS && s[7] == MINUS && s[10] == TEE && s[13] == COLON && s[16] == COLON
  }

  function MsOfFraction(digits: nat, ns: nat): nat {
    (Scale(digits, ns) + 500_000) / 1_000_000
  }

  function ParseMs(s: Text): Option<int> {
    if |s| < 20 || !Separated(s) then None
    else
      match (NumberOf(s[0..4]), NumberOf(s[5..7]), NumberOf(s[8..10]),
             NumberOf(s[11..13]), NumberOf(s[14..16]), NumberOf(s[17..19]))
      case (Some(y), Some(mo), Some(d), Some(h), Some(mi), Some(se)) =>
        var (p, ms) :=
          if s[19] == DOT then var (q, digits, ns) := Fraction(s, 20, 0, 0); (q, MsOfFraction(digits, ns))
          else (19, 0);
        if p + 1 != |s| || s[p] != ZED then None
        else Some(StampMs(Stamp(Date(y, mo, d), h, mi, se, ms)))
      case _ => None
  }

  method ParseMsLoop(s: Text) returns (r: Option<int>)
    ensures r == ParseMs(s)
  {
    if |s| < 20 || !Separated(s) {
      return None;
    }
    var y, mo, d := NumberOf(s[0..4]), NumberOf(s[5..7]), NumberOf(s[8..10]);
    var h, mi, se := NumberOf(s[11..13]), NumberOf(s[14..16]), NumberOf(s[17..19]);
    if y.None? || mo.None? || d.None? || h.None? || mi.None? || se.None? {
      return None;
    }
    var p, ms := 19, 0;
    if s[p] == DOT {
      p := p + 1;
      var digits: nat, ns: nat := 0, 0;
      while p < |s| && IsDigit(s[p])
        invariant 20 <= p <= |s|
        invariant Fraction(s, 20, 0, 0) == Fraction(s, p, digits, ns)
      {
        if digits < 9 {
          ns := ns * 10 + Val(s[p]);
          digits := digits + 1;
        }
        p := p + 1;
      }
      ghost var scanned := (digits, ns);
      while digits < 9
        invariant Scale(scanned.0, scanned.1) == Scale(digits, ns)
      {
        ns := ns * 10;
        digits := digits + 1;
      }
      ms := (ns + 500_000) / 1_000_000;
    }
    if p + 1 != |s| || s[p] != ZED {
      return None;
    }
    var days := DaysFromCivil(Date(y.value, mo.value, d.value));
    return Some((days * 86400 + h.value * 3600 + mi.value * 60 + se.value) * 1000 + ms);
  }

  // ----- timestamps as fields

  datatype Stamp = Stamp(date: Date, hour: int, minute: int, second: int, milli: int)

  function StampMs(t: Stamp): int {
    (DaysFromCivil(t.date) * 86400 + t.hour * 3600 + t.minute * 60 + t.second) * 1000 + t.milli
  }

  function StampOf(ms: int): Stamp {
    var secs := ms / 1000;
    var sod := secs % 86400;
    Stamp(CivilFromDays(secs / 86400), sod / 3600, sod / 60 % 60, sod % 60, ms % 1000)
  }

  predicate ValidTime(t: Stamp) {
    0 <= t.hour < 24 && 0 <= t.minute < 60 && 0 <= t.second < 60 && 0 <= t.milli < 1000
  }

  // A calendar date and a time of day.
  predicate ValidStamp(t: Stamp) {
    ValidDate(t.date) && ValidTime(t)
  }

  // Every field fits its columns.
  predicate Printable(t: Stamp) {
    && 0 <= t.date.year < 10000 && 0 <= t.date.month < 100 && 0 <= t.date.day < 100
    && 0 <= t.hour < 100 && 0 <= t.minute < 100 && 0 <= t.second < 100 && 0 <= t.milli < 1000
  }

  function Two(n: int): (s: Text)
    requires 0 <= n < 100
    ensures |s| == 2
  {
    [48 + n / 10, 48 + n % 10]
  }

  function Three(n: int): (s: Text)
    requires 0 <= n < 1000
    ensures |s| == 3
  {
    [48 + n / 100, 48 + n / 10 % 10, 48 + n % 10]
  }

  function Four(n: int): (s: Text)
    requires 0 <= n < 10000
    ensures |s| == 4
  {
    [48 + n / 1000, 48 + n / 100 % 10, 48 + n / 10 % 10, 48 + n % 10]
  }

  function DateLayout(y: Text, mo: Text, d: Text): Text {
    y + [MINUS] + mo + [MINUS] + d
  }

  function ClockLayout(h: Text, mi: Text, se: Text, ms: Text): Text {
    h + [COLON] + mi + [COLON] + se + [DOT] + ms + [ZED]
  }

  function StampText(t: Stamp): (s: Text)
    requires Printable(t)
    ensures |s| == 24
  {
    DateLayout(Four(t.date.year), Two(t.date.month), Two(t.date.day)) + [TEE]
    + ClockLayout(Two(t.hour), Two(t.minute), Two(t.second), Three(t.milli))
  }

  lemma StampOfMs(ms: int)
    ensures ValidStamp(StampOf(ms)) && StampMs(StampOf(ms)) == ms
  {
    CivilOfDays(ms / 1000 / 86400);
    var sod := ms / 1000 % 86400;
    assert sod == sod / 3600 * 3600 + sod / 60 % 60 * 60 + sod % 60 by {
      assert sod / 60 / 60 == sod / 3600;
    }
  }

  lemma StampOfStampMs(t: Stamp)
    requires ValidStamp(t)
    ensures StampOf(StampMs(t)) == t
  {
    var days, sod := DaysFromCivil(t.date), t.hour * 3600 + t.minute * 60 + t.second;
    ModUnique(StampMs(t), 1000, days * 86400 + sod, t.milli);
    ModUnique(days * 86400 + sod, 86400, days, sod);
    ModUnique(sod, 3600, t.hour, t.minute * 60 + t.second);
    ModUnique(sod, 60, t.hour * 60 + t.minute, t.second);
    ModUnique(t.hour * 60 + t.minute, 60, t.hour, t.minute);
    DaysOfCivil(t.date);
  }

  // ----- printing

  lemma Pad2(n: nat)
    requires n < 100
    ensures PadInt(n, 2) == Two(n)
  {
    if n < 10 {
      ZeroPadOne(Digits(n));
    } else {
      assert Digits(n / 10) == [48 + n / 10];
    }
  }

  lemma Pad3(n: nat)
    requires n < 1000
    ensures PadInt(n, 3) == Three(n)
  {
    if n < 10 {
      ZeroPadOne(Digits(n));
    } else if n < 100 {
      assert Digits(n / 10) == [48 + n / 10];
      ZeroPadTwo(Digits(n));
    } else {
      assert Digits(n / 10 / 10) == [48 + n / 100];
      assert Digits(n / 10) == [48 + n / 100, 48 + n / 10 % 10];
    }
  }

  lemma Pad4(n: nat)
    requires n < 10000
    ensures PadInt(n, 4) == Four(n)
  {
    if n < 10 {
      ZeroPadOne(Digits(n));
    } else if n < 100 {
      assert Digits(n / 10) == [48 + n / 10];
      ZeroPadTwo(Digits(n));
    } else if n < 1000 {
      assert Digits(n / 10 / 10) == [48 + n / 100];
      assert ZeroPad(Digits(n), 4) == ZeroPad([48] + Digits(n), 4);
    } else {
      assert Digits(n / 10 / 10 / 10) == [48 + n / 1000];
    }
  }

  // A negative number begins with its sign, which counts as one of the characters, and zeros go after it.
  lemma SignedPad(n: int, width: nat) returns (zeros: nat)
    requires n < 0
    ensures |PadInt(n, width)| == Max(width, |Digits(-n)| + 1)
    ensures PadInt(n, width) == [45] + seq(zeros, _ => 48) + Digits(-n)
  {
    zeros := PaddedZeros(Digits(-n), width - 1);
    assert [45] + (seq(zeros, _ => 48) + Digits(-n)) == [45] + seq(zeros, _ => 48) + Digits(-n);
  }

  lemma {:induction false} PaddedZeros(s: Text, width: int) returns (zeros: nat)
    ensures ZeroPad(s, width) == seq(zeros, _ => 48) + s
    decreases width - |s|
  {
    if |s| < width {
      var n := PaddedZeros([48] + s, width);
      zeros := n + 1;
      assert seq(n, _ => 48) + ([48] + s) == seq(zeros, _ => 48) + s;
    } else {
      zeros := 0;
    }
  }

  lemma ZeroPadOne(d: Text)
    requires |d| == 1
    ensures ZeroPad(d, 2) == [48] + d && ZeroPad(d, 3) == [48, 48] + d && ZeroPad(d, 4) == [48, 48, 48] + d
  {
    assert [48] + ([48] + d) == [48, 48] + d;
    assert [48] + ([48, 48] + d) == [48, 48, 48] + d;
    ZeroPadTwo([48] + d);
  }

  lemma ZeroPadTwo(d: Text)
    requires |d| == 2
    ensures ZeroPad(d, 2) == d && ZeroPad(d, 3) == [48] + d && ZeroPad(d, 4) == [48, 48] + d
  {
    assert ZeroPad([48] + d, 4) == ZeroPad([48] + ([48] + d), 4);
    assert [48] + ([48] + d) == [48, 48] + d;
  }

  // The fields as format_ms lays them out.
  lemma FormatLayout(ms: int)
    ensures var t := StampOf(ms);
            FormatMs(ms) == DateLayout(PadInt(t.date.year, 4), PadInt(t.date.month, 2), PadInt(t.date.day, 2)) + [TEE]
                            + ClockLayout(PadInt(t.hour, 2), PadInt(t.minute, 2),
                                          PadInt(t.second, 2), PadInt(t.milli, 3))
  {
    var t := StampOf(ms);
    Regroup(DateLayout(PadInt(t.date.year, 4), PadInt(t.date.month, 2), PadInt(t.date.day, 2)) + [TEE],
            PadInt(t.hour, 2), PadInt(t.minute, 2), PadInt(t.second, 2), PadInt(t.milli, 3));
  }

  lemma Regroup(pre: Text, h: Text, mi: Text, se: Text, ms: Text)
    ensures pre + h + [COLON] + mi + [COLON] + se + [DOT] + ms + [ZED] == pre + ClockLayout(h, mi, se, ms)
  {
  }

  lemma FormatIsStampText(ms: int)
    requires 0 <= StampOf(ms).date.year < 10000
    ensures Printable(StampOf(ms)) && FormatMs(ms) == StampText(StampOf(ms))
  {
    var t := StampOf(ms);
    StampOfMs(ms);
    FormatLayout(ms);
    Pad4(t.date.year);
    Pad2(t.date.month);
    Pad2(t.date.day);
    Pad2(t.hour);
    Pad2(t.minute);
    Pad2(t.second);
    Pad3(t.milli);
  }

  // ----- parsing

  lemma NumberOfTwo(s: Text)
    requires |s| == 2 && IsDigit(s[0]) && IsDigit(s[1])
    ensures NumberOf(s) == Some(Val(s[0]) * 10 + Val(s[1]))
  {
    assert s[..1][..0] == [];
    assert NumberOf(s[..1]) == Some(Val(s[0]));
  }

  lemma NumberOfFour(s: Text)
    requires |s| == 4 && IsDigit(s[0]) && IsDigit(s[1]) && IsDigit(s[2]) && IsDigit(s[3])
    ensures NumberOf(s) == Some(Val(s[0]) * 1000 + Val(s[1]) * 100 + Val(s[2]) * 10 + Val(s[3]))
  {
    NumberOfTwo(s[..2]);
    assert s[..3][..2] == s[..2];
    assert NumberOf(s[..3]) == Some(Val(s[0]) * 100 + Val(s[1]) * 10 + Val(s[2]));
  }

  lemma ThreeDigitFraction(s: Text)
    requires |s| == 24 && IsDigit(s[20]) && IsDigit(s[21]) && IsDigit(s[22]) && !IsDigit(s[23])
    ensures var ms := Val(s[20]) * 100 + Val(s[21]) * 10 + Val(s[22]);
            Fraction(s, 20, 0, 0) == (23, 3, ms) && MsOfFraction(3, ms) == ms
  {
    var ms := Val(s[20]) * 100 + Val(s[21]) * 10 + Val(s[22]);
    assert Fraction(s, 23, 3, ms) == (23, 3, ms);
    assert Fraction(s, 22, 2, Val(s[20]) * 10 + Val(s[21])) == Fraction(s, 23, 3, ms);
    assert Fraction(s, 21, 1, Val(s[20])) == Fraction(s, 22, 2, Val(s[20]) * 10 + Val(s[21]));
    assert Scale(6, ms * 1000) == Scale(7, ms * 10000) == ms * 1000000;
    assert Scale(3, ms) == Scale(4, ms * 10) == Scale(5, ms * 100) == Scale(6, ms * 1000);
  }

  // The layout YYYY-MM-DDThh:mm:ss.mmmZ.
  predicate HasLayout(s: Text) {
    && |s| == 24 && Separated(s) && s[19] == DOT && s[23] == ZED
    && (forall i :: 0 <= i < 24 && i !in {4, 7, 10, 13, 16, 19, 23} ==> IsDigit(s[i]))
  }

  function FieldsOf(s: Text): Stamp
    requires HasLayout(s)
  {
    Stamp(Date(Val(s[0]) * 1000 + Val(s[1]) * 100 + Val(s[2]) * 10 + Val(s[3]),
               Val(s[5]) * 10 + Val(s[6]), Val(s[8]) * 10 + Val(s[9])),
          Val(s[11]) * 10 + Val(s[12]), Val(s[14]) * 10 + Val(s[15]), Val(s[17]) * 10 + Val(s[18]),
          Val(s[20]) * 100 + Val(s[21]) * 10 + Val(s[22]))
  }

  lemma NumbersOfLayout(s: Text)
    requires HasLayout(s)
    ensures var t := FieldsOf(s);
            && NumberOf(s[0..4]) == Some(t.date.year) && NumberOf(s[5..7]) == Some(t.date.month)
            && NumberOf(s[8..10]) == Some(t.date.day) && NumberOf(s[11..13]) == Some(t.hour)
            && NumberOf(s[14..16]) == Some(t.minute) && NumberOf(s[17..19]) == Some(t.second)
  {
    NumberOfFour(s[0..4]);
    NumberOfTwo(s[5..7]);
    NumberOfTwo(s[8..10]);
    NumberOfTwo(s[11..13]);
    NumberOfTwo(s[14..16]);
    NumberOfTwo(s[17..19]);
  }

  lemma ParseLayout(s: Text)
    requires HasLayout(s)
    ensures ParseMs(s) == Some(StampMs(FieldsOf(s)))
  {
    NumbersOfLayout(s);
    ThreeDigitFraction(s);
  }

  lemma TextOfFields(s: Text)
    requires HasLayout(s)
    ensures Printable(FieldsOf(s)) && StampText(FieldsOf(s)) == s
  {
    DateTexts(s);
    ClockTexts(s);
    CutFields(s);
  }

  lemma DateTexts(s: Text)
    requires HasLayout(s)
    ensures var d := FieldsOf(s).date;
            && 0 <= d.year < 10000 && 0 <= d.month < 100 && 0 <= d.day < 100
            && Four(d.year) == s[0..4] && Two(d.month) == s[5..7] && Two(d.day) == s[8..10]
  {
    FourBack(s[0..4]);
    TwoBack(s[5..7]);
    TwoBack(s[8..10]);
  }

  lemma ClockTexts(s: Text)
    requires HasLayout(s)
    ensures var t := FieldsOf(s);
            && 0 <= t.hour < 100 && 0 <= t.minute < 100 && 0 <= t.second < 100 && 0 <= t.milli < 1000
            && Two(t.hour) == s[11..13] && Two(t.minute) == s[14..16] && Two(t.second) == s[17..19]
            && Three(t.milli) == s[20..23]
  {
    TwoBack(s[11..13]);
    TwoBack(s[14..16]);
    TwoBack(s[17..19]);
    ThreeBack(s[20..23]);
  }

  lemma CutFields(s: Text)
    requires |s| == 24 && Separated(s) && s[19] == DOT && s[23] == ZED
    ensures s == DateLayout(s[0..4], s[5..7], s[8..10]) + [TEE]
            + ClockLayout(s[11..13], s[14..16], s[17..19], s[20..23])
  {
    assert s[..10] == DateLayout(s[0..4], s[5..7], s[8..10]);
    assert s[11..] == ClockLayout(s[11..13], s[14..16], s[17..19], s[20..23]);
    assert s == s[..10] + [TEE] + s[11..];
  }

  lemma TwoBack(s: Text)
    requires |s| == 2 && IsDigit(s[0]) && IsDigit(s[1])
    ensures Two(Val(s[0]) * 10 + Val(s[1])) == s
  {
  }

  lemma ThreeBack(s: Text)
    requires |s| == 3 && IsDigit(s[0]) && IsDigit(s[1]) && IsDigit(s[2])
    ensures Three(Val(s[0]) * 100 + Val(s[1]) * 10 + Val(s[2])) == s
  {
    var a, b, c := Val(s[0]), Val(s[1]), Val(s[2]);
    ModUnique(a * 100 + b * 10 + c, 10, a * 10 + b, c);
    ModUnique(a * 100 + b * 10 + c, 100, a, b * 10 + c);
    ModUnique(a * 10 + b, 10, a, b);
  }

  lemma FourBack(s: Text)
    requires |s| == 4 && IsDigit(s[0]) && IsDigit(s[1]) && IsDigit(s[2]) && IsDigit(s[3])
    ensures Four(Val(s[0]) * 1000 + Val(s[1]) * 100 + Val(s[2]) * 10 + Val(s[3])) == s
  {
    var a, b, c, d := Val(s[0]), Val(s[1]), Val(s[2]), Val(s[3]);
    var n := a * 1000 + b * 100 + c * 10 + d;
    ModUnique(n, 10, a * 100 + b * 10 + c, d);
    ModUnique(n, 100, a * 10 + b, c * 10 + d);
    ModUnique(n, 1000, a, b * 100 + c * 10 + d);
    ModUnique(a * 100 + b * 10 + c, 10, a * 10 + b, c);
    ModUnique(a * 10 + b, 10, a, b);
  }

  lemma FieldsOfText(t: Stamp)
    requires Printable(t)
    ensures HasLayout(StampText(t)) && FieldsOf(StampText(t)) == t
  {
    var y, s := t.date.year, StampText(t);
    var date := DateLayout(Four(y), Two(t.date.month), Two(t.date.day));
    var clock := ClockLayout(Two(t.hour), Two(t.minute), Two(t.second), Three(t.milli));
    assert s[..10] == date && s[11..] == clock;
    DigitSum(y);
    DigitSum(t.milli);
  }

  lemma DigitSum(n: nat)
    ensures n == n / 1000 * 1000 + n / 100 % 10 * 100 + n / 10 % 10 * 10 + n % 10
    ensures n == n / 100 * 100 + n / 10 % 10 * 10 + n % 10
  {
    assert n / 100 == n / 10 / 10 && n / 1000 == n / 10 / 10 / 10;
  }

  // ----- both ways

  // Text in the layout whose fields are a calendar date and a time of day.
  predicate IsTimestamp(s: Text) {
    HasLayout(s) && ValidStamp(FieldsOf(s))
  }

  // Every timestamp prints back as it was read.
  lemma FormatOfParse(s: Text)
    requires IsTimestamp(s)
    ensures ParseMs(s).Some? && FormatMs(ParseMs(s).value) == s
  {
    ParseLayout(s);
    TextOfFields(s);
    StampOfStampMs(FieldsOf(s));
    FormatIsStampText(StampMs(FieldsOf(s)));
  }

  lemma DigitsLong(n: nat)
    requires n >= 10000
    ensures |Digits(n)| >= 5
  {
    assert |Digits(n / 10 / 10 / 10)| >= 2;
    assert |Digits(n / 10 / 10)| >= 3;
  }

  lemma OtherYearRejected(ms: int)
    requires !(0 <= StampOf(ms).date.year < 10000)
    ensures ParseMs(FormatMs(ms)).None?
  {
    var y, s := StampOf(ms).date.year, FormatMs(ms);
    var p := PadInt(y, 4);
    FormatLayout(ms);
    assert p <= s;
    if y < 0 {
      SignRejected(s);
    } else {
      DigitsLong(y);
      assert p[4] in Digits(y);
    }
  }

  lemma SignRejected(s: Text)
    requires s != [] && s[0] == MINUS
    ensures ParseMs(s).None?
  {
    if |s| >= 20 {
      NotANumber(s[0..4], 0);
    }
  }

  lemma {:induction false} NotANumber(s: Text, i: nat)
    requires i < |s| && !IsDigit(s[i])
    ensures NumberOf(s).None?
  {
    if i < |s| - 1 {
      NotANumber(s[..|s| - 1], i);
    }
  }

  // What format_ms prints is a timestamp and parses back exactly when the year has four digits.
  lemma ParseOfFormat(ms: int)
    ensures ParseMs(FormatMs(ms)) == Some(ms) <==> 0 <= StampOf(ms).date.year < 10000
    ensures 0 <= StampOf(ms).date.year < 10000 ==> IsTimestamp(FormatMs(ms))
  {
    var t := StampOf(ms);
    if 0 <= t.date.year < 10000 {
      StampOfMs(ms);
      FormatIsStampText(ms);
      FieldsOfText(t);
      ParseLayout(StampText(t));
    } else {
      OtherYearRejected(ms);
    }
  }

  // ----- every text that is read

  function Pow10(n: nat): (p: nat)
    ensures p > 0
  {
    if n == 0 then 1 else 10 * Pow10(n - 1)
  }

  predicate AllDigits(s: Text) {
    forall i :: 0 <= i < |s| ==> IsDigit(s[i])
  }

  lemma {:induction false} NumberOfExactly(s: Text)
    ensures NumberOf(s).Some? <==> AllDigits(s)
  {
    if s != [] {
      NumberOfExactly(s[..|s| - 1]);
      assert AllDigits(s) <==> AllDigits(s[..|s| - 1]) && IsDigit(s[|s| - 1]) by {
        assert forall i :: 0 <= i < |s| - 1 ==> s[..|s| - 1][i] == s[i];
      }
    }
  }

  // The layout YYYY-MM-DDThh:mm:ssZ, with a point and any number of digits before the Z or without.
  predicate Accepted(s: Text) {
    && |s| >= 20 && s[4] == 45 && s[7] == 45 && s[10] == 84 && s[13] == 58 && s[16] == 58 && s[|s| - 1] == 90
    && (forall i :: 0 <= i < 19 && i !in {4, 7, 10, 13, 16} ==> IsDigit(s[i]))
    && (|s| == 20 || (s[19] == 46 && AllDigits(s[20..|s| - 1])))
  }

  // The fraction ends at the first character that is no digit; nine digits of it count.
  lemma {:induction false} FractionEnd(s: Text, p: nat, digits: nat, ns: nat, e: nat)
    requires 20 <= p <= e <= |s| && (e == |s| || !IsDigit(s[e])) && forall i :: p <= i < e ==> IsDigit(s[i])
    requires digits == Min(p - 20, 9) && NumberOf(s[20..20 + digits]) == Some(ns)
    ensures var n := Min(e - 20, 9);
            NumberOf(s[20..20 + n]).Some? && Fraction(s, p, digits, ns) == (e, n, NumberOf(s[20..20 + n]).value)
    decreases e - p
  {
    if p < e {
      if digits < 9 {
        assert s[20..p + 1][..digits] == s[20..p];
        FractionEnd(s, p + 1, digits + 1, ns * 10 + Val(s[p]), e);
      } else {
        FractionEnd(s, p + 1, digits, ns, e);
      }
    }
  }

  lemma {:induction false} FractionStops(s: Text, p: nat, digits: nat, ns: nat)
    requires p <= |s|
    ensures var q := Fraction(s, p, digits, ns).0;
            (q == |s| || !IsDigit(s[q])) && forall i :: p <= i < q ==> IsDigit(s[i])
    decreases |s| - p
  {
    if p < |s| && IsDigit(s[p]) {
      if digits < 9 {
        FractionStops(s, p + 1, digits + 1, ns * 10 + Val(s[p]));
      } else {
        FractionStops(s, p + 1, digits, ns);
      }
    }
  }

  predicate HeadRead(s: Text)
    requires |s| >= 20
  {
    && Separated(s) && NumberOf(s[0..4]).Some? && NumberOf(s[5..7]).Some? && NumberOf(s[8..10]).Some?
    && NumberOf(s[11..13]).Some? && NumberOf(s[14..16]).Some? && NumberOf(s[17..19]).Some?
  }

  lemma HeadReadExactly(s: Text)
    requires |s| >= 20
    ensures HeadRead(s) <==>
              && s[4] == 45 && s[7] == 45 && s[10] == 84 && s[13] == 58 && s[16] == 58
              && (forall i :: 0 <= i < 19 && i !in {4, 7, 10, 13, 16} ==> IsDigit(s[i]))
  {
    PartDigits(s, 0, 4);
    PartDigits(s, 5, 7);
    PartDigits(s, 8, 10);
    PartDigits(s, 11, 13);
    PartDigits(s, 14, 16);
    PartDigits(s, 17, 19);
  }

  lemma PartDigits(s: Text, i: nat, j: nat)
    requires i <= j <= |s|
    ensures NumberOf(s[i..j]).Some? <==> forall k :: i <= k < j ==> IsDigit(s[k])
  {
    NumberOfExactly(s[i..j]);
    assert forall k :: i <= k < j ==> s[i..j][k - i] == s[k];
    if AllDigits(s[i..j]) {
      forall k | i <= k < j
        ensures IsDigit(s[k])
      {
        assert IsDigit(s[i..j][k - i]);
      }
    }
  }

  // Exactly the texts of the layout are read, whatever the numbers in it.
  lemma AcceptedExactly(s: Text)
    ensures ParseMs(s).Some? <==> Accepted(s)
  {
    if |s| >= 20 {
      HeadReadExactly(s);
      if HeadRead(s) && s[19] == DOT {
        FractionStops(s, 20, 0, 0);
        var q := Fraction(s, 20, 0, 0).0;
        if Accepted(s) {
          TailDigits(s);
          FractionEnd(s, 20, 0, 0, |s| - 1);
        }
        if q == |s| - 1 {
          TailFrom(s);
        }
      }
    }
  }

  lemma TailFrom(s: Text)
    requires |s| > 20 && forall i :: 20 <= i < |s| - 1 ==> IsDigit(s[i])
    ensures AllDigits(s[20..|s| - 1])
  {
  }

  lemma TailDigits(s: Text)
    requires |s| > 20 && AllDigits(s[20..|s| - 1])
    ensures forall i :: 20 <= i < |s| - 1 ==> IsDigit(s[i])
  {
    forall i | 20 <= i < |s| - 1
      ensures IsDigit(s[i])
    {
      assert IsDigit(s[20..|s| - 1][i - 20]);
    }
  }

  lemma Cancel(a: int, b: int, q: int)
    requires q > 0
    ensures a * q <= b * q ==> a <= b
    ensures a * q < b * q ==> a < b
  {
    var d := a - b;
    assert a * q == b * q + d * q;
    assert d >= 1 ==> d * q >= q;
  }

  lemma {:induction false} PowersOfTen(n: nat)
    requires n <= 9
    ensures Pow10(n) * Pow10(9 - n) == 1_000_000_000
    ensures forall ns: nat :: Scale(n, ns) == ns * Pow10(9 - n)
    decreases 9 - n
  {
    if n == 9 {
      assert Pow10(9) == 10 * Pow10(8) == 100 * Pow10(7) == 1000 * Pow10(6);
      assert Pow10(6) == 10 * Pow10(5) == 100 * Pow10(4) == 1000 * Pow10(3);
      assert Pow10(3) == 10 * Pow10(2) == 100 * Pow10(1);
    } else {
      PowersOfTen(n + 1);
      TenMoved(Pow10(n), Pow10(9 - (n + 1)));
      forall ns: nat
        ensures Scale(n, ns) == ns * Pow10(9 - n)
      {
        assert Scale(n, ns) == Scale(n + 1, ns * 10);
        TenMoved(ns, Pow10(9 - (n + 1)));
      }
    }
  }

  lemma TenMoved(a: nat, b: nat)
    ensures 10 * a * b == a * (10 * b)
  {
  }

  lemma Regrouped(a: int, p: int, q: int)
    ensures a * p * q == a * (p * q)
  {
  }

  lemma NearestScaled(a: int, b: int, x: int, p: int, q: int)
    requires p * q == 1_000_000_000 && q > 0 && a * 1_000_000 <= 2 * (x * q) < b * 1_000_000
    ensures a * p <= 2000 * x < b * p
  {
    Regrouped(a, p, q);
    Regrouped(b, p, q);
    Regrouped(2000, x, q);
    Cancel(a * p, 2000 * x, q);
    Cancel(2000 * x, b * p, q);
  }

  lemma Nearest(scaled: nat, ms: nat)
    requires ms == (scaled + 500_000) / 1_000_000
    ensures (2 * ms - 1) * 1_000_000 <= 2 * scaled < (2 * ms + 1) * 1_000_000
  {
  }

  // The milliseconds are the nearest to the fraction of n digits, upward in the middle.
  lemma NearestMs(n: nat, ns: nat)
    requires n <= 9
    ensures var ms: int := MsOfFraction(n, ns); (2 * ms - 1) * Pow10(n) <= 2000 * ns < (2 * ms + 1) * Pow10(n)
  {
    PowersOfTen(n);
    var ms: int := MsOfFraction(n, ns);
    Nearest(Scale(n, ns), ms);
    NearestScaled(2 * ms - 1, 2 * ms + 1, ns, Pow10(n), Pow10(9 - n));
  }

  // The fields before the fraction.
  function HeadOf(s: Text): Stamp
    requires |s| >= 20
  {
    Stamp(Date(NumberOf(s[0..4]).GetOr(0), NumberOf(s[5..7]).GetOr(0), NumberOf(s[8..10]).GetOr(0)),
          NumberOf(s[11..13]).GetOr(0), NumberOf(s[14..16]).GetOr(0), NumberOf(s[17..19]).GetOr(0), 0)
  }

  // How many digits of the fraction count, and their number.
  function FractionOf(s: Text): (nat, nat)
    requires |s| >= 20
  {
    var n := if |s| == 20 then 0 else Min(|s| - 21, 9);
    (n, if n == 0 then 0 else NumberOf(s[20..20 + n]).GetOr(0))
  }

  lemma ReadParts(s: Text)
    requires Accepted(s)
    ensures var (n, ns) := FractionOf(s);
            n <= 9 && ParseMs(s) == Some(StampMs(HeadOf(s)) + if |s| == 20 then 0 else MsOfFraction(n, ns))
  {
    HeadReadExactly(s);
    if |s| > 20 {
      TailDigits(s);
      FractionEnd(s, 20, 0, 0, |s| - 1);
      assert |s| == 21 ==> s[20..20] == [];
    }
  }

  // A text that is read denotes its fields, and the milliseconds nearest to its fraction, upward in the middle;
  // nine digits of the fraction count.
  lemma ReadMeaning(s: Text)
    requires Accepted(s)
    ensures ParseMs(s).Some?
    ensures var (n, ns) := FractionOf(s);
            var ms := ParseMs(s).value - StampMs(HeadOf(s));
            (2 * ms - 1) * Pow10(n) <= 2000 * ns < (2 * ms + 1) * Pow10(n)
  {
    ReadParts(s);
    var (n, ns) := FractionOf(s);
    if |s| > 20 {
      NearestMs(n, ns);
    } else {
      assert Pow10(0) == 1;
    }
  }

  // ----- machine words

  // parse_ms gets to the calendar, with this date.
  function DateOf(s: Text): Option<Date> {
    if ParseMs(s).None? then None
    else Some(Date(NumberOf(s[0..4]).value, NumberOf(s[5..7]).value, NumberOf(s[8..10]).value))
  }

  lemma TwoBelow(s: Text)
    requires |s| == 2 && NumberOf(s).Some?
    ensures NumberOf(s).value < 100
  {
    assert s[..1][..0] == [];
    assert NumberOf(s[..1]).Some?;
  }

  lemma FourBelow(s: Text)
    requires |s| == 4 && NumberOf(s).Some?
    ensures NumberOf(s).value < 10000
  {
    assert s[..3][..2] == s[..2];
    assert NumberOf(s[..3]).Some?;
    TwoBelow(s[..2]);
  }

  // Of all texts that parse_ms accepts, exactly those of day 00 of month 03 leave a machine word on the way;
  // what a wrapping build makes of them is what is said here of unbounded integers.
  lemma ParseTrapsExactly(s: Text)
    requires DateOf(s).Some?
    ensures Traps(DateOf(s).value) <==> NumberOf(s[5..7]) == Some(3) && NumberOf(s[8..10]) == Some(0)
    ensures WrappedDays(DateOf(s).value) == DaysFromCivil(DateOf(s).value)
  {
    FourBelow(s[0..4]);
    TwoBelow(s[5..7]);
    TwoBelow(s[8..10]);
    FourDigitsFit(DateOf(s).value);
    TrapsExactly(DateOf(s).value);
    WrappedIsExact(DateOf(s).value);
  }
}
