// UtcTime and BinaryTime octets of milliseconds since 1970 and back
// (adapters/iec61850-rust/src/timefmt.rs).
module WireTime {
  import opened Octets
  import opened Calendar

  const TWO24: int := 0x100_0000
  const MS_PER_DAY: int := 86_400_000
  // 1984-01-01, the BinaryTime epoch, in milliseconds.
  const BINARY_EPOCH_MS: int := 441_763_200_000
  // What 32 bits of seconds and 16 bits of days can tell apart.
  const UTC_SPAN: int := 0x1_0000_0000 * 1000
  const BINARY_SPAN: int := 65536 * 86_400_000

  function UtcFromMs(ms: int): (raw: Bytes)
    ensures |raw| == 8
  {
    var frac := ms % 1000 * TWO24 / 1000;
    ToBE(U32(ms / 1000), 4) + ToBE(frac, 3) + [0x0a]
  }

  function UtcSeconds(raw: Bytes): nat
    requires |raw| == 8
  {
    FromBE(raw[..4])
  }

  function UtcFraction(raw: Bytes): nat
    requires |raw| == 8
  {
    FromBE(raw[4..7])
  }

  function UtcMsRounded(raw: Bytes): int
    requires |raw| == 8
  {
    var ns := UtcFraction(raw) * 1_000_000_000 / TWO24;
    UtcSeconds(raw) * 1000 + (ns + 500_000) / 1_000_000
  }

  function UtcMsTrunc(raw: Bytes): int
    requires |raw| == 8
  {
    UtcSeconds(raw) * 1000 + UtcFraction(raw) * 1000 / TWO24
  }

  function BinaryTimeFromMs(ms: int): (b: Bytes)
    ensures |b| == 6
  {
    var rel := ms - BINARY_EPOCH_MS;
    ToBE(U32(rel % MS_PER_DAY), 4) + ToBE(rel / MS_PER_DAY % 65536, 2)
  }

  // Four octets are a time of day on day 0; fewer are no time at all.
  function BinaryTimeMs(b: Bytes): int {
    if |b| < 4 then 0
    else BINARY_EPOCH_MS + (if |b| >= 6 then FromBE(b[4..6]) else 0) * MS_PER_DAY + FromBE(b[..4])
  }

  // ----- what any octets denote

  // Of any fraction, the rounding reader gives the nearest millisecond, upward in the middle, and the truncating
  // one the millisecond it lies in; the seconds are as they are and the quality is not looked at.
  lemma UtcNearest(raw: Bytes)
    requires |raw| == 8
    ensures var (sec, frac) := (FromBE(raw[..4]), FromBE(raw[4..7]));
            var (m, t) := (UtcMsRounded(raw) - sec * 1000, UtcMsTrunc(raw) - sec * 1000);
            && (2 * m - 1) * 0x100_0000 <= 2000 * frac < (2 * m + 1) * 0x100_0000
            && t * 0x100_0000 <= 1000 * frac < (t + 1) * 0x100_0000
  {
    RoundedFraction(FromBE(raw[4..7]));
  }

  lemma RoundedFraction(frac: nat)
    ensures var m := (frac * 1_000_000_000 / TWO24 + 500_000) / 1_000_000;
            (2 * m - 1) * 0x100_0000 <= 2000 * frac < (2 * m + 1) * 0x100_0000
  {
  }

  // The BinaryTime epoch is 1 January 1984. Octets short of a day count leave out the days, and octets short of a
  // time of day are 1970.
  lemma BinaryMeaning(b: Bytes)
    ensures BINARY_EPOCH_MS == DaysFromCivil(Date(1984, 1, 1)) * 86_400_000
    ensures |b| >= 6 ==> BinaryTimeMs(b) == BINARY_EPOCH_MS + FromBE(b[4..6]) * 86_400_000 + FromBE(b[..4])
    ensures 4 <= |b| < 6 ==> BinaryTimeMs(b) == BINARY_EPOCH_MS + FromBE(b[..4])
    ensures |b| < 4 ==> BinaryTimeMs(b) == 0
  {
  }

  // ----- UtcTime

  lemma UtcPartsBack(ms: int)
    ensures UtcSeconds(UtcFromMs(ms)) == U32(ms / 1000)
    ensures UtcFraction(UtcFromMs(ms)) == ms % 1000 * TWO24 / 1000
  {
    var s, frac := U32(ms / 1000), ms % 1000 * TWO24 / 1000;
    Pow256Values();
    WordBack(s, 4);
    WordBack(frac, 3);
    Slices(ToBE(s, 4), ToBE(frac, 3), [0x0a]);
  }

  // The octets: four of seconds, three of a fraction that is the largest not above the milliseconds, and a
  // quality of ten bits of accuracy.
  lemma UtcLayout(ms: int)
    ensures var raw := UtcFromMs(ms);
            && FromBE(raw[..4]) == ms / 1000 % 0x1_0000_0000 && raw[7] == 10
            && FromBE(raw[4..7]) * 1000 <= ms % 1000 * TWO24 < (FromBE(raw[4..7]) + 1) * 1000
  {
    UtcPartsBack(ms);
  }

  // Four octets of milliseconds of the day and two of days since 1984.
  lemma BinaryLayout(ms: int)
    ensures var (b, rel) := (BinaryTimeFromMs(ms), ms - BINARY_EPOCH_MS);
            && FromBE(b[..4]) == rel % MS_PER_DAY && FromBE(b[4..]) == rel / MS_PER_DAY % 65536
  {
    var rel := ms - BINARY_EPOCH_MS;
    Pow256Values();
    WordBack(U32(rel % MS_PER_DAY), 4);
    WordBack(rel / MS_PER_DAY % 65536, 2);
    Slices(ToBE(U32(rel % MS_PER_DAY), 4), ToBE(rel / MS_PER_DAY % 65536, 2), []);
    var b := BinaryTimeFromMs(ms);
    assert b[..4] == ToBE(U32(rel % MS_PER_DAY), 4) && b[4..] == ToBE(rel / MS_PER_DAY % 65536, 2);
  }

  // 2^24-ths of a second round back to the millisecond they were made from; truncated, they lose
  // one unless the millisecond is a multiple of an eighth of a second.
  lemma FractionBack(m: int)
    requires 0 <= m < 1000
    ensures var frac := m * TWO24 / 1000;
            && (frac * 1_000_000_000 / TWO24 + 500_000) / 1_000_000 == m
            && frac * 1000 / TWO24 == if m % 125 == 0 then m else m - 1
  {
    var frac, r := m * TWO24 / 1000, m * TWO24 % 1000;
    assert frac * 1000 == m * TWO24 - r;
    EighthOnly(m);
    if r == 0 {
      ModUnique(frac * 1000, TWO24, m, 0);
    } else {
      ModUnique(frac * 1000, TWO24, m - 1, TWO24 - r);
    }
    var ns := frac * 1_000_000_000 / TWO24;
    assert frac * 1_000_000_000 == m * 1_000_000 * TWO24 - r * 1_000_000;
    assert m * 1_000_000 - 60 <= ns <= m * 1_000_000;
  }

  lemma EighthOnly(m: int)
    requires 0 <= m < 1000
    ensures m * TWO24 % 1000 == 0 <==> m % 125 == 0
  {
    // 2^24 = 1000 * 16777 + 216 and 216 = 27 * 8
    ModShift(m * TWO24, m * 216, 1000, m * 16777);
    var q, r := m / 125, m % 125;
    ModShift(m * 216, r * 216, 1000, q * 27);
    EighthRest(r);
  }

  lemma EighthRest(r: int)
    requires 0 <= r < 125
    ensures r * 216 % 1000 == 0 <==> r == 0
  {
    var k := r * 216 / 1000;
    if r * 216 % 1000 == 0 {
      assert r * 27 == k * 125;
      assert 0 <= k < 27;
    }
  }

  // For every time, the round trip keeps the milliseconds modulo the 2^32 seconds the octets hold.
  lemma UtcRoundTrip(ms: int)
    ensures UtcMsRounded(UtcFromMs(ms)) == ms % UTC_SPAN
    ensures UtcMsTrunc(UtcFromMs(ms)) == ms % UTC_SPAN - if ms % 125 == 0 then 0 else 1
  {
    var s, m := ms / 1000, ms % 1000;
    UtcPartsBack(ms);
    FractionBack(m);
    ModUnique(ms, UTC_SPAN, s / TWO32, U32(s) * 1000 + m);
    ModShift(ms, m, 125, s * 8);
  }

  // Exactly the times the octets can hold come back unchanged.
  lemma UtcRoundTripExact(ms: int)
    ensures UtcMsRounded(UtcFromMs(ms)) == ms <==> 0 <= ms < UTC_SPAN
    ensures UtcMsTrunc(UtcFromMs(ms)) == ms <==> 0 <= ms < UTC_SPAN && ms % 125 == 0
  {
    UtcRoundTrip(ms);
    WithinSpan(ms, UTC_SPAN);
  }

  lemma WithinSpan(x: int, span: int)
    requires span > 1
    ensures x % span == x <==> 0 <= x < span
    ensures x % span - 1 != x
  {
  }

  // ----- BinaryTime

  lemma BinaryRoundTrip(ms: int)
    ensures BinaryTimeMs(BinaryTimeFromMs(ms)) == BINARY_EPOCH_MS + (ms - BINARY_EPOCH_MS) % BINARY_SPAN
    ensures BinaryTimeMs(BinaryTimeFromMs(ms)) == ms <==> 0 <= ms - BINARY_EPOCH_MS < BINARY_SPAN
  {
    var rel := ms - BINARY_EPOCH_MS;
    BinaryLayout(ms);
    assert BinaryTimeFromMs(ms)[4..6] == BinaryTimeFromMs(ms)[4..];
    DaysAndRest(rel);
    WithinSpan(rel, BINARY_SPAN);
  }

  lemma DaysAndRest(rel: int)
    ensures rel / MS_PER_DAY % 65536 * MS_PER_DAY + rel % MS_PER_DAY == rel % BINARY_SPAN
  {
    var days, msod := rel / MS_PER_DAY, rel % MS_PER_DAY;
    ModUnique(rel, BINARY_SPAN, days / 65536, days % 65536 * MS_PER_DAY + msod);
  }
}
