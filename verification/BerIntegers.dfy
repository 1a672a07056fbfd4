// INTEGER content octets (section 8.3 of ITU-T X.690) as adapters/iec61850-rust/src/ber.rs
// writes them from and folds them into 64-bit words.
module BerIntegers {
  import opened Octets

  // (a << 8) | x over u64, folded from the left.
  function ParseUint(b: Bytes): (v: nat)
    ensures v < TWO64
  {
    if b == [] then 0 else U64(ParseUint(b[..|b| - 1]) * 256) + b[|b| - 1]
  }

  // (v << 8) | x over i64, from -1 when the first octet is negative.
  function ParseIntFrom(v: int, b: Bytes): (r: int)
    decreases |b|
  {
    if b == [] then v else I64(ParseIntFrom(v, b[..|b| - 1]) * 256) + b[|b| - 1]
  }

  function ParseInt(b: Bytes): int {
    if b == [] then 0 else ParseIntFrom(if b[0] >= 128 then -1 else 0, b)
  }

  method ParseIntLoop(b: Bytes) returns (v: int)
    ensures v == ParseInt(b)
  {
    if |b| == 0 {
      return 0;
    }
    var start := if b[0] >= 128 then -1 else 0;
    v := start;
    for i := 0 to |b|
      invariant v == ParseIntFrom(start, b[..i])
    {
      assert b[..i + 1][..i] == b[..i];
      v := I64(v * 256) + b[i];
    }
    assert b[..|b|] == b;
  }

  // A leading octet that only repeats the sign.
  predicate Redundant(b: Bytes) {
    |b| > 1 && ((b[0] == 0 && b[1] < 128) || (b[0] == 255 && b[1] >= 128))
  }

  function StripSign(b: Bytes): (r: Bytes)
    requires b != []
    ensures r != [] && !Redundant(r) && |r| <= |b|
  {
    if Redundant(b) then StripSign(b[1..]) else b
  }

  // v.to_be_bytes() without its redundant leading octets.
  function IntBytes(v: int): (b: Bytes)
    ensures 1 <= |b| <= 8
  {
    StripSign(ToBE(U64(v), 8))
  }

  method IntBytesLoop(v: int) returns (out: Bytes)
    ensures out == IntBytes(v)
  {
    var b := ToBE(U64(v), 8);
    var i := 0;
    while i < 7 && ((b[i] == 0 && b[i + 1] < 128) || (b[i] == 255 && b[i + 1] >= 128))
      invariant 0 <= i <= 7
      invariant StripSign(b[i..]) == StripSign(b)
    {
      assert b[i..][1..] == b[i + 1..];
      i := i + 1;
    }
    return b[i..];
  }

  // Up to seven leading zero octets removed.
  function StripZeros(b: Bytes): (r: Bytes)
    requires b != []
    ensures r != [] && |r| <= |b|
  {
    if |b| > 1 && b[0] == 0 then StripZeros(b[1..]) else b
  }

  function UintBytes(v: nat): (b: Bytes)
    ensures 1 <= |b| <= 9
  {
    var d := StripZeros(ToBE(v, 8));
    if d[0] >= 128 then [0] + d else d
  }

  // ----- what the octets mean

  // The two's-complement number of content octets.
  function Signed(b: Bytes): int {
    if b != [] && b[0] >= 128 then FromBE(b) - Pow256(|b|) else FromBE(b)
  }

  lemma {:induction false} ParseUintValue(b: Bytes)
    ensures ParseUint(b) == U64(FromBE(b))
  {
    if b == [] {
    } else {
      var c := b[..|b| - 1];
      ParseUintValue(c);
      WrapShift(FromBE(c), b[|b| - 1]);
    }
  }

  lemma WrapShift(x: int, y: Octet)
    ensures U64(U64(x) * 256) + y == U64(x * 256 + y)
  {
    var r := U64(x);
    ModShift(x * 256 + y, r * 256 + y, TWO64, x / TWO64 * 256);
    var q := r / (TWO64 / 256);
    ModUnique(r * 256, TWO64, q, r * 256 - q * TWO64);
    ModUnique(r * 256 + y, TWO64, q, r * 256 - q * TWO64 + y);
  }

  lemma {:induction false} ParseIntFromValue(v: int, b: Bytes)
    requires b != [] && -1 <= v <= 0
    ensures ParseIntFrom(v, b) == I64(v * Pow256(|b|) + FromBE(b))
  {
    var c := b[..|b| - 1];
    if c == [] {
    } else {
      ParseIntFromValue(v, c);
    }
    var x := v * Pow256(|c|) + FromBE(c);
    assert v * Pow256(|b|) + FromBE(b) == x * 256 + b[|b| - 1] by {
      assert v * (256 * Pow256(|c|)) == v * Pow256(|c|) * 256;
    }
    SignedWrapShift(x, b[|b| - 1]);
    if c == [] {
      assert b[0] == b[|b| - 1];
    }
  }

  lemma SignedWrapShift(x: int, y: Octet)
    ensures I64(I64(x) * 256) + y == I64(x * 256 + y)
  {
    var r := I64(x);
    var k := (x + TWO63) / TWO64;
    assert x == r + k * TWO64;
    ModShift(x * 256 + y + TWO63, r * 256 + y + TWO63, TWO64, k * 256);
    var q := (r + TWO63 / 256) / (TWO64 / 256);
    ModUnique(r * 256 + TWO63, TWO64, q, r * 256 + TWO63 - q * TWO64);
    ModUnique(r * 256 + y + TWO63, TWO64, q, r * 256 + y + TWO63 - q * TWO64);
  }

  // parse_int keeps the low 64 bits of the two's-complement number.
  lemma ParseIntValue(b: Bytes)
    ensures ParseInt(b) == I64(Signed(b))
  {
    if b != [] {
      ParseIntFromValue(if b[0] >= 128 then -1 else 0, b);
    }
  }

  lemma {:induction false} StripSignValue(b: Bytes)
    requires b != []
    ensures Signed(StripSign(b)) == Signed(b)
  {
    if Redundant(b) {
      StripSignValue(b[1..]);
      FromBEHead(b);
      assert Pow256(|b|) == 256 * Pow256(|b| - 1);
    }
  }

  lemma {:induction false} StripZerosValue(b: Bytes)
    requires b != []
    ensures FromBE(StripZeros(b)) == FromBE(b)
  {
    if |b| > 1 && b[0] == 0 {
      StripZerosValue(b[1..]);
      FromBEHead(b);
    }
  }

  lemma SignedOfWord(v: int)
    requires IsI64(v)
    ensures Signed(ToBE(U64(v), 8)) == v
  {
    var b := ToBE(U64(v), 8);
    WordValue(U64(v));
    Pow256Values();
    assert U64(v) == if v < 0 then v + TWO64 else v;
  }

  lemma WordValue(u: nat)
    requires u < TWO64
    ensures FromBE(ToBE(u, 8)) == u && (ToBE(u, 8)[0] >= 128 <==> u >= TWO63)
  {
    FromToBE(u, 8);
    Pow256Values();
    WordTop(ToBE(u, 8));
  }

  lemma WordTop(b: Bytes)
    requires |b| == 8
    ensures b[0] >= 128 <==> FromBE(b) >= TWO63
  {
    FromBEHead(b);
    FromBEBound(b[1..]);
    TopOctet(b[0], FromBE(b[1..]));
  }

  // The first of eight octets is 128 or more exactly when the number is 2^63 or more.
  lemma TopOctet(x: Octet, low: nat)
    requires low < Pow256(7)
    ensures x >= 128 <==> x * Pow256(7) + low >= TWO63
  {
    Pow256Values();
    assert Pow256(8) == 256 * Pow256(7);
  }

  lemma IntBytesMeaning(v: int)
    requires IsI64(v)
    ensures Signed(IntBytes(v)) == v
  {
    StripSignValue(ToBE(U64(v), 8));
    SignedOfWord(v);
  }

  lemma IntRoundTrip(v: int)
    requires IsI64(v)
    ensures ParseInt(IntBytes(v)) == v
  {
    IntBytesMeaning(v);
    ParseIntValue(IntBytes(v));
  }

  lemma UintBytesMeaning(v: nat)
    requires IsU64(v)
    ensures FromBE(UintBytes(v)) == v && UintBytes(v)[0] < 128
  {
    var b := ToBE(v, 8);
    WordValue(v);
    StripZerosValue(b);
    FromBEHead([0] + StripZeros(b));
    assert ([0] + StripZeros(b))[1..] == StripZeros(b);
  }

  lemma UintRoundTrip(v: nat)
    requires IsU64(v)
    ensures ParseUint(UintBytes(v)) == v
  {
    UintBytesMeaning(v);
    ParseUintValue(UintBytes(v));
  }

  // Reading unsigned content as a signed number is right exactly below 2^63.
  lemma UintReadAsInt(v: nat)
    requires IsU64(v)
    ensures ParseInt(UintBytes(v)) == I64(v)
    ensures ParseInt(UintBytes(v)) == v <==> v < TWO63
  {
    UintBytesMeaning(v);
    ParseIntValue(UintBytes(v));
  }

  // n octets hold exactly the numbers from -128 * 256^(n-1) up to 128 * 256^(n-1).
  lemma SignedBound(b: Bytes)
    requires b != []
    ensures -128 * Pow256(|b| - 1) <= Signed(b) < 128 * Pow256(|b| - 1)
  {
    FromBEHead(b);
    FromBEBound(b[1..]);
    DigitBound(b[0], Pow256(|b| - 1), FromBE(b[1..]));
  }

  lemma DigitBound(x: Octet, p: nat, low: nat)
    requires low < p
    ensures var s := x * p + low - if x >= 128 then 256 * p else 0; -128 * p <= s < 128 * p
  {
    if x >= 128 {
      Scaled(x - 128, p);
      Scaled(255 - x, p);
    } else {
      Scaled(x, p);
      Scaled(127 - x, p);
    }
  }

  lemma Scaled(a: nat, p: nat)
    ensures a * p >= 0
  {
  }

  // Content without a redundant octet does not fit in one octet less.
  lemma IrredundantNeedsAll(b: Bytes)
    requires |b| > 1 && !Redundant(b)
    ensures Signed(b) >= 128 * Pow256(|b| - 2) || Signed(b) < -128 * Pow256(|b| - 2)
  {
    FromBEHead(b);
    FromBEHead(b[1..]);
    FromBEBound(b[1..][1..]);
    TwoDigits(b[0], b[1], Pow256(|b| - 2), FromBE(b[1..][1..]));
  }

  lemma TwoDigits(x: Octet, y: Octet, p: nat, low: nat)
    requires low < p && !(x == 0 && y < 128) && !(x == 255 && y >= 128)
    ensures var s := x * (256 * p) + (y * p + low) - if x >= 128 then 256 * (256 * p) else 0;
            s >= 128 * p || s < -128 * p
  {
    var d := (if x >= 128 then x - 256 else x) * 256 + y;
    assert d >= 128 || d <= -129;
    assert d * p == x * (256 * p) + y * p - if x >= 128 then 256 * (256 * p) else 0;
    assert d >= 128 ==> d * p >= 128 * p;
    assert d <= -129 ==> d * p <= -129 * p;
  }

  lemma PowMonotone(m: nat, n: nat)
    requires m <= n
    ensures Pow256(m) <= Pow256(n)
    decreases n
  {
    if m < n {
      PowMonotone(m, n - 1);
    }
  }

  // No shorter content denotes the same number.
  lemma IntBytesShortest(v: int, b: Bytes)
    requires IsI64(v) && b != [] && Signed(b) == v
    ensures |IntBytes(v)| <= |b|
  {
    var w := IntBytes(v);
    IntBytesMeaning(v);
    if |b| < |w| {
      IrredundantNeedsAll(w);
      SignedBound(b);
      PowMonotone(|b| - 1, |w| - 2);
      assert false;
    }
  }

  lemma {:induction false} StripZerosTop(b: Bytes)
    requires b != []
    ensures |StripZeros(b)| == 1 || StripZeros(b)[0] != 0
  {
    if |b| > 1 && b[0] == 0 {
      StripZerosTop(b[1..]);
    }
  }

  // Nor is there shorter content for an unsigned number that an INTEGER's reader takes for it.
  lemma UintBytesShortest(v: nat, b: Bytes)
    requires IsU64(v) && b != [] && Signed(b) == v
    ensures Signed(UintBytes(v)) == v && |UintBytes(v)| <= |b|
  {
    var w := UintBytes(v);
    UintBytesMeaning(v);
    StripZerosTop(ToBE(v, 8));
    if |b| < |w| {
      IrredundantNeedsAll(w);
      SignedBound(b);
      PowMonotone(|b| - 1, |w| - 2);
      assert false;
    }
  }
}
