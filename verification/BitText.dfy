// Bit strings, quality words and hex text (adapters/iec61850-rust/src/typed.rs and sv.rs).
module BitText {
  import opened Octets

  const ZERO: Octet := 48
  const ONE: Octet := 49
  const PLUS: Octet := 43

  predicate IsBinary(s: Text) {
    forall i :: 0 <= i < |s| ==> s[i] == ZERO || s[i] == ONE
  }

  function BitChar(b: bool): Octet {
    if b then ONE else ZERO
  }

  // ----- MMS bit strings, most significant bit first

  // 0x80 >> k.
  function Weight(k: nat): (w: nat)
    requires k < 8
    ensures w > 0
  {
    if k == 0 then 128 else if k == 1 then 64 else if k == 2 then 32 else if k == 3 then 16
    else if k == 4 then 8 else if k == 5 then 4 else if k == 6 then 2 else 1
  }

  predicate BitSet(x: Octet, k: nat)
    requires k < 8
  {
    x / Weight(k) % 2 == 1
  }

  function BitCharAt(data: Bytes, i: nat): Octet
    requires i < 8 * |data|
  {
    BitChar(BitSet(data[i / 8], i % 8))
  }

  function BitsString(padding: nat, data: Bytes): (s: Text) {
    var n := if 8 * |data| > padding then 8 * |data| - padding else 0;
    seq(n, i requires 0 <= i < n => BitCharAt(data, i))
  }

  // 1 when position p of s holds a one.
  function BitOf(s: Text, p: nat): (b: nat)
    ensures b <= 1
  {
    if p < |s| && s[p] == ONE then 1 else 0
  }

  function PackOctet(s: Text, j: nat): Octet {
    128 * BitOf(s, 8 * j) + 64 * BitOf(s, 8 * j + 1) + 32 * BitOf(s, 8 * j + 2) + 16 * BitOf(s, 8 * j + 3)
    + 8 * BitOf(s, 8 * j + 4) + 4 * BitOf(s, 8 * j + 5) + 2 * BitOf(s, 8 * j + 6) + BitOf(s, 8 * j + 7)
  }

  function PackTo(s: Text, m: nat): (data: Bytes)
    ensures |data| == m
  {
    seq(m, j requires 0 <= j => PackOctet(s, j))
  }

  function OctetsFor(bits: nat): nat {
    (bits + 7) / 8
  }

  // The octets of a binary text.
  function Pack(s: Text): Bytes {
    PackTo(s, OctetsFor(|s|))
  }

  // How many bits of the last octet are unused.
  function PaddingOf(n: nat): nat {
    (8 - n % 8) % 8
  }

  function BitsValue(s: Text): Option<(nat, Bytes)> {
    if IsBinary(s) then Some((PaddingOf(|s|), Pack(s))) else None
  }

  // data[i / 8] |= 0x80 >> (i % 8)
  function SetBit(x: Octet, k: nat): Octet
    requires k < 8
  {
    if BitSet(x, k) then x else x + Weight(k)
  }

  method BitsValueLoop(s: Text) returns (r: Option<(nat, Bytes)>)
    ensures r == BitsValue(s)
  {
    var n := |s|;
    var data: Bytes := seq(OctetsFor(n), _ => 0);
    assert data == PackTo(s[..0], OctetsFor(n));
    for i := 0 to n
      invariant IsBinary(s[..i])
      invariant data == PackTo(s[..i], OctetsFor(n))
    {
      OctetIndex(i, n);
      PackNext(s, i, OctetsFor(n));
      BinaryNext(s, i);
      if s[i] == ONE {
        data := data[i / 8 := SetBit(data[i / 8], i % 8)];
      } else if s[i] != ZERO {
        return None;
      }
    }
    assert s[..n] == s;
    return Some((PaddingOf(n), data));
  }

  lemma OctetIndex(i: nat, n: nat)
    requires i < n
    ensures i / 8 < OctetsFor(n)
  {
  }

  lemma BinaryNext(s: Text, i: nat)
    requires i < |s|
    ensures IsBinary(s[..i + 1]) <==> IsBinary(s[..i]) && (s[i] == ZERO || s[i] == ONE)
    ensures s[i] != ZERO && s[i] != ONE ==> !IsBinary(s)
  {
    var a, b := s[..i], s[..i + 1];
    assert b == a + [s[i]];
    if IsBinary(b) {
      assert forall k :: 0 <= k < i ==> a[k] == b[k];
      assert b[i] == s[i];
    }
  }

  // Taking one more character changes one bit of one octet.
  lemma PackOctetNext(s: Text, i: nat, j: nat)
    requires i < |s|
    ensures PackOctet(s[..i + 1], j)
            == if j == i / 8 && s[i] == ONE then SetBit(PackOctet(s[..i], j), i % 8) else PackOctet(s[..i], j)
  {
    var a, b := s[..i], s[..i + 1];
    assert forall p: nat :: p != i ==> BitOf(b, p) == BitOf(a, p);
    assert forall p: nat :: p >= i ==> BitOf(a, p) == 0;
    if j == i / 8 {
      assert i == 8 * j + i % 8;
      PackedBit(a, j, i % 8);
    } else {
      assert !(8 * j <= i < 8 * j + 8);
    }
  }

  lemma PackNext(s: Text, i: nat, m: nat)
    requires i < |s| && i / 8 < m
    ensures var data := PackTo(s[..i], m);
            PackTo(s[..i + 1], m) == if s[i] == ONE then data[i / 8 := SetBit(data[i / 8], i % 8)] else data
  {
    forall j | 0 <= j < m {
      PackOctetNext(s, i, j);
    }
  }

  lemma PackedBit(s: Text, j: nat, k: nat)
    requires k < 8
    ensures BitSet(PackOctet(s, j), k) <==> BitOf(s, 8 * j + k) == 1
  {
    EightBits(BitOf(s, 8 * j), BitOf(s, 8 * j + 1), BitOf(s, 8 * j + 2), BitOf(s, 8 * j + 3),
              BitOf(s, 8 * j + 4), BitOf(s, 8 * j + 5), BitOf(s, 8 * j + 6), BitOf(s, 8 * j + 7));
    BitsOfOctet(PackOctet(s, j));
    if k == 0 {
    } else if k == 1 {
    } else if k == 2 {
    } else if k == 3 {
    } else if k == 4 {
    } else if k == 5 {
    } else if k == 6 {
    } else {
    }
  }

  lemma BitsOfOctet(x: Octet)
    ensures (BitSet(x, 0) <==> x / 128 % 2 == 1) && (BitSet(x, 1) <==> x / 64 % 2 == 1)
            && (BitSet(x, 2) <==> x / 32 % 2 == 1)
    ensures (BitSet(x, 3) <==> x / 16 % 2 == 1) && (BitSet(x, 4) <==> x / 8 % 2 == 1)
            && (BitSet(x, 5) <==> x / 4 % 2 == 1)
    ensures (BitSet(x, 6) <==> x / 2 % 2 == 1) && (BitSet(x, 7) <==> x % 2 == 1)
  {
  }

  lemma EightBits(a: nat, b: nat, c: nat, d: nat, e: nat, f: nat, g: nat, h: nat)
    requires a <= 1 && b <= 1 && c <= 1 && d <= 1 && e <= 1 && f <= 1 && g <= 1 && h <= 1
    ensures var x := 128 * a + 64 * b + 32 * c + 16 * d + 8 * e + 4 * f + 2 * g + h;
            && x / 128 % 2 == a && x / 64 % 2 == b && x / 32 % 2 == c && x / 16 % 2 == d
            && x / 8 % 2 == e && x / 4 % 2 == f && x / 2 % 2 == g && x % 2 == h
  {
    var x := 128 * a + 64 * b + 32 * c + 16 * d + 8 * e + 4 * f + 2 * g + h;
    assert x / 2 == 64 * a + 32 * b + 16 * c + 8 * d + 4 * e + 2 * f + g;
    assert x / 4 == 32 * a + 16 * b + 8 * c + 4 * d + 2 * e + f;
    assert x / 8 == 16 * a + 8 * b + 4 * c + 2 * d + e;
    assert x / 16 == 8 * a + 4 * b + 2 * c + d;
    assert x / 32 == 4 * a + 2 * b + c;
    assert x / 64 == 2 * a + b;
  }

  // Binary text of any length comes back from its packed form.
  lemma BitsRoundTrip(s: Text)
    requires IsBinary(s)
    ensures BitsString(PaddingOf(|s|), Pack(s)) == s
  {
    PaddedLength(|s|);
    forall i | 0 <= i < |s|
      ensures BitCharAt(Pack(s), i) == s[i]
    {
      PackedBit(s, i / 8, i % 8);
    }
  }

  lemma PaddedLength(n: nat)
    ensures 8 * OctetsFor(n) - PaddingOf(n) == n
  {
  }

  // ----- quality words, least significant bit first

  function Word(bits: Text): nat {
    if bits == [] then 0 else BitOf(bits, 0) + 2 * Word(bits[1..])
  }

  function QualityWord(bits: Text): Option<nat> {
    if |bits| <= 32 && IsBinary(bits) then Some(Word(bits)) else None
  }

  method QualityWordLoop(bits: Text) returns (r: Option<nat>)
    ensures r == QualityWord(bits)
  {
    if |bits| > 32 {
      return None;
    }
    var w := 0;
    for i := 0 to |bits|
      invariant IsBinary(bits[..i])
      invariant w + Pow2(i) * Word(bits[i..]) == Word(bits)
    {
      assert bits[i..][1..] == bits[i + 1..];
      ShiftIn(Pow2(i), BitOf(bits[i..], 0), Word(bits[i + 1..]));
      BinaryNext(bits, i);
      if bits[i] == ONE {
        w := w + Pow2(i);
      } else if bits[i] != ZERO {
        return None;
      }
    }
    assert bits[..|bits|] == bits;
    return Some(w);
  }

  lemma ShiftIn(p: nat, b: nat, w: nat)
    requires b <= 1
    ensures p * (b + 2 * w) == (if b == 1 then p else 0) + 2 * p * w
  {
  }

  // The n low bits of w as text.
  function LowBits(w: nat, n: nat): (s: Text)
    ensures |s| == n && IsBinary(s)
  {
    if n == 0 then [] else [BitChar(w % 2 == 1)] + LowBits(w / 2, n - 1)
  }

  const QUALITY_BITS: nat := 13

  function QualityBits(w: nat): Text {
    LowBits(w, QUALITY_BITS)
  }

  lemma {:induction false} WordOfLowBits(w: nat, n: nat)
    ensures Word(LowBits(w, n)) == w % Pow2(n)
  {
    if n == 0 {
    } else {
      WordOfLowBits(w / 2, n - 1);
      assert LowBits(w, n)[1..] == LowBits(w / 2, n - 1);
      HalfMod(w, Pow2(n - 1));
    }
  }

  lemma HalfMod(w: nat, p: nat)
    requires p > 0
    ensures w % 2 + 2 * (w / 2 % p) == w % (2 * p)
  {
    var q, r := w / 2 / p, w / 2 % p;
    assert w / 2 == q * p + r;
    ModUnique(w, 2 * p, q, 2 * r + w % 2) by {
      assert q * (2 * p) == 2 * (q * p);
    }
  }

  // A quality keeps its low 13 bits.
  lemma QualityWordOfBits(w: nat)
    ensures QualityWord(QualityBits(w)) == Some(w % 8192)
  {
    WordOfLowBits(w, QUALITY_BITS);
    assert Pow2(13) == 8192 by {
      assert Pow2(6) == 64;
      assert Pow2(10) == 16 * Pow2(6) == 1024;
    }
  }

  // The first n characters of s, continued with zeros.
  function Fit(s: Text, n: nat): Text {
    seq(n, i requires 0 <= i => BitChar(BitOf(s, i) == 1))
  }

  lemma {:induction false} LowBitsOfWord(s: Text, n: nat)
    ensures LowBits(Word(s), n) == Fit(s, n)
  {
    if n == 0 {
    } else {
      var rest: Text := if s == [] then [] else s[1..];
      assert Word(s) / 2 == Word(rest) && Word(s) % 2 == BitOf(s, 0);
      LowBitsOfWord(rest, n - 1);
      assert forall i :: 0 <= i < n - 1 ==> BitOf(rest, i) == BitOf(s, i + 1);
    }
  }

  lemma {:induction false} WordBound(s: Text)
    ensures Word(s) < Pow2(|s|)
  {
    if s == [] {
    } else {
      WordBound(s[1..]);
    }
  }

  // ----- hex text

  function HexDigit(v: nat): Octet
    requires v < 16
  {
    if v < 10 then 48 + v else 87 + v
  }

  function HexText(b: Bytes): (s: Text)
    ensures |s| == 2 * |b|
  {
    if b == [] then [] else [HexDigit(b[0] / 16), HexDigit(b[0] % 16)] + HexText(b[1..])
  }

  function HexValue(c: Octet): Option<nat> {
    if 48 <= c <= 57 then Some(c - 48)
    else if 97 <= c <= 102 then Some(c - 87)
    else if 65 <= c <= 70 then Some(c - 55)
    else None
  }

  // u8::from_str_radix(.., 16), which also takes a plus sign before a single digit.
  function ParseHexPair(a: Octet, b: Octet): (r: Option<nat>)
    ensures r.Some? ==> r.value < 256
  {
    match (HexValue(a), HexValue(b))
    case (Some(x), Some(y)) => Some(16 * x + y)
    case (None, Some(y)) => if a == PLUS then Some(y) else None
    case _ => None
  }

  function Unhex(s: Text): Option<Bytes> {
    if s == [] then Some([])
    else if |s| == 1 then None
    else
      match (ParseHexPair(s[0], s[1]), Unhex(s[2..]))
      case (Some(x), Some(rest)) => Some([x] + rest)
      case _ => None
  }

  // The hex digit of a value below 16, of either case.
  predicate DigitFor(c: Octet, v: nat) {
    (v < 10 && c == 48 + v) || (10 <= v < 16 && (c == 87 + v || c == 55 + v))
  }

  // Two characters are read as an octet exactly when they are its two digits, of either case, or a plus sign and
  // the one digit of an octet below 16.
  lemma HexPairExactly(a: Octet, b: Octet, x: nat)
    requires x < 256
    ensures ParseHexPair(a, b) == Some(x) <==>
              (DigitFor(a, x / 16) && DigitFor(b, x % 16)) || (a == 43 && DigitFor(b, x))
  {
  }

  // Two characters for each octet.
  predicate PairsRead(s: Text, data: Bytes) {
    |s| == 2 * |data| && forall i :: 0 <= i < |data| ==> ParseHexPair(s[2 * i], s[2 * i + 1]) == Some(data[i])
  }

  // Text is read as octets exactly when it is two characters for each of them.
  lemma {:induction false} UnhexExactly(s: Text, data: Bytes)
    ensures Unhex(s) == Some(data) <==> PairsRead(s, data)
  {
    if |s| >= 2 && data != [] {
      UnhexExactly(s[2..], data[1..]);
      UnhexCons(s, data);
      PairsCons(s, data);
    }
  }

  lemma UnhexCons(s: Text, data: Bytes)
    requires |s| >= 2 && data != []
    ensures Unhex(s) == Some(data) <==>
              ParseHexPair(s[0], s[1]) == Some(data[0]) && Unhex(s[2..]) == Some(data[1..])
  {
    assert data == [data[0]] + data[1..];
    var (x, rest) := (ParseHexPair(s[0], s[1]), Unhex(s[2..]));
    if x.Some? && rest.Some? {
      assert ([x.value] + rest.value)[0] == x.value && ([x.value] + rest.value)[1..] == rest.value;
    }
  }

  lemma PairsCons(s: Text, data: Bytes)
    requires |s| >= 2 && data != []
    ensures PairsRead(s, data) <==> ParseHexPair(s[0], s[1]) == Some(data[0]) && PairsRead(s[2..], data[1..])
  {
    if PairsRead(s, data) {
      forall i | 0 <= i < |data| - 1
        ensures ParseHexPair(s[2..][2 * i], s[2..][2 * i + 1]) == Some(data[1..][i])
      {
        assert ParseHexPair(s[2 * (i + 1)], s[2 * (i + 1) + 1]) == Some(data[i + 1]);
      }
    }
    if ParseHexPair(s[0], s[1]) == Some(data[0]) && PairsRead(s[2..], data[1..]) {
      forall i | 0 <= i < |data|
        ensures ParseHexPair(s[2 * i], s[2 * i + 1]) == Some(data[i])
      {
        if i > 0 {
          assert ParseHexPair(s[2..][2 * (i - 1)], s[2..][2 * (i - 1) + 1]) == Some(data[1..][i - 1]);
        }
      }
    }
  }

  predicate IsLowerHexChar(c: Octet) {
    48 <= c <= 57 || 97 <= c <= 102
  }

  predicate IsLowerHex(s: Text) {
    |s| % 2 == 0 && forall i :: 0 <= i < |s| ==> IsLowerHexChar(s[i])
  }

  lemma HexDigitBack(v: nat)
    requires v < 16
    ensures HexValue(HexDigit(v)) == Some(v) && IsLowerHexChar(HexDigit(v))
  {
  }

  lemma HexPairBack(a: Octet, b: Octet)
    requires IsLowerHexChar(a) && IsLowerHexChar(b)
    ensures var r := ParseHexPair(a, b); r.Some? && [HexDigit(r.value / 16), HexDigit(r.value % 16)] == [a, b]
  {
  }

  lemma {:induction false} HexTextIsLower(b: Bytes)
    ensures IsLowerHex(HexText(b))
  {
    if b == [] {
    } else {
      HexTextIsLower(b[1..]);
      HexDigitBack(b[0] / 16);
      HexDigitBack(b[0] % 16);
      var pair, t := [HexDigit(b[0] / 16), HexDigit(b[0] % 16)], HexText(b[1..]);
      forall i | 0 <= i < |pair + t|
        ensures IsLowerHexChar((pair + t)[i])
      {
        assert (pair + t)[i] == if i < 2 then pair[i] else t[i - 2];
      }
    }
  }

  lemma {:induction false} UnhexOfHex(b: Bytes)
    ensures Unhex(HexText(b)) == Some(b)
  {
    if b == [] {
    } else {
      UnhexOfHex(b[1..]);
      HexDigitBack(b[0] / 16);
      HexDigitBack(b[0] % 16);
      assert HexText(b)[2..] == HexText(b[1..]);
      assert ParseHexPair(HexText(b)[0], HexText(b)[1]) == Some(b[0]);
      assert [b[0]] + b[1..] == b;
    }
  }

  lemma {:induction false} HexOfUnhex(s: Text)
    requires IsLowerHex(s)
    ensures Unhex(s).Some? && HexText(Unhex(s).value) == s
  {
    if s == [] {
    } else {
      HexOfUnhex(s[2..]);
      HexPairBack(s[0], s[1]);
      assert [s[0], s[1]] + s[2..] == s;
    }
  }

  // Hex text survives the trip through octets exactly when it is lower-case.
  lemma HexRoundTripExact(s: Text)
    ensures Unhex(s).Some? && HexText(Unhex(s).value) == s <==> IsLowerHex(s)
  {
    if IsLowerHex(s) {
      HexOfUnhex(s);
    } else if Unhex(s).Some? {
      HexTextIsLower(Unhex(s).value);
    }
  }
}
