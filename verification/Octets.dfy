// Octets, big-endian numbers and the option and result types every other module uses.
// Shifts and masks of the sources are written as the arithmetic they perform:
// b >> k is b / 2^k, b & (2^k - 1) is b % 2^k, and u64 or u32 arithmetic is taken modulo 2^64 or 2^32.
module Octets {

  type Octet = x: int | 0 <= x < 256
  type Bytes = seq<Octet>

  // Text is the octets of a string.
  type Text = Bytes

  function Ascii(s: string): Text {
    seq(|s|, i requires 0 <= i < |s| => s[i] as int % 256)
  }

  datatype Option<+T> = None | Some(value: T) {
    function GetOr(default: T): T {
      match this
      case Some(v) => v
      case None => default
    }
  }

  datatype Result<+T, +E> = Ok(value: T) | Err(error: E)

  const TWO32: int := 0x1_0000_0000
  const TWO63: int := 0x8000_0000_0000_0000
  const TWO64: int := 0x1_0000_0000_0000_0000

  function Min(a: nat, b: nat): nat {
    if a < b then a else b
  }

  function Max(a: int, b: int): int {
    if a < b then b else a
  }

  // `x as u32`, `x as u64` and `x as i64` of Rust.
  function U32(x: int): (r: nat)
    ensures r < TWO32 && (0 <= x < TWO32 ==> r == x)
  {
    x % TWO32
  }

  function U64(x: int): (r: nat)
    ensures r < TWO64 && (0 <= x < TWO64 ==> r == x)
  {
    x % TWO64
  }

  function I64(x: int): (r: int)
    ensures -TWO63 <= r < TWO63 && (-TWO63 <= x < TWO63 ==> r == x)
  {
    (x + TWO63) % TWO64 - TWO63
  }

  predicate IsI64(v: int) {
    -TWO63 <= v < TWO63
  }

  predicate IsU64(v: int) {
    0 <= v < TWO64
  }

  lemma ModShift(a: int, b: int, m: int, k: int)
    requires m > 0 && a == b + k * m
    ensures a % m == b % m
  {
    var qb, rb := b / m, b % m;
    assert b == qb * m + rb;
    assert a == (qb + k) * m + rb;
    ModUnique(a, m, qb + k, rb);
  }

  lemma ModUnique(a: int, m: int, q: int, r: int)
    requires m > 0 && 0 <= r < m && a == q * m + r
    ensures a / m == q && a % m == r
  {
    var d := a / m - q;
    assert a == (a / m) * m + a % m;
    assert d * m == r - a % m;
    assert d >= 1 ==> d * m >= m;
    assert d <= -1 ==> d * m <= -m;
  }

  // 256 to the power n.
  function Pow256(n: nat): (p: nat)
    ensures p >= 1
  {
    if n == 0 then 1 else 256 * Pow256(n - 1)
  }

  // 2 to the power n.
  function Pow2(n: nat): (p: nat)
    ensures p > 0
  {
    if n == 0 then 1 else 2 * Pow2(n - 1)
  }

  lemma Pow256Values()
    ensures Pow256(1) == 256 && Pow256(2) == 65536 && Pow256(3) == 0x100_0000
    ensures Pow256(4) == TWO32 && Pow256(8) == TWO64
  {
    assert Pow256(2) == 256 * Pow256(1);
    assert Pow256(4) == 256 * Pow256(3) == 256 * 256 * Pow256(2);
    assert Pow256(6) == 256 * Pow256(5) == 256 * 256 * Pow256(4);
    assert Pow256(8) == 256 * Pow256(7) == 256 * 256 * Pow256(6);
  }

  // The number a big-endian octet string denotes.
  function FromBE(b: Bytes): (v: nat) {
    if b == [] then 0 else FromBE(b[..|b| - 1]) * 256 + b[|b| - 1]
  }

  // The n low octets of v, most significant first.
  function ToBE(v: nat, n: nat): (b: Bytes)
    ensures |b| == n
  {
    if n == 0 then [] else ToBE(v / 256, n - 1) + [v % 256]
  }

  lemma {:induction false} FromToBE(v: nat, n: nat)
    ensures FromBE(ToBE(v, n)) == v % Pow256(n)
  {
    if n == 0 {
    } else {
      var b := ToBE(v, n);
      assert b[..n - 1] == ToBE(v / 256, n - 1);
      FromToBE(v / 256, n - 1);
      LowDigits(v, Pow256(n - 1));
    }
  }

  lemma LowDigits(v: nat, p: nat)
    requires p > 0
    ensures v / 256 % p * 256 + v % 256 == v % (256 * p)
  {
    var q, r := v / 256 / p, v / 256 % p;
    ModUnique(v, 256 * p, q, r * 256 + v % 256) by {
      assert v / 256 == q * p + r;
      assert q * (256 * p) == q * p * 256;
    }
  }

  lemma WordBack(v: nat, n: nat)
    requires v < Pow256(n)
    ensures FromBE(ToBE(v, n)) == v
  {
    FromToBE(v, n);
  }

  lemma {:induction false} FromBEBound(b: Bytes)
    ensures FromBE(b) < Pow256(|b|)
  {
    if b == [] {
    } else {
      FromBEBound(b[..|b| - 1]);
    }
  }

  lemma ShiftUp(x: int, p: int, y: int)
    ensures (x * p + y) * 256 == x * (256 * p) + y * 256
  {
  }

  lemma {:induction false} FromBEConcat(a: Bytes, b: Bytes)
    ensures FromBE(a + b) == FromBE(a) * Pow256(|b|) + FromBE(b)
  {
    if b == [] {
      assert a + b == a;
    } else {
      var c := b[..|b| - 1];
      assert (a + b)[..|a + b| - 1] == a + c;
      FromBEConcat(a, c);
      ShiftUp(FromBE(a), Pow256(|c|), FromBE(c));
    }
  }

  // Splitting off the first octet.
  lemma FromBEHead(b: Bytes)
    requires b != []
    ensures FromBE(b) == b[0] * Pow256(|b| - 1) + FromBE(b[1..])
  {
    FromBEConcat(b[..1], b[1..]);
    assert b == b[..1] + b[1..];
    assert FromBE(b[..1]) == b[0] by {
      assert b[..1][..0] == [];
    }
  }

  lemma Slices(a: Bytes, b: Bytes, c: Bytes)
    ensures (a + b + c)[..|a|] == a && (a + b + c)[|a|..|a| + |b|] == b
  {
  }

  lemma PrefixNext<T>(s: seq<T>, i: nat)
    requires i < |s|
    ensures s[..i + 1] == s[..i] + [s[i]]
  {
  }
}
