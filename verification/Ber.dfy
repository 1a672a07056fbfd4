// The BER reader and writer of adapters/iec61850-rust/src/ber.rs: tag, length and content
// octets (sections 8.1.2 and 8.1.3 of ITU-T X.690). Functions say what is read and written;
// the methods are the loops of the source, proved equal to them.
module Ber {
  import opened Octets

  const UNIV: nat := 0
  const CTX: nat := 2

  datatype Tlv = Tlv(cls: nat, cons: bool, num: nat, val: Bytes, raw: Bytes) {
    predicate Is(c: nat, k: bool, n: nat) {
      cls == c && cons == k && num == n
    }

    predicate Ctx(k: bool, n: nat) {
      Is(CTX, k, n)
    }

    // The first content octet is not zero.
    predicate Bool() {
      val != [] && val[0] != 0
    }
  }

  // ----- reading

  // The tag number continued from `pos` in base 128, and the position after it.
  function HighTag(data: Bytes, pos: nat, num: nat): (r: Option<(nat, nat)>)
    ensures r.Some? ==> pos < r.value.1 <= |data|
    decreases |data| - pos
  {
    if pos >= |data| then None
    else
      var b, n := data[pos], U32(num * 128) + data[pos] % 128;
      if b < 128 then Some((n, pos + 1))
      else if pos + 1 > 5 then None
      else HighTag(data, pos + 1, n)
  }

  function TagNumber(data: Bytes): (r: Option<(nat, nat)>)
    requires data != []
    ensures r.Some? ==> 1 <= r.value.1 <= |data|
  {
    if data[0] % 32 == 31 then HighTag(data, 1, 0) else Some((data[0] % 32, 1))
  }

  // The content length encoded at `pos`, and the position after it.
  function Length(data: Bytes, pos: nat): (r: Option<(nat, nat)>)
    ensures r.Some? ==> pos < r.value.1 <= |data|
  {
    if pos >= |data| then None
    else if data[pos] < 128 then Some((data[pos], pos + 1))
    else
      var n := data[pos] % 128;
      if n == 0 || n > 4 || pos + 1 + n > |data| then None
      else Some((FromBE(data[pos + 1..pos + 1 + n]), pos + 1 + n))
  }

  // One TLV at the start of `data`, and its total size.
  function Read(data: Bytes): (r: Option<(Tlv, nat)>)
    ensures r.Some? ==> 0 < r.value.1 <= |data| && r.value.0.raw == data[..r.value.1] && |r.value.0.val| < r.value.1
  {
    if data == [] then None
    else
      match TagNumber(data)
      case None => None
      case Some((num, pos)) =>
        match Length(data, pos)
        case None => None
        case Some((len, start)) =>
          if start + len > |data| then None
          else Some((Tlv(data[0] / 64, data[0] / 32 % 2 == 1, num, data[start..start + len], data[..start + len]),
                     start + len))
  }

  method ReadHighTag(data: Bytes) returns (r: Option<(nat, nat)>)
    requires data != []
    ensures r == HighTag(data, 1, 0)
  {
    var pos: nat, num: nat := 1, 0;
    while true
      invariant 1 <= pos <= |data|
      invariant HighTag(data, 1, 0) == HighTag(data, pos, num)
      decreases |data| - pos
    {
      if pos >= |data| {
        return None;
      }
      var b := data[pos];
      num := U32(num * 128) + b % 128;
      pos := pos + 1;
      if b < 128 {
        return Some((num, pos));
      }
      if pos > 5 {
        return None;
      }
    }
  }

  method ReadLength(data: Bytes, at: nat) returns (r: Option<(nat, nat)>)
    ensures r == Length(data, at)
  {
    var pos := at;
    if pos >= |data| {
      return None;
    }
    var l0 := data[pos];
    pos := pos + 1;
    if l0 < 128 {
      return Some((l0, pos));
    }
    var n := l0 % 128;
    if n == 0 || n > 4 {
      return None;
    }
    var l: nat := 0;
    for i := 0 to n
      invariant pos == at + 1 + i <= |data|
      invariant l == FromBE(data[at + 1..pos])
    {
      if pos >= |data| {
        return None;
      }
      assert data[at + 1..pos + 1][..pos - at - 1] == data[at + 1..pos];
      l := l * 256 + data[pos];
      pos := pos + 1;
    }
    return Some((l, pos));
  }

  method ReadTlv(data: Bytes) returns (r: Option<(Tlv, nat)>)
    ensures r == Read(data)
  {
    if |data| == 0 {
      return None;
    }
    var b0 := data[0];
    var tag := Some((b0 % 32, 1));
    if b0 % 32 == 31 {
      tag := ReadHighTag(data);
    }
    if tag.None? {
      return None;
    }
    var len := ReadLength(data, tag.value.1);
    if len.None? {
      return None;
    }
    var (num, (l, pos)) := (tag.value.0, len.value);
    if pos + l > |data| {
      return None;
    }
    return Some((Tlv(b0 / 64, b0 / 32 % 2 == 1, num, data[pos..pos + l], data[..pos + l]), pos + l));
  }

  // ----- a reader over concatenated TLVs

  // What a Reader still has to read.
  datatype Cursor = Cursor(rest: Bytes, bad: bool)

  function Open(data: Bytes): Cursor {
    Cursor(data, false)
  }

  function Next(c: Cursor): (r: (Option<Tlv>, Cursor))
    ensures r.0.Some? ==> |r.1.rest| < |c.rest| && |r.0.value.raw| + |r.1.rest| == |c.rest|
  {
    if c.bad || c.rest == [] then (None, c)
    else
      match Read(c.rest)
      case Some((t, n)) => (Some(t), Cursor(c.rest[n..], false))
      case None => (None, c.(bad := true))
  }

  function Peek(c: Cursor): Option<Tlv> {
    if c.bad then None
    else
      match Read(c.rest)
      case Some((t, _)) => Some(t)
      case None => None
  }

  // The next TLV when it has this context tag.
  function OptCtx(c: Cursor, cons: bool, num: nat): (Option<Tlv>, Cursor) {
    var p := Peek(c);
    if p.Some? && p.value.Ctx(cons, num) then Next(c) else (None, c)
  }

  // The TLVs a reader yields before the end or the first malformed one.
  function Children(data: Bytes): (ts: seq<Tlv>)
    decreases |data|
  {
    var (t, c) := Next(Open(data));
    if t.None? then [] else [t.value] + Children(c.rest)
  }

  // Reading to the end meets no malformed TLV.
  predicate Clean(data: Bytes)
    decreases |data|
  {
    var (t, c) := Next(Open(data));
    if t.None? then !c.bad else Clean(c.rest)
  }

  function First(data: Bytes): Option<Tlv> {
    Next(Open(data)).0
  }

  class Reader {
    const data: Bytes
    var pos: nat
    var bad: bool

    ghost predicate Valid()
      reads this
    {
      pos <= |data|
    }

    ghost function View(): Cursor
      requires Valid()
      reads this
    {
      Cursor(data[pos..], bad)
    }

    constructor (data: Bytes)
      ensures Valid() && View() == Open(data) && this.data == data
    {
      this.data, pos, bad := data, 0, false;
      new;
      assert data[0..] == data;
    }

    predicate More()
      requires Valid()
      reads this
      ensures More() <==> !View().bad && View().rest != []
    {
      !bad && pos < |data|
    }

    method NextTlv() returns (t: Option<Tlv>)
      requires Valid()
      modifies this
      ensures Valid() && (t, View()) == Next(old(View()))
    {
      if !More() {
        return None;
      }
      var r := ReadTlv(data[pos..]);
      match r
      case None =>
        bad := true;
        return None;
      case Some((u, n)) =>
        assert data[pos..][n..] == data[pos + n..];
        pos := pos + n;
        return Some(u);
    }

    method OptCtxTlv(cons: bool, num: nat) returns (t: Option<Tlv>)
      requires Valid()
      modifies this
      ensures Valid() && (t, View()) == OptCtx(old(View()), cons, num)
    {
      if bad {
        return None;
      }
      var r := ReadTlv(data[pos..]);
      match r
      case None => return None;
      case Some((u, _)) =>
        if u.Ctx(cons, num) {
          t := NextTlv();
        } else {
          return None;
        }
    }
  }

  // ----- writing

  // Base-128 digits of n, each with the continuation bit.
  function Groups(n: nat): (g: Bytes) {
    if n == 0 then [] else Groups(n / 128) + [128 + n % 128]
  }

  function Tag(cls: nat, cons: bool, num: nat): (b: Bytes)
    requires cls < 4
    ensures b != []
  {
    var first := cls * 64 + if cons then 32 else 0;
    if num < 31 then [first + num] else [first + 31] + Groups(num / 128) + [num % 128]
  }

  function Reverse(s: Bytes): Bytes {
    if s == [] then [] else Reverse(s[1..]) + [s[0]]
  }

  method WriteTag(cls: nat, cons: bool, num: nat) returns (out: Bytes)
    requires cls < 4
    ensures out == Tag(cls, cons, num)
  {
    var first := cls * 64 + if cons then 32 else 0;
    if num < 31 {
      return [first + num];
    }
    var groups: Bytes := [num % 128];
    var n: nat := num / 128;
    while n > 0
      invariant Groups(n) + Reverse(groups) == Groups(num / 128) + [num % 128]
    {
      ReverseSnoc(groups, 128 + n % 128);
      groups := groups + [128 + n % 128];
      n := n / 128;
    }
    assert Groups(0) + Reverse(groups) == Reverse(groups);
    return [first + 31] + Reverse(groups);
  }

  lemma {:induction false} ReverseSnoc(s: Bytes, x: Octet)
    ensures Reverse(s + [x]) == [x] + Reverse(s)
  {
    if s == [] {
      assert s + [x] == [x];
    } else {
      ReverseSnoc(s[1..], x);
      assert (s + [x])[1..] == s[1..] + [x];
    }
  }

  function DropZeros(b: Bytes): (r: Bytes)
    ensures |r| <= |b|
  {
    if b != [] && b[0] == 0 then DropZeros(b[1..]) else b
  }

  function PutLen(n: nat): (b: Bytes)
    ensures 1 <= |b| <= 5
  {
    if n < 128 then [n]
    else
      var d := DropZeros(ToBE(U32(n), 4));
      [128 + |d|] + d
  }

  function Encode(cls: nat, cons: bool, num: nat, content: Bytes): (b: Bytes)
    requires cls < 4
    ensures |b| > |content|
  {
    Tag(cls, cons, num) + PutLen(|content|) + content
  }

  function Cc(num: nat, content: Bytes): (b: Bytes)
    ensures |b| > |content|
  {
    Encode(CTX, true, num, content)
  }

  function Cp(num: nat, content: Bytes): (b: Bytes)
    ensures |b| > |content|
  {
    Encode(CTX, false, num, content)
  }

  function Sequence(content: Bytes): (b: Bytes)
    ensures |b| > |content|
  {
    Encode(UNIV, true, 16, content)
  }

  function VisibleString(s: Text): (b: Bytes)
    ensures |b| > |s|
  {
    Encode(UNIV, false, 26, s)
  }

  function BoolBytes(v: bool): Bytes {
    [if v then 255 else 0]
  }

  // A TLV whose tag is one octet.
  function OctetTagged(b: Octet, content: Bytes): Bytes {
    [b] + PutLen(|content|) + content
  }

  lemma OneOctetTag(cls: nat, cons: bool, num: nat, content: Bytes)
    requires cls < 4 && num < 31
    ensures Encode(cls, cons, num, content) == OctetTagged(cls * 64 + (if cons then 32 else 0) + num, content)
  {
  }

  lemma TwoOctetTag(num: nat, content: Bytes)
    requires 31 <= num < 128
    ensures Encode(2, true, num, content) == [0xbf, num] + PutLen(|content|) + content
  {
    assert Groups(0) == [];
    assert Tag(2, true, num) == [0xbf, num];
  }

  // ----- round trips

  lemma {:induction false} DropZerosValue(b: Bytes)
    ensures FromBE(DropZeros(b)) == FromBE(b)
    ensures FromBE(b) > 0 ==> DropZeros(b) != []
  {
    if b != [] && b[0] == 0 {
      FromBEHead(b);
      DropZerosValue(b[1..]);
    }
  }

  lemma GroupsShort(n: nat)
    requires n < 0x200_0000
    ensures |Groups(n)| <= 4
  {
    GroupsBelow(n / 128 / 128 / 128);
    assert |Groups(n / 128 / 128)| <= 2;
    assert |Groups(n / 128)| <= 3;
  }

  lemma GroupsBelow(n: nat)
    requires n < 128
    ensures |Groups(n)| <= 1
  {
    assert n > 0 ==> Groups(n) == Groups(0) + [128 + n % 128];
  }

  lemma HighTagStep(data: Bytes, pos: nat, num: nat)
    requires pos < |data| && data[pos] >= 128 && pos + 1 <= 5
    requires num < 0x20_0000
    ensures HighTag(data, pos, num) == HighTag(data, pos + 1, num * 128 + data[pos] % 128)
  {
  }

  // Reading past continuation digits accumulates their number.
  lemma {:induction false} GroupsRead(data: Bytes, n: nat)
    requires |Groups(n)| <= 4 && n < 0x1000_0000
    requires |Groups(n)| < |data| && data[1..1 + |Groups(n)|] == Groups(n)
    ensures HighTag(data, 1, 0) == HighTag(data, 1 + |Groups(n)|, n)
  {
    if n == 0 {
    } else {
      var k := |Groups(n / 128)|;
      assert data[1..1 + k] == data[1..2 + k][..k];
      GroupsRead(data, n / 128);
      assert data[1 + k] == data[1..2 + k][k] == 128 + n % 128;
      HighTagStep(data, 1 + k, n / 128);
    }
  }

  lemma FirstOctet(cls: nat, cons: bool, low: nat)
    requires cls < 4 && low < 32
    ensures var x := cls * 64 + (if cons then 32 else 0) + low;
            x / 64 == cls && (x / 32 % 2 == 1 <==> cons) && x % 32 == low
  {
    var k := if cons then 1 else 0;
    ModUnique(cls * 64 + k * 32 + low, 64, cls, k * 32 + low);
    ModUnique(cls * 64 + k * 32 + low, 32, cls * 2 + k, low);
  }

  lemma HighTagRead(d: Bytes, n: nat, x: Octet)
    requires x < 128 && n * 128 + x < TWO32
    requires |d| >= |Groups(n)| + 2 && d[1..|Groups(n)| + 2] == Groups(n) + [x]
    ensures HighTag(d, 1, 0) == Some((n * 128 + x, |Groups(n)| + 2))
  {
    var k := |Groups(n)|;
    GroupsShort(n);
    SplitLast(d, k, Groups(n), x);
    GroupsRead(d, n);
    HighTagEnd(d, 1 + k, n);
  }

  lemma SplitLast(d: Bytes, k: nat, g: Bytes, x: Octet)
    requires k == |g| && |d| >= k + 2 && d[1..k + 2] == g + [x]
    ensures d[1..1 + k] == g && d[1 + k] == x
  {
    var s := d[1..k + 2];
    assert d[1..1 + k] == s[..k];
    assert d[1 + k] == s[k];
  }

  lemma HighTagEnd(data: Bytes, pos: nat, num: nat)
    requires pos < |data| && data[pos] < 128 && num * 128 < TWO32
    ensures HighTag(data, pos, num) == Some((num * 128 + data[pos], pos + 1))
  {
  }

  lemma TagRead(cls: nat, cons: bool, num: nat, d: Bytes)
    requires cls < 4 && num < TWO32
    requires Tag(cls, cons, num) <= d
    ensures d[0] / 64 == cls && (d[0] / 32 % 2 == 1 <==> cons)
    ensures TagNumber(d) == Some((num, |Tag(cls, cons, num)|))
  {
    var t := Tag(cls, cons, num);
    FirstOctet(cls, cons, if num < 31 then num else 31);
    assert d[0] == t[0];
    if num >= 31 {
      var g := Groups(num / 128);
      assert d[1..|g| + 2] == t[1..] == g + [num % 128];
      HighTagRead(d, num / 128, num % 128);
    }
  }

  lemma DigitsOfLength(m: nat)
    requires m < TWO32
    ensures FromBE(DropZeros(ToBE(m, 4))) == m && (DropZeros(ToBE(m, 4)) == [] <==> m == 0)
  {
    FromToBE(m, 4);
    Pow256Values();
    DropZerosValue(ToBE(m, 4));
    if m == 0 {
      ZerosDrop(ToBE(m, 4));
    }
  }

  lemma PutLenRead(data: Bytes, pos: nat, n: nat)
    requires pos + |PutLen(n)| <= |data| && data[pos..pos + |PutLen(n)|] == PutLen(n)
    ensures Length(data, pos)
            == if n < 128 || U32(n) != 0 then Some((U32(n), pos + |PutLen(n)|)) else None
  {
    assert data[pos] == PutLen(n)[0];
    if n >= 128 {
      DigitsOfLength(U32(n));
      var d := DropZeros(ToBE(U32(n), 4));
      assert data[pos + 1..pos + 1 + |d|] == PutLen(n)[1..] == d;
    }
  }

  lemma {:induction false} ZerosDrop(b: Bytes)
    requires FromBE(b) == 0
    ensures DropZeros(b) == []
  {
    if b != [] {
      FromBEHead(b);
      assert b[0] > 0 ==> b[0] * Pow256(|b| - 1) > 0;
      ZerosDrop(b[1..]);
    }
  }

  // What follows a header of n content octets that ends at `start`.
  function Framed(cls: nat, cons: bool, num: nat, n: nat, start: nat, d: Bytes): Option<(Tlv, nat)> {
    if (n < 128 || U32(n) != 0) && start + U32(n) <= |d|
    then Some((Tlv(cls, cons, num, d[start..start + U32(n)], d[..start + U32(n)]), start + U32(n)))
    else None
  }

  lemma ReadFrom(cls: nat, cons: bool, num: nat, n: nat, at: nat, start: nat, d: Bytes)
    requires d != [] && d[0] / 64 == cls && (d[0] / 32 % 2 == 1 <==> cons)
    requires TagNumber(d) == Some((num, at))
    requires Length(d, at) == if n < 128 || U32(n) != 0 then Some((U32(n), start)) else None
    ensures Read(d) == Framed(cls, cons, num, n, start, d)
  {
  }

  // The header written for n content octets is read as the tag and n modulo 2^32.
  lemma HeaderRead(cls: nat, cons: bool, num: nat, n: nat, d: Bytes)
    requires cls < 4 && num < TWO32
    requires Tag(cls, cons, num) + PutLen(n) <= d
    ensures Read(d) == Framed(cls, cons, num, n, |Tag(cls, cons, num)| + |PutLen(n)|, d)
  {
    var t, l := Tag(cls, cons, num), PutLen(n);
    HeaderParts(t, l, d);
    TagRead(cls, cons, num, d);
    PutLenRead(d, |t|, n);
    ReadFrom(cls, cons, num, n, |t|, |t| + |l|, d);
  }

  lemma HeaderParts(t: Bytes, l: Bytes, d: Bytes)
    requires t + l <= d
    ensures t <= d && d[|t|..|t| + |l|] == l
  {
    assert t <= t + l;
    assert d[..|t| + |l|] == t + l;
  }

  // A TLV followed by anything is read back whole exactly when its content is below 2^32 octets.
  lemma EncodeRead(cls: nat, cons: bool, num: nat, content: Bytes, rest: Bytes)
    requires cls < 4 && num < TWO32
    ensures var e := Encode(cls, cons, num, content);
            Read(e + rest) == Some((Tlv(cls, cons, num, content, e), |e|)) <==> |content| < TWO32
  {
    var h := Tag(cls, cons, num) + PutLen(|content|);
    HeaderRead(cls, cons, num, |content|, h + content + rest);
    FramedContent(cls, cons, num, h, content, rest);
  }

  lemma FramedContent(cls: nat, cons: bool, num: nat, h: Bytes, content: Bytes, rest: Bytes)
    ensures var whole := Some((Tlv(cls, cons, num, content, h + content), |h + content|));
            Framed(cls, cons, num, |content|, |h|, h + content + rest) == whole <==> |content| < TWO32
  {
    var d, n := h + content + rest, |content|;
    if n < TWO32 {
      assert U32(n) == n;
      assert d[|h|..|h| + n] == content;
      assert d[..|h| + n] == h + content;
    } else {
      assert U32(n) < n;
    }
  }

  function Raws(ts: seq<Tlv>): Bytes {
    if ts == [] then [] else ts[0].raw + Raws(ts[1..])
  }

  predicate Wellformed(t: Tlv) {
    t.cls < 4 && t.num < TWO32 && |t.val| < TWO32 && t.raw == Encode(t.cls, t.cons, t.num, t.val)
  }

  // One step of a reader over an encoded TLV.
  lemma NextEncoded(t: Tlv, rest: Bytes)
    requires Wellformed(t)
    ensures Next(Open(t.raw + rest)) == (Some(t), Open(rest))
  {
    EncodeRead(t.cls, t.cons, t.num, t.val, rest);
    assert (t.raw + rest)[|t.raw|..] == rest;
  }

  // A reader over concatenated TLVs yields exactly those TLVs and ends with bad = false.
  lemma {:induction false} ChildrenOfConcat(ts: seq<Tlv>)
    requires forall i :: 0 <= i < |ts| ==> Wellformed(ts[i])
    ensures Children(Raws(ts)) == ts && Clean(Raws(ts))
  {
    if ts == [] {
    } else {
      NextEncoded(ts[0], Raws(ts[1..]));
      ChildrenOfConcat(ts[1..]);
    }
  }

  // Conversely, the TLVs of any octet string concatenate to a prefix of it, and to all of it
  // exactly when the reader ends with bad = false.
  lemma {:induction false} ConcatOfChildren(data: Bytes)
    ensures Raws(Children(data)) <= data
    ensures Clean(data) <==> Raws(Children(data)) == data
    decreases |data|
  {
    var (t, c) := Next(Open(data));
    if t.None? {
    } else {
      ConcatOfChildren(c.rest);
      RawsCons(t.value, Children(c.rest));
      assert data == t.value.raw + c.rest;
    }
  }

  lemma RawsCons(t: Tlv, ts: seq<Tlv>)
    ensures Raws([t] + ts) == t.raw + Raws(ts)
  {
    assert ([t] + ts)[1..] == ts;
  }

  // ----- every form

  // The length octets that are read: one below 128, or one to four after an octet that says how many. The
  // indefinite form, more than four, and fewer than said are not.
  lemma LengthForms(data: Bytes, pos: nat)
    ensures Length(data, pos)
            == if |data| <= pos then None
               else if data[pos] < 128 then Some((data[pos], pos + 1))
               else
                 var n := data[pos] - 128;
                 if 1 <= n <= 4 && pos + n < |data| then Some((FromBE(data[pos + 1..pos + 1 + n]), pos + 1 + n))
                 else None
  {
  }

  // The number of base-128 octets, the continuation bits aside.
  function Base128(g: Bytes): (n: nat) {
    if g == [] then 0 else Base128(g[..|g| - 1]) * 128 + g[|g| - 1] % 128
  }

  lemma U32Shift(n: nat, x: nat)
    requires x < 128
    ensures U32(U32(n) * 128) + x == U32(n * 128 + x)
  {
    var q, r := n / TWO32, n % TWO32;
    var p, y := r * 128 / TWO32, r * 128 % TWO32;
    ModUnique(n * 128 + x, TWO32, q * 128 + p, y + x);
  }

  lemma {:induction false} HighTagOn(data: Bytes, g: Bytes, x: Octet, pos: nat, num: nat)
    requires x < 128 && (forall i :: 0 <= i < |g| ==> g[i] >= 128) && 1 <= pos <= |g| + 1
    requires |g| + 1 < |data| && data[1..|g| + 2] == g + [x] && num == U32(Base128(g[..pos - 1]))
    ensures |g| <= 4 ==> HighTag(data, pos, num) == Some((U32(Base128(g) * 128 + x), |g| + 2))
    ensures |g| > 4 && pos <= 5 ==> HighTag(data, pos, num) == None
    decreases |g| + 2 - pos
  {
    assert data[pos] == data[1..|g| + 2][pos - 1] == (g + [x])[pos - 1];
    if pos <= |g| {
      assert g[..pos][..pos - 1] == g[..pos - 1];
      U32Shift(Base128(g[..pos - 1]), g[pos - 1] % 128);
      if pos + 1 <= 5 {
        HighTagOn(data, g, x, pos + 1, U32(Base128(g[..pos])));
      }
    } else {
      assert g[..pos - 1] == g;
      U32Shift(Base128(g), x);
    }
  }

  lemma HighTagFirst(data: Bytes, g: Bytes, x: Octet) returns (r: Option<(nat, nat)>)
    requires x < 128 && forall i :: 0 <= i < |g| ==> g[i] >= 128
    requires |g| + 1 < |data| && data[1..|g| + 2] == g + [x]
    ensures r == HighTag(data, 1, 0)
    ensures |g| <= 4 ==> r == Some((U32(Base128(g) * 128 + x), |g| + 2))
    ensures |g| > 4 ==> r == None
  {
    assert g[..0] == [];
    r := HighTag(data, 1, 0);
    HighTagOn(data, g, x, 1, 0);
  }

  // A high tag number is its base-128 octets modulo 2^32, five at most; a longer one is not read.
  lemma HighTagForms(data: Bytes, g: Bytes, x: Octet)
    requires x < 128 && forall i :: 0 <= i < |g| ==> g[i] >= 128
    requires |g| + 1 < |data| && data[0] % 32 == 31 && data[1..|g| + 2] == g + [x]
    ensures TagNumber(data)
            == if |g| <= 4 then Some((U32(Base128(g) * 128 + x), |g| + 2)) else None
  {
    var r := HighTagFirst(data, g, x);
    assert TagNumber(data) == r;
  }

  // A boolean is true exactly when its first content octet is not 0.
  lemma BoolMeaning(t: Tlv)
    ensures t.Bool() <==> t.val != [] && t.val[0] != 0
  {
  }

  // ----- the shortest encoding

  lemma {:induction false} GroupsMonotone(a: nat, b: nat)
    requires a <= b
    ensures |Groups(a)| <= |Groups(b)|
  {
    if a > 0 {
      GroupsMonotone(a / 128, b / 128);
    }
  }

  lemma {:induction false} HighTagSize(data: Bytes, pos: nat, num: nat)
    requires HighTag(data, pos, num).Some?
    ensures var (n, end) := HighTag(data, pos, num).value; |Groups(n / 128)| <= |Groups(num)| + (end - pos) - 1
    decreases |data| - pos
  {
    var n := U32(num * 128) + data[pos] % 128;
    GroupsMonotone(n / 128, num);
    if data[pos] >= 128 {
      HighTagSize(data, pos + 1, n);
    }
  }

  lemma {:induction false} DropZerosHead(b: Bytes)
    ensures DropZeros(b) == [] || DropZeros(b)[0] > 0
  {
    if b != [] && b[0] == 0 {
      DropZerosHead(b[1..]);
    }
  }

  lemma {:induction false} Pow256Monotone(m: nat, n: nat)
    requires m <= n
    ensures Pow256(m) <= Pow256(n)
  {
    if m < n {
      Pow256Monotone(m, n - 1);
    }
  }

  // Without leading zeros, a number below 256^k takes at most k octets.
  lemma DropZerosShort(b: Bytes, k: nat)
    requires FromBE(b) < Pow256(k)
    ensures |DropZeros(b)| <= k
  {
    var d := DropZeros(b);
    DropZerosValue(b);
    DropZerosHead(b);
    if |d| > k {
      HeadCounts(d);
      Pow256Monotone(k, |d| - 1);
    }
  }

  lemma HeadCounts(d: Bytes)
    requires d != [] && d[0] > 0
    ensures FromBE(d) >= Pow256(|d| - 1)
  {
    FromBEHead(d);
    AtLeastOnce(d[0], Pow256(|d| - 1));
  }

  lemma AtLeastOnce(k: nat, p: nat)
    requires k > 0
    ensures k * p >= p
  {
  }

  lemma LengthShortest(data: Bytes, pos: nat)
    requires Length(data, pos).Some?
    ensures |PutLen(Length(data, pos).value.0)| <= Length(data, pos).value.1 - pos
  {
    var n := data[pos] % 128;
    if data[pos] >= 128 {
      var digits := data[pos + 1..pos + 1 + n];
      FromBEBound(digits);
      Pow256Values();
      Pow256Monotone(n, 4);
      WordBack(FromBE(digits), 4);
      DropZerosShort(ToBE(FromBE(digits), 4), n);
    }
  }

  lemma TagShortest(data: Bytes)
    requires data != [] && TagNumber(data).Some?
    ensures |Tag(data[0] / 64, data[0] / 32 % 2 == 1, TagNumber(data).value.0)| <= TagNumber(data).value.1
  {
    if data[0] % 32 == 31 {
      HighTagSize(data, 1, 0);
    }
  }

  // Of all octets that read as the same TLV, those written are the fewest.
  lemma EncodeShortest(data: Bytes)
    requires Read(data).Some?
    ensures var (t, n) := Read(data).value; t.cls < 4 && |Encode(t.cls, t.cons, t.num, t.val)| <= n
  {
    TagShortest(data);
    LengthShortest(data, TagNumber(data).value.1);
  }

  // The identifier octets of services 77 and 73, as the source's own tests have them, and the length octets of
  // 127 and of the 300 octets of those tests.
  lemma KnownHeaders()
    ensures Tag(CTX, true, 77) == [0xbf, 0x4d] && Tag(CTX, false, 73) == [0x9f, 0x49] && Tag(UNIV, true, 16) == [0x30]
    ensures PutLen(127) == [127] && PutLen(300) == [0x82, 1, 44]
  {
    assert Groups(0) == [];
    ThreeHundred();
  }

  lemma ThreeHundred()
    ensures PutLen(300) == [0x82, 1, 44]
  {
    assert ToBE(300, 4) == ToBE(1, 3) + [44];
    assert ToBE(1, 3) == ToBE(0, 2) + [1] && ToBE(0, 2) == ToBE(0, 1) + [0];
    var d := ToBE(300, 4);
    assert d == [0, 0, 1, 44] && d[1..] == [0, 1, 44] && d[1..][1..] == [1, 44];
    assert DropZeros(d) == DropZeros(d[1..]) == DropZeros(d[1..][1..]);
  }
}
