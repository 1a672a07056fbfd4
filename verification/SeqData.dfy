// The fixed-length seqData encoding of IEC 61850-9-2 in adapters/iec61850-rust/src/sv.rs.
module SeqData {
  import opened Octets
  import opened BitText
  import opened WireTime
  import opened TimeFormat
  import opened TypedJson
  import opened Values

  datatype Member = MInteger | MUnsigned | MFloat32 | MFloat64 | MBoolean | MQuality | MUtcTime

  function Size(m: Member): (n: nat)
    ensures n > 0
  {
    match m
    case MBoolean => 1
    case MFloat64 => 8
    case MUtcTime => 8
    case _ => 4
  }

  // Where member i starts.
  function Offset(members: seq<Member>, i: nat): nat
    requires i <= |members|
  {
    if i == 0 then 0 else Offset(members, i - 1) + Size(members[i - 1])
  }

  function TotalSize(members: seq<Member>): nat {
    Offset(members, |members|)
  }

  lemma OffsetGrows(members: seq<Member>, i: nat, j: nat)
    requires i <= j <= |members|
    ensures Offset(members, i) <= Offset(members, j)
  {
    if i < j {
      OffsetGrows(members, i, j - 1);
    }
  }

  predicate IsI32(v: int) {
    -0x8000_0000 <= v < 0x8000_0000
  }

  // One value in the fixed-length encoding, or None when it has none.
  function EncodeValue(v: Value): Option<Bytes> {
    match v
    case Integer(i) => if IsI32(i) then Some(ToBE(U32(i), 4)) else None
    case Unsigned(u) => if u < TWO32 then Some(ToBE(u, 4)) else None
    case Float32(x) => Some(ToBE(x, 4))
    case Float64(x) => Some(ToBE(x, 8))
    case Boolean(b) => Some([if b then 1 else 0])
    case BitString(padding, data) =>
      (match QualityWord(BitsString(padding, data)) case Some(w) => Some(ToBE(w, 4)) case None => None)
    case UtcTime(raw) => Some(raw)
    case _ => None
  }

  function EncodeSeq(values: seq<Value>): Option<Bytes> {
    if values == [] then Some([])
    else
      match (EncodeSeq(values[..|values| - 1]), EncodeValue(values[|values| - 1]))
      case (Some(a), Some(b)) => Some(a + b)
      case _ => None
  }

  method EncodeSeqLoop(values: seq<Value>) returns (r: Option<Bytes>)
    ensures r == EncodeSeq(values)
  {
    var out: Bytes := [];
    for i := 0 to |values|
      invariant EncodeSeq(values[..i]) == Some(out)
    {
      assert values[..i + 1][..i] == values[..i];
      var e := EncodeValue(values[i]);
      if e.None? {
        PrefixUnencodable(values, i + 1);
        return None;
      }
      out := out + e.value;
    }
    assert values[..|values|] == values;
    return Some(out);
  }

  lemma PrefixUnencodable(values: seq<Value>, k: nat)
    requires k <= |values| && EncodeSeq(values[..k]).None?
    ensures EncodeSeq(values).None?
  {
    if k == |values| {
      assert values[..k] == values;
    } else {
      var front := values[..|values| - 1];
      assert front[..k] == values[..k];
      PrefixUnencodable(front, k);
    }
  }

  function SignedWord(x: nat): int {
    if x >= 0x8000_0000 then x - TWO32 else x
  }

  function DecodeMember(io: FloatIO, m: Member, b: Bytes): Json
    requires |b| == Size(m)
  {
    match m
    case MInteger => Typed(KInteger, JInt(SignedWord(FromBE(b))))
    case MUnsigned => Typed(KUnsigned, JInt(FromBE(b)))
    case MFloat32 => Typed(KFloat32, io.print32(FromBE(b)))
    case MFloat64 => Typed(KFloat64, io.print64(FromBE(b)))
    case MBoolean => Typed(KBoolean, JBool(b[0] != 0))
    case MQuality => Typed(KBitString, JString(QualityBits(FromBE(b))))
    case MUtcTime => Typed(KUtcTime, JString(FormatMs(UtcMsRounded(b))))
  }

  function Piece(members: seq<Member>, data: Bytes, i: nat): (b: Bytes)
    requires i < |members| && |data| == TotalSize(members)
    ensures |b| == Size(members[i])
  {
    OffsetGrows(members, i + 1, |members|);
    data[Offset(members, i)..Offset(members, i + 1)]
  }

  function DecodeAll(io: FloatIO, members: seq<Member>, data: Bytes): (r: seq<Json>)
    requires |data| == TotalSize(members)
    ensures |r| == |members|
  {
    seq(|members|, i requires 0 <= i < |members| => DecodeMember(io, members[i], Piece(members, data, i)))
  }

  function DecodeSeq(io: FloatIO, members: seq<Member>, data: Bytes): Option<seq<Json>> {
    if |data| == TotalSize(members) then Some(DecodeAll(io, members, data)) else None
  }

  lemma PieceAt(members: seq<Member>, data: Bytes, i: nat)
    requires i < |members| && |data| == TotalSize(members)
    ensures var p := Offset(members, i);
            p + Size(members[i]) <= |data| && data[p..p + Size(members[i])] == Piece(members, data, i)
  {
    OffsetGrows(members, i + 1, |members|);
  }

  // One turn of the decoding loop.
  method DecodeAt(io: FloatIO, members: seq<Member>, data: Bytes, i: nat, p: nat) returns (value: Json)
    requires i < |members| && |data| == TotalSize(members) && p == Offset(members, i)
    ensures value == DecodeAll(io, members, data)[i] && p + Size(members[i]) == Offset(members, i + 1)
  {
    PieceAt(members, data, i);
    var b := data[p..p + Size(members[i])];
    DecodeAllAt(io, members, data, i, b);
    value := DecodeMember(io, members[i], b);
  }

  lemma DecodeAllAt(io: FloatIO, members: seq<Member>, data: Bytes, i: nat, b: Bytes)
    requires i < |members| && |data| == TotalSize(members) && b == Piece(members, data, i)
    ensures DecodeAll(io, members, data)[i] == DecodeMember(io, members[i], b)
  {
  }

  method Need(members: seq<Member>) returns (need: nat)
    ensures need == TotalSize(members)
  {
    need := 0;
    for i := 0 to |members|
      invariant need == Offset(members, i)
    {
      need := need + Size(members[i]);
    }
  }

  method DecodeSeqLoop(io: FloatIO, members: seq<Member>, data: Bytes) returns (r: Option<seq<Json>>)
    ensures r == DecodeSeq(io, members, data)
  {
    var need := Need(members);
    if need != |data| {
      return None;
    }
    ghost var all := DecodeAll(io, members, data);
    var out: seq<Json> := [];
    var p := 0;
    for i := 0 to |members|
      invariant p == Offset(members, i)
      invariant out == all[..i]
    {
      var value := DecodeAt(io, members, data, i, p);
      PrefixNext(all, i);
      out := out + [value];
      p := p + Size(members[i]);
    }
    assert out == all;
    return Some(out);
  }

  // ----- what decoding gives back

  // A value of the member's type, with the octets and bits its encoding has room for.
  predicate Fits(m: Member, v: Value) {
    match m
    case MInteger => v.Integer? && IsI32(v.i)
    case MUnsigned => v.Unsigned? && v.u < TWO32
    case MFloat32 => v.Float32? && v.bits32 < TWO32
    case MFloat64 => v.Float64? && v.bits64 < TWO64
    case MBoolean => v.Boolean?
    case MQuality => v.BitString? && |BitsString(v.padding, v.data)| <= 32
    case MUtcTime => v.UtcTime? && |v.utc| == 8
  }

  // The typed JSON of a value, where a quality is cut or zero-filled to 13 bits.
  function Reported(io: FloatIO, v: Value): Json {
    if v.BitString? then Typed(KBitString, JString(Fit(BitsString(v.padding, v.data), QUALITY_BITS))) else ToJson(io, v)
  }

  lemma BitsStringIsBinary(padding: nat, data: Bytes)
    ensures IsBinary(BitsString(padding, data))
  {
  }

  lemma WordFits(s: Text)
    requires |s| <= 32
    ensures Word(s) < TWO32
  {
    WordBound(s);
    Pow2Grows(|s|, 32);
    assert Pow2(32) == TWO32 by {
      assert Pow2(4) == 16 && Pow2(8) == 16 * Pow2(4);
      assert Pow2(12) == 16 * Pow2(8) && Pow2(16) == 16 * Pow2(12);
      assert Pow2(20) == 16 * Pow2(16) && Pow2(24) == 16 * Pow2(20);
      assert Pow2(28) == 16 * Pow2(24) && Pow2(32) == 16 * Pow2(28);
    }
  }

  lemma Pow2Grows(m: nat, n: nat)
    requires m <= n
    ensures Pow2(m) <= Pow2(n)
  {
    if m < n {
      Pow2Grows(m, n - 1);
    }
  }

  lemma MemberRoundTrip(io: FloatIO, m: Member, v: Value)
    requires Fits(m, v)
    ensures var e := EncodeValue(v); e.Some? && |e.value| == Size(m) && DecodeMember(io, m, e.value) == Reported(io, v)
  {
    Pow256Values();
    match m
    case MInteger => WordBack(U32(v.i), 4);
    case MUnsigned => WordBack(v.u, 4);
    case MFloat32 => WordBack(v.bits32, 4);
    case MFloat64 => WordBack(v.bits64, 8);
    case MBoolean =>
    case MQuality =>
      var s := BitsString(v.padding, v.data);
      BitsStringIsBinary(v.padding, v.data);
      WordFits(s);
      WordBack(Word(s), 4);
      LowBitsOfWord(s, QUALITY_BITS);
    case MUtcTime =>
  }

  predicate AllFit(members: seq<Member>, values: seq<Value>) {
    |members| == |values| && forall i :: 0 <= i < |members| ==> Fits(members[i], values[i])
  }

  function ReportedAll(io: FloatIO, values: seq<Value>): seq<Json> {
    seq(|values|, i requires 0 <= i < |values| => Reported(io, values[i]))
  }

  function Join(parts: seq<Bytes>): Bytes {
    if parts == [] then [] else Join(parts[..|parts| - 1]) + parts[|parts| - 1]
  }

  lemma {:induction false} JoinPrefix(parts: seq<Bytes>, k: nat)
    requires k <= |parts|
    ensures Join(parts[..k]) <= Join(parts)
  {
    if k == |parts| {
      assert parts[..k] == parts;
    } else {
      var front := parts[..|parts| - 1];
      JoinPrefix(front, k);
      assert front[..k] == parts[..k];
    }
  }

  predicate Sized(members: seq<Member>, parts: seq<Bytes>) {
    |members| == |parts| && forall i :: 0 <= i < |parts| ==> |parts[i]| == Size(members[i])
  }

  lemma {:induction false} JoinLength(members: seq<Member>, parts: seq<Bytes>, k: nat)
    requires Sized(members, parts) && k <= |parts|
    ensures |Join(parts[..k])| == Offset(members, k)
  {
    if k > 0 {
      JoinLength(members, parts, k - 1);
      assert parts[..k][..k - 1] == parts[..k - 1];
    }
  }

  // Parts of the members' sizes lie side by side at the members' offsets.
  lemma JoinPiece(members: seq<Member>, parts: seq<Bytes>, i: nat)
    requires Sized(members, parts) && i < |parts|
    ensures |Join(parts)| == TotalSize(members) && Piece(members, Join(parts), i) == parts[i]
  {
    var n := |parts|;
    assert parts[..n] == parts;
    JoinLength(members, parts, n);
    JoinLength(members, parts, i);
    JoinLength(members, parts, i + 1);
    JoinPrefix(parts, i + 1);
    assert parts[..i + 1][..i] == parts[..i];
    var a, b := Join(parts[..i]), Join(parts[..i + 1]);
    assert b == a + parts[i];
    assert Join(parts)[..|b|] == b;
    assert Piece(members, Join(parts), i) == b[|a|..|b|];
  }

  lemma {:induction false} EncodeSeqIsJoin(values: seq<Value>, parts: seq<Bytes>)
    requires |values| == |parts| && forall i :: 0 <= i < |parts| ==> EncodeValue(values[i]) == Some(parts[i])
    ensures EncodeSeq(values) == Some(Join(parts))
  {
    if parts == [] {
    } else {
      EncodeSeqIsJoin(values[..|values| - 1], parts[..|parts| - 1]);
    }
  }

  function Parts(values: seq<Value>): (parts: seq<Bytes>)
    ensures |parts| == |values|
  {
    seq(|values|, i requires 0 <= i < |values| => EncodeValue(values[i]).GetOr([]))
  }

  // The part of each value has its member's size and decodes to what is reported of it.
  predicate PartsDecode(io: FloatIO, members: seq<Member>, parts: seq<Bytes>, reported: seq<Json>) {
    && |members| == |parts| == |reported|
    && forall i :: 0 <= i < |parts| ==>
         |parts[i]| == Size(members[i]) && DecodeMember(io, members[i], parts[i]) == reported[i]
  }

  lemma PartsFit(io: FloatIO, members: seq<Member>, values: seq<Value>)
    requires AllFit(members, values)
    ensures PartsDecode(io, members, Parts(values), ReportedAll(io, values))
    ensures forall i :: 0 <= i < |values| ==> EncodeValue(values[i]) == Some(Parts(values)[i])
  {
    forall i | 0 <= i < |values|
      ensures EncodeValue(values[i]) == Some(Parts(values)[i]) && |Parts(values)[i]| == Size(members[i])
      ensures DecodeMember(io, members[i], Parts(values)[i]) == ReportedAll(io, values)[i]
    {
      MemberRoundTrip(io, members[i], values[i]);
    }
  }

  lemma DecodeJoined(io: FloatIO, members: seq<Member>, parts: seq<Bytes>, reported: seq<Json>)
    requires PartsDecode(io, members, parts, reported)
    ensures |Join(parts)| == TotalSize(members) && DecodeAll(io, members, Join(parts)) == reported
  {
    JoinLength(members, parts, |parts|);
    assert parts[..|parts|] == parts;
    forall i | 0 <= i < |parts|
      ensures DecodeAll(io, members, Join(parts))[i] == reported[i]
    {
      JoinPiece(members, parts, i);
    }
  }

  // Every value list that matches a member list encodes to exactly the members' sizes and decodes
  // to the same values, each quality in its low 13 bits.
  lemma SeqRoundTrip(io: FloatIO, members: seq<Member>, values: seq<Value>)
    requires AllFit(members, values)
    ensures var d := EncodeSeq(values);
            && d.Some? && |d.value| == TotalSize(members)
            && DecodeSeq(io, members, d.value) == Some(ReportedAll(io, values))
  {
    PartsFit(io, members, values);
    EncodeSeqIsJoin(values, Parts(values));
    DecodeJoined(io, members, Parts(values), ReportedAll(io, values));
  }

  // ----- what has no encoding

  // The values that have one: integers of 32 bits, floats, booleans, times, and bit strings of at most 32 bits.
  lemma EncodableExactly(v: Value)
    ensures EncodeValue(v).Some? <==>
              match v
              case Integer(i) => -0x8000_0000 <= i < 0x8000_0000
              case Unsigned(u) => u < 0x1_0000_0000
              case Float32(_) => true
              case Float64(_) => true
              case Boolean(_) => true
              case BitString(padding, data) => 8 * |data| <= 32 + padding
              case UtcTime(_) => true
              case _ => false
  {
    if v.BitString? {
      BitsStringIsBinary(v.padding, v.data);
    }
  }

  // A list is encoded exactly when each of its values is.
  lemma {:induction false} SeqEncodable(values: seq<Value>)
    ensures EncodeSeq(values).Some? <==> forall i :: 0 <= i < |values| ==> EncodeValue(values[i]).Some?
  {
    if values != [] {
      SeqEncodable(values[..|values| - 1]);
      assert forall i :: 0 <= i < |values| - 1 ==> values[..|values| - 1][i] == values[i];
    }
  }

  // Octets of another length than the members' are not decoded. Any octet but 0 is true.
  lemma DecodableExactly(io: FloatIO, members: seq<Member>, data: Bytes, x: Octet)
    ensures DecodeSeq(io, members, data).Some? <==> |data| == TotalSize(members)
    ensures DecodeMember(io, MBoolean, [x]) == Typed(KBoolean, JBool(x != 0))
  {
  }
}
