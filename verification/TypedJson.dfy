// The typed value JSON {"type":T,"value":V} of adapters/iec61850-rust/src/typed.rs. A JSON object is
// its list of fields in key order. Reading and printing of floats is a parameter: a float here is
// its bit pattern.
module TypedJson {
  import opened Octets
  import opened BitText
  import opened Calendar
  import opened TimeFormat
  import opened WireTime
  import opened Values

  datatype Json =
    | JNull
    | JBool(b: bool)
    | JInt(n: int)
    | JFloat(bits: nat)
    | JString(s: Text)
    | JArray(items: seq<Json>)
    | JObject(fields: seq<Field>)

  datatype Field = Field(key: Text, val: Json)

  // How the host reads a JSON number as a float and prints a float as a JSON number.
  datatype FloatIO = FloatIO(read32: Json -> Option<nat>, read64: Json -> Option<nat>,
                             print32: nat -> Json, print64: nat -> Json)

  datatype Kind =
    | KBoolean | KInteger | KUnsigned | KFloat32 | KFloat64 | KVisibleString | KMmsString
    | KOctetString | KBitString | KUtcTime | KBinaryTime | KArray | KStructure

  datatype JsonError = NotTyped | Unsupported | Mistyped(kind: Kind)

  const TYPE_KEY: Text := Ascii("type")
  const VALUE_KEY: Text := Ascii("value")

  function KindName(k: Kind): Text {
    Ascii(match k
          case KBoolean => "boolean"
          case KInteger => "integer"
          case KUnsigned => "unsigned"
          case KFloat32 => "float32"
          case KFloat64 => "float64"
          case KVisibleString => "visible-string"
          case KMmsString => "mms-string"
          case KOctetString => "octet-string"
          case KBitString => "bit-string"
          case KUtcTime => "utc-time"
          case KBinaryTime => "binary-time"
          case KArray => "array"
          case KStructure => "structure")
  }

  const KINDS: seq<Kind> := [KBoolean, KInteger, KUnsigned, KFloat32, KFloat64, KVisibleString, KMmsString,
                             KOctetString, KBitString, KUtcTime, KBinaryTime, KArray, KStructure]

  function FindKind(t: Text, kinds: seq<Kind>): Option<Kind> {
    if kinds == [] then None
    else if KindName(kinds[0]) == t then Some(kinds[0])
    else FindKind(t, kinds[1..])
  }

  function Lookup(fields: seq<Field>, key: Text): (r: Option<Json>)
    ensures r.Some? ==> exists i :: 0 <= i < |fields| && fields[i].val == r.value
  {
    if fields == [] then None
    else if fields[0].key == key then Some(fields[0].val)
    else Lookup(fields[1..], key)
  }

  // ----- from_json

  function FromJson(io: FloatIO, j: Json): (r: Result<Value, JsonError>)
    decreases j, 1
  {
    if !j.JObject? then Err(NotTyped)
    else
      match (Lookup(j.fields, TYPE_KEY), Lookup(j.fields, VALUE_KEY))
      case (Some(JString(t)), Some(v)) =>
        (match FindKind(t, KINDS)
         case None => Err(Unsupported)
         case Some(k) => FromTyped(io, k, v))
      case _ => Err(NotTyped)
  }

  function FromTyped(io: FloatIO, k: Kind, v: Json): Result<Value, JsonError>
    decreases v, 2
  {
    match k
    case KBoolean => if v.JBool? then Ok(Boolean(v.b)) else Err(Mistyped(k))
    case KInteger => if v.JInt? && IsI64(v.n) then Ok(Integer(v.n)) else Err(Mistyped(k))
    case KUnsigned => if v.JInt? && 0 <= v.n <= 0xffff_ffff then Ok(Unsigned(v.n)) else Err(Mistyped(k))
    case KFloat32 => (match io.read32(v) case Some(x) => Ok(Float32(x)) case None => Err(Mistyped(k)))
    case KFloat64 => (match io.read64(v) case Some(x) => Ok(Float64(x)) case None => Err(Mistyped(k)))
    case KVisibleString => if v.JString? then Ok(VisibleString(v.s)) else Err(Mistyped(k))
    case KMmsString => if v.JString? then Ok(MmsString(v.s)) else Err(Mistyped(k))
    case KOctetString =>
      (match if v.JString? then Unhex(v.s) else None
       case Some(b) => Ok(OctetString(b))
       case None => Err(Mistyped(k)))
    case KBitString =>
      (match if v.JString? then BitsValue(v.s) else None
       case Some((padding, data)) => Ok(BitString(padding, data))
       case None => Err(Mistyped(k)))
    case KUtcTime =>
      (match if v.JString? then ParseMs(v.s) else None
       case Some(ms) => Ok(UtcTime(UtcFromMs(ms)))
       case None => Err(Mistyped(k)))
    case KBinaryTime =>
      (match if v.JString? then ParseMs(v.s) else None
       case Some(ms) => Ok(BinaryTime(BinaryTimeFromMs(ms)))
       case None => Err(Mistyped(k)))
    case KArray =>
      if !v.JArray? then Err(Mistyped(k))
      else (match FromAll(io, v.items) case Ok(vs) => Ok(Array(vs)) case Err(e) => Err(e))
    case KStructure =>
      if !v.JArray? then Err(Mistyped(k))
      else (match FromAll(io, v.items) case Ok(vs) => Ok(Structure(vs)) case Err(e) => Err(e))
  }

  // The values of all items, or the first error.
  function FromAll(io: FloatIO, items: seq<Json>): Result<seq<Value>, JsonError>
    decreases items, 0
  {
    if items == [] then Ok([])
    else
      match FromJson(io, items[0])
      case Err(e) => Err(e)
      case Ok(v) => match FromAll(io, items[1..]) case Ok(vs) => Ok([v] + vs) case Err(e) => Err(e)
  }

  // ----- to_json

  function Typed(k: Kind, v: Json): Json {
    JObject([Field(TYPE_KEY, JString(KindName(k))), Field(VALUE_KEY, v)])
  }

  function Utc8(raw: Bytes): Bytes {
    if |raw| == 8 then raw else [0, 0, 0, 0, 0, 0, 0, 0]
  }

  function ToJson(io: FloatIO, v: Value): Json
    decreases v, 1
  {
    match v
    case Boolean(b) => Typed(KBoolean, JBool(b))
    case Integer(i) => Typed(KInteger, JInt(i))
    case Unsigned(u) => Typed(KUnsigned, JInt(u))
    case Float32(x) => Typed(KFloat32, io.print32(x))
    case Float64(x) => Typed(KFloat64, io.print64(x))
    case VisibleString(s) => Typed(KVisibleString, JString(s))
    case MmsString(s) => Typed(KMmsString, JString(s))
    case OctetString(b) => Typed(KOctetString, JString(HexText(b)))
    case BitString(padding, data) => Typed(KBitString, JString(BitsString(padding, data)))
    case UtcTime(raw) => Typed(KUtcTime, JString(FormatMs(UtcMsRounded(Utc8(raw)))))
    case BinaryTime(b) => Typed(KBinaryTime, JString(FormatMs(BinaryTimeMs(b))))
    case Array(items) => Typed(KArray, JArray(ToAll(io, items)))
    case Structure(items) => Typed(KStructure, JArray(ToAll(io, items)))
  }

  function ToAll(io: FloatIO, items: seq<Value>): (r: seq<Json>)
    ensures |r| == |items|
    decreases items, 0
  {
    if items == [] then [] else [ToJson(io, items[0])] + ToAll(io, items[1..])
  }

  // ----- the typed JSON that is written one way only

  predicate Canonical(j: Json)
    decreases j, 1
  {
    && j.JObject? && |j.fields| == 2
    && j.fields[0].key == TYPE_KEY && j.fields[0].val.JString?
    && j.fields[1].key == VALUE_KEY
    && var k := FindKind(j.fields[0].val.s, KINDS);
       k.Some? && CanonicalOf(k.value, j.fields[1].val)
  }

  predicate CanonicalOf(k: Kind, v: Json)
    decreases v, 2
  {
    match k
    case KBoolean => v.JBool?
    case KInteger => v.JInt? && IsI64(v.n)
    case KUnsigned => v.JInt? && 0 <= v.n < TWO32
    case KFloat32 => false
    case KFloat64 => false
    case KVisibleString => v.JString?
    case KMmsString => v.JString?
    case KOctetString => v.JString? && IsLowerHex(v.s)
    case KBitString => v.JString? && IsBinary(v.s)
    case KUtcTime => v.JString? && IsTimestamp(v.s) && 0 <= StampMs(FieldsOf(v.s)) < UTC_SPAN
    case KBinaryTime => v.JString? && IsTimestamp(v.s) && 0 <= StampMs(FieldsOf(v.s)) - BINARY_EPOCH_MS < BINARY_SPAN
    case KArray => v.JArray? && CanonicalAll(v.items)
    case KStructure => v.JArray? && CanonicalAll(v.items)
  }

  predicate CanonicalAll(items: seq<Json>)
    decreases items, 0
  {
    items != [] ==> Canonical(items[0]) && CanonicalAll(items[1..])
  }

  // No float at any depth.
  predicate FloatFree(v: Value)
    decreases v, 1
  {
    match v
    case Float32(_) => false
    case Float64(_) => false
    case Array(items) => FloatFreeAll(items)
    case Structure(items) => FloatFreeAll(items)
    case _ => true
  }

  predicate FloatFreeAll(items: seq<Value>)
    decreases items, 0
  {
    items != [] ==> FloatFree(items[0]) && FloatFreeAll(items[1..])
  }

  // ----- times as text

  // Times the octets can hold lie in years of four digits.
  lemma WireYear(ms: int)
    requires 0 <= ms < UTC_SPAN || 0 <= ms - BINARY_EPOCH_MS < BINARY_SPAN
    ensures 0 <= StampOf(ms).date.year < 10000
  {
    var d := StampOf(ms).date;
    StampOfMs(ms);
    CivilOfDays(ms / 1000 / 86400);
    DayWithinYear(d);
    YearStartClosed(d.year);
  }

  lemma TimeText(s: Text, m: int)
    requires s == FormatMs(m) && 0 <= StampOf(m).date.year < 10000
    ensures IsTimestamp(s) && StampMs(FieldsOf(s)) == m
  {
    ParseOfFormat(m);
    ParseLayout(s);
  }

  function UtcText(s: Text): Text
    requires ParseMs(s).Some?
  {
    FormatMs(UtcMsRounded(UtcFromMs(ParseMs(s).value)))
  }

  function BinaryText(s: Text): Text
    requires ParseMs(s).Some?
  {
    FormatMs(BinaryTimeMs(BinaryTimeFromMs(ParseMs(s).value)))
  }

  lemma UtcTextBack(s: Text)
    requires IsTimestamp(s) && 0 <= StampMs(FieldsOf(s)) < UTC_SPAN
    ensures ParseMs(s).Some? && UtcText(s) == s
  {
    ParseLayout(s);
    FormatOfParse(s);
    UtcRoundTripExact(StampMs(FieldsOf(s)));
  }

  lemma BinaryTextBack(s: Text)
    requires IsTimestamp(s) && 0 <= StampMs(FieldsOf(s)) - BINARY_EPOCH_MS < BINARY_SPAN
    ensures ParseMs(s).Some? && BinaryText(s) == s
  {
    ParseLayout(s);
    FormatOfParse(s);
    BinaryRoundTrip(StampMs(FieldsOf(s)));
  }

  lemma UtcTextOnly(s: Text, ms: int)
    requires s == FormatMs(UtcMsRounded(UtcFromMs(ms)))
    ensures IsTimestamp(s) && 0 <= StampMs(FieldsOf(s)) < UTC_SPAN
  {
    var m := ms % UTC_SPAN;
    UtcRoundTrip(ms);
    WireYear(m);
    TimeText(s, m);
  }

  lemma BinaryTextOnly(s: Text, ms: int)
    requires s == FormatMs(BinaryTimeMs(BinaryTimeFromMs(ms)))
    ensures IsTimestamp(s) && 0 <= StampMs(FieldsOf(s)) - BINARY_EPOCH_MS < BINARY_SPAN
  {
    var m := BINARY_EPOCH_MS + (ms - BINARY_EPOCH_MS) % BINARY_SPAN;
    BinaryRoundTrip(ms);
    WireYear(m);
    TimeText(s, m);
  }

  // ----- the round trip

  // The names differ in their length, or in one of three characters.
  lemma KindNamesDiffer(a: Kind, b: Kind)
    requires KindName(a) == KindName(b)
    ensures a == b
  {
    assert |KindName(a)| == |KindName(b)|;
    assert KindName(a)[0] == KindName(b)[0] && KindName(a)[1] == KindName(b)[1];
    if |KindName(a)| == 7 {
      assert KindName(a)[5] == KindName(b)[5];
    }
  }

  lemma {:induction false} FindsKind(k: Kind, kinds: seq<Kind>)
    requires k in kinds
    ensures FindKind(KindName(k), kinds) == Some(k)
  {
    if KindName(kinds[0]) == KindName(k) {
      KindNamesDiffer(kinds[0], k);
    } else {
      FindsKind(k, kinds[1..]);
    }
  }

  lemma FoundKindName(t: Text, kinds: seq<Kind>)
    requires FindKind(t, kinds).Some?
    ensures KindName(FindKind(t, kinds).value) == t
  {
  }

  // Every canonical float-free typed value, of any nesting, prints back as it was read.
  lemma {:induction false} RoundTrip(io: FloatIO, j: Json)
    requires Canonical(j)
    ensures FromJson(io, j).Ok? && ToJson(io, FromJson(io, j).value) == j && FloatFree(FromJson(io, j).value)
    decreases j, 1
  {
    var t, v := j.fields[0].val.s, j.fields[1].val;
    var k := FindKind(t, KINDS).value;
    assert TYPE_KEY != VALUE_KEY by {
      assert |TYPE_KEY| == 4 && |VALUE_KEY| == 5;
    }
    assert Lookup(j.fields, TYPE_KEY) == Some(JString(t));
    assert Lookup(j.fields, VALUE_KEY) == Some(v);
    FoundKindName(t, KINDS);
    RoundTripOf(io, k, v);
    assert j.fields == [Field(TYPE_KEY, JString(t)), Field(VALUE_KEY, v)];
  }

  lemma {:induction false} RoundTripOf(io: FloatIO, k: Kind, v: Json)
    requires CanonicalOf(k, v)
    ensures var r := FromTyped(io, k, v); r.Ok? && ToJson(io, r.value) == Typed(k, v) && FloatFree(r.value)
    decreases v, 2
  {
    match k
    case KOctetString => HexOfUnhex(v.s);
    case KBitString => BitsRoundTrip(v.s);
    case KUtcTime => RoundTripTime(io, k, v);
    case KBinaryTime => RoundTripTime(io, k, v);
    case KArray => RoundTripAll(io, v.items);
    case KStructure => RoundTripAll(io, v.items);
    case _ =>
  }

  lemma RoundTripTime(io: FloatIO, k: Kind, v: Json)
    requires (k == KUtcTime || k == KBinaryTime) && CanonicalOf(k, v)
    ensures var r := FromTyped(io, k, v); r.Ok? && ToJson(io, r.value) == Typed(k, v) && FloatFree(r.value)
  {
    if k == KUtcTime {
      UtcTextBack(v.s);
    } else {
      BinaryTextBack(v.s);
    }
  }

  lemma {:induction false} RoundTripAll(io: FloatIO, items: seq<Json>)
    requires CanonicalAll(items)
    ensures var r := FromAll(io, items); r.Ok? && ToAll(io, r.value) == items && FloatFreeAll(r.value)
    decreases items, 0
  {
    if items == [] {
    } else {
      RoundTrip(io, items[0]);
      RoundTripAll(io, items[1..]);
      var r := FromAll(io, items).value;
      assert r[1..] == FromAll(io, items[1..]).value;
      assert items == [items[0]] + items[1..];
    }
  }

  lemma {:induction false} OnlyCanonical(io: FloatIO, j: Json)
    requires var r := FromJson(io, j); r.Ok? && FloatFree(r.value) && ToJson(io, r.value) == j
    ensures Canonical(j)
    decreases j, 1
  {
    var v := FromJson(io, j).value;
    var k := KindOf(v);
    var w := j.fields[1].val;
    PrintedKind(io, v);
    assert j == Typed(k, w);
    FindsKind(k, KINDS);
    assert Lookup(j.fields, TYPE_KEY) == Some(JString(KindName(k)));
    assert Lookup(j.fields, VALUE_KEY) == Some(w) by {
      assert |TYPE_KEY| == 4 && |VALUE_KEY| == 5;
      assert Lookup(j.fields[1..], VALUE_KEY) == Some(w);
    }
    OnlyCanonicalOf(io, k, w);
  }

  function KindOf(v: Value): Kind {
    match v
    case Boolean(_) => KBoolean
    case Integer(_) => KInteger
    case Unsigned(_) => KUnsigned
    case Float32(_) => KFloat32
    case Float64(_) => KFloat64
    case VisibleString(_) => KVisibleString
    case MmsString(_) => KMmsString
    case OctetString(_) => KOctetString
    case BitString(_, _) => KBitString
    case UtcTime(_) => KUtcTime
    case BinaryTime(_) => KBinaryTime
    case Array(_) => KArray
    case Structure(_) => KStructure
  }

  lemma PrintedKind(io: FloatIO, v: Value)
    ensures ToJson(io, v) == Typed(KindOf(v), ToJson(io, v).fields[1].val) && KindOf(v) in KINDS
  {
  }

  lemma {:induction false} OnlyCanonicalOf(io: FloatIO, k: Kind, w: Json)
    requires var r := FromTyped(io, k, w); r.Ok? && FloatFree(r.value) && ToJson(io, r.value) == Typed(k, w)
    ensures CanonicalOf(k, w)
    decreases w, 2
  {
    match k
    case KOctetString => HexRoundTripExact(w.s);
    case KUtcTime => UtcTextOnly(w.s, ParseMs(w.s).value);
    case KBinaryTime => BinaryTextOnly(w.s, ParseMs(w.s).value);
    case KArray => OnlyCanonicalAll(io, w.items);
    case KStructure => OnlyCanonicalAll(io, w.items);
    case _ =>
  }

  lemma {:induction false} OnlyCanonicalAll(io: FloatIO, items: seq<Json>)
    requires var r := FromAll(io, items); r.Ok? && FloatFreeAll(r.value) && ToAll(io, r.value) == items
    ensures CanonicalAll(items)
    decreases items, 0
  {
    if items == [] {
    } else {
      var r := FromAll(io, items).value;
      assert r == [r[0]] + r[1..];
      assert ToAll(io, r)[1..] == ToAll(io, r[1..]);
      OnlyCanonical(io, items[0]);
      OnlyCanonicalAll(io, items[1..]);
    }
  }

  // A float-free value prints back as the JSON it was read from exactly when that JSON is canonical.
  lemma RoundTripExact(io: FloatIO, j: Json)
    ensures (var r := FromJson(io, j); r.Ok? && FloatFree(r.value) && ToJson(io, r.value) == j) <==> Canonical(j)
  {
    if Canonical(j) {
      RoundTrip(io, j);
    }
    var r := FromJson(io, j);
    if r.Ok? && FloatFree(r.value) && ToJson(io, r.value) == j {
      OnlyCanonical(io, j);
    }
  }

  // ----- what is read, and what is refused

  function Tagged(name: string, v: Json): Json {
    JObject([Field(Ascii("type"), JString(Ascii(name))), Field(Ascii("value"), v)])
  }

  lemma TaggedRead(io: FloatIO, k: Kind, name: string, v: Json)
    requires k in KINDS && KindName(k) == Ascii(name)
    ensures FromJson(io, Tagged(name, v)) == FromTyped(io, k, v)
  {
    FindsKind(k, KINDS);
    assert Ascii("type") != Ascii("value") by {
      assert |Ascii("type")| == 4 && |Ascii("value")| == 5;
    }
    var fields := Tagged(name, v).fields;
    assert fields[1..][0].key == VALUE_KEY;
    assert Lookup(fields, VALUE_KEY) == Lookup(fields[1..], VALUE_KEY);
  }

  // The text of each type.
  function TypeText(k: Kind): string {
    match k
    case KBoolean => "boolean"
    case KInteger => "integer"
    case KUnsigned => "unsigned"
    case KFloat32 => "float32"
    case KFloat64 => "float64"
    case KVisibleString => "visible-string"
    case KMmsString => "mms-string"
    case KOctetString => "octet-string"
    case KBitString => "bit-string"
    case KUtcTime => "utc-time"
    case KBinaryTime => "binary-time"
    case KArray => "array"
    case KStructure => "structure"
  }

  lemma ReadByTypeText(io: FloatIO, k: Kind, v: Json)
    ensures FromJson(io, Tagged(TypeText(k), v)) == FromTyped(io, k, v)
  {
    TaggedRead(io, k, TypeText(k), v);
  }

  // The JSON that each type takes, but for the items of arrays and structures.
  predicate Takes(io: FloatIO, k: Kind, v: Json) {
    match k
    case KBoolean => v.JBool?
    case KInteger => v.JInt? && -0x8000_0000_0000_0000 <= v.n < 0x8000_0000_0000_0000
    case KUnsigned => v.JInt? && 0 <= v.n < 0x1_0000_0000
    case KFloat32 => io.read32(v).Some?
    case KFloat64 => io.read64(v).Some?
    case KVisibleString => v.JString?
    case KMmsString => v.JString?
    case KOctetString => v.JString? && Unhex(v.s).Some?
    case KBitString => v.JString? && forall i :: 0 <= i < |v.s| ==> v.s[i] == 48 || v.s[i] == 49
    case KUtcTime => v.JString? && Accepted(v.s)
    case KBinaryTime => v.JString? && Accepted(v.s)
    case KArray => v.JArray?
    case KStructure => v.JArray?
  }

  lemma TimesTaken(io: FloatIO, k: Kind, v: Json)
    requires k == KUtcTime || k == KBinaryTime
    ensures !Takes(io, k, v) ==> FromTyped(io, k, v) == Err(Mistyped(k))
    ensures Takes(io, k, v) ==> FromTyped(io, k, v).Ok? && KindOf(FromTyped(io, k, v).value) == k
  {
    if v.JString? {
      AcceptedExactly(v.s);
    }
  }

  // JSON of the wrong form is refused as such with its type; other JSON gives a value of that type.
  lemma TakenExactly(io: FloatIO, k: Kind, v: Json)
    ensures !Takes(io, k, v) ==> FromTyped(io, k, v) == Err(Mistyped(k))
    ensures Takes(io, k, v) && k != KArray && k != KStructure ==>
              FromTyped(io, k, v).Ok? && KindOf(FromTyped(io, k, v).value) == k
  {
    if k == KUtcTime || k == KBinaryTime {
      TimesTaken(io, k, v);
    }
  }

  // The plain values, and times and floats by what reads them.
  lemma TakenValues(io: FloatIO, v: Json)
    ensures v.JBool? ==> FromTyped(io, KBoolean, v) == Ok(Boolean(v.b))
    ensures Takes(io, KInteger, v) ==> FromTyped(io, KInteger, v) == Ok(Integer(v.n))
    ensures Takes(io, KUnsigned, v) ==> FromTyped(io, KUnsigned, v) == Ok(Unsigned(v.n))
    ensures v.JString? ==> FromTyped(io, KVisibleString, v) == Ok(VisibleString(v.s))
    ensures v.JString? ==> FromTyped(io, KMmsString, v) == Ok(MmsString(v.s))
    ensures io.read32(v).Some? ==> FromTyped(io, KFloat32, v) == Ok(Float32(io.read32(v).value))
    ensures io.read64(v).Some? ==> FromTyped(io, KFloat64, v) == Ok(Float64(io.read64(v).value))
  {
  }

  // The items of an array or a structure are read in order, up to the first that is refused.
  lemma {:induction false} FirstRefusal(io: FloatIO, items: seq<Json>, i: nat)
    requires i <= |items| && forall k :: 0 <= k < i ==> FromJson(io, items[k]).Ok?
    ensures i < |items| && FromJson(io, items[i]).Err? ==>
              FromAll(io, items) == Err(FromJson(io, items[i]).error)
    ensures i == |items| ==>
              var r := FromAll(io, items);
              r.Ok? && |r.value| == |items|
              && forall k :: 0 <= k < i ==> FromJson(io, items[k]) == Ok(r.value[k])
  {
    if i > 0 {
      FirstRefusal(io, items[1..], i - 1);
    }
  }

  lemma {:induction false} LookupFirst(fields: seq<Field>, key: Text)
    ensures match Lookup(fields, key)
            case None => forall i :: 0 <= i < |fields| ==> fields[i].key != key
            case Some(v) => exists i :: 0 <= i < |fields| && fields[i] == Field(key, v)
                                        && forall j :: 0 <= j < i ==> fields[j].key != key
  {
    if fields != [] && fields[0].key != key {
      LookupFirst(fields[1..], key);
      if Lookup(fields[1..], key).Some? {
        var i :| 0 <= i < |fields| - 1 && fields[1..][i] == Field(key, Lookup(fields[1..], key).value)
                 && forall j :: 0 <= j < i ==> fields[1..][j].key != key;
        assert fields[i + 1] == fields[1..][i];
        forall j | 0 <= j < i + 1
          ensures fields[j].key != key
        {
          assert j > 0 ==> fields[1..][j - 1] == fields[j];
        }
      }
    } else if fields != [] {
      assert fields[0] == Field(key, fields[0].val);
    }
  }

  // JSON without an object, a type text or a value is not typed; another type text is not supported.
  lemma Untyped(io: FloatIO, j: Json)
    ensures !j.JObject? ==> FromJson(io, j) == Err(NotTyped)
    ensures j.JObject? ==>
              var (t, v) := (Lookup(j.fields, Ascii("type")), Lookup(j.fields, Ascii("value")));
              && (t.None? || !t.value.JString? || v.None? ==> FromJson(io, j) == Err(NotTyped))
              && (t.Some? && t.value.JString? && v.Some? && (forall k :: KindName(k) != t.value.s) ==>
                  FromJson(io, j) == Err(Unsupported))
  {
    if j.JObject? && Lookup(j.fields, Ascii("type")).Some? && Lookup(j.fields, Ascii("type")).value.JString? {
      var t := Lookup(j.fields, Ascii("type")).value.s;
      if FindKind(t, KINDS).Some? {
        FoundKindName(t, KINDS);
      }
    }
  }

  // A UtcTime that is not eight octets prints as eight zeros do, which are the beginning of 1970.
  lemma OddUtc(io: FloatIO, raw: Bytes)
    requires |raw| != 8
    ensures ToJson(io, UtcTime(raw)) == ToJson(io, UtcTime([0, 0, 0, 0, 0, 0, 0, 0]))
    ensures UtcMsRounded([0, 0, 0, 0, 0, 0, 0, 0]) == 0
  {
    ZeroOctets();
  }

  lemma ZeroOctets()
    ensures UtcMsRounded([0, 0, 0, 0, 0, 0, 0, 0]) == 0
  {
    var raw: Bytes := [0, 0, 0, 0, 0, 0, 0, 0];
    ZerosAreZero(raw[..4]);
    ZerosAreZero(raw[4..7]);
  }

  lemma {:induction false} ZerosAreZero(b: Bytes)
    requires forall i :: 0 <= i < |b| ==> b[i] == 0
    ensures FromBE(b) == 0
  {
    if b != [] {
      ZerosAreZero(b[..|b| - 1]);
    }
  }
}
