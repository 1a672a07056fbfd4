// Type specifications and conform of adapters/iec61850-rust/src/bin/mms_server.rs.
module MmsTypes {
  import opened Octets
  import opened Values

  datatype TypeSpec =
    | TBoolean
    | TInteger(width: nat)
    | TUnsigned(width: nat)
    | TFloat(format: nat, exponent: nat)
    | TVisibleString(maxChars: int)
    | TMmsString(maxChars: int)
    | TOctetString(maxOctets: int)
    | TBitString(bits: int)
    | TUtcTime
    | TBinaryTime
    | TArray(count: nat, elem: TypeSpec)
    | TStructure(components: seq<Component>)

  datatype Component = Component(name: Text, spec: TypeSpec)

  // `f as f32` on the bit patterns; the model holds for any such conversion.
  type Narrowing = nat -> nat

  predicate Within(n: nat, max: int) {
    max <= 0 || n <= max
  }

  // v as a value of the type, or None when it does not have it.
  function Conform(f: Narrowing, spec: TypeSpec, v: Value): Option<Value>
    decreases v, 1
  {
    match (spec, v)
    case (TBoolean, Boolean(_)) => Some(v)
    case (TInteger(_), Integer(_)) => Some(v)
    case (TUnsigned(_), Unsigned(_)) => Some(v)
    case (TFloat(_, _), Float32(_)) => Some(v)
    case (TFloat(_, _), Float64(x)) => Some(Float32(f(x)))
    case (TVisibleString(m), VisibleString(s)) => if Within(|s|, m) then Some(v) else None
    case (TMmsString(m), MmsString(s)) => if Within(|s|, m) then Some(v) else None
    case (TOctetString(m), OctetString(b)) => if Within(|b|, m) then Some(v) else None
    case (TBitString(_), BitString(_, _)) => Some(v)
    case (TUtcTime, UtcTime(_)) => Some(v)
    case (TBinaryTime, BinaryTime(_)) => Some(v)
    case (TArray(count, elem), Array(items)) =>
      if |items| != count then None
      else (match ConformAll(f, elem, items) case Some(xs) => Some(Array(xs)) case None => None)
    case (TStructure(components), Structure(items)) =>
      if |items| != |components| then None
      else (match ConformFields(f, components, items) case Some(xs) => Some(Structure(xs)) case None => None)
    case _ => None
  }

  function ConformAll(f: Narrowing, elem: TypeSpec, items: seq<Value>): Option<seq<Value>>
    decreases items, 0
  {
    if items == [] then Some([])
    else
      match (Conform(f, elem, items[0]), ConformAll(f, elem, items[1..]))
      case (Some(x), Some(xs)) => Some([x] + xs)
      case _ => None
  }

  function ConformFields(f: Narrowing, components: seq<Component>, items: seq<Value>): Option<seq<Value>>
    requires |components| == |items|
    decreases items, 0
  {
    if items == [] then Some([])
    else
      match (Conform(f, components[0].spec, items[0]), ConformFields(f, components[1..], items[1..]))
      case (Some(x), Some(xs)) => Some([x] + xs)
      case _ => None
  }

  // ----- what it means to have a type

  predicate HasType(spec: TypeSpec, v: Value)
    decreases v
  {
    match spec
    case TBoolean => v.Boolean?
    case TInteger(_) => v.Integer?
    case TUnsigned(_) => v.Unsigned?
    case TFloat(_, _) => v.Float32?
    case TVisibleString(m) => v.VisibleString? && Within(|v.vs|, m)
    case TMmsString(m) => v.MmsString? && Within(|v.ms|, m)
    case TOctetString(m) => v.OctetString? && Within(|v.octets|, m)
    case TBitString(_) => v.BitString?
    case TUtcTime => v.UtcTime?
    case TBinaryTime => v.BinaryTime?
    case TArray(count, elem) =>
      v.Array? && |v.items| == count && forall i :: 0 <= i < |v.items| ==> HasType(elem, v.items[i])
    case TStructure(components) =>
      v.Structure? && |v.items| == |components|
      && forall i :: 0 <= i < |v.items| ==> HasType(components[i].spec, v.items[i])
  }

  // A size above 0 is the largest length a string may have; any other size sets no limit.
  lemma StringLimit(max: int, s: Text)
    ensures HasType(TVisibleString(max), VisibleString(s)) <==> max <= 0 || |s| <= max
    ensures HasType(TMmsString(max), MmsString(s)) <==> max <= 0 || |s| <= max
    ensures HasType(TOctetString(max), OctetString(s)) <==> max <= 0 || |s| <= max
  {
  }

  // Every 64-bit float at any depth made 32 bits wide.
  function Narrowed(f: Narrowing, v: Value): Value
    decreases v
  {
    match v
    case Float64(x) => Float32(f(x))
    case Array(items) => Array(seq(|items|, i requires 0 <= i < |items| => Narrowed(f, items[i])))
    case Structure(items) => Structure(seq(|items|, i requires 0 <= i < |items| => Narrowed(f, items[i])))
    case _ => v
  }

  function NarrowedAll(f: Narrowing, items: seq<Value>): (r: seq<Value>)
    ensures |r| == |items|
  {
    seq(|items|, i requires 0 <= i < |items| => Narrowed(f, items[i]))
  }

  function OnlyIf(c: bool, v: Value): Option<Value> {
    if c then Some(v) else None
  }

  // conform narrows the floats of a value and keeps it exactly when the result has the type.
  lemma {:induction false} ConformMeaning(f: Narrowing, spec: TypeSpec, v: Value)
    ensures Conform(f, spec, v) == OnlyIf(HasType(spec, Narrowed(f, v)), Narrowed(f, v))
    decreases v, 1
  {
    if v.Array? {
      assert Narrowed(f, v) == Array(NarrowedAll(f, v.items));
      if spec.TArray? && |v.items| == spec.count {
        ConformAllMeaning(f, spec.elem, v.items);
      }
    } else if v.Structure? {
      assert Narrowed(f, v) == Structure(NarrowedAll(f, v.items));
      if spec.TStructure? && |v.items| == |spec.components| {
        ConformFieldsMeaning(f, spec.components, v.items);
      }
    }
  }

  predicate AllHaveType(elem: TypeSpec, items: seq<Value>) {
    forall i :: 0 <= i < |items| ==> HasType(elem, items[i])
  }

  predicate FieldsHaveType(components: seq<Component>, items: seq<Value>)
    requires |components| == |items|
  {
    forall i :: 0 <= i < |items| ==> HasType(components[i].spec, items[i])
  }

  lemma {:induction false} ConformAllMeaning(f: Narrowing, elem: TypeSpec, items: seq<Value>)
    ensures var xs := NarrowedAll(f, items);
            ConformAll(f, elem, items) == if AllHaveType(elem, xs) then Some(xs) else None
    decreases items, 0
  {
    if items == [] {
    } else {
      var x, rest := Narrowed(f, items[0]), NarrowedAll(f, items[1..]);
      ConformMeaning(f, elem, items[0]);
      ConformAllMeaning(f, elem, items[1..]);
      assert NarrowedAll(f, items) == [x] + rest;
      assert AllHaveType(elem, [x] + rest) <==> HasType(elem, x) && AllHaveType(elem, rest) by {
        AllCons(elem, x, rest);
      }
    }
  }

  lemma AllCons(elem: TypeSpec, x: Value, rest: seq<Value>)
    ensures AllHaveType(elem, [x] + rest) <==> HasType(elem, x) && AllHaveType(elem, rest)
  {
    var all := [x] + rest;
    assert all[0] == x && forall i :: 0 <= i < |rest| ==> all[i + 1] == rest[i];
    if AllHaveType(elem, all) {
      forall i | 0 <= i < |rest|
        ensures HasType(elem, rest[i])
      {
        assert HasType(elem, all[i + 1]);
      }
    }
  }

  lemma FieldsCons(components: seq<Component>, x: Value, rest: seq<Value>)
    requires |components| == |rest| + 1
    ensures FieldsHaveType(components, [x] + rest)
            <==> HasType(components[0].spec, x) && FieldsHaveType(components[1..], rest)
  {
    var all := [x] + rest;
    assert all[0] == x && forall i :: 0 <= i < |rest| ==> all[i + 1] == rest[i];
    if FieldsHaveType(components, all) {
      forall i | 0 <= i < |rest|
        ensures HasType(components[1..][i].spec, rest[i])
      {
        assert HasType(components[i + 1].spec, all[i + 1]);
      }
    }
    if HasType(components[0].spec, x) && FieldsHaveType(components[1..], rest) {
      forall i | 0 <= i < |all|
        ensures HasType(components[i].spec, all[i])
      {
        if i > 0 {
          assert HasType(components[1..][i - 1].spec, rest[i - 1]);
        }
      }
    }
  }

  lemma {:induction false} ConformFieldsMeaning(f: Narrowing, components: seq<Component>, items: seq<Value>)
    requires |components| == |items|
    ensures var xs := NarrowedAll(f, items);
            ConformFields(f, components, items) == if FieldsHaveType(components, xs) then Some(xs) else None
    decreases items, 0
  {
    if items == [] {
    } else {
      var x, rest := Narrowed(f, items[0]), NarrowedAll(f, items[1..]);
      ConformMeaning(f, components[0].spec, items[0]);
      ConformFieldsMeaning(f, components[1..], items[1..]);
      assert NarrowedAll(f, items) == [x] + rest;
      FieldsCons(components, x, rest);
    }
  }

  // A value that has a type holds no 64-bit float, so narrowing leaves it as it is.
  lemma {:induction false} TypedIsNarrow(f: Narrowing, spec: TypeSpec, v: Value)
    requires HasType(spec, v)
    ensures Narrowed(f, v) == v
    decreases v
  {
    if v.Array? || v.Structure? {
      forall i | 0 <= i < |v.items|
        ensures Narrowed(f, v.items[i]) == v.items[i]
      {
        TypedIsNarrow(f, if v.Array? then spec.elem else spec.components[i].spec, v.items[i]);
      }
      assert NarrowedAll(f, v.items) == v.items;
    }
  }

  // What conform yields has the type, and it leaves exactly the values of the type unchanged; so
  // conforming twice is conforming once.
  lemma ConformIdempotent(f: Narrowing, spec: TypeSpec, v: Value)
    ensures Conform(f, spec, v) == Some(v) <==> HasType(spec, v)
    ensures Conform(f, spec, v).Some? ==>
              HasType(spec, Conform(f, spec, v).value)
              && Conform(f, spec, Conform(f, spec, v).value) == Conform(f, spec, v)
  {
    ConformMeaning(f, spec, v);
    if HasType(spec, v) {
      TypedIsNarrow(f, spec, v);
    }
    if Conform(f, spec, v).Some? {
      var w := Conform(f, spec, v).value;
      TypedIsNarrow(f, spec, w);
      ConformMeaning(f, spec, w);
    }
  }
}
