// MMS data values: MmsValue of the typed JSON and MmsData of the server, which have the same shapes.
// A float is its bit pattern.
module Values {
  import opened Octets

  datatype Value =
    | Boolean(b: bool)
    | Integer(i: int)
    | Unsigned(u: nat)
    | Float32(bits32: nat)
    | Float64(bits64: nat)
    | VisibleString(vs: Text)
    | MmsString(ms: Text)
    | OctetString(octets: Bytes)
    | BitString(padding: nat, data: Bytes)
    | UtcTime(utc: Bytes)
    | BinaryTime(bt: Bytes)
    | Array(items: seq<Value>)
    | Structure(items: seq<Value>)
}
