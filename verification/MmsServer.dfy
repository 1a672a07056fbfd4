// Reads, writes and named variable lists of adapters/iec61850-rust/src/bin/mms_server.rs over a shared
// model and per-association lists.
module MmsServer {
  import opened Octets
  import opened Ber
  import opened BerIntegers
  import opened Values
  import opened MmsTypes
  import opened MmsRequests
  import opened VariableAccess

  datatype Nvl = Nvl(members: seq<Member>, deletable: bool)

  type Lists = map<Text, Nvl>

  // The shared model: the variables and the named lists of each domain, and the VMD's lists.
  datatype Shared = Shared(domains: map<Text, Vars>, domLists: map<Text, Lists>, vmdLists: Lists)

  // DataAccessError to the access error class.
  function AccessErr(code: nat): SvcErr {
    if code == NON_EXISTENT then Access(2)
    else if code == ACCESS_DENIED then Access(3)
    else if code == ACCESS_UNSUPPORTED then Access(1)
    else Access(0)
  }

  // The access error classes: object-access-unsupported, object-non-existent, object-access-denied, or other.
  lemma AccessClasses(code: nat)
    ensures AccessErr(code) == Access(if code == 9 then 1 else if code == 10 then 2 else if code == 3 then 3 else 0)
  {
  }

  // ----- reading and writing one member

  // Every value has its variable's type.
  ghost predicate WellTyped(domains: map<Text, Vars>) {
    forall d, v :: d in domains && v in domains[d] ==> HasType(domains[d][v].spec, domains[d][v].value)
  }

  lemma TargetInBounds(domains: map<Text, Vars>, mb: Member)
    requires WellTyped(domains) && Resolve(domains, mb.dom, mb.item, mb.alt).Ok?
    ensures var g := Resolve(domains, mb.dom, mb.item, mb.alt).value;
            && g.dom in domains && g.name in domains[g.dom]
            && PathTyped(domains[g.dom][g.name].spec, g.path, g.spec)
            && InBounds(domains[g.dom][g.name].value, g.path)
            && HasType(g.spec, GetAt(domains[g.dom][g.name].value, g.path))
  {
    ResolveTyped(domains, mb.dom, mb.item, mb.alt);
    var g := Resolve(domains, mb.dom, mb.item, mb.alt).value;
    GetTyped(domains[g.dom][g.name].spec, domains[g.dom][g.name].value, g.path, g.spec);
  }

  function ReadOne(domains: map<Text, Vars>, mb: Member): Result<Value, nat>
    requires WellTyped(domains)
  {
    match Resolve(domains, mb.dom, mb.item, mb.alt)
    case Err(e) => Err(e)
    case Ok(g) =>
      TargetInBounds(domains, mb);
      Ok(GetAt(domains[g.dom][g.name].value, g.path))
  }

  function Put(domains: map<Text, Vars>, g: Target, nv: Value): map<Text, Vars>
    requires g.dom in domains && g.name in domains[g.dom]
    requires Settable(domains[g.dom][g.name].value, g.path, nv)
  {
    var v := domains[g.dom][g.name];
    domains[g.dom := domains[g.dom][g.name := v.(value := SetAt(v.value, g.path, nv))]]
  }

  // The error code, if refused, and the variables afterwards.
  function WriteOne(f: Narrowing, domains: map<Text, Vars>, mb: Member, v: Value): (Option<nat>, map<Text, Vars>)
    requires WellTyped(domains)
  {
    match Resolve(domains, mb.dom, mb.item, mb.alt)
    case Err(e) => (Some(e), domains)
    case Ok(g) =>
      TargetInBounds(domains, mb);
      var x := domains[g.dom][g.name];
      if !x.writable then (Some(ACCESS_DENIED), domains)
      else
        match Conform(f, g.spec, v)
        case None => (Some(TYPE_INCONSISTENT), domains)
        case Some(nv) =>
          ConformIdempotent(f, g.spec, v);
          SetGet(x.spec, x.value, g.path, g.spec, nv);
          (None, Put(domains, g, nv))
  }

  // The same variables with the same types, and the same values where they are read-only.
  ghost predicate SameShape(a: map<Text, Vars>, b: map<Text, Vars>) {
    && a.Keys == b.Keys
    && forall d :: d in a ==>
         a[d].Keys == b[d].Keys
         && forall v :: v in a[d] ==>
              a[d][v].spec == b[d][v].spec && a[d][v].writable == b[d][v].writable
              && (!a[d][v].writable ==> a[d][v].value == b[d][v].value)
  }

  lemma WriteOneKeeps(f: Narrowing, domains: map<Text, Vars>, mb: Member, v: Value)
    requires WellTyped(domains)
    ensures var after := WriteOne(f, domains, mb, v).1; WellTyped(after) && SameShape(domains, after)
  {
    var r := Resolve(domains, mb.dom, mb.item, mb.alt);
    if r.Ok? {
      var g := r.value;
      TargetInBounds(domains, mb);
      var x := domains[g.dom][g.name];
      if x.writable && Conform(f, g.spec, v).Some? {
        var nv := Conform(f, g.spec, v).value;
        ConformIdempotent(f, g.spec, v);
        SetGet(x.spec, x.value, g.path, g.spec, nv);
        PutKeeps(domains, g, nv);
      }
    }
  }

  lemma PutKeeps(domains: map<Text, Vars>, g: Target, nv: Value)
    requires WellTyped(domains) && g.dom in domains && g.name in domains[g.dom] && domains[g.dom][g.name].writable
    requires Settable(domains[g.dom][g.name].value, g.path, nv)
    requires HasType(domains[g.dom][g.name].spec, SetAt(domains[g.dom][g.name].value, g.path, nv))
    ensures WellTyped(Put(domains, g, nv)) && SameShape(domains, Put(domains, g, nv))
  {
  }

  // resolve looks at names and types only.
  lemma ResolveStable(a: map<Text, Vars>, b: map<Text, Vars>, dom: Text, item: Text, alt: Option<Bytes>)
    requires SameShape(a, b)
    ensures Resolve(a, dom, item, alt) == Resolve(b, dom, item, alt)
  {
  }

  // An accepted write is read back, narrowed; a refused one changes nothing.
  lemma ReadAfterWrite(f: Narrowing, domains: map<Text, Vars>, mb: Member, v: Value)
    requires WellTyped(domains)
    ensures var (err, after) := WriteOne(f, domains, mb, v);
            && (err.None? ==> WellTyped(after) && ReadOne(after, mb) == Ok(Narrowed(f, v)))
            && (err.Some? ==> after == domains)
  {
    WriteOneKeeps(f, domains, mb, v);
    var (err, after) := WriteOne(f, domains, mb, v);
    ResolveStable(domains, after, mb.dom, mb.item, mb.alt);
    if err.None? {
      var g := Resolve(domains, mb.dom, mb.item, mb.alt).value;
      TargetInBounds(domains, mb);
      var x := domains[g.dom][g.name];
      ConformMeaning(f, g.spec, v);
      SetGet(x.spec, x.value, g.path, g.spec, Narrowed(f, v));
    }
  }

  // A write is answered with the code of what does not resolve, 3 for a variable that cannot be written, 7 for a
  // value that, narrowed, does not have the type of the part, and otherwise accepted.
  lemma WriteOutcome(f: Narrowing, domains: map<Text, Vars>, mb: Member, v: Value)
    requires WellTyped(domains)
    ensures var r := Resolve(domains, mb.dom, mb.item, mb.alt);
            && (r.Ok? ==> r.value.dom in domains && r.value.name in domains[r.value.dom])
            && WriteOne(f, domains, mb, v).0
               == if r.Err? then Some(r.error)
                  else if !domains[r.value.dom][r.value.name].writable then Some(3)
                  else if !HasType(r.value.spec, Narrowed(f, v)) then Some(7)
                  else None
  {
    var r := Resolve(domains, mb.dom, mb.item, mb.alt);
    if r.Ok? {
      TargetInBounds(domains, mb);
      ConformMeaning(f, r.value.spec, v);
    }
  }

  // What a client asks for by steps over the wire is what a read returns: the part the steps select, or
  // invalid-address when they select nothing.
  lemma ReadSelects(domains: map<Text, Vars>, dom: Text, base: Text, steps: seq<Step>, wrapped: bool)
    requires WellTyped(domains) && Known(domains, dom, base) && Plain(base) && Counted(domains[dom][base].spec)
    requires steps != [] && (forall i :: 0 <= i < |steps| ==> Encodable(steps[i]))
            && |EncodeAlt(steps, wrapped)| < TWO32
    ensures var x := domains[dom][base];
            ReadOne(domains, Member(dom, base, Some(EncodeAlt(steps, wrapped))))
            == match Select(x.spec, x.value, steps) case Some(v) => Ok(v) case None => Err(5)
  {
    var x := domains[dom][base];
    AltRoundTrip(steps, wrapped);
    ResolveAlt(domains, dom, base, EncodeAlt(steps, wrapped), steps);
    ResolvedIsSelected(x.spec, x.value, steps);
  }

  // A write leaves every other variable, and every part of the same variable it is disjoint from, as it was.
  lemma WriteElsewhere(f: Narrowing, domains: map<Text, Vars>, mb: Member, v: Value, other: Member)
    requires WellTyped(domains)
    requires Resolve(domains, mb.dom, mb.item, mb.alt).Ok? && Resolve(domains, other.dom, other.item, other.alt).Ok?
    requires var g := Resolve(domains, mb.dom, mb.item, mb.alt).value;
             var h := Resolve(domains, other.dom, other.item, other.alt).value;
             g.dom != h.dom || g.name != h.name || Disjoint(g.path, h.path)
    ensures var after := WriteOne(f, domains, mb, v).1;
            WellTyped(after) && ReadOne(after, other) == ReadOne(domains, other)
  {
    WriteOneKeeps(f, domains, mb, v);
    var (err, after) := WriteOne(f, domains, mb, v);
    ResolveStable(domains, after, other.dom, other.item, other.alt);
    TargetInBounds(domains, mb);
    TargetInBounds(domains, other);
    var g := Resolve(domains, mb.dom, mb.item, mb.alt).value;
    var h := Resolve(domains, other.dom, other.item, other.alt).value;
    if err.None? && g.dom == h.dom && g.name == h.name {
      var x, nv := domains[g.dom][g.name], Conform(f, g.spec, v).value;
      ConformIdempotent(f, g.spec, v);
      DisjointUntouched(x.spec, x.value, g.path, g.spec, nv, h.path, h.spec);
    }
  }

  // ----- the services

  function LookupList(m: Shared, aa: Lists, n: Name): Result<Nvl, SvcErr> {
    match n
    case Vmd(i) => if i in m.vmdLists then Ok(m.vmdLists[i]) else Err(AccessErr(NON_EXISTENT))
    case Aa(i) => if i in aa then Ok(aa[i]) else Err(AccessErr(NON_EXISTENT))
    case Dom(d, i) =>
      if d in m.domLists && i in m.domLists[d] then Ok(m.domLists[d][i]) else Err(AccessErr(NON_EXISTENT))
  }

  // The members a VariableAccessSpecification selects.
  function AccessSpec(m: Shared, aa: Lists, t: Tlv): Result<seq<Member>, SvcErr> {
    if t.Ctx(true, 0) then ParseEntries(Children(t.val))
    else if t.Ctx(true, 1) then
      match First(t.val)
      case None => Err(InvalidArgument)
      case Some(n) =>
        match ParseName(n)
        case None => Err(InvalidArgument)
        case Some(name) => match LookupList(m, aa, name) case Ok(l) => Ok(l.members) case Err(e) => Err(e)
    else Err(InvalidArgument)
  }

  function ReadAll(domains: map<Text, Vars>, members: seq<Member>): (r: seq<Result<Value, nat>>)
    requires WellTyped(domains)
    ensures |r| == |members|
  {
    seq(|members|, i requires 0 <= i < |members| => ReadOne(domains, members[i]))
  }

  // The outcome of each write, in order, and the variables afterwards.
  function WriteAll(f: Narrowing, domains: map<Text, Vars>, members: seq<Member>, data: seq<Value>)
    : (r: (seq<Option<nat>>, map<Text, Vars>))
    requires WellTyped(domains) && |members| == |data|
    ensures WellTyped(r.1) && SameShape(domains, r.1)
  {
    if members == [] then ([], domains)
    else
      var k := |members| - 1;
      var (out, ds) := WriteAll(f, domains, members[..k], data[..k]);
      WriteOneKeeps(f, ds, members[k], data[k]);
      var (o, ds') := WriteOne(f, ds, members[k], data[k]);
      (out + [o], ds')
  }

  // Two members name different variables or parts of one that do not overlap, or one of them names nothing.
  predicate Apart(domains: map<Text, Vars>, a: Member, b: Member) {
    var (r, q) := (Resolve(domains, a.dom, a.item, a.alt), Resolve(domains, b.dom, b.item, b.alt));
    r.Ok? && q.Ok? ==>
      r.value.dom != q.value.dom || r.value.name != q.value.name || Disjoint(r.value.path, q.value.path)
  }

  lemma WriteApart(f: Narrowing, domains: map<Text, Vars>, mb: Member, v: Value, other: Member)
    requires WellTyped(domains) && Apart(domains, mb, other)
    ensures var after := WriteOne(f, domains, mb, v).1;
            WellTyped(after) && ReadOne(after, other) == ReadOne(domains, other)
  {
    WriteOneKeeps(f, domains, mb, v);
    var after := WriteOne(f, domains, mb, v).1;
    ResolveStable(domains, after, other.dom, other.item, other.alt);
    if Resolve(domains, mb.dom, mb.item, mb.alt).Ok? && Resolve(domains, other.dom, other.item, other.alt).Ok? {
      WriteElsewhere(f, domains, mb, v, other);
    }
  }

  lemma OutcomeStable(f: Narrowing, a: map<Text, Vars>, b: map<Text, Vars>, mb: Member, v: Value)
    requires WellTyped(a) && WellTyped(b) && SameShape(a, b)
    ensures WriteOne(f, a, mb, v).0 == WriteOne(f, b, mb, v).0
  {
    ResolveStable(a, b, mb.dom, mb.item, mb.alt);
    WriteOutcome(f, a, mb, v);
    WriteOutcome(f, b, mb, v);
  }

  lemma ApartStable(a: map<Text, Vars>, b: map<Text, Vars>, x: Member, y: Member)
    requires SameShape(a, b)
    ensures Apart(a, x, y) <==> Apart(b, x, y)
  {
    ResolveStable(a, b, x.dom, x.item, x.alt);
    ResolveStable(a, b, y.dom, y.item, y.alt);
  }

  // Each outcome is that of the write alone.
  ghost predicate EachAlone(f: Narrowing, domains: map<Text, Vars>, members: seq<Member>, data: seq<Value>,
      out: seq<Option<nat>>)
    requires WellTyped(domains)
  {
    && |out| == |members| == |data|
    && forall i :: 0 <= i < |out| ==> out[i] == WriteOne(f, domains, members[i], data[i]).0
  }

  lemma EachAloneSnoc(f: Narrowing, domains: map<Text, Vars>, members: seq<Member>, data: seq<Value>,
      out: seq<Option<nat>>, m: Member, v: Value)
    requires WellTyped(domains) && EachAlone(f, domains, members, data, out)
    ensures EachAlone(f, domains, members + [m], data + [v], out + [WriteOne(f, domains, m, v).0])
  {
  }

  // The writes of a request are done in order, and each has the outcome it would have alone.
  lemma {:induction false} WritesOutcomes(f: Narrowing, domains: map<Text, Vars>, members: seq<Member>,
      data: seq<Value>)
    requires WellTyped(domains) && |members| == |data|
    ensures EachAlone(f, domains, members, data, WriteAll(f, domains, members, data).0)
  {
    if members != [] {
      var k := |members| - 1;
      WritesOutcomes(f, domains, members[..k], data[..k]);
      OutcomeStable(f, domains, WriteAll(f, domains, members[..k], data[..k]).1, members[k], data[k]);
      EachAloneSnoc(f, domains, members[..k], data[..k], WriteAll(f, domains, members[..k], data[..k]).0,
                    members[k], data[k]);
      assert members[..k] + [members[k]] == members && data[..k] + [data[k]] == data;
    }
  }

  // What is apart from all of them reads as before.
  lemma {:induction false} WritesElsewhere(f: Narrowing, domains: map<Text, Vars>, members: seq<Member>,
      data: seq<Value>, other: Member)
    requires WellTyped(domains) && |members| == |data|
    requires forall i :: 0 <= i < |members| ==> Apart(domains, members[i], other)
    ensures ReadOne(WriteAll(f, domains, members, data).1, other) == ReadOne(domains, other)
  {
    if members != [] {
      var k := |members| - 1;
      WritesElsewhere(f, domains, members[..k], data[..k], other);
      var ds := WriteAll(f, domains, members[..k], data[..k]).1;
      ApartStable(domains, ds, members[k], other);
      WriteApart(f, ds, members[k], data[k], other);
    }
  }

  // An accepted write of the request that the later ones are apart from is what the member reads afterwards.
  lemma {:induction false} WritesLast(f: Narrowing, domains: map<Text, Vars>, members: seq<Member>,
      data: seq<Value>, i: nat)
    requires WellTyped(domains) && i < |members| == |data|
    requires WriteOne(f, domains, members[i], data[i]).0.None?
    requires forall j :: i < j < |members| ==> Apart(domains, members[j], members[i])
    ensures ReadOne(WriteAll(f, domains, members, data).1, members[i]) == Ok(Narrowed(f, data[i]))
  {
    var k := |members| - 1;
    var ds := WriteAll(f, domains, members[..k], data[..k]).1;
    if i == k {
      OutcomeStable(f, domains, ds, members[k], data[k]);
      ReadAfterWrite(f, ds, members[k], data[k]);
    } else {
      assert members[..k][i] == members[i] && data[..k][i] == data[i];
      WritesLast(f, domains, members[..k], data[..k], i);
      ApartStable(domains, ds, members[k], members[i]);
      WriteApart(f, ds, members[k], data[k], members[i]);
    }
  }

  // The specification flag and the choice of a Read request.
  function ParseRead(val: Bytes): Option<(bool, Tlv)> {
    var (s, c) := OptCtx(Open(val), false, 0);
    var (v, _) := OptCtx(c, true, 1);
    if v.None? || First(v.value.val).None? then None
    else Some((s.Some? && s.value.Bool(), First(v.value.val).value))
  }

  // The Read service: a refusal, or the specification as it came, if asked for, and one result for each member.
  function ReadService(m: Shared, aa: Lists, val: Bytes): Result<(Option<Bytes>, seq<Result<Value, nat>>), SvcErr>
    requires WellTyped(m.domains)
  {
    match ParseRead(val)
    case None => Err(InvalidArgument)
    case Some((withSpec, choice)) =>
      match AccessSpec(m, aa, choice)
      case Err(e) => Err(e)
      case Ok(members) => Ok((if withSpec then Some(choice.raw) else None, ReadAll(m.domains, members)))
  }

  // The library's decoder of one Data: a value and how many octets it took, at least one.
  type Decoder = d: Bytes -> Option<(Value, nat)> | Consumes(d) witness (b: Bytes) => None

  ghost predicate Consumes(d: Bytes -> Option<(Value, nat)>) {
    forall b :: d(b).Some? ==> 0 < d(b).value.1 <= |b|
  }

  // What the server takes from libraries: the conversion of floats and the decoding of Data.
  datatype Library = Library(narrow: Narrowing, decode: Decoder)

  // The values after those decoded so far.
  function DecodeOn(decode: Decoder, done: seq<Value>, rest: Bytes): Option<seq<Value>>
    decreases |rest|
  {
    if rest == [] then Some(done)
    else
      match decode(rest)
      case None => None
      case Some((v, n)) => DecodeOn(decode, done + [v], rest[n..])
  }

  // The choice and the data of a Write request.
  function ParseWrite(decode: Decoder, val: Bytes): Option<(Tlv, seq<Value>)> {
    var (choice, c) := Next(Open(val));
    var (d, _) := OptCtx(c, true, 0);
    if choice.None? || d.None? then None
    else
      match DecodeOn(decode, [], d.value.val)
      case None => None
      case Some(data) => Some((choice.value, data))
  }

  // The name and the listOfVariable of a DefineNamedVariableList request.
  function ParseDefine(val: Bytes): Option<(Name, Tlv)> {
    var (t, c) := Next(Open(val));
    var (list, _) := OptCtx(c, true, 0);
    if t.None? || ParseName(t.value).None? || list.None? then None else Some((ParseName(t.value).value, list.value))
  }

  // The refusal, if any, and the lists after defining `name` as what was parsed.
  function DefineAs(m: Shared, aa: Lists, name: Name, spec: Result<seq<Member>, SvcErr>)
    : (r: (Option<SvcErr>, Shared, Lists))
    ensures r.1.domains == m.domains
  {
    if spec.Err? then (Some(spec.error), m, aa)
    else
      var members := spec.value;
      if exists i :: 0 <= i < |members| && Resolve(m.domains, members[i].dom, members[i].item, members[i].alt).Err?
      then (Some(Definition(1)), m, aa)
      else if name.Dom? && name.dom !in m.domLists then (Some(AccessErr(NON_EXISTENT)), m, aa)
      else if LookupList(m, aa, name).Ok? then (Some(Definition(2)), m, aa)
      else
        match name
        case Vmd(i) => (None, m.(vmdLists := m.vmdLists[i := Nvl(members, true)]), aa)
        case Aa(i) => (None, m, aa[i := Nvl(members, true)])
        case Dom(d, i) => (None, m.(domLists := m.domLists[d := m.domLists[d][i := Nvl(members, true)]]), aa)
  }

  function Define(m: Shared, aa: Lists, val: Bytes): (r: (Option<SvcErr>, Shared, Lists))
    ensures r.1.domains == m.domains
  {
    match ParseDefine(val)
    case None => (Some(InvalidArgument), m, aa)
    case Some((name, list)) => DefineAs(m, aa, name, AccessSpec(m, aa, list))
  }

  function Without(lists: Lists, i: Text): Lists {
    lists - {i}
  }

  function DeleteOne(m: Shared, aa: Lists, name: Name): (Shared, Lists) {
    match name
    case Vmd(i) => (m.(vmdLists := Without(m.vmdLists, i)), aa)
    case Aa(i) => (m, Without(aa, i))
    case Dom(d, i) => (if d in m.domLists then m.(domLists := m.domLists[d := Without(m.domLists[d], i)]) else m, aa)
  }

  datatype Deletion = Deletion(refused: bool, matched: nat, deleted: nat, shared: Shared, aa: Lists)

  // The names in turn; a malformed one refuses the request, after the deletions before it.
  function DeleteNames(d: Deletion, names: seq<Option<Name>>): (r: Deletion)
    ensures r.shared.domains == d.shared.domains
    decreases |names|
  {
    if names == [] then d
    else
      match names[0]
      case None => d.(refused := true)
      case Some(name) =>
        match LookupList(d.shared, d.aa, name)
        case Err(_) => DeleteNames(d, names[1..])
        case Ok(l) =>
          if !l.deletable then DeleteNames(d.(matched := d.matched + 1), names[1..])
          else
            var (m, aa) := DeleteOne(d.shared, d.aa, name);
            DeleteNames(Deletion(d.refused, d.matched + 1, d.deleted + 1, m, aa), names[1..])
  }

  function ParseNames(ts: seq<Tlv>): (names: seq<Option<Name>>)
    ensures |names| == |ts|
  {
    seq(|ts|, i requires 0 <= i < |ts| => ParseName(ts[i]))
  }

  // The names of a DeleteNamedVariableList request, or None for a scope other than these names.
  function ParseDelete(val: Bytes): Option<seq<Option<Name>>> {
    var (s, c) := OptCtx(Open(val), false, 0);
    if s.Some? && ParseInt(s.value.val) != 0 then None
    else
      var (list, _) := OptCtx(c, true, 1);
      Some(if list.Some? then ParseNames(Children(list.value.val)) else [])
  }

  // The refusal or the counts, and the lists afterwards.
  function Delete(m: Shared, aa: Lists, val: Bytes): (r: (Result<(nat, nat), SvcErr>, Shared, Lists))
    ensures r.1.domains == m.domains
  {
    match ParseDelete(val)
    case None => (Err(AccessErr(ACCESS_UNSUPPORTED)), m, aa)
    case Some(names) =>
      var d := DeleteNames(Deletion(false, 0, 0, m, aa), names);
      (if d.refused then Err(InvalidArgument) else Ok((d.matched, d.deleted)), d.shared, d.aa)
  }

  // ----- the model and an association, updated in place

  class Model {
    var domains: map<Text, Vars>
    var domLists: map<Text, Lists>
    var vmdLists: Lists

    ghost predicate Valid()
      reads this
    {
      WellTyped(domains) && domLists.Keys == domains.Keys
    }

    ghost function View(): Shared
      reads this
    {
      Shared(domains, domLists, vmdLists)
    }

    // A loaded fixture whose values have their types; it defines no lists.
    constructor (domains: map<Text, Vars>)
      requires WellTyped(domains)
      ensures Valid() && View() == Shared(domains, map d | d in domains :: map[], map[])
    {
      this.domains := domains;
      domLists := map d | d in domains :: map[];
      vmdLists := map[];
    }

    method Set(g: Target, nv: Value)
      requires g.dom in domains && g.name in domains[g.dom] && Settable(domains[g.dom][g.name].value, g.path, nv)
      modifies this`domains
      ensures domains == Put(old(domains), g, nv)
    {
      var v := domains[g.dom][g.name];
      domains := domains[g.dom := domains[g.dom][g.name := v.(value := SetAt(v.value, g.path, nv))]];
    }

    method WriteMember(f: Narrowing, mb: Member, v: Value) returns (err: Option<nat>)
      requires Valid()
      modifies this`domains
      ensures Valid() && (err, domains) == WriteOne(f, old(domains), mb, v)
    {
      WriteOneKeeps(f, domains, mb, v);
      var r := Resolve(domains, mb.dom, mb.item, mb.alt);
      if r.Err? {
        return Some(r.error);
      }
      var g := r.value;
      TargetInBounds(domains, mb);
      if !domains[g.dom][g.name].writable {
        return Some(ACCESS_DENIED);
      }
      var nv := Conform(f, g.spec, v);
      if nv.None? {
        return Some(TYPE_INCONSISTENT);
      }
      ConformIdempotent(f, g.spec, v);
      SetGet(domains[g.dom][g.name].spec, domains[g.dom][g.name].value, g.path, g.spec, nv.value);
      Set(g, nv.value);
      return None;
    }
  }

  const REPORT_TRIGGER: Text := Ascii("report-trigger")

  // Writing this variable, or a component of it, sends the reports.
  predicate Triggers(item: Text) {
    item == REPORT_TRIGGER || REPORT_TRIGGER + [DOLLAR] <= item
  }

  // The variable report-trigger, and what is flattened from it.
  lemma TriggersExactly(item: Text)
    ensures Triggers(item) <==>
              item == Ascii("report-trigger") || exists rest: Text :: item == Ascii("report-trigger$") + rest
  {
    assert Ascii("report-trigger$") == Ascii("report-trigger") + [DOLLAR];
    if REPORT_TRIGGER + [DOLLAR] <= item {
      var n := |REPORT_TRIGGER| + 1;
      assert item == item[..n] + item[n..] && item[..n] == Ascii("report-trigger$");
    }
  }

  // Some accepted write set off the reports.
  predicate AnyTrigger(members: seq<Member>, out: seq<Option<nat>>)
    requires |members| == |out|
  {
    exists i :: 0 <= i < |members| && out[i].None? && Triggers(members[i].item)
  }

  lemma OneTrigger(m: Member, o: Option<nat>)
    ensures AnyTrigger([m], [o]) <==> o.None? && Triggers(m.item)
  {
    assert [m][0] == m && [o][0] == o;
  }

  lemma AnyTriggerSnoc(members: seq<Member>, out: seq<Option<nat>>, m: Member, o: Option<nat>)
    requires |members| == |out|
    ensures AnyTrigger(members + [m], out + [o]) <==> AnyTrigger(members, out) || (o.None? && Triggers(m.item))
  {
    var ms, os := members + [m], out + [o];
    assert forall i :: 0 <= i < |members| ==> ms[i] == members[i] && os[i] == out[i];
    assert ms[|members|] == m && os[|members|] == o;
  }

  // The Write service: a refusal or one outcome for each member, and the variables afterwards.
  function WriteService(lib: Library, m: Shared, aa: Lists, val: Bytes)
    : (r: (Result<seq<Option<nat>>, SvcErr>, map<Text, Vars>))
    requires WellTyped(m.domains)
    ensures WellTyped(r.1) && SameShape(m.domains, r.1)
  {
    match ParseWrite(lib.decode, val)
    case None => (Err(InvalidArgument), m.domains)
    case Some((choice, data)) => WriteSelected(lib.narrow, m, aa, choice, data)
  }

  function WriteSelected(f: Narrowing, m: Shared, aa: Lists, choice: Tlv, data: seq<Value>)
    : (r: (Result<seq<Option<nat>>, SvcErr>, map<Text, Vars>))
    requires WellTyped(m.domains)
    ensures WellTyped(r.1) && SameShape(m.domains, r.1)
  {
    match AccessSpec(m, aa, choice)
    case Err(e) => (Err(e), m.domains)
    case Ok(members) =>
      if |members| != |data| then (Err(InvalidArgument), m.domains)
      else var (out, after) := WriteAll(f, m.domains, members, data); (Ok(out), after)
  }

  // An accepted write of the request, with these outcomes, sends the reports.
  predicate Triggered(m: Shared, aa: Lists, choice: Tlv, r: Result<seq<Option<nat>>, SvcErr>) {
    var spec := AccessSpec(m, aa, choice);
    r.Ok? && spec.Ok? && |spec.value| == |r.value| && AnyTrigger(spec.value, r.value)
  }

  predicate RequestTriggers(lib: Library, m: Shared, aa: Lists, val: Bytes, r: Result<seq<Option<nat>>, SvcErr>) {
    var p := ParseWrite(lib.decode, val);
    p.Some? && Triggered(m, aa, p.value.0, r)
  }

  class Assoc {
    const model: Model
    const lib: Library
    var aa: Lists
    var reporting: bool

    ghost predicate Valid()
      reads this, model
    {
      model.Valid()
    }

    constructor (model: Model, lib: Library)
      requires model.Valid()
      ensures Valid() && this.model == model && aa == map[] && !reporting
    {
      this.model, this.lib, aa, reporting := model, lib, map[], false;
    }

    // The specification as it came, if asked for, and one result for each member it selects.
    method Read(val: Bytes) returns (r: Result<(Option<Bytes>, seq<Result<Value, nat>>), SvcErr>)
      requires Valid()
      ensures r == ReadService(model.View(), aa, val)
    {
      var p := ParseRead(val);
      if p.None? {
        return Err(InvalidArgument);
      }
      var (withSpec, choice) := p.value;
      var spec := AccessSpec(Shared(model.domains, model.domLists, model.vmdLists), aa, choice);
      if spec.Err? {
        return Err(spec.error);
      }
      var results := ReadMembers(spec.value);
      return Ok((if withSpec then Some(choice.raw) else None, results));
    }

    method ReadMembers(members: seq<Member>) returns (results: seq<Result<Value, nat>>)
      requires Valid()
      ensures results == ReadAll(model.domains, members)
    {
      results := [];
      ghost var all := ReadAll(model.domains, members);
      for i := 0 to |members|
        invariant results == all[..i]
      {
        PrefixNext(all, i);
        var mb := members[i];
        var x := Resolve(model.domains, mb.dom, mb.item, mb.alt);
        if x.Err? {
          results := results + [Err(x.error)];
        } else {
          TargetInBounds(model.domains, mb);
          results := results + [Ok(GetAt(model.domains[x.value.dom][x.value.name].value, x.value.path))];
        }
      }
      assert all[..|members|] == all;
    }

    // One outcome for each member, in order; a request that does not decode is refused.
    method Write(val: Bytes) returns (r: Result<seq<Option<nat>>, SvcErr>)
      requires Valid()
      modifies model`domains, this`reporting
      ensures Valid()
      ensures (r, model.domains) == WriteService(lib, old(model.View()), aa, val)
      ensures reporting <==> old(reporting) || RequestTriggers(lib, old(model.View()), aa, val, r)
    {
      var (choice, c) := Next(Open(val));
      var (d, _) := OptCtx(c, true, 0);
      if choice.None? || d.None? {
        return Err(InvalidArgument);
      }
      var data := DecodeData(d.value.val);
      if data.None? {
        return Err(InvalidArgument);
      }
      r := WriteData(choice.value, data.value);
    }

    method DecodeData(content: Bytes) returns (data: Option<seq<Value>>)
      ensures data == DecodeOn(lib.decode, [], content)
    {
      var rest := content;
      var done: seq<Value> := [];
      while rest != []
        invariant DecodeOn(lib.decode, done, rest) == DecodeOn(lib.decode, [], content)
        decreases |rest|
      {
        var d := lib.decode(rest);
        if d.None? {
          return None;
        }
        done := done + [d.value.0];
        rest := rest[d.value.1..];
      }
      return Some(done);
    }

    // A count that differs from the data refuses the request.
    method WriteData(choice: Tlv, data: seq<Value>) returns (r: Result<seq<Option<nat>>, SvcErr>)
      requires Valid()
      modifies model`domains, this`reporting
      ensures Valid()
      ensures (r, model.domains) == WriteSelected(lib.narrow, old(model.View()), aa, choice, data)
      ensures reporting <==> old(reporting) || Triggered(old(model.View()), aa, choice, r)
    {
      var spec := AccessSpec(Shared(model.domains, model.domLists, model.vmdLists), aa, choice);
      if spec.Err? {
        return Err(spec.error);
      }
      if |spec.value| != |data| {
        return Err(InvalidArgument);
      }
      var out := WriteMembers(spec.value, data);
      return Ok(out);
    }

    method WriteMembers(members: seq<Member>, data: seq<Value>) returns (out: seq<Option<nat>>)
      requires Valid() && |members| == |data|
      modifies model`domains, this`reporting
      ensures Valid() && (out, model.domains) == WriteAll(lib.narrow, old(model.domains), members, data)
      ensures |out| == |members|
      ensures reporting <==> old(reporting) || AnyTrigger(members, out)
    {
      ghost var before := model.domains;
      out := [];
      var trigger := false;
      for i := 0 to |members|
        invariant model.Valid() && |out| == i && reporting == old(reporting)
        invariant (out, model.domains) == WriteAll(lib.narrow, before, members[..i], data[..i])
        invariant trigger <==> AnyTrigger(members[..i], out)
      {
        assert members[..i + 1][..i] == members[..i] && data[..i + 1][..i] == data[..i];
        var err := model.WriteMember(lib.narrow, members[i], data[i]);
        AnyTriggerSnoc(members[..i], out, members[i], err);
        assert members[..i] + [members[i]] == members[..i + 1];
        out := out + [err];
        if err.None? && Triggers(members[i].item) {
          trigger := true;
        }
      }
      assert members[..|members|] == members && data[..|data|] == data;
      if trigger {
        reporting := true;
      }
    }

    method DefineNvl(val: Bytes) returns (err: Option<SvcErr>)
      requires Valid()
      modifies this`aa, model`domLists, model`vmdLists
      ensures Valid() && (err, model.View(), aa) == Define(old(model.View()), old(aa), val)
    {
      var p := ParseDefine(val);
      if p.None? {
        return Some(InvalidArgument);
      }
      var (name, list) := p.value;
      var spec := AccessSpec(Shared(model.domains, model.domLists, model.vmdLists), aa, list);
      err := DefineList(name, spec);
    }

    method DefineList(name: Name, spec: Result<seq<Member>, SvcErr>) returns (err: Option<SvcErr>)
      requires Valid()
      modifies this`aa, model`domLists, model`vmdLists
      ensures Valid() && (err, model.View(), aa) == DefineAs(old(model.View()), old(aa), name, spec)
    {
      if spec.Err? {
        return Some(spec.error);
      }
      var members := spec.value;
      for i := 0 to |members|
        invariant forall k :: 0 <= k < i ==> Resolve(model.domains, members[k].dom, members[k].item, members[k].alt).Ok?
      {
        if Resolve(model.domains, members[i].dom, members[i].item, members[i].alt).Err? {
          return Some(Definition(1));
        }
      }
      var nvl := Nvl(members, true);
      match name {
        case Vmd(i) =>
          if i in model.vmdLists {
            return Some(Definition(2));
          }
          model.vmdLists := model.vmdLists[i := nvl];
        case Aa(i) =>
          if i in aa {
            return Some(Definition(2));
          }
          aa := aa[i := nvl];
        case Dom(d, i) =>
          if d !in model.domLists {
            return Some(AccessErr(NON_EXISTENT));
          }
          if i in model.domLists[d] {
            return Some(Definition(2));
          }
          model.domLists := model.domLists[d := model.domLists[d][i := nvl]];
      }
      return None;
    }

    method DeleteNvl(val: Bytes) returns (r: Result<(nat, nat), SvcErr>)
      requires Valid()
      modifies this`aa, model`domLists, model`vmdLists
      ensures Valid() && (r, model.View(), aa) == Delete(old(model.View()), old(aa), val)
    {
      var names := ParseDelete(val);
      if names.None? {
        return Err(AccessErr(ACCESS_UNSUPPORTED));
      }
      var refused, matched, deleted := DeleteLists(names.value);
      return if refused then Err(InvalidArgument) else Ok((matched, deleted));
    }

    method DeleteLists(names: seq<Option<Name>>) returns (refused: bool, matched: nat, deleted: nat)
      requires Valid()
      modifies this`aa, model`domLists, model`vmdLists
      ensures Valid()
      ensures Deletion(refused, matched, deleted, model.View(), aa)
              == DeleteNames(Deletion(false, 0, 0, old(model.View()), old(aa)), names)
    {
      refused, matched, deleted := false, 0, 0;
      ghost var goal := DeleteNames(Deletion(false, 0, 0, model.View(), aa), names);
      assert names[0..] == names;
      for i := 0 to |names|
        invariant model.Valid() && !refused
        invariant DeleteNames(Deletion(false, matched, deleted, model.View(), aa), names[i..]) == goal
      {
        assert names[i..][0] == names[i] && names[i..][1..] == names[i + 1..];
        if names[i].None? {
          refused := true;
          return;
        }
        var name := names[i].value;
        var l := LookupList(Shared(model.domains, model.domLists, model.vmdLists), aa, name);
        if l.Ok? {
          matched := matched + 1;
          if l.value.deletable {
            deleted := deleted + 1;
            match name
            case Vmd(k) => model.vmdLists := Without(model.vmdLists, k);
            case Aa(k) => aa := Without(aa, k);
            case Dom(d, k) => model.domLists := model.domLists[d := Without(model.domLists[d], k)];
          }
        }
      }
    }
  }

  // ----- runs of the server

  datatype Request =
    | WriteReq(write: Bytes)
    | DefineReq(define: Bytes)
    | DeleteReq(delete: Bytes)
    | Associate

  // The shared model and the lists of every association.
  datatype Sys = Sys(shared: Shared, aas: map<nat, Lists>)

  function AaOf(s: Sys, a: nat): Lists {
    if a in s.aas then s.aas[a] else map[]
  }

  // One request on association a.
  function Serve(lib: Library, s: Sys, a: nat, r: Request): (t: Sys)
    requires WellTyped(s.shared.domains)
    ensures WellTyped(t.shared.domains)
  {
    match r
    case Associate => s.(aas := s.aas[a := map[]])
    case WriteReq(val) =>
      s.(shared := s.shared.(domains := WriteService(lib, s.shared, AaOf(s, a), val).1))
    case DefineReq(val) => var (_, m, aa) := Define(s.shared, AaOf(s, a), val); Sys(m, s.aas[a := aa])
    case DeleteReq(val) => var (_, m, aa) := Delete(s.shared, AaOf(s, a), val); Sys(m, s.aas[a := aa])
  }

  // Requests of any associations in any order.
  function Run(lib: Library, s: Sys, requests: seq<(nat, Request)>): (t: Sys)
    requires WellTyped(s.shared.domains)
    ensures WellTyped(t.shared.domains)
  {
    if requests == [] then s
    else var (a, r) := requests[|requests| - 1]; Serve(lib, Run(lib, s, requests[..|requests| - 1]), a, r)
  }

  // A list of which every member resolves, and which can be deleted.
  ghost predicate SoundList(domains: map<Text, Vars>, l: Nvl) {
    l.deletable && forall i :: 0 <= i < |l.members| ==>
      Resolve(domains, l.members[i].dom, l.members[i].item, l.members[i].alt).Ok?
  }

  ghost predicate SoundLists(domains: map<Text, Vars>, lists: Lists) {
    forall i :: i in lists ==> SoundList(domains, lists[i])
  }

  ghost predicate Sound(s: Sys) {
    && WellTyped(s.shared.domains)
    && SoundLists(s.shared.domains, s.shared.vmdLists)
    && (forall d :: d in s.shared.domLists ==> SoundLists(s.shared.domains, s.shared.domLists[d]))
    && (forall a :: a in s.aas ==> SoundLists(s.shared.domains, s.aas[a]))
  }

  lemma SoundStable(a: map<Text, Vars>, b: map<Text, Vars>, lists: Lists)
    requires SameShape(a, b) && SoundLists(a, lists)
    ensures SoundLists(b, lists)
  {
    forall i, k | i in lists && 0 <= k < |lists[i].members|
      ensures Resolve(b, lists[i].members[k].dom, lists[i].members[k].item, lists[i].members[k].alt).Ok?
    {
      assert SoundList(a, lists[i]);
      var m := lists[i].members[k];
      ResolveStable(a, b, m.dom, m.item, m.alt);
    }
  }

  lemma LookupSound(m: Shared, aa: Lists, n: Name)
    requires SoundLists(m.domains, m.vmdLists) && SoundLists(m.domains, aa)
    requires forall d :: d in m.domLists ==> SoundLists(m.domains, m.domLists[d])
    ensures LookupList(m, aa, n).Ok? ==> SoundList(m.domains, LookupList(m, aa, n).value)
  {
  }

  ghost predicate SoundShared(m: Shared, aa: Lists) {
    && SoundLists(m.domains, m.vmdLists) && SoundLists(m.domains, aa)
    && (forall d :: d in m.domLists ==> SoundLists(m.domains, m.domLists[d]))
  }

  lemma DefineKeeps(m: Shared, aa: Lists, name: Name, spec: Result<seq<Member>, SvcErr>)
    requires SoundShared(m, aa)
    ensures var (_, m', aa') := DefineAs(m, aa, name, spec); SoundShared(m', aa')
  {
  }

  // A refused define leaves every list unchanged; an accepted one adds the list and nothing else.
  lemma DefineMeaning(m: Shared, aa: Lists, name: Name, spec: Result<seq<Member>, SvcErr>, other: Name)
    ensures var (err, m', aa') := DefineAs(m, aa, name, spec);
            && (err.Some? ==> m' == m && aa' == aa)
            && (err.None? ==> LookupList(m, aa, name).Err? && LookupList(m', aa', name) == Ok(Nvl(spec.value, true)))
            && (other != name ==> LookupList(m', aa', other) == LookupList(m, aa, other))
  {
  }

  lemma RefusedDefineChangesNothing(m: Shared, aa: Lists, val: Bytes)
    ensures var (err, m', aa') := Define(m, aa, val); err.Some? ==> m' == m && aa' == aa
  {
    var p := ParseDefine(val);
    if p.Some? {
      DefineMeaning(m, aa, p.value.0, AccessSpec(m, aa, p.value.1), p.value.0);
    }
  }

  // Deleting keeps the lists sound, and as every list can be deleted the two counts agree.
  lemma {:induction false} DeleteNamesKeeps(d: Deletion, names: seq<Option<Name>>)
    requires SoundShared(d.shared, d.aa) && d.matched == d.deleted
    ensures var e := DeleteNames(d, names);
            SoundShared(e.shared, e.aa) && e.matched == e.deleted
    decreases |names|
  {
    if names != [] && names[0].Some? {
      var name := names[0].value;
      var l := LookupList(d.shared, d.aa, name);
      LookupSound(d.shared, d.aa, name);
      if l.Ok? {
        var (m, aa) := DeleteOne(d.shared, d.aa, name);
        DeleteNamesKeeps(Deletion(d.refused, d.matched + 1, d.deleted + 1, m, aa), names[1..]);
      } else {
        DeleteNamesKeeps(d, names[1..]);
      }
    }
  }

  // Reshaped variables keep every list sound.
  lemma SoundAfterWrite(s: Sys, b: map<Text, Vars>)
    requires Sound(s) && WellTyped(b) && SameShape(s.shared.domains, b)
    ensures Sound(s.(shared := s.shared.(domains := b)))
  {
    SoundStable(s.shared.domains, b, s.shared.vmdLists);
    forall d | d in s.shared.domLists
      ensures SoundLists(b, s.shared.domLists[d])
    {
      SoundStable(s.shared.domains, b, s.shared.domLists[d]);
    }
    forall x | x in s.aas
      ensures SoundLists(b, s.aas[x])
    {
      SoundStable(s.shared.domains, b, s.aas[x]);
    }
  }

  lemma ServeKeeps(lib: Library, s: Sys, a: nat, r: Request)
    requires Sound(s)
    ensures Sound(Serve(lib, s, a, r)) && SameShape(s.shared.domains, Serve(lib, s, a, r).shared.domains)
  {
    var aa := AaOf(s, a);
    assert SoundShared(s.shared, aa);
    match r
    case Associate =>
    case DefineReq(val) =>
      var p := ParseDefine(val);
      if p.Some? {
        DefineKeeps(s.shared, aa, p.value.0, AccessSpec(s.shared, aa, p.value.1));
      }
    case DeleteReq(val) =>
      var p := ParseDelete(val);
      if p.Some? {
        DeleteNamesKeeps(Deletion(false, 0, 0, s.shared, aa), p.value);
      }
    case WriteReq(val) =>
      SoundAfterWrite(s, WriteService(lib, s.shared, aa, val).1);
  }

  // A model as it is loaded: typed values, and no lists.
  ghost predicate Loaded(m: Shared) {
    WellTyped(m.domains) && m.vmdLists == map[] && forall d :: d in m.domLists ==> m.domLists[d] == map[]
  }

  lemma ShapeTransitive(a: map<Text, Vars>, b: map<Text, Vars>, c: map<Text, Vars>)
    requires SameShape(a, b) && SameShape(b, c)
    ensures SameShape(a, c)
  {
  }

  // After any requests of any associations, every stored value still has its type, read-only variables
  // hold their initial values, and every member of every list resolves.
  lemma {:induction false} RunKeeps(lib: Library, init: Shared, requests: seq<(nat, Request)>)
    requires Loaded(init)
    ensures var s := Run(lib, Sys(init, map[]), requests); Sound(s) && SameShape(init.domains, s.shared.domains)
  {
    if requests != [] {
      var front := requests[..|requests| - 1];
      var (a, r) := requests[|requests| - 1];
      RunKeeps(lib, init, front);
      var s := Run(lib, Sys(init, map[]), front);
      ServeKeeps(lib, s, a, r);
      ShapeTransitive(init.domains, s.shared.domains, Serve(lib, s, a, r).shared.domains);
    }
  }

  // In every reachable state, reading a defined list, by any association, gives a value for each member,
  // never a data access error.
  lemma DefinedListReads(lib: Library, init: Shared, requests: seq<(nat, Request)>, a: nat, n: Name)
    requires Loaded(init)
    ensures var s := Run(lib, Sys(init, map[]), requests);
            var l := LookupList(s.shared, AaOf(s, a), n);
            l.Ok? ==> forall i :: 0 <= i < |l.value.members| ==> ReadAll(s.shared.domains, l.value.members)[i].Ok?
  {
    RunKeeps(lib, init, requests);
    var s := Run(lib, Sys(init, map[]), requests);
    LookupSound(s.shared, AaOf(s, a), n);
  }

  // In every reachable state, a delete request that is not refused deletes every list it matches.
  lemma DeletesAllMatched(lib: Library, init: Shared, requests: seq<(nat, Request)>, a: nat, val: Bytes)
    requires Loaded(init)
    ensures var s := Run(lib, Sys(init, map[]), requests);
            var r := Delete(s.shared, AaOf(s, a), val).0;
            r.Ok? ==> r.value.0 == r.value.1
  {
    RunKeeps(lib, init, requests);
    var s := Run(lib, Sys(init, map[]), requests);
    assert SoundShared(s.shared, AaOf(s, a));
    if ParseDelete(val).Some? {
      DeleteNamesKeeps(Deletion(false, 0, 0, s.shared, AaOf(s, a)), ParseDelete(val).value);
    }
  }
}
