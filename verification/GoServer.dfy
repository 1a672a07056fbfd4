// The second MMS server (adapters/dscsystems/cmd/dscsystems-mms-server/services.go): its resolve, get, conform
// and defineNVL, against the first. Its library's ParseAlternateAccess is taken to read the same syntax and to
// refuse a selection of more than one element, its AccessPath to take the same steps.
module GoServer {
  import opened Octets
  import opened Ber
  import opened Values
  import opened MmsTypes
  import opened MmsRequests
  import opened VariableAccess
  import opened MmsServer
  import opened ListSessions

  // The types a fixture declares: floats of 32 bits and no mms-string, at any depth.
  predicate Declared(spec: TypeSpec)
    decreases spec
  {
    match spec
    case TMmsString(_) => false
    case TFloat(format, _) => format == 32
    case TArray(_, elem) => Declared(elem)
    case TStructure(components) => forall i :: 0 <= i < |components| ==> Declared(components[i].spec)
    case _ => true
  }

  // v as a value of the type: narrowed, if that has the type.
  method Conforming(f: Narrowing, spec: TypeSpec, v: Value) returns (r: Option<Value>)
    requires Declared(spec)
    ensures r == OnlyIf(HasType(spec, Narrowed(f, v)), Narrowed(f, v))
    decreases v
  {
    match spec {
      case TFloat(_, _) =>
        match v {
          case Float32(_) => return Some(v);
          case Float64(x) => return Some(Float32(f(x)));
          case _ => return None;
        }
      case TArray(count, elem) =>
        if !v.Array? || |v.items| != count {
          return None;
        }
        var out: seq<Value> := [];
        for i := 0 to |v.items|
          invariant |out| == i && forall j :: 0 <= j < i ==> out[j] == Narrowed(f, v.items[j]) && HasType(elem, out[j])
        {
          var c := Conforming(f, elem, v.items[i]);
          if c.None? {
            assert Narrowed(f, v).items[i] == Narrowed(f, v.items[i]);
            return None;
          }
          out := out + [c.value];
        }
        assert Narrowed(f, v).items == out;
        return Some(Array(out));
      case TStructure(components) =>
        if !v.Structure? || |v.items| != |components| {
          return None;
        }
        var out: seq<Value> := [];
        for i := 0 to |v.items|
          invariant |out| == i
          invariant forall j :: 0 <= j < i ==> out[j] == Narrowed(f, v.items[j]) && HasType(components[j].spec, out[j])
        {
          var c := Conforming(f, components[i].spec, v.items[i]);
          if c.None? {
            assert Narrowed(f, v).items[i] == Narrowed(f, v.items[i]);
            return None;
          }
          out := out + [c.value];
        }
        assert Narrowed(f, v).items == out;
        return Some(Structure(out));
      case TVisibleString(m) =>
        return if v.VisibleString? && Within(|v.vs|, m) then Some(v) else None;
      case TOctetString(m) =>
        return if v.OctetString? && Within(|v.octets|, m) then Some(v) else None;
      case TBoolean => return if v.Boolean? then Some(v) else None;
      case TInteger(_) => return if v.Integer? then Some(v) else None;
      case TUnsigned(_) => return if v.Unsigned? then Some(v) else None;
      case TBitString(_) => return if v.BitString? then Some(v) else None;
      case TUtcTime => return if v.UtcTime? then Some(v) else None;
      case TBinaryTime => return if v.BinaryTime? then Some(v) else None;
    }
  }

  // The two servers take the same values for a declared type, and store the same.
  method ConformTwins(f: Narrowing, spec: TypeSpec, v: Value) returns (r: Option<Value>)
    requires Declared(spec)
    ensures r == Conform(f, spec, v)
  {
    ConformMeaning(f, spec, v);
    r := Conforming(f, spec, v);
  }

  // ----- resolve and get

  // An index range, or all elements.
  predicate Many(s: Step) {
    s.Span? || s.All?
  }

  predicate SelectsMany(alt: Bytes) {
    ParseAlt(alt).Ok? && exists i :: 0 <= i < |ParseAlt(alt).value| && Many(ParseAlt(alt).value[i])
  }

  function SingleSteps(alt: Bytes): Result<seq<Step>, nat> {
    if SelectsMany(alt) then Err(ACCESS_UNSUPPORTED) else ParseAlt(alt)
  }

  function ResolveSingle(domains: map<Text, Vars>, mb: Member): Result<Target, nat> {
    var parts := Split(mb.item);
    if mb.dom == [] || !Known(domains, mb.dom, parts[0]) then Err(NON_EXISTENT)
    else
      var spec := domains[mb.dom][parts[0]].spec;
      match mb.alt
      case None =>
        AtPath(mb.dom, parts[0], ResolveSteps(spec, CompSteps(parts[1..])),
               if |parts| > 1 then NON_EXISTENT else INVALID_ADDRESS)
      case Some(a) =>
        match SingleSteps(a)
        case Err(e) => Err(e)
        case Ok(more) => AtPath(mb.dom, parts[0], ResolveSteps(spec, CompSteps(parts[1..]) + more), INVALID_ADDRESS)
  }

  function AtPath(dom: Text, base: Text, r: Result<(seq<Sel>, TypeSpec), nat>, code: nat): Result<Target, nat> {
    match r
    case Ok((path, t)) => Ok(Target(dom, base, path, t))
    case Err(_) => Err(code)
  }

  // The steps are gathered one part of the name at a time.
  method Resolving(domains: map<Text, Vars>, mb: Member) returns (r: Result<Target, nat>)
    ensures r == ResolveSingle(domains, mb)
  {
    var parts := Split(mb.item);
    if mb.dom == [] || mb.dom !in domains || parts[0] !in domains[mb.dom] {
      return Err(NON_EXISTENT);
    }
    var v := domains[mb.dom][parts[0]];
    var steps: seq<Step> := [];
    for i := 1 to |parts|
      invariant steps == CompSteps(parts[1..i])
    {
      assert parts[1..i + 1] == parts[1..i] + [parts[i]];
      steps := steps + [Comp(parts[i])];
    }
    assert parts[1..|parts|] == parts[1..];
    if mb.alt.Some? {
      var more := SingleSteps(mb.alt.value);
      if more.Err? {
        return Err(more.error);
      }
      steps := steps + more.value;
    }
    var path := ResolveSteps(v.spec, steps);
    if path.Err? {
      if |parts| > 1 && mb.alt.None? {
        return Err(NON_EXISTENT);
      }
      return Err(INVALID_ADDRESS);
    }
    return Ok(Target(mb.dom, parts[0], path.value.0, path.value.1));
  }

  // Down the path, one index at a time.
  method Getting(x: Var, g: Target) returns (cur: Value)
    requires HasType(x.spec, x.value) && PathTyped(x.spec, g.path, g.spec)
    requires forall i :: 0 <= i < |g.path| ==> g.path[i].Pos?
    ensures InBounds(x.value, g.path) && cur == GetAt(x.value, g.path)
  {
    var v, path := x.value, g.path;
    GetTyped(x.spec, v, path, g.spec);
    cur := v;
    ghost var s := x.spec;
    assert path[0..] == path;
    for k := 0 to |path|
      invariant HasType(s, cur) && PathTyped(s, path[k..], g.spec)
      invariant InBounds(cur, path[k..]) && GetAt(cur, path[k..]) == GetAt(v, path)
    {
      assert path[k..][0] == path[k] && path[k..][1..] == path[k + 1..];
      s := PartSpec(s, path[k].i);
      cur := cur.items[path[k].i];
    }
    assert path[|path|..] == [];
  }

  // Names first, then steps from where they lead.
  function Continued(path: seq<Sel>, r: Result<(seq<Sel>, TypeSpec), nat>): Result<(seq<Sel>, TypeSpec), nat> {
    if r.Ok? then Ok((path + r.value.0, r.value.1)) else Err(INVALID_ADDRESS)
  }

  function NamesThenSteps(spec: TypeSpec, names: seq<Text>, more: seq<Step>): Result<(seq<Sel>, TypeSpec), nat> {
    var r := ResolveNames(spec, names);
    if r.None? then Err(INVALID_ADDRESS) else Continued(r.value.0, ResolveSteps(r.value.1, more))
  }

  lemma ContinuedUnder(s: Sel, path: seq<Sel>, r: Result<(seq<Sel>, TypeSpec), nat>)
    ensures Under(s, Continued(path, r)) == Continued([s] + path, r)
  {
    if r.Ok? {
      assert [s] + (path + r.value.0) == [s] + path + r.value.0;
    }
  }

  lemma {:induction false} StepsAfterNames(spec: TypeSpec, names: seq<Text>, more: seq<Step>)
    ensures ResolveSteps(spec, CompSteps(names) + more) == NamesThenSteps(spec, names, more)
  {
    if names == [] {
      assert CompSteps(names) + more == more;
      StepsFail(spec, more);
      assert ResolveSteps(spec, more).Ok? ==> [] + ResolveSteps(spec, more).value.0 == ResolveSteps(spec, more).value.0;
    } else {
      var all := CompSteps(names) + more;
      assert all[0] == Comp(names[0]) && all[1..] == CompSteps(names[1..]) + more;
      if spec.TStructure? && FindComponent(spec.components, names[0]).Some? {
        var i := FindComponent(spec.components, names[0]).value;
        var inner := spec.components[i].spec;
        StepsAfterNames(inner, names[1..], more);
        if ResolveNames(inner, names[1..]).Some? {
          var (path, mid) := ResolveNames(inner, names[1..]).value;
          ContinuedUnder(Pos(i), path, ResolveSteps(mid, more));
        }
      }
    }
  }

  // What only the first server resolves: a selection of more than one element, or a nameless domain.
  predicate Beyond(mb: Member) {
    mb.dom == [] || (mb.alt.Some? && SelectsMany(mb.alt.value))
  }

  predicate NameResolves(domains: map<Text, Vars>, mb: Member) {
    var parts := Split(mb.item);
    Known(domains, mb.dom, parts[0]) && ResolveNames(domains[mb.dom][parts[0]].spec, parts[1..]).Some?
  }

  // The cases in which the two servers answer alike, error codes included: the variable is not there, or the
  // domain has a name and no element is selected, or one is, by a name that resolves.
  predicate Alike(domains: map<Text, Vars>, mb: Member) {
    || !Known(domains, mb.dom, Split(mb.item)[0])
    || (if mb.dom == [] then !NameResolves(domains, mb)
        else mb.alt.None? || (NameResolves(domains, mb) && !SelectsMany(mb.alt.value)))
  }

  // The second server resolves exactly what the first one does and is not beyond it, and to the same target.
  lemma ResolveTwins(domains: map<Text, Vars>, mb: Member)
    ensures var (first, second) := (Resolve(domains, mb.dom, mb.item, mb.alt), ResolveSingle(domains, mb));
            && (second.Ok? <==> first.Ok? && !Beyond(mb))
            && (second.Ok? ==> second == first)
            && (second == first <==> Alike(domains, mb))
  {
    var parts := Split(mb.item);
    if Known(domains, mb.dom, parts[0]) {
      var spec := domains[mb.dom][parts[0]].spec;
      NamesAreSteps(spec, parts[1..]);
      if mb.alt.Some? && ParseAlt(mb.alt.value).Ok? {
        StepsAfterNames(spec, parts[1..], ParseAlt(mb.alt.value).value);
        if NameResolves(domains, mb) {
          StepsFail(ResolveNames(spec, parts[1..]).value.1, ParseAlt(mb.alt.value).value);
        }
      }
      if parts[1..] == [] {
        assert ResolveNames(spec, []).Some?;
      }
    }
  }

  // Its codes: 10 for a nameless domain, a variable that is not there or a name without alternate access that
  // does not resolve, 9 for a selection of more than one element, and 5 for anything else that is not there.
  lemma SingleCodes(domains: map<Text, Vars>, mb: Member)
    ensures var r := ResolveSingle(domains, mb);
            if mb.dom == [] || !Known(domains, mb.dom, Split(mb.item)[0]) then r == Err(10)
            else if mb.alt.None? then r.Ok? == NameResolves(domains, mb) && (r.Err? ==> r.error == 10)
            else if ParseAlt(mb.alt.value).Err? then r == Err(ParseAlt(mb.alt.value).error)
            else if SelectsMany(mb.alt.value) then r == Err(9)
            else r.Err? ==> r.error == 5
  {
    ResolveTwins(domains, mb);
    var parts := Split(mb.item);
    if Known(domains, mb.dom, parts[0]) && parts[1..] == [] {
      assert ResolveNames(domains[mb.dom][parts[0]].spec, []).Some?;
    }
  }

  // ----- read and write

  lemma {:induction false} StepsPositions(spec: TypeSpec, steps: seq<Step>)
    requires ResolveSteps(spec, steps).Ok? && forall i :: 0 <= i < |steps| ==> !Many(steps[i])
    ensures forall i :: 0 <= i < |ResolveSteps(spec, steps).value.0| ==> ResolveSteps(spec, steps).value.0[i].Pos?
  {
    if steps != [] {
      assert !Many(steps[0]);
      StepsPositions(
        if steps[0].Comp? then spec.components[FindComponent(spec.components, steps[0].name).value].spec else spec.elem,
        steps[1..]);
    }
  }

  // What it resolves is a path of positions only, in the variable's type, to a part of the type it reports.
  lemma SinglePositions(domains: map<Text, Vars>, mb: Member)
    requires ResolveSingle(domains, mb).Ok?
    ensures var g := ResolveSingle(domains, mb).value;
            && g.dom in domains && g.name in domains[g.dom]
            && PathTyped(domains[g.dom][g.name].spec, g.path, g.spec)
            && forall i :: 0 <= i < |g.path| ==> g.path[i].Pos?
  {
    ResolveTwins(domains, mb);
    ResolveTyped(domains, mb.dom, mb.item, mb.alt);
    var parts := Split(mb.item);
    var steps := CompSteps(parts[1..]) + (if mb.alt.Some? then ParseAlt(mb.alt.value).value else []);
    assert mb.alt.None? ==> steps == CompSteps(parts[1..]);
    StepsPositions(domains[mb.dom][parts[0]].spec, steps);
  }

  lemma SingleInBounds(domains: map<Text, Vars>, mb: Member)
    requires WellTyped(domains) && ResolveSingle(domains, mb).Ok?
    ensures var g := ResolveSingle(domains, mb).value;
            && Resolve(domains, mb.dom, mb.item, mb.alt) == Ok(g)
            && g.dom in domains && g.name in domains[g.dom]
            && PathTyped(domains[g.dom][g.name].spec, g.path, g.spec)
            && InBounds(domains[g.dom][g.name].value, g.path)
  {
    ResolveTwins(domains, mb);
    TargetInBounds(domains, mb);
  }

  function ReadSingle(domains: map<Text, Vars>, mb: Member): Result<Value, nat>
    requires WellTyped(domains)
  {
    match ResolveSingle(domains, mb)
    case Err(e) => Err(e)
    case Ok(g) =>
      SingleInBounds(domains, mb);
      Ok(GetAt(domains[g.dom][g.name].value, g.path))
  }

  method Reading(domains: map<Text, Vars>, mb: Member) returns (r: Result<Value, nat>)
    requires WellTyped(domains)
    ensures r == ReadSingle(domains, mb)
  {
    var t := Resolving(domains, mb);
    if t.Err? {
      return Err(t.error);
    }
    SinglePositions(domains, mb);
    var v := Getting(domains[t.value.dom][t.value.name], t.value);
    return Ok(v);
  }

  // The second server reads what the first one reads and is not beyond it; the answers are equal exactly when
  // the resolves are.
  lemma ReadTwins(domains: map<Text, Vars>, mb: Member)
    requires WellTyped(domains)
    ensures var (first, second) := (ReadOne(domains, mb), ReadSingle(domains, mb));
            && (second.Ok? <==> first.Ok? && !Beyond(mb))
            && (second.Ok? ==> second == first)
            && (second == first <==> Alike(domains, mb))
  {
    ResolveTwins(domains, mb);
  }

  // The error code, if refused, and the variables afterwards.
  function WriteSingle(f: Narrowing, domains: map<Text, Vars>, mb: Member, v: Value): (Option<nat>, map<Text, Vars>)
    requires WellTyped(domains)
  {
    match ResolveSingle(domains, mb)
    case Err(e) => (Some(e), domains)
    case Ok(g) =>
      SingleInBounds(domains, mb);
      var x := domains[g.dom][g.name];
      if !x.writable then (Some(ACCESS_DENIED), domains)
      else
        match Conform(f, g.spec, v)
        case None => (Some(TYPE_INCONSISTENT), domains)
        case Some(nv) =>
          ConformIdempotent(f, g.spec, v);
          SetGet(x.spec, x.value, g.path, g.spec, nv);
          (None, Put(domains, g, nv))
  }

  // The second server accepts the writes the first one accepts and that are not beyond it; outcome and
  // variables are equal when the resolves are, and otherwise the outcomes differ.
  lemma WriteTwins(f: Narrowing, domains: map<Text, Vars>, mb: Member, v: Value)
    requires WellTyped(domains)
    ensures var ((first, after), (second, after')) := (WriteOne(f, domains, mb, v), WriteSingle(f, domains, mb, v));
            && (second.None? <==> first.None? && !Beyond(mb))
            && (second == first <==> Alike(domains, mb))
            && (Alike(domains, mb) ==> after' == after)
            && (second.Some? ==> after' == domains)
  {
    ResolveTwins(domains, mb);
    if ResolveSingle(domains, mb).Err? {
      SingleErrors(domains, mb);
    }
  }

  lemma SingleErrors(domains: map<Text, Vars>, mb: Member)
    requires ResolveSingle(domains, mb).Err?
    ensures ResolveSingle(domains, mb).error !in {ACCESS_DENIED, TYPE_INCONSISTENT}
  {
  }

  // Writes in order: the outcomes and the variables afterwards.
  function WritesSingle(f: Narrowing, domains: map<Text, Vars>, members: seq<Member>, data: seq<Value>)
    : (r: (seq<Option<nat>>, map<Text, Vars>))
    requires WellTyped(domains) && |members| == |data|
    ensures WellTyped(r.1) && SameShape(domains, r.1) && |r.0| == |members|
  {
    if members == [] then ([], domains)
    else
      var k := |members| - 1;
      var (out, ds) := WritesSingle(f, domains, members[..k], data[..k]);
      SingleKeeps(f, ds, members[k], data[k]);
      var (o, ds') := WriteSingle(f, ds, members[k], data[k]);
      (out + [o], ds')
  }

  lemma SingleKeeps(f: Narrowing, domains: map<Text, Vars>, mb: Member, v: Value)
    requires WellTyped(domains)
    ensures var after := WriteSingle(f, domains, mb, v).1; WellTyped(after) && SameShape(domains, after)
  {
    WriteOneKeeps(f, domains, mb, v);
    ResolveTwins(domains, mb);
  }

  lemma AlikeStable(a: map<Text, Vars>, b: map<Text, Vars>, mb: Member)
    requires SameShape(a, b)
    ensures Alike(a, mb) <==> Alike(b, mb)
  {
  }

  predicate AllAlike(domains: map<Text, Vars>, members: seq<Member>) {
    members != [] ==> AllAlike(domains, members[..|members| - 1]) && Alike(domains, members[|members| - 1])
  }

  // Outcomes that are equal exactly when `alike`, and then the variables are too.
  predicate SameWhen(first: (seq<Option<nat>>, map<Text, Vars>), second: (seq<Option<nat>>, map<Text, Vars>),
      alike: bool)
  {
    (first.0 == second.0 <==> alike) && (alike ==> first.1 == second.1)
  }

  // Over any list of writes in order, the two servers give the same outcomes, and are left with the same
  // variables, exactly when they resolve every member alike.
  lemma {:induction false} WritesTwins(f: Narrowing, domains: map<Text, Vars>, members: seq<Member>, data: seq<Value>)
    requires WellTyped(domains) && |members| == |data|
    ensures SameWhen(WriteAll(f, domains, members, data), WritesSingle(f, domains, members, data),
                     AllAlike(domains, members))
  {
    if members != [] {
      var k := |members| - 1;
      var front, last := members[..k], members[k];
      WritesTwins(f, domains, front, data[..k]);
      TwinsStep(f, domains, WriteAll(f, domains, front, data[..k]), WritesSingle(f, domains, front, data[..k]),
                AllAlike(domains, front), last, data[k]);
    }
  }

  lemma TwinsStep(f: Narrowing, domains: map<Text, Vars>, first: (seq<Option<nat>>, map<Text, Vars>),
      second: (seq<Option<nat>>, map<Text, Vars>), alike: bool, mb: Member, v: Value)
    requires WellTyped(first.1) && WellTyped(second.1) && SameShape(domains, first.1)
    requires SameWhen(first, second, alike)
    ensures var (one, two) := (WriteOne(f, first.1, mb, v), WriteSingle(f, second.1, mb, v));
            SameWhen((first.0 + [one.0], one.1), (second.0 + [two.0], two.1), alike && Alike(domains, mb))
  {
    var one, two := WriteOne(f, first.1, mb, v).0, WriteSingle(f, second.1, mb, v).0;
    SnocEqual(first.0, second.0, one, two);
    if alike {
      AlikeStable(domains, first.1, mb);
      WriteTwins(f, first.1, mb, v);
    }
  }

  lemma SnocEqual<T>(a: seq<T>, b: seq<T>, x: T, y: T)
    ensures a + [x] == b + [y] <==> a == b && x == y
  {
    if a + [x] == b + [y] {
      assert (a + [x])[..|a|] == a && (b + [y])[..|b|] == b;
      assert (a + [x])[|a|] == x && (b + [y])[|b|] == y;
    }
  }

  ghost predicate AllDeclared(domains: map<Text, Vars>) {
    forall d, v :: d in domains && v in domains[d] ==> Declared(domains[d][v].spec)
  }

  lemma {:induction false} DeclaredPart(spec: TypeSpec, path: seq<Sel>, t: TypeSpec)
    requires Declared(spec) && PathTyped(spec, path, t) && forall i :: 0 <= i < |path| ==> path[i].Pos?
    ensures Declared(t)
  {
    if path != [] {
      DeclaredPart(PartSpec(spec, path[0].i), path[1..], t);
    }
  }

  // ----- the define request

  // The content of the next TLV, which must have this tag.
  function Expect(c: Cursor, cls: nat, cons: bool, num: nat): (r: Option<(Bytes, Cursor)>)
    ensures r.Some? ==> |r.value.1.rest| < |c.rest|
  {
    var (t, d) := Next(c);
    if t.Some? && t.value.Is(cls, cons, num) then Some((t.value.val, d)) else None
  }

  function ObjectName(c: Cursor): Option<(Name, Cursor)> {
    var (t, d) := Next(c);
    if t.None? then None
    else if t.value.Ctx(false, 0) then Some((Vmd(t.value.val), d))
    else if t.value.Ctx(false, 2) then Some((Aa(t.value.val), d))
    else if !t.value.Ctx(true, 1) then None
    else
      match Expect(Open(t.value.val), UNIV, false, 26)
      case None => None
      case Some((dom, e)) =>
        match Expect(e, UNIV, false, 26)
        case None => None
        case Some((item, _)) => Some((Dom(dom, item), d))
  }

  function EntryMember(entry: Bytes): Option<Member> {
    match Expect(Open(entry), CTX, true, 0)
    case None => None
    case Some((vs, c)) =>
      match ObjectName(Open(vs))
      case None => None
      case Some((n, _)) =>
        var (a, _) := OptCtx(c, true, 5);
        Some(MemberOf(n, match a case Some(x) => Some(x.val) case None => None))
  }

  // The members after those read so far.
  function EntriesOn(done: seq<Member>, c: Cursor): Option<seq<Member>>
    decreases |c.rest|
  {
    if c.rest == [] then Some(done)
    else
      match Expect(c, UNIV, true, 16)
      case None => None
      case Some((entry, d)) =>
        match EntryMember(entry)
        case None => None
        case Some(mb) => EntriesOn(done + [mb], d)
  }

  function ParseStrict(val: Bytes): Option<(Name, seq<Member>)> {
    match ObjectName(Open(val))
    case None => None
    case Some((n, c)) =>
      match Expect(c, CTX, true, 0)
      case None => None
      case Some((list, _)) => match EntriesOn([], Open(list)) case None => None case Some(members) => Some((n, members))
  }

  lemma NameAgrees(c: Cursor)
    ensures ObjectName(c).Some? ==> Next(c).0.Some? && ParseName(Next(c).0.value) == Some(ObjectName(c).value.0)
                                    && Next(c).1 == ObjectName(c).value.1
  {
  }

  lemma ExpectOpt(c: Cursor, num: nat)
    requires Expect(c, CTX, true, num).Some? && !c.bad
    ensures OptCtx(c, true, num).0.Some? && OptCtx(c, true, num).0.value.val == Expect(c, CTX, true, num).value.0
    ensures OptCtx(c, true, num).1 == Expect(c, CTX, true, num).value.1 && !OptCtx(c, true, num).1.bad
  {
  }

  lemma EntryAgrees(t: Tlv)
    requires EntryMember(t.val).Some?
    ensures ParseEntry(t) == Ok(EntryMember(t.val).value)
  {
    ExpectOpt(Open(t.val), 0);
    NameAgrees(Open(Expect(Open(t.val), CTX, true, 0).value.0));
  }

  lemma EntriesStep(done: seq<Member>, c: Cursor, members: seq<Member>) returns (t: Tlv, mb: Member, d: Cursor)
    requires !c.bad && c.rest != [] && EntriesOn(done, c) == Some(members)
    ensures Next(c) == (Some(t), d) && !d.bad && |d.rest| < |c.rest|
    ensures EntryMember(t.val) == Some(mb) && EntriesOn(done + [mb], d) == Some(members)
  {
    t, d := Next(c).0.value, Next(c).1;
    mb := EntryMember(t.val).value;
  }

  lemma ChildrenStep(c: Cursor, t: Tlv, d: Cursor)
    requires !c.bad && Next(c) == (Some(t), d)
    ensures Children(c.rest) == [t] + Children(d.rest)
  {
    assert c == Open(c.rest);
  }

  lemma {:induction false} EntriesAgree(done: seq<Member>, c: Cursor, members: seq<Member>)
    requires !c.bad && EntriesOn(done, c) == Some(members)
    ensures done <= members && ParseEntries(Children(c.rest)) == Ok(members[|done|..])
    decreases |c.rest|
  {
    if c.rest == [] {
      assert Children([]) == [] && members[|done|..] == [];
    } else {
      var t, mb, d := EntriesStep(done, c, members);
      EntriesAgree(done + [mb], d, members);
      EntryAgrees(t);
      ChildrenStep(c, t, d);
      EntriesCons(done, t, mb, Children(d.rest), members);
    }
  }

  lemma EntriesCons(done: seq<Member>, t: Tlv, mb: Member, ts: seq<Tlv>, members: seq<Member>)
    requires ParseEntry(t) == Ok(mb) && done + [mb] <= members && ParseEntries(ts) == Ok(members[|done + [mb]|..])
    ensures done <= members && ParseEntries([t] + ts) == Ok(members[|done|..])
  {
    ParseEntriesCons(t, mb, ts, members[|done| + 1..]);
    assert members[|done|..] == [mb] + members[|done| + 1..];
  }

  // What the client encodes, the second server can read.
  lemma ExpectMade(cls: nat, cons: bool, num: nat, content: Bytes, rest: Bytes)
    requires cls < 4 && num < TWO32 && |content| < TWO32
    ensures Expect(Open(Encode(cls, cons, num, content) + rest), cls, cons, num) == Some((content, Open(rest)))
  {
    NextMade(cls, cons, num, content, rest);
  }

  lemma NameMade(n: Name, rest: Bytes)
    requires |EncodeName(n)| < TWO32
    ensures ObjectName(Open(EncodeName(n) + rest)) == Some((n, Open(rest)))
  {
    NameRoundTrip(n, rest);
    if n.Dom? {
      ExpectMade(UNIV, false, 26, n.dom, Ber.VisibleString(n.item));
      ExpectMade(UNIV, false, 26, n.item, []);
      assert Ber.VisibleString(n.item) + [] == Ber.VisibleString(n.item);
    }
  }

  lemma EntryMade(n: Name, alt: Option<Bytes>)
    requires |Entry(n, alt)| < TWO32
    ensures EntryMember(Entry(n, alt)) == Some(MemberOf(n, alt))
  {
    var tail: Bytes := match alt case Some(a) => Cc(5, a) case None => [];
    ExpectMade(CTX, true, 0, EncodeName(n), tail);
    NameMade(n, []);
    assert EncodeName(n) + [] == EncodeName(n);
    match alt
    case Some(a) =>
      OptCtxMade(true, 5, a, [], true, 5);
      assert Cc(5, a) + [] == Cc(5, a);
    case None =>
      OptCtxEnd(true, 5);
  }

  lemma EntriesOne(done: seq<Member>, c: Cursor, entry: Bytes, d: Cursor, mb: Member)
    requires c.rest != [] && Expect(c, UNIV, true, 16) == Some((entry, d)) && EntryMember(entry) == Some(mb)
    ensures EntriesOn(done, c) == EntriesOn(done + [mb], d)
  {
  }

  lemma EntriesFirst(done: seq<Member>, vars: seq<Variable>)
    requires vars != [] && |ListContent(vars)| < TWO32
    ensures EntriesOn(done, Open(ListContent(vars)))
            == EntriesOn(done + [MemberOf(vars[0].name, vars[0].alt)], Open(ListContent(vars[1..])))
  {
    var x, rest := vars[0], ListContent(vars[1..]);
    EntryMade(x.name, x.alt);
    ExpectMade(UNIV, true, 16, Entry(x.name, x.alt), rest);
    EntriesOne(done, Open(ListContent(vars)), Entry(x.name, x.alt), Open(rest), MemberOf(x.name, x.alt));
  }

  lemma {:induction false} EntriesMade(done: seq<Member>, vars: seq<Variable>, members: seq<Member>)
    requires |ListContent(vars)| < TWO32 && members == done + MembersOf(vars)
    ensures EntriesOn(done, Open(ListContent(vars))) == Some(members)
    decreases |vars|
  {
    if vars == [] {
      assert members == done;
    } else {
      EntriesFirst(done, vars);
      MembersOfCons(vars);
      var mb := MemberOf(vars[0].name, vars[0].alt);
      assert done + ([mb] + MembersOf(vars[1..])) == done + [mb] + MembersOf(vars[1..]);
      EntriesMade(done + [mb], vars[1..], members);
    }
  }

  lemma StrictReadsClient(n: Name, vars: seq<Variable>)
    requires |EncodeName(n)| < TWO32 && |ListContent(vars)| < TWO32
    ensures ParseStrict(DefineRequest(n, vars)) == Some((n, MembersOf(vars)))
  {
    NameMade(n, ListOfVariable(vars));
    ExpectMade(CTX, true, 0, ListContent(vars), []);
    assert ListOfVariable(vars) + [] == ListOfVariable(vars);
    assert [] + MembersOf(vars) == MembersOf(vars);
    EntriesMade([], vars, MembersOf(vars));
  }

  // The second server is the stricter reader: a request it can read, the first one reads the same.
  lemma StrictAgrees(m: Shared, aa: Lists, val: Bytes)
    requires ParseStrict(val).Some?
    ensures Define(m, aa, val) == DefineAs(m, aa, ParseStrict(val).value.0, Ok(ParseStrict(val).value.1))
  {
    NameAgrees(Open(val));
    var (n, c) := ObjectName(Open(val)).value;
    ExpectOpt(c, 0);
    var list := Expect(c, CTX, true, 0).value.0;
    var members := ParseStrict(val).value.1;
    EntriesAgree([], Open(list), members);
    assert members[0..] == members;
  }

  // ----- defineNVL

  // The refusal, if any, and the lists afterwards. The scope and the name are looked at before the members.
  function DefineLast(m: Shared, aa: Lists, name: Name, members: seq<Member>): (Option<SvcErr>, Shared, Lists) {
    if name.Dom? && name.dom !in m.domLists then (Some(AccessErr(NON_EXISTENT)), m, aa)
    else if LookupList(m, aa, name).Ok? then (Some(Definition(2)), m, aa)
    else if exists i :: 0 <= i < |members| && ResolveSingle(m.domains, members[i]).Err? then
      (Some(Definition(1)), m, aa)
    else
      match name
      case Vmd(i) => (None, m.(vmdLists := m.vmdLists[i := Nvl(members, true)]), aa)
      case Aa(i) => (None, m, aa[i := Nvl(members, true)])
      case Dom(d, i) => (None, m.(domLists := m.domLists[d := m.domLists[d][i := Nvl(members, true)]]), aa)
  }

  function DefineStrict(m: Shared, aa: Lists, val: Bytes): (Option<SvcErr>, Shared, Lists) {
    match ParseStrict(val)
    case None => (Some(InvalidArgument), m, aa)
    case Some((name, members)) => DefineLast(m, aa, name, members)
  }

  predicate Exists(domains: map<Text, Vars>, mb: Member) {
    ResolveSingle(domains, mb).Ok?
  }

  // The members again, or None when one does not exist.
  function Checked(domains: map<Text, Vars>, members: seq<Member>): Option<seq<Member>> {
    if forall i :: 0 <= i < |members| ==> Exists(domains, members[i]) then Some(members) else None
  }

  lemma CheckedSnoc(domains: map<Text, Vars>, members: seq<Member>, mb: Member)
    requires Checked(domains, members) == Some(members)
    ensures Checked(domains, members + [mb]) == if Exists(domains, mb) then Some(members + [mb]) else None
  {
    assert (members + [mb])[|members|] == mb;
  }

  lemma CheckedPrefix(domains: map<Text, Vars>, members: seq<Member>, i: nat)
    requires i <= |members| && Checked(domains, members[..i]) == None
    ensures Checked(domains, members) == None
  {
    var k :| 0 <= k < i && !Exists(domains, members[..i][k]);
    assert !Exists(domains, members[k]);
  }

  method CheckMembers(domains: map<Text, Vars>, members: seq<Member>) returns (kept: Option<seq<Member>>)
    ensures kept == Checked(domains, members)
  {
    var out: seq<Member> := [];
    for i := 0 to |members|
      invariant out == members[..i] && Checked(domains, out) == Some(out)
    {
      CheckedSnoc(domains, out, members[i]);
      assert members[..i + 1] == out + [members[i]];
      var found := CheckMember(domains, members[i]);
      if !found {
        CheckedPrefix(domains, members, i + 1);
        return None;
      }
      out := out + [members[i]];
    }
    assert members[..|members|] == members;
    return Some(out);
  }

  method CheckMember(domains: map<Text, Vars>, mb: Member) returns (ok: bool)
    ensures ok == Exists(domains, mb)
  {
    var t := Resolving(domains, mb);
    ok := t.Ok?;
  }

  class Handler {
    const model: Model
    var aa: Lists

    constructor (model: Model)
      ensures this.model == model && aa == map[]
    {
      this.model, aa := model, map[];
    }

    method WriteMember(f: Narrowing, mb: Member, v: Value) returns (err: Option<nat>)
      requires model.Valid() && AllDeclared(model.domains)
      modifies model`domains
      ensures (err, model.domains) == WriteSingle(f, old(model.domains), mb, v)
      ensures model.Valid() && AllDeclared(model.domains)
    {
      SingleKeeps(f, model.domains, mb, v);
      var r := Resolving(model.domains, mb);
      if r.Err? {
        return Some(r.error);
      }
      var g := r.value;
      SinglePositions(model.domains, mb);
      SingleInBounds(model.domains, mb);
      var x := model.domains[g.dom][g.name];
      if !x.writable {
        return Some(ACCESS_DENIED);
      }
      DeclaredPart(x.spec, g.path, g.spec);
      var nv := ConformTwins(f, g.spec, v);
      if nv.None? {
        return Some(TYPE_INCONSISTENT);
      }
      ConformIdempotent(f, g.spec, v);
      SetGet(x.spec, x.value, g.path, g.spec, nv.value);
      model.Set(g, nv.value);
      return None;
    }

    method DefineNvl(val: Bytes) returns (err: Option<SvcErr>)
      modifies this`aa, model`domLists, model`vmdLists
      ensures (err, model.View(), aa) == DefineStrict(old(model.View()), old(aa), val)
    {
      var n := ObjectName(Open(val));
      if n.None? {
        return Some(InvalidArgument);
      }
      var list := Expect(n.value.1, CTX, true, 0);
      if list.None? {
        return Some(InvalidArgument);
      }
      var members := ReadEntries(list.value.0);
      if members.None? {
        return Some(InvalidArgument);
      }
      err := DefineMembers(n.value.0, members.value);
    }

    method ReadEntries(content: Bytes) returns (members: Option<seq<Member>>)
      ensures members == EntriesOn([], Open(content))
    {
      var out: seq<Member> := [];
      var c := Open(content);
      while c.rest != []
        invariant EntriesOn(out, c) == EntriesOn([], Open(content))
        decreases |c.rest|
      {
        var entry := Expect(c, UNIV, true, 16);
        if entry.None? {
          return None;
        }
        var mb := EntryMember(entry.value.0);
        if mb.None? {
          return None;
        }
        out := out + [mb.value];
        c := entry.value.1;
      }
      return Some(out);
    }

    method DefineMembers(name: Name, members: seq<Member>) returns (err: Option<SvcErr>)
      modifies this`aa, model`domLists, model`vmdLists
      ensures (err, model.View(), aa) == DefineLast(old(model.View()), old(aa), name, members)
    {
      if name.Dom? && name.dom !in model.domLists {
        return Some(AccessErr(NON_EXISTENT));
      }
      var l := LookupList(Shared(model.domains, model.domLists, model.vmdLists), aa, name);
      if l.Ok? {
        return Some(Definition(2));
      }
      var kept := CheckMembers(model.domains, members);
      if kept.None? {
        return Some(Definition(1));
      }
      var nvl := Nvl(kept.value, true);
      match name {
        case Vmd(i) => model.vmdLists := model.vmdLists[i := nvl];
        case Aa(i) => aa := aa[i := nvl];
        case Dom(d, i) => model.domLists := model.domLists[d := model.domLists[d][i := nvl]];
      }
      return None;
    }
  }

  // ----- the two servers on the same definition

  // The scope exists and has no list of the name.
  predicate Free(m: Shared, aa: Lists, name: Name) {
    (name.Dom? ==> name.dom in m.domLists) && LookupList(m, aa, name).Err?
  }

  predicate AllSingle(members: seq<Member>) {
    forall i :: 0 <= i < |members| ==> !Beyond(members[i])
  }

  lemma SingleResolve(domains: map<Text, Vars>, members: seq<Member>)
    ensures (forall i :: 0 <= i < |members| ==> ResolveSingle(domains, members[i]).Ok?)
            <==> AllResolve(domains, members) && AllSingle(members)
  {
    forall i | 0 <= i < |members|
      ensures ResolveSingle(domains, members[i]).Ok?
              <==> Resolve(domains, members[i].dom, members[i].item, members[i].alt).Ok? && !Beyond(members[i])
    {
      ResolveTwins(domains, members[i]);
    }
  }

  lemma DefineLastExactly(m: Shared, aa: Lists, name: Name, members: seq<Member>)
    ensures var (err, m', aa') := DefineLast(m, aa, name, members);
            && (err.None? <==> Free(m, aa, name) && AllResolve(m.domains, members) && AllSingle(members))
            && (err.Some? ==> err.value == if Free(m, aa, name) then Definition(1)
                                           else if name.Dom? && name.dom !in m.domLists then Access(2)
                                           else Definition(2))
            && (err.Some? ==> m' == m && aa' == aa)
            && (err.None? ==> (m', aa') == (DefineAs(m, aa, name, Ok(members)).1, DefineAs(m, aa, name, Ok(members)).2))
  {
    SingleResolve(m.domains, members);
    if AllResolve(m.domains, members) && Free(m, aa, name) {
      DefineAsExactly(m, aa, name, members);
    }
  }

  // On a free name the two servers accept alike, and answer alike, exactly when some member does not resolve
  // or none selects more than one element or names the nameless domain. On a name that is not free both
  // refuse, and answer alike exactly when every member resolves. Their lists stay equal exactly when they
  // accept alike.
  lemma DefineTwins(m: Shared, aa: Lists, name: Name, members: seq<Member>)
    ensures var (e, m1, aa1) := DefineAs(m, aa, name, Ok(members));
            var (g, m2, aa2) := DefineLast(m, aa, name, members);
            && ((e.None? <==> g.None?) <==> !Free(m, aa, name) || !AllResolve(m.domains, members) || AllSingle(members))
            && (e == g <==> if Free(m, aa, name) then !AllResolve(m.domains, members) || AllSingle(members)
                            else AllResolve(m.domains, members))
            && (m1 == m2 && aa1 == aa2 <==> (e.None? <==> g.None?))
  {
    DefineLastExactly(m, aa, name, members);
    DefineAsExactly(m, aa, name, members);
    DefineErrors(m, aa, name, members);
  }

  lemma DefineErrors(m: Shared, aa: Lists, name: Name, members: seq<Member>)
    ensures var e := DefineAs(m, aa, name, Ok(members)).0;
            if !AllResolve(m.domains, members) then e == Some(Definition(1))
            else if !Free(m, aa, name) then
              e.Some? && e.value != Definition(1) && e == DefineLast(m, aa, name, members).0
            else e.None?
    ensures !Free(m, aa, name) ==>
              DefineLast(m, aa, name, members).0.Some? && DefineLast(m, aa, name, members).0.value != Definition(1)
  {
  }

  // The same on the octets of any request the second server can read.
  lemma DefineRequestTwins(m: Shared, aa: Lists, val: Bytes)
    requires ParseStrict(val).Some?
    ensures var (name, members) := ParseStrict(val).value;
            var (e, m1, aa1) := Define(m, aa, val);
            var (g, m2, aa2) := DefineStrict(m, aa, val);
            && ((e.None? <==> g.None?) <==> !Free(m, aa, name) || !AllResolve(m.domains, members) || AllSingle(members))
            && (e == g <==> if Free(m, aa, name) then !AllResolve(m.domains, members) || AllSingle(members)
                            else AllResolve(m.domains, members))
            && (m1 == m2 && aa1 == aa2 <==> (e.None? <==> g.None?))
  {
    StrictAgrees(m, aa, val);
    DefineTwins(m, aa, ParseStrict(val).value.0, ParseStrict(val).value.1);
  }

  // The first server reads a name through `u`, which replaces octets that are not UTF-8; the second keeps them.
  // So after one list the two accept a second one of another name alike exactly when `u` keeps the names apart.
  lemma ReplacedNames(u: Text -> Text, m: Shared, aa: Lists, aa': Lists, a: Text, b: Text, members: seq<Member>)
    requires a != b && u(a) !in aa && u(b) !in aa && a !in aa' && b !in aa'
    requires AllResolve(m.domains, members) && AllSingle(members)
    ensures var (_, _, after) := DefineAs(m, aa, Aa(u(a)), Ok(members));
            var (_, _, after') := DefineLast(m, aa', Aa(a), members);
            var first, second := DefineAs(m, after, Aa(u(b)), Ok(members)).0, DefineLast(m, after', Aa(b), members).0;
            second == None && first == if u(a) == u(b) then Some(Definition(2)) else None
  {
    SingleResolve(m.domains, members);
    DefineAsExactly(m, aa, Aa(u(a)), members);
    DefineLastExactly(m, aa', Aa(a), members);
    DefineAsExactly(m, DefineAs(m, aa, Aa(u(a)), Ok(members)).2, Aa(u(b)), members);
    DefineLastExactly(m, DefineLast(m, aa', Aa(a), members).2, Aa(b), members);
  }

  // A list over a range of an array: the first server takes it, the second does not.
  lemma RangeDefineDiffers(m: Shared, aa: Lists, name: Name, dom: Text, base: Text, lo: nat, n: nat)
    requires Known(m.domains, dom, base) && Plain(base) && dom != [] && Free(m, aa, name)
    requires m.domains[dom][base].spec.TArray? && 0 < n && lo + n < TWO32 && lo + n <= m.domains[dom][base].spec.count
    ensures DefineAs(m, aa, name, Ok([Member(dom, base, Some(AltRange(lo, n)))])).0 == None
    ensures DefineLast(m, aa, name, [Member(dom, base, Some(AltRange(lo, n)))]).0 == Some(Definition(1))
  {
    var mb := Member(dom, base, Some(AltRange(lo, n)));
    RangeResolves(m.domains, dom, base, lo, n);
    assert AllResolve(m.domains, [mb]) && Beyond([mb][0]);
    DefineLastExactly(m, aa, name, [mb]);
    DefineAsExactly(m, aa, name, [mb]);
  }

  lemma RangeResolves(domains: map<Text, Vars>, dom: Text, base: Text, lo: nat, n: nat)
    requires Known(domains, dom, base) && Plain(base)
    requires domains[dom][base].spec.TArray? && 0 < n && lo + n < TWO32 && lo + n <= domains[dom][base].spec.count
    ensures Resolve(domains, dom, base, Some(AltRange(lo, n))).Ok? && SelectsMany(AltRange(lo, n))
  {
    ShortRange(lo, n);
    LastStepRoundTrip(Span(lo, n));
    assert ParseAlt(AltRange(lo, n)).value[0] == Span(lo, n);
    ResolveAlt(domains, dom, base, AltRange(lo, n), [Span(lo, n)]);
  }
}
