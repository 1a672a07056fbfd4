// How a name and an alternate access select part of a variable, and how that part is read and
// written: Model::resolve, get and set of adapters/iec61850-rust/src/bin/mms_server.rs.
module VariableAccess {
  import opened Octets
  import opened Values
  import opened MmsTypes
  import opened MmsRequests

  datatype Sel = Pos(i: nat) | Range(lo: nat, n: nat)

  datatype Var = Var(spec: TypeSpec, value: Value, writable: bool)

  type Vars = map<Text, Var>

  datatype Target = Target(dom: Text, name: Text, path: seq<Sel>, spec: TypeSpec)

  const DOLLAR: Octet := 36

  // ----- resolve

  // item.split('$')
  function Split(s: Text): (parts: seq<Text>)
    ensures parts != []
  {
    if s == [] then [[]]
    else
      var rest := Split(s[1..]);
      if s[0] == DOLLAR then [[]] + rest else [[s[0]] + rest[0]] + rest[1..]
  }

  function FindComponent(components: seq<Component>, name: Text): (r: Option<nat>)
    ensures r.Some? ==> r.value < |components| && components[r.value].name == name
  {
    if components == [] then None
    else if components[0].name == name then Some(0)
    else match FindComponent(components[1..], name) case Some(i) => Some(i + 1) case None => None
  }

  // The components after the base name of a flattened item.
  function ResolveNames(spec: TypeSpec, parts: seq<Text>): Option<(seq<Sel>, TypeSpec)> {
    if parts == [] then Some(([], spec))
    else if !spec.TStructure? then None
    else
      match FindComponent(spec.components, parts[0])
      case None => None
      case Some(i) =>
        match ResolveNames(spec.components[i].spec, parts[1..])
        case None => None
        case Some((path, t)) => Some(([Pos(i)] + path, t))
  }

  // Ranges and whole arrays are only a last step.
  function ResolveSteps(spec: TypeSpec, steps: seq<Step>): Result<(seq<Sel>, TypeSpec), nat> {
    if steps == [] then Ok(([], spec))
    else
      match (steps[0], spec)
      case (Comp(name), TStructure(components)) =>
        (match FindComponent(components, name)
         case None => Err(INVALID_ADDRESS)
         case Some(i) => Under(Pos(i), ResolveSteps(components[i].spec, steps[1..])))
      case (Index(i), TArray(count, elem)) =>
        if i < count then Under(Pos(i), ResolveSteps(elem, steps[1..])) else Err(INVALID_ADDRESS)
      case (Span(lo, n), TArray(count, elem)) =>
        if |steps| == 1 && n > 0 && lo + n < TWO32 && lo + n <= count then Ok(([Range(lo, n)], TArray(n, elem)))
        else Err(INVALID_ADDRESS)
      case (All, TArray(_, _)) => if |steps| == 1 then Ok(([], spec)) else Err(INVALID_ADDRESS)
      case _ => Err(INVALID_ADDRESS)
  }

  function Under(s: Sel, r: Result<(seq<Sel>, TypeSpec), nat>): Result<(seq<Sel>, TypeSpec), nat> {
    match r
    case Ok((path, t)) => Ok(([s] + path, t))
    case Err(e) => Err(e)
  }

  function Resolve(domains: map<Text, Vars>, dom: Text, item: Text, alt: Option<Bytes>): Result<Target, nat> {
    var parts := Split(item);
    if dom !in domains || parts[0] !in domains[dom] then Err(NON_EXISTENT)
    else
      match ResolveNames(domains[dom][parts[0]].spec, parts[1..])
      case None => Err(NON_EXISTENT)
      case Some((path, spec)) =>
        match alt
        case None => Ok(Target(dom, parts[0], path, spec))
        case Some(a) =>
          match ParseAlt(a)
          case Err(e) => Err(e)
          case Ok(steps) =>
            match ResolveSteps(spec, steps)
            case Err(e) => Err(e)
            case Ok((more, t)) => Ok(Target(dom, parts[0], path + more, t))
  }

  // ----- get and set

  // The indices of the path exist in the value; elsewhere the code would panic.
  predicate InBounds(v: Value, path: seq<Sel>)
    decreases path
  {
    path == [] ||
    match path[0]
    case Pos(i) => v.Array? || v.Structure? ==> i < |v.items| && InBounds(v.items[i], path[1..])
    case Range(lo, n) => v.Array? ==> lo + n <= |v.items|
  }

  function GetAt(v: Value, path: seq<Sel>): Value
    requires InBounds(v, path)
    decreases path
  {
    if path == [] then v
    else
      match path[0]
      case Pos(i) => if v.Array? || v.Structure? then GetAt(v.items[i], path[1..]) else v
      case Range(lo, n) => if v.Array? then Array(v.items[lo..lo + n]) else v
  }

  // A range takes an array of its own length; copying another length would panic.
  predicate Settable(v: Value, path: seq<Sel>, nv: Value)
    decreases path
  {
    path == [] ||
    match path[0]
    case Pos(i) => v.Array? || v.Structure? ==> i < |v.items| && Settable(v.items[i], path[1..], nv)
    case Range(lo, n) => v.Array? ==> lo + n <= |v.items| && (nv.Array? ==> |nv.items| == n)
  }

  function SetAt(v: Value, path: seq<Sel>, nv: Value): Value
    requires Settable(v, path, nv)
    decreases path
  {
    if path == [] then nv
    else
      match path[0]
      case Pos(i) =>
        if v.Array? then Array(v.items[i := SetAt(v.items[i], path[1..], nv)])
        else if v.Structure? then Structure(v.items[i := SetAt(v.items[i], path[1..], nv)])
        else v
      case Range(lo, n) =>
        if v.Array? && nv.Array? then Array(v.items[..lo] + nv.items + v.items[lo + n..]) else v
  }

  // ----- paths of a type

  // The path selects, in values of type spec, a part of type t.
  predicate PathTyped(spec: TypeSpec, path: seq<Sel>, t: TypeSpec)
    decreases path
  {
    if path == [] then spec == t
    else
      match path[0]
      case Pos(i) =>
        (match spec
         case TStructure(components) => i < |components| && PathTyped(components[i].spec, path[1..], t)
         case TArray(count, elem) => i < count && PathTyped(elem, path[1..], t)
         case _ => false)
      case Range(lo, n) =>
        spec.TArray? && |path| == 1 && n > 0 && lo + n <= spec.count && t == TArray(n, spec.elem)
  }

  lemma {:induction false} NamesTyped(spec: TypeSpec, parts: seq<Text>)
    requires ResolveNames(spec, parts).Some?
    ensures var (path, t) := ResolveNames(spec, parts).value;
            PathTyped(spec, path, t) && forall k :: 0 <= k < |path| ==> path[k].Pos?
  {
    if parts != [] {
      var i := FindComponent(spec.components, parts[0]).value;
      NamesTyped(spec.components[i].spec, parts[1..]);
      var (rest, t) := ResolveNames(spec.components[i].spec, parts[1..]).value;
      assert ([Pos(i)] + rest)[1..] == rest;
    }
  }

  lemma {:induction false} StepsTyped(spec: TypeSpec, steps: seq<Step>)
    requires ResolveSteps(spec, steps).Ok?
    ensures var (path, t) := ResolveSteps(spec, steps).value; PathTyped(spec, path, t)
  {
    if steps != [] && (steps[0].Comp? || steps[0].Index?) {
      var i := if steps[0].Comp? then FindComponent(spec.components, steps[0].name).value else steps[0].i;
      var inner := if steps[0].Comp? then spec.components[i].spec else spec.elem;
      StepsTyped(inner, steps[1..]);
      var (rest, t) := ResolveSteps(inner, steps[1..]).value;
      assert ([Pos(i)] + rest)[1..] == rest;
    }
  }

  lemma {:induction false} PathsCompose(spec: TypeSpec, p: seq<Sel>, mid: TypeSpec, q: seq<Sel>, t: TypeSpec)
    requires PathTyped(spec, p, mid) && (forall k :: 0 <= k < |p| ==> p[k].Pos?) && PathTyped(mid, q, t)
    ensures PathTyped(spec, p + q, t)
  {
    if p == [] {
      assert p + q == q;
    } else {
      assert (p + q)[1..] == p[1..] + q;
      PathsCompose(if spec.TStructure? then spec.components[p[0].i].spec else spec.elem, p[1..], mid, q, t);
    }
  }

  // What resolve yields is a path of the variable's type, to a part of the type it reports.
  lemma ResolveTyped(domains: map<Text, Vars>, dom: Text, item: Text, alt: Option<Bytes>)
    requires Resolve(domains, dom, item, alt).Ok?
    ensures var g := Resolve(domains, dom, item, alt).value;
            && g.dom == dom && g.dom in domains && g.name in domains[dom]
            && PathTyped(domains[dom][g.name].spec, g.path, g.spec)
  {
    var parts := Split(item);
    var spec := domains[dom][parts[0]].spec;
    var (path, mid) := ResolveNames(spec, parts[1..]).value;
    NamesTyped(spec, parts[1..]);
    if alt.Some? {
      var steps := ParseAlt(alt.value).value;
      var (more, t) := ResolveSteps(mid, steps).value;
      StepsTyped(mid, steps);
      PathsCompose(spec, path, mid, more, t);
    }
  }

  // ----- lens laws

  function PartSpec(spec: TypeSpec, i: nat): TypeSpec
    requires spec.TArray? || (spec.TStructure? && i < |spec.components|)
  {
    if spec.TArray? then spec.elem else spec.components[i].spec
  }

  // In a value of the type, the path is in bounds and its part has the type.
  lemma {:induction false} GetTyped(spec: TypeSpec, v: Value, path: seq<Sel>, t: TypeSpec)
    requires HasType(spec, v) && PathTyped(spec, path, t)
    ensures InBounds(v, path) && HasType(t, GetAt(v, path))
    decreases path
  {
    if path != [] && path[0].Pos? {
      GetTyped(PartSpec(spec, path[0].i), v.items[path[0].i], path[1..], t);
    }
  }

  lemma {:induction false} SetGet(spec: TypeSpec, v: Value, path: seq<Sel>, t: TypeSpec, nv: Value)
    requires HasType(spec, v) && PathTyped(spec, path, t) && HasType(t, nv)
    ensures Settable(v, path, nv) && HasType(spec, SetAt(v, path, nv))
    ensures InBounds(SetAt(v, path, nv), path) && GetAt(SetAt(v, path, nv), path) == nv
    decreases path
  {
    if path != [] {
      match path[0]
      case Pos(i) =>
        SetGet(PartSpec(spec, i), v.items[i], path[1..], t, nv);
      case Range(lo, n) =>
        var items := v.items[..lo] + nv.items + v.items[lo + n..];
        assert items[lo..lo + n] == nv.items;
    }
  }

  lemma {:induction false} GetSet(spec: TypeSpec, v: Value, path: seq<Sel>, t: TypeSpec)
    requires HasType(spec, v) && PathTyped(spec, path, t)
    ensures InBounds(v, path) && Settable(v, path, GetAt(v, path)) && SetAt(v, path, GetAt(v, path)) == v
    decreases path
  {
    if path != [] {
      match path[0]
      case Pos(i) =>
        GetSet(PartSpec(spec, i), v.items[i], path[1..], t);
      case Range(lo, n) =>
        assert v.items[..lo] + v.items[lo..lo + n] + v.items[lo + n..] == v.items;
    }
  }

  lemma {:induction false} SetSet(spec: TypeSpec, v: Value, path: seq<Sel>, t: TypeSpec, a: Value, b: Value)
    requires HasType(spec, v) && PathTyped(spec, path, t) && HasType(t, a) && HasType(t, b)
    ensures Settable(v, path, a) && Settable(v, path, b) && Settable(SetAt(v, path, a), path, b)
    ensures SetAt(SetAt(v, path, a), path, b) == SetAt(v, path, b)
    decreases path
  {
    if path != [] {
      match path[0]
      case Pos(i) =>
        SetSet(PartSpec(spec, i), v.items[i], path[1..], t, a, b);
        UpdateTwice(v.items, i, SetAt(v.items[i], path[1..], a), SetAt(v.items[i], path[1..], b));
      case Range(lo, n) =>
        RangeTwice(v.items, lo, n, a.items, b.items);
    }
  }

  lemma UpdateTwice(s: seq<Value>, i: nat, a: Value, b: Value)
    requires i < |s|
    ensures s[i := a][i := b] == s[i := b]
  {
  }

  lemma RangeTwice(s: seq<Value>, lo: nat, n: nat, a: seq<Value>, b: seq<Value>)
    requires lo + n <= |s| && |a| == |b| == n
    ensures var u := s[..lo] + a + s[lo + n..]; u[..lo] + b + u[lo + n..] == s[..lo] + b + s[lo + n..]
  {
    var u := s[..lo] + a + s[lo + n..];
    assert u[..lo] == s[..lo] && u[lo + n..] == s[lo + n..];
  }

  // The paths part ways at some step, toward different elements.
  predicate Disjoint(p: seq<Sel>, q: seq<Sel>)
    decreases p
  {
    && p != [] && q != []
    && match (p[0], q[0])
       case (Pos(i), Pos(j)) => i != j || Disjoint(p[1..], q[1..])
       case (Pos(i), Range(lo, n)) => i < lo || lo + n <= i
       case (Range(lo, n), Pos(i)) => i < lo || lo + n <= i
       case (Range(lo, n), Range(lo', n')) => lo + n <= lo' || lo' + n' <= lo
  }

  lemma {:induction false} DisjointUntouched(spec: TypeSpec, v: Value, p: seq<Sel>, t: TypeSpec, nv: Value,
      q: seq<Sel>, u: TypeSpec)
    requires HasType(spec, v) && PathTyped(spec, p, t) && HasType(t, nv) && PathTyped(spec, q, u) && Disjoint(p, q)
    ensures Settable(v, p, nv) && InBounds(v, q) && InBounds(SetAt(v, p, nv), q)
    ensures GetAt(SetAt(v, p, nv), q) == GetAt(v, q)
    decreases p
  {
    SetGet(spec, v, p, t, nv);
    GetTyped(spec, v, q, u);
    GetTyped(spec, SetAt(v, p, nv), q, u);
    match (p[0], q[0])
    case (Pos(i), Pos(j)) =>
      if i == j {
        DisjointUntouched(PartSpec(spec, i), v.items[i], p[1..], t, nv, q[1..], u);
      }
    case (Pos(i), Range(lo, n)) =>
      assert SetAt(v, p, nv).items[lo..lo + n] == v.items[lo..lo + n];
    case (Range(lo, n), Pos(i)) =>
      assert SetAt(v, p, nv).items[i] == v.items[i];
    case (Range(lo, n), Range(lo', n')) =>
      assert SetAt(v, p, nv).items[lo'..lo' + n'] == v.items[lo'..lo' + n'];
  }

  // ----- what steps select, said of values

  // The part of a value that steps name: a component by its name, an element, a run of elements, or all.
  function Select(spec: TypeSpec, v: Value, steps: seq<Step>): Option<Value>
    requires HasType(spec, v)
    decreases steps
  {
    if steps == [] then Some(v)
    else
      match steps[0]
      case Comp(name) =>
        if !v.Structure? || FindComponent(spec.components, name).None? then None
        else
          var i := FindComponent(spec.components, name).value;
          Select(spec.components[i].spec, v.items[i], steps[1..])
      case Index(i) => if v.Array? && i < |v.items| then Select(spec.elem, v.items[i], steps[1..]) else None
      case Span(lo, n) =>
        if v.Array? && |steps| == 1 && 0 < n && lo + n <= |v.items| then Some(Array(v.items[lo..lo + n])) else None
      case All => if v.Array? && |steps| == 1 then Some(v) else None
  }

  // The first component of the name.
  lemma {:induction false} FindsFirst(components: seq<Component>, name: Text)
    ensures var r := FindComponent(components, name);
            if r.None? then forall i :: 0 <= i < |components| ==> components[i].name != name
            else forall i :: 0 <= i < r.value ==> components[i].name != name
  {
    if components != [] && components[0].name != name {
      FindsFirst(components[1..], name);
    }
  }

  // Arrays are no longer than a 32-bit count can say.
  predicate Counted(spec: TypeSpec)
    decreases spec
  {
    match spec
    case TArray(count, elem) => count < TWO32 && Counted(elem)
    case TStructure(components) => forall i :: 0 <= i < |components| ==> Counted(components[i].spec)
    case _ => true
  }

  lemma SelectUnder(s: Sel, v: Value, path: seq<Sel>)
    requires s.Pos? && (v.Array? || v.Structure?) && s.i < |v.items| && InBounds(v.items[s.i], path)
    ensures InBounds(v, [s] + path) && GetAt(v, [s] + path) == GetAt(v.items[s.i], path)
  {
    assert ([s] + path)[1..] == path;
  }

  // The steps resolve exactly when they select something, and then get on the resolved path reads that.
  lemma {:induction false} ResolvedIsSelected(spec: TypeSpec, v: Value, steps: seq<Step>)
    requires HasType(spec, v) && Counted(spec)
    ensures match ResolveSteps(spec, steps)
            case Err(e) => e == 5 && Select(spec, v, steps).None?
            case Ok((path, t)) => InBounds(v, path) && Select(spec, v, steps) == Some(GetAt(v, path))
    decreases steps
  {
    if steps != [] {
      match steps[0]
      case Comp(name) =>
        if v.Structure? && FindComponent(spec.components, name).Some? {
          InnerSelected(spec, v, steps, FindComponent(spec.components, name).value);
        }
      case Index(i) =>
        if v.Array? && i < |v.items| {
          InnerSelected(spec, v, steps, i);
        }
      case Span(lo, n) =>
      case All =>
    }
  }

  lemma {:induction false} InnerSelected(spec: TypeSpec, v: Value, steps: seq<Step>, i: nat)
    requires HasType(spec, v) && Counted(spec) && steps != [] && (v.Array? || v.Structure?) && i < |v.items|
    requires match steps[0]
             case Comp(name) => v.Structure? && FindComponent(spec.components, name) == Some(i)
             case Index(j) => v.Array? && i == j
             case _ => false
    ensures match ResolveSteps(spec, steps)
            case Err(e) => e == INVALID_ADDRESS && Select(spec, v, steps).None?
            case Ok((path, t)) => InBounds(v, path) && Select(spec, v, steps) == Some(GetAt(v, path))
    decreases steps, 0
  {
    var inner := PartSpec(spec, i);
    ResolvedIsSelected(inner, v.items[i], steps[1..]);
    assert ResolveSteps(spec, steps) == Under(Pos(i), ResolveSteps(inner, steps[1..]));
    if ResolveSteps(inner, steps[1..]).Ok? {
      SelectUnder(Pos(i), v, ResolveSteps(inner, steps[1..]).value.0);
    }
  }

  // ----- a flattened name against the component steps it stands for

  predicate Plain(s: Text) {
    DOLLAR !in s
  }

  // base$c1$c2...
  function Flat(base: Text, names: seq<Text>): Text
    decreases names
  {
    if names == [] then base else Flat(base + [DOLLAR] + names[0], names[1..])
  }

  lemma {:induction false} SplitSnoc(s: Text, c: Text)
    requires Plain(c)
    ensures Split(s + [DOLLAR] + c) == Split(s) + [c]
  {
    var t := s + [DOLLAR] + c;
    if s == [] {
      assert t[1..] == c;
      SplitPlain(c);
    } else {
      assert t[1..] == s[1..] + [DOLLAR] + c && t[0] == s[0];
      SplitSnoc(s[1..], c);
    }
  }

  lemma {:induction false} SplitPlain(c: Text)
    requires Plain(c)
    ensures Split(c) == [c]
  {
    if c != [] {
      assert c[0] != DOLLAR && Plain(c[1..]);
      SplitPlain(c[1..]);
      assert [c[0]] + c[1..] == c;
    }
  }

  lemma {:induction false} SplitFlat(base: Text, names: seq<Text>)
    requires forall i :: 0 <= i < |names| ==> Plain(names[i])
    ensures Split(Flat(base, names)) == Split(base) + names
    decreases names
  {
    if names == [] {
      assert Split(base) + names == Split(base);
    } else {
      SplitSnoc(base, names[0]);
      SplitFlat(base + [DOLLAR] + names[0], names[1..]);
      assert Split(base) + [names[0]] + names[1..] == Split(base) + names;
    }
  }

  function CompSteps(names: seq<Text>): (steps: seq<Step>)
    ensures |steps| == |names|
  {
    seq(|names|, i requires 0 <= i < |names| => Comp(names[i]))
  }

  lemma {:induction false} NamesAreSteps(spec: TypeSpec, names: seq<Text>)
    ensures ResolveSteps(spec, CompSteps(names))
            == match ResolveNames(spec, names) case Some(r) => Ok(r) case None => Err(INVALID_ADDRESS)
  {
    if names != [] {
      assert CompSteps(names)[1..] == CompSteps(names[1..]);
      if spec.TStructure? && FindComponent(spec.components, names[0]).Some? {
        NamesAreSteps(spec.components[FindComponent(spec.components, names[0]).value].spec, names[1..]);
      }
    }
  }

  predicate Known(domains: map<Text, Vars>, dom: Text, base: Text) {
    dom in domains && base in domains[dom]
  }

  lemma ResolveFlat(domains: map<Text, Vars>, dom: Text, base: Text, names: seq<Text>)
    requires Plain(base) && forall i :: 0 <= i < |names| ==> Plain(names[i])
    ensures Resolve(domains, dom, Flat(base, names), None)
            == if !Known(domains, dom, base) then Err(NON_EXISTENT)
               else match ResolveNames(domains[dom][base].spec, names)
                    case None => Err(NON_EXISTENT)
                    case Some((path, t)) => Ok(Target(dom, base, path, t))
  {
    SplitPlain(base);
    SplitFlat(base, names);
    assert ([base] + names)[1..] == names;
  }

  lemma ResolveAlt(domains: map<Text, Vars>, dom: Text, base: Text, alt: Bytes, steps: seq<Step>)
    requires Plain(base) && ParseAlt(alt) == Ok(steps)
    ensures Resolve(domains, dom, base, Some(alt))
            == if !Known(domains, dom, base) then Err(NON_EXISTENT)
               else match ResolveSteps(domains[dom][base].spec, steps)
                    case Err(e) => Err(e)
                    case Ok((path, t)) => Ok(Target(dom, base, path, t))
  {
    SplitPlain(base);
    if Known(domains, dom, base) {
      var r := ResolveSteps(domains[dom][base].spec, steps);
      assert r.Ok? ==> [] + r.value.0 == r.value.0;
    }
  }

  // For names without '$', the flattened name and the alternate access through the same components select
  // the same part of the same type, or neither exists and only the error code may differ.
  lemma FlattenedIsAlternate(domains: map<Text, Vars>, dom: Text, base: Text, names: seq<Text>, wrapped: bool)
    requires Plain(base) && names != [] && forall i :: 0 <= i < |names| ==> Plain(names[i])
    requires |EncodeAlt(CompSteps(names), wrapped)| < TWO32
    ensures var byName := Resolve(domains, dom, Flat(base, names), None);
            var bySteps := Resolve(domains, dom, base, Some(EncodeAlt(CompSteps(names), wrapped)));
            if byName.Ok? then byName == bySteps
            else byName == Err(10) && bySteps == Err(if Known(domains, dom, base) then 5 else 10)
  {
    AltRoundTrip(CompSteps(names), wrapped);
    ResolveFlat(domains, dom, base, names);
    ResolveAlt(domains, dom, base, EncodeAlt(CompSteps(names), wrapped), CompSteps(names));
    if Known(domains, dom, base) {
      NamesAreSteps(domains[dom][base].spec, names);
    }
  }

  lemma {:induction false} SplitIsPlain(s: Text)
    ensures forall i :: 0 <= i < |Split(s)| ==> Plain(Split(s)[i])
  {
    if s != [] {
      SplitIsPlain(s[1..]);
      var rest := Split(s[1..]);
      if s[0] == DOLLAR {
        assert Split(s) == [[]] + rest;
      } else {
        assert Split(s) == [[s[0]] + rest[0]] + rest[1..] && Plain(rest[0]);
      }
    }
  }

  // Two lists of names do not lead to the same part.
  lemma {:induction false} NamesLeadApart(spec: TypeSpec, a: seq<Text>, b: seq<Text>)
    requires ResolveNames(spec, a).Some? && ResolveNames(spec, b).Some?
    requires ResolveNames(spec, a).value.0 == ResolveNames(spec, b).value.0
    ensures a == b
  {
    if a != [] {
      var i := FindComponent(spec.components, a[0]).value;
      var (path, _) := ResolveNames(spec.components[i].spec, a[1..]).value;
      assert ([Pos(i)] + path)[0] == Pos(i) && ([Pos(i)] + path)[1..] == path;
      assert b != [];
      var j := FindComponent(spec.components, b[0]).value;
      var (path', _) := ResolveNames(spec.components[j].spec, b[1..]).value;
      assert ([Pos(j)] + path')[0] == Pos(j) && ([Pos(j)] + path')[1..] == path';
      NamesLeadApart(spec.components[i].spec, a[1..], b[1..]);
      assert a == [a[0]] + a[1..] && b == [b[0]] + b[1..];
    }
  }

  // A member that does not resolve is answered with 10 when its name does not, and else with the code of its
  // alternate access, or 5 when that selects nothing.
  lemma ResolveCodes(domains: map<Text, Vars>, dom: Text, item: Text, alt: Option<Bytes>)
    ensures var (r, parts) := (Resolve(domains, dom, item, alt), Split(item));
            r.Err? ==>
              if !Known(domains, dom, parts[0]) || ResolveNames(domains[dom][parts[0]].spec, parts[1..]).None? then
                r.error == 10
              else if alt.Some? && ParseAlt(alt.value).Err? then r.error == ParseAlt(alt.value).error
              else alt.Some? && r.error == 5
  {
    var parts := Split(item);
    if Known(domains, dom, parts[0]) && alt.Some? && ParseAlt(alt.value).Ok? {
      var names := ResolveNames(domains[dom][parts[0]].spec, parts[1..]);
      if names.Some? {
        StepsFail(names.value.1, ParseAlt(alt.value).value);
      }
    }
  }

  lemma {:induction false} StepsFail(spec: TypeSpec, steps: seq<Step>)
    ensures ResolveSteps(spec, steps).Err? ==> ResolveSteps(spec, steps).error == 5
  {
    if steps != [] {
      match (steps[0], spec)
      case (Comp(name), TStructure(components)) =>
        if FindComponent(components, name).Some? {
          StepsFail(components[FindComponent(components, name).value].spec, steps[1..]);
        }
      case (Index(i), TArray(_, elem)) => StepsFail(elem, steps[1..]);
      case _ =>
    }
  }

  // A component at any depth is always reached by alternate access through the names of its components, and by
  // a flattened name exactly when none of these names holds a '$'.
  lemma DollarNeedsAlternate(domains: map<Text, Vars>, dom: Text, base: Text, names: seq<Text>, wrapped: bool)
    requires Known(domains, dom, base) && Plain(base) && names != [] && |EncodeAlt(CompSteps(names), wrapped)| < TWO32
    requires ResolveNames(domains[dom][base].spec, names).Some?
    ensures var bySteps := Resolve(domains, dom, base, Some(EncodeAlt(CompSteps(names), wrapped)));
            && (var (path, t) := ResolveNames(domains[dom][base].spec, names).value;
                bySteps == Ok(Target(dom, base, path, t)))
            && ((exists item :: Resolve(domains, dom, item, None) == bySteps)
                <==> forall i :: 0 <= i < |names| ==> Plain(names[i]))
  {
    AltRoundTrip(CompSteps(names), wrapped);
    ResolveAlt(domains, dom, base, EncodeAlt(CompSteps(names), wrapped), CompSteps(names));
    NamesAreSteps(domains[dom][base].spec, names);
    var bySteps := Resolve(domains, dom, base, Some(EncodeAlt(CompSteps(names), wrapped)));
    if forall i :: 0 <= i < |names| ==> Plain(names[i]) {
      ResolveFlat(domains, dom, base, names);
      assert Resolve(domains, dom, Flat(base, names), None) == bySteps;
    }
    forall item | Resolve(domains, dom, item, None) == bySteps
      ensures forall i :: 0 <= i < |names| ==> Plain(names[i])
    {
      NamesLeadApart(domains[dom][base].spec, names, Split(item)[1..]);
      SplitIsPlain(item);
    }
  }
}
