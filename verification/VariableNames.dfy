// The variable names a domain lists: flat_names and the sorted list of load_fixture, as get_name_list
// serves it and resolve understands it (adapters/iec61850-rust/src/bin/mms_server.rs).
module VariableNames {
  import opened Octets
  import opened MmsTypes
  import opened VariableAccess
  import NameListPaging

  function FlatNames(name: Text, spec: TypeSpec): (names: seq<Text>)
    decreases spec
  {
    [name] + if spec.TStructure? then ComponentNames(name, spec.components) else []
  }

  function ComponentNames(name: Text, components: seq<Component>): seq<Text>
    decreases components
  {
    if components == [] then []
    else FlatNames(name + [DOLLAR] + components[0].name, components[0].spec) + ComponentNames(name, components[1..])
  }

  // The names of the variables in the order given, each with its components.
  function AllNames(vars: Vars, order: seq<Text>): seq<Text>
    requires forall v :: v in order ==> v in vars
  {
    if order == [] then []
    else AllNames(vars, order[..|order| - 1]) + FlatNames(order[|order| - 1], vars[order[|order| - 1]].spec)
  }

  predicate Distinct(s: seq<Text>) {
    forall i, j :: 0 <= i < j < |s| ==> s[i] != s[j]
  }

  // In every structure, the component names are different and hold no '$'.
  predicate WellNamed(spec: TypeSpec)
    decreases spec
  {
    spec.TStructure? ==>
      && (forall i, j :: 0 <= i < j < |spec.components| ==> spec.components[i].name != spec.components[j].name)
      && (forall i :: 0 <= i < |spec.components| ==>
            Plain(spec.components[i].name) && WellNamed(spec.components[i].spec))
  }

  ghost predicate WellNamedVars(vars: Vars) {
    forall v :: v in vars ==> Plain(v) && WellNamed(vars[v].spec)
  }

  // A domain's name list: every variable once, flattened, in sorted or any other order.
  ghost predicate Lists(names: seq<Text>, vars: Vars, order: seq<Text>) {
    && (forall v :: v in order <==> v in vars) && Distinct(order)
    && multiset(names) == multiset(AllNames(vars, order))
  }

  // ----- every listed name resolves

  predicate AllPlain(parts: seq<Text>) {
    forall i :: 0 <= i < |parts| ==> Plain(parts[i])
  }

  lemma FlatCons(name: Text, c: Text, parts: seq<Text>)
    ensures Flat(name, [c] + parts) == Flat(name + [DOLLAR] + c, parts)
  {
    assert ([c] + parts)[1..] == parts;
  }

  lemma {:induction false} FindOnly(components: seq<Component>, i: nat)
    requires i < |components| && forall j, k :: 0 <= j < k < |components| ==> components[j].name != components[k].name
    ensures FindComponent(components, components[i].name) == Some(i)
  {
    if i > 0 {
      FindOnly(components[1..], i - 1);
    }
  }

  lemma {:induction false} NameOfPath(name: Text, spec: TypeSpec, x: Text) returns (parts: seq<Text>)
    requires WellNamed(spec) && x in FlatNames(name, spec)
    ensures AllPlain(parts) && x == Flat(name, parts) && ResolveNames(spec, parts).Some?
    decreases spec
  {
    if x == name {
      parts := [];
    } else {
      var i, rest := ComponentOfPath(name, spec.components, x);
      FindOnly(spec.components, i);
      parts := [spec.components[i].name] + rest;
      assert parts[1..] == rest;
      FlatCons(name, spec.components[i].name, rest);
    }
  }

  lemma {:induction false} ComponentOfPath(name: Text, components: seq<Component>, x: Text)
      returns (i: nat, parts: seq<Text>)
    requires x in ComponentNames(name, components)
    requires forall k :: 0 <= k < |components| ==> Plain(components[k].name) && WellNamed(components[k].spec)
    ensures i < |components| && AllPlain(parts)
    ensures x == Flat(name + [DOLLAR] + components[i].name, parts) && ResolveNames(components[i].spec, parts).Some?
    decreases components
  {
    var c := components[0];
    if x in FlatNames(name + [DOLLAR] + c.name, c.spec) {
      i := 0;
      parts := NameOfPath(name + [DOLLAR] + c.name, c.spec, x);
    } else {
      i, parts := ComponentOfPath(name, components[1..], x);
      i := i + 1;
    }
  }

  // ----- every resolvable name is listed

  lemma {:induction false} ComponentListed(name: Text, components: seq<Component>, i: nat, x: Text)
    requires i < |components| && x in FlatNames(name + [DOLLAR] + components[i].name, components[i].spec)
    ensures x in ComponentNames(name, components)
    decreases components
  {
    if i > 0 {
      ComponentListed(name, components[1..], i - 1, x);
    }
  }

  lemma {:induction false} PathListed(name: Text, spec: TypeSpec, parts: seq<Text>)
    requires ResolveNames(spec, parts).Some?
    ensures Flat(name, parts) in FlatNames(name, spec)
    decreases parts
  {
    if parts != [] {
      var i := FindComponent(spec.components, parts[0]).value;
      var inner := name + [DOLLAR] + parts[0];
      PathListed(inner, spec.components[i].spec, parts[1..]);
      ComponentListed(name, spec.components, i, Flat(inner, parts[1..]));
    }
  }

  lemma {:induction false} FlatPrefix(a: Text, base: Text, names: seq<Text>)
    ensures Flat(a + base, names) == a + Flat(base, names)
    decreases names
  {
    if names != [] {
      assert a + base + [DOLLAR] + names[0] == a + (base + [DOLLAR] + names[0]);
      FlatPrefix(a, base + [DOLLAR] + names[0], names[1..]);
    }
  }

  // Joining the parts gives the name back.
  lemma {:induction false} FlatSplit(item: Text)
    ensures Flat(Split(item)[0], Split(item)[1..]) == item
  {
    if item != [] {
      var rest := Split(item[1..]);
      FlatSplit(item[1..]);
      if item[0] == DOLLAR {
        assert Split(item)[1..] == rest;
        assert [] + [DOLLAR] + rest[0] == [DOLLAR] + rest[0];
        FlatPrefix([DOLLAR], rest[0], rest[1..]);
      } else {
        assert Split(item)[1..] == rest[1..];
        FlatPrefix([item[0]], rest[0], rest[1..]);
      }
      assert [item[0]] + item[1..] == item;
    }
  }

  lemma AllNamesSnoc(vars: Vars, order: seq<Text>)
    requires order != [] && forall v :: v in order ==> v in vars
    ensures var front, last := order[..|order| - 1], order[|order| - 1];
            && (forall v :: v in order <==> v in front || v == last)
            && AllNames(vars, order) == AllNames(vars, front) + FlatNames(last, vars[last].spec)
  {
    assert order == order[..|order| - 1] + [order[|order| - 1]];
  }

  lemma {:induction false} NameFrom(vars: Vars, order: seq<Text>, x: Text) returns (v: Text)
    requires (forall v :: v in order ==> v in vars) && x in AllNames(vars, order)
    ensures v in order && x in FlatNames(v, vars[v].spec)
  {
    AllNamesSnoc(vars, order);
    var front, last := order[..|order| - 1], order[|order| - 1];
    if x in AllNames(vars, front) {
      v := NameFrom(vars, front, x);
    } else {
      v := last;
    }
  }

  lemma {:induction false} NameIn(vars: Vars, order: seq<Text>, v: Text, x: Text)
    requires (forall v :: v in order ==> v in vars) && v in order && x in FlatNames(v, vars[v].spec)
    ensures x in AllNames(vars, order)
  {
    AllNamesSnoc(vars, order);
    var front := order[..|order| - 1];
    if v in front {
      NameIn(vars, front, v, x);
    }
  }

  lemma SameNames(names: seq<Text>, vars: Vars, order: seq<Text>, x: Text)
    requires Lists(names, vars, order)
    ensures x in names <==> x in AllNames(vars, order)
  {
    assert x in names <==> x in multiset(names);
    assert x in AllNames(vars, order) <==> x in multiset(AllNames(vars, order));
  }

  // The names a domain lists are exactly the items that resolve without alternate access.
  lemma NamesAreItems(domains: map<Text, Vars>, dom: Text, names: seq<Text>, order: seq<Text>, item: Text)
    requires dom in domains && WellNamedVars(domains[dom]) && Lists(names, domains[dom], order)
    ensures item in names <==> Resolve(domains, dom, item, None).Ok?
  {
    var vars := domains[dom];
    SameNames(names, vars, order, item);
    if item in names {
      var v := NameFrom(vars, order, item);
      var parts := NameOfPath(v, vars[v].spec, item);
      ResolveFlat(domains, dom, v, parts);
    }
    if Resolve(domains, dom, item, None).Ok? {
      var parts := Split(item);
      PathListed(parts[0], vars[parts[0]].spec, parts[1..]);
      FlatSplit(item);
      NameIn(vars, order, parts[0], item);
    }
  }

  // ----- no name is listed twice

  lemma DistinctConcat(a: seq<Text>, b: seq<Text>)
    requires Distinct(a) && Distinct(b) && forall x :: x in a ==> x !in b
    ensures Distinct(a + b)
  {
    var s := a + b;
    forall i, j | 0 <= i < j < |s|
      ensures s[i] != s[j]
    {
      assert i < |a| ==> s[i] in a;
      assert j >= |a| ==> s[j] in b;
    }
  }

  // A name starts with the parts of the name it was flattened from.
  lemma PartsOf(name: Text, spec: TypeSpec, x: Text)
    requires WellNamed(spec) && x in FlatNames(name, spec)
    ensures Split(name) <= Split(x)
  {
    var parts := NameOfPath(name, spec, x);
    SplitFlat(name, parts);
  }

  lemma ComponentParts(name: Text, components: seq<Component>, x: Text) returns (i: nat)
    requires x in ComponentNames(name, components)
    requires forall k :: 0 <= k < |components| ==> Plain(components[k].name) && WellNamed(components[k].spec)
    ensures i < |components| && Split(name) + [components[i].name] <= Split(x)
  {
    var parts;
    i, parts := ComponentOfPath(name, components, x);
    SplitFlat(name + [DOLLAR] + components[i].name, parts);
    SplitSnoc(name, components[i].name);
  }

  lemma SameNext(p: seq<Text>, a: Text, b: Text, s: seq<Text>)
    requires p + [a] <= s && p + [b] <= s
    ensures a == b
  {
    assert (p + [a])[|p|] == s[|p|] == (p + [b])[|p|];
  }

  lemma SameFirst(a: Text, b: Text, s: seq<Text>)
    requires [a] <= s && [b] <= s
    ensures a == b
  {
    assert a == s[0] == b;
  }

  lemma {:induction false} FlatDistinct(name: Text, spec: TypeSpec)
    requires WellNamed(spec)
    ensures Distinct(FlatNames(name, spec))
    decreases spec
  {
    if spec.TStructure? {
      var inner := ComponentNames(name, spec.components);
      ComponentsDistinct(name, spec.components);
      if name in inner {
        var i := ComponentParts(name, spec.components, name);
        assert false;
      }
      DistinctConcat([name], inner);
    }
  }

  lemma {:induction false} ComponentsDistinct(name: Text, components: seq<Component>)
    requires forall i, j :: 0 <= i < j < |components| ==> components[i].name != components[j].name
    requires forall k :: 0 <= k < |components| ==> Plain(components[k].name) && WellNamed(components[k].spec)
    ensures Distinct(ComponentNames(name, components))
    decreases components
  {
    if components != [] {
      var c := components[0];
      var first, others := FlatNames(name + [DOLLAR] + c.name, c.spec), ComponentNames(name, components[1..]);
      FlatDistinct(name + [DOLLAR] + c.name, c.spec);
      ComponentsDistinct(name, components[1..]);
      forall x | x in first
        ensures x !in others
      {
        PartsOf(name + [DOLLAR] + c.name, c.spec, x);
        SplitSnoc(name, c.name);
        if x in others {
          var i := ComponentParts(name, components[1..], x);
          SameNext(Split(name), c.name, components[i + 1].name, Split(x));
          assert false;
        }
      }
      DistinctConcat(first, others);
    }
  }

  lemma {:induction false} AllDistinct(vars: Vars, order: seq<Text>)
    requires WellNamedVars(vars) && Distinct(order) && forall v :: v in order ==> v in vars
    ensures Distinct(AllNames(vars, order))
  {
    if order != [] {
      var front, last := order[..|order| - 1], order[|order| - 1];
      var before, mine := AllNames(vars, front), FlatNames(last, vars[last].spec);
      AllDistinct(vars, front);
      FlatDistinct(last, vars[last].spec);
      forall x | x in before
        ensures x !in mine
      {
        var v := NameFrom(vars, front, x);
        PartsOf(v, vars[v].spec, x);
        SplitPlain(v);
        if x in mine {
          PartsOf(last, vars[last].spec, x);
          SplitPlain(last);
          SameFirst(v, last, Split(x));
          assert false;
        }
      }
      DistinctConcat(before, mine);
    }
  }

  lemma {:induction false} DistinctCounts(s: seq<Text>, x: Text)
    requires Distinct(s)
    ensures multiset(s)[x] <= 1
  {
    if s != [] {
      var front, last := s[..|s| - 1], s[|s| - 1];
      assert s == front + [last];
      DistinctCounts(front, x);
      if x == last {
        assert x !in front;
        assert x !in multiset(front);
      }
    }
  }

  lemma TwiceCounts(s: seq<Text>, i: nat, j: nat)
    requires i < j < |s| && s[i] == s[j]
    ensures multiset(s)[s[i]] >= 2
  {
    assert s == s[..j] + s[j..];
    assert s[..j][i] in multiset(s[..j]) && s[j..][0] in multiset(s[j..]);
  }

  lemma SameCounts(a: seq<Text>, b: seq<Text>)
    requires multiset(a) == multiset(b) && Distinct(b)
    ensures Distinct(a)
  {
    forall i, j | 0 <= i < j < |a|
      ensures a[i] != a[j]
    {
      if a[i] == a[j] {
        TwiceCounts(a, i, j);
        DistinctCounts(b, a[i]);
        assert false;
      }
    }
  }

  lemma NamesDistinct(vars: Vars, names: seq<Text>, order: seq<Text>)
    requires WellNamedVars(vars) && Lists(names, vars, order)
    ensures Distinct(names)
  {
    AllDistinct(vars, order);
    SameCounts(names, AllNames(vars, order));
  }

  // Browsing a domain of well-named variables finishes, at any budget, with each item that resolves,
  // and with each once.
  lemma BrowsedItemsResolve(domains: map<Text, Vars>, dom: Text, names: seq<Text>, order: seq<Text>, budget: nat)
    requires dom in domains && WellNamedVars(domains[dom]) && Lists(names, domains[dom], order)
    ensures var b := NameListPaging.Browse(names, budget, |names| + 1);
            && b.done && Distinct(b.got)
            && forall item :: item in b.got <==> Resolve(domains, dom, item, None).Ok?
  {
    NamesDistinct(domains[dom], names, order);
    NameListPaging.BrowseCompletes(names, budget);
    forall item
      ensures item in names <==> Resolve(domains, dom, item, None).Ok?
    {
      NamesAreItems(domains, dom, names, order, item);
    }
  }

  // ----- only well-named variables can be listed so

  lemma SplitOn(x: Octet, r: seq<Text>, q: seq<Text>)
    requires r != []
    ensures [[]] + (r + q) == [[]] + r + q && [[x] + (r + q)[0]] + (r + q)[1..] == [[x] + r[0]] + r[1..] + q
  {
  }

  lemma {:induction false} SplitConcat(a: Text, b: Text)
    ensures Split(a + [DOLLAR] + b) == Split(a) + Split(b)
  {
    var t := a + [DOLLAR] + b;
    if a == [] {
      assert t[1..] == b;
    } else {
      assert t[1..] == a[1..] + [DOLLAR] + b && t[0] == a[0];
      SplitConcat(a[1..], b);
      SplitOn(a[0], Split(a[1..]), Split(b));
    }
  }

  lemma {:induction false} PartsPlain(s: Text)
    ensures AllPlain(Split(s))
  {
    if s != [] {
      PartsPlain(s[1..]);
    }
  }

  lemma {:induction false} ResolveBelow(spec: TypeSpec, p: seq<Text>, q: seq<Text>)
    requires ResolveNames(spec, p).Some?
    ensures var mid := ResolveNames(spec, p).value.1;
            && (ResolveNames(spec, p + q).Some? <==> ResolveNames(mid, q).Some?)
            && (ResolveNames(mid, q).Some? ==> ResolveNames(spec, p + q).value.1 == ResolveNames(mid, q).value.1)
  {
    if p == [] {
      assert p + q == q;
    } else {
      var i := FindComponent(spec.components, p[0]).value;
      assert (p + q)[1..] == p[1..] + q;
      ResolveBelow(spec.components[i].spec, p[1..], q);
    }
  }

  lemma DistinctParts(a: seq<Text>, b: seq<Text>)
    requires Distinct(a + b)
    ensures Distinct(a) && Distinct(b) && forall x :: x in a ==> x !in b
  {
    var s := a + b;
    assert forall i :: 0 <= i < |a| ==> a[i] == s[i];
    assert forall i :: 0 <= i < |b| ==> b[i] == s[|a| + i];
  }

  // In a list without repeats, each name comes from one component.
  lemma {:induction false} OneComponent(name: Text, components: seq<Component>, i: nat, j: nat, x: Text)
    requires Distinct(ComponentNames(name, components)) && i < |components| && j < |components|
    requires x in FlatNames(name + [DOLLAR] + components[i].name, components[i].spec)
    requires x in FlatNames(name + [DOLLAR] + components[j].name, components[j].spec)
    ensures i == j
    decreases components
  {
    DistinctParts(FlatNames(name + [DOLLAR] + components[0].name, components[0].spec),
                  ComponentNames(name, components[1..]));
    if i > 0 && j > 0 {
      OneComponent(name, components[1..], i - 1, j - 1, x);
    } else if i > 0 {
      ComponentListed(name, components[1..], i - 1, x);
    } else if j > 0 {
      ComponentListed(name, components[1..], j - 1, x);
    }
  }

  lemma {:induction false} ComponentPart(name: Text, components: seq<Component>, i: nat)
    requires Distinct(ComponentNames(name, components)) && i < |components|
    ensures Distinct(FlatNames(name + [DOLLAR] + components[i].name, components[i].spec))
    decreases components
  {
    DistinctParts(FlatNames(name + [DOLLAR] + components[0].name, components[0].spec),
                  ComponentNames(name, components[1..]));
    if i > 0 {
      ComponentPart(name, components[1..], i - 1);
    }
  }

  lemma {:induction false} OneVariable(vars: Vars, order: seq<Text>, v: Text, w: Text, x: Text)
    requires (forall u :: u in order ==> u in vars) && Distinct(AllNames(vars, order)) && v in order && w in order
    requires x in FlatNames(v, vars[v].spec) && x in FlatNames(w, vars[w].spec)
    ensures v == w
  {
    AllNamesSnoc(vars, order);
    var front, last := order[..|order| - 1], order[|order| - 1];
    DistinctParts(AllNames(vars, front), FlatNames(last, vars[last].spec));
    if v in front && w in front {
      OneVariable(vars, front, v, w, x);
    } else if v in front {
      NameIn(vars, front, v, x);
    } else if w in front {
      NameIn(vars, front, w, x);
    }
  }

  lemma {:induction false} VariablePart(vars: Vars, order: seq<Text>, v: Text)
    requires (forall u :: u in order ==> u in vars) && Distinct(AllNames(vars, order)) && v in order
    ensures Distinct(FlatNames(v, vars[v].spec))
  {
    AllNamesSnoc(vars, order);
    var front, last := order[..|order| - 1], order[|order| - 1];
    DistinctParts(AllNames(vars, front), FlatNames(last, vars[last].spec));
    if v != last {
      VariablePart(vars, front, v);
    }
  }

  // The listed names of part `spec` of a variable, at `name`, which stands for the components p.
  ghost predicate Usable(whole: TypeSpec, v: Text, p: seq<Text>, name: Text, spec: TypeSpec) {
    && Split(name) == [v] + p && ResolveNames(whole, p).Some? && ResolveNames(whole, p).value.1 == spec
    && Distinct(FlatNames(name, spec))
    && forall x :: x in FlatNames(name, spec) ==> Split(x)[0] == v ==> ResolveNames(whole, Split(x)[1..]).Some?
  }

  lemma HeadAndRest(v: Text, p: seq<Text>, parts: seq<Text>)
    ensures ([v] + p + parts)[0] == v && ([v] + p + parts)[1..] == p + parts
  {
  }

  lemma UsableItem(whole: TypeSpec, v: Text, p: seq<Text>, name: Text, spec: TypeSpec, x: Text, q: seq<Text>)
    requires Usable(whole, v, p, name, spec) && x in FlatNames(name, spec) && Split(x)[0] == v && Split(x)[1..] == q
    ensures ResolveNames(whole, q).Some?
  {
  }

  // A listed component resolves from where its structure is, part by part of its name.
  lemma ComponentResolves(whole: TypeSpec, v: Text, p: seq<Text>, name: Text, spec: TypeSpec, i: nat)
    requires Usable(whole, v, p, name, spec) && spec.TStructure? && i < |spec.components|
    ensures ResolveNames(spec, Split(spec.components[i].name)).Some?
  {
    var c := spec.components[i].name;
    ListedComponent(name, spec, i);
    SplitConcat(name, c);
    HeadAndRest(v, p, Split(c));
    UsableItem(whole, v, p, name, spec, name + [DOLLAR] + c, p + Split(c));
    ResolveBelow(whole, p, Split(c));
  }

  lemma ListedComponent(name: Text, spec: TypeSpec, i: nat)
    requires spec.TStructure? && i < |spec.components|
    ensures name + [DOLLAR] + spec.components[i].name in FlatNames(name, spec)
  {
    ComponentListed(name, spec.components, i, name + [DOLLAR] + spec.components[i].name);
  }

  // By its first part, the name is listed under component j.
  lemma ListedUnder(name: Text, components: seq<Component>, c: Text, j: nat)
    requires ResolveNames(TStructure(components), Split(c)).Some? && FindComponent(components, Split(c)[0]) == Some(j)
    ensures name + [DOLLAR] + c in FlatNames(name + [DOLLAR] + components[j].name, components[j].spec)
  {
    var parts := Split(c);
    FlatSplit(c);
    FlatPrefix(name + [DOLLAR], parts[0], parts[1..]);
    PathListed(name + [DOLLAR] + parts[0], components[j].spec, parts[1..]);
  }

  // A component name with a '$' would be listed as a name of another component, or not resolve.
  lemma PlainComponent(whole: TypeSpec, v: Text, p: seq<Text>, name: Text, spec: TypeSpec, i: nat)
    requires Usable(whole, v, p, name, spec) && spec.TStructure? && i < |spec.components|
    ensures Plain(spec.components[i].name)
  {
    var c := spec.components[i].name;
    ComponentResolves(whole, v, p, name, spec, i);
    var j := FindComponent(spec.components, Split(c)[0]).value;
    ListedUnder(name, spec.components, c, j);
    DistinctParts([name], ComponentNames(name, spec.components));
    OneComponent(name, spec.components, i, j, name + [DOLLAR] + c);
    PartsPlain(c);
  }

  lemma DifferentComponents(name: Text, components: seq<Component>, i: nat, j: nat)
    requires Distinct(ComponentNames(name, components)) && i < j < |components|
    ensures components[i].name != components[j].name
  {
    if components[i].name == components[j].name {
      OneComponent(name, components, i, j, name + [DOLLAR] + components[i].name);
      assert false;
    }
  }

  lemma OneName(spec: TypeSpec, c: Text, i: nat)
    requires spec.TStructure? && FindComponent(spec.components, c) == Some(i)
    ensures ResolveNames(spec, [c]).Some? && ResolveNames(spec, [c]).value.1 == spec.components[i].spec
  {
    assert [c][1..] == [];
    assert ResolveNames(spec.components[i].spec, [c][1..]).Some?;
  }

  lemma UsableBelow(whole: TypeSpec, v: Text, p: seq<Text>, name: Text, spec: TypeSpec, i: nat)
    requires Usable(whole, v, p, name, spec) && spec.TStructure? && i < |spec.components|
    ensures Usable(whole, v, p + [spec.components[i].name],
                   name + [DOLLAR] + spec.components[i].name, spec.components[i].spec)
  {
    var c, inner := spec.components[i].name, spec.components[i].spec;
    PlainComponent(whole, v, p, name, spec, i);
    SplitSnoc(name, c);
    assert [v] + p + [c] == [v] + (p + [c]);
    DistinctParts([name], ComponentNames(name, spec.components));
    ComponentPart(name, spec.components, i);
    forall j, k | 0 <= j < k < |spec.components|
      ensures spec.components[j].name != spec.components[k].name
    {
      DifferentComponents(name, spec.components, j, k);
    }
    FindOnly(spec.components, i);
    OneName(spec, c, i);
    ResolveBelow(whole, p, [c]);
    forall x | x in FlatNames(name + [DOLLAR] + c, inner)
      ensures x in FlatNames(name, spec)
    {
      ComponentListed(name, spec.components, i, x);
    }
  }

  lemma {:induction false} UsableNamed(whole: TypeSpec, v: Text, p: seq<Text>, name: Text, spec: TypeSpec)
    requires Usable(whole, v, p, name, spec)
    ensures WellNamed(spec)
    decreases spec
  {
    if spec.TStructure? {
      DistinctParts([name], ComponentNames(name, spec.components));
      forall i, j | 0 <= i < j < |spec.components|
        ensures spec.components[i].name != spec.components[j].name
      {
        DifferentComponents(name, spec.components, i, j);
      }
      forall i | 0 <= i < |spec.components|
        ensures Plain(spec.components[i].name) && WellNamed(spec.components[i].spec)
      {
        PlainComponent(whole, v, p, name, spec, i);
        UsableBelow(whole, v, p, name, spec, i);
        UsableNamed(whole, v, p + [spec.components[i].name],
                    name + [DOLLAR] + spec.components[i].name, spec.components[i].spec);
      }
    }
  }

  ghost predicate AllItemsResolve(domains: map<Text, Vars>, dom: Text, names: seq<Text>) {
    forall item :: item in names ==> Resolve(domains, dom, item, None).Ok?
  }

  // A variable whose own name holds a '$' would be listed as a component of another, or not resolve.
  lemma PlainVariable(domains: map<Text, Vars>, dom: Text, order: seq<Text>, v: Text)
    requires dom in domains && (forall u :: u in order <==> u in domains[dom]) && v in order
    requires Distinct(AllNames(domains[dom], order)) && AllItemsResolve(domains, dom, AllNames(domains[dom], order))
    ensures Plain(v)
  {
    var vars, parts := domains[dom], Split(v);
    NameIn(vars, order, v, v);
    PathListed(parts[0], vars[parts[0]].spec, parts[1..]);
    FlatSplit(v);
    OneVariable(vars, order, v, parts[0], v);
    PartsPlain(v);
  }

  lemma VariableNamed(domains: map<Text, Vars>, dom: Text, order: seq<Text>, v: Text)
    requires dom in domains && (forall u :: u in order <==> u in domains[dom]) && v in order
    requires Distinct(AllNames(domains[dom], order)) && AllItemsResolve(domains, dom, AllNames(domains[dom], order))
    ensures Plain(v) && WellNamed(domains[dom][v].spec)
  {
    var vars := domains[dom];
    var spec := vars[v].spec;
    PlainVariable(domains, dom, order, v);
    SplitPlain(v);
    assert [v] + [] == [v];
    VariablePart(vars, order, v);
    forall x | x in FlatNames(v, spec)
      ensures Split(x)[0] == v ==> ResolveNames(spec, Split(x)[1..]).Some?
    {
      NameIn(vars, order, v, x);
    }
    UsableNamed(spec, v, [], v, spec);
  }

  // A domain lists names that all resolve, each once, exactly when in every structure the component names
  // differ and no variable or component name holds a '$'.
  lemma UsableExactly(domains: map<Text, Vars>, dom: Text, names: seq<Text>, order: seq<Text>)
    requires dom in domains && Lists(names, domains[dom], order)
    ensures WellNamedVars(domains[dom]) <==> Distinct(names) && AllItemsResolve(domains, dom, names)
  {
    var vars := domains[dom];
    if WellNamedVars(vars) {
      NamesDistinct(vars, names, order);
      forall item | item in names
        ensures Resolve(domains, dom, item, None).Ok?
      {
        NamesAreItems(domains, dom, names, order, item);
      }
    } else if Distinct(names) && AllItemsResolve(domains, dom, names) {
      SameCounts(AllNames(vars, order), names);
      forall item | item in AllNames(vars, order)
        ensures Resolve(domains, dom, item, None).Ok?
      {
        SameNames(names, vars, order, item);
      }
      forall v | v in vars
        ensures Plain(v) && WellNamed(vars[v].spec)
      {
        VariableNamed(domains, dom, order, v);
      }
      assert false;
    }
  }
}
