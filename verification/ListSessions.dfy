// Named variable lists as a client uses them over the wire: define_nvl, read, delete_nvl of
// adapters/iec61850-rust/src/bin/mms_client.rs against adapters/iec61850-rust/src/bin/mms_server.rs.
module ListSessions {
  import opened Octets
  import opened Ber
  import opened BerIntegers
  import opened Values
  import opened MmsTypes
  import opened MmsRequests
  import opened VariableAccess
  import opened MmsServer

  // ----- the requests

  function DefineRequest(n: Name, vars: seq<Variable>): Bytes {
    EncodeName(n) + ListOfVariable(vars)
  }

  function DeleteRequest(n: Name): Bytes {
    Cp(0, [0]) + Cc(1, EncodeName(n))
  }

  // The choices of a VariableAccessSpecification, as a reader meets them.
  function VariablesChoice(vars: seq<Variable>): Tlv {
    Made(CTX, true, 0, ListContent(vars))
  }

  function ListChoice(n: Name): Tlv {
    Made(CTX, true, 1, EncodeName(n))
  }

  // The client's read: of a choice, with the specification returned or not.
  function ReadRequest(withSpec: bool, choice: Bytes): Bytes {
    (if withSpec then Cp(0, BoolBytes(true)) else []) + Cc(1, choice)
  }

  lemma ChoiceRead(choice: Bytes)
    requires |choice| < TWO32
    ensures OptCtx(Open(Cc(1, choice)), true, 1) == (Some(Made(CTX, true, 1, choice)), Open([]))
    ensures OptCtx(Open(Cc(1, choice)), false, 0) == (None, Open(Cc(1, choice)))
  {
    OptCtxMade(true, 1, choice, [], true, 1);
    OptCtxMade(true, 1, choice, [], false, 0);
    assert Cc(1, choice) + [] == Cc(1, choice);
  }

  lemma FlagRead(tail: Bytes)
    ensures OptCtx(Open(Cp(0, BoolBytes(true)) + tail), false, 0)
            == (Some(Made(CTX, false, 0, BoolBytes(true))), Open(tail))
  {
    OptCtxMade(false, 0, BoolBytes(true), tail, false, 0);
  }

  lemma ReadParts(val: Bytes, flag: Option<Tlv>, c: Cursor, v: Tlv)
    requires OptCtx(Open(val), false, 0) == (flag, c) && OptCtx(c, true, 1).0 == Some(v) && First(v.val).Some?
    ensures ParseRead(val) == Some((flag.Some? && flag.value.Bool(), First(v.val).value))
  {
  }

  lemma ReadRequestRead(withSpec: bool, choice: Bytes)
    requires |choice| < TWO32 && First(choice).Some?
    ensures ParseRead(ReadRequest(withSpec, choice)) == Some((withSpec, First(choice).value))
  {
    var tail, v := Cc(1, choice), Made(CTX, true, 1, choice);
    ChoiceRead(choice);
    if withSpec {
      FlagRead(tail);
      ReadParts(ReadRequest(true, choice), Some(Made(CTX, false, 0, BoolBytes(true))), Open(tail), v);
    } else {
      assert [] + tail == tail;
      ReadParts(tail, None, Open(tail), v);
    }
  }

  // Reading variables, and reading a list, over the request's octets.
  lemma ReadVariables(m: Shared, aa: Lists, withSpec: bool, vars: seq<Variable>)
    requires WellTyped(m.domains) && |ListOfVariable(vars)| < TWO32
    ensures ReadService(m, aa, ReadRequest(withSpec, ListOfVariable(vars)))
            == Ok((if withSpec then Some(ListOfVariable(vars)) else None, ReadAll(m.domains, MembersOf(vars))))
  {
    NextLast(CTX, true, 0, ListContent(vars));
    ReadRequestRead(withSpec, ListOfVariable(vars));
    VariablesSelected(m, aa, vars);
  }

  lemma ReadList(m: Shared, aa: Lists, withSpec: bool, n: Name)
    requires WellTyped(m.domains) && |ListName(n)| < TWO32
    ensures ReadService(m, aa, ReadRequest(withSpec, ListName(n)))
            == match LookupList(m, aa, n)
               case Err(e) => Err(e)
               case Ok(l) => Ok((if withSpec then Some(ListName(n)) else None, ReadAll(m.domains, l.members)))
  {
    NextLast(CTX, true, 1, EncodeName(n));
    ReadRequestRead(withSpec, ListName(n));
    NameSelected(m, aa, n);
  }

  lemma VariablesSelected(m: Shared, aa: Lists, vars: seq<Variable>)
    requires |ListContent(vars)| < TWO32
    ensures AccessSpec(m, aa, VariablesChoice(vars)) == Ok(MembersOf(vars))
  {
    ListRoundTrip(vars);
  }

  // One variable of a domain over the request's octets.
  lemma VariableSelected(m: Shared, aa: Lists, d: Text, i: Text, alt: Option<Bytes>)
    requires |ListContent([Variable(Dom(d, i), alt)])| < TWO32
    ensures AccessSpec(m, aa, VariablesChoice([Variable(Dom(d, i), alt)])) == Ok([Member(d, i, alt)])
  {
    VariablesSelected(m, aa, [Variable(Dom(d, i), alt)]);
    assert MembersOf([Variable(Dom(d, i), alt)]) == [Member(d, i, alt)];
  }

  // Every result is the part that the steps of its variable select, or an error code: the variable is not there,
  // or the steps select nothing.
  lemma ReadResultSelects(m: Shared, aa: Lists, withSpec: bool, vars: seq<Variable>, k: nat, dom: Text, base: Text,
      steps: seq<Step>, wrapped: bool)
    requires WellTyped(m.domains) && |ListOfVariable(vars)| < TWO32 && k < |vars| && Plain(base)
    requires steps != [] && (forall i :: 0 <= i < |steps| ==> Encodable(steps[i]))
    requires |EncodeAlt(steps, wrapped)| < TWO32
    requires vars[k] == Variable(Dom(dom, base), Some(EncodeAlt(steps, wrapped)))
    requires Known(m.domains, dom, base) ==> Counted(m.domains[dom][base].spec)
    ensures var r := ReadService(m, aa, ReadRequest(withSpec, ListOfVariable(vars)));
            && r.Ok? && |r.value.1| == |vars|
            && r.value.1[k]
               == if !Known(m.domains, dom, base) then Err(10)
                  else var x := m.domains[dom][base];
                       match Select(x.spec, x.value, steps) case Some(v) => Ok(v) case None => Err(5)
  {
    ReadVariables(m, aa, withSpec, vars);
    if Known(m.domains, dom, base) {
      ReadSelects(m.domains, dom, base, steps, wrapped);
    } else {
      SplitPlain(base);
    }
  }

  // A variable without alternate access is read whole.
  lemma ReadResultWhole(m: Shared, aa: Lists, withSpec: bool, vars: seq<Variable>, k: nat, dom: Text, base: Text)
    requires WellTyped(m.domains) && |ListOfVariable(vars)| < TWO32 && k < |vars| && Plain(base)
    requires vars[k] == Variable(Dom(dom, base), None)
    ensures var r := ReadService(m, aa, ReadRequest(withSpec, ListOfVariable(vars)));
            && r.Ok? && |r.value.1| == |vars|
            && r.value.1[k] == if Known(m.domains, dom, base) then Ok(m.domains[dom][base].value) else Err(10)
  {
    ReadVariables(m, aa, withSpec, vars);
    SplitPlain(base);
  }

  lemma NameSelected(m: Shared, aa: Lists, n: Name)
    requires |EncodeName(n)| < TWO32
    ensures AccessSpec(m, aa, ListChoice(n))
            == match LookupList(m, aa, n) case Ok(l) => Ok(l.members) case Err(e) => Err(e)
  {
    NameRoundTrip(n, []);
    assert EncodeName(n) + [] == EncodeName(n);
  }

  lemma DefineRequestRead(n: Name, vars: seq<Variable>)
    requires |EncodeName(n)| < TWO32 && |ListContent(vars)| < TWO32
    ensures ParseDefine(DefineRequest(n, vars)) == Some((n, VariablesChoice(vars)))
  {
    NameRoundTrip(n, ListOfVariable(vars));
    OptCtxMade(true, 0, ListContent(vars), [], true, 0);
    assert ListOfVariable(vars) + [] == ListOfVariable(vars);
  }

  lemma DeleteRequestRead(n: Name)
    requires |EncodeName(n)| < TWO32
    ensures ParseDelete(DeleteRequest(n)) == Some([Some(n)])
  {
    var tail := Cc(1, EncodeName(n));
    OptCtxMade(false, 0, [0], tail, false, 0);
    OptCtxMade(true, 1, EncodeName(n), [], true, 1);
    assert tail + [] == tail;
    ZeroRead();
    NameChild(n);
    assert ParseNames([NameTlv(n)]) == [Some(n)];
  }

  lemma ZeroRead()
    ensures ParseInt([0]) == 0
  {
    assert ParseIntFrom(0, [0][..0]) == 0;
  }

  lemma NameChild(n: Name)
    requires |EncodeName(n)| < TWO32
    ensures Children(EncodeName(n)) == [NameTlv(n)] && ParseName(NameTlv(n)) == Some(n)
  {
    NameRoundTrip(n, []);
    assert EncodeName(n) + [] == EncodeName(n);
    assert Children([]) == [];
  }

  // ----- deleting

  // The names before the first malformed one.
  function Before(names: seq<Option<Name>>): seq<Option<Name>> {
    if names == [] || names[0].None? then [] else [names[0]] + Before(names[1..])
  }

  // The lists that exist among the names.
  function Existing(m: Shared, aa: Lists, names: seq<Option<Name>>): set<Name> {
    set o | o in names && o.Some? && LookupList(m, aa, o.value).Ok? :: o.value
  }

  lemma DeleteOneMeaning(m: Shared, aa: Lists, n: Name, other: Name)
    ensures var (m', aa') := DeleteOne(m, aa, n);
            LookupList(m', aa', other) == if other == n then Err(AccessErr(NON_EXISTENT)) else LookupList(m, aa, other)
  {
  }

  // A delete request removes the named lists before the first malformed name and no others. It is refused
  // exactly when a name is malformed, which does not bring the lists before it back.
  lemma {:induction false} DeletesExactly(d: Deletion, names: seq<Option<Name>>, other: Name)
    requires SoundShared(d.shared, d.aa)
    ensures var e := DeleteNames(d, names);
            && LookupList(e.shared, e.aa, other)
               == (if Some(other) in Before(names) then Err(AccessErr(NON_EXISTENT))
                   else LookupList(d.shared, d.aa, other))
            && (e.refused <==> d.refused || None in names)
    decreases |names|
  {
    if names != [] && names[0].Some? {
      var name := names[0].value;
      var next := AfterOne(d, name);
      DeleteStep(d, names);
      DeletesExactly(next, names[1..], other);
      NamesHead(names);
    }
  }

  lemma NamesHead(names: seq<Option<Name>>)
    requires names != [] && names[0].Some?
    ensures None in names <==> None in names[1..]
    ensures forall o :: o in Before(names) <==> o == names[0] || o in Before(names[1..])
  {
    assert names == [names[0]] + names[1..];
  }

  // One well-formed name, where every list can be deleted.
  function AfterOne(d: Deletion, name: Name): Deletion {
    if LookupList(d.shared, d.aa, name).Err? then d
    else var (m, aa) := DeleteOne(d.shared, d.aa, name); Deletion(d.refused, d.matched + 1, d.deleted + 1, m, aa)
  }

  lemma DeleteStep(d: Deletion, names: seq<Option<Name>>)
    requires SoundShared(d.shared, d.aa) && names != [] && names[0].Some?
    ensures var next := AfterOne(d, names[0].value);
            DeleteNames(d, names) == DeleteNames(next, names[1..]) && SoundShared(next.shared, next.aa)
    ensures var next := AfterOne(d, names[0].value);
            forall other :: LookupList(next.shared, next.aa, other)
                            == if other == names[0].value then Err(AccessErr(NON_EXISTENT))
                               else LookupList(d.shared, d.aa, other)
  {
    var name := names[0].value;
    LookupSound(d.shared, d.aa, name);
    forall other
      ensures var next := AfterOne(d, name);
              LookupList(next.shared, next.aa, other)
              == if other == name then Err(AccessErr(NON_EXISTENT)) else LookupList(d.shared, d.aa, other)
    {
      DeleteOneMeaning(d.shared, d.aa, name, other);
    }
  }

  lemma ExistingStep(d: Deletion, names: seq<Option<Name>>)
    requires SoundShared(d.shared, d.aa) && names != [] && names[0].Some?
    ensures var next := AfterOne(d, names[0].value);
            var all := Existing(d.shared, d.aa, Before(names));
            Existing(next.shared, next.aa, Before(names[1..])) == all - {names[0].value}
            && (names[0].value in all <==> LookupList(d.shared, d.aa, names[0].value).Ok?)
  {
    DeleteStep(d, names);
    NamesHead(names);
    var name, next := names[0].value, AfterOne(d, names[0].value);
    var all, left := Existing(d.shared, d.aa, Before(names)), Existing(next.shared, next.aa, Before(names[1..]));
    forall o: Name
      ensures o in left <==> o in all - {name}
    {
      assert Some(o) in Before(names) <==> Some(o) == names[0] || Some(o) in Before(names[1..]);
    }
  }

  // The count of deleted lists is the number of different lists named, however often each is named.
  lemma {:induction false} DeletesCounted(d: Deletion, names: seq<Option<Name>>)
    requires SoundShared(d.shared, d.aa)
    ensures DeleteNames(d, names).deleted == d.deleted + |Existing(d.shared, d.aa, Before(names))|
    decreases |names|
  {
    if names == [] || names[0].None? {
      assert Existing(d.shared, d.aa, Before(names)) == {};
    } else {
      DeleteStep(d, names);
      ExistingStep(d, names);
      DeletesCounted(AfterOne(d, names[0].value), names[1..]);
    }
  }

  // ----- a list from its definition to its deletion

  ghost predicate AllResolve(domains: map<Text, Vars>, ms: seq<Member>) {
    forall i :: 0 <= i < |ms| ==> Resolve(domains, ms[i].dom, ms[i].item, ms[i].alt).Ok?
  }

  // A define request over the wire is accepted exactly when every variable resolves, the scope exists and
  // the name is free; the list then selects what the request's variables select.
  lemma DefineRequestMeaning(m: Shared, aa: Lists, n: Name, vars: seq<Variable>)
    requires |EncodeName(n)| < TWO32 && |ListContent(vars)| < TWO32
    ensures var (err, m', aa') := Define(m, aa, DefineRequest(n, vars));
            && (err.None? <==>
                AllResolve(m.domains, MembersOf(vars)) && (n.Dom? ==> n.dom in m.domLists) && LookupList(m, aa, n).Err?)
            && (err.Some? ==> err.value == if !AllResolve(m.domains, MembersOf(vars)) then Definition(1)
                                           else if n.Dom? && n.dom !in m.domLists then Access(2)
                                           else Definition(2))
            && (err.None? ==> LookupList(m', aa', n) == Ok(Nvl(MembersOf(vars), true))
                              && AccessSpec(m', aa', ListChoice(n)) == AccessSpec(m, aa, VariablesChoice(vars)))
            && (err.Some? ==> m' == m && aa' == aa)
  {
    DefineRequestRead(n, vars);
    VariablesSelected(m, aa, vars);
    DefineAsExactly(m, aa, n, MembersOf(vars));
    var (_, m', aa') := Define(m, aa, DefineRequest(n, vars));
    NameSelected(m', aa', n);
  }

  lemma DefineAsExactly(m: Shared, aa: Lists, n: Name, members: seq<Member>)
    ensures var (err, m', aa') := DefineAs(m, aa, n, Ok(members));
            && (err.None? <==>
                AllResolve(m.domains, members) && (n.Dom? ==> n.dom in m.domLists) && LookupList(m, aa, n).Err?)
            && (err.Some? ==> err.value == if !AllResolve(m.domains, members) then Definition(1)
                                           else if n.Dom? && n.dom !in m.domLists then Access(2)
                                           else Definition(2))
            && (err.None? ==> LookupList(m', aa', n) == Ok(Nvl(members, true)))
            && (err.Some? ==> m' == m && aa' == aa)
  {
    DefineMeaning(m, aa, n, Ok(members), n);
  }

  // Requests of association b after which association a no longer has list n: a delete that names it, or,
  // for a list of the association, its end.
  predicate Drops(b: nat, r: Request, a: nat, n: Name) {
    match r
    case DeleteReq(val) => ParseDelete(val).Some? && Some(n) in Before(ParseDelete(val).value) && (n.Aa? ==> b == a)
    case Associate => n.Aa? && b == a
    case _ => false
  }

  function ListOf(s: Sys, a: nat, n: Name): Result<Nvl, SvcErr> {
    LookupList(s.shared, AaOf(s, a), n)
  }

  lemma DefineKeepsList(lib: Library, s: Sys, b: nat, val: Bytes, a: nat, n: Name)
    requires Sound(s) && ListOf(s, a, n).Ok?
    ensures ListOf(Serve(lib, s, b, DefineReq(val)), a, n) == ListOf(s, a, n)
  {
    var p, aa := ParseDefine(val), AaOf(s, b);
    if p.Some? {
      DefineMeaning(s.shared, aa, p.value.0, AccessSpec(s.shared, aa, p.value.1), n);
    }
  }

  lemma DeleteKeepsList(lib: Library, s: Sys, b: nat, val: Bytes, a: nat, n: Name)
    requires Sound(s) && ListOf(s, a, n).Ok? && !Drops(b, DeleteReq(val), a, n)
    ensures ListOf(Serve(lib, s, b, DeleteReq(val)), a, n) == ListOf(s, a, n)
  {
    var p, aa := ParseDelete(val), AaOf(s, b);
    assert SoundShared(s.shared, aa);
    if p.Some? {
      DeletesExactly(Deletion(false, 0, 0, s.shared, aa), p.value, n);
    }
  }

  lemma ServeKeepsList(lib: Library, s: Sys, b: nat, r: Request, a: nat, n: Name)
    requires Sound(s) && ListOf(s, a, n).Ok? && !Drops(b, r, a, n)
    ensures ListOf(Serve(lib, s, b, r), a, n) == ListOf(s, a, n)
  {
    match r
    case DefineReq(val) => DefineKeepsList(lib, s, b, val, a, n);
    case DeleteReq(val) => DeleteKeepsList(lib, s, b, val, a, n);
    case WriteReq(_) =>
    case Associate =>
  }

  lemma {:induction false} RunKeepsList(lib: Library, s: Sys, requests: seq<(nat, Request)>, a: nat, n: Name)
    requires Sound(s) && ListOf(s, a, n).Ok?
    requires forall i :: 0 <= i < |requests| ==> !Drops(requests[i].0, requests[i].1, a, n)
    ensures Sound(Run(lib, s, requests)) && ListOf(Run(lib, s, requests), a, n) == ListOf(s, a, n)
  {
    if requests != [] {
      var k := |requests| - 1;
      var (b, r) := requests[k];
      RunKeepsList(lib, s, requests[..k], a, n);
      ServeKeeps(lib, Run(lib, s, requests[..k]), b, r);
      ServeKeepsList(lib, Run(lib, s, requests[..k]), b, r, a, n);
    }
  }

  // Once a define request is accepted, and through any later requests of any associations that do not drop
  // the list, the request to read it is answered with a value for every variable of the definition, in order.
  lemma DefinedListLives(lib: Library, s: Sys, a: nat, n: Name, vars: seq<Variable>, later: seq<(nat, Request)>)
    requires Sound(s) && |ListName(n)| < TWO32 && |ListContent(vars)| < TWO32
    requires Define(s.shared, AaOf(s, a), DefineRequest(n, vars)).0.None?
    requires forall i :: 0 <= i < |later| ==> !Drops(later[i].0, later[i].1, a, n)
    ensures var t := Run(lib, Serve(lib, s, a, DefineReq(DefineRequest(n, vars))), later);
            var values := ReadAll(t.shared.domains, MembersOf(vars));
            && ReadService(t.shared, AaOf(t, a), ReadRequest(false, ListName(n))) == Ok((None, values))
            && forall i :: 0 <= i < |vars| ==> values[i].Ok?
  {
    var s1 := Serve(lib, s, a, DefineReq(DefineRequest(n, vars)));
    DefinedNow(lib, s, a, n, vars);
    RunKeepsList(lib, s1, later, a, n);
    SoundListReads(Run(lib, s1, later), a, n, MembersOf(vars));
  }

  lemma DefinedNow(lib: Library, s: Sys, a: nat, n: Name, vars: seq<Variable>)
    requires Sound(s) && |EncodeName(n)| < TWO32 && |ListContent(vars)| < TWO32
    requires Define(s.shared, AaOf(s, a), DefineRequest(n, vars)).0.None?
    ensures var t := Serve(lib, s, a, DefineReq(DefineRequest(n, vars)));
            Sound(t) && ListOf(t, a, n) == Ok(Nvl(MembersOf(vars), true))
  {
    DefineRequestMeaning(s.shared, AaOf(s, a), n, vars);
    ServeKeeps(lib, s, a, DefineReq(DefineRequest(n, vars)));
  }

  lemma SoundListReads(s: Sys, a: nat, n: Name, members: seq<Member>)
    requires Sound(s) && |ListName(n)| < TWO32 && ListOf(s, a, n) == Ok(Nvl(members, true))
    ensures ReadService(s.shared, AaOf(s, a), ReadRequest(false, ListName(n)))
            == Ok((None, ReadAll(s.shared.domains, members)))
    ensures forall i :: 0 <= i < |members| ==> ReadAll(s.shared.domains, members)[i].Ok?
  {
    ReadList(s.shared, AaOf(s, a), false, n);
    LookupSound(s.shared, AaOf(s, a), n);
  }

  // Deleting a list over the wire reports one match and one deletion, and the list is gone; deleting one
  // that does not exist reports none. All other lists stay.
  lemma DeleteRequestMeaning(m: Shared, aa: Lists, n: Name, other: Name)
    requires SoundShared(m, aa) && |EncodeName(n)| < TWO32
    ensures var (r, m', aa') := Delete(m, aa, DeleteRequest(n));
            var count := if LookupList(m, aa, n).Ok? then 1 else 0;
            && r == Ok((count, count)) && LookupList(m', aa', n) == Err(AccessErr(NON_EXISTENT))
            && (other != n ==> LookupList(m', aa', other) == LookupList(m, aa, other))
  {
    DeleteRequestRead(n);
    var d := Deletion(false, 0, 0, m, aa);
    var names := [Some(n)];
    assert names[1..] == [];
    DeleteStep(d, names);
    assert DeleteNames(d, names) == AfterOne(d, n);
    DeleteOneMeaning(m, aa, n, n);
    DeleteOneMeaning(m, aa, n, other);
  }

  // ----- writing over the wire

  // Encoded data, one after the other.
  function EncodeData(encode: Value -> Bytes, data: seq<Value>): Bytes {
    if data == [] then [] else encode(data[0]) + EncodeData(encode, data[1..])
  }

  // The library's decoder takes back what its encoder gives for these values, whatever follows.
  ghost predicate TakesBack(encode: Value -> Bytes, decode: Decoder, data: seq<Value>) {
    forall v, rest :: v in data ==> decode(encode(v) + rest) == Some((v, |encode(v)|))
  }

  function WriteRequest(encode: Value -> Bytes, choice: Bytes, data: seq<Value>): Bytes {
    choice + Cc(0, EncodeData(encode, data))
  }

  lemma {:induction false} DataRead(encode: Value -> Bytes, decode: Decoder, done: seq<Value>, data: seq<Value>)
    requires TakesBack(encode, decode, data)
    ensures DecodeOn(decode, done, EncodeData(encode, data)) == Some(done + data)
    decreases |data|
  {
    if data == [] {
      assert done + data == done;
    } else {
      var v := data[0];
      DecodeStep(decode, done, encode(v), EncodeData(encode, data[1..]), v);
      DataRead(encode, decode, done + [v], data[1..]);
      assert done + [v] + data[1..] == done + data;
    }
  }

  lemma DecodeStep(decode: Decoder, done: seq<Value>, first: Bytes, rest: Bytes, v: Value)
    requires decode(first + rest) == Some((v, |first|))
    ensures DecodeOn(decode, done, first + rest) == DecodeOn(decode, done + [v], rest)
  {
    assert (first + rest)[|first|..] == rest;
  }

  // The server reads from a write request the variables and the data the client put there.
  lemma WriteRequestRead(encode: Value -> Bytes, decode: Decoder, vars: seq<Variable>, data: seq<Value>)
    requires TakesBack(encode, decode, data) && |ListContent(vars)| < TWO32 && |EncodeData(encode, data)| < TWO32
    ensures ParseWrite(decode, WriteRequest(encode, ListOfVariable(vars), data)) == Some((VariablesChoice(vars), data))
  {
    var tail := Cc(0, EncodeData(encode, data));
    NextMade(CTX, true, 0, ListContent(vars), tail);
    OptCtxMade(true, 0, EncodeData(encode, data), [], true, 0);
    assert tail + [] == tail;
    DataRead(encode, decode, [], data);
    assert [] + data == data;
    WriteParts(decode, WriteRequest(encode, ListOfVariable(vars), data), VariablesChoice(vars), Open(tail),
               Made(CTX, true, 0, EncodeData(encode, data)), data);
  }

  lemma WriteParts(decode: Decoder, val: Bytes, choice: Tlv, c: Cursor, d: Tlv, data: seq<Value>)
    requires Next(Open(val)) == (Some(choice), c) && OptCtx(c, true, 0).0 == Some(d)
    requires DecodeOn(decode, [], d.val) == Some(data)
    ensures ParseWrite(decode, val) == Some((choice, data))
  {
  }

  lemma WriteOneSelected(f: Narrowing, m: Shared, aa: Lists, choice: Tlv, mb: Member, v: Value)
    requires WellTyped(m.domains) && AccessSpec(m, aa, choice) == Ok([mb])
    ensures var (err, after) := WriteOne(f, m.domains, mb, v);
            WriteSelected(f, m, aa, choice, [v]) == (Ok([err]), after)
  {
    assert WriteAll(f, m.domains, [mb][..0], [v][..0]) == ([], m.domains);
    var (err, after) := WriteOne(f, m.domains, mb, v);
    assert [] + [err] == [err];
  }

  lemma WriteAnswer(lib: Library, encode: Value -> Bytes, m: Shared, aa: Lists, x: Variable, v: Value)
    requires WellTyped(m.domains) && TakesBack(encode, lib.decode, [v])
    requires |ListContent([x])| < TWO32 && |EncodeData(encode, [v])| < TWO32
    ensures var (err, after) := WriteOne(lib.narrow, m.domains, MemberOf(x.name, x.alt), v);
            WriteService(lib, m, aa, WriteRequest(encode, ListOfVariable([x]), [v])) == (Ok([err]), after)
  {
    WriteRequestRead(encode, lib.decode, [x], [v]);
    VariablesSelected(m, aa, [x]);
    assert MembersOf([x]) == [MemberOf(x.name, x.alt)];
    WriteOneSelected(lib.narrow, m, aa, VariablesChoice([x]), MemberOf(x.name, x.alt), v);
  }

  // A value written over the wire and accepted is what the request to read the same variable returns, its
  // floats narrowed; a refused write leaves every variable as it was.
  lemma WriteThenRead(lib: Library, encode: Value -> Bytes, m: Shared, aa: Lists, x: Variable, v: Value)
    requires WellTyped(m.domains) && TakesBack(encode, lib.decode, [v])
    requires |ListOfVariable([x])| < TWO32 && |EncodeData(encode, [v])| < TWO32
    ensures var (r, after) := WriteService(lib, m, aa, WriteRequest(encode, ListOfVariable([x]), [v]));
            && r.Ok? && |r.value| == 1
            && if r.value[0].Some? then after == m.domains
               else ReadService(m.(domains := after), aa, ReadRequest(false, ListOfVariable([x])))
                    == Ok((None, [Ok(Narrowed(lib.narrow, v))]))
  {
    WriteAnswer(lib, encode, m, aa, x, v);
    var mb := MemberOf(x.name, x.alt);
    ReadAfterWrite(lib.narrow, m.domains, mb, v);
    ReadOneVariable(m.(domains := WriteOne(lib.narrow, m.domains, mb, v).1), aa, x);
  }

  lemma ReadOneVariable(m: Shared, aa: Lists, x: Variable)
    requires |ListOfVariable([x])| < TWO32
    ensures WellTyped(m.domains) ==>
              ReadService(m, aa, ReadRequest(false, ListOfVariable([x])))
              == Ok((None, [ReadOne(m.domains, MemberOf(x.name, x.alt))]))
  {
    if WellTyped(m.domains) {
      ReadVariables(m, aa, false, [x]);
      assert MembersOf([x]) == [MemberOf(x.name, x.alt)];
      assert ReadAll(m.domains, [MemberOf(x.name, x.alt)]) == [ReadOne(m.domains, MemberOf(x.name, x.alt))];
    }
  }

  // The answer to a request to write the part of a variable that steps select: 10 without the variable, 5 when
  // the steps select nothing, 3 when it cannot be written, 7 for a value of another type, and otherwise success.
  lemma WriteRequestAnswer(lib: Library, encode: Value -> Bytes, m: Shared, aa: Lists, dom: Text, base: Text,
      steps: seq<Step>, wrapped: bool, v: Value)
    requires WellTyped(m.domains) && TakesBack(encode, lib.decode, [v]) && Plain(base)
    requires steps != [] && (forall i :: 0 <= i < |steps| ==> Encodable(steps[i]))
    requires |EncodeAlt(steps, wrapped)| < TWO32 && |EncodeData(encode, [v])| < TWO32
    requires |ListContent([Variable(Dom(dom, base), Some(EncodeAlt(steps, wrapped)))])| < TWO32
    requires Known(m.domains, dom, base) ==> Counted(m.domains[dom][base].spec)
    ensures var x := Variable(Dom(dom, base), Some(EncodeAlt(steps, wrapped)));
            var r := WriteService(lib, m, aa, WriteRequest(encode, ListOfVariable([x]), [v])).0;
            if !Known(m.domains, dom, base) then r == Ok([Some(10)])
            else
              var y := m.domains[dom][base];
              if Select(y.spec, y.value, steps).None? then r == Ok([Some(5)])
              else
                && ResolveSteps(y.spec, steps).Ok?
                && r == Ok([if !y.writable then Some(3)
                            else if !HasType(ResolveSteps(y.spec, steps).value.1, Narrowed(lib.narrow, v)) then Some(7)
                            else None])
  {
    var alt := EncodeAlt(steps, wrapped);
    WriteAnswer(lib, encode, m, aa, Variable(Dom(dom, base), Some(alt)), v);
    WriteOutcome(lib.narrow, m.domains, Member(dom, base, Some(alt)), v);
    AltRoundTrip(steps, wrapped);
    ResolveAlt(m.domains, dom, base, alt, steps);
    if Known(m.domains, dom, base) {
      ResolvedIsSelected(m.domains[dom][base].spec, m.domains[dom][base].value, steps);
    }
  }

  // A request to write several variables is answered with the outcome each write would have alone.
  lemma WriteRequestOutcomes(lib: Library, encode: Value -> Bytes, m: Shared, aa: Lists, vars: seq<Variable>,
      data: seq<Value>)
    requires WellTyped(m.domains) && TakesBack(encode, lib.decode, data) && |vars| == |data|
    requires |ListContent(vars)| < TWO32 && |EncodeData(encode, data)| < TWO32
    ensures var r := WriteService(lib, m, aa, WriteRequest(encode, ListOfVariable(vars), data)).0;
            r.Ok? && EachAlone(lib.narrow, m.domains, MembersOf(vars), data, r.value)
  {
    WriteRequestRead(encode, lib.decode, vars, data);
    VariablesSelected(m, aa, vars);
    WritesOutcomes(lib.narrow, m.domains, MembersOf(vars), data);
  }

  // A request that cannot be read is refused and changes nothing: a read without a choice, a write without data,
  // with data that does not decode, or with another number of data than variables.
  lemma MalformedReadWrite(lib: Library, encode: Value -> Bytes, m: Shared, aa: Lists, vars: seq<Variable>, bad: Bytes,
      data: seq<Value>)
    requires WellTyped(m.domains) && |ListContent(vars)| < TWO32 && |bad| < TWO32 && DecodeOn(lib.decode, [], bad).None?
    requires TakesBack(encode, lib.decode, data) && |EncodeData(encode, data)| < TWO32 && |data| != |vars|
    ensures ReadService(m, aa, []) == Err(InvalidArgument)
    ensures WriteService(lib, m, aa, ListOfVariable(vars)) == (Err(InvalidArgument), m.domains)
    ensures WriteService(lib, m, aa, ListOfVariable(vars) + Cc(0, bad)) == (Err(InvalidArgument), m.domains)
    ensures WriteService(lib, m, aa, WriteRequest(encode, ListOfVariable(vars), data))
            == (Err(InvalidArgument), m.domains)
  {
    OptCtxEnd(false, 0);
    OptCtxEnd(true, 1);
    OptCtxEnd(true, 0);
    NextLast(CTX, true, 0, ListContent(vars));
    NextMade(CTX, true, 0, ListContent(vars), Cc(0, bad));
    OptCtxMade(true, 0, bad, [], true, 0);
    assert Cc(0, bad) + [] == Cc(0, bad);
    WriteRequestRead(encode, lib.decode, vars, data);
    VariablesSelected(m, aa, vars);
  }

  // The specification comes back exactly when the flag's first octet is not zero.
  lemma SpecificationFlag(flag: Bytes, choice: Bytes)
    requires |flag| < TWO32 && |choice| < TWO32 && First(choice).Some?
    ensures ParseRead(Cp(0, flag) + Cc(1, choice)) == Some((flag != [] && flag[0] != 0, First(choice).value))
  {
    OptCtxMade(false, 0, flag, Cc(1, choice), false, 0);
    ChoiceRead(choice);
    ReadParts(Cp(0, flag) + Cc(1, choice), Some(Made(CTX, false, 0, flag)), Open(Cc(1, choice)),
              Made(CTX, true, 1, choice));
  }

  // A request to write one variable sends the reports exactly when the write is accepted and the variable is
  // report-trigger or flattened from it.
  lemma OneWriteTriggers(lib: Library, encode: Value -> Bytes, m: Shared, aa: Lists, d: Text, i: Text,
      alt: Option<Bytes>, v: Value)
    requires WellTyped(m.domains) && TakesBack(encode, lib.decode, [v])
    requires |ListContent([Variable(Dom(d, i), alt)])| < TWO32 && |EncodeData(encode, [v])| < TWO32
    ensures var val := WriteRequest(encode, ListOfVariable([Variable(Dom(d, i), alt)]), [v]);
            RequestTriggers(lib, m, aa, val, WriteService(lib, m, aa, val).0)
            <==> WriteOne(lib.narrow, m.domains, Member(d, i, alt), v).0 == None
                 && (i == Ascii("report-trigger") || exists rest: Text :: i == Ascii("report-trigger$") + rest)
  {
    var x := Variable(Dom(d, i), alt);
    WriteRequestRead(encode, lib.decode, [x], [v]);
    WriteAnswer(lib, encode, m, aa, x, v);
    VariableSelected(m, aa, d, i, alt);
    TriggersExactly(i);
    OneTrigger(Member(d, i, alt), WriteOne(lib.narrow, m.domains, Member(d, i, alt), v).0);
  }

  // ----- what other associations see

  lemma OthersKeepValues(lib: Library, s: Sys, b: nat, r: Request)
    requires WellTyped(s.shared.domains) && !r.WriteReq?
    ensures Serve(lib, s, b, r).shared.domains == s.shared.domains
  {
  }

  lemma {:induction false} RunKeepsValues(lib: Library, s: Sys, later: seq<(nat, Request)>)
    requires WellTyped(s.shared.domains) && forall i :: 0 <= i < |later| ==> !later[i].1.WriteReq?
    ensures Run(lib, s, later).shared.domains == s.shared.domains
  {
    if later != [] {
      var front := later[..|later| - 1];
      RunKeepsValues(lib, s, front);
      OthersKeepValues(lib, Run(lib, s, front), later[|later| - 1].0, later[|later| - 1].1);
    }
  }

  // A value that one association wrote is what any association reads, through any requests that are not writes.
  lemma WrittenValueLives(lib: Library, encode: Value -> Bytes, s: Sys, a: nat, b: nat, x: Variable, v: Value,
      later: seq<(nat, Request)>)
    requires WellTyped(s.shared.domains) && TakesBack(encode, lib.decode, [v])
    requires |ListOfVariable([x])| < TWO32 && |EncodeData(encode, [v])| < TWO32
    requires WriteService(lib, s.shared, AaOf(s, a), WriteRequest(encode, ListOfVariable([x]), [v])).0 == Ok([None])
    requires forall i :: 0 <= i < |later| ==> !later[i].1.WriteReq?
    ensures var t := Run(lib, Serve(lib, s, a, WriteReq(WriteRequest(encode, ListOfVariable([x]), [v]))), later);
            ReadService(t.shared, AaOf(t, b), ReadRequest(false, ListOfVariable([x])))
            == Ok((None, [Ok(Narrowed(lib.narrow, v))]))
  {
    var u := Serve(lib, s, a, WriteReq(WriteRequest(encode, ListOfVariable([x]), [v])));
    var t := Run(lib, u, later);
    RunKeepsValues(lib, u, later);
    WriteThenRead(lib, encode, s.shared, AaOf(s, a), x, v);
    ReadVariables(t.shared, AaOf(t, b), false, [x]);
    ReadVariables(s.shared.(domains := t.shared.domains), AaOf(s, a), false, [x]);
  }

  // A new association begins without lists of its own, and finds all others as they were.
  lemma NewAssociation(lib: Library, s: Sys, a: nat, b: nat, n: Name)
    requires WellTyped(s.shared.domains)
    ensures ListOf(Serve(lib, s, a, Associate), b, n)
            == if n.Aa? && b == a then Err(Access(2)) else ListOf(s, b, n)
  {
  }

  // ----- delete requests that are refused, or name nothing

  // A scope other than 0 is refused as unsupported; no scope is 0, and no names delete nothing; a malformed name
  // refuses the request.
  lemma OtherDeletes(m: Shared, aa: Lists, scope: int, rest: Bytes, t: Tlv)
    requires IsI64(scope) && scope != 0 && Wellformed(t) && |t.raw| < TWO32 && ParseName(t).None?
    ensures Delete(m, aa, Cp(0, IntBytes(scope)) + rest) == (Err(Access(1)), m, aa)
    ensures Delete(m, aa, Cp(0, [0])) == (Ok((0, 0)), m, aa) && Delete(m, aa, []) == (Ok((0, 0)), m, aa)
    ensures Delete(m, aa, Cc(1, t.raw)) == (Err(InvalidArgument), m, aa)
  {
    IntRoundTrip(scope);
    OptCtxMade(false, 0, IntBytes(scope), rest, false, 0);
    OptCtxMade(false, 0, [0], [], false, 0);
    assert Cp(0, [0]) + [] == Cp(0, [0]);
    OptCtxEnd(true, 1);
    OptCtxEnd(false, 0);
    ZeroRead();
    OptCtxMade(true, 1, t.raw, [], false, 0);
    OptCtxMade(true, 1, t.raw, [], true, 1);
    assert Cc(1, t.raw) + [] == Cc(1, t.raw);
    NextLast(t.cls, t.cons, t.num, t.val);
    assert Children(t.raw) == [t];
    assert ParseNames([t]) == [None];
  }

  // Without a scope the lists of the names are deleted as with scope 0.
  lemma ScopeByDefault(m: Shared, aa: Lists, n: Name)
    requires |EncodeName(n)| < TWO32
    ensures Delete(m, aa, Cc(1, EncodeName(n))) == Delete(m, aa, DeleteRequest(n))
  {
    DeleteRequestRead(n);
    OptCtxMade(true, 1, EncodeName(n), [], false, 0);
    OptCtxMade(true, 1, EncodeName(n), [], true, 1);
    assert Cc(1, EncodeName(n)) + [] == Cc(1, EncodeName(n));
    NameChild(n);
    assert ParseNames([NameTlv(n)]) == [Some(n)];
  }

  // ----- the octets on the wire

  lemma ListRequestOctets(n: Name, vars: seq<Variable>)
    ensures DefineRequest(n, vars) == EncodeName(n) + OctetTagged(0xa0, ListContent(vars))
    ensures DeleteRequest(n) == [0x80, 1, 0] + OctetTagged(0xa1, EncodeName(n))
  {
    OneOctetTag(2, true, 0, ListContent(vars));
    OneOctetTag(2, false, 0, [0]);
    OneOctetTag(2, true, 1, EncodeName(n));
    assert Cp(0, [0]) == [0x80, 1, 0];
  }

  lemma ReadRequestOctets(withSpec: bool, choice: Bytes)
    ensures ReadRequest(withSpec, choice)
            == (if withSpec then [0x80, 1, 0xff] else []) + OctetTagged(0xa1, choice)
  {
    OneOctetTag(2, false, 0, BoolBytes(true));
    assert Cp(0, BoolBytes(true)) == [0x80, 1, 0xff];
    OneOctetTag(2, true, 1, choice);
  }

  lemma WriteRequestOctets(encode: Value -> Bytes, choice: Bytes, data: seq<Value>)
    ensures WriteRequest(encode, choice, data) == choice + OctetTagged(0xa0, EncodeData(encode, data))
  {
    OneOctetTag(2, true, 0, EncodeData(encode, data));
  }
}
