// MMS object names, variable lists and alternate access on the wire: what the client builds
// (adapters/iec61850-rust/src/bin/mms_client.rs) and the server parses
// (adapters/iec61850-rust/src/bin/mms_server.rs, ber.rs).
module MmsRequests {
  import opened Octets
  import opened Ber
  import opened BerIntegers

  // DataAccessError codes.
  const ACCESS_DENIED: nat := 3
  const INVALID_ADDRESS: nat := 5
  const TYPE_INCONSISTENT: nat := 7
  const ACCESS_UNSUPPORTED: nat := 9
  const NON_EXISTENT: nat := 10

  // An encoded TLV as it is read back.
  function Made(cls: nat, cons: bool, num: nat, content: Bytes): Tlv
    requires cls < 4
  {
    Tlv(cls, cons, num, content, Encode(cls, cons, num, content))
  }

  lemma NextMade(cls: nat, cons: bool, num: nat, content: Bytes, rest: Bytes)
    requires cls < 4 && num < TWO32 && |content| < TWO32
    ensures Next(Open(Encode(cls, cons, num, content) + rest)) == (Some(Made(cls, cons, num, content)), Open(rest))
  {
    NextEncoded(Made(cls, cons, num, content), rest);
  }

  lemma NextLast(cls: nat, cons: bool, num: nat, content: Bytes)
    requires cls < 4 && num < TWO32 && |content| < TWO32
    ensures Next(Open(Encode(cls, cons, num, content))) == (Some(Made(cls, cons, num, content)), Open([]))
    ensures Children(Encode(cls, cons, num, content)) == [Made(cls, cons, num, content)]
  {
    NextMade(cls, cons, num, content, []);
    assert Encode(cls, cons, num, content) + [] == Encode(cls, cons, num, content);
    assert Children([]) == [];
  }

  // opt_ctx reads what Next reads when the tag is the one asked for.
  lemma OptCtxMade(cons: bool, num: nat, content: Bytes, rest: Bytes, cons': bool, num': nat)
    requires num < TWO32 && |content| < TWO32
    ensures var c := Open(Encode(CTX, cons, num, content) + rest);
            OptCtx(c, cons', num')
            == if cons == cons' && num == num' then (Some(Made(CTX, cons, num, content)), Open(rest)) else (None, c)
  {
    NextMade(CTX, cons, num, content, rest);
    EncodeRead(CTX, cons, num, content, rest);
  }

  lemma OptCtxEnd(cons: bool, num: nat)
    ensures OptCtx(Open([]), cons, num) == (None, Open([]))
  {
  }

  // ----- names

  datatype Name = Vmd(item: Text) | Dom(dom: Text, item: Text) | Aa(item: Text)

  function ParseName(t: Tlv): Option<Name> {
    if t.Ctx(false, 0) then Some(Vmd(t.val))
    else if t.Ctx(false, 2) then Some(Aa(t.val))
    else if t.Ctx(true, 1) then
      var (d, c) := Next(Open(t.val));
      if d.None? then None
      else
        var (i, _) := Next(c);
        if i.None? then None else Some(Dom(d.value.val, i.value.val))
    else None
  }

  function EncodeName(n: Name): (b: Bytes)
    ensures b != []
  {
    match n
    case Vmd(s) => Cp(0, s)
    case Aa(s) => Cp(2, s)
    case Dom(d, i) => Cc(1, VisibleString(d) + VisibleString(i))
  }

  function NameTlv(n: Name): Tlv {
    match n
    case Vmd(s) => Made(CTX, false, 0, s)
    case Aa(s) => Made(CTX, false, 2, s)
    case Dom(d, i) => Made(CTX, true, 1, VisibleString(d) + VisibleString(i))
  }

  lemma NameRoundTrip(n: Name, rest: Bytes)
    requires |EncodeName(n)| < TWO32
    ensures Next(Open(EncodeName(n) + rest)) == (Some(NameTlv(n)), Open(rest))
    ensures ParseName(NameTlv(n)) == Some(n)
  {
    var t := NameTlv(n);
    NextMade(t.cls, t.cons, t.num, t.val, rest);
    if n.Dom? {
      NextMade(UNIV, false, 26, n.dom, VisibleString(n.item));
      NextLast(UNIV, false, 26, n.item);
    }
  }

  // ----- alternate access

  datatype Step = Comp(name: Text) | Index(i: nat) | Span(lo: nat, n: nat) | All

  function ParseSpan(content: Bytes): Result<Step, nat> {
    var (lo, c) := OptCtx(Open(content), false, 0);
    if lo.None? then Err(INVALID_ADDRESS)
    else
      var (n, _) := OptCtx(c, false, 1);
      if n.None? then Err(INVALID_ADDRESS)
      else Ok(Span(U32(ParseUint(lo.value.val)), U32(ParseUint(n.value.val))))
  }

  // The accessSelection of a nested selection; its class is not looked at.
  function ParseSelection(t: Tlv): Result<Step, nat> {
    if !t.cons && t.num == 0 then Ok(Comp(t.val))
    else if !t.cons && t.num == 1 then Ok(Index(U32(ParseUint(t.val))))
    else if t.cons && t.num == 2 then ParseSpan(t.val)
    else if !t.cons && t.num == 3 then Ok(All)
    else Err(ACCESS_UNSUPPORTED)
  }

  lemma FirstChild(content: Bytes)
    requires Children(content) != []
    ensures First(content) == Some(Children(content)[0]) && |Children(content)[0].raw| <= |content|
    ensures |Children(content)[0].val| < |content|
  {
  }

  // The steps of alternateAccess content. Terminates on every octet string: nested content is shorter.
  function ParseAlt(content: Bytes): (r: Result<seq<Step>, nat>)
    ensures r.Ok? ==> r.value != []
    ensures r.Err? ==> r.error == INVALID_ADDRESS || r.error == ACCESS_UNSUPPORTED
    decreases |content|
  {
    if |Children(content)| != 1 then Err(ACCESS_UNSUPPORTED)
    else
      FirstChild(content);
      var t := Children(content)[0];
      if t.cls != CTX then Err(ACCESS_UNSUPPORTED)
      else if !t.cons && t.num == 1 then Ok([Comp(t.val)])
      else if !t.cons && t.num == 2 then Ok([Index(U32(ParseUint(t.val)))])
      else if t.cons && t.num == 3 then (match ParseSpan(t.val) case Ok(s) => Ok([s]) case Err(e) => Err(e))
      else if !t.cons && t.num == 4 then Ok([All])
      else if t.cons && t.num == 0 then
        var (sel, c) := Next(Open(t.val));
        if sel.None? then Err(INVALID_ADDRESS)
        else
          match ParseSelection(sel.value)
          case Err(e) => Err(e)
          case Ok(s) =>
            var (rest, _) := Next(c);
            if rest.None? then Err(INVALID_ADDRESS)
            else
              match ParseAlt(if rest.value.Is(UNIV, true, 16) then rest.value.val else rest.value.raw)
              case Ok(more) => Ok([s] + more)
              case Err(e) => Err(e)
      else Err(ACCESS_UNSUPPORTED)
  }

  // Of the one TLV of an alternate access: a component, an index or all elements by a primitive tag 1, 2 or 4, a
  // range by a constructed tag 3; any other but a nested selection is unsupported, 9.
  lemma AltForms(content: Bytes, t: Tlv)
    requires Children(content) == [t] && !t.Ctx(true, 0)
    ensures ParseAlt(content)
            == if t.Ctx(false, 1) then Ok([Comp(t.val)])
               else if t.Ctx(false, 2) then Ok([Index(ParseUint(t.val) % 0x1_0000_0000)])
               else if t.Ctx(false, 4) then Ok([All])
               else if t.Ctx(true, 3) then match ParseSpan(t.val) case Ok(s) => Ok([s]) case Err(e) => Err(e)
               else Err(9)
  {
  }

  // None or several TLVs are unsupported, 9. A nested selection without a selection or without what comes after it,
  // and a range without one of its numbers, are invalid, 5; a selection by another tag is unsupported.
  lemma AltRefused(content: Bytes, t: Tlv, lo: Bytes)
    requires |lo| < TWO32 && Wellformed(t) && |t.raw| < TWO32
    ensures |Children(content)| != 1 ==> ParseAlt(content) == Err(9)
    ensures ParseAlt(Cc(0, [])) == Err(5) && ParseSpan([]) == Err(5) && ParseSpan(Cp(0, lo)) == Err(5)
    ensures ParseSelection(t).Ok? ==> ParseAlt(Cc(0, t.raw)) == Err(5)
    ensures ParseSelection(t).Err? ==> ParseAlt(Cc(0, t.raw)) == Err(ParseSelection(t).error)
    ensures (t.cons && t.num != 2) || (!t.cons && t.num != 0 && t.num != 1 && t.num != 3) ==>
              ParseSelection(t) == Err(9)
  {
    NextLast(CTX, true, 0, []);
    OptCtxEnd(false, 0);
    OptCtxEnd(false, 1);
    OptCtxMade(false, 0, lo, [], false, 0);
    assert Cp(0, lo) + [] == Cp(0, lo);
    NextLast(CTX, true, 0, t.raw);
    NextLast(t.cls, t.cons, t.num, t.val);
  }

  // The client's builders.
  function AltIndex(i: nat): Bytes
    requires i < TWO32
  {
    Cp(2, UintBytes(i))
  }

  function AltRange(lo: nat, n: nat): Bytes
    requires lo < TWO32 && n < TWO32
  {
    Cc(3, Cp(0, UintBytes(lo)) + Cp(1, UintBytes(n)))
  }

  function AltComponent(c: Text): Bytes {
    Cp(1, c)
  }

  // Any path of steps in the alternate access syntax of ISO 9506, the form the three builders are the
  // one-step cases of. The rest of a nested selection may stand alone or inside a SEQUENCE.
  predicate Encodable(s: Step) {
    match s
    case Comp(_) => true
    case Index(i) => i < TWO32
    case Span(lo, n) => lo < TWO32 && n < TWO32
    case All => true
  }

  function SpanContent(s: Step): Bytes
    requires s.Span? && Encodable(s)
  {
    Cp(0, UintBytes(s.lo)) + Cp(1, UintBytes(s.n))
  }

  // The tag numbers of a step differ by `base` between a last and an inner selection.
  function StepTlv(s: Step, base: nat): (t: Tlv)
    requires Encodable(s) && base <= 1
    ensures t.cls == CTX && t.num <= 4 && t.raw == Encode(t.cls, t.cons, t.num, t.val)
  {
    match s
    case Comp(c) => Made(CTX, false, base, c)
    case Index(i) => Made(CTX, false, base + 1, UintBytes(i))
    case Span(_, _) => Made(CTX, true, base + 2, SpanContent(s))
    case All => Made(CTX, false, base + 3, [])
  }

  function EncodeAlt(steps: seq<Step>, wrapped: bool): (b: Bytes)
    requires steps != [] && forall i :: 0 <= i < |steps| ==> Encodable(steps[i])
    ensures b != []
  {
    if |steps| == 1 then StepTlv(steps[0], 1).raw
    else
      var rest := EncodeAlt(steps[1..], wrapped);
      Cc(0, StepTlv(steps[0], 0).raw + if wrapped then Sequence(rest) else rest)
  }

  lemma UintOfU32(i: nat)
    requires i < TWO32
    ensures U32(ParseUint(UintBytes(i))) == i
  {
    UintRoundTrip(i);
  }

  lemma SpanRoundTrip(s: Step)
    requires s.Span? && Encodable(s)
    ensures ParseSpan(SpanContent(s)) == Ok(s)
  {
    OptCtxMade(false, 0, UintBytes(s.lo), Cp(1, UintBytes(s.n)), false, 0);
    OptCtxMade(false, 1, UintBytes(s.n), [], false, 1);
    assert Cp(1, UintBytes(s.n)) + [] == Cp(1, UintBytes(s.n));
    UintOfU32(s.lo);
    UintOfU32(s.n);
  }

  lemma SelectionRoundTrip(s: Step)
    requires Encodable(s)
    ensures ParseSelection(StepTlv(s, 0)) == Ok(s)
  {
    match s
    case Index(i) => UintOfU32(i);
    case Span(_, _) => SpanRoundTrip(s);
    case _ =>
  }

  lemma LastStepRoundTrip(s: Step)
    requires Encodable(s) && |StepTlv(s, 1).raw| < TWO32
    ensures ParseAlt(StepTlv(s, 1).raw) == Ok([s])
  {
    var t := StepTlv(s, 1);
    NextLast(t.cls, t.cons, t.num, t.val);
    match s
    case Index(i) => UintOfU32(i);
    case Span(_, _) => SpanRoundTrip(s);
    case _ =>
  }

  // The encoding of steps is one context TLV.
  lemma EncodeAltShape(steps: seq<Step>, wrapped: bool) returns (t: Tlv)
    requires steps != [] && forall i :: 0 <= i < |steps| ==> Encodable(steps[i])
    ensures t.cls == CTX && t.num <= 4 && t.raw == Encode(t.cls, t.cons, t.num, t.val) == EncodeAlt(steps, wrapped)
    ensures |t.val| < |EncodeAlt(steps, wrapped)|
  {
    if |steps| == 1 {
      t := StepTlv(steps[0], 1);
    } else {
      var rest := EncodeAlt(steps[1..], wrapped);
      t := Made(CTX, true, 0, StepTlv(steps[0], 0).raw + if wrapped then Sequence(rest) else rest);
    }
  }

  // A nested selection: the step of its accessSelection, then the steps of its alternateAccess.
  lemma NestedStep(content: Bytes, outer: Tlv, first: Tlv, tail: Bytes, rest: Tlv, s: Step, more: seq<Step>)
    requires Children(content) == [outer] && outer.Ctx(true, 0)
    requires Next(Open(outer.val)) == (Some(first), Open(tail)) && ParseSelection(first) == Ok(s)
    requires Next(Open(tail)).0 == Some(rest)
    requires ParseAlt(if rest.Is(UNIV, true, 16) then rest.val else rest.raw) == Ok(more)
    ensures ParseAlt(content) == Ok([s] + more)
  {
  }

  lemma TailRead(steps: seq<Step>, wrapped: bool) returns (rest: Tlv)
    requires steps != [] && forall i :: 0 <= i < |steps| ==> Encodable(steps[i])
    requires |EncodeAlt(steps, wrapped)| < TWO32
    ensures var more := EncodeAlt(steps, wrapped);
            && Next(Open(if wrapped then Sequence(more) else more)).0 == Some(rest)
            && (if rest.Is(UNIV, true, 16) then rest.val else rest.raw) == more
  {
    var more := EncodeAlt(steps, wrapped);
    if wrapped {
      rest := Made(UNIV, true, 16, more);
      NextLast(UNIV, true, 16, more);
    } else {
      rest := EncodeAltShape(steps, wrapped);
      NextLast(rest.cls, rest.cons, rest.num, rest.val);
    }
  }

  lemma NestedRead(s: Step, tail: Bytes, rest: Tlv, more: seq<Step>)
    requires Encodable(s) && |StepTlv(s, 0).raw + tail| < TWO32
    requires Next(Open(tail)).0 == Some(rest)
    requires ParseAlt(if rest.Is(UNIV, true, 16) then rest.val else rest.raw) == Ok(more)
    ensures ParseAlt(Cc(0, StepTlv(s, 0).raw + tail)) == Ok([s] + more)
  {
    var first := StepTlv(s, 0);
    NextLast(CTX, true, 0, first.raw + tail);
    NextMade(first.cls, first.cons, first.num, first.val, tail);
    SelectionRoundTrip(s);
    NestedStep(Cc(0, first.raw + tail), Made(CTX, true, 0, first.raw + tail), first, tail, rest, s, more);
  }

  // Every path of steps, of any length, is parsed back from its encoding.
  lemma {:induction false} AltRoundTrip(steps: seq<Step>, wrapped: bool)
    requires steps != [] && forall i :: 0 <= i < |steps| ==> Encodable(steps[i])
    requires |EncodeAlt(steps, wrapped)| < TWO32
    ensures ParseAlt(EncodeAlt(steps, wrapped)) == Ok(steps)
  {
    if |steps| == 1 {
      LastStepRoundTrip(steps[0]);
      assert steps == [steps[0]];
    } else {
      var more := EncodeAlt(steps[1..], wrapped);
      var tail := if wrapped then Sequence(more) else more;
      assert EncodeAlt(steps, wrapped) == Cc(0, StepTlv(steps[0], 0).raw + tail);
      AltRoundTrip(steps[1..], wrapped);
      var rest := TailRead(steps[1..], wrapped);
      NestedRead(steps[0], tail, rest, steps[1..]);
      assert steps == [steps[0]] + steps[1..];
    }
  }

  // The builders' requests, for all 32-bit indices and ranges and all names.
  lemma BuildersRoundTrip(i: nat, lo: nat, n: nat, c: Text)
    requires i < TWO32 && lo < TWO32 && n < TWO32 && |AltComponent(c)| < TWO32
    ensures ParseAlt(AltIndex(i)) == Ok([Index(i)])
    ensures ParseAlt(AltRange(lo, n)) == Ok([Span(lo, n)])
    ensures ParseAlt(AltComponent(c)) == Ok([Comp(c)])
  {
    LastStepRoundTrip(Index(i));
    ShortRange(lo, n);
    LastStepRoundTrip(Span(lo, n));
    LastStepRoundTrip(Comp(c));
  }

  lemma ShortRange(lo: nat, n: nat)
    requires lo < TWO32 && n < TWO32
    ensures |SpanContent(Span(lo, n))| < 64 && |AltRange(lo, n)| < 128
  {
    assert forall num: nat, b: Bytes :: num < 31 && |b| <= 64 ==> |Cp(num, b)| <= |b| + 6;
    assert forall num: nat, b: Bytes :: num < 31 && |b| <= 64 ==> |Cc(num, b)| <= |b| + 6;
  }

  // ----- lists of variables

  datatype Member = Member(dom: Text, item: Text, alt: Option<Bytes>)

  datatype SvcErr = Access(code: nat) | Definition(code: nat) | File(code: nat) | InvalidArgument

  function Entry(n: Name, alt: Option<Bytes>): Bytes {
    Cc(0, EncodeName(n)) + match alt case Some(a) => Cc(5, a) case None => []
  }

  datatype Variable = Variable(name: Name, alt: Option<Bytes>)

  function ListContent(vars: seq<Variable>): Bytes {
    if vars == [] then [] else Sequence(Entry(vars[0].name, vars[0].alt)) + ListContent(vars[1..])
  }

  // listOfVariable [0].
  function ListOfVariable(vars: seq<Variable>): Bytes {
    Cc(0, ListContent(vars))
  }

  function MemberOf(n: Name, alt: Option<Bytes>): Member {
    match n
    case Dom(d, i) => Member(d, i, alt)
    case Vmd(i) => Member([], i, alt)
    case Aa(i) => Member([], i, alt)
  }

  function ParseEntry(entry: Tlv): Result<Member, SvcErr> {
    var (vs, c) := OptCtx(Open(entry.val), true, 0);
    if vs.None? then Err(InvalidArgument)
    else
      match First(vs.value.val)
      case None => Err(InvalidArgument)
      case Some(t) =>
        match ParseName(t)
        case None => Err(InvalidArgument)
        case Some(n) =>
          var (a, _) := OptCtx(c, true, 5);
          Ok(MemberOf(n, match a case Some(x) => Some(x.val) case None => None))
  }

  function ParseEntries(entries: seq<Tlv>): Result<seq<Member>, SvcErr> {
    if entries == [] then Ok([])
    else
      match ParseEntry(entries[0])
      case Err(e) => Err(e)
      case Ok(m) => match ParseEntries(entries[1..]) case Ok(ms) => Ok([m] + ms) case Err(e) => Err(e)
  }

  function MembersOf(vars: seq<Variable>): (ms: seq<Member>)
    ensures |ms| == |vars|
  {
    seq(|vars|, i requires 0 <= i < |vars| => MemberOf(vars[i].name, vars[i].alt))
  }

  lemma EntryRoundTrip(n: Name, alt: Option<Bytes>)
    requires |Entry(n, alt)| < TWO32
    ensures ParseEntry(Made(UNIV, true, 16, Entry(n, alt)))
            == Ok(match n
                  case Dom(d, i) => Member(d, i, alt)
                  case Vmd(i) => Member([], i, alt)
                  case Aa(i) => Member([], i, alt))
  {
    var tail: Bytes := match alt case Some(a) => Cc(5, a) case None => [];
    OptCtxMade(true, 0, EncodeName(n), tail, true, 0);
    NameRoundTrip(n, []);
    assert EncodeName(n) + [] == EncodeName(n);
    match alt
    case Some(a) =>
      OptCtxMade(true, 5, a, [], true, 5);
      assert Cc(5, a) + [] == Cc(5, a);
    case None =>
      OptCtxEnd(true, 5);
  }

  lemma ChildrenCons(cls: nat, cons: bool, num: nat, content: Bytes, rest: Bytes)
    requires cls < 4 && num < TWO32 && |content| < TWO32
    ensures Children(Encode(cls, cons, num, content) + rest) == [Made(cls, cons, num, content)] + Children(rest)
  {
    NextMade(cls, cons, num, content, rest);
  }

  lemma ParseEntriesCons(t: Tlv, m: Member, ts: seq<Tlv>, ms: seq<Member>)
    requires ParseEntry(t) == Ok(m) && ParseEntries(ts) == Ok(ms)
    ensures ParseEntries([t] + ts) == Ok([m] + ms)
  {
    assert ([t] + ts)[1..] == ts;
  }

  lemma {:induction false} ListRoundTrip(vars: seq<Variable>)
    requires |ListContent(vars)| < TWO32
    ensures ParseEntries(Children(ListContent(vars))) == Ok(MembersOf(vars))
  {
    if vars == [] {
      assert Children([]) == [];
    } else {
      var n, alt, rest := vars[0].name, vars[0].alt, ListContent(vars[1..]);
      EntryRoundTrip(n, alt);
      ListRoundTrip(vars[1..]);
      ChildrenCons(UNIV, true, 16, Entry(n, alt), rest);
      ParseEntriesCons(Made(UNIV, true, 16, Entry(n, alt)), MemberOf(n, alt), Children(rest), MembersOf(vars[1..]));
      MembersOfCons(vars);
    }
  }

  lemma MembersOfCons(vars: seq<Variable>)
    requires vars != []
    ensures MembersOf(vars) == [MemberOf(vars[0].name, vars[0].alt)] + MembersOf(vars[1..])
  {
  }

  // variableListName [1].
  function ListName(n: Name): Bytes {
    Cc(1, EncodeName(n))
  }

  // ----- the octets on the wire

  lemma NameOctets(d: Text, i: Text)
    ensures EncodeName(Vmd(i)) == OctetTagged(0x80, i) && EncodeName(Aa(i)) == OctetTagged(0x82, i)
    ensures EncodeName(Dom(d, i)) == OctetTagged(0xa1, OctetTagged(0x1a, d) + OctetTagged(0x1a, i))
  {
    OneOctetTag(2, false, 0, i);
    OneOctetTag(2, false, 2, i);
    OneOctetTag(0, false, 26, d);
    OneOctetTag(0, false, 26, i);
    OneOctetTag(2, true, 1, OctetTagged(0x1a, d) + OctetTagged(0x1a, i));
  }

  lemma AlternateOctets(c: Text, i: nat, lo: nat, n: nat)
    requires i < TWO32 && lo < TWO32 && n < TWO32
    ensures AltComponent(c) == OctetTagged(0x81, c) && AltIndex(i) == OctetTagged(0x82, UintBytes(i))
    ensures AltRange(lo, n) == OctetTagged(0xa3, OctetTagged(0x80, UintBytes(lo)) + OctetTagged(0x81, UintBytes(n)))
  {
    OneOctetTag(2, false, 1, c);
    OneOctetTag(2, false, 2, UintBytes(i));
    OneOctetTag(2, false, 0, UintBytes(lo));
    OneOctetTag(2, false, 1, UintBytes(n));
    OneOctetTag(2, true, 3, OctetTagged(0x80, UintBytes(lo)) + OctetTagged(0x81, UintBytes(n)));
  }

  lemma VariableOctets(n: Name, a: Bytes)
    ensures ListOfVariable([Variable(n, None)])
            == OctetTagged(0xa0, OctetTagged(0x30, OctetTagged(0xa0, EncodeName(n))))
    ensures ListOfVariable([Variable(n, Some(a))])
            == OctetTagged(0xa0, OctetTagged(0x30, OctetTagged(0xa0, EncodeName(n)) + OctetTagged(0xa5, a)))
    ensures ListName(n) == OctetTagged(0xa1, EncodeName(n))
  {
    OneOctetTag(2, true, 0, EncodeName(n));
    OneOctetTag(2, true, 5, a);
    OneOctetTag(2, true, 1, EncodeName(n));
    ListOctets(n, None, OctetTagged(0xa0, EncodeName(n)) + []);
    assert OctetTagged(0xa0, EncodeName(n)) + [] == OctetTagged(0xa0, EncodeName(n));
    ListOctets(n, Some(a), OctetTagged(0xa0, EncodeName(n)) + OctetTagged(0xa5, a));
  }

  lemma ListOctets(n: Name, alt: Option<Bytes>, entry: Bytes)
    requires Entry(n, alt) == entry
    ensures ListOfVariable([Variable(n, alt)]) == OctetTagged(0xa0, OctetTagged(0x30, entry))
  {
    var vars := [Variable(n, alt)];
    OneOctetTag(0, true, 16, entry);
    assert vars[1..] == [] && ListContent(vars) == OctetTagged(0x30, entry) + [];
    assert OctetTagged(0x30, entry) + [] == OctetTagged(0x30, entry);
    OneOctetTag(2, true, 0, OctetTagged(0x30, entry));
  }
}
