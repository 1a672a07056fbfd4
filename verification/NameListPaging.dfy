// GetNameList in pages: the server's get_name_list (adapters/iec61850-rust/src/bin/mms_server.rs) and
// the client's loop over it (adapters/iec61850-rust/src/bin/mms_client.rs).
module NameListPaging {
  import opened Octets
  import opened Ber
  import opened BerIntegers
  import opened MmsRequests

  // ----- the server

  function IndexOf(names: seq<Text>, a: Text): (r: Option<nat>)
    ensures r.Some? ==> r.value < |names| && names[r.value] == a && forall i :: 0 <= i < r.value ==> names[i] != a
    ensures r.None? ==> a !in names
  {
    if names == [] then None
    else if names[0] == a then Some(0)
    else match IndexOf(names[1..], a) case Some(i) => Some(i + 1) case None => None
  }

  // The names after `after`, or all when it is not one of them.
  function Rest(names: seq<Text>, after: Option<Text>): seq<Text> {
    match after
    case None => names
    case Some(a) => match IndexOf(names, a) case Some(i) => names[i + 1..] case None => names
  }

  // How many further names fit beside `used` octets.
  function Fill(names: seq<Text>, used: nat, budget: nat): (n: nat)
    ensures n <= |names|
  {
    if names == [] || used + |VisibleString(names[0])| > budget then 0
    else 1 + Fill(names[1..], used + |VisibleString(names[0])|, budget)
  }

  // The first name of a page is listed whatever its size.
  function PageSize(rest: seq<Text>, budget: nat): (n: nat)
    ensures n <= |rest| && (rest != [] ==> n > 0)
  {
    if rest == [] then 0 else 1 + Fill(rest[1..], |VisibleString(rest[0])|, budget)
  }

  // The page after `after`, and whether more follows.
  function Page(names: seq<Text>, after: Option<Text>, budget: nat): (seq<Text>, bool) {
    var rest := Rest(names, after);
    (rest[..PageSize(rest, budget)], PageSize(rest, budget) < |rest|)
  }

  function Strings(names: seq<Text>): Bytes {
    if names == [] then [] else Strings(names[..|names| - 1]) + VisibleString(names[|names| - 1])
  }

  lemma FillOn(rest: seq<Text>, i: nat, used: nat, budget: nat)
    requires i < |rest|
    ensures var size := |VisibleString(rest[i])|;
            Fill(rest[i..], used, budget)
            == if used + size > budget then 0 else 1 + Fill(rest[i + 1..], used + size, budget)
  {
    assert rest[i..][1..] == rest[i + 1..];
  }

  lemma StringsOn(rest: seq<Text>, i: nat)
    requires i < |rest|
    ensures Strings(rest[..i + 1]) == Strings(rest[..i]) + VisibleString(rest[i])
  {
    assert rest[..i + 1][..i] == rest[..i];
  }

  // The page as the server lists it, name by name.
  method ListPage(names: seq<Text>, after: Option<Text>, budget: nat) returns (list: Bytes, more: bool)
    ensures var (page, follows) := Page(names, after, budget); list == Strings(page) && more == follows
  {
    var rest := Rest(names, after);
    ghost var n := PageSize(rest, budget);
    assert Page(names, after, budget) == (rest[..n], n < |rest|);
    list, more := [], false;
    var i := 0;
    while i < |rest|
      invariant 0 <= i <= |rest| && list == Strings(rest[..i])
      invariant !more && if i > 0 then n == i + Fill(rest[i..], |list|, budget) else n > 0 || rest == []
    {
      var el := VisibleString(rest[i]);
      if i > 0 && |list| + |el| > budget {
        FillOn(rest, i, |list|, budget);
        more := true;
        break;
      }
      StringsOn(rest, i);
      if i > 0 {
        FillOn(rest, i, |list|, budget);
      } else {
        assert list + el == el;
      }
      list := list + el;
      i := i + 1;
    }
    assert rest[|rest|..] == [];
  }

  // ----- the pages on the wire

  function EncodePage(list: Bytes, more: bool): Bytes {
    Cc(1, Cc(0, list) + Cp(1, BoolBytes(more)))
  }

  function Texts(ts: seq<Tlv>): (r: seq<Text>)
    ensures |r| == |ts|
  {
    seq(|ts|, i requires 0 <= i < |ts| => ts[i].val)
  }

  // What the client takes from a response; a missing moreFollows counts as true.
  function DecodeContent(val: Bytes): Option<(seq<Text>, bool)> {
    var (list, c) := OptCtx(Open(val), true, 0);
    if list.None? then None
    else
      var (more, _) := OptCtx(c, false, 1);
      Some((Texts(Children(list.value.val)), more.None? || more.value.Bool()))
  }

  function DecodePage(resp: Bytes): Option<(seq<Text>, bool)> {
    match Read(resp)
    case None => None
    case Some((t, _)) => DecodeContent(t.val)
  }

  lemma {:induction false} StringsRead(names: seq<Text>)
    requires |Strings(names)| < TWO32
    ensures Texts(Children(Strings(names))) == names
  {
    var ts := StringTlvs(names);
    StringsAreRaws(names);
    ChildrenOfConcat(ts);
    assert Texts(ts) == names;
  }

  function StringTlvs(names: seq<Text>): (ts: seq<Tlv>)
    ensures |ts| == |names|
  {
    seq(|names|, i requires 0 <= i < |names| => Made(UNIV, false, 26, names[i]))
  }

  lemma {:induction false} RawsSnoc(ts: seq<Tlv>, t: Tlv)
    ensures Raws(ts + [t]) == Raws(ts) + t.raw
  {
    if ts == [] {
      assert ts + [t] == [t];
      assert Raws([]) == [];
      assert [t][1..] == [];
    } else {
      assert (ts + [t])[1..] == ts[1..] + [t];
      RawsSnoc(ts[1..], t);
    }
  }

  lemma {:induction false} StringsAreRaws(names: seq<Text>)
    ensures Raws(StringTlvs(names)) == Strings(names)
    ensures forall i :: 0 <= i < |names| ==> |names[i]| <= |Strings(names)|
  {
    if names != [] {
      var front, n := names[..|names| - 1], names[|names| - 1];
      StringsAreRaws(front);
      RawsSnoc(StringTlvs(front), Made(UNIV, false, 26, n));
      assert StringTlvs(names) == StringTlvs(front) + [Made(UNIV, false, 26, n)];
      forall i | 0 <= i < |names|
        ensures |names[i]| <= |Strings(names)|
      {
        if i < |front| {
          assert names[i] == front[i];
        }
      }
    }
  }

  lemma TailRead(more: bool)
    ensures OptCtx(Open(Cp(1, BoolBytes(more))), false, 1) == (Some(Made(CTX, false, 1, BoolBytes(more))), Open([]))
  {
    OptCtxMade(false, 1, BoolBytes(more), [], false, 1);
    assert Cp(1, BoolBytes(more)) + [] == Cp(1, BoolBytes(more));
  }

  lemma ContentParts(val: Bytes, list: Tlv, more: Tlv, tail: Bytes)
    requires OptCtx(Open(val), true, 0) == (Some(list), Open(tail))
    requires OptCtx(Open(tail), false, 1) == (Some(more), Open([]))
    ensures DecodeContent(val) == Some((Texts(Children(list.val)), more.Bool()))
  {
  }

  lemma ContentRoundTrip(names: seq<Text>, more: bool)
    requires |Strings(names)| < TWO32
    ensures DecodeContent(Cc(0, Strings(names)) + Cp(1, BoolBytes(more))) == Some((names, more))
  {
    var tail := Cp(1, BoolBytes(more));
    OptCtxMade(true, 0, Strings(names), tail, true, 0);
    TailRead(more);
    StringsRead(names);
    ContentParts(Cc(0, Strings(names)) + tail,
                 Made(CTX, true, 0, Strings(names)), Made(CTX, false, 1, BoolBytes(more)), tail);
  }

  // A page, encoded and decoded, is the page.
  lemma PageRoundTrip(names: seq<Text>, more: bool)
    requires |Strings(names)| < TWO32 - 32
    ensures DecodePage(EncodePage(Strings(names), more)) == Some((names, more))
  {
    var content := Cc(0, Strings(names)) + Cp(1, BoolBytes(more));
    HeaderShort(Strings(names), more);
    EncodeRead(CTX, true, 1, content, []);
    assert Cc(1, content) + [] == Cc(1, content);
    ContentRoundTrip(names, more);
  }

  lemma HeaderShort(list: Bytes, more: bool)
    ensures |Cc(0, list) + Cp(1, BoolBytes(more))| <= |list| + 16
  {
  }

  // A response without moreFollows says that more follows; with it, its first octet does, unless that is 0.
  lemma MoreByDefault(names: seq<Text>, flag: Bytes)
    requires |Strings(names)| < TWO32 && |flag| < TWO32
    ensures DecodeContent(Cc(0, Strings(names))) == Some((names, true))
    ensures DecodeContent(Cc(0, Strings(names)) + Cp(1, flag)) == Some((names, flag != [] && flag[0] != 0))
    ensures DecodeContent([]) == None
  {
    StringsRead(names);
    OptCtxMade(true, 0, Strings(names), [], true, 0);
    assert Cc(0, Strings(names)) + [] == Cc(0, Strings(names));
    OptCtxEnd(false, 1);
    OptCtxEnd(true, 0);
    OptCtxMade(true, 0, Strings(names), Cp(1, flag), true, 0);
    OptCtxMade(false, 1, flag, [], false, 1);
    assert Cp(1, flag) + [] == Cp(1, flag);
  }

  // ----- the request

  datatype Scope = VmdScope | DomainScope(dom: Text) | AaScope

  // Object class, scope and the name to continue after.
  datatype ListRequest = ListRequest(cls: int, scope: Tlv, after: Option<Text>)

  function ScopeTlv(s: Scope): Tlv {
    match s
    case VmdScope => Made(CTX, false, 0, [])
    case DomainScope(d) => Made(CTX, false, 1, d)
    case AaScope => Made(CTX, false, 2, [])
  }

  function EncodeRequest(cls: Octet, s: Scope, after: Option<Text>): Bytes {
    Cc(0, Cp(0, [cls])) + (Cc(1, ScopeTlv(s).raw) + match after case Some(a) => Cp(2, a) case None => [])
  }

  function ParseRequest(val: Bytes): Option<ListRequest> {
    var (x, c) := OptCtx(Open(val), true, 0);
    if x.None? || First(x.value.val).None? then None
    else
      var (y, d) := OptCtx(c, true, 1);
      if y.None? || First(y.value.val).None? then None
      else
        var (z, _) := OptCtx(d, false, 2);
        Some(ListRequest(ParseInt(First(x.value.val).value.val), First(y.value.val).value,
                         if z.Some? then Some(z.value.val) else None))
  }

  lemma ClassRead(cls: Octet)
    requires cls < 128
    ensures First(Cp(0, [cls])) == Some(Made(CTX, false, 0, [cls])) && ParseInt([cls]) == cls
  {
    NextLast(CTX, false, 0, [cls]);
    assert ParseIntFrom(0, [cls][..0]) == 0;
  }

  lemma AfterRead(after: Option<Text>)
    requires after.Some? ==> |after.value| < TWO32
    ensures OptCtx(Open(match after case Some(a) => Cp(2, a) case None => []), false, 2).0
            == match after case Some(a) => Some(Made(CTX, false, 2, a)) case None => None
  {
    match after
    case Some(a) =>
      OptCtxMade(false, 2, a, [], false, 2);
      assert Cp(2, a) + [] == Cp(2, a);
    case None => OptCtxEnd(false, 2);
  }

  // The server reads from a request what the client put there.
  lemma RequestRoundTrip(cls: Octet, s: Scope, after: Option<Text>)
    requires cls < 128 && |ScopeTlv(s).raw| < TWO32 && (after.Some? ==> |after.value| < TWO32)
    ensures ParseRequest(EncodeRequest(cls, s, after)) == Some(ListRequest(cls, ScopeTlv(s), after))
  {
    var last: Bytes := match after case Some(a) => Cp(2, a) case None => [];
    var t := ScopeTlv(s);
    OptCtxMade(true, 0, Cp(0, [cls]), Cc(1, t.raw) + last, true, 0);
    OptCtxMade(true, 1, t.raw, last, true, 1);
    ClassRead(cls);
    NextLast(t.cls, t.cons, t.num, t.val);
    AfterRead(after);
  }

  // ----- the client

  // The name a request continues after: the last one that has come.
  function After(got: seq<Text>): Option<Text> {
    if got == [] then None else Some(got[|got| - 1])
  }

  // The response to the request after the names got so far.
  function Respond(names: seq<Text>, got: seq<Text>, budget: nat): (seq<Text>, bool) {
    Page(names, After(got), budget)
  }

  // All names except perhaps the last occur once.
  predicate DistinctButLast(names: seq<Text>) {
    forall i, j :: 0 <= i < j < |names| - 1 ==> names[i] != names[j]
  }

  // Pages that fit a PDU: the negotiated size has 32 bits, of which 32 octets are set aside.
  predicate FitsPdu(names: seq<Text>, budget: nat) {
    budget <= TWO32 - 33 && forall i :: 0 <= i < |names| ==> |VisibleString(names[i])| < TWO32 - 32
  }

  function Size(names: seq<Text>): nat {
    if names == [] then 0 else |VisibleString(names[0])| + Size(names[1..])
  }

  lemma {:induction false} SizeSnoc(names: seq<Text>, n: Text)
    ensures Size(names + [n]) == Size(names) + |VisibleString(n)|
  {
    if names == [] {
      assert names + [n] == [n] && [n][1..] == [];
    } else {
      assert (names + [n])[1..] == names[1..] + [n];
      SizeSnoc(names[1..], n);
    }
  }

  lemma {:induction false} StringsSize(names: seq<Text>)
    ensures |Strings(names)| == Size(names)
  {
    if names != [] {
      var front, n := names[..|names| - 1], names[|names| - 1];
      StringsSize(front);
      SizeSnoc(front, n);
      assert names == front + [n];
    }
  }

  lemma TakeHead<T>(s: seq<T>, n: nat)
    requires 0 < n <= |s|
    ensures s[..n] != [] && s[..n][0] == s[0] && s[..n][1..] == s[1..][..n - 1]
  {
  }

  lemma {:induction false} FillFits(names: seq<Text>, used: nat, budget: nat)
    ensures used + Size(names[..Fill(names, used, budget)]) <= Max(budget, used)
  {
    var n := Fill(names, used, budget);
    if n > 0 {
      FillFits(names[1..], used + |VisibleString(names[0])|, budget);
      TakeHead(names, n);
    }
  }

  // A page is within the budget unless its one name is not.
  lemma PageFits(rest: seq<Text>, budget: nat)
    requires rest != []
    ensures |Strings(rest[..PageSize(rest, budget)])| <= Max(budget, |VisibleString(rest[0])|)
  {
    var n := PageSize(rest, budget);
    StringsSize(rest[..n]);
    FillFits(rest[1..], |VisibleString(rest[0])|, budget);
    TakeHead(rest, n);
  }

  lemma {:induction false} FillFull(names: seq<Text>, used: nat, budget: nat)
    ensures var n := Fill(names, used, budget); n < |names| ==> used + Size(names[..n + 1]) > budget
  {
    if names != [] {
      var size := |VisibleString(names[0])|;
      if used + size > budget {
        assert names[..1][1..] == [];
      } else {
        FillFull(names[1..], used + size, budget);
        var n := Fill(names, used, budget);
        if n < |names| {
          TakeHead(names, n + 1);
        }
      }
    }
  }

  // When more follows, the page would not have held one name more.
  lemma PageFull(rest: seq<Text>, budget: nat)
    ensures var n := PageSize(rest, budget); n < |rest| ==> |Strings(rest[..n + 1])| > budget
  {
    var n := PageSize(rest, budget);
    if n < |rest| {
      FillFull(rest[1..], |VisibleString(rest[0])|, budget);
      TakeHead(rest, n + 1);
      StringsSize(rest[..n + 1]);
    }
  }

  // A page after a name that is not listed is the first page; after one that is, it starts behind its first
  // occurrence.
  lemma PageStart(names: seq<Text>, a: Text, budget: nat)
    ensures a !in names ==> Page(names, Some(a), budget) == Page(names, None, budget)
    ensures a in names ==>
              exists i :: 0 <= i < |names| && names[i] == a && (forall j :: 0 <= j < i ==> names[j] != a)
                          && Page(names, Some(a), budget) == Page(names[i + 1..], None, budget)
  {
    if a in names {
      var i := IndexOf(names, a).value;
      assert names[i] == a && Page(names, Some(a), budget) == Page(names[i + 1..], None, budget);
    }
  }

  // Where the next page starts, once the first k names have come.
  lemma RestFromPrefix(names: seq<Text>, k: nat)
    requires DistinctButLast(names) && k < |names|
    ensures Rest(names, if k == 0 then None else Some(names[k - 1])) == names[k..]
  {
    if k > 0 {
      var i := IndexOf(names, names[k - 1]).value;
      assert i == k - 1;
    } else {
      assert names[0..] == names;
    }
  }

  lemma Continue<T>(s: seq<T>, k: nat, n: nat)
    requires k + n <= |s|
    ensures s[k..][..n] == s[k..k + n] && s[..k] + s[k..k + n] == s[..k + n] && s[..|s|] == s
  {
  }

  // The response once the first k names have come: the n names after them, at least one.
  lemma RespondAt(names: seq<Text>, k: nat, budget: nat) returns (n: nat)
    requires DistinctButLast(names) && k < |names|
    ensures n == PageSize(names[k..], budget) && 0 < n <= |names| - k
    ensures Respond(names, names[..k], budget) == (names[k..k + n], k + n < |names|)
  {
    n := PageSize(names[k..], budget);
    RestFromPrefix(names, k);
    Continue(names, k, n);
  }

  lemma RespondEmpty(budget: nat)
    ensures Respond([], [], budget) == ([], false)
  {
  }

  // The response once the first k names have come, in a browse that is not complete.
  lemma RespondNext(names: seq<Text>, k: nat, budget: nat) returns (n: nat)
    requires DistinctButLast(names) && k <= |names| && (k == |names| ==> k == 0)
    ensures k + n <= |names| && (n == 0 <==> names == []) && names[..k] + names[k..k + n] == names[..k + n]
    ensures Respond(names, names[..k], budget) == (names[k..k + n], k + n < |names|)
    ensures n > 0 ==> names[k..k + n] == names[k..][..PageSize(names[k..], budget)]
  {
    if k < |names| {
      n := RespondAt(names, k, budget);
      Continue(names, k, n);
    } else {
      n := 0;
      RespondEmpty(budget);
      assert names[..0] == names[0..0] == [];
    }
  }

  lemma RespondFits(names: seq<Text>, k: nat, n: nat, budget: nat)
    requires FitsPdu(names, budget) && k < |names| && n <= |names| - k
    requires names[k..k + n] == names[k..][..PageSize(names[k..], budget)]
    ensures |Strings(names[k..k + n])| < TWO32 - 32
  {
    PageFits(names[k..], budget);
  }

  // What the client takes from the response when the first k names have come.
  lemma NextPage(names: seq<Text>, k: nat, budget: nat, follows: bool) returns (n: nat)
    requires DistinctButLast(names) && FitsPdu(names, budget) && k <= |names| && (k == |names| ==> k == 0)
    ensures k + n <= |names| && (n == 0 <==> names == []) && names[..k] + names[k..k + n] == names[..k + n]
    ensures Respond(names, names[..k], budget) == (names[k..k + n], k + n < |names|)
    ensures DecodePage(EncodePage(Strings(names[k..k + n]), follows)) == Some((names[k..k + n], follows))
  {
    n := RespondNext(names, k, budget);
    if n > 0 {
      RespondFits(names, k, n, budget);
    }
    PageRoundTrip(names[k..k + n], follows);
  }

  // The client's loop, over requests and responses as octets, to a server whose list of the class in the
  // scope is `names`: it ends, with every name once and in order.
  method NameList(cls: Octet, scope: Scope, names: seq<Text>, budget: nat) returns (got: seq<Text>)
    requires cls < 128 && |ScopeTlv(scope).raw| < TWO32
    requires DistinctButLast(names) && FitsPdu(names, budget)
    ensures got == names
  {
    got := [];
    while true
      invariant |got| <= |names| && got == names[..|got|] && (|got| == |names| ==> names == [])
      decreases |names| - |got|
    {
      ghost var n := RespondNext(names, |got|, budget);
      var came, more := AskPage(cls, scope, names, got, budget);
      var before := |got|;
      got := got + came;
      if !more || |got| == before {
        return;
      }
    }
  }

  // One request and its response, over the wire.
  method AskPage(cls: Octet, scope: Scope, names: seq<Text>, got: seq<Text>, budget: nat)
      returns (page: seq<Text>, more: bool)
    requires cls < 128 && |ScopeTlv(scope).raw| < TWO32
    requires DistinctButLast(names) && FitsPdu(names, budget)
    requires |got| <= |names| && got == names[..|got|] && (|got| == |names| ==> names == [])
    ensures (page, more) == Respond(names, got, budget)
  {
    RequestRoundTrip(cls, scope, After(got));
    var request := ParseRequest(EncodeRequest(cls, scope, After(got))).value;
    var list, follows := ListPage(names, request.after, budget);
    ghost var n := NextPage(names, |got|, budget, follows);
    var decoded := DecodePage(EncodePage(list, follows)).value;
    return decoded.0, decoded.1;
  }

  // ----- which lists can be browsed

  datatype Browsing = Browsing(got: seq<Text>, done: bool) {
    // What the client makes of a response.
    function Take(response: (seq<Text>, bool)): Browsing {
      Browsing(got + response.0, !response.1 || response.0 == [])
    }
  }

  // The client after k responses.
  function Browse(names: seq<Text>, budget: nat, k: nat): Browsing {
    Repeat((b: Browsing) => BrowseOn(names, budget, b), Browsing([], false), k)
  }

  function Repeat(step: Browsing -> Browsing, b: Browsing, k: nat): Browsing {
    if k == 0 then b else step(Repeat(step, b, k - 1))
  }

  lemma {:induction false} RepeatKeeps(step: Browsing -> Browsing, b: Browsing, k: nat, holds: (nat, Browsing) -> bool)
    requires holds(0, b) && forall i: nat, c :: holds(i, c) ==> holds(i + 1, step(c))
    ensures holds(k, Repeat(step, b, k))
  {
    if k > 0 {
      RepeatKeeps(step, b, k - 1, holds);
    }
  }

  function BrowseOn(names: seq<Text>, budget: nat, b: Browsing): Browsing {
    if b.done then b else b.Take(Respond(names, b.got, budget))
  }

  // What a browse has got: the first names, all of them when it is done, and one more at every response.
  predicate Got(names: seq<Text>, k: nat, b: Browsing) {
    && |b.got| <= |names| && b.got == names[..|b.got|]
    && (if b.done then |b.got| == |names| else if k == 0 then b.got == [] else k <= |b.got| < |names|)
  }

  lemma GotMore(names: seq<Text>, budget: nat, k: nat, b: Browsing)
    requires DistinctButLast(names) && Got(names, k, b)
    ensures Got(names, k + 1, BrowseOn(names, budget, b))
  {
    if !b.done {
      var m := |b.got|;
      if m < |names| {
        var n := RespondAt(names, m, budget);
        Continue(names, m, n);
        assert BrowseOn(names, budget, b) == Browsing(names[..m + n], m + n == |names|);
      } else {
        assert names == [] && b == Browsing([], false);
        RespondEmpty(budget);
        assert BrowseOn(names, budget, b) == Browsing([], true);
      }
    }
  }

  // With all names but the last distinct, at most one response per name (or a single empty one) finishes
  // the browse with exactly the server's list, at any budget.
  lemma BrowsePrefix(names: seq<Text>, budget: nat, k: nat)
    requires DistinctButLast(names)
    ensures Got(names, k, Browse(names, budget, k))
  {
    forall i: nat, c | Got(names, i, c)
      ensures Got(names, i + 1, BrowseOn(names, budget, c))
    {
      GotMore(names, budget, i, c);
    }
    RepeatKeeps((b: Browsing) => BrowseOn(names, budget, b), Browsing([], false), k,
                (i: nat, c: Browsing) => Got(names, i, c));
  }

  lemma BrowseCompletes(names: seq<Text>, budget: nat)
    requires DistinctButLast(names)
    ensures Browse(names, budget, |names| + 1) == Browsing(names, true)
  {
    BrowsePrefix(names, budget, |names| + 1);
    assert names[..|names|] == names;
  }

  predicate AtOrBefore(names: seq<Text>, j: nat, a: Text) {
    exists p :: 0 <= p <= j && p < |names| && names[p] == a
  }

  // From a name up to a repeat, a one-name page leads to a name up to that repeat again.
  lemma TrappedPage(names: seq<Text>, i: nat, j: nat, after: Option<Text>) returns (a: Text)
    requires i < j < |names| - 1 && names[i] == names[j]
    requires after.Some? ==> AtOrBefore(names, j, after.value)
    ensures Page(names, after, 0) == ([a], true) && AtOrBefore(names, j, a)
  {
    var q := 0;
    if after.Some? {
      var p :| 0 <= p <= j && p < |names| && names[p] == after.value;
      var first := IndexOf(names, after.value).value;
      assert first <= p && (p == j ==> first <= i);
      q := first + 1;
    } else {
      assert names[0..] == names;
    }
    var rest := names[q..];
    assert Rest(names, after) == rest;
    OnePerPage(rest);
    a := names[q];
  }

  // A browse that has not got past the repeat at j.
  predicate Trapped(names: seq<Text>, j: nat, b: Browsing) {
    !b.done && match After(b.got) case Some(a) => AtOrBefore(names, j, a) case None => true
  }

  lemma StaysTrapped(names: seq<Text>, i: nat, j: nat, b: Browsing)
    requires i < j < |names| - 1 && names[i] == names[j] && Trapped(names, j, b)
    ensures Trapped(names, j, BrowseOn(names, 0, b))
  {
    var a := TrappedPage(names, i, j, After(b.got));
    assert BrowseOn(names, 0, b) == Browsing(b.got + [a], false);
  }

  // With a repeated name before the last and room for one name per page, the client never gets past it.
  lemma BrowseTrapped(names: seq<Text>, i: nat, j: nat, k: nat)
    requires i < j < |names| - 1 && names[i] == names[j]
    ensures Trapped(names, j, Browse(names, 0, k))
  {
    var step, holds := (b: Browsing) => BrowseOn(names, 0, b), (n: nat, c: Browsing) => Trapped(names, j, c);
    forall n: nat, c | holds(n, c)
      ensures holds(n + 1, step(c))
    {
      StaysTrapped(names, i, j, c);
    }
    RepeatKeeps(step, Browsing([], false), k, holds);
  }

  lemma OnePerPage(rest: seq<Text>)
    requires |rest| > 1
    ensures PageSize(rest, 0) == 1 && rest[..1] == [rest[0]]
  {
  }

  // The browse ends with exactly the server's list.
  ghost predicate Completes(names: seq<Text>, budget: nat) {
    exists k: nat :: Browse(names, budget, k) == Browsing(names, true)
  }

  // Browsing is complete at every budget if and only if all names but the last are distinct; otherwise a
  // budget of zero never ends.
  lemma BrowsableExactly(names: seq<Text>)
    ensures (forall budget: nat :: Completes(names, budget)) <==> DistinctButLast(names)
    ensures !DistinctButLast(names) ==> forall k: nat :: !Browse(names, 0, k).done
  {
    if DistinctButLast(names) {
      forall budget: nat
        ensures Completes(names, budget)
      {
        BrowseCompletes(names, budget);
      }
    } else {
      var i, j :| 0 <= i < j < |names| - 1 && names[i] == names[j];
      forall k: nat
        ensures !Browse(names, 0, k).done
      {
        BrowseTrapped(names, i, j, k);
      }
      assert !Completes(names, 0);
    }
  }

  // ----- the octets on the wire

  lemma ListRequestOctets(cls: Octet, d: Text, a: Text)
    ensures EncodeRequest(cls, VmdScope, None) == [0xa0, 3, 0x80, 1, cls] + [0xa1, 2, 0x80, 0]
    ensures EncodeRequest(cls, AaScope, None) == [0xa0, 3, 0x80, 1, cls] + [0xa1, 2, 0x82, 0]
    ensures EncodeRequest(cls, DomainScope(d), Some(a))
            == [0xa0, 3, 0x80, 1, cls] + (OctetTagged(0xa1, OctetTagged(0x81, d)) + OctetTagged(0x82, a))
  {
    ShortFrames(cls);
    OneOctetTag(2, false, 1, d);
    OneOctetTag(2, true, 1, OctetTagged(0x81, d));
    OneOctetTag(2, false, 2, a);
  }

  lemma PageOctets(list: Bytes, more: bool)
    ensures EncodePage(list, more) == OctetTagged(0xa1, OctetTagged(0xa0, list) + [0x81, 1, if more then 0xff else 0])
  {
    OneOctetTag(2, true, 0, list);
    FlagOctets(more);
    OneOctetTag(2, true, 1, Cc(0, list) + Cp(1, BoolBytes(more)));
  }

  lemma FlagOctets(more: bool)
    ensures Cp(1, BoolBytes(more)) == [0x81, 1, if more then 0xff else 0]
  {
    OneOctetTag(2, false, 1, BoolBytes(more));
  }

  lemma ShortFrames(cls: Octet)
    ensures Cc(0, Cp(0, [cls])) == [0xa0, 3, 0x80, 1, cls]
    ensures Cc(1, Cp(0, [])) == [0xa1, 2, 0x80, 0] && Cc(1, Cp(2, [])) == [0xa1, 2, 0x82, 0]
  {
    OneOctetTag(2, false, 0, [cls]);
    OneOctetTag(2, true, 0, [0x80, 1, cls]);
    OneOctetTag(2, false, 0, []);
    OneOctetTag(2, true, 1, [0x80, 0]);
    OneOctetTag(2, false, 2, []);
    OneOctetTag(2, true, 1, [0x82, 0]);
  }

  // A response fits the PDU of which 32 octets are set aside, unless its one name does not.
  lemma ResponseFits(rest: seq<Text>, maxPdu: nat, more: bool)
    requires rest != [] && |VisibleString(rest[0])| + 32 <= maxPdu
    ensures |EncodePage(Strings(rest[..PageSize(rest, maxPdu - 32)]), more)| + 8 <= maxPdu
  {
    PageFits(rest, maxPdu - 32);
    HeaderShort(Strings(rest[..PageSize(rest, maxPdu - 32)]), more);
  }
}
