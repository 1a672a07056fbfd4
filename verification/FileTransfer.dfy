// Reading a file over the wire: the client's file_read (adapters/iec61850-rust/src/bin/mms_client.rs)
// against the server's file services, while other associations change the store.
module FileTransfer {
  import opened Octets
  import opened Ber
  import opened BerIntegers
  import opened GeneralizedTime
  import opened TimeFormat
  import opened MmsRequests
  import opened FileSessions

  // ----- requests and replies

  function OpenRequest(name: Text, pos: nat): Bytes {
    Cc(0, FileName(name)) + Cp(1, UintBytes(pos))
  }

  lemma OpenRequestRoundTrip(name: Text, pos: nat)
    requires |FileName(name)| < TWO32 && pos < TWO32
    ensures ParseOpen(OpenRequest(name, pos)) == Some((name, pos))
  {
    var tail := Cp(1, UintBytes(pos));
    OptCtxMade(true, 0, FileName(name), tail, true, 0);
    OptCtxMade(false, 1, UintBytes(pos), [], false, 1);
    assert tail + [] == tail;
    FileNameRoundTrip(name);
    UintRoundTrip(pos);
  }

  function Attributes(f: FileEnt): Bytes {
    Cp(0, UintBytes(U64(|f.data|))) + Cp(1, GenTime(f.mtime))
  }

  function OpenReply(id: int, f: FileEnt): Bytes {
    Cc(72, Cp(0, IntBytes(id)) + Cc(1, Attributes(f)))
  }

  // What the client takes from the reply: the last of each field, or 0.
  datatype Opening = Opening(frsm: int, size: nat, mtime: int)

  function OpeningOf(id: int, f: FileEnt): Opening {
    Opening(id, U64(|f.data|), ParseGenTime(GenTime(f.mtime)).GetOr(0))
  }

  function Attribute(o: Opening, a: Tlv): Opening {
    if a.num == 0 then o.(size := ParseUint(a.val))
    else if a.num == 1 then o.(mtime := ParseGenTime(a.val).GetOr(0))
    else o
  }

  function AttributesOf(o: Opening, ts: seq<Tlv>): Opening {
    if ts == [] then o else Attribute(AttributesOf(o, ts[..|ts| - 1]), ts[|ts| - 1])
  }

  function Field(o: Opening, x: Tlv): Opening {
    if x.Ctx(false, 0) then o.(frsm := ParseInt(x.val))
    else if x.Ctx(true, 1) then AttributesOf(o, Children(x.val))
    else o
  }

  function FieldsIn(ts: seq<Tlv>): Opening {
    if ts == [] then Opening(0, 0, 0) else Field(FieldsIn(ts[..|ts| - 1]), ts[|ts| - 1])
  }

  function DecodeOpen(resp: Bytes): Opening {
    match Read(resp)
    case None => Opening(0, 0, 0)
    case Some((t, _)) => FieldsIn(Children(t.val))
  }

  // Fields and attributes that the client does not know are passed over, and a reply it cannot read has none.
  lemma UnknownFields(o: Opening, a: Tlv, x: Tlv, resp: Bytes)
    ensures a.num > 1 ==> Attribute(o, a) == o
    ensures !x.Ctx(false, 0) && !x.Ctx(true, 1) ==> Field(o, x) == o
    ensures Read(resp) == None ==> DecodeOpen(resp) == Opening(0, 0, 0) && DecodeChunk(resp) == None
  {
  }

  method ReadAttributes(before: Opening, attrs: seq<Tlv>) returns (o: Opening)
    ensures o == AttributesOf(before, attrs)
  {
    o := before;
    for j := 0 to |attrs|
      invariant o == AttributesOf(before, attrs[..j])
    {
      assert attrs[..j + 1][..j] == attrs[..j];
      o := Attribute(o, attrs[j]);
    }
    assert attrs[..|attrs|] == attrs;
  }

  method ReadOpening(resp: Bytes) returns (o: Opening)
    ensures o == DecodeOpen(resp)
  {
    o := Opening(0, 0, 0);
    var r := ReadTlv(resp);
    if r.None? {
      return;
    }
    var ts := Children(r.value.0.val);
    for i := 0 to |ts|
      invariant o == FieldsIn(ts[..i])
    {
      assert ts[..i + 1][..i] == ts[..i];
      var x := ts[i];
      if x.Ctx(false, 0) {
        o := o.(frsm := ParseInt(x.val));
      } else if x.Ctx(true, 1) {
        o := ReadAttributes(o, Children(x.val));
      }
    }
    assert ts[..|ts|] == ts;
  }

  function ChunkReply(data: Bytes, more: bool): Bytes {
    Cc(73, Cp(0, data) + Cp(1, BoolBytes(more)))
  }

  // A missing chunk counts as empty, a missing moreFollows as true.
  function ChunkFields(val: Bytes): (Bytes, bool) {
    var (x, c) := OptCtx(Open(val), false, 0);
    var (m, _) := OptCtx(c, false, 1);
    (if x.Some? then x.value.val else [], m.None? || m.value.Bool())
  }

  function DecodeChunk(resp: Bytes): Option<(Bytes, bool)> {
    match Read(resp)
    case None => None
    case Some((t, _)) => Some(ChunkFields(t.val))
  }

  lemma ChunkFieldsMade(data: Bytes, more: bool)
    requires |data| < TWO32
    ensures ChunkFields(Cp(0, data) + Cp(1, BoolBytes(more))) == (data, more)
  {
    var tail := Cp(1, BoolBytes(more));
    OptCtxMade(false, 0, data, tail, false, 0);
    OptCtxMade(false, 1, BoolBytes(more), [], false, 1);
    assert tail + [] == tail;
  }

  lemma ChunkReplyRoundTrip(data: Bytes, more: bool)
    requires |data| <= 65000
    ensures DecodeChunk(ChunkReply(data, more)) == Some((data, more))
  {
    var content := Cp(0, data) + Cp(1, BoolBytes(more));
    assert |content| < TWO32;
    EncodeRead(CTX, true, 73, content, []);
    assert Cc(73, content) + [] == Cc(73, content);
    ChunkFieldsMade(data, more);
  }

  // A reply without moreFollows says that more follows; with it, its first octet does, unless that is 0. A reply
  // without data has none.
  lemma ChunkByDefault(data: Bytes, flag: Bytes)
    requires |data| < TWO32 && |flag| < TWO32
    ensures ChunkFields([]) == ([], true) && ChunkFields(Cp(0, data)) == (data, true)
    ensures ChunkFields(Cp(0, data) + Cp(1, flag)) == (data, flag != [] && flag[0] != 0)
  {
    OptCtxEnd(false, 0);
    OptCtxEnd(false, 1);
    OptCtxMade(false, 0, data, [], false, 0);
    assert Cp(0, data) + [] == Cp(0, data);
    OptCtxMade(false, 0, data, Cp(1, flag), false, 0);
    OptCtxMade(false, 1, flag, [], false, 1);
    assert Cp(1, flag) + [] == Cp(1, flag);
  }

  lemma AttributesMade(o: Opening, f: FileEnt)
    requires -TWO63 <= f.mtime < TWO63
    ensures AttributesOf(o, Children(Attributes(f))) == OpeningOf(o.frsm, f)
  {
    GenTimeShort(f.mtime);
    var size, time := Made(CTX, false, 0, UintBytes(U64(|f.data|))), Made(CTX, false, 1, GenTime(f.mtime));
    ChildrenCons(CTX, false, 0, UintBytes(U64(|f.data|)), time.raw);
    NextLast(CTX, false, 1, GenTime(f.mtime));
    UintRoundTrip(U64(|f.data|));
    TwoAttributes(o, size, time);
  }

  lemma TwoAttributes(o: Opening, a: Tlv, b: Tlv)
    ensures AttributesOf(o, [a] + [b]) == Attribute(Attribute(o, a), b)
  {
    assert ([a] + [b])[..1] == [a];
    assert [a][..0] == [];
    assert AttributesOf(o, [a]) == Attribute(AttributesOf(o, []), a);
  }

  lemma TwoFields(a: Tlv, b: Tlv)
    ensures FieldsIn([a] + [b]) == Field(Field(Opening(0, 0, 0), a), b)
  {
    assert ([a] + [b])[..1] == [a];
    assert [a][..0] == [];
    assert FieldsIn([a]) == Field(FieldsIn([]), a);
  }

  // The client learns the id, the size and the time of modification.
  lemma OpenReplyRoundTrip(id: int, f: FileEnt)
    requires IsI64(id) && -TWO63 <= f.mtime < TWO63
    ensures DecodeOpen(OpenReply(id, f)) == OpeningOf(id, f)
  {
    var frsm, attrs := Made(CTX, false, 0, IntBytes(id)), Made(CTX, true, 1, Attributes(f));
    var content := frsm.raw + attrs.raw;
    AttributesShort(f);
    EncodeRead(CTX, true, 72, content, []);
    assert Cc(72, content) + [] == Cc(72, content);
    ChildrenCons(CTX, false, 0, IntBytes(id), attrs.raw);
    NextLast(CTX, true, 1, Attributes(f));
    IntRoundTrip(id);
    TwoFields(frsm, attrs);
    AttributesMade(Opening(id, 0, 0), f);
  }

  lemma AttributesShort(f: FileEnt)
    requires -TWO63 <= f.mtime < TWO63
    ensures |Attributes(f)| < TWO32 / 2
  {
    GenTimeShort(f.mtime);
  }

  // ----- the client

  datatype Download = Download(data: Bytes, size: nat, mtime: int)

  function Wanted(files: Files, name: Text, pos: nat): Result<Download, SvcErr> {
    match FileAt(files, name, pos)
    case Err(e) => Err(e)
    case Ok(f) => Ok(Download(f.data[pos..], OpeningOf(0, f).size, OpeningOf(0, f).mtime))
  }

  // What there is to want, in terms of the file: its octets from the position on, their number in all, and the
  // time it was modified if that is in a year of four digits.
  lemma WantedMeaning(files: Files, k: nat, name: Text, pos: nat)
    requires Relative(name)
    ensures var r := Wanted(files, Slashes(k) + name, pos);
            if name !in files then r == Err(File(7))
            else if |files[name].data| < pos then r == Err(File(5))
            else
              && r.Ok? && r.value.data == files[name].data[pos..]
              && (|files[name].data| < TWO64 ==> r.value.size == |files[name].data|)
              && (0 <= StampOf(files[name].mtime).date.year < 10000 ==> r.value.mtime == files[name].mtime)
              && (StampOf(files[name].mtime).date.year < 0 ==> r.value.mtime == 0)
  {
    TrimmedName(k, name);
    if name in files {
      GenRoundTripExact(files[name].mtime);
    }
  }

  lemma ShortLength(n: nat)
    requires n < 65536
    ensures |PutLen(n)| <= 3
  {
    Pow256Values();
    WordBack(n, 4);
    DropZerosShort(ToBE(n, 4), 2);
  }

  // Encoded, a reply takes at most 12 octets more than its data.
  lemma ChunkReplyLength(data: Bytes, more: bool)
    requires |data| <= 65000
    ensures |ChunkReply(data, more)| <= |data| + 12
  {
    ShortLength(|data|);
    ShortLength(|Cp(0, data) + Cp(1, BoolBytes(more))|);
    assert Groups(0) == [];
    assert |Tag(CTX, true, 73)| == 2;
  }

  // So whatever the file, the reply to a read fits the negotiated PDU, with 20 octets to spare for what goes
  // around it.
  lemma ReadReplyFits(maxPdu: nat, s: Sessions, val: Bytes)
    requires s.Valid() && ParseInt(val) in s.open && maxPdu > 32
    ensures var r := ReadService(ChunkSize(maxPdu), s, val).0;
            r.Ok? && |ChunkReply(r.value.0, r.value.1)| + 20 <= maxPdu
  {
    ChunkFits(maxPdu, s, val);
    var r := ReadService(ChunkSize(maxPdu), s, val).0;
    ChunkReplyLength(r.value.0, r.value.1);
  }

  // What the client learns, and the sessions, when it opens a file.
  function BeginAs(files: Files, s: Sessions, name: Text, pos: nat): (Result<Opening, SvcErr>, Sessions) {
    match FileAt(files, name, pos)
    case Err(e) => (Err(e), s)
    case Ok(f) => (Ok(OpeningOf(s.next, f)), Sessions(s.open[s.next := OpenFile(f.data, pos)], s.next + 1))
  }

  lemma BeginParts(files: Files, s: Sessions, val: Bytes, name: Text, pos: nat)
    requires ParseOpen(val) == Some((name, pos))
    ensures var (r, t) := OpenService(files, s, val);
            BeginAs(files, s, name, pos) == (match r case Err(e) => Err(e) case Ok(x) => Ok(OpeningOf(x.0, x.1)), t)
    ensures var r := OpenService(files, s, val).0;
            r.Ok? ==> r.value.0 == s.next && exists n :: n in files && files[n] == r.value.1
  {
  }

  lemma BeginWanted(files: Files, s: Sessions, name: Text, pos: nat)
    requires s.Valid()
    ensures var (r, t) := BeginAs(files, s, name, pos);
            && t.Valid() && t.next == s.next + (if r.Ok? then 1 else 0)
            && match r
               case Err(e) => Wanted(files, name, pos) == Err(e) && t.open == s.open
               case Ok(o) =>
                 && o.frsm == s.next && s.next in t.open && t.open - {s.next} == s.open
                 && t.open[s.next].pos == pos
                 && Wanted(files, name, pos) == Ok(Download(t.open[s.next].data[pos..], o.size, o.mtime))
  {
    var r := FileAt(files, name, pos);
    if r.Ok? {
      OpenedSession(s, r.value.data, pos);
    }
  }

  lemma OpenedSession(s: Sessions, data: Bytes, pos: nat)
    requires s.Valid() && pos <= |data|
    ensures var t := Sessions(s.open[s.next := OpenFile(data, pos)], s.next + 1);
            t.Valid() && t.open - {s.next} == s.open
  {
  }

  // The opening request, over the wire.
  method Begin(a: FileAssoc, name: Text, pos: nat) returns (r: Result<Opening, SvcErr>)
    requires IsI64(a.nextFrsm) && pos < TWO32 && |FileName(name)| < TWO32
    requires forall n :: n in a.store.files ==> -TWO63 <= a.store.files[n].mtime < TWO63
    modifies a
    ensures (r, a.View()) == BeginAs(a.store.files, old(a.View()), name, pos)
  {
    var val := OpenRequest(name, pos);
    OpenRequestRoundTrip(name, pos);
    BeginParts(a.store.files, a.View(), val, name, pos);
    var o := a.FileOpen(val);
    if o.Err? {
      return Err(o.error);
    }
    var (id, f) := o.value;
    OpenReplyRoundTrip(id, f);
    var opening := ReadOpening(OpenReply(id, f));
    return Ok(opening);
  }

  // One read request, over the wire.
  method ReadPart(a: FileAssoc, frsm: int) returns (chunk: Bytes, more: bool)
    requires a.View().Valid() && IsI64(frsm) && frsm in a.open
    modifies a`open
    ensures a.View().Valid()
    ensures var f := old(a.open)[frsm];
            var end := Min(f.pos + ChunkSize(a.maxPdu), |f.data|);
            && chunk == f.data[f.pos..end] && (more <==> end < |f.data|)
            && a.open == old(a.open)[frsm := OpenFile(f.data, end)]
  {
    ReadAnswer(ChunkSize(a.maxPdu), a.View(), frsm);
    var part := a.FileRead(IntBytes(frsm));
    chunk, more := OverTheWire(part.value.0, part.value.1);
  }

  method OverTheWire(data: Bytes, follows: bool) returns (chunk: Bytes, more: bool)
    requires |data| <= 65000
    ensures chunk == data && more == follows
  {
    ChunkReplyRoundTrip(data, follows);
    var fields := DecodeChunk(ChunkReply(data, follows)).value;
    return fields.0, fields.1;
  }

  lemma ReadAnswer(chunk: nat, s: Sessions, frsm: int)
    requires s.Valid() && chunk <= 65000 && IsI64(frsm) && frsm in s.open
    ensures var f := s.open[frsm];
            var end := Min(f.pos + chunk, |f.data|);
            var after := s.(open := s.open[frsm := OpenFile(f.data, end)]);
            && ReadService(chunk, s, IntBytes(frsm)) == (Ok((f.data[f.pos..end], end < |f.data|)), after)
            && |f.data[f.pos..end]| <= 65000 && after.Valid()
  {
    IntRoundTrip(frsm);
  }

  lemma Pushed(data: Bytes, pos: nat, p: nat, end: nat)
    requires pos <= p <= end <= |data|
    ensures data[pos..p] + data[p..end] == data[pos..end]
  {
  }

  // The client's loop. Before its n-th request, others change the store by others(n). It ends, with the
  // octets from pos on as the file was when it was opened, and leaves no session behind.
  method ReadRemote(a: FileAssoc, name: Text, pos: nat, others: nat -> seq<StoreOp>)
      returns (r: Result<Download, SvcErr>)
    requires a.View().Valid() && IsI64(a.nextFrsm) && pos < TWO32 && |FileName(name)| < TWO32
    requires forall n :: n in ApplyAll(a.store.files, others(0)) ==>
               -TWO63 <= ApplyAll(a.store.files, others(0))[n].mtime < TWO63
    modifies a, a.store
    ensures r == Wanted(ApplyAll(old(a.store.files), others(0)), name, pos)
    ensures a.View() == Sessions(old(a.open), old(a.nextFrsm) + if r.Ok? then 1 else 0)
  {
    a.store.Run(others(0));
    r := Fetch(a, name, pos, others);
  }

  // The loop, from the opening request on.
  method Fetch(a: FileAssoc, name: Text, pos: nat, others: nat -> seq<StoreOp>) returns (r: Result<Download, SvcErr>)
    requires a.View().Valid() && IsI64(a.nextFrsm) && pos < TWO32 && |FileName(name)| < TWO32
    requires forall n :: n in a.store.files ==> -TWO63 <= a.store.files[n].mtime < TWO63
    modifies a, a.store
    ensures r == Wanted(old(a.store.files), name, pos)
    ensures a.View() == Sessions(old(a.open), old(a.nextFrsm) + if r.Ok? then 1 else 0)
  {
    BeginWanted(a.store.files, a.View(), name, pos);
    var o := Begin(a, name, pos);
    if o.Err? {
      return Err(o.error);
    }
    var d := Collect(a, o.value, others);
    return Ok(d);
  }

  method Collect(a: FileAssoc, o: Opening, others: nat -> seq<StoreOp>) returns (d: Download)
    requires a.View().Valid() && IsI64(o.frsm) && o.frsm in a.open
    modifies a`open, a.store
    ensures var f := old(a.open)[o.frsm]; d == Download(f.data[f.pos..], o.size, o.mtime)
    ensures a.open == old(a.open) - {o.frsm}
  {
    var data := DrainSession(a, o.frsm, others);
    var _ := CloseSession(a, o.frsm);
    d := Download(data, o.size, o.mtime);
  }

  // The read requests of a session, until no more follow.
  method DrainSession(a: FileAssoc, frsm: int, others: nat -> seq<StoreOp>) returns (data: Bytes)
    requires a.View().Valid() && IsI64(frsm) && frsm in a.open
    modifies a`open, a.store
    ensures a.View().Valid()
    ensures var f := old(a.open)[frsm];
            data == f.data[f.pos..] && a.open == old(a.open)[frsm := OpenFile(f.data, |f.data|)]
  {
    data := [];
    var n := 1;
    ghost var f := a.open[frsm];
    ghost var p := f.pos;
    while true
      invariant a.View().Valid() && f.pos <= p <= |f.data| && data == f.data[f.pos..p]
      invariant a.open == old(a.open)[frsm := OpenFile(f.data, p)]
      decreases |f.data| - p
    {
      a.store.Run(others(n));
      n := n + 1;
      var chunk, more := ReadPart(a, frsm);
      ghost var end := Min(p + ChunkSize(a.maxPdu), |f.data|);
      Pushed(f.data, f.pos, p, end);
      p := end;
      data := data + chunk;
      if !more || chunk == [] {
        return;
      }
    }
  }

  method CloseSession(a: FileAssoc, frsm: int) returns (err: Option<SvcErr>)
    requires IsI64(frsm)
    modifies a`open
    ensures a.open == old(a.open) - {frsm} && (err.None? <==> frsm in old(a.open))
  {
    IntRoundTrip(frsm);
    err := a.FileClose(IntBytes(frsm));
  }

  // ----- the octets on the wire

  lemma FileRequestOctets(name: Text, to: Text, pos: nat)
    ensures FileName(name) == OctetTagged(0x19, name)
    ensures OpenRequest(name, pos) == OctetTagged(0xa0, OctetTagged(0x19, name)) + OctetTagged(0x81, UintBytes(pos))
    ensures RenameRequest(name, to)
            == OctetTagged(0xa0, OctetTagged(0x19, name)) + OctetTagged(0xa1, OctetTagged(0x19, to))
  {
    OneOctetTag(0, false, 25, name);
    OneOctetTag(0, false, 25, to);
    OneOctetTag(2, true, 0, FileName(name));
    OneOctetTag(2, true, 1, FileName(to));
    OneOctetTag(2, false, 1, UintBytes(pos));
  }

  lemma OpenReplyOctets(id: int, f: FileEnt)
    ensures var attributes := OctetTagged(0x80, UintBytes(U64(|f.data|))) + OctetTagged(0x81, GenTime(f.mtime));
            var body := OctetTagged(0x80, IntBytes(id)) + OctetTagged(0xa1, attributes);
            OpenReply(id, f) == [0xbf, 72] + PutLen(|body|) + body
  {
    OneOctetTag(2, false, 0, UintBytes(U64(|f.data|)));
    OneOctetTag(2, false, 1, GenTime(f.mtime));
    OneOctetTag(2, false, 0, IntBytes(id));
    OneOctetTag(2, true, 1, Attributes(f));
    TwoOctetTag(72, Cp(0, IntBytes(id)) + Cc(1, Attributes(f)));
  }

  lemma ChunkReplyOctets(data: Bytes, more: bool)
    ensures var body := OctetTagged(0x80, data) + [0x81, 1, if more then 0xff else 0];
            ChunkReply(data, more) == [0xbf, 73] + PutLen(|body|) + body
  {
    OneOctetTag(2, false, 0, data);
    OneOctetTag(2, false, 1, BoolBytes(more));
    assert PutLen(1) == [1];
    TwoOctetTag(73, Cp(0, data) + Cp(1, BoolBytes(more)));
  }
}
