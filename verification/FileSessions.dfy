// File services: the server's file_open, file_read, file_close, file_delete, file_rename and the insertion
// of obtain_file (adapters/iec61850-rust/src/bin/mms_server.rs), and the client's file_read loop
// (adapters/iec61850-rust/src/bin/mms_client.rs).
module FileSessions {
  import opened Octets
  import opened Ber
  import opened BerIntegers
  import opened MmsRequests

  datatype FileEnt = FileEnt(data: Bytes, mtime: int)

  type Files = map<Text, FileEnt>

  datatype OpenFile = OpenFile(data: Bytes, pos: nat)

  const FILE_OTHER: SvcErr := File(0)
  const FILE_POSITION_INVALID: SvcErr := File(5)
  const FILE_NON_EXISTENT: SvcErr := File(7)
  const SLASH: Octet := 47

  // ----- file names

  function TrimSlashes(name: Text): (r: Text)
    ensures |r| <= |name| && (r == [] || r[0] != SLASH)
  {
    if name != [] && name[0] == SLASH then TrimSlashes(name[1..]) else name
  }

  // A name that does not begin with a slash, and any number of slashes.
  predicate Relative(name: Text) {
    name == [] || name[0] != 47
  }

  function Slashes(k: nat): (s: Text)
    ensures |s| == k
  {
    seq(k, _ => 47)
  }

  // Every name is some slashes and then a name without one in front, and that name is what is left of it.
  lemma {:induction false} TrimmedName(k: nat, name: Text)
    requires Relative(name)
    ensures TrimSlashes(Slashes(k) + name) == name
  {
    var whole := Slashes(k) + name;
    if k == 0 {
      assert whole == name;
    } else {
      assert whole[1..] == Slashes(k - 1) + name;
      TrimmedName(k - 1, name);
    }
  }

  lemma {:induction false} SlashesFirst(name: Text) returns (k: nat)
    ensures k <= |name| && Relative(name[k..]) && name == Slashes(k) + name[k..]
  {
    k := 0;
    if name != [] && name[0] == 47 {
      var n := SlashesFirst(name[1..]);
      k := n + 1;
      assert name[1..][n..] == name[k..];
      assert name == [name[0]] + name[1..] == Slashes(k) + name[k..];
    }
  }

  function FileName(s: Text): Bytes {
    Encode(UNIV, false, 25, s)
  }

  // The parts that the cursor still yields, joined after s; None when it meets a malformed TLV.
  function JoinParts(s: Text, c: Cursor): Option<Text>
    decreases |c.rest|
  {
    var (t, c') := Next(c);
    match t
    case None => if c'.bad then None else Some(s)
    case Some(part) => JoinParts(s + part.val, c')
  }

  // The same once the next part has been read.
  function JoinPending(s: Text, t: Option<Tlv>, c: Cursor): Option<Text> {
    match t
    case None => if c.bad then None else Some(s)
    case Some(part) => JoinParts(s + part.val, c)
  }

  lemma JoinNext(s: Text, c: Cursor, t: Option<Tlv>, c': Cursor)
    requires (t, c') == Next(c)
    ensures JoinParts(s, c) == JoinPending(s, t, c')
    ensures t.Some? ==> |c'.rest| < |c.rest|
  {
  }

  function ParseFileName(content: Bytes): Option<Text> {
    JoinParts([], Open(content))
  }

  method ReadFileName(content: Bytes) returns (r: Option<Text>)
    ensures r == ParseFileName(content)
  {
    var s: Text := [];
    var reader := new Reader(content);
    var t := reader.NextTlv();
    JoinNext(s, Open(content), t, reader.View());
    while t.Some?
      invariant reader.Valid() && ParseFileName(content) == JoinPending(s, t, reader.View())
      decreases t.Some?, |reader.View().rest|
    {
      ghost var c := reader.View();
      s := s + t.value.val;
      t := reader.NextTlv();
      JoinNext(s, c, t, reader.View());
    }
    r := if reader.bad then None else Some(s);
  }

  lemma FileNameRoundTrip(s: Text)
    requires |s| < TWO32
    ensures ParseFileName(FileName(s)) == Some(s)
  {
    NextLast(UNIV, false, 25, s);
    assert [] + s == s;
    assert JoinParts(s, Open([])) == Some(s);
  }

  // The contents of TLVs, one after the other.
  function Joined(ts: seq<Tlv>): Text {
    if ts == [] then [] else ts[0].val + Joined(ts[1..])
  }

  // A name may come in any number of parts, which are joined whatever their tags; it is refused exactly when
  // one is malformed.
  lemma NameOfParts(content: Bytes)
    ensures ParseFileName(content) == if Clean(content) then Some(Joined(Children(content))) else None
  {
    JoinedParts([], content);
    assert [] + Joined(Children(content)) == Joined(Children(content));
  }

  lemma {:induction false} JoinedParts(s: Text, content: Bytes)
    ensures JoinParts(s, Open(content)) == if Clean(content) then Some(s + Joined(Children(content))) else None
    decreases |content|
  {
    var (t, c) := Next(Open(content));
    if t.Some? {
      JoinedParts(s + t.value.val, c.rest);
      assert c == Open(c.rest) && Children(content) == [t.value] + Children(c.rest);
      assert s + t.value.val + Joined(Children(c.rest)) == s + (t.value.val + Joined(Children(c.rest)));
    } else {
      assert s + [] == s;
    }
  }

  // ----- the file store, shared by all associations

  // FileDelete: the refusal, if any, and the files afterwards.
  function DeleteFile(files: Files, val: Bytes): (Option<SvcErr>, Files) {
    match ParseFileName(val)
    case None => (Some(InvalidArgument), files)
    case Some(n) =>
      var name := TrimSlashes(n);
      if name in files then (None, files - {name}) else (Some(FILE_NON_EXISTENT), files)
  }

  function ParseRename(val: Bytes): Option<(Text, Text)> {
    var (f, c) := OptCtx(Open(val), true, 0);
    var (t, _) := OptCtx(c, true, 1);
    if f.None? || t.None? then None
    else
      match (ParseFileName(f.value.val), ParseFileName(t.value.val))
      case (Some(from), Some(to)) => Some((TrimSlashes(from), TrimSlashes(to)))
      case _ => None
  }

  // FileRename: a file already of the new name is replaced.
  function RenameFile(files: Files, val: Bytes): (Option<SvcErr>, Files) {
    match ParseRename(val)
    case None => (Some(InvalidArgument), files)
    case Some((from, to)) =>
      if from in files then (None, Moved(files, from, to)) else (Some(FILE_NON_EXISTENT), files)
  }

  function Moved(files: Files, from: Text, to: Text): (r: Files)
    requires from in files
    ensures to in r
  {
    (files - {from})[to := files[from]]
  }

  // What any association may do to the store.
  datatype StoreOp = Delete(val: Bytes) | Rename(val: Bytes) | Obtain(destination: Text, file: FileEnt)

  function Apply(files: Files, op: StoreOp): Files {
    match op
    case Delete(val) => DeleteFile(files, val).1
    case Rename(val) => RenameFile(files, val).1
    case Obtain(to, file) => files[TrimSlashes(to) := file]
  }

  function ApplyAll(files: Files, ops: seq<StoreOp>): Files {
    if ops == [] then files else Apply(ApplyAll(files, ops[..|ops| - 1]), ops[|ops| - 1])
  }

  // ----- deleting and renaming, over the wire

  function RenameRequest(from: Text, to: Text): Bytes {
    Cc(0, FileName(from)) + Cc(1, FileName(to))
  }

  lemma RenameRequestRead(from: Text, to: Text)
    requires |FileName(from)| < TWO32 && |FileName(to)| < TWO32
    ensures ParseRename(RenameRequest(from, to)) == Some((TrimSlashes(from), TrimSlashes(to)))
  {
    var tail := Cc(1, FileName(to));
    OptCtxMade(true, 0, FileName(from), tail, true, 0);
    OptCtxMade(true, 1, FileName(to), [], true, 1);
    assert tail + [] == tail;
    FileNameRoundTrip(from);
    FileNameRoundTrip(to);
  }

  function Lookup(files: Files, name: Text): Option<FileEnt> {
    if name in files then Some(files[name]) else None
  }

  // A delete request is refused exactly when the file does not exist, and then nothing changes; otherwise it is
  // gone and every other file is as it was. Slashes before the name make no difference.
  lemma DeleteMeaning(files: Files, k: nat, name: Text, other: Text)
    requires Relative(name) && |FileName(Slashes(k) + name)| < TWO32
    ensures var (err, after) := DeleteFile(files, FileName(Slashes(k) + name));
            && err == (if name in files then None else Some(File(7)))
            && Lookup(after, other) == if other == name then None else Lookup(files, other)
  {
    FileNameRoundTrip(Slashes(k) + name);
    TrimmedName(k, name);
  }

  // A rename request moves the file: the old name is free, the new name has it, even over another file, and
  // every other file is as it was.
  lemma RenameMeaning(files: Files, k: nat, from: Text, l: nat, to: Text, other: Text)
    requires Relative(from) && |FileName(Slashes(k) + from)| < TWO32
    requires Relative(to) && |FileName(Slashes(l) + to)| < TWO32
    ensures var (err, after) := RenameFile(files, RenameRequest(Slashes(k) + from, Slashes(l) + to));
            && err == (if from in files then None else Some(File(7)))
            && Lookup(after, other) == if err.Some? then Lookup(files, other)
                                       else if other == to then Lookup(files, from)
                                       else if other == from then None else Lookup(files, other)
  {
    RenameRequestRead(Slashes(k) + from, Slashes(l) + to);
    TrimmedName(k, from);
    TrimmedName(l, to);
  }

  // A file that has been obtained is stored under the destination, over any file of that name.
  lemma ObtainMeaning(files: Files, k: nat, name: Text, file: FileEnt, other: Text)
    requires Relative(name)
    ensures Lookup(Apply(files, Obtain(Slashes(k) + name, file)), other)
            == if other == name then Some(file) else Lookup(files, other)
  {
    TrimmedName(k, name);
  }

  // Changes to the store take effect one after the other.
  lemma ChangesInOrder(files: Files, ops: seq<StoreOp>, op: StoreOp)
    ensures ApplyAll(files, []) == files && ApplyAll(files, ops + [op]) == Apply(ApplyAll(files, ops), op)
  {
    assert (ops + [op])[..|ops|] == ops;
  }

  lemma MalformedNames(content: Bytes, to: Text)
    requires !Clean(content) && |content| < TWO32 && |FileName(to)| < TWO32
    ensures ParseRename(Cc(0, content) + Cc(1, FileName(to))) == None
    ensures ParseRename(Cc(0, FileName(to)) + Cc(1, content)) == None
  {
    NameOfParts(content);
    OptCtxMade(true, 0, content, Cc(1, FileName(to)), true, 0);
    OptCtxMade(true, 0, FileName(to), Cc(1, content), true, 0);
    OptCtxMade(true, 1, content, [], true, 1);
    assert Cc(1, content) + [] == Cc(1, content);
  }

  lemma OneName(name: Text)
    requires |FileName(name)| < TWO32
    ensures ParseRename(Cc(0, FileName(name))) == None
  {
    OptCtxMade(true, 0, FileName(name), [], true, 0);
    assert Cc(0, FileName(name)) + [] == Cc(0, FileName(name));
    OptCtxEnd(true, 1);
  }

  // A request whose names are malformed, or missing, is refused and changes nothing.
  lemma MalformedRefused(files: Files, content: Bytes, to: Text)
    requires !Clean(content) && |content| < TWO32 && |FileName(to)| < TWO32
    ensures DeleteFile(files, content) == (Some(InvalidArgument), files)
    ensures RenameFile(files, Cc(0, content) + Cc(1, FileName(to))) == (Some(InvalidArgument), files)
    ensures RenameFile(files, Cc(0, FileName(to)) + Cc(1, content)) == (Some(InvalidArgument), files)
    ensures RenameFile(files, Cc(0, FileName(to))) == (Some(InvalidArgument), files)
  {
    NameOfParts(content);
    MalformedNames(content, to);
    OneName(to);
  }

  lemma MovedBack(files: Files, f: Text, t: Text)
    requires f in files
    ensures Moved(Moved(files, f, t), t, f) == files <==> t !in files || t == f
  {
    var back := Moved(Moved(files, f, t), t, f);
    if t in files && t != f {
      assert t !in back;
    } else {
      assert back == files;
    }
  }

  // Renaming back restores the store if and only if nothing was replaced.
  lemma RenameBackExactly(files: Files, from: Text, to: Text)
    requires Relative(from) && Relative(to) && from in files
    requires |FileName(from)| < TWO32 && |FileName(to)| < TWO32
    ensures var once := RenameFile(files, RenameRequest(from, to)).1;
            RenameFile(once, RenameRequest(to, from)).1 == files <==> to !in files || to == from
  {
    RenameRequestRead(from, to);
    RenameRequestRead(to, from);
    RelativeStays(from);
    RelativeStays(to);
    Renamed(files, RenameRequest(from, to), from, to);
    Renamed(Moved(files, from, to), RenameRequest(to, from), to, from);
    MovedBack(files, from, to);
  }

  lemma RelativeStays(name: Text)
    requires Relative(name)
    ensures TrimSlashes(name) == name
  {
    TrimmedName(0, name);
    assert Slashes(0) + name == name;
  }

  lemma Renamed(files: Files, val: Bytes, f: Text, t: Text)
    requires ParseRename(val) == Some((f, t)) && f in files
    ensures RenameFile(files, val) == (None, Moved(files, f, t))
  {
  }

  class Store {
    var files: Files

    constructor (files: Files)
      ensures this.files == files
    {
      this.files := files;
    }

    method FileDelete(val: Bytes) returns (err: Option<SvcErr>)
      modifies this
      ensures (err, files) == DeleteFile(old(files), val)
    {
      var n := ReadFileName(val);
      if n.None? {
        return Some(InvalidArgument);
      }
      var name := TrimSlashes(n.value);
      if name !in files {
        return Some(FILE_NON_EXISTENT);
      }
      files := files - {name};
      return None;
    }

    method FileRename(val: Bytes) returns (err: Option<SvcErr>)
      modifies this
      ensures (err, files) == RenameFile(old(files), val)
    {
      var names := ParseRename(val);
      if names.None? {
        return Some(InvalidArgument);
      }
      var (from, to) := names.value;
      if from !in files {
        return Some(FILE_NON_EXISTENT);
      }
      var f := files[from];
      files := files - {from};
      files := files[to := f];
      return None;
    }

    // The last step of ObtainFile, when the whole source file has come.
    method Insert(to: Text, file: FileEnt)
      modifies this
      ensures files == old(files)[TrimSlashes(to) := file]
    {
      files := files[TrimSlashes(to) := file];
    }

    method Run(ops: seq<StoreOp>)
      modifies this
      ensures files == ApplyAll(old(files), ops)
    {
      for i := 0 to |ops|
        invariant files == ApplyAll(old(files), ops[..i])
      {
        assert ops[..i + 1][..i] == ops[..i];
        match ops[i]
        case Delete(val) => var _ := FileDelete(val);
        case Rename(val) => var _ := FileRename(val);
        case Obtain(to, file) => Insert(to, file);
      }
      assert ops[..|ops|] == ops;
    }
  }

  // ----- sessions of one association

  // The open files by FRSM id, and the id of the next one.
  datatype Sessions = Sessions(open: map<int, OpenFile>, next: int) {
    ghost predicate Valid() {
      && 1 <= next
      && forall id :: id in open ==> 1 <= id < next && open[id].pos <= |open[id].data|
    }
  }

  // Octets of one read: the negotiated PDU less 32, but at least 1 and at most 65000.
  function ChunkSize(maxPdu: nat): (n: nat)
    ensures 1 <= n <= 65000
  {
    var room := if maxPdu < 32 then 0 else maxPdu - 32;
    if room < 1 then 1 else if room > 65000 then 65000 else room
  }

  function ParseOpen(val: Bytes): Option<(Text, nat)> {
    var (t, c) := OptCtx(Open(val), true, 0);
    if t.None? then None
    else
      match ParseFileName(t.value.val)
      case None => None
      case Some(name) =>
        var (p, _) := OptCtx(c, false, 1);
        Some((name, if p.Some? then ParseUint(p.value.val) else 0))
  }

  // The file of a name, when the position is within it.
  function FileAt(files: Files, n: Text, pos: nat): (r: Result<FileEnt, SvcErr>)
    ensures r.Ok? ==> pos <= |r.value.data|
  {
    var name := TrimSlashes(n);
    if name !in files then Err(FILE_NON_EXISTENT)
    else if pos > |files[name].data| then Err(FILE_POSITION_INVALID)
    else Ok(files[name])
  }

  // FileOpen keeps the octets of the file as they are now.
  function OpenService(files: Files, s: Sessions, val: Bytes): (Result<(int, FileEnt), SvcErr>, Sessions) {
    match ParseOpen(val)
    case None => (Err(InvalidArgument), s)
    case Some((name, pos)) =>
      match FileAt(files, name, pos)
      case Err(e) => (Err(e), s)
      case Ok(f) => (Ok((s.next, f)), Sessions(s.open[s.next := OpenFile(f.data, pos)], s.next + 1))
  }

  // FileRead: the next octets, and whether more follow.
  function ReadService(chunk: nat, s: Sessions, val: Bytes): (Result<(Bytes, bool), SvcErr>, Sessions)
    requires s.Valid()
  {
    var id := ParseInt(val);
    if id !in s.open then (Err(FILE_OTHER), s)
    else
      var f := s.open[id];
      var end := Min(f.pos + chunk, |f.data|);
      (Ok((f.data[f.pos..end], end < |f.data|)), s.(open := s.open[id := f.(pos := end)]))
  }

  function CloseService(s: Sessions, val: Bytes): (Option<SvcErr>, Sessions) {
    var id := ParseInt(val);
    if id in s.open then (None, s.(open := s.open - {id})) else (Some(FILE_OTHER), s)
  }

  class FileAssoc {
    const store: Store
    const maxPdu: nat
    var open: map<int, OpenFile>
    var nextFrsm: int

    ghost function View(): Sessions
      reads this
    {
      Sessions(open, nextFrsm)
    }

    constructor (store: Store, maxPdu: nat)
      ensures this.store == store && this.maxPdu == maxPdu && View() == Sessions(map[], 1)
    {
      this.store, this.maxPdu, open, nextFrsm := store, maxPdu, map[], 1;
    }

    method FileOpen(val: Bytes) returns (r: Result<(int, FileEnt), SvcErr>)
      modifies this
      ensures (r, View()) == OpenService(store.files, old(View()), val)
    {
      var p := ParseOpen(val);
      if p.None? {
        return Err(InvalidArgument);
      }
      var name := TrimSlashes(p.value.0);
      var pos := p.value.1;
      if name !in store.files {
        return Err(FILE_NON_EXISTENT);
      }
      var f := store.files[name];
      if pos > |f.data| {
        return Err(FILE_POSITION_INVALID);
      }
      var id := nextFrsm;
      nextFrsm := nextFrsm + 1;
      open := open[id := OpenFile(f.data, pos)];
      return Ok((id, f));
    }

    method FileRead(val: Bytes) returns (r: Result<(Bytes, bool), SvcErr>)
      requires View().Valid()
      modifies this`open
      ensures (r, View()) == ReadService(ChunkSize(maxPdu), old(View()), val)
    {
      var id := ParseInt(val);
      var chunk := ChunkSize(maxPdu);
      if id !in open {
        return Err(FILE_OTHER);
      }
      var f := open[id];
      var end := Min(f.pos + chunk, |f.data|);
      open := open[id := f.(pos := end)];
      return Ok((f.data[f.pos..end], end < |f.data|));
    }

    method FileClose(val: Bytes) returns (err: Option<SvcErr>)
      modifies this`open
      ensures (err, View()) == CloseService(old(View()), val)
    {
      var id := ParseInt(val);
      if id !in open {
        return Some(FILE_OTHER);
      }
      open := open - {id};
      return None;
    }
  }

  // ----- what the services answer

  // A request to open a file, slashes before its name or not: the error codes, or the next id and the file, whose
  // octets are kept from the position on. Without a position that is the start.
  lemma OpenAnswer(files: Files, s: Sessions, k: nat, name: Text, pos: nat, given: bool)
    requires Relative(name) && |FileName(Slashes(k) + name)| < TWO32 && pos < TWO64 && (given || pos == 0)
    ensures var val := Cc(0, FileName(Slashes(k) + name)) + if given then Cp(1, UintBytes(pos)) else [];
            OpenService(files, s, val)
            == if name !in files then (Err(File(7)), s)
               else if |files[name].data| < pos then (Err(File(5)), s)
               else (Ok((s.next, files[name])),
                     Sessions(s.open[s.next := OpenFile(files[name].data, pos)], s.next + 1))
  {
    TrimmedName(k, name);
    OpenRead(Slashes(k) + name, pos, given);
    OpenParsed(files, s, Cc(0, FileName(Slashes(k) + name)) + if given then Cp(1, UintBytes(pos)) else [],
               Slashes(k) + name, pos);
  }

  lemma OpenRead(name: Text, pos: nat, given: bool)
    requires |FileName(name)| < TWO32 && pos < TWO64 && (given || pos == 0)
    ensures ParseOpen(Cc(0, FileName(name)) + if given then Cp(1, UintBytes(pos)) else []) == Some((name, pos))
  {
    var tail: Bytes := if given then Cp(1, UintBytes(pos)) else [];
    FileNameRoundTrip(name);
    OptCtxMade(true, 0, FileName(name), tail, true, 0);
    if given {
      OptCtxMade(false, 1, UintBytes(pos), [], false, 1);
      assert Cp(1, UintBytes(pos)) + [] == Cp(1, UintBytes(pos));
      UintRoundTrip(pos);
    } else {
      OptCtxEnd(false, 1);
    }
  }

  lemma OpenParsed(files: Files, s: Sessions, val: Bytes, n: Text, pos: nat)
    requires ParseOpen(val) == Some((n, pos))
    ensures var name := TrimSlashes(n);
            OpenService(files, s, val)
            == if name !in files then (Err(File(7)), s)
               else if |files[name].data| < pos then (Err(File(5)), s)
               else (Ok((s.next, files[name])),
                     Sessions(s.open[s.next := OpenFile(files[name].data, pos)], s.next + 1))
  {
  }

  // A request to open whose name is malformed or missing is refused.
  lemma MalformedOpen(files: Files, s: Sessions, content: Bytes)
    requires !Clean(content) && |content| < TWO32
    ensures OpenService(files, s, Cc(0, content)) == (Err(InvalidArgument), s)
    ensures OpenService(files, s, []) == (Err(InvalidArgument), s)
  {
    NameOfParts(content);
    OptCtxMade(true, 0, content, [], true, 0);
    assert Cc(0, content) + [] == Cc(0, content);
    OptCtxEnd(true, 0);
  }

  // Of an id that is not open, reading and closing are refused and change nothing; closing an open one forgets it
  // and no other.
  lemma UnknownIds(chunk: nat, s: Sessions, val: Bytes, other: int)
    requires s.Valid()
    ensures ParseInt(val) !in s.open ==>
              ReadService(chunk, s, val) == (Err(File(0)), s) && CloseService(s, val) == (Some(File(0)), s)
    ensures ParseInt(val) in s.open ==>
              var (err, t) := CloseService(s, val);
              && err == None && t.next == s.next && ParseInt(val) !in t.open
              && (other != ParseInt(val) ==> (other in t.open <==> other in s.open))
              && (other != ParseInt(val) && other in s.open ==> t.open[other] == s.open[other])
  {
  }

  // A read is answered with at most 65000 octets, and on an association whose PDUs have room for 32 octets
  // besides, with no more than fit; when more follow, with as many of them as that allows.
  lemma ChunkFits(maxPdu: nat, s: Sessions, val: Bytes)
    requires s.Valid() && ParseInt(val) in s.open
    ensures var f := s.open[ParseInt(val)];
            var (r, t) := ReadService(ChunkSize(maxPdu), s, val);
            && r.Ok? && |r.value.0| <= 65000 && (r.value.1 <==> f.pos + |r.value.0| < |f.data|)
            && (maxPdu > 32 ==> |r.value.0| + 32 <= maxPdu)
            && (maxPdu <= 32 ==> |r.value.0| <= 1)
            && (r.value.1 ==> |r.value.0| == 65000 || |r.value.0| + 32 == maxPdu || (maxPdu <= 32 && |r.value.0| == 1))
  {
  }

  // ----- runs: the requests of one association and what others do to the store

  datatype Event = OpenReq(val: Bytes) | ReadReq(val: Bytes) | CloseReq(val: Bytes) | Elsewhere(op: StoreOp)

  datatype Reply =
    Opened(id: int, file: FileEnt) | Chunk(data: Bytes, more: bool) | Closed | Refused(err: SvcErr) | Silent

  datatype State = State(files: Files, s: Sessions)

  function Step(chunk: nat, y: State, e: Event): (r: (Reply, State))
    requires y.s.Valid()
    ensures r.1.s.Valid()
  {
    match e
    case OpenReq(val) =>
      var (r, s) := OpenService(y.files, y.s, val);
      (match r case Ok(x) => Opened(x.0, x.1) case Err(x) => Refused(x), State(y.files, s))
    case ReadReq(val) =>
      var (r, s) := ReadService(chunk, y.s, val);
      (match r case Ok(x) => Chunk(x.0, x.1) case Err(x) => Refused(x), State(y.files, s))
    case CloseReq(val) =>
      var (r, s) := CloseService(y.s, val);
      (match r case Some(x) => Refused(x) case None => Closed, State(y.files, s))
    case Elsewhere(op) => (Silent, State(Apply(y.files, op), y.s))
  }

  function After(chunk: nat, y: State, es: seq<Event>): (z: State)
    requires y.s.Valid()
    ensures z.s.Valid()
    decreases |es|
  {
    if es == [] then y else After(chunk, Step(chunk, y, es[0]).1, es[1..])
  }

  predicate ReadsId(e: Event, id: int) {
    e.ReadReq? && ParseInt(e.val) == id
  }

  predicate ClosesId(e: Event, id: int) {
    e.CloseReq? && ParseInt(e.val) == id
  }

  // The replies to the reads of id, in order.
  function ReadReplies(chunk: nat, y: State, es: seq<Event>, id: int): seq<Reply>
    requires y.s.Valid()
    decreases |es|
  {
    if es == [] then []
    else
      var (r, z) := Step(chunk, y, es[0]);
      (if ReadsId(es[0], id) then [r] else []) + ReadReplies(chunk, z, es[1..], id)
  }

  // The octets from pos on, in pieces of at most `chunk`, `count` of them.
  function Pieces(data: Bytes, pos: nat, chunk: nat, count: nat): (r: seq<Reply>)
    requires pos <= |data|
    ensures |r| == count
    decreases count
  {
    if count == 0 then []
    else
      var end := Min(pos + chunk, |data|);
      [Chunk(data[pos..end], end < |data|)] + Pieces(data, end, chunk, count - 1)
  }

  function CountReads(es: seq<Event>, id: int): nat {
    if es == [] then 0 else (if ReadsId(es[0], id) then 1 else 0) + CountReads(es[1..], id)
  }

  // One event and an open file that it does not close.
  lemma StepKeeps(chunk: nat, y: State, e: Event, id: int)
    requires y.s.Valid() && id in y.s.open && !ClosesId(e, id)
    ensures var (r, z) := Step(chunk, y, e);
            var f := y.s.open[id];
            var end := Min(f.pos + chunk, |f.data|);
            && id in z.s.open && z.s.open[id] == OpenFile(f.data, if ReadsId(e, id) then end else f.pos)
            && (ReadsId(e, id) ==> r == Chunk(f.data[f.pos..end], end < |f.data|))
  {
  }

  // Whatever else happens, to this association's other files or to the store, the reads of an open file
  // are answered with the octets it had when it was opened, in order.
  lemma {:induction false} ReadsAreIsolated(chunk: nat, y: State, es: seq<Event>, id: int)
    requires y.s.Valid() && id in y.s.open
    requires forall i :: 0 <= i < |es| ==> !ClosesId(es[i], id)
    ensures var f := y.s.open[id]; ReadReplies(chunk, y, es, id) == Pieces(f.data, f.pos, chunk, CountReads(es, id))
    decreases |es|
  {
    if es != [] {
      StepKeeps(chunk, y, es[0], id);
      ReadsAreIsolated(chunk, Step(chunk, y, es[0]).1, es[1..], id);
    }
  }

  // ----- ids

  function OpenedIds(chunk: nat, y: State, es: seq<Event>): seq<int>
    requires y.s.Valid()
    decreases |es|
  {
    if es == [] then []
    else
      var (r, z) := Step(chunk, y, es[0]);
      (if r.Opened? then [r.id] else []) + OpenedIds(chunk, z, es[1..])
  }

  // The ids given out are the next numbers in order: none is ever used again.
  lemma {:induction false} IdsCountUp(chunk: nat, y: State, es: seq<Event>)
    requires y.s.Valid()
    ensures var ids := OpenedIds(chunk, y, es);
            After(chunk, y, es).s.next == y.s.next + |ids| && forall i :: 0 <= i < |ids| ==> ids[i] == y.s.next + i
    decreases |es|
  {
    if es != [] {
      IdsCountUp(chunk, Step(chunk, y, es[0]).1, es[1..]);
    }
  }

  // An id that was given out and is not open, because it was closed, is refused for good.
  lemma {:induction false} ClosedForGood(chunk: nat, y: State, es: seq<Event>, id: int)
    requires y.s.Valid() && id < y.s.next && id !in y.s.open
    ensures id !in After(chunk, y, es).s.open
    ensures forall i :: 0 <= i < |ReadReplies(chunk, y, es, id)| ==>
              ReadReplies(chunk, y, es, id)[i] == Refused(FILE_OTHER)
    decreases |es|
  {
    if es != [] {
      ClosedForGood(chunk, Step(chunk, y, es[0]).1, es[1..], id);
    }
  }

  // ----- what the pieces hold

  function Collected(rs: seq<Reply>): Bytes {
    if rs == [] then [] else (if rs[0].Chunk? then rs[0].data else []) + Collected(rs[1..])
  }

  lemma NextPiece(data: Bytes, pos: nat, chunk: nat, count: nat)
    requires pos <= |data| && count > 0 && chunk > 0
    ensures var end := Min(pos + chunk, |data|);
            var last := Min(pos + chunk * count, |data|);
            && Min(end + chunk * (count - 1), |data|) == last && end <= last
            && data[pos..end] + data[end..last] == data[pos..last]
            && (count > 1 ==> (end + chunk * (count - 1) < |data| <==> pos + chunk * count < |data|))
  {
    assert chunk * count == chunk + chunk * (count - 1);
    assert count > 1 ==> chunk * (count - 1) > 0;
  }

  lemma {:induction false} PiecesHold(data: Bytes, pos: nat, chunk: nat, count: nat)
    requires pos <= |data| && chunk > 0
    ensures Collected(Pieces(data, pos, chunk, count)) == data[pos..Min(pos + chunk * count, |data|)]
    ensures count > 0 ==> Pieces(data, pos, chunk, count)[count - 1].Chunk?
                          && (Pieces(data, pos, chunk, count)[count - 1].more <==> pos + chunk * count < |data|)
    decreases count
  {
    if count > 0 {
      var end := Min(pos + chunk, |data|);
      PiecesHold(data, end, chunk, count - 1);
      NextPiece(data, pos, chunk, count);
    }
  }

  // Replies that hold data from pos on, up to `chunk` octets each, the last saying whether more follow.
  ghost predicate Deliver(replies: seq<Reply>, data: Bytes, pos: nat, chunk: nat) {
    var end := pos + chunk * |replies|;
    && pos <= |data| && Collected(replies) == data[pos..Min(end, |data|)]
    && (replies != [] ==> replies[|replies| - 1].Chunk? && (replies[|replies| - 1].more <==> end < |data|))
  }

  lemma OpenMeaning(chunk: nat, y: State, val: Bytes, id: int, f: FileEnt)
    requires y.s.Valid() && Step(chunk, y, OpenReq(val)).0 == Opened(id, f)
    ensures id == y.s.next && ParseOpen(val).Some?
            && FileAt(y.files, ParseOpen(val).value.0, ParseOpen(val).value.1) == Ok(f)
    ensures var s := Step(chunk, y, OpenReq(val)).1.s;
            id in s.open && s.open[id] == OpenFile(f.data, ParseOpen(val).value.1)
  {
  }

  // From its opening on, the reads of a session deliver the file's octets from the position asked for, as
  // they were at the opening, whatever happens to the store and to other sessions meanwhile.
  lemma SessionDelivers(chunk: nat, y: State, val: Bytes, id: int, f: FileEnt, es: seq<Event>)
    requires y.s.Valid() && chunk > 0 && Step(chunk, y, OpenReq(val)).0 == Opened(id, f)
    requires forall i :: 0 <= i < |es| ==> !ClosesId(es[i], id)
    ensures ParseOpen(val).Some? && FileAt(y.files, ParseOpen(val).value.0, ParseOpen(val).value.1) == Ok(f)
    ensures var replies := ReadReplies(chunk, Step(chunk, y, OpenReq(val)).1, es, id);
            |replies| == CountReads(es, id) && Deliver(replies, f.data, ParseOpen(val).value.1, chunk)
  {
    OpenMeaning(chunk, y, val, id, f);
    DeliverFrom(chunk, Step(chunk, y, OpenReq(val)).1, es, id);
  }

  lemma DeliverFrom(chunk: nat, z: State, es: seq<Event>, id: int)
    requires z.s.Valid() && chunk > 0 && id in z.s.open
    requires forall i :: 0 <= i < |es| ==> !ClosesId(es[i], id)
    ensures |ReadReplies(chunk, z, es, id)| == CountReads(es, id)
    ensures Deliver(ReadReplies(chunk, z, es, id), z.s.open[id].data, z.s.open[id].pos, chunk)
  {
    ReadsAreIsolated(chunk, z, es, id);
    PiecesHold(z.s.open[id].data, z.s.open[id].pos, chunk, CountReads(es, id));
  }
}
