/** End to end: a send whose every connection is answered by the receiving server. */
module Delivery {
  import opened Text
  import opened Numerals
  import opened OrderedMap
  import opened JsonPrinter
  import J = Json
  import opened Protocol
  import opened HttpStreams
  import opened Query
  import opened Http
  import opened HttpResponse
  import opened SafePath
  import opened Sessions
  import R = ReceiveServer
  import opened Sender
  import Transfer

  // ---------- The server's side of a send ----------

  datatype ServerState = ServerState(sessions: Entries<Session>, disk: Disk)

  /** What the server meets on its `n`-th connection: the next id of the transfer list and the rest. */
  datatype Host = Host(nextIds: nat -> nat, envs: nat -> R.Env)

  /** The head of the text arrives, whichever way its bytes do. */
  predicate HeadFits(text: string) {
    var e := Find(text, END, 0);
    e.Some? ==> e.value + 3 + READ_SIZE <= HEAD_LIMIT
  }

  /** What the server does with the bytes of the `n`-th connection. */
  function Answered(host: Host, server: ServerState, n: nat, text: string): R.Outcome {
    if ValidDisk(server.disk) && HeadFits(text)
    then R.Serve(server.sessions, server.disk, host.nextIds(n), text, host.envs(n))
    else R.Halted
  }

  /** The server after the connections whose bytes are `texts`; `None` if an exception ended one. */
  function After(host: Host, start: ServerState, texts: seq<string>): Option<ServerState>
    decreases |texts|
  {
    if texts == [] then Some(start)
    else
      var n := |texts| - 1;
      var before :- After(host, start, texts[..n]);
      match Answered(host, before, n, texts[n])
      case Outcome(sessions, disk, _) => Some(ServerState(sessions, disk))
      case Halted => None
  }

  /** What comes back on each connection is what the server answers to the bytes written on it. */
  ghost predicate AnsweredBy(env: Env, host: Host, start: ServerState, texts: seq<string>) {
    forall n :: 0 <= n < |texts| ==> Replies(env.links(n), host, After(host, start, texts[..n]), n, texts[n])
  }

  ghost predicate Replies(link: Link, host: Host, before: Option<ServerState>, n: nat, text: string) {
    before.Some? ==>
      var o := Answered(host, before.value, n, text);
      o.Outcome? ==> link.Link? && Concat(link.pieces) == ResponseText(o.response)
  }

  /** Storing a file changes the content of its name and of no other. */
  lemma {:induction false} StoredIs(d: Disk, name: string, data: string)
    requires NoLinks(d)
    ensures var r := R.StoredAs(d, name, data, true);
            NoLinks(r) && Content(r, name) == Some(data) && forall other | other != name :: Content(r, other) == Content(d, other)
  {
  }

  // ---------- Hexadecimal words ----------

  /** What `random_hex` draws. */
  ghost predicate HexWord(s: string) {
    0 < |s| <= 1000 && forall c <- s :: IsHex(c)
  }

  ghost predicate PlainWord(s: string) {
    s != "" && forall c <- s :: IsHex(c) || c == '/' || c == '-' || 'a' <= c <= 'z' || c == '=' || c == '?' || c == '&' || c == 'I'
  }

  lemma {:induction false} PlainWordIsWord(s: string)
    requires PlainWord(s)
    ensures IsWord(s)
  {
  }

  // ---------- The upload query ----------

  lemma {:induction false} UploadQueryIs(env: Env, fileId: string, token: string, sid: string)
    requires env.peer.v2
    ensures UploadQuery(env, fileId, token, sid) == [Entry("fileId", fileId), Entry("sessionId", sid), Entry("token", token)]
  {
    assert "token"[0] == 't' && "sessionId"[0] == 's' && "fileId"[0] == 'f';
    var rest := [Entry("token", token)];
    assert Less("sessionId", "token") && !Less("sessionId", "fileId");
    assert Emplace(rest, "sessionId", sid) == [Entry("sessionId", sid)] + rest;
  }

  lemma {:induction false} UploadPathIs(env: Env, fileId: string, token: string, sid: string)
    requires env.peer.v2
    ensures UploadPath(env, fileId, token, sid)
         == ROUTE_UPLOAD + "?fileId=" + fileId + "&sessionId=" + sid + "&token=" + token
  {
    hide UploadQuery, Pairs;
    UploadQueryIs(env, fileId, token, sid);
    var f, i, t := Entry("fileId", fileId), Entry("sessionId", sid), Entry("token", token);
    PairsOfThree(f, i, t);
    assert Pair(f) == "fileId=" + fileId && Pair(i) == "sessionId=" + sid && Pair(t) == "token=" + token;
    assert "&" + ("sessionId=" + sid) == "&sessionId=" + sid && "&" + ("token=" + token) == "&token=" + token;
    assert ROUTE_UPLOAD + "?" + ("fileId=" + fileId) == ROUTE_UPLOAD + "?fileId=" + fileId;
  }

  lemma PairsOfThree(a: Entry<string>, b: Entry<string>, c: Entry<string>)
    ensures Pairs([a, b, c]) == Pair(a) + ("&" + Pair(b)) + ("&" + Pair(c))
  {
    hide Pair;
    var q := [a, b, c];
    assert q[1..] == [b, c] && q[1..][1..] == [c];
    assert Pairs([b, c]) == Pair(b) + "&" + Pair(c);
  }

  lemma {:induction false} UploadPathIsWord(env: Env, fileId: string, token: string, sid: string)
    requires env.peer.v2 && HexWord(fileId) && HexWord(token) && HexWord(sid)
    ensures IsWord(UploadPath(env, fileId, token, sid))
  {
    UploadPathIs(env, fileId, token, sid);
    FixedTexts();
    var a, b, c := ROUTE_UPLOAD + "?fileId=", "&sessionId=", "&token=";
    var path := a + fileId + b + sid + c + token;
    assert path == UploadPath(env, fileId, token, sid);
    assert forall x <- path :: x in a || x in fileId || x in b || x in sid || x in c || x in token;
    PlainWordIsWord(path);
  }

  lemma {:induction false} FixedTexts()
    ensures PlainWord(ROUTE_UPLOAD + "?fileId=") && PlainWord("&sessionId=") && PlainWord("&token=")
    ensures PlainWord(ROUTE_PREPARE) && '?' !in ROUTE_PREPARE && '?' !in ROUTE_UPLOAD
    ensures IsWord("POST") && ROUTE_PREPARE != ROUTE_UPLOAD && ROUTE_PREPARE != ROUTE_UPLOAD_V1
  {
    hide PlainWord, IsWord;
    assert |ROUTE_PREPARE| != |ROUTE_UPLOAD| && |ROUTE_PREPARE| != |ROUTE_UPLOAD_V1|;
    UploadTextsArePlain();
    PreparePathIsPlain();
  }

  lemma UploadTextsArePlain()
    ensures PlainWord(ROUTE_UPLOAD + "?fileId=") && PlainWord("&sessionId=") && PlainWord("&token=")
  {
  }

  lemma PreparePathIsPlain()
    ensures PlainWord(ROUTE_PREPARE) && IsWord("POST")
  {
    var front, back := "/api/localsend/", "v2/prepare-upload";
    assert PlainWord(front);
    assert PlainWord(back);
    assert ROUTE_PREPARE == front + back;
  }

  /** The request of an upload as the server reads it. */
  lemma {:induction false} UploadIsRead(env: Env, fileId: string, token: string, sid: string, fileType: string,
        data: string)
    requires env.peer.v2 && HexWord(fileId) && HexWord(token) && HexWord(sid)
    requires '\n' !in env.peer.ip && fileType != "" && '\n' !in fileType && |data| < SIZE_LIMIT
    ensures var text := UploadHead(env.peer, UploadPath(env, fileId, token, sid), |data|, fileType) + data;
            && |text| >= |data| + 4
            && var e := |text| - |data| - 4;
               && Find(text, END, 0) == Some(e) && text[e + 4..] == data
               && RequestOf(text[..e + 4]).Some?
               && var r := RequestOf(text[..e + 4]).value;
                  && R.IsUpload(r) && r.path == ROUTE_UPLOAD && r.contentLength == |data| && !r.chunked
                  && r.query == UploadQuery(env, fileId, token, sid)
  {
    hide Find, RequestOf, Message, RequestLine, UploadQuery, WithQuery, Less, Numeral, IsWord;
    var query := UploadQuery(env, fileId, token, sid);
    var path := UploadPath(env, fileId, token, sid);
    UploadPathIsWord(env, fileId, token, sid);
    FixedTexts();
    QueryIsPlain(env, fileId, token, sid);
    ClientRequestIsRead("POST", ROUTE_UPLOAD, query, env.peer.ip, env.peer.port, fileType, data);
    UploadTextIs(env.peer, path, fileType, data);
  }

  /** A request head of the client is short when its parts are. */
  lemma {:induction false} RequestHeadIsShort(verb: string, target: string, host: string, port: nat, length: nat,
                                              contentType: string)
    requires |verb| <= 10 && |target| <= 4000 && |host| <= 1000 && port < SIZE_LIMIT && length < SIZE_LIMIT
    requires |contentType| <= 1000
    ensures |Message(RequestLine(verb, target), RequestFields(host, port, length, contentType), "")| <= 10000
  {
    hide Numeral;
    NumeralIsShort(port);
    NumeralIsShort(length);
    var fields := RequestFields(host, port, length, contentType);
    assert fields[1..][1..] == fields[2..] && fields[2..][1..] == fields[3..];
    assert |FieldLines(fields[3..], "")| <= 1100;
    assert |FieldLines(fields[2..], "")| <= 1200;
    assert |FieldLines(fields[1..], "")| <= 1300;
    assert |FieldLines(fields, "")| <= 2400;
  }

  /** Everything the client puts into a request head is short. */
  ghost predicate Short(peer: Peer) {
    |peer.ip| <= 1000 && peer.port < SIZE_LIMIT
  }

  lemma {:induction false} UploadHeadIsShort(env: Env, fileId: string, token: string, sid: string, fileType: string,
        size: nat)
    requires env.peer.v2 && Short(env.peer) && |fileId| <= 20 && |token| <= 1000 && |sid| <= 1000
    requires 0 < |fileType| <= 1000 && size < SIZE_LIMIT
    ensures |UploadHead(env.peer, UploadPath(env, fileId, token, sid), size, fileType)| <= 10000
  {
    hide UploadPath, Message, RequestLine;
    UploadPathIs(env, fileId, token, sid);
    var path := UploadPath(env, fileId, token, sid);
    RequestHeadIsShort("POST", path, env.peer.ip, env.peer.port, size, fileType);
    UploadHeadIs(env.peer, path, size, fileType);
  }

  lemma {:induction false} UploadHeadIs(peer: Peer, path: string, size: nat, fileType: string)
    requires fileType != ""
    ensures UploadHead(peer, path, size, fileType)
         == Message(RequestLine("POST", path), RequestFields(peer.ip, peer.port, size, fileType), "")
  {
    hide Numeral, Message;
    var fields := RequestFields(peer.ip, peer.port, size, fileType);
    assert fields == [Field("Host", peer.ip + ":" + Numeral(peer.port, 10)), Field("Connection", "close"),
                      Field("Content-Length", Numeral(size, 10)), Field("Content-Type", fileType)];
  }

  lemma {:induction false} UploadTextIs(peer: Peer, path: string, fileType: string, data: string)
    requires fileType != ""
    ensures UploadHead(peer, path, |data|, fileType) + data
         == RequestText("POST", path, peer.ip, peer.port, fileType, data)
  {
    hide Numeral;
    var fields := RequestFields(peer.ip, peer.port, |data|, fileType);
    assert fields == [Field("Host", peer.ip + ":" + Numeral(peer.port, 10)), Field("Connection", "close"),
                      Field("Content-Length", Numeral(|data|, 10)), Field("Content-Type", fileType)];
    BodyIsLast(fields, data);
    var start := RequestLine("POST", path) + CRLF;
    assert start + FieldLines(fields, "") + data == start + FieldLines(fields, data);
  }

  lemma {:induction false} BodyIsLast(fields: seq<Field>, body: string)
    ensures FieldLines(fields, "") + body == FieldLines(fields, body)
  {
    if fields != [] {
      BodyIsLast(fields[1..], body);
      var line := FieldLine(fields[0]) + CRLF;
      assert line + FieldLines(fields[1..], "") + body == line + (FieldLines(fields[1..], "") + body);
    }
  }

  lemma {:induction false} QueryIsPlain(env: Env, fileId: string, token: string, sid: string)
    requires env.peer.v2 && HexWord(fileId) && HexWord(token) && HexWord(sid)
    ensures Sorted(UploadQuery(env, fileId, token, sid)) && PlainQuery(UploadQuery(env, fileId, token, sid))
  {
    hide Less, Plain, HexWord, UploadQuery;
    UploadQueryIs(env, fileId, token, sid);
    KeysAreOrdered();
    KeysArePlain();
    HexIsPlain(fileId);
    HexIsPlain(sid);
    HexIsPlain(token);
  }

  lemma {:induction false} KeysAreOrdered()
    ensures Less("fileId", "sessionId") && Less("sessionId", "token") && Less("fileId", "token")
  {
    assert "token"[0] == 't' && "sessionId"[0] == 's' && "fileId"[0] == 'f';
  }

  lemma {:induction false} KeysArePlain()
    ensures Plain("fileId") && Plain("sessionId") && Plain("token")
    ensures '=' !in "fileId" && '=' !in "sessionId" && '=' !in "token"
  {
  }

  lemma {:induction false} HexIsPlain(s: string)
    requires HexWord(s)
    ensures Plain(s)
  {
  }

  // ---------- One upload ----------

  /** The session of the send is stored, open, and holds the file under the token and the name given. */
  ghost predicate Stored(sessions: Entries<Session>, sid: string, fileId: string, token: string, destination: string,
        size: nat) {
    var s := Lookup(sessions, sid);
    s.Some? && !s.value.cancelled
    && var f := Lookup(s.value.files, fileId);
       f.Some? && f.value.token == token && f.value.destination == destination && f.value.dto.size == size
  }

  ghost predicate Tidy(sessions: Entries<Session>) {
    Sorted(sessions) && forall e <- sessions :: Sorted(e.value.files)
  }

  /** Marking a file complete changes nothing an upload depends on. */
  lemma {:induction false} StoredStays(sessions: Entries<Session>, sid: string, fileId: string)
    requires Tidy(sessions)
    ensures var next := SetComplete(sessions, sid, fileId);
            Tidy(next)
            && forall id, t, d, n :: Stored(sessions, sid, id, t, d, n) ==> Stored(next, sid, id, t, d, n)
  {
    hide Less;
    var s := Lookup(sessions, sid);
    if s.Some? {
      assert Entry(sid, s.value) in sessions;
      var f := Lookup(s.value.files, fileId);
      if f.Some? {
        var files := Assign(s.value.files, fileId, f.value.(complete := true));
        AssignKeepsSorted(s.value.files, fileId, f.value.(complete := true));
        AssignKeepsSorted(sessions, sid, s.value.(files := files));
      }
    }
  }

  lemma {:induction false} Admits(sessions: Entries<Session>, sid: string, query: Entries<string>, fileId: string,
        token: string,
                                  destination: string, size: nat)
    requires query == [Entry("fileId", fileId), Entry("sessionId", sid), Entry("token", token)]
    requires Stored(sessions, sid, fileId, token, destination, size)
    ensures var a := Admit(sessions, true, query, false, size);
            a.Admitted? && a.ticket.session == sid && a.ticket.fileId == fileId && a.ticket.destination == destination
  {
    QueryLookups(query, fileId, sid, token);
  }

  lemma {:induction false} QueryLookups(query: Entries<string>, fileId: string, sid: string, token: string)
    requires query == [Entry("fileId", fileId), Entry("sessionId", sid), Entry("token", token)]
    ensures Lookup(query, "fileId") == Some(fileId)
    ensures Lookup(query, "sessionId") == Some(sid)
    ensures Lookup(query, "token") == Some(token)
  {
    assert "token"[0] == 't' && "sessionId"[0] == 's' && "fileId"[0] == 'f';
    assert query[1..][1..] == [Entry("token", token)];
  }

  /** The server stores the bytes of an upload whose file it expects, and answers with success. */
  lemma {:induction false} UploadIsStored(env: Env, host: Host, server: ServerState, n: nat, sid: string, file: FileDto,
                                          token: string, destination: string, data: string)
    requires env.peer.v2 && HexWord(file.id) && HexWord(token) && HexWord(sid)
    requires '\n' !in env.peer.ip && file.fileType != "" && '\n' !in file.fileType && |data| < SIZE_LIMIT
    requires Short(env.peer) && |file.id| <= 20 && |token| <= 1000 && |sid| <= 1000 && |file.fileType| <= 1000
    requires NoLinks(server.disk) && host.envs(n).openable
    requires Stored(server.sessions, sid, file.id, token, destination, |data|)
    ensures var text := UploadHead(env.peer, UploadPath(env, file.id, token, sid), |data|, file.fileType) + data;
            Answered(host, server, n, text)
            == R.Outcome(SetComplete(server.sessions, sid, file.id), R.StoredAs(server.disk, destination, data, true),
                         R.JsonResponse(200, J.Obj([])))
  {
    hide Find, RequestOf, UploadHead, UploadPath, UploadQuery, SetComplete, R.StoredAs, R.JsonResponse, Stored, Admit,
         HexWord, R.IsUpload;
    UploadIsRead(env, file.id, token, sid, file.fileType, data);
    UploadHeadIsShort(env, file.id, token, sid, file.fileType, |data|);
    UploadQueryIs(env, file.id, token, sid);
    Admits(server.sessions, sid, UploadQuery(env, file.id, token, sid), file.id, token, destination, |data|);
    assert data[..|data|] == data;
    var text := UploadHead(env.peer, UploadPath(env, file.id, token, sid), |data|, file.fileType) + data;
    var request := RequestOf(text[..|text| - |data|]).value;
    assert text[|text| - |data|..] == data;
    assert R.IsUpload(request);
  }

  // ---------- The client's side of one upload ----------

  /** Without cancelling and with room on the connection the whole file is written. */
  lemma {:induction false} PiecesAreSent(p: Posting, data: string, uploaded: nat, cancel: nat -> bool)
    requires p.ok && (forall n :: !cancel(n)) && p.room > |data| / BUFFER_SIZE
    ensures var q := PostPieces(p, data, uploaded, cancel); q.ok && q.sent == p.sent + data
    decreases |data|
  {
    if |data| >= BUFFER_SIZE {
      var n := BUFFER_SIZE;
      var next := Posting(true, p.sent + data[..n], p.room - 1, p.samples + 1, "", Reported(p.item, uploaded + n));
      PiecesAreSent(next, data[n..], uploaded + n, cancel);
      assert data == data[..n] + data[n..];
    } else {
      assert data[..|data|] == data;
    }
  }

  function WritesOf(data: string): nat {
    |data| / BUFFER_SIZE + 2
  }

  lemma {:induction false} FileIsSent(link: Link, head: string, data: string, cancel: nat -> bool, samples: nat,
                                      item: Transfer.Item)
    requires link.Link? && link.room >= WritesOf(data) && forall n :: !cancel(n)
    ensures var p := PostFile(link, head, data, cancel, samples, item);
            p.sent == head + data
            && p.reply == match ReplyOf(link.pieces) case None => None case Some(r) => Some(UploadReply(r))
  {
    hide PostPieces, ReplyOf;
    PiecesAreSent(Posting(true, head, link.room - 1, samples, "", item), data, 0, cancel);
  }

  lemma {:induction false} SuccessIsRead(pieces: Pieces)
    requires Concat(pieces) == ResponseText(R.JsonResponse(200, J.Obj([])))
    ensures ReplyOf(pieces) == Some(HttpResult(200, Dump(J.Obj([])), ""))
  {
    hide ReplyOf, ResponseText;
    assert Dump(J.Obj([])) == "{}";
    ApplicationJsonIsLine();
    ServerResponseArrives(R.JsonResponse(200, J.Obj([])), pieces);
  }

  // ---------- The announcement ----------

  /** The map holds the files under their ids and nothing else. */
  ghost predicate KeyedBy(m: Entries<FileDto>, files: seq<FileDto>) {
    && Sorted(m)
    && (forall f <- files :: Lookup(m, f.id) == Some(f))
    && (forall e <- m :: e.key == e.value.id && e.value in files)
  }

  ghost predicate DistinctIds(files: seq<FileDto>) {
    forall i, j :: 0 <= i < j < |files| ==> files[i].id != files[j].id
  }

  lemma {:induction false} FileMapIsKeyed(files: seq<FileDto>)
    requires DistinctIds(files)
    ensures KeyedBy(FileMap(files), files)
  {
    hide Less, Lookup, Emplace;
    if files != [] {
      var front, last := files[..|files| - 1], files[|files| - 1];
      FileMapIsKeyed(front);
      var m := FileMap(front);
      EmplaceKeepsSorted(m, last.id, last);
      assert forall f <- files :: f in front || f == last;
      forall e <- m ensures e.key != last.id {
        var i :| 0 <= i < |front| && front[i] == e.value;
      }
      assert Lookup(m, last.id).None?;
    } else {
      NothingIsFound<FileDto>();
    }
  }

  lemma {:induction false} NothingIsFound<V>()
    ensures forall k :: Lookup<V>([], k).None?
  {
  }

  lemma {:induction false} IdsAreDistinct(sources: seq<Source>, open: Open)
    requires |sources| < SIZE_LIMIT && forall s <- sources :: s.size.Some?
    ensures DistinctIds(FilesOf(sources, open)) && forall f <- FilesOf(sources, open) :: HexWord(f.id) && |f.id| <= 20
  {
    hide Numeral;
    var files := FilesOf(sources, open);
    forall i | 0 <= i < |files| ensures HexWord(files[i].id) && |files[i].id| <= 20 { NumeralIsShort(i); }
    forall i, j | 0 <= i < j < |files| ensures files[i].id != files[j].id {
      NumeralsDiffer(i, j);
    }
  }

  /** What a prepare request stores for one file. */
  ghost predicate IsPending(f: Option<PendingFile>, dto: FileDto, names: set<string>) {
    f.Some? && f.value.dto == dto && HexWord(f.value.token)
    && f.value.destination == FirstFree(names, Sanitized(dto.fileName), 0)
  }

  lemma {:induction false} PendingIs(names: set<string>, nextId: nat, todo: Entries<FileDto>, tokens: nat -> string,
        i: nat,
                                     before: Entries<PendingFile>)
    requires Sorted(before) && Sorted(todo) && (forall e <- todo :: e.key == e.value.id && Lookup(before, e.key).None?)
    requires forall k :: HexWord(tokens(k))
    ensures var r := R.PendingFiles(names, nextId, todo, tokens, i, before);
            && Sorted(r) && (forall q :: Lookup(before, q).Some? ==> Lookup(r, q) == Lookup(before, q))
            && (forall e <- todo :: IsPending(Lookup(r, e.key), e.value, names))
    decreases |todo|
  {
    hide Less, Lookup, Emplace, FirstFree, Sanitized, HexWord;
    if todo != [] {
      var dto := todo[0].value;
      assert todo[0] in todo;
      var pending := PendingFile(dto, tokens(i), FirstFree(names, Sanitized(dto.fileName), 0), nextId, false);
      EmplaceKeepsSorted(before, dto.id, pending);
      var now := Emplace(before, dto.id, pending);
      forall e <- todo[1..] ensures e in todo && Lookup(now, e.key).None? {
        var j :| 0 < j < |todo| && todo[j] == e;
        LessIsIrreflexive(e.key);
      }
      PendingIs(names, nextId + 1, todo[1..], tokens, i + 1, now);
      assert forall e <- todo :: e == todo[0] || e in todo[1..];
    }
  }

  lemma {:induction false} TokensAre(files: Entries<PendingFile>)
    requires Sorted(files)
    ensures Sorted(TokensOf(files))
    ensures forall k :: Lookup(TokensOf(files), k)
                        == (match Lookup(files, k) case None => None case Some(f) => Some(f.token))
  {
    KeysOfTokens(files);
    if files != [] {
      TokensAre(files[1..]);
      assert TokensOf(files)[1..] == TokensOf(files[1..]);
    }
  }

  lemma {:induction false} KeysOfTokens(files: Entries<PendingFile>)
    ensures forall i :: 0 <= i < |files| ==> TokensOf(files)[i].key == files[i].key
  {
    if files != [] {
      KeysOfTokens(files[1..]);
      assert forall i :: 0 < i < |files| ==> TokensOf(files)[i] == TokensOf(files[1..])[i - 1];
    }
  }

  /** The announced files as the server has them. */
  function Arrived(env: Env, files: seq<FileDto>): Entries<FileDto> {
    AllReceived(FileMap(files), env.open)
  }

  lemma {:induction false} ArrivedAreKeyed(env: Env, files: seq<FileDto>)
    requires DistinctIds(files)
    ensures Sorted(Arrived(env, files)) && (forall e <- Arrived(env, files) :: e.key == e.value.id)
    ensures forall f <- files :: Entry(f.id, Received(f, env.open)) in Arrived(env, files)
  {
    hide Less, Received, FileMap;
    FileMapIsKeyed(files);
    ReceivedKeepsId(env.open);
    var m, r := FileMap(files), Arrived(env, files);
    forall e <- r ensures e.key == e.value.id {
      var i :| 0 <= i < |r| && r[i] == e;
      assert m[i] in m;
    }
    forall f <- files ensures Entry(f.id, Received(f, env.open)) in r {
      assert Entry(f.id, f) in m;
      var i :| 0 <= i < |m| && m[i] == Entry(f.id, f);
      assert r[i] == Entry(f.id, Received(f, env.open));
    }
  }

  lemma {:induction false} ReceivedKeepsId(open: Open)
    ensures forall f :: Received(f, open).id == f.id && Received(f, open).fileName == f.fileName && Received(f, open).size == f.size
  {
  }

  // ---------- The conditions ----------

  function Files(env: Env, sources: seq<Source>): (files: seq<FileDto>)
    requires forall s <- sources :: s.size.Some?
    ensures |files| == |sources|
  {
    FilesOf(sources, env.open)
  }

  /** A send of files that can be read and have not changed, to a target of version 2, by a user who
      does not cancel, on connections that take all writes. */
  ghost predicate Smooth(env: Env, sources: seq<Source>) {
    && env.peer.v2 && ValidPort(env.self.port) && '\n' !in env.peer.ip && Short(env.peer) && 0 < |sources| < SIZE_LIMIT
    && (forall n :: !env.cancel(n))
    && (forall s <- sources ::
          && s.readable && s.opens && s.size == Some(|s.data|) && |s.data| <= J.EXACT_LIMIT
          && 0 < |env.open.mime(s.name)| <= 1000 && '\n' !in env.open.mime(s.name))
    && env.links(0).Link? && env.links(0).room > 0
    && (forall n :: 0 < n <= |sources| ==> env.links(n).Link? && env.links(n).room >= WritesOf(sources[n - 1].data))
  }

  /** The announcement is shorter than the largest size. */
  ghost predicate Announceable(env: Env, sources: seq<Source>)
    requires forall s <- sources :: s.size.Some?
  {
    |PrepareText(env, Files(env, sources))| < SIZE_LIMIT
  }

  /** A server that draws a new session id and hexadecimal tokens and can open its destinations. */
  ghost predicate Willing(env: Env, host: Host, start: ServerState, sources: seq<Source>)
    requires forall s <- sources :: s.size.Some?
  {
    && Tidy(start.sessions) && NoLinks(start.disk)
    && Lookup(start.sessions, host.envs(0).sid).None? && HexWord(host.envs(0).sid)
    && (forall k :: HexWord(host.envs(0).tokens(k))) && host.envs(0).open == env.open
    && (forall n :: host.envs(n).openable)
    && |R.PrepareAnswer(true, host.envs(0).sid, Pending(env, host, start, Files(env, sources))).body| < SIZE_LIMIT
  }

  /** The files of the session the announcement opens. */
  function Pending(env: Env, host: Host, start: ServerState, files: seq<FileDto>): Entries<PendingFile> {
    R.PendingFiles(start.disk.names.Keys, host.nextIds(0), Arrived(env, files), host.envs(0).tokens, 0, [])
  }

  /** Where the server puts a source. */
  function Destination(start: ServerState, source: Source): string {
    FirstFree(start.disk.names.Keys, Sanitized(source.name), 0)
  }

  // ---------- The announcement is answered ----------

  lemma {:induction false} FilesAreValid(env: Env, sources: seq<Source>)
    requires Smooth(env, sources)
    ensures ValidFiles(FileMap(Files(env, sources)))
    ensures DistinctIds(Files(env, sources)) && forall f <- Files(env, sources) :: HexWord(f.id)
  {
    hide Less, Lookup, FileMap, HexWord;
    var files := Files(env, sources);
    IdsAreDistinct(sources, env.open);
    FileMapIsKeyed(files);
    forall e <- FileMap(files) ensures e.value.size <= J.EXACT_LIMIT {
      var i :| 0 <= i < |files| && files[i] == e.value;
      assert sources[i] in sources;
    }
  }

  lemma {:induction false} AnnouncementIsServed(env: Env, host: Host, start: ServerState, sources: seq<Source>)
    requires Smooth(env, sources) && Willing(env, host, start, sources) && Announceable(env, sources)
    ensures var files := Files(env, sources);
            var pending := Pending(env, host, start, files);
            Answered(host, start, 0, PrepareText(env, files))
            == R.Outcome(Emplace(start.sessions, host.envs(0).sid, Session(pending, false)), start.disk,
                         R.PrepareAnswer(true, host.envs(0).sid, pending))
  {
    hide Find, RequestOf, RequestText, RequestJson, RequestFrom, Dump, Emplace, R.PendingFiles, R.PrepareAnswer,
         PlainWord,
         HexWord, Tidy, IsWord, FileMap, AllReceived, ValidFiles, DistinctIds, Lookup;
    var dto := PrepareRequest(env.self, FileMap(Files(env, sources)));
    var body := Dump(RequestJson(dto, env.open));
    BodyIsInText(env.peer, body);
    FilesAreValid(env, sources);
    RequestArrives(dto, env.open);
    FixedTexts();
    PlainWordIsWord(ROUTE_PREPARE);
    NothingIsPlain();
    ApplicationJsonIsLine();
    ClientRequestIsRead("POST", ROUTE_PREPARE, [], env.peer.ip, env.peer.port, "application/json", body);
    PrepareHeadIsShort(env.peer, body);
    assert body[..|body|] == body;
    var text := PrepareText(env, Files(env, sources));
    assert text[|text| - |body|..] == body;
  }

  lemma {:induction false} BodyIsInText(peer: Peer, body: string)
    ensures |body| <= |RequestText("POST", ROUTE_PREPARE, peer.ip, peer.port, "application/json", body)|
  {
    hide RequestFields, FieldLines;
    BodyIsLast(RequestFields(peer.ip, peer.port, |body|, "application/json"), body);
  }

  lemma {:induction false} PrepareHeadIsShort(peer: Peer, body: string)
    requires Short(peer) && |body| < SIZE_LIMIT
    ensures |RequestText("POST", ROUTE_PREPARE, peer.ip, peer.port, "application/json", body)| <= 10000 + |body|
  {
    hide RequestFields, FieldLines;
    ApplicationJsonIsLine();
    RequestHeadIsShort("POST", ROUTE_PREPARE, peer.ip, peer.port, |body|, "application/json");
    BodyIsLast(RequestFields(peer.ip, peer.port, |body|, "application/json"), body);
  }

  lemma {:induction false} NothingIsPlain()
    ensures Sorted<string>([]) && PlainQuery([]) && WithQuery(ROUTE_PREPARE, []) == ROUTE_PREPARE
  {
  }

  lemma {:induction false} ApplicationJsonIsLine()
    ensures '\n' !in "application/json" && |"application/json"| <= 1000
  {
  }

  /** The session that is opened expects every file, and the client reads its tokens. */
  lemma {:induction false} SessionIsOpened(env: Env, host: Host, start: ServerState, sources: seq<Source>)
    requires Smooth(env, sources) && Willing(env, host, start, sources)
    ensures var sid, files := host.envs(0).sid, Files(env, sources);
            var pending := Pending(env, host, start, files);
            var sessions := Emplace(start.sessions, sid, Session(pending, false));
            && Sorted(TokensOf(pending)) && Tidy(sessions)
            && forall i :: 0 <= i < |files| ==>
                 Expects(sessions, sid, files[i].id, TokensOf(pending), Destination(start, sources[i]), |sources[i].data|)
  {
    hide Emplace, R.PendingFiles, FirstFree, Sanitized, Lookup, Less, Received, R.PrepareAnswer;
    var sid, files := host.envs(0).sid, Files(env, sources);
    var pending := Pending(env, host, start, files);
    var names := start.disk.names.Keys;
    FilesAreValid(env, sources);
    ArrivedAreKeyed(env, files);
    NothingIsFound<PendingFile>();
    PendingIs(names, host.nextIds(0), Arrived(env, files), host.envs(0).tokens, 0, []);
    EmplaceKeepsSorted(start.sessions, sid, Session(pending, false));
    TokensAre(pending);
    ReceivedKeepsId(env.open);
    forall i | 0 <= i < |files|
      ensures Expects(Emplace(start.sessions, sid, Session(pending, false)), sid, files[i].id, TokensOf(pending),
                      Destination(start, sources[i]), |sources[i].data|)
    {
      assert sources[i] in sources && files[i] in files;
      var e := Entry(files[i].id, Received(files[i], env.open));
      assert e in Arrived(env, files) && IsPending(Lookup(pending, e.key), e.value, names);
    }
  }

  /** The session expects the file under the token the client was given. */
  ghost predicate Expects(sessions: Entries<Session>, sid: string, fileId: string, tokens: Entries<string>,
                          destination: string, size: nat) {
    var token := Lookup(tokens, fileId);
    token.Some? && HexWord(token.value) && Stored(sessions, sid, fileId, token.value, destination, size)
  }

  lemma {:induction false} AnswerIsRead(sid: string, pending: Entries<PendingFile>, pieces: Pieces)
    requires Sorted(TokensOf(pending)) && |R.PrepareAnswer(true, sid, pending).body| < SIZE_LIMIT
    requires Concat(pieces) == ResponseText(R.PrepareAnswer(true, sid, pending))
    ensures var r := ReplyOf(pieces);
            r.Some? && r.value.status == 200 && r.value.error == ""
            && AnswerOf(true, r.value.body) == Some(PrepareResponse(sid, TokensOf(pending)))
  {
    hide ReplyOf, ResponseText, Dump, ResponseJson, ResponseFrom, TokensOf, Sorted;
    ApplicationJsonIsLine();
    ServerResponseArrives(R.PrepareAnswer(true, sid, pending), pieces);
    ResponseRoundTrip(PrepareResponse(sid, TokensOf(pending)));
  }

  // ---------- The uploads, one after the other ----------

  /** The content of a name after the first `k` uploads. */
  function Shown(start: ServerState, sources: seq<Source>, k: nat, name: string): Option<string>
    requires k <= |sources|
  {
    if k == 0 then Content(start.disk, name)
    else if Destination(start, sources[k - 1]) == name then Some(sources[k - 1].data)
    else Shown(start, sources, k - 1, name)
  }

  /** The server after the first `k` uploads. */
  ghost predicate Halfway(host: Host, start: ServerState, sources: seq<Source>, files: seq<FileDto>,
        tokens: Entries<string>,
                          server: ServerState, k: nat)
    requires k <= |sources| == |files|
  {
    && Tidy(server.sessions) && NoLinks(server.disk)
    && (forall i :: 0 <= i < |files| ==>
          Expects(server.sessions, host.envs(0).sid, files[i].id, tokens, Destination(start, sources[i]), |sources[i].data|))
    && (forall name :: Content(server.disk, name) == Shown(start, sources, k, name))
  }

  function UploadText(env: Env, file: FileDto, token: string, sid: string, data: string): string {
    UploadHead(env.peer, UploadPath(env, file.id, token, sid), |data|, file.fileType) + data
  }

  lemma {:induction false} FileIs(env: Env, sources: seq<Source>, i: nat)
    requires Smooth(env, sources) && i < |sources|
    ensures var f := Files(env, sources)[i];
            && f.size == |sources[i].data| <= J.EXACT_LIMIT && f.fileName == sources[i].name && HexWord(f.id)
            && 0 < |f.fileType| <= 1000 && '\n' !in f.fileType && sources[i].opens && |f.id| <= 20
  {
    hide FileMap;
    assert sources[i] in sources;
    IdsAreDistinct(sources, env.open);
    assert Files(env, sources)[i] in Files(env, sources);
  }

  lemma {:induction false} HexIsShort(s: string)
    requires HexWord(s)
    ensures |s| <= 1000
  {
  }

  /** The server's part of one upload. */
  lemma {:induction false} ServesUpload(env: Env, host: Host, start: ServerState, sources: seq<Source>,
        tokens: Entries<string>,
                                        server: ServerState, i: nat)
    requires Smooth(env, sources) && Willing(env, host, start, sources) && i < |sources|
    requires Halfway(host, start, sources, Files(env, sources), tokens, server, i)
    ensures var file, sid := Files(env, sources)[i], host.envs(0).sid;
            && Lookup(tokens, file.id).Some?
            && var o := Answered(host, server, i + 1,
                                 UploadText(env, file, Lookup(tokens, file.id).value, sid, sources[i].data));
               && o.Outcome? && o.response == R.JsonResponse(200, J.Obj([]))
               && Halfway(host, start, sources, Files(env, sources), tokens, ServerState(o.sessions, o.disk), i + 1)
  {
    hide FileMap, SetComplete, R.StoredAs, Stored, HexWord, Tidy, NoLinks, Content, Answered, R.JsonResponse,
         UploadHead,
         UploadPath, Pending, R.PrepareAnswer, RequestJson, Dump, Lookup, FirstFree, Sanitized;
    var files, sid := Files(env, sources), host.envs(0).sid;
    FileIs(env, sources, i);
    var destination, data := Destination(start, sources[i]), sources[i].data;
    assert Expects(server.sessions, sid, files[i].id, tokens, destination, |data|);
    HexIsShort(Lookup(tokens, files[i].id).value);
    HexIsShort(sid);
    UploadIsStored(env, host, server, i + 1, sid, files[i], Lookup(tokens, files[i].id).value, destination, data);
    StoredIs(server.disk, destination, data);
    StoredStays(server.sessions, sid, files[i].id);
    var next := SetComplete(server.sessions, sid, files[i].id);
    forall j | 0 <= j < |files|
      ensures Expects(next, sid, files[j].id, tokens, Destination(start, sources[j]), |sources[j].data|)
    {
      assert Expects(server.sessions, sid, files[j].id, tokens, Destination(start, sources[j]), |sources[j].data|);
    }
  }

  /** The client's part of one upload. */
  lemma {:induction false} SendsUpload(env: Env, host: Host, sources: seq<Source>, answer: PrepareResponse, i: nat,
        s: Sending)
    requires Smooth(env, sources) && i < |sources| == |s.items| && |s.sent| == i + 1
    requires Lookup(answer.files, Files(env, sources)[i].id).Some?
    requires Concat(env.links(i + 1).pieces) == ResponseText(R.JsonResponse(200, J.Obj([])))
    ensures var file := Files(env, sources)[i];
            var r := UploadOne(env, sources[i], file, i, answer, s);
            r.Next? && r.error.None?
            && r.state.sent == s.sent + [UploadText(env, file, Lookup(answer.files, file.id).value, answer.sessionId, sources[i].data)]
  {
    hide FileMap, ReplyOf, ResponseText, R.JsonResponse, Lookup, UploadHead, UploadPath, PostFile, Concat,
         RequestJson, Dump;
    FileIs(env, sources, i);
    var file, token := Files(env, sources)[i], Lookup(answer.files, Files(env, sources)[i].id).value;
    var head := UploadHead(env.peer, UploadPath(env, file.id, token, answer.sessionId), file.size, file.fileType);
    FileIsSent(env.links(i + 1), head, sources[i].data, env.cancel, s.samples, s.items[i]);
    SuccessIsRead(env.links(i + 1).pieces);
  }

  /** What was written on the connection of an upload does not depend on what comes back. */
  lemma {:induction false} WritesUpload(env: Env, sources: seq<Source>, answer: PrepareResponse, i: nat, s: Sending)
    requires Smooth(env, sources) && i < |sources| == |s.items| && |s.sent| == i + 1
    requires Lookup(answer.files, Files(env, sources)[i].id).Some?
    ensures var file := Files(env, sources)[i];
            var r := UploadOne(env, sources[i], file, i, answer, s);
            s.sent + [UploadText(env, file, Lookup(answer.files, file.id).value, answer.sessionId, sources[i].data)]
            <= if r.Next? then r.state.sent else r.outcome.state.sent
  {
    hide FileMap, ReplyOf, Lookup, UploadHead, UploadPath, PostFile, Concat, RequestJson, Dump;
    FileIs(env, sources, i);
    var file, token := Files(env, sources)[i], Lookup(answer.files, Files(env, sources)[i].id).value;
    var head := UploadHead(env.peer, UploadPath(env, file.id, token, answer.sessionId), file.size, file.fileType);
    FileIsSent(env.links(i + 1), head, sources[i].data, env.cancel, s.samples, s.items[i]);
  }

  lemma {:induction false} OneGrows(env: Env, source: Source, file: FileDto, i: nat, answer: PrepareResponse,
        s: Sending)
    requires i < |s.items|
    ensures match UploadOne(env, source, file, i, answer, s)
            case Stop(o) => s.sent <= o.state.sent
            case Next(next, _) => s.sent <= next.sent && |next.items| == |s.items|
  {
    hide PostFile, UploadHead, UploadPath, Exchange, CancelText, Lookup, UploadFailure;
  }

  /** The log of connections only grows. */
  lemma {:induction false} SentGrows(env: Env, sources: seq<Source>, files: seq<FileDto>, answer: PrepareResponse,
        i: nat, s: Sending,
                                     firstError: Option<string>)
    requires i <= |sources| == |files| == |s.items|
    ensures s.sent <= UploadFrom(env, sources, files, answer, i, s, firstError).state.sent
    decreases |sources| - i
  {
    hide UploadOne, Exchange, CancelText;
    if i < |sources| && !env.cancel(s.samples) {
      OneGrows(env, sources[i], files[i], i, answer, s.(samples := s.samples + 1));
      match UploadOne(env, sources[i], files[i], i, answer, s.(samples := s.samples + 1))
      case Stop(o) =>
      case Next(next, error) =>
        SentGrows(env, sources, files, answer, i + 1, next, if firstError.None? then error else firstError);
    }
  }

  lemma {:induction false} AfterOne(host: Host, start: ServerState, texts: seq<string>, text: string)
    ensures After(host, start, texts + [text])
         == match After(host, start, texts)
            case None => None
            case Some(before) =>
              (match Answered(host, before, |texts|, text)
               case Outcome(sessions, disk, _) => Some(ServerState(sessions, disk))
               case Halted => None)
  {
    hide Answered;
    assert (texts + [text])[..|texts|] == texts;
  }

  lemma {:induction false} UploadsDeliver(env: Env, host: Host, start: ServerState, sources: seq<Source>,
        answer: PrepareResponse,
                                          i: nat, s: Sending, server: ServerState)
    requires Smooth(env, sources) && Willing(env, host, start, sources) && answer.sessionId == host.envs(0).sid
    requires i <= |sources| == |s.items| && |s.sent| == i + 1
    requires After(host, start, s.sent) == Some(server)
    requires Halfway(host, start, sources, Files(env, sources), answer.files, server, i)
    requires AnsweredBy(env, host, start, UploadFrom(env, sources, Files(env, sources), answer, i, s, None).state.sent)
    ensures var o := UploadFrom(env, sources, Files(env, sources), answer, i, s, None);
            o.result == Some(SENT)
            && var last := After(host, start, o.state.sent);
               last.Some? && Halfway(host, start, sources, Files(env, sources), answer.files, last.value, |sources|)
    decreases |sources| - i
  {
    hide Smooth, Willing, Halfway, Answered, After, UploadOne, UploadText, Lookup, ResponseText, Concat, AnsweredBy,
         CancelSend,
         Files, R.JsonResponse;
    if i < |sources| {
      NoCancel(env, sources, s.samples);
      var files, now := Files(env, sources), s.(samples := s.samples + 1);
      ServesUpload(env, host, start, sources, answer.files, server, i);
      var text := UploadText(env, files[i], Lookup(answer.files, files[i].id).value, answer.sessionId, sources[i].data);
      WritesUpload(env, sources, answer, i, now);
      var all := UploadFrom(env, sources, files, answer, i, s, None).state.sent;
      match UploadOne(env, sources[i], files[i], i, answer, now) {
        case Next(next, error) => SentGrows(env, sources, files, answer, i + 1, next, error);
        case Stop(_) =>
      }
      assert s.sent + [text] <= all;
      assert all[..i + 1] == s.sent && all[i + 1] == text;
      AnsweredAt(env, host, start, all, i + 1);
      SendsUpload(env, host, sources, answer, i, now);
      var next := UploadOne(env, sources[i], files[i], i, answer, now).state;
      AfterOne(host, start, s.sent, text);
      UploadsDeliver(env, host, start, sources, answer, i + 1, next, After(host, start, next.sent).value);
    }
  }

  lemma {:induction false} AnsweredAt(env: Env, host: Host, start: ServerState, texts: seq<string>, n: nat)
    requires AnsweredBy(env, host, start, texts) && n < |texts|
    ensures Replies(env.links(n), host, After(host, start, texts[..n]), n, texts[n])
  {
  }

  lemma {:induction false} NoCancel(env: Env, sources: seq<Source>, n: nat)
    requires Smooth(env, sources)
    ensures !env.cancel(n) && forall s <- sources :: s.size.Some?
  {
  }

  // ---------- The theorem ----------

  /** Each destination shows its source exactly when sources with one destination have the same bytes. */
  lemma {:induction false} LastUploadWins(start: ServerState, sources: seq<Source>)
    ensures (forall i :: 0 <= i < |sources| ==>
               Shown(start, sources, |sources|, Destination(start, sources[i])) == Some(sources[i].data))
       <==> (forall i, j :: 0 <= i < j < |sources| && Destination(start, sources[i]) == Destination(start, sources[j])
                            ==> sources[i].data == sources[j].data)
  {
    hide Destination, Content, Shown;
    var n := |sources|;
    if i :| 0 <= i < n && Shown(start, sources, n, Destination(start, sources[i])) != Some(sources[i].data) {
      var j := ShownIs(start, sources, n, i);
    } else {
      forall i, j | 0 <= i < j < n && Destination(start, sources[i]) == Destination(start, sources[j])
        ensures sources[i].data == sources[j].data
      {
        assert Shown(start, sources, n, Destination(start, sources[i])) == Some(sources[i].data);
        assert Shown(start, sources, n, Destination(start, sources[j])) == Some(sources[j].data);
      }
    }
  }

  lemma {:induction false} ShownIs(start: ServerState, sources: seq<Source>, n: nat, i: nat) returns (j: nat)
    requires i < n <= |sources|
    ensures i <= j < n && Destination(start, sources[j]) == Destination(start, sources[i])
    ensures Shown(start, sources, n, Destination(start, sources[i])) == Some(sources[j].data)
  {
    hide Destination, Content;
    if Destination(start, sources[n - 1]) == Destination(start, sources[i]) {
      j := n - 1;
    } else {
      j := ShownIs(start, sources, n - 1, i);
    }
  }

  lemma {:induction false} OthersShowTheSame(start: ServerState, sources: seq<Source>, n: nat, name: string)
    requires n <= |sources| && forall i :: 0 <= i < n ==> Destination(start, sources[i]) != name
    ensures Shown(start, sources, n, name) == Content(start.disk, name)
  {
    if n > 0 { OthersShowTheSame(start, sources, n - 1, name); }
  }

  /** The announcement, which is written first, is shorter than the largest size. */
  ghost predicate FirstIsShort(sent: seq<string>) {
    sent != [] ==> |sent[0]| < SIZE_LIMIT
  }

  /** A send whose connections the server answers succeeds, and leaves in the inbox at every
      destination the bytes of its source, exactly when sources that share a destination have the
      same bytes (so in particular when destinations differ). Nothing else in the inbox changes. */
  lemma {:induction false} Delivered(env: Env, host: Host, start: ServerState, sources: seq<Source>)
    requires Smooth(env, sources) && Willing(env, host, start, sources)
    requires AnsweredBy(env, host, start, Send(env, sources).state.sent)
    requires FirstIsShort(Send(env, sources).state.sent)
    ensures var o := Send(env, sources);
            var last := After(host, start, o.state.sent);
            && o.result == Some(SENT) && last.Some?
            && ((forall i :: 0 <= i < |sources| ==>
                   Content(last.value.disk, Destination(start, sources[i])) == Some(sources[i].data))
                <==> (forall i, j :: 0 <= i < j < |sources| && Destination(start, sources[i]) == Destination(start, sources[j])
                                     ==> sources[i].data == sources[j].data))
            && (forall name :: (forall i :: 0 <= i < |sources| ==> Destination(start, sources[i]) != name)
                               ==> Content(last.value.disk, name) == Content(start.disk, name))
  {
    hide Smooth, Willing, Send, Announce, After, Content, Destination, AnsweredBy, Announceable, Announced;
    NoCancel(env, sources, 0);
    var items := seq(|sources|, i requires 0 <= i < |sources| =>
      assert sources[i] in sources; Announced(sources[i], env.peer));
    SendAnnounces(env, sources, items);
    WritesAnnouncement(env, sources, items);
    SentIsShort(env, sources, Send(env, sources).state.sent);
    AnnouncementDelivers(env, host, start, sources, items);
    LastUploadWins(start, sources);
    forall name | forall i :: 0 <= i < |sources| ==> Destination(start, sources[i]) != name
      ensures Shown(start, sources, |sources|, name) == Content(start.disk, name)
    {
      OthersShowTheSame(start, sources, |sources|, name);
    }
  }

  lemma {:induction false} SendAnnounces(env: Env, sources: seq<Source>, items: seq<Transfer.Item>)
    requires Smooth(env, sources) && |items| == |sources|
    requires forall i :: 0 <= i < |sources| ==> sources[i].size.Some? && items[i] == Announced(sources[i], env.peer)
    ensures Send(env, sources) == Announce(env, sources, Files(env, sources), Sending(0, [], items))
  {
    hide Smooth, Announce, Announced, FileOf;
    NoCancel(env, sources, 0);
    AllUsable(env, sources);
    assert items == seq(|sources|, i requires 0 <= i < |sources| => Announced(sources[i], env.peer));
  }

  lemma {:induction false} SentIsShort(env: Env, sources: seq<Source>, sent: seq<string>)
    requires (forall s <- sources :: s.size.Some?) && [PrepareText(env, Files(env, sources))] <= sent
    ensures FirstIsShort(sent) <==> Announceable(env, sources)
  {
    hide PrepareText;
    assert sent[0] == PrepareText(env, Files(env, sources));
  }

  lemma {:induction false} AllUsable(env: Env, sources: seq<Source>)
    requires Smooth(env, sources)
    ensures sources != [] && Usable(sources) == |sources|
  {
    hide FileMap, Dump, RequestJson;
    forall i | 0 <= i < |sources| ensures sources[i].readable && sources[i].size.Some? {
      assert sources[i] in sources;
    }
  }

  /** When the answer to the announcement can be read, the send goes on with the uploads. */
  lemma {:induction false} AnnounceGoesOn(env: Env, sources: seq<Source>, items: seq<Transfer.Item>,
        answer: PrepareResponse)
    requires Smooth(env, sources) && |items| == |sources| && answer.sessionId != ""
    requires var r := ReplyOf(env.links(0).pieces);
             r.Some? && r.value.status == 200 && AnswerOf(true, r.value.body) == Some(answer)
    ensures var files := Files(env, sources);
            Announce(env, sources, files, Sending(0, [], items))
            == UploadFrom(env, sources, files, answer, 0, Sending(2, [PrepareText(env, files)], items), None)
  {
    hide UploadFrom, PrepareText, ReplyOf, AnswerOf, Concat, FileMap, RequestJson, Dump, PrepareFailure, CompactBody;
    assert [] + [PrepareText(env, Files(env, sources))] == [PrepareText(env, Files(env, sources))];
  }

  /** The server after the announcement. */
  lemma {:induction false} ServerIsReady(env: Env, host: Host, start: ServerState, sources: seq<Source>)
    requires Smooth(env, sources) && Willing(env, host, start, sources) && Announceable(env, sources)
    ensures var files, sid := Files(env, sources), host.envs(0).sid;
            var pending := Pending(env, host, start, files);
            var server := After(host, start, [PrepareText(env, files)]);
            && Sorted(TokensOf(pending)) && sid != "" && server.Some?
            && Halfway(host, start, sources, files, TokensOf(pending), server.value, 0)
            && var o := Answered(host, start, 0, PrepareText(env, files));
               o.Outcome? && o.response == R.PrepareAnswer(true, sid, pending)
  {
    hide Answered, PrepareText, Pending, Emplace, TokensOf, Tidy, R.PrepareAnswer, Content, Destination, FileMap,
         RequestJson,
         Dump, HexWord, Expects;
    var text := PrepareText(env, Files(env, sources));
    AnnouncementIsServed(env, host, start, sources);
    SessionIsOpened(env, host, start, sources);
    SidIsNotEmpty(env, host, start, sources);
    assert [] + [text] == [text];
    AfterOne(host, start, [], text);
  }

  lemma {:induction false} AnnouncementDelivers(env: Env, host: Host, start: ServerState, sources: seq<Source>,
                                                items: seq<Transfer.Item>)
    requires Smooth(env, sources) && Willing(env, host, start, sources) && Announceable(env, sources) && |items| == |sources|
    requires AnsweredBy(env, host, start, Announce(env, sources, Files(env, sources), Sending(0, [], items)).state.sent)
    ensures var o := Announce(env, sources, Files(env, sources), Sending(0, [], items));
            var last := After(host, start, o.state.sent);
            && o.result == Some(SENT) && last.Some?
            && forall name :: Content(last.value.disk, name) == Shown(start, sources, |sources|, name)
  {
    hide Answered, UploadFrom, PrepareText, Pending, ReplyOf, ResponseText, AnswerOf, TokensOf, Halfway, Announce,
         R.PrepareAnswer, Content, Concat, FileMap, RequestJson, Dump, AnsweredBy, Willing, Smooth, Files;
    NoCancel(env, sources, 0);
    var sid, files := host.envs(0).sid, Files(env, sources);
    var pending := Pending(env, host, start, files);
    var text := PrepareText(env, files);
    var answer := PrepareResponse(sid, TokensOf(pending));
    var o := Announce(env, sources, files, Sending(0, [], items));
    ServerIsReady(env, host, start, sources);
    WritesAnnouncement(env, sources, items);
    assert o.state.sent[..0] == [] && o.state.sent[0] == text;
    AnsweredAt(env, host, start, o.state.sent, 0);
    AnswerIsShort(env, host, start, sources);
    AnswerIsRead(sid, pending, env.links(0).pieces);
    AnnounceGoesOn(env, sources, items, answer);
    var told := Sending(2, [text], items);
    UploadsDeliver(env, host, start, sources, answer, 0, told, After(host, start, [text]).value);
    HalfwayShows(host, start, sources, files, answer.files, After(host, start, o.state.sent).value);
  }

  lemma {:induction false} AnswerIsShort(env: Env, host: Host, start: ServerState, sources: seq<Source>)
    requires (forall s <- sources :: s.size.Some?) && Willing(env, host, start, sources)
    ensures |R.PrepareAnswer(true, host.envs(0).sid, Pending(env, host, start, Files(env, sources))).body| < SIZE_LIMIT
  {
    hide R.PrepareAnswer, Pending;
  }

  lemma {:induction false} HalfwayShows(host: Host, start: ServerState, sources: seq<Source>, files: seq<FileDto>,
                                        tokens: Entries<string>, server: ServerState)
    requires |files| == |sources| && Halfway(host, start, sources, files, tokens, server, |sources|)
    ensures forall name :: Content(server.disk, name) == Shown(start, sources, |sources|, name)
  {
    hide Content, Shown;
  }

  lemma {:induction false} WritesAnnouncement(env: Env, sources: seq<Source>, items: seq<Transfer.Item>)
    requires Smooth(env, sources) && |items| == |sources|
    ensures [PrepareText(env, Files(env, sources))]
            <= Announce(env, sources, Files(env, sources), Sending(0, [], items)).state.sent
  {
    hide UploadFrom, PrepareText, ReplyOf, AnswerOf, Concat, FileMap, RequestJson, Dump, PrepareFailure, CompactBody;
    var files := Files(env, sources);
    var text := PrepareText(env, files);
    var told := Sending(2, [] + [text], items);
    var reply := ReplyOf(env.links(0).pieces);
    if reply.Some? && AnswerOf(true, reply.value.body).Some? {
      SentGrows(env, sources, files, AnswerOf(true, reply.value.body).value, 0, told, None);
    }
  }

  lemma {:induction false} SidIsNotEmpty(env: Env, host: Host, start: ServerState, sources: seq<Source>)
    requires (forall s <- sources :: s.size.Some?) && Willing(env, host, start, sources)
    ensures host.envs(0).sid != ""
  {
  }

  // ---------- Such a send exists for every server that is willing ----------

  /** The same send on connections that bring what a willing server answers. */
  function Answering(env: Env, host: Host, start: ServerState, sources: seq<Source>): Env
    requires forall s <- sources :: s.size.Some?
  {
    var first := R.PrepareAnswer(true, host.envs(0).sid, Pending(env, host, start, Files(env, sources)));
    env.(links := (n: nat) =>
      if n == 0 then Link(1, [ResponseText(first)])
      else Link(if n <= |sources| then WritesOf(sources[n - 1].data) else 0, [ResponseText(R.JsonResponse(200, J.Obj([])))]))
  }

  /** The condition of the theorem can be met: on these connections every byte that comes back is the
      server's answer to the bytes that were written. */
  lemma {:induction false} ServerCanAnswer(env: Env, host: Host, start: ServerState, sources: seq<Source>)
    requires Smooth(env, sources) && Willing(env, host, start, sources) && Announceable(env, sources)
    ensures var e := Answering(env, host, start, sources);
            var sent := Send(e, sources).state.sent;
            && Smooth(e, sources) && Willing(e, host, start, sources)
            && AnsweredBy(e, host, start, sent) && FirstIsShort(sent)
  {
    hide Send, Announce, AnsweredBy, Answered, After, Replies, Smooth, Willing, Announced, FirstIsShort, Answering, Files,
         PrepareText, Succeeding;
    NoCancel(env, sources, 0);
    var e := Answering(env, host, start, sources);
    AnsweringIs(env, host, start, sources);
    NoCancel(e, sources, 0);
    var items := seq(|sources|, i requires 0 <= i < |sources| =>
      assert sources[i] in sources; Announced(sources[i], e.peer));
    SendAnnounces(e, sources, items);
    WritesAnnouncement(e, sources, items);
    SentIsShort(e, sources, Send(e, sources).state.sent);
    AnnouncementIsAnswered(e, host, start, sources, items);
  }

  /** The connections bring the answer to the announcement, then one success for each upload. */
  ghost predicate Succeeding(env: Env, host: Host, start: ServerState, sources: seq<Source>)
    requires forall s <- sources :: s.size.Some?
  {
    && env.links(0).Link? && (forall n :: 0 < n <= |sources| ==> env.links(n).Link?)
    && Concat(env.links(0).pieces)
       == ResponseText(R.PrepareAnswer(true, host.envs(0).sid, Pending(env, host, start, Files(env, sources))))
    && (forall n :: 0 < n <= |sources| ==> Concat(env.links(n).pieces) == ResponseText(R.JsonResponse(200, J.Obj([]))))
  }

  lemma {:induction false} AnsweringIs(env: Env, host: Host, start: ServerState, sources: seq<Source>)
    requires Smooth(env, sources) && Willing(env, host, start, sources)
    ensures var e := Answering(env, host, start, sources);
            Smooth(e, sources) && Willing(e, host, start, sources) && Succeeding(e, host, start, sources)
            && PrepareText(e, Files(e, sources)) == PrepareText(env, Files(env, sources))
  {
    hide ResponseText, R.PrepareAnswer, R.JsonResponse, R.PendingFiles, FileMap, RequestJson, Dump, HexWord, Tidy,
         NoLinks;
    forall t: string ensures Concat([t]) == t { assert [t][1..] == [] && t + "" == t; }
    var e := Answering(env, host, start, sources);
    assert Files(e, sources) == Files(env, sources);
    assert Pending(e, host, start, Files(env, sources)) == Pending(env, host, start, Files(env, sources));
  }

  lemma {:induction false} AnsweredMore(env: Env, host: Host, start: ServerState, texts: seq<string>, text: string)
    requires AnsweredBy(env, host, start, texts)
    requires Replies(env.links(|texts|), host, After(host, start, texts), |texts|, text)
    ensures AnsweredBy(env, host, start, texts + [text])
  {
    hide Replies, After;
    var all := texts + [text];
    forall n | 0 <= n < |all| ensures Replies(env.links(n), host, After(host, start, all[..n]), n, all[n]) {
      if n < |texts| {
        assert all[..n] == texts[..n];
        AnsweredAt(env, host, start, texts, n);
      } else {
        assert all[..n] == texts;
      }
    }
  }

  lemma {:induction false} UploadsAreAnswered(env: Env, host: Host, start: ServerState, sources: seq<Source>,
        answer: PrepareResponse,
                                              i: nat, s: Sending, server: ServerState)
    requires Smooth(env, sources) && Willing(env, host, start, sources) && answer.sessionId == host.envs(0).sid
    requires i <= |sources| == |s.items| && |s.sent| == i + 1
    requires After(host, start, s.sent) == Some(server) && AnsweredBy(env, host, start, s.sent)
    requires Halfway(host, start, sources, Files(env, sources), answer.files, server, i)
    requires Succeeding(env, host, start, sources)
    ensures AnsweredBy(env, host, start, UploadFrom(env, sources, Files(env, sources), answer, i, s, None).state.sent)
    decreases |sources| - i
  {
    hide Smooth, Willing, Halfway, Answered, After, UploadOne, UploadText, Lookup, ResponseText, Concat, AnsweredBy,
         CancelSend,
         Files, R.JsonResponse, R.PrepareAnswer, Pending;
    if i < |sources| {
      NoCancel(env, sources, s.samples);
      var files, now := Files(env, sources), s.(samples := s.samples + 1);
      ServesUpload(env, host, start, sources, answer.files, server, i);
      var text := UploadText(env, files[i], Lookup(answer.files, files[i].id).value, answer.sessionId, sources[i].data);
      SendsUpload(env, host, sources, answer, i, now);
      var next := UploadOne(env, sources[i], files[i], i, answer, now).state;
      AfterOne(host, start, s.sent, text);
      AnsweredMore(env, host, start, s.sent, text);
      UploadsAreAnswered(env, host, start, sources, answer, i + 1, next, After(host, start, next.sent).value);
    }
  }

  lemma {:induction false} AnnouncementIsAnswered(env: Env, host: Host, start: ServerState, sources: seq<Source>,
                                                  items: seq<Transfer.Item>)
    requires Smooth(env, sources) && Willing(env, host, start, sources) && Announceable(env, sources) && |items| == |sources|
    requires Succeeding(env, host, start, sources)
    ensures AnsweredBy(env, host, start, Announce(env, sources, Files(env, sources), Sending(0, [], items)).state.sent)
  {
    hide Answered, UploadFrom, PrepareText, Pending, ReplyOf, ResponseText, AnswerOf, TokensOf, Halfway, Smooth,
         Announce,
         R.PrepareAnswer, Concat, R.JsonResponse, AnsweredBy, Files, After;
    NoCancel(env, sources, 0);
    var sid, files := host.envs(0).sid, Files(env, sources);
    var pending := Pending(env, host, start, files);
    var text := PrepareText(env, files);
    var answer := PrepareResponse(sid, TokensOf(pending));
    ServerIsReady(env, host, start, sources);
    AnswerIsRead(sid, pending, env.links(0).pieces);
    AnnounceGoesOn(env, sources, items, answer);
    NothingIsAnswered(env, host, start);
    assert [] + [text] == [text];
    AnsweredMore(env, host, start, [], text);
    UploadsAreAnswered(env, host, start, sources, answer, 0, Sending(2, [text], items), After(host, start, [text]).value);
  }

  lemma {:induction false} NothingIsAnswered(env: Env, host: Host, start: ServerState)
    ensures AnsweredBy(env, host, start, []) && After(host, start, []) == Some(start)
  {
  }
}
