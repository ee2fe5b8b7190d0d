/** The exchanges of the client and the server besides the announcement and the uploads of version 2:
    cancelling, and version 1 of the protocol. */
module Exchanges {
  import opened Text
  import opened Numerals
  import opened OrderedMap
  import opened JsonPrinter
  import J = Json
  import opened Protocol
  import opened HttpStreams
  import opened Query
  import opened Http
  import opened HttpResponse
  import opened SafePath
  import opened Sessions
  import opened Sender
  import opened Uploads
  import D = Delivery
  import R = ReceiveServer

  lemma OnePart(key: string, value: string)
    requires Plain(key) && '=' !in key && Plain(value)
    ensures Joined([Valued(key, value)]) == key + "=" + value && AllWrite([Valued(key, value)], [Entry(key, value)])
    ensures LastValue([Entry(key, value)], key) == Some(value)
  {
    PlainIsEncoded(key);
    PlainIsEncoded(value);
    assert [Valued(key, value)][1..] == [] && [Entry(key, value)][1..] == [];
  }

  /** The request with which a client cancels sets the flag of its session. */
  lemma ClientCancelIsServed(peer: Peer, sid: string, sessions: Entries<Session>, disk: Disk, nextId: nat, env: R.Env)
    requires ValidDisk(disk) && Sorted(sessions) && Lookup(sessions, sid).Some?
    requires Plain(sid) && (forall c <- sid :: !IsSpace(c)) && '\n' !in peer.ip
    ensures var o := R.Serve(sessions, disk, nextId, CancelText(peer, sid), env);
            && o.Outcome? && o.disk == disk && o.response == R.TextResponse(200, "ok")
            && MarkedCancelled(sessions, o.sessions, sid)
  {
    hide R.Serve, RequestLine, Joined, AllWrite, LastValue, ContentLength, IsChunked, FieldsMap, Lookup, MarkedCancelled,
         ValidField, RequestFields, IsWord, Sorted, ValidDisk, Plain;
    var path, parts, entries := "/api/localsend/v2/cancel", [Valued("sessionId", sid)], [Entry("sessionId", sid)];
    var fields := RequestFields(peer.ip, peer.port, 0, "application/json");
    SessionIdIsPlain();
    OnePart("sessionId", sid);
    CancelTargetIsWord(sid);
    RequestFieldsAreRead(peer.ip, peer.port, 0, "application/json");
    D.ApplicationJsonIsLine();
    RequestFieldsAreValid(peer.ip, peer.port, 0, "application/json");
    assert "sessionId" + "=" + sid == "sessionId=" + sid;
    assert path + "?" + Joined(parts) == ROUTE_CANCEL + "?sessionId=" + sid;
    CancelIsServed(sessions, disk, nextId, path, parts, entries, fields, env);
  }

  lemma SessionIdIsPlain()
    ensures Plain("sessionId") && '=' !in "sessionId"
  {
  }

  lemma CancelTargetIsWord(sid: string)
    requires forall c <- sid :: !IsSpace(c)
    ensures IsWord("/api/localsend/v2/cancel" + "?" + ("sessionId=" + sid))
  {
    var a, b := "/api/localsend/v2/cancel?", "sessionId=";
    assert forall c <- a :: !IsSpace(c);
    assert forall c <- b :: !IsSpace(c);
    assert "/api/localsend/v2/cancel" + "?" + ("sessionId=" + sid) == a + b + sid;
  }

  // ---------- Version 1 ----------

  /** The announcement as the server reads it, in either version: the path, and the request itself but
      for the file types filled in on the way. */
  lemma AnnouncementIsRead(env: Env, files: seq<FileDto>)
    requires ValidRequest(PrepareRequest(env.self, FileMap(files))) && '\n' !in env.peer.ip
    requires |Dump(RequestJson(PrepareRequest(env.self, FileMap(files)), env.open))| < SIZE_LIMIT
    ensures var dto := PrepareRequest(env.self, FileMap(files));
            var body := Dump(RequestJson(dto, env.open));
            var path := if env.peer.v2 then "/api/localsend/v2/prepare-upload" else "/api/localsend/v1/send-request";
            && IsReadAs(PrepareText(env, files), "POST", path, [], body)
            && ParseJson(body).Some?
            && RequestFrom(ParseJson(body).value, env.open) == Some(dto.(files := AllReceived(dto.files, env.open)))
  {
    hide RequestJson, RequestFrom, Dump, FileMap, AllReceived, IsReadAs, PlainQuery, IsWord, ValidRequest, ParseJson;
    var dto := PrepareRequest(env.self, FileMap(files));
    var path := if env.peer.v2 then ROUTE_PREPARE else ROUTE_PREPARE_V1;
    RequestArrives(dto, env.open);
    D.ApplicationJsonIsLine();
    PreparePathsAreWords();
    NoQuery(path);
    ClientRequestIsRead("POST", path, [], env.peer.ip, env.peer.port, "application/json", Dump(RequestJson(dto, env.open)));
  }

  /** The server opens a session for the announced files, and answers in the version it is asked in. */
  lemma AnnouncementOpensSession(env: Env, files: seq<FileDto>, sessions: Entries<Session>, disk: Disk, nextId: nat,
                                 henv: R.Env)
    requires ValidRequest(PrepareRequest(env.self, FileMap(files))) && '\n' !in env.peer.ip && ValidDisk(disk)
    requires |Dump(RequestJson(PrepareRequest(env.self, FileMap(files)), env.open))| < SIZE_LIMIT && henv.open == env.open
    ensures var todo := AllReceived(FileMap(files), env.open);
            var pending := R.PendingFiles(disk.names.Keys, nextId, todo, henv.tokens, 0, []);
            R.Serve(sessions, disk, nextId, PrepareText(env, files), henv)
            == R.Outcome(Emplace(sessions, henv.sid, Session(pending, false)), disk,
                         R.PrepareAnswer(env.peer.v2, henv.sid, pending))
  {
    hide RequestJson, RequestFrom, Dump, FileMap, AllReceived, ValidRequest, ParseJson, PrepareText, RequestOf, Find,
         R.PendingFiles, R.PrepareAnswer, Emplace;
    var dto := PrepareRequest(env.self, FileMap(files));
    var body, text := Dump(RequestJson(dto, env.open)), PrepareText(env, files);
    AnnouncementIsRead(env, files);
    RoutesDiffer();
    var e := |text| - |body| - 4;
    assert text[e + 4..] == body && body[..|body|] == body;
  }

  lemma RoutesDiffer()
    ensures ROUTE_PREPARE != ROUTE_UPLOAD && ROUTE_PREPARE != ROUTE_UPLOAD_V1 && ROUTE_PREPARE_V1 != ROUTE_UPLOAD
    ensures ROUTE_PREPARE_V1 != ROUTE_UPLOAD_V1 && ROUTE_PREPARE_V1 != ROUTE_PREPARE
  {
    assert |ROUTE_PREPARE| != |ROUTE_UPLOAD| && |ROUTE_PREPARE| != |ROUTE_UPLOAD_V1|;
    assert |ROUTE_PREPARE_V1| != |ROUTE_UPLOAD| && |ROUTE_PREPARE_V1| != |ROUTE_UPLOAD_V1|;
    assert ROUTE_PREPARE_V1[16] == '1' && ROUTE_PREPARE[16] == '2';
  }

  lemma NoQuery(path: string)
    ensures Sorted<string>([]) && PlainQuery([]) && WithQuery(path, []) == path
  {
  }

  lemma PreparePathsAreWords()
    ensures IsWord("POST") && IsWord(ROUTE_PREPARE) && '?' !in ROUTE_PREPARE
    ensures IsWord(ROUTE_PREPARE_V1) && '?' !in ROUTE_PREPARE_V1
  {
    hide D.PlainWord;
    D.FixedTexts();
    D.PlainWordIsWord(ROUTE_PREPARE);
    V1PrepareIsPlain();
    D.PlainWordIsWord(ROUTE_PREPARE_V1);
  }

  lemma V1PrepareIsPlain()
    ensures D.PlainWord(ROUTE_PREPARE_V1) && '?' !in ROUTE_PREPARE_V1
  {
    var a, b := "/api/localsend/", "v1/send-request";
    assert D.PlainWord(a);
    assert D.PlainWord(b);
    assert ROUTE_PREPARE_V1 == a + b;
  }

  /** The answer of version 1 is read as the tokens of the session, without its id. */
  lemma V1AnswerIsRead(sid: string, pending: Entries<PendingFile>)
    requires Sorted(TokensOf(pending))
    ensures AnswerOf(false, R.PrepareAnswer(false, sid, pending).body) == Some(PrepareResponse("", TokensOf(pending)))
  {
    hide Dump, ParseJson, TokensMembers, TokenEntries, TokensFrom, TokensOf, Sorted;
    var tokens := TokensOf(pending);
    TokensAreSet(tokens);
    assert [] + tokens == tokens;
    TokensAreRead([], tokens);
    ParseDump(J.Obj(TokensMembers(tokens)));
  }

  lemma V1QueryIs(env: Env, fileId: string, token: string, sessionId: string)
    requires !env.peer.v2 && D.HexWord(fileId) && D.HexWord(token)
    ensures UploadQuery(env, fileId, token, sessionId) == [Entry("fileId", fileId), Entry("token", token)]
    ensures UploadPath(env, fileId, token, sessionId)
         == "/api/localsend/v1/send" + "?" + Joined(PartsOf([Entry("fileId", fileId), Entry("token", token)]))
  {
    hide Pairs, Joined, PartsOf, D.HexWord, PlainQuery;
    V1QueryIsPlain(fileId, token);
    PairsAreParts([Entry("fileId", fileId), Entry("token", token)]);
  }

  lemma PlainWords(a: string, b: string)
    requires D.PlainWord(a) && D.PlainWord(b)
    ensures D.PlainWord(a + b)
  {
  }

  lemma HexIsPlainWord(s: string)
    requires D.HexWord(s)
    ensures D.PlainWord(s)
  {
  }

  lemma V1TextsArePlain()
    ensures D.PlainWord("/api/localsend/v1/send") && '?' !in "/api/localsend/v1/send"
    ensures D.PlainWord("?") && D.PlainWord("fileId") && D.PlainWord("=") && D.PlainWord("&") && D.PlainWord("token")
  {
    var a, b := "/api/localsend/", "v1/send";
    assert D.PlainWord(a);
    assert D.PlainWord(b);
    assert "/api/localsend/v1/send" == a + b;
  }

  lemma JoinedTwo(a: Entry<string>, b: Entry<string>)
    ensures Joined(PartsOf([a, b])) == (a.key + "=" + a.value) + "&" + (b.key + "=" + b.value)
  {
    assert PartsOf([a, b])[1..] == [Valued(b.key, b.value)];
  }

  lemma V1PathIsWord(env: Env, fileId: string, token: string, sessionId: string)
    requires !env.peer.v2 && D.HexWord(fileId) && D.HexWord(token)
    ensures IsWord(UploadPath(env, fileId, token, sessionId)) && '?' !in "/api/localsend/v1/send"
  {
    hide D.PlainWord, D.HexWord, UploadPath, Joined, PartsOf;
    V1QueryIs(env, fileId, token, sessionId);
    JoinedTwo(Entry("fileId", fileId), Entry("token", token));
    V1TextsArePlain();
    HexIsPlainWord(fileId);
    HexIsPlainWord(token);
    PlainWords("fileId", "=");
    PlainWords("fileId" + "=", fileId);
    PlainWords("token", "=");
    PlainWords("token" + "=", token);
    PlainWords("fileId" + "=" + fileId, "&");
    PlainWords("fileId" + "=" + fileId + "&", "token" + "=" + token);
    PlainWords("/api/localsend/v1/send", "?");
    PlainWords("/api/localsend/v1/send" + "?", "fileId" + "=" + fileId + "&" + ("token" + "=" + token));
    D.PlainWordIsWord(UploadPath(env, fileId, token, sessionId));
  }

  /** A server with one open session keeps the upload of version 1 that names a file of it and its
      token; the client sends no session id. */
  lemma V1UploadIsKept(env: Env, file: FileDto, token: string, data: string, sid: string, s: Session, f: PendingFile,
                       disk: Disk, nextId: nat, henv: R.Env)
    requires !env.peer.v2 && D.HexWord(file.id) && D.HexWord(token) && '\n' !in env.peer.ip
    requires file.fileType != "" && '\n' !in file.fileType && |data| < SIZE_LIMIT
    requires NoLinks(disk) && Tidy([Entry(sid, s)]) && henv.openable && !s.cancelled
    requires Lookup(s.files, file.id) == Some(f) && f.token == token && f.dto.size == |data|
    ensures ValidDisk(disk)
    ensures var text := UploadHead(env.peer, UploadPath(env, file.id, token, ""), |data|, file.fileType) + data;
            var k := Ticket(sid, file.id, token, f.destination, |data|, f.transferId);
            Kept([Entry(sid, s)], disk, k, data, R.Serve([Entry(sid, s)], disk, nextId, text, henv))
  {
    hide R.Serve, R.ServeUpload, RequestOf, RequestLine, Joined, AllWrite, AllAssigned, ValidField, ContentLength, IsChunked,
         FieldsMap, RequestFields, Kept, Tidy, NoLinks, IsWord, D.HexWord, UploadHead, UploadPath, Plain, PlainQuery,
         Sorted, PartsOf, Lookup, Admit, ValidDisk;
    var m := [Entry("fileId", file.id), Entry("token", token)];
    var path, fields := "/api/localsend/v1/send", RequestFields(env.peer.ip, env.peer.port, |data|, file.fileType);
    var target := UploadPath(env, file.id, token, "");
    LinksAreValid(disk);
    V1QueryIs(env, file.id, token, "");
    V1PathIsWord(env, file.id, token, "");
    V1QueryIsPlain(file.id, token);
    PairsAreParts(m);
    V1QueryIsSorted(file.id, token);
    assert [] + m == m;
    SortedAreAssigned([], m);
    RequestFieldsAreRead(env.peer.ip, env.peer.port, |data|, file.fileType);
    RequestFieldsAreValid(env.peer.ip, env.peer.port, |data|, file.fileType);
    D.UploadTextIs(env.peer, target, file.fileType, data);
    var h := FieldsMap([], fields);
    var request := Request("POST", path, m, h, |data|, false);
    D.FixedTexts();
    RequestIsServed([Entry(sid, s)], disk, nextId, "POST", path, PartsOf(m), m, fields, data, henv);
    V1IsAdmitted(m, file.id, token, sid, s, f, |data|);
    assert data[..|data|] == data;
    PlainUpload([Entry(sid, s)], disk, request, data, henv);
  }

  lemma V1QueryIsPlain(fileId: string, token: string)
    requires D.HexWord(fileId) && D.HexWord(token)
    ensures PlainQuery([Entry("fileId", fileId), Entry("token", token)])
  {
    hide Plain;
    D.HexIsPlain(fileId);
    D.HexIsPlain(token);
    D.KeysArePlain();
  }

  lemma V1QueryIsSorted(fileId: string, token: string)
    ensures Sorted([Entry("fileId", fileId), Entry("token", token)])
  {
    D.KeysAreOrdered();
  }

  lemma V1IsAdmitted(m: Entries<string>, fileId: string, token: string, sid: string, s: Session, f: PendingFile, size: nat)
    requires m == [Entry("fileId", fileId), Entry("token", token)] && !s.cancelled
    requires Lookup(s.files, fileId) == Some(f) && f.token == token && f.dto.size == size
    ensures Admit([Entry(sid, s)], false, m, false, size)
         == Admitted(Ticket(sid, fileId, token, f.destination, size, f.transferId))
  {
    assert "token"[0] == 't' && "fileId"[0] == 'f';
    assert m[1..] == [Entry("token", token)];
    assert Lookup(m, "fileId") == Some(fileId) && Lookup(m, "token") == Some(token);
    assert Asks(false, m, fileId, token) && Means([Entry(sid, s)], false, m, sid, s);
    hide Lookup;
    AdmitExactly([Entry(sid, s)], false, m, false, size, Ticket(sid, fileId, token, f.destination, size, f.transferId));
  }
}
