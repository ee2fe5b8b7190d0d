/** What upload and cancel requests do, told from their bytes: which bodies are stored, which are refused,
    and with what answer. */
module Uploads {
  import opened Text
  import opened Numerals
  import opened OrderedMap
  import opened Json
  import opened Chunked
  import opened Query
  import opened Http
  import opened Protocol
  import opened Sessions
  import R = ReceiveServer

  ghost predicate Tidy(sessions: Entries<Session>) {
    Sorted(sessions) && forall e <- sessions :: Sorted(e.value.files)
  }

  /** One file of one session is marked complete, and nothing else is changed. */
  ghost predicate MarkedComplete(a: Entries<Session>, b: Entries<Session>, sid: string, fileId: string) {
    && (forall k :: k != sid ==> Lookup(b, k) == Lookup(a, k))
    && var s, t := Lookup(a, sid), Lookup(b, sid);
       && s.Some? && t.Some? && t.value.cancelled == s.value.cancelled
       && (forall f :: f != fileId ==> Lookup(t.value.files, f) == Lookup(s.value.files, f))
       && var f := Lookup(s.value.files, fileId);
          f.Some? && Lookup(t.value.files, fileId) == Some(f.value.(complete := true))
  }

  lemma SetCompleteMarks(sessions: Entries<Session>, k: Ticket)
    requires Tidy(sessions) && Agrees(sessions, k)
    ensures MarkedComplete(sessions, SetComplete(sessions, k.session, k.fileId), k.session, k.fileId)
  {
    hide Less;
    var s := Lookup(sessions, k.session).value;
    var f := Lookup(s.files, k.fileId).value;
    var files := Assign(s.files, k.fileId, f.(complete := true));
    assert Entry(k.session, s) in sessions;
    AssignKeepsSorted(s.files, k.fileId, f.(complete := true));
    AssignKeepsSorted(sessions, k.session, s.(files := files));
  }

  /** Every other name shows what it showed. */
  ghost predicate OthersStay(a: Disk, b: Disk, name: string) {
    forall other :: other != name ==> Content(b, other) == Content(a, other)
  }

  /** The upload is kept: the destination shows the data, the file is complete, the answer is success. */
  ghost predicate Kept(sessions: Entries<Session>, disk: Disk, k: Ticket, data: string, o: R.Outcome) {
    && o.Outcome? && o.response == R.JsonResponse(200, Obj([]))
    && Content(o.disk, k.destination) == Some(data) && OthersStay(disk, o.disk, k.destination)
    && MarkedComplete(sessions, o.sessions, k.session, k.fileId)
  }

  /** The upload is given up: its destination is gone, the sessions are as before. */
  ghost predicate GivenUp(sessions: Entries<Session>, disk: Disk, k: Ticket, text: string, o: R.Outcome) {
    && o.Outcome? && o.response == R.TextResponse(400, text)
    && k.destination !in o.disk.names && OthersStay(disk, o.disk, k.destination) && o.sessions == sessions
  }

  lemma StoredIs(d: Disk, name: string, data: string, kept: bool)
    requires NoLinks(d)
    ensures var r := R.StoredAs(d, name, data, kept);
            && OthersStay(d, r, name)
            && if kept then Content(r, name) == Some(data) else name !in r.names
  {
  }

  lemma EndsAs(sessions: Entries<Session>, disk: Disk, request: Request, body: string, env: R.Env)
    requires NoLinks(disk) && Tidy(sessions) && env.openable && !R.IsUndefinedUpload(request, body)
    requires Admit(sessions, request.path == ROUTE_UPLOAD, request.query, request.chunked, request.contentLength).Admitted?
    ensures var k := Admit(sessions, request.path == ROUTE_UPLOAD, request.query, request.chunked, request.contentLength).ticket;
            var (data, error) := R.UploadOutcome(request, k.size, body);
            var o := R.ServeUpload(sessions, disk, request, body, env);
            if error.None? then Kept(sessions, disk, k, data, o) else GivenUp(sessions, disk, k, error.value, o)
  {
    hide Admit, SetComplete, R.StoredAs, R.IsUndefinedUpload, MarkedComplete, Tidy, Content, NoLinks;
    var k := Admit(sessions, request.path == ROUTE_UPLOAD, request.query, request.chunked, request.contentLength).ticket;
    var (data, error) := R.UploadOutcome(request, k.size, body);
    TidyIsSorted(sessions);
    AdmittedAgrees(sessions, request.path == ROUTE_UPLOAD, request.query, request.chunked, request.contentLength);
    SetCompleteMarks(sessions, k);
    LinksAreValid(disk);
    StoredIs(disk, k.destination, data, error.None?);
  }

  lemma TidyIsSorted(sessions: Entries<Session>)
    requires Tidy(sessions)
    ensures Sorted(sessions)
  {
  }

  lemma LinksAreValid(disk: Disk)
    requires NoLinks(disk)
    ensures ValidDisk(disk)
  {
  }

  /** A chunked upload whose body is one of the grammar is kept exactly when the data of its chunks has
      the announced size. */
  lemma ChunkedUpload(sessions: Entries<Session>, disk: Disk, request: Request, b: Body, env: R.Env)
    requires NoLinks(disk) && Tidy(sessions) && env.openable && request.chunked && b.Valid()
    requires Admit(sessions, request.path == ROUTE_UPLOAD, request.query, true, request.contentLength).Admitted?
    ensures var k := Admit(sessions, request.path == ROUTE_UPLOAD, request.query, true, request.contentLength).ticket;
            var o := R.ServeUpload(sessions, disk, request, b.Text(), env);
            if |Data(b.frames)| == k.size then Kept(sessions, disk, k, Data(b.frames), o)
            else GivenUp(sessions, disk, k, "file size mismatch", o)
  {
    hide Admit, DecodeFrom, Kept, GivenUp, Tidy, NoLinks, R.ServeUpload, Data;
    BodyIsDecoded(b, 0);
    EndsAs(sessions, disk, request, b.Text(), env);
  }

  /** Any other chunked body that has a meaning is refused as incomplete. */
  lemma BrokenUpload(sessions: Entries<Session>, disk: Disk, request: Request, body: string, env: R.Env)
    requires NoLinks(disk) && Tidy(sessions) && env.openable && request.chunked && !R.IsUndefinedUpload(request, body)
    requires Admit(sessions, request.path == ROUTE_UPLOAD, request.query, true, request.contentLength).Admitted?
    ensures var k := Admit(sessions, request.path == ROUTE_UPLOAD, request.query, true, request.contentLength).ticket;
            var o := R.ServeUpload(sessions, disk, request, body, env);
            GivenUp(sessions, disk, k, "incomplete upload", o) <==> !exists b: Body :: b.Valid() && body == b.Text()
  {
    hide Admit, DecodeFrom, Tidy, NoLinks, R.ServeUpload, Data, Kept, OthersStay, MarkedComplete;
    var k := Admit(sessions, request.path == ROUTE_UPLOAD, request.query, true, request.contentLength).ticket;
    LinksAreValid(disk);
    AcceptedExactlyBodies(body);
    EndsAs(sessions, disk, request, body, env);
    KeptIsNotGivenUp(sessions, disk, k, R.UploadOutcome(request, k.size, body).0,
                     R.ServeUpload(sessions, disk, request, body, env));
    assert "incomplete upload" != "file size mismatch";
  }

  lemma KeptIsNotGivenUp(sessions: Entries<Session>, disk: Disk, k: Ticket, data: string, o: R.Outcome)
    ensures Kept(sessions, disk, k, data, o) ==> forall text :: !GivenUp(sessions, disk, k, text, o)
  {
  }

  /** An upload of known length is kept exactly when all its bytes come. */
  lemma PlainUpload(sessions: Entries<Session>, disk: Disk, request: Request, body: string, env: R.Env)
    requires NoLinks(disk) && Tidy(sessions) && env.openable && !request.chunked
    requires Admit(sessions, request.path == ROUTE_UPLOAD, request.query, false, request.contentLength).Admitted?
    ensures var k := Admit(sessions, request.path == ROUTE_UPLOAD, request.query, false, request.contentLength).ticket;
            var o := R.ServeUpload(sessions, disk, request, body, env);
            && k.size == request.contentLength
            && if |body| >= k.size then Kept(sessions, disk, k, body[..k.size], o)
               else GivenUp(sessions, disk, k, "incomplete upload", o)
  {
    hide Tidy, NoLinks, R.ServeUpload, Kept, GivenUp, Lookup, FindSession;
    EndsAs(sessions, disk, request, body, env);
  }

  /** The server takes the bytes of a request apart as the client put them together. */
  lemma RequestIsServed(sessions: Entries<Session>, disk: Disk, nextId: nat, verb: string, path: string, parts: seq<Part>,
                        entries: Entries<string>, fields: seq<Field>, body: string, env: R.Env)
    requires ValidDisk(disk) && IsWord(verb) && IsWord(path + "?" + Joined(parts)) && '?' !in path
    requires AllWrite(parts, entries) && (forall f <- fields :: ValidField(f)) && ContentLength(FieldsMap([], fields)).Some?
    ensures var h := FieldsMap([], fields);
            var request := Request(verb, path, AllAssigned([], entries), h, ContentLength(h).value, IsChunked(h));
            R.Serve(sessions, disk, nextId, Message(RequestLine(verb, path + "?" + Joined(parts)), fields, body), env)
            == R.Dispatch(sessions, disk, nextId, request, body, env)
  {
    hide R.Dispatch, RequestOf, RequestLine, Joined, AllWrite, AllAssigned, IsWord, ValidField, ContentLength, IsChunked,
         FieldsMap, FieldLines, Find;
    var target := path + "?" + Joined(parts);
    RequestLineIsLine(verb, target);
    EndOfMessage(RequestLine(verb, target), fields, body);
    var head := Message(RequestLine(verb, target), fields, "");
    var text := Message(RequestLine(verb, target), fields, body);
    assert text[..|head|] == head && text[|head|..] == body;
    RequestIsRead(verb, path, parts, entries, fields);
  }

  /** From the bytes of the request: a chunked upload that is admitted is kept exactly when the data of
      its chunks has the announced size, whatever the coding of its query and the case of its headers. */
  lemma ChunkedUploadIsServed(sessions: Entries<Session>, disk: Disk, nextId: nat, path: string, parts: seq<Part>,
                              entries: Entries<string>, fields: seq<Field>, b: Body, env: R.Env)
    requires NoLinks(disk) && Tidy(sessions) && env.openable && b.Valid()
    requires path == "/api/localsend/v2/upload" || path == "/api/localsend/v1/send"
    requires IsWord(path + "?" + Joined(parts)) && AllWrite(parts, entries) && forall f <- fields :: ValidField(f)
    requires ContentLength(FieldsMap([], fields)).Some? && exists e <- FieldsMap([], fields) :: NamesChunked(e)
    requires Admit(sessions, path == "/api/localsend/v2/upload", AllAssigned([], entries), true, 0).Admitted?
    ensures ValidDisk(disk)
    ensures var k := Admit(sessions, path == "/api/localsend/v2/upload", AllAssigned([], entries), true, 0).ticket;
            var text := Message(RequestLine("POST", path + "?" + Joined(parts)), fields, b.Text());
            var o := R.Serve(sessions, disk, nextId, text, env);
            if |Data(b.frames)| == k.size then Kept(sessions, disk, k, Data(b.frames), o)
            else GivenUp(sessions, disk, k, "file size mismatch", o)
  {
    hide R.Serve, R.ServeUpload, RequestOf, RequestLine, Joined, AllWrite, AllAssigned, ValidField, ContentLength,
         IsChunked, NamesChunked, FieldsMap, FieldLines, Kept, GivenUp, Tidy, NoLinks, Data, Lookup, IsWord;
    var h := FieldsMap([], fields);
    var request := Request("POST", path, AllAssigned([], entries), h, ContentLength(h).value, IsChunked(h));
    LinksAreValid(disk);
    ChunkedExactly(h);
    PostIsWord(path);
    LengthDoesNotMatter(sessions, path == ROUTE_UPLOAD, request.query, request.contentLength);
    RequestIsServed(sessions, disk, nextId, "POST", path, parts, entries, fields, b.Text(), env);
    ChunkedUpload(sessions, disk, request, b, env);
  }

  lemma PostIsWord(path: string)
    requires path == "/api/localsend/v2/upload" || path == "/api/localsend/v1/send"
    ensures IsWord("POST") && '?' !in path
  {
  }

  lemma LengthDoesNotMatter(sessions: Entries<Session>, v2: bool, query: Entries<string>, length: nat)
    ensures Admit(sessions, v2, query, true, length) == Admit(sessions, v2, query, true, 0)
  {
    hide Lookup, FindSession;
  }

  // ---------- Requests that change nothing ----------

  /** Nothing is stored, and this is the answer. */
  predicate Refuses(sessions: Entries<Session>, disk: Disk, status: nat, text: string, o: R.Outcome) {
    o == R.Outcome(sessions, disk, R.TextResponse(status, text))
  }

  /** An upload that is not admitted, or whose destination cannot be opened. */
  lemma RefusedUpload(sessions: Entries<Session>, disk: Disk, request: Request, body: string, env: R.Env)
    requires ValidDisk(disk)
    ensures var a := Admit(sessions, request.path == "/api/localsend/v2/upload", request.query, request.chunked,
                           request.contentLength);
            var o := R.ServeUpload(sessions, disk, request, body, env);
            && (a.Refused? ==> Refuses(sessions, disk, a.status, a.text, o))
            && (a.Admitted? && !env.openable ==> Refuses(sessions, disk, 500, "failed to open destination", o))
  {
    hide Admit, R.UploadOutcome, R.StoredAs, SetComplete, R.IsUndefinedUpload;
  }

  /** A request whose body is shorter than announced, or an announcement that is no valid request. */
  lemma RefusedRequest(sessions: Entries<Session>, disk: Disk, nextId: nat, request: Request, body: string, env: R.Env)
    requires ValidDisk(disk) && request.verb == "POST"
    requires request.path == "/api/localsend/v2/prepare-upload" || request.path == "/api/localsend/v1/send-request"
    ensures var o := R.Dispatch(sessions, disk, nextId, request, body, env);
            if |body| < request.contentLength then Refuses(sessions, disk, 400, "bad request body", o)
            else R.RequestOfBody(body[..request.contentLength], env.open).None? ==>
              o.Outcome? && o.sessions == sessions && o.disk == disk && o.response.status == 400
  {
    hide R.ServeUpload, R.RequestOfBody, R.PendingFiles, R.PrepareAnswer, Emplace;
    assert ROUTE_PREPARE[|ROUTE_PREPARE| - 1] == 'd' && |ROUTE_PREPARE| != |ROUTE_UPLOAD|;
    assert |request.path| != |ROUTE_UPLOAD| && |request.path| != |ROUTE_UPLOAD_V1|;
  }

  // ---------- Cancelling ----------

  /** The session is cancelled and nothing else is changed. */
  ghost predicate MarkedCancelled(a: Entries<Session>, b: Entries<Session>, sid: string) {
    && Lookup(a, sid).Some?
    && forall k :: Lookup(b, k) == if k == sid then Some(Lookup(a, sid).value.(cancelled := true)) else Lookup(a, k)
  }

  /** From the bytes of the request: a cancel by either path sets the flag of the session it names. */
  lemma CancelIsServed(sessions: Entries<Session>, disk: Disk, nextId: nat, path: string, parts: seq<Part>,
                       entries: Entries<string>, fields: seq<Field>, env: R.Env)
    requires ValidDisk(disk) && Sorted(sessions)
    requires path == "/api/localsend/v2/cancel" || path == "/api/localsend/v1/cancel"
    requires IsWord(path + "?" + Joined(parts)) && AllWrite(parts, entries) && forall f <- fields :: ValidField(f)
    requires ContentLength(FieldsMap([], fields)) == Some(0)
    ensures var text := Message(RequestLine("POST", path + "?" + Joined(parts)), fields, "");
            var o := R.Serve(sessions, disk, nextId, text, env);
            match LastValue(entries, "sessionId")
            case None => o == R.Outcome(sessions, disk, R.TextResponse(400, "missing sessionId"))
            case Some(sid) =>
              if Lookup(sessions, sid).None? then o == R.Outcome(sessions, disk, R.TextResponse(404, "session not found"))
              else
                && o.Outcome? && o.disk == disk && o.response == R.TextResponse(200, "ok")
                && MarkedCancelled(sessions, o.sessions, sid)
  {
    hide R.Serve, RequestOf, RequestLine, Joined, AllWrite, AllAssigned, ValidField, ContentLength, IsChunked, FieldsMap,
         FieldLines, IsWord, Lookup, Assign, Less;
    var h := FieldsMap([], fields);
    CancelPathIs(path);
    RequestIsServed(sessions, disk, nextId, "POST", path, parts, entries, fields, "", env);
    LastDecides([], entries, "sessionId");
    NothingIsListed();
    var sid := LastValue(entries, "sessionId");
    if sid.Some? && Lookup(sessions, sid.value).Some? {
      AssignKeepsSorted(sessions, sid.value, Lookup(sessions, sid.value).value.(cancelled := true));
    }
  }

  lemma NothingIsListed()
    ensures Sorted<string>([]) && Lookup<string>([], "sessionId").None?
  {
  }

  lemma CancelPathIs(path: string)
    requires path == "/api/localsend/v2/cancel" || path == "/api/localsend/v1/cancel"
    ensures IsWord("POST") && '?' !in path && (path == ROUTE_CANCEL || path == ROUTE_CANCEL_V1)
    ensures path != ROUTE_UPLOAD && path != ROUTE_UPLOAD_V1 && path != ROUTE_PREPARE && path != ROUTE_PREPARE_V1
  {
    assert path[|path| - 6] == 'c' && ROUTE_UPLOAD[|ROUTE_UPLOAD| - 6] == 'u';
    assert |ROUTE_PREPARE| != |path| && |ROUTE_PREPARE_V1| != |path| && |ROUTE_UPLOAD_V1| != |path|;
  }
}
