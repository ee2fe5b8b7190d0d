/** The receiving server: its handlers, each proved to be a run of the session machine and to leave
    behind what the functions below say, for every way the request's bytes arrive. */
module ReceiveServer {
  import opened Text
  import opened Numerals
  import opened OrderedMap
  import opened Json
  import opened JsonPrinter
  import opened JsonParser
  import opened Protocol
  import opened HttpStreams
  import opened Chunked
  import opened Http
  import opened HttpResponse
  import opened SafePath
  import opened Sessions
  import Transfer

  /** Stands for the text of a caught exception. */
  const EXCEPTION_TEXT := "Request body malformed"

  function TextResponse(status: nat, text: string): HttpResponse {
    HttpResponse(status, "text/plain", text)
  }

  function JsonResponse(status: nat, json: Json): HttpResponse {
    HttpResponse(status, "application/json", Dump(json))
  }

  // ---------- What the handlers do, on values ----------

  /** The files of a new session: destinations are searched among the names in the inbox at the time,
      transfer ids are counted up, and of entries with one file id the first stays. */
  function PendingFiles(names: set<string>, nextId: nat, todo: Entries<FileDto>, tokens: nat -> string, i: nat,
                        before: Entries<PendingFile>): Entries<PendingFile>
    decreases |todo|
  {
    if todo == [] then before
    else
      var dto := todo[0].value;
      var pending := PendingFile(dto, tokens(i), FirstFree(names, Sanitized(dto.fileName), 0), nextId, false);
      PendingFiles(names, nextId + 1, todo[1..], tokens, i + 1, Emplace(before, dto.id, pending))
  }

  /** Each requested file is stored as it was asked for, under its own token, at the first free name, and
      with the id its transfer gets. */
  lemma {:induction false} PendingAre(names: set<string>, nextId: nat, todo: Entries<FileDto>, tokens: nat -> string,
                                      i: nat, before: Entries<PendingFile>)
    requires Sorted(before) && forall j :: 0 <= j < |todo| ==> Lookup(before, todo[j].value.id).None?
    requires forall j, k :: 0 <= j < k < |todo| ==> todo[j].value.id != todo[k].value.id
    ensures var r := PendingFiles(names, nextId, todo, tokens, i, before);
            && Sorted(r) && (forall k :: Lookup(before, k).Some? ==> Lookup(r, k) == Lookup(before, k))
            && forall j :: 0 <= j < |todo| ==>
                 var dto := todo[j].value;
                 Lookup(r, dto.id) == Some(PendingFile(dto, tokens(i + j), FirstFree(names, Sanitized(dto.fileName), 0),
                                                       nextId + j, false))
    decreases |todo|
  {
    hide Lookup, Emplace, Less, FirstFree, Sanitized;
    if todo != [] {
      var dto := todo[0].value;
      var pending := PendingFile(dto, tokens(i), FirstFree(names, Sanitized(dto.fileName), 0), nextId, false);
      var now, rest := Emplace(before, dto.id, pending), todo[1..];
      EmplaceKeepsSorted(before, dto.id, pending);
      assert forall j :: 0 <= j < |rest| ==> rest[j] == todo[j + 1];
      PendingAre(names, nextId + 1, rest, tokens, i + 1, now);
      forall j | 0 < j < |todo|
        ensures Lookup(PendingFiles(names, nextId, todo, tokens, i, before), todo[j].value.id)
             == Some(PendingFile(todo[j].value, tokens(i + j), FirstFree(names, Sanitized(todo[j].value.fileName), 0),
                                 nextId + j, false))
      {
        assert rest[j - 1] == todo[j] && nextId + 1 + (j - 1) == nextId + j && i + 1 + (j - 1) == i + j;
      }
    }
  }

  function PrepareAnswer(v2: bool, sid: string, files: Entries<PendingFile>): HttpResponse {
    var answer := TokensOf(files);
    JsonResponse(200, if v2 then ResponseJson(PrepareResponse(sid, answer)) else Obj(TokensMembers(answer)))
  }

  /** The data an upload body brings, and the error the handler answers, if any. */
  function UploadOutcome(request: Request, size: nat, body: string): (string, Option<string>) {
    if request.chunked then
      var d := Decode(body);
      (d.data, if d.verdict != Accepted then Some("incomplete upload")
               else if |d.data| != size then Some("file size mismatch")
               else None)
    else if |body| >= request.contentLength then (body[..request.contentLength], None)
    else (body, Some("incomplete upload"))
  }

  /** Whether an upload runs into the write that has no defined meaning. */
  predicate IsUndefinedUpload(request: Request, body: string) {
    request.chunked && Decode(body).verdict == Undefined
  }

  /** The inbox with `data` written to a name, and the name removed again unless it is kept. */
  function StoredAs(disk: Disk, name: string, data: string, kept: bool): Disk
    requires ValidDisk(disk)
  {
    var (truncated, file) := OpenTruncated(disk, name);
    var written := truncated.(bodies := truncated.bodies[file := data]);
    if kept then written else RemoveName(written, name)
  }

  /** What one connection meets besides its bytes: the random draws, the peer's address, whether the
      destination can be opened, and the answers of the info and register routes. */
  datatype Env = Env(sid: string, tokens: nat -> string, remoteIp: string, openable: bool, open: Open,
                     other: Request -> HttpResponse)

  /** `Halted`: an exception ended the handler, or its next write has no defined meaning. */
  datatype Outcome = Outcome(sessions: Entries<Session>, disk: Disk, response: HttpResponse) | Halted

  predicate IsUpload(request: Request) {
    request.verb == "POST" && (request.path == ROUTE_UPLOAD || request.path == ROUTE_UPLOAD_V1)
  }

  function ServeUpload(sessions: Entries<Session>, disk: Disk, request: Request, body: string, env: Env): Outcome
    requires ValidDisk(disk)
  {
    var a := Admit(sessions, request.path == ROUTE_UPLOAD, request.query, request.chunked, request.contentLength);
    if a.Refused? then Outcome(sessions, disk, TextResponse(a.status, a.text))
    else if !env.openable then Outcome(sessions, disk, TextResponse(500, "failed to open destination"))
    else if IsUndefinedUpload(request, body) then Halted
    else
      var (data, error) := UploadOutcome(request, a.ticket.size, body);
      var stored := StoredAs(disk, a.ticket.destination, data, error.None?);
      if error.Some? then Outcome(sessions, stored, TextResponse(400, error.value))
      else Outcome(SetComplete(sessions, a.ticket.session, a.ticket.fileId), stored, JsonResponse(200, Obj([])))
  }

  function ServePrepare(sessions: Entries<Session>, disk: Disk, nextId: nat, v2: bool, body: string,
        env: Env): Outcome {
    var dto := RequestOfBody(body, env.open);
    if dto.None? then Outcome(sessions, disk, TextResponse(400, EXCEPTION_TEXT))
    else
      var files := PendingFiles(disk.names.Keys, nextId, dto.value.files, env.tokens, 0, []);
      Outcome(Emplace(sessions, env.sid, Session(files, false)), disk, PrepareAnswer(v2, env.sid, files))
  }

  function ServeCancel(sessions: Entries<Session>, disk: Disk, query: Entries<string>): Outcome {
    var sid := Lookup(query, "sessionId");
    if sid.None? then Outcome(sessions, disk, TextResponse(400, "missing sessionId"))
    else
      var s := Lookup(sessions, sid.value);
      if s.None? then Outcome(sessions, disk, TextResponse(404, "session not found"))
      else Outcome(Assign(sessions, sid.value, s.value.(cancelled := true)), disk, TextResponse(200, "ok"))
  }

  function Route(sessions: Entries<Session>, disk: Disk, nextId: nat, request: Request, body: string,
        env: Env): Outcome {
    if request.verb == "POST" && (request.path == ROUTE_PREPARE || request.path == ROUTE_PREPARE_V1) then
      ServePrepare(sessions, disk, nextId, request.path == ROUTE_PREPARE, body, env)
    else if request.verb == "POST" && (request.path == ROUTE_CANCEL || request.path == ROUTE_CANCEL_V1) then
      ServeCancel(sessions, disk, request.query)
    else Outcome(sessions, disk, env.other(request))
  }

  function Dispatch(sessions: Entries<Session>, disk: Disk, nextId: nat, request: Request, body: string,
        env: Env): Outcome
    requires ValidDisk(disk)
  {
    if IsUpload(request) then ServeUpload(sessions, disk, request, body, env)
    else if |body| < request.contentLength then Outcome(sessions, disk, TextResponse(400, "bad request body"))
    else Route(sessions, disk, nextId, request, body[..request.contentLength], env)
  }

  /** What the server does with the bytes of one connection. */
  function Serve(sessions: Entries<Session>, disk: Disk, nextId: nat, text: string, env: Env): Outcome
    requires ValidDisk(disk)
  {
    match Find(text, END, 0)
    case None => Outcome(sessions, disk, TextResponse(400, "bad request"))
    case Some(e) =>
      match RequestOf(text[..e + 4])
      case None => Halted
      case Some(request) => Dispatch(sessions, disk, nextId, request, text[e + 4..], env)
  }

  lemma MoreTaken(body: string, written: nat, got: string, rest: string)
    requires written <= |body| && body == body[..written] + (got + rest)
    ensures written + |got| <= |body|
    ensures body[..written] + got == body[..written + |got|] && body == body[..written + |got|] + rest
  {
    assert body == body[..written] + got + rest;
  }

  // ---------- The handlers ----------

  class LocalSendServer {
    var sessions: Entries<Session>
    var disk: Disk
    const transfers: Transfer.TransferStore
    ghost var threads: seq<Thread>

    ghost function Now(): Receiver
      reads this, transfers
    {
      Receiver(sessions, disk, threads, transfers.Now())
    }

    /** From `start` the machine came here by these steps, none of which is another user's of the
        transfer list. */
    ghost predicate RanFrom(start: Receiver, steps: seq<Step>)
      reads this, transfers
    {
      && Inv(start) && IsRun(start, steps) && Now() == Run(start, steps) && Inv(Now())
      && forall x <- steps :: !x.OtherTransfer?
    }

    constructor (disk: Disk, transfers: Transfer.TransferStore)
      requires ValidDisk(disk)
      ensures this.transfers == transfers && sessions == [] && this.disk == disk && threads == []
      ensures Inv(Now())
    {
      sessions, this.disk, this.transfers, threads := [], disk, transfers, [];
    }

    method HandleCancel(query: Entries<string>) returns (response: HttpResponse, ghost steps: seq<Step>)
      requires Inv(Now())
      modifies this`sessions, this`threads, transfers
      ensures RanFrom(old(Now()), steps)
      ensures
        var sid := Lookup(query, "sessionId");
        if sid.None? then response == TextResponse(400, "missing sessionId") && Now() == old(Now())
        else if Lookup(old(sessions), sid.value).None? then
          response == TextResponse(404, "session not found") && Now() == old(Now())
        else
          var session := Lookup(old(sessions), sid.value).value;
          && response == TextResponse(200, "ok") && disk == old(disk)
          && sessions == Assign(old(sessions), sid.value, session.(cancelled := true))
          && Transfer.AllCancelled(old(transfers.Now()), transfers.Now(), Ids(session.files))
    {
      hide Inv, Transfer.Apply, Lookup, Assign, Ids, Transfer.AllCancelled, Run, IsRun, TextResponse;
      steps := [];
      EmptyRun(Now());
      var sid := Lookup(query, "sessionId");
      if sid.None? { return TextResponse(400, "missing sessionId"), steps; }
      var session := Lookup(sessions, sid.value);
      if session.None? { return TextResponse(404, "session not found"), steps; }
      ghost var t, ids := |threads|, Ids(session.value.files);
      steps := [CancelSession(sid.value)];
      OneStep(Now(), steps[0]);
      sessions := Assign(sessions, sid.value, session.value.(cancelled := true));
      threads := threads + [Cancelling(ids)];
      var files := session.value.files;
      NoneAreCancelled(transfers.Now());
      assert ids[..0] == [] && ids[0..] == ids;
      for i := 0 to |files|
        invariant t < |threads| && threads[t] == Cancelling(ids[i..]) && disk == old(disk)
        invariant sessions == Assign(old(sessions), sid.value, session.value.(cancelled := true))
        invariant Transfer.AllCancelled(old(transfers.Now()), transfers.Now(), ids[..i])
        invariant RanFrom(old(Now()), steps)
      {
        IdAt(files, i);
        steps := CancelOne(t, ids[i..], files[i].value.transferId, old(Now()), steps, old(transfers.Now()), ids[..i]);
        assert ids[..i] + [ids[i]] == ids[..i + 1] && ids[i..][1..] == ids[i + 1..];
      }
      assert ids[..|files|] == ids;
      response := TextResponse(200, "ok");
    }

    /** One round of the loop over the cancelled session's files. */
    method CancelOne(ghost t: nat, ghost ids: seq<nat>, id: nat, ghost start: Receiver, ghost before: seq<Step>,
                     ghost was: Transfer.State, ghost done: seq<nat>)
        returns (ghost steps: seq<Step>)
      requires RanFrom(start, before) && t < |threads| && threads[t] == Cancelling(ids) && ids != [] && ids[0] == id
      requires Transfer.AllCancelled(was, transfers.Now(), done)
      modifies this`threads, transfers
      ensures RanFrom(start, steps) && threads == old(threads)[t := Cancelling(ids[1..])]
      ensures Transfer.AllCancelled(was, transfers.Now(), done + [id])
    {
      hide Inv, Transfer.Apply, Run, IsRun, Transfer.AllCancelled;
      AppendStep(start, before, CancelItem(t));
      steps := before + [CancelItem(t)];
      Transfer.CancelOneMore(was, transfers.Now(), done, id);
      threads := threads[t := Cancelling(ids[1..])];
      var found := transfers.Cancel(id);
    }

    /** One connection. What is stored and answered is what `Serve` says of its bytes, if the end of
        the head arrives; it does for every way the bytes arrive if it is not late. */
    method HandleClient(stream: HttpStream, env: Env) returns (ghost steps: seq<Step>)
      requires Inv(Now()) && FreshId(Now(), env.sid)
      modifies this, transfers, stream
      ensures RanFrom(old(Now()), steps)
      ensures ValidDisk(old(disk))
      ensures
        var outcome := if HeadArrives("", old(stream.pieces))
                       then Serve(old(sessions), old(disk), old(transfers.nextId), old(stream.Bytes()), env)
                       else Outcome(old(sessions), old(disk), TextResponse(400, "bad request"));
        outcome.Outcome? ==>
          && sessions == outcome.sessions && disk == outcome.disk
          && (old(stream.room) > 0 ==> stream.sent == old(stream.sent) + ResponseText(outcome.response))
    {
      hide Inv, FreshId, Run, IsRun, RequestOf, Admit, PendingFiles, Emplace, SetComplete, Lookup, DecodeFrom,
           RequestOfBody, ResponseText, PrepareAnswer, StoredAs, UploadOutcome, Assign, HeadArrives, Route, Enabled, Next,
           IsUndefinedUpload, Transfer.Ended, Find, Concat, TextResponse, JsonResponse, ContentLength, NextRead;
      SessionsOf(Now());
      EmptyRun(Now());
      steps := [];
      var head, inHand := ParseRequestHeaders(stream);
      var response;
      if head.NoHead? {
        response := TextResponse(400, "bad request");
      } else if head.Threw? {
        return;
      } else {
        var request := head.request;
        ghost var total := old(stream.Bytes());
        ghost var body := total[Find(total, END, 0).value + 4..];
        if request.verb == "POST" && (request.path == ROUTE_UPLOAD || request.path == ROUTE_UPLOAD_V1) {
          var uploaded;
          uploaded, steps := HandleUpload(stream, request, inHand, request.path == ROUTE_UPLOAD, env.openable, body);
          if uploaded.None? { return; }
          response := uploaded.value;
        } else {
          BodyInHand(request, inHand, stream.Bytes(), body);
          var ok, text := ReadRemainingBody(stream, inHand, request.contentLength);
          if !ok {
            response := TextResponse(400, "bad request body");
          } else {
            response, steps := RouteRequest(request, text, env);
          }
        }
      }
      var written := stream.WriteAll(ResponseText(response));
    }

    method RouteRequest(request: Request, body: string, env: Env) returns (response: HttpResponse,
          ghost steps: seq<Step>)
      requires Inv(Now()) && FreshId(Now(), env.sid)
      modifies this, transfers
      ensures RanFrom(old(Now()), steps)
      ensures Outcome(sessions, disk, response)
           == Route(old(sessions), old(disk), old(transfers.nextId), request, body, env)
    {
      hide Inv, FreshId, Run, IsRun, PendingFiles, Emplace, RequestOfBody, PrepareAnswer, Assign;
      if request.verb == "POST" && (request.path == ROUTE_PREPARE || request.path == ROUTE_PREPARE_V1) {
        response, steps :=
          HandlePrepareUpload(body, request.path == ROUTE_PREPARE, env.sid, env.tokens, env.remoteIp, env.open);
      } else if request.verb == "POST" && (request.path == ROUTE_CANCEL || request.path == ROUTE_CANCEL_V1) {
        response, steps := HandleCancel(request.query);
      } else {
        EmptyRun(Now());
        response, steps := env.other(request), [];
      }
    }

    /** `openable` says whether the destination can be opened; writes to it succeed. `body` is the
        body of the request, part of which is in hand. */
    method HandleUpload(stream: HttpStream, request: Request, inHand: string, v2: bool, openable: bool,
          ghost body: string)
        returns (response: Option<HttpResponse>, ghost steps: seq<Step>)
      requires Inv(Now())
      requires Handover(request, inHand, stream.Bytes(), body)
      modifies this, transfers, stream`pieces
      ensures RanFrom(old(Now()), steps)
      ensures
        var a := Admit(old(sessions), v2, request.query, request.chunked, request.contentLength);
        if a.Refused? then response == Some(TextResponse(a.status, a.text)) && Now() == old(Now())
        else if !openable then
          && response == Some(TextResponse(500, "failed to open destination"))
          && sessions == old(sessions) && disk == old(disk)
          && Transfer.Ended(old(transfers.Now()), transfers.Now(), a.ticket.transferId, Some("failed to open destination"))
        else if IsUndefinedUpload(request, body) then response.None?
        else
          var (data, error) := UploadOutcome(request, a.ticket.size, body);
          && disk == StoredAs(old(disk), a.ticket.destination, data, error.None?)
          && Transfer.Ended(old(transfers.Now()), transfers.Now(), a.ticket.transferId, error)
          && (if error.Some? then response == Some(TextResponse(400, error.value)) && sessions == old(sessions)
              else response == Some(JsonResponse(200, Obj([])))
                   && sessions == SetComplete(old(sessions), a.ticket.session, a.ticket.fileId))
    {
      hide Inv, Transfer.Apply, Admit, SetComplete, DecodeFrom, OpenTruncated, Agrees, Transfer.Ended, Transfer.OnlyTouched,
           Run, IsRun, StoredAs, UploadOutcome, IsUndefinedUpload, TextResponse, JsonResponse, Find, Concat;
      steps := [];
      var a := Admit(sessions, v2, request.query, request.chunked, request.contentLength);
      SessionsOf(Now());
      if a.Refused? {
        EmptyRun(Now());
        return Some(TextResponse(a.status, a.text)), steps;
      }
      AdmittedAgrees(sessions, v2, request.query, request.chunked, request.contentLength);
      var k, chunked, length := a.ticket, request.chunked, request.contentLength;
      ghost var t := |threads|;
      ghost var begin := BeginUpload(v2, request.query, chunked, length);
      OneStep(Now(), begin);
      steps := [begin];
      threads := threads + [Opening(k, chunked, length)];

      if !openable {
        AppendStep(old(Now()), steps, OpenFile(t, false));
        steps := steps + [OpenFile(t, false)];
        threads := threads[t := Failing(k, "failed to open destination")];
        steps := FailTransfer(t, k, "failed to open destination", old(Now()), steps);
        return Some(TextResponse(500, "failed to open destination")), steps;
      }
      var error;
      error, steps := StoreUpload(stream, request, inHand, t, k, body, old(Now()), steps);
      response := if error.None? then None
                  else Some(if error.value.Some? then TextResponse(400, error.value.value) else JsonResponse(200, Obj([])));
    }

    /** The upload once its destination is open; `None` where the next write has no defined meaning. */
    method StoreUpload(stream: HttpStream, request: Request, inHand: string, ghost t: nat, k: Ticket, ghost body: string,
                       ghost start: Receiver, ghost before: seq<Step>)
        returns (result: Option<Option<string>>, ghost steps: seq<Step>)
      requires Handover(request, inHand, stream.Bytes(), body) && RanFrom(start, before) && t < |threads| && Inv(Now())
      requires threads[t] == Opening(k, request.chunked, request.contentLength)
      requires !request.chunked ==> request.contentLength == k.size
      modifies this, transfers, stream`pieces
      ensures RanFrom(start, steps)
      ensures if IsUndefinedUpload(request, body) then result.None?
        else
          var (data, error) := UploadOutcome(request, k.size, body);
          && result == Some(error) && ValidDisk(old(disk))
          && disk == StoredAs(old(disk), k.destination, data, error.None?)
          && Transfer.Ended(old(transfers.Now()), transfers.Now(), k.transferId, error)
          && sessions == if error.None? then SetComplete(old(sessions), k.session, k.fileId) else old(sessions)
    {
      hide Inv, Transfer.Apply, SetComplete, DecodeFrom, OpenTruncated, Transfer.Ended, Transfer.OnlyTouched, Run, IsRun;
      var chunked, length := request.chunked, request.contentLength;
      SessionsOf(Now());
      AppendStep(start, before, OpenFile(t, true));
      steps := before + [OpenFile(t, true)];
      var (truncated, file) := OpenTruncated(disk, k.destination);
      disk := truncated;
      threads := threads[t := Writing(k, chunked, length, file, 0, true)];
      TruncatedIsEmpty(old(disk), k.destination);

      var written: nat, error: Option<string> := 0, None;
      if chunked {
        var verdict;
        verdict, written, steps := ReceiveChunked(stream, inHand, body, t, k, length, file, start, steps);
        if verdict == Undefined { return None, steps; }
        if verdict != Accepted { error := Some("incomplete upload"); }
        else if written != k.size { error := Some("file size mismatch"); }
      } else {
        var complete;
        complete, written, steps := ReceivePlain(stream, inHand, body, t, k, length, file, start, steps);
        if !complete { error := Some("incomplete upload"); }
        assert body[..|body|] == body;
      }
      label Written:
      steps := EndUpload(t, k, chunked, length, file, written, error, start, steps);
      Transfer.EndedFrom(old(transfers.Now()), old@Written(transfers.Now()), transfers.Now(), k.transferId, error);
      result := Some(error);
    }

    /** The chunked branch: the decoder's output goes to the file chunk by chunk. */
    method ReceiveChunked(stream: HttpStream, inHand: string, ghost body: string, ghost t: nat, k: Ticket,
                          ghost length: nat, file: nat, ghost start: Receiver, ghost before: seq<Step>)
        returns (verdict: Verdict, written: nat, ghost steps: seq<Step>)
      requires inHand + stream.Bytes() == body && RanFrom(start, before)
      requires t < |threads| && threads[t] == Writing(k, true, length, file, 0, true)
      requires file < |disk.bodies| && disk.bodies[file] == ""
      modifies this`disk, this`threads, transfers, stream`pieces
      ensures RanFrom(start, steps) && sessions == old(sessions)
      ensures Transfer.OnlyTouched(old(transfers.Now()), transfers.Now(), k.transferId)
      ensures verdict == Decode(body).verdict && written == |Decode(body).data|
      ensures threads == old(threads)[t := Writing(k, true, length, file, written, true)]
      ensures disk == old(disk).(bodies := old(disk).bodies[file := Decode(body).data])
    {
      hide Inv, Transfer.Apply, DecodeFrom, Next, Run, IsRun, RanFrom, Transfer.OnlyTouched;
      ghost var was := transfers.Now();
      Transfer.Untouched(was, k.transferId);
      var out, total, reports;
      verdict, out, total, reports := ReadChunkedBodyToStream(stream, inHand);
      ReportsAreTotals(body, 0);
      written, steps := 0, before;
      assert out[..0] == "";
      for i := 0 to |reports|
        invariant sessions == old(sessions) && written == (if i == 0 then 0 else reports[i - 1]) <= |out|
        invariant threads == old(threads)[t := Writing(k, true, length, file, written, true)]
        invariant disk == old(disk).(bodies := old(disk).bodies[file := out[..written]])
        invariant RanFrom(start, steps) && Transfer.OnlyTouched(was, transfers.Now(), k.transferId)
      {
        assert reports[i] <= |out| by { assert reports[i] <= reports[|reports| - 1]; }
        var data := out[written..reports[i]];
        assert out[..written] + data == out[..reports[i]];
        ghost var now := transfers.Now();
        steps := WritePiece(t, k, true, length, file, written, data, start, steps);
        Transfer.TouchedTwice(was, now, transfers.Now(), k.transferId);
        written := reports[i];
      }
      assert out[..|out|] == out;
    }

    /** The branch for a body of known length. */
    method ReceivePlain(stream: HttpStream, inHand: string, ghost body: string, ghost t: nat, k: Ticket,
                        length: nat, file: nat, ghost start: Receiver, ghost before: seq<Step>)
        returns (complete: bool, written: nat, ghost steps: seq<Step>)
      requires |inHand| <= length && inHand <= body && RanFrom(start, before)
      requires |inHand| < length ==> inHand + stream.Bytes() == body
      requires t < |threads| && threads[t] == Writing(k, false, length, file, 0, true)
      requires file < |disk.bodies| && disk.bodies[file] == ""
      modifies this`disk, this`threads, transfers, stream`pieces
      ensures RanFrom(start, steps) && sessions == old(sessions)
      ensures Transfer.OnlyTouched(old(transfers.Now()), transfers.Now(), k.transferId)
      ensures complete == (|body| >= length) && written == if complete then length else |body|
      ensures threads == old(threads)[t := Writing(k, false, length, file, written, true)]
      ensures disk == old(disk).(bodies := old(disk).bodies[file := body[..written]])
    {
      hide Inv, Transfer.Apply, Next, Run, IsRun, RanFrom, NextRead, Concat, Transfer.OnlyTouched;
      ghost var was := transfers.Now();
      Transfer.Untouched(was, k.transferId);
      written, steps, complete := 0, before, true;
      assert body[..0] == "";
      if inHand != "" {
        assert "" + inHand == inHand == body[..|inHand|];
        steps := WritePiece(t, k, false, length, file, 0, inHand, start, steps);
        written := |inHand|;
      }
      while written < length
        invariant sessions == old(sessions) && file < |disk.bodies|
        invariant written <= length && written <= |body|
        invariant written < length ==> body == body[..written] + stream.Bytes()
        invariant threads == old(threads)[t := Writing(k, false, length, file, written, true)]
        invariant disk == old(disk).(bodies := old(disk).bodies[file := body[..written]])
        invariant RanFrom(start, steps) && Transfer.OnlyTouched(was, transfers.Now(), k.transferId)
        decreases length - written
      {
        var remaining := length - written;
        var got := stream.Read(if remaining < 64 * 1024 then remaining else 64 * 1024);
        if got == "" { return false, written, steps; }
        MoreTaken(body, written, got, stream.Bytes());
        ghost var now := transfers.Now();
        steps := WritePiece(t, k, false, length, file, written, got, start, steps);
        Transfer.TouchedTwice(was, now, transfers.Now(), k.transferId);
        written := written + |got|;
      }
    }

    /** Success marks the file complete; failure closes and removes it. */
    method EndUpload(ghost t: nat, k: Ticket, chunked: bool, length: nat, file: nat, written: nat, error: Option<string>,
                     ghost start: Receiver, ghost before: seq<Step>)
        returns (ghost steps: seq<Step>)
      requires RanFrom(start, before)
      requires t < |threads| && threads[t] == Writing(k, chunked, length, file, written, true)
      requires error.None? || error.value == "incomplete upload" || error.value == "file size mismatch"
      requires error.None? ==> if chunked then written == k.size else written == length
      requires error == Some("file size mismatch") ==> chunked && written != k.size
      modifies this, transfers
      ensures RanFrom(start, steps)
      ensures disk == if error.None? then old(disk) else RemoveName(old(disk), k.destination)
      ensures sessions == if error.None? then SetComplete(old(sessions), k.session, k.fileId) else old(sessions)
      ensures Transfer.Ended(old(transfers.Now()), transfers.Now(), k.transferId, error)
    {
      hide Inv, Transfer.Apply, SetComplete, Run, IsRun, Transfer.Ended, Transfer.OnlyTouched;
      ghost var good := error != Some("incomplete upload");
      SessionsOf(Now());
      AppendStep(start, before, EndWriting(t, good));
      steps := before + [EndWriting(t, good)];
      if error.Some? {
        disk := RemoveName(disk, k.destination);
        threads := threads[t := Failing(k, error.value)];
        steps := FailTransfer(t, k, error.value, start, steps);
        return;
      }
      Transfer.UpdateTouches(transfers.Now(), Transfer.SetStatus(k.transferId, Transfer.Completed));
      var found := transfers.SetStatus(k.transferId, Transfer.Completed);
      threads := threads[t := Marking(k, written)];
      AppendStep(start, steps, MarkComplete(t));
      steps := steps + [MarkComplete(t)];
      sessions := SetComplete(sessions, k.session, k.fileId);
      threads := threads[t := Succeeded(k, written)];
    }

    method FailTransfer(ghost t: nat, k: Ticket, text: string, ghost start: Receiver, ghost before: seq<Step>)
        returns (ghost steps: seq<Step>)
      requires RanFrom(start, before) && t < |threads| && threads[t] == Failing(k, text)
      modifies this`threads, transfers
      ensures RanFrom(start, steps)
      ensures Transfer.Ended(old(transfers.Now()), transfers.Now(), k.transferId, Some(text))
    {
      hide Inv, Transfer.Apply, Run, IsRun, Transfer.Ended, Transfer.OnlyTouched;
      AppendStep(start, before, FailItem(t));
      steps := before + [FailItem(t)];
      Transfer.UpdateTouches(transfers.Now(), Transfer.Fail(k.transferId, text));
      threads := threads[t := Failed];
      var found := transfers.Fail(k.transferId, text);
    }

    /** One write to the open destination, and its progress report. */
    method WritePiece(ghost t: nat, k: Ticket, ghost chunked: bool, ghost length: nat, file: nat, written: nat,
                      data: string, ghost start: Receiver, ghost before: seq<Step>)
        returns (ghost steps: seq<Step>)
      requires RanFrom(start, before) && t < |threads| && threads[t] == Writing(k, chunked, length, file, written, true)
      requires !chunked ==> written + |data| <= length
      requires file < |disk.bodies| && |disk.bodies[file]| == written
      modifies this`disk, this`threads, transfers
      ensures RanFrom(start, steps) && sessions == old(sessions)
      ensures Transfer.OnlyTouched(old(transfers.Now()), transfers.Now(), k.transferId)
      ensures threads == old(threads)[t := Writing(k, chunked, length, file, written + |data|, true)]
      ensures disk == old(disk).(bodies := old(disk).bodies[file := old(disk).bodies[file] + data])
    {
      hide Inv, Transfer.Apply, Run, IsRun, Transfer.OnlyTouched;
      SessionsOf(Now());
      AppendStep(start, before, Write(t, data));
      steps := before + [Write(t, data)];
      assert Splice(disk.bodies[file], written, data) == disk.bodies[file] + data;
      disk := WriteAt(disk, file, written, data);
      threads := threads[t := Writing(k, chunked, length, file, written + |data|, false)];
      AppendStep(start, steps, Report(t));
      steps := steps + [Report(t)];
      Transfer.UpdateTouches(transfers.Now(), Transfer.SetProgress(k.transferId, written + |data|));
      threads := threads[t := Writing(k, chunked, length, file, written + |data|, true)];
      var found := transfers.SetProgress(k.transferId, written + |data|);
    }

    /** `sid` and `tokens` are what the random generator draws; the id is taken to be fresh. */
    method HandlePrepareUpload(body: string, v2: bool, sid: string, tokens: nat -> string, remoteIp: string, open: Open)
        returns (response: HttpResponse, ghost steps: seq<Step>)
      requires Inv(Now()) && FreshId(Now(), sid)
      modifies this, transfers
      ensures RanFrom(old(Now()), steps) && disk == old(disk)
      ensures
        var dto := RequestOfBody(body, open);
        if dto.None? then response == TextResponse(400, EXCEPTION_TEXT) && Now() == old(Now())
        else
          var files := PendingFiles(old(disk).names.Keys, old(transfers.nextId), dto.value.files, tokens, 0, []);
          && response == PrepareAnswer(v2, sid, files)
          && sessions == Emplace(old(sessions), sid, Session(files, false))
          && transfers.Now() == AllListed(old(transfers.Now()), dto.value.files, dto.value.info.info.alias, remoteIp)
    {
      hide Inv, Transfer.Apply, Emplace, FirstFree, Sanitized, RequestFrom, FreshId, TokensOf, Run, IsRun, ParseJson,
           Dump, ResponseJson, TokensMembers, FileListed, PendingFiles, AllListed;
      steps := [];
      var parser := new Parser(body);
      var json := parser.Parse();
      var dto := if json.None? then None else RequestFrom(json.value, open);
      if dto.None? {
        EmptyRun(Now());
        return TextResponse(400, EXCEPTION_TEXT), steps;
      }
      var todo, alias := dto.value.files, dto.value.info.info.alias;
      OneStep(Now(), BeginPrepare(sid, todo, alias, remoteIp));
      steps := [BeginPrepare(sid, todo, alias, remoteIp)];
      ghost var t := |threads|;
      threads := threads + [Preparing(sid, alias, remoteIp, todo, [], [], Searching(0))];
      var files, answer;
      files, answer, steps := PrepareFiles(t, sid, todo, tokens, alias, remoteIp, old(Now()), steps);
      AnswerIsTokens(Now(), t);
      AppendStep(old(Now()), steps, Publish(t));
      steps := steps + [Publish(t)];
      sessions := Emplace(sessions, sid, Session(files, false));
      threads := threads[t := Answered(sid, answer)];
      if v2 {
        response := JsonResponse(200, ResponseJson(PrepareResponse(sid, answer)));
      } else {
        response := JsonResponse(200, Obj(TokensMembers(answer)));
      }
    }

    /** The loop over the requested files. */
    method PrepareFiles(ghost t: nat, sid: string, todo: Entries<FileDto>, tokens: nat -> string, alias: string, ip: string,
                        ghost start: Receiver, ghost before: seq<Step>)
        returns (files: Entries<PendingFile>, answer: Entries<string>, ghost steps: seq<Step>)
      requires RanFrom(start, before) && t < |threads|
      requires threads[t] == Preparing(sid, alias, ip, todo, [], [], Searching(0))
      modifies this`threads, transfers
      ensures RanFrom(start, steps)
      ensures files == PendingFiles(disk.names.Keys, old(transfers.nextId), todo, tokens, 0, [])
      ensures threads == old(threads)[t := Preparing(sid, alias, ip, [], files, answer, Searching(0))]
      ensures transfers.Now() == AllListed(old(transfers.Now()), todo, alias, ip)
    {
      hide Inv, Emplace, FirstFree, Sanitized, Run, IsRun, FileListed, RanFrom, PendingFiles, AllListed;
      ghost var names, all := disk.names.Keys, PendingFiles(disk.names.Keys, transfers.nextId, todo, tokens, 0, []);
      files, answer, steps := [], [], before;
      for i := 0 to |todo|
        invariant threads == old(threads)[t := Preparing(sid, alias, ip, todo[i..], files, answer, Searching(0))]
        invariant RanFrom(start, steps)
        invariant PendingFiles(names, transfers.nextId, todo[i..], tokens, i, files) == all
        invariant AllListed(transfers.Now(), todo[i..], alias, ip) == AllListed(old(transfers.Now()), todo, alias, ip)
      {
        assert todo[i..][1..] == todo[i + 1..];
        ListedTakesAnId(transfers.Now(), todo[i].value, alias, ip);
        TodoStep(names, transfers.Now(), todo[i..], tokens, i, files, alias, ip);
        files, answer, steps := PrepareFileOf(t, todo[i].value, tokens(i), files, answer, alias, ip, start, steps);
      }
      NothingToDo(names, transfers.Now(), tokens, |todo|, files, alias, ip);
      assert todo[|todo|..] == [];
    }

    /** One round of the loop over the requested files. */
    method PrepareFileOf(ghost t: nat, dto: FileDto, token: string, files: Entries<PendingFile>, answer: Entries<string>,
                         alias: string, ip: string, ghost start: Receiver, ghost before: seq<Step>)
        returns (moreFiles: Entries<PendingFile>, moreAnswer: Entries<string>, ghost steps: seq<Step>)
      requires RanFrom(start, before) && t < |threads| && threads[t].Preparing? && threads[t].phase == Searching(0)
      requires threads[t].todo != [] && threads[t].todo[0].value == dto && threads[t].files == files
      requires threads[t].answer == answer && threads[t].alias == alias && threads[t].ip == ip
      modifies this`threads, transfers
      ensures RanFrom(start, steps)
      ensures moreFiles == Emplace(files, dto.id,
        PendingFile(dto, token, FirstFree(disk.names.Keys, Sanitized(dto.fileName), 0), old(transfers.nextId), false))
      ensures threads == old(threads)[t := Preparing(old(threads)[t].sid, alias, ip, old(threads)[t].todo[1..],
                                                     moreFiles, moreAnswer, Searching(0))]
      ensures transfers.Now() == FileListed(old(transfers.Now()), dto, alias, ip)
    {
      hide Inv, Transfer.Apply, Emplace, FirstFree, Sanitized, Run, IsRun, Candidate;
      var destination := UniqueDestinationPath(disk.names.Keys, dto.fileName);
      ghost var search := SearchSteps(Now(), t, 0);
      RunsJoin(start, before, search);
      threads := threads[t := threads[t].(phase := Found(destination))];
      steps := before + search;
      AppendStep(start, steps, ListFile(t));
      steps := steps + [ListFile(t)];
      var id := transfers.AddItem(Transfer.Receive, dto.fileName, dto.size, alias, ip);
      threads := threads[t := threads[t].(phase := Listed(destination, id))];
      AppendStep(start, steps, KeepFile(t, token));
      steps := steps + [KeepFile(t, token)];
      var found := transfers.SetStatus(id, Transfer.Preparing);
      moreFiles := Emplace(files, dto.id, PendingFile(dto, token, destination, id, false));
      moreAnswer := Emplace(answer, dto.id, token);
      threads := threads[t := Preparing(threads[t].sid, alias, ip, threads[t].todo[1..], moreFiles, moreAnswer,
                                        Searching(0))];
    }
  }

  /** The list after a prepare handler listed a file. */
  function FileListed(s: Transfer.State, dto: FileDto, alias: string, ip: string): Transfer.State {
    Transfer.Apply(Transfer.Apply(s, Transfer.Add(Transfer.Receive, dto.fileName, dto.size, alias, ip)),
                   Transfer.SetStatus(s.nextId, Transfer.Preparing))
  }

  lemma ListedTakesAnId(s: Transfer.State, dto: FileDto, alias: string, ip: string)
    ensures FileListed(s, dto, alias, ip).nextId == s.nextId + 1
  {
  }

  function AllListed(s: Transfer.State, todo: Entries<FileDto>, alias: string, ip: string): Transfer.State
    decreases |todo|
  {
    if todo == [] then s else AllListed(FileListed(s, todo[0].value, alias, ip), todo[1..], alias, ip)
  }

  lemma TodoStep(names: set<string>, s: Transfer.State, todo: Entries<FileDto>, tokens: nat -> string, i: nat,
                 before: Entries<PendingFile>, alias: string, ip: string)
    requires todo != []
    ensures var dto := todo[0].value;
            var pending := PendingFile(dto, tokens(i), FirstFree(names, Sanitized(dto.fileName), 0), s.nextId, false);
            PendingFiles(names, s.nextId, todo, tokens, i, before)
            == PendingFiles(names, s.nextId + 1, todo[1..], tokens, i + 1, Emplace(before, dto.id, pending))
    ensures AllListed(s, todo, alias, ip) == AllListed(FileListed(s, todo[0].value, alias, ip), todo[1..], alias, ip)
  {
    hide FirstFree, Sanitized, Emplace, FileListed;
  }

  lemma NothingToDo(names: set<string>, s: Transfer.State, tokens: nat -> string, i: nat, before: Entries<PendingFile>,
                    alias: string, ip: string)
    ensures PendingFiles(names, s.nextId, [], tokens, i, before) == before && AllListed(s, [], alias, ip) == s
  {
  }

  /** What is listed for a file: a transfer that is received, in preparation, with the file's name and size. */
  function ListedItem(id: nat, dto: FileDto, alias: string, ip: string): Transfer.Item {
    Transfer.Item(id, Transfer.Receive, Transfer.Preparing, dto.fileName, dto.size, 0, alias, ip, "")
  }

  lemma OneIsListed(s: Transfer.State, dto: FileDto, alias: string, ip: string)
    requires Transfer.Valid(s)
    ensures var r := FileListed(s, dto, alias, ip);
            && Transfer.Valid(r) && r.nextId == s.nextId + 1
            && Transfer.Get(r, s.nextId) == Some(ListedItem(s.nextId, dto, alias, ip))
            && forall id :: id != s.nextId ==> Transfer.Get(r, id) == Transfer.Get(s, id)
  {
    hide Transfer.Get, Transfer.Apply, Transfer.Valid;
    var add := Transfer.Add(Transfer.Receive, dto.fileName, dto.size, alias, ip);
    var t := Transfer.Apply(s, add);
    ListedTakesAnId(s, dto, alias, ip);
    Transfer.ApplyKeepsValid(s, add);
    Transfer.AddedIsListed(s, add);
    Transfer.ApplyKeepsValid(t, Transfer.SetStatus(s.nextId, Transfer.Preparing));
    forall id ensures Transfer.Get(FileListed(s, dto, alias, ip), id)
                   == if id == s.nextId then Some(ListedItem(id, dto, alias, ip)) else Transfer.Get(s, id)
    {
      Transfer.UpdateIs(t, Transfer.SetStatus(s.nextId, Transfer.Preparing), id);
      if id != s.nextId { AddedAtEnd(s, add, id); }
    }
  }

  lemma AddedAtEnd(s: Transfer.State, add: Transfer.Op, id: nat)
    requires add.Add? && id != s.nextId
    ensures Transfer.Get(Transfer.Apply(s, add), id) == Transfer.Get(s, id)
  {
    IndexOfMore(s.items, Transfer.NewItem(s.nextId, add), id);
  }

  lemma {:induction false} IndexOfMore(items: seq<Transfer.Item>, item: Transfer.Item, id: nat)
    requires item.id != id
    ensures Transfer.Index(items + [item], id) == Transfer.Index(items, id)
  {
    if items != [] {
      assert (items + [item])[1..] == items[1..] + [item];
      IndexOfMore(items[1..], item, id);
    }
  }

  /** Every requested file is listed under the id that its session stores, and no other item changes. */
  lemma {:induction false} AllAreListed(s: Transfer.State, todo: Entries<FileDto>, alias: string, ip: string)
    requires Transfer.Valid(s)
    ensures var r := AllListed(s, todo, alias, ip);
            && Transfer.Valid(r) && r.nextId == s.nextId + |todo|
            && (forall i :: 0 <= i < |todo| ==>
                  Transfer.Get(r, s.nextId + i) == Some(ListedItem(s.nextId + i, todo[i].value, alias, ip)))
            && forall id: nat :: id < s.nextId ==> Transfer.Get(r, id) == Transfer.Get(s, id)
    decreases |todo|
  {
    hide Transfer.Get, Transfer.Valid, FileListed, ListedItem;
    if todo != [] {
      var next := FileListed(s, todo[0].value, alias, ip);
      OneIsListed(s, todo[0].value, alias, ip);
      AllAreListed(next, todo[1..], alias, ip);
      assert forall i :: 0 < i < |todo| ==> todo[i] == todo[1..][i - 1] && s.nextId + i == next.nextId + (i - 1);
    }
  }

  /** The looks at the inbox from the `i`-th candidate on, when nobody else changes it. */
  lemma {:induction false} SearchSteps(s: Receiver, t: nat, i: nat) returns (steps: seq<Step>)
    requires Inv(s) && t < |s.threads| && s.threads[t].Preparing? && s.threads[t].todo != []
    requires s.threads[t].phase == Searching(i)
    ensures IsRun(s, steps) && forall x <- steps :: !x.OtherTransfer?
    ensures
      var th := s.threads[t];
      var name := FirstFree(s.disk.names.Keys, Sanitized(th.todo[0].value.fileName), i);
      && Run(s, steps) == s.(threads := s.threads[t := th.(phase := Found(name))])
      && Inv(Run(s, steps))
    decreases LAST_SUFFIX + 1 - i
  {
    hide Inv, Candidate, Sanitized;
    var th, n := s.threads[t], Next(s, Probe(t));
    StepKeepsInv(s, Probe(t));
    OneStep(s, Probe(t));
    steps := [Probe(t)];
    if n.threads[t].phase.Searching? {
      var more := SearchSteps(n, t, i + 1);
      steps := steps + more;
      RunsJoin(s, [Probe(t)], more);
      assert n.threads[t := th.(phase := Run(n, more).threads[t].phase)]
          == s.threads[t := th.(phase := Run(n, more).threads[t].phase)];
    } else {
      ProbeFinds(s.disk.names.Keys, Sanitized(th.todo[0].value.fileName), i);
    }
  }

  lemma ProbeFinds(names: set<string>, clean: string, i: nat)
    ensures Probed(names, clean, i).Found? ==> Probed(names, clean, i).name == FirstFree(names, clean, i)
  {
    hide Candidate;
  }

  lemma {:induction false} IdAt(files: Entries<PendingFile>, i: nat)
    requires i < |files|
    ensures Ids(files)[i] == files[i].value.transferId
  {
    if i > 0 { IdAt(files[1..], i - 1); }
  }

  lemma TruncatedIsEmpty(d: Disk, name: string)
    requires ValidDisk(d)
    ensures var (r, file) := OpenTruncated(d, name); r == r.(bodies := r.bodies[file := ""]) && r.bodies[file] == ""
  {
  }

  /** The request in a body; `None` where parsing or decoding throws. */
  function RequestOfBody(body: string, open: Open): Option<PrepareRequest> {
    var json :- ParseJson(body);
    RequestFrom(json, open)
  }

  lemma AnswerIsTokens(s: Receiver, t: nat)
    requires Inv(s) && t < |s.threads| && s.threads[t].Preparing?
    ensures TokensOf(s.threads[t].files) == s.threads[t].answer
  {
    assert s.threads[t] in s.threads;
  }

  /** A run goes on by one step. */
  lemma AppendStep(s: Receiver, steps: seq<Step>, step: Step)
    requires Inv(s) && IsRun(s, steps) && Inv(Run(s, steps)) && Enabled(Run(s, steps), step)
    ensures IsRun(s, steps + [step]) && Run(s, steps + [step]) == Next(Run(s, steps), step)
    ensures Inv(Run(s, steps + [step]))
  {
    hide Inv, Enabled, Next, Run, IsRun;
    OneStep(Run(s, steps), step);
    RunsJoin(s, steps, [step]);
  }

  /** Whatever was cut off or is still unread, the body's first bytes are the same. */
  lemma BodyInHand(request: Request, inHand: string, unread: string, body: string)
    requires Handover(request, inHand, unread, body)
    ensures var n, all := request.contentLength, inHand + unread;
            |all| >= n <==> |body| >= n
    ensures var n, all := request.contentLength, inHand + unread;
            |body| >= n ==> all[..n] == body[..n]
  {
    if !request.chunked && |inHand| == request.contentLength { assert body[..|inHand|] == inHand; }
  }

  lemma EmptyRun(s: Receiver)
    requires Inv(s)
    ensures IsRun(s, []) && Run(s, []) == s
  {
  }

  lemma OneStep(s: Receiver, step: Step)
    requires Inv(s) && Enabled(s, step)
    ensures IsRun(s, [step]) && Run(s, [step]) == Next(s, step) && Inv(Next(s, step))
  {
    hide Inv, Enabled, Next;
    StepKeepsInv(s, step);
    assert [step][1..] == [];
  }

  lemma SessionsOf(s: Receiver)
    requires Inv(s)
    ensures Sorted(s.sessions) && ValidDisk(s.disk)
  {
  }
}
