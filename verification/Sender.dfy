/** Sending files: one request that announces them, one upload for each file the receiver wants. The
    driver is written down on values; the methods work on the transfer list while the rest of the
    program uses it too. */
module Sender {
  import opened Text
  import opened Numerals
  import opened OrderedMap
  import opened JsonPrinter
  import opened JsonParser
  import opened Protocol
  import opened HttpStreams
  import opened Query
  import opened Http
  import opened HttpResponse
  import Transfer

  const BUFFER_SIZE := 64 * 1024

  /** A source file: whether it can be opened for the check and for the upload, the size the file
      system gives (`None` where asking throws), and the bytes read from it. */
  datatype Source = Source(name: string, readable: bool, size: Option<nat>, opens: bool, data: string)

  /** A connection: how many writes it takes, and the pieces that come back on it. */
  datatype Link = NoRoute(error: string) | Link(room: nat, pieces: Pieces)

  /** The resolved target. */
  datatype Peer = Peer(ip: string, port: nat, alias: string, v2: bool)

  /** What a send meets: `cancel(n)` is what the `n`-th look at the cancel flag sees, `links(n)` the
      `n`-th connection. */
  datatype Env = Env(peer: Peer, self: InfoRegister, open: Open, cancel: nat -> bool, links: nat -> Link)

  datatype SendFilesResult = SendFilesResult(ok: bool, cancelled: bool, error: string)

  const SENT := SendFilesResult(true, false, "")
  const CANCELLED := SendFilesResult(false, true, "send cancelled")

  function SendFailed(message: string): SendFilesResult {
    SendFilesResult(false, false, message)
  }

  /** How often the flag was read, what was written on each connection, and the send's own items
      (their ids left out). */
  datatype Sending = Sending(samples: nat, sent: seq<string>, items: seq<Transfer.Item>)

  /** `result` is `None` where an exception ends the send. */
  datatype Outcome = Outcome(result: Option<SendFilesResult>, state: Sending)

  // ---------- Messages ----------

  function CompactBody(body: string): string {
    var flat := seq(|body|, i requires 0 <= i < |body| =>
      if body[i] == '\r' || body[i] == '\n' || body[i] == '\t' then ' ' else body[i]);
    if |flat| > 120 then flat[..120] + "..." else flat
  }

  function FailureDetail(r: HttpResult): string {
    if r.error != "" then r.error
    else if r.status == 0 && r.body == "" then "connection failed or no response"
    else CompactBody(r.body)
  }

  function PrepareFailure(r: HttpResult): string {
    "prepare-upload failed status=" + IntText(r.status) + " body=" + FailureDetail(r)
  }

  function UploadFailure(name: string, r: HttpResult): string {
    "upload failed file=" + name + " status=" + IntText(r.status) + " body=" + FailureDetail(r)
  }

  // ---------- One exchange ----------

  /** `request_raw`: the result, and what was written. */
  function Exchange(link: Link, text: string): (Option<HttpResult>, string) {
    match link
    case NoRoute(error) => (Some(HttpResult(0, "", error)), "")
    case Link(room, pieces) =>
      if room == 0 then (Some(HttpResult(0, "", "HTTP request write failed")), "")
      else (ReplyOf(pieces), text)
  }

  /** An upload under way: `note` is the text put into the result body on the way. */
  datatype Posting = Posting(ok: bool, sent: string, room: nat, samples: nat, note: string, item: Transfer.Item)

  function Reported(item: Transfer.Item, bytes: nat): Transfer.Item {
    Transfer.Updated(item, Transfer.SetProgress(item.id, bytes))
  }

  /** The loop of `post_file_raw` from `data` on. */
  function PostPieces(p: Posting, data: string, uploaded: nat, cancel: nat -> bool): Posting
    decreases |data|
  {
    if !p.ok then p
    else if cancel(p.samples) then p.(ok := false, samples := p.samples + 1, note := "cancelled")
    else if data == "" then p.(samples := p.samples + 1)
    else if p.room == 0 then p.(ok := false, samples := p.samples + 1)
    else
      var n := if |data| < BUFFER_SIZE then |data| else BUFFER_SIZE;
      var next := Posting(true, p.sent + data[..n], p.room - 1, p.samples + 1, "", Reported(p.item, uploaded + n));
      if n < BUFFER_SIZE then next else PostPieces(next, data[n..], uploaded + n, cancel)
  }

  function UploadReply(r: HttpResult): HttpResult {
    if r.error == READ_FAILED then r.(error := "HTTP upload response read failed") else r
  }

  datatype Posted = Posted(reply: Option<HttpResult>, sent: string, samples: nat, item: Transfer.Item)

  /** The end of `post_file_raw`. */
  function PostEnd(p: Posting, pieces: Pieces, cancel: nat -> bool): Posted {
    if p.ok && !cancel(p.samples) then
      var r := ReplyOf(pieces);
      Posted(if r.None? then None else Some(UploadReply(r.value)), p.sent, p.samples + 1, p.item)
    else
      var n := if p.ok then p.samples + 1 else p.samples;
      Posted(Some(if cancel(n) then HttpResult(0, "cancelled", "") else HttpResult(0, p.note, "HTTP upload write failed")),
             p.sent, n + 1, p.item)
  }

  function PostFile(link: Link, head: string, data: string, cancel: nat -> bool, samples: nat,
        item: Transfer.Item): Posted {
    match link
    case NoRoute(error) => Posted(Some(HttpResult(0, "", error)), "", samples, item)
    case Link(room, pieces) =>
      var start := if room == 0 then Posting(false, "", 0, samples, "", item)
                   else Posting(true, head, room - 1, samples, "", item);
      PostEnd(PostPieces(start, data, 0, cancel), pieces, cancel)
  }

  // ---------- The requests ----------

  function FileOf(source: Source, i: nat, open: Open): FileDto
    requires source.size.Some?
  {
    FileDto(Numeral(i, 10), source.name, source.size.value, open.mime(source.name), "", "")
  }

  function FilesOf(sources: seq<Source>, open: Open): (files: seq<FileDto>)
    requires forall s <- sources :: s.size.Some?
    ensures |files| == |sources|
  {
    seq(|sources|, i requires 0 <= i < |sources| => assert sources[i] in sources; FileOf(sources[i], i, open))
  }

  /** The files keyed by id. */
  function FileMap(files: seq<FileDto>): Entries<FileDto> {
    if files == [] then []
    else
      var last := files[|files| - 1];
      Emplace(FileMap(files[..|files| - 1]), last.id, last)
  }

  function PrepareText(env: Env, files: seq<FileDto>): string {
    RequestText("POST", if env.peer.v2 then ROUTE_PREPARE else ROUTE_PREPARE_V1, env.peer.ip, env.peer.port,
                "application/json", Dump(RequestJson(PrepareRequest(env.self, FileMap(files)), env.open)))
  }

  function UploadQuery(env: Env, fileId: string, token: string, sessionId: string): Entries<string> {
    var query := [Entry("fileId", fileId), Entry("token", token)];
    if env.peer.v2 then Emplace(query, "sessionId", sessionId) else query
  }

  function UploadPath(env: Env, fileId: string, token: string, sessionId: string): string {
    WithQuery(if env.peer.v2 then ROUTE_UPLOAD else ROUTE_UPLOAD_V1, UploadQuery(env, fileId, token, sessionId))
  }

  /** The head of an upload; the bytes of the file follow. */
  function UploadHead(peer: Peer, path: string, size: nat, fileType: string): string {
    Message(RequestLine("POST", path),
            [Field("Host", peer.ip + ":" + Numeral(peer.port, 10)), Field("Connection", "close"),
             Field("Content-Length", Numeral(size, 10)), Field("Content-Type", fileType)], "")
  }

  function CancelText(peer: Peer, sessionId: string): string {
    RequestText("POST", ROUTE_CANCEL + "?sessionId=" + sessionId, peer.ip, peer.port, "application/json", "")
  }

  /** The answer to the announcement; `None` where reading it throws. */
  function AnswerOf(v2: bool, body: string): Option<PrepareResponse> {
    var json :- ParseJson(body);
    if v2 then ResponseFrom(json)
    else if !json.Obj? then None
    else
      var files :- TokensFrom([], json.members);
      Some(PrepareResponse("", files))
  }

  // ---------- The driver on values ----------

  function With(s: Sending, i: nat, op: Transfer.Op): Sending
    requires i < |s.items| && !op.Add? && !op.ClearCompleted? && !op.Clear?
  {
    s.(items := s.items[i := Transfer.Updated(s.items[i], op)])
  }

  function AllWith(items: seq<Transfer.Item>, op: Transfer.Op): (r: seq<Transfer.Item>)
    requires !op.Add? && !op.ClearCompleted? && !op.Clear?
    ensures |r| == |items|
  {
    seq(|items|, i requires 0 <= i < |items| => Transfer.Updated(items[i], op))
  }

  function Announced(source: Source, peer: Peer): Transfer.Item
    requires source.size.Some?
  {
    Transfer.Item(0, Transfer.Send, Transfer.Preparing, source.name, source.size.value, 0, peer.alias, peer.ip, "")
  }

  /** How many sources come before the first that cannot be opened or sized. */
  function Usable(sources: seq<Source>): (k: nat)
    ensures k <= |sources|
    ensures forall i :: 0 <= i < k ==> sources[i].readable && sources[i].size.Some?
    ensures k < |sources| ==> !(sources[k].readable && sources[k].size.Some?)
  {
    if sources == [] || !(sources[0].readable && sources[0].size.Some?) then 0 else 1 + Usable(sources[1..])
  }

  /** Tells the receiver, then cancels every item. */
  function CancelSend(env: Env, s: Sending, sessionId: string): Outcome {
    var cancelled := AllWith(s.items, Transfer.Cancel(0));
    if !env.peer.v2 || sessionId == "" then Outcome(Some(CANCELLED), s.(items := cancelled))
    else
      var (reply, text) := Exchange(env.links(|s.sent|), CancelText(env.peer, sessionId));
      var told := s.(sent := s.sent + [text]);
      if reply.None? then Outcome(None, told) else Outcome(Some(CANCELLED), told.(items := cancelled))
  }

  datatype Round = Next(state: Sending, error: Option<string>) | Stop(outcome: Outcome)

  /** One round of the upload loop, after its first look at the flag. */
  function UploadOne(env: Env, source: Source, file: FileDto, i: nat, answer: PrepareResponse, s: Sending): (r: Round)
    requires i < |s.items|
    ensures r.Next? ==> |r.state.items| == |s.items|
  {
    var token := Lookup(answer.files, file.id);
    if token.None? then Next(With(s, i, Transfer.SetStatus(0, Transfer.Completed)), None)
    else if !source.opens then
      Stop(Outcome(Some(SendFailed("failed to open source file: " + file.fileName)),
                   With(s, i, Transfer.Fail(0, "failed to open source file"))))
    else
      var head := UploadHead(env.peer, UploadPath(env, file.id, token.value, answer.sessionId), file.size, file.fileType);
      var p := PostFile(env.links(|s.sent|), head, source.data, env.cancel, s.samples, s.items[i]);
      var done := Sending(p.samples, s.sent + [p.sent], s.items[i := p.item]);
      if p.reply.None? then Stop(Outcome(None, done))
      else if env.cancel(p.samples) then Stop(CancelSend(env, done.(samples := p.samples + 1), answer.sessionId))
      else Settle(done.(samples := p.samples + 1), i, file.fileName, p.reply.value)
  }

  function Settle(s: Sending, i: nat, name: string, reply: HttpResult): (r: Round)
    requires i < |s.items|
    ensures r.Next? && |r.state.items| == |s.items|
  {
    if reply.status != 200 then
      Next(With(s, i, Transfer.Fail(0, UploadFailure(name, reply))), Some(UploadFailure(name, reply)))
    else Next(With(s, i, Transfer.SetStatus(0, Transfer.Completed)), None)
  }

  /** The upload loop from file `i` on. */
  function UploadFrom(env: Env, sources: seq<Source>, files: seq<FileDto>, answer: PrepareResponse, i: nat, s: Sending,
                      firstError: Option<string>): Outcome
    requires i <= |sources| == |files| == |s.items|
    decreases |sources| - i
  {
    if i == |sources| then Outcome(Some(if firstError.None? then SENT else SendFailed(firstError.value)), s)
    else if env.cancel(s.samples) then CancelSend(env, s.(samples := s.samples + 1), answer.sessionId)
    else
      match UploadOne(env, sources[i], files[i], i, answer, s.(samples := s.samples + 1))
      case Stop(outcome) => outcome
      case Next(next, error) =>
        UploadFrom(env, sources, files, answer, i + 1, next, if firstError.None? then error else firstError)
  }

  function AllFailed(s: Sending, message: string): Outcome {
    Outcome(Some(SendFailed(message)), s.(items := AllWith(s.items, Transfer.Fail(0, message))))
  }

  /** From the reply to the announcement on. */
  function AfterReply(env: Env, sources: seq<Source>, files: seq<FileDto>, s: Sending, reply: HttpResult): Outcome
    requires |sources| == |files| == |s.items|
  {
    if reply.status == 204 then
      Outcome(Some(SENT), s.(items := AllWith(s.items, Transfer.SetStatus(0, Transfer.Completed))))
    else if reply.status != 200 then AllFailed(s, PrepareFailure(reply))
    else
      var answer := AnswerOf(env.peer.v2, reply.body);
      if answer.None? then AllFailed(s, "invalid prepare-upload response: " + CompactBody(reply.body))
      else if env.peer.v2 && answer.value.sessionId == "" then
        AllFailed(s, "prepare-upload response missing sessionId")
      else UploadFrom(env, sources, files, answer.value, 0, s, None)
  }

  function Announce(env: Env, sources: seq<Source>, files: seq<FileDto>, s: Sending): Outcome
    requires |sources| == |files| == |s.items|
  {
    if env.cancel(s.samples) then Outcome(Some(CANCELLED), Sending(s.samples + 1, s.sent, AllWith(s.items, Transfer.Cancel(0))))
    else
      var (reply, text) := Exchange(env.links(|s.sent|), PrepareText(env, files));
      var told := Sending(s.samples + 1, s.sent + [text], s.items);
      if reply.None? then Outcome(None, told)
      else if env.cancel(told.samples) then
        Outcome(Some(CANCELLED), Sending(told.samples + 1, told.sent, AllWith(s.items, Transfer.Cancel(0))))
      else AfterReply(env, sources, files, told.(samples := told.samples + 1), reply.value)
  }

  /** `send_files_http_detailed`. */
  function Send(env: Env, sources: seq<Source>): Outcome {
    if sources == [] then Outcome(Some(SendFailed("no files selected")), Sending(0, [], []))
    else
      var k := Usable(sources);
      var s := Sending(0, [], seq(k, i requires 0 <= i < k => Announced(sources[i], env.peer)));
      if k < |sources| then
        Outcome(if sources[k].readable then None
                else Some(SendFailed("source file is not readable: " + sources[k].name)), s)
      else
        assert forall x <- sources :: x.size.Some?;
        Announce(env, sources, FilesOf(sources, env.open), s)
  }

  // ---------- What a send tells its caller is what the list shows ----------

  ghost predicate IsDone(item: Transfer.Item) {
    item.status == Transfer.Completed && item.bytes == item.size
  }

  ghost predicate IsUntouched(item: Transfer.Item) {
    item.status == Transfer.Preparing && item.bytes == 0
  }

  /** Each of the first `n` items is done or failed, and `error` is what the first failed one shows. */
  ghost predicate Reports(items: seq<Transfer.Item>, n: nat, error: Option<string>)
    requires n <= |items|
  {
    && (forall j :: 0 <= j < n ==> IsDone(items[j]) || items[j].status == Transfer.Failed)
    && match error
       case None => forall j :: 0 <= j < n ==> IsDone(items[j])
       case Some(m) =>
         exists k :: 0 <= k < n && items[k].status == Transfer.Failed && items[k].error == m
                     && forall j :: 0 <= j < k ==> IsDone(items[j])
  }

  /** The items belong to the sources, one each. */
  ghost predicate Belong(items: seq<Transfer.Item>, sources: seq<Source>) {
    |items| == |sources|
    && forall j :: 0 <= j < |items| ==> sources[j].size == Some(items[j].size) && items[j].fileName == sources[j].name
  }

  /** A source that cannot be opened for its upload ends the send at once: the items behind it stay
      in preparation, those before it are settled. */
  ghost predicate StoppedAt(sources: seq<Source>, k: nat, error: string, items: seq<Transfer.Item>)
    requires k < |sources| == |items|
  {
    && !sources[k].opens && error == "failed to open source file: " + sources[k].name
    && items[k].status == Transfer.Failed && items[k].error == "failed to open source file"
    && (exists e :: Reports(items, k, e))
    && (forall j :: k < j < |items| ==> IsUntouched(items[j]))
  }

  /** What the items show for each way a send can end without an exception. */
  ghost predicate Matches(sources: seq<Source>, r: SendFilesResult, items: seq<Transfer.Item>) {
    if r.ok then Belong(items, sources) && Reports(items, |items|, None)
    else if r.cancelled then Belong(items, sources) && forall x <- items :: x.status == Transfer.Cancelled
    else
      var k := Usable(sources);
      if k == |sources| > 0 then
        Belong(items, sources)
        && (Reports(items, |items|, Some(r.error)) || exists k :: 0 <= k < |sources| && StoppedAt(sources, k, r.error, items))
      else
        && Belong(items, sources[..k]) && (forall x <- items :: IsUntouched(x))
        && r.error == if sources == [] then "no files selected" else "source file is not readable: " + sources[k].name
  }

  /** The result of every send agrees with the transfer list: success means every item is completed
      with all its bytes, cancelled means every item is cancelled, and an error is that of the
      lowest-index failed item, or that of the two early returns, which leave items in preparation. */
  lemma {:induction false} SendAgrees(env: Env, sources: seq<Source>)
    ensures var o := Send(env, sources); o.result.Some? ==> Matches(sources, o.result.value, o.state.items)
  {
    hide Announce;
    var k := Usable(sources);
    var items := seq(k, i requires 0 <= i < k => Announced(sources[i], env.peer));
    assert Belong(items, sources[..k]) && forall x <- items :: IsUntouched(x);
    if k == |sources| > 0 {
      assert sources[..k] == sources && forall x <- sources :: x.size.Some?;
      AnnounceAgrees(env, sources, FilesOf(sources, env.open), Sending(0, [], items));
    }
  }

  lemma {:induction false} AnnounceAgrees(env: Env, sources: seq<Source>, files: seq<FileDto>, s: Sending)
    requires 0 < |sources| == Usable(sources) == |files| && Belong(s.items, sources)
    requires forall j :: 0 <= j < |files| ==> files[j].fileName == sources[j].name
    requires forall x <- s.items :: IsUntouched(x)
    ensures var o := Announce(env, sources, files, s);
            o.result.Some? ==> Matches(sources, o.result.value, o.state.items)
  {
    hide PrepareText, Exchange, AfterReply, Usable;
    var cancelled := AllWith(s.items, Transfer.Cancel(0));
    assert Belong(cancelled, sources) && forall x <- cancelled :: x.status == Transfer.Cancelled;
    var (reply, text) := Exchange(env.links(|s.sent|), PrepareText(env, files));
    if reply.Some? {
      AfterReplyAgrees(env, sources, files, Sending(s.samples + 2, s.sent + [text], s.items), reply.value);
    }
  }

  lemma {:induction false} AllFailedAgrees(sources: seq<Source>, s: Sending, message: string)
    requires 0 < |sources| == Usable(sources) && Belong(s.items, sources)
    ensures Matches(sources, SendFailed(message), AllFailed(s, message).state.items)
  {
    var items := AllFailed(s, message).state.items;
    assert items[0].status == Transfer.Failed && items[0].error == message;
  }

  lemma {:induction false} AfterReplyAgrees(env: Env, sources: seq<Source>, files: seq<FileDto>, s: Sending,
        reply: HttpResult)
    requires 0 < |sources| == Usable(sources) == |files| && Belong(s.items, sources)
    requires forall j :: 0 <= j < |files| ==> files[j].fileName == sources[j].name
    requires forall x <- s.items :: IsUntouched(x)
    ensures var o := AfterReply(env, sources, files, s, reply);
            o.result.Some? ==> Matches(sources, o.result.value, o.state.items)
  {
    hide AnswerOf, UploadFrom, PrepareFailure, CompactBody, Matches, AllFailed, Usable;
    if reply.status == 204 {
      AllDoneAgrees(sources, s);
    } else if reply.status != 200 {
      AllFailedAgrees(sources, s, PrepareFailure(reply));
      AllFailedIs(s, PrepareFailure(reply));
    } else {
      var answer := AnswerOf(env.peer.v2, reply.body);
      var text := "invalid prepare-upload response: " + CompactBody(reply.body);
      AllFailedAgrees(sources, s, text);
      AllFailedIs(s, text);
      AllFailedAgrees(sources, s, "prepare-upload response missing sessionId");
      AllFailedIs(s, "prepare-upload response missing sessionId");
      if answer.Some? { UploadFromAgrees(env, sources, files, answer.value, 0, s, None); }
    }
  }

  lemma {:induction false} AllFailedIs(s: Sending, message: string)
    ensures AllFailed(s, message).result == Some(SendFailed(message))
  {
  }

  lemma {:induction false} AllDoneAgrees(sources: seq<Source>, s: Sending)
    requires Belong(s.items, sources)
    ensures Matches(sources, SENT, AllWith(s.items, Transfer.SetStatus(0, Transfer.Completed)))
  {
  }

  lemma {:induction false} CancelAgrees(env: Env, sources: seq<Source>, s: Sending, sessionId: string)
    requires Belong(s.items, sources)
    ensures var o := CancelSend(env, s, sessionId);
            o.result.Some? ==> o.result == Some(CANCELLED) && Matches(sources, CANCELLED, o.state.items)
  {
    hide Exchange, CancelText, Usable;
  }

  lemma {:induction false} PostKeeps(p: Posting, data: string, uploaded: nat, cancel: nat -> bool)
    ensures var q := PostPieces(p, data, uploaded, cancel).item; q.size == p.item.size && q.fileName == p.item.fileName
    decreases |data|
  {
    if p.ok && !cancel(p.samples) && data != "" && p.room > 0 && |data| >= BUFFER_SIZE {
      var n := BUFFER_SIZE;
      PostKeeps(Posting(true, p.sent + data[..n], p.room - 1, p.samples + 1, "", Reported(p.item, uploaded + n)),
                data[n..], uploaded + n, cancel);
    }
  }

  lemma {:induction false} PostFileKeeps(link: Link, head: string, data: string, cancel: nat -> bool, samples: nat,
        item: Transfer.Item)
    ensures var q := PostFile(link, head, data, cancel, samples, item).item;
            q.size == item.size && q.fileName == item.fileName
  {
    hide PostPieces, ReplyOf, UploadReply;
    if link.Link? {
      PostKeeps(if link.room == 0 then Posting(false, "", 0, samples, "", item)
                else Posting(true, head, link.room - 1, samples, "", item), data, 0, cancel);
    }
  }

  /** One round settles its item. */
  lemma {:induction false} UploadOneAgrees(env: Env, sources: seq<Source>, file: FileDto, i: nat,
        answer: PrepareResponse, s: Sending)
    requires i < |sources| && Belong(s.items, sources) && file.fileName == sources[i].name
    ensures match UploadOne(env, sources[i], file, i, answer, s)
            case Next(next, error) =>
              && Belong(next.items, sources) && next.items == s.items[i := next.items[i]]
              && (if error.None? then IsDone(next.items[i])
                  else next.items[i].status == Transfer.Failed && next.items[i].error == error.value)
            case Stop(o) =>
              o.result.Some? ==>
                || (o.result == Some(CANCELLED) && Matches(sources, CANCELLED, o.state.items))
                || (&& !sources[i].opens && o.result == Some(SendFailed("failed to open source file: " + sources[i].name))
                    && Belong(o.state.items, sources) && o.state.items == s.items[i := o.state.items[i]]
                    && o.state.items[i].status == Transfer.Failed && o.state.items[i].error == "failed to open source file")
  {
    hide PostFile, CancelSend, UploadHead, UploadPath, Matches, UploadFailure;
    var token := Lookup(answer.files, file.id);
    if token.Some? && sources[i].opens {
      var head := UploadHead(env.peer, UploadPath(env, file.id, token.value, answer.sessionId), file.size, file.fileType);
      var p := PostFile(env.links(|s.sent|), head, sources[i].data, env.cancel, s.samples, s.items[i]);
      PostFileKeeps(env.links(|s.sent|), head, sources[i].data, env.cancel, s.samples, s.items[i]);
      var done := Sending(p.samples + 1, s.sent + [p.sent], s.items[i := p.item]);
      assert Belong(done.items, sources);
      CancelAgrees(env, sources, done, answer.sessionId);
    }
  }

  lemma {:induction false} UploadFromAgrees(env: Env, sources: seq<Source>, files: seq<FileDto>,
        answer: PrepareResponse,
                                            i: nat, s: Sending, firstError: Option<string>)
    requires 0 < |sources| == Usable(sources) == |files| && i <= |sources| && Belong(s.items, sources)
    requires forall j :: 0 <= j < |files| ==> files[j].fileName == sources[j].name
    requires Reports(s.items, i, firstError) && forall j :: i <= j < |sources| ==> IsUntouched(s.items[j])
    ensures var o := UploadFrom(env, sources, files, answer, i, s, firstError);
            o.result.Some? ==> Matches(sources, o.result.value, o.state.items)
    decreases |sources| - i
  {
    hide UploadOne, CancelSend, Usable, Reports, IsDone;
    if i < |sources| {
      var now := s.(samples := s.samples + 1);
      if env.cancel(s.samples) {
        CancelAgrees(env, sources, now, answer.sessionId);
      } else {
        UploadOneAgrees(env, sources, files[i], i, answer, now);
        match UploadOne(env, sources[i], files[i], i, answer, now)
        case Next(next, error) =>
          ReportsNext(s.items, next.items, i, firstError, error);
          UploadFromAgrees(env, sources, files, answer, i + 1, next, if firstError.None? then error else firstError);
        case Stop(o) =>
          if o.result.Some? && o.result != Some(CANCELLED) {
            ReportsFront(s.items, o.state.items, i, firstError);
            assert StoppedAt(sources, i, o.result.value.error, o.state.items);
          }
      }
    }
  }

  lemma {:induction false} ReportsFront(items: seq<Transfer.Item>, next: seq<Transfer.Item>, i: nat,
        error: Option<string>)
    requires i < |items| == |next| && next == items[i := next[i]] && Reports(items, i, error)
    ensures Reports(next, i, error)
  {
    if error.Some? {
      var k :| 0 <= k < i && items[k].status == Transfer.Failed && items[k].error == error.value
               && forall j :: 0 <= j < k ==> IsDone(items[j]);
      assert next[k] == items[k];
    }
  }

  lemma {:induction false} ReportsNext(items: seq<Transfer.Item>, next: seq<Transfer.Item>, i: nat,
        firstError: Option<string>, error: Option<string>)
    requires i < |items| == |next| && next == items[i := next[i]] && Reports(items, i, firstError)
    requires if error.None? then IsDone(next[i]) else next[i].status == Transfer.Failed && next[i].error == error.value
    ensures Reports(next, i + 1, if firstError.None? then error else firstError)
  {
    ReportsFront(items, next, i, firstError);
    if firstError.Some? {
      var k :| 0 <= k < i && next[k].status == Transfer.Failed && next[k].error == firstError.value
               && forall j :: 0 <= j < k ==> IsDone(next[j]);
    }
  }
}
