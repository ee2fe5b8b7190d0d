/** What a send returns and what its transfers show, told from the connections alone: what came back
    on them, how many writes they took, and which files could be opened. */
module SendResults {
  import opened Text
  import opened Numerals
  import opened OrderedMap
  import opened JsonPrinter
  import opened Protocol
  import opened HttpStreams
  import opened Http
  import opened HttpResponse
  import opened Sender
  import opened SendEndings
  import Transfer

  /** No look from the `a`-th up to the `b`-th sees the cancel flag set. */
  ghost predicate Clear(cancel: nat -> bool, a: nat, b: nat) {
    forall n :: a <= n < b ==> !cancel(n)
  }

  // ---------- One upload ----------

  /** How many writes a file takes: one for each started 64 KiB. */
  function PiecesOf(data: string): nat {
    (|data| + BUFFER_SIZE - 1) / BUFFER_SIZE
  }

  function Least(a: nat, b: nat): nat {
    if a < b then a else b
  }

  /** How many bytes of a file that many writes take. */
  function Taken(data: string, room: nat): nat {
    Least(|data|, room * BUFFER_SIZE)
  }

  lemma OnePiece(data: string, room: nat)
    ensures Taken(data, 0) == 0 && (PiecesOf(data) == 0 <==> data == "") && (data == "" ==> Taken(data, room) == 0)
    ensures data != "" && room > 0 ==>
            if |data| < BUFFER_SIZE then PiecesOf(data) == 1 && Taken(data, room) == |data|
            else PiecesOf(data) == 1 + PiecesOf(data[BUFFER_SIZE..])
                 && Taken(data, room) == BUFFER_SIZE + Taken(data[BUFFER_SIZE..], room - 1)
  {
  }

  lemma {:induction false} LooksOfPieces(p: Posting, data: string, uploaded: nat, cancel: nat -> bool)
    ensures PostPieces(p, data, uploaded, cancel).samples >= p.samples
    decreases |data|
  {
    if p.ok && !cancel(p.samples) && |data| >= BUFFER_SIZE && p.room > 0 {
      var n := BUFFER_SIZE;
      LooksOfPieces(Posting(true, p.sent + data[..n], p.room - 1, p.samples + 1, "", Reported(p.item, uploaded + n)),
                    data[n..], uploaded + n, cancel);
    }
  }

  lemma {:induction false} PiecesAreTaken(p: Posting, data: string, uploaded: nat, cancel: nat -> bool)
    requires p.ok && p.note == "" && Clear(cancel, p.samples, PostPieces(p, data, uploaded, cancel).samples)
    ensures var q := PostPieces(p, data, uploaded, cancel);
            && (q.ok <==> p.room >= PiecesOf(data)) && q.note == "" && (q.ok ==> q.sent == p.sent + data)
            && q.item.bytes == if Taken(data, p.room) == 0 then p.item.bytes
                               else Least(uploaded + Taken(data, p.room), p.item.size)
    decreases |data|
  {
    hide PiecesOf, Taken;
    OnePiece(data, p.room);
    assert data == "" ==> p.sent + data == p.sent;
    if !cancel(p.samples) && data != "" && p.room > 0 {
      var n := if |data| < BUFFER_SIZE then |data| else BUFFER_SIZE;
      var next := Posting(true, p.sent + data[..n], p.room - 1, p.samples + 1, "", Reported(p.item, uploaded + n));
      assert p.sent + data[..n] + data[n..] == p.sent + data;
      if n == BUFFER_SIZE { PiecesAreTaken(next, data[n..], uploaded + n, cancel); }
    }
  }

  /** What an upload that nobody cancels comes to. */
  function Came(link: Link, data: string): Option<HttpResult> {
    match link
    case NoRoute(error) => Some(HttpResult(0, "", error))
    case Link(room, pieces) =>
      if room < 1 + PiecesOf(data) then Some(HttpResult(0, "", "HTTP upload write failed"))
      else
        var r :- ReplyOf(pieces);
        Some(if r.error == READ_FAILED then r.(error := "HTTP upload response read failed") else r)
  }

  /** The bytes its transfer shows then. */
  function BytesShown(link: Link, data: string, size: nat): nat {
    if link.NoRoute? || link.room == 0 then 0 else Least(Taken(data, link.room - 1), size)
  }

  lemma {:induction false} FileComes(link: Link, head: string, data: string, cancel: nat -> bool, samples: nat,
                                     item: Transfer.Item)
    ensures var p := PostFile(link, head, data, cancel, samples, item);
            && p.samples >= samples
            && (item.bytes == 0 && Clear(cancel, samples, p.samples) ==>
                  && p.reply == Came(link, data) && p.item.bytes == BytesShown(link, data, item.size)
                  && (link.Link? && link.room >= 1 + PiecesOf(data) ==> p.sent == head + data))
  {
    hide PostPieces, ReplyOf;
    if link.Link? {
      var start := if link.room == 0 then Posting(false, "", 0, samples, "", item)
                   else Posting(true, head, link.room - 1, samples, "", item);
      LooksOfPieces(start, data, 0, cancel);
      NoPieces(start, data, cancel);
      if start.ok && Clear(cancel, samples, PostPieces(start, data, 0, cancel).samples) {
        PiecesAreTaken(start, data, 0, cancel);
      }
    }
  }

  lemma NoPieces(p: Posting, data: string, cancel: nat -> bool)
    ensures !p.ok ==> PostPieces(p, data, 0, cancel) == p
  {
  }

  // ---------- One round ----------

  predicate Wanted(files: seq<FileDto>, answer: PrepareResponse, i: nat)
    requires i < |files|
  {
    Lookup(answer.files, files[i].id).Some?
  }

  /** The connection of the `i`-th file: the announcement has the first, each wanted file one more. */
  function Connection(files: seq<FileDto>, answer: PrepareResponse, i: nat): nat
    requires i <= |files|
  {
    if i == 0 then 1 else Connection(files, answer, i - 1) + (if Wanted(files, answer, i - 1) then 1 else 0)
  }

  function CameOf(env: Env, sources: seq<Source>, files: seq<FileDto>, answer: PrepareResponse, i: nat): Option<HttpResult>
    requires i < |sources| == |files|
  {
    Came(env.links(Connection(files, answer, i)), sources[i].data)
  }

  /** The connection took all writes and what was read from it has this status. */
  predicate Answers(link: Link, data: string, status: int) {
    && link.Link? && link.room >= 1 + PiecesOf(data)
    && var r := ReplyOf(link.pieces);
       r.Some? && r.value.status == status
  }

  /** The file is not wanted, or it could be opened and its connection answered with success. */
  predicate Accepted(env: Env, sources: seq<Source>, files: seq<FileDto>, answer: PrepareResponse, i: nat)
    requires i < |sources| == |files|
  {
    Wanted(files, answer, i) ==>
      sources[i].opens && Answers(env.links(Connection(files, answer, i)), sources[i].data, 200)
  }

  /** What a message says of a reply: its error, or else its body, or that nothing came. */
  function Detail(r: HttpResult): string {
    if r == HttpResult(0, "", "") then "connection failed or no response"
    else if r.error == "" then CompactBody(r.body)
    else r.error
  }

  lemma DetailIs(r: HttpResult)
    ensures Detail(r) == FailureDetail(r)
  {
    hide CompactBody;
  }

  function Refusal(name: string, r: HttpResult): string {
    "upload failed file=" + name + " status=" + IntText(r.status) + " body=" + Detail(r)
  }

  /** What the transfer of a file shows behind its round. */
  ghost predicate Shows(env: Env, sources: seq<Source>, files: seq<FileDto>, answer: PrepareResponse, i: nat,
                        item: Transfer.Item)
    requires i < |sources| == |files|
  {
    if Accepted(env, sources, files, answer, i) then IsDone(item)
    else
      item.status == Transfer.Failed
      && if !sources[i].opens then item.error == "failed to open source file"
         else
           var r := CameOf(env, sources, files, answer, i);
           && r.Some? && item.error == Refusal(sources[i].name, r.value)
           && item.bytes == BytesShown(env.links(Connection(files, answer, i)), sources[i].data, item.size)
  }

  lemma SuccessCame(link: Link, data: string)
    ensures Answers(link, data, 200) <==> Came(link, data).Some? && Came(link, data).value.status == 200
  {
    hide ReplyOf, PiecesOf;
  }

  lemma {:induction false} RoundShows(env: Env, sources: seq<Source>, files: seq<FileDto>, i: nat, answer: PrepareResponse,
                                      s: Sending)
    requires i < |sources| == |files| && Belong(s.items, sources) && files[i].fileName == sources[i].name
    requires |s.sent| == Connection(files, answer, i) && s.items[i].bytes == 0
    ensures
      match UploadOne(env, sources[i], files[i], i, answer, s)
      case Next(next, error) =>
        && next.samples >= s.samples && |next.sent| == Connection(files, answer, i + 1)
        && (Clear(env.cancel, s.samples, next.samples) ==>
              && Shows(env, sources, files, answer, i, next.items[i])
              && (error.None? <==> Accepted(env, sources, files, answer, i))
              && (error.Some? ==> error.value == next.items[i].error))
      case Stop(o) =>
        o.state.samples >= s.samples
        && (o.result.Some? && Clear(env.cancel, s.samples, o.state.samples) ==>
              && Wanted(files, answer, i) && !sources[i].opens && Shows(env, sources, files, answer, i, o.state.items[i])
              && o.result == Some(SendFailed("failed to open source file: " + sources[i].name)))
  {
    hide PostFile, UploadHead, UploadPath, Lookup, Exchange, CancelText, Came, BytesShown, Answers, FailureDetail,
         Detail, IntText;
    forall r: HttpResult ensures Detail(r) == FailureDetail(r) { DetailIs(r); }
    var token := Lookup(answer.files, files[i].id);
    var link := env.links(Connection(files, answer, i));
    if token.Some? && sources[i].opens {
      var head := UploadHead(env.peer, UploadPath(env, files[i].id, token.value, answer.sessionId), files[i].size,
                             files[i].fileType);
      FileComes(link, head, sources[i].data, env.cancel, s.samples, s.items[i]);
      PostFileKeeps(link, head, sources[i].data, env.cancel, s.samples, s.items[i]);
      SuccessCame(link, sources[i].data);
    }
  }

  // ---------- The loop ----------

  /** The first file from `i` on that was wanted and not accepted. */
  ghost predicate FirstRefused(env: Env, sources: seq<Source>, files: seq<FileDto>, answer: PrepareResponse, i: nat, m: nat)
    requires |sources| == |files|
  {
    && i <= m < |sources| && !Accepted(env, sources, files, answer, m)
    && forall j :: i <= j < m ==> Accepted(env, sources, files, answer, j)
  }

  ghost predicate AllAccepted(env: Env, sources: seq<Source>, files: seq<FileDto>, answer: PrepareResponse, i: nat)
    requires |sources| == |files|
  {
    forall j :: i <= j < |sources| ==> Accepted(env, sources, files, answer, j)
  }

  /** The loop from file `i` on: every file up to the first that cannot be opened shows what came of
      it, those behind are untouched, and the result is the failure to open it, or else the error of
      the first refused file, or success. */
  ghost predicate Tells(env: Env, sources: seq<Source>, files: seq<FileDto>, answer: PrepareResponse, i: nat,
                        was: seq<Transfer.Item>, firstError: Option<string>, r: SendFilesResult, items: seq<Transfer.Item>)
    requires i <= |sources| == |files| == |was|
  {
    var k := FirstShut(sources, files, answer, i);
    && |items| == |was|
    && (forall j :: 0 <= j < |items| && (j < i || k < j) ==> items[j] == was[j])
    && (forall j :: i <= j <= k && j < |items| ==> Shows(env, sources, files, answer, j, items[j]))
    && (r == SENT <==> firstError.None? && AllAccepted(env, sources, files, answer, i))
    && (if k < |sources| then r == SendFailed("failed to open source file: " + sources[k].name)
        else if firstError.Some? then r == SendFailed(firstError.value)
        else r == SENT || exists m: nat :: FirstRefused(env, sources, files, answer, i, m) && r == SendFailed(items[m].error))
  }

  lemma {:induction false} LoopTells(env: Env, sources: seq<Source>, files: seq<FileDto>, answer: PrepareResponse, i: nat,
                                     s: Sending, firstError: Option<string>)
    requires 0 < |sources| == |files| && i <= |sources| && Belong(s.items, sources) && |s.sent| == Connection(files, answer, i)
    requires forall j :: 0 <= j < |files| ==> files[j].fileName == sources[j].name
    requires forall j :: i <= j < |sources| ==> s.items[j].bytes == 0
    ensures
      var o := UploadFrom(env, sources, files, answer, i, s, firstError);
      && o.state.samples >= s.samples
      && (o.result.Some? && Clear(env.cancel, s.samples, o.state.samples) ==>
            Tells(env, sources, files, answer, i, s.items, firstError, o.result.value, o.state.items))
    decreases |sources| - i
  {
    hide UploadOne, Accepted, Shows, Wanted, Exchange, CancelText;
    if i < |sources| && !env.cancel(s.samples) {
      var now := s.(samples := s.samples + 1);
      RoundShows(env, sources, files, i, answer, now);
      UploadOneAgrees(env, sources, files[i], i, answer, now);
      OneStops(env, sources[i], files[i], i, answer, now);
      match UploadOne(env, sources[i], files[i], i, answer, now)
      case Next(next, error) =>
        var o := UploadFrom(env, sources, files, answer, i, s, firstError);
        LoopTells(env, sources, files, answer, i + 1, next, if firstError.None? then error else firstError);
        if o.result.Some? && Clear(env.cancel, s.samples, o.state.samples) {
          RoundTells(env, sources, files, answer, i, s.items, next.items, firstError, error, o.result.value, o.state.items);
        }
      case Stop(o) =>
        if o.result.Some? && Clear(env.cancel, s.samples, o.state.samples) {
          StopTells(env, sources, files, answer, i, s.items, firstError, o.result.value, o.state.items);
        }
    }
  }

  lemma StopTells(env: Env, sources: seq<Source>, files: seq<FileDto>, answer: PrepareResponse, i: nat,
                  was: seq<Transfer.Item>, firstError: Option<string>, r: SendFilesResult, items: seq<Transfer.Item>)
    requires i < |sources| == |files| == |was| == |items| && items == was[i := items[i]]
    requires Wanted(files, answer, i) && !sources[i].opens && Shows(env, sources, files, answer, i, items[i])
    requires r == SendFailed("failed to open source file: " + sources[i].name)
    ensures Tells(env, sources, files, answer, i, was, firstError, r, items)
  {
    hide Shows, Answers;
    assert !Accepted(env, sources, files, answer, i);
  }

  lemma RoundTells(env: Env, sources: seq<Source>, files: seq<FileDto>, answer: PrepareResponse, i: nat,
                   was: seq<Transfer.Item>, next: seq<Transfer.Item>, firstError: Option<string>, error: Option<string>,
                   r: SendFilesResult, items: seq<Transfer.Item>)
    requires i < |sources| == |files| == |was| == |next| && next == was[i := next[i]]
    requires !(Lookup(answer.files, files[i].id).Some? && !sources[i].opens)
    requires Shows(env, sources, files, answer, i, next[i]) && (error.None? <==> Accepted(env, sources, files, answer, i))
    requires error.Some? ==> error.value == next[i].error
    requires Tells(env, sources, files, answer, i + 1, next, if firstError.None? then error else firstError, r, items)
    ensures Tells(env, sources, files, answer, i, was, firstError, r, items)
  {
    hide Accepted, Shows, Lookup;
    if error.Some? { assert FirstRefused(env, sources, files, answer, i, i); }
    assert forall m :: error.None? && FirstRefused(env, sources, files, answer, i + 1, m)
                       ==> FirstRefused(env, sources, files, answer, i, m);
  }

  // ---------- The whole send ----------

  /** What the announcement on a connection comes to. */
  function Heard(link: Link): Option<HttpResult> {
    match link
    case NoRoute(error) => Some(HttpResult(0, "", error))
    case Link(room, pieces) => if room == 0 then Some(HttpResult(0, "", "HTTP request write failed")) else ReplyOf(pieces)
  }

  /** The text for which everything is given up behind the announcement, if it is. */
  function GivenUp(v2: bool, reply: HttpResult): Option<string> {
    if reply.status == 204 then None
    else if reply.status != 200 then
      Some("prepare-upload failed status=" + IntText(reply.status) + " body=" + Detail(reply))
    else
      match AnswerOf(v2, reply.body)
      case None => Some("invalid prepare-upload response: " + CompactBody(reply.body))
      case Some(a) => if v2 && a.sessionId == "" then Some("prepare-upload response missing sessionId") else None
  }

  /** How the send ends behind the reply to its announcement. */
  ghost predicate Ends(env: Env, sources: seq<Source>, was: seq<Transfer.Item>, reply: HttpResult, r: SendFilesResult,
                       items: seq<Transfer.Item>)
    requires |was| == |sources| && forall s <- sources :: s.size.Some?
  {
    var text := GivenUp(env.peer.v2, reply);
    if text.Some? then
      r == SendFailed(text.value) && |items| == |was|
      && forall x <- items :: x.status == Transfer.Failed && x.error == text.value
    else if reply.status == 204 then r == SENT && |items| == |was| && forall x <- items :: IsDone(x)
    else Tells(env, sources, FilesOf(sources, env.open), AnswerOf(env.peer.v2, reply.body).value, 0, was, None, r, items)
  }

  lemma {:induction false} ReplyDecides(env: Env, sources: seq<Source>, s: Sending, reply: HttpResult)
    requires 0 < |sources| && Belong(s.items, sources) && |s.sent| == 1 && forall x <- sources :: x.size.Some?
    requires forall x <- s.items :: x.bytes == 0
    ensures
      var o := AfterReply(env, sources, FilesOf(sources, env.open), s, reply);
      && o.state.samples >= s.samples
      && (o.result.Some? && Clear(env.cancel, s.samples, o.state.samples) ==>
            Ends(env, sources, s.items, reply, o.result.value, o.state.items))
  {
    hide AnswerOf, UploadFrom, CompactBody, FailureDetail, Detail, Tells, IntText;
    DetailIs(reply);
    var files := FilesOf(sources, env.open);
    var answer := AnswerOf(env.peer.v2, reply.body);
    if answer.Some? { LoopTells(env, sources, files, answer.value, 0, s, None); }
  }

  /** The transfers as they are listed at first. */
  function Listed(env: Env, sources: seq<Source>): (items: seq<Transfer.Item>)
    requires forall s <- sources :: s.size.Some?
    ensures |items| == |sources|
  {
    seq(|sources|, i requires 0 <= i < |sources| => assert sources[i] in sources; Announced(sources[i], env.peer))
  }

  /** A source that cannot be opened ends the send with an error, one whose size cannot be asked with an
      exception, before anything is written; the sources in front of it stay listed for the receiver. */
  lemma UnusableEnds(env: Env, sources: seq<Source>, k: nat)
    requires k < |sources| && !(sources[k].readable && sources[k].size.Some?)
    requires forall i :: 0 <= i < k ==> sources[i].readable && sources[i].size.Some?
    ensures var o := Send(env, sources);
            && o.result == (if sources[k].readable then None
                            else Some(SendFailed("source file is not readable: " + sources[k].name)))
            && o.state.sent == [] && |o.state.items| == k
            && forall i :: 0 <= i < k ==>
                 o.state.items[i] == Transfer.Item(0, Transfer.Send, Transfer.Preparing, sources[i].name,
                                                   sources[i].size.value, 0, env.peer.alias, env.peer.ip, "")
  {
    assert Usable(sources) == k;
  }

  /** A send whose files can be used and whose looks at the flag see nothing ends as the reply to its
      announcement and what comes back from the uploads decide. */
  lemma {:induction false} AnnouncementDecides(env: Env, sources: seq<Source>)
    requires sources != [] && Usable(sources) == |sources|
    ensures
      assert forall s <- sources :: s.size.Some?;
      var o := Send(env, sources);
      o.result.Some? && Clear(env.cancel, 0, o.state.samples) ==>
        && Heard(env.links(0)).Some?
        && Ends(env, sources, Listed(env, sources), Heard(env.links(0)).value, o.result.value, o.state.items)
  {
    hide PrepareText, AfterReply, Ends, ReplyOf;
    var files, items := FilesOf(sources, env.open), Listed(env, sources);
    assert items == seq(|sources|, i requires 0 <= i < |sources| => Announced(sources[i], env.peer));
    var (reply, text) := Exchange(env.links(0), PrepareText(env, files));
    assert reply == Heard(env.links(0));
    if reply.Some? { ReplyDecides(env, sources, Sending(2, [] + [text], items), reply.value); }
  }

  /** Every file the receiver wants could be opened, its connection took all writes, and what was read
      from it has status 200. */
  ghost predicate Uploaded(env: Env, sources: seq<Source>, answer: PrepareResponse)
    requires forall s <- sources :: s.size.Some?
  {
    AllAccepted(env, sources, FilesOf(sources, env.open), answer, 0)
  }

  /** The announcement is answered with 204, or with a list of tokens that the uploads fulfil. */
  ghost predicate Succeeds(env: Env, sources: seq<Source>) {
    && sources != [] && Usable(sources) == |sources|
    && (assert forall s <- sources :: s.size.Some?;
        var reply := Heard(env.links(0));
        && reply.Some? && GivenUp(env.peer.v2, reply.value).None?
        && (reply.value.status == 204 || Uploaded(env, sources, AnswerOf(env.peer.v2, reply.value.body).value)))
  }

  /** A send that is not cancelled and not ended by an exception succeeds exactly then. */
  lemma {:induction false} SentExactly(env: Env, sources: seq<Source>)
    ensures
      var o := Send(env, sources);
      o.result.Some? && Clear(env.cancel, 0, o.state.samples) ==> (o.result == Some(SENT) <==> Succeeds(env, sources))
  {
    hide Announce, AnswerOf, Heard, FirstRefused, Shows;
    if sources != [] && Usable(sources) == |sources| { AnnouncementDecides(env, sources); }
  }

  /** A body in a message: at most 120 characters of it, line ends and tabs as blanks, and dots where more
      was there. */
  lemma CompactBodyIs(body: string)
    ensures var r := CompactBody(body);
            && |r| == (if |body| > 120 then 123 else |body|) && (|body| > 120 ==> r[120..] == "...")
            && forall i :: 0 <= i < |body| && i < 120 ==>
                 r[i] == if body[i] as int in {0x0D, 0x0A, 0x09} then ' ' else body[i]
  {
  }

  // ---------- What is written ----------

  /** The head and the bytes of the upload of file `i`. */
  function UploadOf(env: Env, sources: seq<Source>, files: seq<FileDto>, answer: PrepareResponse, i: nat): string
    requires i < |sources| == |files| && Wanted(files, answer, i)
  {
    var token := Lookup(answer.files, files[i].id).value;
    UploadHead(env.peer, UploadPath(env, files[i].id, token, answer.sessionId), files[i].size, files[i].fileType)
    + sources[i].data
  }

  /** The connection of the file, if it takes all writes, got its upload. */
  ghost predicate IsWritten(env: Env, sources: seq<Source>, files: seq<FileDto>, answer: PrepareResponse, i: nat,
                            sent: seq<string>)
    requires i < |sources| == |files|
  {
    var n := Connection(files, answer, i);
    var link := env.links(n);
    Wanted(files, answer, i) && link.Link? && link.room >= 1 + PiecesOf(sources[i].data) ==>
      n < |sent| && sent[n] == UploadOf(env, sources, files, answer, i)
  }

  lemma {:induction false} RoundWrites(env: Env, sources: seq<Source>, files: seq<FileDto>, i: nat, answer: PrepareResponse,
                                       s: Sending)
    requires i < |sources| == |files| == |s.items| && |s.sent| == Connection(files, answer, i) && s.items[i].bytes == 0
    ensures var r := UploadOne(env, sources[i], files[i], i, answer, s);
            r.Next? ==>
              && s.sent <= r.state.sent && |r.state.sent| == Connection(files, answer, i + 1)
              && (Clear(env.cancel, s.samples, r.state.samples) ==>
                    IsWritten(env, sources, files, answer, i, r.state.sent))
  {
    hide PostFile, UploadHead, UploadPath, Lookup, Exchange, CancelText, Came, BytesShown, UploadFailure;
    var token := Lookup(answer.files, files[i].id);
    if token.Some? && sources[i].opens {
      FileComes(env.links(|s.sent|), UploadHead(env.peer, UploadPath(env, files[i].id, token.value, answer.sessionId),
                                                files[i].size, files[i].fileType),
                sources[i].data, env.cancel, s.samples, s.items[i]);
    }
  }

  lemma {:induction false} StopWrites(env: Env, source: Source, file: FileDto, i: nat, answer: PrepareResponse, s: Sending)
    requires i < |s.items|
    ensures var r := UploadOne(env, source, file, i, answer, s);
            r.Stop? ==>
              && s.sent <= r.outcome.state.sent
              && (r.outcome.result.Some? && Clear(env.cancel, s.samples, r.outcome.state.samples) ==>
                    Lookup(answer.files, file.id).Some? && !source.opens)
  {
    hide PostFile, UploadHead, UploadPath, Lookup, Exchange, CancelText, UploadFailure, Came, BytesShown;
    var token := Lookup(answer.files, file.id);
    if token.Some? && source.opens {
      FileComes(env.links(|s.sent|), UploadHead(env.peer, UploadPath(env, file.id, token.value, answer.sessionId),
                                                file.size, file.fileType),
                source.data, env.cancel, s.samples, s.items[i]);
    }
  }

  /** Every wanted file up to the first that cannot be opened is written on its own connection, and
      what was written before stays. */
  lemma {:induction false} LoopWrites(env: Env, sources: seq<Source>, files: seq<FileDto>, answer: PrepareResponse, i: nat,
                                      s: Sending, firstError: Option<string>)
    requires |sources| == |files| == |s.items| && i <= |sources| && |s.sent| == Connection(files, answer, i)
    requires forall j :: i <= j < |sources| ==> s.items[j].bytes == 0
    ensures
      var o := UploadFrom(env, sources, files, answer, i, s, firstError);
      && s.sent <= o.state.sent
      && (o.result.Some? && Clear(env.cancel, s.samples, o.state.samples) ==>
            forall j :: i <= j < FirstShut(sources, files, answer, i) ==>
              IsWritten(env, sources, files, answer, j, o.state.sent))
    decreases |sources| - i
  {
    hide UploadOne, IsWritten, Wanted, Exchange, CancelText;
    if i < |sources| && !env.cancel(s.samples) {
      var now := s.(samples := s.samples + 1);
      RoundWrites(env, sources, files, i, answer, now);
      RoundKeeps(env, sources, files, i, answer, now);
      StopWrites(env, sources[i], files[i], i, answer, now);
      OneStops(env, sources[i], files[i], i, answer, now);
      match UploadOne(env, sources[i], files[i], i, answer, now)
      case Next(next, error) =>
        var o := UploadFrom(env, sources, files, answer, i, s, firstError);
        LoopWrites(env, sources, files, answer, i + 1, next, if firstError.None? then error else firstError);
        LoopLooks(env, sources, files, answer, i + 1, next, if firstError.None? then error else firstError);
        if o.result.Some? && Clear(env.cancel, s.samples, o.state.samples) {
          WrittenStays(env, sources, files, answer, i, next.sent, o.state.sent);
        }
      case Stop(o) =>
    }
  }

  lemma RoundKeeps(env: Env, sources: seq<Source>, files: seq<FileDto>, i: nat, answer: PrepareResponse, s: Sending)
    requires i < |sources| == |files| == |s.items|
    ensures match UploadOne(env, sources[i], files[i], i, answer, s)
            case Next(next, _) => next.items == s.items[i := next.items[i]] && next.samples >= s.samples
            case Stop(o) => o.state.samples >= s.samples
  {
    hide PostFile, UploadHead, UploadPath, Lookup, Exchange, CancelText, UploadFailure, Came, BytesShown;
    var token := Lookup(answer.files, files[i].id);
    if token.Some? && sources[i].opens {
      FileComes(env.links(|s.sent|), UploadHead(env.peer, UploadPath(env, files[i].id, token.value, answer.sessionId),
                                                files[i].size, files[i].fileType),
                sources[i].data, env.cancel, s.samples, s.items[i]);
    }
  }

  lemma WrittenStays(env: Env, sources: seq<Source>, files: seq<FileDto>, answer: PrepareResponse, i: nat,
                     sent: seq<string>, more: seq<string>)
    requires i < |sources| == |files| && sent <= more && IsWritten(env, sources, files, answer, i, sent)
    ensures IsWritten(env, sources, files, answer, i, more)
  {
    hide PiecesOf, UploadOf;
  }

  // ---------- Cancelling ----------

  /** Once set the flag stays set. */
  ghost predicate Stays(cancel: nat -> bool) {
    forall m: nat, n: nat :: m <= n && cancel(m) ==> cancel(n)
  }

  /** The last look, if there was one. */
  predicate LastSawNothing(cancel: nat -> bool, a: nat, b: nat) {
    a < b ==> !cancel(b - 1)
  }

  /** A loop that is not cancelled looked last at a flag that was not set. */
  lemma {:induction false} LoopLooks(env: Env, sources: seq<Source>, files: seq<FileDto>, answer: PrepareResponse, i: nat,
                                     s: Sending, firstError: Option<string>)
    requires |sources| == |files| == |s.items| && i <= |sources|
    ensures
      var o := UploadFrom(env, sources, files, answer, i, s, firstError);
      && o.state.samples >= s.samples
      && (o.result.Some? && o.result != Some(CANCELLED) ==>
            !o.result.value.cancelled && LastSawNothing(env.cancel, s.samples, o.state.samples))
    decreases |sources| - i
  {
    hide UploadOne, Exchange, CancelText, Lookup;
    if i < |sources| && !env.cancel(s.samples) {
      var now := s.(samples := s.samples + 1);
      RoundKeeps(env, sources, files, i, answer, now);
      RoundLooks(env, sources, files, i, answer, now);
      match UploadOne(env, sources[i], files[i], i, answer, now)
      case Next(next, error) =>
        LoopLooks(env, sources, files, answer, i + 1, next, if firstError.None? then error else firstError);
      case Stop(o) =>
    }
  }

  lemma RoundLooks(env: Env, sources: seq<Source>, files: seq<FileDto>, i: nat, answer: PrepareResponse, s: Sending)
    requires i < |sources| == |files| == |s.items|
    ensures match UploadOne(env, sources[i], files[i], i, answer, s)
            case Next(next, _) => next.samples == s.samples || LastSawNothing(env.cancel, 0, next.samples)
            case Stop(o) =>
              o.result.Some? && o.result != Some(CANCELLED) ==> !o.result.value.cancelled && o.state.samples == s.samples
  {
    hide PostFile, UploadHead, UploadPath, Lookup, Exchange, CancelText, UploadFailure;
  }

  /** With a flag that stays set, a send of usable files is cancelled exactly when a look of it sees
      the flag, unless an exception ends it. */
  lemma {:induction false} CancelledExactly(env: Env, sources: seq<Source>)
    requires Stays(env.cancel) && sources != [] && Usable(sources) == |sources|
    ensures var o := Send(env, sources);
            o.result.Some? ==>
              && (o.result == Some(CANCELLED) <==> !Clear(env.cancel, 0, o.state.samples))
              && (o.result.value.cancelled <==> o.result == Some(CANCELLED))
  {
    hide Announce, AnswerOf, Heard, FirstRefused, Shows;
    AnnouncementDecides(env, sources);
    AnnounceLooks(env, sources, Sending(0, [], Listed(env, sources)));
    assert Listed(env, sources) == seq(|sources|, i requires 0 <= i < |sources| => Announced(sources[i], env.peer));
  }

  lemma AnnounceLooks(env: Env, sources: seq<Source>, s: Sending)
    requires |s.items| == |sources| && s.samples == 0 && s.sent == [] && forall x <- sources :: x.size.Some?
    ensures
      var o := Announce(env, sources, FilesOf(sources, env.open), s);
      o.result.Some? && o.result != Some(CANCELLED) ==>
        !o.result.value.cancelled && LastSawNothing(env.cancel, 0, o.state.samples)
  {
    hide PrepareText, Exchange, AnswerOf, CompactBody, PrepareFailure, UploadFrom;
    var files := FilesOf(sources, env.open);
    var (reply, text) := Exchange(env.links(0), PrepareText(env, files));
    if reply.Some? {
      var answer := AnswerOf(env.peer.v2, reply.value.body);
      if answer.Some? { LoopLooks(env, sources, files, answer.value, 0, Sending(2, [] + [text], s.items), None); }
    }
  }

  /** The flag is looked at before anything is written, and again before the reply to the announcement is
      used. */
  lemma CancelledEarly(env: Env, sources: seq<Source>)
    requires sources != [] && Usable(sources) == |sources|
    ensures var o := Send(env, sources);
            && (env.cancel(0) ==> o.result == Some(CANCELLED) && o.state.sent == [])
            && (!env.cancel(0) && env.cancel(1) && Heard(env.links(0)).Some? ==>
                  o.result == Some(CANCELLED) && |o.state.sent| == 1)
  {
    hide PrepareText, AfterReply, ReplyOf;
  }

  /** It is looked at before each upload: once it is seen there, no more file is written, and the only
      connection still opened is the one that tells the receiver. */
  lemma NoUploadOnceSeen(env: Env, sources: seq<Source>, files: seq<FileDto>, answer: PrepareResponse, i: nat, s: Sending,
                         firstError: Option<string>)
    requires |sources| == |files| == |s.items| && i < |sources| && env.cancel(s.samples)
    ensures
      var o := UploadFrom(env, sources, files, answer, i, s, firstError);
      && (o.result.Some? ==> o.result == Some(CANCELLED))
      && if env.peer.v2 && answer.sessionId != "" then
           var link := env.links(|s.sent|);
           o.state.sent == s.sent + [if link.Link? && link.room > 0 then CancelText(env.peer, answer.sessionId) else ""]
         else o.state.sent == s.sent
  {
    hide CancelText, UploadOne, ReplyOf;
  }

  /** A send that is cancelled during the uploads tells a receiver that gave it a session id, on one
      more connection, and does nothing more. */
  lemma {:induction false} CancelIsTold(env: Env, sources: seq<Source>, files: seq<FileDto>, answer: PrepareResponse, i: nat,
                                        s: Sending, firstError: Option<string>)
    requires |sources| == |files| == |s.items| && i <= |sources| && env.peer.v2 && answer.sessionId != ""
    ensures
      var o := UploadFrom(env, sources, files, answer, i, s, firstError);
      o.result == Some(CANCELLED) ==>
        && |o.state.sent| > 0
        && var n := |o.state.sent| - 1;
           var link := env.links(n);
           o.state.sent[n] == if link.Link? && link.room > 0 then CancelText(env.peer, answer.sessionId) else ""
    decreases |sources| - i
  {
    hide UploadOne, CancelText, Lookup;
    if i < |sources| && !env.cancel(s.samples) {
      var now := s.(samples := s.samples + 1);
      RoundTellsCancel(env, sources[i], files[i], i, answer, now);
      match UploadOne(env, sources[i], files[i], i, answer, now)
      case Next(next, error) =>
        CancelIsTold(env, sources, files, answer, i + 1, next, if firstError.None? then error else firstError);
      case Stop(o) =>
    }
  }

  lemma RoundTellsCancel(env: Env, source: Source, file: FileDto, i: nat, answer: PrepareResponse, s: Sending)
    requires i < |s.items| && env.peer.v2 && answer.sessionId != ""
    ensures
      var r := UploadOne(env, source, file, i, answer, s);
      r.Stop? && r.outcome.result == Some(CANCELLED) ==>
        && |r.outcome.state.sent| > 0
        && var n := |r.outcome.state.sent| - 1;
           var link := env.links(n);
           r.outcome.state.sent[n] == if link.Link? && link.room > 0 then CancelText(env.peer, answer.sessionId) else ""
  {
    hide PostFile, UploadHead, UploadPath, Lookup, CancelText, UploadFailure;
  }
}
