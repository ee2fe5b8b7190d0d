/** How a send that is not cancelled ends: exactly when it stops early, and exactly when it leaves
    every listed transfer settled. */
module SendEndings {
  import opened Text
  import opened Numerals
  import opened OrderedMap
  import opened JsonPrinter
  import opened Protocol
  import opened HttpStreams
  import opened Http
  import opened HttpResponse
  import opened Sender
  import J = Json
  import Transfer

  /** The first file from `i` on that the receiver wants but that cannot be opened any more. */
  function FirstShut(sources: seq<Source>, files: seq<FileDto>, answer: PrepareResponse, i: nat): (k: nat)
    requires i <= |sources| == |files|
    ensures i <= k <= |sources|
    ensures k < |sources| ==> Lookup(answer.files, files[k].id).Some? && !sources[k].opens
    ensures forall j :: i <= j < k ==> Lookup(answer.files, files[j].id).None? || sources[j].opens
    decreases |sources| - i
  {
    if i == |sources| || (Lookup(answer.files, files[i].id).Some? && !sources[i].opens) then i
    else FirstShut(sources, files, answer, i + 1)
  }

  lemma OneStops(env: Env, source: Source, file: FileDto, i: nat, answer: PrepareResponse, s: Sending)
    requires i < |s.items|
    ensures
      var r := UploadOne(env, source, file, i, answer, s);
      var shut := Lookup(answer.files, file.id).Some? && !source.opens;
      && (r.Next? ==> !shut)
      && (r.Stop? && r.outcome.result.Some? && !r.outcome.result.value.cancelled ==> shut)
  {
    hide PostFile, UploadHead, UploadPath, Lookup, Exchange, CancelText, UploadFailure;
  }

  lemma StoppedHere(sources: seq<Source>, i: nat, items: seq<Transfer.Item>, error: string, next: seq<Transfer.Item>,
                    firstError: Option<string>)
    requires i < |sources| == |items| == |next| && next == items[i := next[i]] && Reports(next, i, firstError)
    requires !sources[i].opens && error == "failed to open source file: " + sources[i].name
    requires next[i].status == Transfer.Failed && next[i].error == "failed to open source file"
    requires forall j :: i <= j < |sources| ==> IsUntouched(items[j])
    ensures StoppedAt(sources, i, error, next)
  {
    hide Reports;
  }

  /** The upload loop, when it is not cancelled, stops at the first such file and at no other place. */
  lemma {:induction false} UploadsEnd(env: Env, sources: seq<Source>, files: seq<FileDto>, answer: PrepareResponse,
                                      i: nat, s: Sending, firstError: Option<string>)
    requires 0 < |sources| == |files| && i <= |sources| && Belong(s.items, sources)
    requires forall j :: 0 <= j < |files| ==> files[j].fileName == sources[j].name
    requires Reports(s.items, i, firstError) && forall j :: i <= j < |sources| ==> IsUntouched(s.items[j])
    ensures
      var o := UploadFrom(env, sources, files, answer, i, s, firstError);
      var k := FirstShut(sources, files, answer, i);
      o.result.Some? && !o.result.value.cancelled ==>
        && Belong(o.state.items, sources)
        && (if k < |sources| then StoppedAt(sources, k, o.result.value.error, o.state.items)
            else exists e :: Reports(o.state.items, |sources|, e))
    decreases |sources| - i
  {
    hide UploadOne, CancelSend, Lookup, Matches, Usable, Reports;
    if i < |sources| {
      var now := s.(samples := s.samples + 1);
      if env.cancel(s.samples) {
        CancelAgrees(env, sources, now, answer.sessionId);
      } else {
        UploadOneAgrees(env, sources, files[i], i, answer, now);
        OneStops(env, sources[i], files[i], i, answer, now);
        match UploadOne(env, sources[i], files[i], i, answer, now)
        case Next(next, error) =>
          ReportsNext(s.items, next.items, i, firstError, error);
          UploadsEnd(env, sources, files, answer, i + 1, next, if firstError.None? then error else firstError);
        case Stop(o) =>
          if o.result.Some? && !o.result.value.cancelled {
            ReportsFront(s.items, o.state.items, i, firstError);
            StoppedHere(sources, i, s.items, o.result.value.error, o.state.items, firstError);
          }
      }
    }
  }

  // ---------- Settled ----------

  ghost predicate IsSettled(item: Transfer.Item) {
    IsDone(item) || item.status == Transfer.Failed || item.status == Transfer.Cancelled
  }

  ghost predicate AllSettled(items: seq<Transfer.Item>) {
    forall x <- items :: IsSettled(x)
  }

  /** The answer with which a send goes on to the uploads. */
  function AnswerTo(env: Env, sources: seq<Source>): Option<PrepareResponse>
    requires forall s <- sources :: s.size.Some?
  {
    AnswerIn(env, Exchange(env.links(0), PrepareText(env, FilesOf(sources, env.open))).0)
  }

  function AnswerIn(env: Env, reply: Option<HttpResult>): Option<PrepareResponse> {
    if reply.None? || reply.value.status != 200 then None
    else
      var answer := AnswerOf(env.peer.v2, reply.value.body);
      if answer.Some? && env.peer.v2 && answer.value.sessionId == "" then None else answer
  }

  /** No file but the last is wanted by the receiver and cannot be opened any more. */
  predicate GoesThrough(sources: seq<Source>, files: seq<FileDto>, answer: PrepareResponse)
    requires |sources| == |files|
  {
    forall k :: 0 <= k < |sources| - 1 ==> Lookup(answer.files, files[k].id).None? || sources[k].opens
  }

  /** All sources can be used, or already the first cannot; and where it comes to uploads, all but
      the last can be opened. */
  ghost predicate CanSettle(env: Env, sources: seq<Source>) {
    var k := Usable(sources);
    if k < |sources| then k == 0
    else
      assert forall x <- sources :: x.size.Some?;
      var answer := AnswerTo(env, sources);
      answer.None? || GoesThrough(sources, FilesOf(sources, env.open), answer.value)
  }

  lemma StoppedIsSettled(sources: seq<Source>, k: nat, error: string, items: seq<Transfer.Item>)
    requires k < |sources| && Belong(items, sources) && StoppedAt(sources, k, error, items)
    ensures AllSettled(items) <==> k == |sources| - 1
  {
    var e :| Reports(items, k, e);
    if k == |sources| - 1 {
      forall x <- items ensures IsSettled(x) {
        var j :| 0 <= j < |items| && items[j] == x;
      }
    } else {
      assert items[k + 1] in items && IsUntouched(items[k + 1]);
    }
  }

  lemma UploadsSettle(env: Env, sources: seq<Source>, files: seq<FileDto>, answer: PrepareResponse, s: Sending)
    requires 0 < |sources| == |files| && Belong(s.items, sources) && forall x <- s.items :: IsUntouched(x)
    requires forall j :: 0 <= j < |files| ==> files[j].fileName == sources[j].name
    ensures var o := UploadFrom(env, sources, files, answer, 0, s, None);
            o.result.Some? && !o.result.value.cancelled ==>
              (AllSettled(o.state.items) <==> GoesThrough(sources, files, answer))
  {
    hide UploadFrom, Lookup, StoppedAt;
    UploadsEnd(env, sources, files, answer, 0, s, None);
    var o, k := UploadFrom(env, sources, files, answer, 0, s, None), FirstShut(sources, files, answer, 0);
    if o.result.Some? && !o.result.value.cancelled {
      if k < |sources| {
        StoppedIsSettled(sources, k, o.result.value.error, o.state.items);
      } else {
        var e :| Reports(o.state.items, |sources|, e);
        assert forall x <- o.state.items :: IsSettled(x);
      }
    }
  }

  lemma AfterReplySettles(env: Env, sources: seq<Source>, files: seq<FileDto>, s: Sending, reply: HttpResult)
    requires 0 < |sources| == |files| && Belong(s.items, sources) && forall x <- s.items :: IsUntouched(x)
    requires forall j :: 0 <= j < |files| ==> files[j].fileName == sources[j].name
    ensures
      var o := AfterReply(env, sources, files, s, reply);
      var answer := AnswerIn(env, Some(reply));
      o.result.Some? && !o.result.value.cancelled ==>
        (AllSettled(o.state.items) <==> answer.None? || GoesThrough(sources, files, answer.value))
  {
    hide AnswerOf, UploadFrom, PrepareFailure, CompactBody, GoesThrough, Belong;
    var answer := AnswerOf(env.peer.v2, reply.body);
    if answer.Some? { UploadsSettle(env, sources, files, answer.value, s); }
  }

  lemma AnnounceSettles(env: Env, sources: seq<Source>, files: seq<FileDto>, s: Sending)
    requires 0 < |sources| == |files| && Belong(s.items, sources) && forall x <- s.items :: IsUntouched(x)
    requires forall j :: 0 <= j < |files| ==> files[j].fileName == sources[j].name
    ensures
      var o := Announce(env, sources, files, s);
      var answer := AnswerIn(env, Exchange(env.links(|s.sent|), PrepareText(env, files)).0);
      o.result.Some? && !o.result.value.cancelled ==>
        (AllSettled(o.state.items) <==> answer.None? || GoesThrough(sources, files, answer.value))
  {
    hide PrepareText, Exchange, AfterReply, AnswerIn, GoesThrough, AllSettled, Belong;
    var (reply, text) := Exchange(env.links(|s.sent|), PrepareText(env, files));
    if reply.Some? {
      AfterReplySettles(env, sources, files, Sending(s.samples + 2, s.sent + [text], s.items), reply.value);
    }
  }

  lemma MatchingIsSettled(sources: seq<Source>, r: SendFilesResult, items: seq<Transfer.Item>)
    requires Matches(sources, r, items) && r.cancelled
    ensures AllSettled(items)
  {
    hide Usable;
    if r.ok {
      forall x <- items ensures IsSettled(x) {
        var j :| 0 <= j < |items| && items[j] == x;
      }
    }
  }

  /** A send that ends without an exception leaves every transfer it listed settled (completed with
      all its bytes, failed or cancelled) exactly when it was cancelled or the sources permit. */
  lemma SettledExactly(env: Env, sources: seq<Source>)
    ensures
      var o := Send(env, sources);
      o.result.Some? ==> (AllSettled(o.state.items) <==> o.result.value.cancelled || CanSettle(env, sources))
  {
    hide PrepareText, Exchange, Announce, AnswerIn, Matches;
    var o, k := Send(env, sources), Usable(sources);
    var items := seq(k, i requires 0 <= i < k => Announced(sources[i], env.peer));
    SendAgrees(env, sources);
    if o.result.Some? && o.result.value.cancelled { MatchingIsSettled(sources, o.result.value, o.state.items); }
    if k == |sources| > 0 {
      assert forall x <- sources :: x.size.Some?;
      AnnounceSettles(env, sources, FilesOf(sources, env.open), Sending(0, [], items));
    } else {
      UntouchedIsOpen(items);
    }
  }

  lemma UntouchedIsOpen(items: seq<Transfer.Item>)
    requires forall x <- items :: IsUntouched(x)
    ensures AllSettled(items) <==> items == []
  {
    if items != [] { assert items[0] in items; }
  }

  // ---------- One send that stops early ----------

  /** A receiver of version 1 wants the first of two files, which cannot be opened any more. */
  function TwoSources(): seq<Source> {
    [Source("a", true, Some(1), false, "x"), Source("b", true, Some(1), true, "y")]
  }

  function OneToken(): Entries<string> {
    [Entry("0", "t")]
  }

  function OneTokenAnswer(): HttpResponse {
    HttpResponse(200, "application/json", Dump(J.Obj(TokensMembers(OneToken()))))
  }

  function TwoSourcesEnv(self: InfoRegister, open: Open): Env {
    Env(Peer("10.0.0.1", 53317, "p", false), self, open, n => false, n => Link(1, [ResponseText(OneTokenAnswer())]))
  }

  lemma OneTokenIsRead(pieces: Pieces)
    requires Concat(pieces) == ResponseText(OneTokenAnswer())
    ensures var r := ReplyOf(pieces);
            r.Some? && r.value.status == 200 && AnswerOf(false, r.value.body) == Some(PrepareResponse("", OneToken()))
  {
    hide ReplyOf, ResponseText, ParseJson, TokensFrom;
    var tokens := OneToken();
    TokensAreSet(tokens);
    assert [] + tokens == tokens;
    TokensAreRead([], tokens);
    ParseDump(J.Obj(TokensMembers(tokens)));
    OneTokenIsShort();
    ServerResponseArrives(OneTokenAnswer(), pieces);
  }

  lemma OneCharIsShort(c: char)
    requires c == '0' || c == 't'
    ensures |J.StringText(UnitsOf([c]))| == 3 && Dump(J.Str([c])) == J.StringText(UnitsOf([c]))
  {
    assert [c][1..] == [] && UnitsOf([c]) == [J.Plain(c)];
    assert [J.Plain(c)][1..] == [];
    assert J.UnitsText([]) == "\"" && J.UnitsText([J.Plain(c)]) == [c] + "\"";
  }

  lemma OneTokenIsShort()
    ensures |OneTokenAnswer().body| < SIZE_LIMIT
    ensures '\n' !in OneTokenAnswer().contentType && |OneTokenAnswer().contentType| <= 1000
  {
    hide J.TreeText, TreeOf, J.FieldsText, FieldsOf, J.UnitsText, UnitsOf, J.StringText;
    var tokens := OneToken();
    assert TokensMembers(tokens) == [Entry("0", J.Str("t"))] by { TokensAreSet(tokens); }
    ObjectTreeText([Entry("0", J.Str("t"))]);
    FieldsLeftStep([Entry("0", J.Str("t"))], 0);
    OneCharIsShort('0');
    OneCharIsShort('t');
  }

  /** The second transfer is never settled. */
  lemma StopsAtTheFirst(self: InfoRegister, open: Open)
    ensures
      var o := Send(TwoSourcesEnv(self, open), TwoSources());
      && o.result == Some(SendFailed("failed to open source file: a")) && |o.state.items| == 2
      && o.state.items[0].status == Transfer.Failed && o.state.items[1].status == Transfer.Preparing
      && !CanSettle(TwoSourcesEnv(self, open), TwoSources())
  {
    hide PrepareText, ReplyOf, ResponseText, AnswerOf, OneTokenAnswer, UploadFrom, Numeral;
    var env, sources := TwoSourcesEnv(self, open), TwoSources();
    var pieces := env.links(0).pieces;
    assert pieces[1..] == [] && Concat(pieces) == pieces[0] + "" == pieces[0];
    OneTokenIsRead(pieces);
    assert sources[1..][1..] == [] && Usable(sources[1..]) == 1;
    assert Usable(sources) == 2;
    var items := [Announced(sources[0], env.peer), Announced(sources[1], env.peer)];
    assert items == seq(2, i requires 0 <= i < 2 => Announced(sources[i], env.peer));
    var s := Sending(2, [] + [PrepareText(env, FilesOf(sources, open))], items);
    FirstUploadStops(env, sources, FilesOf(sources, open), s);
  }

  lemma FirstUploadStops(env: Env, sources: seq<Source>, files: seq<FileDto>, s: Sending)
    requires sources == TwoSources() && files == FilesOf(sources, env.open) && |s.items| == 2 && !env.cancel(s.samples)
    requires s.items[1].status == Transfer.Preparing
    ensures var o := UploadFrom(env, sources, files, PrepareResponse("", OneToken()), 0, s, None);
            && o.result == Some(SendFailed("failed to open source file: a")) && |o.state.items| == 2
            && o.state.items[0].status == Transfer.Failed && o.state.items[1].status == Transfer.Preparing
            && !GoesThrough(sources, files, PrepareResponse("", OneToken()))
  {
    assert Numeral(0, 10) == "0";
    assert files[0].id == "0" && files[0].fileName == "a" && Lookup(OneToken(), "0") == Some("t");
    assert "failed to open source file: " + "a" == "failed to open source file: a";
    var now := s.(samples := s.samples + 1);
    assert UploadOne(env, sources[0], files[0], 0, PrepareResponse("", OneToken()), now).Stop?;
  }
}
