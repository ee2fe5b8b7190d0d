/** The sending driver at work on the transfer list, which the rest of the program uses between any
    two of its steps. Whatever the others do, what it returns, what it writes and what becomes of its
    own items is what `Sender.Send` says. */
module SendFiles {
  import opened Text
  import opened Numerals
  import opened OrderedMap
  import opened JsonPrinter
  import opened JsonParser
  import opened Protocol
  import opened HttpStreams
  import opened Query
  import opened Http
  import opened HttpResponse
  import opened Sender
  import Transfer

  // ---------- The rest of the program ----------

  /** The other users of the list have left the given items alone. */
  predicate Undisturbed(now: Transfer.State, next: Transfer.State, ids: seq<nat>) {
    Transfer.Valid(next) && now.nextId <= next.nextId && forall id <- ids :: Transfer.Get(next, id) == Transfer.Get(now, id)
  }

  /** Any operations that name none of the items leave them alone. */
  lemma {:induction false} RunIsUndisturbed(s: Transfer.State, ops: seq<Transfer.Op>, ids: seq<nat>)
    requires Transfer.Valid(s) && forall id <- ids :: Transfer.Get(s, id).Some?
    requires forall op <- ops, id <- ids :: !Transfer.Names(op, id)
    ensures Undisturbed(s, Transfer.Run(s, ops), ids)
    decreases |ops|
  {
    hide Transfer.Get, Transfer.Valid, Transfer.Apply, Transfer.Names;
    if ops != [] {
      var t := Transfer.Apply(s, ops[0]);
      assert ops[0] in ops && forall op <- ops[1..] :: op in ops;
      Transfer.ApplyKeepsValid(s, ops[0]);
      forall id <- ids ensures Transfer.Get(t, id) == Transfer.Get(s, id) { Transfer.OthersAreUntouched(s, ops[0], id); }
      RunIsUndisturbed(t, ops[1..], ids);
    }
  }

  /** The other threads: `moves(n)` is where they take the list in their `n`-th turn. A turn that
      would touch the items of the send is left out. */
  class Others {
    const moves: nat -> Transfer.State
    var turn: nat

    constructor (moves: nat -> Transfer.State)
      ensures this.moves == moves && turn == 0
    {
      this.moves, turn := moves, 0;
    }

    method Move(store: Transfer.TransferStore, ids: seq<nat>, ghost items: seq<Transfer.Item>)
      requires Own(store.Now(), ids, items)
      modifies this, store
      ensures Own(store.Now(), ids, items) && old(store.nextId) <= store.nextId
    {
      hide Transfer.Valid, Transfer.Get;
      var next := moves(turn);
      turn := turn + 1;
      if Undisturbed(store.Now(), next, ids) {
        store.items, store.nextId := next.items, next.nextId;
        assert forall j :: 0 <= j < |ids| ==> ids[j] in ids;
      }
    }
  }

  // ---------- The items of the send in the list ----------

  /** The list holds the items under these ids. */
  ghost predicate Own(s: Transfer.State, ids: seq<nat>, items: seq<Transfer.Item>) {
    && Transfer.Valid(s) && |ids| == |items|
    && (forall i, j :: 0 <= i < j < |ids| ==> ids[i] < ids[j])
    && (forall j :: 0 <= j < |ids| ==> Transfer.Get(s, ids[j]) == Some(items[j].(id := ids[j])))
  }

  lemma OwnStep(s: Transfer.State, ids: seq<nat>, items: seq<Transfer.Item>, i: nat, op: Transfer.Op,
                item: Transfer.Item)
    requires Own(s, ids, items) && i < |ids|
    requires !op.Add? && !op.ClearCompleted? && !op.Clear? && op.id == ids[i]
    requires item.(id := ids[i]) == Transfer.Updated(items[i].(id := ids[i]), op)
    ensures Own(Transfer.Apply(s, op), ids, items[i := item]) && s.nextId <= Transfer.Apply(s, op).nextId
  {
    hide Transfer.Get, Transfer.Apply, Transfer.Valid, Transfer.Updated;
    Transfer.ApplyKeepsValid(s, op);
    Transfer.NamedIsUpdated(s, op, ids[i]);
    forall j | 0 <= j < |ids| && j != i
      ensures Transfer.Get(Transfer.Apply(s, op), ids[j]) == Some(items[j].(id := ids[j]))
    {
      assert ids[i] != ids[j];
      Transfer.OthersAreUntouched(s, op, ids[j]);
    }
  }

  lemma OwnAdds(s: Transfer.State, ids: seq<nat>, items: seq<Transfer.Item>, op: Transfer.Op, item: Transfer.Item)
    requires Own(s, ids, items) && op.Add? && item.(id := s.nextId) == Transfer.NewItem(s.nextId, op)
    ensures Own(Transfer.Apply(s, op), ids + [s.nextId], items + [item]) && s.nextId <= Transfer.Apply(s, op).nextId
  {
    hide Transfer.Get, Transfer.Apply, Transfer.Valid, Transfer.NewItem;
    Transfer.ApplyKeepsValid(s, op);
    Transfer.AddedIsListed(s, op);
    forall j | 0 <= j < |ids|
      ensures Transfer.Get(Transfer.Apply(s, op), ids[j]) == Some(items[j].(id := ids[j])) && ids[j] < s.nextId
    {
      Transfer.OthersAreUntouched(s, op, ids[j]);
      ListedIsBelow(s, ids[j]);
    }
  }

  lemma ListedIsBelow(s: Transfer.State, id: nat)
    requires Transfer.Valid(s) && Transfer.Get(s, id).Some?
    ensures 0 < id < s.nextId
  {
    var i := Transfer.Index(s.items, id).value;
    assert s.items[i] in s.items;
  }

  // ---------- Updates ----------

  method SetStatus(store: Transfer.TransferStore, others: Others, ids: seq<nat>, ghost items: seq<Transfer.Item>,
        i: nat,
                   status: Transfer.Status)
    requires Own(store.Now(), ids, items) && i < |ids|
    modifies store, others
    ensures Own(store.Now(), ids, items[i := Transfer.Updated(items[i], Transfer.SetStatus(0, status))])
    ensures old(store.nextId) <= store.nextId
  {
    hide Transfer.Apply, Transfer.Valid, Transfer.Get;
    others.Move(store, ids, items);
    OwnStep(store.Now(), ids, items, i, Transfer.SetStatus(ids[i], status),
            Transfer.Updated(items[i], Transfer.SetStatus(0, status)));
    var found := store.SetStatus(ids[i], status);
  }

  method SetProgress(store: Transfer.TransferStore, others: Others, ids: seq<nat>, ghost items: seq<Transfer.Item>,
        i: nat,
                     bytes: nat)
    requires Own(store.Now(), ids, items) && i < |ids|
    modifies store, others
    ensures Own(store.Now(), ids, items[i := Reported(items[i], bytes)])
  {
    hide Transfer.Apply, Transfer.Valid, Transfer.Get;
    others.Move(store, ids, items);
    OwnStep(store.Now(), ids, items, i, Transfer.SetProgress(ids[i], bytes), Reported(items[i], bytes));
    var found := store.SetProgress(ids[i], bytes);
  }

  method FailItem(store: Transfer.TransferStore, others: Others, ids: seq<nat>, ghost items: seq<Transfer.Item>, i: nat,
                  message: string)
    requires Own(store.Now(), ids, items) && i < |ids|
    modifies store, others
    ensures Own(store.Now(), ids, items[i := Transfer.Updated(items[i], Transfer.Fail(0, message))])
  {
    hide Transfer.Apply, Transfer.Valid, Transfer.Get;
    others.Move(store, ids, items);
    OwnStep(store.Now(), ids, items, i, Transfer.Fail(ids[i], message), Transfer.Updated(items[i], Transfer.Fail(0, message)));
    var found := store.Fail(ids[i], message);
  }

  method FailTransfers(store: Transfer.TransferStore, others: Others, ids: seq<nat>, ghost items: seq<Transfer.Item>,
                       message: string)
    requires Own(store.Now(), ids, items)
    modifies store, others
    ensures Own(store.Now(), ids, AllWith(items, Transfer.Fail(0, message)))
  {
    hide Own;
    ghost var done := AllWith(items, Transfer.Fail(0, message));
    assert done[..0] + items[0..] == items && |ids| == |items| by { OwnLength(store.Now(), ids, items); }
    for i := 0 to |ids|
      invariant Own(store.Now(), ids, done[..i] + items[i..])
    {
      FailItem(store, others, ids, done[..i] + items[i..], i, message);
      Overwritten(done, items, i);
    }
    assert done[..|ids|] + items[|ids|..] == done;
  }

  lemma OwnLength(s: Transfer.State, ids: seq<nat>, items: seq<Transfer.Item>)
    requires Own(s, ids, items)
    ensures |ids| == |items|
  {
  }

  method CancelItem(store: Transfer.TransferStore, others: Others, ids: seq<nat>, ghost items: seq<Transfer.Item>, i: nat)
    requires Own(store.Now(), ids, items) && i < |ids|
    modifies store, others
    ensures Own(store.Now(), ids, items[i := Transfer.Updated(items[i], Transfer.Cancel(0))])
  {
    hide Transfer.Apply, Transfer.Valid, Transfer.Get;
    others.Move(store, ids, items);
    OwnStep(store.Now(), ids, items, i, Transfer.Cancel(ids[i]), Transfer.Updated(items[i], Transfer.Cancel(0)));
    var found := store.Cancel(ids[i]);
  }

  method CancelTransfers(store: Transfer.TransferStore, others: Others, ids: seq<nat>, ghost items: seq<Transfer.Item>)
    requires Own(store.Now(), ids, items)
    modifies store, others
    ensures Own(store.Now(), ids, AllWith(items, Transfer.Cancel(0)))
  {
    hide Own;
    ghost var done := AllWith(items, Transfer.Cancel(0));
    assert done[..0] + items[0..] == items && |ids| == |items| by { OwnLength(store.Now(), ids, items); }
    for i := 0 to |ids|
      invariant Own(store.Now(), ids, done[..i] + items[i..])
    {
      CancelItem(store, others, ids, done[..i] + items[i..], i);
      Overwritten(done, items, i);
    }
    assert done[..|ids|] + items[|ids|..] == done;
  }

  method CompleteTransfers(store: Transfer.TransferStore, others: Others, ids: seq<nat>,
        ghost items: seq<Transfer.Item>)
    requires Own(store.Now(), ids, items)
    modifies store, others
    ensures Own(store.Now(), ids, AllWith(items, Transfer.SetStatus(0, Transfer.Completed)))
  {
    hide Own;
    ghost var done := AllWith(items, Transfer.SetStatus(0, Transfer.Completed));
    assert done[..0] + items[0..] == items && |ids| == |items| by { OwnLength(store.Now(), ids, items); }
    for i := 0 to |ids|
      invariant Own(store.Now(), ids, done[..i] + items[i..])
    {
      SetStatus(store, others, ids, done[..i] + items[i..], i, Transfer.Completed);
      Overwritten(done, items, i);
    }
    assert done[..|ids|] + items[|ids|..] == done;
  }

  // ---------- Exchanges ----------

  method RequestRaw(link: Link, text: string) returns (reply: Option<HttpResult>, sent: string)
    ensures (reply, sent) == Exchange(link, text)
  {
    hide ReplyOf;
    if link.NoRoute? { return Some(HttpResult(0, "", link.error)), ""; }
    var stream := new HttpStream(link.pieces, link.room);
    var ok := stream.WriteAll(text);
    sent := stream.sent;
    if !ok { return Some(HttpResult(0, "", "HTTP request write failed")), sent; }
    assert "" + text == text;
    reply := ParseResponse(stream);
  }

  /** `ids[i]` is the item that gets the progress reports. */
  method PostFileRaw(store: Transfer.TransferStore, others: Others, link: Link, head: string, data: string,
                     cancel: nat -> bool, before: nat, ids: seq<nat>, ghost items: seq<Transfer.Item>, i: nat)
      returns (reply: Option<HttpResult>, sent: string, samples: nat, ghost item: Transfer.Item)
    requires Own(store.Now(), ids, items) && i < |items|
    modifies store, others
    ensures Posted(reply, sent, samples, item) == PostFile(link, head, data, cancel, before, items[i])
    ensures Own(store.Now(), ids, items[i := item])
  {
    hide ReplyOf, Own, UploadReply, PostPieces, PostEnd;
    OwnLength(store.Now(), ids, items);
    samples, item := before, items[i];
    assert items[i := item] == items;
    if link.NoRoute? { return Some(HttpResult(0, "", link.error)), "", samples, item; }
    var stream := new HttpStream(link.pieces, link.room);
    var ok := stream.WriteAll(head);
    assert "" + head == head;
    var rest, uploaded: nat, atEnd, note := data, 0, false, "";
    ghost var end := PostPieces(Posting(ok, stream.sent, stream.room, samples, note, item), rest, 0, cancel);
    while ok && !atEnd
      invariant stream.pieces == link.pieces && (ok ==> note == "")
      invariant Own(store.Now(), ids, items[i := item])
      invariant var now := Posting(ok, stream.sent, stream.room, samples, note, item);
                end == if atEnd then now else PostPieces(now, rest, uploaded, cancel)
      decreases |rest|, !atEnd, ok
    {
      ok, note, samples, atEnd, rest, uploaded, item :=
        PostPiece(store, others, stream, rest, uploaded, cancel, samples, ids, items, i, item);
    }
    sent := stream.sent;
    PostedAll(Posting(ok, sent, stream.room, samples, note, item), rest, uploaded, cancel);
    reply, samples := FinishPost(stream, ok, samples, note, cancel);
  }

  lemma PostedAll(p: Posting, rest: string, uploaded: nat, cancel: nat -> bool)
    ensures !p.ok ==> PostPieces(p, rest, uploaded, cancel) == p
  {
  }

  /** One round of the sending loop. */
  method PostPiece(store: Transfer.TransferStore, others: Others, stream: HttpStream, rest: string, uploaded: nat,
                   cancel: nat -> bool, before: nat, ids: seq<nat>, ghost items: seq<Transfer.Item>, i: nat,
                   ghost item: Transfer.Item)
      returns (ok: bool, note: string, samples: nat, atEnd: bool, left: string, total: nat, ghost now: Transfer.Item)
    requires i < |items| && Own(store.Now(), ids, items[i := item])
    modifies store, others, stream`sent, stream`room
    ensures Own(store.Now(), ids, items[i := now])
    ensures PostPieces(Posting(true, old(stream.sent), old(stream.room), before, "", item), rest, uploaded, cancel)
         == var p := Posting(ok, stream.sent, stream.room, samples, note, now);
            if atEnd then p else PostPieces(p, left, total, cancel)
    ensures ok ==> note == "" && (atEnd || |left| < |rest|)
    ensures |left| <= |rest|
  {
    hide Own;
    OwnLength(store.Now(), ids, items[i := item]);
    samples, ok, note, now := before + 1, true, "", item;
    if cancel(before) { return false, "cancelled", samples, false, rest, uploaded, item; }
    var got := if |rest| < BUFFER_SIZE then rest else rest[..BUFFER_SIZE];
    left, total, atEnd := rest[|got|..], uploaded + |got|, |got| < BUFFER_SIZE;
    assert rest[..|got|] == got;
    if |got| > 0 {
      ok := stream.WriteAll(got);
      if ok {
        SetProgress(store, others, ids, items[i := item], i, total);
        now := Reported(item, total);
        assert items[i := item][i := now] == items[i := now];
      }
    }
  }

  /** Reads the reply, unless the send was cancelled or a write failed. */
  method FinishPost(stream: HttpStream, ok: bool, before: nat, note: string, cancel: nat -> bool)
      returns (reply: Option<HttpResult>, samples: nat)
    modifies stream`pieces
    ensures forall p: Posting :: p.ok == ok && p.samples == before && p.note == note
              ==> PostEnd(p, old(stream.pieces), cancel) == Posted(reply, p.sent, samples, p.item)
  {
    hide ReplyOf;
    samples := before;
    if ok {
      samples := samples + 1;
      if !cancel(samples - 1) {
        reply := ParseResponse(stream);
        if reply.Some? { reply := Some(UploadReply(reply.value)); }
        return;
      }
    }
    samples := samples + 1;
    reply := Some(if cancel(samples - 1) then HttpResult(0, "cancelled", "")
                  else HttpResult(0, note, "HTTP upload write failed"));
  }

  // ---------- The driver ----------

  /** Lists one transfer. */
  method ListSource(store: Transfer.TransferStore, others: Others, peer: Peer, source: Source, ids: seq<nat>,
                    ghost before: seq<Transfer.Item>)
      returns (id: nat, ghost items: seq<Transfer.Item>)
    requires Own(store.Now(), ids, before) && source.size.Some?
    modifies store, others
    ensures items == before + [Announced(source, peer)] && Own(store.Now(), ids + [id], items)
    ensures old(store.nextId) <= id && old(store.nextId) <= store.nextId
  {
    hide Transfer.Valid, Transfer.Get, Transfer.Apply;
    others.Move(store, ids, before);
    ghost var added := Announced(source, peer).(status := Transfer.Pending);
    OwnAdds(store.Now(), ids, before, Transfer.Add(Transfer.Send, source.name, source.size.value, peer.alias, peer.ip), added);
    id := store.AddItem(Transfer.Send, source.name, source.size.value, peer.alias, peer.ip);
    SetStatus(store, others, ids + [id], before + [added], |ids|, Transfer.Preparing);
    items := before + [Announced(source, peer)];
  }

  /** Opens every source and lists its transfer; stops at the first source that cannot be used. */
  method CheckSources(store: Transfer.TransferStore, others: Others, env: Env, sources: seq<Source>)
      returns (files: seq<FileDto>, ids: seq<nat>, ghost items: seq<Transfer.Item>)
    requires Transfer.Valid(store.Now())
    modifies store, others
    ensures |items| == Usable(sources) && forall j :: 0 <= j < |items| ==> items[j] == Announced(sources[j], env.peer)
    ensures |files| == |items| && forall j :: 0 <= j < |files| ==> files[j] == FileOf(sources[j], j, env.open)
    ensures Own(store.Now(), ids, items) && forall id <- ids :: id >= old(store.nextId)
  {
    hide Own, Announced, FileOf, Usable;
    NothingIsOwn(store.Now());
    files, ids, items := [], [], [];
    for i := 0 to |sources|
      invariant |ids| == |files| == |items| == i <= Usable(sources)
      invariant forall j :: 0 <= j < i ==> items[j] == Announced(sources[j], env.peer)
      invariant forall j :: 0 <= j < i ==> files[j] == FileOf(sources[j], j, env.open)
      invariant Own(store.Now(), ids, items) && old(store.nextId) <= store.nextId
      invariant forall id <- ids :: id >= old(store.nextId)
    {
      if !sources[i].readable || sources[i].size.None? { return; }
      var id;
      id, items := ListSource(store, others, env.peer, sources[i], ids, items);
      ids, files := ids + [id], files + [FileOf(sources[i], i, env.open)];
    }
  }

  /** Tells the receiver about the cancelling, then cancels every item. */
  method TellAndCancel(store: Transfer.TransferStore, others: Others, env: Env, sessionId: string, before: seq<string>,
                       ids: seq<nat>, ghost s: Sending)
      returns (result: Option<SendFilesResult>, sent: seq<string>)
    requires s.sent == before && Own(store.Now(), ids, s.items)
    modifies store, others
    ensures var o := CancelSend(env, s, sessionId);
            result == o.result && sent == o.state.sent && Own(store.Now(), ids, o.state.items)
  {
    hide Own, Exchange, CancelText;
    sent := before;
    if env.peer.v2 && sessionId != "" {
      var reply, text := RequestRaw(env.links(|sent|), CancelText(env.peer, sessionId));
      sent := sent + [text];
      if reply.None? { return None, sent; }
    }
    CancelTransfers(store, others, ids, s.items);
    result := Some(CANCELLED);
  }

  /** What a round of the upload loop leads to. */
  datatype Turn = GoOn(samples: nat, error: Option<string>) | Return(result: Option<SendFilesResult>)

  /** One round of the upload loop. */
  method UploadFile(store: Transfer.TransferStore, others: Others, env: Env, source: Source, file: FileDto, i: nat,
                    answer: PrepareResponse, before: seq<string>, samples: nat, ids: seq<nat>, ghost s: Sending)
      returns (turn: Turn, sent: seq<string>, ghost items: seq<Transfer.Item>)
    requires s.sent == before && s.samples == samples && Own(store.Now(), ids, s.items) && i < |s.items|
    modifies store, others
    ensures Own(store.Now(), ids, items)
    ensures match UploadOne(env, source, file, i, answer, s)
            case Next(next, error) => turn.GoOn? && next == Sending(turn.samples, sent, items) && error == turn.error
            case Stop(o) => turn == Return(o.result) && o.state.sent == sent && o.state.items == items
  {
    hide Own, PostFile, UploadHead, UploadPath, CancelSend, UploadFailure;
    OwnLength(store.Now(), ids, s.items);
    sent, items := before, s.items;
    var token := Lookup(answer.files, file.id);
    if token.None? {
      SetStatus(store, others, ids, s.items, i, Transfer.Completed);
      items := With(s, i, Transfer.SetStatus(0, Transfer.Completed)).items;
      return GoOn(samples, None), sent, items;
    }
    if !source.opens {
      FailItem(store, others, ids, s.items, i, "failed to open source file");
      items := With(s, i, Transfer.Fail(0, "failed to open source file")).items;
      return Return(Some(SendFailed("failed to open source file: " + file.fileName))), sent, items;
    }
    var head := UploadHead(env.peer, UploadPath(env, file.id, token.value, answer.sessionId), file.size, file.fileType);
    var reply, text, looks;
    ghost var item;
    reply, text, looks, item :=
      PostFileRaw(store, others, env.links(|sent|), head, source.data, env.cancel, samples, ids, s.items, i);
    sent := sent + [text];
    ghost var done := Sending(looks + 1, sent, s.items[i := item]);
    items := done.items;
    if reply.None? { return Return(None), sent, items; }
    if env.cancel(looks) {
      var result;
      result, sent := TellAndCancel(store, others, env, answer.sessionId, sent, ids, done);
      items := CancelSend(env, done, answer.sessionId).state.items;
      return Return(result), sent, items;
    }
    if reply.value.status != 200 {
      var message := UploadFailure(file.fileName, reply.value);
      FailItem(store, others, ids, items, i, message);
      items := With(done, i, Transfer.Fail(0, message)).items;
      turn := GoOn(looks + 1, Some(message));
    } else {
      SetStatus(store, others, ids, items, i, Transfer.Completed);
      items := With(done, i, Transfer.SetStatus(0, Transfer.Completed)).items;
      turn := GoOn(looks + 1, None);
    }
  }

  /** The upload loop. */
  method UploadAll(store: Transfer.TransferStore, others: Others, env: Env, sources: seq<Source>, files: seq<FileDto>,
                   answer: PrepareResponse, before: seq<string>, looks: nat, ids: seq<nat>, ghost s: Sending)
      returns (result: Option<SendFilesResult>, sent: seq<string>)
    requires s.sent == before && s.samples == looks && Own(store.Now(), ids, s.items)
    requires |sources| == |files| == |s.items|
    modifies store, others
    ensures var o := UploadFrom(env, sources, files, answer, 0, s, None);
            result == o.result && sent == o.state.sent && Own(store.Now(), ids, o.state.items)
  {
    hide Own, UploadOne, CancelSend;
    var allUploaded, firstError, samples := true, "", looks;
    ghost var items := s.items;
    sent := before;
    for i := 0 to |sources|
      invariant |items| == |sources| && Own(store.Now(), ids, items)
      invariant allUploaded <==> firstError == ""
      invariant UploadFrom(env, sources, files, answer, i, Sending(samples, sent, items),
                           if allUploaded then None else Some(firstError))
             == UploadFrom(env, sources, files, answer, 0, s, None)
    {
      samples := samples + 1;
      ghost var now := Sending(samples, sent, items);
      if env.cancel(samples - 1) {
        result, sent := TellAndCancel(store, others, env, answer.sessionId, sent, ids, now);
        return;
      }
      var turn;
      turn, sent, items := UploadFile(store, others, env, sources[i], files[i], i, answer, sent, samples, ids, now);
      if turn.Return? { return turn.result, sent; }
      ErrorsAreTexts(env, sources[i], files[i], i, answer, now);
      samples := turn.samples;
      if turn.error.Some? {
        if firstError == "" { firstError := turn.error.value; }
        allUploaded := false;
      }
    }
    if !allUploaded {
      result := Some(SendFailed(if firstError == "" then "one or more uploads failed" else firstError));
    } else {
      result := Some(SENT);
    }
  }

  lemma ErrorsAreTexts(env: Env, source: Source, file: FileDto, i: nat, answer: PrepareResponse, s: Sending)
    requires i < |s.items|
    ensures var r := UploadOne(env, source, file, i, answer, s);
            r.Next? ==> |r.state.items| == |s.items| && r.error != Some("")
  {
    hide PostFile, UploadHead, UploadPath, CancelSend, FailureDetail, IntText;
  }

  /** Announces the files and acts on the reply. */
  method AnnounceFiles(store: Transfer.TransferStore, others: Others, env: Env, sources: seq<Source>,
        files: seq<FileDto>,
                       ids: seq<nat>, ghost items: seq<Transfer.Item>)
      returns (result: Option<SendFilesResult>, sent: seq<string>)
    requires Own(store.Now(), ids, items) && |sources| == |files| == |items|
    modifies store, others
    ensures var o := Announce(env, sources, files, Sending(0, [], items));
            result == o.result && sent == o.state.sent && Own(store.Now(), ids, o.state.items)
  {
    hide Own, UploadFrom, Exchange, PrepareText, AnswerOf, PrepareFailure, CompactBody;
    sent := [];
    if env.cancel(0) {
      CancelTransfers(store, others, ids, items);
      return Some(CANCELLED), sent;
    }
    var reply, text := RequestRaw(env.links(0), PrepareText(env, files));
    sent := sent + [text];
    if reply.None? { return None, sent; }
    if env.cancel(1) {
      CancelTransfers(store, others, ids, items);
      return Some(CANCELLED), sent;
    }
    if reply.value.status == 204 {
      CompleteTransfers(store, others, ids, items);
      return Some(SENT), sent;
    }
    if reply.value.status != 200 {
      var message := PrepareFailure(reply.value);
      FailTransfers(store, others, ids, items, message);
      return Some(SendFailed(message)), sent;
    }
    var answer := ReadAnswer(env.peer.v2, reply.value.body);
    if answer.None? {
      var message := "invalid prepare-upload response: " + CompactBody(reply.value.body);
      FailTransfers(store, others, ids, items, message);
      return Some(SendFailed(message)), sent;
    }
    if env.peer.v2 && answer.value.sessionId == "" {
      var message := "prepare-upload response missing sessionId";
      FailTransfers(store, others, ids, items, message);
      return Some(SendFailed(message)), sent;
    }
    result, sent := UploadAll(store, others, env, sources, files, answer.value, sent, 2, ids, Sending(2, sent, items));
  }

  method ReadAnswer(v2: bool, body: string) returns (answer: Option<PrepareResponse>)
    ensures answer == AnswerOf(v2, body)
  {
    hide ResponseFrom, TokensFrom, ParseJson;
    var parser := new Parser(body);
    var json := parser.Parse();
    if json.None? { return None; }
    if v2 { return ResponseFrom(json.value); }
    if !json.value.Obj? { return None; }
    var files := TokensFromJson(json.value.members);
    answer := if files.None? then None else Some(PrepareResponse("", files.value));
  }

  /** `send_files_http_detailed`. `ids` are those of the items it listed. */
  method SendFilesHttpDetailed(store: Transfer.TransferStore, others: Others, env: Env, sources: seq<Source>)
      returns (result: Option<SendFilesResult>, sent: seq<string>, ids: seq<nat>)
    requires Transfer.Valid(store.Now())
    modifies store, others
    ensures var o := Send(env, sources);
            result == o.result && sent == o.state.sent && Own(store.Now(), ids, o.state.items)
    ensures forall id <- ids :: id >= old(store.nextId)
    ensures result.Some? ==> Matches(sources, result.value, Send(env, sources).state.items)
  {
    hide Own, Announce, Transfer.Valid, Matches, Announced, FileOf;
    SendAgrees(env, sources);
    sent, ids := [], [];
    if sources == [] {
      NothingIsOwn(store.Now());
      return Some(SendFailed("no files selected")), sent, ids;
    }
    var files;
    ghost var items;
    files, ids, items := CheckSources(store, others, env, sources);
    if |files| < |sources| {
      var source := sources[|files|];
      assert items == seq(|items|, i requires 0 <= i < |items| => Announced(sources[i], env.peer));
      result := if source.readable then None else Some(SendFailed("source file is not readable: " + source.name));
      return;
    }
    assert forall x <- sources :: x.size.Some?;
    assert files == FilesOf(sources, env.open);
    assert items == seq(|sources|, i requires 0 <= i < |sources| => Announced(sources[i], env.peer));
    result, sent := AnnounceFiles(store, others, env, sources, files, ids, items);
  }

  lemma NothingIsOwn(s: Transfer.State)
    requires Transfer.Valid(s)
    ensures Own(s, [], [])
  {
  }
}
