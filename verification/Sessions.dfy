/** The upload sessions of the receiving server as a state machine. Every client has its own thread;
    a step is one mutex-guarded block of the session map, one operation on the inbox or one call of
    the transfer list, with the local work of its thread, so the runs below contain all interleavings
    of any number of clients. (A cancel keeps the session mutex while it cancels the transfers; here
    other session steps may come in between, so there are more runs than the program has.) */
module Sessions {
  import opened Text
  import opened OrderedMap
  import opened Protocol
  import opened SafePath
  import Transfer

  // ---------- The inbox directory ----------

  /** Names refer to file bodies; an open file keeps its body when its name goes away. */
  datatype Disk = Disk(names: map<string, nat>, bodies: seq<string>)

  predicate ValidDisk(d: Disk) {
    forall n <- d.names :: d.names[n] < |d.bodies|
  }

  /** `ofstream(name)`: truncates the file of that name or creates one. */
  function OpenTruncated(d: Disk, name: string): (r: (Disk, nat))
    requires ValidDisk(d)
    ensures ValidDisk(r.0) && |d.bodies| <= |r.0.bodies| && r.1 < |r.0.bodies|
    ensures name in r.0.names && r.0.names[name] == r.1
  {
    if name in d.names then (d.(bodies := d.bodies[d.names[name] := ""]), d.names[name])
    else (Disk(d.names[name := |d.bodies|], d.bodies + [""]), |d.bodies|)
  }

  /** Writes at an offset; a gap behind the end reads as zeros. */
  function Splice(body: string, at: nat, data: string): string {
    var front := if at <= |body| then body[..at] else body + seq(at - |body|, _ => '\0');
    front + data + (if at + |data| <= |body| then body[at + |data|..] else "")
  }

  /** Byte by byte: the data where it is written, zeros in a gap, everything else as it was. */
  lemma SpliceExactly(body: string, at: nat, data: string)
    requires data != "" || at <= |body|
    ensures var r := Splice(body, at, data);
            && |r| == (if at + |data| > |body| then at + |data| else |body|)
            && forall k :: 0 <= k < |r| ==>
                 r[k] == if at <= k < at + |data| then data[k - at] else if k < |body| then body[k] else '\0'
  {
  }

  function WriteAt(d: Disk, file: nat, at: nat, data: string): (r: Disk)
    requires ValidDisk(d) && file < |d.bodies|
    ensures ValidDisk(r) && |r.bodies| == |d.bodies|
  {
    d.(bodies := d.bodies[file := Splice(d.bodies[file], at, data)])
  }

  function RemoveName(d: Disk, name: string): (r: Disk)
    requires ValidDisk(d)
    ensures ValidDisk(r) && r.bodies == d.bodies
  {
    d.(names := d.names - {name})
  }

  /** The content of a name in the inbox. */
  function Content(d: Disk, name: string): Option<string> {
    if name in d.names && d.names[name] < |d.bodies| then Some(d.bodies[d.names[name]]) else None
  }

  /** No two names of the inbox are one file. */
  ghost predicate NoLinks(d: Disk) {
    ValidDisk(d) && forall a <- d.names, b <- d.names :: a != b ==> d.names[a] != d.names[b]
  }

  // ---------- Sessions ----------

  datatype PendingFile = PendingFile(dto: FileDto, token: string, destination: string, transferId: nat, complete: bool)

  datatype Session = Session(files: Entries<PendingFile>, cancelled: bool)

  /** What an upload handler takes with it from the guarded block. */
  datatype Ticket =
    Ticket(session: string, fileId: string, token: string, destination: string, size: nat, transferId: nat)

  datatype Admission = Admitted(ticket: Ticket) | Refused(status: nat, text: string)

  function FindSession(sessions: Entries<Session>, v2: bool, query: Entries<string>): Option<Entry<Session>> {
    if v2 then
      var id :- Lookup(query, "sessionId");
      var s :- Lookup(sessions, id);
      Some(Entry(id, s))
    else if |sessions| == 1 then Some(sessions[0])
    else None
  }

  /** The checks of an upload request, made under the lock. */
  function Admit(sessions: Entries<Session>, v2: bool, query: Entries<string>, chunked: bool, length: nat): Admission {
    var fileId, token := Lookup(query, "fileId"), Lookup(query, "token");
    if (v2 && Lookup(query, "sessionId").None?) || fileId.None? || token.None? then
      Refused(400, "missing upload query")
    else
      var s := FindSession(sessions, v2, query);
      if s.None? || s.value.value.cancelled then Refused(404, "session not found")
      else
        var f := Lookup(s.value.value.files, fileId.value);
        if f.None? then Refused(404, "file not found")
        else if f.value.token != token.value then Refused(403, "invalid token")
        else if !chunked && length != f.value.dto.size then Refused(400, "file size mismatch")
        else
          Admitted(Ticket(s.value.key, fileId.value, f.value.token, f.value.destination, f.value.dto.size,
                          f.value.transferId))
  }

  function SetComplete(sessions: Entries<Session>, session: string, fileId: string): Entries<Session> {
    match Lookup(sessions, session)
    case None => sessions
    case Some(s) =>
      match Lookup(s.files, fileId)
      case None => sessions
      case Some(f) => Assign(sessions, session, s.(files := Assign(s.files, fileId, f.(complete := true))))
  }

  // ---------- The machine ----------

  /** How far a prepare handler is with the next file: which candidate name it looks at next, the
      name it has settled on, or the listed transfer. */
  datatype Phase = Searching(i: nat) | Found(name: string) | Listed(name: string, id: nat)

  datatype Thread =
    | Preparing(sid: string, alias: string, ip: string, todo: Entries<FileDto>, files: Entries<PendingFile>,
                answer: Entries<string>, phase: Phase)
    | Answered(sid: string, answer: Entries<string>)
    | Opening(ticket: Ticket, chunked: bool, length: nat)
    | Writing(ticket: Ticket, chunked: bool, length: nat, file: nat, written: nat, reported: bool)
    | Failing(ticket: Ticket, text: string)
    | Marking(ticket: Ticket, written: nat)
    | Succeeded(ticket: Ticket, written: nat)
    | Failed
    | Cancelling(ids: seq<nat>)

  datatype Receiver =
    Receiver(sessions: Entries<Session>, disk: Disk, threads: seq<Thread>, transfers: Transfer.State)

  datatype Step =
    | BeginPrepare(sid: string, files: Entries<FileDto>, alias: string, ip: string)
    | Probe(t: nat)
    | ListFile(t: nat)
    | KeepFile(t: nat, token: string)
    | Publish(t: nat)
    | BeginUpload(v2: bool, query: Entries<string>, chunked: bool, length: nat)
    | OpenFile(t: nat, ok: bool)
    | Write(t: nat, data: string)
    | Report(t: nat)
    | EndWriting(t: nat, good: bool)
    | FailItem(t: nat)
    | MarkComplete(t: nat)
    | CancelSession(sid: string)
    | CancelItem(t: nat)
    | OtherTransfer(op: Transfer.Op)

  /** The server after its start: any inbox and any transfer list, no sessions and no clients. */
  function Start(disk: Disk, transfers: Transfer.State): Receiver {
    Receiver([], disk, [], transfers)
  }

  /** A session id not drawn before. */
  predicate FreshId(s: Receiver, sid: string) {
    && Lookup(s.sessions, sid).None?
    && forall t <- s.threads :: (t.Preparing? || t.Answered?) ==> t.sid != sid
  }

  predicate Enabled(s: Receiver, step: Step) {
    match step
    case BeginPrepare(sid, _, _, _) => FreshId(s, sid)
    case Probe(t) =>
      t < |s.threads| && s.threads[t].Preparing? && s.threads[t].todo != [] && s.threads[t].phase.Searching?
    case ListFile(t) =>
      t < |s.threads| && s.threads[t].Preparing? && s.threads[t].todo != [] && s.threads[t].phase.Found?
    case KeepFile(t, _) =>
      t < |s.threads| && s.threads[t].Preparing? && s.threads[t].todo != [] && s.threads[t].phase.Listed?
    case Publish(t) => t < |s.threads| && s.threads[t].Preparing? && s.threads[t].todo == []
    case BeginUpload(_, _, _, _) => true
    case OpenFile(t, _) => t < |s.threads| && s.threads[t].Opening?
    case Write(t, data) =>
      && t < |s.threads| && s.threads[t].Writing? && s.threads[t].reported
      && (!s.threads[t].chunked ==> s.threads[t].written + |data| <= s.threads[t].length)
    case Report(t) => t < |s.threads| && s.threads[t].Writing? && !s.threads[t].reported
    case EndWriting(t, _) => t < |s.threads| && s.threads[t].Writing? && s.threads[t].reported
    case FailItem(t) => t < |s.threads| && s.threads[t].Failing?
    case MarkComplete(t) => t < |s.threads| && s.threads[t].Marking?
    case CancelSession(_) => true
    case CancelItem(t) => t < |s.threads| && s.threads[t].Cancelling? && s.threads[t].ids != []
    case OtherTransfer(_) => true
  }

  /** One look at the inbox in the search for a free name: the last candidate is taken unseen. */
  function Probed(names: set<string>, clean: string, i: nat): Phase {
    if i > LAST_SUFFIX then Found(Candidate(clean, LAST_SUFFIX))
    else if Candidate(clean, i) !in names then Found(Candidate(clean, i))
    else if i == LAST_SUFFIX then Found(Candidate(clean, i))
    else Searching(i + 1)
  }

  function Ids(files: Entries<PendingFile>): (ids: seq<nat>)
    ensures |ids| == |files|
  {
    if files == [] then [] else [files[0].value.transferId] + Ids(files[1..])
  }

  function WithFlag(s: Receiver, sid: string, session: Session): Receiver {
    s.(sessions := Assign(s.sessions, sid, session.(cancelled := true)))
  }

  function Next(s: Receiver, step: Step): Receiver
    requires Inv(s) && Enabled(s, step)
  {
    match step
    case BeginPrepare(sid, files, alias, ip) =>
      s.(threads := s.threads + [Preparing(sid, alias, ip, files, [], [], Searching(0))])
    case Probe(t) =>
      var th := s.threads[t];
      var clean := Sanitized(th.todo[0].value.fileName);
      s.(threads := s.threads[t := th.(phase := Probed(s.disk.names.Keys, clean, th.phase.i))])
    case ListFile(t) =>
      var th := s.threads[t];
      var dto := th.todo[0].value;
      s.(threads := s.threads[t := th.(phase := Listed(th.phase.name, s.transfers.nextId))],
         transfers := Transfer.Apply(s.transfers,
                                     Transfer.Add(Transfer.Receive, dto.fileName, dto.size, th.alias, th.ip)))
    case KeepFile(t, token) =>
      var th := s.threads[t];
      var dto := th.todo[0].value;
      var pending := PendingFile(dto, token, th.phase.name, th.phase.id, false);
      s.(threads := s.threads[t := th.(todo := th.todo[1..], files := Emplace(th.files, dto.id, pending),
                                       answer := Emplace(th.answer, dto.id, token), phase := Searching(0))],
         transfers := Transfer.Apply(s.transfers, Transfer.SetStatus(th.phase.id, Transfer.Preparing)))
    case Publish(t) =>
      var th := s.threads[t];
      s.(sessions := Emplace(s.sessions, th.sid, Session(th.files, false)),
         threads := s.threads[t := Answered(th.sid, th.answer)])
    case BeginUpload(v2, query, chunked, length) =>
      (match Admit(s.sessions, v2, query, chunked, length)
       case Refused(_, _) => s
       case Admitted(ticket) => s.(threads := s.threads + [Opening(ticket, chunked, length)]))
    case OpenFile(t, ok) =>
      var th := s.threads[t];
      if ok then
        var (disk, file) := OpenTruncated(s.disk, th.ticket.destination);
        s.(disk := disk, threads := s.threads[t := Writing(th.ticket, th.chunked, th.length, file, 0, true)])
      else s.(threads := s.threads[t := Failing(th.ticket, "failed to open destination")])
    case Write(t, data) =>
      var th := s.threads[t];
      assert th in s.threads;
      s.(disk := WriteAt(s.disk, th.file, th.written, data),
         threads := s.threads[t := th.(written := th.written + |data|, reported := false)])
    case Report(t) =>
      var th := s.threads[t];
      s.(threads := s.threads[t := th.(reported := true)],
         transfers := Transfer.Apply(s.transfers, Transfer.SetProgress(th.ticket.transferId, th.written)))
    case EndWriting(t, good) =>
      var th := s.threads[t];
      if !good || (!th.chunked && th.written != th.length) then
        s.(disk := RemoveName(s.disk, th.ticket.destination),
           threads := s.threads[t := Failing(th.ticket, "incomplete upload")])
      else if th.chunked && th.written != th.ticket.size then
        s.(disk := RemoveName(s.disk, th.ticket.destination),
           threads := s.threads[t := Failing(th.ticket, "file size mismatch")])
      else
        s.(threads := s.threads[t := Marking(th.ticket, th.written)],
           transfers := Transfer.Apply(s.transfers, Transfer.SetStatus(th.ticket.transferId, Transfer.Completed)))
    case FailItem(t) =>
      var th := s.threads[t];
      s.(threads := s.threads[t := Failed],
         transfers := Transfer.Apply(s.transfers, Transfer.Fail(th.ticket.transferId, th.text)))
    case MarkComplete(t) =>
      var th := s.threads[t];
      s.(sessions := SetComplete(s.sessions, th.ticket.session, th.ticket.fileId),
         threads := s.threads[t := Succeeded(th.ticket, th.written)])
    case CancelSession(sid) =>
      (match Lookup(s.sessions, sid)
       case None => s
       case Some(session) =>
         WithFlag(s, sid, session).(threads := s.threads + [Cancelling(Ids(session.files))]))
    case CancelItem(t) =>
      var th := s.threads[t];
      s.(threads := s.threads[t := Cancelling(th.ids[1..])],
         transfers := Transfer.Apply(s.transfers, Transfer.Cancel(th.ids[0])))
    case OtherTransfer(op) => s.(transfers := Transfer.Apply(s.transfers, op))
  }

  // ---------- What every interleaving keeps ----------

  function TokensOf(files: Entries<PendingFile>): (r: Entries<string>)
    ensures |r| == |files|
  {
    if files == [] then [] else [Entry(files[0].key, files[0].value.token)] + TokensOf(files[1..])
  }

  /** A ticket still says what is stored. */
  ghost predicate Agrees(sessions: Entries<Session>, k: Ticket) {
    var s := Lookup(sessions, k.session);
    && s.Some?
    && var f := Lookup(s.value.files, k.fileId);
       && f.Some? && f.value.token == k.token && f.value.destination == k.destination
       && f.value.dto.size == k.size && f.value.transferId == k.transferId
  }

  ghost predicate ThreadInv(s: Receiver, t: Thread) {
    match t
    case Preparing(sid, _, _, _, files, answer, _) =>
      Sorted(files) && TokensOf(files) == answer && Lookup(s.sessions, sid).None? && forall f <- files :: !f.value.complete
    case Answered(sid, answer) =>
      Lookup(s.sessions, sid).Some? && TokensOf(Lookup(s.sessions, sid).value.files) == answer
    case Opening(k, chunked, length) => Agrees(s.sessions, k) && (!chunked ==> length == k.size)
    case Writing(k, chunked, length, file, written, _) =>
      && Agrees(s.sessions, k) && file < |s.disk.bodies|
      && (!chunked ==> length == k.size && written <= length)
    case Marking(k, written) => Agrees(s.sessions, k) && written == k.size
    case Succeeded(k, written) => Agrees(s.sessions, k) && written == k.size
    case Failing(_, _) => true
    case Failed => true
    case Cancelling(_) => true
  }

  /** A handler admitted with the file's token wrote the whole file and came to its end. */
  ghost predicate Earned(s: Receiver, sid: string, fid: string, f: PendingFile) {
    exists t <- s.threads :: t.Succeeded? && t.ticket.session == sid && t.ticket.fileId == fid
                             && t.ticket.token == f.token && t.written == f.dto.size
  }

  ghost predicate SessionsInv(s: Receiver) {
    && Sorted(s.sessions)
    && forall e <- s.sessions :: Sorted(e.value.files)
         && forall f <- e.value.files :: f.value.complete ==> Earned(s, e.key, f.key, f.value)
  }

  ghost predicate Inv(s: Receiver) {
    && ValidDisk(s.disk)
    && SessionsInv(s)
    && (forall t <- s.threads :: ThreadInv(s, t))
    && (forall i, j :: 0 <= i < j < |s.threads| && s.threads[i].Preparing? && s.threads[j].Preparing?
                       ==> s.threads[i].sid != s.threads[j].sid)
  }

  // ---------- Proof that every step keeps the invariant ----------

  /** What may happen to a stored file: it can become complete, nothing else. */
  ghost predicate SameFile(f: PendingFile, g: PendingFile) {
    g == f.(complete := g.complete) && (f.complete ==> g.complete)
  }

  ghost predicate SameSession(a: Session, b: Session) {
    && (a.cancelled ==> b.cancelled)
    && TokensOf(a.files) == TokensOf(b.files)
    && forall k :: match Lookup(a.files, k)
                   case None => Lookup(b.files, k).None?
                   case Some(f) => Lookup(b.files, k).Some? && SameFile(f, Lookup(b.files, k).value)
  }

  /** Sessions stay; their tokens, sizes and destinations never change; cancelling is never undone. */
  ghost predicate Preserved(a: Entries<Session>, b: Entries<Session>) {
    forall k :: Lookup(a, k).Some? ==> Lookup(b, k).Some? && SameSession(Lookup(a, k).value, Lookup(b, k).value)
  }

  lemma PreservedIsReflexive(a: Entries<Session>)
    ensures Preserved(a, a)
  {
  }

  lemma SameSessionIsTransitive(a: Session, b: Session, c: Session)
    requires SameSession(a, b) && SameSession(b, c)
    ensures SameSession(a, c)
  {
    hide TokensOf, Lookup;
    forall k
      ensures Lookup(a.files, k).None? ==> Lookup(c.files, k).None?
      ensures Lookup(a.files, k).Some? ==> Lookup(c.files, k).Some? && SameFile(Lookup(a.files, k).value, Lookup(c.files, k).value)
    {
      assert Lookup(a.files, k).None? ==> Lookup(b.files, k).None?;
    }
  }

  lemma PreservedIsTransitive(a: Entries<Session>, b: Entries<Session>, c: Entries<Session>)
    requires Preserved(a, b) && Preserved(b, c)
    ensures Preserved(a, c)
  {
    hide SameSession, Lookup;
    forall k | Lookup(a, k).Some? ensures Lookup(c, k).Some? && SameSession(Lookup(a, k).value, Lookup(c, k).value) {
      SameSessionIsTransitive(Lookup(a, k).value, Lookup(b, k).value, Lookup(c, k).value);
    }
  }

  lemma AgreesIsPreserved(a: Entries<Session>, b: Entries<Session>, k: Ticket)
    requires Preserved(a, b) && Agrees(a, k)
    ensures Agrees(b, k)
  {
    hide TokensOf, Lookup;
  }

  /** A thread that did not move keeps its invariant. */
  lemma ThreadStays(s: Receiver, r: Receiver, t: Thread)
    requires ThreadInv(s, t) && Preserved(s.sessions, r.sessions) && |s.disk.bodies| <= |r.disk.bodies|
    requires t.Preparing? ==> Lookup(r.sessions, t.sid).None?
    ensures ThreadInv(r, t)
  {
    hide TokensOf, Lookup, Agrees;
    if t.Opening? || t.Writing? || t.Marking? || t.Succeeded? { AgreesIsPreserved(s.sessions, r.sessions, t.ticket); }
  }

  lemma {:induction false} TokensOfEmplace(m: Entries<PendingFile>, k: string, f: PendingFile)
    ensures TokensOf(Emplace(m, k, f)) == Emplace(TokensOf(m), k, f.token)
  {
    hide Less;
    if m != [] && m[0].key != k && !Less(k, m[0].key) {
      TokensOfEmplace(m[1..], k, f);
      assert Emplace(m, k, f)[1..] == Emplace(m[1..], k, f);
      assert TokensOf(m)[1..] == TokensOf(m[1..]);
    } else if m != [] && m[0].key != k {
      assert ([Entry(k, f)] + m)[1..] == m;
    }
  }

  lemma {:induction false} TokensOfAssign(m: Entries<PendingFile>, k: string, f: PendingFile)
    requires Lookup(m, k).Some? && Lookup(m, k).value.token == f.token && Sorted(m)
    ensures TokensOf(Assign(m, k, f)) == TokensOf(m)
  {
    hide Less;
    if m[0].key != k {
      LookupIsBelow(m, k);
      TokensOfAssign(m[1..], k, f);
      assert Assign(m, k, f)[1..] == Assign(m[1..], k, f);
    }
  }

  /** A key that is present is not below the first one. */
  lemma LookupIsBelow<V>(m: Entries<V>, k: string)
    requires Sorted(m) && Lookup(m, k).Some?
    ensures !Less(k, m[0].key)
  {
    hide Less;
    var i :| 0 <= i < |m| && m[i].key == k;
    LessIsIrreflexive(k);
    if Less(k, m[0].key) && i > 0 { LessIsTransitive(k, m[0].key, m[i].key); }
  }

  /** The session after one of its files became complete. */
  function Completed(s: Session, fid: string): Session {
    match Lookup(s.files, fid)
    case None => s
    case Some(f) => s.(files := Assign(s.files, fid, f.(complete := true)))
  }

  lemma CompletedIsSame(s: Session, fid: string)
    requires Sorted(s.files)
    ensures SameSession(s, Completed(s, fid)) && Sorted(Completed(s, fid).files)
    ensures forall f <- Completed(s, fid).files ::
      f in s.files || (Lookup(s.files, fid).Some? && f == Entry(fid, Lookup(s.files, fid).value.(complete := true)))
  {
    hide Assign, TokensOf, Less, Lookup;
    if Lookup(s.files, fid).Some? {
      var f := Lookup(s.files, fid).value;
      AssignKeepsSorted(s.files, fid, f.(complete := true));
      TokensOfAssign(s.files, fid, f.(complete := true));
    }
  }

  lemma SetCompletePreserves(sessions: Entries<Session>, sid: string, fid: string)
    requires Sorted(sessions) && forall e <- sessions :: Sorted(e.value.files)
    ensures var b := SetComplete(sessions, sid, fid);
            && Preserved(sessions, b) && Sorted(b)
            && (forall k :: Lookup(sessions, k).None? ==> Lookup(b, k).None?)
            && (forall e <- b :: e in sessions ||
                  (Lookup(sessions, sid).Some? && e == Entry(sid, Completed(Lookup(sessions, sid).value, fid))))
  {
    PreservedIsReflexive(sessions);
    var s := Lookup(sessions, sid);
    if s.Some? && Lookup(s.value.files, fid).Some? {
      assert Entry(sid, s.value) in sessions;
      CompletedIsSame(s.value, fid);
      ReplacePreserves(sessions, sid, s.value, Completed(s.value, fid));
    }
  }

  /** Replacing a session by one that is the same up to completion and cancelling. */
  lemma ReplacePreserves(sessions: Entries<Session>, sid: string, was: Session, now: Session)
    requires Sorted(sessions) && Lookup(sessions, sid) == Some(was) && SameSession(was, now)
    ensures var b := Assign(sessions, sid, now);
            && Preserved(sessions, b) && Sorted(b)
            && (forall k :: Lookup(sessions, k).None? ==> Lookup(b, k).None?)
            && (forall e <- b :: e in sessions || e == Entry(sid, now))
  {
    hide Assign, SameSession, Less, Lookup;
    AssignKeepsSorted(sessions, sid, now);
    forall k | Lookup(sessions, k).Some?
      ensures SameSession(Lookup(sessions, k).value, Lookup(Assign(sessions, sid, now), k).value)
    {
      if k != sid { SameSessionIsReflexive(Lookup(sessions, k).value); }
    }
  }

  lemma SameSessionIsReflexive(s: Session)
    ensures SameSession(s, s)
  {
  }

  lemma PublishPreserves(sessions: Entries<Session>, sid: string, session: Session)
    requires Sorted(sessions) && Lookup(sessions, sid).None?
    ensures var b := Emplace(sessions, sid, session);
            && Sorted(b) && Preserved(sessions, b) && Lookup(b, sid) == Some(session)
            && (forall k :: k != sid && Lookup(sessions, k).None? ==> Lookup(b, k).None?)
            && (forall e <- b :: e in sessions || e == Entry(sid, session))
  {
    hide Emplace, TokensOf, Less;
    EmplaceKeepsSorted(sessions, sid, session);
  }

  /** What every step does to the stored sessions. */
  lemma StepPreserves(s: Receiver, step: Step)
    requires Inv(s) && Enabled(s, step)
    ensures Preserved(s.sessions, Next(s, step).sessions)
  {
    hide TokensOf, Lookup, Emplace, Assign, Less, SetComplete, SameSession;
    match step
    case Publish(t) =>
      assert s.threads[t] in s.threads;
      PublishPreserves(s.sessions, s.threads[t].sid, Session(s.threads[t].files, false));
    case MarkComplete(t) =>
      SetCompletePreserves(s.sessions, s.threads[t].ticket.session, s.threads[t].ticket.fileId);
    case CancelSession(sid) =>
      PreservedIsReflexive(s.sessions);
      if Lookup(s.sessions, sid).Some? {
        var session := Lookup(s.sessions, sid).value;
        CancelledIsSame(session);
        ReplacePreserves(s.sessions, sid, session, session.(cancelled := true));
      }
    case _ => PreservedIsReflexive(s.sessions);
  }

  lemma CancelledIsSame(s: Session)
    ensures SameSession(s, s.(cancelled := true))
  {
  }

  /** Every file that was earned still is. */
  lemma EarnedStays(s: Receiver, r: Receiver, sid: string, fid: string, f: PendingFile)
    requires Earned(s, sid, fid, f) && forall t <- s.threads :: t.Succeeded? ==> t in r.threads
    ensures Earned(r, sid, fid, f)
  {
  }

  /** Threads other than the one that moved keep their invariants and stay distinct. */
  lemma ThreadsStay(s: Receiver, r: Receiver, t: nat)
    requires Inv(s) && t < |s.threads| && |r.threads| == |s.threads| && r.threads == s.threads[t := r.threads[t]]
    requires Preserved(s.sessions, r.sessions) && |s.disk.bodies| <= |r.disk.bodies|
    requires forall i :: 0 <= i < |s.threads| && i != t && s.threads[i].Preparing? ==> Lookup(r.sessions, s.threads[i].sid).None?
    requires ThreadInv(r, r.threads[t]) && !s.threads[t].Succeeded?
    requires r.threads[t].Preparing? ==> s.threads[t].Preparing? && r.threads[t].sid == s.threads[t].sid
    ensures forall x <- r.threads :: ThreadInv(r, x)
    ensures forall i, j :: 0 <= i < j < |r.threads| && r.threads[i].Preparing? && r.threads[j].Preparing?
                           ==> r.threads[i].sid != r.threads[j].sid
    ensures forall x <- s.threads :: x.Succeeded? ==> x in r.threads
  {
    hide ThreadInv, Preserved, SessionsInv, Lookup;
    forall x <- r.threads ensures ThreadInv(r, x) {
      var i :| 0 <= i < |r.threads| && r.threads[i] == x;
      if i != t {
        assert s.threads[i] in s.threads;
        ThreadStays(s, r, x);
      }
    }
    forall x <- s.threads | x.Succeeded? ensures x in r.threads {
      var i :| 0 <= i < |s.threads| && s.threads[i] == x;
      assert r.threads[i] == x;
    }
  }

  /** A new thread joins. */
  lemma ThreadJoins(s: Receiver, r: Receiver, x: Thread)
    requires Inv(s) && r.sessions == s.sessions && r.disk == s.disk && r.threads == s.threads + [x]
    requires ThreadInv(r, x) && !x.Succeeded?
    requires x.Preparing? ==> forall t <- s.threads :: t.Preparing? ==> t.sid != x.sid
    ensures Inv(r)
  {
    hide ThreadInv, Earned;
    PreservedIsReflexive(s.sessions);
    forall t <- r.threads ensures ThreadInv(r, t) {
      if t in s.threads {
        PreparingIsUnpublished(s, t);
        ThreadStays(s, r, t);
      }
    }
    forall i, j | 0 <= i < j < |r.threads| && r.threads[i].Preparing? && r.threads[j].Preparing?
      ensures r.threads[i].sid != r.threads[j].sid
    {
      assert r.threads[i] in s.threads;
    }
    SessionsStay(s, r);
  }

  lemma PreparingIsUnpublished(s: Receiver, t: Thread)
    requires Inv(s) && t in s.threads
    ensures t.Preparing? ==> Lookup(s.sessions, t.sid).None?
  {
  }

  lemma SessionsStay(s: Receiver, r: Receiver)
    requires SessionsInv(s) && r.sessions == s.sessions && forall t <- s.threads :: t.Succeeded? ==> t in r.threads
    ensures SessionsInv(r)
  {
    hide Earned;
    forall e <- r.sessions, f <- e.value.files | f.value.complete ensures Earned(r, e.key, f.key, f.value) {
      EarnedStays(s, r, e.key, f.key, f.value);
    }
  }

  lemma SameSessionsKeepInv(s: Receiver, r: Receiver, t: nat)
    requires Inv(s) && t < |s.threads| && r.sessions == s.sessions
    requires ValidDisk(r.disk) && |s.disk.bodies| <= |r.disk.bodies|
    requires |r.threads| == |s.threads| && r.threads == s.threads[t := r.threads[t]]
    requires ThreadInv(r, r.threads[t]) && !s.threads[t].Succeeded?
    requires r.threads[t].Preparing? ==> s.threads[t].Preparing? && r.threads[t].sid == s.threads[t].sid
    ensures Inv(r)
  {
    hide ThreadInv, Earned, SessionsInv;
    PreservedIsReflexive(s.sessions);
    forall i | 0 <= i < |s.threads| && i != t && s.threads[i].Preparing?
      ensures Lookup(r.sessions, s.threads[i].sid).None?
    {
      assert s.threads[i] in s.threads;
      PreparingIsUnpublished(s, s.threads[i]);
    }
    ThreadsStay(s, r, t);
    SessionsStay(s, r);
  }

  lemma KeepFileKeepsInv(s: Receiver, t: nat, token: string)
    requires Inv(s) && Enabled(s, KeepFile(t, token))
    ensures Inv(Next(s, KeepFile(t, token)))
  {
    hide Lookup, Emplace, Transfer.Apply;
    var th := s.threads[t];
    assert th in s.threads;
    var dto := th.todo[0].value;
    var pending := PendingFile(dto, token, th.phase.name, th.phase.id, false);
    TokensOfEmplace(th.files, dto.id, pending);
    EmplaceKeepsSorted(th.files, dto.id, pending);
    SameSessionsKeepInv(s, Next(s, KeepFile(t, token)), t);
  }

  lemma PublishKeepsInv(s: Receiver, t: nat)
    requires Inv(s) && Enabled(s, Publish(t))
    ensures Inv(Next(s, Publish(t)))
  {
    hide Lookup, Emplace, Earned, Preserved;
    var th, r := s.threads[t], Next(s, Publish(t));
    assert th in s.threads;
    PublishPreserves(s.sessions, th.sid, Session(th.files, false));
    forall i | 0 <= i < |s.threads| && i != t && s.threads[i].Preparing?
      ensures Lookup(r.sessions, s.threads[i].sid).None?
    {
      assert s.threads[i] in s.threads;
      PreparingIsUnpublished(s, s.threads[i]);
      assert s.threads[i].sid != th.sid;
    }
    ThreadsStay(s, r, t);
    forall e <- r.sessions, f <- e.value.files | f.value.complete ensures Earned(r, e.key, f.key, f.value) {
      EarnedStays(s, r, e.key, f.key, f.value);
    }
  }

  lemma MarkCompleteKeepsInv(s: Receiver, t: nat)
    requires Inv(s) && Enabled(s, MarkComplete(t))
    ensures Inv(Next(s, MarkComplete(t)))
  {
    hide Lookup, Assign, Earned, Preserved, SetComplete, Completed;
    var th, r := s.threads[t], Next(s, MarkComplete(t));
    var k := th.ticket;
    assert th in s.threads;
    SetCompletePreserves(s.sessions, k.session, k.fileId);
    AgreesIsPreserved(s.sessions, r.sessions, k);
    forall i | 0 <= i < |s.threads| && i != t && s.threads[i].Preparing?
      ensures Lookup(r.sessions, s.threads[i].sid).None?
    {
      assert s.threads[i] in s.threads;
      PreparingIsUnpublished(s, s.threads[i]);
    }
    ThreadsStay(s, r, t);
    assert r.threads[t] in r.threads;
    MarkedIsEarned(s, r, t);
  }

  lemma MarkedIsEarned(s: Receiver, r: Receiver, t: nat)
    requires Inv(s) && Enabled(s, MarkComplete(t)) && r == Next(s, MarkComplete(t)) && Sorted(r.sessions)
    requires forall x <- s.threads :: x.Succeeded? ==> x in r.threads
    ensures SessionsInv(r)
  {
    hide Lookup, Assign, Earned, Preserved, SetComplete, Completed;
    var k := s.threads[t].ticket;
    SetCompletePreserves(s.sessions, k.session, k.fileId);
    var session := Lookup(s.sessions, k.session);
    if session.Some? {
      assert Entry(k.session, session.value) in s.sessions;
      CompletedIsSame(session.value, k.fileId);
    }
    forall e <- r.sessions ensures Sorted(e.value.files) {
    }
    forall e <- r.sessions, f <- e.value.files | f.value.complete ensures Earned(r, e.key, f.key, f.value) {
      if e in s.sessions || f in session.value.files {
        EarnedStays(s, r, e.key, f.key, f.value);
      } else {
        assert s.threads[t] in s.threads;
        TicketIsEarned(s, r, t, f.value);
      }
    }
  }

  lemma TicketIsEarned(s: Receiver, r: Receiver, t: nat, f: PendingFile)
    requires Inv(s) && Enabled(s, MarkComplete(t)) && r == Next(s, MarkComplete(t))
    requires f.token == s.threads[t].ticket.token && f.dto.size == s.threads[t].ticket.size
    ensures Earned(r, s.threads[t].ticket.session, s.threads[t].ticket.fileId, f)
  {
    hide Lookup, SetComplete;
    assert s.threads[t] in s.threads;
    assert r.threads[t] in r.threads;
  }

  lemma FlagKeepsInv(s: Receiver, sid: string, session: Session)
    requires Inv(s) && Lookup(s.sessions, sid) == Some(session)
    ensures Inv(WithFlag(s, sid, session))
  {
    hide Lookup, Assign, Earned, Preserved;
    var r := WithFlag(s, sid, session);
    CancelledIsSame(session);
    ReplacePreserves(s.sessions, sid, session, session.(cancelled := true));
    forall t <- r.threads ensures ThreadInv(r, t) {
      PreparingIsUnpublished(s, t);
      ThreadStays(s, r, t);
    }
    assert Entry(sid, session) in s.sessions;
    forall e <- r.sessions, f <- e.value.files | f.value.complete ensures Earned(r, e.key, f.key, f.value) {
      EarnedStays(s, r, e.key, f.key, f.value);
    }
  }

  lemma CancelKeepsInv(s: Receiver, sid: string)
    requires Inv(s) && Lookup(s.sessions, sid).Some?
    ensures Inv(Next(s, CancelSession(sid)))
  {
    hide Inv, Lookup, WithFlag;
    var session := Lookup(s.sessions, sid).value;
    FlagKeepsInv(s, sid, session);
    FlagIs(s, sid, session);
    ThreadJoins(WithFlag(s, sid, session), Next(s, CancelSession(sid)), Cancelling(Ids(session.files)));
  }

  lemma FlagIs(s: Receiver, sid: string, session: Session)
    ensures WithFlag(s, sid, session).threads == s.threads && WithFlag(s, sid, session).disk == s.disk
  {
  }

  /** The upload names a file and a token, and in version 2 a session. */
  predicate Asks(v2: bool, query: Entries<string>, fileId: string, token: string) {
    && Lookup(query, "fileId") == Some(fileId) && Lookup(query, "token") == Some(token)
    && (v2 ==> Lookup(query, "sessionId").Some?)
  }

  /** The open session it means: the one it names, or in version 1 the only one there is. */
  predicate Means(sessions: Entries<Session>, v2: bool, query: Entries<string>, sid: string, s: Session) {
    && !s.cancelled
    && if v2 then Lookup(query, "sessionId") == Some(sid) && Lookup(sessions, sid) == Some(s)
       else sessions == [Entry(sid, s)]
  }

  /** Exactly the uploads are admitted that name an open session, a file of it and the token of that
      file, and that announce its size if they announce one. */
  lemma AdmitExactly(sessions: Entries<Session>, v2: bool, query: Entries<string>, chunked: bool, length: nat, k: Ticket)
    ensures Admit(sessions, v2, query, chunked, length) == Admitted(k)
       <==> exists s, f ::
              && Asks(v2, query, k.fileId, k.token) && Means(sessions, v2, query, k.session, s)
              && Lookup(s.files, k.fileId) == Some(f) && f.token == k.token && f.destination == k.destination
              && f.dto.size == k.size && f.transferId == k.transferId && (chunked || length == k.size)
  {
    hide Lookup;
    MeantIsFound(sessions, v2, query);
  }

  /** The answers to all others. */
  lemma RefusedExactly(sessions: Entries<Session>, v2: bool, query: Entries<string>, chunked: bool, length: nat)
    ensures var a := Admit(sessions, v2, query, chunked, length);
      && (a == Refused(400, "missing upload query") <==> !exists fid, token :: Asks(v2, query, fid, token))
      && (a == Refused(404, "session not found") <==>
            (exists fid, token :: Asks(v2, query, fid, token)) && !exists sid, s :: Means(sessions, v2, query, sid, s))
      && (a == Refused(404, "file not found") <==>
            exists fid, token, sid, s ::
              Asks(v2, query, fid, token) && Means(sessions, v2, query, sid, s) && Lookup(s.files, fid).None?)
      && (a == Refused(403, "invalid token") <==>
            exists fid, token, sid, s, f ::
              Asks(v2, query, fid, token) && Means(sessions, v2, query, sid, s) && Lookup(s.files, fid) == Some(f)
              && f.token != token)
      && (a == Refused(400, "file size mismatch") <==>
            exists fid, token, sid, s, f ::
              Asks(v2, query, fid, token) && Means(sessions, v2, query, sid, s) && Lookup(s.files, fid) == Some(f)
              && f.token == token && !chunked && length != f.dto.size)
  {
    hide Lookup;
    MeantIsFound(sessions, v2, query);
    var f, t := Lookup(query, "fileId"), Lookup(query, "token");
    if f.Some? && t.Some? { assert Asks(v2, query, f.value, t.value) <==> (v2 ==> Lookup(query, "sessionId").Some?); }
  }

  lemma MeantIsFound(sessions: Entries<Session>, v2: bool, query: Entries<string>)
    ensures forall sid, s :: Means(sessions, v2, query, sid, s)
                             <==> FindSession(sessions, v2, query) == Some(Entry(sid, s)) && !s.cancelled
  {
    hide Lookup;
  }

  lemma AdmittedAgrees(sessions: Entries<Session>, v2: bool, query: Entries<string>, chunked: bool, length: nat)
    requires Sorted(sessions)
    ensures var a := Admit(sessions, v2, query, chunked, length);
            a.Admitted? ==>
              && Agrees(sessions, a.ticket) && (!chunked ==> length == a.ticket.size)
              && Lookup(sessions, a.ticket.session).Some? && !Lookup(sessions, a.ticket.session).value.cancelled
              && Lookup(query, "token") == Some(a.ticket.token)
  {
    if !v2 && |sessions| == 1 { LookupIs(sessions, 0); }
  }

  /** Two sessions an admission cannot tell apart. */
  ghost predicate SameForAdmission(a: Session, b: Session) {
    && a.cancelled == b.cancelled
    && forall k :: Lookup(a.files, k).Some? == Lookup(b.files, k).Some?
                   && (Lookup(a.files, k).Some? ==> SameFile(Lookup(a.files, k).value, Lookup(b.files, k).value))
  }

  lemma {:induction false} AssignKeepsLength<V>(m: Entries<V>, k: string, v: V)
    requires Sorted(m) && Lookup(m, k).Some?
    ensures |Assign(m, k, v)| == |m| && forall i :: 0 <= i < |m| ==> Assign(m, k, v)[i].key == m[i].key
  {
    hide Less;
    if m[0].key != k {
      LookupIsBelow(m, k);
      AssignKeepsLength(m[1..], k, v);
    }
  }

  lemma FoundAfterCompletion(sessions: Entries<Session>, sid: string, fid: string, v2: bool, query: Entries<string>)
    requires Sorted(sessions) && forall e <- sessions :: Sorted(e.value.files)
    ensures var a, b := FindSession(sessions, v2, query), FindSession(SetComplete(sessions, sid, fid), v2, query);
            a.Some? == b.Some?
            && (a.Some? ==> a.value.key == b.value.key && SameForAdmission(a.value.value, b.value.value))
  {
    hide Less, TokensOf, Assign, Lookup;
    var s := Lookup(sessions, sid);
    if s.Some? && Lookup(s.value.files, fid).Some? {
      assert Entry(sid, s.value) in sessions;
      var f := Lookup(s.value.files, fid).value.(complete := true);
      var now := s.value.(files := Assign(s.value.files, fid, f));
      AssignKeepsSorted(s.value.files, fid, f);
      AssignKeepsSorted(sessions, sid, now);
      AssignKeepsLength(sessions, sid, now);
      assert SameForAdmission(s.value, now);
      if !v2 && |sessions| == 1 {
        LookupIs(sessions, 0);
        LookupIs(Assign(sessions, sid, now), 0);
      }
    }
  }

  /** Admission does not look at completeness: a complete file may be uploaded again. */
  lemma AdmitIgnoresComplete(sessions: Entries<Session>, sid: string, fid: string, v2: bool, query: Entries<string>,
      chunked: bool, length: nat)
    requires Sorted(sessions) && forall e <- sessions :: Sorted(e.value.files)
    ensures Admit(SetComplete(sessions, sid, fid), v2, query, chunked, length)
         == Admit(sessions, v2, query, chunked, length)
  {
    hide Less, Lookup, SetComplete, FindSession, Sorted;
    FoundAfterCompletion(sessions, sid, fid, v2, query);
  }

  /** Every step of every thread keeps the invariant. */
  lemma StepKeepsInv(s: Receiver, step: Step)
    requires Inv(s) && Enabled(s, step)
    ensures Inv(Next(s, step))
  {
    hide Lookup, Emplace, Assign, Earned, SessionsInv, Agrees, Admit, Transfer.Apply, TokensOf, WriteAt, Candidate;
    match step
    case BeginPrepare(sid, files, alias, ip) =>
      TokensOfNothing();
      ThreadJoins(s, Next(s, step), Preparing(sid, alias, ip, files, [], [], Searching(0)));
    case KeepFile(t, token) => KeepFileKeepsInv(s, t, token);
    case Publish(t) => PublishKeepsInv(s, t);
    case BeginUpload(v2, query, chunked, length) =>
      SessionsAreSorted(s);
      AdmittedAgrees(s.sessions, v2, query, chunked, length);
      var a := Admit(s.sessions, v2, query, chunked, length);
      if a.Admitted? { ThreadJoins(s, Next(s, step), Opening(a.ticket, chunked, length)); }
    case MarkComplete(t) => MarkCompleteKeepsInv(s, t);
    case CancelSession(sid) => if Lookup(s.sessions, sid).Some? { CancelKeepsInv(s, sid); }
    case OtherTransfer(op) => TransfersDoNotMatter(s, op);
    case _ =>
      assert s.threads[step.t] in s.threads;
      SameSessionsKeepInv(s, Next(s, step), step.t);
  }

  lemma TokensOfNothing()
    ensures TokensOf([]) == []
  {
  }

  lemma SessionsAreSorted(s: Receiver)
    requires SessionsInv(s)
    ensures Sorted(s.sessions)
  {
  }

  lemma TransfersDoNotMatter(s: Receiver, op: Transfer.Op)
    requires Inv(s)
    ensures Inv(Next(s, OtherTransfer(op)))
  {
    hide Lookup, Earned, Agrees, Transfer.Apply, TokensOf;
    var r := Next(s, OtherTransfer(op));
    SessionsStay(s, r);
    PreservedIsReflexive(s.sessions);
    forall t <- r.threads ensures ThreadInv(r, t) {
      PreparingIsUnpublished(s, t);
      ThreadStays(s, r, t);
    }
  }

  // ---------- Runs ----------

  /** Every step of the list is enabled when its turn comes. That the next state keeps the invariant
      is what `StepKeepsInv` proves, so nothing else is asked of a run. */
  ghost predicate IsRun(s: Receiver, steps: seq<Step>)
    requires Inv(s)
    decreases |steps|
  {
    steps == [] || (Enabled(s, steps[0]) && (StepKeepsInv(s, steps[0]); IsRun(Next(s, steps[0]), steps[1..])))
  }

  ghost function Run(s: Receiver, steps: seq<Step>): Receiver
    requires Inv(s) && IsRun(s, steps)
    decreases |steps|
  {
    if steps == [] then s else (StepKeepsInv(s, steps[0]); Run(Next(s, steps[0]), steps[1..]))
  }

  /** Safety over every run of every number of threads: the invariant holds at the end, and sessions,
      tokens, sizes and destinations are what they were. */
  lemma {:induction false} RunIsSafe(s: Receiver, steps: seq<Step>)
    requires Inv(s) && IsRun(s, steps)
    ensures Inv(Run(s, steps)) && Preserved(s.sessions, Run(s, steps).sessions)
    decreases |steps|
  {
    hide Inv, Preserved, Enabled, Next;
    if steps == [] {
      PreservedIsReflexive(s.sessions);
    } else {
      StepKeepsInv(s, steps[0]);
      StepPreserves(s, steps[0]);
      var r := Next(s, steps[0]);
      RunIsSafe(r, steps[1..]);
      PreservedIsTransitive(s.sessions, r.sessions, Run(s, steps).sessions);
    }
  }

  lemma StartIsSafe(disk: Disk, transfers: Transfer.State)
    requires ValidDisk(disk)
    ensures Inv(Start(disk, transfers))
  {
  }

  /** What the server can come to: the end of a list of steps, each enabled in its turn, from a start. */
  ghost predicate IsReachable(s: Receiver, disk: Disk, transfers: Transfer.State, steps: seq<Step>)
    requires ValidDisk(disk)
  {
    StartIsSafe(disk, transfers);
    IsRun(Start(disk, transfers), steps) && s == Run(Start(disk, transfers), steps)
  }

  lemma ReachableIsSafe(s: Receiver, disk: Disk, transfers: Transfer.State, steps: seq<Step>)
    requires ValidDisk(disk) && IsReachable(s, disk, transfers, steps)
    ensures Inv(s)
  {
    hide Inv, Run, IsRun;
    StartIsSafe(disk, transfers);
    RunIsSafe(Start(disk, transfers), steps);
  }

  /** The answer of a prepare request is what is stored, whatever else has happened since. */
  lemma AnswerIsStored(s: Receiver, disk: Disk, transfers: Transfer.State, steps: seq<Step>, t: nat)
    requires ValidDisk(disk) && IsReachable(s, disk, transfers, steps)
    requires t < |s.threads| && s.threads[t].Answered?
    ensures var session := Lookup(s.sessions, s.threads[t].sid);
            session.Some? && TokensOf(session.value.files) == s.threads[t].answer
  {
    hide Lookup, TokensOf, IsReachable;
    ReachableIsSafe(s, disk, transfers, steps);
    assert s.threads[t] in s.threads;
  }

  /** A file counts as complete only after a handler admitted with its token wrote all its bytes. */
  lemma CompleteIsEarned(s: Receiver, disk: Disk, transfers: Transfer.State, steps: seq<Step>, sid: string, fid: string)
    requires ValidDisk(disk) && IsReachable(s, disk, transfers, steps)
    requires Lookup(s.sessions, sid).Some? && Lookup(Lookup(s.sessions, sid).value.files, fid).Some?
    requires Lookup(Lookup(s.sessions, sid).value.files, fid).value.complete
    ensures Earned(s, sid, fid, Lookup(Lookup(s.sessions, sid).value.files, fid).value)
  {
    hide Lookup, Earned, IsReachable;
    ReachableIsSafe(s, disk, transfers, steps);
    var session := Lookup(s.sessions, sid).value;
    assert Entry(sid, session) in s.sessions;
    assert Entry(fid, Lookup(session.files, fid).value) in session.files;
  }

  /** After a cancel no upload to that session is admitted, in either protocol version, however the
      run goes on. */
  lemma NoUploadAfterCancel(s: Receiver, steps: seq<Step>, sid: string, v2: bool, query: Entries<string>,
                            chunked: bool, length: nat)
    requires Inv(s) && IsRun(s, steps)
    requires steps != [] && steps[0] == CancelSession(sid) && Lookup(s.sessions, sid).Some?
    ensures var a := Admit(Run(s, steps).sessions, v2, query, chunked, length);
            a.Admitted? ==> a.ticket.session != sid
  {
    hide Enabled, Admit, TokensOf, Lookup, Inv;
    StepKeepsInv(s, steps[0]);
    var c := Next(s, steps[0]);
    CancelSetsFlag(s, sid);
    RunIsSafe(c, steps[1..]);
    var r := Run(s, steps);
    InvIsSorted(r);
    AdmittedAgrees(r.sessions, v2, query, chunked, length);
  }

  lemma InvIsSorted(s: Receiver)
    requires Inv(s)
    ensures Sorted(s.sessions)
  {
  }

  lemma CancelSetsFlag(s: Receiver, sid: string)
    requires Inv(s) && Lookup(s.sessions, sid).Some?
    ensures var c := Lookup(Next(s, CancelSession(sid)).sessions, sid); c.Some? && c.value.cancelled
  {
    hide Lookup, Assign;
    AssignKeepsSorted(s.sessions, sid, Lookup(s.sessions, sid).value.(cancelled := true));
  }

  /** One run after the other. */
  lemma {:induction false} RunsJoin(s: Receiver, steps: seq<Step>, more: seq<Step>)
    requires Inv(s) && IsRun(s, steps) && Inv(Run(s, steps)) && IsRun(Run(s, steps), more)
    ensures IsRun(s, steps + more) && Run(s, steps + more) == Run(Run(s, steps), more)
    decreases |steps|
  {
    hide Inv, Enabled, Next;
    if steps == [] {
      assert [] + more == more;
    } else {
      assert (steps + more)[0] == steps[0] && (steps + more)[1..] == steps[1..] + more;
      StepKeepsInv(s, steps[0]);
      RunsJoin(Next(s, steps[0]), steps[1..], more);
    }
  }

  // ---------- What the steps show in the transfer list ----------

  /** A report shows the bytes written so far, at most the size; the end of an upload shows it complete;
      a failure, its text; a cancel, that. */
  lemma StepShows(s: Receiver, step: Step)
    requires Inv(s) && Enabled(s, step) && Transfer.Valid(s.transfers)
    ensures step.Report? ==>
      var k, was := s.threads[step.t].ticket, Transfer.Get(s.transfers, s.threads[step.t].ticket.transferId);
      was.Some? ==> ShowsBytes(Next(s, step).transfers, k.transferId, s.threads[step.t].written)
    ensures step.EndWriting? && Next(s, step).threads[step.t].Marking? ==>
      Transfer.Ended(s.transfers, Next(s, step).transfers, s.threads[step.t].ticket.transferId, None)
    ensures step.FailItem? ==>
      Transfer.Ended(s.transfers, Next(s, step).transfers, s.threads[step.t].ticket.transferId, Some(s.threads[step.t].text))
    ensures step.CancelItem? ==>
      Transfer.AllCancelled(s.transfers, Next(s, step).transfers, [s.threads[step.t].ids[0]])
  {
    hide Inv, Transfer.Apply, Transfer.Get, Transfer.Ended, Transfer.Valid, Transfer.AllCancelled, ShowsBytes, SetComplete,
         Admit, Lookup, Emplace, Assign;
    if step.Report? {
      var id := s.threads[step.t].ticket.transferId;
      if Transfer.Get(s.transfers, id).Some? { ReportShows(s.transfers, id, s.threads[step.t].written); }
    } else if step.EndWriting? {
      Transfer.UpdateTouches(s.transfers, Transfer.SetStatus(s.threads[step.t].ticket.transferId, Transfer.Completed));
    } else if step.FailItem? {
      Transfer.UpdateTouches(s.transfers, Transfer.Fail(s.threads[step.t].ticket.transferId, s.threads[step.t].text));
    } else if step.CancelItem? {
      NoneAreCancelled(s.transfers);
      Transfer.CancelOneMore(s.transfers, s.transfers, [], s.threads[step.t].ids[0]);
      assert [] + [s.threads[step.t].ids[0]] == [s.threads[step.t].ids[0]];
    }
  }

  predicate ShowsBytes(s: Transfer.State, id: nat, bytes: nat) {
    var item := Transfer.Get(s, id);
    item.Some? && item.value.bytes == if bytes <= item.value.size then bytes else item.value.size
  }

  lemma ReportShows(s: Transfer.State, id: nat, bytes: nat)
    requires Transfer.Valid(s) && Transfer.Get(s, id).Some?
    ensures ShowsBytes(Transfer.Apply(s, Transfer.SetProgress(id, bytes)), id, bytes)
  {
    hide Transfer.Get, Transfer.Apply, Transfer.Valid;
    Transfer.NamedIsUpdated(s, Transfer.SetProgress(id, bytes), id);
  }

  lemma NoneAreCancelled(s: Transfer.State)
    ensures Transfer.AllCancelled(s, s, [])
  {
  }
}
