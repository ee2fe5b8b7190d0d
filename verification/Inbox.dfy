/** What a complete upload means for the inbox: the data a handler wrote stays what its destination
    shows as long as no other handler has that destination open; and what does not follow. */
module Inbox {
  import opened Text
  import opened OrderedMap
  import opened Protocol
  import opened SafePath
  import opened Sessions
  import Transfer
  import R = ReceiveServer
  import Http

  // ---------- Open files and names ----------

  /** No two names are one file, and the file of an open destination has no other name. */
  ghost predicate Links(s: Receiver) {
    NoLinks(s.disk)
    && forall x <- s.threads, n <- s.disk.names :: x.Writing? && s.disk.names[n] == x.file ==> n == x.ticket.destination
  }

  lemma StepKeepsLinks(s: Receiver, step: Step)
    requires Inv(s) && Enabled(s, step) && Links(s)
    ensures Links(Next(s, step))
  {
    hide Inv, Links, Enabled, Next;
    match step
    case OpenFile(t, ok) => OpenKeepsLinks(s, step);
    case Write(t, data) => WriteKeepsLinks(s, step);
    case Report(t) => WriteKeepsLinks(s, step);
    case _ => OtherKeepsLinks(s, step);
  }

  lemma OpenKeepsLinks(s: Receiver, step: Step)
    requires Inv(s) && Enabled(s, step) && Links(s) && step.OpenFile?
    ensures Links(Next(s, step))
  {
    hide SessionsInv, Agrees;
    FilesExist(s);
    var r := Next(s, step);
    assert forall x <- r.threads :: x in s.threads || x == r.threads[step.t];
  }

  /** A write and its report change neither names nor which file a handler has open. */
  lemma WriteKeepsLinks(s: Receiver, step: Step)
    requires Inv(s) && Enabled(s, step) && Links(s) && (step.Write? || step.Report?)
    ensures Links(Next(s, step))
  {
    hide SessionsInv, Agrees, Transfer.Apply, Splice, ThreadInv;
    var r := Next(s, step);
    assert s.threads[step.t] in s.threads;
    assert forall x <- r.threads :: x in s.threads || x == r.threads[step.t];
  }

  lemma OtherKeepsLinks(s: Receiver, step: Step)
    requires Inv(s) && Enabled(s, step) && Links(s) && !step.OpenFile? && !step.Write? && !step.Report?
    ensures Links(Next(s, step))
  {
    hide Lookup, Emplace, Assign, SessionsInv, Agrees, Admit, Transfer.Apply, TokensOf, Candidate, Splice, SetComplete, Probed,
         Ids, ThreadInv;
    assert forall x <- Next(s, step).threads :: x in s.threads || !x.Writing?;
  }

  lemma FilesExist(s: Receiver)
    requires Inv(s)
    ensures forall x <- s.threads :: x.Writing? ==> x.file < |s.disk.bodies|
  {
  }

  /** Over every run. */
  lemma {:induction false} RunKeepsLinks(s: Receiver, steps: seq<Step>)
    requires Inv(s) && IsRun(s, steps) && Links(s)
    ensures Links(Run(s, steps))
    decreases |steps|
  {
    hide Inv, Links, Enabled, Next;
    if steps != [] {
      StepKeepsInv(s, steps[0]);
      StepKeepsLinks(s, steps[0]);
      RunKeepsLinks(Next(s, steps[0]), steps[1..]);
    }
  }

  // ---------- One handler and its destination ----------

  /** Another handler opens the destination. */
  ghost predicate OtherOpens(s: Receiver, step: Step, t: nat, destination: string)
    requires Enabled(s, step)
  {
    step.OpenFile? && step.ok && step.t != t && s.threads[step.t].ticket.destination == destination
  }

  ghost predicate NoOtherOpens(s: Receiver, steps: seq<Step>, t: nat, destination: string)
    requires Inv(s) && IsRun(s, steps)
    decreases |steps|
  {
    steps == []
    || (!OtherOpens(s, steps[0], t, destination)
        && (StepKeepsInv(s, steps[0]); NoOtherOpens(Next(s, steps[0]), steps[1..], t, destination)))
  }

  /** No other handler has the destination open. */
  ghost predicate NoOtherHas(s: Receiver, t: nat, destination: string) {
    forall i :: 0 <= i < |s.threads| && i != t && s.threads[i].Writing? ==> s.threads[i].ticket.destination != destination
  }

  /** What the handler has written is what the destination shows. */
  ghost predicate Holds(s: Receiver, t: nat, destination: string, data: string) {
    t < |s.threads|
    && match s.threads[t]
       case Writing(k, _, _, file, written, _) =>
         && k.destination == destination && written == |data| && Content(s.disk, destination) == Some(data)
         && destination in s.disk.names && s.disk.names[destination] == file
       case Marking(k, written) =>
         k.destination == destination && written == |data| && Content(s.disk, destination) == Some(data)
       case Succeeded(k, written) =>
         k.destination == destination && written == |data| && Content(s.disk, destination) == Some(data)
       case _ => s.threads[t].Failing? || s.threads[t].Failed?
  }

  /** The data of the writes of one handler. */
  function WrittenBy(steps: seq<Step>, t: nat): string {
    if steps == [] then ""
    else (if steps[0].Write? && steps[0].t == t then steps[0].data else "") + WrittenBy(steps[1..], t)
  }

  function WrittenIn(step: Step, t: nat): string {
    if step.Write? && step.t == t then step.data else ""
  }

  lemma StepHolds(s: Receiver, step: Step, t: nat, destination: string, data: string)
    requires Inv(s) && Enabled(s, step) && Links(s) && NoOtherHas(s, t, destination) && Holds(s, t, destination, data)
    requires !OtherOpens(s, step, t, destination)
    ensures NoOtherHas(Next(s, step), t, destination)
    ensures Holds(Next(s, step), t, destination, data + WrittenIn(step, t))
  {
    hide Inv, Links, Next, Holds, NoOtherHas, Enabled;
    assert data + "" == data;
    if step.OpenFile? || step.Write? || step.EndWriting? {
      if step.t == t { OwnFileStepHolds(s, step, t, destination, data); }
      else { OtherFileStepHolds(s, step, t, destination, data); }
    } else {
      QuietStepHolds(s, step, t, destination, data);
    }
  }

  /** The handler's own writes and its end. */
  lemma OwnFileStepHolds(s: Receiver, step: Step, t: nat, destination: string, data: string)
    requires Inv(s) && Enabled(s, step) && NoOtherHas(s, t, destination) && Holds(s, t, destination, data)
    requires (step.Write? || step.EndWriting? || step.OpenFile?) && step.t == t
    ensures NoOtherHas(Next(s, step), t, destination)
    ensures Holds(Next(s, step), t, destination, data + WrittenIn(step, t))
  {
    hide Lookup, SessionsInv, Agrees, Transfer.Apply, Splice;
    assert data + "" == data;
    if step.Write? {
      assert s.threads[t] in s.threads;
      WriteAppends(data, step.data);
    }
  }

  lemma WriteAppends(data: string, more: string)
    ensures Splice(data, |data|, more) == data + more
  {
  }

  /** A file operation of another handler, on another destination. */
  lemma OtherFileStepHolds(s: Receiver, step: Step, t: nat, destination: string, data: string)
    requires Inv(s) && Enabled(s, step) && Links(s) && NoOtherHas(s, t, destination) && Holds(s, t, destination, data)
    requires (step.OpenFile? || step.Write? || step.EndWriting?) && step.t != t
    requires !OtherOpens(s, step, t, destination)
    ensures NoOtherHas(Next(s, step), t, destination) && Holds(Next(s, step), t, destination, data)
  {
    hide Lookup, SessionsInv, Agrees, Transfer.Apply, Splice, ThreadInv, NoOtherHas, Links, Content, WriteAt, OpenTruncated;
    OtherHasAnother(s, step, t, destination);
    OtherKeepsDestination(s, step, destination);
  }

  lemma OtherKeepsDestination(s: Receiver, step: Step, destination: string)
    requires Inv(s) && Enabled(s, step) && Links(s)
    requires step.OpenFile? || step.Write? || step.EndWriting?
    requires (step.OpenFile? && !step.ok) || s.threads[step.t].ticket.destination != destination
    ensures var d, was := Next(s, step).disk, s.disk;
            && Content(d, destination) == Content(was, destination)
            && (destination in d.names <==> destination in was.names)
            && (destination in d.names ==> d.names[destination] == was.names[destination])
  {
    hide Lookup, SessionsInv, Agrees, Transfer.Apply, Splice, ThreadInv;
    assert s.threads[step.t] in s.threads;
  }

  lemma OtherHasAnother(s: Receiver, step: Step, t: nat, destination: string)
    requires Inv(s) && Enabled(s, step) && NoOtherHas(s, t, destination)
    requires (step.OpenFile? || step.Write? || step.EndWriting?) && step.t != t
    requires !OtherOpens(s, step, t, destination)
    ensures NoOtherHas(Next(s, step), t, destination)
    ensures (step.OpenFile? && !step.ok) || s.threads[step.t].ticket.destination != destination
  {
    hide Lookup, SessionsInv, Agrees, Transfer.Apply, WriteAt, OpenTruncated, ThreadInv;
  }

  /** A step that leaves the inbox alone. */
  lemma QuietStepHolds(s: Receiver, step: Step, t: nat, destination: string, data: string)
    requires Inv(s) && Enabled(s, step) && NoOtherHas(s, t, destination) && Holds(s, t, destination, data)
    requires !step.OpenFile? && !step.Write? && !step.EndWriting?
    ensures NoOtherHas(Next(s, step), t, destination) && Holds(Next(s, step), t, destination, data)
  {
    hide Lookup, Emplace, Assign, SessionsInv, Agrees, Admit, Transfer.Apply, TokensOf, Candidate, SetComplete, Probed, Ids,
         ThreadInv, Content;
  }

  lemma {:induction false} RunHolds(s: Receiver, steps: seq<Step>, t: nat, destination: string, data: string)
    requires Inv(s) && IsRun(s, steps) && Links(s) && NoOtherHas(s, t, destination) && Holds(s, t, destination, data)
    requires NoOtherOpens(s, steps, t, destination)
    ensures Holds(Run(s, steps), t, destination, data + WrittenBy(steps, t))
    decreases |steps|
  {
    hide Inv, Links, Enabled, Next, Holds, NoOtherHas, OtherOpens;
    if steps == [] {
      assert data + "" == data;
    } else {
      StepKeepsInv(s, steps[0]);
      StepKeepsLinks(s, steps[0]);
      StepHolds(s, steps[0], t, destination, data);
      var now := WrittenIn(steps[0], t);
      RunHolds(Next(s, steps[0]), steps[1..], t, destination, data + now);
      assert data + now + WrittenBy(steps[1..], t) == data + WrittenBy(steps, t);
    }
  }

  /** A handler that opens its destination while no other has it open, and that no other follows, has
      left there exactly what it wrote when it succeeds, and that is as long as announced; whatever
      else happens in between, in every interleaving. */
  lemma SuccessIsShown(s: Receiver, steps: seq<Step>, t: nat)
    requires Inv(s) && IsRun(s, steps) && Links(s) && t < |s.threads| && s.threads[t].Opening?
    requires steps != [] && steps[0] == OpenFile(t, true)
    requires NoOtherHas(s, t, s.threads[t].ticket.destination)
    requires NoOtherOpens(s, steps, t, s.threads[t].ticket.destination)
    ensures var r, k := Run(s, steps), s.threads[t].ticket;
            t < |r.threads|
            && (r.threads[t].Succeeded? ==> Content(r.disk, k.destination) == Some(WrittenBy(steps, t))
                                            && |WrittenBy(steps, t)| == r.threads[t].ticket.size)
  {
    hide Inv, Links, Enabled, NoOtherHas, ThreadInv;
    var n, d := Next(s, steps[0]), s.threads[t].ticket.destination;
    StepKeepsInv(s, steps[0]);
    StepKeepsLinks(s, steps[0]);
    OpenedHolds(s, t);
    RunHolds(n, steps[1..], t, d, "");
    RunIsSafe(n, steps[1..]);
    assert "" + WrittenBy(steps[1..], t) == WrittenBy(steps, t);
    var r := Run(s, steps);
    if r.threads[t].Succeeded? { SizeIsWritten(r, t); }
  }

  lemma OpenedHolds(s: Receiver, t: nat)
    requires Inv(s) && Enabled(s, OpenFile(t, true)) && NoOtherHas(s, t, s.threads[t].ticket.destination)
    ensures var n, d := Next(s, OpenFile(t, true)), s.threads[t].ticket.destination;
            Holds(n, t, d, "") && NoOtherHas(n, t, d)
  {
  }

  lemma SizeIsWritten(s: Receiver, t: nat)
    requires Inv(s) && t < |s.threads| && s.threads[t].Succeeded?
    ensures s.threads[t].written == s.threads[t].ticket.size
  {
    assert s.threads[t] in s.threads;
  }

  // ---------- Complete does not mean present ----------

  /** A failing upload of that destination removes it. */
  predicate Removes(s: Receiver, step: Step, destination: string) {
    && step.EndWriting? && step.t < |s.threads| && s.threads[step.t].Writing?
    && var x := s.threads[step.t];
       x.ticket.destination == destination
       && (!step.good || x.written != if x.chunked then x.ticket.size else x.length)
  }

  /** A name goes away exactly by such a step. */
  lemma NameStays(s: Receiver, step: Step, destination: string)
    requires Inv(s) && Enabled(s, step) && destination in s.disk.names
    ensures destination in Next(s, step).disk.names <==> !Removes(s, step, destination)
  {
    hide Inv, Lookup, Emplace, Assign, Admit, Transfer.Apply, Candidate, SetComplete, Probed, Ids, Splice;
  }

  ghost predicate AlwaysThere(s: Receiver, steps: seq<Step>, destination: string)
    requires Inv(s) && IsRun(s, steps)
    decreases |steps|
  {
    destination in s.disk.names
    && (steps == [] || (StepKeepsInv(s, steps[0]); AlwaysThere(Next(s, steps[0]), steps[1..], destination)))
  }

  ghost predicate NeverRemoved(s: Receiver, steps: seq<Step>, destination: string)
    requires Inv(s) && IsRun(s, steps)
    decreases |steps|
  {
    steps == []
    || (!Removes(s, steps[0], destination)
        && (StepKeepsInv(s, steps[0]); NeverRemoved(Next(s, steps[0]), steps[1..], destination)))
  }

  /** Over every run: a destination stays in the inbox exactly when no failing upload removes it. */
  lemma {:induction false} StaysUnlessRemoved(s: Receiver, steps: seq<Step>, destination: string)
    requires Inv(s) && IsRun(s, steps) && destination in s.disk.names
    ensures AlwaysThere(s, steps, destination) <==> NeverRemoved(s, steps, destination)
    decreases |steps|
  {
    hide Inv, Enabled, Next, Removes;
    if steps != [] {
      StepKeepsInv(s, steps[0]);
      NameStays(s, steps[0], destination);
      if !Removes(s, steps[0], destination) { StaysUnlessRemoved(Next(s, steps[0]), steps[1..], destination); }
    }
  }

  /** An upload that is admitted, also one of a file that is already complete, leaves its destination
      in the inbox exactly when it succeeds; either way what was complete stays complete. */
  lemma UploadKeepsName(sessions: Entries<Session>, disk: Disk, request: Http.Request, body: string, env: R.Env)
    requires ValidDisk(disk) && Sorted(sessions) && forall e <- sessions :: Sorted(e.value.files)
    requires env.openable && !R.IsUndefinedUpload(request, body)
    requires var a := Admit(sessions, request.path == ROUTE_UPLOAD, request.query, request.chunked, request.contentLength);
             a.Admitted?
    ensures var k := Admit(sessions, request.path == ROUTE_UPLOAD, request.query, request.chunked, request.contentLength).ticket;
            var o := R.ServeUpload(sessions, disk, request, body, env);
            && o.Outcome? && Preserved(sessions, o.sessions)
            && (k.destination in o.disk.names <==> R.UploadOutcome(request, k.size, body).1.None?)
  {
    hide Admit, SetComplete, Preserved, R.UploadOutcome, R.IsUndefinedUpload, OpenTruncated;
    var k := Admit(sessions, request.path == ROUTE_UPLOAD, request.query, request.chunked, request.contentLength).ticket;
    PreservedIsReflexive(sessions);
    SetCompletePreserves(sessions, k.session, k.fileId);
  }

  /** So a file can be marked complete and be gone: here a second upload of it breaks off. */
  lemma CompleteAndGone(dto: FileDto, env: R.Env)
    requires dto.size == 1 && env.openable
    ensures var file := PendingFile(dto, "t", "a.txt", 1, true);
            var sessions := [Entry("s", Session([Entry("f", file)], false))];
            var query := [Entry("fileId", "f"), Entry("sessionId", "s"), Entry("token", "t")];
            var request := Http.Request("POST", ROUTE_UPLOAD, query, [], 1, false);
            var o := R.ServeUpload(sessions, Disk(map["a.txt" := 0], ["x"]), request, "", env);
            o.Outcome? && o.sessions == sessions && "a.txt" !in o.disk.names
  {
    var file := PendingFile(dto, "t", "a.txt", 1, true);
    var sessions := [Entry("s", Session([Entry("f", file)], false))];
    var query := [Entry("fileId", "f"), Entry("sessionId", "s"), Entry("token", "t")];
    assert "token"[0] == 't' && "sessionId"[0] == 's' && "fileId"[0] == 'f';
    assert query[1..][1..] == [Entry("token", "t")];
    assert Lookup(query, "sessionId") == Some("s") && Lookup(query, "token") == Some("t");
  }
}
