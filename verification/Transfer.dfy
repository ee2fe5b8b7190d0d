/** The transfer list shown to the user. Every public operation takes the mutex, so an operation is
    one atomic step; times are left out. */
module Transfer {
  import opened Text

  datatype Direction = Send | Receive

  datatype Status = Pending | Preparing | Transferring | Completed | Failed | Cancelled

  datatype Item = Item(id: nat, direction: Direction, status: Status, fileName: string, size: nat, bytes: nat,
                       peerAlias: string, peerIp: string, error: string)

  /** The state of the list. */
  datatype State = State(items: seq<Item>, nextId: nat)

  const EMPTY := State([], 1)

  datatype Op =
    | Add(direction: Direction, fileName: string, size: nat, peerAlias: string, peerIp: string)
    | SetStatus(id: nat, status: Status)
    | SetProgress(id: nat, bytes: nat)
    | Fail(id: nat, error: string)
    | Cancel(id: nat)
    | ClearCompleted
    | Clear

  function Index(items: seq<Item>, id: nat): (r: Option<nat>)
    ensures r.Some? ==> r.value < |items| && items[r.value].id == id
    ensures r.None? ==> forall i <- items :: i.id != id
  {
    if items == [] then None
    else if items[0].id == id then Some(0)
    else match Index(items[1..], id) case None => None case Some(i) => Some(i + 1)
  }

  function NewItem(id: nat, op: Op): Item
    requires op.Add?
  {
    Item(id, op.direction, Pending, op.fileName, op.size, 0, op.peerAlias, op.peerIp, "")
  }

  /** What an update makes of the item it names. */
  function Updated(item: Item, op: Op): Item
    requires !op.Add? && !op.ClearCompleted? && !op.Clear?
  {
    match op
    case SetStatus(_, s) =>
      if s == Completed then item.(status := s, bytes := item.size, error := "") else item.(status := s)
    case SetProgress(_, n) =>
      var bytes := if n < item.size then n else item.size;
      var status := if item.status == Pending || item.status == Preparing then Transferring else item.status;
      if item.size > 0 && bytes == item.size then item.(bytes := bytes, status := Completed, error := "")
      else item.(bytes := bytes, status := status)
    case Fail(_, e) => item.(status := Failed, error := e)
    case Cancel(_) => item.(status := Cancelled)
  }

  predicate IsFinished(s: Status) {
    s == Completed || s == Failed || s == Cancelled
  }

  function Unfinished(items: seq<Item>): seq<Item> {
    if items == [] then []
    else if IsFinished(items[0].status) then Unfinished(items[1..])
    else [items[0]] + Unfinished(items[1..])
  }

  function Apply(s: State, op: Op): State {
    match op
    case Add(_, _, _, _, _) => State(s.items + [NewItem(s.nextId, op)], s.nextId + 1)
    case ClearCompleted => s.(items := Unfinished(s.items))
    case Clear => s.(items := [])
    case _ =>
      match Index(s.items, op.id)
      case None => s
      case Some(i) => s.(items := s.items[i := Updated(s.items[i], op)])
  }

  function Run(s: State, ops: seq<Op>): State
    decreases |ops|
  {
    if ops == [] then s else Run(Apply(s, ops[0]), ops[1..])
  }

  // ---------- Invariants ----------

  predicate Valid(s: State) {
    && 0 < s.nextId
    && (forall i, j :: 0 <= i < j < |s.items| ==> s.items[i].id < s.items[j].id)
    && (forall i <- s.items :: 0 < i.id < s.nextId && i.bytes <= i.size)
  }

  lemma {:induction false} UnfinishedKeepsOrder(items: seq<Item>)
    requires forall i, j :: 0 <= i < j < |items| ==> items[i].id < items[j].id
    ensures var r := Unfinished(items);
            && (forall i, j :: 0 <= i < j < |r| ==> r[i].id < r[j].id)
            && (forall x :: x in r <==> x in items && !IsFinished(x.status))
  {
    if items != [] {
      UnfinishedKeepsOrder(items[1..]);
      var r, more := Unfinished(items), Unfinished(items[1..]);
      assert forall x :: x in items <==> x == items[0] || x in items[1..];
      forall x <- more ensures items[0].id < x.id {
        var j :| 0 <= j < |items[1..]| && items[1..][j] == x;
        assert items[0].id < items[j + 1].id;
      }
      if !IsFinished(items[0].status) {
        assert r == [items[0]] + more;
        assert forall j :: 0 < j < |r| ==> r[j] in more;
      }
    }
  }

  /** Every operation keeps ids strictly increasing in list order and byte counts within the size. */
  lemma ApplyKeepsValid(s: State, op: Op)
    requires Valid(s)
    ensures Valid(Apply(s, op)) && s.nextId <= Apply(s, op).nextId
  {
    if op.ClearCompleted? {
      UnfinishedKeepsOrder(s.items);
    } else if !op.Add? && !op.Clear? && Index(s.items, op.id).Some? {
      hide Index;
      var i := Index(s.items, op.id).value;
      assert s.items[i] in s.items;
      assert forall x <- Apply(s, op).items :: x in s.items || x == Updated(s.items[i], op);
    }
  }

  lemma {:induction false} RunKeepsValid(s: State, ops: seq<Op>)
    requires Valid(s)
    ensures Valid(Run(s, ops)) && s.nextId <= Run(s, ops).nextId
    decreases |ops|
  {
    if ops != [] {
      ApplyKeepsValid(s, ops[0]);
      RunKeepsValid(Apply(s, ops[0]), ops[1..]);
    }
  }

  /** The ids handed out by the `add`s of a run. */
  function Issued(s: State, ops: seq<Op>): seq<nat>
    decreases |ops|
  {
    if ops == [] then []
    else if ops[0].Add? then [s.nextId] + Issued(Apply(s, ops[0]), ops[1..])
    else Issued(Apply(s, ops[0]), ops[1..])
  }

  /** No id is handed out twice, whatever is cleared in between. */
  lemma {:induction false} IdsAreNeverReused(s: State, ops: seq<Op>)
    ensures var ids := Issued(s, ops);
            && (forall i, j :: 0 <= i < j < |ids| ==> ids[i] < ids[j])
            && (forall id <- ids :: s.nextId <= id < Run(s, ops).nextId)
    decreases |ops|
  {
    if ops != [] {
      hide Apply, Run, Issued;
      var next, rest := Apply(s, ops[0]), ops[1..];
      IdsAreNeverReused(next, rest);
      NextIdGrows(next, rest);
      IssuedStep(s, ops);
      var ids, more := Issued(s, ops), Issued(next, rest);
      if ops[0].Add? {
        forall j | 0 < j < |ids| ensures s.nextId < ids[j] { assert ids[j] == more[j - 1] && more[j - 1] in more; }
        assert forall id <- ids :: id == s.nextId || id in more;
      }
    }
  }

  lemma IssuedStep(s: State, ops: seq<Op>)
    requires ops != []
    ensures var next := Apply(s, ops[0]);
            && Run(s, ops) == Run(next, ops[1..])
            && (if ops[0].Add?
                then Issued(s, ops) == [s.nextId] + Issued(next, ops[1..]) && next.nextId == s.nextId + 1
                else Issued(s, ops) == Issued(next, ops[1..]) && next.nextId == s.nextId)
  {
  }

  lemma {:induction false} NextIdGrows(s: State, ops: seq<Op>)
    ensures s.nextId <= Run(s, ops).nextId
    decreases |ops|
  {
    if ops != [] { NextIdGrows(Apply(s, ops[0]), ops[1..]); }
  }

  predicate Names(op: Op, id: nat) {
    op.ClearCompleted? || op.Clear? || (!op.Add? && op.id == id)
  }

  /** The item with that id, if it is listed. */
  function Get(s: State, id: nat): Option<Item> {
    match Index(s.items, id) case None => None case Some(i) => Some(s.items[i])
  }

  lemma {:induction false} IndexIs(items: seq<Item>, i: nat)
    requires i < |items| && forall j :: 0 <= j < i ==> items[j].id != items[i].id
    ensures Index(items, items[i].id) == Some(i)
  {
    if i > 0 {
      assert items[0].id != items[i].id;
      IndexIs(items[1..], i - 1);
    }
  }

  lemma {:induction false} SameIdsSameIndex(items: seq<Item>, other: seq<Item>, id: nat)
    requires |items| == |other| && forall i :: 0 <= i < |items| ==> items[i].id == other[i].id
    ensures Index(items, id) == Index(other, id)
  {
    if items != [] { SameIdsSameIndex(items[1..], other[1..], id); }
  }

  /** What an update does to every lookup. */
  lemma UpdateIs(s: State, op: Op, id: nat)
    requires !op.Add? && !op.ClearCompleted? && !op.Clear?
    ensures Get(Apply(s, op), id)
         == if op.id == id && Get(s, id).Some? then Some(Updated(Get(s, id).value, op)) else Get(s, id)
  {
    SameIdsSameIndex(s.items, Apply(s, op).items, id);
  }

  /** An operation that does not name a listed item leaves it as it is. */
  lemma OthersAreUntouched(s: State, op: Op, id: nat)
    requires Valid(s) && Get(s, id).Some? && !Names(op, id)
    ensures Get(Apply(s, op), id) == Get(s, id)
  {
    var i := Index(s.items, id).value;
    var t := Apply(s, op);
    assert t.items[i] == s.items[i];
    IndexIs(t.items, i);
  }

  /** An update that names a listed item does to it what `Updated` says. */
  lemma NamedIsUpdated(s: State, op: Op, id: nat)
    requires Valid(s) && Get(s, id).Some?
    requires !op.Add? && !op.ClearCompleted? && !op.Clear? && op.id == id
    ensures Get(Apply(s, op), id) == Some(Updated(Get(s, id).value, op))
  {
    var i := Index(s.items, id).value;
    IndexIs(Apply(s, op).items, i);
  }

  lemma AddedIsListed(s: State, op: Op)
    requires Valid(s) && op.Add?
    ensures Get(Apply(s, op), s.nextId) == Some(NewItem(s.nextId, op))
  {
    IndexIs(Apply(s, op).items, |s.items|);
  }

  // ---------- Completed means all bytes, as long as no report shrinks ----------

  ghost predicate CompletedIsFull(s: State) {
    forall i <- s.items :: i.status == Completed ==> i.bytes == i.size
  }

  /** A progress report below the size of an item that is already completed. */
  predicate Shrinks(s: State, op: Op) {
    op.SetProgress? && match Get(s, op.id) case None => false case Some(i) => i.status == Completed && op.bytes < i.size
  }

  /** An operation breaks "completed means all bytes" exactly when it is a shrinking report. */
  lemma FullExactlyUnlessShrunk(s: State, op: Op)
    requires Valid(s) && CompletedIsFull(s)
    ensures CompletedIsFull(Apply(s, op)) <==> !Shrinks(s, op)
  {
    var t := Apply(s, op);
    if op.ClearCompleted? {
      UnfinishedKeepsOrder(s.items);
    } else if !op.Add? && !op.Clear? && Index(s.items, op.id).Some? {
      var i := Index(s.items, op.id).value;
      assert s.items[i] in s.items;
      assert t.items[i] == Updated(s.items[i], op) && t.items[i] in t.items;
      assert forall x <- t.items :: x in s.items || x == t.items[i];
    }
  }

  /** Over a whole run: every state is full exactly when no step shrinks. */
  lemma {:induction false} RunStaysFull(s: State, ops: seq<Op>)
    requires Valid(s) && CompletedIsFull(s)
    ensures (forall n :: 0 <= n <= |ops| ==> CompletedIsFull(Run(s, ops[..n])))
       <==> (forall n :: 0 <= n < |ops| ==> !Shrinks(Run(s, ops[..n]), ops[n]))
    decreases |ops|
  {
    if ops == [] {
      assert ops[..0] == [];
    } else {
      var op, rest := ops[0], ops[1..];
      var t := Apply(s, op);
      FullExactlyUnlessShrunk(s, op);
      ApplyKeepsValid(s, op);
      assert ops[..0] == [];
      forall n | 0 < n <= |ops| ensures Run(s, ops[..n]) == Run(t, rest[..n - 1]) {
        assert ops[..n][0] == op && ops[..n][1..] == rest[..n - 1];
      }
      if !Shrinks(s, op) {
        RunStaysFull(t, rest);
        assert forall n :: 0 <= n < |rest| ==> rest[n] == ops[n + 1] && Run(t, rest[..n]) == Run(s, ops[..n + 1]);
        assert forall n :: 0 <= n <= |rest| ==> Run(t, rest[..n]) == Run(s, ops[..n + 1]);
        if forall n :: 0 <= n <= |rest| ==> CompletedIsFull(Run(t, rest[..n])) {
          forall n | 0 <= n <= |ops| ensures CompletedIsFull(Run(s, ops[..n])) {
            if n > 0 { assert CompletedIsFull(Run(t, rest[..n - 1])); }
          }
          forall n | 0 <= n < |ops| ensures !Shrinks(Run(s, ops[..n]), ops[n]) {
            if n > 0 { assert !Shrinks(Run(t, rest[..n - 1]), rest[n - 1]); }
          }
        } else {
          var n :| 0 <= n <= |rest| && !CompletedIsFull(Run(t, rest[..n]));
          assert !CompletedIsFull(Run(s, ops[..n + 1]));
          var k :| 0 <= k < |rest| && Shrinks(Run(t, rest[..k]), rest[k]);
          assert Shrinks(Run(s, ops[..k + 1]), ops[k + 1]);
        }
      } else {
        assert Run(s, ops[..1]) == t;
        assert !CompletedIsFull(Run(s, ops[..1]));
        assert Shrinks(Run(s, ops[..0]), ops[0]);
      }
    }
  }

  // ---------- The history of an item ----------

  /** The operations by which an item that was added is neither added nor cleared. */
  predicate IsUpdate(op: Op) {
    op.SetStatus? || op.SetProgress? || op.Fail? || op.Cancel?
  }

  /** The bytes an added item shows: those of the last report, at most its size, or all if it was
      completed since. */
  function LastBytes(ops: seq<Op>, id: nat, size: nat): nat {
    if ops == [] then 0
    else
      var op, before := ops[|ops| - 1], ops[..|ops| - 1];
      if op.SetProgress? && op.id == id then if op.bytes <= size then op.bytes else size
      else if op == SetStatus(id, Completed) then size
      else LastBytes(before, id, size)
  }

  /** Its status: the last one given, but a full report completes it and any other report starts it. */
  function LastStatus(ops: seq<Op>, id: nat, size: nat): Status {
    if ops == [] then Pending
    else
      var op, before := ops[|ops| - 1], LastStatus(ops[..|ops| - 1], id, size);
      if op.Add? || op.ClearCompleted? || op.Clear? || op.id != id then before
      else
        match op
        case SetStatus(_, status) => status
        case SetProgress(_, n) =>
          if size > 0 && n >= size then Completed
          else if before == Pending || before == Preparing then Transferring
          else before
        case Fail(_, _) => Failed
        case Cancel(_) => Cancelled
  }

  /** Its error: that of the last failure, unless it was completed since. */
  function LastError(ops: seq<Op>, id: nat, size: nat): string {
    if ops == [] then ""
    else
      var op, before := ops[|ops| - 1], LastError(ops[..|ops| - 1], id, size);
      if op.Fail? && op.id == id then op.error
      else if op == SetStatus(id, Completed) || (op.SetProgress? && op.id == id && 0 < size <= op.bytes) then ""
      else before
  }

  lemma {:induction false} RunSnoc(s: State, ops: seq<Op>, op: Op)
    ensures Run(s, ops + [op]) == Apply(Run(s, ops), op)
    decreases |ops|
  {
    hide Apply;
    if ops == [] {
      assert (ops + [op])[1..] == [];
    } else {
      assert (ops + [op])[1..] == ops[1..] + [op];
      RunSnoc(Apply(s, ops[0]), ops[1..], op);
    }
  }

  /** Whatever is done to an added item and to others, short of clearing: it shows what its history says. */
  lemma {:induction false} HistoryDecides(s: State, add: Op, ops: seq<Op>)
    requires Valid(s) && add.Add? && forall op <- ops :: op.Add? || IsUpdate(op)
    ensures var id := s.nextId;
            Valid(Run(Apply(s, add), ops))
            && Get(Run(Apply(s, add), ops), id)
               == Some(Item(id, add.direction, LastStatus(ops, id, add.size), add.fileName, add.size,
                            LastBytes(ops, id, add.size), add.peerAlias, add.peerIp, LastError(ops, id, add.size)))
    decreases |ops|
  {
    hide Apply, Get, Valid;
    var t, id := Apply(s, add), s.nextId;
    ApplyKeepsValid(s, add);
    if ops == [] {
      AddedIsListed(s, add);
    } else {
      var front, op := ops[..|ops| - 1], ops[|ops| - 1];
      assert ops == front + [op] && op in ops && forall x <- front :: x in ops;
      HistoryDecides(s, add, front);
      RunSnoc(t, front, op);
      ApplyKeepsValid(Run(t, front), op);
      if IsUpdate(op) && op.id == id {
        NamedIsUpdated(Run(t, front), op, id);
      } else {
        OthersAreUntouched(Run(t, front), op, id);
      }
    }
  }

  /** Clearing keeps exactly the items that are pending, in preparation or under way, as they are. */
  lemma ClearedExactly(s: State, id: nat)
    requires Valid(s) && Get(s, id).Some?
    ensures var status := Get(s, id).value.status;
            Get(Apply(s, ClearCompleted), id)
            == if status == Pending || status == Preparing || status == Transferring then Get(s, id) else None
  {
    hide Apply;
    var item, r := Get(s, id).value, Unfinished(s.items);
    UnfinishedKeepsOrder(s.items);
    ClearedIs(s);
    forall x <- r | x.id == id ensures x == item { OneItemForAnId(s, x, item); }
  }

  lemma OneItemForAnId(s: State, a: Item, b: Item)
    requires Valid(s) && a in s.items && b in s.items && a.id == b.id
    ensures a == b
  {
    var i :| 0 <= i < |s.items| && s.items[i] == a;
    var j :| 0 <= j < |s.items| && s.items[j] == b;
    if i < j { assert s.items[i].id < s.items[j].id; }
    if j < i { assert s.items[j].id < s.items[i].id; }
  }

  // ---------- What the handlers do to the list ----------

  /** The same transfer, whatever its progress. */
  predicate SameTransfer(a: Option<Item>, b: Option<Item>) {
    a.Some? == b.Some?
    && (a.Some? ==> b.value == a.value.(status := b.value.status, bytes := b.value.bytes, error := b.value.error))
  }

  /** Nothing has changed but the progress of one item. */
  ghost predicate OnlyTouched(s: State, r: State, id: nat) {
    && r.nextId == s.nextId && SameTransfer(Get(s, id), Get(r, id))
    && forall other :: other != id ==> Get(r, other) == Get(s, other)
  }

  /** The item, if it is listed, is completed with all its bytes, or failed with the error. */
  ghost predicate Ended(s: State, r: State, id: nat, error: Option<string>) {
    && OnlyTouched(s, r, id)
    && (Get(r, id).Some? ==>
          var item := Get(r, id).value;
          if error.None? then item.status == Completed && item.bytes == item.size && item.error == ""
          else item.status == Failed && item.error == error.value)
  }

  lemma UpdateTouches(s: State, op: Op)
    requires !op.Add? && !op.ClearCompleted? && !op.Clear?
    ensures OnlyTouched(s, Apply(s, op), op.id)
    ensures op.Fail? ==> Ended(s, Apply(s, op), op.id, Some(op.error))
    ensures op.SetStatus? && op.status == Completed ==> Ended(s, Apply(s, op), op.id, None)
  {
    hide Get;
    forall other ensures Get(Apply(s, op), other)
      == if op.id == other && Get(s, other).Some? then Some(Updated(Get(s, other).value, op)) else Get(s, other)
    {
      UpdateIs(s, op, other);
    }
    NextIdStays(s, op);
  }

  lemma Untouched(s: State, id: nat)
    ensures OnlyTouched(s, s, id)
  {
  }

  lemma TouchedTwice(s: State, m: State, r: State, id: nat)
    requires OnlyTouched(s, m, id) && OnlyTouched(m, r, id)
    ensures OnlyTouched(s, r, id)
  {
    hide Get;
  }

  lemma EndedFrom(s: State, m: State, r: State, id: nat, error: Option<string>)
    requires OnlyTouched(s, m, id) && Ended(m, r, id, error)
    ensures Ended(s, r, id, error)
  {
    hide Get;
  }

  lemma NextIdStays(s: State, op: Op)
    requires !op.Add?
    ensures Apply(s, op).nextId == s.nextId
  {
  }

  /** Exactly these items, as far as they are listed, are cancelled. */
  ghost predicate AllCancelled(s: State, r: State, ids: seq<nat>) {
    r.nextId == s.nextId
    && forall id :: Get(r, id) == if id in ids && Get(s, id).Some? then Some(Get(s, id).value.(status := Cancelled))
                                  else Get(s, id)
  }

  lemma CancelOneMore(s: State, r: State, ids: seq<nat>, id: nat)
    requires AllCancelled(s, r, ids)
    ensures AllCancelled(s, Apply(r, Cancel(id)), ids + [id])
  {
    hide Get, Apply;
    forall other ensures Get(Apply(r, Cancel(id)), other)
      == if other == id && Get(r, other).Some? then Some(Get(r, other).value.(status := Cancelled)) else Get(r, other)
    {
      UpdateIs(r, Cancel(id), other);
    }
    NextIdStays(r, Cancel(id));
  }

  // ---------- How long an item stays cancelled ----------

  predicate IsCancelled(s: State, id: nat) {
    match Get(s, id) case None => false case Some(i) => i.status == Cancelled
  }

  /** The operations that end it: failing the item, giving it another status, reporting all its
      bytes, and the two that clear it from the list. */
  predicate EndsCancel(s: State, op: Op, id: nat) {
    match op
    case Add(_, _, _, _, _) => false
    case SetStatus(i, status) => i == id && status != Cancelled
    case SetProgress(i, bytes) =>
      i == id && Get(s, id).Some? && 0 < Get(s, id).value.size <= bytes
    case Fail(i, _) => i == id
    case Cancel(_) => false
    case ClearCompleted => true
    case Clear => true
  }

  /** A cancelled item stays listed as cancelled exactly under the other operations. */
  lemma StaysCancelled(s: State, op: Op, id: nat)
    requires Valid(s) && IsCancelled(s, id)
    ensures IsCancelled(Apply(s, op), id) <==> !EndsCancel(s, op, id)
  {
    if op.ClearCompleted? {
      FinishedIsCleared(s, id);
    } else if Names(op, id) {
      if !op.Clear? { NamedIsUpdated(s, op, id); }
    } else {
      OthersAreUntouched(s, op, id);
    }
  }

  lemma FinishedIsCleared(s: State, id: nat)
    requires Valid(s) && Get(s, id).Some? && IsFinished(Get(s, id).value.status)
    ensures Get(Apply(s, ClearCompleted), id).None?
  {
    hide Apply;
    var i := Index(s.items, id).value;
    UnfinishedKeepsOrder(s.items);
    assert Apply(s, ClearCompleted).items == Unfinished(s.items) by { ClearedIs(s); }
    forall x <- Unfinished(s.items) ensures x.id != id {
      var j :| 0 <= j < |s.items| && s.items[j] == x;
      if j < i { assert s.items[j].id < s.items[i].id; }
      if i < j { assert s.items[i].id < s.items[j].id; }
    }
  }

  lemma ClearedIs(s: State)
    ensures Apply(s, ClearCompleted).items == Unfinished(s.items)
  {
  }

  /** Over a whole run: it is cancelled throughout exactly when no operation ends it. */
  lemma {:induction false} RunStaysCancelled(s: State, ops: seq<Op>, id: nat)
    requires Valid(s) && IsCancelled(s, id)
    ensures (forall n :: 0 <= n <= |ops| ==> IsCancelled(Run(s, ops[..n]), id))
       <==> (forall n :: 0 <= n < |ops| ==> !EndsCancel(Run(s, ops[..n]), ops[n], id))
    decreases |ops|
  {
    hide Apply, Get, EndsCancel, IsCancelled, Valid;
    if ops == [] {
      assert ops[..0] == [];
    } else {
      var op, rest := ops[0], ops[1..];
      var t := Apply(s, op);
      StaysCancelled(s, op, id);
      ApplyKeepsValid(s, op);
      PrefixesOfRun(s, ops);
      if EndsCancel(s, op, id) {
        assert !IsCancelled(Run(s, ops[..1]), id);
        assert EndsCancel(Run(s, ops[..0]), ops[0], id);
      } else {
        RunStaysCancelled(t, rest, id);
        if forall n :: 0 <= n <= |rest| ==> IsCancelled(Run(t, rest[..n]), id) {
          forall n | 0 <= n <= |ops| ensures IsCancelled(Run(s, ops[..n]), id) {
            if n > 0 { assert IsCancelled(Run(t, rest[..n - 1]), id); }
          }
          forall n | 0 <= n < |ops| ensures !EndsCancel(Run(s, ops[..n]), ops[n], id) {
            if n > 0 { assert !EndsCancel(Run(t, rest[..n - 1]), rest[n - 1], id); }
          }
        } else {
          var n :| 0 <= n <= |rest| && !IsCancelled(Run(t, rest[..n]), id);
          assert !IsCancelled(Run(s, ops[..n + 1]), id);
          var k :| 0 <= k < |rest| && EndsCancel(Run(t, rest[..k]), rest[k], id);
          assert EndsCancel(Run(s, ops[..k + 1]), ops[k + 1], id);
        }
      }
    }
  }

  lemma PrefixesOfRun(s: State, ops: seq<Op>)
    requires ops != []
    ensures Run(s, ops[..0]) == s && Run(s, ops[..1]) == Apply(s, ops[0])
    ensures forall n :: 0 < n <= |ops| ==> Run(s, ops[..n]) == Run(Apply(s, ops[0]), ops[1..][..n - 1])
    ensures forall n :: 0 <= n <= |ops[1..]| ==> Run(s, ops[..n + 1]) == Run(Apply(s, ops[0]), ops[1..][..n])
  {
    hide Apply;
    assert ops[..0] == [] && ops[..1] == [ops[0]] && [ops[0]][1..] == [];
    forall n | 0 < n <= |ops| ensures Run(s, ops[..n]) == Run(Apply(s, ops[0]), ops[1..][..n - 1]) {
      assert ops[..n][0] == ops[0] && ops[..n][1..] == ops[1..][..n - 1];
    }
    forall n | 0 <= n <= |ops[1..]| ensures Run(s, ops[..n + 1]) == Run(Apply(s, ops[0]), ops[1..][..n]) {
      assert ops[..n + 1][0] == ops[0] && ops[..n + 1][1..] == ops[1..][..n];
    }
  }

  /** Of progress reports only one of all its bytes ends it, and then the item is completed. */
  lemma ProgressAfterCancel(s: State, id: nat, bytes: nat)
    requires Valid(s) && Get(s, id).Some? && Get(s, id).value.status == Cancelled
    ensures var after := Get(Apply(s, SetProgress(id, bytes)), id);
            after.Some? && after.value.status == if 0 < Get(s, id).value.size <= bytes then Completed else Cancelled
  {
    NamedIsUpdated(s, SetProgress(id, bytes), id);
  }

  // ---------- The store of the program ----------

  class TransferStore {
    var items: seq<Item>
    var nextId: nat

    function Now(): State
      reads this
    {
      State(items, nextId)
    }

    constructor ()
      ensures Now() == EMPTY && Valid(Now())
    {
      items, nextId := [], 1;
    }

    method AddItem(direction: Direction, fileName: string, size: nat, peerAlias: string,
          peerIp: string) returns (id: nat)
      modifies this
      ensures id == old(nextId)
      ensures Now() == Apply(old(Now()), Add(direction, fileName, size, peerAlias, peerIp))
    {
      id := nextId;
      nextId := nextId + 1;
      items := items + [Item(id, direction, Pending, fileName, size, 0, peerAlias, peerIp, "")];
    }

    method SetStatus(id: nat, status: Status) returns (found: bool)
      modifies this
      ensures found == Get(old(Now()), id).Some?
      ensures Now() == Apply(old(Now()), Op.SetStatus(id, status))
    {
      var at := Index(items, id);
      if at.None? { return false; }
      var item := items[at.value];
      item := item.(status := status);
      if status == Completed { item := item.(bytes := item.size, error := ""); }
      items := items[at.value := item];
      found := true;
    }

    method SetProgress(id: nat, bytesTransferred: nat) returns (found: bool)
      modifies this
      ensures found == Get(old(Now()), id).Some?
      ensures Now() == Apply(old(Now()), Op.SetProgress(id, bytesTransferred))
    {
      var at := Index(items, id);
      if at.None? { return false; }
      var item := items[at.value];
      item := item.(bytes := if bytesTransferred < item.size then bytesTransferred else item.size);
      if item.status == Pending || item.status == Preparing { item := item.(status := Transferring); }
      if item.size > 0 && item.bytes == item.size { item := item.(status := Completed, error := ""); }
      items := items[at.value := item];
      found := true;
    }

    method Fail(id: nat, error: string) returns (found: bool)
      modifies this
      ensures found == Get(old(Now()), id).Some?
      ensures Now() == Apply(old(Now()), Op.Fail(id, error))
    {
      var at := Index(items, id);
      if at.None? { return false; }
      items := items[at.value := items[at.value].(status := Failed, error := error)];
      found := true;
    }

    method Cancel(id: nat) returns (found: bool)
      modifies this
      ensures found == Get(old(Now()), id).Some?
      ensures Now() == Apply(old(Now()), Op.Cancel(id))
    {
      var at := Index(items, id);
      if at.None? { return false; }
      items := items[at.value := items[at.value].(status := Cancelled)];
      found := true;
    }

    method GetItem(id: nat) returns (item: Option<Item>)
      ensures item == Get(Now(), id)
    {
      var at := Index(items, id);
      item := if at.None? then None else Some(items[at.value]);
    }

    method ClearCompleted()
      modifies this
      ensures Now() == Apply(old(Now()), Op.ClearCompleted)
    {
      items := Unfinished(items);
    }

    method Clear()
      modifies this
      ensures Now() == Apply(old(Now()), Op.Clear)
    {
      items := [];
    }
  }
}
