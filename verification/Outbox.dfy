/** The durable command outbox: guarded single statements over one table, the race between the
    flusher's claim and the user's cancel, and what the flush list may contain. */
module Outbox {
  import opened Wrappers
  import opened StringOrder

  datatype OperationState = Pending | Inflight | Applied | Failed | DispatchUncertain

  // The columns the guarded statements read or write.
  datatype Row = Row(id: string, account: string, entityId: string, payload: string, state: OperationState,
                     attempts: nat, lastError: Option<string>, sendAt: Option<string>, holdUntilMono: Option<int>,
                     settledAtMono: Option<int>, watermark: Option<string>)

  // The table in rowid order: a new row always gets the largest rowid.
  type Table = seq<Row>

  const FLUSH_BATCH_LIMIT: nat := 200

  // One UPDATE of the row with a given id: its SET list and its guard.
  datatype Change =
    | ToInflight
    | ToPayload(payload: string)
    | ToState(state: OperationState, attempts: nat, lastError: Option<string>)
    | ToSettled(atMono: int, watermark: Option<string>)

  predicate Guard(c: Change, r: Row) {
    match c
    case ToInflight => r.state.Pending? || r.state.Inflight?
    case ToPayload(_) => r.state.Pending?
    case _ => true
  }

  function Changed(c: Change, r: Row): Row {
    match c
    case ToInflight => r.(state := Inflight)
    case ToPayload(p) => r.(payload := p, attempts := 0, lastError := None)
    case ToState(state, attempts, error) => r.(state := state, attempts := attempts, lastError := error)
    case ToSettled(at, watermark) => r.(state := Applied, settledAtMono := Some(at), watermark := watermark)
  }

  predicate Matches(t: Table, id: string, c: Change) {
    exists i :: 0 <= i < |t| && t[i].id == id && Guard(c, t[i])
  }

  function Update(t: Table, id: string, c: Change): (r: Table)
    ensures |r| == |t|
  {
    seq(|t|, i requires 0 <= i < |t| => if t[i].id == id && Guard(c, t[i]) then Changed(c, t[i]) else t[i])
  }

  predicate Cancellable(r: Row) {
    !r.state.Inflight? && !r.state.Applied?
  }

  predicate HasCancellable(t: Table, id: string) {
    exists i :: 0 <= i < |t| && t[i].id == id && Cancellable(t[i])
  }

  /** `DELETE ... WHERE id = ?`, and its guarded form. */
  function Delete(t: Table, id: string, guarded: bool): Table {
    if t == [] then []
    else
      var rest := Delete(t[..|t| - 1], id, guarded);
      var r := t[|t| - 1];
      if r.id == id && (guarded ==> Cancellable(r)) then rest else rest + [r]
  }

  function Reconcile(t: Table, account: string, stale: string, live: string): (r: Table)
    ensures |r| == |t|
  {
    seq(|t|, i requires 0 <= i < |t| =>
      if t[i].account == account && t[i].entityId == stale then t[i].(entityId := live) else t[i])
  }

  predicate Has(t: Table, id: string) {
    exists i :: 0 <= i < |t| && t[i].id == id
  }

  function Enqueue(t: Table, r: Row): Table {
    if Has(t, r.id) then t else t + [r]
  }

  predicate Due(r: Row, wallNow: string, monoNow: int) {
    && (r.sendAt.Some? ==> AtMost(r.sendAt.value, wallNow))
    && (r.holdUntilMono.Some? ==> r.holdUntilMono.value <= monoNow)
  }

  predicate Ready(r: Row, account: string, wallNow: string, monoNow: int) {
    r.account == account && (r.state.Pending? || r.state.Inflight?) && Due(r, wallNow, monoNow)
  }

  function AllReady(t: Table, account: string, wallNow: string, monoNow: int): Table {
    if t == [] then []
    else
      var before := AllReady(t[..|t| - 1], account, wallNow, monoNow);
      var r := t[|t| - 1];
      if Ready(r, account, wallNow, monoNow) then before + [r] else before
  }

  function Flushable(t: Table, account: string, wallNow: string, monoNow: int): Table {
    var ready := AllReady(t, account, wallNow, monoNow);
    if |ready| <= FLUSH_BATCH_LIMIT then ready else ready[..FLUSH_BATCH_LIMIT]
  }

  // ---------------------------------------------------------------------------------------
  // The store
  // ---------------------------------------------------------------------------------------

  class Store {
    var table: Table

    constructor ()
      ensures table == []
    {
      table := [];
    }

    method EnqueueOperation(r: Row)
      modifies this
      ensures table == Step(old(table), Enq(r))
      ensures table == if exists i :: 0 <= i < |old(table)| && old(table)[i].id == r.id then old(table) else old(table) + [r]
    {
      if !Has(table, r.id) {
        table := table + [r];
      }
    }

    /** `UPDATE ... WHERE id = ? AND <guard>`: one pass over the rows, counting those affected. */
    method UpdateWhere(id: string, c: Change) returns (affected: nat)
      modifies this
      ensures table == Update(old(table), id, c)
      ensures affected > 0 <==> Matches(old(table), id, c)
    {
      var rows: Table := [];
      affected := 0;
      for i := 0 to |table|
        modifies {}
        invariant |rows| == i
        invariant forall j :: 0 <= j < i ==> rows[j] == Update(table, id, c)[j]
        invariant affected > 0 <==> exists j :: 0 <= j < i && table[j].id == id && Guard(c, table[j])
      {
        if table[i].id == id && Guard(c, table[i]) {
          rows := rows + [Changed(c, table[i])];
          affected := affected + 1;
        } else {
          rows := rows + [table[i]];
        }
      }
      table := rows;
    }

    /** `DELETE ... WHERE id = ?`, guarded or not, likewise. */
    method DeleteWhere(id: string, guarded: bool) returns (affected: nat)
      modifies this
      ensures table == Delete(old(table), id, guarded)
      ensures |table| + affected == |old(table)|
      ensures UniqueIds(old(table)) ==> table == old(table) || IsCut(old(table), table, id)
      ensures affected > 0 <==> exists i :: 0 <= i < |old(table)| && old(table)[i].id == id && (guarded ==> Cancellable(old(table)[i]))
    {
      DeleteCuts(table, id, guarded);
      hide IsCut, UniqueIds;
      var rows: Table := [];
      affected := 0;
      for i := 0 to |table|
        modifies {}
        invariant rows == Delete(table[..i], id, guarded) && |rows| + affected == i
        invariant affected > 0 <==> exists j :: 0 <= j < i && table[j].id == id && (guarded ==> Cancellable(table[j]))
      {
        assert table[..i + 1][..i] == table[..i];
        if table[i].id == id && (guarded ==> Cancellable(table[i])) {
          affected := affected + 1;
        } else {
          rows := rows + [table[i]];
        }
      }
      assert table[..|table|] == table;
      table := rows;
    }

    method ClaimForFlush(id: string) returns (claimed: bool)
      modifies this
      ensures table == Step(old(table), Claim(id)) && claimed == Reports(old(table), Claim(id))
      ensures |table| == |old(table)|
      ensures forall i :: 0 <= i < |table| ==>
        table[i] == if old(table)[i].id == id && old(table)[i].state in {Pending, Inflight}
                    then old(table)[i].(state := Inflight) else old(table)[i]
      ensures claimed <==> exists i :: 0 <= i < |old(table)| && old(table)[i].id == id && old(table)[i].state in {Pending, Inflight}
    {
      var affected := UpdateWhere(id, ToInflight);
      claimed := affected > 0;
    }

    method ReplacePayload(id: string, payload: string) returns (replaced: bool)
      modifies this
      ensures table == Step(old(table), SwapPayload(id, payload)) && replaced == Reports(old(table), SwapPayload(id, payload))
      ensures |table| == |old(table)|
      ensures forall i :: 0 <= i < |table| ==>
        table[i] == if old(table)[i].id == id && old(table)[i].state == Pending
                    then old(table)[i].(payload := payload, attempts := 0, lastError := None) else old(table)[i]
      ensures replaced <==> exists i :: 0 <= i < |old(table)| && old(table)[i].id == id && old(table)[i].state == Pending
    {
      var affected := UpdateWhere(id, ToPayload(payload));
      replaced := affected > 0;
    }

    method UpdateState(id: string, state: OperationState, attempts: nat, lastError: Option<string>)
      modifies this
      ensures table == Step(old(table), SetState(id, state, attempts, lastError))
      ensures |table| == |old(table)|
      ensures forall i :: 0 <= i < |table| ==>
        table[i] == if old(table)[i].id == id
                    then old(table)[i].(state := state, attempts := attempts, lastError := lastError) else old(table)[i]
    {
      var _ := UpdateWhere(id, ToState(state, attempts, lastError));
    }

    method MarkSettled(id: string, atMono: int, watermark: Option<string>)
      modifies this
      ensures table == Step(old(table), Settle(id, atMono, watermark))
      ensures |table| == |old(table)|
      ensures forall i :: 0 <= i < |table| ==>
        table[i] == if old(table)[i].id == id
                    then old(table)[i].(state := Applied, settledAtMono := Some(atMono), watermark := watermark)
                    else old(table)[i]
    {
      var _ := UpdateWhere(id, ToSettled(atMono, watermark));
    }

    method ReconcileEntityId(account: string, stale: string, live: string)
      modifies this
      ensures table == Step(old(table), Rename(account, stale, live))
      ensures |table| == |old(table)|
      ensures forall i :: 0 <= i < |table| ==>
        table[i] == if old(table)[i].account == account && old(table)[i].entityId == stale
                    then old(table)[i].(entityId := live) else old(table)[i]
    {
      var rows: Table := [];
      for i := 0 to |table|
        modifies {}
        invariant |rows| == i
        invariant forall j :: 0 <= j < i ==> rows[j] == Reconcile(table, account, stale, live)[j]
      {
        var r := table[i];
        if r.account == account && r.entityId == stale {
          r := r.(entityId := live);
        }
        rows := rows + [r];
      }
      table := rows;
    }

    method RemoveOperation(id: string)
      modifies this
      ensures table == Step(old(table), Remove(id))
      ensures forall r :: r in table <==> r in old(table) && r.id != id
    {
      DeleteMeaning(table, id, false);
      var _ := DeleteWhere(id, false);
    }

    method RemoveUnlessInflight(id: string) returns (removed: bool)
      modifies this
      ensures table == Step(old(table), Cancel(id)) && removed == Reports(old(table), Cancel(id))
      ensures forall r :: r in table <==> r in old(table) && !(r.id == id && r.state !in {Inflight, Applied})
      ensures removed <==> |table| < |old(table)|
    {
      DeleteMeaning(table, id, true);
      var affected := DeleteWhere(id, true);
      removed := affected > 0;
    }

    /** The scan behind the flush query: rows in order, stopping at the limit. */
    method ListFlushable(account: string, wallNow: string, monoNow: int) returns (rows: Table)
      ensures rows == Flushable(table, account, wallNow, monoNow)
    {
      rows := [];
      var i := 0;
      while i < |table| && |rows| < FLUSH_BATCH_LIMIT
        invariant i <= |table| && |rows| <= FLUSH_BATCH_LIMIT
        invariant rows == AllReady(table[..i], account, wallNow, monoNow)
      {
        assert table[..i + 1][..i] == table[..i];
        if Ready(table[i], account, wallNow, monoNow) {
          rows := rows + [table[i]];
        }
        i := i + 1;
      }
      ReadyPrefix(table, i, account, wallNow, monoNow);
      ghost var all := AllReady(table, account, wallNow, monoNow);
      if i == |table| {
        assert table[..i] == table;
      } else {
        assert all[..|rows|] == rows;
        assert |all| == |rows| ==> all == rows;
      }
    }
  }

  lemma {:induction false} ReadyPrefix(t: Table, i: nat, account: string, wallNow: string, monoNow: int)
    requires i <= |t|
    ensures AllReady(t[..i], account, wallNow, monoNow) <= AllReady(t, account, wallNow, monoNow)
  {
    if i < |t| {
      assert t[..|t| - 1][..i] == t[..i];
      ReadyPrefix(t[..|t| - 1], i, account, wallNow, monoNow);
    } else {
      assert t[..i] == t;
    }
  }

  // ---------------------------------------------------------------------------------------
  // Runs
  // ---------------------------------------------------------------------------------------

  datatype Call =
    | Enq(row: Row)
    | Claim(id: string)
    | Cancel(id: string)
    | SwapPayload(id: string, payload: string)
    | SetState(id: string, state: OperationState, attempts: nat, lastError: Option<string>)
    | Settle(id: string, atMono: int, watermark: Option<string>)
    | Remove(id: string)
    | Rename(account: string, stale: string, live: string)

  function Step(t: Table, c: Call): Table {
    match c
    case Enq(r) => Enqueue(t, r)
    case Claim(id) => Update(t, id, ToInflight)
    case Cancel(id) => Delete(t, id, true)
    case SwapPayload(id, p) => Update(t, id, ToPayload(p))
    case SetState(id, state, attempts, error) => Update(t, id, ToState(state, attempts, error))
    case Settle(id, at, watermark) => Update(t, id, ToSettled(at, watermark))
    case Remove(id) => Delete(t, id, false)
    case Rename(account, stale, live) => Reconcile(t, account, stale, live)
  }

  /** What the guarded calls report. */
  predicate Reports(t: Table, c: Call) {
    match c
    case Claim(id) => Matches(t, id, ToInflight)
    case Cancel(id) => HasCancellable(t, id)
    case SwapPayload(id, p) => Matches(t, id, ToPayload(p))
    case _ => true
  }

  function Run(t: Table, calls: seq<Call>): Table {
    if calls == [] then t else Step(Run(t, calls[..|calls| - 1]), calls[|calls| - 1])
  }

  ghost predicate UniqueIds(t: Table) {
    forall i, j :: 0 <= i < j < |t| ==> t[i].id != t[j].id
  }

  lemma {:induction false} DeleteMeaning(t: Table, id: string, guarded: bool)
    ensures forall r :: r in Delete(t, id, guarded) <==> r in t && !(r.id == id && (guarded ==> Cancellable(r)))
    ensures UniqueIds(t) ==> UniqueIds(Delete(t, id, guarded))
  {
    if t != [] {
      var n := |t| - 1;
      var d := Delete(t[..n], id, guarded);
      assert t == t[..n] + [t[n]];
      DeleteMeaning(t[..n], id, guarded);
      if UniqueIds(t) {
        forall i | 0 <= i < |d| ensures d[i].id != t[n].id {
          assert d[i] in d;
          assert d[i] in t[..n];
        }
      }
    }
  }

  /** The table without its one row of an id: the rows before it and the rows after it, in place. */
  ghost predicate IsCut(t: Table, u: Table, id: string) {
    exists i :: 0 <= i < |t| && t[i].id == id && u == t[..i] + t[i + 1..]
  }

  lemma {:induction false} DeleteAbsent(t: Table, id: string, guarded: bool)
    requires !Has(t, id)
    ensures Delete(t, id, guarded) == t
  {
    if t != [] {
      var n := |t| - 1;
      assert forall i :: 0 <= i < n ==> t[..n][i] == t[i];
      DeleteAbsent(t[..n], id, guarded);
      assert t == t[..n] + [t[n]];
    }
  }

  lemma CutOneLonger(t: Table, u: Table, last: Row, id: string)
    requires IsCut(t, u, id)
    ensures IsCut(t + [last], u + [last], id)
  {
    var i :| 0 <= i < |t| && t[i].id == id && u == t[..i] + t[i + 1..];
    var longer := t + [last];
    assert longer[..i] == t[..i] && longer[i + 1..] == t[i + 1..] + [last];
    assert longer[i].id == id && u + [last] == longer[..i] + longer[i + 1..];
  }

  lemma CutLast(t: Table, last: Row)
    ensures IsCut(t + [last], t, last.id)
  {
    var longer := t + [last];
    assert longer[..|t|] + longer[|t| + 1..] == t && longer[|t|] == last;
  }

  lemma DeletePlus(t: Table, r: Row, id: string, guarded: bool)
    ensures Delete(t + [r], id, guarded) ==
            if r.id == id && (guarded ==> Cancellable(r)) then Delete(t, id, guarded) else Delete(t, id, guarded) + [r]
  {
    assert (t + [r])[..|t|] == t;
  }

  lemma UniquePlus(t: Table, r: Row)
    requires UniqueIds(t + [r])
    ensures UniqueIds(t) && !Has(t, r.id)
  {
    var longer := t + [r];
    assert longer[|t|] == r && forall i :: 0 <= i < |t| ==> longer[i] == t[i];
  }

  lemma {:induction false} DeleteCuts(t: Table, id: string, guarded: bool)
    ensures UniqueIds(t) ==> Delete(t, id, guarded) == t || IsCut(t, Delete(t, id, guarded), id)
  {
    if t != [] && UniqueIds(t) {
      hide Delete, IsCut, UniqueIds, Has;
      var before, last := t[..|t| - 1], t[|t| - 1];
      assert t == before + [last];
      UniquePlus(before, last);
      DeletePlus(before, last, id, guarded);
      DeleteCuts(before, id, guarded);
      if last.id == id {
        DeleteAbsent(before, id, guarded);
        CutLast(before, last);
      } else if Delete(before, id, guarded) != before {
        CutOneLonger(before, Delete(before, id, guarded), last, id);
      }
    }
  }

  lemma StepUnique(t: Table, c: Call)
    requires UniqueIds(t)
    ensures UniqueIds(Step(t, c))
  {
    match c
    case Cancel(id) => DeleteMeaning(t, id, true);
    case Remove(id) => DeleteMeaning(t, id, false);
    case _ =>
  }

  /** The primary key holds over every run. */
  lemma {:induction false} RunUnique(t: Table, calls: seq<Call>)
    requires UniqueIds(t)
    ensures UniqueIds(Run(t, calls))
  {
    if calls != [] {
      RunUnique(t, calls[..|calls| - 1]);
      StepUnique(Run(t, calls[..|calls| - 1]), calls[|calls| - 1]);
    }
  }

  /** Exactly one side wins the race over a row that could go either way, whichever lands first:
      claim first, and the cancel fails with the row in flight; cancel first, and the claim fails
      with the row gone. */
  lemma ExactlyOneWins(t: Table, i: nat)
    requires UniqueIds(t) && i < |t| && t[i].state.Pending?
    ensures var id := t[i].id;
      && Reports(t, Claim(id)) && !Reports(Step(t, Claim(id)), Cancel(id))
      && Reports(t, Cancel(id)) && !Reports(Step(t, Cancel(id)), Claim(id))
      && Step(Step(t, Claim(id)), Cancel(id)) == Step(t, Claim(id))
      && Step(Step(t, Cancel(id)), Claim(id)) == Step(t, Cancel(id)) && !Has(Step(t, Cancel(id)), id)
  {
    var id := t[i].id;
    assert Guard(ToInflight, t[i]) && Cancellable(t[i]);
    var c := Step(t, Claim(id));
    assert !HasCancellable(c, id);
    DeleteNothing(c, id);
    CancelLeavesNone(t, id);
    UpdateNothing(Step(t, Cancel(id)), id, ToInflight);
  }

  lemma UpdateNothing(t: Table, id: string, c: Change)
    requires !Matches(t, id, c)
    ensures Update(t, id, c) == t
  {
  }

  lemma {:induction false} DeleteNothing(t: Table, id: string)
    requires !HasCancellable(t, id)
    ensures Delete(t, id, true) == t
  {
    if t != [] {
      var n := |t| - 1;
      assert forall i :: 0 <= i < n ==> t[..n][i] == t[i];
      DeleteNothing(t[..n], id);
    }
  }

  /** A cancel that reports success leaves no row of that id at all. */
  lemma CancelLeavesNone(t: Table, id: string)
    requires UniqueIds(t) && HasCancellable(t, id)
    ensures !Has(Delete(t, id, true), id)
  {
    DeleteMeaning(t, id, true);
    var d := Delete(t, id, true);
    forall k | 0 <= k < |d| ensures d[k].id != id {
      assert d[k] in d;
    }
  }

  ghost predicate Enqueues(c: Call, id: string) {
    c.Enq? && c.row.id == id
  }

  lemma AbsentStaysAbsent(t: Table, c: Call, id: string)
    requires !Has(t, id) && !Enqueues(c, id)
    ensures !Has(Step(t, c), id)
  {
    var u := Step(t, c);
    match c
    case Cancel(other) => DeleteMeaning(t, other, true);
    case Remove(other) => DeleteMeaning(t, other, false);
    case _ =>
    forall k | 0 <= k < |u| ensures u[k].id != id {
      assert u[k] in u;
    }
  }

  lemma {:induction false} AbsentOverRun(t: Table, calls: seq<Call>, id: string)
    requires !Has(t, id) && forall k :: 0 <= k < |calls| ==> !Enqueues(calls[k], id)
    ensures !Has(Run(t, calls), id)
  {
    if calls != [] {
      AbsentOverRun(t, calls[..|calls| - 1], id);
      AbsentStaysAbsent(Run(t, calls[..|calls| - 1]), calls[|calls| - 1], id);
    }
  }

  /** Once a guarded cancel has returned true, no later claim of that operation succeeds, over any
      interleaving of calls, until it is enqueued again. */
  lemma CancelledIsNeverClaimed(t: Table, id: string, calls: seq<Call>)
    requires UniqueIds(t) && Reports(t, Cancel(id))
    requires forall k :: 0 <= k < |calls| ==> !Enqueues(calls[k], id)
    ensures !Reports(Run(Step(t, Cancel(id)), calls), Claim(id))
  {
    CancelLeavesNone(t, id);
    AbsentOverRun(Step(t, Cancel(id)), calls, id);
  }

  // The calls that may change the state of a claimed operation.
  ghost predicate Transitions(c: Call, id: string) {
    match c
    case SetState(other, _, _, _) => other == id
    case Settle(other, _, _) => other == id
    case Remove(other) => other == id
    case _ => false
  }

  ghost predicate InflightWith(t: Table, id: string, payload: string) {
    && UniqueIds(t)
    && exists r :: r in t && r.id == id && r.state.Inflight? && r.payload == payload
  }

  lemma InflightHolds(t: Table, c: Call, id: string, payload: string)
    requires InflightWith(t, id, payload) && !Transitions(c, id)
    ensures InflightWith(Step(t, c), id, payload)
  {
    StepUnique(t, c);
    var r :| r in t && r.id == id && r.state.Inflight? && r.payload == payload;
    var i :| 0 <= i < |t| && t[i] == r;
    var u := Step(t, c);
    match c
    case Cancel(other) =>
      DeleteMeaning(t, other, true);
      assert r in u;
    case Remove(other) =>
      DeleteMeaning(t, other, false);
      assert r in u;
    case _ =>
      assert u[i].id == id && u[i].state.Inflight? && u[i].payload == payload && u[i] in u;
  }

  lemma InflightRefuses(t: Table, id: string, payload: string, swapped: string)
    requires InflightWith(t, id, payload)
    ensures !Reports(t, Cancel(id)) && !Reports(t, SwapPayload(id, swapped))
    ensures Reports(t, Claim(id))
  {
    var r :| r in t && r.id == id && r.state.Inflight? && r.payload == payload;
    var i :| 0 <= i < |t| && t[i] == r;
    assert Guard(ToInflight, t[i]);
  }

  /** From a successful claim until the operation's next state change, its payload is what it was
      when claimed, every cancel of it returns false, and no payload swap lands on it. */
  lemma {:induction false} ClaimPinsPayload(t: Table, id: string, payload: string, calls: seq<Call>, swapped: string)
    requires InflightWith(t, id, payload)
    requires forall k :: 0 <= k < |calls| ==> !Transitions(calls[k], id)
    ensures InflightWith(Run(t, calls), id, payload)
    ensures !Reports(Run(t, calls), Cancel(id)) && !Reports(Run(t, calls), SwapPayload(id, swapped))
  {
    if calls != [] {
      ClaimPinsPayload(t, id, payload, calls[..|calls| - 1], swapped);
      InflightHolds(Run(t, calls[..|calls| - 1]), calls[|calls| - 1], id, payload);
    }
    InflightRefuses(Run(t, calls), id, payload, swapped);
  }

  /** A successful claim starts that window, with the payload the row already had. */
  lemma ClaimOpensWindow(t: Table, i: nat)
    requires UniqueIds(t) && i < |t| && Reports(t, Claim(t[i].id))
    ensures InflightWith(Step(t, Claim(t[i].id)), t[i].id, t[i].payload)
  {
    var u := Step(t, Claim(t[i].id));
    StepUnique(t, Claim(t[i].id));
    assert u[i] in u;
  }

  // ---------------------------------------------------------------------------------------
  // The flush list
  // ---------------------------------------------------------------------------------------

  lemma {:induction false} ReadyMeaning(t: Table, account: string, wallNow: string, monoNow: int)
    ensures forall r :: r in AllReady(t, account, wallNow, monoNow) <==> r in t && Ready(r, account, wallNow, monoNow)
  {
    if t != [] {
      var n := |t| - 1;
      assert t == t[..n] + [t[n]];
      ReadyMeaning(t[..n], account, wallNow, monoNow);
    }
  }

  function CountReady(t: Table, account: string, wallNow: string, monoNow: int): nat {
    |AllReady(t, account, wallNow, monoNow)|
  }

  /** What makes a row flushable, column by column: its account, a flushable state, and a hold that is due
      on the clock that stamped it, a wall hold and an undo hold each. */
  lemma ReadyIff(r: Row, account: string, wallNow: string, monoNow: int)
    ensures Ready(r, account, wallNow, monoNow) <==>
      && r.account == account && r.state in {Pending, Inflight}
      && (r.sendAt == None || r.sendAt.value == wallNow || Less(r.sendAt.value, wallNow))
      && (r.holdUntilMono == None || r.holdUntilMono.value <= monoNow)
  {
    if r.sendAt.Some? {
      LessTotal(r.sendAt.value, wallNow);
      LessIrreflexive(wallNow);
      if Less(r.sendAt.value, wallNow) {
        LessAsymmetric(r.sendAt.value, wallNow);
      }
    }
  }

  /** The k-th entry of the flush list is the ready row with exactly k ready rows enqueued before
      it; every ready row with fewer than 200 ready rows before it is on the list; nothing else is. */
  lemma {:induction false} FlushListIsFirstReady(t: Table, i: nat, account: string, wallNow: string, monoNow: int)
    requires i < |t| && UniqueIds(t)
    ensures var k := CountReady(t[..i], account, wallNow, monoNow);
      var list := Flushable(t, account, wallNow, monoNow);
      if && t[i].account == account && t[i].state in {Pending, Inflight}
         && (t[i].sendAt == None || t[i].sendAt.value == wallNow || Less(t[i].sendAt.value, wallNow))
         && (t[i].holdUntilMono == None || t[i].holdUntilMono.value <= monoNow)
         && k < 200
      then k < |list| && list[k] == t[i]
      else t[i] !in list
  {
    var k := CountReady(t[..i], account, wallNow, monoNow);
    var all := AllReady(t, account, wallNow, monoNow);
    ReadyIff(t[i], account, wallNow, monoNow);
    hide Ready;
    ReadyMeaning(t, account, wallNow, monoNow);
    if Ready(t[i], account, wallNow, monoNow) {
      assert t[..i + 1][..i] == t[..i];
      ReadyPrefix(t, i + 1, account, wallNow, monoNow);
      assert all[k] == t[i];
      ReadyUnique(t, account, wallNow, monoNow);
      var list := Flushable(t, account, wallNow, monoNow);
      if k >= FLUSH_BATCH_LIMIT {
        forall j | 0 <= j < |list| ensures list[j] != t[i] {
          assert all[j].id != all[k].id;
        }
      }
    }
  }

  lemma {:induction false} ReadyUnique(t: Table, account: string, wallNow: string, monoNow: int)
    requires UniqueIds(t)
    ensures UniqueIds(AllReady(t, account, wallNow, monoNow))
  {
    if t != [] {
      var n := |t| - 1;
      var before := AllReady(t[..n], account, wallNow, monoNow);
      ReadyUnique(t[..n], account, wallNow, monoNow);
      ReadyMeaning(t[..n], account, wallNow, monoNow);
      forall j | 0 <= j < |before| ensures before[j].id != t[n].id {
        assert before[j] in before;
      }
    }
  }

  /** Failed, applied and parked operations, and holds not yet due on their own clock, never appear. */
  lemma NeverFlushed(t: Table, r: Row, account: string, wallNow: string, monoNow: int)
    requires r in Flushable(t, account, wallNow, monoNow)
    ensures r in t && r.account == account
    ensures !r.state.Failed? && !r.state.Applied? && !r.state.DispatchUncertain?
    ensures r.sendAt.Some? ==> !Less(wallNow, r.sendAt.value)
    ensures r.holdUntilMono.Some? ==> r.holdUntilMono.value <= monoNow
  {
    ReadyMeaning(t, account, wallNow, monoNow);
  }
}
