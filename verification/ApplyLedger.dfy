/** The durable apply ledger: a keyed operation is reserved before it runs and settled after, and a
    redelivery of it must find that record.  Settled records are collected after 30 days. */
module ApplyLedger {
  import opened Wrappers

  const I64_MIN: int := -0x8000_0000_0000_0000
  const I64_MAX: int := 0x7FFF_FFFF_FFFF_FFFF

  type Seconds = x: int | I64_MIN <= x <= I64_MAX

  const RETENTION: Seconds := 30 * 24 * 60 * 60

  datatype DecisionState = Pending | Confirmed | Rejected

  datatype Key = Key(scope: string, id: string)

  datatype Row = Row(opName: string, state: DecisionState, outcome: Option<string>,
                     createdAt: Seconds, settledAt: Option<Seconds>)

  type Table = map<Key, Row>

  datatype Verdict = Reserved | Existing(opName: string, state: DecisionState, outcome: Option<string>)

  // `now_secs.saturating_sub(RETENTION)`
  function Horizon(now: Seconds): Seconds {
    if now < I64_MIN + RETENTION then I64_MIN else now - RETENTION
  }

  predicate Expired(r: Row, now: Seconds) {
    r.settledAt.Some? && r.settledAt.value < Horizon(now)
  }

  function Collected(t: Table, now: Seconds): Table {
    map k | k in t && !Expired(t[k], now) :: t[k]
  }

  function Marker(opName: string, now: Seconds): Row {
    Row(opName, Pending, None, now, None)
  }

  function Decided(r: Row, state: DecisionState, outcome: string, now: Seconds): Row {
    r.(state := state, outcome := Some(outcome), settledAt := Some(now))
  }

  datatype Call =
    | Reserve(at: Key, opName: string, now: Seconds)
    | Settle(at: Key, state: DecisionState, outcome: string, now: Seconds)
    | Clear(at: Key)

  function Step(t: Table, c: Call): Table {
    match c
    case Reserve(k, op, now) =>
      var kept := Collected(t, now);
      if k in kept then kept else kept[k := Marker(op, now)]
    case Settle(k, state, outcome, now) => if k in t then t[k := Decided(t[k], state, outcome, now)] else t
    case Clear(k) => t - {k}
  }

  function Answer(t: Table, k: Key, now: Seconds): Verdict {
    var kept := Collected(t, now);
    if k in kept then Existing(kept[k].opName, kept[k].state, kept[k].outcome) else Reserved
  }

  /** Settled more than the retention before `now`, in unbounded arithmetic. */
  predicate Outlived(r: Row, now: Seconds) {
    r.settledAt.Some? && r.settledAt.value as int < now as int - RETENTION
  }

  class Ledger {
    var table: Table

    constructor ()
      ensures table == map[]
    {
      table := map[];
    }

    method ReserveKey(k: Key, opName: string, now: Seconds) returns (verdict: Verdict)
      modifies this
      ensures verdict == Answer(old(table), k, now)
      ensures table == Step(old(table), Reserve(k, opName, now))
      ensures verdict.Reserved? <==> k !in old(table) || Outlived(old(table)[k], now)
      ensures verdict.Existing? ==>
        var r := old(table)[k]; verdict == Existing(r.opName, r.state, r.outcome) && k in table && table[k] == r
      ensures verdict.Reserved? ==> k in table && table[k] == Row(opName, Pending, None, now, None)
      ensures forall other :: other != k ==>
        && (other in table <==> other in old(table) && !Outlived(old(table)[other], now))
        && (other in table ==> table[other] == old(table)[other])
    {
      table := map key | key in table && !Expired(table[key], now) :: table[key];
      if k in table {
        return Existing(table[k].opName, table[k].state, table[k].outcome);
      }
      table := table[k := Row(opName, Pending, None, now, None)];
      return Reserved;
    }

    method SettleKey(k: Key, state: DecisionState, outcome: string, now: Seconds)
      modifies this
      ensures table == Step(old(table), Settle(k, state, outcome, now))
      ensures table.Keys == old(table).Keys
      ensures forall other :: other in table && other != k ==> table[other] == old(table)[other]
      ensures k in table ==>
        && table[k].state == state && table[k].outcome == Some(outcome) && table[k].settledAt == Some(now)
        && table[k].opName == old(table)[k].opName && table[k].createdAt == old(table)[k].createdAt
    {
      if k in table {
        table := table[k := table[k].(state := state, outcome := Some(outcome), settledAt := Some(now))];
      }
    }

    method ClearKey(k: Key)
      modifies this
      ensures table == Step(old(table), Clear(k))
      ensures k !in table && forall other :: other != k ==>
        (other in table <==> other in old(table)) && (other in table ==> table[other] == old(table)[other])
    {
      table := table - {k};
    }
  }

  // ---------------------------------------------------------------------------------------
  // One key over a whole run
  // ---------------------------------------------------------------------------------------

  function Run(t: Table, calls: seq<Call>): Table {
    if calls == [] then t else Step(Run(t, calls[..|calls| - 1]), calls[|calls| - 1])
  }

  function Lookup(t: Table, k: Key): Option<Row> {
    if k in t then Some(t[k]) else None
  }

  /** Call j reserves k for the first time: its caller will execute the operation. */
  predicate Executes(t: Table, calls: seq<Call>, j: nat, k: Key) {
    && j < |calls| && calls[j].Reserve? && calls[j].at == k
    && Answer(Run(t, calls[..j]), k, calls[j].now) == Reserved
  }

  /** The record of k just before call j, written from its own calls since it was reserved at i. */
  function Record(calls: seq<Call>, i: nat, j: nat, k: Key): Row
    requires i < j <= |calls| && calls[i].Reserve?
  {
    if j == i + 1 then Marker(calls[i].opName, calls[i].now)
    else
      var before := Record(calls, i, j - 1, k);
      var c := calls[j - 1];
      if c.Settle? && c.at == k then Decided(before, c.state, c.outcome, c.now) else before
  }

  /** Call m is the last settle of k after call i and before call l. */
  ghost predicate LastSettle(calls: seq<Call>, i: nat, l: nat, k: Key, m: nat) {
    && i < m < l <= |calls| && calls[m].Settle? && calls[m].at == k
    && forall n :: m < n < l ==> !(calls[n].Settle? && calls[n].at == k)
  }

  ghost predicate NeverSettled(calls: seq<Call>, i: nat, l: nat, k: Key) {
    forall n :: i < n < l <= |calls| ==> !(calls[n].Settle? && calls[n].at == k)
  }

  /** Call l ends k's record: a clear of k, or any reservation more than the retention after the last
      settle of k. */
  ghost predicate Releases(calls: seq<Call>, i: nat, l: nat, k: Key)
    requires i < l < |calls|
  {
    match calls[l]
    case Clear(at) => at == k
    case Reserve(_, _, now) => exists m: nat :: LastSettle(calls, i, l, k, m) && calls[m].now < now - RETENTION
    case Settle(_, _, _, _) => false
  }

  lemma LastSettlePlus(calls: seq<Call>, i: nat, before: nat, l: nat, k: Key)
    requires i < before && l == before + 1 && l <= |calls|
    ensures var c := calls[before];
      if c.Settle? && c.at == k then
        && LastSettle(calls, i, l, k, before) && !NeverSettled(calls, i, l, k)
        && forall m: nat :: LastSettle(calls, i, l, k, m) ==> m == before
      else
        && (NeverSettled(calls, i, l, k) <==> NeverSettled(calls, i, before, k))
        && forall m: nat :: LastSettle(calls, i, l, k, m) <==> LastSettle(calls, i, before, k, m)
  {
  }

  /** The record, read off the calls: the reservation's name and time, and the last settle's decision. */
  lemma {:induction false} RecordIs(calls: seq<Call>, i: nat, l: nat, k: Key)
    requires i < l <= |calls| && calls[i].Reserve?
    ensures var r := Record(calls, i, l, k);
      && r.opName == calls[i].opName && r.createdAt == calls[i].now
      && (NeverSettled(calls, i, l, k) ==> r.state == Pending && r.outcome == None && r.settledAt == None)
      && (forall m: nat :: LastSettle(calls, i, l, k, m) ==>
            r.state == calls[m].state && r.outcome == Some(calls[m].outcome) && r.settledAt == Some(calls[m].now))
    ensures NeverSettled(calls, i, l, k) || exists m: nat :: LastSettle(calls, i, l, k, m)
  {
    if l == i + 1 {
      assert NeverSettled(calls, i, l, k) && forall m: nat :: !LastSettle(calls, i, l, k, m);
      hide NeverSettled, LastSettle;
    } else {
      var before := l - 1;
      RecordIs(calls, i, before, k);
      LastSettlePlus(calls, i, before, l, k);
      hide NeverSettled, LastSettle;
    }
  }

  lemma ReleasesIff(calls: seq<Call>, i: nat, l: nat, k: Key)
    requires i < l < |calls| && calls[i].Reserve?
    ensures Releases(calls, i, l, k) <==>
            match calls[l]
            case Clear(at) => at == k
            case Reserve(_, _, now) => Expired(Record(calls, i, l, k), now)
            case Settle(_, _, _, _) => false
  {
    hide Record, LastSettle, NeverSettled;
    RecordIs(calls, i, l, k);
  }

  lemma RunStep(t: Table, calls: seq<Call>, j: nat)
    requires j < |calls|
    ensures Run(t, calls[..j + 1]) == Step(Run(t, calls[..j]), calls[j])
  {
    assert calls[..j + 1][..j] == calls[..j];
  }

  /** What one call makes of the row it finds under k. */
  lemma RowStep(t: Table, c: Call, k: Key)
    requires k in t
    ensures Lookup(Step(t, c), k) ==
            match c
            case Reserve(at, op, now) =>
              if !Expired(t[k], now) then Some(t[k]) else if at == k then Some(Marker(op, now)) else None
            case Settle(at, state, outcome, now) =>
              Some(if at == k then Decided(t[k], state, outcome, now) else t[k])
            case Clear(at) => if at == k then None else Some(t[k])
  {
  }

  lemma FirstRow(t: Table, k: Key, opName: string, now: Seconds)
    requires Answer(t, k, now) == Reserved
    ensures Lookup(Step(t, Reserve(k, opName, now)), k) == Some(Marker(opName, now))
  {
  }

  /** Until it is released, the key's row is exactly the record of its own calls. */
  lemma {:induction false} HeldUntilReleased(t: Table, calls: seq<Call>, i: nat, j: nat, k: Key)
    requires Executes(t, calls, i, k) && i < j <= |calls|
    requires forall l :: i < l < j ==> !Releases(calls, i, l, k)
    ensures Lookup(Run(t, calls[..j]), k) == Some(Record(calls, i, j, k))
  {
    hide Step, Run;
    RunStep(t, calls, j - 1);
    if j == i + 1 {
      FirstRow(Run(t, calls[..i]), k, calls[i].opName, calls[i].now);
    } else {
      HeldUntilReleased(t, calls, i, j - 1, k);
      RowStep(Run(t, calls[..j - 1]), calls[j - 1], k);
      assert !Releases(calls, i, j - 1, k);
      ReleasesIff(calls, i, j - 1, k);
    }
  }

  /** A redelivery inside the window never executes.  It is answered with the name it was reserved under
      and the state and outcome of the last settle since, or the unresolved marker when there was none. */
  lemma RedeliveryFindsTheRecord(t: Table, calls: seq<Call>, i: nat, j: nat, k: Key)
    requires Executes(t, calls, i, k) && i < j < |calls|
    requires calls[j].Reserve? && calls[j].at == k
    requires forall l :: i < l <= j ==> !Releases(calls, i, l, k)
    ensures NeverSettled(calls, i, j, k) ==>
      Answer(Run(t, calls[..j]), k, calls[j].now) == Existing(calls[i].opName, Pending, None)
    ensures forall m: nat :: LastSettle(calls, i, j, k, m) ==>
      Answer(Run(t, calls[..j]), k, calls[j].now) == Existing(calls[i].opName, calls[m].state, Some(calls[m].outcome))
    ensures NeverSettled(calls, i, j, k) || exists m: nat :: LastSettle(calls, i, j, k, m)
    ensures !Executes(t, calls, j, k)
  {
    hide Record, LastSettle, NeverSettled, Run;
    HeldUntilReleased(t, calls, i, j, k);
    assert !Releases(calls, i, j, k);
    ReleasesIff(calls, i, j, k);
    RecordIs(calls, i, j, k);
  }

  lemma {:induction false} AbsentUntilExecuted(t: Table, calls: seq<Call>, l: nat, j: nat, k: Key)
    requires l <= j <= |calls| && k !in Run(t, calls[..l])
    requires forall m :: l <= m < j ==> !Executes(t, calls, m, k)
    ensures k !in Run(t, calls[..j])
  {
    if l < j {
      AbsentUntilExecuted(t, calls, l, j - 1, k);
      RunStep(t, calls, j - 1);
      assert !Executes(t, calls, j - 1, k);
    }
  }

  /** The next reservation of a key executes if and only if its record was released in between. */
  lemma ExecutesAgainIff(t: Table, calls: seq<Call>, i: nat, j: nat, k: Key)
    requires Executes(t, calls, i, k) && i < j < |calls|
    requires calls[j].Reserve? && calls[j].at == k
    requires forall m :: i < m < j ==> !Executes(t, calls, m, k)
    ensures Executes(t, calls, j, k) <==> exists l :: i < l <= j && Releases(calls, i, l, k)
  {
    if forall l :: i < l <= j ==> !Releases(calls, i, l, k) {
      RedeliveryFindsTheRecord(t, calls, i, j, k);
    } else {
      var m :| i < m <= j && Releases(calls, i, m, k);
      var l := FirstRelease(calls, i, m, k);
      ReleasedExecutes(t, calls, i, l, j, k);
    }
  }

  lemma ReleasedExecutes(t: Table, calls: seq<Call>, i: nat, l: nat, j: nat, k: Key)
    requires Executes(t, calls, i, k) && i < l <= j < |calls| && Releases(calls, i, l, k)
    requires forall m :: i < m < l ==> !Releases(calls, i, m, k)
    requires calls[j].Reserve? && calls[j].at == k
    requires forall m :: i < m < j ==> !Executes(t, calls, m, k)
    ensures Executes(t, calls, j, k)
  {
    HeldUntilReleased(t, calls, i, l, k);
    ReleasesIff(calls, i, l, k);
    hide Releases, Record;
    if l < j {
      RunStep(t, calls, l);
      assert !Executes(t, calls, l, k);
      AbsentUntilExecuted(t, calls, l + 1, j, k);
    }
  }

  lemma {:induction false} FirstRelease(calls: seq<Call>, i: nat, j: nat, k: Key) returns (l: nat)
    requires i < j < |calls| && Releases(calls, i, j, k)
    ensures i < l <= j && Releases(calls, i, l, k)
    ensures forall m :: i < m < l ==> !Releases(calls, i, m, k)
    decreases j
  {
    hide Releases;
    if m :| i < m < j && Releases(calls, i, m, k) {
      l := FirstRelease(calls, i, m, k);
    } else {
      l := j;
    }
  }

  ghost predicate ClearedBetween(calls: seq<Call>, i: nat, j: nat, k: Key) {
    exists m :: i < m < j < |calls| && calls[m] == Clear(k)
  }

  ghost predicate OutlivedBetween(calls: seq<Call>, i: nat, j: nat, k: Key) {
    exists m, l ::
      && i < m < l <= j < |calls| && calls[m].Settle? && calls[m].at == k
      && calls[l].Reserve? && calls[m].now < calls[l].now - RETENTION
  }

  /** Applied at most once: two executions of one key are separated by a clear of it, or by a settle
      of it more than 30 days before a later reservation.  No assumption is made on the clocks. */
  lemma {:induction false} AppliedAtMostOnce(t: Table, calls: seq<Call>, i: nat, j: nat, k: Key)
    requires Executes(t, calls, i, k) && Executes(t, calls, j, k) && i < j
    ensures ClearedBetween(calls, i, j, k) || OutlivedBetween(calls, i, j, k)
  {
    if forall l :: i < l <= j ==> !Releases(calls, i, l, k) {
      RedeliveryFindsTheRecord(t, calls, i, j, k);
    } else {
      var l :| i < l <= j && Releases(calls, i, l, k);
      if calls[l].Reserve? {
        var m: nat :| LastSettle(calls, i, l, k, m) && calls[m].now < calls[l].now - RETENTION;
      }
    }
  }

  // ---------------------------------------------------------------------------------------
  // Other keys and scopes
  // ---------------------------------------------------------------------------------------

  /** Two calls that k cannot tell apart: the same call, or two calls on other keys that are either
      both reservations at one time or both not reservations. */
  predicate SameFor(c: Call, d: Call, k: Key) {
    || c == d
    || (c.at != k && d.at != k && c.Reserve? == d.Reserve? && (c.Reserve? ==> c.now == d.now))
  }

  /** No scope interferes with another: whatever other keys, of this scope or any other, reserve,
      settle or clear, a key's row is the same; only the times of reservations matter to it. */
  lemma {:induction false} OthersNeverInterfere(t: Table, u: Table, calls: seq<Call>, others: seq<Call>, k: Key)
    requires Lookup(t, k) == Lookup(u, k) && |calls| == |others|
    requires forall i :: 0 <= i < |calls| ==> SameFor(calls[i], others[i], k)
    ensures Lookup(Run(t, calls), k) == Lookup(Run(u, others), k)
    decreases |calls|
  {
    if calls != [] {
      var n := |calls| - 1;
      assert forall i :: 0 <= i < n ==> SameFor(calls[..n][i], others[..n][i], k);
      OthersNeverInterfere(t, u, calls[..n], others[..n], k);
      SameStep(Run(t, calls[..n]), Run(u, others[..n]), calls[n], others[n], k);
    }
  }

  lemma SameStep(t: Table, u: Table, c: Call, d: Call, k: Key)
    requires Lookup(t, k) == Lookup(u, k) && SameFor(c, d, k)
    ensures Lookup(Step(t, c), k) == Lookup(Step(u, d), k)
  {
    match c
    case Reserve(_, _, now) => assert k in Collected(t, now) <==> k in Collected(u, now);
    case _ =>
  }

  // ---------------------------------------------------------------------------------------
  // The crash marker
  // ---------------------------------------------------------------------------------------

  /** Pending rows are exactly the rows with no settle time. */
  ghost predicate Sound(t: Table) {
    forall k :: k in t ==> (t[k].state.Pending? <==> t[k].settledAt.None?)
  }

  predicate Terminal(c: Call) {
    c.Settle? ==> !c.state.Pending?
  }

  lemma {:induction false} RunSound(t: Table, calls: seq<Call>)
    requires Sound(t) && forall i :: 0 <= i < |calls| ==> Terminal(calls[i])
    ensures Sound(Run(t, calls))
  {
    if calls != [] {
      var n := |calls| - 1;
      RunSound(t, calls[..n]);
      assert Terminal(calls[n]);
    }
  }

  /** An unresolved marker blocks its key until that key itself is settled or cleared. */
  lemma {:induction false} MarkerBlocks(t: Table, calls: seq<Call>, k: Key)
    requires k in t && t[k].settledAt.None?
    requires forall i :: 0 <= i < |calls| ==> calls[i].at == k ==> calls[i].Reserve?
    ensures Lookup(Run(t, calls), k) == Some(t[k])
    ensures forall now: Seconds :: Answer(Run(t, calls), k, now) == Existing(t[k].opName, t[k].state, t[k].outcome)
  {
    if calls != [] {
      var n := |calls| - 1;
      MarkerBlocks(t, calls[..n], k);
      assert calls[n].at == k ==> calls[n].Reserve?;
    }
  }

  /** No reservation, at any time, collects a pending row. */
  ghost predicate MarkersSafe(t: Table) {
    forall k, r: Call :: k in t && t[k].state.Pending? && r.Reserve? ==> k in Step(t, r)
  }

  /** `settle` also accepts Pending, and then the marker it writes carries a settle time and can be
      collected.  Markers stay safe through a settle exactly when it is not given Pending, hits no
      row, or carries a time so close to the end of the clock that no horizon can pass it. */
  lemma SettleKeepsMarkersIff(t: Table, k: Key, state: DecisionState, outcome: string, now: Seconds)
    requires Sound(t)
    ensures MarkersSafe(Step(t, Settle(k, state, outcome, now)))
       <==> k !in t || state != Pending || now >= I64_MAX - RETENTION
  {
    var u := Step(t, Settle(k, state, outcome, now));
    if k in t && state == Pending && now < I64_MAX - RETENTION {
      var late := Reserve(Key(k.scope, k.id + "'"), "", I64_MAX);
      assert late.at.id != k.id;
      assert k in u && u[k].state.Pending? && k !in Step(u, late);
    }
  }

  /** A concrete run that loses a pending marker and executes its operation twice. */
  lemma PendingSettleForgetsTheMarker()
    ensures var k := Key("api", "send-1");
      var calls := [Reserve(k, "send", 0), Settle(k, Pending, "", 0), Reserve(k, "send", RETENTION + 1)];
      && Executes(map[], calls, 0, k) && Executes(map[], calls, 2, k)
      && Lookup(Run(map[], calls[..2]), k) == Some(Row("send", Pending, Some(""), 0, Some(0)))
  {
    var k := Key("api", "send-1");
    var calls := [Reserve(k, "send", 0), Settle(k, Pending, "", 0), Reserve(k, "send", RETENTION + 1)];
    assert calls[..0] == [];
    RunStep(map[], calls, 0);
    RunStep(map[], calls, 1);
  }
}
