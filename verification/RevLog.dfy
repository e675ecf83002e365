/** The reversible-operation log and its cursor: append-only sequence numbers per account, idempotent
    redelivery, and count-based eviction of the oldest steps. */
module RevLog {
  import opened Wrappers

  datatype Row = Row(account: string, stepId: string, seqNo: int, diff: string)

  datatype Cursor = Cursor(step: Option<string>, redoTail: seq<string>)

  // The rev_log rows of every account in rowid order, and the rev_cursor rows.
  datatype Store = Store(rows: seq<Row>, cursors: map<string, Cursor>)

  const TWO32: int := 0x1_0000_0000

  // `seq.max(0) as u32`
  function Reported(seqNo: int): nat {
    if seqNo < 0 then 0 else seqNo % TWO32
  }

  /** `SELECT ... WHERE account_id = ?1` */
  function LogOf(rows: seq<Row>, account: string): seq<Row> {
    if rows == [] then []
    else
      var before := LogOf(rows[..|rows| - 1], account);
      if rows[|rows| - 1].account == account then before + [rows[|rows| - 1]] else before
  }

  /** `SELECT MAX(seq)` */
  function MaxSeq(rows: seq<Row>, account: string): Option<int> {
    if rows == [] then None
    else
      var before := MaxSeq(rows[..|rows| - 1], account);
      var r := rows[|rows| - 1];
      if r.account == account && (before.None? || r.seqNo > before.value) then Some(r.seqNo) else before
  }

  function NextSeq(rows: seq<Row>, account: string): int {
    var top := MaxSeq(rows, account);
    (if top.Some? then top.value else 0) + 1
  }

  predicate Has(rows: seq<Row>, account: string, stepId: string) {
    exists i :: 0 <= i < |rows| && rows[i].account == account && rows[i].stepId == stepId
  }

  function Existing(rows: seq<Row>, account: string, stepId: string): (r: Row)
    requires Has(rows, account, stepId)
    ensures r in rows && r.account == account && r.stepId == stepId
  {
    var r := rows[|rows| - 1];
    if r.account == account && r.stepId == stepId then r
    else
      assert rows == rows[..|rows| - 1] + [r];
      Existing(rows[..|rows| - 1], account, stepId)
  }

  function CountBelow(rows: seq<Row>, account: string, seqNo: int): nat {
    if rows == [] then 0
    else
      var before := CountBelow(rows[..|rows| - 1], account, seqNo);
      var r := rows[|rows| - 1];
      if r.account == account && r.seqNo < seqNo then before + 1 else before
  }

  // A seq is among the `excess` smallest of its account when fewer than that many rows lie below it.
  predicate Oldest(all: seq<Row>, r: Row, account: string, excess: nat) {
    r.account == account && CountBelow(all, account, r.seqNo) < excess
  }

  function Kept(all: seq<Row>, rows: seq<Row>, account: string, excess: nat): seq<Row> {
    if rows == [] then []
    else
      var before := Kept(all, rows[..|rows| - 1], account, excess);
      var r := rows[|rows| - 1];
      if Oldest(all, r, account, excess) then before else before + [r]
  }

  datatype Call =
    | Append(account: string, stepId: string, diff: string)
    | SetCursor(account: string, cursor: Cursor)
    | Evict(account: string, maxSteps: nat)

  function Step(s: Store, c: Call): Store {
    match c
    case Append(a, id, diff) =>
      if Has(s.rows, a, id) then s
      else Store(s.rows + [Row(a, id, NextSeq(s.rows, a), diff)], s.cursors[a := Cursor(Some(id), [])])
    case SetCursor(a, cursor) => s.(cursors := s.cursors[a := cursor])
    case Evict(a, max) =>
      var count := |LogOf(s.rows, a)|;
      if count <= max then s else s.(rows := Kept(s.rows, s.rows, a, count - max))
  }

  class Database {
    var rows: seq<Row>
    var cursors: map<string, Cursor>

    ghost function State(): Store
      reads this
    {
      Store(rows, cursors)
    }

    constructor ()
      ensures rows == [] && cursors == map[]
    {
      rows, cursors := [], map[];
    }

    method AppendStep(account: string, stepId: string, diff: string) returns (reported: nat)
      modifies this
      ensures State() == Step(old(State()), Append(account, stepId, diff))
      ensures Has(rows, account, stepId) && reported == Reported(Existing(rows, account, stepId).seqNo)
      ensures Has(old(rows), account, stepId) ==> rows == old(rows) && cursors == old(cursors)
      ensures !Has(old(rows), account, stepId) ==>
        && |rows| == |old(rows)| + 1 && rows[..|old(rows)|] == old(rows)
        && var r := rows[|old(rows)|];
        && r.account == account && r.stepId == stepId && r.diff == diff && reported == Reported(r.seqNo)
        && ((forall i :: 0 <= i < |old(rows)| ==> old(rows)[i].account != account) ==> r.seqNo == 1)
        && (forall i :: 0 <= i < |old(rows)| && old(rows)[i].account == account ==> old(rows)[i].seqNo < r.seqNo)
        && ((exists i :: 0 <= i < |old(rows)| && old(rows)[i].account == account) ==>
              exists i :: 0 <= i < |old(rows)| && old(rows)[i].account == account && old(rows)[i].seqNo + 1 == r.seqNo)
        && cursors == old(cursors)[account := Cursor(Some(stepId), [])]
    {
      if Has(rows, account, stepId) {
        return Reported(Existing(rows, account, stepId).seqNo);
      }
      MaxSeqMeaning(rows, account);
      NewStepIsFound(rows, Row(account, stepId, NextSeq(rows, account), diff));
      hide Existing, MaxSeq;
      var seqNo := NextSeq(rows, account);
      rows := rows + [Row(account, stepId, seqNo, diff)];
      cursors := cursors[account := Cursor(Some(stepId), [])];
      return Reported(seqNo);
    }

    method MoveCursor(account: string, step: Option<string>, redoTail: seq<string>)
      modifies this
      ensures State() == Step(old(State()), SetCursor(account, Cursor(step, redoTail)))
      ensures rows == old(rows) && cursors.Keys == old(cursors).Keys + {account}
      ensures cursors[account].step == step && cursors[account].redoTail == redoTail
      ensures forall other :: other in old(cursors) && other != account ==> cursors[other] == old(cursors)[other]
    {
      cursors := cursors[account := Cursor(step, redoTail)];
    }

    method EvictOldest(account: string, maxSteps: nat) returns (deleted: nat)
      modifies this
      ensures State() == Step(old(State()), Evict(account, maxSteps))
      ensures deleted == (|old(rows)| - |rows|) % TWO32
      ensures cursors == old(cursors)
      ensures Ordered(old(rows)) ==>
        LogOf(rows, account) == if |LogOf(old(rows), account)| > maxSteps
                                then LogOf(old(rows), account)[|LogOf(old(rows), account)| - maxSteps..] else LogOf(old(rows), account)
      ensures Ordered(old(rows)) ==> forall other :: other != account ==> LogOf(rows, other) == LogOf(old(rows), other)
    {
      ghost var s := State();
      if Ordered(rows) {
        EvictKeepsNewest(s, account, maxSteps, account);
        forall other {
          EvictKeepsNewest(s, account, maxSteps, other);
        }
      }
      hide LogOf, Kept, Ordered;
      var count := |LogOf(rows, account)|;
      if count <= maxSteps {
        return 0;
      }
      var before := |rows|;
      rows := Kept(rows, rows, account, count - maxSteps);
      KeptIsShorter(old(rows), old(rows), account, count - maxSteps);
      deleted := (before - |rows|) % TWO32;
    }
  }

  lemma NewStepIsFound(rows: seq<Row>, r: Row)
    requires !Has(rows, r.account, r.stepId)
    ensures Has(rows + [r], r.account, r.stepId) && Existing(rows + [r], r.account, r.stepId) == r
  {
    assert (rows + [r])[|rows|] == r;
  }

  lemma {:induction false} KeptIsShorter(all: seq<Row>, rows: seq<Row>, account: string, excess: nat)
    ensures |Kept(all, rows, account, excess)| <= |rows|
  {
    if rows != [] {
      KeptIsShorter(all, rows[..|rows| - 1], account, excess);
    }
  }

  // ---------------------------------------------------------------------------------------
  // The shape of the log
  // ---------------------------------------------------------------------------------------

  /** Sequence numbers are positive and rise with every row an account gains. */
  ghost predicate Ordered(rows: seq<Row>) {
    && (forall i :: 0 <= i < |rows| ==> rows[i].seqNo >= 1)
    && (forall i, j :: 0 <= i < j < |rows| && rows[i].account == rows[j].account ==>
          rows[i].seqNo < rows[j].seqNo && rows[i].stepId != rows[j].stepId)
  }

  lemma {:induction false} MaxSeqMeaning(rows: seq<Row>, account: string)
    ensures forall i :: 0 <= i < |rows| && rows[i].account == account ==>
              MaxSeq(rows, account).Some? && rows[i].seqNo <= MaxSeq(rows, account).value
    ensures MaxSeq(rows, account).Some? ==>
              exists i :: 0 <= i < |rows| && rows[i].account == account && rows[i].seqNo == MaxSeq(rows, account).value
  {
    if rows != [] {
      var n := |rows| - 1;
      MaxSeqMeaning(rows[..n], account);
      assert forall i :: 0 <= i < n ==> rows[..n][i] == rows[i];
    }
  }

  lemma {:induction false} LogOfMeaning(rows: seq<Row>, account: string)
    ensures forall r :: r in LogOf(rows, account) <==> r in rows && r.account == account
  {
    if rows != [] {
      LogOfMeaning(rows[..|rows| - 1], account);
      assert rows == rows[..|rows| - 1] + [rows[|rows| - 1]];
    }
  }

  lemma {:induction false} CountBelowPrefix(rows: seq<Row>, i: nat, j: nat, account: string)
    requires Ordered(rows) && i < |rows| && rows[i].account == account && j <= |rows|
    ensures CountBelow(rows[..j], account, rows[i].seqNo) == |LogOf(rows[..if i < j then i else j], account)|
  {
    if j > 0 {
      CountBelowPrefix(rows, i, j - 1, account);
      assert rows[..j][..j - 1] == rows[..j - 1];
    }
  }

  lemma LogOfPlus(rows: seq<Row>, r: Row, account: string)
    ensures LogOf(rows + [r], account) ==
            if r.account == account then LogOf(rows, account) + [r] else LogOf(rows, account)
  {
    assert (rows + [r])[..|rows|] == rows;
  }

  lemma KeptPlus(all: seq<Row>, rows: seq<Row>, r: Row, account: string, excess: nat)
    ensures Kept(all, rows + [r], account, excess) ==
            if Oldest(all, r, account, excess) then Kept(all, rows, account, excess)
            else Kept(all, rows, account, excess) + [r]
  {
    assert (rows + [r])[..|rows|] == rows;
  }

  function Newest(log: seq<Row>, excess: nat): seq<Row> {
    if |log| <= excess then [] else log[excess..]
  }

  lemma NewestPlus(log: seq<Row>, r: Row, excess: nat)
    ensures |log| < excess ==> Newest(log + [r], excess) == Newest(log, excess) == []
    ensures |log| >= excess ==> Newest(log + [r], excess) == Newest(log, excess) + [r]
  {
  }

  lemma OldestIff(rows: seq<Row>, j: nat, account: string, excess: nat)
    requires Ordered(rows) && j < |rows|
    ensures Oldest(rows, rows[j], account, excess)
       <==> rows[j].account == account && |LogOf(rows[..j], account)| < excess
  {
    hide LogOf, CountBelow;
    if rows[j].account == account {
      CountBelowPrefix(rows, j, |rows|, account);
      assert rows[..|rows|] == rows;
    }
  }

  // One row more, on both sides of the equation.
  lemma KeptOneMore(rows: seq<Row>, before: seq<Row>, r: Row, account: string, excess: nat, other: string)
    requires Oldest(rows, r, account, excess) <==> r.account == account && |LogOf(before, account)| < excess
    requires LogOf(Kept(rows, before, account, excess), other) ==
             if other == account then Newest(LogOf(before, other), excess) else LogOf(before, other)
    ensures LogOf(Kept(rows, before + [r], account, excess), other) ==
            if other == account then Newest(LogOf(before + [r], other), excess) else LogOf(before + [r], other)
  {
    hide *;
    LogOfPlus(before, r, other);
    KeptPlus(rows, before, r, account, excess);
    if Oldest(rows, r, account, excess) {
      if other == account {
        NewestPlus(LogOf(before, other), r, excess);
      }
    } else {
      LogOfPlus(Kept(rows, before, account, excess), r, other);
      if other == account == r.account {
        NewestPlus(LogOf(before, other), r, excess);
      }
    }
  }

  lemma {:induction false} KeptPrefix(rows: seq<Row>, j: nat, account: string, excess: nat, other: string)
    requires Ordered(rows) && j <= |rows|
    ensures LogOf(Kept(rows, rows[..j], account, excess), other) ==
            if other == account then Newest(LogOf(rows[..j], other), excess) else LogOf(rows[..j], other)
  {
    if j == 0 {
      assert rows[..j] == [];
    } else {
      hide *;
      var before, r := rows[..j - 1], rows[j - 1];
      assert rows[..j] == before + [r];
      KeptPrefix(rows, j - 1, account, excess, other);
      OldestIff(rows, j - 1, account, excess);
      KeptOneMore(rows, before, r, account, excess, other);
    }
  }

  /** Eviction keeps exactly the newest `maxSteps` steps of the account, in order, and leaves every
      other account's log as it was. */
  lemma EvictKeepsNewest(s: Store, account: string, maxSteps: nat, other: string)
    requires Ordered(s.rows)
    ensures var log := LogOf(s.rows, other);
      LogOf(Step(s, Evict(account, maxSteps)).rows, other) ==
      if other == account && |log| > maxSteps then log[|log| - maxSteps..] else log
  {
    hide LogOf, Kept, Ordered;
    assert s.rows[..|s.rows|] == s.rows;
    var count := |LogOf(s.rows, account)|;
    if count > maxSteps {
      KeptPrefix(s.rows, |s.rows|, account, count - maxSteps, other);
    }
  }

  lemma {:induction false} KeptOrdered(all: seq<Row>, rows: seq<Row>, account: string, excess: nat)
    requires Ordered(rows)
    ensures Ordered(Kept(all, rows, account, excess))
    ensures forall r :: r in Kept(all, rows, account, excess) <==> r in rows && !Oldest(all, r, account, excess)
  {
    if rows != [] {
      var n := |rows| - 1;
      var before := Kept(all, rows[..n], account, excess);
      assert rows == rows[..n] + [rows[n]];
      KeptOrdered(all, rows[..n], account, excess);
      forall i | 0 <= i < |before| && before[i].account == rows[n].account
        ensures before[i].seqNo < rows[n].seqNo && before[i].stepId != rows[n].stepId
      {
        assert before[i] in rows[..n];
      }
    }
  }

  lemma StepOrdered(s: Store, c: Call)
    requires Ordered(s.rows)
    ensures Ordered(Step(s, c).rows)
  {
    match c
    case Append(a, id, _) => MaxSeqMeaning(s.rows, a);
    case Evict(a, max) =>
      var count := |LogOf(s.rows, a)|;
      if count > max {
        KeptOrdered(s.rows, s.rows, a, count - max);
      }
    case _ =>
  }

  // ---------------------------------------------------------------------------------------
  // Runs
  // ---------------------------------------------------------------------------------------

  function Run(s: Store, calls: seq<Call>): Store {
    if calls == [] then s else Step(Run(s, calls[..|calls| - 1]), calls[|calls| - 1])
  }

  lemma RunStep(s: Store, calls: seq<Call>, j: nat)
    requires j < |calls|
    ensures Run(s, calls[..j + 1]) == Step(Run(s, calls[..j]), calls[j])
  {
    assert calls[..j + 1][..j] == calls[..j];
  }

  lemma {:induction false} RunOrdered(s: Store, calls: seq<Call>)
    requires Ordered(s.rows)
    ensures Ordered(Run(s, calls).rows)
  {
    if calls != [] {
      RunOrdered(s, calls[..|calls| - 1]);
      StepOrdered(Run(s, calls[..|calls| - 1]), calls[|calls| - 1]);
    }
  }

  /** The largest number of a log is that of its newest step. */
  lemma {:induction false} NewestIsLargest(rows: seq<Row>, account: string)
    requires Ordered(rows)
    ensures var log := LogOf(rows, account);
      MaxSeq(rows, account) == if log == [] then None else Some(log[|log| - 1].seqNo)
  {
    if rows != [] {
      var n := |rows| - 1;
      NewestIsLargest(rows[..n], account);
      MaxSeqMeaning(rows[..n], account);
      assert forall i :: 0 <= i < n ==> rows[..n][i] == rows[i];
    }
  }

  /** The next number to be assigned never falls, except exactly when an eviction with limit zero
      empties a log. */
  lemma NextSeqFallsIff(s: Store, c: Call, account: string)
    requires Ordered(s.rows)
    ensures NextSeq(Step(s, c).rows, account) < NextSeq(s.rows, account)
       <==> c == Evict(account, 0) && LogOf(s.rows, account) != []
  {
    StepOrdered(s, c);
    NewestIsLargest(s.rows, account);
    NewestIsLargest(Step(s, c).rows, account);
    hide LogOf, MaxSeq, Kept, Ordered;
    match c
    case Append(a, id, _) =>
      if !Has(s.rows, a, id) {
        AppendExtends(s, c, account);
      }
    case Evict(a, max) =>
      EvictKeepsNewest(s, a, max, account);
      PositiveLog(s.rows, account);
    case _ =>
  }

  lemma PositiveLog(rows: seq<Row>, account: string)
    requires Ordered(rows)
    ensures forall i :: 0 <= i < |LogOf(rows, account)| ==> LogOf(rows, account)[i].seqNo >= 1
  {
    LogOfMeaning(rows, account);
    var log := LogOf(rows, account);
    forall i | 0 <= i < |log| ensures log[i].seqNo >= 1 {
      assert log[i] in rows;
    }
  }

  lemma AppendExtends(s: Store, c: Call, account: string)
    requires c.Append? && !Has(s.rows, c.account, c.stepId)
    ensures var log := LogOf(s.rows, account);
      LogOf(Step(s, c).rows, account) ==
      if account == c.account then log + [Row(account, c.stepId, NextSeq(s.rows, account), c.diff)] else log
  {
    var rows := Step(s, c).rows;
    assert rows[..|rows| - 1] == s.rows;
  }

  /** Call j inserts a new step for the account. */
  predicate Inserts(s: Store, calls: seq<Call>, j: nat, account: string) {
    && j < |calls| && calls[j].Append? && calls[j].account == account
    && !Has(Run(s, calls[..j]).rows, account, calls[j].stepId)
  }

  ghost predicate NeverEmptied(calls: seq<Call>, account: string) {
    forall k :: 0 <= k < |calls| ==> calls[k] != Evict(account, 0)
  }

  lemma NextSeqStep(s: Store, c: Call, account: string)
    requires Ordered(s.rows) && c != Evict(account, 0)
    ensures NextSeq(s.rows, account) <= NextSeq(Step(s, c).rows, account)
  {
    hide *;
    NextSeqFallsIff(s, c, account);
  }

  lemma {:induction false} NextSeqRises(s: Store, calls: seq<Call>, i: nat, j: nat, account: string)
    requires Ordered(s.rows) && i <= j <= |calls| && NeverEmptied(calls, account)
    ensures NextSeq(Run(s, calls[..i]).rows, account) <= NextSeq(Run(s, calls[..j]).rows, account)
    decreases j
  {
    hide Run, Step, NextSeq, Ordered;
    if i < j {
      NextSeqRises(s, calls, i, j - 1, account);
      RunOrdered(s, calls[..j - 1]);
      RunStep(s, calls, j - 1);
      NextSeqStep(Run(s, calls[..j - 1]), calls[j - 1], account);
    }
  }

  /** With every eviction limit at least one, each number assigned exceeds every number assigned
      before it to the account, whether or not those steps are still in the log. */
  lemma SequenceNumbersRise(s: Store, calls: seq<Call>, i: nat, j: nat, account: string)
    requires Ordered(s.rows) && NeverEmptied(calls, account)
    requires Inserts(s, calls, i, account) && Inserts(s, calls, j, account) && i < j
    ensures NextSeq(Run(s, calls[..i]).rows, account) < NextSeq(Run(s, calls[..j]).rows, account)
  {
    hide Has;
    RunStep(s, calls, i);
    var before := Run(s, calls[..i]);
    RunOrdered(s, calls[..i]);
    InsertRaises(before, calls[i]);
    NextSeqRises(s, calls, i + 1, j, account);
  }

  lemma InsertRaises(s: Store, c: Call)
    requires Ordered(s.rows) && c.Append? && !Has(s.rows, c.account, c.stepId)
    ensures NextSeq(Step(s, c).rows, c.account) == NextSeq(s.rows, c.account) + 1
  {
    StepOrdered(s, c);
    AppendExtends(s, c, c.account);
    NewestIsLargest(Step(s, c).rows, c.account);
  }

  lemma FirstAppend(s: Store, account: string, stepId: string, diff: string)
    requires s.rows == []
    ensures Step(s, Append(account, stepId, diff)).rows == [Row(account, stepId, 1, diff)]
  {
  }

  /** A run with limit zero: two different steps of one account are both numbered 1. */
  lemma LimitZeroReusesNumbers(account: string, x: string, y: string, diff: string)
    ensures var s := Step(Store([], map[]), Append(account, x, diff));
      var t := Step(Step(s, Evict(account, 0)), Append(account, y, diff));
      s.rows == [Row(account, x, 1, diff)] && t.rows == [Row(account, y, 1, diff)]
  {
    hide Step;
    var s := Step(Store([], map[]), Append(account, x, diff));
    FirstAppend(Store([], map[]), account, x, diff);
    OnlyRowEvicted(s, s.rows[0]);
    FirstAppend(Step(s, Evict(account, 0)), account, y, diff);
  }

  lemma OnlyRowEvicted(s: Store, r: Row)
    requires s.rows == [r]
    ensures Step(s, Evict(r.account, 0)).rows == []
  {
    assert [r] == [] + [r];
    LogOfPlus([], r, r.account);
    KeptPlus([r], [], r, r.account, 1);
    assert [r][..0] == [];
    assert CountBelow([r], r.account, r.seqNo) == CountBelow([], r.account, r.seqNo);
  }

  // ---------------------------------------------------------------------------------------
  // Redelivery and the cursor
  // ---------------------------------------------------------------------------------------

  lemma ExistingUnique(rows: seq<Row>, r: Row)
    requires Ordered(rows) && r in rows
    ensures Has(rows, r.account, r.stepId) && Existing(rows, r.account, r.stepId) == r
  {
    var i :| 0 <= i < |rows| && rows[i] == r;
    var e := Existing(rows, r.account, r.stepId);
    var k :| 0 <= k < |rows| && rows[k] == e;
  }

  lemma RowStays(s: Store, c: Call, r: Row)
    requires Ordered(s.rows) && r in s.rows && Has(Step(s, c).rows, r.account, r.stepId)
    ensures r in Step(s, c).rows
  {
    if c.Evict? && |LogOf(s.rows, c.account)| > c.maxSteps {
      KeptOrdered(s.rows, s.rows, c.account, |LogOf(s.rows, c.account)| - c.maxSteps);
      var e := Existing(Step(s, c).rows, r.account, r.stepId);
      ExistingUnique(s.rows, r);
      ExistingUnique(s.rows, e);
    }
  }

  /** While a step stays in the log its number stays too, and delivering it again changes neither log
      nor cursor: the number first assigned to it is the one reported. */
  lemma {:induction false} RedeliveryIsIdempotent(s: Store, calls: seq<Call>, r: Row, diff: string)
    requires Ordered(s.rows) && r in s.rows
    requires forall k :: 0 <= k <= |calls| ==> Has(Run(s, calls[..k]).rows, r.account, r.stepId)
    ensures var t := Run(s, calls);
      Step(t, Append(r.account, r.stepId, diff)) == t && Existing(t.rows, r.account, r.stepId) == r
  {
    var t := Run(s, calls);
    RowRetained(s, calls, r);
    RunOrdered(s, calls);
    ExistingUnique(t.rows, r);
  }

  lemma {:induction false} RowRetained(s: Store, calls: seq<Call>, r: Row)
    requires Ordered(s.rows) && r in s.rows
    requires forall k :: 0 <= k <= |calls| ==> Has(Run(s, calls[..k]).rows, r.account, r.stepId)
    ensures r in Run(s, calls).rows
  {
    hide Has;
    if calls != [] {
      var n := |calls| - 1;
      assert forall k :: 0 <= k <= n ==> calls[..n][..k] == calls[..k];
      RowRetained(s, calls[..n], r);
      RunOrdered(s, calls[..n]);
      assert calls[..n + 1] == calls;
      RowStays(Run(s, calls[..n]), calls[n], r);
    }
  }

  // The account's newest step is `stepId`, and its cursor stands on it with nothing to redo.
  ghost predicate Current(s: Store, account: string, stepId: string) {
    var log := LogOf(s.rows, account);
    && Ordered(s.rows)
    && log != [] && log[|log| - 1].stepId == stepId
    && account in s.cursors && s.cursors[account] == Cursor(Some(stepId), [])
  }

  // Neither a new step nor a cursor move of the account, nor an eviction down to nothing.
  predicate Leaves(s: Store, c: Call, account: string) {
    match c
    case Append(a, id, _) => a == account ==> Has(s.rows, a, id)
    case SetCursor(a, _) => a != account
    case Evict(a, max) => a == account ==> max >= 1
  }

  lemma CurrentStays(s: Store, c: Call, account: string, stepId: string)
    requires Current(s, account, stepId) && Leaves(s, c, account)
    ensures Current(Step(s, c), account, stepId)
  {
    StepOrdered(s, c);
    match c
    case Append(a, id, _) =>
      if !Has(s.rows, a, id) {
        AppendExtends(s, c, account);
      }
    case Evict(a, max) => EvictKeepsNewest(s, a, max, account);
    case _ =>
  }

  /** The step an append makes current is still in the log and current after any evictions with a
      limit of at least one, any redelivery, and anything done to other accounts. */
  lemma {:induction false} CurrentSurvives(s: Store, a: Call, calls: seq<Call>)
    requires Ordered(s.rows) && a.Append? && !Has(s.rows, a.account, a.stepId)
    requires forall k :: 0 <= k < |calls| ==> Leaves(Run(Step(s, a), calls[..k]), calls[k], a.account)
    ensures Current(Run(Step(s, a), calls), a.account, a.stepId)
  {
    hide Leaves;
    if calls == [] {
      StepOrdered(s, a);
      AppendExtends(s, a, a.account);
    } else {
      var n := |calls| - 1;
      assert forall k :: 0 <= k < n ==> calls[..n][..k] == calls[..k];
      CurrentSurvives(s, a, calls[..n]);
      assert Leaves(Run(Step(s, a), calls[..n]), calls[n], a.account);
      CurrentStays(Run(Step(s, a), calls[..n]), calls[n], a.account, a.stepId);
    }
  }

  lemma OrderedPlus(rows: seq<Row>, r: Row)
    requires Ordered(rows) && r.seqNo >= 1
    requires forall x :: x in rows && x.account == r.account ==> x.seqNo < r.seqNo && x.stepId != r.stepId
    ensures Ordered(rows + [r])
  {
    assert forall i :: 0 <= i < |rows| ==> rows[i] in rows;
  }

  lemma OrderedMinus(rows: seq<Row>)
    requires Ordered(rows) && rows != []
    ensures var n := |rows| - 1;
      && Ordered(rows[..n]) && rows[n].seqNo >= 1
      && forall x :: x in rows[..n] && x.account == rows[n].account ==> x.seqNo < rows[n].seqNo && x.stepId != rows[n].stepId
  {
  }

  lemma {:induction false} LogOrdered(rows: seq<Row>, account: string)
    requires Ordered(rows)
    ensures Ordered(LogOf(rows, account))
  {
    if rows != [] {
      hide Ordered;
      var n := |rows| - 1;
      OrderedMinus(rows);
      LogOrdered(rows[..n], account);
      LogOfMeaning(rows[..n], account);
      if rows[n].account == account {
        OrderedPlus(LogOf(rows[..n], account), rows[n]);
      }
    } else {
      assert LogOf(rows, account) == rows;
    }
  }

  /** A cursor moved back by undo can be left standing on an evicted step: the step at position k of
      the log outlives an eviction exactly when it is among the newest `maxSteps`. */
  lemma SurvivesEvictionIff(s: Store, account: string, k: nat, maxSteps: nat)
    requires Ordered(s.rows) && k < |LogOf(s.rows, account)|
    ensures var log := LogOf(s.rows, account);
      Has(Step(s, Evict(account, maxSteps)).rows, account, log[k].stepId) <==> |log| - k <= maxSteps
  {
    hide LogOf, Step, Ordered, Has;
    var log, t := LogOf(s.rows, account), Step(s, Evict(account, maxSteps));
    EvictKeepsNewest(s, account, maxSteps, account);
    LogOrdered(s.rows, account);
    LogOfMeaning(s.rows, account);
    assert forall i :: 0 <= i < |log| ==> log[i] in log;
    HasIff(t.rows, account, log[k].stepId);
    TailHasIff(log, k, if |log| > maxSteps then |log| - maxSteps else 0);
    assert log[0..] == log;
  }

  lemma HasIff(rows: seq<Row>, account: string, stepId: string)
    ensures Has(rows, account, stepId) <==> exists r :: r in LogOf(rows, account) && r.stepId == stepId
  {
    hide LogOf;
    LogOfMeaning(rows, account);
    if r :| r in LogOf(rows, account) && r.stepId == stepId {
      var i :| 0 <= i < |rows| && rows[i] == r;
    }
  }

  // Step ids are distinct along a log, so a step is in a tail of it exactly when its place is.
  lemma TailHasIff(log: seq<Row>, k: nat, from: nat)
    requires Ordered(log) && k < |log| && from <= |log|
    requires forall i :: 0 <= i < |log| ==> log[i].account == log[k].account
    ensures (exists r :: r in log[from..] && r.stepId == log[k].stepId) <==> from <= k
  {
    var tail := log[from..];
    if from <= k {
      assert tail[k - from] == log[k] && tail[k - from] in tail;
    }
    if r :| r in tail && r.stepId == log[k].stepId {
      var i :| 0 <= i < |tail| && tail[i] == r;
      assert log[from + i] == r;
    }
  }
}
