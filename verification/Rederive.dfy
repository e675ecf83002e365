/** The metadata repair pass: keyset pages over the cached bodies, each page deriving message columns
    from files on disk and filling only the columns that are still empty. */
module Rederive {
  import opened StringOrder
  import opened Text
  import opened Wrappers

  datatype Key = Key(account: string, message: string)

  datatype Body = Body(key: Key, rawPath: Option<string>)

  // A cached body, as one page of the query returns it.
  datatype Cached = Cached(key: Key, rawPath: string)

  const START: Key := Key("", "")
  const REDERIVE_CHUNK: nat := 200

  predicate Before(a: Key, b: Key) {
    Less(a.account, b.account) || (a.account == b.account && Less(a.message, b.message))
  }

  // The order of the primary-key index of message_body.
  ghost predicate Sorted(table: seq<Body>) {
    forall i, j :: 0 <= i < j < |table| ==> Before(table[i].key, table[j].key)
  }

  // ---------------------------------------------------------------------------------------
  // Columns
  // ---------------------------------------------------------------------------------------

  // A serialized JSON object.
  type ObjectText = s: string | |s| >= 2 && s[0] == '{' witness "{}"

  // What a raw message yields: recipients, each already serialized, and the unsubscribe targets.
  datatype Derived = Derived(cc: seq<ObjectText>, bcc: seq<ObjectText>, replyTo: seq<ObjectText>,
                             listUnsubscribe: Option<ObjectText>)

  datatype Columns = Columns(cc: Option<string>, bcc: Option<string>, replyTo: Option<string>,
                             listUnsubscribe: Option<string>)

  predicate IsEmpty(d: Derived) {
    d.cc == [] && d.bcc == [] && d.replyTo == [] && d.listUnsubscribe.None?
  }

  function RecipientsJson(items: seq<ObjectText>): Option<string> {
    if items == [] then None else Some("[" + Join(items, ',') + "]")
  }

  predicate Blank(column: Option<string>) {
    column == None || column == Some("[]")
  }

  function FillColumn(column: Option<string>, value: Option<string>): Option<string> {
    if value.Some? && Blank(column) then value else column
  }

  function Fill(c: Columns, d: Derived): Columns {
    Columns(FillColumn(c.cc, RecipientsJson(d.cc)), FillColumn(c.bcc, RecipientsJson(d.bcc)),
            FillColumn(c.replyTo, RecipientsJson(d.replyTo)), FillColumn(c.listUnsubscribe, d.listUnsubscribe))
  }

  type Messages = map<Key, Columns>

  // The readable files: a path that is missing here is gone, unreadable or not a message.
  type Files = map<string, Derived>

  /** `fill_derived_metadata_tx`: one guarded update a column, of a message that may not be there. */
  function FillMessage(messages: Messages, key: Key, d: Derived): Messages {
    if key in messages then messages[key := Fill(messages[key], d)] else messages
  }

  function FillRow(messages: Messages, row: Cached, files: Files): Messages {
    if row.rawPath in files then FillMessage(messages, row.key, files[row.rawPath]) else messages
  }

  predicate Gains(messages: Messages, row: Cached, files: Files) {
    row.rawPath in files && FillMessage(messages, row.key, files[row.rawPath]) != messages
  }

  function FillRows(messages: Messages, rows: seq<Cached>, files: Files): Messages {
    if rows == [] then messages
    else FillRow(FillRows(messages, rows[..|rows| - 1], files), rows[|rows| - 1], files)
  }

  function CountGains(messages: Messages, rows: seq<Cached>, files: Files): nat {
    if rows == [] then 0
    else
      var before := CountGains(messages, rows[..|rows| - 1], files);
      if Gains(FillRows(messages, rows[..|rows| - 1], files), rows[|rows| - 1], files) then before + 1 else before
  }

  function CountUnreadable(rows: seq<Cached>, files: Files): nat {
    if rows == [] then 0
    else
      var before := CountUnreadable(rows[..|rows| - 1], files);
      if rows[|rows| - 1].rawPath in files then before else before + 1
  }

  // ---------------------------------------------------------------------------------------
  // Pages
  // ---------------------------------------------------------------------------------------

  function CachedIn(table: seq<Body>): seq<Cached> {
    if table == [] then []
    else
      var before := CachedIn(table[..|table| - 1]);
      var b := table[|table| - 1];
      if b.rawPath.Some? then before + [Cached(b.key, b.rawPath.value)] else before
  }

  function After(rows: seq<Cached>, cursor: Key): seq<Cached> {
    if rows == [] then []
    else
      var before := After(rows[..|rows| - 1], cursor);
      if Before(cursor, rows[|rows| - 1].key) then before + [rows[|rows| - 1]] else before
  }

  /** `WHERE raw_path IS NOT NULL AND key > cursor ORDER BY key` */
  function Pending(table: seq<Body>, cursor: Key): seq<Cached> {
    After(CachedIn(table), cursor)
  }

  function Page(table: seq<Body>, cursor: Key): seq<Cached> {
    var rows := Pending(table, cursor);
    if |rows| <= REDERIVE_CHUNK then rows else rows[..REDERIVE_CHUNK]
  }

  ghost predicate Ascending(rows: seq<Cached>) {
    forall i, j :: 0 <= i < j < |rows| ==> Before(rows[i].key, rows[j].key)
  }

  lemma BeforeIrreflexive(a: Key)
    ensures !Before(a, a)
  {
    LessIrreflexive(a.account);
    LessIrreflexive(a.message);
  }

  lemma BeforeTransitive(a: Key, b: Key, c: Key)
    requires Before(a, b) && Before(b, c)
    ensures Before(a, c)
  {
    if Less(a.account, b.account) && Less(b.account, c.account) {
      LessTransitive(a.account, b.account, c.account);
    } else if a.account == b.account == c.account {
      LessTransitive(a.message, b.message, c.message);
    }
  }

  lemma BeforeAsymmetric(a: Key, b: Key)
    requires Before(a, b)
    ensures !Before(b, a) && a != b
  {
    BeforeIrreflexive(a);
    if Before(b, a) {
      BeforeTransitive(a, b, a);
    }
  }

  lemma {:induction false} CachedMeaning(table: seq<Body>)
    ensures forall r :: r in CachedIn(table) <==> Body(r.key, Some(r.rawPath)) in table
    ensures Sorted(table) ==> Ascending(CachedIn(table))
  {
    if table != [] {
      var n := |table| - 1;
      var before := CachedIn(table[..n]);
      assert table == table[..n] + [table[n]];
      CachedMeaning(table[..n]);
      if Sorted(table) {
        forall i | 0 <= i < |before| ensures Before(before[i].key, table[n].key) {
          assert before[i] in before;
        }
      }
    }
  }

  lemma {:induction false} AfterMeaning(rows: seq<Cached>, cursor: Key)
    ensures forall r :: r in After(rows, cursor) <==> r in rows && Before(cursor, r.key)
    ensures Ascending(rows) ==> Ascending(After(rows, cursor))
  {
    if rows != [] {
      var n := |rows| - 1;
      var before := After(rows[..n], cursor);
      assert rows == rows[..n] + [rows[n]];
      AfterMeaning(rows[..n], cursor);
      if Ascending(rows) {
        forall i | 0 <= i < |before| ensures Before(before[i].key, rows[n].key) {
          assert before[i] in before;
        }
      }
    }
  }

  lemma PendingMeaning(table: seq<Body>, cursor: Key)
    ensures forall r :: r in Pending(table, cursor)
                   <==> Body(r.key, Some(r.rawPath)) in table && Before(cursor, r.key)
    ensures Sorted(table) ==> Ascending(Pending(table, cursor))
  {
    CachedMeaning(table);
    AfterMeaning(CachedIn(table), cursor);
  }

  lemma {:induction false} AfterAfter(rows: seq<Cached>, c: Key, d: Key)
    requires Before(c, d)
    ensures After(After(rows, c), d) == After(rows, d)
  {
    if rows != [] {
      var n := |rows| - 1;
      AfterAfter(rows[..n], c, d);
      var before := After(rows[..n], c);
      assert (before + [rows[n]])[..|before|] == before;
      if Before(d, rows[n].key) {
        BeforeTransitive(c, d, rows[n].key);
      }
    }
  }

  lemma AfterPlus(rows: seq<Cached>, r: Cached, cursor: Key)
    ensures After(rows + [r], cursor) == if Before(cursor, r.key) then After(rows, cursor) + [r] else After(rows, cursor)
  {
    assert (rows + [r])[..|rows|] == rows;
  }

  lemma {:induction false} AfterOwn(rows: seq<Cached>, n: nat, m: nat)
    requires Ascending(rows) && 0 < n <= |rows| && m <= |rows|
    ensures After(rows[..m], rows[n - 1].key) == if m <= n then [] else rows[n..m]
  {
    if m > 0 {
      hide After, Before;
      var before, r, cursor := rows[..m - 1], rows[m - 1], rows[n - 1].key;
      AfterOwn(rows, n, m - 1);
      assert rows[..m] == before + [r];
      AfterPlus(before, r, cursor);
      BeforeIrreflexive(cursor);
      if m < n {
        BeforeAsymmetric(r.key, cursor);
      } else if m > n {
        assert rows[n..m] == rows[n..m - 1] + [r];
      }
    }
  }

  /** Moving the cursor to the last row of a page leaves exactly the rows past the page. */
  lemma NextCursor(table: seq<Body>, cursor: Key, n: nat)
    requires Sorted(table) && 0 < n <= |Pending(table, cursor)|
    ensures var rows := Pending(table, cursor); Pending(table, rows[n - 1].key) == rows[n..]
  {
    var rows := Pending(table, cursor);
    PendingMeaning(table, cursor);
    assert rows[n - 1] in rows;
    AfterAfter(CachedIn(table), cursor, rows[n - 1].key);
    AfterOwn(rows, n, |rows|);
    assert rows[..|rows|] == rows;
  }

  // ---------------------------------------------------------------------------------------
  // The pass
  // ---------------------------------------------------------------------------------------

  datatype Report = Report(examined: nat, filled: nat, unreadable: nat)

  lemma JoinNotEmpty(items: seq<ObjectText>)
    requires items != []
    ensures Join(items, ',') != ""
  {
  }

  lemma JsonNeverBlank(items: seq<ObjectText>)
    ensures RecipientsJson(items).Some? ==> !Blank(RecipientsJson(items))
  {
    if items != [] {
      JoinNotEmpty(items);
      var text := "[" + Join(items, ',') + "]";
      assert |text| > 2;
    }
  }

  /** A recipients column after the fill: a blank one takes the JSON array of the derived recipients, in
      order, when there are any; every other stays. */
  predicate FilledWith(before: Option<string>, after: Option<string>, items: seq<ObjectText>) {
    if (before == None || before == Some("[]")) && items != []
    then after == Some("[" + Join(items, ',') + "]")
    else after == before
  }

  class Repair {
    var table: seq<Body>
    var messages: Messages
    var files: Files

    constructor (table: seq<Body>, messages: Messages, files: Files)
      ensures this.table == table && this.messages == messages && this.files == files
    {
      this.table, this.messages, this.files := table, messages, files;
    }

    /** One page: rows in index order, strictly after the cursor, up to the limit. */
    method CachedRawBodiesAfter(cursor: Key) returns (rows: seq<Cached>)
      ensures rows == Page(table, cursor)
      ensures IsFirstPage(table, cursor, rows)
    {
      PageMeaning(table, cursor);
      hide Before, IsFirstPage;
      rows := [];
      var i := 0;
      while i < |table| && |rows| < REDERIVE_CHUNK
        invariant i <= |table| && |rows| <= REDERIVE_CHUNK
        invariant rows == Pending(table[..i], cursor)
      {
        PendingPlus(table, i, cursor);
        if table[i].rawPath.Some? && Before(cursor, table[i].key) {
          rows := rows + [Cached(table[i].key, table[i].rawPath.value)];
        }
        i := i + 1;
      }
      PendingPrefix(table, i, cursor);
      ghost var all := Pending(table, cursor);
      if i == |table| {
        assert table[..i] == table;
      } else {
        assert all[..|rows|] == rows;
        assert |all| == |rows| ==> all == rows;
      }
    }

    /** Fills the blank columns of one message; true exactly when a column really changed. */
    method FillDerivedMetadata(key: Key, d: Derived) returns (filled: bool)
      modifies this`messages
      ensures messages == FillMessage(old(messages), key, d)
      ensures messages.Keys == old(messages).Keys
      ensures forall other :: other in messages && other != key ==> messages[other] == old(messages)[other]
      ensures key in messages ==>
        var before, after := old(messages)[key], messages[key];
        && FilledWith(before.cc, after.cc, d.cc) && FilledWith(before.bcc, after.bcc, d.bcc)
        && FilledWith(before.replyTo, after.replyTo, d.replyTo)
        && after.listUnsubscribe == if before.listUnsubscribe in {None, Some("[]")} && d.listUnsubscribe.Some?
                                    then d.listUnsubscribe else before.listUnsubscribe
      ensures filled <==> messages != old(messages)
    {
      hide Join;
      filled := false;
      JsonNeverBlank(d.cc);
      JsonNeverBlank(d.bcc);
      JsonNeverBlank(d.replyTo);
      if key in messages {
        var c := messages[key];
        if d.cc != [] && Blank(c.cc) {
          c, filled := c.(cc := RecipientsJson(d.cc)), true;
        }
        if d.bcc != [] && Blank(c.bcc) {
          c, filled := c.(bcc := RecipientsJson(d.bcc)), true;
        }
        if d.replyTo != [] && Blank(c.replyTo) {
          c, filled := c.(replyTo := RecipientsJson(d.replyTo)), true;
        }
        if d.listUnsubscribe.Some? && Blank(c.listUnsubscribe) {
          c, filled := c.(listUnsubscribe := d.listUnsubscribe), true;
        }
        MessageChanged(messages, key, c);
        messages := messages[key := c];
      }
    }

    /** One page: the files are read first, and the write is skipped when nothing was derived. */
    method ApplyBatch(batch: seq<Cached>, report: Report) returns (after: Report)
      modifies this`messages
      ensures messages == FillRows(old(messages), batch, files)
      ensures after == Report(report.examined + |batch|, report.filled + CountGains(old(messages), batch, files),
                              report.unreadable + CountUnreadable(batch, files))
    {
      hide FillMessage;
      var unreadable := 0;
      var useful := false;
      for i := 0 to |batch|
        modifies {}
        invariant unreadable == CountUnreadable(batch[..i], files)
        invariant !useful ==> NothingDerived(batch[..i], files)
      {
        assert batch[..i + 1][..i] == batch[..i];
        assert batch[..i + 1] == batch[..i] + [batch[i]];
        if batch[i].rawPath !in files {
          unreadable := unreadable + 1;
        } else if !IsEmpty(files[batch[i].rawPath]) {
          useful := true;
        }
      }
      assert batch[..|batch|] == batch;
      if !useful {
        NothingToFill(messages, batch, files);
        return Report(report.examined + |batch|, report.filled, report.unreadable + unreadable);
      }
      var filled := 0;
      for i := 0 to |batch|
        invariant messages == FillRows(old(messages), batch[..i], files)
        invariant filled == CountGains(old(messages), batch[..i], files)
      {
        assert batch[..i + 1][..i] == batch[..i];
        if batch[i].rawPath in files {
          var gained := FillDerivedMetadata(batch[i].key, files[batch[i].rawPath]);
          if gained {
            filled := filled + 1;
          }
        } else {
          Unreadable(messages, batch[i], files);
        }
      }
      after := Report(report.examined + |batch|, report.filled + filled, report.unreadable + unreadable);
    }

    /** The whole pass: it ends, and what it did is one fill over the cached bodies after ("", ""). */
    method RederiveMessageMetadata() returns (report: Report)
      requires Sorted(table)
      modifies this`messages
      ensures var rows := Pending(table, START);
        && messages == FillRows(old(messages), rows, files)
        && report == Report(|rows|, CountGains(old(messages), rows, files), CountUnreadable(rows, files))
    {
      hide Pending, FillRows, CountGains, CountUnreadable, IsFirstPage;
      report := Report(0, 0, 0);
      var cursor := START;
      ghost var rows := Pending(table, START);
      ghost var n := 0;
      NothingDone(messages, files);
      assert rows[..0] == [] && rows[0..] == rows;
      while true
        invariant n <= |rows| && Pending(table, cursor) == rows[n..]
        invariant messages == FillRows(old(messages), rows[..n], files)
        invariant report == Report(n, CountGains(old(messages), rows[..n], files), CountUnreadable(rows[..n], files))
        decreases |rows| - n
      {
        var batch := CachedRawBodiesAfter(cursor);
        if batch == [] {
          assert rows[..n] == rows;
          break;
        }
        var m := n + |batch|;
        assert batch == rows[n..m] && rows[..m] == rows[..n] + batch && rows[n..][|batch|..] == rows[m..];
        NextCursor(table, cursor, |batch|);
        FillConcat(old(messages), rows[..n], batch, files);
        cursor := batch[|batch| - 1].key;
        report := ApplyBatch(batch, report);
        n := m;
      }
    }
  }

  lemma MessageChanged(messages: Messages, key: Key, c: Columns)
    requires key in messages
    ensures messages[key := c] == messages <==> c == messages[key]
  {
    assert messages[key := messages[key]] == messages;
    assert messages[key := c][key] == c;
  }

  /** A page holds cached bodies past the cursor, as many as fit, in key order; and what it leaves out lies
      past its last. */
  ghost predicate IsFirstPage(table: seq<Body>, cursor: Key, rows: seq<Cached>) {
    && |rows| <= 200
    && (forall r :: r in rows ==> Body(r.key, Some(r.rawPath)) in table && Before(cursor, r.key))
    && (|rows| < 200 ==> forall r: Cached :: Body(r.key, Some(r.rawPath)) in table && Before(cursor, r.key) ==> r in rows)
    && (Sorted(table) ==> Ascending(rows))
    && (Sorted(table) ==> forall r: Cached ::
          Body(r.key, Some(r.rawPath)) in table && Before(cursor, r.key) && r !in rows ==> rows != [] && Before(rows[|rows| - 1].key, r.key))
  }

  lemma PageMeaning(table: seq<Body>, cursor: Key)
    ensures IsFirstPage(table, cursor, Page(table, cursor))
  {
    hide Pending, Before, Sorted;
    PendingMeaning(table, cursor);
    var all, rows := Pending(table, cursor), Page(table, cursor);
    assert forall i :: 0 <= i < |rows| ==> rows[i] == all[i];
    forall r | r in all && r !in rows ensures rows != [] && (Ascending(all) ==> Before(rows[|rows| - 1].key, r.key)) {
      var i :| 0 <= i < |all| && all[i] == r;
    }
  }

  lemma PendingPlus(table: seq<Body>, i: nat, cursor: Key)
    requires i < |table|
    ensures Pending(table[..i + 1], cursor) ==
            if table[i].rawPath.Some? && Before(cursor, table[i].key)
            then Pending(table[..i], cursor) + [Cached(table[i].key, table[i].rawPath.value)]
            else Pending(table[..i], cursor)
  {
    assert table[..i + 1][..i] == table[..i];
    var rows := CachedIn(table[..i]);
    if table[i].rawPath.Some? {
      assert (rows + [Cached(table[i].key, table[i].rawPath.value)])[..|rows|] == rows;
    }
  }

  lemma {:induction false} PendingPrefix(table: seq<Body>, i: nat, cursor: Key)
    requires i <= |table|
    ensures Pending(table[..i], cursor) <= Pending(table, cursor)
    decreases |table| - i
  {
    if i < |table| {
      PendingPlus(table, i, cursor);
      PendingPrefix(table, i + 1, cursor);
    } else {
      assert table[..i] == table;
    }
  }

  ghost predicate NothingDerived(rows: seq<Cached>, files: Files) {
    forall r :: r in rows && r.rawPath in files ==> IsEmpty(files[r.rawPath])
  }

  lemma NothingDone(messages: Messages, files: Files)
    ensures FillRows(messages, [], files) == messages
    ensures CountGains(messages, [], files) == 0 && CountUnreadable([], files) == 0
  {
  }

  lemma Unreadable(messages: Messages, row: Cached, files: Files)
    requires row.rawPath !in files
    ensures FillRow(messages, row, files) == messages && !Gains(messages, row, files)
  {
  }

  /** The reported number of unreadable bodies is the number of those whose file is missing. */
  lemma {:induction false} UnreadableIsExact(rows: seq<Cached>, files: Files)
    ensures CountUnreadable(rows, files) == |set i | 0 <= i < |rows| && rows[i].rawPath !in files|
  {
    var here := set i | 0 <= i < |rows| && rows[i].rawPath !in files;
    if rows != [] {
      var n := |rows| - 1;
      UnreadableIsExact(rows[..n], files);
      var before := set i | 0 <= i < n && rows[..n][i].rawPath !in files;
      assert here == if rows[n].rawPath in files then before else before + {n};
    }
  }

  /** The shortcut is sound: a page with nothing derived would have filled nothing. */
  lemma {:induction false} NothingToFill(messages: Messages, rows: seq<Cached>, files: Files)
    requires NothingDerived(rows, files)
    ensures FillRows(messages, rows, files) == messages && CountGains(messages, rows, files) == 0
  {
    if rows != [] {
      var r := rows[|rows| - 1];
      NothingToFill(messages, rows[..|rows| - 1], files);
      assert r in rows;
      if r.rawPath in files && r.key in messages {
        MessageChanged(messages, r.key, Fill(messages[r.key], files[r.rawPath]));
      }
    }
  }

  lemma {:induction false} FillConcat(messages: Messages, a: seq<Cached>, b: seq<Cached>, files: Files)
    ensures FillRows(messages, a + b, files) == FillRows(FillRows(messages, a, files), b, files)
    ensures CountGains(messages, a + b, files) ==
            CountGains(messages, a, files) + CountGains(FillRows(messages, a, files), b, files)
    ensures CountUnreadable(a + b, files) == CountUnreadable(a, files) + CountUnreadable(b, files)
  {
    hide FillRow, Gains;
    if b == [] {
      assert a + b == a;
    } else {
      assert (a + b)[..|a + b| - 1] == a + b[..|b| - 1];
      FillConcat(messages, a, b[..|b| - 1], files);
    }
  }

  // ---------------------------------------------------------------------------------------
  // What the pass covers
  // ---------------------------------------------------------------------------------------

  lemma StartIsLeast(k: Key)
    ensures Before(START, k) <==> k != START
  {
  }

  lemma {:induction false} AfterAll(rows: seq<Cached>, cursor: Key)
    requires forall r :: r in rows ==> Before(cursor, r.key)
    ensures After(rows, cursor) == rows
  {
    if rows != [] {
      assert rows == rows[..|rows| - 1] + [rows[|rows| - 1]];
      AfterAll(rows[..|rows| - 1], cursor);
    }
  }

  /** The pass examines every cached body, each once and in key order, exactly when none of them is
      stored under two empty ids. */
  lemma ExaminesEveryBodyIff(table: seq<Body>)
    requires Sorted(table)
    ensures Pending(table, START) == CachedIn(table) <==> forall b :: b in table && b.rawPath.Some? ==> b.key != START
    ensures Ascending(Pending(table, START))
  {
    var all := CachedIn(table);
    CachedMeaning(table);
    PendingMeaning(table, START);
    if forall b :: b in table && b.rawPath.Some? ==> b.key != START {
      forall r | r in all ensures Before(START, r.key) {
        StartIsLeast(r.key);
      }
      AfterAll(all, START);
    } else {
      var b :| b in table && b.rawPath.Some? && b.key == START;
      StartIsLeast(b.key);
      assert Cached(b.key, b.rawPath.value) in all && Cached(b.key, b.rawPath.value) !in Pending(table, START);
    }
  }

  /** The final columns of a message are its first ones, filled from its own cached body and no other. */
  lemma {:induction false} RowResult(messages: Messages, rows: seq<Cached>, files: Files, k: Key)
    requires Ascending(rows)
    ensures var after := FillRows(messages, rows, files);
      && after.Keys == messages.Keys
      && ((forall i :: 0 <= i < |rows| ==> rows[i].key != k) && k in messages ==> after[k] == messages[k])
      && forall i :: 0 <= i < |rows| && rows[i].key == k && k in messages ==>
           after[k] == if rows[i].rawPath in files then Fill(messages[k], files[rows[i].rawPath]) else messages[k]
  {
    hide Fill, Before;
    if rows != [] {
      var n := |rows| - 1;
      assert forall i :: 0 <= i < n ==> rows[..n][i] == rows[i];
      RowResult(messages, rows[..n], files, k);
      forall i | 0 <= i < n ensures rows[i].key != rows[n].key {
        BeforeAsymmetric(rows[i].key, rows[n].key);
      }
    }
  }

  ghost predicate ColumnKept(before: Option<string>, after: Option<string>) {
    (!Blank(before) ==> after == before) && (Blank(after) ==> after == before)
  }

  ghost predicate ColumnsKept(before: Columns, after: Columns) {
    && ColumnKept(before.cc, after.cc) && ColumnKept(before.bcc, after.bcc)
    && ColumnKept(before.replyTo, after.replyTo) && ColumnKept(before.listUnsubscribe, after.listUnsubscribe)
  }

  lemma FillKeeps(c: Columns, d: Derived)
    ensures ColumnsKept(c, Fill(c, d))
  {
    JsonNeverBlank(d.cc);
    JsonNeverBlank(d.bcc);
    JsonNeverBlank(d.replyTo);
  }

  /** No column that held anything is ever overwritten, and none is emptied. */
  lemma PassNeverOverwrites(messages: Messages, rows: seq<Cached>, files: Files, k: Key)
    requires Ascending(rows) && k in messages
    ensures FillRows(messages, rows, files).Keys == messages.Keys
    ensures ColumnsKept(messages[k], FillRows(messages, rows, files)[k])
  {
    hide Fill;
    RowResult(messages, rows, files, k);
    if i :| 0 <= i < |rows| && rows[i].key == k {
      if rows[i].rawPath in files {
        FillKeeps(messages[k], files[rows[i].rawPath]);
      }
    }
  }

  function Changed(before: Messages, after: Messages): set<Key>
    requires before.Keys == after.Keys
  {
    set k | k in before && after[k] != before[k]
  }

  /** The reported count is exactly the number of messages that gained a column. */
  lemma {:induction false} FilledIsExact(messages: Messages, rows: seq<Cached>, files: Files)
    requires Ascending(rows)
    ensures FillRows(messages, rows, files).Keys == messages.Keys
    ensures CountGains(messages, rows, files) == |Changed(messages, FillRows(messages, rows, files))|
  {
    if rows != [] {
      hide Fill, Before;
      var n := |rows| - 1;
      var r := rows[n];
      var before := FillRows(messages, rows[..n], files);
      FilledIsExact(messages, rows[..n], files);
      forall i | 0 <= i < n ensures rows[i].key != r.key {
        BeforeAsymmetric(rows[i].key, r.key);
      }
      RowResult(messages, rows[..n], files, r.key);
      ChangedPlus(messages, before, r, files);
    }
  }

  lemma ChangedPlus(messages: Messages, before: Messages, r: Cached, files: Files)
    requires before.Keys == messages.Keys && (r.key in messages ==> before[r.key] == messages[r.key])
    ensures var after := FillRow(before, r, files);
      && after.Keys == messages.Keys
      && |Changed(messages, after)| == |Changed(messages, before)| + if Gains(before, r, files) then 1 else 0
  {
    hide Fill;
    var after := FillRow(before, r, files);
    if r.rawPath in files && r.key in messages {
      MessageChanged(before, r.key, after[r.key]);
      if Gains(before, r, files) {
        assert Changed(messages, after) == Changed(messages, before) + {r.key};
      }
    }
    if !Gains(before, r, files) {
      assert after == before;
    }
  }

  lemma FillTwice(c: Columns, d: Derived)
    ensures Fill(Fill(c, d), d) == Fill(c, d)
  {
  }

  /** An immediate second pass over the same bodies and files changes nothing and reports no fill. */
  lemma SecondPassFillsNothing(messages: Messages, rows: seq<Cached>, files: Files)
    requires Ascending(rows)
    ensures var once := FillRows(messages, rows, files);
      FillRows(once, rows, files) == once && CountGains(once, rows, files) == 0
  {
    hide Fill, CountGains, FillRows;
    var once := FillRows(messages, rows, files);
    var twice := FillRows(once, rows, files);
    FilledIsExact(messages, rows, files);
    FilledIsExact(once, rows, files);
    forall k | k in messages ensures twice[k] == once[k] {
      RowResult(messages, rows, files, k);
      RowResult(once, rows, files, k);
      if i :| 0 <= i < |rows| && rows[i].key == k {
        if rows[i].rawPath in files {
          FillTwice(messages[k], files[rows[i].rawPath]);
        }
      }
    }
    assert Changed(once, twice) == {};
  }

  // ---------------------------------------------------------------------------------------
  // Bodies written while the pass runs
  // ---------------------------------------------------------------------------------------

  /** Page i reads the table as it is then; `tables` lists those snapshots. */
  function CursorAt(tables: seq<seq<Body>>, i: nat): Key
    requires i <= |tables|
  {
    if i == 0 then START
    else
      var page := Page(tables[i - 1], CursorAt(tables, i - 1));
      if page == [] then CursorAt(tables, i - 1) else page[|page| - 1].key
  }

  function PageAt(tables: seq<seq<Body>>, i: nat): seq<Cached>
    requires i < |tables|
  {
    Page(tables[i], CursorAt(tables, i))
  }

  ghost predicate AllSorted(tables: seq<seq<Body>>) {
    forall i :: 0 <= i < |tables| ==> Sorted(tables[i])
  }

  ghost predicate UpTo(a: Key, b: Key) {
    a == b || Before(a, b)
  }

  // Every key of a page lies past its cursor and up to the next cursor.
  lemma PageBetweenCursors(tables: seq<seq<Body>>, i: nat, r: Cached)
    requires AllSorted(tables) && i < |tables| && r in PageAt(tables, i)
    ensures Before(CursorAt(tables, i), r.key) && UpTo(r.key, CursorAt(tables, i + 1))
  {
    var rows := Pending(tables[i], CursorAt(tables, i));
    var page := PageAt(tables, i);
    PendingMeaning(tables[i], CursorAt(tables, i));
    assert r in rows;
    var k :| 0 <= k < |page| && page[k] == r;
    assert page[k] == rows[k] && page[|page| - 1] == rows[|page| - 1];
  }

  lemma {:induction false} CursorNeverGoesBack(tables: seq<seq<Body>>, i: nat, j: nat)
    requires AllSorted(tables) && i <= j <= |tables|
    ensures UpTo(CursorAt(tables, i), CursorAt(tables, j))
    decreases j
  {
    if i < j {
      CursorNeverGoesBack(tables, i, j - 1);
      var page := PageAt(tables, j - 1);
      if page != [] {
        PageBetweenCursors(tables, j - 1, page[|page| - 1]);
        if CursorAt(tables, i) != CursorAt(tables, j - 1) {
          BeforeTransitive(CursorAt(tables, i), CursorAt(tables, j - 1), CursorAt(tables, j));
        }
      }
    }
  }

  /** However the table changes between pages, no key is examined twice and keys only ascend. */
  lemma NoBodyTwice(tables: seq<seq<Body>>, i: nat, r: Cached, j: nat, q: Cached)
    requires AllSorted(tables) && i < j < |tables| && r in PageAt(tables, i) && q in PageAt(tables, j)
    ensures Before(r.key, q.key) && r.key != q.key
  {
    hide Before, PageAt;
    var c, d := CursorAt(tables, i + 1), CursorAt(tables, j);
    PageBetweenCursors(tables, i, r);
    PageBetweenCursors(tables, j, q);
    CursorNeverGoesBack(tables, i + 1, j);
    if r.key != c && c != d {
      BeforeTransitive(r.key, c, d);
    }
    if r.key != d {
      BeforeTransitive(r.key, d, q.key);
    }
    BeforeAsymmetric(r.key, q.key);
  }

  lemma FullPage(table: seq<Body>, cursor: Key, r: Cached)
    requires Sorted(table) && r in Pending(table, cursor) && r !in Page(table, cursor)
    ensures var page := Page(table, cursor);
      page != [] && Before(page[|page| - 1].key, r.key)
  {
    hide Pending;
    PendingMeaning(table, cursor);
    var rows := Pending(table, cursor);
    var k :| 0 <= k < |rows| && rows[k] == r;
    var page := Page(table, cursor);
    assert forall m :: 0 <= m < |page| ==> page[m] == rows[m];
  }

  /** A body that stays cached from the first page to the empty last one is examined by some page,
      whatever else is written meanwhile. */
  lemma {:induction false} StayingBodyIsExamined(tables: seq<seq<Body>>, i: nat, r: Cached) returns (j: nat)
    requires AllSorted(tables) && i < |tables| && Before(CursorAt(tables, i), r.key)
    requires forall k :: 0 <= k < |tables| ==> Body(r.key, Some(r.rawPath)) in tables[k]
    requires PageAt(tables, |tables| - 1) == []
    ensures i <= j < |tables| && r in PageAt(tables, j)
    decreases |tables| - i
  {
    PendingMeaning(tables[i], CursorAt(tables, i));
    assert Body(r.key, Some(r.rawPath)) in tables[i];
    if r in PageAt(tables, i) {
      j := i;
    } else {
      FullPage(tables[i], CursorAt(tables, i), r);
      j := StayingBodyIsExamined(tables, i + 1, r);
    }
  }
}
