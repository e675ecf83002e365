/** The address book: ingest counts correspondents one message at a time, and the backfill aggregates
    the stored mail once more and merges the result without double counting. */
module AddressBook {
  import opened StringOrder
  import opened Text
  import opened Wrappers

  datatype Key = Key(account: string, normalized: string)

  // One row of the backfill's scan: a sender, or one recipient, of a stored message.
  datatype Occurrence = Occurrence(account: string, email: string, name: Option<string>, receivedAt: string)

  datatype Candidate = Candidate(email: string, name: Option<string>, frequency: nat,
                                 lastSeen: string, nameSeen: string)

  datatype Entry = Entry(email: string, name: Option<string>, frequency: nat, lastSeen: string)

  type Book = map<Key, Entry>
  type Aggregate = map<Key, Candidate>

  predicate HasSpace(s: string) {
    exists i :: 0 <= i < |s| && IsSpace(s[i])
  }

  /** `is_cacheable_sender_email` */
  predicate Cacheable(email: string) {
    if email == "" || '*' in email || HasSpace(email) then false
    else
      var parts := Split(email, '@');
      |parts| == 2 && parts[0] != "" && parts[1] != ""
  }

  /** `clean_display_name` */
  function CleanName(name: Option<string>): (r: Option<string>)
    ensures name.None? ==> r.None?
    ensures name.Some? ==> r == if Trim(name.value) == "" then None else Some(Trim(name.value))
  {
    if name.Some? && Trim(name.value) != "" then Some(Trim(name.value)) else None
  }

  function KeyOf(account: string, email: string): Key {
    Key(account, Lower(Trim(email)))
  }

  // ---------------------------------------------------------------------------------------
  // The backfill
  // ---------------------------------------------------------------------------------------

  predicate Counts(o: Occurrence) {
    Cacheable(Trim(o.email))
  }

  predicate IsFor(o: Occurrence, k: Key) {
    Counts(o) && KeyOf(o.account, o.email) == k
  }

  function NewCandidate(o: Occurrence): Candidate {
    Candidate(Trim(o.email), None, 0, "", "")
  }

  function Updated(c: Candidate, o: Occurrence): Candidate {
    var seen := c.(frequency := c.frequency + 1,
                   lastSeen := if Less(c.lastSeen, o.receivedAt) then o.receivedAt else c.lastSeen);
    var name := CleanName(o.name);
    if name.Some? && (c.name.None? || AtMost(c.nameSeen, o.receivedAt))
    then seen.(name := name, nameSeen := o.receivedAt)
    else seen
  }

  function Absorb(agg: Aggregate, o: Occurrence): Aggregate {
    if !Counts(o) then agg
    else
      var k := KeyOf(o.account, o.email);
      agg[k := Updated(if k in agg then agg[k] else NewCandidate(o), o)]
  }

  function Aggregated(scan: seq<Occurrence>): Aggregate {
    if scan == [] then map[] else Absorb(Aggregated(scan[..|scan| - 1]), scan[|scan| - 1])
  }

  function Merged(old_: Option<Entry>, c: Candidate): Entry {
    match old_
    case None => Entry(c.email, c.name, c.frequency, c.lastSeen)
    case Some(e) =>
      Entry(c.email, if c.name.Some? then c.name else e.name,
            if e.frequency < c.frequency then c.frequency else e.frequency, Max(e.lastSeen, c.lastSeen))
  }

  function Lookup(book: Book, k: Key): Option<Entry> {
    if k in book then Some(book[k]) else None
  }

  // The book once the candidates for some of the keys are merged in.
  function MergedFor(book: Book, agg: Aggregate, done: set<Key>): Book
    requires done <= agg.Keys
  {
    map k | k in book.Keys + done :: if k in done then Merged(Lookup(book, k), agg[k]) else book[k]
  }

  function Backfilled(book: Book, agg: Aggregate): Book {
    MergedFor(book, agg, agg.Keys)
  }

  lemma MergeOneMore(book: Book, agg: Aggregate, done: set<Key>, k: Key)
    requires done <= agg.Keys && k in agg && k !in done
    ensures MergedFor(book, agg, done + {k}) == MergedFor(book, agg, done)[k := Merged(Lookup(book, k), agg[k])]
    ensures Lookup(MergedFor(book, agg, done), k) == Lookup(book, k)
  {
  }

  // ---------------------------------------------------------------------------------------
  // Ingest
  // ---------------------------------------------------------------------------------------

  datatype Recipient = Recipient(name: Option<string>, email: string)

  datatype Message = Message(account: string, fromName: Option<string>, fromEmail: Option<string>,
                             to: seq<Recipient>, receivedAt: string)

  /** `upsert_address_tx` */
  function Upserted(book: Book, account: string, email: string, name: Option<string>, seenAt: string): Book {
    var trimmed := Trim(email);
    if !Cacheable(trimmed) then book
    else
      var k := Key(account, Lower(trimmed));
      var clean := CleanName(name);
      if k !in book then book[k := Entry(trimmed, clean, 1, seenAt)]
      else
        var e := book[k];
        book[k := Entry(trimmed, if clean.Some? then clean else e.name, e.frequency + 1, Max(e.lastSeen, seenAt))]
  }

  // Every correspondent of a message in harvest order: the sender, then the recipients.
  function Correspondents(m: Message): seq<Recipient> {
    if m.fromEmail.Some? then [Recipient(m.fromName, m.fromEmail.value)] + m.to else m.to
  }

  predicate Repeated(people: seq<Recipient>, normalized: string) {
    exists i :: 0 <= i < |people| && Trim(people[i].email) != "" && Lower(Trim(people[i].email)) == normalized
  }

  function Harvested(book: Book, account: string, people: seq<Recipient>, receivedAt: string): Book {
    if people == [] then book
    else
      var before := people[..|people| - 1];
      var p := people[|people| - 1];
      var done := Harvested(book, account, before, receivedAt);
      var trimmed := Trim(p.email);
      if trimmed == "" || Repeated(before, Lower(trimmed)) then done
      else Upserted(done, account, trimmed, p.name, receivedAt)
  }

  class AddressStore {
    var book: Book

    constructor ()
      ensures book == map[]
    {
      book := map[];
    }

    /** Collect, then upsert the candidates in whatever order the hash map yields them. */
    method BackfillAddressBook(scan: seq<Occurrence>)
      modifies this
      ensures book == Backfilled(old(book), Aggregated(scan))
    {
      hide MergedFor;
      var agg := CollectCandidates(scan);
      var left := agg.Keys;
      ghost var done: set<Key> := {};
      NoneMerged(book, agg);
      while left != {}
        invariant done <= agg.Keys && left == agg.Keys - done
        invariant book == MergedFor(old(book), agg, done)
        decreases |left|
      {
        var k :| k in left;
        MergeOneMore(old(book), agg, done, k);
        var c := agg[k];
        var row := Entry(c.email, c.name, c.frequency, c.lastSeen);
        if k in book {
          var e := book[k];
          row := Entry(c.email, if c.name.Some? then c.name else e.name,
                       if e.frequency < c.frequency then c.frequency else e.frequency, Max(e.lastSeen, c.lastSeen));
        }
        book := book[k := row];
        done := done + {k};
        left := left - {k};
      }
      assert done == agg.Keys;
    }

    /** The shared upsert: insert with count one, or bump the count and keep the better of the rest. */
    method UpsertAddress(account: string, email: string, name: Option<string>, seenAt: string)
      modifies this
      ensures book == Upserted(old(book), account, email, name, seenAt)
      ensures !Cacheable(Trim(email)) ==> book == old(book)
      ensures Cacheable(Trim(email)) ==>
        var k := KeyOf(account, email);
        && book.Keys == old(book).Keys + {k}
        && (forall other :: other in old(book) && other != k ==> book[other] == old(book)[other])
        && book[k].email == Trim(email)
        && book[k].frequency == 1 + (if k in old(book) then old(book)[k].frequency else 0)
        && AtMost(seenAt, book[k].lastSeen)
        && (k in old(book) ==> AtMost(old(book)[k].lastSeen, book[k].lastSeen))
        && (book[k].lastSeen == seenAt || (k in old(book) && book[k].lastSeen == old(book)[k].lastSeen))
        && (CleanName(name).Some? ==> book[k].name == CleanName(name))
        && (CleanName(name).None? ==> book[k].name == if k in old(book) then old(book)[k].name else None)
    {
      hide Trim, Lower, Cacheable, CleanName, Less;
      var trimmed := Trim(email);
      if !Cacheable(trimmed) {
        return;
      }
      var k := Key(account, Lower(trimmed));
      var clean := CleanName(name);
      LessIsAtMost(seenAt, seenAt);
      if k in book {
        var e := book[k];
        MaxIsUpperBound(e.lastSeen, seenAt);
        e := e.(email := trimmed, frequency := e.frequency + 1, lastSeen := Max(e.lastSeen, seenAt));
        if clean.Some? {
          e := e.(name := clean);
        }
        book := book[k := e];
      } else {
        book := book[k := Entry(trimmed, clean, 1, seenAt)];
      }
    }

    method RememberSender(account: string, sender: Recipient, seenAt: string)
      modifies this
      ensures book == Upserted(old(book), account, sender.email, sender.name, seenAt)
      ensures forall k :: Frequency(book, k) == Frequency(old(book), k) + Bump(account, sender.email, k)
    {
      forall k {
        UpsertCounts(book, account, sender.email, sender.name, seenAt, k);
      }
      UpsertAddress(account, sender.email, sender.name, seenAt);
    }

    method HarvestMessage(m: Message)
      modifies this
      ensures book == Harvested(old(book), m.account, Correspondents(m), m.receivedAt)
      ensures var people := if m.fromEmail.Some? then [Recipient(m.fromName, m.fromEmail.value)] + m.to else m.to;
        forall k :: HarvestedAt(old(book), book, m.account, people, m.receivedAt, k)
    {
      hide Trim, Lower, Upserted, Repeated;
      var people := Correspondents(m);
      forall k {
        HarvestIsFirstUpsert(book, m.account, people, m.receivedAt, k);
      }
      hide HarvestedAt;
      assert people[..0] == [];
      NobodyRepeated();
      var seen: set<string> := {};
      for i := 0 to |people|
        invariant book == Harvested(old(book), m.account, people[..i], m.receivedAt)
        invariant forall s :: s in seen <==> Repeated(people[..i], s)
      {
        assert people[..i + 1][..i] == people[..i];
        SeenPlus(people, i);
        var trimmed := Trim(people[i].email);
        if trimmed != "" && Lower(trimmed) !in seen {
          UpsertAddress(m.account, trimmed, people[i].name, m.receivedAt);
          seen := seen + {Lower(trimmed)};
        }
      }
      assert people[..|people|] == people;
    }
  }

  lemma NoneMerged(book: Book, agg: Aggregate)
    ensures MergedFor(book, agg, {}) == book
  {
  }

  lemma NobodyRepeated()
    ensures forall s :: !Repeated([], s)
  {
  }

  lemma SeenPlus(people: seq<Recipient>, i: nat)
    requires i < |people|
    ensures forall s :: Repeated(people[..i + 1], s)
                   <==> Repeated(people[..i], s) || (Trim(people[i].email) != "" && Lower(Trim(people[i].email)) == s)
  {
    var longer, shorter := people[..i + 1], people[..i];
    assert forall j :: 0 <= j < i ==> longer[j] == shorter[j];
    assert longer[i] == people[i];
    forall s | Repeated(shorter, s) ensures Repeated(longer, s) {
      var j :| 0 <= j < |shorter| && Trim(shorter[j].email) != "" && Lower(Trim(shorter[j].email)) == s;
      assert longer[j] == shorter[j];
    }
  }

  /** The aggregation loop over the scan. */
  method CollectCandidates(scan: seq<Occurrence>) returns (agg: Aggregate)
    ensures agg == Aggregated(scan)
  {
    hide Cacheable, CleanName, Trim, Less, AtMost;
    agg := map[];
    for i := 0 to |scan|
      invariant agg == Aggregated(scan[..i])
    {
      assert scan[..i + 1][..i] == scan[..i];
      var o := scan[i];
      var email := Trim(o.email);
      if !Cacheable(email) {
        continue;
      }
      var k := Key(o.account, Lower(email));
      var name := CleanName(o.name);
      var entry := if k in agg then agg[k] else Candidate(email, None, 0, "", "");
      entry := entry.(frequency := entry.frequency + 1);
      if Less(entry.lastSeen, o.receivedAt) {
        entry := entry.(lastSeen := o.receivedAt);
      }
      if name.Some? && (entry.name.None? || AtMost(entry.nameSeen, o.receivedAt)) {
        entry := entry.(name := name, nameSeen := o.receivedAt);
      }
      assert entry == Updated(if k in agg then agg[k] else NewCandidate(o), o);
      agg := agg[k := entry];
    }
    assert scan[..|scan|] == scan;
  }

  // ---------------------------------------------------------------------------------------
  // What the aggregation finds
  // ---------------------------------------------------------------------------------------

  function Count(scan: seq<Occurrence>, k: Key): nat {
    if scan == [] then 0
    else
      var before := Count(scan[..|scan| - 1], k);
      if IsFor(scan[|scan| - 1], k) then before + 1 else before
  }

  ghost predicate Named(o: Occurrence, k: Key) {
    IsFor(o, k) && CleanName(o.name).Some?
  }

  /** `seen` is the latest time at which k occurs. */
  ghost predicate Latest(scan: seq<Occurrence>, k: Key, seen: string) {
    && (exists i :: 0 <= i < |scan| && IsFor(scan[i], k) && scan[i].receivedAt == seen)
    && (forall i :: 0 <= i < |scan| && IsFor(scan[i], k) ==> AtMost(scan[i].receivedAt, seen))
  }

  /** Occurrence i is the last, in scan order, of the most recent occurrences of k that carry a name. */
  ghost predicate MostRecentNamed(scan: seq<Occurrence>, k: Key, i: nat) {
    && i < |scan| && Named(scan[i], k)
    && (forall j :: 0 <= j <= i && Named(scan[j], k) ==> AtMost(scan[j].receivedAt, scan[i].receivedAt))
    && (forall j :: i < j < |scan| && Named(scan[j], k) ==> Less(scan[j].receivedAt, scan[i].receivedAt))
  }

  ghost predicate NameFits(scan: seq<Occurrence>, k: Key, c: Candidate) {
    match c.name
    case None => forall j :: 0 <= j < |scan| ==> !Named(scan[j], k)
    case Some(_) => exists i: nat ::
      MostRecentNamed(scan, k, i) && c.name == CleanName(scan[i].name) && c.nameSeen == scan[i].receivedAt
  }

  ghost predicate FirstEmail(scan: seq<Occurrence>, k: Key, email: string) {
    exists i ::
      && 0 <= i < |scan| && IsFor(scan[i], k) && email == Trim(scan[i].email)
      && forall j :: 0 <= j < i ==> !IsFor(scan[j], k)
  }

  ghost predicate Exact(scan: seq<Occurrence>, k: Key, c: Candidate) {
    c.frequency == Count(scan, k) && Latest(scan, k, c.lastSeen) && NameFits(scan, k, c) && FirstEmail(scan, k, c.email)
  }

  /** A correspondent is aggregated exactly when some occurrence of it counts, and then with the exact
      number of occurrences, the latest of their times, the address as first written, and the name of
      the most recent occurrence that carries one. */
  lemma {:induction false} AggregateIsExact(scan: seq<Occurrence>, k: Key)
    ensures k in Aggregated(scan) <==> Count(scan, k) > 0
    ensures k in Aggregated(scan) ==> Exact(scan, k, Aggregated(scan)[k])
  {
    if scan != [] {
      var n := |scan| - 1;
      var before, o := scan[..n], scan[n];
      AggregateIsExact(before, k);
      CountZero(before, k);
      if IsFor(o, k) {
        var agg := Aggregated(before);
        var c := if k in agg then agg[k] else NewCandidate(o);
        LatestPlus(scan, k, c);
        NamePlus(scan, k, c);
        EmailPlus(scan, k, c);
      } else if k in Aggregated(before) {
        Skip(scan, k, Aggregated(before)[k]);
      }
    }
  }

  lemma {:induction false} CountZero(scan: seq<Occurrence>, k: Key)
    ensures Count(scan, k) == 0 <==> forall i :: 0 <= i < |scan| ==> !IsFor(scan[i], k)
  {
    if scan != [] {
      CountZero(scan[..|scan| - 1], k);
      assert forall i :: 0 <= i < |scan| - 1 ==> scan[..|scan| - 1][i] == scan[i];
    }
  }

  ghost predicate Absent(scan: seq<Occurrence>, k: Key) {
    forall i :: 0 <= i < |scan| ==> !IsFor(scan[i], k)
  }

  lemma LatestPlus(scan: seq<Occurrence>, k: Key, c: Candidate)
    requires scan != [] && IsFor(scan[|scan| - 1], k)
    requires var before := scan[..|scan| - 1];
      Latest(before, k, c.lastSeen) || (Absent(before, k) && c.lastSeen == "")
    ensures Latest(scan, k, Updated(c, scan[|scan| - 1]).lastSeen)
  {
    var n := |scan| - 1;
    var seen := scan[n].receivedAt;
    var last := if Less(c.lastSeen, seen) then seen else c.lastSeen;
    assert forall i :: 0 <= i < n ==> scan[..n][i] == scan[i];
    LessIrreflexive(seen);
    EmptyIsLeast(seen);
    forall i | 0 <= i < |scan| && IsFor(scan[i], k) ensures AtMost(scan[i].receivedAt, last) {
      if i < n {
        assert AtMost(scan[i].receivedAt, c.lastSeen);
        LessIsAtMost(c.lastSeen, seen);
        AtMostTransitive(scan[i].receivedAt, c.lastSeen, last);
      }
    }
    if Less(c.lastSeen, seen) || Absent(scan[..n], k) {
      assert scan[n].receivedAt == last;
    } else {
      var i :| 0 <= i < n && IsFor(scan[..n][i], k) && scan[..n][i].receivedAt == c.lastSeen;
      assert scan[i].receivedAt == last;
    }
  }

  lemma EmptyIsLeast(s: string)
    ensures AtMost("", s) && (!Less("", s) ==> s == "")
  {
  }

  lemma LessIsAtMost(a: string, b: string)
    ensures Less(a, b) ==> AtMost(a, b)
    ensures AtMost(a, a)
  {
    if Less(a, b) {
      LessAsymmetric(a, b);
    }
    LessIrreflexive(a);
  }

  lemma NewName(scan: seq<Occurrence>, k: Key, i: nat)
    requires scan != [] && Named(scan[|scan| - 1], k) && MostRecentNamed(scan[..|scan| - 1], k, i)
    requires AtMost(scan[i].receivedAt, scan[|scan| - 1].receivedAt)
    ensures MostRecentNamed(scan, k, |scan| - 1)
  {
    hide Named, AtMost, Less;
    var n := |scan| - 1;
    LessIsAtMost(scan[n].receivedAt, scan[n].receivedAt);
    forall j | 0 <= j < n && Named(scan[j], k) ensures AtMost(scan[j].receivedAt, scan[n].receivedAt) {
      assert scan[..n][j] == scan[j];
      LessIsAtMost(scan[j].receivedAt, scan[i].receivedAt);
      AtMostTransitive(scan[j].receivedAt, scan[i].receivedAt, scan[n].receivedAt);
    }
  }

  lemma SameName(scan: seq<Occurrence>, k: Key, i: nat)
    requires scan != [] && MostRecentNamed(scan[..|scan| - 1], k, i)
    requires Named(scan[|scan| - 1], k) ==> Less(scan[|scan| - 1].receivedAt, scan[i].receivedAt)
    ensures MostRecentNamed(scan, k, i)
  {
    hide Named, AtMost, Less;
    var n := |scan| - 1;
    assert forall j :: 0 <= j < n ==> scan[..n][j] == scan[j];
  }

  lemma NamePlus(scan: seq<Occurrence>, k: Key, c: Candidate)
    requires scan != [] && IsFor(scan[|scan| - 1], k) && NameFits(scan[..|scan| - 1], k, c)
    ensures NameFits(scan, k, Updated(c, scan[|scan| - 1]))
  {
    hide IsFor, CleanName, Less;
    var n := |scan| - 1;
    var o, before := scan[n], scan[..n];
    if c.name.None? {
      assert forall j :: 0 <= j < n ==> before[j] == scan[j];
      LessIsAtMost(o.receivedAt, o.receivedAt);
      if CleanName(o.name).Some? {
        assert MostRecentNamed(scan, k, n);
      }
    } else {
      var i: nat :| MostRecentNamed(before, k, i) && c.name == CleanName(before[i].name) && c.nameSeen == before[i].receivedAt;
      if CleanName(o.name).Some? && AtMost(c.nameSeen, o.receivedAt) {
        NewName(scan, k, i);
      } else {
        SameName(scan, k, i);
      }
    }
  }

  lemma EmailPlus(scan: seq<Occurrence>, k: Key, c: Candidate)
    requires scan != [] && IsFor(scan[|scan| - 1], k)
    requires var before := scan[..|scan| - 1];
      FirstEmail(before, k, c.email) || (Absent(before, k) && c.email == Trim(scan[|scan| - 1].email))
    ensures FirstEmail(scan, k, c.email)
  {
    hide IsFor, Trim;
    var n := |scan| - 1;
    assert forall j :: 0 <= j < n ==> scan[..n][j] == scan[j];
    if Absent(scan[..n], k) {
      assert IsFor(scan[n], k) && c.email == Trim(scan[n].email) && forall j :: 0 <= j < n ==> !IsFor(scan[j], k);
    } else {
      var i :| 0 <= i < n && IsFor(scan[..n][i], k) && c.email == Trim(scan[..n][i].email)
        && forall j :: 0 <= j < i ==> !IsFor(scan[..n][j], k);
      assert IsFor(scan[i], k) && c.email == Trim(scan[i].email) && forall j :: 0 <= j < i ==> !IsFor(scan[j], k);
    }
  }

  lemma Skip(scan: seq<Occurrence>, k: Key, c: Candidate)
    requires scan != [] && !IsFor(scan[|scan| - 1], k) && Exact(scan[..|scan| - 1], k, c)
    ensures Exact(scan, k, c)
  {
    SkipLatest(scan, k, c.lastSeen);
    SkipName(scan, k, c);
    SkipEmail(scan, k, c.email);
  }

  lemma SkipLatest(scan: seq<Occurrence>, k: Key, seen: string)
    requires scan != [] && !IsFor(scan[|scan| - 1], k) && Latest(scan[..|scan| - 1], k, seen)
    ensures Latest(scan, k, seen)
  {
    hide IsFor, AtMost;
    var n := |scan| - 1;
    assert forall j :: 0 <= j < n ==> scan[..n][j] == scan[j];
    var i :| 0 <= i < n && IsFor(scan[..n][i], k) && scan[..n][i].receivedAt == seen;
    assert IsFor(scan[i], k) && scan[i].receivedAt == seen;
  }

  lemma SkipName(scan: seq<Occurrence>, k: Key, c: Candidate)
    requires scan != [] && !IsFor(scan[|scan| - 1], k) && NameFits(scan[..|scan| - 1], k, c)
    ensures NameFits(scan, k, c)
  {
    hide IsFor, CleanName, AtMost;
    var n := |scan| - 1;
    var before := scan[..n];
    if c.name.Some? {
      var m: nat :| MostRecentNamed(before, k, m) && c.name == CleanName(before[m].name) && c.nameSeen == before[m].receivedAt;
      SameName(scan, k, m);
    } else {
      assert forall j :: 0 <= j < n ==> before[j] == scan[j];
    }
  }

  lemma SkipEmail(scan: seq<Occurrence>, k: Key, email: string)
    requires scan != [] && FirstEmail(scan[..|scan| - 1], k, email)
    ensures FirstEmail(scan, k, email)
  {
    hide IsFor, Trim;
    var n := |scan| - 1;
    var before := scan[..n];
    assert forall j :: 0 <= j < n ==> before[j] == scan[j];
    var f :| 0 <= f < n && IsFor(before[f], k) && email == Trim(before[f].email)
      && forall j :: 0 <= j < f ==> !IsFor(before[j], k);
    assert IsFor(scan[f], k) && email == Trim(scan[f].email);
  }

  lemma {:induction false} CountConcat(a: seq<Occurrence>, b: seq<Occurrence>, k: Key)
    ensures Count(a + b, k) == Count(a, k) + Count(b, k)
  {
    if b == [] {
      assert a + b == a;
    } else {
      var n := |b| - 1;
      assert (a + b)[..|a + b| - 1] == a + b[..n];
      CountConcat(a, b[..n], k);
    }
  }

  // Taking one occurrence out of a scan.
  lemma CountWithout(b: seq<Occurrence>, i: nat, k: Key)
    requires i < |b|
    ensures var rest := b[..i] + b[i + 1..];
      && multiset(b) == multiset(rest) + multiset{b[i]}
      && Count(b, k) == Count(rest, k) + if IsFor(b[i], k) then 1 else 0
  {
    assert b == (b[..i] + [b[i]]) + b[i + 1..];
    CountConcat(b[..i] + [b[i]], b[i + 1..], k);
    CountConcat(b[..i], [b[i]], k);
    CountConcat(b[..i], b[i + 1..], k);
    assert [b[i]][..0] == [];
  }

  lemma {:induction false} CountPermuted(a: seq<Occurrence>, b: seq<Occurrence>, k: Key)
    requires multiset(a) == multiset(b)
    ensures Count(a, k) == Count(b, k)
    decreases |a|
  {
    hide IsFor, Count;
    if a == [] {
      assert |multiset(b)| == 0;
    } else {
      assert a[0] in multiset(b);
      var i :| 0 <= i < |b| && b[i] == a[0];
      CountWithout(a, 0, k);
      CountWithout(b, i, k);
      var restA, restB := a[..0] + a[1..], b[..i] + b[i + 1..];
      assert multiset(restA) == multiset(a) - multiset{a[0]};
      assert multiset(restB) == multiset(b) - multiset{b[i]};
      CountPermuted(restA, restB, k);
    }
  }

  /** The order in which the database yields the mail decides names and spellings only: counts and
      last-seen times come out the same for every order. */
  lemma ScanOrderOnlyDecidesNames(a: seq<Occurrence>, b: seq<Occurrence>, k: Key)
    requires multiset(a) == multiset(b)
    ensures k in Aggregated(a) <==> k in Aggregated(b)
    ensures k in Aggregated(a) ==>
      && Aggregated(a)[k].frequency == Aggregated(b)[k].frequency
      && Aggregated(a)[k].lastSeen == Aggregated(b)[k].lastSeen
      && (Aggregated(a)[k].name.Some? <==> Aggregated(b)[k].name.Some?)
  {
    hide Aggregated, Count, IsFor, AtMost;
    CountPermuted(a, b, k);
    AggregateIsExact(a, k);
    AggregateIsExact(b, k);
    if k in Aggregated(a) {
      SameMembers(a, b);
      SameMembers(b, a);
      LatestOnly(a, b, k, Aggregated(a)[k].lastSeen, Aggregated(b)[k].lastSeen);
      NamedToo(a, b, k, Aggregated(a)[k], Aggregated(b)[k]);
      NamedToo(b, a, k, Aggregated(b)[k], Aggregated(a)[k]);
    }
  }

  lemma SameMembers(a: seq<Occurrence>, b: seq<Occurrence>)
    requires multiset(a) == multiset(b)
    ensures forall i :: 0 <= i < |a| ==> a[i] in b
  {
    forall i | 0 <= i < |a| ensures a[i] in b {
      assert a[i] in multiset(a);
    }
  }

  lemma LatestOnly(a: seq<Occurrence>, b: seq<Occurrence>, k: Key, x: string, y: string)
    requires Latest(a, k, x) && Latest(b, k, y)
    requires (forall i :: 0 <= i < |a| ==> a[i] in b) && (forall i :: 0 <= i < |b| ==> b[i] in a)
    ensures x == y
  {
    hide IsFor, Less;
    var i :| 0 <= i < |a| && IsFor(a[i], k) && a[i].receivedAt == x;
    var j :| 0 <= j < |b| && IsFor(b[j], k) && b[j].receivedAt == y;
    var m :| 0 <= m < |b| && b[m] == a[i];
    var n :| 0 <= n < |a| && a[n] == b[j];
    LessTotal(x, y);
  }

  lemma NamedToo(a: seq<Occurrence>, b: seq<Occurrence>, k: Key, c: Candidate, d: Candidate)
    requires NameFits(a, k, c) && NameFits(b, k, d) && forall i :: 0 <= i < |a| ==> a[i] in b
    ensures c.name.Some? ==> d.name.Some?
  {
    hide Named, AtMost, Less, CleanName;
    if c.name.Some? {
      var i: nat :| MostRecentNamed(a, k, i);
      var j :| 0 <= j < |b| && b[j] == a[i];
    }
  }

  // ---------------------------------------------------------------------------------------
  // Which addresses are kept
  // ---------------------------------------------------------------------------------------

  /** Exactly one '@', with something on both sides, and no '*' or white space anywhere. */
  lemma CacheableIff(email: string)
    ensures Cacheable(email) <==>
      && '*' !in email && !HasSpace(email)
      && exists i :: 0 < i < |email| - 1 && email[i] == '@' && '@' !in email[..i] && '@' !in email[i + 1..]
  {
    var parts := Split(email, '@');
    JoinOfSplit(email, '@');
    if |parts| == 2 && parts[0] != "" && parts[1] != "" {
      assert Join(parts[1..], '@') == parts[1];
      assert email == parts[0] + ['@'] + parts[1];
      var i := |parts[0]|;
      assert email[..i] == parts[0] && email[i + 1..] == parts[1] && email[i] == '@';
    }
    if i :| 0 < i < |email| - 1 && email[i] == '@' && '@' !in email[..i] && '@' !in email[i + 1..] {
      var both := [email[..i], email[i + 1..]];
      assert both[1..] == [email[i + 1..]];
      assert Join(both, '@') == email[..i] + ['@'] + email[i + 1..] == email;
      SplitOfJoin(both, '@');
    }
  }

  // ---------------------------------------------------------------------------------------
  // Backfilling again
  // ---------------------------------------------------------------------------------------

  /** The merged row: the candidate's spelling, its name or else the old one, the larger count and the
      later time. */
  ghost predicate MergedWith(before: Option<Entry>, c: Candidate, after: Entry) {
    && after.email == c.email
    && after.name == (if c.name.Some? then c.name else if before.Some? then before.value.name else None)
    && after.frequency == (if before.Some? && before.value.frequency > c.frequency then before.value.frequency else c.frequency)
    && after.lastSeen == (if before.Some? && !Less(before.value.lastSeen, c.lastSeen) then before.value.lastSeen else c.lastSeen)
  }

  lemma MergeMeaning(before: Option<Entry>, c: Candidate)
    ensures MergedWith(before, c, Merged(before, c))
  {
  }

  /** What a backfill leaves behind: every correspondent it found or already had, with the larger of
      the two counts and the later of the two times; nothing it did not find is touched. */
  lemma BackfillResult(book: Book, scan: seq<Occurrence>, k: Key)
    ensures var after := Backfilled(book, Aggregated(scan));
      && (k in after <==> k in book || Count(scan, k) > 0)
      && (k in after ==>
            after[k].frequency == (if k in book && book[k].frequency > Count(scan, k) then book[k].frequency else Count(scan, k)))
      && (k in book && Count(scan, k) == 0 ==> after[k] == book[k])
      && (Count(scan, k) > 0 ==> k in after && exists c: Candidate :: Exact(scan, k, c) && MergedWith(Lookup(book, k), c, after[k]))
      && (k in book && k in after ==> AtMost(book[k].lastSeen, after[k].lastSeen))
      && (forall i :: 0 <= i < |scan| && IsFor(scan[i], k) ==> k in after && AtMost(scan[i].receivedAt, after[k].lastSeen))
  {
    AggregateIsExact(scan, k);
    CountZero(scan, k);
    var agg := Aggregated(scan);
    if k in agg {
      MergeMeaning(Lookup(book, k), agg[k]);
      assert Exact(scan, k, agg[k]) && MergedWith(Lookup(book, k), agg[k], Backfilled(book, agg)[k]);
    }
    var after := Backfilled(book, agg);
    if k in book {
      LessIsAtMost(book[k].lastSeen, book[k].lastSeen);
    }
    if k in agg && k in book {
      MaxIsUpperBound(book[k].lastSeen, agg[k].lastSeen);
    }
    forall i | 0 <= i < |scan| && IsFor(scan[i], k) ensures k in after && AtMost(scan[i].receivedAt, after[k].lastSeen) {
      if k in book {
        AtMostTransitive(scan[i].receivedAt, agg[k].lastSeen, after[k].lastSeen);
      }
    }
  }

  lemma MergedTwice(old_: Option<Entry>, c: Candidate)
    ensures Merged(Some(Merged(old_, c)), c) == Merged(old_, c)
  {
    LessIrreflexive(c.lastSeen);
    if old_.Some? {
      var e := old_.value.lastSeen;
      MaxIsUpperBound(e, c.lastSeen);
    }
  }

  /** Running the backfill twice over unchanged mail is running it once. */
  lemma BackfillTwice(book: Book, agg: Aggregate)
    ensures Backfilled(Backfilled(book, agg), agg) == Backfilled(book, agg)
  {
    var once := Backfilled(book, agg);
    var twice := Backfilled(once, agg);
    assert twice.Keys == once.Keys;
    forall k | k in once ensures twice[k] == once[k] {
      if k in agg {
        MergedTwice(Lookup(book, k), agg[k]);
      }
    }
  }

  // ---------------------------------------------------------------------------------------
  // Runs of ingest, sends and backfills
  // ---------------------------------------------------------------------------------------

  // The scan of a backfill may be older than the book it is merged into: the two are separate steps.
  datatype Action =
    | Ingest(message: Message)
    | Remember(account: string, sender: Recipient, seenAt: string)
    | Backfill(scan: seq<Occurrence>)

  function Step(book: Book, a: Action): Book {
    match a
    case Ingest(m) => Harvested(book, m.account, Correspondents(m), m.receivedAt)
    case Remember(account, sender, at) => Upserted(book, account, sender.email, sender.name, at)
    case Backfill(scan) => Backfilled(book, Aggregated(scan))
  }

  function Run(book: Book, actions: seq<Action>): Book {
    if actions == [] then book else Step(Run(book, actions[..|actions| - 1]), actions[|actions| - 1])
  }

  /** No correspondent is dropped, and neither its count nor its last-seen time goes down. */
  ghost predicate Grown(before: Book, after: Book) {
    forall k :: k in before ==>
      k in after && before[k].frequency <= after[k].frequency && AtMost(before[k].lastSeen, after[k].lastSeen)
  }

  lemma GrownTransitive(a: Book, b: Book, c: Book)
    requires Grown(a, b) && Grown(b, c)
    ensures Grown(a, c)
  {
    forall k | k in a
      ensures k in c && a[k].frequency <= c[k].frequency && AtMost(a[k].lastSeen, c[k].lastSeen)
    {
      AtMostTransitive(a[k].lastSeen, b[k].lastSeen, c[k].lastSeen);
    }
  }

  lemma GrownReflexive(a: Book)
    ensures Grown(a, a)
  {
    forall k | k in a ensures AtMost(a[k].lastSeen, a[k].lastSeen) {
      LessIrreflexive(a[k].lastSeen);
    }
  }

  lemma UpsertGrows(book: Book, account: string, email: string, name: Option<string>, seenAt: string)
    ensures Grown(book, Upserted(book, account, email, name, seenAt))
  {
    GrownReflexive(book);
    var k := KeyOf(account, email);
    if k in book {
      MaxIsUpperBound(book[k].lastSeen, seenAt);
    }
  }

  lemma {:induction false} HarvestGrows(book: Book, account: string, people: seq<Recipient>, receivedAt: string)
    ensures Grown(book, Harvested(book, account, people, receivedAt))
  {
    GrownReflexive(book);
    if people != [] {
      var p := people[|people| - 1];
      var done := Harvested(book, account, people[..|people| - 1], receivedAt);
      HarvestGrows(book, account, people[..|people| - 1], receivedAt);
      UpsertGrows(done, account, Trim(p.email), p.name, receivedAt);
      GrownTransitive(book, done, Upserted(done, account, Trim(p.email), p.name, receivedAt));
    }
  }

  lemma StepGrows(book: Book, a: Action)
    ensures Grown(book, Step(book, a))
  {
    match a
    case Ingest(m) => HarvestGrows(book, m.account, Correspondents(m), m.receivedAt);
    case Remember(account, sender, at) => UpsertGrows(book, account, sender.email, sender.name, at);
    case Backfill(scan) =>
      forall k | k in book
        ensures k in Step(book, a) && book[k].frequency <= Step(book, a)[k].frequency
        ensures AtMost(book[k].lastSeen, Step(book, a)[k].lastSeen)
      {
        BackfillResult(book, scan, k);
      }
  }

  /** Over any interleaving of ingest, sends and backfills, no count and no last-seen time goes down. */
  lemma {:induction false} RunGrows(book: Book, actions: seq<Action>)
    ensures Grown(book, Run(book, actions))
  {
    if actions == [] {
      GrownReflexive(book);
    } else {
      var before := Run(book, actions[..|actions| - 1]);
      RunGrows(book, actions[..|actions| - 1]);
      StepGrows(before, actions[|actions| - 1]);
      GrownTransitive(book, before, Run(book, actions));
    }
  }

  /** A later backfill of the same mail, after any interleaving of other work, counts nothing twice:
      it leaves every correspondent's count and last-seen time as they are. */
  lemma RerunNeverDoubleCounts(book: Book, scan: seq<Occurrence>, between: seq<Action>, k: Key)
    requires k in Run(Step(book, Backfill(scan)), between)
    ensures var before := Run(Step(book, Backfill(scan)), between);
      var after := Step(before, Backfill(scan));
      k in after && after[k].frequency == before[k].frequency && after[k].lastSeen == before[k].lastSeen
  {
    var first := Step(book, Backfill(scan));
    var before := Run(first, between);
    RunGrows(first, between);
    BackfillResult(book, scan, k);
    BackfillResult(before, scan, k);
    AggregateIsExact(scan, k);
    if Count(scan, k) > 0 {
      var c := Aggregated(scan)[k];
      var i :| 0 <= i < |scan| && IsFor(scan[i], k) && scan[i].receivedAt == c.lastSeen;
      AtMostTransitive(c.lastSeen, first[k].lastSeen, before[k].lastSeen);
    }
  }

  // ---------------------------------------------------------------------------------------
  // Ingest counts once per message
  // ---------------------------------------------------------------------------------------

  ghost predicate Mentions(account: string, people: seq<Recipient>, k: Key) {
    exists i :: 0 <= i < |people| && Cacheable(Trim(people[i].email)) && KeyOf(account, people[i].email) == k
  }

  function Frequency(book: Book, k: Key): nat {
    if k in book then book[k].frequency else 0
  }

  lemma MentionsPlus(account: string, people: seq<Recipient>, k: Key)
    requires people != []
    ensures Mentions(account, people, k) <==>
      || Mentions(account, people[..|people| - 1], k)
      || (Cacheable(Trim(people[|people| - 1].email)) && KeyOf(account, people[|people| - 1].email) == k)
  {
    hide Cacheable, KeyOf, Trim;
    var n := |people| - 1;
    assert forall i :: 0 <= i < n ==> people[..n][i] == people[i];
    if Mentions(account, people[..n], k) {
      var i :| 0 <= i < n && Cacheable(Trim(people[..n][i].email)) && KeyOf(account, people[..n][i].email) == k;
      assert Cacheable(Trim(people[i].email)) && KeyOf(account, people[i].email) == k;
    }
  }

  // Lower case changes none of the characters the address filter looks at.
  lemma LowerKeepsCacheable(a: string, b: string)
    requires Lower(a) == Lower(b)
    ensures Cacheable(a) <==> Cacheable(b)
  {
    if Cacheable(a) {
      CacheableSame(a, b);
    }
    if Cacheable(b) {
      CacheableSame(b, a);
    }
  }

  lemma CacheableSame(a: string, b: string)
    requires Lower(a) == Lower(b) && Cacheable(a)
    ensures Cacheable(b)
  {
    hide Cacheable;
    CacheableIff(a);
    CacheableIff(b);
    assert |a| == |b|;
    forall i | 0 <= i < |a| ensures (a[i] == '@' <==> b[i] == '@') && (a[i] == '*' <==> b[i] == '*') && (IsSpace(a[i]) <==> IsSpace(b[i])) {
      assert Lower(a)[i] == Lower(b)[i];
    }
    var i :| 0 < i < |a| - 1 && a[i] == '@' && '@' !in a[..i] && '@' !in a[i + 1..];
    var front, back := a[..i], a[i + 1..];
    forall j | 0 <= j < i ensures b[..i][j] != '@' {
      assert front[j] == a[j] && front[j] in front;
    }
    var tail := b[i + 1..];
    forall j | 0 <= j < |tail| ensures tail[j] != '@' {
      assert back[j] == a[i + 1 + j] && back[j] in back;
    }
  }

  // What one upsert of an address adds to the count of k.
  function Bump(account: string, email: string, k: Key): nat {
    if Cacheable(Trim(email)) && KeyOf(account, email) == k then 1 else 0
  }

  lemma UpsertCounts(book: Book, account: string, email: string, name: Option<string>, seenAt: string, k: Key)
    ensures Frequency(Upserted(book, account, email, name, seenAt), k) ==
            Frequency(book, k) + Bump(account, email, k)
  {
    hide Cacheable, Trim;
  }

  lemma TrimOnce(s: string)
    ensures Trim(Trim(s)) == Trim(s)
  {
    var a, b := TrimCut(s);
  }

  lemma RepeatedIsMentioned(account: string, people: seq<Recipient>, trimmed: string)
    requires Cacheable(trimmed)
    ensures Repeated(people, Lower(trimmed)) <==> Mentions(account, people, Key(account, Lower(trimmed)))
  {
    hide Cacheable, Trim, Lower;
    forall i | 0 <= i < |people|
      ensures Lower(Trim(people[i].email)) == Lower(trimmed) ==> Cacheable(Trim(people[i].email))
    {
      if Lower(Trim(people[i].email)) == Lower(trimmed) {
        LowerKeepsCacheable(trimmed, Trim(people[i].email));
      }
    }
    NeverEmpty();
  }

  lemma NeverEmpty()
    ensures !Cacheable("")
  {
  }

  lemma HarvestOne(book: Book, account: string, people: seq<Recipient>, at: string, k: Key)
    requires people != []
    ensures var done := Harvested(book, account, people[..|people| - 1], at);
      var before, p := people[..|people| - 1], people[|people| - 1];
      Frequency(Harvested(book, account, people, at), k) ==
        Frequency(done, k) +
        if Cacheable(Trim(p.email)) && KeyOf(account, p.email) == k && !Mentions(account, before, k) then 1 else 0
  {
    hide Cacheable, Trim, Lower, Upserted, Mentions, Repeated;
    var before, p := people[..|people| - 1], people[|people| - 1];
    var done := Harvested(book, account, before, at);
    var trimmed := Trim(p.email);
    TrimOnce(p.email);
    UpsertCounts(done, account, trimmed, p.name, at, k);
    NeverEmpty();
    if Cacheable(trimmed) {
      RepeatedIsMentioned(account, before, trimmed);
    }
  }

  /** One message counts each distinct correspondent exactly once, however often it names it. */
  lemma {:induction false} HarvestCountsOnce(book: Book, account: string, people: seq<Recipient>, at: string, k: Key)
    ensures Frequency(Harvested(book, account, people, at), k) ==
            Frequency(book, k) + if Mentions(account, people, k) then 1 else 0
  {
    if people != [] {
      hide Harvested, Cacheable, KeyOf, Trim, Mentions;
      HarvestCountsOnce(book, account, people[..|people| - 1], at, k);
      MentionsPlus(account, people, k);
      HarvestOne(book, account, people, at, k);
    }
  }

  ghost predicate FirstMention(account: string, people: seq<Recipient>, k: Key, i: nat) {
    && i < |people| && Cacheable(Trim(people[i].email)) && KeyOf(account, people[i].email) == k
    && forall j :: 0 <= j < i ==> !(Cacheable(Trim(people[j].email)) && KeyOf(account, people[j].email) == k)
  }

  // What a message makes of one entry: the upsert of its first mention, or nothing.
  ghost predicate HarvestedAt(before: Book, after: Book, account: string, people: seq<Recipient>, at: string, k: Key) {
    && (!Mentions(account, people, k) ==> Lookup(after, k) == Lookup(before, k))
    && (forall i: nat :: FirstMention(account, people, k, i) ==>
          Lookup(after, k) == Lookup(Upserted(before, account, people[i].email, people[i].name, at), k))
  }

  lemma UpsertLocal(a: Book, b: Book, account: string, email: string, name: Option<string>, at: string, k: Key)
    requires Lookup(a, k) == Lookup(b, k)
    ensures Lookup(Upserted(a, account, email, name, at), k) == Lookup(Upserted(b, account, email, name, at), k)
    ensures !(Cacheable(Trim(email)) && KeyOf(account, email) == k) ==> Lookup(Upserted(a, account, email, name, at), k) == Lookup(a, k)
    ensures Upserted(a, account, Trim(email), name, at) == Upserted(a, account, email, name, at)
  {
    TrimOnce(email);
    hide Cacheable, Trim, CleanName, Lower;
  }

  lemma FirstMentionPlus(account: string, people: seq<Recipient>, p: Recipient, k: Key, i: nat)
    ensures FirstMention(account, people + [p], k, i) <==>
      if Mentions(account, people, k) then FirstMention(account, people, k, i)
      else i == |people| && Cacheable(Trim(p.email)) && KeyOf(account, p.email) == k
    ensures FirstMention(account, people, k, i) ==> i < |people| && Mentions(account, people, k)
  {
    hide Cacheable, KeyOf, Trim;
    var longer := people + [p];
    assert longer[|people|] == p && forall j :: 0 <= j < |people| ==> longer[j] == people[j];
  }

  lemma HarvestPlus(book: Book, account: string, people: seq<Recipient>, p: Recipient, at: string, k: Key)
    ensures var done := Harvested(book, account, people, at);
      Lookup(Harvested(book, account, people + [p], at), k) ==
      if Cacheable(Trim(p.email)) && KeyOf(account, p.email) == k && !Mentions(account, people, k)
      then Lookup(Upserted(done, account, p.email, p.name, at), k) else Lookup(done, k)
  {
    var done := Harvested(book, account, people, at);
    var trimmed := Trim(p.email);
    assert (people + [p])[..|people|] == people;
    hide Cacheable, Trim, Lower, Upserted, Mentions, Repeated;
    UpsertLocal(done, done, account, p.email, p.name, at, k);
    NeverEmpty();
    if Cacheable(trimmed) {
      RepeatedIsMentioned(account, people, trimmed);
    }
  }

  /** The first time a message names a correspondent decides its entry: spelling, name and time are those
      of that mention, and entries it does not name stay. */
  lemma {:induction false} HarvestIsFirstUpsert(book: Book, account: string, people: seq<Recipient>, at: string, k: Key)
    ensures HarvestedAt(book, Harvested(book, account, people, at), account, people, at, k)
  {
    if people != [] {
      var before, p := people[..|people| - 1], people[|people| - 1];
      assert people == before + [p];
      HarvestIsFirstUpsert(book, account, before, at, k);
      HarvestPlus(book, account, before, p, at, k);
      MentionsPlus(account, people, k);
      var done := Harvested(book, account, before, at);
      hide Harvested, Cacheable, KeyOf, Trim, Mentions, FirstMention, Upserted;
      forall i: nat | FirstMention(account, people, k, i)
        ensures i < |people| && Lookup(Harvested(book, account, people, at), k) == Lookup(Upserted(book, account, people[i].email, people[i].name, at), k)
      {
        FirstMentionPlus(account, before, p, k, i);
        if !Mentions(account, before, k) {
          UpsertLocal(done, book, account, p.email, p.name, at, k);
        }
      }
    }
  }
}
