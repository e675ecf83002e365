/** The message fold: how pending assertions transform a confirmed message state, the
    pointwise "last write" reading of a whole list of them, and what follows for every base. */
module MessageFold {
  import opened SortedSets

  datatype Outcome<S> = Present(state: S) | Removed

  datatype FoldState = FoldState(keywords: seq<string>, mailboxIds: seq<string>)

  datatype Delta = Delta(added: seq<string>, removed: seq<string>) {
    function Inverse(): Delta { Delta(removed, added) }
    predicate IsEmpty() { added == [] && removed == [] }
  }

  datatype ChangeDiff = ChangeDiff(keywords: Delta, mailboxes: Delta) {
    function Inverse(): ChangeDiff { ChangeDiff(keywords.Inverse(), mailboxes.Inverse()) }
    predicate IsEmpty() { keywords.IsEmpty() && mailboxes.IsEmpty() }
  }

  datatype Assertion =
    | SetKeywords(add: seq<string>, remove: seq<string>)
    | ReplaceMailboxes(mailboxIds: seq<string>)
    | Destroy
    | ApplyDiff(diff: ChangeDiff)

  /** `PartialEq` on fold states: a keyword set and a mailbox set, order aside. */
  predicate SameState(a: FoldState, b: FoldState) {
    AsSet(a.keywords) == AsSet(b.keywords) && AsSet(a.mailboxIds) == AsSet(b.mailboxIds)
  }

  predicate SameOutcome(a: Outcome<FoldState>, b: Outcome<FoldState>) {
    match (a, b)
    case (Present(s), Present(t)) => SameState(s, t)
    case (Removed, Removed) => true
    case _ => false
  }

  // ---------------------------------------------------------------------------------------
  // The fold
  // ---------------------------------------------------------------------------------------

  function EditSet(items: seq<string>, add: seq<string>, remove: seq<string>): seq<string> {
    WithoutAll(InsertAll(Collect(items), add), remove)
  }

  function Apply(state: FoldState, a: Assertion): Outcome<FoldState> {
    match a
    case SetKeywords(add, remove) =>
      Present(state.(keywords := EditSet(state.keywords, add, remove)))
    case ReplaceMailboxes(ids) => Present(state.(mailboxIds := ids))
    case ApplyDiff(diff) =>
      Present(FoldState(EditSet(state.keywords, diff.keywords.added, diff.keywords.removed),
                        EditSet(state.mailboxIds, diff.mailboxes.added, diff.mailboxes.removed)))
    case Destroy => Removed
  }

  function ApplyTo(o: Outcome<FoldState>, a: Assertion): Outcome<FoldState> {
    match o
    case Present(state) => Apply(state, a)
    case Removed => Removed
  }

  function ReplayFrom(o: Outcome<FoldState>, xs: seq<Assertion>): Outcome<FoldState> {
    if xs == [] then o
    else ApplyTo(ReplayFrom(o, xs[..|xs| - 1]), xs[|xs| - 1])
  }

  function Replay(base: FoldState, xs: seq<Assertion>): Outcome<FoldState> {
    ReplayFrom(Present(base), xs)
  }

  method ApplyEdits(items: seq<string>, add: seq<string>, remove: seq<string>) returns (r: seq<string>)
    ensures r == EditSet(items, add, remove)
    ensures StrictlySorted(r)
    ensures forall k :: k in r <==> k !in remove && (k in add || k in items)
  {
    r := [];
    for i := 0 to |items|
      invariant r == Collect(items[..i])
    {
      assert items[..i + 1][..i] == items[..i];
      r := Insert(r, items[i]);
    }
    assert items[..|items|] == items;
    for i := 0 to |add|
      invariant r == InsertAll(Collect(items), add[..i])
    {
      assert add[..i + 1][..i] == add[..i];
      r := Insert(r, add[i]);
    }
    assert add[..|add|] == add;
    for i := 0 to |remove|
      invariant r == WithoutAll(InsertAll(Collect(items), add), remove[..i])
    {
      assert remove[..i + 1][..i] == remove[..i];
      r := Without(r, remove[i]);
    }
    assert remove[..|remove|] == remove;
    EditSetSorted(items, add, remove);
  }

  lemma EditSetSorted(items: seq<string>, add: seq<string>, remove: seq<string>)
    ensures StrictlySorted(EditSet(items, add, remove))
  {
    InsertAllSorted([], items);
    InsertAllSorted(Collect(items), add);
    WithoutAllSorted(InsertAll(Collect(items), add), remove);
  }

  method ApplyAssertion(state: FoldState, a: Assertion) returns (o: Outcome<FoldState>)
    ensures o == Apply(state, a)
  {
    match a
    case SetKeywords(add, remove) =>
      var keywords := ApplyEdits(state.keywords, add, remove);
      return Present(state.(keywords := keywords));
    case ReplaceMailboxes(ids) =>
      return Present(state.(mailboxIds := ids));
    case ApplyDiff(diff) =>
      var keywords := ApplyEdits(state.keywords, diff.keywords.added, diff.keywords.removed);
      var mailboxIds := ApplyEdits(state.mailboxIds, diff.mailboxes.added, diff.mailboxes.removed);
      return Present(FoldState(keywords, mailboxIds));
    case Destroy =>
      return Removed;
  }

  method ReplayMessage(base: FoldState, xs: seq<Assertion>) returns (o: Outcome<FoldState>)
    ensures o == Replay(base, xs)
    ensures o == Removed <==> Destroy in xs
    ensures o.Present? ==> forall k :: k in o.state.keywords <==> After(LastKeyword(xs, k), k in base.keywords)
    ensures o.Present? ==> forall m :: m in o.state.mailboxIds <==> After(LastMailbox(xs, m), m in base.mailboxIds)
  {
    ReplayPointwise(base, xs);
    o := Present(base);
    for i := 0 to |xs|
      invariant o == Replay(base, xs[..i])
    {
      assert xs[..i + 1][..i] == xs[..i];
      match o
      case Present(state) => o := ApplyAssertion(state, xs[i]);
      case Removed =>
        RemovedIsTerminal(xs[i..]);
        ReplaySplits(Present(base), xs[..i], xs[i..]);
        assert xs[..i] + xs[i..] == xs;
        return Removed;
    }
    assert xs[..|xs|] == xs;
  }

  lemma {:induction false} RemovedIsTerminal(xs: seq<Assertion>)
    ensures ReplayFrom(Removed, xs) == Removed
  {
    if xs != [] {
      RemovedIsTerminal(xs[..|xs| - 1]);
    }
  }

  lemma {:induction false} ReplaySplits(o: Outcome<FoldState>, xs: seq<Assertion>, ys: seq<Assertion>)
    ensures ReplayFrom(o, xs + ys) == ReplayFrom(ReplayFrom(o, xs), ys)
  {
    if ys == [] {
      assert xs + ys == xs;
    } else {
      var n := |ys| - 1;
      assert (xs + ys)[..|xs + ys| - 1] == xs + ys[..n];
      ReplaySplits(o, xs, ys[..n]);
    }
  }

  /** What one assertion alone leaves of a base. */
  lemma ReplaySingle(base: FoldState, a: Assertion)
    ensures Replay(base, [a]) == Apply(base, a)
  {
    var one := [a];
    assert one[..|one| - 1] == [];
    assert ReplayFrom(Present(base), one) == ApplyTo(ReplayFrom(Present(base), []), a);
  }

  // ---------------------------------------------------------------------------------------
  // The pointwise reading: what a list of assertions last wrote to one keyword or mailbox
  // ---------------------------------------------------------------------------------------

  datatype Write = Untouched | Written(present: bool)

  predicate After(w: Write, before: bool) {
    if w.Untouched? then before else w.present
  }

  function DeltaWrite(add: seq<string>, remove: seq<string>, k: string): Write {
    if k in remove then Written(false) else if k in add then Written(true) else Untouched
  }

  function KeywordWrite(a: Assertion, k: string): Write {
    match a
    case SetKeywords(add, remove) => DeltaWrite(add, remove, k)
    case ApplyDiff(diff) => DeltaWrite(diff.keywords.added, diff.keywords.removed, k)
    case _ => Untouched
  }

  function MailboxWrite(a: Assertion, m: string): Write {
    match a
    case ReplaceMailboxes(ids) => Written(m in ids)
    case ApplyDiff(diff) => DeltaWrite(diff.mailboxes.added, diff.mailboxes.removed, m)
    case _ => Untouched
  }

  function LastKeyword(xs: seq<Assertion>, k: string): Write {
    if xs == [] then Untouched
    else
      var w := KeywordWrite(xs[|xs| - 1], k);
      if w.Written? then w else LastKeyword(xs[..|xs| - 1], k)
  }

  function LastMailbox(xs: seq<Assertion>, m: string): Write {
    if xs == [] then Untouched
    else
      var w := MailboxWrite(xs[|xs| - 1], m);
      if w.Written? then w else LastMailbox(xs[..|xs| - 1], m)
  }

  /** The fold means exactly its last writes, for every base and every list. */
  lemma {:induction false} ReplayPointwise(base: FoldState, xs: seq<Assertion>)
    ensures Replay(base, xs) == Removed <==> Destroy in xs
    ensures Destroy !in xs ==>
      var s := Replay(base, xs).state;
      && (forall k :: k in s.keywords <==> After(LastKeyword(xs, k), k in base.keywords))
      && (forall m :: m in s.mailboxIds <==> After(LastMailbox(xs, m), m in base.mailboxIds))
  {
    if xs != [] {
      var n := |xs| - 1;
      assert xs == xs[..n] + [xs[n]];
      ReplayPointwise(base, xs[..n]);
    }
  }

  lemma SameStatePointwise(a: FoldState, b: FoldState)
    ensures SameState(a, b) <==>
      (forall k :: k in a.keywords <==> k in b.keywords) && (forall m :: m in a.mailboxIds <==> m in b.mailboxIds)
  {
    assert forall k :: k in a.keywords <==> k in AsSet(a.keywords);
    assert forall k :: k in b.keywords <==> k in AsSet(b.keywords);
    assert forall m :: m in a.mailboxIds <==> m in AsSet(a.mailboxIds);
    assert forall m :: m in b.mailboxIds <==> m in AsSet(b.mailboxIds);
  }

  /** The fold respects set equality of bases: it is a function of the sets alone. */
  lemma FoldCongruence(a: FoldState, b: FoldState, xs: seq<Assertion>)
    requires SameState(a, b)
    ensures SameOutcome(Replay(a, xs), Replay(b, xs))
  {
    ReplayPointwise(a, xs);
    ReplayPointwise(b, xs);
    SameStatePointwise(a, b);
    if Destroy !in xs {
      SameStatePointwise(Replay(a, xs).state, Replay(b, xs).state);
    }
  }

  /** Two bases look the same under `xs` exactly when every keyword and mailbox they differ on
      is written by `xs` (or `xs` destroys the message): the precise reach of optimism. */
  lemma BaseChangeInvisibleIff(a: FoldState, b: FoldState, xs: seq<Assertion>)
    ensures SameOutcome(Replay(a, xs), Replay(b, xs)) <==>
      || Destroy in xs
      || (&& (forall k :: (k in a.keywords) != (k in b.keywords) ==> LastKeyword(xs, k).Written?)
          && (forall m :: (m in a.mailboxIds) != (m in b.mailboxIds) ==> LastMailbox(xs, m).Written?))
  {
    ReplayPointwise(a, xs);
    ReplayPointwise(b, xs);
    if Destroy !in xs {
      var s, t := Replay(a, xs).state, Replay(b, xs).state;
      SameStatePointwise(s, t);
      if SameState(s, t) {
        forall k | (k in a.keywords) != (k in b.keywords) ensures LastKeyword(xs, k).Written? {
          assert k in s.keywords <==> k in t.keywords;
        }
        forall m | (m in a.mailboxIds) != (m in b.mailboxIds) ensures LastMailbox(xs, m).Written? {
          assert m in s.mailboxIds <==> m in t.mailboxIds;
        }
      }
    }
  }

  lemma {:induction false} LastWriteTouched(xs: seq<Assertion>, k: string)
    ensures LastKeyword(xs, k).Written? <==> exists a :: a in xs && KeywordWrite(a, k).Written?
    ensures LastMailbox(xs, k).Written? <==> exists a :: a in xs && MailboxWrite(a, k).Written?
  {
    if xs != [] {
      var n := |xs| - 1;
      assert xs == xs[..n] + [xs[n]];
      LastWriteTouched(xs[..n], k);
      assert xs[n] in xs;
    }
  }

  /** Catch-up is invisible: the base may absorb any part of the outbox, in any order and any
      number of times, and what is folded over it does not move. */
  lemma CatchUpInvisible(base: FoldState, xs: seq<Assertion>, q: seq<Assertion>)
    requires forall a :: a in q ==> a in xs
    ensures SameOutcome(ReplayFrom(Replay(base, q), xs), Replay(base, xs))
    ensures Destroy !in q ==>
      && Replay(base, q).Present?
      && SameOutcome(Replay(Replay(base, q).state, xs), Replay(base, xs))
  {
    ReplayPointwise(base, q);
    ReplayPointwise(base, xs);
    if Destroy in q {
      RemovedIsTerminal(xs);
    } else {
      var caught := Replay(base, q).state;
      forall k | (k in caught.keywords) != (k in base.keywords) ensures LastKeyword(xs, k).Written? {
        LastWriteTouched(q, k);
        LastWriteTouched(xs, k);
      }
      forall m | (m in caught.mailboxIds) != (m in base.mailboxIds) ensures LastMailbox(xs, m).Written? {
        LastWriteTouched(q, m);
        LastWriteTouched(xs, m);
      }
      BaseChangeInvisibleIff(caught, base, xs);
    }
  }

  // ---------------------------------------------------------------------------------------
  // Change diffs: undo and redo
  // ---------------------------------------------------------------------------------------

  function DeltaOf(prev: seq<string>, curr: seq<string>): Delta {
    Delta(WithoutAll(Collect(curr), prev), WithoutAll(Collect(prev), curr))
  }

  function DiffOf(prev: FoldState, curr: FoldState): ChangeDiff {
    ChangeDiff(DeltaOf(prev.keywords, curr.keywords), DeltaOf(prev.mailboxIds, curr.mailboxIds))
  }

  /** A diff is canonical: it depends on the two states as sets only, and is empty exactly
      when nothing changed. */
  lemma DiffIsCanonical(prev: FoldState, curr: FoldState, prev': FoldState, curr': FoldState)
    requires SameState(prev, prev') && SameState(curr, curr')
    ensures DiffOf(prev, curr) == DiffOf(prev', curr')
    ensures DiffOf(prev, curr).IsEmpty() <==> SameState(prev, curr)
  {
    DeltaIsCanonical(prev.keywords, curr.keywords, prev'.keywords, curr'.keywords);
    DeltaIsCanonical(prev.mailboxIds, curr.mailboxIds, prev'.mailboxIds, curr'.mailboxIds);
  }

  lemma DeltaIsCanonical(p: seq<string>, c: seq<string>, p': seq<string>, c': seq<string>)
    requires AsSet(p) == AsSet(p') && AsSet(c) == AsSet(c')
    ensures DeltaOf(p, c) == DeltaOf(p', c')
    ensures DeltaOf(p, c).IsEmpty() <==> AsSet(p) == AsSet(c)
  {
    SameSetsSameDifference(c, p, c', p');
    SameSetsSameDifference(p, c, p', c');
    if DeltaOf(p, c).IsEmpty() {
      forall k ensures k in p <==> k in c {
        assert k !in DeltaOf(p, c).added && k !in DeltaOf(p, c).removed;
      }
    } else {
      var d := DeltaOf(p, c);
      var k := if d.added != [] then d.added[0] else d.removed[0];
      assert k in d.added || k in d.removed;
      assert (k in AsSet(p)) != (k in AsSet(c));
    }
  }

  lemma SameSetsSameDifference(a: seq<string>, b: seq<string>, a': seq<string>, b': seq<string>)
    requires AsSet(a) == AsSet(a') && AsSet(b) == AsSet(b')
    ensures WithoutAll(Collect(a), b) == WithoutAll(Collect(a'), b')
  {
    InsertAllSorted([], a);
    InsertAllSorted([], a');
    WithoutAllSorted(Collect(a), b);
    WithoutAllSorted(Collect(a'), b');
    assert forall k :: (k in a <==> k in AsSet(a)) && (k in b <==> k in AsSet(b));
    assert forall k :: (k in a' <==> k in AsSet(a')) && (k in b' <==> k in AsSet(b'));
    SortedIsCanonical(WithoutAll(Collect(a), b), WithoutAll(Collect(a'), b'));
  }

  /** The diffs recorded along a history of states, first change first. */
  function Diffs(states: seq<FoldState>): seq<Assertion>
    requires states != []
  {
    if |states| == 1 then []
    else
      var n := |states| - 1;
      Diffs(states[..n]) + [ApplyDiff(DiffOf(states[n - 1], states[n]))]
  }

  /** Their inverses, last change first. */
  function Undos(states: seq<FoldState>): seq<Assertion>
    requires states != []
  {
    if |states| == 1 then []
    else
      var n := |states| - 1;
      [ApplyDiff(DiffOf(states[n - 1], states[n]).Inverse())] + Undos(states[..n])
  }

  lemma DiffStep(prev: FoldState, curr: FoldState, at: FoldState)
    ensures SameState(at, prev) ==> SameOutcome(Apply(at, ApplyDiff(DiffOf(prev, curr))), Present(curr))
    ensures SameState(at, curr) ==> SameOutcome(Apply(at, ApplyDiff(DiffOf(prev, curr).Inverse())), Present(prev))
  {
    var d := DiffOf(prev, curr);
    SameStatePointwise(at, prev);
    SameStatePointwise(at, curr);
    SameStatePointwise(Apply(at, ApplyDiff(d)).state, curr);
    SameStatePointwise(Apply(at, ApplyDiff(d.Inverse())).state, prev);
  }

  /** An arbitrary diff is undone by its inverse exactly when it changed everything it names:
      what it adds was absent, and what it removes without also adding was present. */
  lemma DiffInvertsIff(s: FoldState, d: ChangeDiff)
    ensures SameOutcome(Replay(s, [ApplyDiff(d), ApplyDiff(d.Inverse())]), Present(s)) <==>
      Changes(d.keywords, s.keywords) && Changes(d.mailboxes, s.mailboxIds)
  {
    var forward := Apply(s, ApplyDiff(d)).state;
    var back := Apply(forward, ApplyDiff(d.Inverse())).state;
    var both := [ApplyDiff(d), ApplyDiff(d.Inverse())];
    assert both[..1][..0] == [];
    assert ReplayFrom(Present(s), both[..1]) == Present(forward);
    assert Replay(s, both) == Present(back);
    SameStatePointwise(back, s);
    assert forall k :: k in back.keywords <==> k !in d.keywords.added && (k in d.keywords.removed || k in s.keywords);
    assert forall m :: m in back.mailboxIds <==> m !in d.mailboxes.added && (m in d.mailboxes.removed || m in s.mailboxIds);
  }

  ghost predicate Changes(d: Delta, items: seq<string>) {
    && (forall k :: k in d.added ==> k !in items)
    && (forall k :: k in d.removed && k !in d.added ==> k in items)
  }

  /** Redo: replaying every recorded diff over the first state reaches the last. */
  lemma {:induction false} RedoReachesLast(states: seq<FoldState>)
    requires states != []
    ensures SameOutcome(Replay(states[0], Diffs(states)), Present(states[|states| - 1]))
  {
    if |states| > 1 {
      var n := |states| - 1;
      RedoReachesLast(states[..n]);
      var d := Diffs(states);
      assert d[..|d| - 1] == Diffs(states[..n]);
      DiffStep(states[n - 1], states[n], Replay(states[0], Diffs(states[..n])).state);
    }
  }

  /** Undo: replaying every inverse, newest first, over the last state restores the first. */
  lemma {:induction false} UndoRestoresFirst(states: seq<FoldState>, at: FoldState)
    requires states != [] && SameState(at, states[|states| - 1])
    ensures SameOutcome(Replay(at, Undos(states)), Present(states[0]))
  {
    if |states| > 1 {
      var n := |states| - 1;
      var undo := ApplyDiff(DiffOf(states[n - 1], states[n]).Inverse());
      DiffStep(states[n - 1], states[n], at);
      var back := Apply(at, undo).state;
      UndoRestoresFirst(states[..n], back);
      ReplaySplits(Present(at), [undo], Undos(states[..n]));
      assert [undo][..0] == [];
      assert ReplayFrom(Present(at), [undo]) == Present(back);
    }
  }

  /** The round trip: redo everything from the first state, undo everything, and the first
      state is back, as a set of keywords and a set of mailboxes. */
  lemma UndoInvertsRedo(states: seq<FoldState>)
    requires states != []
    ensures SameOutcome(Replay(states[0], Diffs(states) + Undos(states)), Present(states[0]))
  {
    RedoReachesLast(states);
    UndoRestoresFirst(states, Replay(states[0], Diffs(states)).state);
    ReplaySplits(Present(states[0]), Diffs(states), Undos(states));
  }
}
