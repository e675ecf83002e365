/** Coalescing the pending assertions of one message into the smallest equivalent sequence. */
module MessageCoalesce {
  import opened Wrappers
  import opened MessageFold

  // The keyword accumulator: what is to be added and what is to be removed, in first-write order.
  datatype Toggles = Toggles(added: seq<string>, removed: seq<string>)

  /** `list.retain(|existing| existing != keyword)` */
  function Retain(list: seq<string>, keyword: string): (r: seq<string>)
    ensures forall k :: k in r <==> k in list && k != keyword
    ensures Distinct(list) ==> Distinct(r)
    ensures keyword !in list ==> r == list
  {
    if list == [] then []
    else
      assert list == [list[0]] + list[1..];
      assert Distinct(list) ==> Distinct(list[1..]) && list[0] !in list[1..];
      if list[0] == keyword then Retain(list[1..], keyword)
      else [list[0]] + Retain(list[1..], keyword)
  }

  ghost predicate Distinct(list: seq<string>) {
    forall i, j :: 0 <= i < j < |list| ==> list[i] != list[j]
  }

  ghost predicate Disjoint(t: Toggles) {
    && Distinct(t.added) && Distinct(t.removed)
    && (forall k :: k in t.added ==> k !in t.removed)
  }

  function Push(list: seq<string>, keyword: string): seq<string> {
    if keyword in list then list else list + [keyword]
  }

  function ToggleAdd(t: Toggles, keyword: string): Toggles {
    Toggles(Push(t.added, keyword), Retain(t.removed, keyword))
  }

  function ToggleRemove(t: Toggles, keyword: string): Toggles {
    Toggles(Retain(t.added, keyword), Push(t.removed, keyword))
  }

  function ToggleAdds(t: Toggles, ks: seq<string>): Toggles {
    if ks == [] then t else ToggleAdd(ToggleAdds(t, ks[..|ks| - 1]), ks[|ks| - 1])
  }

  function ToggleRemoves(t: Toggles, ks: seq<string>): Toggles {
    if ks == [] then t else ToggleRemove(ToggleRemoves(t, ks[..|ks| - 1]), ks[|ks| - 1])
  }

  datatype Merged = Merged(toggles: Toggles, mailboxes: Option<seq<string>>)

  function MergeOne(m: Merged, a: Assertion): Merged {
    match a
    case SetKeywords(add, remove) => m.(toggles := ToggleRemoves(ToggleAdds(m.toggles, add), remove))
    case ReplaceMailboxes(ids) => m.(mailboxes := Some(ids))
    case _ => m
  }

  function Merge(xs: seq<Assertion>): Merged {
    if xs == [] then Merged(Toggles([], []), None) else MergeOne(Merge(xs[..|xs| - 1]), xs[|xs| - 1])
  }

  function Emit(m: Merged): seq<Assertion> {
    (if m.toggles.added != [] || m.toggles.removed != []
     then [SetKeywords(m.toggles.added, m.toggles.removed)] else [])
    + (if m.mailboxes.Some? then [ReplaceMailboxes(m.mailboxes.value)] else [])
  }

  predicate HasDiff(xs: seq<Assertion>) {
    exists i :: 0 <= i < |xs| && xs[i].ApplyDiff?
  }

  function Coalesce(xs: seq<Assertion>): seq<Assertion> {
    if Destroy in xs then [Destroy]
    else if HasDiff(xs) then xs
    else Emit(Merge(xs))
  }

  method ToggleEach(t: Toggles, add: seq<string>, remove: seq<string>) returns (r: Toggles)
    ensures r == ToggleRemoves(ToggleAdds(t, add), remove)
  {
    r := t;
    for i := 0 to |add|
      invariant r == ToggleAdds(t, add[..i])
    {
      assert add[..i + 1][..i] == add[..i];
      r := ToggleAdd(r, add[i]);
    }
    assert add[..|add|] == add;
    for i := 0 to |remove|
      invariant r == ToggleRemoves(ToggleAdds(t, add), remove[..i])
    {
      assert remove[..i + 1][..i] == remove[..i];
      r := ToggleRemove(r, remove[i]);
    }
    assert remove[..|remove|] == remove;
  }

  method CoalesceAssertions(xs: seq<Assertion>) returns (r: seq<Assertion>)
    ensures r == Coalesce(xs)
    ensures forall base :: SameOutcome(Replay(base, r), Replay(base, xs))
  {
    forall base ensures SameOutcome(Replay(base, Coalesce(xs)), Replay(base, xs)) {
      CoalescePreservesMeaning(xs, base);
    }
    if Destroy in xs {
      return [Destroy];
    }
    if HasDiff(xs) {
      return xs;
    }
    var toggles := Toggles([], []);
    var latestMailboxes: Option<seq<string>> := None;
    var sawKeywords := false;
    for i := 0 to |xs|
      invariant Merged(toggles, latestMailboxes) == Merge(xs[..i])
      invariant !sawKeywords ==> toggles == Toggles([], [])
    {
      assert xs[..i + 1][..i] == xs[..i];
      match xs[i]
      case SetKeywords(add, remove) =>
        sawKeywords := true;
        toggles := ToggleEach(toggles, add, remove);
      case ReplaceMailboxes(ids) =>
        latestMailboxes := Some(ids);
      case _ =>
        assert false;
    }
    assert xs[..|xs|] == xs;
    r := [];
    if sawKeywords && (toggles.added != [] || toggles.removed != []) {
      r := r + [SetKeywords(toggles.added, toggles.removed)];
    }
    if latestMailboxes.Some? {
      r := r + [ReplaceMailboxes(latestMailboxes.value)];
    }
  }

  // ---------------------------------------------------------------------------------------
  // The accumulator holds exactly the last writes
  // ---------------------------------------------------------------------------------------

  function ToggleWrite(t: Toggles, k: string): Write {
    if k in t.removed then Written(false) else if k in t.added then Written(true) else Untouched
  }

  function MailboxesWrite(replaced: Option<seq<string>>, m: string): Write {
    if replaced.Some? then Written(m in replaced.value) else Untouched
  }

  lemma {:induction false} ToggleAddsMeaning(t: Toggles, ks: seq<string>)
    requires Disjoint(t)
    ensures Disjoint(ToggleAdds(t, ks))
    ensures forall k :: ToggleWrite(ToggleAdds(t, ks), k) == if k in ks then Written(true) else ToggleWrite(t, k)
  {
    if ks != [] {
      var n := |ks| - 1;
      assert ks == ks[..n] + [ks[n]];
      ToggleAddsMeaning(t, ks[..n]);
    }
  }

  lemma {:induction false} ToggleRemovesMeaning(t: Toggles, ks: seq<string>)
    requires Disjoint(t)
    ensures Disjoint(ToggleRemoves(t, ks))
    ensures forall k :: ToggleWrite(ToggleRemoves(t, ks), k) == if k in ks then Written(false) else ToggleWrite(t, k)
  {
    if ks != [] {
      var n := |ks| - 1;
      assert ks == ks[..n] + [ks[n]];
      ToggleRemovesMeaning(t, ks[..n]);
    }
  }

  predicate Plain(xs: seq<Assertion>) {
    forall i :: 0 <= i < |xs| ==> xs[i].SetKeywords? || xs[i].ReplaceMailboxes?
  }

  lemma {:induction false} MergeMeaning(xs: seq<Assertion>)
    requires Plain(xs)
    ensures Disjoint(Merge(xs).toggles)
    ensures forall k :: ToggleWrite(Merge(xs).toggles, k) == LastKeyword(xs, k)
    ensures forall m :: LastMailbox(xs, m) == MailboxesWrite(Merge(xs).mailboxes, m)
  {
    if xs != [] {
      var n := |xs| - 1;
      MergeMeaning(xs[..n]);
      if xs[n].SetKeywords? {
        var t := Merge(xs[..n]).toggles;
        ToggleAddsMeaning(t, xs[n].add);
        ToggleRemovesMeaning(ToggleAdds(t, xs[n].add), xs[n].remove);
      }
    }
  }

  lemma PlainUnlessSpecial(xs: seq<Assertion>)
    ensures Destroy !in xs && !HasDiff(xs) <==> Plain(xs)
  {
  }

  lemma EmitWrites(m: Merged)
    ensures Plain(Emit(m)) && Destroy !in Emit(m)
    ensures forall k :: LastKeyword(Emit(m), k) == ToggleWrite(m.toggles, k)
    ensures forall k :: LastMailbox(Emit(m), k) == MailboxesWrite(m.mailboxes, k)
  {
    var e := Emit(m);
    forall k ensures LastKeyword(e, k) == ToggleWrite(m.toggles, k) && LastMailbox(e, k) == MailboxesWrite(m.mailboxes, k) {
      if |e| == 2 {
        assert e[..1] == [e[0]];
        LastWriteOfOne(e[0], k);
      } else if |e| == 1 {
        assert e == [e[0]];
        LastWriteOfOne(e[0], k);
      }
    }
  }

  lemma LastWriteOfOne(a: Assertion, k: string)
    ensures LastKeyword([a], k) == KeywordWrite(a, k)
    ensures LastMailbox([a], k) == MailboxWrite(a, k)
  {
    var one := [a];
    assert one[..|one| - 1] == [];
  }

  /** The coalesced list folds to what the original folds to, over every base. */
  lemma CoalescePreservesMeaning(xs: seq<Assertion>, base: FoldState)
    ensures SameOutcome(Replay(base, Coalesce(xs)), Replay(base, xs))
  {
    ReplayPointwise(base, xs);
    ReplayPointwise(base, Coalesce(xs));
    if Destroy !in xs && !HasDiff(xs) {
      MergeMeaning(xs);
      EmitWrites(Merge(xs));
      SameStatePointwise(Replay(base, Coalesce(xs)).state, Replay(base, xs).state);
    }
  }

  // ---------------------------------------------------------------------------------------
  // Shape, idempotence, minimality
  // ---------------------------------------------------------------------------------------

  lemma {:induction false} TogglesRebuild(a: seq<string>, r: seq<string>)
    requires Disjoint(Toggles(a, r))
    ensures ToggleAdds(Toggles([], []), a) == Toggles(a, [])
    ensures ToggleRemoves(Toggles(a, []), r) == Toggles(a, r)
    decreases |a| + |r|
  {
    if r != [] {
      var n := |r| - 1;
      assert r == r[..n] + [r[n]];
      TogglesRebuild(a, r[..n]);
    } else if a != [] {
      var n := |a| - 1;
      assert a == a[..n] + [a[n]];
      TogglesRebuild(a[..n], []);
    }
  }

  /** The coalesced list is at most one keyword edit, whose two lists are disjoint and free of
      duplicates, followed by at most one mailbox replace; or a lone destroy. */
  lemma CoalesceShape(xs: seq<Assertion>)
    requires Destroy in xs || !HasDiff(xs)
    ensures |Coalesce(xs)| <= 2
    ensures forall i :: 0 <= i < |Coalesce(xs)| && Coalesce(xs)[i].SetKeywords? ==>
      i == 0 && Disjoint(Toggles(Coalesce(xs)[i].add, Coalesce(xs)[i].remove))
    ensures forall i :: 0 <= i < |Coalesce(xs)| && Coalesce(xs)[i].ReplaceMailboxes? ==> i == |Coalesce(xs)| - 1
    ensures Destroy in xs <==> Coalesce(xs) == [Destroy]
  {
    if Destroy !in xs {
      MergeMeaning(xs);
      EmitWrites(Merge(xs));
    }
  }

  lemma MergeOfOne(a: Assertion)
    ensures Merge([a]) == MergeOne(Merged(Toggles([], []), None), a)
  {
    var one := [a];
    assert one[..|one| - 1] == [];
  }

  lemma MergeRebuilds(m: Merged)
    requires Disjoint(m.toggles)
    ensures Merge(Emit(m)) == m
  {
    var t, e := m.toggles, Emit(m);
    TogglesRebuild(t.added, t.removed);
    var edited := Merged(t, None);
    if t != Toggles([], []) {
      MergeOfOne(SetKeywords(t.added, t.removed));
      assert Merge([SetKeywords(t.added, t.removed)]) == edited;
      if |e| == 2 {
        assert e[..1] == [SetKeywords(t.added, t.removed)];
        assert Merge(e) == MergeOne(edited, e[1]);
      }
    } else if m.mailboxes.Some? {
      MergeOfOne(ReplaceMailboxes(m.mailboxes.value));
    }
  }

  /** Coalescing twice is exactly coalescing once: same assertions, same lists, same order. */
  lemma CoalesceIdempotent(xs: seq<Assertion>)
    ensures Coalesce(Coalesce(xs)) == Coalesce(xs)
  {
    if Destroy !in xs && !HasDiff(xs) {
      MergeMeaning(xs);
      EmitWrites(Merge(xs));
      PlainUnlessSpecial(Coalesce(xs));
      MergeRebuilds(Merge(xs));
    }
  }

  /** Two lists are equivalent when no base tells them apart. */
  ghost predicate Equivalent(xs: seq<Assertion>, ys: seq<Assertion>) {
    forall base :: SameOutcome(Replay(base, xs), Replay(base, ys))
  }

  ghost predicate SameWrites(xs: seq<Assertion>, ys: seq<Assertion>) {
    forall k :: LastKeyword(xs, k) == LastKeyword(ys, k) && LastMailbox(xs, k) == LastMailbox(ys, k)
  }

  /** What a list means to all bases together: whether it destroys, and what it last writes to each
      keyword and each mailbox. */
  lemma EquivalentIff(xs: seq<Assertion>, ys: seq<Assertion>)
    ensures Equivalent(xs, ys) <==>
      (Destroy in xs && Destroy in ys) || (Destroy !in xs && Destroy !in ys && SameWrites(xs, ys))
  {
    if Equivalent(xs, ys) {
      TellsApart(xs, ys, "");
      if Destroy !in xs {
        forall k ensures LastKeyword(xs, k) == LastKeyword(ys, k) && LastMailbox(xs, k) == LastMailbox(ys, k) {
          TellsApart(xs, ys, k);
        }
      }
    }
    if (Destroy in xs && Destroy in ys) || (Destroy !in xs && Destroy !in ys && SameWrites(xs, ys)) {
      forall base ensures SameOutcome(Replay(base, xs), Replay(base, ys)) {
        ReplayPointwise(base, xs);
        ReplayPointwise(base, ys);
        if Destroy !in xs {
          SameStatePointwise(Replay(base, xs).state, Replay(base, ys).state);
        }
      }
    }
  }

  // Two bases are enough to read off what a list last writes to a name: one without it, one with it.
  lemma TellsApart(xs: seq<Assertion>, ys: seq<Assertion>, k: string)
    requires Equivalent(xs, ys)
    ensures Destroy in xs <==> Destroy in ys
    ensures Destroy !in xs ==> LastKeyword(xs, k) == LastKeyword(ys, k) && LastMailbox(xs, k) == LastMailbox(ys, k)
  {
    hide LastKeyword, LastMailbox;
    var without, with_ := FoldState([], []), FoldState([k], [k]);
    assert SameOutcome(Replay(without, xs), Replay(without, ys));
    assert SameOutcome(Replay(with_, xs), Replay(with_, ys));
    ReplayPointwise(without, xs);
    ReplayPointwise(without, ys);
    ReplayPointwise(with_, xs);
    ReplayPointwise(with_, ys);
    if Destroy !in xs {
      SameStatePointwise(Replay(without, xs).state, Replay(without, ys).state);
      SameStatePointwise(Replay(with_, xs).state, Replay(with_, ys).state);
    }
  }

  function Lengths(list: seq<string>): nat {
    if list == [] then 0 else |list[0]| + Lengths(list[1..])
  }

  lemma {:induction false} LengthsBound(list: seq<string>, k: string)
    requires k in list
    ensures |k| <= Lengths(list)
  {
    if k != list[0] {
      LengthsBound(list[1..], k);
    }
  }

  /** A name that occurs in neither list. */
  lemma FreshName(list: seq<string>, other: seq<string>) returns (k: string)
    ensures k !in list && k !in other
  {
    k := seq(Lengths(list) + Lengths(other) + 1, _ => 'x');
    if k in list { LengthsBound(list, k); }
    if k in other { LengthsBound(other, k); }
  }

  // The names a list mentions, and of those the ones it last adds, or last removes.

  function NamedKeywords(a: Assertion): (r: seq<string>)
    ensures forall k :: k in r <==> KeywordWrite(a, k).Written?
  {
    match a
    case SetKeywords(add, remove) => add + remove
    case ApplyDiff(d) => d.keywords.added + d.keywords.removed
    case _ => []
  }

  function NamedMailboxes(a: Assertion): (r: seq<string>)
    ensures forall m :: m in r ==> MailboxWrite(a, m).Written?
    ensures forall m :: MailboxWrite(a, m).Written? ==> a.ReplaceMailboxes? || m in r
    ensures forall m :: MailboxWrite(a, m) == Written(true) ==> m in r
  {
    match a
    case ReplaceMailboxes(ids) => ids
    case ApplyDiff(d) => d.mailboxes.added + d.mailboxes.removed
    case _ => []
  }

  function KeywordNames(xs: seq<Assertion>): seq<string> {
    if xs == [] then [] else KeywordNames(xs[..|xs| - 1]) + NamedKeywords(xs[|xs| - 1])
  }

  function MailboxNames(xs: seq<Assertion>): seq<string> {
    if xs == [] then [] else MailboxNames(xs[..|xs| - 1]) + NamedMailboxes(xs[|xs| - 1])
  }

  predicate HasReplace(xs: seq<Assertion>) {
    exists i :: 0 <= i < |xs| && xs[i].ReplaceMailboxes?
  }

  lemma HasReplacePlus(xs: seq<Assertion>)
    requires xs != []
    ensures HasReplace(xs) <==> HasReplace(xs[..|xs| - 1]) || xs[|xs| - 1].ReplaceMailboxes?
  {
    assert forall i :: 0 <= i < |xs| - 1 ==> xs[..|xs| - 1][i] == xs[i];
  }

  lemma {:induction false} NamesCoverWrites(xs: seq<Assertion>, k: string)
    ensures LastKeyword(xs, k).Written? <==> k in KeywordNames(xs)
    ensures LastMailbox(xs, k).Written? <==> HasReplace(xs) || k in MailboxNames(xs)
    ensures LastMailbox(xs, k) == Written(true) ==> k in MailboxNames(xs)
  {
    if xs != [] {
      hide NamedKeywords, NamedMailboxes, KeywordWrite, HasReplace;
      HasReplacePlus(xs);
      NamesCoverWrites(xs[..|xs| - 1], k);
      assert xs[|xs| - 1].ReplaceMailboxes? ==> MailboxWrite(xs[|xs| - 1], k).Written?;
      hide MailboxWrite;
    }
  }

  function KeywordsWritten(xs: seq<Assertion>, names: seq<string>, present: bool): (r: seq<string>)
    ensures forall k :: k in r <==> k in names && LastKeyword(xs, k) == Written(present)
  {
    if names == [] then []
    else
      var rest := KeywordsWritten(xs, names[1..], present);
      assert names == [names[0]] + names[1..];
      if LastKeyword(xs, names[0]) == Written(present) then [names[0]] + rest else rest
  }

  function MailboxesWritten(xs: seq<Assertion>, names: seq<string>, present: bool): (r: seq<string>)
    ensures forall m :: m in r <==> m in names && LastMailbox(xs, m) == Written(present)
  {
    if names == [] then []
    else
      var rest := MailboxesWritten(xs, names[1..], present);
      assert names == [names[0]] + names[1..];
      if LastMailbox(xs, names[0]) == Written(present) then [names[0]] + rest else rest
  }

  function NetKeywords(xs: seq<Assertion>): Delta {
    Delta(KeywordsWritten(xs, KeywordNames(xs), true), KeywordsWritten(xs, KeywordNames(xs), false))
  }

  function NetMailboxes(xs: seq<Assertion>): Delta {
    Delta(MailboxesWritten(xs, MailboxNames(xs), true), MailboxesWritten(xs, MailboxNames(xs), false))
  }

  /** The length of a shortest list with the meaning of `xs`. */
  function Shortest(xs: seq<Assertion>): nat {
    if Destroy in xs then 1
    else if HasReplace(xs) then if KeywordNames(xs) != [] then 2 else 1
    else if KeywordNames(xs) != [] || MailboxNames(xs) != [] then 1
    else 0
  }

  /** A list of that length: a destroy; or one keyword edit and one replace; or one diff. */
  function Shorten(xs: seq<Assertion>): (r: seq<Assertion>)
    ensures |r| == Shortest(xs)
  {
    var k := NetKeywords(xs);
    if Destroy in xs then [Destroy]
    else if HasReplace(xs) then
      if KeywordNames(xs) != [] then [SetKeywords(k.added, k.removed), ReplaceMailboxes(NetMailboxes(xs).added)]
      else [ReplaceMailboxes(NetMailboxes(xs).added)]
    else if KeywordNames(xs) != [] || MailboxNames(xs) != [] then [ApplyDiff(ChangeDiff(k, NetMailboxes(xs)))]
    else []
  }

  lemma LastWriteOfTwo(a: Assertion, b: Assertion, k: string)
    ensures LastKeyword([a, b], k) == if KeywordWrite(b, k).Written? then KeywordWrite(b, k) else KeywordWrite(a, k)
    ensures LastMailbox([a, b], k) == if MailboxWrite(b, k).Written? then MailboxWrite(b, k) else MailboxWrite(a, k)
  {
    assert [a, b][..1] == [a];
    LastWriteOfOne(a, k);
  }

  lemma ShortenWrites(xs: seq<Assertion>, k: string)
    requires Destroy !in xs
    ensures LastKeyword(Shorten(xs), k) == LastKeyword(xs, k)
    ensures LastMailbox(Shorten(xs), k) == LastMailbox(xs, k)
  {
    hide KeywordNames, MailboxNames, HasReplace;
    NamesCoverWrites(xs, k);
    var r := Shorten(xs);
    if |r| == 1 {
      assert r == [r[0]];
      LastWriteOfOne(r[0], k);
    } else if |r| == 2 {
      assert r == [r[0], r[1]];
      LastWriteOfTwo(r[0], r[1], k);
    }
  }

  /** The length is reached. */
  lemma ShortestIsReached(xs: seq<Assertion>)
    ensures Equivalent(xs, Shorten(xs)) && |Shorten(xs)| == Shortest(xs)
  {
    hide LastKeyword, LastMailbox;
    if Destroy !in xs {
      forall k ensures LastKeyword(Shorten(xs), k) == LastKeyword(xs, k) && LastMailbox(Shorten(xs), k) == LastMailbox(xs, k) {
        ShortenWrites(xs, k);
      }
    }
    EquivalentIff(xs, Shorten(xs));
  }

  // One assertion cannot both write a keyword and write every mailbox.
  lemma OneIsNotBoth(y: Assertion, k: string) returns (m: string)
    requires KeywordWrite(y, k).Written?
    ensures MailboxWrite(y, m) == Untouched
  {
    m := "";
    if y.ApplyDiff? {
      m := FreshName(y.diff.mailboxes.added, y.diff.mailboxes.removed);
    }
  }

  lemma OneIsTooFew(xs: seq<Assertion>, ys: seq<Assertion>, k: string)
    requires HasReplace(xs) && LastKeyword(xs, k).Written? && |ys| == 1
    ensures !SameWrites(xs, ys)
  {
    var y := ys[0];
    assert ys == [y];
    LastWriteOfOne(y, k);
    if KeywordWrite(y, k).Written? {
      var m := OneIsNotBoth(y, k);
      LastWriteOfOne(y, m);
      NamesCoverWrites(xs, m);
    }
  }

  /** And no equivalent list, of any assertions, is shorter than it. */
  lemma ShortestIsLeast(xs: seq<Assertion>, ys: seq<Assertion>)
    requires Equivalent(xs, ys)
    ensures Shortest(xs) <= |ys|
  {
    EquivalentIff(xs, ys);
    if Destroy !in xs && Shortest(xs) > 0 {
      var k := if KeywordNames(xs) != [] then KeywordNames(xs)[0] else if MailboxNames(xs) != [] then MailboxNames(xs)[0] else "";
      NamesCoverWrites(xs, k);
      assert LastKeyword(ys, k).Written? || LastMailbox(ys, k).Written?;
      if Shortest(xs) == 2 && |ys| == 1 {
        OneIsTooFew(xs, ys, k);
      }
    }
  }

  /** Smallest, exactly: coalescing returns a shortest equivalent list if and only if the input
      destroys, holds no diff, or is itself of the shortest length. */
  lemma CoalesceIsSmallestIff(xs: seq<Assertion>)
    ensures (forall ys :: Equivalent(xs, ys) ==> |Coalesce(xs)| <= |ys|) <==>
      Destroy in xs || !HasDiff(xs) || |xs| == Shortest(xs)
  {
    ShortestIsReached(xs);
    forall ys | Equivalent(xs, ys) ensures Shortest(xs) <= |ys| {
      ShortestIsLeast(xs, ys);
    }
    if Destroy !in xs && !HasDiff(xs) {
      PlainCoalescesToShortest(xs);
    }
    assert Equivalent(xs, xs) by {
      EquivalentIff(xs, xs);
    }
  }

  lemma PlainCoalescesToShortest(xs: seq<Assertion>)
    requires Plain(xs)
    ensures |Coalesce(xs)| == Shortest(xs)
  {
    var m := Merge(xs);
    PlainUnlessSpecial(xs);
    MergeMeaning(xs);
    MergedReplace(xs);
    if m.toggles != Toggles([], []) {
      var k := if m.toggles.added != [] then m.toggles.added[0] else m.toggles.removed[0];
      assert ToggleWrite(m.toggles, k).Written?;
      NamesCoverWrites(xs, k);
    }
    if KeywordNames(xs) != [] {
      NamesCoverWrites(xs, KeywordNames(xs)[0]);
    }
  }

  lemma {:induction false} MergedReplace(xs: seq<Assertion>)
    requires Plain(xs)
    ensures Merge(xs).mailboxes.Some? <==> HasReplace(xs)
    ensures !HasReplace(xs) ==> MailboxNames(xs) == []
  {
    if xs != [] {
      var n := |xs| - 1;
      assert forall i :: 0 <= i < n ==> xs[..n][i] == xs[i];
      MergedReplace(xs[..n]);
    }
  }

  /** Without a diff, then, no equivalent list of any assertions at all is shorter. */
  lemma CoalesceIsSmallest(xs: seq<Assertion>, ys: seq<Assertion>)
    requires Destroy in xs || !HasDiff(xs)
    requires Equivalent(xs, ys)
    ensures |Coalesce(xs)| <= |ys|
  {
    CoalesceIsSmallestIff(xs);
  }

  /** With diffs the documentation's "smallest" can fail: the same diff twice is returned as it
      stands, though once means the same. */
  lemma DiffsAreNotSmallest(d: ChangeDiff)
    ensures Equivalent([ApplyDiff(d), ApplyDiff(d)], [ApplyDiff(d)])
    ensures Coalesce([ApplyDiff(d), ApplyDiff(d)]) == [ApplyDiff(d), ApplyDiff(d)]
  {
    var x := ApplyDiff(d);
    assert [x, x][0].ApplyDiff?;
    forall k ensures LastKeyword([x, x], k) == LastKeyword([x], k) && LastMailbox([x, x], k) == LastMailbox([x], k) {
      LastWriteOfTwo(x, x, k);
      LastWriteOfOne(x, k);
    }
    EquivalentIff([x, x], [x]);
  }
}
