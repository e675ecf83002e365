/** What holds of the convergence engine over whole runs: its invariant, invisible retirement,
    the version gate, and views that do not move while the base catches up. */
module ReplicaRuns {
  import opened Wrappers
  import opened MessageFold
  import opened Replica

  datatype Op =
    | SetBase(key: string, state: FoldState)
    | RemoveBase(key: string)
    | RemoveOn(key: string)
    | Drop(id: string)
    | AcceptOp(m: Pending, version: Option<nat>)
    | SettleOp(id: string, outcome: Settlement)
    | MarkConfirmed(id: string)
    | RetireOn(key: string, current: Option<nat>)

  function Step(s: Store, op: Op): Store {
    match op
    case SetBase(key, state) => s.(base := s.base[key := state])
    case RemoveBase(key) => s.(base := s.base - {key})
    case RemoveOn(key) => RemovePending(s, key)
    case Drop(id) => Forget(s, {id})
    case AcceptOp(m, version) => AcceptAt(s, m, version)
    case SettleOp(id, outcome) => Settle(s, id, outcome)
    case MarkConfirmed(id) => s.(confirmed := s.confirmed + {id})
    case RetireOn(key, current) => Retire(s, key, current)
  }

  function Run(s: Store, ops: seq<Op>): Store {
    if ops == [] then s else Step(Run(s, ops[..|ops| - 1]), ops[|ops| - 1])
  }

  // ---------------------------------------------------------------------------------------
  // The invariant
  // ---------------------------------------------------------------------------------------

  /** Pending ids are distinct, and a version is recorded only for a pending id. */
  ghost predicate Valid(s: Store) {
    UniqueIds(s.pending) && s.acceptedAt.Keys <= Ids(s.pending)
  }

  lemma {:induction false} DroppingUnique(ops: seq<Pending>, gone: set<string>)
    requires UniqueIds(ops)
    ensures UniqueIds(Dropping(ops, gone))
  {
    if ops != [] {
      var n := |ops| - 1;
      DroppingUnique(ops[..n], gone);
      var d := Dropping(ops[..n], gone);
      forall i | 0 <= i < |d| ensures d[i].id != ops[n].id {
        assert d[i] in d;
        assert d[i] in ops[..n];
      }
    }
  }

  lemma ForgetValid(s: Store, gone: set<string>)
    requires Valid(s)
    ensures Valid(Forget(s, gone))
  {
    DroppingUnique(s.pending, gone);
    forall id | id in s.acceptedAt && id !in gone ensures id in Ids(Dropping(s.pending, gone)) {
      assert id in Ids(s.pending);
      var op :| op in s.pending && op.id == id;
      assert op in Dropping(s.pending, gone);
    }
  }

  lemma AcceptValid(s: Store, m: Pending, version: Option<nat>)
    requires Valid(s)
    ensures Valid(AcceptAt(s, m, version))
  {
    var s' := AcceptAt(s, m, version);
    if m.id !in Ids(s.pending) {
      forall i | 0 <= i < |s.pending| ensures s.pending[i].id != m.id {
        assert s.pending[i] in s.pending;
      }
      assert m in s'.pending;
      forall id | id in Ids(s.pending) ensures id in Ids(s'.pending) {
        var op :| op in s.pending && op.id == id;
        assert op in s'.pending;
      }
    }
  }

  lemma StepValid(s: Store, op: Op)
    requires Valid(s)
    ensures Valid(Step(s, op))
  {
    match op
    case AcceptOp(m, version) => AcceptValid(s, m, version);
    case RemoveOn(key) => ForgetValid(s, Ids(OnKey(s.pending, key)));
    case Drop(id) => ForgetValid(s, {id});
    case RetireOn(key, current) => ForgetValid(s, AsIds(RetiredIds(s, key, current)));
    case SettleOp(id, outcome) =>
      if outcome == Failed {
        ForgetValid(s, {id});
      } else if id in Ids(s.pending) {
        var c := s.(confirmed := s.confirmed + {id});
        ForgetValid(c, AsIds(RetiredIds(c, KeyOf(s.pending, id), None)));
      }
    case _ =>
  }

  /** Every reachable engine state is valid. */
  lemma {:induction false} RunValid(s: Store, ops: seq<Op>)
    requires Valid(s)
    ensures Valid(Run(s, ops))
  {
    if ops != [] {
      RunValid(s, ops[..|ops| - 1]);
      StepValid(Run(s, ops[..|ops| - 1]), ops[|ops| - 1]);
    }
  }

  // ---------------------------------------------------------------------------------------
  // Retirement never changes the view
  // ---------------------------------------------------------------------------------------

  /** One key's ops with the retired ones left out. */
  function Kept(base: FoldState, ops: seq<Pending>, may: set<string>): (r: seq<Pending>)
    ensures forall op :: op in r ==> op in ops
  {
    if ops == [] then []
    else
      var n := |ops| - 1;
      if ops[n].id in may && Absorbed(RunningAfter(base, ops[..n]), ops[n].effect) then Kept(base, ops[..n], may)
      else Kept(base, ops[..n], may) + [ops[n]]
  }

  lemma ReplayEffectsAppend(base: FoldState, ops: seq<Pending>, op: Pending)
    ensures Replay(base, Effects(ops + [op])) == ApplyTo(Replay(base, Effects(ops)), op.effect)
  {
    EffectsAppend(ops, op);
    var xs := Effects(ops);
    assert (xs + [op.effect])[..|xs|] == xs;
  }

  lemma ApplyCongruence(s: FoldState, t: FoldState, a: Assertion)
    requires SameState(s, t)
    ensures SameOutcome(Apply(s, a), Apply(t, a))
  {
    FoldCongruence(s, t, [a]);
    ReplaySingle(s, a);
    ReplaySingle(t, a);
  }

  /** One step of the walk against one step of any fold that agrees with it so far. */
  lemma AdvanceAgrees(o: Outcome<FoldState>, running: FoldState, a: Assertion)
    requires SameOutcome(o, Present(running)) && !a.Destroy?
    ensures SameOutcome(ApplyTo(o, a), Present(Advance(running, a)))
    ensures Absorbed(running, a) ==> SameOutcome(o, Present(Advance(running, a)))
  {
    ApplyCongruence(o.state, running, a);
  }

  /** Without a destroy, the walk's running state, the whole fold and the fold of what is kept
      all agree. */
  lemma {:induction false} WalkKeepsFold(base: FoldState, ops: seq<Pending>, may: set<string>)
    requires Destroy !in Effects(ops)
    ensures SameOutcome(Replay(base, Effects(ops)), Present(RunningAfter(base, ops)))
    ensures SameOutcome(Replay(base, Effects(Kept(base, ops, may))), Present(RunningAfter(base, ops)))
  {
    if ops == [] {
      assert Effects(ops) == [];
    } else {
      var p, op := ops[..|ops| - 1], ops[|ops| - 1];
      assert ops == p + [op];
      EffectsAppend(p, op);
      assert op.effect in Effects(ops);
      WalkKeepsFold(base, p, may);
      WalkStep(base, p, op, may);
      ReplayEffectsAppend(base, p, op);
      ReplayEffectsAppend(base, Kept(base, p, may), op);
      AdvanceAgrees(Replay(base, Effects(p)), RunningAfter(base, p), op.effect);
      AdvanceAgrees(Replay(base, Effects(Kept(base, p, may))), RunningAfter(base, p), op.effect);
      assert Kept(base, ops, may) == Kept(base, p, may) || Kept(base, ops, may) == Kept(base, p, may) + [op];
    }
  }

  /** A destroy is never absorbed, so it is never retired while the message has a base. */
  lemma {:induction false} DestroyIsKept(base: FoldState, ops: seq<Pending>, may: set<string>)
    ensures Destroy in Effects(ops) <==> Destroy in Effects(Kept(base, ops, may))
  {
    if ops != [] {
      var n := |ops| - 1;
      assert ops == ops[..n] + [ops[n]];
      DestroyIsKept(base, ops[..n], may);
      EffectsAppend(ops[..n], ops[n]);
      EffectsAppend(Kept(base, ops[..n], may), ops[n]);
    }
  }

  lemma KeptFoldsTheSame(base: FoldState, ops: seq<Pending>, may: set<string>)
    ensures SameOutcome(Replay(base, Effects(Kept(base, ops, may))), Replay(base, Effects(ops)))
  {
    if Destroy in Effects(ops) {
      DestroyIsKept(base, ops, may);
      ReplayPointwise(base, Effects(ops));
      ReplayPointwise(base, Effects(Kept(base, ops, may)));
    } else {
      WalkKeepsFold(base, ops, may);
    }
  }

  lemma {:induction false} DroppingAgrees(ops: seq<Pending>, a: set<string>, b: set<string>)
    requires forall op :: op in ops ==> (op.id in a <==> op.id in b)
    ensures Dropping(ops, a) == Dropping(ops, b)
  {
    if ops != [] {
      assert ops == ops[..|ops| - 1] + [ops[|ops| - 1]];
      DroppingAgrees(ops[..|ops| - 1], a, b);
    }
  }

  /** Dropping the walked ids drops exactly the walked ops, because ids are distinct. */
  lemma {:induction false} DroppingIsKept(base: FoldState, ops: seq<Pending>, may: set<string>)
    requires UniqueIds(ops)
    ensures Dropping(ops, AsIds(Walk(base, ops, may))) == Kept(base, ops, may)
  {
    if ops != [] {
      var n := |ops| - 1;
      var op := ops[n];
      var walked := Walk(base, ops[..n], may);
      assert ops == ops[..n] + [op];
      DroppingIsKept(base, ops[..n], may);
      WalkStep(base, ops[..n], op, may);
      DroppingAppend(ops[..n], op, AsIds(Walk(base, ops, may)));
      EarlierIdsDiffer(ops);
      AddingId(walked, op.id);
      DroppingAgrees(ops[..n], AsIds(walked), AsIds(walked) + {op.id});
      assert op.id !in walked;
    }
  }

  lemma EarlierIdsDiffer(ops: seq<Pending>)
    requires UniqueIds(ops) && ops != []
    ensures forall op :: op in ops[..|ops| - 1] ==> op.id != ops[|ops| - 1].id
    ensures UniqueIds(ops[..|ops| - 1])
  {
  }

  lemma AddingId(ids: seq<string>, id: string)
    ensures AsIds(ids + [id]) == AsIds(ids) + {id}
  {
  }

  lemma {:induction false} OnKeyDropping(ops: seq<Pending>, gone: set<string>, key: string)
    ensures OnKey(Dropping(ops, gone), key) == Dropping(OnKey(ops, key), gone)
  {
    if ops != [] {
      var n := |ops| - 1;
      var op := ops[n];
      assert ops == ops[..n] + [op];
      OnKeyDropping(ops[..n], gone, key);
      DroppingAppend(ops[..n], op, gone);
      OnKeyAppend(ops[..n], op, key);
      OnKeyAppend(Dropping(ops[..n], gone), op, key);
      DroppingAppend(OnKey(ops[..n], key), op, gone);
    }
  }

  lemma {:induction false} OnKeyUnique(ops: seq<Pending>, key: string)
    requires UniqueIds(ops)
    ensures UniqueIds(OnKey(ops, key))
  {
    if ops != [] {
      var n := |ops| - 1;
      OnKeyUnique(ops[..n], key);
      var k := OnKey(ops[..n], key);
      forall i | 0 <= i < |k| ensures k[i].id != ops[n].id {
        assert k[i] in k;
        assert k[i] in ops[..n];
      }
    }
  }

  lemma SameIdSameOp(ops: seq<Pending>, a: Pending, b: Pending)
    requires UniqueIds(ops) && a in ops && b in ops && a.id == b.id
    ensures a == b
  {
  }

  /** A retire call, plain or version-gated at any version, changes no projection of any key and
      touches no op of another key. */
  lemma RetirementIsInvisible(s: Store, retiredKey: string, current: Option<nat>, key: string)
    requires Valid(s)
    ensures SameView(Project(Retire(s, retiredKey, current), key), Project(s, key))
    ensures key != retiredKey ==> OnKey(Retire(s, retiredKey, current).pending, key) == OnKey(s.pending, key)
  {
    var gone := AsIds(RetiredIds(s, retiredKey, current));
    OnKeyDropping(s.pending, gone, key);
    var ops := OnKey(s.pending, key);
    if key != retiredKey {
      forall op | op in ops ensures op.id !in gone {
        forall other | other in OnKey(s.pending, retiredKey) ensures other.id != op.id {
          if other.id == op.id {
            SameIdSameOp(s.pending, op, other);
          }
        }
      }
      DroppingNothing(ops, gone);
      if key in s.base {
        FoldCongruence(s.base[key], s.base[key], Effects(ops));
      }
    } else if key in s.base {
      OnKeyUnique(s.pending, key);
      DroppingIsKept(s.base[key], ops, MayRetire(s, current));
      KeptFoldsTheSame(s.base[key], ops, MayRetire(s, current));
    }
  }

  // ---------------------------------------------------------------------------------------
  // The version gate
  // ---------------------------------------------------------------------------------------

  /** The op sits on `key` and folding it at its position over the key's base changes nothing. */
  ghost predicate AbsorbedInPlace(s: Store, key: string, id: string)
    requires key in s.base
  {
    AbsorbedSomewhere(s.base[key], OnKey(s.pending, key), id)
  }

  ghost predicate AbsorbedAt(base: FoldState, ops: seq<Pending>, i: nat)
    requires i < |ops|
  {
    Absorbed(RunningAfter(base, ops[..i]), ops[i].effect)
  }

  ghost predicate AbsorbedSomewhere(base: FoldState, ops: seq<Pending>, id: string) {
    exists i: nat :: i < |ops| && ops[i].id == id && AbsorbedAt(base, ops, i)
  }

  /** What the walk's running state holds: the last writes of the ops so far, destroys aside. */
  lemma {:induction false} RunningPointwise(base: FoldState, ops: seq<Pending>)
    ensures var s := RunningAfter(base, ops);
      && (forall k :: k in s.keywords <==> After(LastKeyword(Effects(ops), k), k in base.keywords))
      && (forall m :: m in s.mailboxIds <==> After(LastMailbox(Effects(ops), m), m in base.mailboxIds))
  {
    if ops == [] {
      assert Effects(ops) == [];
    } else {
      var p, op := ops[..|ops| - 1], ops[|ops| - 1];
      assert ops == p + [op];
      RunningPointwise(base, p);
      hide Advance, LastKeyword, LastMailbox, Effects;
      EffectsAppend(p, op);
      AbsorbedIff(RunningAfter(base, p), op.effect);
      forall k {
        LastAppend(Effects(p), op.effect, k);
      }
    }
  }

  /** Absorbed in place, read off the outbox and the base: the op is no destroy, and every name it writes
      is already what the ops before it, or else the base, leave it. */
  lemma AbsorbedAtIff(base: FoldState, ops: seq<Pending>, i: nat)
    requires i < |ops|
    ensures AbsorbedAt(base, ops, i) <==>
      var a, before := ops[i].effect, Effects(ops[..i]);
      && !a.Destroy?
      && (forall k :: KeywordWrite(a, k).Written? ==>
            KeywordWrite(a, k).present == After(LastKeyword(before, k), k in base.keywords))
      && (forall m :: MailboxWrite(a, m).Written? ==>
            MailboxWrite(a, m).present == After(LastMailbox(before, m), m in base.mailboxIds))
  {
    RunningPointwise(base, ops[..i]);
    AbsorbedIff(RunningAfter(base, ops[..i]), ops[i].effect);
    hide RunningAfter, Absorbed, LastKeyword, LastMailbox, KeywordWrite, MailboxWrite, Effects;
  }

  lemma AbsorbedSomewhereAppend(base: FoldState, p: seq<Pending>, op: Pending, id: string)
    ensures AbsorbedSomewhere(base, p + [op], id) <==>
      AbsorbedSomewhere(base, p, id) || (op.id == id && Absorbed(RunningAfter(base, p), op.effect))
  {
    var ops := p + [op];
    assert ops[..|p|] == p;
    assert AbsorbedAt(base, ops, |p|) == Absorbed(RunningAfter(base, p), op.effect);
    if AbsorbedSomewhere(base, p, id) {
      var i: nat :| i < |p| && p[i].id == id && AbsorbedAt(base, p, i);
      assert ops[..i] == p[..i];
      assert AbsorbedAt(base, ops, i);
    }
    if AbsorbedSomewhere(base, ops, id) {
      var i: nat :| i < |ops| && ops[i].id == id && AbsorbedAt(base, ops, i);
      if i < |p| {
        assert ops[..i] == p[..i];
        assert AbsorbedAt(base, p, i);
      }
    }
  }

  /** The walk retires exactly the allowed ops that are absorbed at their position. */
  lemma {:induction false} WalkedIff(base: FoldState, ops: seq<Pending>, may: set<string>, id: string)
    ensures id in Walk(base, ops, may) <==> id in may && AbsorbedSomewhere(base, ops, id)
  {
    if ops != [] {
      var p, op := ops[..|ops| - 1], ops[|ops| - 1];
      assert ops == p + [op];
      WalkedIff(base, p, may, id);
      WalkStep(base, p, op, may);
      AbsorbedSomewhereAppend(base, p, op, id);
    }
  }

  // What a confirmation of `settled` asks of the op it removes.
  ghost predicate Goes(s: Store, key: string, id: string, settled: string) {
    (id in s.confirmed || id == settled) && id !in s.acceptedAt && MootOrAbsorbed(s, key, id)
  }

  /** The ways a pending op may leave the outbox in one step. */
  ghost predicate MayLeave(s: Store, op: Op, id: string) {
    match op
    case Drop(dropped) => dropped == id
    case RemoveOn(key) => id in Ids(OnKey(s.pending, key))
    case SettleOp(settled, outcome) =>
      if outcome == Failed then settled == id
      else settled in Ids(s.pending) && Goes(s, KeyOf(s.pending, settled), id, settled)
    case RetireOn(key, current) =>
      && id in s.confirmed
      && (id in s.acceptedAt ==> current.Some? && current.value > s.acceptedAt[id])
      && MootOrAbsorbed(s, key, id)
    case _ => false
  }

  ghost predicate MootOrAbsorbed(s: Store, key: string, id: string) {
    id in Ids(OnKey(s.pending, key)) && (key !in s.base || AbsorbedInPlace(s, key, id))
  }

  /** A retire call removes a pending op of its key exactly when the op is confirmed, its gate is
      open, and its effect is absorbed in place or the base is gone. */
  lemma RetiresExactly(s: Store, key: string, current: Option<nat>, id: string)
    requires id in Ids(s.pending)
    ensures id !in Ids(Retire(s, key, current).pending) <==>
      id in s.confirmed && GateOpen(s, id, current) && MootOrAbsorbed(s, key, id)
  {
    var retired := RetiredIds(s, key, current);
    if id !in retired {
      StaysListed(s.pending, AsIds(retired), id);
    }
    if key in s.base {
      WalkedIff(s.base[key], OnKey(s.pending, key), MayRetire(s, current), id);
    }
  }

  lemma AcceptKeeps(s: Store, m: Pending, version: Option<nat>, id: string)
    requires id in Ids(s.pending)
    ensures id in Ids(AcceptAt(s, m, version).pending)
  {
    var held :| held in s.pending && held.id == id;
    assert held in AcceptAt(s, m, version).pending;
  }

  lemma ForgottenIff(s: Store, gone: set<string>, id: string)
    requires id in Ids(s.pending)
    ensures id !in Ids(Forget(s, gone).pending) <==> id in gone
  {
    if id !in gone {
      StaysListed(s.pending, gone, id);
    }
  }

  /** A confirmation removes a pending op exactly when a plain retire would, with the named op
      confirmed too. */
  lemma ConfirmationRemoves(s: Store, settled: string, id: string)
    requires id in Ids(s.pending) && settled in Ids(s.pending)
    ensures id !in Ids(Settle(s, settled, Confirmed).pending) <==> Goes(s, KeyOf(s.pending, settled), id, settled)
  {
    hide AbsorbedSomewhere, OnKey, Ids, KeyOf, Retire;
    var c := s.(confirmed := s.confirmed + {settled});
    RetiresExactly(c, KeyOf(s.pending, settled), None, id);
  }

  /** The gate, step by step: an op leaves if and only if it is dropped, its entity is removed, it
      failed, or it is retired while confirmed, its gate open, and its effect absorbed or its base gone. */
  lemma LeavesOnlyThroughGate(s: Store, op: Op, id: string)
    requires id in Ids(s.pending)
    ensures id !in Ids(Step(s, op).pending) <==> MayLeave(s, op, id)
  {
    match op
    case RetireOn(key, current) => RetiresExactly(s, key, current, id);
    case Drop(dropped) => ForgottenIff(s, {dropped}, id);
    case RemoveOn(key) => ForgottenIff(s, Ids(OnKey(s.pending, key)), id);
    case AcceptOp(m, version) =>
      AcceptKeeps(s, m, version, id);
    case SettleOp(settled, outcome) =>
      if outcome == Failed {
        ForgottenIff(s, {settled}, id);
      } else if settled in Ids(s.pending) {
        ConfirmationRemoves(s, settled, id);
      }
    case _ =>
  }

  /** The gate, over a run: if an op pending at the start is not pending at the end, some step of
      the run removed it, and did so in one of those ways. */
  lemma {:induction false} LeavingHasACause(s: Store, ops: seq<Op>, id: string) returns (i: nat)
    requires id in Ids(s.pending) && id !in Ids(Run(s, ops).pending)
    ensures i < |ops| && id in Ids(Run(s, ops[..i]).pending) && MayLeave(Run(s, ops[..i]), ops[i], id)
    ensures id !in Ids(Run(s, ops[..i + 1]).pending)
  {
    hide Step, MayLeave, Ids;
    var n := |ops| - 1;
    assert ops[..n + 1] == ops;
    if id in Ids(Run(s, ops[..n]).pending) {
      i := n;
      LeavesOnlyThroughGate(Run(s, ops[..n]), ops[n], id);
    } else {
      i := LeavingHasACause(s, ops[..n], id);
      assert ops[..n][..i] == ops[..i] && ops[..n][..i + 1] == ops[..i + 1];
    }
  }

  // ---------------------------------------------------------------------------------------
  // The retired flag
  // ---------------------------------------------------------------------------------------

  lemma SomeoneLeft(s: Store, gone: set<string>)
    ensures Forget(s, gone).pending != s.pending <==> exists id :: id in Ids(s.pending) && id !in Ids(Forget(s, gone).pending)
  {
    DroppingShortens(s.pending, gone);
    if op :| op in s.pending && op.id in gone {
      ForgottenIff(s, gone, op.id);
    }
    if id :| id in Ids(s.pending) && id !in Ids(Forget(s, gone).pending) {
      assert Forget(s, gone).pending != s.pending;
    }
  }

  /** The `retired` flag of a settlement is documented as "the op with that id was removed".  On a
      confirmation it is raised when any op of the key was.  The two agree if and only if the named op
      goes, or nothing of the key does; both are read off the store before the call. */
  lemma RetiredFlagIff(s: Store, id: string)
    requires id in Ids(s.pending)
    ensures var key := KeyOf(s.pending, id);
      var after := Settle(s, id, Confirmed).pending;
      && (after != s.pending <==> exists x :: x in Ids(s.pending) && Goes(s, key, x, id))
      && ((after != s.pending <==> id !in Ids(after)) <==>
            Goes(s, key, id, id) || forall x :: x in Ids(s.pending) && x != id ==> !Goes(s, key, x, id))
  {
    var key := KeyOf(s.pending, id);
    var c := s.(confirmed := s.confirmed + {id});
    var gone := AsIds(RetiredIds(c, key, None));
    var after := Settle(s, id, Confirmed).pending;
    assert after == Forget(c, gone).pending;
    SomeoneLeft(c, gone);
    forall x | x in Ids(s.pending) ensures x !in Ids(after) <==> Goes(s, key, x, id) {
      ConfirmationRemoves(s, id, x);
    }
    hide *;
  }

  /** A store on which they differ: a confirmation retires an earlier op of the message and leaves
      its own. */
  lemma RetiredFlagIsNotTheNamedOp()
    ensures var a, b := Pending("a", "m", SetKeywords([], ["x"])), Pending("b", "m", SetKeywords(["y"], []));
      var s := Store(map["m" := FoldState([], [])], [a, b], {"a"}, map[]);
      Settle(s, "b", Confirmed).pending == [b]
  {
    var a, b := Pending("a", "m", SetKeywords([], ["x"])), Pending("b", "m", SetKeywords(["y"], []));
    var base := FoldState([], []);
    var s := Store(map["m" := base], [a, b], {"a"}, map[]);
    SameStatePointwise(Apply(base, a.effect).state, base);
    SameStatePointwise(Apply(base, b.effect).state, base);
    assert "y" in Apply(base, b.effect).state.keywords;
    assert b in s.pending && KeyOf(s.pending, "b") == "m";
    FirstAbsorbedOnly(s.(confirmed := s.confirmed + {"b"}), a, b, "m");
  }

  lemma WalkOfTwo(base: FoldState, a: Pending, b: Pending, may: set<string>)
    requires a.id in may && Absorbed(base, a.effect) && !Absorbed(base, b.effect)
    ensures Walk(base, [a] + [b], may) == [a.id]
  {
    hide Absorbed, Walk;
    assert [] + [a] == [a];
    WalkStep(base, [], a, may);
    WalkStep(base, [a], b, may);
    WalkOfNone(base, may);
  }

  lemma WalkOfNone(base: FoldState, may: set<string>)
    ensures Walk(base, [], may) == [] && RunningAfter(base, []) == base
  {
  }

  lemma FirstAbsorbedOnly(s: Store, a: Pending, b: Pending, key: string)
    requires key in s.base && s.pending == [a, b] && a.key == b.key == key && a.id != b.id
    requires a.id in s.confirmed && s.acceptedAt == map[]
    requires Absorbed(s.base[key], a.effect) && !Absorbed(s.base[key], b.effect)
    ensures Retire(s, key, None).pending == [b]
  {
    hide Absorbed, Walk, OnKey, Dropping;
    assert s.pending == [a] + [b] && [a] == [] + [a];
    BothOnKey(a, b);
    WalkOfTwo(s.base[key], a, b, MayRetire(s, None));
    assert AsIds(RetiredIds(s, key, None)) == {a.id};
    SecondStays(a, b);
  }

  lemma BothOnKey(a: Pending, b: Pending)
    requires a.key == b.key
    ensures OnKey([a] + [b], a.key) == [a] + [b]
  {
    assert [] + [a] == [a];
    OnKeyAppend([], a, a.key);
    OnKeyAppend([a], b, a.key);
  }

  lemma SecondStays(a: Pending, b: Pending)
    requires a.id != b.id
    ensures Dropping([a] + [b], {a.id}) == [b]
  {
    assert [] + [a] == [a];
    DroppingAppend([], a, {a.id});
    DroppingAppend([a], b, {a.id});
  }

  // ---------------------------------------------------------------------------------------
  // Pending is a subsequence of accept order
  // ---------------------------------------------------------------------------------------

  ghost predicate Subsequence(a: seq<Pending>, b: seq<Pending>) {
    if a == [] then true
    else if b == [] then false
    else
      || (a[|a| - 1] == b[|b| - 1] && Subsequence(a[..|a| - 1], b[..|b| - 1]))
      || Subsequence(a, b[..|b| - 1])
  }

  /** Every mutation the run actually appended, in the order it was accepted. */
  function AcceptLog(s: Store, ops: seq<Op>): seq<Pending> {
    if ops == [] then []
    else
      var n := |ops| - 1;
      var op := ops[n];
      if op.AcceptOp? && op.m.id !in Ids(Run(s, ops[..n]).pending) then AcceptLog(s, ops[..n]) + [op.m]
      else AcceptLog(s, ops[..n])
  }

  lemma {:induction false} SubsequenceDropping(a: seq<Pending>, gone: set<string>, b: seq<Pending>)
    requires Subsequence(a, b)
    ensures Subsequence(Dropping(a, gone), b)
    decreases |b|
  {
    if a != [] {
      if a[|a| - 1] == b[|b| - 1] && Subsequence(a[..|a| - 1], b[..|b| - 1]) {
        SubsequenceDropping(a[..|a| - 1], gone, b[..|b| - 1]);
        var d := Dropping(a[..|a| - 1], gone);
        var last := a[|a| - 1];
        assert (d + [last])[..|d|] == d;
        if last.id in gone {
          assert Dropping(a, gone) == d;
        }
      } else {
        SubsequenceDropping(a, gone, b[..|b| - 1]);
      }
    }
  }

  lemma SubsequenceAppend(a: seq<Pending>, b: seq<Pending>, m: Pending)
    requires Subsequence(a, b)
    ensures Subsequence(a + [m], b + [m])
  {
    assert (a + [m])[..|a|] == a && (b + [m])[..|b|] == b;
  }

  lemma StepFollowsAcceptOrder(s: Store, op: Op, log: seq<Pending>)
    requires Subsequence(s.pending, log)
    ensures op.AcceptOp? && op.m.id !in Ids(s.pending) ==> Subsequence(Step(s, op).pending, log + [op.m])
    ensures !(op.AcceptOp? && op.m.id !in Ids(s.pending)) ==> Subsequence(Step(s, op).pending, log)
  {
    hide Subsequence, Dropping, RetiredIds, OnKey;
    match op
    case AcceptOp(m, version) => SubsequenceAppend(s.pending, log, m);
    case RemoveOn(key) => SubsequenceDropping(s.pending, Ids(OnKey(s.pending, key)), log);
    case Drop(id) => SubsequenceDropping(s.pending, {id}, log);
    case RetireOn(key, current) => SubsequenceDropping(s.pending, AsIds(RetiredIds(s, key, current)), log);
    case SettleOp(id, outcome) =>
      if outcome == Failed {
        SubsequenceDropping(s.pending, {id}, log);
      } else if id in Ids(s.pending) {
        var c := s.(confirmed := s.confirmed + {id});
        SubsequenceDropping(s.pending, AsIds(RetiredIds(c, KeyOf(s.pending, id), None)), log);
      }
    case _ =>
  }

  /** The outbox always holds a subsequence of what was accepted, in accept order. */
  lemma {:induction false} PendingFollowsAcceptOrder(ops: seq<Op>)
    ensures Subsequence(Run(EMPTY, ops).pending, AcceptLog(EMPTY, ops))
  {
    if ops != [] {
      var n := |ops| - 1;
      PendingFollowsAcceptOrder(ops[..n]);
      StepFollowsAcceptOrder(Run(EMPTY, ops[..n]), ops[n], AcceptLog(EMPTY, ops[..n]));
    }
  }

  // ---------------------------------------------------------------------------------------
  // No flicker
  // ---------------------------------------------------------------------------------------

  /** The new base is the old one with part of the key's outbox folded in: any part, any order. */
  ghost predicate CatchesUp(s: Store, key: string, state: FoldState) {
    key in s.base && exists q :: Drawn(s, key, q) && SameOutcome(Present(state), Replay(s.base[key], q))
  }

  ghost predicate Drawn(s: Store, key: string, q: seq<Assertion>) {
    forall a :: a in q ==> a in Effects(OnKey(s.pending, key))
  }

  /** The steps of a healthy round trip: confirmations, retirements, redelivered accepts, and
      bases that carry pending effects. */
  ghost predicate Quiet(s: Store, op: Op) {
    match op
    case SetBase(key, state) => CatchesUp(s, key, state)
    case AcceptOp(m, version) => m.id in Ids(s.pending)
    case SettleOp(id, outcome) => outcome == Confirmed || id !in Ids(s.pending)
    case Drop(id) => id !in Ids(s.pending)
    case MarkConfirmed(id) => true
    case RetireOn(key, current) => true
    case _ => false
  }

  lemma SameViewReflexive(s: Store, key: string)
    ensures SameView(Project(s, key), Project(s, key))
  {
    if key in s.base {
      FoldCongruence(s.base[key], s.base[key], Effects(OnKey(s.pending, key)));
    }
  }

  lemma CatchUpKeepsView(s: Store, changed: string, state: FoldState, key: string)
    requires CatchesUp(s, changed, state)
    ensures SameView(Project(Step(s, SetBase(changed, state)), key), Project(s, key))
  {
    if key == changed {
      var xs := Effects(OnKey(s.pending, key));
      var q :| Drawn(s, key, q) && SameOutcome(Present(state), Replay(s.base[key], q));
      CatchUpInvisible(s.base[key], xs, q);
      ReplayPointwise(s.base[key], q);
      FoldCongruence(state, Replay(s.base[key], q).state, xs);
    } else {
      SameViewReflexive(s, key);
    }
  }

  lemma UnknownIdKeepsPending(s: Store, id: string)
    requires id !in Ids(s.pending)
    ensures Forget(s, {id}).pending == s.pending
  {
    forall op | op in s.pending ensures op.id !in {id} {
      assert op.id in Ids(s.pending);
    }
    DroppingNothing(s.pending, {id});
  }

  lemma QuietStepKeepsView(s: Store, op: Op, key: string)
    requires Valid(s) && Quiet(s, op)
    ensures SameView(Project(Step(s, op), key), Project(s, key))
  {
    SameViewReflexive(s, key);
    match op
    case SetBase(changed, state) => CatchUpKeepsView(s, changed, state, key);
    case RetireOn(retired, current) => RetirementIsInvisible(s, retired, current, key);
    case Drop(id) => UnknownIdKeepsPending(s, id);
    case SettleOp(id, outcome) =>
      if id in Ids(s.pending) {
        var c := s.(confirmed := s.confirmed + {id});
        RetirementIsInvisible(c, KeyOf(s.pending, id), None, key);
      } else {
        UnknownIdKeepsPending(s, id);
      }
    case _ =>
  }

  ghost predicate QuietRun(s: Store, ops: seq<Op>) {
    forall i :: 0 <= i < |ops| ==> Quiet(Run(s, ops[..i]), ops[i])
  }

  /** No flicker: over any run of such steps, of any length and interleaving over all keys, what
      the user sees of every message stays the same. */
  lemma {:induction false} QuietRunKeepsView(s: Store, ops: seq<Op>, key: string)
    requires Valid(s) && QuietRun(s, ops)
    ensures SameView(Project(Run(s, ops), key), Project(s, key))
  {
    if ops == [] {
      SameViewReflexive(s, key);
    } else {
      var n := |ops| - 1;
      assert QuietRun(s, ops[..n]) by {
        forall i | 0 <= i < n ensures Quiet(Run(s, ops[..n][..i]), ops[..n][i]) {
          assert ops[..n][..i] == ops[..i];
        }
      }
      QuietRunKeepsView(s, ops[..n], key);
      RunValid(s, ops[..n]);
      QuietStepKeepsView(Run(s, ops[..n]), ops[n], key);
    }
  }
}
