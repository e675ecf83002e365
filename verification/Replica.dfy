/** The convergence engine of a link node over the message fold: a confirmed base, an ordered
    outbox, the confirmed ids and the accept-time versions. What the user sees of a message is
    always the fold of its pending assertions over its base. */
module Replica {
  import opened Wrappers
  import opened MessageFold

  datatype Pending = Pending(id: string, key: string, effect: Assertion)

  datatype Settlement = Confirmed | Failed

  datatype SettlementResult = SettlementResult(retired: bool, reverted: bool)

  // The engine's four fields as one value; the class below is proved against functions on it.
  datatype Store = Store(base: map<string, FoldState>, pending: seq<Pending>,
                         confirmed: set<string>, acceptedAt: map<string, nat>)

  const EMPTY: Store := Store(map[], [], {}, map[])

  // ---------------------------------------------------------------------------------------
  // Reading the outbox
  // ---------------------------------------------------------------------------------------

  function Ids(ops: seq<Pending>): set<string> {
    set op | op in ops :: op.id
  }

  ghost predicate UniqueIds(ops: seq<Pending>) {
    forall i, j :: 0 <= i < j < |ops| ==> ops[i].id != ops[j].id
  }

  function OnKey(ops: seq<Pending>, key: string): (r: seq<Pending>)
    ensures forall op :: op in r <==> op in ops && op.key == key
  {
    if ops == [] then []
    else
      var n := |ops| - 1;
      assert ops == ops[..n] + [ops[n]];
      OnKey(ops[..n], key) + if ops[n].key == key then [ops[n]] else []
  }

  /** `pending.retain(|held| !gone.contains(&held.id))` */
  function Dropping(ops: seq<Pending>, gone: set<string>): (r: seq<Pending>)
    ensures forall op :: op in r <==> op in ops && op.id !in gone
    ensures |r| <= |ops|
  {
    if ops == [] then []
    else
      var n := |ops| - 1;
      assert ops == ops[..n] + [ops[n]];
      Dropping(ops[..n], gone) + if ops[n].id in gone then [] else [ops[n]]
  }

  function Effects(ops: seq<Pending>): (r: seq<Assertion>)
    ensures |r| == |ops|
    ensures forall i :: 0 <= i < |ops| ==> r[i] == ops[i].effect
  {
    seq(|ops|, i requires 0 <= i < |ops| => ops[i].effect)
  }

  function Project(s: Store, key: string): Option<Outcome<FoldState>> {
    if key in s.base then Some(Replay(s.base[key], Effects(OnKey(s.pending, key)))) else None
  }

  predicate SameView(a: Option<Outcome<FoldState>>, b: Option<Outcome<FoldState>>) {
    match (a, b)
    case (Some(x), Some(y)) => SameOutcome(x, y)
    case (None, None) => true
    case _ => false
  }

  // ---------------------------------------------------------------------------------------
  // Retirement
  // ---------------------------------------------------------------------------------------

  /** Folding the assertion over the running state changes nothing. */
  predicate Absorbed(running: FoldState, a: Assertion) {
    var o := Apply(running, a);
    o.Present? && SameState(o.state, running)
  }

  function Advance(running: FoldState, a: Assertion): FoldState {
    if a.Destroy? || Absorbed(running, a) then running else Apply(running, a).state
  }

  function RunningAfter(base: FoldState, ops: seq<Pending>): FoldState {
    if ops == [] then base
    else Advance(RunningAfter(base, ops[..|ops| - 1]), ops[|ops| - 1].effect)
  }

  /** The ids the walk over one key's ops retires, in order: allowed and absorbed in place. */
  function Walk(base: FoldState, ops: seq<Pending>, may: set<string>): (r: seq<string>)
    ensures forall id :: id in r ==> id in may && id in Ids(ops)
  {
    if ops == [] then []
    else
      var n := |ops| - 1;
      assert ops == ops[..n] + [ops[n]];
      Walk(base, ops[..n], may)
      + if ops[n].id in may && Absorbed(RunningAfter(base, ops[..n]), ops[n].effect) then [ops[n].id] else []
  }

  /** With no base left there is nothing to absorb against: every allowed op goes. */
  function AllowedIds(ops: seq<Pending>, may: set<string>): (r: seq<string>)
    ensures forall id :: id in r <==> id in may && id in Ids(ops)
  {
    if ops == [] then []
    else
      var n := |ops| - 1;
      assert ops == ops[..n] + [ops[n]];
      AllowedIds(ops[..n], may) + if ops[n].id in may then [ops[n].id] else []
  }

  predicate GateOpen(s: Store, id: string, current: Option<nat>) {
    id !in s.acceptedAt || (current.Some? && current.value > s.acceptedAt[id])
  }

  function MayRetire(s: Store, current: Option<nat>): set<string> {
    set id | id in s.confirmed && GateOpen(s, id, current)
  }

  function RetiredIds(s: Store, key: string, current: Option<nat>): (r: seq<string>)
    ensures forall id :: id in r ==> id in MayRetire(s, current) && id in Ids(OnKey(s.pending, key))
  {
    var ops, may := OnKey(s.pending, key), MayRetire(s, current);
    if key in s.base then Walk(s.base[key], ops, may) else AllowedIds(ops, may)
  }

  function Forget(s: Store, gone: set<string>): Store {
    Store(s.base, Dropping(s.pending, gone), s.confirmed - gone, s.acceptedAt - gone)
  }

  function AsIds(ids: seq<string>): set<string> {
    set id | id in ids
  }

  function Retire(s: Store, key: string, current: Option<nat>): Store {
    Forget(s, AsIds(RetiredIds(s, key, current)))
  }

  // ---------------------------------------------------------------------------------------
  // The other operations
  // ---------------------------------------------------------------------------------------

  function Accept(s: Store, m: Pending): Store {
    if m.id in Ids(s.pending) then s else s.(pending := s.pending + [m])
  }

  function AcceptAt(s: Store, m: Pending, version: Option<nat>): Store {
    Accept(if version.Some? then s.(acceptedAt := s.acceptedAt[m.id := version.value]) else s, m)
  }

  function RemovePending(s: Store, key: string): Store {
    Forget(s, Ids(OnKey(s.pending, key)))
  }

  function Settle(s: Store, id: string, outcome: Settlement): Store {
    match outcome
    case Confirmed =>
      if id in Ids(s.pending) then
        var confirmed := s.(confirmed := s.confirmed + {id});
        Retire(confirmed, KeyOf(s.pending, id), None)
      else s
    case Failed => Forget(s, {id})
  }

  function KeyOf(ops: seq<Pending>, id: string): (key: string)
    requires id in Ids(ops)
    ensures exists op :: op in ops && op.id == id && op.key == key
  {
    if ops[0].id == id then ops[0].key
    else
      assert ops == [ops[0]] + ops[1..];
      KeyOf(ops[1..], id)
  }

  method CollectAllowed(pending: seq<Pending>, key: string, confirmed: set<string>, canRetire: set<string>)
    returns (retire: seq<string>)
    ensures retire == AllowedIds(OnKey(pending, key), confirmed * canRetire)
  {
    retire := [];
    for i := 0 to |pending|
      invariant retire == AllowedIds(OnKey(pending[..i], key), confirmed * canRetire)
    {
      OnKeyStep(pending, i, key);
      AllowedStep(OnKey(pending[..i], key), pending[i], confirmed * canRetire);
      if pending[i].key == key && pending[i].id in confirmed && pending[i].id in canRetire {
        retire := retire + [pending[i].id];
      }
    }
    assert pending[..|pending|] == pending;
  }

  /** Everything the assertion writes is so already. */
  ghost predicate Satisfied(state: FoldState, a: Assertion) {
    && (forall k :: KeywordWrite(a, k).Written? ==> (k in state.keywords <==> KeywordWrite(a, k).present))
    && (forall m :: MailboxWrite(a, m).Written? ==> (m in state.mailboxIds <==> MailboxWrite(a, m).present))
  }

  /** Absorbed, read off the names written: not a destroy, and nothing it writes is news. */
  lemma AbsorbedIff(state: FoldState, a: Assertion)
    ensures Absorbed(state, a) <==> !a.Destroy? && Satisfied(state, a)
    ensures !a.Destroy? ==> forall k :: k in Advance(state, a).keywords <==> After(KeywordWrite(a, k), k in state.keywords)
    ensures !a.Destroy? ==> forall m :: m in Advance(state, a).mailboxIds <==> After(MailboxWrite(a, m), m in state.mailboxIds)
  {
    if !a.Destroy? {
      ApplyPointwise(state, a);
      hide Apply, KeywordWrite, MailboxWrite;
      SameStatePointwise(Apply(state, a).state, state);
    }
  }

  lemma ApplyPointwise(state: FoldState, a: Assertion)
    requires !a.Destroy?
    ensures Apply(state, a).Present?
    ensures forall k :: k in Apply(state, a).state.keywords <==> After(KeywordWrite(a, k), k in state.keywords)
    ensures forall m :: m in Apply(state, a).state.mailboxIds <==> After(MailboxWrite(a, m), m in state.mailboxIds)
  {
  }

  /** One op of the walk: an effective op advances the running state, an absorbed one and a
      destroy do not. */
  method FoldOne(running: FoldState, a: Assertion) returns (absorbed: bool, next: FoldState)
    ensures absorbed == Absorbed(running, a) && next == Advance(running, a)
    ensures absorbed <==> !a.Destroy? && Satisfied(running, a)
    ensures a.Destroy? ==> next == running
    ensures !a.Destroy? ==> forall k :: k in next.keywords <==> After(KeywordWrite(a, k), k in running.keywords)
    ensures !a.Destroy? ==> forall m :: m in next.mailboxIds <==> After(MailboxWrite(a, m), m in running.mailboxIds)
  {
    AbsorbedIff(running, a);
    var o := ReplayMessage(running, [a]);
    ReplaySingle(running, a);
    match o
    case Present(folded) =>
      if SameState(folded, running) {
        return true, running;
      }
      return false, folded;
    case Removed =>
      return false, running;
  }

  method CollectAbsorbed(base: FoldState, pending: seq<Pending>, key: string,
                         confirmed: set<string>, canRetire: set<string>)
    returns (retire: seq<string>)
    ensures retire == Walk(base, OnKey(pending, key), confirmed * canRetire)
  {
    var running := base;
    retire := [];
    for i := 0 to |pending|
      invariant retire == Walk(base, OnKey(pending[..i], key), confirmed * canRetire)
      invariant running == RunningAfter(base, OnKey(pending[..i], key))
    {
      OnKeyStep(pending, i, key);
      WalkStep(base, OnKey(pending[..i], key), pending[i], confirmed * canRetire);
      if pending[i].key == key {
        var absorbed, next := FoldOne(running, pending[i].effect);
        if absorbed && pending[i].id in confirmed && pending[i].id in canRetire {
          retire := retire + [pending[i].id];
        }
        running := next;
      }
    }
    assert pending[..|pending|] == pending;
  }

  ghost predicate HeldOn(ops: seq<Pending>, key: string, id: string) {
    exists i :: 0 <= i < |ops| && ops[i].key == key && ops[i].id == id
  }

  lemma HeldIds(ops: seq<Pending>, key: string, id: string)
    ensures id in Ids(OnKey(ops, key)) <==> HeldOn(ops, key, id)
  {
    if i :| 0 <= i < |ops| && ops[i].key == key && ops[i].id == id {
      assert ops[i] in OnKey(ops, key);
    }
  }

  lemma RemovesHeld(s: Store, key: string)
    ensures var t := RemovePending(s, key);
      && t.base == s.base
      && (forall op :: op in t.pending <==> op in s.pending && !HeldOn(s.pending, key, op.id))
      && (forall id :: id in t.confirmed <==> id in s.confirmed && !HeldOn(s.pending, key, id))
      && (forall id :: id in t.acceptedAt <==> id in s.acceptedAt && !HeldOn(s.pending, key, id))
      && (forall id :: id in t.acceptedAt ==> t.acceptedAt[id] == s.acceptedAt[id])
    ensures OnKey(s.pending, key) != [] <==> exists i :: 0 <= i < |s.pending| && s.pending[i].key == key
    ensures OnKey(s.pending, key) == [] ==> forall op :: op in s.pending ==> op.id !in Ids(OnKey(s.pending, key))
    ensures OnKey(s.pending, key) == [] ==> Ids(OnKey(s.pending, key)) == {}
  {
    hide OnKey, HeldOn, Dropping;
    forall id {
      HeldIds(s.pending, key, id);
    }
    var mine := OnKey(s.pending, key);
    if mine != [] {
      assert mine[0] in mine && mine[0] in s.pending;
    }
    if i :| 0 <= i < |s.pending| && s.pending[i].key == key {
      assert s.pending[i] in mine;
    }
  }

  class Engine {
    var base: map<string, FoldState>
    var pending: seq<Pending>
    var confirmed: set<string>
    var acceptedAt: map<string, nat>

    function Snapshot(): Store
      reads this
    {
      Store(base, pending, confirmed, acceptedAt)
    }

    constructor ()
      ensures Snapshot() == EMPTY
      ensures base == map[] && pending == [] && confirmed == {} && acceptedAt == map[]
    {
      base, pending, confirmed, acceptedAt := map[], [], {}, map[];
    }

    method SetBase(key: string, state: FoldState)
      modifies this
      ensures base == old(base)[key := state]
      ensures pending == old(pending) && confirmed == old(confirmed) && acceptedAt == old(acceptedAt)
    {
      base := base[key := state];
    }

    method RemoveBase(key: string)
      modifies this
      ensures base == old(base) - {key}
      ensures pending == old(pending) && confirmed == old(confirmed) && acceptedAt == old(acceptedAt)
    {
      base := base - {key};
    }

    method RemovePendingOn(key: string) returns (any: bool)
      modifies this
      ensures Snapshot() == RemovePending(old(Snapshot()), key)
      ensures any <==> exists i :: 0 <= i < |old(pending)| && old(pending)[i].key == key
      ensures base == old(base)
      ensures forall op :: op in pending <==> op in old(pending) && !HeldOn(old(pending), key, op.id)
      ensures forall id :: id in confirmed <==> id in old(confirmed) && !HeldOn(old(pending), key, id)
      ensures forall id :: id in acceptedAt <==> id in old(acceptedAt) && !HeldOn(old(pending), key, id)
      ensures forall id :: id in acceptedAt ==> acceptedAt[id] == old(acceptedAt)[id]
    {
      RemovesHeld(Snapshot(), key);
      hide OnKey, Dropping, Ids, HeldOn;
      var remove := OnKey(pending, key);
      if remove == [] {
        DroppingNothing(pending, Ids(remove));
        return false;
      }
      pending := Dropping(pending, Ids(remove));
      confirmed := confirmed - Ids(remove);
      acceptedAt := acceptedAt - Ids(remove);
      any := true;
    }

    method DropPending(id: string) returns (removed: bool)
      modifies this
      ensures Snapshot() == Forget(old(Snapshot()), {id})
      ensures removed <==> exists i :: 0 <= i < |old(pending)| && old(pending)[i].id == id
      ensures base == old(base) && confirmed == old(confirmed) - {id} && acceptedAt == old(acceptedAt) - {id}
      ensures forall op :: op in pending <==> op in old(pending) && op.id != id
    {
      hide Dropping, Ids;
      var before := |pending|;
      DroppingShortens(pending, {id});
      pending := Dropping(pending, {id});
      confirmed := confirmed - {id};
      acceptedAt := acceptedAt - {id};
      removed := |pending| != before;
    }

    method AcceptMutation(m: Pending)
      modifies this
      ensures Snapshot() == Accept(old(Snapshot()), m)
      ensures pending == if exists op :: op in old(pending) && op.id == m.id then old(pending) else old(pending) + [m]
      ensures base == old(base) && confirmed == old(confirmed) && acceptedAt == old(acceptedAt)
    {
      if m.id in Ids(pending) {
        return;
      }
      pending := pending + [m];
    }

    method AcceptMutationAt(m: Pending, version: Option<nat>)
      modifies this
      ensures Snapshot() == AcceptAt(old(Snapshot()), m, version)
      ensures pending == if exists op :: op in old(pending) && op.id == m.id then old(pending) else old(pending) + [m]
      ensures acceptedAt == if version.Some? then old(acceptedAt)[m.id := version.value] else old(acceptedAt)
      ensures base == old(base) && confirmed == old(confirmed)
    {
      if version.Some? {
        acceptedAt := acceptedAt[m.id := version.value];
      }
      AcceptMutation(m);
    }

    method SettleMutation(id: string, outcome: Settlement) returns (r: SettlementResult)
      modifies this
      ensures Snapshot() == Settle(old(Snapshot()), id, outcome)
      ensures outcome == Failed ==> r.retired == r.reverted == (id in Ids(old(pending)))
      ensures outcome == Confirmed ==> !r.reverted && (r.retired <==> pending != old(pending))
      ensures base == old(base)
      ensures outcome == Failed ==>
        && confirmed == old(confirmed) - {id} && acceptedAt == old(acceptedAt) - {id}
        && forall op :: op in pending <==> op in old(pending) && op.id != id
      ensures outcome == Confirmed && id !in Ids(old(pending)) ==>
        pending == old(pending) && confirmed == old(confirmed) && acceptedAt == old(acceptedAt)
      ensures outcome == Confirmed && id in Ids(old(pending)) ==>
        exists gone: set<string> ::
          && confirmed == old(confirmed) + {id} - gone && acceptedAt == old(acceptedAt) - gone
          && forall op :: op in pending <==> op in old(pending) && op.id !in gone
    {
      match outcome
      case Confirmed =>
        if id !in Ids(pending) {
          return SettlementResult(false, false);
        }
        confirmed := confirmed + {id};
        var retired := RetireAbsorbed(KeyOf(pending, id));
        assert confirmed == old(confirmed) + {id} - AsIds(retired);
        r := SettlementResult(retired != [], false);
      case Failed =>
        var removed := DropPending(id);
        r := SettlementResult(removed, removed);
    }

    method MarkConfirmed(id: string)
      modifies this
      ensures confirmed == old(confirmed) + {id}
      ensures base == old(base) && pending == old(pending) && acceptedAt == old(acceptedAt)
    {
      confirmed := confirmed + {id};
    }

    method RetireAbsorbed(key: string) returns (retired: seq<string>)
      modifies this
      ensures retired == RetiredIds(old(Snapshot()), key, None)
      ensures Snapshot() == Retire(old(Snapshot()), key, None)
      ensures base == old(base)
      ensures confirmed == old(confirmed) - AsIds(retired) && acceptedAt == old(acceptedAt) - AsIds(retired)
      ensures forall op :: op in pending <==> op in old(pending) && op.id !in AsIds(retired)
      ensures retired != [] <==> pending != old(pending)
    {
      retired := RetireAbsorbedAt(key, None);
    }

    method RetireAbsorbedAt(key: string, current: Option<nat>) returns (retired: seq<string>)
      modifies this
      ensures retired == RetiredIds(old(Snapshot()), key, current)
      ensures Snapshot() == Retire(old(Snapshot()), key, current)
      ensures base == old(base)
      ensures confirmed == old(confirmed) - AsIds(retired) && acceptedAt == old(acceptedAt) - AsIds(retired)
      ensures forall op :: op in pending <==> op in old(pending) && op.id !in AsIds(retired)
      ensures retired != [] <==> pending != old(pending)
    {
      hide Walk, AllowedIds, Dropping, OnKey;
      ghost var s := Snapshot();
      var canRetire := set op | op in OnKey(pending, key) && GateOpen(Snapshot(), op.id, current) :: op.id;
      var before := pending;
      GateByKey(s, key, current, canRetire);
      retired := RetireAbsorbedIf(key, canRetire);
      acceptedAt := acceptedAt - AsIds(retired);
      DroppingShortens(before, AsIds(retired));
      if retired != [] {
        assert retired[0] in AsIds(retired);
        assert retired[0] in Ids(before);
      }
    }

    /** The retire walk proper: over one key's ops in order, with the state they produce. */
    method RetireAbsorbedIf(key: string, canRetire: set<string>) returns (retire: seq<string>)
      modifies this
      ensures retire == (if key in old(base)
                         then Walk(old(base)[key], OnKey(old(pending), key), old(confirmed) * canRetire)
                         else AllowedIds(OnKey(old(pending), key), old(confirmed) * canRetire))
      ensures pending == Dropping(old(pending), AsIds(retire))
      ensures confirmed == old(confirmed) - AsIds(retire)
      ensures base == old(base) && acceptedAt == old(acceptedAt)
    {
      hide Walk, AllowedIds, OnKey, Ids;
      if key !in base {
        retire := CollectAllowed(pending, key, confirmed, canRetire);
      } else {
        retire := CollectAbsorbed(base[key], pending, key, confirmed, canRetire);
      }
      if retire == [] {
        DroppingNothing(pending, AsIds(retire));
        return;
      }
      pending := Dropping(pending, AsIds(retire));
      confirmed := confirmed - AsIds(retire);
    }

    method ProjectKey(key: string) returns (view: Option<Outcome<FoldState>>)
      ensures view == Project(Snapshot(), key)
      ensures view.None? <==> key !in base
      ensures key in base ==>
        (view == Some(Removed) <==> exists i :: 0 <= i < |pending| && pending[i].key == key && pending[i].effect.Destroy?)
      ensures view.Some? && view.value.Present? ==> ShowsKeywords(view.value.state, base[key], pending, key)
      ensures view.Some? && view.value.Present? ==> ShowsMailboxes(view.value.state, base[key], pending, key)
    {
      if key !in base {
        return None;
      }
      ViewOf(base[key], pending, key);
      var o := ReplayMessage(base[key], Effects(OnKey(pending, key)));
      view := Some(o);
    }
  }

  // ---------------------------------------------------------------------------------------
  // What the view shows
  // ---------------------------------------------------------------------------------------

  /** Op i of the outbox is the last of the key to write the keyword. */
  ghost predicate LastForKeyword(ops: seq<Pending>, key: string, k: string, i: nat) {
    && i < |ops| && ops[i].key == key && KeywordWrite(ops[i].effect, k).Written?
    && forall j :: i < j < |ops| && ops[j].key == key ==> KeywordWrite(ops[j].effect, k).Untouched?
  }

  ghost predicate LastForMailbox(ops: seq<Pending>, key: string, m: string, i: nat) {
    && i < |ops| && ops[i].key == key && MailboxWrite(ops[i].effect, m).Written?
    && forall j :: i < j < |ops| && ops[j].key == key ==> MailboxWrite(ops[j].effect, m).Untouched?
  }

  /** Every keyword is as the last op of the key to write it left it, or as the base has it. */
  ghost predicate ShowsKeywords(shown: FoldState, base: FoldState, ops: seq<Pending>, key: string) {
    && (forall k, i: nat :: LastForKeyword(ops, key, k, i) ==>
          (k in shown.keywords <==> KeywordWrite(ops[i].effect, k).present))
    && (forall k :: (forall i: nat :: !LastForKeyword(ops, key, k, i)) ==> (k in shown.keywords <==> k in base.keywords))
  }

  ghost predicate ShowsMailboxes(shown: FoldState, base: FoldState, ops: seq<Pending>, key: string) {
    && (forall m, i: nat :: LastForMailbox(ops, key, m, i) ==>
          (m in shown.mailboxIds <==> MailboxWrite(ops[i].effect, m).present))
    && (forall m :: (forall i: nat :: !LastForMailbox(ops, key, m, i)) ==> (m in shown.mailboxIds <==> m in base.mailboxIds))
  }

  lemma EffectsAppend(ops: seq<Pending>, op: Pending)
    ensures Effects(ops + [op]) == Effects(ops) + [op.effect]
  {
  }

  lemma LastAppend(xs: seq<Assertion>, a: Assertion, k: string)
    ensures LastKeyword(xs + [a], k) == if KeywordWrite(a, k).Written? then KeywordWrite(a, k) else LastKeyword(xs, k)
    ensures LastMailbox(xs + [a], k) == if MailboxWrite(a, k).Written? then MailboxWrite(a, k) else LastMailbox(xs, k)
  {
    assert (xs + [a])[..|xs|] == xs;
  }

  // The last writer of a name on a key, found from the end.

  lemma LastForKeywordAppend(ops: seq<Pending>, op: Pending, key: string, k: string, i: nat)
    ensures LastForKeyword(ops + [op], key, k, i) <==>
      if op.key == key && KeywordWrite(op.effect, k).Written? then i == |ops| else LastForKeyword(ops, key, k, i)
  {
    hide KeywordWrite;
    var longer := ops + [op];
    assert longer[|ops|] == op && forall j :: 0 <= j < |ops| ==> longer[j] == ops[j];
  }

  lemma {:induction false} LastKeywordOnKey(ops: seq<Pending>, key: string, k: string, i: nat)
    ensures LastForKeyword(ops, key, k, i) ==>
      LastKeyword(Effects(OnKey(ops, key)), k) == KeywordWrite(ops[i].effect, k)
    ensures LastKeyword(Effects(OnKey(ops, key)), k).Written? ==> exists j: nat :: LastForKeyword(ops, key, k, j)
  {
    if ops != [] {
      hide KeywordWrite, LastKeyword, LastForKeyword, OnKey, Effects;
      var before, op := ops[..|ops| - 1], ops[|ops| - 1];
      assert ops == before + [op];
      OnKeyAppend(before, op, key);
      EffectsAppend(OnKey(before, key), op);
      LastAppend(Effects(OnKey(before, key)), op.effect, k);
      LastKeywordOnKey(before, key, k, i);
      LastForKeywordAppend(before, op, key, k, i);
      LastForKeywordAppend(before, op, key, k, |before|);
      if j: nat :| LastForKeyword(before, key, k, j) {
        LastForKeywordAppend(before, op, key, k, j);
      }
      KeywordIndex(before, key, k, i);
    }
  }

  lemma KeywordIndex(ops: seq<Pending>, key: string, k: string, i: nat)
    ensures LastForKeyword(ops, key, k, i) ==> i < |ops| && KeywordWrite(ops[i].effect, k).Written?
  {
  }

  lemma LastForMailboxAppend(ops: seq<Pending>, op: Pending, key: string, m: string, i: nat)
    ensures LastForMailbox(ops + [op], key, m, i) <==>
      if op.key == key && MailboxWrite(op.effect, m).Written? then i == |ops| else LastForMailbox(ops, key, m, i)
  {
    hide MailboxWrite;
    var longer := ops + [op];
    assert longer[|ops|] == op && forall j :: 0 <= j < |ops| ==> longer[j] == ops[j];
  }

  lemma {:induction false} LastMailboxOnKey(ops: seq<Pending>, key: string, m: string, i: nat)
    ensures LastForMailbox(ops, key, m, i) ==>
      LastMailbox(Effects(OnKey(ops, key)), m) == MailboxWrite(ops[i].effect, m)
    ensures LastMailbox(Effects(OnKey(ops, key)), m).Written? ==> exists j: nat :: LastForMailbox(ops, key, m, j)
  {
    if ops != [] {
      hide MailboxWrite, LastMailbox, LastForMailbox, OnKey, Effects;
      var before, op := ops[..|ops| - 1], ops[|ops| - 1];
      assert ops == before + [op];
      OnKeyAppend(before, op, key);
      EffectsAppend(OnKey(before, key), op);
      LastAppend(Effects(OnKey(before, key)), op.effect, m);
      LastMailboxOnKey(before, key, m, i);
      LastForMailboxAppend(before, op, key, m, i);
      LastForMailboxAppend(before, op, key, m, |before|);
      if j: nat :| LastForMailbox(before, key, m, j) {
        LastForMailboxAppend(before, op, key, m, j);
      }
      MailboxIndex(before, key, m, i);
    }
  }

  lemma MailboxIndex(ops: seq<Pending>, key: string, m: string, i: nat)
    ensures LastForMailbox(ops, key, m, i) ==> i < |ops| && MailboxWrite(ops[i].effect, m).Written?
  {
  }

  lemma ShownKeywordAt(shown: FoldState, base: FoldState, ops: seq<Pending>, key: string, k: string, i: nat)
    requires k in shown.keywords <==> After(LastKeyword(Effects(OnKey(ops, key)), k), k in base.keywords)
    ensures LastForKeyword(ops, key, k, i) ==> (k in shown.keywords <==> KeywordWrite(ops[i].effect, k).present)
  {
    hide KeywordWrite, LastKeyword, OnKey, Effects;
    LastKeywordOnKey(ops, key, k, i);
  }

  lemma ShownKeyword(shown: FoldState, base: FoldState, ops: seq<Pending>, key: string, k: string)
    requires k in shown.keywords <==> After(LastKeyword(Effects(OnKey(ops, key)), k), k in base.keywords)
    ensures forall i: nat :: LastForKeyword(ops, key, k, i) ==> (k in shown.keywords <==> KeywordWrite(ops[i].effect, k).present)
    ensures (forall i: nat :: !LastForKeyword(ops, key, k, i)) ==> (k in shown.keywords <==> k in base.keywords)
  {
    hide KeywordWrite, LastKeyword, LastForKeyword, OnKey, Effects;
    LastKeywordOnKey(ops, key, k, 0);
    forall i: nat | LastForKeyword(ops, key, k, i) {
      ShownKeywordAt(shown, base, ops, key, k, i);
    }
  }

  lemma ShownMailboxAt(shown: FoldState, base: FoldState, ops: seq<Pending>, key: string, m: string, i: nat)
    requires m in shown.mailboxIds <==> After(LastMailbox(Effects(OnKey(ops, key)), m), m in base.mailboxIds)
    ensures LastForMailbox(ops, key, m, i) ==> (m in shown.mailboxIds <==> MailboxWrite(ops[i].effect, m).present)
  {
    hide MailboxWrite, LastMailbox, OnKey, Effects;
    LastMailboxOnKey(ops, key, m, i);
  }

  lemma ShownMailbox(shown: FoldState, base: FoldState, ops: seq<Pending>, key: string, m: string)
    requires m in shown.mailboxIds <==> After(LastMailbox(Effects(OnKey(ops, key)), m), m in base.mailboxIds)
    ensures forall i: nat :: LastForMailbox(ops, key, m, i) ==> (m in shown.mailboxIds <==> MailboxWrite(ops[i].effect, m).present)
    ensures (forall i: nat :: !LastForMailbox(ops, key, m, i)) ==> (m in shown.mailboxIds <==> m in base.mailboxIds)
  {
    hide MailboxWrite, LastMailbox, LastForMailbox, OnKey, Effects;
    LastMailboxOnKey(ops, key, m, 0);
    forall i: nat | LastForMailbox(ops, key, m, i) {
      ShownMailboxAt(shown, base, ops, key, m, i);
    }
  }

  /** The view of a key is removed exactly when one of its ops destroys it, and otherwise shows what
      its ops last wrote over its base. */
  lemma ViewOf(base: FoldState, ops: seq<Pending>, key: string)
    ensures var view := Replay(base, Effects(OnKey(ops, key)));
      && (view == Removed <==> exists i :: 0 <= i < |ops| && ops[i].key == key && ops[i].effect.Destroy?)
      && (view.Present? ==> ShowsKeywords(view.state, base, ops, key) && ShowsMailboxes(view.state, base, ops, key))
  {
    DestroyOnKey(ops, key);
    hide OnKey, Effects, Replay, ShowsKeywords, ShowsMailboxes, LastKeyword, LastMailbox;
    ReplayPointwise(base, Effects(OnKey(ops, key)));
    var view := Replay(base, Effects(OnKey(ops, key)));
    if view.Present? {
      AllShown(view.state, base, ops, key);
    }
  }

  lemma DestroyOnKey(ops: seq<Pending>, key: string)
    ensures Destroy in Effects(OnKey(ops, key)) <==> exists i :: 0 <= i < |ops| && ops[i].key == key && ops[i].effect.Destroy?
  {
    hide OnKey;
    var mine := OnKey(ops, key);
    if i :| 0 <= i < |ops| && ops[i].key == key && ops[i].effect.Destroy? {
      assert ops[i] in mine;
      var j :| 0 <= j < |mine| && mine[j] == ops[i];
      assert Effects(mine)[j] == Destroy;
    }
    if Destroy in Effects(mine) {
      var j :| 0 <= j < |mine| && Effects(mine)[j] == Destroy;
      assert mine[j] in mine && mine[j] in ops;
    }
  }

  lemma AllShown(shown: FoldState, base: FoldState, ops: seq<Pending>, key: string)
    requires forall k :: k in shown.keywords <==> After(LastKeyword(Effects(OnKey(ops, key)), k), k in base.keywords)
    requires forall m :: m in shown.mailboxIds <==> After(LastMailbox(Effects(OnKey(ops, key)), m), m in base.mailboxIds)
    ensures ShowsKeywords(shown, base, ops, key) && ShowsMailboxes(shown, base, ops, key)
  {
    hide LastForKeyword, LastForMailbox, LastKeyword, LastMailbox, OnKey, Effects, KeywordWrite, MailboxWrite;
    forall k {
      ShownKeyword(shown, base, ops, key, k);
    }
    forall m {
      ShownMailbox(shown, base, ops, key, m);
    }
  }

  lemma OnKeyStep(ops: seq<Pending>, i: nat, key: string)
    requires i < |ops|
    ensures OnKey(ops[..i + 1], key) ==
      if ops[i].key == key then OnKey(ops[..i], key) + [ops[i]] else OnKey(ops[..i], key)
  {
    assert ops[..i + 1][..i] == ops[..i];
  }

  lemma OnKeyAppend(ops: seq<Pending>, op: Pending, key: string)
    ensures OnKey(ops + [op], key) == if op.key == key then OnKey(ops, key) + [op] else OnKey(ops, key)
  {
    assert (ops + [op])[..|ops|] == ops;
  }

  lemma DroppingAppend(ops: seq<Pending>, op: Pending, gone: set<string>)
    ensures Dropping(ops + [op], gone) == if op.id in gone then Dropping(ops, gone) else Dropping(ops, gone) + [op]
  {
    assert (ops + [op])[..|ops|] == ops;
  }

  lemma StaysListed(ops: seq<Pending>, gone: set<string>, id: string)
    requires id in Ids(ops) && id !in gone
    ensures id in Ids(Dropping(ops, gone))
  {
    var op :| op in ops && op.id == id;
    assert op in Dropping(ops, gone);
  }

  lemma AllowedStep(ops: seq<Pending>, op: Pending, may: set<string>)
    ensures AllowedIds(ops + [op], may) == if op.id in may then AllowedIds(ops, may) + [op.id] else AllowedIds(ops, may)
  {
    assert (ops + [op])[..|ops|] == ops;
  }

  lemma WalkStep(base: FoldState, ops: seq<Pending>, op: Pending, may: set<string>)
    ensures RunningAfter(base, ops + [op]) == Advance(RunningAfter(base, ops), op.effect)
    ensures Walk(base, ops + [op], may) ==
      if op.id in may && Absorbed(RunningAfter(base, ops), op.effect) then Walk(base, ops, may) + [op.id]
      else Walk(base, ops, may)
  {
    assert (ops + [op])[..|ops|] == ops;
  }

  /** The engine computes the gate only for ops on the key; the walk only asks about those. */
  lemma GateByKey(s: Store, key: string, current: Option<nat>, canRetire: set<string>)
    requires canRetire == set op | op in OnKey(s.pending, key) && GateOpen(s, op.id, current) :: op.id
    ensures (if key in s.base then Walk(s.base[key], OnKey(s.pending, key), s.confirmed * canRetire)
             else AllowedIds(OnKey(s.pending, key), s.confirmed * canRetire)) == RetiredIds(s, key, current)
  {
    var ops := OnKey(s.pending, key);
    forall op | op in ops ensures op.id in s.confirmed * canRetire <==> op.id in MayRetire(s, current) {
    }
    AllowedAgree(ops, s.confirmed * canRetire, MayRetire(s, current));
    if key in s.base {
      WalkAgrees(s.base[key], ops, s.confirmed * canRetire, MayRetire(s, current));
    }
  }

  lemma {:induction false} WalkAgrees(base: FoldState, ops: seq<Pending>, a: set<string>, b: set<string>)
    requires forall op :: op in ops ==> (op.id in a <==> op.id in b)
    ensures Walk(base, ops, a) == Walk(base, ops, b)
  {
    if ops != [] {
      assert ops == ops[..|ops| - 1] + [ops[|ops| - 1]];
      WalkAgrees(base, ops[..|ops| - 1], a, b);
    }
  }

  lemma {:induction false} AllowedAgree(ops: seq<Pending>, a: set<string>, b: set<string>)
    requires forall op :: op in ops ==> (op.id in a <==> op.id in b)
    ensures AllowedIds(ops, a) == AllowedIds(ops, b)
  {
    if ops != [] {
      assert ops == ops[..|ops| - 1] + [ops[|ops| - 1]];
      AllowedAgree(ops[..|ops| - 1], a, b);
    }
  }

  lemma {:induction false} DroppingNothing(ops: seq<Pending>, gone: set<string>)
    requires forall op :: op in ops ==> op.id !in gone
    ensures Dropping(ops, gone) == ops
  {
    if ops != [] {
      assert ops == ops[..|ops| - 1] + [ops[|ops| - 1]];
      DroppingNothing(ops[..|ops| - 1], gone);
    }
  }

  lemma {:induction false} DroppingShortens(ops: seq<Pending>, gone: set<string>)
    ensures |Dropping(ops, gone)| < |ops| <==> exists op :: op in ops && op.id in gone
    ensures Dropping(ops, gone) != ops <==> exists op :: op in ops && op.id in gone
  {
    if op :| op in ops && op.id in gone {
      if ops != [] {
        var n := |ops| - 1;
        assert ops == ops[..n] + [ops[n]];
        DroppingShortens(ops[..n], gone);
      }
    } else {
      DroppingNothing(ops, gone);
    }
  }
}
