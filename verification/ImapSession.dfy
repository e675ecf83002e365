/** The per-account IMAP session slot: leases, recallable IDLE holds, cancellation and poisoning,
    over every interleaving of the holders that contend for the one mutex. */
module ImapSession {
  import opened Wrappers
  import opened Backoff

  // What the server side of one connection knows: whether it is between commands, and which
  // mailbox is selected (section 6.3 of RFC 9051). The code never sees this.
  datatype Wire = Wire(inSync: bool, selected: Option<string>)

  // Who holds the slot's mutex, and where in its async body that holder is suspended.
  datatype Holder =
    | Free
    | AcquireConnecting | Leased | OpCommand
    | IdleConnecting | IdleExamining | Idling

  datatype Session = Session(
    client: Option<Wire>, dirty: bool, epoch: nat, examinedAt: Option<nat>,
    failures: U32, nextConnectAt: Option<int>,
    holder: Holder, target: string, connects: nat, discards: nat)

  // `consecutive_connect_failures: u32`
  type U32 = x: nat | x < TWO32

  const FRESH: Session := Session(None, false, 0, None, 0, None, Free, "", 0, 0)

  const RECONNECT: Schedule := Schedule(500.0, 2.0, 30000.0, TWO32 - 1)

  const U32_MAX: U32 := TWO32 - 1

  // What an observer of the protocol sees happen, with the wire as it was at that moment.
  datatype Event =
    | LeaseGiven(wire: Option<Wire>)
    | IdleIssued(wire: Option<Wire>, mailbox: string)
    | ConnectStarted(forOperation: bool, now: int, notBefore: Option<int>)

  datatype Outcome = Succeeded | FailedAt(now: int, unit: real)

  datatype Action =
    | Acquire(now: int)                       // lock the slot for an operation
    | AcquireConnected(outcome: Outcome)      // its connect finished
    | OpBegin                                 // the operation sends a command
    | OpEnd(selected: Option<string>)         // the tagged reply arrived
    | Finish(fatal: bool)                     // the lease is finished with a classified result
    | Idle(mailbox: string, now: int, slept: bool)  // lock the slot for IDLE, before or after a sleep
    | IdleConnected(outcome: Outcome)
    | IdleExamined(ok: bool)                  // the EXAMINE reply arrived, or failed
    | IdleEnded(ok: bool)                     // DONE acknowledged, or the hold failed
    | Cancel                                  // the holder's future is dropped where it stands

  // ---------------------------------------------------------------------------------------
  // The steps
  // ---------------------------------------------------------------------------------------

  function Discard(s: Session): Session {
    s.(client := None, examinedAt := None, discards := s.discards + if s.client.Some? then 1 else 0)
  }

  function Sweep(s: Session): Session {
    if s.dirty then Discard(s).(dirty := false) else s
  }

  predicate TooEarly(s: Session, now: int) {
    s.nextConnectAt.Some? && now < s.nextConnectAt.value
  }

  function Connected(s: Session): Session {
    s.(client := Some(Wire(true, None)), dirty := false, epoch := s.epoch + 1, examinedAt := None,
       failures := 0, nextConnectAt := None, connects := s.connects + 1)
  }

  function ConnectFailed(s: Session, now: int, unit: real): Session
  {
    s.(failures := if s.failures == U32_MAX then U32_MAX else s.failures + 1,
       nextConnectAt := Some(now + DelayFor(RECONNECT, s.failures, unit)))
  }

  function GiveLease(s: Session): (Session, seq<Event>) {
    (s.(dirty := true, epoch := s.epoch + 1, holder := Leased), [LeaseGiven(s.client)])
  }

  function IssueIdle(s: Session): (Session, seq<Event>) {
    (s.(holder := Idling, client := OutOfSync(s.client)), [IdleIssued(s.client, s.target)])
  }

  function OutOfSync(client: Option<Wire>): Option<Wire> {
    match client
    case Some(w) => Some(w.(inSync := false))
    case None => None
  }

  /** The start of `idle_hold`: EXAMINE unless the last one still stands, then IDLE. */
  function BeginHold(s: Session): (Session, seq<Event>) {
    var held := s.(dirty := true);
    if held.examinedAt == Some(held.epoch) then IssueIdle(held)
    else (held.(holder := IdleExamining, client := OutOfSync(held.client)), [])
  }

  /** A failed hold: the wire state is unknowable, so the session goes. */
  function FailHold(s: Session): Session {
    Discard(s).(dirty := false, holder := Free)
  }

  predicate Enabled(s: Session, a: Action) {
    match a
    case Acquire(_) => s.holder.Free?
    case Idle(_, _, _) => s.holder.Free?
    case AcquireConnected(_) => s.holder.AcquireConnecting?
    case IdleConnected(_) => s.holder.IdleConnecting?
    case OpBegin => s.holder.Leased?
    case OpEnd(_) => s.holder.OpCommand?
    // Only a connection-fatal result may leave a command outstanding.
    case Finish(fatal) => s.holder.Leased? || (fatal && s.holder.OpCommand?)
    case IdleExamined(_) => s.holder.IdleExamining?
    case IdleEnded(_) => s.holder.Idling?
    case Cancel => !s.holder.Free?
  }

  function Step(s: Session, a: Action): (Session, seq<Event>)
  {
    match a
    case Acquire(now) =>
      var c := Sweep(s);
      if c.client.Some? then GiveLease(c)
      else if TooEarly(c, now) then (c, [])
      else (c.(holder := AcquireConnecting), [ConnectStarted(true, now, c.nextConnectAt)])
    case AcquireConnected(Succeeded) => GiveLease(Connected(s))
    case AcquireConnected(FailedAt(now, unit)) => (ConnectFailed(s, now, unit).(holder := Free), [])
    case OpBegin => (s.(holder := OpCommand, client := OutOfSync(s.client)), [])
    case OpEnd(selected) => (s.(holder := Leased, client := Some(Wire(true, selected))), [])
    case Finish(fatal) =>
      var c := s.(dirty := false, holder := Free);
      (if fatal then Discard(c) else c, [])
    case Idle(mailbox, now, slept) =>
      var c := Sweep(s).(target := mailbox);
      if c.client.Some? then BeginHold(c)
      else if !slept && TooEarly(c, now) then (c, [])
      else (c.(holder := IdleConnecting), [ConnectStarted(false, now, c.nextConnectAt)])
    case IdleConnected(Succeeded) => BeginHold(Connected(s))
    case IdleConnected(FailedAt(now, unit)) => (ConnectFailed(s, now, unit).(holder := Free), [])
    case IdleExamined(ok) =>
      if ok then IssueIdle(s.(client := Some(Wire(true, Some(s.target))), examinedAt := Some(s.epoch)))
      else (FailHold(s), [])
    case IdleEnded(ok) =>
      if ok then (s.(dirty := false, holder := Free, client := match s.client
                                                               case Some(w) => Some(w.(inSync := true))
                                                               case None => None), [])
      else (FailHold(s), [])
    case Cancel => (s.(holder := Free), [])
  }

  // ---------------------------------------------------------------------------------------
  // The slot's methods, each one lock-held stretch of the source up to its next await
  // ---------------------------------------------------------------------------------------

  class Manager {
    var client: Option<Wire>
    var dirty: bool
    var epoch: nat
    var examinedAt: Option<nat>
    var failures: U32
    var nextConnectAt: Option<int>
    var holder: Holder
    var target: string
    var connects: nat
    ghost var discards: nat

    ghost function State(): Session
      reads this
    {
      Session(client, dirty, epoch, examinedAt, failures, nextConnectAt, holder, target, connects, discards)
    }

    constructor ()
      ensures State() == FRESH
      ensures client == None && !dirty && epoch == 0 && examinedAt == None
      ensures failures == 0 && nextConnectAt == None && holder == Free && connects == 0
    {
      client, dirty, epoch, examinedAt := None, false, 0, None;
      failures, nextConnectAt, holder, target, connects, discards := 0, None, Free, "", 0, 0;
    }

    method DropClient()
      modifies this
      ensures State() == Discard(old(State()))
      ensures client == None && examinedAt == None
      ensures dirty == old(dirty) && epoch == old(epoch) && failures == old(failures) && nextConnectAt == old(nextConnectAt)
      ensures holder == old(holder) && target == old(target) && connects == old(connects)
    {
      discards := discards + if client.Some? then 1 else 0;
      client := None;
      examinedAt := None;
    }

    method SweepDirty()
      modifies this
      ensures State() == Sweep(old(State()))
      ensures !dirty && client == (if old(dirty) then None else old(client))
      ensures examinedAt == if old(dirty) then None else old(examinedAt)
      ensures epoch == old(epoch) && failures == old(failures) && nextConnectAt == old(nextConnectAt)
      ensures holder == old(holder) && target == old(target) && connects == old(connects)
    {
      if dirty {
        DropClient();
        dirty := false;
      }
    }

    method ConnectInto(outcome: Outcome) returns (ok: bool)
      modifies this
      ensures ok == outcome.Succeeded?
      ensures State() == match outcome
                         case Succeeded => Connected(old(State()))
                         case FailedAt(now, unit) => ConnectFailed(old(State()), now, unit)
      ensures ok ==>
        && client == Some(Wire(true, None)) && !dirty && epoch == old(epoch) + 1 && examinedAt == None
        && failures == 0 && nextConnectAt == None && connects == old(connects) + 1
      ensures !ok ==>
        && client == old(client) && dirty == old(dirty) && epoch == old(epoch) && examinedAt == old(examinedAt)
        && failures == (if old(failures) == 0xFFFF_FFFF then old(failures) else old(failures) + 1)
        && nextConnectAt == Some(outcome.now + DelayFor(RECONNECT, old(failures), outcome.unit)) && connects == old(connects)
      ensures holder == old(holder) && target == old(target)
    {
      match outcome
      case Succeeded =>
        client := Some(Wire(true, None));
        dirty := false;
        epoch := epoch + 1;
        examinedAt := None;
        failures := 0;
        nextConnectAt := None;
        connects := connects + 1;
        ok := true;
      case FailedAt(now, unit) =>
        var attempt := failures;
        failures := if failures == U32_MAX then U32_MAX else failures + 1;
        nextConnectAt := Some(now + DelayFor(RECONNECT, attempt, unit));
        ok := false;
    }

    /** One pass of `acquire` from taking the lock: sweep, then lease, back off, or start to connect. */
    method AcquireLocked(now: int) returns (leased: bool, ghost events: seq<Event>)
      requires holder == Free
      modifies this
      ensures (State(), events) == Step(old(State()), Acquire(now))
      ensures leased <==> old(client).Some? && !old(dirty)
      ensures leased ==>
        && client == old(client) && dirty && epoch == old(epoch) + 1 && examinedAt == old(examinedAt)
        && holder == Leased && events == [LeaseGiven(old(client))]
      ensures !leased ==> client == None && !dirty && epoch == old(epoch)
      ensures holder == AcquireConnecting <==> !leased && (old(nextConnectAt) == None || now >= old(nextConnectAt).value)
      ensures holder == AcquireConnecting ==> events == [ConnectStarted(true, now, old(nextConnectAt))]
      ensures !leased && holder != AcquireConnecting ==> holder == Free && events == []
      ensures failures == old(failures) && nextConnectAt == old(nextConnectAt) && connects == old(connects)
    {
      SweepDirty();
      events := [];
      if client.None? {
        if nextConnectAt.Some? && now < nextConnectAt.value {
          return false, events;
        }
        events := [ConnectStarted(true, now, nextConnectAt)];
        holder := AcquireConnecting;
        return false, events;
      }
      events := [LeaseGiven(client)];
      dirty := true;
      epoch := epoch + 1;
      holder := Leased;
      leased := true;
    }

    method AcquireAfterConnect(outcome: Outcome) returns (leased: bool, ghost events: seq<Event>)
      requires holder == AcquireConnecting
      modifies this
      ensures (State(), events) == Step(old(State()), AcquireConnected(outcome))
      ensures leased <==> outcome.Succeeded?
      ensures leased ==>
        && client == Some(Wire(true, None)) && dirty && epoch == old(epoch) + 2 && holder == Leased
        && connects == old(connects) + 1 && nextConnectAt == None && failures == 0 && events == [LeaseGiven(client)]
      ensures !leased ==>
        && client == old(client) && holder == Free && connects == old(connects) && events == []
        && nextConnectAt == Some(outcome.now + DelayFor(RECONNECT, old(failures), outcome.unit))
    {
      leased := ConnectInto(outcome);
      if !leased {
        holder := Free;
        return leased, [];
      }
      events := [LeaseGiven(client)];
      dirty := true;
      epoch := epoch + 1;
      holder := Leased;
    }

    method FinishLease(fatal: bool)
      modifies this
      ensures State() == Step(old(State()), Finish(fatal)).0
      ensures !dirty && holder == Free && epoch == old(epoch) && connects == old(connects)
      ensures client == (if fatal then None else old(client)) && examinedAt == (if fatal then None else old(examinedAt))
      ensures failures == old(failures) && nextConnectAt == old(nextConnectAt)
    {
      dirty := false;
      if fatal {
        DropClient();
      }
      holder := Free;
    }

    /** The head of `idle_wait` from taking the lock, up to its connect, EXAMINE or IDLE. */
    method IdleLocked(mailbox: string, now: int, slept: bool) returns (ghost events: seq<Event>)
      requires holder == Free
      modifies this
      ensures (State(), events) == Step(old(State()), Idle(mailbox, now, slept))
      ensures target == mailbox && epoch == old(epoch) && connects == old(connects) && nextConnectAt == old(nextConnectAt)
      ensures old(client).Some? && !old(dirty) ==>
        && dirty && client == Some(old(client).value.(inSync := false)) && examinedAt == old(examinedAt)
        && (if old(examinedAt) == Some(old(epoch)) then holder == Idling && events == [IdleIssued(old(client), mailbox)]
            else holder == IdleExamining && events == [])
      ensures old(client).None? || old(dirty) ==>
        && client == None && !dirty
        && (if !slept && old(nextConnectAt).Some? && now < old(nextConnectAt).value then holder == Free && events == []
            else holder == IdleConnecting && events == [ConnectStarted(false, now, old(nextConnectAt))])
    {
      SweepDirty();
      target := mailbox;
      if client.None? {
        if !slept && nextConnectAt.Some? && now < nextConnectAt.value {
          return [];
        }
        events := [ConnectStarted(false, now, nextConnectAt)];
        holder := IdleConnecting;
        return;
      }
      events := StartHold();
    }

    method IdleAfterConnect(outcome: Outcome) returns (ghost events: seq<Event>)
      requires holder == IdleConnecting
      modifies this
      ensures (State(), events) == Step(old(State()), IdleConnected(outcome))
      ensures events == []
      ensures outcome.Succeeded? ==>
        && holder == IdleExamining && dirty && client == Some(Wire(false, None)) && epoch == old(epoch) + 1
        && examinedAt == None && connects == old(connects) + 1 && nextConnectAt == None && failures == 0
      ensures outcome.FailedAt? ==>
        && holder == Free && client == old(client) && connects == old(connects)
        && nextConnectAt == Some(outcome.now + DelayFor(RECONNECT, old(failures), outcome.unit))
      ensures target == old(target)
    {
      var ok := ConnectInto(outcome);
      if !ok {
        holder := Free;
        return [];
      }
      events := StartHold();
    }

    method StartHold() returns (ghost events: seq<Event>)
      modifies this
      ensures (State(), events) == BeginHold(old(State()))
      ensures dirty && epoch == old(epoch) && examinedAt == old(examinedAt) && connects == old(connects) && target == old(target)
      ensures if old(examinedAt) == Some(old(epoch)) then holder == Idling && events == [IdleIssued(old(client), old(target))]
              else holder == IdleExamining && events == []
      ensures client == if old(client).Some? then Some(old(client).value.(inSync := false)) else None
    {
      dirty := true;
      events := [];
      if examinedAt != Some(epoch) {
        holder := IdleExamining;
      } else {
        events := [IdleIssued(client, target)];
        holder := Idling;
      }
      client := OutOfSync(client);
    }

    method IdleAfterExamine(ok: bool) returns (ghost events: seq<Event>)
      requires holder == IdleExamining
      modifies this
      ensures (State(), events) == Step(old(State()), IdleExamined(ok))
      ensures ok ==>
        && holder == Idling && examinedAt == Some(old(epoch)) && events == [IdleIssued(Some(Wire(true, Some(old(target)))), old(target))]
        && client == Some(Wire(false, Some(old(target)))) && dirty == old(dirty)
      ensures !ok ==> holder == Free && client == None && examinedAt == None && !dirty && events == []
      ensures epoch == old(epoch) && connects == old(connects) && target == old(target) && nextConnectAt == old(nextConnectAt)
    {
      if !ok {
        DropClient();
        dirty := false;
        holder := Free;
        return [];
      }
      client := Some(Wire(true, Some(target)));
      examinedAt := Some(epoch);
      events := [IdleIssued(client, target)];
      client := OutOfSync(client);
      holder := Idling;
    }

    method IdleFinished(ok: bool)
      requires holder == Idling
      modifies this
      ensures State() == Step(old(State()), IdleEnded(ok)).0
      ensures !dirty && holder == Free && epoch == old(epoch) && connects == old(connects) && nextConnectAt == old(nextConnectAt)
      ensures ok ==>
        && examinedAt == old(examinedAt)
        && client == if old(client).Some? then Some(old(client).value.(inSync := true)) else None
      ensures !ok ==> client == None && examinedAt == None
    {
      if ok {
        if client.Some? {
          client := Some(client.value.(inSync := true));
        }
      } else {
        DropClient();
      }
      dirty := false;
      holder := Free;
    }
  }

  // ---------------------------------------------------------------------------------------
  // Safety over every interleaving
  // ---------------------------------------------------------------------------------------

  ghost predicate Inv(s: Session, watch: string) {
    && (s.client == None ==> s.examinedAt == None)
    && (s.examinedAt.Some? ==> s.examinedAt.value <= s.epoch)
    // An EXAMINE at the current epoch still selects the watch mailbox.
    && (s.examinedAt == Some(s.epoch) ==> s.client.value.selected == Some(watch))
    && (s.holder in {IdleConnecting, IdleExamining, Idling} ==> s.target == watch)
    // Whoever is mid-protocol has marked the slot; a clean free slot is between commands.
    && (s.holder.Free? && !s.dirty && s.client.Some? ==> s.client.value.inSync)
    && (s.holder in {AcquireConnecting, IdleConnecting} ==> s.client == None && !s.dirty)
    && (s.holder in {Leased, OpCommand} ==> s.client.Some? && s.dirty && s.examinedAt != Some(s.epoch))
    && (s.holder.Leased? ==> s.client.value.inSync)
    && (s.holder.IdleExamining? ==> s.client.Some? && s.dirty && s.examinedAt != Some(s.epoch))
    && (s.holder.Idling? ==> s.client.Some? && s.dirty && s.examinedAt == Some(s.epoch))
    // One connection at most: every connect but the live one has been discarded.
    && s.connects == s.discards + if s.client.Some? then 1 else 0
  }

  ghost predicate GoodEvent(e: Event) {
    match e
    case LeaseGiven(wire) => wire.Some? && wire.value.inSync
    case IdleIssued(wire, mailbox) => wire == Some(Wire(true, Some(mailbox)))
    case ConnectStarted(forOperation, now, notBefore) =>
      forOperation && notBefore.Some? ==> now >= notBefore.value
  }

  // Every hold of the run watches the same mailbox.
  predicate Watches(a: Action, watch: string) {
    a.Idle? ==> a.mailbox == watch
  }

  lemma StepSafe(s: Session, a: Action, watch: string)
    requires Inv(s, watch) && Enabled(s, a) && Watches(a, watch)
    ensures Inv(Step(s, a).0, watch)
    ensures forall e :: e in Step(s, a).1 ==> GoodEvent(e)
  {
    hide DelayFor;
  }

  ghost predicate Legal(s: Session, actions: seq<Action>)
    decreases |actions|
  {
    if actions == [] then true
    else Enabled(s, actions[0]) && Legal(Step(s, actions[0]).0, actions[1..])
  }

  function Events(s: Session, actions: seq<Action>): seq<Event>
    requires Legal(s, actions)
    decreases |actions|
  {
    if actions == [] then [] else Step(s, actions[0]).1 + Events(Step(s, actions[0]).0, actions[1..])
  }

  function After(s: Session, actions: seq<Action>): Session
    requires Legal(s, actions)
    decreases |actions|
  {
    if actions == [] then s else After(Step(s, actions[0]).0, actions[1..])
  }

  /** Over every run of operations, IDLE holds, failures and cancellations: each lease given out
      holds a connected session that is between commands, IDLE is only ever issued while the watch
      mailbox is the one selected on a wire that is between commands, no operation starts a connect
      before its backoff has run out, and the account never has more than one connection. */
  lemma {:induction false} SessionSafety(s: Session, actions: seq<Action>, watch: string)
    requires Inv(s, watch) && Legal(s, actions)
    requires forall i :: 0 <= i < |actions| ==> Watches(actions[i], watch)
    ensures Inv(After(s, actions), watch)
    ensures forall e :: e in Events(s, actions) ==> GoodEvent(e)
    decreases |actions|
  {
    if actions != [] {
      StepSafe(s, actions[0], watch);
      SessionSafety(Step(s, actions[0]).0, actions[1..], watch);
    }
  }

  lemma FreshIsSafe(watch: string)
    ensures Inv(FRESH, watch)
  {
  }

  /** The one-mailbox proviso is exact: a hold that finds the last EXAMINE still standing issues
      IDLE on the right mailbox if and only if it asks for the mailbox that EXAMINE selected. */
  lemma StandingExamineMatchesIff(s: Session, watch: string, mailbox: string, now: int, slept: bool)
    requires Inv(s, watch) && s.holder.Free? && !s.dirty && s.examinedAt == Some(s.epoch)
    ensures Step(s, Idle(mailbox, now, slept)).1 == [IdleIssued(s.client, mailbox)]
    ensures GoodEvent(IdleIssued(s.client, mailbox)) <==> mailbox == watch
  {
  }

  // Connect, EXAMINE and IDLE for one mailbox, an ordinary end, then a hold for another.
  function TwoMailboxes(watch: string, other: string): seq<Action> {
    [Idle(watch, 0, false), IdleConnected(Succeeded), IdleExamined(true), IdleEnded(true), Idle(other, 1, false)]
  }

  /** And such runs exist: a second mailbox is idled on while the first is the one selected. */
  lemma OtherMailboxIsNotSelected(watch: string, other: string)
    requires watch != other
    ensures Legal(FRESH, TwoMailboxes(watch, other))
    ensures IdleIssued(Some(Wire(true, Some(watch))), other) in Events(FRESH, TwoMailboxes(watch, other))
    ensures !GoodEvent(IdleIssued(Some(Wire(true, Some(watch))), other))
  {
    var a, b, c, d, e := Idle(watch, 0, false), IdleConnected(Succeeded), IdleExamined(true), IdleEnded(true), Idle(other, 1, false);
    var s1 := Step(FRESH, a).0;
    var s2 := Step(s1, b).0;
    var s3 := Step(s2, c).0;
    var s4 := Step(s3, d).0;
    hide Legal, Events;
    assert [d] + [e] == [d, e] && [c] + [d, e] == [c, d, e] && [b] + [c, d, e] == [b, c, d, e];
    OneOnly(s4, e);
    OneMore(s3, d, [e]);
    OneMore(s2, c, [d, e]);
    OneMore(s1, b, [c, d, e]);
    OneMore(FRESH, a, [b, c, d, e]);
    assert [a] + [b, c, d, e] == TwoMailboxes(watch, other);
    assert Step(s4, e).1 == [IdleIssued(Some(Wire(true, Some(watch))), other)];
  }

  lemma OneOnly(s: Session, a: Action)
    requires Enabled(s, a)
    ensures Legal(s, [a]) && Events(s, [a]) == Step(s, a).1
  {
    hide Step;
    OneMore(s, a, []);
    assert [a] + [] == [a];
  }

  lemma OneMore(s: Session, a: Action, rest: seq<Action>)
    requires Enabled(s, a) && Legal(Step(s, a).0, rest)
    ensures Legal(s, [a] + rest)
    ensures Events(s, [a] + rest) == Step(s, a).1 + Events(Step(s, a).0, rest)
  {
    hide Step;
    assert ([a] + rest)[1..] == rest;
  }

  /** A holder cancelled mid-protocol never passes its session on: the next holder, operation or
      IDLE, starts from a discarded client. */
  lemma CancelledSessionIsDiscarded(s: Session, watch: string, now: int, slept: bool)
    requires Inv(s, watch) && s.holder in {Leased, OpCommand, IdleExamining, Idling}
    ensures var c := Step(s, Cancel).0;
      && Step(c, Acquire(now)).0.client == None
      && Step(c, Idle(watch, now, slept)).0.client == None
      && Step(c, Acquire(now)).0.discards == s.discards + 1
  {
  }

  /** A failed connect blocks operations for at most the schedule's cap. */
  lemma BackoffIsCapped(s: Session, watch: string, now: int, unit: real, later: int)
    requires Inv(s, watch) && s.holder == AcquireConnecting
    ensures var f := Step(s, AcquireConnected(FailedAt(now, unit))).0;
      && now <= f.nextConnectAt.value <= now + 30000
      && (later >= now + 30000 ==> Step(f, Acquire(later)).0.holder == AcquireConnecting)
  {
    hide Ceiling;
    assert DelayFor(RECONNECT, s.failures, unit) <= Ceiling(RECONNECT, s.failures);
  }

  // ---------------------------------------------------------------------------------------
  // One connection is reused
  // ---------------------------------------------------------------------------------------

  // Nothing is cancelled, fails, or ends with a connection-fatal result.
  predicate Healthy(a: Action) {
    match a
    case Cancel => false
    case Finish(fatal) => !fatal
    case IdleExamined(ok) => ok
    case IdleEnded(ok) => ok
    case AcquireConnected(outcome) => outcome.Succeeded?
    case IdleConnected(outcome) => outcome.Succeeded?
    case _ => true
  }

  // A live session whose holder, if any, is past connecting.
  predicate Alive(s: Session) {
    s.client.Some? && (s.holder.Free? ==> !s.dirty) && !s.holder.AcquireConnecting? && !s.holder.IdleConnecting?
  }

  lemma HealthyStep(s: Session, a: Action)
    requires Alive(s) && Enabled(s, a) && Healthy(a)
    ensures Alive(Step(s, a).0) && Step(s, a).0.connects == s.connects
    ensures forall e :: e in Step(s, a).1 ==> !e.ConnectStarted?
  {
    hide DelayFor;
  }

  /** Over any run of operations and holds that end in order, the one connection is reused: none is
      started, and the session is as alive at the end as at the start. */
  lemma {:induction false} HealthyRunReuses(s: Session, actions: seq<Action>)
    requires Alive(s) && Legal(s, actions) && forall i :: 0 <= i < |actions| ==> Healthy(actions[i])
    ensures Alive(After(s, actions)) && After(s, actions).connects == s.connects
    ensures forall e :: e in Events(s, actions) ==> !e.ConnectStarted?
    decreases |actions|
  {
    if actions != [] {
      hide Step, Alive, Enabled;
      HealthyStep(s, actions[0]);
      HealthyRunReuses(Step(s, actions[0]).0, actions[1..]);
    }
  }

  /** After such a run, from any live free slot, the next acquire leases at once, on the live session and
      with no connect; and so does the next hold, straight to IDLE if nothing came between it and the last. */
  lemma NextHolderGetsTheSession(s: Session, actions: seq<Action>, now: int, mailbox: string)
    requires Alive(s) && Legal(s, actions) && (forall i :: 0 <= i < |actions| ==> Healthy(actions[i]))
    requires After(s, actions).holder.Free?
    ensures var t := After(s, actions);
      && Step(t, Acquire(now)).0.holder == Leased && Step(t, Acquire(now)).1 == [LeaseGiven(t.client)]
      && t.client.Some? && Step(t, Acquire(now)).0.client == t.client && Step(t, Acquire(now)).0.connects == s.connects
      && Step(t, Idle(mailbox, now, false)).0.connects == s.connects
      && Step(t, Idle(mailbox, now, false)).0.holder == (if t.examinedAt == Some(t.epoch) then Idling else IdleExamining)
  {
    hide Healthy, Legal, After;
    HealthyRunReuses(s, actions);
  }

  /** A lease finished without a connection-fatal result hands its session to the next acquire. */
  lemma CleanFinishHandsOver(s: Session, watch: string, now: int)
    requires Inv(s, watch) && s.holder.Leased?
    ensures var t := Step(s, Finish(false)).0;
      && Step(t, Acquire(now)).0.holder == Leased && Step(t, Acquire(now)).1 == [LeaseGiven(s.client)]
      && Step(t, Acquire(now)).0.connects == s.connects
  {
    var run := [Finish(false)];
    OneOnly(s, Finish(false));
    assert Alive(s);
    assert Healthy(run[0]);
    var t := Step(s, Finish(false)).0;
    assert After(s, run) == After(t, run[1..]) && run[1..] == [] && After(t, []) == t;
    NextHolderGetsTheSession(s, run, now, watch);
  }

  // ---------------------------------------------------------------------------------------
  // IDLE may connect early
  // ---------------------------------------------------------------------------------------

  predicate Connects(a: Action) {
    a.AcquireConnected? || a.IdleConnected?
  }

  /** The last connect of a run to finish, if any did. */
  function LastConnect(actions: seq<Action>): (r: Option<nat>)
    ensures r.Some? ==> r.value < |actions| && Connects(actions[r.value])
    ensures r.Some? ==> forall j :: r.value < j < |actions| ==> !Connects(actions[j])
    ensures r.None? ==> forall j :: 0 <= j < |actions| ==> !Connects(actions[j])
  {
    if actions == [] then None
    else
      match LastConnect(actions[1..])
      case Some(i) => Some(i + 1)
      case None => if Connects(actions[0]) then Some(0) else None
  }

  lemma {:induction false} LegalPrefix(s: Session, actions: seq<Action>, i: nat)
    requires Legal(s, actions) && i <= |actions|
    ensures Legal(s, actions[..i])
    decreases |actions|
  {
    if i > 0 {
      LegalPrefix(Step(s, actions[0]).0, actions[1..], i - 1);
      assert actions[..i][1..] == actions[1..][..i - 1];
    }
  }

  /** The backoff that a run leaves: the stamp of the last connect to finish, if it failed. */
  function StampedBy(s: Session, actions: seq<Action>, i: nat): Option<int>
    requires i < |actions| && Legal(s, actions[..i]) && Connects(actions[i])
  {
    match actions[i].outcome
    case Succeeded => None
    case FailedAt(now, unit) => Some(now + DelayFor(RECONNECT, After(s, actions[..i]).failures, unit))
  }

  lemma OneStepBackoff(s: Session, a: Action, watch: string)
    requires Inv(s, watch) && Enabled(s, a) && Watches(a, watch)
    ensures !Connects(a) ==> Step(s, a).0.nextConnectAt == s.nextConnectAt
    ensures !Connects(a) && s.client == None ==> Step(s, a).0.client == None
    ensures Connects(a) && a.outcome.FailedAt? ==> Step(s, a).0.client == None
  {
    hide DelayFor;
  }

  lemma ConnectStamps(s: Session, a: Action)
    requires Enabled(s, a) && Connects(a)
    ensures Step(s, a).0.nextConnectAt ==
            match a.outcome
            case Succeeded => None
            case FailedAt(now, unit) => Some(now + DelayFor(RECONNECT, s.failures, unit))
  {
    hide DelayFor;
  }

  /** Over any run the next connect time is what the last connect to finish left, or what it was, and
      without a success in between a missing client stays missing. */
  lemma {:induction false} BackoffAfter(s: Session, actions: seq<Action>, watch: string)
    requires Inv(s, watch) && Legal(s, actions)
    requires forall i :: 0 <= i < |actions| ==> Watches(actions[i], watch)
    ensures match LastConnect(actions)
            case None =>
              After(s, actions).nextConnectAt == s.nextConnectAt
              && (s.client == None ==> After(s, actions).client == None)
            case Some(i) =>
              Legal(s, actions[..i]) && After(s, actions).nextConnectAt == StampedBy(s, actions, i)
              && (actions[i].outcome.FailedAt? ==> After(s, actions).client == None)
    decreases |actions|
  {
    if actions != [] {
      hide Step, Inv, DelayFor;
      var t, rest := Step(s, actions[0]).0, actions[1..];
      StepSafe(s, actions[0], watch);
      OneStepBackoff(s, actions[0], watch);
      BackoffAfter(t, rest, watch);
      match LastConnect(rest)
      case Some(i) =>
        LegalPrefix(s, actions, i + 1);
        assert actions[..i + 1][1..] == rest[..i];
      case None =>
        assert actions[..0] == [];
        if Connects(actions[0]) {
          ConnectStamps(s, actions[0]);
        }
    }
  }

  // A hold that found the backoff running, what every other holder did while it slept, and the hold
  // going on at `now`, no earlier than the time it was to wake.
  ghost predicate SleptThrough(s: Session, watch: string, t0: int, between: seq<Action>, now: int) {
    var found := Step(s, Idle(watch, t0, false)).0;
    && Inv(s, watch) && s.holder.Free? && Sweep(s).client == None && TooEarly(s, t0) && now >= s.nextConnectAt.value
    && Legal(found, between) && After(found, between).holder.Free?
    && forall i :: 0 <= i < |between| ==> Watches(between[i], watch)
  }

  predicate StartsEarly(e: Event) {
    e.ConnectStarted? && e.notBefore.Some? && e.now < e.notBefore.value
  }

  // Connect i is the last that finished, it failed, and its stamp lies past `now`.
  ghost predicate PushedPast(found: Session, between: seq<Action>, i: nat, now: int) {
    && i < |between| && Connects(between[i]) && between[i].outcome.FailedAt?
    && (forall j :: i < j < |between| ==> !Connects(between[j]))
    && Legal(found, between[..i])
    && between[i].outcome.now + DelayFor(RECONNECT, After(found, between[..i]).failures, between[i].outcome.unit) > now
  }

  lemma PushedPastIff(found: Session, between: seq<Action>, now: int)
    requires Legal(found, between)
    ensures (exists i: nat :: PushedPast(found, between, i, now)) <==>
      match LastConnect(between)
      case None => false
      case Some(i) =>
        && Legal(found, between[..i])
        && StampedBy(found, between, i).Some? && StampedBy(found, between, i).value > now
  {
    hide DelayFor, After;
    match LastConnect(between)
    case None =>
    case Some(last) =>
      LegalPrefix(found, between, last);
      if StampedBy(found, between, last).Some? && StampedBy(found, between, last).value > now {
        assert PushedPast(found, between, last, now);
      }
      if i: nat :| PushedPast(found, between, i, now) {
        assert i == last;
      }
  }

  /** IDLE does not have the operations' no-early-connect guarantee: after its sleep it connects without
      looking at the backoff again.  Waking on time, it connects early if and only if, of the connects
      that finished while it slept, the last failed with a stamp past the moment it wakes. */
  lemma IdleConnectsEarlyIff(s: Session, watch: string, t0: int, between: seq<Action>, now: int)
    requires SleptThrough(s, watch, t0, between, now)
    ensures var found := Step(s, Idle(watch, t0, false)).0;
      var events := Step(After(found, between), Idle(watch, now, true)).1;
      (exists e :: e in events && StartsEarly(e)) <==> exists i: nat :: PushedPast(found, between, i, now)
  {
    var found := Step(s, Idle(watch, t0, false)).0;
    assert found.client == None && found.nextConnectAt == s.nextConnectAt;
    StepSafe(s, Idle(watch, t0, false), watch);
    hide Step, Inv, DelayFor, PushedPast, StampedBy;
    BackoffAfter(found, between, watch);
    RunSafe(found, between, watch);
    WakeEarlyIff(After(found, between), watch, now);
    PushedPastIff(found, between, now);
  }

  lemma RunSafe(s: Session, actions: seq<Action>, watch: string)
    requires Inv(s, watch) && Legal(s, actions)
    requires forall i :: 0 <= i < |actions| ==> Watches(actions[i], watch)
    ensures Inv(After(s, actions), watch)
  {
    SessionSafety(s, actions, watch);
  }

  lemma WakeEarlyIff(s: Session, watch: string, now: int)
    requires Inv(s, watch) && s.holder.Free?
    ensures (exists e :: e in Step(s, Idle(watch, now, true)).1 && StartsEarly(e)) <==>
      Sweep(s).client == None && TooEarly(s, now)
  {
    var events := Step(s, Idle(watch, now, true)).1;
    if Sweep(s).client == None {
      assert events == [ConnectStarted(false, now, s.nextConnectAt)];
      assert events[0] in events;
    }
  }

  // A failed connect of IDLE's own, a second try that finds the backoff running and sleeps, a failed
  // connect of an operation meanwhile, and the sleeper waking on time.
  function PushedBack(watch: string): seq<Action> {
    [Idle(watch, 0, false), IdleConnected(FailedAt(0, 0.5)), Idle(watch, 100, false),
     Acquire(250), AcquireConnected(FailedAt(250, 0.5)), Idle(watch, 251, true)]
  }

  /** And it happens: from a fresh slot, IDLE connects at 251 ms although the backoff runs until 750. */
  lemma IdleConnectsEarly(watch: string)
    ensures Legal(FRESH, PushedBack(watch))
    ensures ConnectStarted(false, 251, Some(750)) in Events(FRESH, PushedBack(watch))
  {
    var a, b, c := Idle(watch, 0, false), IdleConnected(FailedAt(0, 0.5)), Idle(watch, 100, false);
    var d, e, f := Acquire(250), AcquireConnected(FailedAt(250, 0.5)), Idle(watch, 251, true);
    FirstDelays();
    hide DelayFor;
    var s1 := Step(FRESH, a).0;
    var s2 := Step(s1, b).0;
    var s3 := Step(s2, c).0;
    var s4 := Step(s3, d).0;
    var s5 := Step(s4, e).0;
    hide Legal, Events;
    assert [e] + [f] == [e, f] && [d] + [e, f] == [d, e, f] && [c] + [d, e, f] == [c, d, e, f];
    assert [b] + [c, d, e, f] == [b, c, d, e, f] && [a] + [b, c, d, e, f] == PushedBack(watch);
    OneOnly(s5, f);
    OneMore(s4, e, [f]);
    OneMore(s3, d, [e, f]);
    OneMore(s2, c, [d, e, f]);
    OneMore(s1, b, [c, d, e, f]);
    OneMore(FRESH, a, [b, c, d, e, f]);
    assert Step(s5, f).1 == [ConnectStarted(false, 251, Some(750))];
  }

  lemma FirstDelays()
    ensures DelayFor(RECONNECT, 0, 0.5) == 250 && DelayFor(RECONNECT, 1, 0.5) == 500
  {
    assert Pow(2.0, 0) == 1.0 && Pow(2.0, 1) == 2.0;
    assert Ceiling(RECONNECT, 0) == 500 && Ceiling(RECONNECT, 1) == 1000;
    assert Clamp(0.5) == 0.5;
  }
}
