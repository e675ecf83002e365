/** The per-account circuit breaker, and what it guarantees over any interleaving of calls. */
module Breaker {
  datatype Phase = Closed(failures: nat) | Open(at: int) | HalfOpen

  datatype Config = Config(enabled: bool, threshold: nat, cooldown: nat)

  type Phases = map<string, Phase>

  function PhaseOf(phases: Phases, account: string): Phase {
    if account in phases then phases[account] else Closed(0)
  }

  /** `opened_at.elapsed()`, which never goes below zero. */
  function Elapsed(at: int, now: int): nat {
    if now < at then 0 else now - at
  }

  function Admit(c: Config, phases: Phases, account: string, now: int): (bool, Phases) {
    if !c.enabled then (true, phases)
    else
      match PhaseOf(phases, account)
      case Closed(_) => (true, phases)
      case Open(at) => if Elapsed(at, now) >= c.cooldown then (true, phases[account := HalfOpen]) else (false, phases)
      case HalfOpen => (false, phases)
  }

  function Record(c: Config, phases: Phases, account: string, success: bool, now: int): Phases {
    if !c.enabled then phases
    else if success then phases[account := Closed(0)]
    else
      phases[account :=
        match PhaseOf(phases, account)
        case Closed(n) => if n + 1 >= c.threshold then Open(now) else Closed(n + 1)
        case _ => Open(now)]
  }

  class Registry {
    const config: Config
    var phases: Phases

    constructor (config: Config)
      ensures this.config == config && phases == map[]
    {
      this.config, phases := config, map[];
    }

    method AdmitCall(account: string, now: int) returns (admitted: bool)
      modifies this
      ensures (admitted, phases) == Admit(config, old(phases), account, now)
      ensures !config.enabled ==> admitted && phases == old(phases)
      ensures config.enabled && (account !in old(phases) || old(phases)[account].Closed?) ==> admitted && phases == old(phases)
      ensures config.enabled && account in old(phases) && old(phases)[account].HalfOpen? ==> !admitted && phases == old(phases)
      ensures config.enabled && account in old(phases) && old(phases)[account].Open? ==>
        && (admitted <==> config.cooldown == 0 || now - old(phases)[account].at >= config.cooldown)
        && phases == if admitted then old(phases)[account := HalfOpen] else old(phases)
    {
      if !config.enabled {
        return true;
      }
      if account !in phases || phases[account].Closed? {
        return true;
      }
      match phases[account]
      case Open(at) =>
        if Elapsed(at, now) >= config.cooldown {
          phases := phases[account := HalfOpen];
          return true;
        }
        return false;
      case HalfOpen =>
        return false;
    }

    method RecordOutcome(account: string, success: bool, now: int)
      modifies this
      ensures phases == Record(config, old(phases), account, success, now)
      ensures !config.enabled ==> phases == old(phases)
      ensures config.enabled && success ==> phases == old(phases)[account := Closed(0)]
      ensures config.enabled && !success ==>
        var failures := if account !in old(phases) then 1 else if old(phases)[account].Closed? then old(phases)[account].failures + 1 else 0;
        phases == old(phases)[account := if 0 < failures < config.threshold then Closed(failures) else Open(now)]
    {
      if !config.enabled {
        return;
      }
      if success {
        phases := phases[account := Closed(0)];
        return;
      }
      var next: Phase;
      if account in phases && !phases[account].Closed? {
        next := Open(now);
      } else {
        var failures := if account in phases then phases[account].failures + 1 else 1;
        next := if failures >= config.threshold then Open(now) else Closed(failures);
      }
      phases := phases[account := next];
    }
  }

  // ---------------------------------------------------------------------------------------
  // Runs: calls of many accounts, each admitted and recorded at some time, interleaved freely
  // ---------------------------------------------------------------------------------------

  datatype Event =
    | AdmitAt(account: string, now: int)
    | RecordAt(account: string, success: bool, now: int)

  function Step(c: Config, phases: Phases, e: Event): Phases {
    match e
    case AdmitAt(account, now) => Admit(c, phases, account, now).1
    case RecordAt(account, success, now) => Record(c, phases, account, success, now)
  }

  function Run(c: Config, events: seq<Event>): Phases {
    if events == [] then map[] else Step(c, Run(c, events[..|events| - 1]), events[|events| - 1])
  }

  predicate Admitted(c: Config, phases: Phases, e: Event) {
    e.AdmitAt? && Admit(c, phases, e.account, e.now).0
  }

  /** Failures recorded on an account since its last recorded success. */
  function FailuresSince(events: seq<Event>, account: string): nat {
    if events == [] then 0
    else
      var e := events[|events| - 1];
      var before := FailuresSince(events[..|events| - 1], account);
      if e.RecordAt? && e.account == account then if e.success then 0 else before + 1
      else before
  }

  function Limit(c: Config): nat {
    if c.threshold == 0 then 1 else c.threshold
  }

  /** The phase is a count: closed exactly while fewer failures than the limit have been recorded
      since the last success, and then it carries that number. */
  lemma {:induction false} PhaseCountsFailures(c: Config, events: seq<Event>, account: string)
    requires c.enabled
    ensures PhaseOf(Run(c, events), account).Closed? <==> FailuresSince(events, account) < Limit(c)
    ensures PhaseOf(Run(c, events), account).Closed? ==>
      PhaseOf(Run(c, events), account).failures == FailuresSince(events, account)
  {
    if events != [] {
      PhaseCountsFailures(c, events[..|events| - 1], account);
    }
  }

  function EventsOf(events: seq<Event>, account: string): seq<Event> {
    if events == [] then []
    else
      var before := EventsOf(events[..|events| - 1], account);
      if events[|events| - 1].account == account then before + [events[|events| - 1]] else before
  }

  lemma RunPlus(c: Config, events: seq<Event>, e: Event)
    ensures Run(c, events + [e]) == Step(c, Run(c, events), e)
  {
    assert (events + [e])[..|events|] == events;
  }

  lemma StepAgrees(c: Config, p: Phases, q: Phases, e: Event, account: string)
    requires PhaseOf(p, account) == PhaseOf(q, account)
    ensures e.account != account ==> PhaseOf(Step(c, p, e), account) == PhaseOf(q, account)
    ensures e.account == account ==> PhaseOf(Step(c, p, e), account) == PhaseOf(Step(c, q, e), account)
    ensures e.account == account ==> (Admitted(c, p, e) <==> Admitted(c, q, e))
  {
  }

  /** Accounts are independent: an account's phase, and whether its next call is admitted, are what
      its own events alone would make them. */
  lemma {:induction false} AccountsAreIndependent(c: Config, events: seq<Event>, account: string, next: Event)
    ensures PhaseOf(Run(c, events), account) == PhaseOf(Run(c, EventsOf(events, account)), account)
    ensures next.account == account ==>
      (Admitted(c, Run(c, events), next) <==> Admitted(c, Run(c, EventsOf(events, account)), next))
  {
    hide Step, Admitted, PhaseOf;
    if events != [] {
      var n := |events| - 1;
      var own := EventsOf(events[..n], account);
      AccountsAreIndependent(c, events[..n], account, next);
      RunPlus(c, own, events[n]);
      StepAgrees(c, Run(c, events[..n]), Run(c, own), events[n], account);
    }
    StepAgrees(c, Run(c, events), Run(c, EventsOf(events, account)), next, account);
  }

  /** With the breaker off every call is admitted and no state is ever kept. */
  lemma {:induction false} DisabledTracksNothing(c: Config, events: seq<Event>, e: Event)
    requires !c.enabled
    ensures Run(c, events) == map[]
    ensures e.AdmitAt? ==> Admitted(c, Run(c, events), e)
  {
    if events != [] {
      DisabledTracksNothing(c, events[..|events| - 1], e);
    }
  }

  /** One probe at a time: once an account is half open, no call on it is admitted until some call
      on it records. */
  lemma {:induction false} SingleProbe(c: Config, events: seq<Event>, start: nat, upto: nat, account: string)
    requires c.enabled && start <= upto < |events|
    requires PhaseOf(Run(c, events[..start]), account) == HalfOpen
    requires forall k :: start <= k < upto ==> !(events[k].RecordAt? && events[k].account == account)
    ensures PhaseOf(Run(c, events[..upto]), account) == HalfOpen
    ensures events[upto].account == account ==> !Admitted(c, Run(c, events[..upto]), events[upto])
    decreases upto
  {
    if start < upto {
      SingleProbe(c, events, start, upto - 1, account);
      assert events[..upto][..upto - 1] == events[..upto - 1];
    }
  }

  /** Event f is the account's last recorded failure. */
  ghost predicate LastFailure(events: seq<Event>, account: string, f: nat) {
    && f < |events| && events[f].RecordAt? && events[f].account == account && !events[f].success
    && forall j :: f < j < |events| ==> !(events[j].RecordAt? && events[j].account == account && !events[j].success)
  }

  // A call of the account arrived once the cooldown after event f was over: it was the probe.
  ghost predicate Probed(c: Config, events: seq<Event>, account: string, f: nat)
    requires f < |events|
  {
    exists j :: f < j < |events| && events[j].AdmitAt? && events[j].account == account && Elapsed(events[f].now, events[j].now) >= c.cooldown
  }

  lemma LastFailurePlus(events: seq<Event>, e: Event, account: string, f: nat)
    ensures LastFailure(events + [e], account, f) <==>
      if e.RecordAt? && e.account == account && !e.success then f == |events| else LastFailure(events, account, f)
  {
    var longer := events + [e];
    assert longer[|events|] == e && forall j :: 0 <= j < |events| ==> longer[j] == events[j];
  }

  lemma ProbedPlus(c: Config, events: seq<Event>, e: Event, account: string, f: nat)
    requires f < |events|
    ensures Probed(c, events + [e], account, f) <==>
      Probed(c, events, account, f) || (e.AdmitAt? && e.account == account && Elapsed(events[f].now, e.now) >= c.cooldown)
  {
    hide Elapsed;
    var longer := events + [e];
    assert longer[|events|] == e && forall j :: 0 <= j < |events| ==> longer[j] == events[j];
    if j :| f < j < |events| && events[j].AdmitAt? && events[j].account == account && Elapsed(events[f].now, events[j].now) >= c.cooldown {
      assert longer[j].AdmitAt?;
    }
  }

  /** A tripped account is open since its last failure, or half open once a call came past the cooldown. */
  lemma {:induction false} TrippedPhase(c: Config, events: seq<Event>, account: string) returns (f: nat)
    requires c.enabled && FailuresSince(events, account) >= Limit(c)
    ensures LastFailure(events, account, f)
    ensures PhaseOf(Run(c, events), account) == if Probed(c, events, account, f) then HalfOpen else Open(events[f].now)
  {
    hide LastFailure, Probed, Elapsed;
    var n := |events| - 1;
    var before, e := events[..n], events[n];
    assert events == before + [e];
    PhaseCountsFailures(c, before, account);
    if e.RecordAt? && e.account == account {
      f := n;
      LastFailurePlus(before, e, account, f);
      NotYetProbed(c, events, account);
    } else {
      f := TrippedPhase(c, before, account);
      LastFailurePlus(before, e, account, f);
      LastFailureIsFailure(before, account, f);
      ProbedPlus(c, before, e, account, f);
    }
  }

  lemma LastFailureIsFailure(events: seq<Event>, account: string, f: nat)
    requires LastFailure(events, account, f)
    ensures f < |events|
  {
  }

  lemma NotYetProbed(c: Config, events: seq<Event>, account: string)
    requires events != []
    ensures !Probed(c, events, account, |events| - 1)
  {
  }

  /** When a call is admitted, read off the events alone: fewer failures than the limit since the last
      success, or a cooldown since the last failure with no earlier call past it. */
  lemma AdmittedIff(c: Config, events: seq<Event>, account: string, now: int)
    requires c.enabled
    ensures Admitted(c, Run(c, events), AdmitAt(account, now)) <==>
      || FailuresSince(events, account) < Limit(c)
      || exists f: nat :: LastFailure(events, account, f) && Elapsed(events[f].now, now) >= c.cooldown && !Probed(c, events, account, f)
  {
    hide Probed, Elapsed;
    PhaseCountsFailures(c, events, account);
    if FailuresSince(events, account) >= Limit(c) {
      var f := TrippedPhase(c, events, account);
      forall g: nat | LastFailure(events, account, g) ensures g == f {
      }
    }
  }

  /** A call past the cooldown is the one that is admitted: after a failure trips the account, the first
      such call goes through and those after it do not, until one records. */
  lemma ProbedMeansAdmitted(c: Config, events: seq<Event>, account: string, f: nat, j: nat)
    requires c.enabled && FailuresSince(events, account) >= Limit(c) && LastFailure(events, account, f) && f < j < |events|
    requires events[j].AdmitAt? && events[j].account == account
    ensures Admitted(c, Run(c, events[..j]), events[j]) <==>
      Elapsed(events[f].now, events[j].now) >= c.cooldown && !Probed(c, events[..j], account, f)
  {
    hide Elapsed;
    assert forall i :: 0 <= i < j ==> events[..j][i] == events[i];
    assert LastFailure(events[..j], account, f);
    StillTripped(c, events, account, f, j);
    AdmittedIff(c, events[..j], account, events[j].now);
    forall g: nat | LastFailure(events[..j], account, g) ensures g == f {
    }
  }

  lemma {:induction false} StillTripped(c: Config, events: seq<Event>, account: string, f: nat, j: nat)
    requires FailuresSince(events, account) >= Limit(c) && LastFailure(events, account, f) && f < j <= |events|
    ensures FailuresSince(events[..j], account) >= Limit(c)
    decreases |events|
  {
    if j == |events| {
      assert events[..j] == events;
    } else {
      var n := |events| - 1;
      assert LastFailure(events[..n], account, f);
      StillTripped(c, events[..n], account, f, j);
      assert events[..n][..j] == events[..j];
    }
  }

  ghost predicate ClockNeverGoesBack(events: seq<Event>) {
    forall i, j :: 0 <= i <= j < |events| ==> events[i].now <= events[j].now
  }

  ghost predicate NoSuccessBetween(events: seq<Event>, start: nat, upto: nat, account: string) {
    forall k :: start < k < upto && k < |events| ==>
      !(events[k].RecordAt? && events[k].account == account && events[k].success)
  }

  /** While tripped, an account stays half open or reopens no earlier than its last probe. */
  lemma {:induction false} StaysTripped(c: Config, events: seq<Event>, probe: nat, upto: nat, account: string)
    requires c.enabled && ClockNeverGoesBack(events) && probe < upto <= |events|
    requires events[probe].account == account && Admitted(c, Run(c, events[..probe]), events[probe])
    requires PhaseOf(Run(c, events[..probe]), account).Open?
    requires NoSuccessBetween(events, probe, upto, account)
    ensures var p := PhaseOf(Run(c, events[..upto]), account);
      p == HalfOpen || (p.Open? && p.at >= events[probe].now)
    decreases upto
  {
    assert events[..upto][..upto - 1] == events[..upto - 1];
    if probe < upto - 1 {
      StaysTripped(c, events, probe, upto - 1, account);
    }
  }

  /** Probes of an account that has not recovered are at least a cooldown apart. */
  lemma ProbesAreSpaced(c: Config, events: seq<Event>, probe: nat, next: nat, account: string)
    requires c.enabled && ClockNeverGoesBack(events) && probe < next < |events|
    requires events[probe].account == account && Admitted(c, Run(c, events[..probe]), events[probe])
    requires PhaseOf(Run(c, events[..probe]), account).Open?
    requires events[next].account == account && Admitted(c, Run(c, events[..next]), events[next])
    requires NoSuccessBetween(events, probe, next, account)
    ensures events[next].now - events[probe].now >= c.cooldown
  {
    StaysTripped(c, events, probe, next, account);
  }
}
