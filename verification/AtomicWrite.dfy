/** Configuration files are replaced by write, fsync and rename.  Any number of writers, in any
    number of processes, run these steps at the same time on one directory tree. */
module AtomicWrite {
  import opened Numerals
  import opened Wrappers

  type Content = seq<int>

  // A file name that is not valid text is printed as "config" in the temporary name.
  datatype Name = Text(text: string) | Raw(bytes: seq<int>)

  datatype Path = Path(dir: string, name: Name)

  function Temp(target: Path, pid: nat, unique: nat): Path {
    var base := if target.name.Text? then target.name.text else "config";
    Path(target.dir, Text(base + ".tmp." + Decimal(pid) + "." + Decimal(unique)))
  }

  // ---------------------------------------------------------------------------------------
  // Temporary names
  // ---------------------------------------------------------------------------------------

  lemma LastDotAgrees(a: string, b: string, c: string, d: string)
    requires a + "." + b == c + "." + d && '.' !in b
    ensures |c| <= |a|
  {
    var s := a + "." + b;
    assert s == c + "." + d && s[|c|] == '.';
    assert forall i :: |a| < i < |s| ==> s[i] == b[i - |a| - 1];
  }

  lemma LastDot(a: string, b: string, c: string, d: string)
    requires a + "." + b == c + "." + d && '.' !in b && '.' !in d
    ensures a == c && b == d
  {
    LastDotAgrees(a, b, c, d);
    LastDotAgrees(c, d, a, b);
    var s := a + "." + b;
    assert s[..|a|] == a && s[|a| + 1..] == b;
    assert s[..|c|] == c && s[|c| + 1..] == d;
  }

  lemma DecimalInjective(m: nat, n: nat)
    requires Decimal(m) == Decimal(n)
    ensures m == n
  {
    DecimalMeaning(m);
    DecimalMeaning(n);
  }

  lemma Suffix(base: string, d: string, e: string)
    ensures base + ".tmp." + d + "." + e == (base + ".tmp") + "." + d + "." + e
  {
    assert ".tmp." == ".tmp" + ".";
    assert base + ".tmp." == (base + ".tmp") + ".";
  }

  lemma NoDot(n: nat)
    ensures '.' !in Decimal(n)
  {
    DecimalMeaning(n);
  }

  /** Two temporary names are equal only for one process and one number. */
  lemma TempInjective(t: Path, p: nat, m: nat, u: Path, q: nat, n: nat)
    requires Temp(t, p, m) == Temp(u, q, n)
    ensures p == q && m == n && t.dir == u.dir
  {
    hide Decimal;
    NoDot(p);
    NoDot(q);
    NoDot(m);
    NoDot(n);
    var b := if t.name.Text? then t.name.text else "config";
    var c := if u.name.Text? then u.name.text else "config";
    var dp, dq, dm, dn := Decimal(p), Decimal(q), Decimal(m), Decimal(n);
    Suffix(b, dp, dm);
    Suffix(c, dq, dn);
    LastDot((b + ".tmp") + "." + dp, dm, (c + ".tmp") + "." + dq, dn);
    LastDot(b + ".tmp", dp, c + ".tmp", dq);
    DecimalInjective(p, q);
    DecimalInjective(m, n);
  }

  lemma TempIsNotTarget(target: Path, pid: nat, unique: nat)
    ensures Temp(target, pid, unique) != target
  {
    if target.name.Text? {
      assert |Temp(target, pid, unique).name.text| > |target.name.text|;
    }
  }

  // ---------------------------------------------------------------------------------------
  // One writer alone
  // ---------------------------------------------------------------------------------------

  datatype Stage = Started | Writing(written: nat) | Synced | Failing

  // The system call that fails in a run, if any.
  datatype Fault = OnCreate | OnWrite(written: nat) | OnSync | OnRename

  class Disk {
    var files: map<Path, Content>
    var counter: nat

    constructor (files: map<Path, Content>)
      ensures this.files == files && counter == 0
    {
      this.files := files;
      counter := 0;
    }

    /** With no other writer at work: on success the target holds the content, on a failure nothing
        but the temporary file differs, and the temporary file is gone unless removing it failed. */
    method Write(target: Path, content: Content, pid: nat, fault: Option<Fault>, removeFails: bool)
      returns (ok: bool)
      modifies this
      ensures ok <==> fault.None?
      ensures counter == old(counter) + 1
      ensures ok ==> files == (old(files) - {Temp(target, pid, old(counter))})[target := content]
      ensures !ok ==> forall p :: p != Temp(target, pid, old(counter)) ==>
        (p in files <==> p in old(files)) && (p in files ==> files[p] == old(files)[p])
      ensures !ok && !removeFails ==> Temp(target, pid, old(counter)) !in files
    {
      var unique := counter;
      counter := counter + 1;
      var temp := Temp(target, pid, unique);
      TempIsNotTarget(target, pid, unique);
      if fault == Some(OnCreate) {
        ok := false;
      } else {
        files := files[temp := []];
        if fault.Some? && fault.value.OnWrite? {
          files := files[temp := content[..if fault.value.written < |content| then fault.value.written else |content|]];
          ok := false;
        } else {
          files := files[temp := content];
          ok := fault.None?;
          if ok {
            files := (files - {temp})[target := files[temp]];
          }
        }
      }
      if !ok && !removeFails {
        files := files - {temp};
      }
    }
  }

  // ---------------------------------------------------------------------------------------
  // Any number of writers
  // ---------------------------------------------------------------------------------------

  datatype Writer = Writer(pid: nat, unique: nat, target: Path, content: Content, stage: Stage)

  // Which writer's rename last replaced each file.
  datatype State = State(files: map<Path, Content>, counters: map<nat, nat>, writers: map<nat, Writer>,
                         published: map<Path, Content>)

  function TempOf(w: Writer): Path {
    Temp(w.target, w.pid, w.unique)
  }

  datatype Step =
    | Spawn(pid: nat)
    | Exit(pid: nat)
    | Start(id: nat, pid: nat, target: Path, content: Content)
    | Create(id: nat)
    | WriteMore(id: nat, written: nat)
    | Sync(id: nat)
    | Rename(id: nat)
    | Fail(id: nat)
    | Remove(id: nat, fails: bool)

  predicate Enabled(s: State, a: Step) {
    match a
    case Spawn(pid) => pid !in s.counters
    case Exit(pid) => pid in s.counters
    case Start(id, pid, _, _) => id !in s.writers && pid in s.counters
    case Create(id) => id in s.writers && s.writers[id].stage.Started?
    case WriteMore(id, k) =>
      && id in s.writers && s.writers[id].stage.Writing?
      && s.writers[id].stage.written < k <= |s.writers[id].content|
    case Sync(id) => id in s.writers && s.writers[id].stage == Writing(|s.writers[id].content|)
    case Rename(id) => id in s.writers && s.writers[id].stage.Synced?
    case Fail(id) => id in s.writers && !s.writers[id].stage.Failing?
    case Remove(id, _) => id in s.writers && s.writers[id].stage.Failing?
  }

  function SetStage(s: State, id: nat, stage: Stage): State
    requires id in s.writers
  {
    s.(writers := s.writers[id := s.writers[id].(stage := stage)])
  }

  function Next(s: State, a: Step): State
    requires Enabled(s, a)
  {
    match a
    case Spawn(pid) => s.(counters := s.counters[pid := 0])
    case Exit(pid) =>
      s.(counters := s.counters - {pid}, writers := map id | id in s.writers && s.writers[id].pid != pid :: s.writers[id])
    case Start(id, pid, target, content) =>
      s.(counters := s.counters[pid := s.counters[pid] + 1],
         writers := s.writers[id := Writer(pid, s.counters[pid], target, content, Started)])
    case Create(id) => SetStage(s.(files := s.files[TempOf(s.writers[id]) := []]), id, Writing(0))
    case WriteMore(id, k) =>
      var w := s.writers[id];
      SetStage(s.(files := s.files[TempOf(w) := w.content[..k]]), id, Writing(k))
    case Sync(id) => SetStage(s, id, Synced)
    case Rename(id) =>
      var w := s.writers[id];
      var temp := TempOf(w);
      if temp !in s.files then SetStage(s, id, Failing)
      else
        s.(files := (s.files - {temp})[w.target := s.files[temp]], writers := s.writers - {id},
           published := s.published[w.target := w.content])
    case Fail(id) => SetStage(s, id, Failing)
    case Remove(id, fails) =>
      s.(files := if fails then s.files else s.files - {TempOf(s.writers[id])}, writers := s.writers - {id})
  }

  ghost predicate Numbered(s: State) {
    && (forall i :: i in s.writers ==> s.writers[i].pid in s.counters)
    && (forall i :: i in s.writers ==> s.writers[i].unique < s.counters[s.writers[i].pid])
    && (forall i, j :: i in s.writers && j in s.writers && i != j && s.writers[i].pid == s.writers[j].pid ==>
          s.writers[i].unique != s.writers[j].unique)
  }

  // What a writer's temporary file holds at each stage.
  ghost predicate Holds(files: map<Path, Content>, w: Writer) {
    match w.stage
    case Writing(k) => k <= |w.content| && TempOf(w) in files && files[TempOf(w)] == w.content[..k]
    case Synced => TempOf(w) in files && files[TempOf(w)] == w.content
    case _ => true
  }

  ghost predicate Inv(s: State) {
    Numbered(s) && forall i :: i in s.writers ==> Holds(s.files, s.writers[i])
  }

  // The writer that a step belongs to.
  function Actor(a: Step): Option<nat> {
    match a
    case Spawn(_) => None
    case Exit(_) => None
    case Start(id, _, _, _) => Some(id)
    case Create(id) => Some(id)
    case WriteMore(id, _) => Some(id)
    case Sync(id) => Some(id)
    case Rename(id) => Some(id)
    case Fail(id) => Some(id)
    case Remove(id, _) => Some(id)
  }

  ghost predicate SameFile(f: map<Path, Content>, g: map<Path, Content>, p: Path) {
    (p in f <==> p in g) && (p in f ==> f[p] == g[p])
  }

  lemma TempsDiffer(s: State, i: nat, j: nat)
    requires Numbered(s) && i in s.writers && j in s.writers && i != j
    ensures TempOf(s.writers[i]) != TempOf(s.writers[j])
  {
    var v, w := s.writers[i], s.writers[j];
    if TempOf(v) == TempOf(w) {
      TempInjective(v.target, v.pid, v.unique, w.target, w.pid, w.unique);
    }
  }

  /** A step changes no file but its own writer's temporary file and target. */
  lemma StepTouches(s: State, a: Step, p: Path)
    requires Enabled(s, a)
    requires Actor(a).Some? && Actor(a).value in s.writers ==>
      p != TempOf(s.writers[Actor(a).value]) && (a.Rename? ==> p != s.writers[a.id].target)
    ensures SameFile(s.files, Next(s, a).files, p)
  {
  }

  /** A rename whose target is the temporary file of another live writer. */
  ghost predicate Clash(s: State, a: Step) {
    a.Rename? && a.id in s.writers
    && exists j :: j in s.writers && j != a.id && s.writers[a.id].target == TempOf(s.writers[j])
  }

  /** No step of another writer touches a writer's temporary file, whatever the targets are, but for a
      rename straight onto it, which leaves the other's temporary file there. */
  lemma TempUntouched(s: State, a: Step, j: nat)
    requires Numbered(s) && Enabled(s, a) && j in s.writers && Actor(a) != Some(j)
    ensures var p := TempOf(s.writers[j]);
      if a.Rename? && s.writers[a.id].target == p && TempOf(s.writers[a.id]) in s.files
      then p in Next(s, a).files && Next(s, a).files[p] == s.files[TempOf(s.writers[a.id])]
      else SameFile(s.files, Next(s, a).files, p)
  {
    var p := TempOf(s.writers[j]);
    if Actor(a).Some? && Actor(a).value in s.writers {
      TempsDiffer(s, Actor(a).value, j);
    }
    if !(a.Rename? && s.writers[a.id].target == p) {
      StepTouches(s, a, p);
    }
  }

  lemma NextNumbered(s: State, a: Step)
    requires Numbered(s) && Enabled(s, a)
    ensures Numbered(Next(s, a))
  {
    hide Temp;
    if !a.Start? && !a.Exit? && !a.Spawn? {
      NumbersStay(s, a);
      hide Next;
    }
  }

  lemma NumbersStay(s: State, a: Step)
    requires Enabled(s, a) && !a.Start? && !a.Exit? && !a.Spawn?
    ensures Next(s, a).counters == s.counters
    ensures forall i :: i in Next(s, a).writers ==>
      i in s.writers && Next(s, a).writers[i].pid == s.writers[i].pid && Next(s, a).writers[i].unique == s.writers[i].unique
  {
    hide Temp;
  }

  lemma OwnFile(s: State, a: Step)
    requires Inv(s) && Enabled(s, a) && Actor(a).Some? && Actor(a).value in Next(s, a).writers
    ensures Holds(Next(s, a).files, Next(s, a).writers[Actor(a).value])
  {
    hide Temp, Numbered;
  }

  lemma OthersStay(s: State, a: Step, j: nat)
    requires Enabled(s, a) && j in Next(s, a).writers && Actor(a) != Some(j)
    ensures j in s.writers && Next(s, a).writers[j] == s.writers[j]
  {
  }

  /** Every step but a clash keeps each writer's temporary file its own, as far written as it thinks. */
  lemma NextInv(s: State, a: Step)
    requires Inv(s) && Enabled(s, a) && !Clash(s, a)
    ensures Inv(Next(s, a))
  {
    var t := Next(s, a);
    NextNumbered(s, a);
    forall j | j in t.writers ensures Holds(t.files, t.writers[j]) {
      if Actor(a) == Some(j) {
        OwnFile(s, a);
      } else {
        OthersStay(s, a, j);
        TempUntouched(s, a, j);
      }
    }
  }

  ghost predicate Runs(s: State, steps: seq<Step>)
    decreases |steps|
  {
    steps == [] || (Enabled(s, steps[0]) && Runs(Next(s, steps[0]), steps[1..]))
  }

  ghost function After(s: State, steps: seq<Step>): State
    requires Runs(s, steps)
    decreases |steps|
  {
    if steps == [] then s else After(Next(s, steps[0]), steps[1..])
  }

  ghost predicate ClashFree(s: State, steps: seq<Step>)
    requires Runs(s, steps)
    decreases |steps|
  {
    steps == [] || (!Clash(s, steps[0]) && ClashFree(Next(s, steps[0]), steps[1..]))
  }

  lemma {:induction false} RunInv(s: State, steps: seq<Step>)
    requires Inv(s) && Runs(s, steps) && ClashFree(s, steps)
    ensures Inv(After(s, steps))
    decreases |steps|
  {
    if steps != [] {
      hide Next, Inv, Clash;
      NextInv(s, steps[0]);
      RunInv(Next(s, steps[0]), steps[1..]);
    }
  }

  lemma RenameSucceeds(s: State, id: nat)
    requires id in s.writers && s.writers[id].stage.Synced? && Holds(s.files, s.writers[id])
    ensures var t := Next(s, Rename(id));
      var w := s.writers[id];
      id !in t.writers && w.target in t.files && t.files[w.target] == w.content
  {
    hide Temp;
  }

  /** A writer that ends, by its rename or by removing its file after a failure, leaves no temporary file. */
  lemma EndingCleansUp(s: State, a: Step)
    requires Enabled(s, a) && (a.Rename? || (a.Remove? && !a.fails)) && a.id !in Next(s, a).writers
    ensures TempOf(s.writers[a.id]) !in Next(s, a).files
  {
    var w := s.writers[a.id];
    TempIsNotTarget(w.target, w.pid, w.unique);
    hide Temp;
  }

  /** A rename always finds its writer's own temporary file, complete: no write is lost to a rename
      that another writer won. */
  lemma RenameFindsItsFile(s: State, steps: seq<Step>, id: nat)
    requires Inv(s) && Runs(s, steps) && ClashFree(s, steps) && Enabled(After(s, steps), Rename(id))
    ensures var w := After(s, steps).writers[id];
      var t := Next(After(s, steps), Rename(id));
      id !in t.writers && w.target in t.files && t.files[w.target] == w.content
  {
    hide Next, Numbered, Holds, ClashFree;
    RunInv(s, steps);
    RenameSucceeds(After(s, steps), id);
  }

  // What a reader of p must see: the content of the last rename onto it, or what was there before.
  ghost predicate Whole(initial: map<Path, Content>, s: State, p: Path) {
    if p in s.published then p in s.files && s.files[p] == s.published[p] else SameFile(initial, s.files, p)
  }

  ghost predicate NobodysTemp(s: State, p: Path) {
    forall i :: i in s.writers ==> p != TempOf(s.writers[i])
  }

  lemma StepWhole(initial: map<Path, Content>, s: State, a: Step, p: Path)
    requires Inv(s) && Enabled(s, a) && NobodysTemp(s, p) && Whole(initial, s, p)
    ensures Whole(initial, Next(s, a), p)
  {
    hide Temp, Numbered;
    if !(a.Rename? && p == s.writers[a.id].target) {
      StepTouches(s, a, p);
    }
  }

  ghost predicate NeverATemp(s: State, steps: seq<Step>, p: Path)
    requires Runs(s, steps)
    decreases |steps|
  {
    NobodysTemp(s, p) && (steps == [] || NeverATemp(Next(s, steps[0]), steps[1..], p))
  }

  /** At every moment of every interleaving without a clash, a file that is no writer's temporary file
      holds its initial bytes or exactly the complete content of the writer that renamed last. */
  lemma {:induction false} TargetIsAlwaysWhole(initial: map<Path, Content>, s: State, steps: seq<Step>, p: Path)
    requires Inv(s) && Runs(s, steps) && ClashFree(s, steps) && NeverATemp(s, steps, p) && Whole(initial, s, p)
    ensures Whole(initial, After(s, steps), p)
    decreases |steps|
  {
    if steps != [] {
      hide Next, Inv, Clash, Whole, NobodysTemp;
      NextInv(s, steps[0]);
      StepWhole(initial, s, steps[0], p);
      TargetIsAlwaysWhole(initial, Next(s, steps[0]), steps[1..], p);
    }
  }

  // ---------------------------------------------------------------------------------------
  // Which sets of files may be written this way
  // ---------------------------------------------------------------------------------------

  // One process, nobody writing.
  ghost function Fresh(files: map<Path, Content>, pid: nat): State {
    State(files, map[pid := 0], map[], map[])
  }

  ghost predicate WritesOnly(steps: seq<Step>, targets: iset<Path>) {
    forall i :: 0 <= i < |steps| && steps[i].Start? ==> steps[i].target in targets
  }

  /** Every file of the set is seen whole in every run that writes files of the set only. */
  ghost predicate AlwaysWhole(targets: iset<Path>) {
    forall files, pid, steps, p ::
      p in targets && Runs(Fresh(files, pid), steps) && WritesOnly(steps, targets) ==>
        Whole(files, After(Fresh(files, pid), steps), p)
  }

  /** No file of the set has the temporary name of a write to a file of the set. */
  ghost predicate Separate(targets: iset<Path>) {
    forall t, u, pid, unique :: t in targets && u in targets ==> Temp(t, pid, unique) != u
  }

  ghost predicate TargetsIn(s: State, targets: iset<Path>) {
    forall i :: i in s.writers ==> s.writers[i].target in targets
  }

  lemma StepTargetsIn(s: State, a: Step, targets: iset<Path>)
    requires TargetsIn(s, targets) && Enabled(s, a) && (a.Start? ==> a.target in targets)
    ensures TargetsIn(Next(s, a), targets)
  {
    hide Temp;
  }

  lemma SeparateNeverClashes(s: State, a: Step, targets: iset<Path>, p: Path)
    requires TargetsIn(s, targets) && Separate(targets) && p in targets
    ensures !Clash(s, a) && NobodysTemp(s, p)
  {
    hide Temp;
  }

  lemma {:induction false} SeparateRunIsClean(s: State, steps: seq<Step>, targets: iset<Path>, p: Path)
    requires Inv(s) && TargetsIn(s, targets) && Separate(targets) && p in targets
    requires Runs(s, steps) && WritesOnly(steps, targets)
    ensures ClashFree(s, steps) && NeverATemp(s, steps, p)
    decreases |steps|
  {
    if steps == [] {
      SeparateNeverClashes(s, Spawn(0), targets, p);
    } else {
      hide Next, Inv, Clash, NobodysTemp, Separate, TargetsIn;
      assert steps[0].Start? ==> steps[0].target in targets;
      SeparateNeverClashes(s, steps[0], targets, p);
      NextInv(s, steps[0]);
      StepTargetsIn(s, steps[0], targets);
      assert forall i :: 0 <= i < |steps[1..]| ==> steps[1..][i] == steps[i + 1];
      SeparateRunIsClean(Next(s, steps[0]), steps[1..], targets, p);
    }
  }

  /** Starting n writes of one file moves the counter on by n and touches no file. */
  lemma {:induction false} StartMany(s: State, pid: nat, n: nat, target: Path) returns (steps: seq<Step>)
    requires pid in s.counters
    requires forall id :: id in s.writers ==> id < s.counters[pid]
    ensures Runs(s, steps) && WritesOnly(steps, iset{target})
    ensures After(s, steps).files == s.files && After(s, steps).published == s.published
    ensures pid in After(s, steps).counters && After(s, steps).counters[pid] == s.counters[pid] + n
    ensures forall id :: id in After(s, steps).writers ==> id < After(s, steps).counters[pid]
    decreases n
  {
    if n == 0 {
      steps := [];
    } else {
      var a := Start(s.counters[pid], pid, target, []);
      var rest := StartMany(Next(s, a), pid, n - 1, target);
      steps := [a] + rest;
      assert steps[1..] == rest;
    }
  }

  lemma {:induction false} Concatenated(s: State, first: seq<Step>, then_: seq<Step>)
    requires Runs(s, first) && Runs(After(s, first), then_)
    ensures Runs(s, first + then_) && After(s, first + then_) == After(After(s, first), then_)
    decreases |first|
  {
    if first == [] {
      assert first + then_ == then_;
    } else {
      Concatenated(Next(s, first[0]), first[1..], then_);
      assert (first + then_)[1..] == first[1..] + then_;
    }
  }

  lemma OneStep(s: State, a: Step)
    requires Enabled(s, a)
    ensures Runs(s, [a]) && After(s, [a]) == Next(s, a)
  {
    hide Next, Enabled;
    assert [a][1..] == [];
    assert After(Next(s, a), []) == Next(s, a);
  }

  lemma CreateNext(s: State, id: nat, pid: nat, target: Path) returns (steps: seq<Step>)
    requires pid in s.counters && id !in s.writers
    ensures Runs(s, steps) && WritesOnly(steps, iset{target})
    ensures After(s, steps).files == s.files[Temp(target, pid, s.counters[pid]) := []]
    ensures After(s, steps).published == s.published
  {
    var start, create := Start(id, pid, target, []), Create(id);
    steps := [start] + [create];
    OneStep(s, start);
    OneStep(Next(s, start), create);
    Concatenated(s, [start], [create]);
  }

  /** A file with the temporary name of some write is seen truncated. */
  lemma TruncatedMidway(target: Path, pid: nat, unique: nat, targets: iset<Path>)
    requires target in targets && Temp(target, pid, unique) in targets
    ensures !AlwaysWhole(targets)
  {
    hide Temp, Next, Enabled;
    var p := Temp(target, pid, unique);
    var s := Fresh(map[p := [0]], pid);
    var starts := StartMany(s, pid, unique, target);
    var create := CreateNext(After(s, starts), unique, pid, target);
    Concatenated(s, starts, create);
    assert WritesOnly(starts + create, targets);
    assert !Whole(map[p := [0]], After(s, starts + create), p);
  }

  /** Exactly the sets of files that may be written this way: their readers always see whole files if
      and only if no file of the set has the temporary name of a write to another. */
  lemma AlwaysWholeIff(targets: iset<Path>)
    ensures AlwaysWhole(targets) <==> Separate(targets)
  {
    if Separate(targets) {
      forall files, pid, steps, p |
        p in targets && Runs(Fresh(files, pid), steps) && WritesOnly(steps, targets)
        ensures Whole(files, After(Fresh(files, pid), steps), p)
      {
        SeparateRunIsClean(Fresh(files, pid), steps, targets, p);
        TargetIsAlwaysWhole(files, Fresh(files, pid), steps, p);
      }
    } else {
      var t, u, pid, unique :| t in targets && u in targets && Temp(t, pid, unique) == u;
      TruncatedMidway(t, pid, unique, targets);
    }
  }

  // ---------------------------------------------------------------------------------------
  // A clash
  // ---------------------------------------------------------------------------------------

  // A write of x, synced; a write onto its temporary file, carried through; and the first one's rename.
  function ClashRun(x: Path, pid: nat, c: Content, d: Content): seq<Step> {
    [Start(0, pid, x, c), Start(1, pid, Temp(x, pid, 0), d)]
    + [Create(0), WriteMore(0, |c|), Sync(0)] + [Create(1), WriteMore(1, |d|), Sync(1)]
    + [Rename(1), Rename(0)]
  }

  lemma Finishes(s: State, id: nat)
    requires id in s.writers && s.writers[id].stage == Started && s.writers[id].content != []
    ensures var w := s.writers[id];
      var steps := [Create(id), WriteMore(id, |w.content|), Sync(id)];
      && Runs(s, steps)
      && After(s, steps) == s.(files := s.files[TempOf(w) := w.content], writers := s.writers[id := w.(stage := Synced)])
  {
    hide Temp;
    var w := s.writers[id];
    var a, b, c := Create(id), WriteMore(id, |w.content|), Sync(id);
    assert w.content[..|w.content|] == w.content;
    OneStep(s, a);
    OneStep(Next(s, a), b);
    OneStep(Next(Next(s, a), b), c);
    Concatenated(s, [a], [b]);
    Concatenated(s, [a] + [b], [c]);
    assert [a] + [b] + [c] == [a, b, c];
    var t := s.(files := s.files[TempOf(w) := w.content], writers := s.writers[id := w.(stage := Synced)]);
    assert Next(Next(Next(s, a), b), c).writers == t.writers;
    assert Next(Next(Next(s, a), b), c).files == t.files;
  }

  lemma TwoSteps(s: State, a: Step, b: Step)
    requires Enabled(s, a) && Enabled(Next(s, a), b)
    ensures Runs(s, [a, b]) && After(s, [a, b]) == Next(Next(s, a), b)
  {
    hide Next, Enabled;
    OneStep(s, a);
    OneStep(Next(s, a), b);
    Concatenated(s, [a], [b]);
    assert [a] + [b] == [a, b];
  }

  /** A clash really breaks the promise: x ends up with the content that was written onto the first
      writer's temporary file, and not with what was written to x. */
  lemma ClashPublishesTheOther(files: map<Path, Content>, x: Path, pid: nat, c: Content, d: Content)
    requires c != [] && d != [] && c != d
    ensures Runs(Fresh(files, pid), ClashRun(x, pid, c, d))
    ensures var t := After(Fresh(files, pid), ClashRun(x, pid, c, d));
      t.published[x := c] == t.published && x in t.files && t.files[x] == d && !Whole(files, t, x)
  {
    var s := Fresh(files, pid);
    var y := Temp(x, pid, 0);
    var z := Temp(y, pid, 1);
    var v, w := Writer(pid, 0, x, c, Started), Writer(pid, 1, y, d, Started);
    var p, q, r := [Start(0, pid, x, c), Start(1, pid, y, d)], [Create(0), WriteMore(0, |c|), Sync(0)], [Create(1), WriteMore(1, |d|), Sync(1)];
    BothStart(s, x, y, c, d, pid);
    var begun := After(s, p);
    Finishes(begun, 0);
    Finishes(After(begun, q), 1);
    var two := After(After(begun, q), r);
    BothRename(two, v.(stage := Synced), w.(stage := Synced));
    hide Next, Enabled, Temp, Runs, After, Fresh;
    Concatenated(s, p, q);
    Concatenated(s, p + q, r);
    Concatenated(s, p + q + r, [Rename(1), Rename(0)]);
  }

  lemma BothStart(s: State, x: Path, y: Path, c: Content, d: Content, pid: nat)
    requires s.writers == map[] && s.counters == map[pid := 0]
    ensures var steps := [Start(0, pid, x, c), Start(1, pid, y, d)];
      && Runs(s, steps) && After(s, steps).files == s.files && After(s, steps).published == s.published
      && After(s, steps).writers == map[0 := Writer(pid, 0, x, c, Started), 1 := Writer(pid, 1, y, d, Started)]
  {
    TwoSteps(s, Start(0, pid, x, c), Start(1, pid, y, d));
  }

  lemma BothRename(t: State, v: Writer, w: Writer)
    requires t.writers == map[0 := v, 1 := w] && v.stage == w.stage == Synced && w.target == TempOf(v)
    requires TempOf(w) in t.files && t.files[TempOf(w)] == w.content
    ensures var u := Next(t, Rename(1));
      && Runs(t, [Rename(1), Rename(0)])
      && After(t, [Rename(1), Rename(0)]) == Next(u, Rename(0))
      && Next(u, Rename(0)).published == t.published[w.target := w.content][v.target := v.content]
      && v.target in Next(u, Rename(0)).files && Next(u, Rename(0)).files[v.target] == w.content
  {
    hide Temp;
    TwoSteps(t, Rename(1), Rename(0));
  }
}
