/** A component whose versions only ever move up, and are only rolled back from the top, is a stack. */
module VersionStack {
  import opened Common
  import opened ChangeClassifier
  import opened ProductVersion
  import opened Store
  import opened StoreInvariant
  import opened StoreSteps
  import opened RegistryRuns

  /** A version that has not been rolled back. */
  predicate IsStanding(vs: map<Id, Version>, c: Id, v: Id) {
    v in vs && vs[v].component == c && vs[v].status != RolledBack
  }

  predicate Below(vs: map<Id, Version>, v: Id, w: Id) {
    v in vs && w in vs && CoreLess(CoreNumber(vs[v].number), CoreNumber(vs[w].number))
  }

  /** The standing versions in ascending order, with the active one on top. */
  ghost predicate IsStack(vs: map<Id, Version>, c: Id, st: seq<Id>) {
    && (forall v :: v in st <==> IsStanding(vs, c, v))
    && (forall i, j :: 0 <= i < j < |st| ==> Below(vs, st[i], st[j]))
    && (st != [] ==> IsActive(vs, c, st[|st| - 1]))
  }

  /** Creates go strictly above everything standing, and rollbacks target the active version. */
  ghost predicate Disciplined(vs: map<Id, Version>, c: Id, command: Command) {
    match command
    case CreateVersion(_, component, number) =>
      component == c ==> forall v :: IsStanding(vs, c, v) ==> CoreLess(CoreNumber(vs[v].number), CoreNumber(number))
    case Rollback(target) =>
      target in vs && vs[target].component == c ==> IsActive(vs, c, target)
    case _ => true
  }

  /** Create pushes; rolling back the top pops, unless it is the last one. */
  function StackAfter(st: seq<Id>, c: Id, command: Command): seq<Id> {
    match command
    case CreateVersion(id, component, _) => if component == c then st + [id] else st
    case Rollback(target) => if |st| >= 2 && target == st[|st| - 1] then st[..|st| - 1] else st
    case _ => st
  }

  /** The active version is the top of the stack and the greatest standing version. */
  lemma ActiveIsTop(vs: map<Id, Version>, c: Id, st: seq<Id>, v: Id)
    requires SingleActive(vs) && IsStack(vs, c, st)
    ensures IsActive(vs, c, v) <==> st != [] && v == st[|st| - 1]
    ensures IsActive(vs, c, v) ==> forall w :: IsStanding(vs, c, w) && w != v ==> Below(vs, w, v)
  {
    if IsActive(vs, c, v) {
      assert v in st;
    }
  }

  lemma PushKeepsStack(vs: map<Id, Version>, c: Id, st: seq<Id>, id: Id, number: VersionNumber)
    requires SingleActive(vs) && IsStack(vs, c, st) && id !in vs
    requires forall v :: IsStanding(vs, c, v) ==> CoreLess(CoreNumber(vs[v].number), CoreNumber(number))
    ensures IsStack(WithVersion(vs, id, c, number), c, st + [id])
  {
  }

  /** Rolling back the top of a stack of two or more leaves exactly one choice: the row below it. */
  lemma OnlyPreviousIsBelowTop(vs: map<Id, Version>, c: Id, st: seq<Id>, w: Id)
    requires IsStack(vs, c, st) && |st| >= 2
    ensures IsPrevious(vs, st[|st| - 1], w) <==> w == st[|st| - 2]
  {
    var top, next := st[|st| - 1], st[|st| - 2];
    assert top in st && next in st;
    assert Below(vs, next, top);
    forall x | IsCandidate(vs, top, x) && x != next
      ensures Below(vs, x, next)
    {
      assert x in st;
      var i :| 0 <= i < |st| && st[i] == x;
      assert i < |st| - 2;
    }
    assert IsCandidate(vs, top, next);
  }

  lemma PopKeepsStack(vs: map<Id, Version>, c: Id, st: seq<Id>)
    requires SingleActive(vs) && IsStack(vs, c, st) && |st| >= 2
    ensures st[|st| - 1] in vs
    ensures IsStack(RolledBackTo(vs, st[|st| - 1], st[|st| - 2]), c, st[..|st| - 1])
  {
    var top, next, st' := st[|st| - 1], st[|st| - 2], st[..|st| - 1];
    assert top in st && next in st;
    var vs' := RolledBackTo(vs, top, next);
    forall v
      ensures v in st' <==> IsStanding(vs', c, v)
    {
      assert v in st <==> IsStanding(vs, c, v);
      if v in st' {
        var i :| 0 <= i < |st'| && st'[i] == v;
        assert Below(vs, st[i], top);
      }
      assert v in st ==> v in st' || v == top;
    }
    forall i, j | 0 <= i < j < |st'|
      ensures Below(vs', st'[i], st'[j])
    {
      assert Below(vs, st[i], st[j]);
    }
    assert st'[|st'| - 1] == next;
  }

  lemma LastVersionCannotRollBack(vs: map<Id, Version>, c: Id, st: seq<Id>, w: Id)
    requires IsStack(vs, c, st) && |st| == 1
    ensures st[0] in vs && !IsCandidate(vs, st[0], w)
  {
    assert st[0] in st;
    assert w in st <==> IsStanding(vs, c, w);
  }

  lemma OtherComponentKeepsStack(vs: map<Id, Version>, vs': map<Id, Version>, c: Id, st: seq<Id>)
    requires IsStack(vs, c, st)
    requires forall v :: v in vs && vs[v].component == c ==> v in vs' && vs'[v] == vs[v]
    requires forall v :: v in vs' && vs'[v].component == c ==> v in vs && vs[v] == vs'[v]
    ensures IsStack(vs', c, st)
  {
    forall v
      ensures v in st <==> IsStanding(vs', c, v)
    {
      assert v in st <==> IsStanding(vs, c, v);
    }
    forall i, j | 0 <= i < j < |st|
      ensures Below(vs', st[i], st[j])
    {
      assert st[i] in st && st[j] in st && Below(vs, st[i], st[j]);
    }
  }

  lemma RollbackRefinesPop(vs: map<Id, Version>, c: Id, st: seq<Id>, target: Id)
    requires SingleActive(vs) && IsStack(vs, c, st) && target in vs && vs[target].component == c
    requires IsActive(vs, c, target)
    ensures st != [] && target == st[|st| - 1]
    ensures |st| == 1 ==> forall w :: !IsCandidate(vs, target, w)
    ensures |st| >= 2 ==> forall w :: IsPrevious(vs, target, w) <==> w == st[|st| - 2]
    ensures |st| >= 2 ==> IsCandidate(vs, target, st[|st| - 2])
    ensures |st| >= 2 ==> IsStack(RolledBackTo(vs, target, st[|st| - 2]), c, st[..|st| - 1])
  {
    ActiveIsTop(vs, c, st, target);
    if |st| == 1 {
      forall w ensures !IsCandidate(vs, target, w) { LastVersionCannotRollBack(vs, c, st, w); }
    } else {
      forall w ensures IsPrevious(vs, target, w) <==> w == st[|st| - 2] { OnlyPreviousIsBelowTop(vs, c, st, w); }
      PopKeepsStack(vs, c, st);
      PreviousIsCandidate(vs, target, st[|st| - 2]);
    }
  }

  lemma CreateRefinesStack(vs: map<Id, Version>, c: Id, st: seq<Id>, id: Id, component: Id, number: VersionNumber)
    requires SingleActive(vs) && IsStack(vs, c, st) && id !in vs
    requires Disciplined(vs, c, CreateVersion(id, component, number))
    ensures IsStack(WithVersion(vs, id, component, number), c, if component == c then st + [id] else st)
  {
    hide IsStack;
    if component == c {
      PushKeepsStack(vs, c, st, id, number);
    } else {
      OtherComponentKeepsStack(vs, WithVersion(vs, id, component, number), c, st);
    }
  }

  lemma RollbackRefinesStack(vs: map<Id, Version>, c: Id, st: seq<Id>, target: Id, previous: Id)
    requires SingleActive(vs) && IsStack(vs, c, st) && target in vs && IsPrevious(vs, target, previous)
    requires vs[target].component == c ==> IsActive(vs, c, target)
    ensures IsStack(RolledBackTo(vs, target, previous), c,
                    if |st| >= 2 && target == st[|st| - 1] then st[..|st| - 1] else st)
  {
    PreviousIsCandidate(vs, target, previous);
    TopIsVersion(vs, c, st);
    if vs[target].component == c {
      RollbackRefinesPop(vs, c, st, target);
    } else {
      OtherComponentKeepsStack(vs, RolledBackTo(vs, target, previous), c, st);
    }
  }

  lemma NextRollbackRefines(s: Store, command: Command, s': Store, o: Outcome, c: Id, st: seq<Id>)
    requires SingleActive(s.versions) && command.Rollback? && Next(s, command, s', o)
    requires IsStack(s.versions, c, st) && Disciplined(s.versions, c, command)
    ensures IsStack(s'.versions, c, StackAfter(st, c, command))
    ensures st != [] && command.target == st[|st| - 1] ==>
      if |st| == 1 then o == Failed(NoPriorVersion) && s' == s else o == Reactivated(st[|st| - 2])
  {
    hide SingleActive, IsStack, IsPrevious, RolledBackTo;
    var target := command.target;
    TopIsVersion(s.versions, c, st);
    if st != [] && target == st[|st| - 1] {
      RollbackRefinesPop(s.versions, c, st, target);
    }
    if s' != s {
      RollbackRefinesStack(s.versions, c, st, target, o.version);
    }
  }

  lemma NextCreateRefines(s: Store, command: Command, s': Store, o: Outcome, c: Id, st: seq<Id>)
    requires SingleActive(s.versions) && command.CreateVersion? && Next(s, command, s', o) && c in s.components
    requires IsStack(s.versions, c, st) && Disciplined(s.versions, c, command)
    ensures IsStack(s'.versions, c, StackAfter(st, c, command))
  {
    hide SingleActive, IsStack, WithVersion;
    if command.component in s.components {
      CreateRefinesStack(s.versions, c, st, command.id, command.component, command.number);
    }
  }

  /** One disciplined command is one stack operation; popping the last version is refused. */
  lemma NextRefinesStack(s: Store, command: Command, s': Store, o: Outcome, c: Id, st: seq<Id>)
    requires Inv(s) && Next(s, command, s', o) && c in s.components
    requires IsStack(s.versions, c, st) && Disciplined(s.versions, c, command)
    ensures IsStack(s'.versions, c, StackAfter(st, c, command))
    ensures command.Rollback? && st != [] && command.target == st[|st| - 1] ==>
      if |st| == 1 then o == Failed(NoPriorVersion) && s' == s else o == Reactivated(st[|st| - 2])
  {
    hide Next, IsStack, SingleActive, Disciplined, DependenciesOk, ReleasesOk, PinsOk, LedgerOk;
    match command
    case CreateVersion(_, _, _) => NextCreateRefines(s, command, s', o, c, st);
    case Rollback(_) => NextRollbackRefines(s, command, s', o, c, st);
    case _ => OtherCommandsKeepVersions(s, command, s', o);
  }

  lemma TopIsVersion(vs: map<Id, Version>, c: Id, st: seq<Id>)
    requires IsStack(vs, c, st)
    ensures st != [] ==> IsActive(vs, c, st[|st| - 1])
  {
  }

  /** The commands `lo..hi` of a run, each disciplined for component `c` when it is issued. */
  ghost predicate DisciplinedRun(r: Run, lo: nat, hi: nat, c: Id)
    requires lo <= hi <= |r.commands| && |r.states| == |r.commands| + 1
  {
    forall i :: lo <= i < hi ==> Disciplined(r.states[i].versions, c, r.commands[i])
  }

  function Replay(st: seq<Id>, c: Id, commands: seq<Command>): seq<Id> {
    if commands == [] then st
    else StackAfter(Replay(st, c, commands[..|commands| - 1]), c, commands[|commands| - 1])
  }

  lemma {:induction false} ReplayLast(st: seq<Id>, c: Id, commands: seq<Command>)
    requires commands != []
    ensures Replay(st, c, commands) ==
      StackAfter(Replay(st, c, commands[..|commands| - 1]), c, commands[|commands| - 1])
  {
    hide StackAfter;
  }

  lemma {:induction false} ReplayGrows(st: seq<Id>, c: Id, commands: seq<Command>, lo: nat, i: nat)
    requires lo <= i < |commands|
    ensures Replay(st, c, commands[lo..i + 1]) == StackAfter(Replay(st, c, commands[lo..i]), c, commands[i])
  {
    hide StackAfter;
    ReplayLast(st, c, commands[lo..i + 1]);
    hide Replay;
    assert commands[lo..i + 1][..i - lo] == commands[lo..i];
  }

  lemma NothingReplayed(st: seq<Id>, c: Id, commands: seq<Command>, lo: nat)
    requires lo <= |commands|
    ensures Replay(st, c, commands[lo..lo]) == st
  {
  }

  /** Over any disciplined run the component's versions are the stack its commands spell out. */
  lemma {:induction false} RunRefinesStack(r: Run, lo: nat, hi: nat, c: Id, st: seq<Id>)
    requires IsRun(r) && lo <= hi <= |r.commands| && DisciplinedRun(r, lo, hi, c)
    requires c in r.states[lo].components && IsStack(r.states[lo].versions, c, st)
    ensures IsStack(r.states[hi].versions, c, Replay(st, c, r.commands[lo..hi]))
    decreases hi
  {
    hide Inv, Next, IsStack, Disciplined, Initial, Replay, StackAfter;
    if lo == hi {
      NothingReplayed(st, c, r.commands, lo);
    } else {
      var i := hi - 1;
      RunRefinesStack(r, lo, i, c, st);
      ReplayGrows(st, c, r.commands, lo, i);
      EveryStateHoldsInv(r, i);
      HistoryOnlyGrows(r, lo, i);
      assert Step(r, i) && Disciplined(r.states[i].versions, c, r.commands[i]);
      hide IsRun, DisciplinedRun, Step;
      NextRefinesStack(r.states[i], r.commands[i], r.states[hi], r.outcomes[i], c,
                       Replay(st, c, r.commands[lo..i]));
    }
  }

  lemma NoVersionsIsEmptyStack(vs: map<Id, Version>, c: Id)
    requires !HasVersion(vs, c)
    ensures IsStack(vs, c, [])
  {
  }

  /** From its first version on, a disciplined component's versions are what its commands spell out. */
  lemma HistoryIsStack(r: Run, lo: nat, hi: nat, c: Id)
    requires IsRun(r) && lo <= hi <= |r.commands| && DisciplinedRun(r, lo, hi, c)
    requires c in r.states[lo].components && !HasVersion(r.states[lo].versions, c)
    ensures var st := Replay([], c, r.commands[lo..hi]);
      && (forall v :: v in st <==> IsStanding(r.states[hi].versions, c, v))
      && (forall v :: IsActive(r.states[hi].versions, c, v) <==> st != [] && v == st[|st| - 1])
  {
    RunLengths(r);
    hide IsRun, Replay, DisciplinedRun, SingleActive;
    NoVersionsIsEmptyStack(r.states[lo].versions, c);
    RunRefinesStack(r, lo, hi, c, []);
    EveryStateHoldsInv(r, hi);
    forall v
      ensures var st := Replay([], c, r.commands[lo..hi]);
        IsActive(r.states[hi].versions, c, v) <==> st != [] && v == st[|st| - 1]
    {
      ActiveIsTop(r.states[hi].versions, c, Replay([], c, r.commands[lo..hi]), v);
    }
  }

  // ----- How often a component can be rolled back -----

  function Standing(vs: map<Id, Version>, c: Id): set<Id> {
    set v | v in vs && IsStanding(vs, c, v)
  }

  /** Command `m` successfully rolls back the version of `c` that is active when it is issued. */
  ghost predicate RollsBackActive(r: Run, m: nat, c: Id)
    requires m < |r.commands| && |r.states| == |r.commands| + 1 == |r.outcomes| + 1
  {
    r.commands[m].Rollback? && IsActive(r.states[m].versions, c, r.commands[m].target) && r.outcomes[m].Reactivated?
  }

  /** Any rollback of the active version strictly lowers the active version, disciplined or not. */
  lemma RollbackLowersActive(r: Run, m: nat, c: Id)
    requires IsRun(r) && m < |r.commands| && RollsBackActive(r, m, c)
    ensures var (vs, vs') := (r.states[m].versions, r.states[m + 1].versions);
      && IsActive(vs', c, r.outcomes[m].version)
      && r.outcomes[m].version in vs
      && CoreLess(CoreNumber(vs[r.outcomes[m].version].number), CoreNumber(vs[r.commands[m].target].number))
      && Standing(vs', c) == Standing(vs, c) - {r.commands[m].target}
      && r.commands[m].target in Standing(vs, c) && r.outcomes[m].version in Standing(vs', c)
  {
    assert Step(r, m);
    hide IsRun, Inv, Initial;
    PreviousIsCandidate(r.states[m].versions, r.commands[m].target, r.outcomes[m].version);
    RollbackShrinksStanding(r.states[m].versions, c, r.commands[m].target, r.outcomes[m].version);
  }

  lemma RollbackShrinksStanding(vs: map<Id, Version>, c: Id, target: Id, previous: Id)
    requires IsActive(vs, c, target) && IsCandidate(vs, target, previous)
    ensures var vs' := RolledBackTo(vs, target, previous);
      && IsActive(vs', c, previous)
      && Standing(vs', c) == Standing(vs, c) - {target}
      && target in Standing(vs, c) && previous in Standing(vs', c)
  {
  }

  /** With `n` standing versions, at most `n - 1` rollbacks of the active one can succeed in a row. */
  lemma {:induction false} RollbacksAreBounded(r: Run, lo: nat, count: nat, c: Id)
    requires IsRun(r) && lo + count <= |r.commands| && count > 0
    requires forall m :: lo <= m < lo + count ==> RollsBackActive(r, m, c)
    ensures |Standing(r.states[lo + count].versions, c)| + count == |Standing(r.states[lo].versions, c)|
    ensures count <= |Standing(r.states[lo].versions, c)| - 1
    decreases count
  {
    RunLengths(r);
    hide IsRun, Standing;
    var m := lo + count - 1;
    if count > 1 {
      RollbacksAreBounded(r, lo, count - 1, c);
    }
    assert RollsBackActive(r, m, c);
    RollbackLowersActive(r, m, c);
    var left := Standing(r.states[m + 1].versions, c);
    assert r.outcomes[m].version in left;
    assert |left| >= 1;
  }

  lemma RunLengths(r: Run)
    requires IsRun(r)
    ensures |r.states| == |r.commands| + 1 == |r.outcomes| + 1
  {
  }
}
