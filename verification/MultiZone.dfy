/** A request over several zones (`apply_changes` of external_dns/apply.rs): staged zone by zone in
    name order inside one database transaction, and committed for all of them or for none. */
module MultiZone {
  import opened Records
  import opened Zone
  import opened Transaction
  import opened ZoneService
  import ExternalDns
  import Store

  /** A zone's part of the request. */
  datatype Part = Part(name: string, ops: ExternalDns.ZoneOps)

  datatype Failure = ZoneNotFound(name: string) | Refused(name: string, error: ServiceError)

  /** What one zone's part comes to: a refusal, nothing, or the next state. */
  datatype Stage = Fails(failure: Failure) | Stays | Becomes(next: State)

  /** What a resolved request comes to in the locked zone. */
  function StageFrom(s: State, name: string, c: ExternalDns.Outcome): Stage {
    match c
    case Rejected(e) => Fails(Refused(name, AddRefused(e)))
    case Resolved(p) =>
      if p == ExternalDns.Plan([], []) then Stays
      else if s.serial == MAX_SERIAL then Fails(Refused(name, SerialExhausted))
      else Becomes(Finish(s, SwapTx(s, [], p.deletes, p.creates), s.meta))
  }

  function StageOf(s: State, part: Part): Stage {
    StageFrom(s, part.name, ExternalDns.Compute(s.meta.ttl, s.rows, part.ops))
  }

  function StageIn(zones: map<string, State>, part: Part): Stage {
    if part.name in zones then StageOf(zones[part.name], part) else Fails(ZoneNotFound(part.name))
  }

  function Stages(zones: map<string, State>, parts: seq<Part>): seq<Stage> {
    seq(|parts|, i requires 0 <= i < |parts| => StageIn(zones, parts[i]))
  }

  // ---- Bookkeeping over the stages ------------------------------------------------------------------------

  /** The first stage that fails, in request order. */
  function FirstFailure(st: seq<Stage>): Option<Failure> {
    if st == [] then None
    else
      match FirstFailure(st[..|st| - 1])
      case Some(f) => Some(f)
      case None => if st[|st| - 1].Fails? then Some(st[|st| - 1].failure) else None
  }

  /** One part per zone, as grouping by zone name leaves them. */
  ghost predicate OnePartEach(parts: seq<Part>) { forall i, j | 0 <= i < j < |parts| :: parts[i].name != parts[j].name }

  ghost predicate Supported(parts: seq<Part>) { forall part | part in parts :: ExternalDns.SupportedOps(part.ops) }

  ghost predicate Names(parts: seq<Part>, name: string) { exists i | 0 <= i < |parts| :: parts[i].name == name }

  ghost predicate Replaces(parts: seq<Part>, st: seq<Stage>, staged: map<string, State>, i: nat)
    requires i < |parts| && |st| == |parts|
  {
    if st[i].Becomes? then parts[i].name in staged && staged[parts[i].name] == st[i].next
    else parts[i].name !in staged
  }

  /** `staged` holds the next state of exactly the zones whose part changes something. */
  ghost predicate Staging(parts: seq<Part>, st: seq<Stage>, staged: map<string, State>) {
    && |st| == |parts|
    && (forall name | name in staged :: Names(parts, name))
    && (forall i | 0 <= i < |parts| :: Replaces(parts, st, staged, i))
  }

  lemma StagingGrows(parts: seq<Part>, st: seq<Stage>, n: nat, staged: map<string, State>)
    requires |st| == |parts| && n < |parts| && OnePartEach(parts) && Staging(parts[..n], st[..n], staged)
    ensures Staging(parts[..n + 1], st[..n + 1], if st[n].Becomes? then staged[parts[n].name := st[n].next] else staged)
  {
    var name, p, q := parts[n].name, parts[..n + 1], st[..n + 1];
    var out := if st[n].Becomes? then staged[name := st[n].next] else staged;
    forall m | m in staged ensures m != name && Names(p, m) {
      var i :| 0 <= i < n && parts[..n][i].name == m;
      assert p[i].name == m && parts[i].name != name;
    }
    assert p[n].name == name;
    forall i | 0 <= i < |p| ensures Replaces(p, q, out, i) {
      if i < n { assert Replaces(parts[..n], st[..n], staged, i) && parts[i].name != name; }
    }
  }

  lemma {:induction false} FailureSticks(st: seq<Stage>, n: nat)
    requires n <= |st| && FirstFailure(st[..n]).Some?
    ensures FirstFailure(st) == FirstFailure(st[..n])
    decreases |st|
  {
    if n == |st| {
      assert st[..n] == st;
    } else {
      assert st[..|st| - 1][..n] == st[..n];
      FailureSticks(st[..|st| - 1], n);
    }
  }

  lemma {:induction false} NoFailure(st: seq<Stage>, i: nat)
    requires FirstFailure(st).None? && i < |st|
    ensures !st[i].Fails?
    decreases |st|
  {
    if i < |st| - 1 { NoFailure(st[..|st| - 1], i); }
  }

  // ---- Committing ------------------------------------------------------------------------------------------

  ghost predicate Ends(run: seq<State>, s: State) { IsRun(run) && run != [] && run[|run| - 1] == s }

  ghost predicate Tracks(zones: map<string, State>, runs: map<string, seq<State>>) {
    zones.Keys == runs.Keys && forall name | name in zones :: Ends(runs[name], zones[name])
  }

  ghost function Extended(runs: map<string, seq<State>>, staged: map<string, State>): map<string, seq<State>> {
    map name | name in runs :: if name in staged then runs[name] + [staged[name]] else runs[name]
  }

  /** A stage that becomes a state extends its zone's run by one clean commit, after which the same
      part has nothing left to do. */
  lemma StageStep(h: seq<State>, s: State, part: Part, t: State)
    requires IsRun(h) && s == h[|h| - 1] && ExternalDns.SupportedOps(part.ops) && StageOf(s, part) == Becomes(t)
    ensures h + [t] in CleanRuns()
    ensures StageOf(t, part) == Stays
  {
    RunSerial(h, |h| - 1);
    var p := StagePlan(s, part, t);
    Store.PlanStep(h, s, part.ops, p, t);
    StageQuiet(h, s, part, p, t);
  }

  lemma StagePlan(s: State, part: Part, t: State) returns (p: ExternalDns.Plan)
    requires s.serial <= MAX_SERIAL && StageOf(s, part) == Becomes(t)
    ensures ExternalDns.Compute(s.meta.ttl, s.rows, part.ops) == ExternalDns.Resolved(p)
    ensures s.serial < MAX_SERIAL
    ensures t == Finish(s, SwapTx(s, [], p.deletes, p.creates), s.meta)
    ensures t.rows == ExternalDns.After(s.rows, p, s.nextId) && t.meta == s.meta
  {
    var c := ExternalDns.Compute(s.meta.ttl, s.rows, part.ops);
    FromPlan(s, part.name, c, t);
    p := c.plan;
  }

  lemma FromPlan(s: State, name: string, c: ExternalDns.Outcome, t: State)
    requires s.serial <= MAX_SERIAL && StageFrom(s, name, c) == Becomes(t)
    ensures c.Resolved? && s.serial < MAX_SERIAL
    ensures var p := c.plan;
            && t == Finish(s, SwapTx(s, [], p.deletes, p.creates), s.meta)
            && t.rows == ExternalDns.After(s.rows, p, s.nextId) && t.meta == s.meta
  {
  }

  lemma StageQuiet(h: seq<State>, s: State, part: Part, p: ExternalDns.Plan, t: State)
    requires IsRun(h) && s == h[|h| - 1] && ExternalDns.Compute(s.meta.ttl, s.rows, part.ops) == ExternalDns.Resolved(p)
    requires t.rows == ExternalDns.After(s.rows, p, s.nextId) && t.meta == s.meta
    ensures StageOf(t, part) == Stays
  {
    Store.PlanSettles(h, s, part.ops, p);
  }

  /** One zone's part after the commit of the whole request. */
  ghost predicate PartApplied(parts: seq<Part>, st: seq<Stage>,
                              zones: map<string, State>, runs: map<string, seq<State>>,
                              zones': map<string, State>, runs': map<string, seq<State>>, i: nat)
    requires i < |parts| && |st| == |parts|
  {
    var name := parts[i].name;
    && name in zones && name in zones' && name in runs && name in runs'
    && match st[i]
       case Becomes(t) => zones'[name] == t && runs'[name] == runs[name] + [t] && runs'[name] in CleanRuns()
       case Stays => zones'[name] == zones[name] && runs'[name] == runs[name]
       case Fails(_) => false
  }

  /** After a successful request: every part is applied, and every other zone is as it was. */
  ghost predicate AllApplied(parts: seq<Part>, st: seq<Stage>, zones: map<string, State>, runs: map<string, seq<State>>,
                             zones': map<string, State>, runs': map<string, seq<State>>) {
    && |st| == |parts| && zones'.Keys == zones.Keys && runs'.Keys == runs.Keys == zones.Keys
    && (forall name | name in zones && !Names(parts, name) :: zones'[name] == zones[name] && runs'[name] == runs[name])
    && (forall i | 0 <= i < |parts| :: PartApplied(parts, st, zones, runs, zones', runs', i))
  }

  /** The stages that become states extend the runs of their zones. */
  ghost predicate Extends(parts: seq<Part>, st: seq<Stage>, runs: map<string, seq<State>>) {
    |st| == |parts| && forall i | 0 <= i < |parts| :: Extending(parts, st, runs, i)
  }

  ghost predicate Extending(parts: seq<Part>, st: seq<Stage>, runs: map<string, seq<State>>, i: nat)
    requires i < |parts| && |st| == |parts|
  {
    !st[i].Fails? ==> parts[i].name in runs && (st[i].Becomes? ==> runs[parts[i].name] + [st[i].next] in CleanRuns())
  }

  ghost predicate CleanNext(runs: map<string, seq<State>>, staged: map<string, State>) {
    forall name | name in staged :: name in runs && runs[name] + [staged[name]] in CleanRuns()
  }

  lemma StagedClean(parts: seq<Part>, st: seq<Stage>, runs: map<string, seq<State>>, staged: map<string, State>)
    requires Staging(parts, st, staged) && Extends(parts, st, runs)
    ensures CleanNext(runs, staged)
  {
    forall name | name in staged ensures name in runs && runs[name] + [staged[name]] in CleanRuns() {
      var i :| 0 <= i < |parts| && parts[i].name == name;
      assert Replaces(parts, st, staged, i) && Extending(parts, st, runs, i);
    }
  }

  lemma RunNext(h: seq<State>, t: State)
    requires h + [t] in CleanRuns()
    ensures Ends(h + [t], t)
  {
  }

  lemma TracksNext(zones: map<string, State>, runs: map<string, seq<State>>, staged: map<string, State>)
    requires Tracks(zones, runs) && CleanNext(runs, staged)
    ensures Tracks(zones + staged, Extended(runs, staged)) && (zones + staged).Keys == zones.Keys
  {
    var zones', runs' := zones + staged, Extended(runs, staged);
    assert zones'.Keys == zones.Keys;
    forall name | name in zones' ensures Ends(runs'[name], zones'[name]) {
      if name in staged {
        RunNext(runs[name], staged[name]);
      } else {
        assert Ends(runs[name], zones[name]);
      }
    }
  }

  lemma CommitAll(parts: seq<Part>, st: seq<Stage>, zones: map<string, State>, runs: map<string, seq<State>>,
                  staged: map<string, State>)
    requires Tracks(zones, runs) && Staging(parts, st, staged) && Extends(parts, st, runs) && FirstFailure(st).None?
    ensures Tracks(zones + staged, Extended(runs, staged))
    ensures AllApplied(parts, st, zones, runs, zones + staged, Extended(runs, staged))
  {
    var zones', runs' := zones + staged, Extended(runs, staged);
    StagedClean(parts, st, runs, staged);
    TracksNext(zones, runs, staged);
    forall i | 0 <= i < |parts| ensures PartApplied(parts, st, zones, runs, zones', runs', i) {
      PartCommitted(parts, st, zones, runs, staged, i);
    }
  }

  lemma PartCommitted(parts: seq<Part>, st: seq<Stage>, zones: map<string, State>, runs: map<string, seq<State>>,
                      staged: map<string, State>, i: nat)
    requires i < |parts| && Tracks(zones, runs) && Staging(parts, st, staged) && Extends(parts, st, runs)
    requires FirstFailure(st).None?
    ensures PartApplied(parts, st, zones, runs, zones + staged, Extended(runs, staged), i)
  {
    NoFailure(st, i);
    assert Replaces(parts, st, staged, i) && Extending(parts, st, runs, i);
  }

  lemma StagesExtend(parts: seq<Part>, zones: map<string, State>, runs: map<string, seq<State>>)
    requires Tracks(zones, runs) && Supported(parts)
    ensures Extends(parts, Stages(zones, parts), runs)
  {
    var st := Stages(zones, parts);
    forall i | 0 <= i < |parts| ensures Extending(parts, st, runs, i) {
      assert parts[i] in parts;
      if st[i].Becomes? { StageStep(runs[parts[i].name], zones[parts[i].name], parts[i], st[i].next); }
    }
  }

  /** Once a request is applied, every part of it has nothing left to do. */
  lemma RequestSettles(parts: seq<Part>, zones: map<string, State>, runs: map<string, seq<State>>,
                       zones': map<string, State>, runs': map<string, seq<State>>, i: nat)
    requires Tracks(zones, runs) && Supported(parts) && i < |parts|
    requires AllApplied(parts, Stages(zones, parts), zones, runs, zones', runs')
    ensures Stages(zones', parts)[i] == Stays
  {
    var st := Stages(zones, parts);
    assert PartApplied(parts, st, zones, runs, zones', runs', i) && parts[i] in parts;
    if st[i].Becomes? { StageStep(runs[parts[i].name], zones[parts[i].name], parts[i], st[i].next); }
  }

  /** One zone's part against the locked zone, from the rows at its owner names. */
  method StagePart(ghost h: seq<State>, s: State, part: Part) returns (r: Stage)
    requires IsRun(h) && s == h[|h| - 1] && ExternalDns.SupportedOps(part.ops)
    ensures r == StageOf(s, part)
  {
    var c := Store.ResolveOps(h, s, part.ops);
    RunSerial(h, |h| - 1);
    if c.Rejected? { return Fails(Refused(part.name, AddRefused(c.error))); }
    if c.plan == ExternalDns.Plan([], []) { return Stays; }
    if NextSerial(s.serial).None? { return Fails(Refused(part.name, SerialExhausted)); }
    return Becomes(Finish(s, SwapTx(s, [], c.plan.deletes, c.plan.creates), s.meta));
  }

  ghost predicate IsStage(zones: map<string, State>, part: Part, r: Stage) { ComesTo(zones, part, r) == true }

  ghost predicate ComesTo(zones: map<string, State>, part: Part, r: Stage) { r == StageIn(zones, part) }

  ghost predicate AreStages(zones: map<string, State>, parts: seq<Part>, st: seq<Stage>) {
    |st| == |parts| && forall i | 0 <= i < |parts| :: IsStage(zones, parts[i], st[i])
  }

  lemma StagesAre(zones: map<string, State>, parts: seq<Part>)
    ensures AreStages(zones, parts, Stages(zones, parts))
  {
  }

  lemma SoleStage(zones: map<string, State>, part: Part, a: Stage, b: Stage)
    requires IsStage(zones, part, a) && IsStage(zones, part, b)
    ensures a == b
  {
    assert ComesTo(zones, part, a) && ComesTo(zones, part, b);
  }

  method StageOne(ghost runs: map<string, seq<State>>, zones: map<string, State>, part: Part) returns (r: Stage)
    requires Tracks(zones, runs) && ExternalDns.SupportedOps(part.ops)
    ensures IsStage(zones, part, r)
  {
    if part.name !in zones { return Fails(ZoneNotFound(part.name)); }
    r := StagePart(runs[part.name], zones[part.name], part);
  }

  /** The loop over the zones: the first failure ends it. */
  method StageAll(ghost runs: map<string, seq<State>>, zones: map<string, State>, parts: seq<Part>,
                  ghost st: seq<Stage>)
    returns (r: Option<Failure>, staged: map<string, State>)
    requires Tracks(zones, runs) && Supported(parts) && OnePartEach(parts) && AreStages(zones, parts, st)
    ensures r == FirstFailure(st)
    ensures r.None? ==> Staging(parts, st, staged)
  {
    staged := map[];
    for i := 0 to |parts|
      invariant FirstFailure(st[..i]).None? && Staging(parts[..i], st[..i], staged)
    {
      assert parts[i] in parts;
      var stage := StageOne(runs, zones, parts[i]);
      SoleStage(zones, parts[i], stage, st[i]);
      assert st[..i + 1][..i] == st[..i];
      StagingGrows(parts, st, i, staged);
      if stage.Fails? {
        FailureSticks(st, i + 1);
        return Some(stage.failure), staged;
      }
      if stage.Becomes? { staged := staged[parts[i].name := stage.next]; }
    }
    assert parts[..|parts|] == parts && st[..|parts|] == st;
    r := None;
  }

  class Database {
    var zones: map<string, State>

    /** Every zone's committed states, oldest first. */
    ghost var runs: map<string, seq<State>>

    ghost predicate Valid()
      reads this
    { Tracks(zones, runs) }

    constructor ()
      ensures Valid() && zones == map[]
    {
      zones, runs := map[], map[];
    }

    /** `apply_changes`: every zone's part commits, or none does. */
    method ApplyChanges(parts: seq<Part>) returns (r: Option<Failure>)
      requires Valid() && Supported(parts) && OnePartEach(parts)
      modifies this
      ensures Valid()
      ensures r == FirstFailure(Stages(old(zones), parts))
      ensures r.Some? ==> unchanged(this)
      ensures r.None? ==> AllApplied(parts, Stages(old(zones), parts), old(zones), old(runs), zones, runs)
    {
      ghost var st := Stages(zones, parts);
      StagesAre(zones, parts);
      var staged;
      r, staged := StageAll(runs, zones, parts, st);
      if r.None? {
        StagesExtend(parts, zones, runs);
        CommitAll(parts, st, zones, runs, staged);
        runs := Extended(runs, staged);
        zones := zones + staged;
      }
    }
  }
}
