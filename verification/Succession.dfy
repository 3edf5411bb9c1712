/** How a published version ends: at the very instant its successor starts, unless it was
    deactivated. Also, exactly when a call leaves two open versions in one line. */
module Succession {
  import opened Text
  import opened Records
  import opened Lifecycle
  import opened Timeline

  predicate ClosedPublished(r: Rec) {
    r.status.Published? && r.effectiveTo.Some?
  }

  predicate Succeeds(next: Rec, r: Rec) {
    next.status.Published? && SameLine(next, r) && r.effectiveTo == Some(next.effectiveFrom)
  }

  ghost predicate HasSuccessor(recs: seq<Rec>, i: nat)
    requires i < |recs|
  {
    exists j :: 0 <= j < |recs| && j != i && Succeeds(recs[j], recs[i])
  }

  /** The log holds the deactivation that gave `r` its end date. */
  ghost predicate WasDeactivated(log: seq<Audit>, r: Rec) {
    exists k :: 0 <= k < |log| && log[k].action.DeactivateAction? && log[k].snapshot == Some(r)
  }

  /** Every version closed since the state `base` has one of the two endings, and a deactivation
      is one that was logged since then. */
  ghost predicate Linked(s: State, base: State) {
    && |base.audits| <= |s.audits|
    && forall i :: 0 <= i < |s.recs| && ClosedPublished(s.recs[i]) && s.recs[i] !in base.recs ==>
         HasSuccessor(s.recs, i) || WasDeactivated(s.audits[|base.audits|..], s.recs[i])
  }

  lemma LaterLogKeeps(s: State, s': State, base: State, r: Rec)
    requires |base.audits| <= |s.audits| <= |s'.audits| && s'.audits[..|s.audits|] == s.audits
    requires WasDeactivated(s.audits[|base.audits|..], r)
    ensures WasDeactivated(s'.audits[|base.audits|..], r)
  {
    var log, log' := s.audits[|base.audits|..], s'.audits[|base.audits|..];
    var k :| 0 <= k < |log| && log[k].action.DeactivateAction? && log[k].snapshot == Some(r);
    assert log'[k] == s'.audits[|base.audits| + k] == s.audits[|base.audits| + k];
  }

  /** A call keeps the stored records in place, keeps the start and line of each published
      one, and closes at most the one at `closed`. */
  ghost predicate Evolves(recs: seq<Rec>, recs': seq<Rec>, closed: int) {
    && |recs| <= |recs'|
    && (forall i :: 0 <= i < |recs| && recs[i].status.Published? ==>
          if i == closed then recs'[i] == Close(recs[i], recs'[i].effectiveTo.GetOr(0)) else recs'[i] == recs[i])
    && (forall i :: 0 <= i < |recs'| && (i < |recs| ==> !recs[i].status.Published?) && recs'[i].status.Published? ==>
          recs'[i].effectiveTo.None?)
  }

  lemma EvolvesKeepsLinks(s: State, s': State, base: State, closed: int)
    requires Linked(s, base) && Evolves(s.recs, s'.recs, closed)
    requires |s.audits| <= |s'.audits| && s'.audits[..|s.audits|] == s.audits
    requires 0 <= closed < |s.recs| ==>
      s.recs[closed].status.Published? && s.recs[closed].effectiveTo.None?
      && (HasSuccessor(s'.recs, closed) || WasDeactivated(s'.audits[|base.audits|..], s'.recs[closed]))
    ensures Linked(s', base)
  {
    forall i | 0 <= i < |s'.recs| && i != closed && ClosedPublished(s'.recs[i]) && s'.recs[i] !in base.recs
      ensures HasSuccessor(s'.recs, i) || WasDeactivated(s'.audits[|base.audits|..], s'.recs[i])
    {
      assert s'.recs[i] == s.recs[i];
      if HasSuccessor(s.recs, i) {
        var j :| 0 <= j < |s.recs| && j != i && Succeeds(s.recs[j], s.recs[i]);
        assert Succeeds(s'.recs[j], s'.recs[i]);
      } else {
        LaterLogKeeps(s, s', base, s.recs[i]);
      }
    }
  }

  lemma CreateLinks(reg: Registry, s: State, a: CreateArgs, base: State, now: int)
    requires Linked(s, base) && Create(reg, s, a, now).Ok?
    ensures Linked(Create(reg, s, a, now).value, base)
  {
    EvolvesKeepsLinks(s, Create(reg, s, a, now).value, base, -1);
  }

  lemma SubmitLinks(s: State, masterType: string, code: string, actor: string, base: State)
    requires Linked(s, base) && Submit(s, masterType, code, actor).Ok?
    ensures Linked(Submit(s, masterType, code, actor).value, base)
  {
    EvolvesKeepsLinks(s, Submit(s, masterType, code, actor).value, base, -1);
  }

  lemma ApproveLinks(s: State, masterType: string, code: string, actor: string, base: State)
    requires Linked(s, base) && Approve(s, masterType, code, actor).Ok?
    ensures Linked(Approve(s, masterType, code, actor).value, base)
  {
    EvolvesKeepsLinks(s, Approve(s, masterType, code, actor).value, base, -1);
  }

  lemma UpdateLinks(reg: Registry, s: State, a: UpdateArgs, base: State, clock: int, now: int)
    requires Timelines(s.recs, clock) && clock <= now && Guard(reg, s, UpdateOp(a), now)
    requires StaysInScope(reg, s, UpdateOp(a), now)
    requires Update(reg, s, a, now).Ok? && Linked(s, base)
    ensures Linked(Update(reg, s, a, now).value, base)
  {
    var mt := Normalize(a.masterType);
    var s' := Update(reg, s, a, now).value;
    var i := Current(s, mt, a.code, now, a.tenant).value;
    InForceIsOpen(s.recs, clock, now, i);
    if reg[mt].requiresApproval && !a.force {
      EvolvesKeepsLinks(s, s', base, -1);
    } else {
      assert Succeeds(s'.recs[|s.recs|], s'.recs[i]);
      EvolvesKeepsLinks(s, s', base, i);
    }
  }

  lemma PublishLinks(reg: Registry, s: State, masterType: string, code: string, actor: string, base: State,
                     clock: int, now: int)
    requires Timelines(s.recs, clock) && clock <= now
    requires Guard(reg, s, PublishOp(masterType, code, actor), now)
    requires StaysInScope(reg, s, PublishOp(masterType, code, actor), now)
    requires Publish(s, masterType, code, actor, now).Ok? && Linked(s, base)
    ensures Linked(Publish(s, masterType, code, actor, now).value, base)
  {
    var mt := Normalize(masterType);
    var s' := Publish(s, masterType, code, actor, now).value;
    var i := LatestInStatus(s.recs, mt, code, Approved).value;
    var p := Predecessor(s.recs, mt, code, s.recs[i].id);
    PredecessorIsOpenVersion(reg, s, masterType, code, actor, clock, now);
    if p.Some? {
      assert Succeeds(s'.recs[i], s'.recs[p.value]);
    }
    EvolvesKeepsLinks(s, s', base, if p.Some? then p.value else -1);
  }

  lemma DeactivateLinks(reg: Registry, s: State, masterType: string, code: string, actor: string, refs: int,
                        base: State, clock: int, now: int)
    requires Timelines(s.recs, clock) && clock <= now && Linked(s, base)
    requires Deactivate(reg, s, masterType, code, actor, refs, now).Ok?
    ensures Linked(Deactivate(reg, s, masterType, code, actor, refs, now).value, base)
  {
    var s' := Deactivate(reg, s, masterType, code, actor, refs, now).value;
    var i := Current(s, Normalize(masterType), code, now, None).value;
    InForceIsOpen(s.recs, clock, now, i);
    assert s'.audits[|base.audits|..][|s.audits| - |base.audits|].snapshot == Some(s'.recs[i]);
    EvolvesKeepsLinks(s, s', base, i);
  }

  lemma StepLinks(reg: Registry, s: State, op: Op, base: State, clock: int, now: int)
    requires Timelines(s.recs, clock) && clock <= now && Guard(reg, s, op, now) && StaysInScope(reg, s, op, now)
    requires !op.DeleteOp?
    requires Linked(s, base)
    ensures Linked(Next(reg, s, op, now), base)
  {
    if Apply(reg, s, op, now).Ok? {
      match op {
        case UpdateOp(a) => UpdateLinks(reg, s, a, base, clock, now);
        case PublishOp(mt, code, actor) => PublishLinks(reg, s, mt, code, actor, base, clock, now);
        case DeactivateOp(mt, code, actor, refs) => DeactivateLinks(reg, s, mt, code, actor, refs, base, clock, now);
        case CreateOp(a) => CreateLinks(reg, s, a, base, now);
        case SubmitOp(mt, code, actor) => SubmitLinks(s, mt, code, actor, base);
        case ApproveOp(mt, code, actor) => ApproveLinks(s, mt, code, actor, base);
      }
    }
  }

  lemma {:induction false} RunLinks(reg: Registry, s: State, steps: seq<Step>, base: State, clock: int)
    requires Timelines(s.recs, clock) && Clocked(steps, clock) && Guarded(reg, s, steps)
    requires InScopeThroughout(reg, s, steps)
    requires forall k :: 0 <= k < |steps| ==> !steps[k].op.DeleteOp?
    requires Linked(s, base)
    ensures Linked(Run(reg, s, steps), base)
    decreases |steps|
  {
    if steps != [] {
      StepLinks(reg, s, steps[0].op, base, clock, steps[0].now);
      StepKeepsTimelines(reg, s, steps[0].op, clock, steps[0].now);
      RunLinks(reg, Next(reg, s, steps[0].op, steps[0].now), steps[1..], base, steps[0].now);
    }
  }

  /** Main result: after a guarded run without hard deletes, each published version that the
      run closed ends exactly where the next version of its line starts, or by a deactivation that the run
      logged. */
  lemma VersionsMeet(reg: Registry, s: State, steps: seq<Step>, clock: int, i: nat)
    requires Timelines(s.recs, clock) && Clocked(steps, clock) && Guarded(reg, s, steps)
    requires InScopeThroughout(reg, s, steps)
    requires forall k :: 0 <= k < |steps| ==> !steps[k].op.DeleteOp?
    requires
      var s' := Run(reg, s, steps);
      i < |s'.recs| && ClosedPublished(s'.recs[i]) && s'.recs[i] !in s.recs
    ensures
      var s' := Run(reg, s, steps);
      && |s.audits| <= |s'.audits|
      && (HasSuccessor(s'.recs, i) || WasDeactivated(s'.audits[|s.audits|..], s'.recs[i]))
  {
    RunLinks(reg, s, steps, s, clock);
  }

  /** Without any assumption on the store: after `publish` the new version is the only open
      one of its line exactly when the record `publish` closed was the open one, if any. */
  lemma PublishLeavesOneOpenExactlyWhen(s: State, masterType: string, code: string, actor: string, now: int)
    requires Publish(s, masterType, code, actor, now).Ok?
    ensures
      var mt := Normalize(masterType);
      var recs' := Publish(s, masterType, code, actor, now).value.recs;
      var i := LatestInStatus(s.recs, mt, code, Approved).value;
      (forall j :: 0 <= j < |recs'| && j != i && SameLine(recs'[j], recs'[i]) ==> !OpenPublished(recs'[j]))
      <==>
      (forall j :: 0 <= j < |s.recs| && SameLine(s.recs[j], s.recs[i]) && OpenPublished(s.recs[j]) ==>
         Predecessor(s.recs, mt, code, s.recs[i].id) == Some(j))
  {
    var mt := Normalize(masterType);
    var recs' := Publish(s, masterType, code, actor, now).value.recs;
    var i := LatestInStatus(s.recs, mt, code, Approved).value;
    var p := Predecessor(s.recs, mt, code, s.recs[i].id);
    assert SameLine(recs'[i], s.recs[i]);
    forall j | 0 <= j < |recs'| && j != i
      ensures SameLine(recs'[j], recs'[i]) == SameLine(s.recs[j], s.recs[i])
      ensures OpenPublished(recs'[j]) == (OpenPublished(s.recs[j]) && p != Some(j))
    {
    }
  }

  /** Without any assumption on the store: a creation leaves another open version in the line
      of the new record exactly when the line held an open version marked inactive, because
      `create_record` only looks for active records. */
  lemma CreateLeavesAnotherOpenExactlyWhen(reg: Registry, s: State, a: CreateArgs, now: int)
    requires Create(reg, s, a, now).Ok?
    ensures
      var recs' := Create(reg, s, a, now).value.recs;
      var r := recs'[|s.recs|];
      (exists j :: 0 <= j < |s.recs| && SameLine(recs'[j], r) && OpenPublished(recs'[j]))
      <==> (exists j :: 0 <= j < |s.recs| && SameLine(s.recs[j], r) && OpenPublished(s.recs[j]) && !s.recs[j].isActive)
  {
    var mt := Normalize(a.masterType);
    var recs' := Create(reg, s, a, now).value.recs;
    var r := recs'[|s.recs|];
    assert forall j :: 0 <= j < |s.recs| ==> recs'[j] == s.recs[j];
    if j :| 0 <= j < |s.recs| && SameLine(recs'[j], r) && OpenPublished(recs'[j]) {
      assert !IsActive(s.recs[j], mt, Normalize(a.code), a.tenant);
      assert SameLine(s.recs[j], r) && OpenPublished(s.recs[j]) && !s.recs[j].isActive;
    }
    if j :| 0 <= j < |s.recs| && SameLine(s.recs[j], r) && OpenPublished(s.recs[j]) && !s.recs[j].isActive {
      assert SameLine(recs'[j], r) && OpenPublished(recs'[j]);
    }
  }

  /** Without any assumption on the store: a direct update leaves another open version in the
      line of the new one exactly when that line held an open version other than the current
      one. A version scheduled for later is such a one: an update before its date does not
      find it. */
  lemma UpdateLeavesAnotherOpenExactlyWhen(reg: Registry, s: State, a: UpdateArgs, now: int)
    requires Update(reg, s, a, now).Ok? && (reg[Normalize(a.masterType)].requiresApproval ==> a.force)
    ensures
      var recs' := Update(reg, s, a, now).value.recs;
      var i := Current(s, Normalize(a.masterType), a.code, now, a.tenant).value;
      var next := recs'[|s.recs|];
      (exists j :: 0 <= j < |s.recs| && SameLine(recs'[j], next) && OpenPublished(recs'[j]))
      <==> (exists j :: 0 <= j < |s.recs| && j != i && SameLine(s.recs[j], next) && OpenPublished(s.recs[j]))
  {
    var recs' := Update(reg, s, a, now).value.recs;
    var i := Current(s, Normalize(a.masterType), a.code, now, a.tenant).value;
    var next := recs'[|s.recs|];
    UpdateIs(reg, s, a, now);
    assert !OpenPublished(recs'[i]);
    assert forall j :: 0 <= j < |s.recs| && j != i ==> recs'[j] == s.recs[j];
    if j :| 0 <= j < |s.recs| && SameLine(recs'[j], next) && OpenPublished(recs'[j]) {
      assert j != i && SameLine(s.recs[j], next) && OpenPublished(s.recs[j]);
    }
    if j :| 0 <= j < |s.recs| && j != i && SameLine(s.recs[j], next) && OpenPublished(s.recs[j]) {
      assert SameLine(recs'[j], next) && OpenPublished(recs'[j]);
    }
  }
}
