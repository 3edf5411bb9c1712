/** Replay: folding the audit log over the starting records rebuilds exactly the stored
    records after every run, so the log loses nothing. */
module Replay {
  import opened Text
  import opened Records
  import opened Resolution
  import opened Lifecycle
  import opened Timeline

  /** Closes the open published version that `next` succeeds. */
  function CloseOpen(recs: seq<Rec>, next: Rec): (r: seq<Rec>)
    ensures |r| == |recs|
  {
    seq(|recs|, i requires 0 <= i < |recs| =>
      if OpenPublished(recs[i]) && SameLine(recs[i], next) && recs[i].id != next.id
      then Close(recs[i], next.effectiveFrom) else recs[i])
  }

  function ReplaceById(recs: seq<Rec>, r: Rec): (r': seq<Rec>)
    ensures |r'| == |recs|
  {
    seq(|recs|, i requires 0 <= i < |recs| => if recs[i].id == r.id then r else recs[i])
  }

  function RemoveById(recs: seq<Rec>, id: string): seq<Rec> {
    if recs == [] then []
    else if recs[0].id == id then RemoveById(recs[1..], id)
    else [recs[0]] + RemoveById(recs[1..], id)
  }

  function ReplayEntry(recs: seq<Rec>, e: Audit): seq<Rec> {
    match e.snapshot
    case None => RemoveById(recs, e.recordId)
    case Some(r) =>
      match e.action
      case CreateAction | DraftVersionAction => recs + [r]
      case UpdateVersionAction => CloseOpen(recs, r) + [r]
      case PublishAction => ReplaceById(CloseOpen(recs, r), r)
      case _ => ReplaceById(recs, r)
  }

  ghost function ReplayLog(base: seq<Rec>, log: seq<Audit>): seq<Rec> {
    if log == [] then base else ReplayEntry(ReplayLog(base, log[..|log| - 1]), log[|log| - 1])
  }

  lemma {:induction false} RemoveFresh(recs: seq<Rec>, id: string)
    requires FreshId(recs, id)
    ensures RemoveById(recs, id) == recs
  {
    if recs != [] {
      assert recs[0].id != id;
      assert FreshId(recs[1..], id);
      RemoveFresh(recs[1..], id);
      assert recs == [recs[0]] + recs[1..];
    }
  }

  lemma {:induction false} RemoveByIdIsRemoveAt(recs: seq<Rec>, i: nat)
    requires i < |recs|
    requires forall j :: 0 <= j < |recs| && j != i ==> recs[j].id != recs[i].id
    ensures RemoveById(recs, recs[i].id) == RemoveAt(recs, i)
  {
    if i == 0 {
      assert FreshId(recs[1..], recs[0].id);
      RemoveFresh(recs[1..], recs[0].id);
      assert RemoveAt(recs, 0) == recs[1..];
    } else {
      assert recs[1..][i - 1] == recs[i];
      assert recs[0].id != recs[i].id;
      RemoveByIdIsRemoveAt(recs[1..], i - 1);
      assert RemoveAt(recs, i) == [recs[0]] + RemoveAt(recs[1..], i - 1);
    }
  }

  lemma ReplaceByIdIsUpdate(recs: seq<Rec>, clock: int, i: nat, r: Rec)
    requires Timelines(recs, clock) && i < |recs| && r.id == recs[i].id
    ensures ReplaceById(recs, r) == recs[i := r]
  {
  }

  lemma CloseOpenIsClose(recs: seq<Rec>, clock: int, i: nat, next: Rec)
    requires Timelines(recs, clock) && i < |recs| && next.id != recs[i].id
    requires OpenPublished(recs[i]) && SameLine(recs[i], next)
    ensures CloseOpen(recs, next) == recs[i := Close(recs[i], next.effectiveFrom)]
  {
  }

  /** `s'` has one more entry than `s`, and replaying that entry gives the records of `s'`. */
  ghost predicate Logged(s: State, s': State) {
    && |s'.audits| == |s.audits| + 1 && s'.audits[..|s.audits|] == s.audits
    && s'.recs == ReplayEntry(s.recs, s'.audits[|s.audits|])
  }

  lemma ReplaySetStatus(s: State, clock: int, i: nat, r: Rec, code: string, action: Action, actor: string)
    requires Timelines(s.recs, clock) && i < |s.recs| && r.id == s.recs[i].id
    requires action.SubmitAction? || action.ApproveAction? || action.DeactivateAction?
    ensures Logged(s, SetStatus(s, i, r, code, action, actor))
  {
  }

  lemma ReplayDelete(reg: Registry, s: State, masterType: string, code: string, actor: string, refs: int, clock: int,
                     now: int)
    requires Timelines(s.recs, clock) && Delete(reg, s, masterType, code, actor, refs, now).Ok?
    ensures Logged(s, Delete(reg, s, masterType, code, actor, refs, now).value)
  {
    var i := Resolve(s.recs, Normalize(masterType), Normalize(code), now, None, true).value;
    forall j | 0 <= j < |s.recs| && j != i ensures s.recs[j].id != s.recs[i].id {
      PairAt(s.recs, clock, i, j);
    }
    RemoveByIdIsRemoveAt(s.recs, i);
  }

  /** A direct update is replayed exactly when it stays in its scope: a replay closes the open
      version of the snapshot's own line. */
  lemma ReplayUpdate(reg: Registry, s: State, a: UpdateArgs, clock: int, now: int)
    requires Timelines(s.recs, clock) && clock <= now && FreshId(s.recs, a.newId)
    requires Update(reg, s, a, now).Ok?
    ensures Logged(s, Update(reg, s, a, now).value) <==> StaysInScope(reg, s, UpdateOp(a), now)
  {
    var mt := Normalize(a.masterType);
    var i := Current(s, mt, a.code, now, a.tenant).value;
    UpdateIs(reg, s, a, now);
    if !(reg[mt].requiresApproval && !a.force) {
      var next := NextVersion(a, s.recs[i], false, now);
      InForceIsOpen(s.recs, clock, now, i);
      if SameLine(s.recs[i], next) {
        CloseOpenIsClose(s.recs, clock, i, next);
      } else {
        assert CloseOpen(s.recs, next)[i] == s.recs[i];
        assert Update(reg, s, a, now).value.recs[i] != s.recs[i];
        assert (CloseOpen(s.recs, next) + [next])[i] == s.recs[i];
      }
    }
  }

  /** So is a publication. */
  lemma ReplayPublish(reg: Registry, s: State, masterType: string, code: string, actor: string, clock: int, now: int)
    requires Timelines(s.recs, clock) && clock <= now
    requires Guard(reg, s, PublishOp(masterType, code, actor), now)
    requires Publish(s, masterType, code, actor, now).Ok?
    ensures Logged(s, Publish(s, masterType, code, actor, now).value)
      <==> StaysInScope(reg, s, PublishOp(masterType, code, actor), now)
  {
    if StaysInScope(reg, s, PublishOp(masterType, code, actor), now) {
      ReplayPublishInScope(reg, s, masterType, code, actor, clock, now);
    } else {
      PublishElsewhereIsLost(s, masterType, code, actor, clock, now);
    }
  }

  lemma ReplayPublishInScope(reg: Registry, s: State, masterType: string, code: string, actor: string, clock: int,
                             now: int)
    requires Timelines(s.recs, clock) && clock <= now
    requires Guard(reg, s, PublishOp(masterType, code, actor), now)
    requires StaysInScope(reg, s, PublishOp(masterType, code, actor), now)
    requires Publish(s, masterType, code, actor, now).Ok?
    ensures Logged(s, Publish(s, masterType, code, actor, now).value)
  {
    var mt := Normalize(masterType);
    var i := LatestInStatus(s.recs, mt, code, Approved).value;
    var r := Publish(s, masterType, code, actor, now).value.recs[i];
    var p := Predecessor(s.recs, mt, code, r.id);
    PredecessorIsOpenVersion(reg, s, masterType, code, actor, clock, now);
    if p.Some? {
      CloseOpenIsClose(s.recs, clock, p.value, r);
      CloseKeeps(s.recs, p.value, now, clock, now);
    } else {
      assert CloseOpen(s.recs, r) == s.recs;
    }
    assert CloseOpen(s.recs, r) == CloseAt(s.recs, p, now);
    ReplaceByIdIsUpdate(CloseAt(s.recs, p, now), if p.Some? then now else clock, i, r);
  }

  /** The replay does not close a version of another scope. */
  lemma PublishElsewhereIsLost(s: State, masterType: string, code: string, actor: string, clock: int, now: int)
    requires Timelines(s.recs, clock) && Publish(s, masterType, code, actor, now).Ok?
    requires
      var mt := Normalize(masterType);
      var i := LatestInStatus(s.recs, mt, code, Approved).value;
      var p := Predecessor(s.recs, mt, code, s.recs[i].id);
      p.Some? && s.recs[p.value].tenant != s.recs[i].tenant
    ensures !Logged(s, Publish(s, masterType, code, actor, now).value)
  {
    var mt := Normalize(masterType);
    var i := LatestInStatus(s.recs, mt, code, Approved).value;
    var p := Predecessor(s.recs, mt, code, s.recs[i].id).value;
    var recs' := Publish(s, masterType, code, actor, now).value.recs;
    assert recs'[p] == Close(s.recs[p], now) != s.recs[p];
    assert ReplaceById(CloseOpen(s.recs, recs'[i]), recs'[i])[p] == s.recs[p];
  }

  /** Main result: in a sound store a guarded call that succeeds appends one entry, and replaying
      that entry performs the call, exactly when the call closes no version of another scope. */
  lemma ReplayStepExactlyWhen(reg: Registry, s: State, op: Op, clock: int, now: int)
    requires Timelines(s.recs, clock) && clock <= now && Guard(reg, s, op, now)
    requires Apply(reg, s, op, now).Ok?
    ensures Logged(s, Next(reg, s, op, now)) <==> StaysInScope(reg, s, op, now)
  {
    var s' := Next(reg, s, op, now);
    match op {
      case CreateOp(_) =>
      case UpdateOp(a) => ReplayUpdate(reg, s, a, clock, now);
      case SubmitOp(mt, code, actor) =>
        var i := LatestInStatus(s.recs, Normalize(mt), code, Draft).value;
        ReplaySetStatus(s, clock, i, s'.recs[i], code, SubmitAction, actor);
      case ApproveOp(mt, code, actor) =>
        var i := LatestInStatus(s.recs, Normalize(mt), code, InReview).value;
        ReplaySetStatus(s, clock, i, s'.recs[i], code, ApproveAction, actor);
      case PublishOp(mt, code, actor) => ReplayPublish(reg, s, mt, code, actor, clock, now);
      case DeactivateOp(mt, code, actor, _) =>
        var i := Current(s, Normalize(mt), code, now, None).value;
        ReplaySetStatus(s, clock, i, s'.recs[i], code, DeactivateAction, actor);
      case DeleteOp(mt, code, actor, refs) => ReplayDelete(reg, s, mt, code, actor, refs, clock, now);
    }
  }

  function ActorOf(op: Op): string {
    match op
    case CreateOp(a) => a.actor
    case UpdateOp(a) => a.actor
    case _ => op.actor
  }

  /** The master type and the code that the caller named. */
  function TypeOf(op: Op): string {
    match op
    case CreateOp(a) => a.masterType
    case UpdateOp(a) => a.masterType
    case _ => op.masterType
  }

  function CodeOf(op: Op): string {
    match op
    case CreateOp(a) => a.code
    case UpdateOp(a) => a.code
    case _ => op.code
  }

  predicate Fits(action: Action, op: Op, snapshot: Option<Rec>) {
    match action
    case CreateAction => op.CreateOp?
    case DraftVersionAction => op.UpdateOp? && snapshot.Some? && snapshot.value.status.Draft?
    case UpdateVersionAction => op.UpdateOp? && snapshot.Some? && snapshot.value.status.Published?
    case SubmitAction => op.SubmitOp?
    case ApproveAction => op.ApproveOp?
    case PublishAction => op.PublishOp?
    case DeactivateAction => op.DeactivateOp?
    case DeleteAction => op.DeleteOp?
  }

  /** Position `k` is where the call stored or removed the record that its entry names. */
  predicate Touched(s: State, s': State, e: Audit, k: nat) {
    match e.snapshot
    case Some(r) =>
      && k < |s'.recs| && s'.recs[k] == r && e.recordId == r.id && e.version == r.version
      && (k < |s.recs| ==> s.recs[k] != r && s.recs[k].id == r.id)
    case None =>
      && k < |s.recs| && s'.recs == s.recs[..k] + s.recs[k + 1..]
      && e.recordId == s.recs[k].id && e.version == s.recs[k].version
  }

  /** The last entry of `s'` tells who made the call and of what kind it was, on which master and
      code, and names the record at position `k`. */
  predicate Tells(s: State, s': State, op: Op, k: nat) {
    && |s'.audits| == |s.audits| + 1
    && var e := s'.audits[|s.audits|];
       && e.changedBy == ActorOf(op) && Fits(e.action, op, e.snapshot) && (e.snapshot.None? <==> op.DeleteOp?)
       && e.masterType == Upper(Strip(TypeOf(op))) && e.code == CodeOf(op)
       && Touched(s, s', e, k)
  }

  lemma UpdateTells(reg: Registry, s: State, a: UpdateArgs, now: int)
    requires Update(reg, s, a, now).Ok?
    ensures Tells(s, Update(reg, s, a, now).value, UpdateOp(a), |s.recs|)
  {
    UpdateIs(reg, s, a, now);
  }

  lemma StatusTells(s: State, recs: seq<Rec>, i: nat, r: Rec, code: string, action: Action, op: Op)
    requires i < |s.recs| == |recs| && r.id == s.recs[i].id && r != s.recs[i]
    requires Fits(action, op, Some(r)) && !op.DeleteOp?
    requires r.masterType == Normalize(TypeOf(op)) && code == CodeOf(op)
    ensures Tells(s, SetStatus(State(recs, s.audits), i, r, code, action, ActorOf(op)), op, i)
  {
  }

  lemma PublishTells(s: State, masterType: string, code: string, actor: string, now: int)
    requires Publish(s, masterType, code, actor, now).Ok?
    ensures Tells(s, Publish(s, masterType, code, actor, now).value, PublishOp(masterType, code, actor),
                  LatestInStatus(s.recs, Normalize(masterType), code, Approved).value)
  {
    var mt := Normalize(masterType);
    var i := LatestInStatus(s.recs, mt, code, Approved).value;
    var r := s.recs[i].(status := Published, isActive := true, effectiveFrom := now, effectiveTo := None);
    StatusTells(s, CloseAt(s.recs, Predecessor(s.recs, mt, code, s.recs[i].id), now), i, r, code, PublishAction,
                PublishOp(masterType, code, actor));
  }

  lemma DeleteTells(reg: Registry, s: State, masterType: string, code: string, actor: string, refs: int, now: int)
    requires Delete(reg, s, masterType, code, actor, refs, now).Ok?
    ensures Tells(s, Delete(reg, s, masterType, code, actor, refs, now).value, DeleteOp(masterType, code, actor, refs),
                  Resolve(s.recs, Normalize(masterType), Normalize(code), now, None, true).value)
  {
  }

  /** Who called what: the entry of a successful call names its caller and the kind of call. It
      names the record that the call stored, with its new value, or that a deletion removed. */
  lemma EntryTellsCall(reg: Registry, s: State, op: Op, now: int) returns (k: nat)
    requires Apply(reg, s, op, now).Ok?
    ensures Tells(s, Next(reg, s, op, now), op, k)
  {
    match op {
      case CreateOp(_) =>
        k := |s.recs|;
      case UpdateOp(a) =>
        k := |s.recs|;
        UpdateTells(reg, s, a, now);
      case SubmitOp(mt, code, _) =>
        k := LatestInStatus(s.recs, Normalize(mt), code, Draft).value;
        StatusTells(s, s.recs, k, s.recs[k].(status := InReview), code, SubmitAction, op);
      case ApproveOp(mt, code, actor) =>
        k := LatestInStatus(s.recs, Normalize(mt), code, InReview).value;
        StatusTells(s, s.recs, k, s.recs[k].(status := Approved, approvedBy := Some(actor)), code, ApproveAction, op);
      case PublishOp(mt, code, actor) =>
        k := LatestInStatus(s.recs, Normalize(mt), code, Approved).value;
        PublishTells(s, mt, code, actor, now);
      case DeactivateOp(mt, code, _, _) =>
        k := Current(s, Normalize(mt), code, now, None).value;
        assert !Close(s.recs[k], now).EffectiveAt(now);
        StatusTells(s, s.recs, k, Close(s.recs[k], now), code, DeactivateAction, op);
      case DeleteOp(mt, code, actor, refs) =>
        k := Resolve(s.recs, Normalize(mt), Normalize(code), now, None, true).value;
        DeleteTells(reg, s, mt, code, actor, refs, now);
    }
  }

  /** The log from a given length on rebuilds the current records from those of that moment. */
  ghost predicate Rebuilds(base: State, s: State) {
    |base.audits| <= |s.audits| && ReplayLog(base.recs, s.audits[|base.audits|..]) == s.recs
  }

  lemma StepRebuilds(base: State, s: State, s': State)
    requires Rebuilds(base, s) && Logged(s, s')
    ensures Rebuilds(base, s')
  {
    var log, log' := s.audits[|base.audits|..], s'.audits[|base.audits|..];
    assert log'[..|log'| - 1] == log;
  }

  lemma {:induction false} RunRebuilds(reg: Registry, base: State, s: State, steps: seq<Step>, clock: int)
    requires Timelines(s.recs, clock) && Clocked(steps, clock) && Guarded(reg, s, steps)
    requires InScopeThroughout(reg, s, steps)
    requires Rebuilds(base, s)
    ensures Rebuilds(base, Run(reg, s, steps))
    decreases |steps|
  {
    if steps != [] {
      var op, now := steps[0].op, steps[0].now;
      var s' := Next(reg, s, op, now);
      StepKeepsTimelines(reg, s, op, clock, now);
      if Apply(reg, s, op, now).Ok? {
        ReplayStepExactlyWhen(reg, s, op, clock, now);
        StepRebuilds(base, s, s');
      }
      RunRebuilds(reg, base, s', steps[1..], now);
    }
  }

  /** Main result: after every guarded run whose calls stay in their scopes, the log replays to the
      stored records. */
  lemma LogRebuildsStore(reg: Registry, s: State, steps: seq<Step>, clock: int)
    requires Timelines(s.recs, clock) && Clocked(steps, clock) && Guarded(reg, s, steps)
    requires InScopeThroughout(reg, s, steps)
    ensures
      var s' := Run(reg, s, steps);
      |s.audits| <= |s'.audits| && ReplayLog(s.recs, s'.audits[|s.audits|..]) == s'.recs
  {
    assert Rebuilds(s, s);
    RunRebuilds(reg, s, s, steps, clock);
  }
}
