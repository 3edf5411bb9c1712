/** Approval is never bypassed: on a master that requires approval, and without forced
    publication, every published record the service made went through the whole workflow. */
module Approval {
  import opened Text
  import opened Records
  import opened Resolution
  import opened Lifecycle
  import opened Timeline

  /** The audit entries of one record id, in order. */
  function Trail(log: seq<Audit>, id: string): seq<Audit> {
    if log == [] then []
    else
      var rest := Trail(log[..|log| - 1], id);
      if log[|log| - 1].recordId == id then rest + [log[|log| - 1]] else rest
  }

  /** A trail is exactly the entries of the id, in the order of the log. */
  lemma {:induction false} TrailIsComplete(log: seq<Audit>, id: string) returns (at: seq<nat>)
    ensures |at| == |Trail(log, id)| && forall j, k :: 0 <= j < k < |at| ==> at[j] < at[k]
    ensures forall k :: k in at <==> 0 <= k < |log| && log[k].recordId == id
    ensures forall j :: 0 <= j < |at| ==> at[j] < |log| && Trail(log, id)[j] == log[at[j]]
  {
    at := [];
    if log != [] {
      var n := |log| - 1;
      at := TrailIsComplete(log[..n], id);
      if log[n].recordId == id {
        assert forall j :: 0 <= j < |at| ==> at[j] in at;
        at := at + [n];
      }
    }
  }

  predicate Made(trail: seq<Audit>) {
    |trail| > 0 && (trail[0].action.CreateAction? || trail[0].action.DraftVersionAction?)
  }

  predicate Submitted(trail: seq<Audit>) {
    |trail| > 1 && Made(trail) && trail[1].action.SubmitAction?
  }

  predicate ApprovedBy(trail: seq<Audit>, r: Rec) {
    |trail| > 2 && Submitted(trail) && trail[2].action.ApproveAction? && r.approvedBy == Some(trail[2].changedBy)
  }

  /** The whole trail that a record's status calls for, and nothing else. */
  predicate TrailFits(trail: seq<Audit>, r: Rec) {
    match r.status
    case Draft => |trail| == 1 && Made(trail)
    case InReview => |trail| == 2 && Submitted(trail)
    case Approved => |trail| == 3 && ApprovedBy(trail, r)
    case Published =>
      && |trail| > 3 && ApprovedBy(trail, r) && trail[3].action.PublishAction?
      && forall k :: 4 <= k < |trail| ==> trail[k].action.DeactivateAction?
    case _ => false
  }

  predicate DistinctIds(recs: seq<Rec>) {
    forall i, j :: 0 <= i < j < |recs| ==> recs[i].id != recs[j].id
  }

  /** Every record of type `mt` that is not one of the starting ones has a fitting trail. */
  ghost predicate Accounted(s: State, mt: string, base: set<string>) {
    && DistinctIds(s.recs)
    && forall i :: 0 <= i < |s.recs| && s.recs[i].masterType == mt && s.recs[i].id !in base ==>
         TrailFits(Trail(s.audits, s.recs[i].id), s.recs[i])
  }

  ghost predicate NeverUsed(s: State, id: string) {
    FreshId(s.recs, id) && forall k :: 0 <= k < |s.audits| ==> s.audits[k].recordId != id
  }

  /** New ids are fresh, and nobody forces a publication on `mt`. */
  ghost predicate Unforced(s: State, op: Op, mt: string) {
    match op
    case CreateOp(a) => NeverUsed(s, a.newId) && (Normalize(a.masterType) == mt ==> !a.force)
    case UpdateOp(a) => NeverUsed(s, a.newId) && (Normalize(a.masterType) == mt ==> !a.force)
    case _ => true
  }

  lemma {:induction false} TrailOfUnused(log: seq<Audit>, id: string)
    requires forall k :: 0 <= k < |log| ==> log[k].recordId != id
    ensures Trail(log, id) == []
  {
    if log != [] {
      TrailOfUnused(log[..|log| - 1], id);
    }
  }

  lemma TrailGrows(log: seq<Audit>, e: Audit, id: string)
    ensures Trail(log + [e], id) == if e.recordId == id then Trail(log, id) + [e] else Trail(log, id)
  {
  }

  /** Replacing record `i` and logging the change under its id. */
  lemma ReplaceAccounts(s: State, i: nat, r: Rec, code: string, action: Action, actor: string, mt: string,
                        base: set<string>)
    requires Accounted(s, mt, base) && i < |s.recs|
    requires r.id == s.recs[i].id && r.masterType == s.recs[i].masterType
    requires r.masterType == mt && r.id !in base ==>
      TrailFits(Trail(s.audits, r.id) + [Entry(r, code, action, actor)], r)
    ensures Accounted(SetStatus(s, i, r, code, action, actor), mt, base)
  {
  }

  /** Closing a record touches neither its status nor its approver. */
  lemma CloseAccounts(s: State, i: nat, at: int, mt: string, base: set<string>)
    requires Accounted(s, mt, base) && i < |s.recs|
    ensures Accounted(State(s.recs[i := Close(s.recs[i], at)], s.audits), mt, base)
  {
  }

  lemma AppendAccounts(s: State, r: Rec, e: Audit, mt: string, base: set<string>)
    requires Accounted(s, mt, base) && NeverUsed(s, r.id) && e.recordId == r.id
    requires r.masterType == mt ==> r.status.Draft? && (e.action.CreateAction? || e.action.DraftVersionAction?)
    ensures Accounted(State(s.recs + [r], s.audits + [e]), mt, base)
  {
    var s' := State(s.recs + [r], s.audits + [e]);
    TrailOfUnused(s.audits, r.id);
    forall j | 0 <= j < |s'.recs| && s'.recs[j].masterType == mt && s'.recs[j].id !in base
      ensures TrailFits(Trail(s'.audits, s'.recs[j].id), s'.recs[j])
    {
      TrailGrows(s.audits, e, s'.recs[j].id);
    }
  }

  lemma RemoveAccounts(s: State, i: nat, e: Audit, mt: string, base: set<string>)
    requires Accounted(s, mt, base) && i < |s.recs| && e.recordId == s.recs[i].id
    ensures Accounted(State(RemoveAt(s.recs, i), s.audits + [e]), mt, base)
  {
  }

  lemma UpdateAccounts(reg: Registry, s: State, a: UpdateArgs, now: int, mt: string, base: set<string>)
    requires mt in reg && reg[mt].requiresApproval
    requires Accounted(s, mt, base) && Unforced(s, UpdateOp(a), mt)
    requires Update(reg, s, a, now).Ok?
    ensures Accounted(Update(reg, s, a, now).value, mt, base)
  {
    var m := Normalize(a.masterType);
    var i := Current(s, m, a.code, now, a.tenant).value;
    var draft := reg[m].requiresApproval && !a.force;
    var next := NextVersion(a, s.recs[i], draft, now);
    if draft {
      AppendAccounts(s, next, Entry(next, a.code, DraftVersionAction, a.actor), mt, base);
    } else {
      var at := a.effectiveAt.GetOr(now);
      CloseAccounts(s, i, at, mt, base);
      AppendAccounts(State(s.recs[i := Close(s.recs[i], at)], s.audits), next,
                     Entry(next, a.code, UpdateVersionAction, a.actor), mt, base);
    }
  }

  lemma PublishAccounts(s: State, masterType: string, code: string, actor: string, now: int, mt: string,
                        base: set<string>)
    requires Accounted(s, mt, base) && Publish(s, masterType, code, actor, now).Ok?
    ensures Accounted(Publish(s, masterType, code, actor, now).value, mt, base)
  {
    var m := Normalize(masterType);
    var s' := Publish(s, masterType, code, actor, now).value;
    var i := LatestInStatus(s.recs, m, code, Approved).value;
    var p := Predecessor(s.recs, m, code, s.recs[i].id);
    var closed := State(CloseAt(s.recs, p, now), s.audits);
    if p.Some? { CloseAccounts(s, p.value, now, mt, base); }
    ReplaceAccounts(closed, i, s'.recs[i], code, PublishAction, actor, mt, base);
  }

  lemma SubmitAccounts(s: State, masterType: string, code: string, actor: string, mt: string, base: set<string>)
    requires Accounted(s, mt, base) && Submit(s, masterType, code, actor).Ok?
    ensures Accounted(Submit(s, masterType, code, actor).value, mt, base)
  {
    var i := LatestInStatus(s.recs, Normalize(masterType), code, Draft).value;
    ReplaceAccounts(s, i, s.recs[i].(status := InReview), code, SubmitAction, actor, mt, base);
  }

  lemma ApproveAccounts(s: State, masterType: string, code: string, actor: string, mt: string, base: set<string>)
    requires Accounted(s, mt, base) && Approve(s, masterType, code, actor).Ok?
    ensures Accounted(Approve(s, masterType, code, actor).value, mt, base)
  {
    var i := LatestInStatus(s.recs, Normalize(masterType), code, InReview).value;
    ReplaceAccounts(s, i, s.recs[i].(status := Approved, approvedBy := Some(actor)), code, ApproveAction, actor, mt,
                    base);
  }

  lemma DeactivateAccounts(reg: Registry, s: State, masterType: string, code: string, actor: string, refs: int,
                           now: int, mt: string, base: set<string>)
    requires Accounted(s, mt, base) && Deactivate(reg, s, masterType, code, actor, refs, now).Ok?
    ensures Accounted(Deactivate(reg, s, masterType, code, actor, refs, now).value, mt, base)
  {
    var i := Current(s, Normalize(masterType), code, now, None).value;
    ReplaceAccounts(s, i, Close(s.recs[i], now), code, DeactivateAction, actor, mt, base);
  }

  lemma StepAccounts(reg: Registry, s: State, op: Op, now: int, mt: string, base: set<string>)
    requires mt in reg && reg[mt].requiresApproval
    requires Accounted(s, mt, base) && Unforced(s, op, mt)
    ensures Accounted(Next(reg, s, op, now), mt, base)
  {
    if Apply(reg, s, op, now).Ok? {
      var s' := Next(reg, s, op, now);
      var e := s'.audits[|s.audits|];
      match op {
        case CreateOp(a) => AppendAccounts(s, s'.recs[|s.recs|], e, mt, base);
        case UpdateOp(a) => UpdateAccounts(reg, s, a, now, mt, base);
        case SubmitOp(m, code, actor) => SubmitAccounts(s, m, code, actor, mt, base);
        case ApproveOp(m, code, actor) => ApproveAccounts(s, m, code, actor, mt, base);
        case PublishOp(m, code, actor) => PublishAccounts(s, m, code, actor, now, mt, base);
        case DeactivateOp(m, code, actor, refs) => DeactivateAccounts(reg, s, m, code, actor, refs, now, mt, base);
        case DeleteOp(m, code, _, _) =>
          RemoveAccounts(s, Resolve(s.recs, Normalize(m), Normalize(code), now, None, true).value, e, mt, base);
      }
    }
  }

  ghost predicate UnforcedRun(reg: Registry, s: State, steps: seq<Step>, mt: string)
    decreases |steps|
  {
    steps == [] ||
    (Unforced(s, steps[0].op, mt)
     && UnforcedRun(reg, Next(reg, s, steps[0].op, steps[0].now), steps[1..], mt))
  }

  lemma {:induction false} RunAccounts(reg: Registry, s: State, steps: seq<Step>, mt: string, base: set<string>)
    requires mt in reg && reg[mt].requiresApproval
    requires Accounted(s, mt, base) && UnforcedRun(reg, s, steps, mt)
    ensures Accounted(Run(reg, s, steps), mt, base)
    decreases |steps|
  {
    if steps != [] {
      StepAccounts(reg, s, steps[0].op, steps[0].now, mt, base);
      RunAccounts(reg, Next(reg, s, steps[0].op, steps[0].now), steps[1..], mt, base);
    }
  }

  /** Main result, from any starting store with distinct ids. */
  lemma ApprovalIsNeverBypassed(reg: Registry, s: State, steps: seq<Step>, mt: string, i: nat)
    requires mt in reg && reg[mt].requiresApproval
    requires DistinctIds(s.recs) && UnforcedRun(reg, s, steps, mt)
    requires
      var s' := Run(reg, s, steps);
      && i < |s'.recs| && s'.recs[i].masterType == mt && s'.recs[i].status.Published?
      && FreshId(s.recs, s'.recs[i].id)
    ensures
      var s' := Run(reg, s, steps);
      var trail := Trail(s'.audits, s'.recs[i].id);
      && |trail| >= 4
      && (trail[0].action.CreateAction? || trail[0].action.DraftVersionAction?)
      && trail[1].action.SubmitAction? && trail[2].action.ApproveAction? && trail[3].action.PublishAction?
      && s'.recs[i].approvedBy == Some(trail[2].changedBy)
      && forall k :: 4 <= k < |trail| ==> trail[k].action.DeactivateAction?
  {
    var base := set k | 0 <= k < |s.recs| :: s.recs[k].id;
    RunAccounts(reg, s, steps, mt, base);
  }
}
