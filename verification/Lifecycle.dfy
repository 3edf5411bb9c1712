/** The transitions of `MasterDataService` as functions on its abstract state. Each call
    either fails and leaves the state alone, or changes the stored records and appends
    exactly one audit entry. `now` is the clock reading of the call and `newId` the fresh id. */
module Lifecycle {
  import opened Text
  import opened Records
  import opened Resolution

  datatype State = State(recs: seq<Rec>, audits: seq<Audit>)

  type Outcome = Result<State, Error>

  /** The content arguments of a call; absent ones keep the current value or take the default. */
  datatype Patch = Patch(displayName: string, description: Option<string>, sortOrder: Option<int>,
                         parentCode: Option<string>, attributes: Option<Attributes>)

  function Fresh(p: Patch): Content {
    Content(p.displayName, p.description, p.sortOrder.GetOr(0), p.parentCode, p.attributes.GetOr(map[]))
  }

  function Merge(p: Patch, c: Content): Content {
    Content(p.displayName,
            if p.description.Some? then p.description else c.description,
            p.sortOrder.GetOr(c.sortOrder),
            if p.parentCode.Some? then p.parentCode else c.parentCode,
            p.attributes.GetOr(c.attributes))
  }

  function Close(r: Rec, at: int): Rec {
    r.(effectiveTo := Some(at), isActive := false)
  }

  function Entry(r: Rec, code: string, action: Action, actor: string): Audit {
    Audit(r.id, r.masterType, code, r.version, action, actor, Some(r))
  }

  datatype CreateArgs = CreateArgs(masterType: string, code: string, patch: Patch, tenant: Tenant,
                                   actor: string, isSystem: bool, force: bool, newId: string)

  function ActiveIndex(recs: seq<Rec>, mt: string, key: string, tenant: Tenant): (r: Option<nat>)
    ensures r.Some? ==> r.value < |recs|
    ensures r.None? <==> !exists i :: 0 <= i < |recs| && IsActive(recs[i], mt, key, tenant)
  {
    FirstIndex(recs, r => IsActive(r, mt, key, tenant))
  }

  predicate IsActive(r: Rec, mt: string, key: string, tenant: Tenant) {
    r.masterType == mt && r.Key() == key && r.tenant == tenant && r.isActive
  }

  function CreatedRecord(a: CreateArgs, draft: bool, now: int): Rec {
    Rec(a.newId, Normalize(a.masterType), Strip(a.code), Fresh(a.patch), a.isSystem, true,
        if draft then DEFAULT_MASTER_EPOCH else now, None, 1, a.tenant, a.actor,
        if draft then None else Some(a.actor), if draft then Draft else Published)
  }

  function Create(reg: Registry, s: State, a: CreateArgs, now: int): Outcome {
    var mt := Normalize(a.masterType);
    if mt !in reg then Err(NotRegistered)
    else if ActiveIndex(s.recs, mt, Normalize(a.code), a.tenant).Some? then Err(AlreadyExists)
    else
      var r := CreatedRecord(a, reg[mt].requiresApproval && !a.force, now);
      Ok(State(s.recs + [r], s.audits + [Entry(r, a.code, CreateAction, a.actor)]))
  }

  datatype UpdateArgs = UpdateArgs(masterType: string, code: string, patch: Patch, actor: string,
                                   effectiveAt: Option<int>, tenant: Tenant, force: bool, newId: string)

  /** `tenant_id or current.tenant_id` */
  function TenantOr(tenant: Tenant, current: Tenant): Tenant {
    if tenant.Some? && tenant.value != "" then tenant else current
  }

  function NextVersion(a: UpdateArgs, cur: Rec, draft: bool, now: int): Rec {
    Rec(a.newId, Normalize(a.masterType), cur.code, Merge(a.patch, cur.content), cur.isSystem, true,
        a.effectiveAt.GetOr(now), None, cur.version + 1, TenantOr(a.tenant, cur.tenant), a.actor,
        if draft then None else Some(a.actor), if draft then Draft else Published)
  }

  function Current(s: State, mt: string, code: string, now: int, tenant: Tenant): (r: Option<nat>)
    ensures r.Some? ==> r.value < |s.recs| && Matches(s.recs[r.value], mt, Normalize(code), now, false)
  {
    Resolve(s.recs, mt, Normalize(code), now, tenant, false)
  }

  function Update(reg: Registry, s: State, a: UpdateArgs, now: int): Outcome {
    var mt := Normalize(a.masterType);
    if mt !in reg then Err(NotRegistered)
    else
      match Current(s, mt, a.code, now, a.tenant)
      case None => Err(NotFound)
      case Some(i) =>
        var draft := reg[mt].requiresApproval && !a.force;
        var next := NextVersion(a, s.recs[i], draft, now);
        if draft then
          Ok(State(s.recs + [next], s.audits + [Entry(next, a.code, DraftVersionAction, a.actor)]))
        else
          Ok(State(s.recs[i := Close(s.recs[i], a.effectiveAt.GetOr(now))] + [next],
                   s.audits + [Entry(next, a.code, UpdateVersionAction, a.actor)]))
  }

  /** What an update leaves in the place of the current version, and what it appends. */
  lemma UpdateIs(reg: Registry, s: State, a: UpdateArgs, now: int)
    requires Update(reg, s, a, now).Ok?
    ensures
      var mt := Normalize(a.masterType);
      var i := Current(s, mt, a.code, now, a.tenant).value;
      var draft := reg[mt].requiresApproval && !a.force;
      Update(reg, s, a, now).value.recs ==
        (if draft then s.recs else s.recs[i := Close(s.recs[i], a.effectiveAt.GetOr(now))])
        + [NextVersion(a, s.recs[i], draft, now)]
  {
  }

  predicate InStatus(r: Rec, mt: string, code: string, status: Status) {
    r.masterType == mt && r.code == code && r.status == status
  }

  /** The latest stored record of exactly this code in the given status. */
  function LatestInStatus(recs: seq<Rec>, mt: string, code: string, status: Status): (r: Option<nat>)
    ensures r.Some? ==> r.value < |recs| && InStatus(recs[r.value], mt, code, status)
    ensures r.Some? ==> forall i :: r.value < i < |recs| ==> !InStatus(recs[i], mt, code, status)
    ensures r.None? ==> forall i :: 0 <= i < |recs| ==> !InStatus(recs[i], mt, code, status)
  {
    LastIndex(recs, r => InStatus(r, mt, code, status))
  }

  function SetStatus(s: State, i: nat, r: Rec, code: string, action: Action, actor: string): State
    requires i < |s.recs|
  {
    State(s.recs[i := r], s.audits + [Entry(r, code, action, actor)])
  }

  function Submit(s: State, masterType: string, code: string, actor: string): Outcome {
    match LatestInStatus(s.recs, Normalize(masterType), code, Draft)
    case None => Err(NoDraft)
    case Some(i) => Ok(SetStatus(s, i, s.recs[i].(status := InReview), code, SubmitAction, actor))
  }

  function Approve(s: State, masterType: string, code: string, actor: string): Outcome {
    match LatestInStatus(s.recs, Normalize(masterType), code, InReview)
    case None => Err(NoReview)
    case Some(i) =>
      Ok(SetStatus(s, i, s.recs[i].(status := Approved, approvedBy := Some(actor)), code, ApproveAction, actor))
  }

  predicate OpenActive(r: Rec, mt: string, code: string) {
    r.masterType == mt && r.code == code && r.isActive && r.effectiveTo.None?
  }

  /** The record that `publish` closes: the first other open active one of the same code. */
  function Predecessor(recs: seq<Rec>, mt: string, code: string, id: string): (r: Option<nat>)
    ensures r.Some? ==> r.value < |recs| && OpenActive(recs[r.value], mt, code) && recs[r.value].id != id
    ensures r.None? ==> forall i :: 0 <= i < |recs| && OpenActive(recs[i], mt, code) ==> recs[i].id == id
  {
    FirstIndex(recs, r => OpenActive(r, mt, code) && r.id != id)
  }

  function CloseAt(recs: seq<Rec>, i: Option<nat>, now: int): (r: seq<Rec>)
    requires i.Some? ==> i.value < |recs|
    ensures |r| == |recs|
  {
    if i.Some? then recs[i.value := Close(recs[i.value], now)] else recs
  }

  function Publish(s: State, masterType: string, code: string, actor: string, now: int): Outcome {
    var mt := Normalize(masterType);
    match LatestInStatus(s.recs, mt, code, Approved)
    case None => Err(NoApproved)
    case Some(i) =>
      var closed := CloseAt(s.recs, Predecessor(s.recs, mt, code, s.recs[i].id), now);
      var r := s.recs[i].(status := Published, isActive := true, effectiveFrom := now, effectiveTo := None);
      Ok(SetStatus(State(closed, s.audits), i, r, code, PublishAction, actor))
  }

  /** `references` is the total reported by the reference-integrity guard. */
  function Deactivate(reg: Registry, s: State, masterType: string, code: string, actor: string, references: int,
                      now: int): Outcome {
    var mt := Normalize(masterType);
    if mt !in reg then Err(NotRegistered)
    else
      match Current(s, mt, code, now, None)
      case None => Err(NotFound)
      case Some(i) =>
        if references > 0 then Err(ReferencesBlock)
        else Ok(SetStatus(s, i, Close(s.recs[i], now), code, DeactivateAction, actor))
  }

  function RemoveAt<T>(s: seq<T>, i: nat): (r: seq<T>)
    requires i < |s|
    ensures |r| == |s| - 1
  {
    s[..i] + s[i + 1..]
  }

  function Delete(reg: Registry, s: State, masterType: string, code: string, actor: string, references: int, now: int)
    : Outcome
  {
    var mt := Normalize(masterType);
    if mt !in reg then Err(NotRegistered)
    else
      match Resolve(s.recs, mt, Normalize(code), now, None, true)
      case None => Err(NotFound)
      case Some(i) =>
        if s.recs[i].isSystem then Err(SystemMaster)
        else if references > 0 then Err(ReferencesBlock)
        else
          Ok(State(RemoveAt(s.recs, i),
                   s.audits + [Entry(s.recs[i], code, DeleteAction, actor).(snapshot := None)]))
  }

  datatype Op =
    | CreateOp(create: CreateArgs)
    | UpdateOp(update: UpdateArgs)
    | SubmitOp(masterType: string, code: string, actor: string)
    | ApproveOp(masterType: string, code: string, actor: string)
    | PublishOp(masterType: string, code: string, actor: string)
    | DeactivateOp(masterType: string, code: string, actor: string, references: int)
    | DeleteOp(masterType: string, code: string, actor: string, references: int)

  function Apply(reg: Registry, s: State, op: Op, now: int): Outcome {
    match op
    case CreateOp(a) => Create(reg, s, a, now)
    case UpdateOp(a) => Update(reg, s, a, now)
    case SubmitOp(mt, code, actor) => Submit(s, mt, code, actor)
    case ApproveOp(mt, code, actor) => Approve(s, mt, code, actor)
    case PublishOp(mt, code, actor) => Publish(s, mt, code, actor, now)
    case DeactivateOp(mt, code, actor, refs) => Deactivate(reg, s, mt, code, actor, refs, now)
    case DeleteOp(mt, code, actor, refs) => Delete(reg, s, mt, code, actor, refs, now)
  }

  /** A call that raises leaves the service as it was. */
  function Next(reg: Registry, s: State, op: Op, now: int): State {
    match Apply(reg, s, op, now)
    case Ok(s') => s'
    case Err(_) => s
  }

  datatype Step = Step(op: Op, now: int)

  ghost function Run(reg: Registry, s: State, steps: seq<Step>): State
    decreases |steps|
  {
    if steps == [] then s else Run(reg, Next(reg, s, steps[0].op, steps[0].now), steps[1..])
  }

  /** The clock readings of a run never go back. */
  ghost predicate Clocked(steps: seq<Step>, clock: int) {
    steps == [] || (clock <= steps[0].now && Clocked(steps[1..], steps[0].now))
  }

  ghost function ClockAfter(steps: seq<Step>, clock: int): int {
    if steps == [] then clock else ClockAfter(steps[1..], steps[0].now)
  }
}
