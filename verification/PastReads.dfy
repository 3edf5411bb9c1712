/** The past is immutable: no later call changes what a published read returns for an
    instant before the clock. This holds from every starting store, with any tenants and any
    number of drafts in flight; direct updates dated before the clock and hard deletes are the
    only exceptions. */
module PastReads {
  import opened Text
  import opened Records
  import opened Resolution
  import opened Lifecycle

  predicate VisibleAt(r: Rec, t: int) {
    r.status.Published? && r.EffectiveAt(t)
  }

  /** Everything about a published version except the two fields that closing it writes. */
  function Frozen(r: Rec): Rec {
    r.(effectiveTo := None, isActive := true)
  }

  /** The same version: all fields but the two that closing it writes. */
  predicate SameVersion(r: Rec, r': Rec) {
    && r.id == r'.id && r.masterType == r'.masterType && r.code == r'.code && r.content == r'.content
    && r.isSystem == r'.isSystem && r.effectiveFrom == r'.effectiveFrom && r.version == r'.version
    && r.tenant == r'.tenant && r.createdBy == r'.createdBy && r.approvedBy == r'.approvedBy && r.status == r'.status
  }

  lemma FrozenTells(r: Rec, r': Rec)
    ensures Frozen(r) == Frozen(r') <==> SameVersion(r, r')
  {
  }

  predicate SameAt(r: Rec, r': Rec, t: int) {
    VisibleAt(r, t) == VisibleAt(r', t) && (VisibleAt(r, t) ==> Frozen(r) == Frozen(r'))
  }

  /** The stores agree on every version visible at `t`, position by position. */
  ghost predicate StableAt(recs: seq<Rec>, recs': seq<Rec>, t: int) {
    && |recs| <= |recs'|
    && (forall i :: 0 <= i < |recs| ==> SameAt(recs[i], recs'[i], t))
    && (forall i :: |recs| <= i < |recs'| ==> !VisibleAt(recs'[i], t))
  }

  /** The update publishes at once instead of making a draft. */
  predicate IsDirect(reg: Registry, a: UpdateArgs) {
    var mt := Normalize(a.masterType);
    mt in reg && (reg[mt].requiresApproval ==> a.force)
  }

  /** Neither a hard delete nor a direct update dated before `clock`. */
  predicate KeepsPast(reg: Registry, op: Op, clock: int) {
    && !op.DeleteOp?
    && (op.UpdateOp? && IsDirect(reg, op.update) && op.update.effectiveAt.Some? ==>
          clock <= op.update.effectiveAt.value)
  }

  lemma StepKeepsPast(reg: Registry, s: State, op: Op, now: int, clock: int, t: int)
    requires t < clock <= now && KeepsPast(reg, op, clock)
    ensures StableAt(s.recs, Next(reg, s, op, now).recs, t)
  {
    if Apply(reg, s, op, now).Ok? {
      var recs' := Next(reg, s, op, now).recs;
      match op {
        case CreateOp(a) =>
          AppendKeepsPast(s.recs, recs'[|s.recs|], t);
        case UpdateOp(a) =>
          UpdateKeepsPast(reg, s, a, now, clock, t);
        case SubmitOp(mt, code, actor) =>
          var i := LatestInStatus(s.recs, Normalize(mt), code, Draft).value;
          ReplaceKeepsPast(s.recs, i, recs'[i], t);
        case ApproveOp(mt, code, actor) =>
          var i := LatestInStatus(s.recs, Normalize(mt), code, InReview).value;
          ReplaceKeepsPast(s.recs, i, recs'[i], t);
        case PublishOp(mt, code, actor) =>
          PublishKeepsPast(s, mt, code, actor, now, t);
        case DeactivateOp(mt, code, actor, refs) =>
          var i := Current(s, Normalize(mt), code, now, None).value;
          ReplaceKeepsPast(s.recs, i, recs'[i], t);
      }
    }
  }

  lemma ReplaceKeepsPast(recs: seq<Rec>, i: nat, r: Rec, t: int)
    requires i < |recs| && SameAt(recs[i], r, t)
    ensures StableAt(recs, recs[i := r], t)
  {
  }

  lemma AppendKeepsPast(recs: seq<Rec>, r: Rec, t: int)
    requires !VisibleAt(r, t)
    ensures StableAt(recs, recs + [r], t)
  {
  }

  lemma UpdateKeepsPast(reg: Registry, s: State, a: UpdateArgs, now: int, clock: int, t: int)
    requires t < clock <= now && Update(reg, s, a, now).Ok?
    requires IsDirect(reg, a) && a.effectiveAt.Some? ==> clock <= a.effectiveAt.value
    ensures StableAt(s.recs, Update(reg, s, a, now).value.recs, t)
  {
    var mt := Normalize(a.masterType);
    var i := Current(s, mt, a.code, now, a.tenant).value;
    var draft := reg[mt].requiresApproval && !a.force;
    var next := NextVersion(a, s.recs[i], draft, now);
    if draft {
      AppendKeepsPast(s.recs, next, t);
    } else {
      var closed := s.recs[i := Close(s.recs[i], a.effectiveAt.GetOr(now))];
      ReplaceKeepsPast(s.recs, i, closed[i], t);
      AppendKeepsPast(closed, next, t);
      StableTransitive(s.recs, closed, closed + [next], t);
    }
  }

  lemma PublishKeepsPast(s: State, masterType: string, code: string, actor: string, now: int, t: int)
    requires t < now && Publish(s, masterType, code, actor, now).Ok?
    ensures StableAt(s.recs, Publish(s, masterType, code, actor, now).value.recs, t)
  {
    var mt := Normalize(masterType);
    var recs' := Publish(s, masterType, code, actor, now).value.recs;
    var i := LatestInStatus(s.recs, mt, code, Approved).value;
    var prev := Predecessor(s.recs, mt, code, s.recs[i].id);
    var closed := CloseAt(s.recs, prev, now);
    if prev.Some? {
      ReplaceKeepsPast(s.recs, prev.value, closed[prev.value], t);
    }
    ReplaceKeepsPast(closed, i, recs'[i], t);
    StableTransitive(s.recs, closed, recs', t);
  }

  lemma {:induction false} RunKeepsPast(reg: Registry, s: State, steps: seq<Step>, clock: int, start: int, t: int)
    requires t < start <= clock && Clocked(steps, clock)
    requires forall k :: 0 <= k < |steps| ==> KeepsPast(reg, steps[k].op, start)
    ensures StableAt(s.recs, Run(reg, s, steps).recs, t)
    decreases |steps|
  {
    if steps != [] {
      var s' := Next(reg, s, steps[0].op, steps[0].now);
      StepKeepsPast(reg, s, steps[0].op, steps[0].now, start, t);
      RunKeepsPast(reg, s', steps[1..], steps[0].now, start, t);
      StableTransitive(s.recs, s'.recs, Run(reg, s', steps[1..]).recs, t);
    }
  }

  lemma StableTransitive(a: seq<Rec>, b: seq<Rec>, c: seq<Rec>, t: int)
    requires StableAt(a, b, t) && StableAt(b, c, t)
    ensures StableAt(a, c, t)
  {
  }

  lemma StableMatches(recs: seq<Rec>, recs': seq<Rec>, t: int, mt: string, key: string)
    requires StableAt(recs, recs', t)
    ensures forall i :: 0 <= i < |recs| ==>
      Matches(recs[i], mt, key, t, false) == Matches(recs'[i], mt, key, t, false)
      && (Matches(recs[i], mt, key, t, false) ==> Frozen(recs[i]) == Frozen(recs'[i]))
    ensures forall i :: |recs| <= i < |recs'| ==> !Matches(recs'[i], mt, key, t, false)
  {
  }

  lemma FirstIsStable(recs: seq<Rec>, recs': seq<Rec>, p: Rec -> bool)
    requires |recs| <= |recs'|
    requires forall i :: 0 <= i < |recs| ==> p(recs[i]) == p(recs'[i])
    requires forall i :: |recs| <= i < |recs'| ==> !p(recs'[i])
    ensures FirstIndex(recs, p) == FirstIndex(recs', p) && LastIndex(recs, p) == LastIndex(recs', p)
  {
  }

  /** Stable stores resolve alike, for every type, code and tenant. */
  lemma StableResolves(recs: seq<Rec>, recs': seq<Rec>, t: int, mt: string, key: string, tenant: Tenant)
    requires StableAt(recs, recs', t)
    ensures
      var r := Resolve(recs, mt, key, t, tenant, false);
      var r' := Resolve(recs', mt, key, t, tenant, false);
      r == r' && (r.Some? ==> Frozen(recs[r.value]) == Frozen(recs'[r.value]))
  {
    StableMatches(recs, recs', t, mt, key);
    FirstIsStable(recs, recs', OwnQuery(mt, key, t, tenant, false));
    FirstIsStable(recs, recs', GlobalQuery(mt, key, t, false));
    FirstIsStable(recs, recs', AnyQuery(mt, key, t, false));
  }

  /** Appended records that are not published change no lookup of published versions. */
  lemma UnpublishedAreNotRead(recs: seq<Rec>, recs': seq<Rec>, mt: string, key: string, t: int, tenant: Tenant)
    requires recs <= recs' && forall i :: |recs| <= i < |recs'| ==> !recs'[i].status.Published?
    ensures Resolve(recs', mt, key, t, tenant, false) == Resolve(recs, mt, key, t, tenant, false)
  {
    forall i | 0 <= i < |recs| ensures recs'[i] == recs[i] {
    }
    assert StableAt(recs, recs', t);
    StableResolves(recs, recs', t, mt, key, tenant);
  }

  /** `get_record(type, code, as_of = t)` gives the same version before and after any run. */
  lemma PastIsImmutable(reg: Registry, s: State, steps: seq<Step>, clock: int, t: int,
                        mt: string, key: string, tenant: Tenant)
    requires t < clock && Clocked(steps, clock)
    requires forall k :: 0 <= k < |steps| ==> KeepsPast(reg, steps[k].op, clock)
    ensures
      var recs' := Run(reg, s, steps).recs;
      var r := Resolve(s.recs, mt, key, t, tenant, false);
      r == Resolve(recs', mt, key, t, tenant, false)
      && (r.Some? ==> r.value < |recs'| && SameVersion(s.recs[r.value], recs'[r.value]))
  {
    var recs', r := Run(reg, s, steps).recs, Resolve(s.recs, mt, key, t, tenant, false);
    RunKeepsPast(reg, s, steps, clock, clock, t);
    StableResolves(s.recs, recs', t, mt, key, tenant);
    if r.Some? { FrozenTells(s.recs[r.value], recs'[r.value]); }
  }

  /** A direct update of a version in force before `clock` leaves every earlier instant alone
      exactly when it is not dated before `clock`. */
  lemma UpdateKeepsPastExactly(reg: Registry, s: State, a: UpdateArgs, now: int, clock: int)
    requires clock <= now && Update(reg, s, a, now).Ok?
    requires var mt := Normalize(a.masterType);
      && (reg[mt].requiresApproval ==> a.force)
      && s.recs[Current(s, mt, a.code, now, a.tenant).value].effectiveFrom < clock
    ensures (forall t :: t < clock ==> StableAt(s.recs, Update(reg, s, a, now).value.recs, t))
            <==> clock <= a.effectiveAt.GetOr(now)
  {
    var recs' := Update(reg, s, a, now).value.recs;
    var i := Current(s, Normalize(a.masterType), a.code, now, a.tenant).value;
    var at := a.effectiveAt.GetOr(now);
    if clock <= at {
      forall t | t < clock ensures StableAt(s.recs, recs', t) {
        UpdateKeepsPast(reg, s, a, now, clock, t);
      }
    } else {
      var t := if at < s.recs[i].effectiveFrom then s.recs[i].effectiveFrom else at;
      assert !SameAt(s.recs[i], recs'[i], t);
      assert !StableAt(s.recs, recs', t);
    }
  }
}
