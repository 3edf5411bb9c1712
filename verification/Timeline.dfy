/** The timeline invariant: within one (type, code, tenant) line the published versions occupy
    disjoint half-open intervals, at most one is open, and the open one is the active one.
    A service call keeps it exactly under a guard that a caller can check before the call. */
module Timeline {
  import opened Text
  import opened Records
  import opened Resolution
  import opened Lifecycle

  predicate SameLine(r: Rec, s: Rec) {
    r.masterType == s.masterType && r.Key() == s.Key() && r.tenant == s.tenant
  }

  /** `r` ends no later than `s` begins. */
  predicate Before(r: Rec, s: Rec) {
    r.effectiveTo.Some? && r.effectiveTo.value <= s.effectiveFrom
  }

  /** A published version starts and ends by the clock and is active while it is open;
      any other version is active and has no end date. */
  predicate Sound(r: Rec, clock: int) {
    if r.status.Published? then
      && r.effectiveFrom <= clock
      && r.isActive == r.effectiveTo.None?
      && (r.effectiveTo.Some? ==> r.effectiveFrom <= r.effectiveTo.value <= clock)
    else
      r.isActive && r.effectiveTo.None?
  }

  predicate OpenPublished(r: Rec) {
    r.status.Published? && r.effectiveTo.None?
  }

  /** What two stored records owe each other. */
  predicate Compatible(r: Rec, s: Rec) {
    && r.id != s.id
    && (SameLine(r, s) ==>
          && (r.status.Published? && s.status.Published? ==> Before(r, s) || Before(s, r))
          && (r.status.Published? || s.status.Published?)
          && (OpenPublished(r) && !s.status.Published? ==> r.code == s.code)
          && (OpenPublished(s) && !r.status.Published? ==> r.code == s.code))
  }

  ghost predicate Timelines(recs: seq<Rec>, clock: int) {
    && (forall i :: 0 <= i < |recs| ==> Sound(recs[i], clock))
    && (forall i, j :: 0 <= i < j < |recs| ==> Compatible(recs[i], recs[j]))
  }

  predicate FreshId(recs: seq<Rec>, id: string) {
    forall i :: 0 <= i < |recs| ==> recs[i].id != id
  }

  /** A direct update takes effect between the start of the current version and the clock. */
  predicate InWindow(a: UpdateArgs, cur: Rec, now: int) {
    cur.effectiveFrom <= a.effectiveAt.GetOr(now) <= now
  }

  /** A version about to be appended finds its line free: published ones end before it, and an
      unpublished one, of which there is at most one, shares the spelling of the open one. */
  predicate LineFree(r: Rec, next: Rec) {
    if next.status.Published? then
      if r.status.Published? then Before(r, next) else r.code == next.code
    else
      r.status.Published? && (OpenPublished(r) ==> r.code == next.code)
  }

  /** An update of the version at `i` is in time, and the line that the next version enters has
      room for it. That line is of the caller's own scope, which is another one than the current
      version's if the search fell back. */
  ghost predicate UpdateFits(reg: Registry, s: State, a: UpdateArgs, i: nat, now: int)
    requires i < |s.recs| && Normalize(a.masterType) in reg
  {
    var draft := reg[Normalize(a.masterType)].requiresApproval && !a.force;
    var next := NextVersion(a, s.recs[i], draft, now);
    && (!draft ==> InWindow(a, s.recs[i], now))
    && forall j :: 0 <= j < |s.recs| && SameLine(s.recs[j], next) && (draft || j != i) ==> LineFree(s.recs[j], next)
  }

  /** A publication of the record at `i` closes a published version, if it closes any, and
      leaves no open version in the line. */
  ghost predicate PublishFits(recs: seq<Rec>, mt: string, code: string, i: nat)
    requires i < |recs|
  {
    var p := Predecessor(recs, mt, code, recs[i].id);
    && (p.Some? ==> recs[p.value].status.Published?)
    && forall j :: 0 <= j < |recs| && OpenPublished(recs[j]) && SameLine(recs[j], recs[i]) ==> p == Some(j)
  }

  /** When a call keeps the timelines: new ids are fresh, an update fits its line, and so does a
      publication. A call that fails always does. */
  ghost predicate Guard(reg: Registry, s: State, op: Op, now: int) {
    Apply(reg, s, op, now).Ok? ==>
      match op
      case CreateOp(a) => FreshId(s.recs, a.newId)
      case UpdateOp(a) =>
        && FreshId(s.recs, a.newId)
        && UpdateFits(reg, s, a, Current(s, Normalize(a.masterType), a.code, now, a.tenant).value, now)
      case PublishOp(masterType, code, _) =>
        var mt := Normalize(masterType);
        PublishFits(s.recs, mt, code, LatestInStatus(s.recs, mt, code, Approved).value)
      case _ => true
  }

  /** The version that a direct update or a publication closes is of the same scope as the one
      it opens. */
  predicate StaysInScope(reg: Registry, s: State, op: Op, now: int) {
    Apply(reg, s, op, now).Ok? ==>
      match op
      case UpdateOp(a) =>
        var mt := Normalize(a.masterType);
        var cur := s.recs[Current(s, mt, a.code, now, a.tenant).value];
        (reg[mt].requiresApproval ==> a.force) ==> TenantOr(a.tenant, cur.tenant) == cur.tenant
      case PublishOp(masterType, code, _) =>
        var mt := Normalize(masterType);
        var r := s.recs[LatestInStatus(s.recs, mt, code, Approved).value];
        var p := Predecessor(s.recs, mt, code, r.id);
        p.Some? ==> s.recs[p.value].tenant == r.tenant
      case _ => true
  }

  /** Replacing one record keeps the timelines if the new one fits with all the others. */
  lemma ReplaceKeeps(recs: seq<Rec>, i: nat, r: Rec, clock: int, now: int)
    requires Timelines(recs, clock) && clock <= now && i < |recs|
    requires Sound(r, now)
    requires forall j :: 0 <= j < |recs| && j != i ==> Compatible(r, recs[j])
    ensures Timelines(recs[i := r], now)
  {
  }

  lemma AppendKeeps(recs: seq<Rec>, r: Rec, clock: int, now: int)
    requires Timelines(recs, clock) && clock <= now
    requires Sound(r, now)
    requires forall j :: 0 <= j < |recs| ==> Compatible(r, recs[j])
    ensures Timelines(recs + [r], now)
  {
  }

  lemma PairAt(recs: seq<Rec>, clock: int, i: nat, j: nat)
    requires Timelines(recs, clock) && i < |recs| && j < |recs| && i != j
    ensures Compatible(recs[i], recs[j])
  {
  }

  /** Closing an open published version, from its start to now, keeps the timelines. */
  lemma CloseKeeps(recs: seq<Rec>, i: nat, at: int, clock: int, now: int)
    requires Timelines(recs, clock) && clock <= now && i < |recs|
    requires OpenPublished(recs[i]) && recs[i].effectiveFrom <= at <= now
    ensures Timelines(recs[i := Close(recs[i], at)], now)
  {
  }

  /** A published version that is in force at or after the clock is open. */
  lemma InForceIsOpen(recs: seq<Rec>, clock: int, now: int, i: nat)
    requires Timelines(recs, clock) && clock <= now && i < |recs|
    requires recs[i].status.Published? && recs[i].EffectiveAt(now)
    ensures OpenPublished(recs[i])
  {
  }

  lemma CreateKeeps(reg: Registry, s: State, a: CreateArgs, clock: int, now: int)
    requires Timelines(s.recs, clock) && clock <= now && FreshId(s.recs, a.newId)
    requires Create(reg, s, a, now).Ok?
    ensures Timelines(Create(reg, s, a, now).value.recs, now)
  {
    var mt := Normalize(a.masterType);
    var r := CreatedRecord(a, reg[mt].requiresApproval && !a.force, now);
    forall j | 0 <= j < |s.recs| ensures Compatible(r, s.recs[j]) {
      if SameLine(r, s.recs[j]) {
        assert !IsActive(s.recs[j], mt, Normalize(a.code), a.tenant);
        assert Sound(s.recs[j], clock);
      }
    }
    AppendKeeps(s.recs, r, clock, now);
  }

  /** An appended record under an id that is taken. */
  lemma AppendNeedsFreshId(recs: seq<Rec>, r: Rec, now: int)
    requires Timelines(recs + [r], now)
    ensures FreshId(recs, r.id)
  {
    forall j | 0 <= j < |recs| ensures recs[j].id != r.id {
      PairAt(recs + [r], now, j, |recs|);
    }
  }

  ghost predicate FitsLine(recs: seq<Rec>, next: Rec) {
    forall j :: 0 <= j < |recs| && SameLine(recs[j], next) ==> LineFree(recs[j], next)
  }

  lemma AppendKeepsExactlyWhen(recs: seq<Rec>, next: Rec, now: int)
    requires Timelines(recs, now) && FreshId(recs, next.id)
    requires next.isActive && next.effectiveTo.None?
    ensures Timelines(recs + [next], now)
      <==> (next.status.Published? ==> next.effectiveFrom <= now) && FitsLine(recs, next)
  {
    var recs' := recs + [next];
    if Timelines(recs', now) {
      assert Sound(recs'[|recs|], now);
      forall j | 0 <= j < |recs| && SameLine(recs[j], next) ensures LineFree(recs[j], next) {
        PairAt(recs', now, j, |recs|);
      }
    } else if (next.status.Published? ==> next.effectiveFrom <= now) && FitsLine(recs, next) {
      AppendKeeps(recs, next, now, now);
    }
  }

  /** From a sound store an update under a fresh id keeps the timelines exactly when it fits. */
  lemma UpdateKeepsExactlyWhen(reg: Registry, s: State, a: UpdateArgs, clock: int, now: int)
    requires Timelines(s.recs, clock) && clock <= now && FreshId(s.recs, a.newId)
    requires Update(reg, s, a, now).Ok?
    ensures Timelines(Update(reg, s, a, now).value.recs, now)
      <==> UpdateFits(reg, s, a, Current(s, Normalize(a.masterType), a.code, now, a.tenant).value, now)
  {
    var mt := Normalize(a.masterType);
    var i := Current(s, mt, a.code, now, a.tenant).value;
    var cur, at := s.recs[i], a.effectiveAt.GetOr(now);
    var draft := reg[mt].requiresApproval && !a.force;
    var next := NextVersion(a, cur, draft, now);
    var recs' := Update(reg, s, a, now).value.recs;
    UpdateIs(reg, s, a, now);
    InForceIsOpen(s.recs, clock, now, i);
    LaterClockKeeps(s.recs, clock, now);
    if draft {
      AppendKeepsExactlyWhen(s.recs, next, now);
    } else if InWindow(a, cur, now) {
      var base := s.recs[i := Close(cur, at)];
      CloseKeeps(s.recs, i, at, clock, now);
      AppendKeepsExactlyWhen(base, next, now);
      ClosedLineFree(s.recs, i, at, clock, next);
    } else {
      assert !Sound(recs'[i], now);
    }
  }

  /** Closing a version in time for the next one frees its own place in the line. */
  lemma ClosedLineFree(recs: seq<Rec>, i: nat, at: int, clock: int, next: Rec)
    requires Timelines(recs, clock) && i < |recs| && OpenPublished(recs[i])
    requires next.status.Published? && next.effectiveFrom == at
    ensures FitsLine(recs[i := Close(recs[i], at)], next) <==>
      forall j :: 0 <= j < |recs| && SameLine(recs[j], next) && j != i ==> LineFree(recs[j], next)
  {
    var base := recs[i := Close(recs[i], at)];
    assert LineFree(base[i], next);
    if FitsLine(base, next) {
      forall j | 0 <= j < |recs| && SameLine(recs[j], next) && j != i ensures LineFree(recs[j], next) {
        assert base[j] == recs[j];
      }
    }
  }

  /** In its own scope an update fits whenever it is in time and, if it makes a draft, finds no
      unpublished version in its line. */
  lemma OwnScopeUpdateFits(reg: Registry, s: State, a: UpdateArgs, clock: int, now: int)
    requires Timelines(s.recs, clock) && clock <= now && Update(reg, s, a, now).Ok?
    requires
      var mt := Normalize(a.masterType);
      var cur := s.recs[Current(s, mt, a.code, now, a.tenant).value];
      && TenantOr(a.tenant, cur.tenant) == cur.tenant
      && (if reg[mt].requiresApproval && !a.force
          then forall j :: 0 <= j < |s.recs| && SameLine(s.recs[j], cur) ==> s.recs[j].status.Published?
          else InWindow(a, cur, now))
    ensures UpdateFits(reg, s, a, Current(s, Normalize(a.masterType), a.code, now, a.tenant).value, now)
  {
    var mt := Normalize(a.masterType);
    var i := Current(s, mt, a.code, now, a.tenant).value;
    var draft := reg[mt].requiresApproval && !a.force;
    var next := NextVersion(a, s.recs[i], draft, now);
    InForceIsOpen(s.recs, clock, now, i);
    forall j | 0 <= j < |s.recs| && SameLine(s.recs[j], next) && (draft || j != i) ensures LineFree(s.recs[j], next) {
      if j != i { PairAt(s.recs, clock, i, j); }
    }
  }

  /** A direct update that falls back to another scope's version fits whenever it is not dated
      before that version or before the clock of the store, nor after the call, and a draft in
      the caller's own line, if there is one, is spelled like the version found. */
  lemma FallbackUpdateFits(reg: Registry, s: State, a: UpdateArgs, clock: int, now: int)
    requires Timelines(s.recs, clock) && clock <= now && Update(reg, s, a, now).Ok?
    requires
      var mt := Normalize(a.masterType);
      var cur := s.recs[Current(s, mt, a.code, now, a.tenant).value];
      && (reg[mt].requiresApproval ==> a.force) && InWindow(a, cur, now) && clock <= a.effectiveAt.GetOr(now)
      && TenantOr(a.tenant, cur.tenant) != cur.tenant
      && forall j :: 0 <= j < |s.recs| && SameLine(s.recs[j], cur.(tenant := a.tenant)) ==>
           s.recs[j].status.Published? || s.recs[j].code == cur.code
    ensures UpdateFits(reg, s, a, Current(s, Normalize(a.masterType), a.code, now, a.tenant).value, now)
  {
    var mt := Normalize(a.masterType);
    var i := Current(s, mt, a.code, now, a.tenant).value;
    var next := NextVersion(a, s.recs[i], false, now);
    forall j | 0 <= j < |s.recs| && SameLine(s.recs[j], next) && j != i ensures LineFree(s.recs[j], next) {
      assert Sound(s.recs[j], clock);
      if Matches(s.recs[j], mt, Normalize(a.code), now, false) {
        ResolvePrecedence(s.recs, mt, Normalize(a.code), now, a.tenant, false, j);
      }
    }
  }

  lemma StatusKeeps(recs: seq<Rec>, i: nat, r: Rec, clock: int, now: int)
    requires Timelines(recs, clock) && clock <= now && i < |recs|
    requires !recs[i].status.Published? && !r.status.Published?
    requires r == recs[i].(status := r.status, approvedBy := r.approvedBy)
    ensures Timelines(recs[i := r], now)
  {
  }

  /** The record that `publish` closes is the open published version of the same line, if the
      publication keeps the timelines and stays in its scope. */
  lemma PredecessorIsOpenVersion(reg: Registry, s: State, masterType: string, code: string, actor: string,
                                 clock: int, now: int)
    requires Timelines(s.recs, clock) && Publish(s, masterType, code, actor, now).Ok?
    requires Guard(reg, s, PublishOp(masterType, code, actor), now)
    requires StaysInScope(reg, s, PublishOp(masterType, code, actor), now)
    ensures
      var mt := Normalize(masterType);
      var i := LatestInStatus(s.recs, mt, code, Approved).value;
      var p := Predecessor(s.recs, mt, code, s.recs[i].id);
      && (p.Some? ==> p.value != i && OpenPublished(s.recs[p.value]) && SameLine(s.recs[p.value], s.recs[i]))
      && forall j :: 0 <= j < |s.recs| && OpenPublished(s.recs[j]) && SameLine(s.recs[j], s.recs[i]) ==> p == Some(j)
  {
  }

  /** Where the code is open in one scope only, a publication fits and stays in its scope. */
  lemma OneScopePublishFits(reg: Registry, s: State, masterType: string, code: string, actor: string, clock: int,
                            now: int)
    requires Timelines(s.recs, clock) && Publish(s, masterType, code, actor, now).Ok?
    requires
      var mt := Normalize(masterType);
      var i := LatestInStatus(s.recs, mt, code, Approved).value;
      forall j :: 0 <= j < |s.recs| && OpenActive(s.recs[j], mt, code) ==> s.recs[j].tenant == s.recs[i].tenant
    ensures Guard(reg, s, PublishOp(masterType, code, actor), now)
    ensures StaysInScope(reg, s, PublishOp(masterType, code, actor), now)
  {
    var mt := Normalize(masterType);
    var i := LatestInStatus(s.recs, mt, code, Approved).value;
    var p := Predecessor(s.recs, mt, code, s.recs[i].id);
    if p.Some? { PairAt(s.recs, clock, p.value, i); }
    forall j | 0 <= j < |s.recs| && OpenPublished(s.recs[j]) && SameLine(s.recs[j], s.recs[i]) ensures p == Some(j) {
      PairAt(s.recs, clock, j, i);
      assert OpenActive(s.recs[j], mt, code);
      if p.Some? && p.value != j { PairAt(s.recs, clock, j, p.value); }
    }
  }

  lemma PublishKeeps(reg: Registry, s: State, masterType: string, code: string, actor: string, clock: int, now: int)
    requires Timelines(s.recs, clock) && clock <= now
    requires Guard(reg, s, PublishOp(masterType, code, actor), now)
    requires Publish(s, masterType, code, actor, now).Ok?
    ensures Timelines(Publish(s, masterType, code, actor, now).value.recs, now)
  {
    var mt := Normalize(masterType);
    var recs' := Publish(s, masterType, code, actor, now).value.recs;
    var i := LatestInStatus(s.recs, mt, code, Approved).value;
    var p := Predecessor(s.recs, mt, code, s.recs[i].id);
    var closed := CloseAt(s.recs, p, now);
    if p.Some? {
      assert Sound(s.recs[p.value], clock);
      CloseKeeps(s.recs, p.value, now, clock, now);
    }
    forall j | 0 <= j < |closed| && j != i ensures Compatible(recs'[i], closed[j]) {
      PairAt(s.recs, clock, i, j);
      assert Sound(s.recs[j], clock);
    }
    ReplaceKeeps(closed, i, recs'[i], if p.Some? then now else clock, now);
  }

  lemma PublishNeedsFit(s: State, masterType: string, code: string, actor: string, now: int)
    requires Publish(s, masterType, code, actor, now).Ok?
    requires Timelines(Publish(s, masterType, code, actor, now).value.recs, now)
    ensures var mt := Normalize(masterType);
      PublishFits(s.recs, mt, code, LatestInStatus(s.recs, mt, code, Approved).value)
  {
    var mt := Normalize(masterType);
    var recs' := Publish(s, masterType, code, actor, now).value.recs;
    var i := LatestInStatus(s.recs, mt, code, Approved).value;
    var p := Predecessor(s.recs, mt, code, s.recs[i].id);
    if p.Some? {
      assert Sound(recs'[p.value], now);
    }
    forall j | 0 <= j < |s.recs| && OpenPublished(s.recs[j]) && SameLine(s.recs[j], s.recs[i]) ensures p == Some(j) {
      if p != Some(j) {
        assert recs'[j] == s.recs[j];
        PairAt(recs', now, i, j);
      }
    }
  }

  lemma DeactivateKeeps(reg: Registry, s: State, masterType: string, code: string, actor: string, refs: int,
                        clock: int, now: int)
    requires Timelines(s.recs, clock) && clock <= now
    requires Deactivate(reg, s, masterType, code, actor, refs, now).Ok?
    ensures Timelines(Deactivate(reg, s, masterType, code, actor, refs, now).value.recs, now)
  {
    var i := Current(s, Normalize(masterType), code, now, None).value;
    InForceIsOpen(s.recs, clock, now, i);
    CloseKeeps(s.recs, i, now, clock, now);
  }

  lemma RemoveKeeps(recs: seq<Rec>, i: nat, clock: int, now: int)
    requires Timelines(recs, clock) && clock <= now && i < |recs|
    ensures Timelines(RemoveAt(recs, i), now)
  {
  }

  lemma LaterClockKeeps(recs: seq<Rec>, clock: int, now: int)
    requires Timelines(recs, clock) && clock <= now
    ensures Timelines(recs, now)
  {
  }

  lemma StepKeepsTimelines(reg: Registry, s: State, op: Op, clock: int, now: int)
    requires Timelines(s.recs, clock) && clock <= now && Guard(reg, s, op, now)
    ensures Timelines(Next(reg, s, op, now).recs, now)
  {
    if Apply(reg, s, op, now).Err? {
      LaterClockKeeps(s.recs, clock, now);
    } else {
      var recs' := Next(reg, s, op, now).recs;
      match op {
        case CreateOp(a) => CreateKeeps(reg, s, a, clock, now);
        case UpdateOp(a) => UpdateKeepsExactlyWhen(reg, s, a, clock, now);
        case SubmitOp(mt, code, _) =>
          var i := LatestInStatus(s.recs, Normalize(mt), code, Draft).value;
          StatusKeeps(s.recs, i, recs'[i], clock, now);
        case ApproveOp(mt, code, _) =>
          var i := LatestInStatus(s.recs, Normalize(mt), code, InReview).value;
          StatusKeeps(s.recs, i, recs'[i], clock, now);
        case PublishOp(mt, code, actor) => PublishKeeps(reg, s, mt, code, actor, clock, now);
        case DeactivateOp(mt, code, actor, refs) => DeactivateKeeps(reg, s, mt, code, actor, refs, clock, now);
        case DeleteOp(mt, code, _, _) =>
          RemoveKeeps(s.recs, Resolve(s.recs, Normalize(mt), Normalize(code), now, None, true).value, clock, now);
      }
    }
  }

  lemma UpdateNeedsFreshId(reg: Registry, s: State, a: UpdateArgs, now: int)
    requires Update(reg, s, a, now).Ok? && Timelines(Update(reg, s, a, now).value.recs, now)
    ensures FreshId(s.recs, a.newId)
  {
    var i := Current(s, Normalize(a.masterType), a.code, now, a.tenant).value;
    var recs' := Update(reg, s, a, now).value.recs;
    UpdateIs(reg, s, a, now);
    AppendNeedsFreshId(recs'[..|s.recs|], recs'[|s.recs|], now);
    assert recs' == recs'[..|s.recs|] + [recs'[|s.recs|]];
    forall j | 0 <= j < |s.recs| ensures s.recs[j].id != a.newId {
      assert recs'[..|s.recs|][j].id == s.recs[j].id;
    }
  }

  /** Main result: from a sound store, a call of any kind, successful or not, keeps the timelines
      exactly when it meets the guard. */
  lemma StepKeepsExactlyWhen(reg: Registry, s: State, op: Op, clock: int, now: int)
    requires Timelines(s.recs, clock) && clock <= now
    ensures Timelines(Next(reg, s, op, now).recs, now) <==> Guard(reg, s, op, now)
  {
    if Guard(reg, s, op, now) {
      StepKeepsTimelines(reg, s, op, clock, now);
    } else if Timelines(Next(reg, s, op, now).recs, now) {
      match op {
        case CreateOp(a) => AppendNeedsFreshId(s.recs, Next(reg, s, op, now).recs[|s.recs|], now);
        case UpdateOp(a) =>
          UpdateNeedsFreshId(reg, s, a, now);
          UpdateKeepsExactlyWhen(reg, s, a, clock, now);
        case PublishOp(mt, code, actor) => PublishNeedsFit(s, mt, code, actor, now);
      }
    }
  }

  /** Every call of the run meets its guard in the state it finds. */
  ghost predicate Guarded(reg: Registry, s: State, steps: seq<Step>)
    decreases |steps|
  {
    steps == [] ||
    (Guard(reg, s, steps[0].op, steps[0].now)
     && Guarded(reg, Next(reg, s, steps[0].op, steps[0].now), steps[1..]))
  }

  ghost predicate InScopeThroughout(reg: Registry, s: State, steps: seq<Step>)
    decreases |steps|
  {
    steps == [] ||
    (StaysInScope(reg, s, steps[0].op, steps[0].now)
     && InScopeThroughout(reg, Next(reg, s, steps[0].op, steps[0].now), steps[1..]))
  }

  lemma {:induction false} RunKeepsTimelines(reg: Registry, s: State, steps: seq<Step>, clock: int)
    requires Timelines(s.recs, clock) && Clocked(steps, clock) && Guarded(reg, s, steps)
    ensures Timelines(Run(reg, s, steps).recs, ClockAfter(steps, clock))
    decreases |steps|
  {
    if steps != [] {
      StepKeepsTimelines(reg, s, steps[0].op, clock, steps[0].now);
      RunKeepsTimelines(reg, Next(reg, s, steps[0].op, steps[0].now), steps[1..], steps[0].now);
    }
  }

  /** What the invariant means for readers: at each instant a line has at most one version in
      force, and at most one open version, which is then the active one. */
  lemma OneVersionInForce(recs: seq<Rec>, clock: int, i: nat, j: nat, t: int)
    requires Timelines(recs, clock) && i < |recs| && j < |recs| && i != j
    requires SameLine(recs[i], recs[j]) && recs[i].status.Published? && recs[j].status.Published?
    ensures !(recs[i].EffectiveAt(t) && recs[j].EffectiveAt(t))
    ensures !(recs[i].effectiveTo.None? && recs[j].effectiveTo.None?)
    ensures recs[i].isActive <==> recs[i].effectiveTo.None?
  {
  }
}
