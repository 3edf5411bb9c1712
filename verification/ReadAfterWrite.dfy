/** What a caller reads after a write. Each lemma relates one successful call to the later
    answers of `get_record`, in a store whose timelines are sound. */
module ReadAfterWrite {
  import opened Text
  import opened Records
  import opened Resolution
  import opened Lifecycle
  import opened Timeline
  import opened PastReads
  import opened Effects

  /** A lookup by the record's own scope can reach it. Only an empty tenant id, which lookups
      take for none, makes a difference: then no global version may be in force beside it, and
      no later one of another tenant. */
  ghost predicate Reachable(recs: seq<Rec>, i: nat, t: int)
    requires i < |recs|
  {
    recs[i].tenant == Some("") ==>
      forall j :: 0 <= j < |recs| && j != i && Matches(recs[j], recs[i].masterType, recs[i].Key(), t, false) ==>
        recs[j].tenant.Some? && j < i
  }

  /** From the clock on, an open version is the one that its own scope resolves to. */
  lemma OpenVersionIsReadExactlyWhen(recs: seq<Rec>, clock: int, t: int, i: nat)
    requires Timelines(recs, clock) && clock <= t && i < |recs| && OpenPublished(recs[i])
    ensures Resolve(recs, recs[i].masterType, recs[i].Key(), t, recs[i].tenant, false) == Some(i)
      <==> Reachable(recs, i, t)
  {
    var mt, key, tenant := recs[i].masterType, recs[i].Key(), recs[i].tenant;
    assert Sound(recs[i], clock) && Matches(recs[i], mt, key, t, false);
    ResolvePrecedence(recs, mt, key, t, tenant, false, i);
    var k := Resolve(recs, mt, key, t, tenant, false).value;
    if tenant == Some("") {
      if k == i {
        forall j | 0 <= j < |recs| && j != i && Matches(recs[j], mt, key, t, false)
          ensures recs[j].tenant.Some? && j < i
        {
          ResolvePrecedence(recs, mt, key, t, tenant, false, j);
        }
      }
    } else if k != i {
      PairAt(recs, clock, i, k);
      InForceIsOpen(recs, clock, t, k);
    }
  }

  /** No lookup, of any instant and by any scope, has changed. */
  ghost predicate ReadsAlike(recs: seq<Rec>, recs': seq<Rec>, mt: string, key: string) {
    forall t, tenant :: Resolve(recs', mt, key, t, tenant, false) == Resolve(recs, mt, key, t, tenant, false)
  }

  /** The fields of a created record. */
  predicate IsCreated(r: Rec, a: CreateArgs) {
    && r.code == Strip(a.code) && r.masterType == Normalize(a.masterType) && r.tenant == a.tenant
    && r.content.displayName == a.patch.displayName && r.content.description == a.patch.description
    && r.content.parentCode == a.patch.parentCode
    && r.content.sortOrder == a.patch.sortOrder.GetOr(0) && r.content.attributes == a.patch.attributes.GetOr(map[])
    && r.version == 1 && r.isSystem == a.isSystem && r.createdBy == a.actor
  }

  /** A created record is readable at once, and approved by its creator, unless it awaits
      approval; then it is a draft, and every published read goes on as before. */
  lemma CreateIsRead(reg: Registry, s: State, a: CreateArgs, clock: int, now: int, t: int)
    requires Timelines(s.recs, clock) && clock <= now <= t && FreshId(s.recs, a.newId)
    requires Create(reg, s, a, now).Ok?
    ensures
      var recs' := Create(reg, s, a, now).value.recs;
      var mt, key := Normalize(a.masterType), Normalize(a.code);
      var r := recs'[|s.recs|];
      && IsCreated(r, a)
      && (r.status.Published? <==> (reg[mt].requiresApproval ==> a.force))
      && (if r.status.Published?
          then (Resolve(recs', mt, key, t, a.tenant, false) == Some(|s.recs|) <==> Reachable(recs', |s.recs|, t))
               && r.approvedBy == Some(a.actor)
          else r.status.Draft? && r.approvedBy.None? && r.effectiveFrom == DEFAULT_MASTER_EPOCH
               && ReadsAlike(s.recs, recs', mt, key))
  {
    CreateKeeps(reg, s, a, clock, now);
    var recs' := Create(reg, s, a, now).value.recs;
    var r := recs'[|s.recs|];
    if r.status.Published? {
      OpenVersionIsReadExactlyWhen(recs', now, t, |s.recs|);
    } else {
      forall u, tenant ensures Resolve(recs', Normalize(a.masterType), Normalize(a.code), u, tenant, false)
        == Resolve(s.recs, Normalize(a.masterType), Normalize(a.code), u, tenant, false)
      {
        UnpublishedAreNotRead(s.recs, recs', Normalize(a.masterType), Normalize(a.code), u, tenant);
      }
    }
  }

  /** After a direct update the new version's scope reads it from now on; after an update that
      awaits approval every published read goes on as before. */
  lemma UpdateIsRead(reg: Registry, s: State, a: UpdateArgs, clock: int, now: int, t: int)
    requires Timelines(s.recs, clock) && clock <= now <= t && Guard(reg, s, UpdateOp(a), now)
    requires Update(reg, s, a, now).Ok?
    ensures
      var recs' := Update(reg, s, a, now).value.recs;
      var mt, key := Normalize(a.masterType), Normalize(a.code);
      var i := Current(s, mt, a.code, now, a.tenant).value;
      var r := recs'[|s.recs|];
      && IsNext(r, s.recs[i], a, mt, reg[mt].requiresApproval && !a.force, a.effectiveAt.GetOr(now))
      && (r.status.Published? <==> (reg[mt].requiresApproval ==> a.force))
      && (if r.status.Published?
          then (Resolve(recs', mt, key, t, r.tenant, false) == Some(|s.recs|) <==> Reachable(recs', |s.recs|, t))
               && r.approvedBy == Some(a.actor)
          else r.status.Draft? && r.approvedBy.None? && ReadsAlike(s.recs, recs', mt, key))
  {
    UpdateKeepsExactlyWhen(reg, s, a, clock, now);
    UpdateIs(reg, s, a, now);
    var recs' := Update(reg, s, a, now).value.recs;
    var r := recs'[|s.recs|];
    if r.status.Published? {
      OpenVersionIsReadExactlyWhen(recs', now, t, |s.recs|);
    } else {
      forall u, tenant ensures Resolve(recs', Normalize(a.masterType), Normalize(a.code), u, tenant, false)
        == Resolve(s.recs, Normalize(a.masterType), Normalize(a.code), u, tenant, false)
      {
        UnpublishedAreNotRead(s.recs, recs', Normalize(a.masterType), Normalize(a.code), u, tenant);
      }
    }
  }

  /** After a publication, lookups of its scope read the approved record, with the content,
      version and approver it was approved with. */
  lemma PublishIsRead(reg: Registry, s: State, masterType: string, code: string, actor: string, clock: int, now: int,
                      t: int)
    requires Timelines(s.recs, clock) && clock <= now <= t
    requires Guard(reg, s, PublishOp(masterType, code, actor), now)
    requires Publish(s, masterType, code, actor, now).Ok?
    ensures
      var mt := Normalize(masterType);
      var i := LatestInStatus(s.recs, mt, code, Approved).value;
      var recs' := Publish(s, masterType, code, actor, now).value.recs;
      && (Resolve(recs', mt, Upper(code), t, s.recs[i].tenant, false) == Some(i) <==> Reachable(recs', i, t))
      && recs'[i].content == s.recs[i].content && recs'[i].version == s.recs[i].version
      && recs'[i].approvedBy == s.recs[i].approvedBy
  {
    PublishKeeps(reg, s, masterType, code, actor, clock, now);
    OpenVersionIsReadExactlyWhen(Publish(s, masterType, code, actor, now).value.recs, now, t,
                                 LatestInStatus(s.recs, Normalize(masterType), code, Approved).value);
  }

  /** A deactivation of a code in force succeeds exactly when nothing references it; then no
      version of its line is in force from now on, and no other record has changed. */
  lemma DeactivateIsRead(reg: Registry, s: State, masterType: string, code: string, actor: string, refs: int,
                         clock: int, now: int, t: int)
    requires Timelines(s.recs, clock) && clock <= now <= t
    requires Normalize(masterType) in reg && Current(s, Normalize(masterType), code, now, None).Some?
    ensures
      var r := Deactivate(reg, s, masterType, code, actor, refs, now);
      var i := Current(s, Normalize(masterType), code, now, None).value;
      && (r.Ok? <==> refs <= 0) && (r.Err? ==> r.error == ReferencesBlock)
      && (r.Ok? ==>
            && |r.value.recs| == |s.recs|
            && (forall j :: 0 <= j < |s.recs| && j != i ==> r.value.recs[j] == s.recs[j])
            && (forall j :: 0 <= j < |s.recs| && SameLine(s.recs[j], s.recs[i]) && s.recs[j].status.Published? ==>
                  !r.value.recs[j].EffectiveAt(t)))
  {
    var i := Current(s, Normalize(masterType), code, now, None).value;
    InForceIsOpen(s.recs, clock, now, i);
    forall j | 0 <= j < |s.recs| && j != i && SameLine(s.recs[j], s.recs[i]) && s.recs[j].status.Published?
      ensures !s.recs[j].EffectiveAt(t)
    {
      PairAt(s.recs, clock, i, j);
    }
  }

  /** A hard delete takes away the one record that an inclusive lookup finds, and only that,
      exactly when it is no system record and nothing references it. */
  lemma DeleteIsRead(reg: Registry, s: State, masterType: string, code: string, actor: string, refs: int, clock: int,
                     now: int, r: Rec)
    requires Timelines(s.recs, clock)
    requires Normalize(masterType) in reg
    requires Resolve(s.recs, Normalize(masterType), Normalize(code), now, None, true).Some?
    ensures
      var outcome := Delete(reg, s, masterType, code, actor, refs, now);
      var found := s.recs[Resolve(s.recs, Normalize(masterType), Normalize(code), now, None, true).value];
      && (outcome.Ok? <==> !found.isSystem && refs <= 0)
      && (outcome.Ok? ==> (r in outcome.value.recs <==> r in s.recs && r.id != found.id))
  {
    var i := Resolve(s.recs, Normalize(masterType), Normalize(code), now, None, true).value;
    var recs' := RemoveAt(s.recs, i);
    if r in s.recs && r.id != s.recs[i].id {
      var j :| 0 <= j < |s.recs| && s.recs[j] == r;
      assert recs'[if j < i then j else j - 1] == r;
    }
    if r in recs' {
      var j :| 0 <= j < |recs'| && recs'[j] == r;
      PairAt(s.recs, clock, i, if j < i then j else j + 1);
    }
  }

  /** The records of every other scope than that of the new version are as before. */
  ghost predicate OtherScopesKept(recs: seq<Rec>, recs': seq<Rec>, scope: Tenant) {
    |recs| <= |recs'| && forall j :: 0 <= j < |recs| && recs[j].tenant != scope ==> recs'[j] == recs[j]
  }

  /** Main result, from any store: a direct update leaves the records of all other scopes alone
      exactly when the version it found is of the caller's own scope, or already carries the
      end date and the inactive flag that it is given. */
  lemma UpdateStaysInScopeExactlyWhen(reg: Registry, s: State, a: UpdateArgs, now: int)
    requires Update(reg, s, a, now).Ok? && (reg[Normalize(a.masterType)].requiresApproval ==> a.force)
    ensures
      var recs' := Update(reg, s, a, now).value.recs;
      var cur := s.recs[Current(s, Normalize(a.masterType), a.code, now, a.tenant).value];
      OtherScopesKept(s.recs, recs', recs'[|s.recs|].tenant) <==>
        || TenantOr(a.tenant, cur.tenant) == cur.tenant
        || (cur.effectiveTo == Some(a.effectiveAt.GetOr(now)) && !cur.isActive)
  {
    var recs' := Update(reg, s, a, now).value.recs;
    var i := Current(s, Normalize(a.masterType), a.code, now, a.tenant).value;
    UpdateIs(reg, s, a, now);
    assert recs'[i] == Close(s.recs[i], a.effectiveAt.GetOr(now));
  }

  /** What that means for readers: when a tenant's direct update finds only another scope's
      version, the global one or else another tenant's, then from its effective date on that
      scope has no version of the code in force. */
  lemma FallbackUpdateRetiresScope(reg: Registry, s: State, a: UpdateArgs, clock: int, now: int, t: int)
    requires Timelines(s.recs, clock) && clock <= now <= t && a.effectiveAt.GetOr(now) <= t
    requires Update(reg, s, a, now).Ok? && (reg[Normalize(a.masterType)].requiresApproval ==> a.force)
    requires var cur := s.recs[Current(s, Normalize(a.masterType), a.code, now, a.tenant).value];
      TenantOr(a.tenant, cur.tenant) != cur.tenant
    ensures
      var recs' := Update(reg, s, a, now).value.recs;
      var cur := s.recs[Current(s, Normalize(a.masterType), a.code, now, a.tenant).value];
      forall j :: 0 <= j < |recs'| && Matches(recs'[j], Normalize(a.masterType), Normalize(a.code), t, false) ==>
        recs'[j].tenant != cur.tenant
  {
    var mt := Normalize(a.masterType);
    var i := Current(s, mt, a.code, now, a.tenant).value;
    var recs' := Update(reg, s, a, now).value.recs;
    UpdateIs(reg, s, a, now);
    InForceIsOpen(s.recs, clock, now, i);
    forall j | 0 <= j < |recs'| && Matches(recs'[j], mt, Normalize(a.code), t, false)
      ensures recs'[j].tenant != s.recs[i].tenant
    {
      if j < |s.recs| && j != i {
        InForceIsOpen(s.recs, clock, t, j);
        PairAt(s.recs, clock, i, j);
      }
    }
  }
}
