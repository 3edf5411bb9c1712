/** The effect of every call, told by the fields: exactly when it succeeds and with which failure
    otherwise, the whole new store, and the one entry that it logs. */
module Effects {
  import opened Text
  import opened Records
  import opened Resolution
  import opened Lifecycle

  /** Exactly the records at the given position is another one. */
  predicate Replaced(recs: seq<Rec>, recs': seq<Rec>, i: nat, r: Rec) {
    && i < |recs| == |recs'| && recs'[i] == r
    && forall j :: 0 <= j < |recs| && j != i ==> recs'[j] == recs[j]
  }

  predicate Appended(recs: seq<Rec>, recs': seq<Rec>, r: Rec) {
    && |recs'| == |recs| + 1 && recs'[|recs|] == r
    && forall j :: 0 <= j < |recs| ==> recs'[j] == recs[j]
  }

  /** One entry was added: it names the record, the master type, the code as the caller spelled it,
      the caller, and the record's value. */
  predicate OneLogged(log: seq<Audit>, log': seq<Audit>, r: Rec, mt: string, code: string, action: Action,
                      actor: string) {
    && |log'| == |log| + 1 && log'[..|log|] == log
    && var e := log'[|log|];
       && e.recordId == r.id && e.masterType == mt && e.code == code && e.version == r.version
       && e.action == action && e.changedBy == actor
       && e.snapshot == if action.DeleteAction? then None else Some(r)
  }

  /** An active record stands in the way of a creation. */
  ghost predicate Taken(recs: seq<Rec>, mt: string, code: string, tenant: Tenant) {
    exists i :: 0 <= i < |recs| && recs[i].masterType == mt && Upper(recs[i].code) == Upper(Strip(code))
      && recs[i].tenant == tenant && recs[i].isActive
  }

  /** A creation succeeds exactly on a registered master where no active record has the code, up
      to case, in the same scope. It stores version 1, as a draft dated at the epoch if it awaits
      approval, else published from now on and approved by its creator. */
  lemma CreateEffect(reg: Registry, s: State, a: CreateArgs, now: int)
    ensures
      var mt := Upper(Strip(a.masterType));
      var r := Apply(reg, s, CreateOp(a), now);
      && (r.Ok? <==> mt in reg && !Taken(s.recs, mt, a.code, a.tenant))
      && (r.Err? ==> r.error == if mt in reg then AlreadyExists else NotRegistered)
      && (r.Ok? ==>
            var awaits := reg[mt].requiresApproval && !a.force;
            var content := Content(a.patch.displayName, a.patch.description,
              if a.patch.sortOrder.Some? then a.patch.sortOrder.value else 0, a.patch.parentCode,
              if a.patch.attributes.Some? then a.patch.attributes.value else map[]);
            var next := Rec(a.newId, mt, Strip(a.code), content, a.isSystem, true, if awaits then 0 else now, None, 1,
              a.tenant, a.actor, if awaits then None else Some(a.actor), if awaits then Draft else Published);
            && Appended(s.recs, r.value.recs, next)
            && OneLogged(s.audits, r.value.audits, next, mt, a.code, CreateAction, a.actor))
  {
    assert ActiveIndex(s.recs, Normalize(a.masterType), Normalize(a.code), a.tenant).Some?
      <==> Taken(s.recs, Upper(Strip(a.masterType)), a.code, a.tenant);
  }

  /** The version after `cur`: given fields as given, absent ones as they were, in the caller's
      scope if that is named, and otherwise in that of `cur`. */
  predicate IsNext(r: Rec, cur: Rec, a: UpdateArgs, mt: string, awaits: bool, at: int) {
    && r.id == a.newId && r.masterType == mt && r.code == cur.code && r.isSystem == cur.isSystem && r.isActive
    && r.content.displayName == a.patch.displayName
    && r.content.description == (if a.patch.description.Some? then a.patch.description else cur.content.description)
    && r.content.sortOrder == (if a.patch.sortOrder.Some? then a.patch.sortOrder.value else cur.content.sortOrder)
    && r.content.parentCode == (if a.patch.parentCode.Some? then a.patch.parentCode else cur.content.parentCode)
    && r.content.attributes == (if a.patch.attributes.Some? then a.patch.attributes.value else cur.content.attributes)
    && r.effectiveFrom == at && r.effectiveTo.None? && r.version == cur.version + 1
    && r.tenant == (if a.tenant.Some? && a.tenant.value != "" then a.tenant else cur.tenant)
    && r.createdBy == a.actor && r.approvedBy == (if awaits then None else Some(a.actor))
    && r.status == if awaits then Draft else Published
  }

  lemma NextVersionIsNext(a: UpdateArgs, cur: Rec, awaits: bool, now: int)
    ensures IsNext(NextVersion(a, cur, awaits, now), cur, a, Upper(Strip(a.masterType)), awaits,
                   if a.effectiveAt.Some? then a.effectiveAt.value else now)
  {
  }

  /** An update succeeds exactly where a lookup for the caller finds a version. It appends the next
      one; if that does not await approval, it also closes the version found at the effective date,
      which is now unless given. */
  lemma UpdateEffect(reg: Registry, s: State, a: UpdateArgs, now: int)
    ensures
      var mt := Upper(Strip(a.masterType));
      var found := Resolve(s.recs, mt, Upper(Strip(a.code)), now, a.tenant, false);
      var r := Apply(reg, s, UpdateOp(a), now);
      && (r.Ok? <==> mt in reg && found.Some?)
      && (r.Err? ==> r.error == if mt in reg then NotFound else NotRegistered)
      && (r.Ok? ==> Updated(s, r.value, a, found.value, reg[mt].requiresApproval && !a.force, now))
  {
    if Update(reg, s, a, now).Ok? {
      var mt := Normalize(a.masterType);
      var found := Resolve(s.recs, mt, Normalize(a.code), now, a.tenant, false);
      UpdateIs(reg, s, a, now);
      NextVersionIsNext(a, s.recs[found.value], reg[mt].requiresApproval && !a.force, now);
    }
  }

  predicate Updated(s: State, s': State, a: UpdateArgs, i: nat, awaits: bool, now: int) {
    var mt := Upper(Strip(a.masterType));
    var at := if a.effectiveAt.Some? then a.effectiveAt.value else now;
    && i < |s.recs| && |s'.recs| == |s.recs| + 1
    && IsNext(s'.recs[|s.recs|], s.recs[i], a, mt, awaits, at)
    && (forall j :: 0 <= j < |s.recs| && (j != i || awaits) ==> s'.recs[j] == s.recs[j])
    && (!awaits ==> s'.recs[i] == s.recs[i].(effectiveTo := Some(at), isActive := false))
    && OneLogged(s.audits, s'.audits, s'.recs[|s.recs|], mt, a.code,
                 if awaits then DraftVersionAction else UpdateVersionAction, a.actor)
  }

  /** The latest stored record of exactly this type and code in the given status. */
  ghost predicate Latest(recs: seq<Rec>, i: int, mt: string, code: string, status: Status) {
    && 0 <= i < |recs| && recs[i].masterType == mt && recs[i].code == code && recs[i].status == status
    && forall j :: i < j < |recs| && recs[j].masterType == mt && recs[j].code == code ==> recs[j].status != status
  }

  lemma LatestIs(recs: seq<Rec>, mt: string, code: string, status: Status)
    ensures
      var found := LatestInStatus(recs, mt, code, status);
      if found.Some? then Latest(recs, found.value, mt, code, status)
      else forall i :: !Latest(recs, i, mt, code, status)
  {
    var found := LatestInStatus(recs, mt, code, status);
    if found.None? {
      forall i ensures !Latest(recs, i, mt, code, status) {
        assert 0 <= i < |recs| ==> !InStatus(recs[i], mt, code, status);
      }
    } else {
      forall j | found.value < j < |recs| && recs[j].masterType == mt && recs[j].code == code
        ensures recs[j].status != status
      {
        assert !InStatus(recs[j], mt, code, status);
      }
    }
  }

  /** A submission succeeds exactly where there is a draft of the code, and puts the latest one,
      which is returned, in review. */
  lemma SubmitEffect(reg: Registry, s: State, masterType: string, code: string, actor: string, now: int)
    returns (i: int)
    ensures
      var mt := Upper(Strip(masterType));
      var r := Apply(reg, s, SubmitOp(masterType, code, actor), now);
      && (r.Err? ==> r.error == NoDraft && forall j :: !Latest(s.recs, j, mt, code, Draft))
      && (r.Ok? ==>
            && Latest(s.recs, i, mt, code, Draft)
            && Replaced(s.recs, r.value.recs, i, s.recs[i].(status := InReview))
            && OneLogged(s.audits, r.value.audits, s.recs[i].(status := InReview), mt, code, SubmitAction, actor))
  {
    LatestIs(s.recs, Normalize(masterType), code, Draft);
    i := LatestInStatus(s.recs, Normalize(masterType), code, Draft).GetOr(0);
  }

  /** An approval succeeds exactly where a record of the code is in review; it approves the latest
      one, which is returned, and notes who did. */
  lemma ApproveEffect(reg: Registry, s: State, masterType: string, code: string, actor: string, now: int)
    returns (i: int)
    ensures
      var mt := Upper(Strip(masterType));
      var r := Apply(reg, s, ApproveOp(masterType, code, actor), now);
      && (r.Err? ==> r.error == NoReview && forall j :: !Latest(s.recs, j, mt, code, InReview))
      && (r.Ok? ==>
            && Latest(s.recs, i, mt, code, InReview)
            && var next := s.recs[i].(status := Approved, approvedBy := Some(actor));
               && Replaced(s.recs, r.value.recs, i, next)
               && OneLogged(s.audits, r.value.audits, next, mt, code, ApproveAction, actor))
  {
    LatestIs(s.recs, Normalize(masterType), code, InReview);
    i := LatestInStatus(s.recs, Normalize(masterType), code, InReview).GetOr(0);
  }

  /** An open active record of this type and code under another id than the given one. */
  predicate OtherOpen(recs: seq<Rec>, j: int, mt: string, code: string, id: string) {
    && 0 <= j < |recs| && recs[j].masterType == mt && recs[j].code == code && recs[j].isActive
    && recs[j].effectiveTo.None? && recs[j].id != id
  }

  /** What becomes of a record that is not the published one: the first other open active record of
      the code is closed. */
  predicate AfterPublication(recs: seq<Rec>, j: nat, r: Rec, mt: string, code: string, id: string, now: int)
    requires j < |recs|
  {
    if OtherOpen(recs, j, mt, code, id) && (forall k :: 0 <= k < j ==> !OtherOpen(recs, k, mt, code, id)) then
      r == recs[j].(effectiveTo := Some(now), isActive := false)
    else r == recs[j]
  }

  /** A publication succeeds exactly where a record of the code is approved. It publishes the latest
      one, which is returned, active and open from now on, closes the first other open active record
      of the code, and touches nothing else. */
  lemma PublishEffect(reg: Registry, s: State, masterType: string, code: string, actor: string, now: int)
    returns (i: int)
    ensures
      var mt := Upper(Strip(masterType));
      var r := Apply(reg, s, PublishOp(masterType, code, actor), now);
      && (r.Err? ==> r.error == NoApproved && forall j :: !Latest(s.recs, j, mt, code, Approved))
      && (r.Ok? ==>
            && Latest(s.recs, i, mt, code, Approved)
            && var next := s.recs[i].(status := Published, isActive := true, effectiveFrom := now, effectiveTo := None);
               && |r.value.recs| == |s.recs| && r.value.recs[i] == next
               && (forall j :: 0 <= j < |s.recs| && j != i ==>
                     AfterPublication(s.recs, j, r.value.recs[j], mt, code, next.id, now))
               && OneLogged(s.audits, r.value.audits, next, mt, code, PublishAction, actor))
  {
    var mt := Normalize(masterType);
    LatestIs(s.recs, mt, code, Approved);
    var found := LatestInStatus(s.recs, mt, code, Approved);
    i := found.GetOr(0);
    if found.Some? { FirstOtherOpen(s.recs, mt, code, s.recs[i].id); }
  }

  lemma FirstOtherOpen(recs: seq<Rec>, mt: string, code: string, id: string)
    ensures forall j :: 0 <= j < |recs| ==>
      (Predecessor(recs, mt, code, id) == Some(j)
       <==> OtherOpen(recs, j, mt, code, id) && forall k :: 0 <= k < j ==> !OtherOpen(recs, k, mt, code, id))
  {
    forall j | 0 <= j < |recs|
      ensures OtherOpen(recs, j, mt, code, id) <==> OpenActive(recs[j], mt, code) && recs[j].id != id
    {
    }
  }

  /** A deactivation succeeds exactly where a global lookup finds a version that nothing refers to,
      and closes it now. */
  lemma DeactivateEffect(reg: Registry, s: State, masterType: string, code: string, actor: string, refs: int, now: int)
    ensures
      var mt := Upper(Strip(masterType));
      var found := Resolve(s.recs, mt, Upper(Strip(code)), now, None, false);
      var r := Apply(reg, s, DeactivateOp(masterType, code, actor, refs), now);
      && (r.Ok? <==> mt in reg && found.Some? && refs <= 0)
      && (r.Err? ==> r.error == if mt !in reg then NotRegistered else if found.None? then NotFound else ReferencesBlock)
      && (r.Ok? ==>
            var closed := s.recs[found.value].(effectiveTo := Some(now), isActive := false);
            && Replaced(s.recs, r.value.recs, found.value, closed)
            && OneLogged(s.audits, r.value.audits, closed, mt, code, DeactivateAction, actor))
  {
  }

  /** A deletion succeeds exactly where an inclusive global lookup finds a record that is no system
      record and that nothing refers to, and removes that one. */
  lemma DeleteEffect(reg: Registry, s: State, masterType: string, code: string, actor: string, refs: int, now: int)
    ensures
      var mt := Upper(Strip(masterType));
      var found := Resolve(s.recs, mt, Upper(Strip(code)), now, None, true);
      var r := Apply(reg, s, DeleteOp(masterType, code, actor, refs), now);
      && (r.Ok? <==> mt in reg && found.Some? && !s.recs[found.value].isSystem && refs <= 0)
      && (r.Err? ==>
            if mt !in reg then r.error == NotRegistered
            else if found.None? then r.error == NotFound
            else if s.recs[found.value].isSystem then r.error == SystemMaster
            else r.error == ReferencesBlock)
      && (r.Ok? ==>
            && r.value.recs == s.recs[..found.value] + s.recs[found.value + 1..]
            && OneLogged(s.audits, r.value.audits, s.recs[found.value], mt, code, DeleteAction, actor))
  {
  }
}
