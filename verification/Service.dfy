/** `MasterDataService` as it runs: methods that mutate live records in the repository and
    append to the audit list. Each is proved to perform the transition of `Lifecycle` that the
    other modules reason about, including its failures, which change nothing. */
module Service {
  import opened Text
  import opened Records
  import opened Resolution
  import opened Lifecycle
  import opened Store
  import opened References
  import opened Import

  function ErrorOf<T>(r: Result<T, Error>): Option<Error> {
    if r.Err? then Some(r.error) else None
  }

  /** The call left the state and failed or not as the specified outcome says. */
  ghost predicate Performed(outcome: Outcome, before: State, after: State, failure: Option<Error>) {
    match outcome
    case Ok(s) => after == s && failure.None?
    case Err(e) => after == before && failure == Some(e)
  }

  /** The whole import is what was done so far followed by the rest. */
  ghost predicate Continues(whole: Imported, done: seq<RowAction>, rest: Imported) {
    whole.state == rest.state && whole.failure == rest.failure && whole.actions == done + rest.actions
  }

  /** From the state `s` on, the rows from `i` make the whole import of what was done so far. */
  ghost predicate Remains(reg: Registry, s: State, mt: string, rows: seq<Row>, ticks: seq<Tick>, actor: string, i: nat,
                          whole: Imported, done: seq<RowAction>)
    requires |ticks| == |rows| && i <= |rows|
  {
    Continues(whole, done, ImportRows(reg, s, mt, rows[i..], ticks[i..], actor))
  }

  lemma AllRowsRemain(reg: Registry, s: State, mt: string, rows: seq<Row>, ticks: seq<Tick>, actor: string)
    requires |ticks| == |rows|
    ensures Remains(reg, s, mt, rows, ticks, actor, 0, ImportRows(reg, s, mt, rows, ticks, actor), [])
  {
    assert rows[0..] == rows && ticks[0..] == ticks;
  }

  /** What one turn of the import loop left behind, as specified. */
  ghost predicate RowDone(outcome: Result<(State, RowAction), Error>, before: State, after: State,
                          r: Result<RowAction, Error>)
  {
    match outcome
    case Ok((s, action)) => r == Ok(action) && after == s
    case Err(e) => r == Err(e) && after == before
  }

  lemma OneMoreRow(reg: Registry, s: State, mt: string, rows: seq<Row>, ticks: seq<Tick>, actor: string, i: nat,
                   whole: Imported, done: seq<RowAction>, after: State, one: Result<RowAction, Error>)
    requires |ticks| == |rows| && i < |rows|
    requires Remains(reg, s, mt, rows, ticks, actor, i, whole, done)
    requires RowDone(ImportRow(reg, s, mt, rows[i], ticks[i], actor), s, after, one)
    ensures
      match one
      case Ok(action) => Remains(reg, after, mt, rows, ticks, actor, i + 1, whole, done + [action])
      case Err(e) => whole.state == after && Counts(whole) == Err(e)
  {
    assert rows[i..][0] == rows[i] && ticks[i..][0] == ticks[i];
    assert rows[i..][1..] == rows[i + 1..] && ticks[i..][1..] == ticks[i + 1..];
    if one.Ok? {
      var rest := ImportRows(reg, after, mt, rows[i + 1..], ticks[i + 1..], actor);
      assert done + ([one.value] + rest.actions) == done + [one.value] + rest.actions;
    }
  }

  ghost predicate Tallied(done: seq<RowAction>, added: nat, updated: nat) {
    added == Count(done, Added) && updated == Count(done, Updated)
  }

  lemma OneMoreTallied(done: seq<RowAction>, added: nat, updated: nat, action: RowAction)
    requires Tallied(done, added, updated)
    ensures if action.Updated? then Tallied(done + [action], added, updated + 1)
            else Tallied(done + [action], added + 1, updated)
  {
    CountGrows(done, action, Added);
    CountGrows(done, action, Updated);
  }

  lemma NoMoreRows(reg: Registry, s: State, mt: string, rows: seq<Row>, ticks: seq<Tick>, actor: string,
                   whole: Imported, done: seq<RowAction>, added: nat, updated: nat)
    requires |ticks| == |rows| && Tallied(done, added, updated)
    requires Remains(reg, s, mt, rows, ticks, actor, |rows|, whole, done)
    ensures whole.state == s && Counts(whole) == Ok((added, updated))
  {
    assert whole.actions == done;
  }

  lemma UpdatedRow(reg: Registry, s: State, mt: string, row: Row, tick: Tick, actor: string, after: State,
                   failure: Option<Error>)
    requires Hit(s.recs, mt, row, tick.now)
    requires Performed(Update(reg, s, RowUpdate(mt, row, tick, actor), tick.now), s, after, failure)
    ensures RowDone(ImportRow(reg, s, mt, row, tick, actor), s, after,
                    if failure.Some? then Err(failure.value) else Ok(Updated))
  {
  }

  lemma CreatedRow(reg: Registry, s: State, mt: string, row: Row, tick: Tick, actor: string, after: State,
                   failure: Option<Error>)
    requires !Hit(s.recs, mt, row, tick.now) && !row.sortOrder.Null?
    requires Performed(Create(reg, s, RowCreate(mt, row, tick, actor), tick.now), s, after, failure)
    ensures RowDone(ImportRow(reg, s, mt, row, tick, actor), s, after,
                    if failure.Some? then Err(failure.value) else Ok(Added))
  {
  }

  class MasterDataService {
    const registry: Registry
    const repo: MasterDataStore
    var audits: seq<Audit>

    constructor (registry: Registry, repo: MasterDataStore)
      requires repo.Valid()
      ensures Valid() && this.registry == registry && this.repo == repo
      ensures Model() == State(repo.View(), [])
    {
      this.registry, this.repo := registry, repo;
      audits := [];
    }

    ghost predicate Valid()
      reads repo
    {
      repo.Valid()
    }

    ghost function Model(): State
      reads this, repo, repo.records
    {
      State(repo.View(), audits)
    }

    /** The candidates of `get_record`: the live records that match. */
    method Candidates(mt: string, key: string, asOf: int, inclInactive: bool)
      returns (candidates: seq<MasterDataRecord>, ghost at: seq<nat>)
      ensures Filtered(repo.View(), |repo.records|, AnyQuery(mt, key, asOf, inclInactive), at)
      ensures Picked(candidates, repo.records, at) && Scopes(candidates) == ScopesAt(repo.View(), at)
    {
      candidates, at := [], [];
      ghost var p, view := AnyQuery(mt, key, asOf, inclInactive), repo.View();
      for i := 0 to |repo.records|
        invariant Filtered(view, i, p, at) && Picked(candidates, repo.records, at)
      {
        if Matches(repo.records[i].Snapshot(), mt, key, asOf, inclInactive) {
          FilterTakes(view, i, p, at);
          PickOneMore(candidates, repo.records, at, i);
          candidates, at := candidates + [repo.records[i]], at + [i];
        } else {
          FilterSkips(view, i, p, at);
        }
      }
      assert forall k :: 0 <= k < |at| ==> candidates[k].tenant == view[at[k]].tenant;
    }

    static function Scopes(records: seq<MasterDataRecord>): (scopes: seq<Tenant>)
      ensures |scopes| == |records|
    {
      seq(|records|, k requires 0 <= k < |records| => records[k].tenant)
    }

    /** The searches of `get_record` among the candidates. */
    static method Choose(candidates: seq<MasterDataRecord>, tenant: Tenant) returns (c: nat)
      requires candidates != []
      ensures Chosen(Scopes(candidates), tenant, c)
    {
      ghost var scopes := Scopes(candidates);
      if tenant.Some? && tenant.value != "" {
        for k := 0 to |candidates|
          invariant forall j :: 0 <= j < k ==> !IsOwn(scopes[j], tenant)
        {
          if candidates[k].tenant == tenant {
            assert IsOwn(scopes[k], tenant);
            return k;
          }
        }
      }
      for k := 0 to |candidates|
        invariant forall j :: 0 <= j < k ==> scopes[j].Some?
      {
        if candidates[k].tenant.None? {
          assert scopes[k].None?;
          return k;
        }
      }
      return |candidates| - 1;
    }

    /** `get_record` */
    method GetRecord(masterType: string, code: string, asOf: int, tenant: Tenant, inclInactive: bool)
      returns (r: Result<Option<MasterDataRecord>, Error>)
      requires Valid()
      ensures
        var mt := Normalize(masterType);
        if mt !in registry then r == Err(NotRegistered)
        else
          match Resolve(repo.View(), mt, Normalize(code), asOf, tenant, inclInactive)
          case None => r == Ok(None)
          case Some(i) => r == Ok(Some(repo.records[i]))
    {
      var mt, key := Normalize(masterType), Normalize(code);
      if mt !in registry { return Err(NotRegistered); }
      var candidates, at := Candidates(mt, key, asOf, inclInactive);
      if candidates == [] { return Ok(None); }
      var c := Choose(candidates, tenant);
      ChosenIsResolved(repo.View(), mt, key, asOf, tenant, inclInactive, at, c);
      return Ok(Some(candidates[c]));
    }

    /** The loop of `list_records`, on snapshots. */
    method ListRecords(masterType: string, asOf: int, tenant: Tenant, inclInactive: bool)
      returns (r: Result<seq<Rec>, Error>)
      requires Valid()
      ensures
        var mt := Normalize(masterType);
        r == if mt !in registry then Err(NotRegistered)
             else Ok(Resolution.ListRecords(repo.View(), mt, asOf, tenant, inclInactive))
    {
      var mt := Normalize(masterType);
      if mt !in registry { return Err(NotRegistered); }
      var records := repo.View();
      var byCode: seq<Rec> := [];
      for i := 0 to |records|
        invariant byCode == ByCode(records[..i], mt, asOf, tenant, inclInactive)
      {
        assert records[..i + 1][..i] == records[..i];
        var rec := records[i];
        if rec.masterType == mt && rec.EffectiveAt(asOf) && (inclInactive || rec.status.Published?) {
          var at := CodeIndex(byCode, rec.code);
          if at.None? {
            byCode := byCode + [rec];
          } else if TenantMatch(rec, tenant) {
            byCode := byCode[at.value := rec];
          }
        }
      }
      assert records[..|records|] == records;
      return Ok(Sort(byCode));
    }

    method RecordAudit(record: MasterDataRecord, code: string, action: Action, actor: string)
      modifies this
      ensures audits == old(audits) + [Entry(record.Snapshot(), code, action, actor)]
    {
      audits := audits + [Entry(record.Snapshot(), code, action, actor)];
    }

    /** Closes the live record at a position, as updates, publications and deactivations do. */
    method CloseLive(i: nat, at: int)
      requires Valid() && i < |repo.records|
      modifies repo.records[i]
      ensures repo.View() == old(repo.View())[i := Close(old(repo.View())[i], at)]
    {
      var record := repo.records[i];
      record.effectiveTo := Some(at);
      record.isActive := false;
    }

    /** Makes the next version of a draft live: published, active, and open from now on. */
    method OpenLive(i: nat, now: int)
      requires Valid() && i < |repo.records|
      modifies repo.records[i]
      ensures repo.View() == old(repo.View())[i := old(repo.View())[i].(
        status := Published, isActive := true, effectiveFrom := now, effectiveTo := None)]
    {
      var record := repo.records[i];
      record.status := Published;
      record.isActive := true;
      record.effectiveFrom := now;
      record.effectiveTo := None;
    }

    /** Stores a new record object and logs it. */
    method StoreNew(next: Rec, code: string, action: Action, actor: string) returns (record: MasterDataRecord)
      requires Valid()
      modifies this, repo
      ensures Valid() && Model() == State(old(repo.View()) + [next], old(audits) + [Entry(next, code, action, actor)])
      ensures fresh(record) && repo.records == old(repo.records) + [record] && record.Snapshot() == next
    {
      record := new MasterDataRecord(next);
      repo.Append(record);
      RecordAudit(record, code, action, actor);
    }

    /** Publishes the draft at `i`, closing the version at `prev` if there is one. */
    method PublishLive(i: nat, prev: Option<nat>, code: string, actor: string, now: int)
      requires Valid() && i < |repo.records| && (prev.Some? ==> prev.value < |repo.records|)
      modifies this, repo.records
      ensures
        var r := old(repo.View())[i].(status := Published, isActive := true, effectiveFrom := now, effectiveTo := None);
        prev != Some(i) ==>
          Model() ==
            SetStatus(State(CloseAt(old(repo.View()), prev, now), old(audits)), i, r, code, PublishAction, actor)
    {
      if prev.Some? { CloseLive(prev.value, now); }
      assert repo.View() == CloseAt(old(repo.View()), prev, now);
      OpenLive(i, now);
      RecordAudit(repo.records[i], code, PublishAction, actor);
    }

    /** Closes the record at `i` and logs that it was deactivated. */
    method DeactivateLive(i: nat, code: string, actor: string, now: int)
      requires Valid() && i < |repo.records|
      modifies this, repo.records[i]
      ensures Model() == SetStatus(old(Model()), i, Close(old(repo.View())[i], now), code, DeactivateAction, actor)
    {
      CloseLive(i, now);
      RecordAudit(repo.records[i], code, DeactivateAction, actor);
    }

    /** Removes the record at `i` from the repository and logs it without a snapshot. */
    method RemoveLive(i: nat, code: string, actor: string)
      requires Valid() && i < |repo.records|
      modifies this, repo
      ensures Valid() && old(repo.records[i]) !in repo.records
      ensures Model() == State(Lifecycle.RemoveAt(old(repo.View()), i),
        old(audits) + [Entry(old(repo.View())[i], code, DeleteAction, actor).(snapshot := None)])
    {
      var record := repo.records[i];
      repo.RemoveAt(i);
      audits := audits + [Entry(record.Snapshot(), code, DeleteAction, actor).(snapshot := None)];
    }

    /** `create_record` */
    method CreateRecord(a: CreateArgs, now: int) returns (r: Result<MasterDataRecord, Error>)
      requires Valid()
      modifies this, repo
      ensures Valid() && Performed(Create(registry, old(Model()), a, now), old(Model()), Model(), ErrorOf(r))
      ensures r.Ok? ==> fresh(r.value) && repo.records == old(repo.records) + [r.value]
      ensures r.Err? ==> repo.records == old(repo.records)
    {
      var mt := Normalize(a.masterType);
      if mt !in registry { return Err(NotRegistered); }
      if ActiveIndex(repo.View(), mt, Normalize(a.code), a.tenant).Some? { return Err(AlreadyExists); }
      var record := StoreNew(CreatedRecord(a, registry[mt].requiresApproval && !a.force, now), a.code, CreateAction,
                             a.actor);
      return Ok(record);
    }

    /** `update_record` */
    method UpdateRecord(a: UpdateArgs, now: int) returns (r: Result<MasterDataRecord, Error>)
      requires Valid()
      modifies this, repo, repo.records
      ensures Valid() && Performed(Update(registry, old(Model()), a, now), old(Model()), Model(), ErrorOf(r))
      ensures r.Ok? ==> fresh(r.value) && repo.records == old(repo.records) + [r.value]
      ensures r.Err? ==> repo.records == old(repo.records)
    {
      var mt := Normalize(a.masterType);
      if mt !in registry { return Err(NotRegistered); }
      var found := Resolve(repo.View(), mt, Normalize(a.code), now, a.tenant, false);
      if found.None? { return Err(NotFound); }
      var draft := registry[mt].requiresApproval && !a.force;
      var next := NextVersion(a, repo.records[found.value].Snapshot(), draft, now);
      if !draft { CloseLive(found.value, a.effectiveAt.GetOr(now)); }
      var record := StoreNew(next, a.code, if draft then DraftVersionAction else UpdateVersionAction, a.actor);
      return Ok(record);
    }

    /** `submit_for_review` */
    method SubmitForReview(masterType: string, code: string, actor: string) returns (r: Result<MasterDataRecord, Error>)
      requires Valid()
      modifies this, repo.records
      ensures Valid() && Performed(Submit(old(Model()), masterType, code, actor), old(Model()), Model(), ErrorOf(r))
      ensures r.Ok? ==>
        var i := LatestInStatus(old(repo.View()), Normalize(masterType), code, Draft);
        i.Some? && i.value < |repo.records| && r.value == repo.records[i.value]
    {
      var found := LatestInStatus(repo.View(), Normalize(masterType), code, Draft);
      if found.None? { return Err(NoDraft); }
      var draft := repo.records[found.value];
      draft.status := InReview;
      assert repo.View() == old(repo.View())[found.value := draft.Snapshot()];
      RecordAudit(draft, code, SubmitAction, actor);
      return Ok(draft);
    }

    /** `approve` */
    method ApproveRecord(masterType: string, code: string, actor: string) returns (r: Result<MasterDataRecord, Error>)
      requires Valid()
      modifies this, repo.records
      ensures Valid() && Performed(Approve(old(Model()), masterType, code, actor), old(Model()), Model(), ErrorOf(r))
      ensures r.Ok? ==>
        var i := LatestInStatus(old(repo.View()), Normalize(masterType), code, InReview);
        i.Some? && i.value < |repo.records| && r.value == repo.records[i.value]
    {
      var found := LatestInStatus(repo.View(), Normalize(masterType), code, InReview);
      if found.None? { return Err(NoReview); }
      var review := repo.records[found.value];
      review.status := Approved;
      review.approvedBy := Some(actor);
      assert repo.View() == old(repo.View())[found.value := review.Snapshot()];
      RecordAudit(review, code, ApproveAction, actor);
      return Ok(review);
    }

    /** `publish` */
    method PublishRecord(masterType: string, code: string, actor: string, now: int)
      returns (r: Result<MasterDataRecord, Error>)
      requires Valid()
      modifies this, repo.records
      ensures Valid()
      ensures Performed(Publish(old(Model()), masterType, code, actor, now), old(Model()), Model(), ErrorOf(r))
      ensures r.Ok? ==>
        var i := LatestInStatus(old(repo.View()), Normalize(masterType), code, Approved);
        i.Some? && i.value < |repo.records| && r.value == repo.records[i.value]
    {
      var mt := Normalize(masterType);
      var found := LatestInStatus(repo.View(), mt, code, Approved);
      if found.None? { return Err(NoApproved); }
      var approved := repo.records[found.value];
      var prev := Predecessor(repo.View(), mt, code, approved.id);
      PublishLive(found.value, prev, code, actor, now);
      return Ok(approved);
    }

    /** `deactivate_record`, with what the reference providers report at that moment. */
    method DeactivateRecord(masterType: string, code: string, actor: string, evidence: Evidence, now: int)
      returns (r: Result<MasterDataRecord, Error>)
      requires Valid()
      modifies this, repo.records
      ensures Valid()
      ensures Performed(Deactivate(registry, old(Model()), masterType, code, actor, SumOf(Items(evidence)), now),
                        old(Model()), Model(), ErrorOf(r))
      ensures r.Ok? ==>
        var i := Resolve(old(repo.View()), Normalize(masterType), Normalize(code), now, None, false);
        i.Some? && i.value < |repo.records| && r.value == repo.records[i.value]
    {
      var mt := Normalize(masterType);
      if mt !in registry { return Err(NotRegistered); }
      var found := Resolve(repo.View(), mt, Normalize(code), now, None, false);
      if found.None? { return Err(NotFound); }
      var _, _, inUse := CheckReferenceIntegrity(evidence);
      if inUse { return Err(ReferencesBlock); }
      DeactivateLive(found.value, code, actor, now);
      return Ok(repo.records[found.value]);
    }

    /** `delete_record`; the removed object is returned. */
    method DeleteRecord(masterType: string, code: string, actor: string, evidence: Evidence, now: int)
      returns (r: Result<MasterDataRecord, Error>)
      requires Valid()
      modifies this, repo
      ensures Valid()
      ensures Performed(Delete(registry, old(Model()), masterType, code, actor, SumOf(Items(evidence)), now),
                        old(Model()), Model(), ErrorOf(r))
      ensures r.Ok? ==>
        var i := Resolve(old(repo.View()), Normalize(masterType), Normalize(code), now, None, true);
        i.Some? && i.value < |old(repo.records)| && r.value == old(repo.records[i.value]) && r.value !in repo.records
    {
      var mt := Normalize(masterType);
      if mt !in registry { return Err(NotRegistered); }
      var found := Resolve(repo.View(), mt, Normalize(code), now, None, true);
      if found.None? { return Err(NotFound); }
      var current := repo.records[found.value];
      if current.isSystem { return Err(SystemMaster); }
      var _, _, inUse := CheckReferenceIntegrity(evidence);
      if inUse { return Err(ReferencesBlock); }
      RemoveLive(found.value, code, actor);
      return Ok(current);
    }

    /** One turn of the import loop. */
    method ImportOne(mt: string, row: Row, tick: Tick, actor: string) returns (r: Result<RowAction, Error>)
      requires Valid() && Normalize(mt) == mt
      modifies this, repo, repo.records
      ensures Valid()
      ensures RowDone(ImportRow(registry, old(Model()), mt, row, tick, actor), old(Model()), Model(), r)
      ensures KeepsObjects(repo)
    {
      var existing := Resolve(repo.View(), mt, Normalize(row.code.GetOr("")), tick.now, None, false);
      if existing.Some? {
        var updated := UpdateRecord(RowUpdate(mt, row, tick, actor), tick.now);
        UpdatedRow(registry, old(Model()), mt, row, tick, actor, Model(), ErrorOf(updated));
        if updated.Err? { return Err(updated.error); }
        return Ok(Updated);
      }
      if row.sortOrder.Null? {
        if mt !in registry { return Err(NotRegistered); }
        if ActiveIndex(repo.View(), mt, Normalize(row.code.GetOr("")), None).Some? { return Err(AlreadyExists); }
        return Err(InvalidRecord);
      }
      var created := CreateRecord(RowCreate(mt, row, tick, actor), tick.now);
      CreatedRow(registry, old(Model()), mt, row, tick, actor, Model(), ErrorOf(created));
      if created.Err? { return Err(created.error); }
      return Ok(Added);
    }

    /** The loop of `import_data`. */
    method ImportLoop(mt: string, rows: seq<Row>, ticks: seq<Tick>, actor: string)
      returns (r: Result<(nat, nat), Error>)
      requires Valid() && |ticks| == |rows| && Normalize(mt) == mt
      modifies this, repo, repo.records
      ensures Valid()
      ensures var imported := ImportRows(registry, old(Model()), mt, rows, ticks, actor);
        Model() == imported.state && r == Counts(imported)
    {
      var added, updated: nat := 0, 0;
      ghost var done: seq<RowAction> := [];
      ghost var whole := ImportRows(registry, Model(), mt, rows, ticks, actor);
      AllRowsRemain(registry, Model(), mt, rows, ticks, actor);
      for i := 0 to |rows|
        invariant Valid() && KeepsObjects(repo)
        invariant Tallied(done, added, updated)
        invariant Remains(registry, Model(), mt, rows, ticks, actor, i, whole, done)
      {
        ghost var before := Model();
        var one := ImportOne(mt, rows[i], ticks[i], actor);
        OneMoreRow(registry, before, mt, rows, ticks, actor, i, whole, done, Model(), one);
        if one.Err? { return Err(one.error); }
        OneMoreTallied(done, added, updated, one.value);
        done := done + [one.value];
        if one.value.Updated? { updated := updated + 1; } else { added := added + 1; }
      }
      NoMoreRows(registry, Model(), mt, rows, ticks, actor, whole, done, added, updated);
      return Ok((added, updated));
    }

    /** `import_data` on parsed rows: dry run first, then row by row. */
    method ImportAll(masterType: string, rows: seq<Row>, ticks: seq<Tick>, actor: string)
      returns (r: Result<(nat, nat), Error>)
      requires Valid() && |ticks| == |rows|
      modifies this, repo, repo.records
      ensures Valid() && (Model(), r) == ImportData(registry, old(Model()), masterType, rows, ticks, actor)
    {
      var mt := Normalize(masterType);
      if mt !in registry { return Err(NotRegistered); }
      NormalizeIsIdempotent(masterType);
      var report := ValidateImport(mt, rows, repo.View());
      if report.invalidRows > 0 {
        r := Err(ImportInvalid(report.invalidRows));
      } else {
        r := ImportLoop(mt, rows, ticks, actor);
      }
    }
  }
}
