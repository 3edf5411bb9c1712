/** An import is a run of the service's own calls, so what holds of every run holds of it. */
module ImportRuns {
  import opened Text
  import opened Records
  import opened Resolution
  import opened Lifecycle
  import opened Timeline
  import opened PastReads
  import opened Replay
  import opened Import
  import opened Effects

  /** The call that the loop makes for a row. */
  function RowOp(recs: seq<Rec>, mt: string, row: Row, tick: Tick, actor: string): Op {
    if Hit(recs, mt, row, tick.now) then UpdateOp(RowUpdate(mt, row, tick, actor))
    else CreateOp(RowCreate(mt, row, tick, actor))
  }

  /** The calls of an import, up to the row that fails. */
  function ImportSteps(reg: Registry, s: State, mt: string, rows: seq<Row>, ticks: seq<Tick>, actor: string)
    : (steps: seq<Step>)
    requires |rows| == |ticks|
    ensures |steps| <= |rows| && forall k :: 0 <= k < |steps| ==> steps[k].now == ticks[k].now
    decreases |rows|
  {
    if rows == [] then []
    else
      match ImportRow(reg, s, mt, rows[0], ticks[0], actor)
      case Err(_) => []
      case Ok((s', _)) =>
        [Step(RowOp(s.recs, mt, rows[0], ticks[0], actor), ticks[0].now)]
        + ImportSteps(reg, s', mt, rows[1..], ticks[1..], actor)
  }

  lemma FirstStep(reg: Registry, s: State, mt: string, rows: seq<Row>, ticks: seq<Tick>, actor: string)
    requires |rows| == |ticks| && rows != [] && ImportRow(reg, s, mt, rows[0], ticks[0], actor).Ok?
    ensures
      var steps := ImportSteps(reg, s, mt, rows, ticks, actor);
      var s' := ImportRow(reg, s, mt, rows[0], ticks[0], actor).value.0;
      && steps != [] && steps[0] == Step(RowOp(s.recs, mt, rows[0], ticks[0], actor), ticks[0].now)
      && steps[1..] == ImportSteps(reg, s', mt, rows[1..], ticks[1..], actor)
      && Apply(reg, s, steps[0].op, steps[0].now) == Ok(s')
  {
  }

  /** Main result: the loop of an import, whether it fails half-way or not, leaves the state that a
      run of creations and updates leaves, made at the rows' clock readings. */
  lemma {:induction false} ImportIsRun(reg: Registry, s: State, mt: string, rows: seq<Row>, ticks: seq<Tick>,
                                       actor: string)
    requires |rows| == |ticks|
    ensures ImportRows(reg, s, mt, rows, ticks, actor).state == Run(reg, s, ImportSteps(reg, s, mt, rows, ticks, actor))
    decreases |rows|
  {
    if rows != [] {
      var first := ImportRow(reg, s, mt, rows[0], ticks[0], actor);
      if first.Ok? {
        FirstStep(reg, s, mt, rows, ticks, actor);
        ImportIsRun(reg, first.value.0, mt, rows[1..], ticks[1..], actor);
      }
    }
  }

  function LastReading(ticks: seq<Tick>, clock: int): int {
    if ticks == [] then clock else ticks[|ticks| - 1].now
  }

  lemma {:induction false} ImportIsClocked(reg: Registry, s: State, mt: string, rows: seq<Row>, ticks: seq<Tick>,
                                           actor: string, clock: int)
    requires |rows| == |ticks| && Ascending(ticks) && (ticks != [] ==> clock <= ticks[0].now)
    ensures Clocked(ImportSteps(reg, s, mt, rows, ticks, actor), clock)
    ensures ClockAfter(ImportSteps(reg, s, mt, rows, ticks, actor), clock) <= LastReading(ticks, clock)
    decreases |rows|
  {
    if rows != [] {
      var first := ImportRow(reg, s, mt, rows[0], ticks[0], actor);
      if first.Ok? {
        FirstStep(reg, s, mt, rows, ticks, actor);
        assert Ascending(ticks[1..]);
        ImportIsClocked(reg, first.value.0, mt, rows[1..], ticks[1..], actor, ticks[0].now);
      }
    }
  }

  lemma {:induction false} ImportIsUndated(reg: Registry, s: State, mt: string, rows: seq<Row>, ticks: seq<Tick>,
                                           actor: string, clock: int)
    requires |rows| == |ticks|
    ensures
      var steps := ImportSteps(reg, s, mt, rows, ticks, actor);
      forall k :: 0 <= k < |steps| ==> KeepsPast(reg, steps[k].op, clock)
    decreases |rows|
  {
    if rows != [] {
      var first := ImportRow(reg, s, mt, rows[0], ticks[0], actor);
      if first.Ok? {
        FirstStep(reg, s, mt, rows, ticks, actor);
        ImportIsUndated(reg, first.value.0, mt, rows[1..], ticks[1..], actor, clock);
        var steps := ImportSteps(reg, s, mt, rows, ticks, actor);
        assert forall k :: 1 <= k < |steps| ==> steps[k] == steps[1..][k - 1];
      }
    }
  }

  /** An import changes no read of an instant before it, on any master and from any store. */
  lemma ImportKeepsPast(reg: Registry, s: State, masterType: string, rows: seq<Row>, ticks: seq<Tick>, actor: string,
                        clock: int, t: int, mt: string, key: string, tenant: Tenant)
    requires |rows| == |ticks| && Ascending(ticks) && (ticks != [] ==> clock <= ticks[0].now) && t < clock
    ensures
      var recs' := ImportData(reg, s, masterType, rows, ticks, actor).0.recs;
      var r := Resolve(s.recs, mt, key, t, tenant, false);
      r == Resolve(recs', mt, key, t, tenant, false)
      && (r.Some? ==> r.value < |recs'| && Frozen(s.recs[r.value]) == Frozen(recs'[r.value]))
  {
    var steps := ImportSteps(reg, s, Normalize(masterType), rows, ticks, actor);
    ImportIsRun(reg, s, Normalize(masterType), rows, ticks, actor);
    ImportIsClocked(reg, s, Normalize(masterType), rows, ticks, actor, clock);
    ImportIsUndated(reg, s, Normalize(masterType), rows, ticks, actor, clock);
    PastIsImmutable(reg, s, steps, clock, t, mt, key, tenant);
  }

  /** The ids of the rows are fresh, and their clock readings do not go back. */
  ghost predicate FreshTicks(recs: seq<Rec>, ticks: seq<Tick>, clock: int) {
    && (forall k :: 0 <= k < |ticks| ==> clock <= ticks[k].now && FreshId(recs, ticks[k].id))
    && (forall j, k :: 0 <= j < k < |ticks| ==> ticks[j].now <= ticks[k].now && ticks[j].id != ticks[k].id)
  }

  /** A row appends one record under its own id and leaves the other ids alone. */
  lemma RowIds(reg: Registry, s: State, mt: string, row: Row, tick: Tick, actor: string)
    requires ImportRow(reg, s, mt, row, tick, actor).Ok?
    ensures
      var recs' := ImportRow(reg, s, mt, row, tick, actor).value.0.recs;
      && |recs'| == |s.recs| + 1 && recs'[|s.recs|].id == tick.id
      && forall i :: 0 <= i < |s.recs| ==> recs'[i].id == s.recs[i].id
  {
    if Hit(s.recs, mt, row, tick.now) { UpdateIs(reg, s, RowUpdate(mt, row, tick, actor), tick.now); }
  }

  lemma LaterTicksAreFresh(recs: seq<Rec>, recs': seq<Rec>, ticks: seq<Tick>, clock: int)
    requires ticks != [] && FreshTicks(recs, ticks, clock)
    requires |recs'| == |recs| + 1 && recs'[|recs|].id == ticks[0].id
    requires forall i :: 0 <= i < |recs| ==> recs'[i].id == recs[i].id
    ensures FreshTicks(recs', ticks[1..], ticks[0].now)
  {
    forall k | 0 <= k < |ticks[1..]| ensures ticks[0].now <= ticks[1..][k].now && FreshId(recs', ticks[1..][k].id) {
      assert FreshId(recs, ticks[k + 1].id) && ticks[0].id != ticks[k + 1].id;
    }
  }

  /** On a master without approval the call for a row meets the guard and stays in its scope. */
  lemma RowIsGuarded(reg: Registry, s: State, mt: string, row: Row, tick: Tick, actor: string, clock: int)
    requires mt in reg && !reg[mt].requiresApproval && Normalize(mt) == mt
    requires Timelines(s.recs, clock) && clock <= tick.now && FreshId(s.recs, tick.id)
    ensures
      var op := RowOp(s.recs, mt, row, tick, actor);
      Guard(reg, s, op, tick.now) && StaysInScope(reg, s, op, tick.now)
  {
    if Hit(s.recs, mt, row, tick.now) {
      OwnScopeUpdateFits(reg, s, RowUpdate(mt, row, tick, actor), clock, tick.now);
    }
  }

  lemma {:induction false} ImportIsGuarded(reg: Registry, s: State, mt: string, rows: seq<Row>, ticks: seq<Tick>,
                                           actor: string, clock: int)
    requires mt in reg && !reg[mt].requiresApproval && Normalize(mt) == mt
    requires |rows| == |ticks| && Timelines(s.recs, clock) && FreshTicks(s.recs, ticks, clock)
    ensures
      var steps := ImportSteps(reg, s, mt, rows, ticks, actor);
      Guarded(reg, s, steps) && InScopeThroughout(reg, s, steps)
    decreases |rows|
  {
    if rows != [] {
      var first := ImportRow(reg, s, mt, rows[0], ticks[0], actor);
      if first.Ok? {
        FirstStep(reg, s, mt, rows, ticks, actor);
        RowIsGuarded(reg, s, mt, rows[0], ticks[0], actor, clock);
        StepKeepsTimelines(reg, s, RowOp(s.recs, mt, rows[0], ticks[0], actor), clock, ticks[0].now);
        RowIds(reg, s, mt, rows[0], ticks[0], actor);
        LaterTicksAreFresh(s.recs, first.value.0.recs, ticks, clock);
        ImportIsGuarded(reg, first.value.0, mt, rows[1..], ticks[1..], actor, ticks[0].now);
      }
    }
  }

  /** Main result: on a master without approval, importing any rows into a sound store, with or
      without a failure half-way, leaves sound timelines and a log that rebuilds the store. */
  lemma ImportKeepsTimelinesAndLog(reg: Registry, s: State, masterType: string, rows: seq<Row>, ticks: seq<Tick>,
                                   actor: string, clock: int)
    requires Normalize(masterType) in reg && !reg[Normalize(masterType)].requiresApproval
    requires |rows| == |ticks| && Timelines(s.recs, clock) && FreshTicks(s.recs, ticks, clock)
    ensures
      var s' := ImportData(reg, s, masterType, rows, ticks, actor).0;
      && Timelines(s'.recs, LastReading(ticks, clock))
      && |s.audits| <= |s'.audits| && ReplayLog(s.recs, s'.audits[|s.audits|..]) == s'.recs
  {
    var mt := Normalize(masterType);
    var steps := ImportSteps(reg, s, mt, rows, ticks, actor);
    NormalizeIsIdempotent(masterType);
    ImportIsRun(reg, s, mt, rows, ticks, actor);
    ImportIsClocked(reg, s, mt, rows, ticks, actor, clock);
    ImportIsGuarded(reg, s, mt, rows, ticks, actor, clock);
    RunKeepsTimelines(reg, s, steps, clock);
    LogRebuildsStore(reg, s, steps, clock);
    LaterClockKeeps(Run(reg, s, steps).recs, ClockAfter(steps, clock), LastReading(ticks, clock));
    LaterClockKeeps(s.recs, clock, LastReading(ticks, clock));
  }

  /** Only the end date and the active flag of a record may have changed. */
  predicate SameButClosed(r: Rec, r': Rec) {
    r' == r.(effectiveTo := r'.effectiveTo, isActive := r'.isActive)
  }

  /** The record made for a row whose code was not found: the given fields, with sort order 0 and no
      attributes where those are absent, as version 1 of no system record, global, by the importer. */
  predicate StoredAsNew(r: Rec, row: Row, tick: Tick, mt: string, approval: bool, actor: string) {
    && r.id == tick.id && r.masterType == mt && row.code.Some? && r.code == Strip(row.code.value)
    && row.displayName.Some? && r.content.displayName == row.displayName.value
    && r.content.description == row.description && r.content.parentCode == row.parentCode
    && r.content.sortOrder == (if row.sortOrder.At? then row.sortOrder.n else 0)
    && r.content.attributes == (if row.attributes.Some? then row.attributes.value else map[])
    && r.version == 1 && !r.isSystem && r.tenant.None? && r.createdBy == actor
    && r.effectiveFrom == (if approval then 0 else tick.now)
    && r.approvedBy == (if approval then None else Some(actor)) && r.status == if approval then Draft else Published
  }

  /** The record made for a row whose code was found with `cur`: the given fields, the others as in
      `cur`, one version on, in its scope, by the importer. */
  predicate StoredAsNext(r: Rec, cur: Rec, row: Row, tick: Tick, mt: string, approval: bool, actor: string) {
    && r.id == tick.id && r.masterType == mt && cur.masterType == mt && row.code.Some?
    && Upper(cur.code) == Upper(Strip(row.code.value)) && r.code == cur.code
    && row.displayName.Some? && r.content.displayName == row.displayName.value
    && r.content.description == (if row.description.Some? then row.description else cur.content.description)
    && r.content.parentCode == (if row.parentCode.Some? then row.parentCode else cur.content.parentCode)
    && r.content.sortOrder == (if row.sortOrder.At? then row.sortOrder.n else cur.content.sortOrder)
    && r.content.attributes == (if row.attributes.Some? then row.attributes.value else cur.content.attributes)
    && r.version == cur.version + 1 && r.isSystem == cur.isSystem && r.tenant == cur.tenant && r.createdBy == actor
    && r.effectiveFrom == tick.now
    && r.approvedBy == (if approval then None else Some(actor)) && r.status == if approval then Draft else Published
  }

  /** The record at position `p` is what the row asks for. */
  ghost predicate Stores(recs: seq<Rec>, p: nat, row: Row, tick: Tick, mt: string, approval: bool, actor: string,
                         action: RowAction)
    requires p < |recs|
  {
    match action
    case Added => StoredAsNew(recs[p], row, tick, mt, approval, actor)
    case Updated => exists j :: 0 <= j < p && StoredAsNext(recs[p], recs[j], row, tick, mt, approval, actor)
  }

  lemma RowStores(reg: Registry, s: State, mt: string, row: Row, tick: Tick, actor: string)
    requires mt in reg && Normalize(mt) == mt && ValidRow(row) && ImportRow(reg, s, mt, row, tick, actor).Ok?
    ensures
      var r := ImportRow(reg, s, mt, row, tick, actor).value;
      && |r.0.recs| == |s.recs| + 1
      && (forall i :: 0 <= i < |s.recs| ==> SameButClosed(s.recs[i], r.0.recs[i]))
      && Stores(r.0.recs, |s.recs|, row, tick, mt, reg[mt].requiresApproval, actor, r.1)
      && (r.1.Updated? <==> Resolve(s.recs, mt, Upper(Strip(row.code.value)), tick.now, None, false).Some?)
  {
    var r := ImportRow(reg, s, mt, row, tick, actor).value;
    if Hit(s.recs, mt, row, tick.now) {
      var a := RowUpdate(mt, row, tick, actor);
      var i := Current(s, mt, a.code, tick.now, None).value;
      UpdateEffect(reg, s, a, tick.now);
      assert StoredAsNext(r.0.recs[|s.recs|], r.0.recs[i], row, tick, mt, reg[mt].requiresApproval, actor);
    } else {
      CreateEffect(reg, s, RowCreate(mt, row, tick, actor), tick.now);
    }
  }

  /** A complete row fails exactly where no lookup finds its code, and it is taken or its sort order
      is null. */
  lemma RowFailsExactlyWhen(reg: Registry, s: State, mt: string, row: Row, tick: Tick, actor: string)
    requires mt in reg && Normalize(mt) == mt && ValidRow(row)
    ensures
      var r := ImportRow(reg, s, mt, row, tick, actor);
      var found := Resolve(s.recs, mt, Upper(Strip(row.code.value)), tick.now, None, false);
      var taken := Taken(s.recs, mt, row.code.value, None);
      && (r.Err? <==> found.None? && (taken || row.sortOrder.Null?))
      && (r.Err? ==> r.error == if taken then AlreadyExists else InvalidRecord)
  {
    UpdateEffect(reg, s, RowUpdate(mt, row, tick, actor), tick.now);
    CreateEffect(reg, s, RowCreate(mt, row, tick, actor), tick.now);
  }

  lemma StillStores(recs: seq<Rec>, recs': seq<Rec>, p: nat, row: Row, tick: Tick, mt: string, approval: bool,
                    actor: string, action: RowAction)
    requires p < |recs| <= |recs'| && Stores(recs, p, row, tick, mt, approval, actor, action)
    requires forall i :: 0 <= i < |recs| ==> SameButClosed(recs[i], recs'[i])
    ensures Stores(recs', p, row, tick, mt, approval, actor, action)
  {
    if action.Updated? {
      var j :| 0 <= j < p && StoredAsNext(recs[p], recs[j], row, tick, mt, approval, actor);
      assert SameButClosed(recs[j], recs'[j]) && SameButClosed(recs[p], recs'[p]);
      assert StoredAsNext(recs'[p], recs'[j], row, tick, mt, approval, actor);
    }
  }

  /** What an import has done after its rows, or after those before the one that failed. */
  ghost predicate RowsStored(recs: seq<Rec>, imported: Imported, mt: string, rows: seq<Row>, ticks: seq<Tick>,
                             approval: bool, actor: string)
  {
    var recs', actions := imported.state.recs, imported.actions;
    && |actions| <= |rows| == |ticks| && |recs'| == |recs| + |actions|
    && (imported.failure.None? <==> |actions| == |rows|)
    && (forall i :: 0 <= i < |recs| ==> SameButClosed(recs[i], recs'[i]))
    && (forall k :: 0 <= k < |actions| ==>
          Stores(recs', |recs| + k, rows[k], ticks[k], mt, approval, actor, actions[k]))
  }

  /** Main result: an import appends one record for each row it performs, in order, which is what
      the row asks for, and otherwise only closes records. */
  lemma {:induction false} ImportStores(reg: Registry, s: State, mt: string, rows: seq<Row>, ticks: seq<Tick>,
                                        actor: string)
    requires mt in reg && Normalize(mt) == mt && |rows| == |ticks| && forall k :: 0 <= k < |rows| ==> ValidRow(rows[k])
    ensures RowsStored(s.recs, ImportRows(reg, s, mt, rows, ticks, actor), mt, rows, ticks, reg[mt].requiresApproval,
                       actor)
    decreases |rows|
  {
    if rows != [] {
      var first := ImportRow(reg, s, mt, rows[0], ticks[0], actor);
      if first.Ok? {
        var rest := ImportRows(reg, first.value.0, mt, rows[1..], ticks[1..], actor);
        RowStores(reg, s, mt, rows[0], ticks[0], actor);
        ImportStores(reg, first.value.0, mt, rows[1..], ticks[1..], actor);
        FirstStored(s.recs, first.value.0.recs, first.value.1, rest, mt, rows, ticks, reg[mt].requiresApproval, actor);
      }
    }
  }

  lemma FirstStored(recs: seq<Rec>, recs1: seq<Rec>, action: RowAction, rest: Imported, mt: string, rows: seq<Row>,
                    ticks: seq<Tick>, approval: bool, actor: string)
    requires rows != [] && |rows| == |ticks| && |recs1| == |recs| + 1
    requires forall i :: 0 <= i < |recs| ==> SameButClosed(recs[i], recs1[i])
    requires Stores(recs1, |recs|, rows[0], ticks[0], mt, approval, actor, action)
    requires RowsStored(recs1, rest, mt, rows[1..], ticks[1..], approval, actor)
    ensures RowsStored(recs, rest.(actions := [action] + rest.actions), mt, rows, ticks, approval, actor)
  {
    var recs', actions := rest.state.recs, [action] + rest.actions;
    forall i | 0 <= i < |recs| ensures SameButClosed(recs[i], recs'[i]) {
      assert SameButClosed(recs[i], recs1[i]) && SameButClosed(recs1[i], recs'[i]);
    }
    forall k | 0 <= k < |actions|
      ensures Stores(recs', |recs| + k, rows[k], ticks[k], mt, approval, actor, actions[k])
    {
      if k == 0 {
        StillStores(recs1, recs', |recs|, rows[0], ticks[0], mt, approval, actor, action);
      } else {
        assert rows[1..][k - 1] == rows[k] && ticks[1..][k - 1] == ticks[k] && rest.actions[k - 1] == actions[k];
        assert Stores(recs', |recs1| + (k - 1), rows[1..][k - 1], ticks[1..][k - 1], mt, approval, actor,
                      rest.actions[k - 1]);
      }
    }
  }
}
