/** Export and re-import: on a global master without approval and without unpublished versions,
    exactly when importing the exported rows gives every code the content it had, one version on. */
module RoundTrip {
  import opened Text
  import opened Records
  import opened Resolution
  import opened Lifecycle
  import opened Timeline
  import opened Listing
  import opened Import
  import opened ImportRuns

  /** The fields of an exported JSON row that an import reads back. */
  function ExportRow(r: Rec): Row {
    Row(Some(r.code), Some(r.content.displayName), r.content.description, At(r.content.sortOrder),
        r.content.parentCode, Some(r.content.attributes))
  }

  function ExportRows(recs: seq<Rec>): (rows: seq<Row>)
    ensures |rows| == |recs|
  {
    seq(|recs|, i requires 0 <= i < |recs| => ExportRow(recs[i]))
  }

  /** `export_data`: the rows of every version in force, whatever its status. */
  function Export(recs: seq<Rec>, mt: string, now: int): seq<Row> {
    ExportRows(ListRecords(recs, mt, now, None, true))
  }

  /** All records of the master are global and published. */
  ghost predicate GlobalMaster(recs: seq<Rec>, mt: string) {
    forall i :: 0 <= i < |recs| && recs[i].masterType == mt ==> recs[i].tenant.None? && recs[i].status.Published?
  }

  /** The open versions of the master are stored under trimmed codes. */
  ghost predicate Trimmed(recs: seq<Rec>, mt: string) {
    forall i :: IsOpen(recs, mt, i) ==> Strip(recs[i].code) == recs[i].code
  }

  ghost predicate PlainMaster(recs: seq<Rec>, mt: string) {
    GlobalMaster(recs, mt) && Trimmed(recs, mt)
  }

  /** Position `i` holds an open version of the master. */
  predicate IsOpen(recs: seq<Rec>, mt: string, i: int) {
    0 <= i < |recs| && recs[i].masterType == mt && OpenPublished(recs[i])
  }

  /** Some open version of `recs'` has the code and content of `r`, `steps` versions on. */
  ghost predicate CarriedTo(r: Rec, recs': seq<Rec>, mt: string, steps: int) {
    exists j :: IsOpen(recs', mt, j) && Carries(r, recs'[j], steps)
  }

  predicate Carries(r: Rec, r': Rec, steps: int) {
    r'.code == r.code && r'.content == r.content && r'.version == r.version + steps
  }

  ghost predicate OpenCode(recs: seq<Rec>, mt: string, code: string) {
    exists j :: IsOpen(recs, mt, j) && recs[j].code == code
  }

  /** `recs'` has exactly the open codes of `recs`, each with its content, and with the version
      raised by one for the codes in `bumped`. */
  ghost predicate CarriesAll(recs: seq<Rec>, recs': seq<Rec>, mt: string, bumped: set<string>) {
    && (forall i :: IsOpen(recs, mt, i) ==> CarriedTo(recs[i], recs', mt, Bump(recs[i].code, bumped)))
    && (forall code :: OpenCode(recs', mt, code) ==> OpenCode(recs, mt, code))
  }

  function Bump(code: string, bumped: set<string>): int {
    if code in bumped then 1 else 0
  }

  /** A row that was exported from the open version of its code. */
  ghost predicate Exported(recs: seq<Rec>, mt: string, row: Row) {
    exists i :: IsOpen(recs, mt, i) && row == ExportRow(recs[i])
  }

  ghost predicate AllExported(recs: seq<Rec>, mt: string, rows: seq<Row>) {
    forall k :: 0 <= k < |rows| ==> Exported(recs, mt, rows[k])
  }

  lemma OneOpenPerKey(recs: seq<Rec>, mt: string, clock: int, i: int, j: int)
    requires Timelines(recs, clock) && GlobalMaster(recs, mt)
    requires IsOpen(recs, mt, i) && IsOpen(recs, mt, j) && recs[i].Key() == recs[j].Key()
    ensures i == j
  {
    if i != j { PairAt(recs, clock, i, j); }
  }

  lemma OpenIsCurrent(recs: seq<Rec>, mt: string, clock: int, now: int, i: int)
    requires Timelines(recs, clock) && PlainMaster(recs, mt) && clock <= now
    requires IsOpen(recs, mt, i)
    ensures Resolve(recs, mt, Normalize(recs[i].code), now, None, false) == Some(i)
  {
    var key := Normalize(recs[i].code);
    assert Sound(recs[i], clock) && Matches(recs[i], mt, key, now, false);
    ResolvePrecedence(recs, mt, key, now, None, false, i);
    var k := Resolve(recs, mt, key, now, None, false).value;
    if k != i {
      InForceIsOpen(recs, clock, now, k);
      OneOpenPerKey(recs, mt, clock, i, k);
    }
  }

  /** The store after one exported row has come back: its version closed, its equal appended. */
  predicate CameBack(recs: seq<Rec>, recs': seq<Rec>, mt: string, i: int, tick: Tick) {
    && IsOpen(recs, mt, i) && |recs'| == |recs| + 1
    && (forall j :: 0 <= j < |recs| ==> recs'[j] == if j == i then Close(recs[i], tick.now) else recs[j])
    && IsOpen(recs', mt, |recs|) && Carries(recs[i], recs'[|recs|], 1) && recs'[|recs|].id == tick.id
  }

  lemma RowUpdates(reg: Registry, s: State, mt: string, row: Row, tick: Tick, actor: string, clock: int, i: int)
    requires mt in reg && !reg[mt].requiresApproval && Normalize(mt) == mt
    requires Timelines(s.recs, clock) && PlainMaster(s.recs, mt) && clock <= tick.now
    requires IsOpen(s.recs, mt, i) && row == ExportRow(s.recs[i])
    ensures
      var a := RowUpdate(mt, row, tick, actor);
      var r := Update(reg, s, a, tick.now);
      var next := NextVersion(a, s.recs[i], false, tick.now);
      && r.Ok? && r.value.recs == s.recs[i := Close(s.recs[i], tick.now)] + [next]
      && ImportRow(reg, s, mt, row, tick, actor) == Ok((r.value, Updated))
      && next == s.recs[i].(id := tick.id, isActive := true, effectiveFrom := tick.now, effectiveTo := None,
        version := s.recs[i].version + 1, createdBy := actor, approvedBy := Some(actor), status := Published)
  {
    OpenIsCurrent(s.recs, mt, clock, tick.now, i);
  }

  /** Closing an open version and appending one with its code and content, one version on. */
  lemma Reissued(recs: seq<Rec>, recs': seq<Rec>, mt: string, i: int, next: Rec, tick: Tick)
    requires PlainMaster(recs, mt) && IsOpen(recs, mt, i)
    requires recs' == recs[i := Close(recs[i], tick.now)] + [next]
    requires next.masterType == mt && OpenPublished(next) && next.tenant.None? && next.id == tick.id
    requires Carries(recs[i], next, 1)
    ensures PlainMaster(recs', mt) && CameBack(recs, recs', mt, i, tick)
  {
    assert IsOpen(recs', mt, |recs|);
    forall j | IsOpen(recs', mt, j) ensures Strip(recs'[j].code) == recs'[j].code {
      assert IsOpen(recs, mt, if j == |recs| then i else j);
    }
  }

  lemma RowComesBack(reg: Registry, s: State, mt: string, row: Row, tick: Tick, actor: string, clock: int, i: int)
    requires mt in reg && !reg[mt].requiresApproval && Normalize(mt) == mt
    requires Timelines(s.recs, clock) && PlainMaster(s.recs, mt) && clock <= tick.now && FreshId(s.recs, tick.id)
    requires IsOpen(s.recs, mt, i) && row == ExportRow(s.recs[i])
    ensures
      var r := ImportRow(reg, s, mt, row, tick, actor);
      && r.Ok? && r.value.1 == Updated
      && Timelines(r.value.0.recs, tick.now) && PlainMaster(r.value.0.recs, mt)
      && CameBack(s.recs, r.value.0.recs, mt, i, tick)
  {
    RowUpdates(reg, s, mt, row, tick, actor, clock, i);
    var a := RowUpdate(mt, row, tick, actor);
    OwnScopeUpdateFits(reg, s, a, clock, tick.now);
    UpdateKeepsExactlyWhen(reg, s, a, clock, tick.now);
    Reissued(s.recs, Update(reg, s, a, tick.now).value.recs, mt, i, NextVersion(a, s.recs[i], false, tick.now), tick);
  }

  /** One row's effect on the open versions: its code moves on by one, all others stay. */
  lemma RowCarries(recs: seq<Rec>, recs': seq<Rec>, mt: string, clock: int, i: int, tick: Tick)
    requires Timelines(recs, clock) && PlainMaster(recs, mt) && CameBack(recs, recs', mt, i, tick)
    ensures CarriesAll(recs, recs', mt, {recs[i].code})
  {
    forall j | IsOpen(recs, mt, j) ensures CarriedTo(recs[j], recs', mt, Bump(recs[j].code, {recs[i].code})) {
      if j == i {
        assert IsOpen(recs', mt, |recs|) && Carries(recs[j], recs'[|recs|], 1);
      } else {
        if recs[j].code == recs[i].code { OneOpenPerKey(recs, mt, clock, i, j); }
        assert IsOpen(recs', mt, j) && Carries(recs[j], recs'[j], 0);
      }
    }
    forall code | OpenCode(recs', mt, code) ensures OpenCode(recs, mt, code) {
      var j :| IsOpen(recs', mt, j) && recs'[j].code == code;
      assert IsOpen(recs, mt, if j == |recs| then i else j);
    }
  }

  lemma CarriesCompose(a: seq<Rec>, b: seq<Rec>, c: seq<Rec>, mt: string, code: string, rest: set<string>)
    requires CarriesAll(a, b, mt, {code}) && CarriesAll(b, c, mt, rest) && code !in rest
    ensures CarriesAll(a, c, mt, {code} + rest)
  {
  }

  function Codes(rows: seq<Row>): set<string> {
    set k | 0 <= k < |rows| :: rows[k].code.GetOr("")
  }

  lemma FirstCodeIsNew(rows: seq<Row>)
    requires rows != [] && DistinctKeys(rows)
    ensures rows[0].code.GetOr("") !in Codes(rows[1..]) && Codes(rows) == {rows[0].code.GetOr("")} + Codes(rows[1..])
  {
  }

  lemma FirstRowLeavesRest(recs: seq<Rec>, recs': seq<Rec>, mt: string, rows: seq<Row>, ticks: seq<Tick>, clock: int,
                           i: int)
    requires |rows| == |ticks| && rows != [] && FreshTicks(recs, ticks, clock) && DistinctKeys(rows)
    requires AllExported(recs, mt, rows) && CameBack(recs, recs', mt, i, ticks[0]) && rows[0] == ExportRow(recs[i])
    ensures FreshTicks(recs', ticks[1..], ticks[0].now) && AllExported(recs', mt, rows[1..]) && DistinctKeys(rows[1..])
  {
  }

  /** A clean import of exported rows: no failure, only updates, and every open version carried. */
  ghost predicate BackUnchanged(s: State, imported: Imported, mt: string, rows: seq<Row>, clock: int) {
    && imported.failure.None? && |imported.actions| == |rows|
    && (forall k :: 0 <= k < |rows| ==> imported.actions[k] == Updated)
    && Timelines(imported.state.recs, clock) && PlainMaster(imported.state.recs, mt)
    && CarriesAll(s.recs, imported.state.recs, mt, Codes(rows))
  }

  lemma FirstThenRest(s: State, s': State, mt: string, rows: seq<Row>, rest: Imported, clock: int)
    requires rows != [] && DistinctKeys(rows)
    requires CarriesAll(s.recs, s'.recs, mt, {rows[0].code.GetOr("")})
    requires BackUnchanged(s', rest, mt, rows[1..], clock)
    ensures BackUnchanged(s, rest.(actions := [Updated] + rest.actions), mt, rows, clock)
  {
    FirstCodeIsNew(rows);
    CarriesCompose(s.recs, s'.recs, rest.state.recs, mt, rows[0].code.GetOr(""), Codes(rows[1..]));
  }

  /** A sound plain store about to receive exported rows. */
  ghost predicate Ready(reg: Registry, recs: seq<Rec>, mt: string, rows: seq<Row>, ticks: seq<Tick>, clock: int) {
    && mt in reg && !reg[mt].requiresApproval && Normalize(mt) == mt
    && Timelines(recs, clock) && PlainMaster(recs, mt)
    && |rows| == |ticks| && FreshTicks(recs, ticks, clock) && DistinctKeys(rows) && AllExported(recs, mt, rows)
  }

  lemma FirstRowComesBack(reg: Registry, s: State, mt: string, rows: seq<Row>, ticks: seq<Tick>, actor: string,
                          clock: int, i: int)
    requires Ready(reg, s.recs, mt, rows, ticks, clock) && rows != []
    requires IsOpen(s.recs, mt, i) && rows[0] == ExportRow(s.recs[i])
    ensures
      var r := ImportRow(reg, s, mt, rows[0], ticks[0], actor);
      && r.Ok? && r.value.1 == Updated
      && Ready(reg, r.value.0.recs, mt, rows[1..], ticks[1..], ticks[0].now)
      && CarriesAll(s.recs, r.value.0.recs, mt, {rows[0].code.GetOr("")})
  {
    RowComesBack(reg, s, mt, rows[0], ticks[0], actor, clock, i);
    var s' := ImportRow(reg, s, mt, rows[0], ticks[0], actor).value.0;
    RowCarries(s.recs, s'.recs, mt, clock, i, ticks[0]);
    FirstRowLeavesRest(s.recs, s'.recs, mt, rows, ticks, clock, i);
  }

  lemma FirstRowIsOpen(recs: seq<Rec>, mt: string, rows: seq<Row>) returns (i: int)
    requires AllExported(recs, mt, rows) && rows != []
    ensures IsOpen(recs, mt, i) && rows[0] == ExportRow(recs[i])
  {
    assert Exported(recs, mt, rows[0]);
    i :| IsOpen(recs, mt, i) && rows[0] == ExportRow(recs[i]);
  }

  lemma NoRowsComeBack(reg: Registry, s: State, mt: string, actor: string, clock: int)
    requires Timelines(s.recs, clock) && PlainMaster(s.recs, mt)
    ensures BackUnchanged(s, ImportRows(reg, s, mt, [], [], actor), mt, [], clock)
  {
  }

  lemma {:induction false} RowsComeBack(reg: Registry, s: State, mt: string, rows: seq<Row>, ticks: seq<Tick>,
                                        actor: string, clock: int)
    requires Ready(reg, s.recs, mt, rows, ticks, clock)
    ensures BackUnchanged(s, ImportRows(reg, s, mt, rows, ticks, actor), mt, rows, LastReading(ticks, clock))
    decreases |rows|
  {
    if rows == [] {
      NoRowsComeBack(reg, s, mt, actor, clock);
    } else {
      var i := FirstRowIsOpen(s.recs, mt, rows);
      FirstRowComesBack(reg, s, mt, rows, ticks, actor, clock, i);
      var s' := ImportRow(reg, s, mt, rows[0], ticks[0], actor).value.0;
      RowsComeBack(reg, s', mt, rows[1..], ticks[1..], actor, ticks[0].now);
      FirstThenRest(s, s', mt, rows, ImportRows(reg, s', mt, rows[1..], ticks[1..], actor), LastReading(ticks, clock));
    }
  }

  ghost predicate ListedOpen(recs: seq<Rec>, mt: string, r: Rec) {
    exists i :: IsOpen(recs, mt, i) && recs[i] == r
  }

  lemma ListedAreOpen(recs: seq<Rec>, mt: string, clock: int, now: int)
    requires Timelines(recs, clock) && GlobalMaster(recs, mt) && clock <= now
    ensures
      var list := ListRecords(recs, mt, now, None, true);
      && DistinctCodes(list)
      && (forall k :: 0 <= k < |list| ==> ListedOpen(recs, mt, list[k]))
      && (forall i :: IsOpen(recs, mt, i) ==> HasCode(list, recs[i].code))
  {
    var d, list := ByCode(recs, mt, now, None, true), ListRecords(recs, mt, now, None, true);
    ByCodeCollects(recs, mt, now, None, true);
    SortKeepsDistinct(d);
    forall k | 0 <= k < |list| ensures ListedOpen(recs, mt, list[k]) {
      assert list[k] in d;
      var i :| 0 <= i < |recs| && recs[i] == list[k];
      InForceIsOpen(recs, clock, now, i);
      assert IsOpen(recs, mt, i);
    }
    forall i | IsOpen(recs, mt, i) ensures HasCode(list, recs[i].code) {
      assert Listed(recs[i], mt, now, true);
      var k :| 0 <= k < |d| && d[k].code == recs[i].code;
      assert d[k] in list;
    }
  }

  /** The row tells the record: its code and content, no cell absent. */
  predicate RowTells(row: Row, r: Rec) {
    && row.code == Some(r.code) && row.displayName == Some(r.content.displayName)
    && row.description == r.content.description && row.sortOrder == At(r.content.sortOrder)
    && row.parentCode == r.content.parentCode && row.attributes == Some(r.content.attributes)
  }

  /** What is exported: the rows of the open versions of the master. */
  lemma ExportIsComplete(recs: seq<Rec>, mt: string, clock: int, now: int)
    requires Timelines(recs, clock) && GlobalMaster(recs, mt) && clock <= now
    ensures
      var rows := Export(recs, mt, now);
      && AllExported(recs, mt, rows)
      && (forall i :: IsOpen(recs, mt, i) ==> ExportRow(recs[i]) in rows && RowTells(ExportRow(recs[i]), recs[i]))
      && (forall j, k :: 0 <= j < k < |rows| ==> Upper(rows[j].code.GetOr("")) != Upper(rows[k].code.GetOr("")))
  {
    var list, rows := ListRecords(recs, mt, now, None, true), Export(recs, mt, now);
    ListedAreOpen(recs, mt, clock, now);
    forall k | 0 <= k < |rows| ensures Exported(recs, mt, rows[k]) {
      assert ListedOpen(recs, mt, list[k]);
      var i :| IsOpen(recs, mt, i) && recs[i] == list[k];
    }
    forall j, k | 0 <= j < k < |rows| ensures Upper(rows[j].code.GetOr("")) != Upper(rows[k].code.GetOr("")) {
      assert ListedOpen(recs, mt, list[j]) && ListedOpen(recs, mt, list[k]);
      var a :| IsOpen(recs, mt, a) && recs[a] == list[j];
      var b :| IsOpen(recs, mt, b) && recs[b] == list[k];
      if recs[a].Key() == recs[b].Key() { OneOpenPerKey(recs, mt, clock, a, b); }
    }
    forall i | IsOpen(recs, mt, i) ensures ExportRow(recs[i]) in rows {
      assert HasCode(list, recs[i].code);
      var k :| 0 <= k < |list| && list[k].code == recs[i].code;
      assert ListedOpen(recs, mt, list[k]);
      var j :| IsOpen(recs, mt, j) && recs[j] == list[k];
      OneOpenPerKey(recs, mt, clock, i, j);
      assert rows[k] == ExportRow(recs[i]);
    }
  }

  /** With trimmed codes the rows are distinct for the import as well. */
  lemma TrimmedExportIsDistinct(recs: seq<Rec>, mt: string, clock: int, now: int)
    requires Timelines(recs, clock) && PlainMaster(recs, mt) && clock <= now
    ensures
      var rows := Export(recs, mt, now);
      DistinctKeys(rows) && forall i :: IsOpen(recs, mt, i) ==> recs[i].code in Codes(rows)
  {
    var rows := Export(recs, mt, now);
    ExportIsComplete(recs, mt, clock, now);
    forall k | 0 <= k < |rows| ensures Strip(rows[k].code.GetOr("")) == rows[k].code.GetOr("") {
      assert Exported(recs, mt, rows[k]);
      var i :| IsOpen(recs, mt, i) && rows[k] == ExportRow(recs[i]);
    }
    forall i | IsOpen(recs, mt, i) ensures recs[i].code in Codes(rows) {
      var k :| 0 <= k < |rows| && rows[k] == ExportRow(recs[i]);
      assert rows[k].code.GetOr("") == recs[i].code;
    }
  }

  /** In sound plain stores that carry each other's open versions, lookups agree. */
  lemma LookupCarries(recs: seq<Rec>, recs': seq<Rec>, mt: string, bumped: set<string>, now: int, end: int,
                      later: int, code: string)
    requires Timelines(recs, now) && PlainMaster(recs, mt) && Timelines(recs', end) && PlainMaster(recs', mt)
    requires end <= later && CarriesAll(recs, recs', mt, bumped)
    requires forall i :: IsOpen(recs, mt, i) ==> recs[i].code in bumped
    ensures
      var before := Resolve(recs, mt, Normalize(code), now, None, false);
      var after := Resolve(recs', mt, Normalize(code), later, None, false);
      before.Some? == after.Some? && (before.Some? ==> Carries(recs[before.value], recs'[after.value], 1))
  {
    var before := Resolve(recs, mt, Normalize(code), now, None, false);
    var after := Resolve(recs', mt, Normalize(code), later, None, false);
    if after.Some? {
      InForceIsOpen(recs', end, later, after.value);
      assert IsOpen(recs', mt, after.value);
      assert OpenCode(recs', mt, recs'[after.value].code);
      var j :| IsOpen(recs, mt, j) && recs[j].code == recs'[after.value].code;
      assert Matches(recs[j], mt, Normalize(code), now, false);
    }
    if before.Some? {
      InForceIsOpen(recs, now, now, before.value);
      assert IsOpen(recs, mt, before.value);
      var j :| IsOpen(recs', mt, j) && Carries(recs[before.value], recs'[j], 1);
      OpenIsCurrent(recs', mt, end, later, j);
    }
  }

  /** No open version of the master has a blank code or a blank display name. */
  ghost predicate Importable(recs: seq<Rec>, mt: string) {
    forall i :: IsOpen(recs, mt, i) ==> Strip(recs[i].code) != "" && Strip(recs[i].content.displayName) != ""
  }

  lemma ExportIsValidExactlyWhen(recs: seq<Rec>, mt: string, clock: int, now: int)
    requires Timelines(recs, clock) && GlobalMaster(recs, mt) && clock <= now
    ensures var rows := Export(recs, mt, now);
      (forall k :: 0 <= k < |rows| ==> ValidRow(rows[k])) <==> Importable(recs, mt)
  {
    var rows := Export(recs, mt, now);
    ExportIsComplete(recs, mt, clock, now);
    if forall k :: 0 <= k < |rows| ==> ValidRow(rows[k]) {
      forall i | IsOpen(recs, mt, i) ensures Strip(recs[i].code) != "" && Strip(recs[i].content.displayName) != "" {
        var k :| 0 <= k < |rows| && rows[k] == ExportRow(recs[i]);
        assert ValidRow(rows[k]);
      }
    }
    if Importable(recs, mt) {
      forall k | 0 <= k < |rows| ensures ValidRow(rows[k]) {
        assert Exported(recs, mt, rows[k]);
        var i :| IsOpen(recs, mt, i) && rows[k] == ExportRow(recs[i]);
      }
    }
  }

  lemma {:induction false} OnlyUpdates(actions: seq<RowAction>)
    requires forall k :: 0 <= k < |actions| ==> actions[k] == Updated
    ensures Count(actions, Added) == 0 && Count(actions, Updated) == |actions|
  {
    if actions != [] { OnlyUpdates(actions[..|actions| - 1]); }
  }

  /** The store after a clean re-import: every code reads as it did, one version on, and no code
      appears or disappears. */
  ghost predicate Reimported(recs: seq<Rec>, recs': seq<Rec>, mt: string, now: int, later: int) {
    forall code: string ::
      var before := Resolve(recs, mt, Normalize(code), now, None, false);
      var after := Resolve(recs', mt, Normalize(code), later, None, false);
      before.Some? == after.Some? && (before.Some? ==> Carries(recs[before.value], recs'[after.value], 1))
  }

  lemma LoopReimports(reg: Registry, s: State, mt: string, ticks: seq<Tick>, actor: string, clock: int, now: int,
                      later: int)
    requires mt in reg && !reg[mt].requiresApproval && Normalize(mt) == mt
    requires Timelines(s.recs, clock) && PlainMaster(s.recs, mt) && clock <= now
    requires |ticks| == |Export(s.recs, mt, now)| && FreshTicks(s.recs, ticks, now) && LastReading(ticks, now) <= later
    ensures
      var imported := ImportRows(reg, s, mt, Export(s.recs, mt, now), ticks, actor);
      Counts(imported) == Ok((0, |ticks|)) && Reimported(s.recs, imported.state.recs, mt, now, later)
  {
    var rows := Export(s.recs, mt, now);
    var imported := ImportRows(reg, s, mt, rows, ticks, actor);
    ExportIsComplete(s.recs, mt, clock, now);
    TrimmedExportIsDistinct(s.recs, mt, clock, now);
    LaterClockKeeps(s.recs, clock, now);
    RowsComeBack(reg, s, mt, rows, ticks, actor, now);
    OnlyUpdates(imported.actions);
    forall code: string
      ensures
        var before := Resolve(s.recs, mt, Normalize(code), now, None, false);
        var after := Resolve(imported.state.recs, mt, Normalize(code), later, None, false);
        && before.Some? == after.Some?
        && (before.Some? ==> Carries(s.recs[before.value], imported.state.recs[after.value], 1))
    {
      LookupCarries(s.recs, imported.state.recs, mt, Codes(rows), now, LastReading(ticks, now), later, code);
    }
  }

  /** An open version of the code has number `v`. */
  ghost predicate OpenVersion(recs: seq<Rec>, mt: string, key: string, v: int) {
    exists i :: IsOpen(recs, mt, i) && recs[i].Key() == key && recs[i].version == v
  }

  /** The rows of a code. */
  function CountKey(rows: seq<Row>, key: string): nat {
    if rows == [] then 0 else (if RowKey(rows[0]) == key then 1 else 0) + CountKey(rows[1..], key)
  }

  /** On a global master without approval every row with a sort order goes through. */
  lemma RowGoesThrough(reg: Registry, s: State, mt: string, row: Row, tick: Tick, actor: string, clock: int)
    requires mt in reg && !reg[mt].requiresApproval && Normalize(mt) == mt && row.sortOrder.At?
    requires Timelines(s.recs, clock) && GlobalMaster(s.recs, mt) && clock <= tick.now && FreshId(s.recs, tick.id)
    ensures
      var r := ImportRow(reg, s, mt, row, tick, actor);
      r.Ok? && Timelines(r.value.0.recs, tick.now) && GlobalMaster(r.value.0.recs, mt)
  {
    var op := RowOp(s.recs, mt, row, tick, actor);
    RowIsGuarded(reg, s, mt, row, tick, actor, clock);
    StepKeepsTimelines(reg, s, op, clock, tick.now);
    if Hit(s.recs, mt, row, tick.now) {
      UpdateIs(reg, s, op.update, tick.now);
    } else {
      forall j | 0 <= j < |s.recs| ensures !IsActive(s.recs[j], mt, RowKey(row), None) {
        assert Sound(s.recs[j], clock) && !Matches(s.recs[j], mt, RowKey(row), tick.now, false);
      }
    }
  }

  /** A row that updates raises the version of its code by one. */
  lemma RowRaisesVersion(reg: Registry, s: State, mt: string, row: Row, tick: Tick, actor: string, clock: int, v: int)
    requires mt in reg && !reg[mt].requiresApproval && Normalize(mt) == mt
    requires Timelines(s.recs, clock) && GlobalMaster(s.recs, mt) && clock <= tick.now
    requires Hit(s.recs, mt, row, tick.now) && ImportRow(reg, s, mt, row, tick, actor).Ok?
    ensures OpenVersion(s.recs, mt, RowKey(row), v) ==>
      OpenVersion(ImportRow(reg, s, mt, row, tick, actor).value.0.recs, mt, RowKey(row), v + 1)
    ensures exists u :: OpenVersion(s.recs, mt, RowKey(row), u)
  {
    var a := RowUpdate(mt, row, tick, actor);
    var i := Current(s, mt, a.code, tick.now, None).value;
    var recs' := ImportRow(reg, s, mt, row, tick, actor).value.0.recs;
    UpdateIs(reg, s, a, tick.now);
    InForceIsOpen(s.recs, clock, tick.now, i);
    assert IsOpen(s.recs, mt, i) && OpenVersion(s.recs, mt, RowKey(row), s.recs[i].version);
    assert IsOpen(recs', mt, |s.recs|) && recs'[|s.recs|].version == s.recs[i].version + 1;
    if j :| IsOpen(s.recs, mt, j) && s.recs[j].Key() == RowKey(row) && s.recs[j].version == v {
      OneOpenPerKey(s.recs, mt, clock, i, j);
    }
  }

  lemma OtherVersionsStay(recs: seq<Rec>, recs': seq<Rec>, mt: string, key: string, v: int)
    requires SameForKey(recs, recs', mt, key)
    ensures OpenVersion(recs, mt, key, v) <==> OpenVersion(recs', mt, key, v)
  {
    if i :| IsOpen(recs, mt, i) && recs[i].Key() == key && recs[i].version == v {
      assert HasKey(recs[i], mt, key) && IsOpen(recs', mt, i);
    }
    if i :| IsOpen(recs', mt, i) && recs'[i].Key() == key && recs'[i].version == v {
      assert HasKey(recs'[i], mt, key) && IsOpen(recs, mt, i);
    }
  }

  lemma AllOtherVersionsStay(recs: seq<Rec>, recs': seq<Rec>, mt: string, key: string)
    requires SameForKey(recs, recs', mt, key)
    ensures forall v :: OpenVersion(recs, mt, key, v) <==> OpenVersion(recs', mt, key, v)
  {
    forall v ensures OpenVersion(recs, mt, key, v) <==> OpenVersion(recs', mt, key, v) {
      OtherVersionsStay(recs, recs', mt, key, v);
    }
  }

  /** A global store about to receive rows that all have a sort order. */
  ghost predicate GlobalReady(reg: Registry, recs: seq<Rec>, mt: string, rows: seq<Row>, ticks: seq<Tick>, clock: int) {
    && mt in reg && !reg[mt].requiresApproval && Normalize(mt) == mt
    && Timelines(recs, clock) && GlobalMaster(recs, mt)
    && |rows| == |ticks| && FreshTicks(recs, ticks, clock)
    && forall k :: 0 <= k < |rows| ==> rows[k].sortOrder.At?
  }

  lemma FirstRowGoesThrough(reg: Registry, s: State, mt: string, rows: seq<Row>, ticks: seq<Tick>, actor: string,
                            clock: int)
    requires GlobalReady(reg, s.recs, mt, rows, ticks, clock) && rows != []
    ensures
      var r := ImportRow(reg, s, mt, rows[0], ticks[0], actor);
      r.Ok? && GlobalReady(reg, r.value.0.recs, mt, rows[1..], ticks[1..], ticks[0].now)
  {
    RowGoesThrough(reg, s, mt, rows[0], ticks[0], actor, clock);
    RowIds(reg, s, mt, rows[0], ticks[0], actor);
    LaterTicksAreFresh(s.recs, ImportRow(reg, s, mt, rows[0], ticks[0], actor).value.0.recs, ticks, clock);
  }

  /** The loop goes through, and leaves a sound global master. */
  lemma {:induction false} LoopGoesThrough(reg: Registry, s: State, mt: string, rows: seq<Row>, ticks: seq<Tick>,
                                           actor: string, clock: int)
    requires GlobalReady(reg, s.recs, mt, rows, ticks, clock)
    ensures
      var imported := ImportRows(reg, s, mt, rows, ticks, actor);
      && imported.failure.None? && |imported.actions| == |rows|
      && Timelines(imported.state.recs, LastReading(ticks, clock)) && GlobalMaster(imported.state.recs, mt)
    decreases |rows|
  {
    if rows != [] {
      FirstRowGoesThrough(reg, s, mt, rows, ticks, actor, clock);
      LoopGoesThrough(reg, ImportRow(reg, s, mt, rows[0], ticks[0], actor).value.0, mt, rows[1..], ticks[1..], actor,
                      ticks[0].now);
    }
  }

  predicate AllUpdated(actions: seq<RowAction>) {
    forall k :: 0 <= k < |actions| ==> actions[k] == Updated
  }

  lemma FirstUpdated(rest: seq<RowAction>, action: RowAction)
    requires AllUpdated([action] + rest)
    ensures action == Updated && AllUpdated(rest)
  {
    var actions := [action] + rest;
    assert actions[0] == action;
    forall k | 0 <= k < |rest| ensures rest[k] == Updated {
      assert actions[k + 1] == rest[k];
    }
  }

  /** If every row updates, each row of a code has raised its version by one, and a code that has
      rows was open. */
  lemma {:induction false} LoopRaisesVersion(reg: Registry, s: State, mt: string, rows: seq<Row>, ticks: seq<Tick>,
                                             actor: string, clock: int, key: string, v: int)
    requires GlobalReady(reg, s.recs, mt, rows, ticks, clock)
    requires AllUpdated(ImportRows(reg, s, mt, rows, ticks, actor).actions)
    ensures OpenVersion(s.recs, mt, key, v) ==>
      OpenVersion(ImportRows(reg, s, mt, rows, ticks, actor).state.recs, mt, key, v + CountKey(rows, key))
    ensures CountKey(rows, key) > 0 ==> exists u :: OpenVersion(s.recs, mt, key, u)
    decreases |rows|
  {
    if rows != [] {
      FirstRowGoesThrough(reg, s, mt, rows, ticks, actor, clock);
      var first := ImportRow(reg, s, mt, rows[0], ticks[0], actor).value;
      FirstUpdated(ImportRows(reg, first.0, mt, rows[1..], ticks[1..], actor).actions, first.1);
      if RowKey(rows[0]) == key {
        RowRaisesVersion(reg, s, mt, rows[0], ticks[0], actor, clock, v);
        LoopRaisesVersion(reg, first.0, mt, rows[1..], ticks[1..], actor, ticks[0].now, key, v + 1);
      } else {
        RowTouchesOneKey(reg, s, mt, rows[0], ticks[0], actor, key);
        LoopRaisesVersion(reg, first.0, mt, rows[1..], ticks[1..], actor, ticks[0].now, key, v);
        AllOtherVersionsStay(s.recs, first.0.recs, mt, key);
      }
    }
  }

  lemma {:induction false} RowCounts(rows: seq<Row>, k: nat)
    requires k < |rows|
    ensures CountKey(rows, RowKey(rows[k])) > 0
  {
    if k > 0 { RowCounts(rows[1..], k - 1); }
  }

  lemma {:induction false} TwoRowsCount(rows: seq<Row>, j: nat, k: nat)
    requires j < k < |rows| && RowKey(rows[j]) == RowKey(rows[k])
    ensures CountKey(rows, RowKey(rows[k])) > 1
  {
    if j == 0 { RowCounts(rows[1..], k - 1); } else { TwoRowsCount(rows[1..], j - 1, k - 1); }
  }

  lemma {:induction false} NoAdditions(actions: seq<RowAction>)
    requires Count(actions, Added) == 0
    ensures AllUpdated(actions)
  {
    if actions != [] { NoAdditions(actions[..|actions| - 1]); }
  }

  lemma OpenVersionIsOne(recs: seq<Rec>, mt: string, key: string, clock: int, v: int, w: int)
    requires Timelines(recs, clock) && GlobalMaster(recs, mt) && OpenVersion(recs, mt, key, v)
    requires OpenVersion(recs, mt, key, w)
    ensures v == w
  {
    var i :| IsOpen(recs, mt, i) && recs[i].Key() == key && recs[i].version == v;
    var j :| IsOpen(recs, mt, j) && recs[j].Key() == key && recs[j].version == w;
    OneOpenPerKey(recs, mt, clock, i, j);
  }

  lemma ResolvedVersion(recs: seq<Rec>, mt: string, key: string, clock: int, now: int)
    requires Timelines(recs, clock) && GlobalMaster(recs, mt) && clock <= now
    ensures
      var found := Resolve(recs, mt, key, now, None, false);
      if found.Some? then OpenVersion(recs, mt, key, recs[found.value].version)
      else forall v :: !OpenVersion(recs, mt, key, v)
  {
    var found := Resolve(recs, mt, key, now, None, false);
    if found.Some? {
      InForceIsOpen(recs, clock, now, found.value);
      assert IsOpen(recs, mt, found.value);
    } else {
      forall i | IsOpen(recs, mt, i) && recs[i].Key() == key ensures false {
        assert Sound(recs[i], clock) && Matches(recs[i], mt, key, now, false);
      }
    }
  }

  /** The exported rows of an open version under an untrimmed code and of the open version of the
      trimmed code, if there is one, are two rows of one key. */
  lemma UntrimmedCountsTwice(recs: seq<Rec>, mt: string, clock: int, now: int, i: int, v: int)
    requires Timelines(recs, clock) && GlobalMaster(recs, mt) && clock <= now
    requires IsOpen(recs, mt, i) && Strip(recs[i].code) != recs[i].code
    requires OpenVersion(recs, mt, Normalize(recs[i].code), v)
    ensures CountKey(Export(recs, mt, now), Normalize(recs[i].code)) > 1
  {
    var rows, key := Export(recs, mt, now), Normalize(recs[i].code);
    ExportIsComplete(recs, mt, clock, now);
    var j :| IsOpen(recs, mt, j) && recs[j].Key() == key && recs[j].version == v;
    TrimmedKeyTrimmedCode(recs[j].code, recs[i].code);
    var k :| 0 <= k < |rows| && rows[k] == ExportRow(recs[i]);
    var l :| 0 <= l < |rows| && rows[l] == ExportRow(recs[j]);
    assert RowKey(rows[k]) == key && RowKey(rows[l]) == key && k != l;
    if k < l { TwoRowsCount(rows, k, l); } else { TwoRowsCount(rows, l, k); }
  }

  /** With an untrimmed open code, some row adds a record, or the trimmed code moves on by more
      than one version. */
  lemma UntrimmedIsNotReimported(reg: Registry, s: State, mt: string, ticks: seq<Tick>, actor: string, clock: int,
                                 now: int, later: int, i: int)
    requires GlobalReady(reg, s.recs, mt, Export(s.recs, mt, now), ticks, now) && Timelines(s.recs, clock)
    requires clock <= now
    requires LastReading(ticks, now) <= later && IsOpen(s.recs, mt, i) && Strip(s.recs[i].code) != s.recs[i].code
    ensures
      var imported := ImportRows(reg, s, mt, Export(s.recs, mt, now), ticks, actor);
      Counts(imported) == Ok((0, |ticks|)) ==> !Reimported(s.recs, imported.state.recs, mt, now, later)
  {
    var rows, key := Export(s.recs, mt, now), Normalize(s.recs[i].code);
    var imported := ImportRows(reg, s, mt, rows, ticks, actor);
    var recs' := imported.state.recs;
    LoopGoesThrough(reg, s, mt, rows, ticks, actor, now);
    if Counts(imported) == Ok((0, |ticks|)) && Reimported(s.recs, recs', mt, now, later) {
      NoAdditions(imported.actions);
      ExportIsComplete(s.recs, mt, clock, now);
      var k :| 0 <= k < |rows| && rows[k] == ExportRow(s.recs[i]);
      RowCounts(rows, k);
      LoopRaisesVersion(reg, s, mt, rows, ticks, actor, now, key, 0);
      var v :| OpenVersion(s.recs, mt, key, v);
      LoopRaisesVersion(reg, s, mt, rows, ticks, actor, now, key, v);
      UntrimmedCountsTwice(s.recs, mt, clock, now, i, v);
      NormalizeIsIdempotent(s.recs[i].code);
      VersionMovedTwice(s.recs, recs', mt, now, LastReading(ticks, now), later, key, v, v + CountKey(rows, key));
    }
  }

  lemma VersionMovedTwice(recs: seq<Rec>, recs': seq<Rec>, mt: string, now: int, end: int, later: int, key: string,
                          v: int, w: int)
    requires Timelines(recs, now) && GlobalMaster(recs, mt) && Timelines(recs', end) && GlobalMaster(recs', mt)
    requires end <= later
    requires Normalize(key) == key && OpenVersion(recs, mt, key, v) && OpenVersion(recs', mt, key, w) && w > v + 1
    ensures !Reimported(recs, recs', mt, now, later)
  {
    ResolvedVersion(recs, mt, key, now, now);
    ResolvedVersion(recs', mt, key, end, later);
    var before := Resolve(recs, mt, key, now, None, false);
    var after := Resolve(recs', mt, key, later, None, false);
    OpenVersionIsOne(recs, mt, key, now, v, recs[before.value].version);
    OpenVersionIsOne(recs', mt, key, end, w, recs'[after.value].version);
    assert Resolve(recs, mt, Normalize(key), now, None, false) == before;
  }

  /** Main result, on `import_data` itself: importing the export succeeds exactly when no open
      version has a blank code or display name; otherwise nothing changes. If it succeeds, then it
      updates every row and creates none, and every code keeps its content and moves on by one
      version, exactly when the open versions are stored under trimmed codes. */
  lemma ExportThenImport(reg: Registry, s: State, masterType: string, ticks: seq<Tick>, actor: string, clock: int,
                         now: int, later: int)
    requires Normalize(masterType) in reg && !reg[Normalize(masterType)].requiresApproval
    requires Timelines(s.recs, clock) && GlobalMaster(s.recs, Normalize(masterType)) && clock <= now
    requires |ticks| == |Export(s.recs, Normalize(masterType), now)| && FreshTicks(s.recs, ticks, now)
    requires LastReading(ticks, now) <= later
    ensures
      var mt := Normalize(masterType);
      var r := ImportData(reg, s, masterType, Export(s.recs, mt, now), ticks, actor);
      && (r.1.Ok? <==> Importable(s.recs, mt))
      && (r.1.Err? ==> r.0 == s)
      && (r.1.Ok? ==>
            (r.1.value == (0, |ticks|) && Reimported(s.recs, r.0.recs, mt, now, later) <==> Trimmed(s.recs, mt)))
  {
    var mt := Normalize(masterType);
    var rows := Export(s.recs, mt, now);
    NormalizeIsIdempotent(masterType);
    LaterClockKeeps(s.recs, clock, now);
    ExportIsValidExactlyWhen(s.recs, mt, clock, now);
    ImportRunsExactlyWhen(reg, s, masterType, rows, ticks, actor);
    ExportIsReady(reg, s.recs, mt, ticks, clock, now);
    LoopGoesThrough(reg, s, mt, rows, ticks, actor, now);
    if Trimmed(s.recs, mt) {
      LoopReimports(reg, s, mt, ticks, actor, clock, now, later);
    } else {
      var i :| IsOpen(s.recs, mt, i) && Strip(s.recs[i].code) != s.recs[i].code;
      UntrimmedIsNotReimported(reg, s, mt, ticks, actor, clock, now, later, i);
    }
  }

  lemma ExportIsReady(reg: Registry, recs: seq<Rec>, mt: string, ticks: seq<Tick>, clock: int, now: int)
    requires mt in reg && !reg[mt].requiresApproval && Normalize(mt) == mt
    requires Timelines(recs, clock) && GlobalMaster(recs, mt) && clock <= now
    requires |ticks| == |Export(recs, mt, now)| && FreshTicks(recs, ticks, now)
    ensures GlobalReady(reg, recs, mt, Export(recs, mt, now), ticks, now)
  {
    LaterClockKeeps(recs, clock, now);
  }
}
