/** Bulk import: the dry run as a pure predictor, the row loop as a fold over the service's
    own transitions, and exactly when the two agree. Rows arrive parsed and typed. */
module Import {
  import opened Text
  import opened Records
  import opened Resolution
  import opened Lifecycle
  import opened PastReads

  /** `sort_order` can be missing, null, or a number. */
  datatype SortCell = Absent | Null | At(n: int)

  datatype Row = Row(code: Option<string>, displayName: Option<string>, description: Option<string>,
                     sortOrder: SortCell, parentCode: Option<string>, attributes: Option<Attributes>)

  datatype RowAction = Added | Updated

  datatype RowError = RowError(rowIndex: nat, missingCode: bool, missingName: bool)

  datatype DryRun = DryRun(totalRows: nat, validRows: nat, invalidRows: nat, toAdd: nat, toUpdate: nat,
                           errors: seq<RowError>, preview: seq<(string, string, RowAction)>)

  function RowCode(row: Row): string {
    Strip(row.code.GetOr(""))
  }

  function RowName(row: Row): string {
    Strip(row.displayName.GetOr(""))
  }

  predicate ValidRow(row: Row) {
    RowCode(row) != "" && RowName(row) != ""
  }

  /** What the dry run expects of a row, given the codes in the store. */
  function Prediction(row: Row, codes: set<string>): RowAction {
    if RowCode(row) in codes then Updated else Added
  }

  function StoredCodes(recs: seq<Rec>, mt: string): set<string> {
    set i | 0 <= i < |recs| && recs[i].masterType == mt :: recs[i].code
  }

  function Count(actions: seq<RowAction>, a: RowAction): nat {
    if actions == [] then 0
    else Count(actions[..|actions| - 1], a) + if actions[|actions| - 1] == a then 1 else 0
  }

  function ValidRows(rows: seq<Row>): seq<Row> {
    if rows == [] then []
    else ValidRows(rows[..|rows| - 1]) + if ValidRow(rows[|rows| - 1]) then [rows[|rows| - 1]] else []
  }

  function Predictions(rows: seq<Row>, codes: set<string>): (p: seq<RowAction>)
    ensures |p| == |rows|
  {
    seq(|rows|, i requires 0 <= i < |rows| => Prediction(rows[i], codes))
  }

  function Preview(rows: seq<Row>, codes: set<string>): (p: seq<(string, string, RowAction)>)
    ensures |p| == |rows|
  {
    seq(|rows|, i requires 0 <= i < |rows| => (RowCode(rows[i]), RowName(rows[i]), Prediction(rows[i], codes)))
  }

  predicate ErrorFits(e: RowError, rows: seq<Row>) {
    && 1 <= e.rowIndex <= |rows| && (e.missingCode || e.missingName)
    && e.missingCode == (RowCode(rows[e.rowIndex - 1]) == "")
    && e.missingName == (RowName(rows[e.rowIndex - 1]) == "")
  }

  /** The report is right about `rows`: each row is valid or has one error naming what is
      missing, errors come in row order, valid rows are counted by predicted action, and the
      first five of them are previewed. */
  ghost predicate Reports(d: DryRun, rows: seq<Row>, codes: set<string>) {
    && d.totalRows == |rows| == d.validRows + d.invalidRows
    && d.validRows == |ValidRows(rows)| && d.invalidRows == |d.errors|
    && d.toAdd == Count(Predictions(ValidRows(rows), codes), Added)
    && d.toUpdate == Count(Predictions(ValidRows(rows), codes), Updated)
    && (forall k :: 0 <= k < |d.errors| ==> ErrorFits(d.errors[k], rows))
    && (forall k, j :: 0 <= k < j < |d.errors| ==> d.errors[k].rowIndex < d.errors[j].rowIndex)
    && |d.preview| == (if d.validRows < 5 then d.validRows else 5)
    && d.preview == Preview(ValidRows(rows), codes)[..|d.preview|]
  }

  lemma CountGrows(actions: seq<RowAction>, p: RowAction, a: RowAction)
    ensures Count(actions + [p], a) == Count(actions, a) + if p == a then 1 else 0
  {
  }

  lemma InvalidRowReports(d: DryRun, rows: seq<Row>, row: Row, codes: set<string>)
    requires Reports(d, rows, codes) && !ValidRow(row)
    ensures Reports(NextReport(d, row, codes), rows + [row], codes)
  {
    assert (rows + [row])[..|rows|] == rows;
    assert ValidRows(rows + [row]) == ValidRows(rows);
    forall k | 0 <= k < |d.errors| ensures ErrorFits(d.errors[k], rows + [row]) {
      assert ErrorFits(d.errors[k], rows);
    }
  }

  lemma ValidRowReports(d: DryRun, rows: seq<Row>, row: Row, codes: set<string>)
    requires Reports(d, rows, codes) && ValidRow(row)
    ensures Reports(NextReport(d, row, codes), rows + [row], codes)
  {
    var valid, p := ValidRows(rows), Prediction(row, codes);
    assert (rows + [row])[..|rows|] == rows;
    assert ValidRows(rows + [row]) == valid + [row];
    assert Predictions(valid + [row], codes) == Predictions(valid, codes) + [p];
    assert Preview(valid + [row], codes) == Preview(valid, codes) + [(RowCode(row), RowName(row), p)];
    CountGrows(Predictions(valid, codes), p, Added);
    CountGrows(Predictions(valid, codes), p, Updated);
    forall k | 0 <= k < |d.errors| ensures ErrorFits(d.errors[k], rows + [row]) {
      assert ErrorFits(d.errors[k], rows);
    }
  }

  /** The report after one more row. */
  function NextReport(d: DryRun, row: Row, codes: set<string>): DryRun {
    if ValidRow(row) then
      var p := Prediction(row, codes);
      d.(totalRows := d.totalRows + 1, validRows := d.validRows + 1,
         toAdd := d.toAdd + (if p.Added? then 1 else 0), toUpdate := d.toUpdate + (if p.Updated? then 1 else 0),
         preview := d.preview + (if |d.preview| < 5 then [(RowCode(row), RowName(row), p)] else []))
    else
      d.(totalRows := d.totalRows + 1, invalidRows := d.invalidRows + 1,
         errors := d.errors + [RowError(d.totalRows + 1, RowCode(row) == "", RowName(row) == "")])
  }

  lemma RowReports(d: DryRun, rows: seq<Row>, row: Row, codes: set<string>)
    requires Reports(d, rows, codes)
    ensures Reports(NextReport(d, row, codes), rows + [row], codes)
  {
    if ValidRow(row) {
      ValidRowReports(d, rows, row, codes);
    } else {
      InvalidRowReports(d, rows, row, codes);
    }
  }

  function Report(rows: seq<Row>, codes: set<string>): DryRun {
    if rows == [] then DryRun(0, 0, 0, 0, 0, [], [])
    else NextReport(Report(rows[..|rows| - 1], codes), rows[|rows| - 1], codes)
  }

  lemma {:induction false} ReportIsRight(rows: seq<Row>, codes: set<string>)
    ensures Reports(Report(rows, codes), rows, codes)
  {
    if rows != [] {
      var front := rows[..|rows| - 1];
      ReportIsRight(front, codes);
      RowReports(Report(front, codes), front, rows[|rows| - 1], codes);
      assert rows == front + [rows[|rows| - 1]];
    }
  }

  /** `validate_import` on parsed rows. */
  method ValidateImport(masterType: string, rows: seq<Row>, existing: seq<Rec>) returns (d: DryRun)
    ensures d == Report(rows, StoredCodes(existing, masterType))
    ensures Reports(d, rows, StoredCodes(existing, masterType))
  {
    var codes := StoredCodes(existing, masterType);
    var toAdd, toUpdate, validRows := 0, 0, 0;
    var errors: seq<RowError> := [];
    var preview: seq<(string, string, RowAction)> := [];
    for i := 0 to |rows|
      invariant DryRun(i, validRows, |errors|, toAdd, toUpdate, errors, preview) == Report(rows[..i], codes)
    {
      assert rows[..i + 1][..i] == rows[..i];
      var code, name := RowCode(rows[i]), RowName(rows[i]);
      if code == "" || name == "" {
        errors := errors + [RowError(i + 1, code == "", name == "")];
      } else {
        validRows := validRows + 1;
        if code in codes { toUpdate := toUpdate + 1; } else { toAdd := toAdd + 1; }
        if |preview| < 5 {
          preview := preview + [(code, name, if code in codes then Updated else Added)];
        }
      }
    }
    assert rows[..|rows|] == rows;
    d := DryRun(|rows|, validRows, |errors|, toAdd, toUpdate, errors, preview);
    ReportIsRight(rows, codes);
  }

  /** Counting: with no invalid row, and only then, all rows are valid ones. */
  lemma {:induction false} AllRowsValid(rows: seq<Row>)
    ensures |ValidRows(rows)| <= |rows|
    ensures |ValidRows(rows)| == |rows| ==> ValidRows(rows) == rows
    ensures |ValidRows(rows)| == |rows| <==> forall k :: 0 <= k < |rows| ==> ValidRow(rows[k])
  {
    if rows != [] {
      var front := rows[..|rows| - 1];
      AllRowsValid(front);
      assert rows == front + [rows[|rows| - 1]];
      assert (forall k :: 0 <= k < |rows| ==> ValidRow(rows[k]))
        <==> ValidRow(rows[|rows| - 1]) && forall k :: 0 <= k < |front| ==> ValidRow(front[k]);
    }
  }

  /** The clock reading and the fresh id of one row. */
  datatype Tick = Tick(now: int, id: string)

  function PatchOf(row: Row): Patch {
    Patch(row.displayName.GetOr(""), row.description,
          if row.sortOrder.At? then Some(row.sortOrder.n) else None, row.parentCode, row.attributes)
  }

  function RowUpdate(mt: string, row: Row, tick: Tick, actor: string): UpdateArgs {
    UpdateArgs(mt, row.code.GetOr(""), PatchOf(row), actor, None, None, false, tick.id)
  }

  function RowCreate(mt: string, row: Row, tick: Tick, actor: string): CreateArgs {
    CreateArgs(mt, row.code.GetOr(""), PatchOf(row), None, actor, false, false, tick.id)
  }

  predicate Hit(recs: seq<Rec>, mt: string, row: Row, now: int) {
    Resolve(recs, mt, Normalize(row.code.GetOr("")), now, None, false).Some?
  }

  /** One turn of the import loop. A row that is created with a null sort order fails when the
      record is built. */
  function ImportRow(reg: Registry, s: State, mt: string, row: Row, tick: Tick, actor: string)
    : Result<(State, RowAction), Error>
  {
    if Hit(s.recs, mt, row, tick.now) then
      match Update(reg, s, RowUpdate(mt, row, tick, actor), tick.now)
      case Ok(s') => Ok((s', Updated))
      case Err(e) => Err(e)
    else
      match Create(reg, s, RowCreate(mt, row, tick, actor), tick.now)
      case Ok(s') => if row.sortOrder.Null? then Err(InvalidRecord) else Ok((s', Added))
      case Err(e) => Err(e)
  }

  /** Rows before a failing one stay imported. */
  datatype Imported = Imported(state: State, actions: seq<RowAction>, failure: Option<Error>)

  function ImportRows(reg: Registry, s: State, mt: string, rows: seq<Row>, ticks: seq<Tick>, actor: string): Imported
    requires |rows| == |ticks|
    decreases |rows|
  {
    if rows == [] then Imported(s, [], None)
    else
      match ImportRow(reg, s, mt, rows[0], ticks[0], actor)
      case Err(e) => Imported(s, [], Some(e))
      case Ok((s', action)) =>
        var rest := ImportRows(reg, s', mt, rows[1..], ticks[1..], actor);
        rest.(actions := [action] + rest.actions)
  }

  /** Codes distinct up to case and surrounding white space. */
  predicate DistinctKeys(rows: seq<Row>) {
    forall i, j :: 0 <= i < j < |rows| ==> Normalize(rows[i].code.GetOr("")) != Normalize(rows[j].code.GetOr(""))
  }

  /** The dry run is right about a row: it is stored under exactly this spelling if and only if
      a published version is in force, and otherwise it can be created. */
  predicate RowAgrees(recs: seq<Rec>, codes: set<string>, mt: string, row: Row, now: int) {
    && (RowCode(row) in codes <==> Hit(recs, mt, row, now))
    && (!Hit(recs, mt, row, now) ==>
          ActiveIndex(recs, mt, Normalize(row.code.GetOr("")), None).None? && !row.sortOrder.Null?)
  }

  predicate HasKey(r: Rec, mt: string, key: string) {
    r.masterType == mt && r.Key() == key
  }

  /** The two stores hold the same records of one code. */
  ghost predicate SameForKey(recs: seq<Rec>, recs': seq<Rec>, mt: string, key: string) {
    && |recs| <= |recs'|
    && (forall i :: 0 <= i < |recs| && (HasKey(recs[i], mt, key) || HasKey(recs'[i], mt, key)) ==> recs[i] == recs'[i])
    && (forall i :: |recs| <= i < |recs'| ==> !HasKey(recs'[i], mt, key))
  }

  lemma SameForKeyAgrees(recs: seq<Rec>, recs': seq<Rec>, codes: set<string>, mt: string, row: Row, now: int)
    requires SameForKey(recs, recs', mt, Normalize(row.code.GetOr("")))
    ensures RowAgrees(recs, codes, mt, row, now) == RowAgrees(recs', codes, mt, row, now)
  {
    var key := Normalize(row.code.GetOr(""));
    forall i | 0 <= i < |recs| && Matches(recs[i], mt, key, now, false) ensures Hit(recs', mt, row, now) {
      assert HasKey(recs[i], mt, key) && Matches(recs'[i], mt, key, now, false);
    }
    forall i | 0 <= i < |recs'| && Matches(recs'[i], mt, key, now, false) ensures Hit(recs, mt, row, now) {
      assert HasKey(recs'[i], mt, key) && Matches(recs[i], mt, key, now, false);
    }
    forall i | 0 <= i < |recs| && IsActive(recs[i], mt, key, None) ensures ActiveIndex(recs', mt, key, None).Some? {
      assert HasKey(recs[i], mt, key) && IsActive(recs'[i], mt, key, None);
    }
    forall i | 0 <= i < |recs'| && IsActive(recs'[i], mt, key, None) ensures ActiveIndex(recs, mt, key, None).Some? {
      assert HasKey(recs'[i], mt, key) && IsActive(recs[i], mt, key, None);
    }
  }

  lemma AppendTouchesOneKey(recs: seq<Rec>, r: Rec, mt: string, key: string)
    requires !HasKey(r, mt, key)
    ensures SameForKey(recs, recs + [r], mt, key)
  {
  }

  lemma ReplaceTouchesOneKey(recs: seq<Rec>, i: nat, r: Rec, next: Rec, mt: string, key: string)
    requires i < |recs| && !HasKey(recs[i], mt, key) && !HasKey(r, mt, key) && !HasKey(next, mt, key)
    ensures SameForKey(recs, recs[i := r] + [next], mt, key)
  {
  }

  /** Importing one row leaves the records of every other code alone. */
  lemma RowTouchesOneKey(reg: Registry, s: State, mt: string, row: Row, tick: Tick, actor: string, key: string)
    requires ImportRow(reg, s, mt, row, tick, actor).Ok? && Normalize(mt) == mt
    requires key != Normalize(row.code.GetOr(""))
    ensures SameForKey(s.recs, ImportRow(reg, s, mt, row, tick, actor).value.0.recs, mt, key)
  {
    if Hit(s.recs, mt, row, tick.now) {
      var a := RowUpdate(mt, row, tick, actor);
      var i := Current(s, mt, a.code, tick.now, None).value;
      var next := NextVersion(a, s.recs[i], reg[mt].requiresApproval, tick.now);
      assert next.Key() == s.recs[i].Key() != key;
      AppendTouchesOneKey(s.recs, next, mt, key);
      ReplaceTouchesOneKey(s.recs, i, Close(s.recs[i], tick.now), next, mt, key);
    } else {
      var r := CreatedRecord(RowCreate(mt, row, tick, actor), reg[mt].requiresApproval, tick.now);
      AppendTouchesOneKey(s.recs, r, mt, key);
    }
  }

  /** A row goes as predicted exactly when the dry run is right about it. */
  lemma RowGoesAsPredicted(reg: Registry, s: State, codes: set<string>, mt: string, row: Row, tick: Tick, actor: string)
    requires mt in reg && Normalize(mt) == mt
    ensures
      var r := ImportRow(reg, s, mt, row, tick, actor);
      RowAgrees(s.recs, codes, mt, row, tick.now) <==> r.Ok? && r.value.1 == Prediction(row, codes)
  {
  }

  /** The key under which a row is looked up and stored. */
  function RowKey(row: Row): string {
    Normalize(row.code.GetOr(""))
  }

  /** One of the first `n` rows names the code. */
  ghost predicate Named(rows: seq<Row>, n: nat, key: string)
    requires n <= |rows|
  {
    exists l :: 0 <= l < n && RowKey(rows[l]) == key
  }

  /** One of the first `n` rows left a global draft of the code: it created one, or it made the
      next version of a global record. */
  ghost predicate Drafted(recs: seq<Rec>, mt: string, rows: seq<Row>, ticks: seq<Tick>, n: nat, key: string)
    requires |rows| == |ticks| && n <= |rows|
  {
    exists l :: 0 <= l < n && RowKey(rows[l]) == key && LeavesGlobal(recs, mt, rows[l], ticks[l].now)
  }

  predicate LeavesGlobal(recs: seq<Rec>, mt: string, row: Row, now: int) {
    var found := Resolve(recs, mt, RowKey(row), now, None, false);
    found.Some? ==> recs[found.value].tenant.None?
  }

  /** The dry run foresees what happens to row `k`, judged by the store before the import. On a
      master without approval, a code named before is updated, so it must have been stored under
      this very spelling. With approval, an earlier row leaves a draft, which is not looked up but
      stands in the way of a creation. */
  ghost predicate Foreseen(approval: bool, recs: seq<Rec>, codes: set<string>, mt: string, rows: seq<Row>,
                           ticks: seq<Tick>, k: nat)
    requires |rows| == |ticks| && k < |rows|
  {
    if approval then
      RowAgrees(recs, codes, mt, rows[k], ticks[k].now)
      && (Hit(recs, mt, rows[k], ticks[k].now) || !Drafted(recs, mt, rows, ticks, k, RowKey(rows[k])))
    else if Named(rows, k, RowKey(rows[k])) then RowCode(rows[k]) in codes
    else RowAgrees(recs, codes, mt, rows[k], ticks[k].now)
  }

  /** Row clock readings never go back. */
  ghost predicate Ascending(ticks: seq<Tick>) {
    forall k, l :: 0 <= k < l < |ticks| ==> ticks[k].now <= ticks[l].now
  }

  /** The import ran through and did to each row what the dry run announced. */
  predicate AsPredicted(imported: Imported, rows: seq<Row>, codes: set<string>) {
    imported.failure.None? && imported.actions == Predictions(rows, codes)
  }

  lemma SplitPrediction(action: RowAction, rest: Imported, rows: seq<Row>, codes: set<string>)
    requires rows != []
    ensures AsPredicted(rest.(actions := [action] + rest.actions), rows, codes)
      <==> action == Prediction(rows[0], codes) && AsPredicted(rest, rows[1..], codes)
  {
    assert Predictions(rows, codes) == [Prediction(rows[0], codes)] + Predictions(rows[1..], codes);
    var actions := [action] + rest.actions;
    assert actions[0] == action && actions[1..] == rest.actions;
    assert Predictions(rows, codes)[1..] == Predictions(rows[1..], codes);
  }

  /** A published version of the code is open at `now`. */
  ghost predicate OpenKey(recs: seq<Rec>, mt: string, key: string, now: int) {
    exists i :: 0 <= i < |recs| && OpenKeyAt(recs[i], mt, key, now)
  }

  predicate OpenKeyAt(r: Rec, mt: string, key: string, now: int) {
    HasKey(r, mt, key) && r.status.Published? && r.effectiveFrom <= now && r.effectiveTo.None?
  }

  /** Without approval: codes not named yet are as before, and codes named have an open version. */
  ghost predicate Imports(recs: seq<Rec>, recs': seq<Rec>, mt: string, rows: seq<Row>, ticks: seq<Tick>, n: nat)
    requires |rows| == |ticks| && n <= |rows|
  {
    forall k :: n <= k < |rows| ==> KeyImports(recs, recs', mt, rows, n, RowKey(rows[k]), ticks[k].now)
  }

  ghost predicate KeyImports(recs: seq<Rec>, recs': seq<Rec>, mt: string, rows: seq<Row>, n: nat, key: string, now: int)
    requires n <= |rows|
  {
    if Named(rows, n, key) then OpenKey(recs', mt, key, now) else SameForKey(recs, recs', mt, key)
  }

  lemma SameForKeyTransitive(a: seq<Rec>, b: seq<Rec>, c: seq<Rec>, mt: string, key: string)
    requires SameForKey(a, b, mt, key) && SameForKey(b, c, mt, key)
    ensures SameForKey(a, c, mt, key)
  {
  }

  lemma OpenKeyStays(recs: seq<Rec>, recs': seq<Rec>, mt: string, key: string, now: int)
    requires SameForKey(recs, recs', mt, key) && OpenKey(recs, mt, key, now)
    ensures OpenKey(recs', mt, key, now)
  {
    var i :| 0 <= i < |recs| && OpenKeyAt(recs[i], mt, key, now);
    assert OpenKeyAt(recs'[i], mt, key, now);
  }

  lemma OpenKeyHits(recs: seq<Rec>, mt: string, row: Row, now: int)
    requires OpenKey(recs, mt, RowKey(row), now)
    ensures Hit(recs, mt, row, now)
  {
    var i :| 0 <= i < |recs| && OpenKeyAt(recs[i], mt, RowKey(row), now);
    assert Matches(recs[i], mt, RowKey(row), now, false);
  }

  /** Without approval, a row leaves its code open. */
  lemma RowOpensKey(reg: Registry, s: State, mt: string, row: Row, tick: Tick, actor: string, later: int)
    requires mt in reg && !reg[mt].requiresApproval && Normalize(mt) == mt && tick.now <= later
    requires ImportRow(reg, s, mt, row, tick, actor).Ok?
    ensures OpenKey(ImportRow(reg, s, mt, row, tick, actor).value.0.recs, mt, RowKey(row), later)
  {
    var recs' := ImportRow(reg, s, mt, row, tick, actor).value.0.recs;
    var r := RowAppends(reg, s, mt, row, tick, actor);
    assert OpenKeyAt(recs'[|s.recs|], mt, RowKey(row), later);
  }

  /** The record that a row appends. */
  lemma RowAppends(reg: Registry, s: State, mt: string, row: Row, tick: Tick, actor: string) returns (r: Rec)
    requires mt in reg && Normalize(mt) == mt && ImportRow(reg, s, mt, row, tick, actor).Ok?
    ensures
      var recs' := ImportRow(reg, s, mt, row, tick, actor).value.0.recs;
      && |recs'| == |s.recs| + 1 && recs'[|s.recs|] == r && HasKey(r, mt, RowKey(row)) && r.isActive
        && r.effectiveTo.None?
      && (reg[mt].requiresApproval ==> r.status.Draft? && recs' == s.recs + [r])
      && (!reg[mt].requiresApproval ==> r.status.Published? && r.effectiveFrom == tick.now)
      && (r.tenant.None? <==> LeavesGlobal(s.recs, mt, row, tick.now))
  {
    r := ImportRow(reg, s, mt, row, tick, actor).value.0.recs[|s.recs|];
    if Hit(s.recs, mt, row, tick.now) {
      UpdateIs(reg, s, RowUpdate(mt, row, tick, actor), tick.now);
    } else {
      StripUpper(row.code.GetOr(""));
    }
  }

  lemma KeyStillImports(recs0: seq<Rec>, recs: seq<Rec>, recs': seq<Rec>, mt: string, rows: seq<Row>, n: nat,
                        key: string, now: int)
    requires n < |rows| && KeyImports(recs0, recs, mt, rows, n, key, now)
    requires if RowKey(rows[n]) == key then OpenKey(recs', mt, key, now) else SameForKey(recs, recs', mt, key)
    ensures KeyImports(recs0, recs', mt, rows, n + 1, key, now)
  {
    if RowKey(rows[n]) != key {
      assert Named(rows, n + 1, key) <==> Named(rows, n, key);
      if Named(rows, n, key) {
        OpenKeyStays(recs, recs', mt, key, now);
      } else {
        SameForKeyTransitive(recs0, recs, recs', mt, key);
      }
    }
  }

  lemma RowImports(reg: Registry, recs0: seq<Rec>, s: State, mt: string, rows: seq<Row>, ticks: seq<Tick>,
                   actor: string, n: nat)
    requires mt in reg && !reg[mt].requiresApproval && Normalize(mt) == mt
    requires |rows| == |ticks| && n < |rows| && Ascending(ticks)
    requires Imports(recs0, s.recs, mt, rows, ticks, n) && ImportRow(reg, s, mt, rows[n], ticks[n], actor).Ok?
    ensures Imports(recs0, ImportRow(reg, s, mt, rows[n], ticks[n], actor).value.0.recs, mt, rows, ticks, n + 1)
  {
    var recs' := ImportRow(reg, s, mt, rows[n], ticks[n], actor).value.0.recs;
    forall k | n + 1 <= k < |rows| ensures KeyImports(recs0, recs', mt, rows, n + 1, RowKey(rows[k]), ticks[k].now) {
      if RowKey(rows[n]) == RowKey(rows[k]) {
        RowOpensKey(reg, s, mt, rows[n], ticks[n], actor, ticks[k].now);
      } else {
        RowTouchesOneKey(reg, s, mt, rows[n], ticks[n], actor, RowKey(rows[k]));
      }
      KeyStillImports(recs0, s.recs, recs', mt, rows, n, RowKey(rows[k]), ticks[k].now);
    }
  }

  /** Without approval, the row at hand goes as predicted exactly when it was foreseen. */
  lemma DirectRowForeseen(recs0: seq<Rec>, recs: seq<Rec>, codes: set<string>, mt: string, rows: seq<Row>,
                          ticks: seq<Tick>, n: nat)
    requires |rows| == |ticks| && n < |rows| && Imports(recs0, recs, mt, rows, ticks, n)
    ensures RowAgrees(recs, codes, mt, rows[n], ticks[n].now) <==> Foreseen(false, recs0, codes, mt, rows, ticks, n)
  {
    assert KeyImports(recs0, recs, mt, rows, n, RowKey(rows[n]), ticks[n].now);
    if Named(rows, n, RowKey(rows[n])) {
      OpenKeyHits(recs, mt, rows[n], ticks[n].now);
    } else {
      SameForKeyAgrees(recs0, recs, codes, mt, rows[n], ticks[n].now);
    }
  }

  /** With approval: drafts were appended, a global one of a code exactly if a row left one. */
  ghost predicate Drafts(recs: seq<Rec>, recs': seq<Rec>, mt: string, rows: seq<Row>, ticks: seq<Tick>, n: nat)
    requires |rows| == |ticks| && n <= |rows|
  {
    && recs <= recs' && AllDrafts(recs, recs')
    && forall k :: n <= k < |rows| ==>
         (GlobalDraft(recs, recs', mt, RowKey(rows[k])) <==> Drafted(recs, mt, rows, ticks, n, RowKey(rows[k])))
  }

  ghost predicate AllDrafts(recs: seq<Rec>, recs': seq<Rec>) {
    forall i :: |recs| <= i < |recs'| ==> recs'[i].status.Draft?
  }

  ghost predicate GlobalDraft(recs: seq<Rec>, recs': seq<Rec>, mt: string, key: string) {
    exists i :: |recs| <= i < |recs'| && IsActive(recs'[i], mt, key, None)
  }

  lemma DraftRowForeseen(recs0: seq<Rec>, recs: seq<Rec>, codes: set<string>, mt: string, rows: seq<Row>,
                         ticks: seq<Tick>, n: nat)
    requires |rows| == |ticks| && n < |rows| && Drafts(recs0, recs, mt, rows, ticks, n)
    ensures RowAgrees(recs, codes, mt, rows[n], ticks[n].now) <==> Foreseen(true, recs0, codes, mt, rows, ticks, n)
  {
    UnpublishedAreNotRead(recs0, recs, mt, RowKey(rows[n]), ticks[n].now, None);
    ActiveSplits(recs0, recs, mt, RowKey(rows[n]));
  }

  lemma ActiveSplits(recs: seq<Rec>, recs': seq<Rec>, mt: string, key: string)
    requires recs <= recs'
    ensures ActiveIndex(recs', mt, key, None).None?
      <==> ActiveIndex(recs, mt, key, None).None? && !GlobalDraft(recs, recs', mt, key)
  {
    forall i | 0 <= i < |recs| ensures recs'[i] == recs[i] {
    }
    if i :| 0 <= i < |recs| && IsActive(recs[i], mt, key, None) {
      assert IsActive(recs'[i], mt, key, None);
    }
    if i :| 0 <= i < |recs'| && IsActive(recs'[i], mt, key, None) {
      assert i < |recs| ==> IsActive(recs[i], mt, key, None);
    }
  }

  lemma GlobalDraftGrows(recs: seq<Rec>, recs': seq<Rec>, r: Rec, mt: string, key: string)
    requires recs <= recs'
    ensures GlobalDraft(recs, recs' + [r], mt, key) <==> GlobalDraft(recs, recs', mt, key) || IsActive(r, mt, key, None)
  {
    var recs'' := recs' + [r];
    if i :| |recs| <= i < |recs''| && IsActive(recs''[i], mt, key, None) {
      assert i < |recs'| ==> IsActive(recs'[i], mt, key, None);
    }
    if i :| |recs| <= i < |recs'| && IsActive(recs'[i], mt, key, None) {
      assert IsActive(recs''[i], mt, key, None);
    }
    if IsActive(r, mt, key, None) { assert IsActive(recs''[|recs'|], mt, key, None); }
  }

  lemma DraftedGrows(recs: seq<Rec>, mt: string, rows: seq<Row>, ticks: seq<Tick>, n: nat, key: string)
    requires |rows| == |ticks| && n < |rows|
    ensures Drafted(recs, mt, rows, ticks, n + 1, key) <==>
      || Drafted(recs, mt, rows, ticks, n, key)
      || (RowKey(rows[n]) == key && LeavesGlobal(recs, mt, rows[n], ticks[n].now))
  {
  }

  lemma RowAddsDraft(reg: Registry, recs0: seq<Rec>, s: State, mt: string, rows: seq<Row>, ticks: seq<Tick>,
                     actor: string, n: nat)
    requires mt in reg && reg[mt].requiresApproval && Normalize(mt) == mt && |rows| == |ticks| && n < |rows|
    requires Drafts(recs0, s.recs, mt, rows, ticks, n) && ImportRow(reg, s, mt, rows[n], ticks[n], actor).Ok?
    ensures Drafts(recs0, ImportRow(reg, s, mt, rows[n], ticks[n], actor).value.0.recs, mt, rows, ticks, n + 1)
  {
    var r := RowAppends(reg, s, mt, rows[n], ticks[n], actor);
    UnpublishedAreNotRead(recs0, s.recs, mt, RowKey(rows[n]), ticks[n].now, None);
    forall k | n + 1 <= k < |rows|
      ensures GlobalDraft(recs0, s.recs + [r], mt, RowKey(rows[k]))
        <==> Drafted(recs0, mt, rows, ticks, n + 1, RowKey(rows[k]))
    {
      GlobalDraftGrows(recs0, s.recs, r, mt, RowKey(rows[k]));
      DraftedGrows(recs0, mt, rows, ticks, n, RowKey(rows[k]));
    }
  }

  /** What holds before row `n`, on either kind of master. */
  ghost predicate Underway(approval: bool, recs0: seq<Rec>, recs: seq<Rec>, mt: string, rows: seq<Row>,
                           ticks: seq<Tick>, n: nat)
    requires |rows| == |ticks| && n <= |rows|
  {
    if approval then Drafts(recs0, recs, mt, rows, ticks, n) else Imports(recs0, recs, mt, rows, ticks, n)
  }

  lemma RowForeseen(reg: Registry, recs0: seq<Rec>, s: State, codes: set<string>, mt: string,
                    rows: seq<Row>, ticks: seq<Tick>, actor: string, n: nat)
    requires mt in reg && Normalize(mt) == mt && |rows| == |ticks| && n < |rows| && Ascending(ticks)
    requires Underway(reg[mt].requiresApproval, recs0, s.recs, mt, rows, ticks, n)
    ensures
      var r := ImportRow(reg, s, mt, rows[n], ticks[n], actor);
      && (Foreseen(reg[mt].requiresApproval, recs0, codes, mt, rows, ticks, n)
          <==> r.Ok? && r.value.1 == Prediction(rows[n], codes))
      && (r.Ok? ==> Underway(reg[mt].requiresApproval, recs0, r.value.0.recs, mt, rows, ticks, n + 1))
  {
    RowGoesAsPredicted(reg, s, codes, mt, rows[n], ticks[n], actor);
    if reg[mt].requiresApproval {
      DraftRowForeseen(recs0, s.recs, codes, mt, rows, ticks, n);
    } else {
      DirectRowForeseen(recs0, s.recs, codes, mt, rows, ticks, n);
    }
    if ImportRow(reg, s, mt, rows[n], ticks[n], actor).Ok? {
      if reg[mt].requiresApproval {
        RowAddsDraft(reg, recs0, s, mt, rows, ticks, actor, n);
      } else {
        RowImports(reg, recs0, s, mt, rows, ticks, actor, n);
      }
    }
  }

  ghost predicate AllForeseen(approval: bool, recs: seq<Rec>, codes: set<string>, mt: string, rows: seq<Row>,
                              ticks: seq<Tick>, n: nat)
    requires |rows| == |ticks|
  {
    forall k :: n <= k < |rows| ==> Foreseen(approval, recs, codes, mt, rows, ticks, k)
  }

  /** One row and the rest, in the import and in its prediction. */
  lemma OnePredicted(reg: Registry, s: State, codes: set<string>, mt: string, rows: seq<Row>, ticks: seq<Tick>,
                     actor: string, n: nat)
    requires |rows| == |ticks| && n < |rows|
    ensures
      var r := ImportRow(reg, s, mt, rows[n], ticks[n], actor);
      AsPredicted(ImportRows(reg, s, mt, rows[n..], ticks[n..], actor), rows[n..], codes) <==>
        && r.Ok? && r.value.1 == Prediction(rows[n], codes)
        && AsPredicted(ImportRows(reg, r.value.0, mt, rows[n + 1..], ticks[n + 1..], actor), rows[n + 1..], codes)
  {
    RestSplits(rows, ticks, n);
    var first := ImportRow(reg, s, mt, rows[n], ticks[n], actor);
    if first.Ok? {
      SplitPrediction(first.value.1, ImportRows(reg, first.value.0, mt, rows[n + 1..], ticks[n + 1..], actor),
                      rows[n..], codes);
    }
  }

  /** The rows from `n` on go as predicted exactly when each of them was foreseen. */
  lemma {:induction false} RestForeseen(reg: Registry, recs0: seq<Rec>, s: State, codes: set<string>, mt: string,
                                        rows: seq<Row>, ticks: seq<Tick>, actor: string, n: nat)
    requires mt in reg && Normalize(mt) == mt && |rows| == |ticks| && n <= |rows| && Ascending(ticks)
    requires Underway(reg[mt].requiresApproval, recs0, s.recs, mt, rows, ticks, n)
    ensures AsPredicted(ImportRows(reg, s, mt, rows[n..], ticks[n..], actor), rows[n..], codes)
      <==> AllForeseen(reg[mt].requiresApproval, recs0, codes, mt, rows, ticks, n)
    decreases |rows| - n
  {
    if n < |rows| {
      RowForeseen(reg, recs0, s, codes, mt, rows, ticks, actor, n);
      OnePredicted(reg, s, codes, mt, rows, ticks, actor, n);
      var first := ImportRow(reg, s, mt, rows[n], ticks[n], actor);
      if first.Ok? {
        RestForeseen(reg, recs0, first.value.0, codes, mt, rows, ticks, actor, n + 1);
      }
    }
  }

  lemma RestSplits(rows: seq<Row>, ticks: seq<Tick>, n: nat)
    requires |rows| == |ticks| && n < |rows|
    ensures rows[n..][0] == rows[n] && ticks[n..][0] == ticks[n]
    ensures rows[n..][1..] == rows[n + 1..] && ticks[n..][1..] == ticks[n + 1..]
  {
  }

  /** Main result: for any batch, the import performs on every row the action the dry run
      announced, and raises nothing, if and only if each row was foreseen. */
  lemma DryRunPredictsExactlyWhen(reg: Registry, s: State, codes: set<string>, mt: string,
                                  rows: seq<Row>, ticks: seq<Tick>, actor: string)
    requires mt in reg && Normalize(mt) == mt && |rows| == |ticks| && Ascending(ticks)
    ensures AsPredicted(ImportRows(reg, s, mt, rows, ticks, actor), rows, codes)
      <==> AllForeseen(reg[mt].requiresApproval, s.recs, codes, mt, rows, ticks, 0)
  {
    assert rows[0..] == rows && ticks[0..] == ticks;
    RestForeseen(reg, s.recs, s, codes, mt, rows, ticks, actor, 0);
  }

  /** Where no code is named twice, being foreseen is agreeing with the store. */
  lemma DistinctRowsAgree(approval: bool, recs: seq<Rec>, codes: set<string>, mt: string, rows: seq<Row>,
                          ticks: seq<Tick>, k: nat)
    requires |rows| == |ticks| && k < |rows| && !Named(rows, k, RowKey(rows[k]))
    ensures Foreseen(approval, recs, codes, mt, rows, ticks, k) <==> RowAgrees(recs, codes, mt, rows[k], ticks[k].now)
  {
  }

  /** What the import loop returns for the rows it went through. */
  function Counts(imported: Imported): Result<(nat, nat), Error> {
    if imported.failure.Some? then Err(imported.failure.value)
    else Ok((Count(imported.actions, Added), Count(imported.actions, Updated)))
  }

  /** `import_data`: nothing is written unless every row is valid; otherwise the loop runs and
      the numbers of created and updated rows are returned. */
  function ImportData(reg: Registry, s: State, masterType: string, rows: seq<Row>, ticks: seq<Tick>, actor: string)
    : (State, Result<(nat, nat), Error>)
    requires |rows| == |ticks|
  {
    var mt := Normalize(masterType);
    if mt !in reg then (s, Err(NotRegistered))
    else
      var d := Report(rows, StoredCodes(s.recs, mt));
      if d.invalidRows > 0 then (s, Err(ImportInvalid(d.invalidRows)))
      else
        var imported := ImportRows(reg, s, mt, rows, ticks, actor);
        (imported.state, Counts(imported))
  }

  /** The loop is entered exactly when every row is valid; otherwise nothing changes. */
  lemma ImportRunsExactlyWhen(reg: Registry, s: State, masterType: string, rows: seq<Row>, ticks: seq<Tick>,
                              actor: string)
    requires Normalize(masterType) in reg && |rows| == |ticks|
    ensures
      var r := ImportData(reg, s, masterType, rows, ticks, actor);
      var imported := ImportRows(reg, s, Normalize(masterType), rows, ticks, actor);
      if forall k :: 0 <= k < |rows| ==> ValidRow(rows[k]) then r == (imported.state, Counts(imported))
      else r.0 == s && r.1.Err?
  {
    ReportIsRight(rows, StoredCodes(s.recs, Normalize(masterType)));
    AllRowsValid(rows);
  }

  /** The import returns the dry run's counts whenever no row is invalid and every row was foreseen. */
  lemma ImportReturnsPredictedCounts(reg: Registry, s: State, masterType: string, rows: seq<Row>, ticks: seq<Tick>,
                                     actor: string)
    requires Normalize(masterType) in reg && |rows| == |ticks| && Ascending(ticks)
    requires Report(rows, StoredCodes(s.recs, Normalize(masterType))).invalidRows == 0
    requires
      var mt := Normalize(masterType);
      AllForeseen(reg[mt].requiresApproval, s.recs, StoredCodes(s.recs, mt), mt, rows, ticks, 0)
    ensures
      var d := Report(rows, StoredCodes(s.recs, Normalize(masterType)));
      ImportData(reg, s, masterType, rows, ticks, actor).1 == Ok((d.toAdd, d.toUpdate))
  {
    var mt := Normalize(masterType);
    var codes := StoredCodes(s.recs, mt);
    NormalizeIsIdempotent(masterType);
    ReportIsRight(rows, codes);
    AllRowsValid(rows);
    DryRunPredictsExactlyWhen(reg, s, codes, mt, rows, ticks, actor);
  }

  /** Any invalid row makes the import fail and leaves the store unchanged. */
  lemma InvalidRowChangesNothing(reg: Registry, s: State, masterType: string, rows: seq<Row>, ticks: seq<Tick>,
                                 actor: string, k: nat)
    requires |rows| == |ticks| && k < |rows| && !ValidRow(rows[k])
    ensures
      var r := ImportData(reg, s, masterType, rows, ticks, actor);
      r.0 == s && r.1.Err?
  {
    ReportIsRight(rows, StoredCodes(s.recs, Normalize(masterType)));
    AllRowsValid(rows);
  }

  /** A simple reading of the condition: a code that is stored at all is stored under the row's
      own spelling and has a published version in force, and a new one has no null sort order. */
  lemma SpelledAsStoredAgrees(recs: seq<Rec>, mt: string, row: Row, now: int)
    requires forall i :: 0 <= i < |recs| && HasKey(recs[i], mt, Normalize(row.code.GetOr(""))) ==>
      recs[i].code == RowCode(row) && Hit(recs, mt, row, now)
    requires RowCode(row) !in StoredCodes(recs, mt) ==> !row.sortOrder.Null?
    ensures RowAgrees(recs, StoredCodes(recs, mt), mt, row, now)
  {
  }
}
