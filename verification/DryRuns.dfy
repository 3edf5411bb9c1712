/** What a dry run says, told by the fields of the rows and the stored records. */
module DryRuns {
  import opened Text
  import opened Records
  import opened Lifecycle
  import opened Import

  predicate Complete(row: Row) {
    && row.code.Some? && Strip(row.code.value) != ""
    && row.displayName.Some? && Strip(row.displayName.value) != ""
  }

  lemma ValidIsComplete(row: Row)
    ensures ValidRow(row) <==> Complete(row)
    ensures Complete(row) ==> RowCode(row) == Strip(row.code.value) && RowName(row) == Strip(row.displayName.value)
  {
  }

  /** `at` are the positions of the complete rows among the first `n`, in order. */
  predicate CompleteRows(rows: seq<Row>, n: nat, at: seq<nat>) {
    && n <= |rows|
    && (forall j, k :: 0 <= j < k < |at| ==> at[j] < at[k])
    && (forall j :: 0 <= j < |at| ==> at[j] < n && Complete(rows[at[j]]))
    && (forall k :: 0 <= k < n && Complete(rows[k]) ==> k in at)
  }

  lemma {:induction false} ValidRowsInOrder(rows: seq<Row>, n: nat) returns (at: seq<nat>)
    requires n <= |rows|
    ensures CompleteRows(rows, n, at)
    ensures |ValidRows(rows[..n])| == |at| && forall j :: 0 <= j < |at| ==> ValidRows(rows[..n])[j] == rows[at[j]]
  {
    at := [];
    if n > 0 {
      at := ValidRowsInOrder(rows, n - 1);
      ValidIsComplete(rows[n - 1]);
      assert rows[..n][..n - 1] == rows[..n - 1];
      if Complete(rows[n - 1]) { at := at + [n - 1]; }
    }
  }

  /** Some stored record of the master has exactly the row's code, trimmed. */
  ghost predicate IsStored(recs: seq<Rec>, mt: string, row: Row) {
    row.code.Some? && exists i :: 0 <= i < |recs| && recs[i].masterType == mt && recs[i].code == Strip(row.code.value)
  }

  lemma StoredIsUpdated(recs: seq<Rec>, mt: string, row: Row)
    requires Complete(row)
    ensures Prediction(row, StoredCodes(recs, mt)) == if IsStored(recs, mt, row) then Updated else Added
  {
    assert RowCode(row) in StoredCodes(recs, mt) <==> IsStored(recs, mt, row);
  }

  lemma {:induction false} CountIsNumber(actions: seq<RowAction>, a: RowAction)
    ensures Count(actions, a) == |set k | 0 <= k < |actions| && actions[k] == a|
  {
    if actions != [] {
      var n := |actions| - 1;
      var before := set k | 0 <= k < n && actions[..n][k] == a;
      CountIsNumber(actions[..n], a);
      assert (set k | 0 <= k < |actions| && actions[k] == a) == before + if actions[n] == a then {n} else {};
    }
  }

  /** The complete rows whose code is stored, or is not. */
  ghost function Rows(rows: seq<Row>, recs: seq<Rec>, mt: string, stored: bool): set<nat> {
    set k | 0 <= k < |rows| && Complete(rows[k]) && IsStored(recs, mt, rows[k]) == stored
  }

  lemma {:induction false} RowsAreCounted(rows: seq<Row>, recs: seq<Rec>, mt: string, a: RowAction)
    ensures Count(Predictions(ValidRows(rows), StoredCodes(recs, mt)), a) == |Rows(rows, recs, mt, a.Updated?)|
  {
    var codes := StoredCodes(recs, mt);
    if rows != [] {
      var n := |rows| - 1;
      var valid, row := ValidRows(rows[..n]), rows[n];
      RowsAreCounted(rows[..n], recs, mt, a);
      RowsGrow(rows, recs, mt, a.Updated?);
      ValidIsComplete(row);
      if Complete(row) {
        StoredIsUpdated(recs, mt, row);
        assert Predictions(valid + [row], codes) == Predictions(valid, codes) + [Prediction(row, codes)];
        CountGrows(Predictions(valid, codes), Prediction(row, codes), a);
      } else {
        assert ValidRows(rows) == valid;
      }
    }
  }

  lemma RowsGrow(rows: seq<Row>, recs: seq<Rec>, mt: string, stored: bool)
    requires rows != []
    ensures
      var n := |rows| - 1;
      var more := Complete(rows[n]) && IsStored(recs, mt, rows[n]) == stored;
      |Rows(rows, recs, mt, stored)| == |Rows(rows[..n], recs, mt, stored)| + if more then 1 else 0
  {
    var n := |rows| - 1;
    var more := Complete(rows[n]) && IsStored(recs, mt, rows[n]) == stored;
    assert forall k :: 0 <= k < n ==> rows[..n][k] == rows[k];
    assert Rows(rows, recs, mt, stored) == Rows(rows[..n], recs, mt, stored) + if more then {n} else {};
  }

  /** An error is of a row of the batch, numbered from 1, and says what that row lacks. */
  predicate ErrorTells(e: RowError, rows: seq<Row>) {
    && 1 <= e.rowIndex <= |rows| && (e.missingCode || e.missingName)
    && var row := rows[e.rowIndex - 1];
       && e.missingCode == (row.code.None? || Strip(row.code.value) == "")
       && e.missingName == (row.displayName.None? || Strip(row.displayName.value) == "")
  }

  ghost predicate HasError(errors: seq<RowError>, k: int) {
    exists i :: 0 <= i < |errors| && errors[i].rowIndex == k + 1
  }

  lemma NextErrors(d: DryRun, row: Row, codes: set<string>)
    ensures
      var errors := NextReport(d, row, codes).errors;
      && d.errors <= errors
      && (!Complete(row) ==> |errors| == |d.errors| + 1 && errors[|d.errors|].rowIndex == d.totalRows + 1)
  {
    ValidIsComplete(row);
  }

  /** Every row that is not complete has its error. */
  lemma {:induction false} ErrorsAreComplete(rows: seq<Row>, codes: set<string>, k: nat)
    requires k < |rows| && !Complete(rows[k])
    ensures HasError(Report(rows, codes).errors, k)
  {
    var n := |rows| - 1;
    var front, errors := Report(rows[..n], codes), Report(rows, codes).errors;
    NextErrors(front, rows[n], codes);
    if k < n {
      ErrorsAreComplete(rows[..n], codes, k);
      var i :| 0 <= i < |front.errors| && front.errors[i].rowIndex == k + 1;
      assert errors[i].rowIndex == k + 1;
    } else {
      ReportIsRight(rows[..n], codes);
      assert errors[|front.errors|].rowIndex == k + 1;
    }
  }

  /** The errors of any batch: one for each row that is not complete, in order. */
  lemma ErrorsTell(rows: seq<Row>, codes: set<string>)
    ensures
      var errors := Report(rows, codes).errors;
      && (forall j, k :: 0 <= j < k < |errors| ==> errors[j].rowIndex < errors[k].rowIndex)
      && (forall j :: 0 <= j < |errors| ==> ErrorTells(errors[j], rows))
      && forall k :: 0 <= k < |rows| ==> (HasError(errors, k) <==> !Complete(rows[k]))
  {
    var errors := Report(rows, codes).errors;
    ReportIsRight(rows, codes);
    forall j | 0 <= j < |errors| ensures ErrorTells(errors[j], rows) {
      assert ErrorFits(errors[j], rows);
    }
    forall k | 0 <= k < |rows| ensures HasError(errors, k) <==> !Complete(rows[k]) {
      if !Complete(rows[k]) { ErrorsAreComplete(rows, codes, k); }
    }
  }

  predicate Shows(p: (string, string, RowAction), row: Row, action: RowAction) {
    Complete(row) && p == (Strip(row.code.value), Strip(row.displayName.value), action)
  }

  /** The counts and the preview of any batch: complete rows are counted by whether their code is
      stored as spelled, and the first five of them are previewed. */
  lemma DryRunTells(rows: seq<Row>, recs: seq<Rec>, mt: string) returns (at: seq<nat>)
    ensures CompleteRows(rows, |rows|, at)
    ensures
      var d := Report(rows, StoredCodes(recs, mt));
      && d.totalRows == |rows| && d.validRows == |at| && d.invalidRows == |d.errors| == |rows| - |at|
      && d.toAdd == |Rows(rows, recs, mt, false)| && d.toUpdate == |Rows(rows, recs, mt, true)|
      && |d.preview| == (if |at| < 5 then |at| else 5)
      && forall j :: 0 <= j < |d.preview| ==>
           Shows(d.preview[j], rows[at[j]], if IsStored(recs, mt, rows[at[j]]) then Updated else Added)
  {
    var codes := StoredCodes(recs, mt);
    var d := Report(rows, codes);
    at := ValidRowsInOrder(rows, |rows|);
    assert rows[..|rows|] == rows;
    ReportIsRight(rows, codes);
    RowsAreCounted(rows, recs, mt, Added);
    RowsAreCounted(rows, recs, mt, Updated);
    forall j | 0 <= j < |d.preview|
      ensures Shows(d.preview[j], rows[at[j]], if IsStored(recs, mt, rows[at[j]]) then Updated else Added)
    {
      assert ValidRows(rows)[j] == rows[at[j]];
      ValidIsComplete(rows[at[j]]);
      StoredIsUpdated(recs, mt, rows[at[j]]);
    }
  }

  /** An import with a row that is not complete, or of no registered master, changes nothing and says
      how many such rows there are. */
  lemma ImportIsRefused(reg: Registry, s: State, masterType: string, rows: seq<Row>, ticks: seq<Tick>, actor: string)
    returns (at: seq<nat>)
    requires |rows| == |ticks|
    ensures CompleteRows(rows, |rows|, at)
    ensures
      var r := ImportData(reg, s, masterType, rows, ticks, actor);
      && (Upper(Strip(masterType)) !in reg ==> r == (s, Err(NotRegistered)))
      && (Upper(Strip(masterType)) in reg && |at| < |rows| ==> r == (s, Err(ImportInvalid(|rows| - |at|))))
  {
    at := DryRunTells(rows, s.recs, Normalize(masterType));
  }
}
