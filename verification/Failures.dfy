/** Inputs at which the code does less than it promises, mostly short runs of service calls from
    an empty store. The lemmas named beside them say exactly when this happens. */
module Failures {
  import opened Text
  import opened Records
  import opened Resolution
  import opened Lifecycle
  import opened Calls
  import opened Timeline
  import opened PastReads
  import opened Seeder
  import opened Genesis
  import opened Import
  import opened Listing
  import opened Replay
  import opened ImportRuns
  import opened RoundTrip
  import opened Calendar
  import opened FiscalCalendar
  import opened EnumBridge

  /** A version scheduled for a later date is open beside the one that a further update makes
      before that date (`Succession.UpdateLeavesAnotherOpenExactlyWhen`). */
  lemma ScheduledUpdateLeavesTwoOpen()
    ensures
      var recs := Run(Masters(false), EMPTY, [Step(Creating("Alpha", None, false, "r0"), 1)]
        + ([Step(Updating(Some(9), None, false, "r1"), 2)] + [Step(Updating(None, None, false, "r2"), 3)])).recs;
      |recs| == 3 && SameLine(recs[1], recs[2]) && OpenPublished(recs[1]) && OpenPublished(recs[2])
  {
    var reg := Masters(false);
    var op0, op1 := Creating("Alpha", None, false, "r0"), Updating(Some(9), None, false, "r1");
    var op2 := Updating(None, None, false, "r2");
    var s1 := Next(reg, EMPTY, op0, 1);
    var s2 := Next(reg, s1, op1, 2);
    Spellings();
    CreateFirst(reg, "Alpha", None, false, "r0", 1);
    ResolvePrecedence(s1.recs, "M", "A", 2, None, false, 0);
    UpdateFound(reg, s1, Some(9), None, false, "r1", 2, 0);
    ResolvePrecedence(s2.recs, "M", "A", 3, None, false, 0);
    UpdateFound(reg, s2, None, None, false, "r2", 3, 0);
    RunStep(reg, EMPTY, op0, 1, [Step(op1, 2)] + [Step(op2, 3)]);
    RunStep(reg, s1, op1, 2, [Step(op2, 3)]);
    RunLast(reg, s2, op2, 3);
  }

  /** A tenant's update of a code that only another scope holds takes it away from that scope,
      global or a tenant's: its own lookup now reads the other tenant's version
      (`ReadAfterWrite.UpdateStaysInScopeExactlyWhen`). */
  lemma FallbackUpdateTakesOver(owner: Tenant, tenant: string, t: int)
    requires tenant != "" && owner != Some(tenant) && 2 <= t
    ensures
      var recs := Run(Masters(false), EMPTY, [Step(Creating("Alpha", owner, false, "r0"), 1)]
        + [Step(Updating(None, Some(tenant), false, "r1"), 2)]).recs;
      && |recs| == 2 && recs[0].tenant == owner && !recs[0].isActive && recs[1].tenant == Some(tenant)
      && Resolve(recs, "M", "A", t, owner, false) == Some(1)
  {
    var reg := Masters(false);
    var op0, op1 := Creating("Alpha", owner, false, "r0"), Updating(None, Some(tenant), false, "r1");
    var s1 := Next(reg, EMPTY, op0, 1);
    Spellings();
    CreateFirst(reg, "Alpha", owner, false, "r0", 1);
    assert Matches(s1.recs[0], "M", "A", 2, false);
    UpdateFound(reg, s1, None, Some(tenant), false, "r1", 2, 0);
    RunStep(reg, EMPTY, op0, 1, [Step(op1, 2)]);
    RunLast(reg, s1, op1, 2);
    var recs := Next(reg, s1, op1, 2).recs;
    assert Matches(recs[1], "M", "A", t, false) && !Matches(recs[0], "M", "A", t, false);
  }

  /** The log of that run does not rebuild its store (`Replay.ReplayStepExactlyWhen`). */
  lemma FallbackUpdateIsNotReplayed(owner: Tenant, tenant: string)
    requires tenant != "" && owner != Some(tenant)
    ensures
      var s := Run(Masters(false), EMPTY, [Step(Creating("Alpha", owner, false, "r0"), 1)]
        + [Step(Updating(None, Some(tenant), false, "r1"), 2)]);
      ReplayLog([], s.audits) != s.recs
  {
    var reg := Masters(false);
    var op0, op1 := Creating("Alpha", owner, false, "r0"), Updating(None, Some(tenant), false, "r1");
    var s1 := Next(reg, EMPTY, op0, 1);
    var s2 := Next(reg, s1, op1, 2);
    Spellings();
    CreateFirst(reg, "Alpha", owner, false, "r0", 1);
    assert Matches(s1.recs[0], "M", "A", 2, false);
    UpdateFound(reg, s1, None, Some(tenant), false, "r1", 2, 0);
    RunStep(reg, EMPTY, op0, 1, [Step(op1, 2)]);
    RunLast(reg, s1, op1, 2);
    assert Timelines(s1.recs, 1) && FreshId(s1.recs, "r1");
    ReplayUpdate(reg, s1, op1.update, 1, 2);
    assert !Logged(s1, s2);
    TwoEntries(s1, s2);
  }

  /** Folding a log of two entries, the first of which creates. */
  lemma TwoEntries(s1: State, s2: State)
    requires |s1.audits| == 1 && |s2.audits| == 2 && s2.audits[..1] == s1.audits
    requires ReplayEntry([], s1.audits[0]) == s1.recs && !Logged(s1, s2)
    ensures ReplayLog([], s2.audits) != s2.recs
  {
    assert ReplayLog([], s2.audits[..1]) == ReplayEntry(ReplayLog([], s2.audits[..1][..0]), s2.audits[0]);
  }

  function FirstDrafting(): seq<Step> {
    [Step(Creating("Alpha", None, true, "r0"), 1)] + [Step(Updating(None, None, false, "r1"), 2)]
  }

  function SecondDrafting(): seq<Step> {
    [Step(Updating(None, None, true, "r2"), 3)] + [Step(Updating(None, None, false, "r3"), 4)]
  }

  function Releasing(): seq<Step> {
    [Step(SubmitOp("M", "A", "dev"), 5)]
    + ([Step(ApproveOp("M", "A", "boss"), 6)] + [Step(PublishOp("M", "A", "boss"), 7)])
  }

  /** A closed version, an older draft, the open version, and a later draft, in stored order. */
  predicate InFlight(recs: seq<Rec>) {
    && |recs| == 4 && !OpenActive(recs[0], "M", "A") && recs[0].status.Published?
    && (forall i :: 1 <= i < 4 ==> OpenActive(recs[i], "M", "A") && recs[i].tenant.None?)
    && recs[1].status.Draft? && recs[2].status.Published? && recs[3].status.Draft? && recs[1].id != recs[3].id
  }

  /** An open version and its draft, in stored order. */
  predicate Drafted(recs: seq<Rec>) {
    && |recs| == 2 && recs[0] == First("Alpha", None, "r0", 1)
    && OpenActive(recs[1], "M", "A") && recs[1].tenant.None? && recs[1].status.Draft? && recs[1].id == "r1"
    && recs[1].version == 2
  }

  lemma FirstDraft()
    ensures Drafted(Run(Masters(true), EMPTY, FirstDrafting()).recs)
  {
    var reg := Masters(true);
    var op0, op1 := Creating("Alpha", None, true, "r0"), Updating(None, None, false, "r1");
    var s1 := Next(reg, EMPTY, op0, 1);
    Spellings();
    CreateFirst(reg, "Alpha", None, true, "r0", 1);
    ResolvePrecedence(s1.recs, "M", "A", 2, None, false, 0);
    UpdateFound(reg, s1, None, None, false, "r1", 2, 0);
    RunStep(reg, EMPTY, op0, 1, [Step(op1, 2)]);
    RunLast(reg, s1, op1, 2);
  }

  /** The next version is published past the draft. */
  predicate Overtaken(recs: seq<Rec>) {
    && |recs| == 3 && !OpenActive(recs[0], "M", "A") && recs[0].status.Published? && !recs[0].EffectiveAt(4)
    && OpenActive(recs[1], "M", "A") && recs[1].tenant.None? && recs[1].status.Draft? && recs[1].id == "r1"
    && OpenActive(recs[2], "M", "A") && recs[2].tenant.None? && recs[2].status.Published? && recs[2].EffectiveAt(4)
    && recs[1].version == recs[2].version == 2
  }

  lemma OvertakeDraft(s: State)
    requires Drafted(s.recs)
    ensures Overtaken(Next(Masters(true), s, Updating(None, None, true, "r2"), 3).recs)
  {
    Spellings();
    ResolvePrecedence(s.recs, "M", "A", 3, None, false, 0);
    UpdateFound(Masters(true), s, None, None, true, "r2", 3, 0);
  }

  lemma OvertakingIsResolved(recs: seq<Rec>)
    requires Overtaken(recs)
    ensures Resolve(recs, "M", "A", 4, None, false) == Some(2)
  {
    Spellings();
    assert !Matches(recs[0], "M", "A", 4, false) && !Matches(recs[1], "M", "A", 4, false);
    ResolvePrecedence(recs, "M", "A", 4, None, false, 2);
  }

  lemma DraftAgain(s: State)
    requires Overtaken(s.recs)
    ensures InFlight(Next(Masters(true), s, Updating(None, None, false, "r3"), 4).recs)
  {
    Spellings();
    OvertakingIsResolved(s.recs);
    UpdateFound(Masters(true), s, None, None, false, "r3", 4, 2);
  }

  lemma SecondDraft(s: State)
    requires Drafted(s.recs)
    ensures InFlight(Run(Masters(true), s, SecondDrafting()).recs)
  {
    var reg, op2, op3 := Masters(true), Updating(None, None, true, "r2"), Updating(None, None, false, "r3");
    OvertakeDraft(s);
    DraftAgain(Next(reg, s, op2, 3));
    RunStep(reg, s, op2, 3, [Step(op3, 4)]);
    RunLast(reg, Next(reg, s, op2, 3), op3, 4);
  }

  /** Submitting, approving and publishing then takes the later draft. */
  lemma ReleasingLeavesTwoOpen(reg: Registry, s: State)
    requires InFlight(s.recs)
    ensures
      var recs := Run(reg, s, Releasing()).recs;
      |recs| == 4 && SameLine(recs[2], recs[3]) && OpenPublished(recs[2]) && OpenPublished(recs[3])
  {
    var submit, approve, publish := SubmitOp("M", "A", "dev"), ApproveOp("M", "A", "boss"), PublishOp("M", "A", "boss");
    var s1 := Next(reg, s, submit, 5);
    var s2 := Next(reg, s1, approve, 6);
    Spellings();
    assert InStatus(s.recs[3], "M", "A", Draft);
    assert s1.recs == s.recs[3 := s.recs[3].(status := InReview)];
    assert InStatus(s1.recs[3], "M", "A", InReview);
    assert s2.recs == s1.recs[3 := s1.recs[3].(status := Approved, approvedBy := Some("boss"))];
    assert InStatus(s2.recs[3], "M", "A", Approved);
    assert LatestInStatus(s2.recs, "M", "A", Approved) == Some(3);
    assert OpenActive(s2.recs[1], "M", "A") && !OpenActive(s2.recs[0], "M", "A");
    assert Predecessor(s2.recs, "M", "A", s2.recs[3].id) == Some(1);
    RunStep(reg, s, submit, 5, [Step(approve, 6)] + [Step(publish, 7)]);
    RunStep(reg, s1, approve, 6, [Step(publish, 7)]);
    RunLast(reg, s2, publish, 7);
  }

  /** Two drafts in flight: the publication of the later one closes the older draft in place of
      the open version (`Succession.PublishLeavesOneOpenExactlyWhen`). */
  lemma TwoDraftsLeaveTwoOpen()
    ensures
      var reg := Masters(true);
      var recs := Run(reg, Run(reg, Run(reg, EMPTY, FirstDrafting()), SecondDrafting()), Releasing()).recs;
      |recs| == 4 && SameLine(recs[2], recs[3]) && OpenPublished(recs[2]) && OpenPublished(recs[3])
  {
    var reg := Masters(true);
    FirstDraft();
    var s := Run(reg, EMPTY, FirstDrafting());
    SecondDraft(s);
    ReleasingLeavesTwoOpen(reg, Run(reg, s, SecondDrafting()));
  }

  lemma BlankRecord(recs: seq<Rec>)
    requires recs == [First(" ", None, "r0", 1)]
    ensures Timelines(recs, 1) && GlobalMaster(recs, "M") && IsOpen(recs, "M", 0) && !Importable(recs, "M")
  {
    Spellings();
    assert Strip(" ") == "";
    assert IsOpen(recs, "M", 0);
  }

  /** A record created with a blank display name is exported, and then no row of the export can
      be imported (`RoundTrip.ExportThenImport`). */
  lemma BlankNameBlocksReimport(ticks: seq<Tick>, actor: string)
    requires |ticks| == |Export([First(" ", None, "r0", 1)], "M", 2)|
    ensures
      var s := Run(Masters(false), EMPTY, [Step(Creating(" ", None, false, "r0"), 1)]);
      var rows := Export(s.recs, "M", 2);
      && |rows| == |ticks| > 0
      && var r := ImportData(Masters(false), s, "M", rows, ticks, actor);
         r.0 == s && r.1.Err?
  {
    var reg, op := Masters(false), Creating(" ", None, false, "r0");
    var s := Next(reg, EMPTY, op, 1);
    RunLast(reg, EMPTY, op, 1);
    CreateFirst(reg, " ", None, false, "r0", 1);
    Spellings();
    BlankRecord(s.recs);
    ExportIsComplete(s.recs, "M", 1, 2);
    assert ExportRow(s.recs[0]) in Export(s.recs, "M", 2);
    ExportIsValidExactlyWhen(s.recs, "M", 1, 2);
    ImportRunsExactlyWhen(reg, s, "M", Export(s.recs, "M", 2), ticks, actor);
  }

  function Item(name: string): seq<Job> {
    [Job("M", SeedItem("A", Titled(name), None))]
  }

  /** The store after seeding "A" and updating it. */
  function UpdatedSeed(): State {
    Next(Masters(false), State([SeededRecord(Item("Alpha")[0], "s0")], []), Updating(None, None, false, "r1"), 5)
  }

  lemma UpdatedSeedIs()
    ensures
      var recs := UpdatedSeed().recs;
      && Timelines(recs, 5) && FreshId(recs, "s1") && GlobalIndex(recs, "M", "A") == Some(0)
      && recs[0] == Close(SeededRecord(Item("Alpha")[0], "s0"), 5)
  {
    var seeded, op := State([SeededRecord(Item("Alpha")[0], "s0")], []), Updating(None, None, false, "r1");
    Spellings();
    assert Matches(seeded.recs[0], "M", "A", 5, false);
    ResolvePrecedence(seeded.recs, "M", "A", 5, None, false, 0);
    UpdateFound(Masters(false), seeded, None, None, false, "r1", 5, 0);
    OwnScopeUpdateFits(Masters(false), seeded, op.update, 0, 5);
    UpdateKeepsExactlyWhen(Masters(false), seeded, op.update, 0, 5);
    assert IsGlobal(UpdatedSeed().recs[0], "M", "A");
  }

  lemma SeededFirst()
    ensures SeedAll([], Item("Alpha"), ["s0"]).recs == [SeededRecord(Item("Alpha")[0], "s0")]
  {
    assert Item("Alpha")[..0] == [] && GlobalIndex([], "M", "A").None?;
  }

  lemma ReseedBreaksTimelines(recs: seq<Rec>)
    requires Timelines(recs, 5) && FreshId(recs, "s1") && GlobalIndex(recs, "M", "A") == Some(0) && !recs[0].isActive
    ensures !Timelines(SeedAll(recs, Item("Alpha"), ["s1"]).recs, 5)
  {
    assert !FlagFits(recs, Item("Alpha"), 0);
    SeedKeepsTimelinesExactlyWhen(recs, Item("Alpha"), ["s1"], 5);
  }

  lemma ReseedRewritesPast(recs: seq<Rec>)
    requires GlobalIndex(recs, "M", "A") == Some(0) && VisibleAt(recs[0], 3) && recs[0].content.displayName == "Alpha"
    ensures !StableAt(recs, SeedAll(recs, Item("Beta"), ["s1"]).recs, 3)
  {
    assert "Alpha"[0] != "Beta"[0];
    assert !LeavesPast(recs, Item("Beta"), 0, 3);
    SeedKeepsPastExactlyWhen(recs, Item("Beta"), ["s1"], 3);
  }

  /** Seeding again after an update finds the closed first version: the same seed data mark it as
      active again, and new seed data rewrite what was read in the past
      (`Genesis.SeedKeepsTimelinesExactlyWhen`, `Genesis.SeedKeepsPastExactlyWhen`). */
  lemma ReseedAfterUpdateBreaks()
    ensures
      var seeded := State(SeedAll([], Item("Alpha"), ["s0"]).recs, []);
      var recs := Run(Masters(false), seeded, [Step(Updating(None, None, false, "r1"), 5)]).recs;
      && Timelines(recs, 5)
      && !Timelines(SeedAll(recs, Item("Alpha"), ["s1"]).recs, 5)
      && !StableAt(recs, SeedAll(recs, Item("Beta"), ["s1"]).recs, 3)
  {
    SeededFirst();
    RunLast(Masters(false), State(SeedAll([], Item("Alpha"), ["s0"]).recs, []), Updating(None, None, false, "r1"), 5);
    UpdatedSeedIs();
    ReseedBreaksTimelines(UpdatedSeed().recs);
    ReseedRewritesPast(UpdatedSeed().recs);
  }

  /** Two items of one code contradict each other, so a second run writes again
      (`Seeder.SeedingIsIdempotentExactlyWhen`). */
  lemma ContradictingItemsAreReseeded(ids: seq<string>, ids': seq<string>)
    requires |ids| >= 2 && |ids'| >= 2
    ensures
      var jobs := Item("Alpha") + Item("Beta");
      var first := SeedAll([], jobs, ids);
      SeedAll(first.recs, jobs, ids') != Seeded(first.recs, 0, 0, 2)
  {
    var jobs := Item("Alpha") + Item("Beta");
    assert "Alpha"[0] != "Beta"[0];
    assert SameTarget(jobs[0], jobs[1]) && !SameDemand(jobs[0], jobs[1]);
    SeedingIsIdempotentExactlyWhen([], jobs, ids, ids');
  }

  /** A code that a user created stays a user's record when it is seeded
      (`Seeder.SeededRowIsSystemExactlyWhen`). */
  lemma SeededUserRecordIsNoSystemRecord()
    ensures
      var recs := Run(Masters(false), EMPTY, [Step(Creating("Alpha", None, false, "r0"), 1)]).recs;
      var recs' := SeedAll(recs, Item("Beta"), ["s0"]).recs;
      var found := GlobalIndex(recs', "M", "A");
      found.Some? && !recs'[found.value].isSystem
  {
    CreateFirst(Masters(false), "Alpha", None, false, "r0", 1);
    RunLast(Masters(false), EMPTY, Creating("Alpha", None, false, "r0"), 1);
    var recs := [First("Alpha", None, "r0", 1)];
    assert IsGlobal(recs[0], "M", "A");
    SeededRowIsSystemExactlyWhen(recs, Item("Beta"), ["s0"], 0);
  }

  /** A code seeded as inactive can be created once more
      (`Succession.CreateLeavesAnotherOpenExactlyWhen`). */
  lemma CreationBesideInactiveSeed()
    ensures
      var seeded := State(SeedAll([], [Job("M", SeedItem("A", Titled("Alpha"), Some(false)))], ["s0"]).recs, []);
      var recs := Run(Masters(false), seeded, [Step(Creating("Alpha", None, false, "r0"), 1)]).recs;
      |recs| == 2 && SameLine(recs[0], recs[1]) && OpenPublished(recs[0]) && OpenPublished(recs[1])
  {
    var jobs := [Job("M", SeedItem("A", Titled("Alpha"), Some(false)))];
    var seeded := State(SeedAll([], jobs, ["s0"]).recs, []);
    assert jobs[..0] == [] && GlobalIndex([], "M", "A").None?;
    assert seeded.recs == [SeededRecord(jobs[0], "s0")];
    Spellings();
    RunLast(Masters(false), seeded, Creating("Alpha", None, false, "r0"), 1);
  }

  function RowOf(code: string): Row {
    Row(Some(code), Some("Alpha"), None, Absent, None, None)
  }

  lemma RowSpellings()
    ensures RowCode(RowOf("A")) == "A" && RowKey(RowOf("A")) == "A" && ValidRow(RowOf("A"))
    ensures RowCode(RowOf("a")) == "a" && RowKey(RowOf("a")) == "A" && ValidRow(RowOf("a")) && "a" != "A"
  {
    Spellings();
    assert Strip("a") == "a" && Upper("a") == "A" && "a"[0] != "A"[0];
    assert Strip("Alpha") == "Alpha";
  }

  /** After a creation of "A", a row for "a" is announced as an addition and performed as an update
      (`Import.DryRunPredictsExactlyWhen`). */
  lemma OtherCaseIsPredictedWrongly(actor: string)
    ensures
      var s := Run(Masters(false), EMPTY, [Step(Creating("Alpha", None, false, "r0"), 1)]);
      var d := Report([RowOf("a")], StoredCodes(s.recs, "M"));
      && (d.toAdd, d.toUpdate) == (1, 0)
      && ImportData(Masters(false), s, "M", [RowOf("a")], [Tick(2, "r1")], actor).1 == Ok((0, 1))
  {
    var reg := Masters(false);
    var s := Next(reg, EMPTY, Creating("Alpha", None, false, "r0"), 1);
    RunLast(reg, EMPTY, Creating("Alpha", None, false, "r0"), 1);
    CreateFirst(reg, "Alpha", None, false, "r0", 1);
    Spellings();
    RowSpellings();
    assert [RowOf("a")][..0] == [];
    assert Matches(s.recs[0], "M", "A", 2, false);
    OneRow(reg, s, RowOf("a"), Tick(2, "r1"), actor);
    ImportRunsExactlyWhen(reg, s, "M", [RowOf("a")], [Tick(2, "r1")], actor);
    OneCounts(Updated);
  }

  lemma TwoAnnounced()
    ensures
      var d := Report([RowOf("A"), RowOf("A")], {});
      (d.toAdd, d.toUpdate) == (2, 0)
  {
    var rows := [RowOf("A"), RowOf("A")];
    RowSpellings();
    assert rows[..1] == [RowOf("A")] && [RowOf("A")][..0] == [];
    assert Report([RowOf("A")], {}) == NextReport(Report([], {}), RowOf("A"), {});
  }

  lemma TwoRows(reg: Registry, row: Row, ticks: seq<Tick>, actor: string)
    requires |ticks| == 2 && ImportRow(reg, EMPTY, "M", row, ticks[0], actor).Ok?
    ensures
      var first := ImportRow(reg, EMPTY, "M", row, ticks[0], actor).value;
      match ImportRow(reg, first.0, "M", row, ticks[1], actor)
      case Ok((s, action)) => ImportRows(reg, EMPTY, "M", [row, row], ticks, actor)
        == Imported(s, [first.1, action], None)
      case Err(e) => ImportRows(reg, EMPTY, "M", [row, row], ticks, actor) == Imported(first.0, [first.1], Some(e))
  {
    var first := ImportRow(reg, EMPTY, "M", row, ticks[0], actor).value;
    assert [row, row][1..] == [row] && ticks[1..] == [ticks[1]];
    if ImportRow(reg, first.0, "M", row, ticks[1], actor).Ok? { OneRow(reg, first.0, row, ticks[1], actor); }
  }

  /** A batch that names a new code twice is announced as two additions and performed as an
      addition and an update (`Import.DryRunPredictsExactlyWhen`). */
  lemma RepeatedCodeIsPredictedWrongly(actor: string)
    ensures
      var d := Report([RowOf("A"), RowOf("A")], StoredCodes(EMPTY.recs, "M"));
      && (d.toAdd, d.toUpdate) == (2, 0)
      && ImportData(Masters(false), EMPTY, "M", [RowOf("A"), RowOf("A")], [Tick(1, "r0"), Tick(2, "r1")], actor).1
        == Ok((1, 1))
  {
    var ticks := [Tick(1, "r0"), Tick(2, "r1")];
    assert StoredCodes(EMPTY.recs, "M") == {};
    TwoAnnounced();
    AddedThenUpdated(ticks, actor);
    TwoValidRows(Masters(false), ticks, actor);
    OneOfEach(ImportRows(Masters(false), EMPTY, "M", [RowOf("A"), RowOf("A")], ticks, actor));
  }

  lemma OneOfEach(imported: Imported)
    requires imported.actions == [Added, Updated] && imported.failure.None?
    ensures Counts(imported) == Ok((1, 1))
  {
    assert [Added, Updated] == [Added] + [Updated];
    OneCounts(Added);
    CountGrows([Added], Updated, Added);
    CountGrows([Added], Updated, Updated);
  }

  lemma TwoValidRows(reg: Registry, ticks: seq<Tick>, actor: string)
    requires "M" in reg && |ticks| == 2
    ensures
      var imported := ImportRows(reg, EMPTY, "M", [RowOf("A"), RowOf("A")], ticks, actor);
      ImportData(reg, EMPTY, "M", [RowOf("A"), RowOf("A")], ticks, actor) == (imported.state, Counts(imported))
  {
    Spellings();
    RowSpellings();
    ImportRunsExactlyWhen(reg, EMPTY, "M", [RowOf("A"), RowOf("A")], ticks, actor);
  }

  lemma AddedThenUpdated(ticks: seq<Tick>, actor: string)
    requires ticks == [Tick(1, "r0"), Tick(2, "r1")]
    ensures
      var imported := ImportRows(Masters(false), EMPTY, "M", [RowOf("A"), RowOf("A")], ticks, actor);
      imported.actions == [Added, Updated] && imported.failure.None?
  {
    Spellings();
    RowSpellings();
    var s := ImportRow(Masters(false), EMPTY, "M", RowOf("A"), ticks[0], actor).value.0;
    assert Matches(s.recs[0], "M", "A", 2, false);
    TwoRows(Masters(false), RowOf("A"), ticks, actor);
  }

  /** On a master that requires approval the second row fails, and the first stays imported. */
  lemma RepeatedCodeFailsHalfWay(actor: string)
    ensures
      var r := ImportData(Masters(true), EMPTY, "M", [RowOf("A"), RowOf("A")], [Tick(1, "r0"), Tick(2, "r1")], actor);
      r.1 == Err(AlreadyExists) && |r.0.recs| == 1
  {
    var ticks := [Tick(1, "r0"), Tick(2, "r1")];
    DraftedThenRefused(ticks, actor);
    TwoValidRows(Masters(true), ticks, actor);
  }

  lemma DraftedThenRefused(ticks: seq<Tick>, actor: string)
    requires ticks == [Tick(1, "r0"), Tick(2, "r1")]
    ensures
      var imported := ImportRows(Masters(true), EMPTY, "M", [RowOf("A"), RowOf("A")], ticks, actor);
      imported.failure == Some(AlreadyExists) && |imported.state.recs| == 1
  {
    Spellings();
    RowSpellings();
    var s := ImportRow(Masters(true), EMPTY, "M", RowOf("A"), ticks[0], actor).value.0;
    assert IsActive(s.recs[0], "M", "A", None) && !Matches(s.recs[0], "M", "A", 2, false);
    TwoRows(Masters(true), RowOf("A"), ticks, actor);
  }

  lemma UntrimmedRecord(recs: seq<Rec>)
    requires recs == [SeededRecord(Untrimmed(), "s0")]
    ensures Timelines(recs, 1) && GlobalMaster(recs, "M") && Importable(recs, "M") && !Trimmed(recs, "M")
  {
    assert Strip(" A") == "A" && Strip("Alpha") == "Alpha";
    assert IsOpen(recs, "M", 0);
  }

  lemma UntrimmedSeeds()
    ensures SeedAll([], [Untrimmed()], ["s0"]).recs == [SeededRecord(Untrimmed(), "s0")]
  {
    assert [Untrimmed()][..0] == [] && GlobalIndex([], "M", " A").None?;
  }

  /** A code seeded with a blank before it is exported, but importing the export does not give it
      its next version (`RoundTrip.ExportThenImport`). */
  lemma UntrimmedSeedIsNotReimported(s: State, ticks: seq<Tick>, actor: string)
    requires s.recs == SeedAll([], [Untrimmed()], ["s0"]).recs
    requires |ticks| == |Export(s.recs, "M", 1)| && FreshTicks(s.recs, ticks, 1)
    ensures
      var r := ImportData(Masters(false), s, "M", Export(s.recs, "M", 1), ticks, actor);
      r.1.Ok? && !(r.1.value == (0, |ticks|) && Reimported(s.recs, r.0.recs, "M", 1, LastReading(ticks, 1)))
  {
    UntrimmedSeeds();
    UntrimmedRecord(s.recs);
    Spellings();
    ExportThenImport(Masters(false), s, "M", ticks, actor, 1, 1, LastReading(ticks, 1));
  }

  function Untrimmed(): Job {
    Job("M", SeedItem(" A", Titled("Alpha"), None))
  }

  /** A global "A" beside a tenant's "a": the lookup finds the tenant's, the list shows both
      (`Listing.ListRefinesGetExactlyWhen`). */
  lemma ListTellsSpellingsApart(t: int)
    requires 2 <= t
    ensures
      var other := CreateOp(CreateArgs("M", "a", Titled("Alpha"), Some("T"), "dev", false, false, "r1"));
      var recs := Run(Masters(false), EMPTY, [Step(Creating("Alpha", None, false, "r0"), 1)] + [Step(other, 2)]).recs;
      var list := ListRecords(recs, "M", t, Some("T"), false);
      && |recs| == 2 && Resolve(recs, "M", "A", t, Some("T"), false) == Some(1)
      && recs[0] in list && recs[1] in list
  {
    var reg := Masters(false);
    var op0 := Creating("Alpha", None, false, "r0");
    var op1 := CreateOp(CreateArgs("M", "a", Titled("Alpha"), Some("T"), "dev", false, false, "r1"));
    var s1 := Next(reg, EMPTY, op0, 1);
    Spellings();
    assert Strip("a") == "a" && Upper("a") == "A";
    CreateFirst(reg, "Alpha", None, false, "r0", 1);
    RunStep(reg, EMPTY, op0, 1, [Step(op1, 2)]);
    RunLast(reg, s1, op1, 2);
    TwoSpellings(Next(reg, s1, op1, 2).recs, t);
  }

  lemma TwoSpellings(recs: seq<Rec>, t: int)
    requires |recs| == 2 && recs[0] == First("Alpha", None, "r0", 1)
    requires recs[1] == First("Alpha", Some("T"), "r1", 2).(code := "a") && 2 <= t
    ensures
      var list := ListRecords(recs, "M", t, Some("T"), false);
      Resolve(recs, "M", "A", t, Some("T"), false) == Some(1) && recs[0] in list && recs[1] in list
  {
    Spellings();
    assert Upper("a") == "A" && "a"[0] != "A"[0];
    assert Matches(recs[1], "M", "A", t, false);
    ResolvePrecedence(recs, "M", "A", t, Some("T"), false, 1);
    ListCollects(recs, "M", t, Some("T"), false);
    BothListed(recs, ListRecords(recs, "M", t, Some("T"), false), t);
  }

  lemma BothListed(recs: seq<Rec>, list: seq<Rec>, t: int)
    requires Collected(list, recs, "M", t, Some("T"), false) && |recs| == 2 && recs[0].code != recs[1].code
    requires Listed(recs[0], "M", t, false) && Listed(recs[1], "M", t, false)
    ensures recs[0] in list && recs[1] in list
  {
    assert HasCode(list, recs[0].code) && HasCode(list, recs[1].code);
  }

  /** A code created again after its deactivation starts once more at version 1
      (`Versions.VersionsRiseExactlyWhen`). */
  lemma RecreationRestartsNumbers()
    ensures
      var recs := Run(Masters(false), EMPTY, [Step(Creating("Alpha", None, false, "r0"), 1)]
        + ([Step(DeactivateOp("M", "A", "dev", 0), 2)] + [Step(Creating("Alpha", None, false, "r1"), 3)])).recs;
      |recs| == 2 && SameLine(recs[0], recs[1]) && recs[0].version == recs[1].version == 1
  {
    var reg := Masters(false);
    var op0, op1 := Creating("Alpha", None, false, "r0"), DeactivateOp("M", "A", "dev", 0);
    var op2 := Creating("Alpha", None, false, "r1");
    var s1 := Next(reg, EMPTY, op0, 1);
    var s2 := Next(reg, s1, op1, 2);
    Spellings();
    CreateFirst(reg, "Alpha", None, false, "r0", 1);
    assert Matches(s1.recs[0], "M", "A", 2, false);
    ResolvePrecedence(s1.recs, "M", "A", 2, None, false, 0);
    assert s2.recs == [Close(s1.recs[0], 2)];
    RunStep(reg, EMPTY, op0, 1, [Step(op1, 2)] + [Step(op2, 3)]);
    RunStep(reg, s1, op1, 2, [Step(op2, 3)]);
    RunLast(reg, s2, op2, 3);
  }

  /** A direct update while a draft is in flight makes a second version of the draft's number
      (`Versions.VersionsRiseExactlyWhen`). */
  lemma OvertakenDraftSharesNumber()
    ensures
      var reg := Masters(true);
      var recs := Run(reg, Run(reg, EMPTY, FirstDrafting()), [Step(Updating(None, None, true, "r2"), 3)]).recs;
      |recs| == 3 && SameLine(recs[1], recs[2]) && recs[1].version == recs[2].version == 2
  {
    FirstDraft();
    var s := Run(Masters(true), EMPTY, FirstDrafting());
    OvertakeDraft(s);
    RunLast(Masters(true), s, Updating(None, None, true, "r2"), 3);
  }

  /** With a fiscal year that starts on day 15, 1 March 2024 gets a period that does not hold it
      (`FiscalCalendar.LookupInvertsExactlyWhen`). */
  lemma DayBeforeStartGetsAnotherPeriod()
    ensures
      var d := Date(2024, 3, 1);
      var r := Lookup(Settings(1, 15), d);
      r.Ok? && !Contains(r.value, d)
  {
    LookupResult(Settings(1, 15), Date(2024, 3, 1));
    LookupInvertsExactlyWhen(Settings(1, 15), Date(2024, 3, 1));
  }

  /** Two codes with one member key: the generated enumeration fails its own check
      (`EnumBridge.GeneratedEnumValidatesExactlyWhen`). */
  lemma OneKeyForTwoCodes(enumName: string)
    ensures !InSync(GeneratedBinding(enumName, [MasterValue("A-B", true), MasterValue("A_B", true)]))
  {
    var records := [MasterValue("A-B", true), MasterValue("A_B", true)];
    assert records[0].code == "A-B" && records[1].code == "A_B" && "A-B"[1] != "A_B"[1];
    assert Upper("A-B") == "A-B" && Upper("A_B") == "A_B" && Strip("A-B") == "A-B" && Strip("A_B") == "A_B";
    assert Mangle("A-B") == Mangle("A_B");
    assert "A-B" in ActiveCodes(records) && "A_B" in ActiveCodes(records);
    GeneratedEnumValidatesExactlyWhen(enumName, records);
  }
}
