/** What seeding does to the timelines and to the past: exactly which seed data give a store with
    sound timelines, from an empty store or on top of one already in use. */
module Genesis {
  import opened Text
  import opened Records
  import opened Lifecycle
  import opened Timeline
  import opened PastReads
  import opened Seeder

  predicate DistinctStrings(ids: seq<string>) {
    forall i, j :: 0 <= i < j < |ids| ==> ids[i] != ids[j]
  }

  /** No global record of the job's code is stored, so the loader will create one. */
  predicate IsNew(recs: seq<Rec>, job: Job) {
    GlobalIndex(recs, job.master, job.item.code).None?
  }

  predicate Targets(job: Job, r: Rec) {
    IsGlobal(r, job.master, job.item.code)
  }

  /** What the records after the base are: one for each new code, made by some job. */
  ghost predicate Created(recs: seq<Rec>, recs': seq<Rec>, jobs: seq<Job>, ids: seq<string>)
    requires |jobs| <= |ids|
  {
    && |recs| <= |recs'|
    && (forall i :: |recs| <= i < |recs'| ==> MadeByJob(recs, recs'[i], jobs, ids))
    && CodesApart(recs', |recs|)
  }

  /** No two records from position `n` on have one type and code. */
  ghost predicate CodesApart(recs: seq<Rec>, n: nat) {
    forall i, j :: n <= i < j < |recs| ==> recs[i].masterType != recs[j].masterType || recs[i].code != recs[j].code
  }

  ghost predicate MadeByJob(recs: seq<Rec>, r: Rec, jobs: seq<Job>, ids: seq<string>)
    requires |jobs| <= |ids|
  {
    exists k :: 0 <= k < |jobs| && IsNew(recs, jobs[k]) && Targets(jobs[k], r) && r.id == ids[k]
  }

  /** A base record either is as it was or is the one that some job found. */
  ghost predicate Refreshed(recs: seq<Rec>, recs': seq<Rec>, jobs: seq<Job>) {
    && |recs| <= |recs'|
    && forall i :: 0 <= i < |recs| && recs'[i] != recs[i] ==> Found(recs, jobs, i)
  }

  ghost predicate Found(recs: seq<Rec>, jobs: seq<Job>, i: nat) {
    exists k :: 0 <= k < |jobs| && GlobalIndex(recs, jobs[k].master, jobs[k].item.code) == Some(i)
  }

  /** Seeding keeps who is global under which code, so a search of the base finds the same. */
  lemma SearchKept(recs: seq<Rec>, recs': seq<Rec>, job: Job)
    requires |recs| <= |recs'| && forall i :: 0 <= i < |recs| ==> Kept(recs[i], recs'[i])
    ensures
      var before := GlobalIndex(recs, job.master, job.item.code);
      var after := GlobalIndex(recs', job.master, job.item.code);
      && (before.Some? ==> after == before)
      && (before.None? && after.Some? ==> after.value >= |recs|)
  {
    forall i | 0 <= i < |recs| ensures Targets(job, recs[i]) == Targets(job, recs'[i]) {
      assert Kept(recs[i], recs'[i]);
    }
    var before := GlobalIndex(recs, job.master, job.item.code);
    if before.Some? {
      assert Targets(job, recs'[before.value]);
    }
  }

  lemma StepMakes(recs: seq<Rec>, s: Seeded, s': Seeded, front: seq<Job>, job: Job, ids: seq<string>, i: nat)
    requires |front| < |ids| && Created(recs, s.recs, front, ids)
    requires forall j :: 0 <= j < |recs| ==> Kept(recs[j], s.recs[j])
    requires s' == SeedStep(s, job, ids[|front|]) && |recs| <= i < |s'.recs|
    ensures MadeByJob(recs, s'.recs[i], front + [job], ids)
  {
    var jobs := front + [job];
    if i < |s.recs| {
      assert MadeByJob(recs, s.recs[i], front, ids);
      var k :| 0 <= k < |front| && IsNew(recs, front[k]) && Targets(front[k], s.recs[i]) && s.recs[i].id == ids[k];
      assert jobs[k] == front[k] && Targets(jobs[k], s'.recs[i]);
    } else {
      SearchKept(recs, s.recs, job);
      assert jobs[|front|] == job && IsNew(recs, job);
    }
  }

  lemma StepKeepsCodesApart(s: Seeded, job: Job, id: string, n: nat)
    requires n <= |s.recs| && forall i :: n <= i < |s.recs| ==> s.recs[i].tenant.None?
    requires CodesApart(s.recs, n)
    ensures CodesApart(SeedStep(s, job, id).recs, n)
  {
  }

  lemma StepCreates(recs: seq<Rec>, s: Seeded, s': Seeded, front: seq<Job>, job: Job, ids: seq<string>)
    requires |front| < |ids| && Created(recs, s.recs, front, ids)
    requires forall i :: 0 <= i < |recs| ==> Kept(recs[i], s.recs[i])
    requires s' == SeedStep(s, job, ids[|front|])
    ensures Created(recs, s'.recs, front + [job], ids)
  {
    forall i | |recs| <= i < |s'.recs| ensures MadeByJob(recs, s'.recs[i], front + [job], ids) {
      StepMakes(recs, s, s', front, job, ids, i);
    }
    forall i | |recs| <= i < |s.recs| ensures s.recs[i].tenant.None? {
      assert MadeByJob(recs, s.recs[i], front, ids);
    }
    StepKeepsCodesApart(s, job, ids[|front|], |recs|);
  }

  lemma StepRefreshes(recs: seq<Rec>, s: Seeded, s': Seeded, front: seq<Job>, job: Job, id: string)
    requires Refreshed(recs, s.recs, front) && s' == SeedStep(s, job, id)
    requires forall i :: 0 <= i < |recs| ==> Kept(recs[i], s.recs[i])
    ensures Refreshed(recs, s'.recs, front + [job])
  {
    var jobs := front + [job];
    SearchKept(recs, s.recs, job);
    forall i | 0 <= i < |recs| && s'.recs[i] != recs[i] ensures Found(recs, jobs, i) {
      if s.recs[i] != recs[i] {
        assert Found(recs, front, i);
        var k :| 0 <= k < |front| && GlobalIndex(recs, front[k].master, front[k].item.code) == Some(i);
        assert jobs[k] == front[k];
      } else {
        assert jobs[|front|] == job;
      }
    }
  }

  lemma {:induction false} SeedingCreates(recs: seq<Rec>, jobs: seq<Job>, ids: seq<string>)
    requires |jobs| <= |ids|
    ensures Created(recs, SeedAll(recs, jobs, ids).recs, jobs, ids)
    ensures Refreshed(recs, SeedAll(recs, jobs, ids).recs, jobs)
  {
    var s' := SeedAll(recs, jobs, ids);
    if jobs != [] {
      var front, job := jobs[..|jobs| - 1], jobs[|jobs| - 1];
      var s := SeedAll(recs, front, ids);
      assert jobs == front + [job];
      SeedingCreates(recs, front, ids);
      SeedingConserves(recs, front, ids);
      StepCreates(recs, s, s', front, job, ids);
      StepRefreshes(recs, s, s', front, job, ids[|front|]);
    }
  }

  /** All that a run over `jobs` makes of the base. */
  ghost predicate Outcome(recs: seq<Rec>, recs': seq<Rec>, jobs: seq<Job>, ids: seq<string>) {
    && |jobs| <= |ids| && Created(recs, recs', jobs, ids) && Refreshed(recs, recs', jobs)
    && (forall i :: 0 <= i < |recs| ==> Kept(recs[i], recs'[i]))
    && (forall i :: |recs| <= i < |recs'| ==> IsSeeded(recs'[i]))
    && (forall k :: 0 <= k < |jobs| ==> Settled(recs', LastJob(jobs, jobs[k])))
  }

  lemma SeedingOutcome(recs: seq<Rec>, jobs: seq<Job>, ids: seq<string>)
    requires |jobs| <= |ids|
    ensures Outcome(recs, SeedAll(recs, jobs, ids).recs, jobs, ids)
  {
    SeedingCreates(recs, jobs, ids);
    SeedingConserves(recs, jobs, ids);
    LastItemWins(recs, jobs, ids);
  }

  /** What the last item for the code of job `k` asks for. */
  function Demand(jobs: seq<Job>, k: nat): SeedItem
    requires k < |jobs|
  {
    LastJob(jobs, jobs[k]).item
  }

  lemma FoundBecomes(recs: seq<Rec>, recs': seq<Rec>, jobs: seq<Job>, ids: seq<string>, k: nat, i: nat)
    requires Outcome(recs, recs', jobs, ids) && k < |jobs|
    requires GlobalIndex(recs, jobs[k].master, jobs[k].item.code) == Some(i)
    ensures Agrees(recs'[i], Demand(jobs, k))
  {
    SearchKept(recs, recs', jobs[k]);
    assert Settled(recs', LastJob(jobs, jobs[k]));
  }

  lemma NewBecomes(recs: seq<Rec>, recs': seq<Rec>, jobs: seq<Job>, ids: seq<string>, k: nat) returns (i: nat)
    requires Outcome(recs, recs', jobs, ids) && k < |jobs| && IsNew(recs, jobs[k])
    ensures |recs| <= i < |recs'| && Targets(jobs[k], recs'[i]) && Agrees(recs'[i], Demand(jobs, k))
  {
    SearchKept(recs, recs', jobs[k]);
    assert Settled(recs', LastJob(jobs, jobs[k]));
    i := GlobalIndex(recs', jobs[k].master, jobs[k].item.code).value;
  }

  lemma MakerOf(recs: seq<Rec>, recs': seq<Rec>, jobs: seq<Job>, ids: seq<string>, i: nat) returns (k: nat)
    requires Outcome(recs, recs', jobs, ids) && |recs| <= i < |recs'|
    ensures k < |jobs| && IsNew(recs, jobs[k]) && Targets(jobs[k], recs'[i]) && recs'[i].id == ids[k]
    ensures Agrees(recs'[i], Demand(jobs, k))
  {
    assert MadeByJob(recs, recs'[i], jobs, ids);
    k :| 0 <= k < |jobs| && IsNew(recs, jobs[k]) && Targets(jobs[k], recs'[i]) && recs'[i].id == ids[k];
    var j := NewBecomes(recs, recs', jobs, ids, k);
    assert j == i;
  }

  /** Active while open, as sound records are. */
  predicate RightlyActive(r: Rec) {
    r.isActive == r.effectiveTo.None?
  }

  /** The flag that the last item of the code asks for is the one stored, or `true` for a new code. */
  predicate FlagFits(recs: seq<Rec>, jobs: seq<Job>, k: nat)
    requires k < |jobs|
  {
    var found := GlobalIndex(recs, jobs[k].master, jobs[k].item.code);
    Demand(jobs, k).isActive.GetOr(true) == (found.Some? ==> recs[found.value].isActive)
  }

  lemma FlagFitsExactlyWhen(recs: seq<Rec>, recs': seq<Rec>, jobs: seq<Job>, ids: seq<string>, k: nat, i: nat)
    requires Outcome(recs, recs', jobs, ids) && forall j :: 0 <= j < |recs| ==> RightlyActive(recs[j])
    requires k < |jobs| && i < |recs'| && Agrees(recs'[i], Demand(jobs, k))
    requires
      var found := GlobalIndex(recs, jobs[k].master, jobs[k].item.code);
      if found.Some? then i == found.value else |recs| <= i
    ensures RightlyActive(recs'[i]) <==> FlagFits(recs, jobs, k)
  {
    if i < |recs| {
      assert Kept(recs[i], recs'[i]) && RightlyActive(recs[i]);
    } else {
      assert IsSeeded(recs'[i]);
    }
  }

  lemma FlagsExactlyWhen(recs: seq<Rec>, recs': seq<Rec>, jobs: seq<Job>, ids: seq<string>)
    requires Outcome(recs, recs', jobs, ids) && forall i :: 0 <= i < |recs| ==> RightlyActive(recs[i])
    ensures (forall i :: 0 <= i < |recs'| ==> RightlyActive(recs'[i]))
      <==> (forall k :: 0 <= k < |jobs| ==> FlagFits(recs, jobs, k))
  {
    if forall i :: 0 <= i < |recs'| ==> RightlyActive(recs'[i]) {
      forall k | 0 <= k < |jobs| ensures FlagFits(recs, jobs, k) {
        var found := GlobalIndex(recs, jobs[k].master, jobs[k].item.code);
        if found.Some? {
          FoundBecomes(recs, recs', jobs, ids, k, found.value);
          FlagFitsExactlyWhen(recs, recs', jobs, ids, k, found.value);
        } else {
          var i := NewBecomes(recs, recs', jobs, ids, k);
          FlagFitsExactlyWhen(recs, recs', jobs, ids, k, i);
        }
      }
    }
    if forall k :: 0 <= k < |jobs| ==> FlagFits(recs, jobs, k) {
      forall i | 0 <= i < |recs'| ensures RightlyActive(recs'[i]) {
        if i >= |recs| {
          var k := MakerOf(recs, recs', jobs, ids, i);
          FlagFitsExactlyWhen(recs, recs', jobs, ids, k, i);
        } else if recs'[i] != recs[i] {
          assert Found(recs, jobs, i);
          var k :| 0 <= k < |jobs| && GlobalIndex(recs, jobs[k].master, jobs[k].item.code) == Some(i);
          FoundBecomes(recs, recs', jobs, ids, k, i);
          FlagFitsExactlyWhen(recs, recs', jobs, ids, k, i);
        }
      }
    }
  }

  /** The stored record is in the line that the job's new record would enter. */
  predicate InLineOf(job: Job, r: Rec) {
    r.masterType == job.master && r.Key() == Upper(job.item.code) && r.tenant.None?
  }

  predicate EndedByEpoch(r: Rec) {
    r.status.Published? && r.effectiveTo.Some? && r.effectiveTo.value <= DEFAULT_MASTER_EPOCH
  }

  /** The codes are equal up to case. */
  predicate SameKey(a: Job, b: Job) {
    a.master == b.master && Upper(a.item.code) == Upper(b.item.code)
  }

  /** The job's line is empty, up to versions that ended by the epoch. */
  ghost predicate LineEmpty(recs: seq<Rec>, job: Job) {
    forall j :: 0 <= j < |recs| && InLineOf(job, recs[j]) ==> EndedByEpoch(recs[j])
  }

  /** A new code finds its line empty, and no other new code differs from it only in case. */
  ghost predicate RoomFor(recs: seq<Rec>, jobs: seq<Job>, k: nat)
    requires k < |jobs|
  {
    IsNew(recs, jobs[k]) ==>
      && LineEmpty(recs, jobs[k])
      && (forall l :: 0 <= l < |jobs| && IsNew(recs, jobs[l]) && SameKey(jobs[l], jobs[k]) ==>
            SameTarget(jobs[l], jobs[k]))
  }

  ghost predicate AllCompatible(recs: seq<Rec>) {
    forall i, j :: 0 <= i < j < |recs| ==> Compatible(recs[i], recs[j])
  }

  /** A new record beside a stored one, as it is now, of another id and code. */
  lemma NewBesideOld(job: Job, r: Rec, stored: Rec, stored': Rec, clock: int)
    requires Targets(job, r) && IsSeeded(r) && Sound(stored, clock) && Kept(stored, stored')
    requires stored.id != r.id && !Targets(job, stored)
    ensures Compatible(stored', r) <==> (InLineOf(job, stored) ==> EndedByEpoch(stored))
  {
  }

  lemma NewBesideNew(a: Job, r: Rec, b: Job, s: Rec)
    requires Targets(a, r) && Targets(b, s) && IsSeeded(r) && IsSeeded(s)
    ensures Compatible(r, s) <==> r.id != s.id && !SameKey(a, b)
  {
  }

  lemma LinesExactlyWhen(recs: seq<Rec>, recs': seq<Rec>, jobs: seq<Job>, ids: seq<string>, clock: int)
    requires Outcome(recs, recs', jobs, ids) && Timelines(recs, clock)
    requires DistinctStrings(ids) && forall k :: 0 <= k < |ids| ==> FreshId(recs, ids[k])
    ensures AllCompatible(recs') <==> (forall k :: 0 <= k < |jobs| ==> RoomFor(recs, jobs, k))
  {
    if AllCompatible(recs') {
      forall k | 0 <= k < |jobs| ensures RoomFor(recs, jobs, k) {
        CompatibleLeavesRoom(recs, recs', jobs, ids, clock, k);
      }
    }
    if forall k :: 0 <= k < |jobs| ==> RoomFor(recs, jobs, k) {
      forall i, j | 0 <= i < j < |recs'| ensures Compatible(recs'[i], recs'[j]) {
        RoomMakesCompatible(recs, recs', jobs, ids, clock, i, j);
      }
    }
  }

  lemma CompatibleLeavesRoom(recs: seq<Rec>, recs': seq<Rec>, jobs: seq<Job>, ids: seq<string>, clock: int, k: nat)
    requires Outcome(recs, recs', jobs, ids) && Timelines(recs, clock) && AllCompatible(recs') && k < |jobs|
    ensures RoomFor(recs, jobs, k)
  {
    if IsNew(recs, jobs[k]) {
      var i := NewBecomes(recs, recs', jobs, ids, k);
      assert IsSeeded(recs'[i]);
      forall j | 0 <= j < |recs| && InLineOf(jobs[k], recs[j]) ensures EndedByEpoch(recs[j]) {
        assert Compatible(recs'[j], recs'[i]) && Kept(recs[j], recs'[j]);
        assert !Targets(jobs[k], recs[j]);
        NewBesideOld(jobs[k], recs'[i], recs[j], recs'[j], clock);
      }
      forall l | 0 <= l < |jobs| && IsNew(recs, jobs[l]) && SameKey(jobs[l], jobs[k])
        ensures SameTarget(jobs[l], jobs[k])
      {
        NewCodesDiffer(recs, recs', jobs, ids, l, k);
      }
    }
  }

  lemma NewCodesDiffer(recs: seq<Rec>, recs': seq<Rec>, jobs: seq<Job>, ids: seq<string>, l: nat, k: nat)
    requires Outcome(recs, recs', jobs, ids) && AllCompatible(recs') && l < |jobs| && k < |jobs|
    requires IsNew(recs, jobs[l]) && IsNew(recs, jobs[k]) && SameKey(jobs[l], jobs[k])
    ensures SameTarget(jobs[l], jobs[k])
  {
    var i := NewBecomes(recs, recs', jobs, ids, k);
    var j := NewBecomes(recs, recs', jobs, ids, l);
    assert IsSeeded(recs'[i]) && IsSeeded(recs'[j]);
    NewBesideNew(jobs[k], recs'[i], jobs[l], recs'[j]);
    NewBesideNew(jobs[l], recs'[j], jobs[k], recs'[i]);
  }

  lemma RoomBesideOld(recs: seq<Rec>, recs': seq<Rec>, jobs: seq<Job>, ids: seq<string>, clock: int, i: nat, j: nat)
    requires Outcome(recs, recs', jobs, ids) && Timelines(recs, clock) && i < |recs| <= j < |recs'|
    requires forall k :: 0 <= k < |ids| ==> FreshId(recs, ids[k])
    requires forall k :: 0 <= k < |jobs| ==> RoomFor(recs, jobs, k)
    ensures Compatible(recs'[i], recs'[j])
  {
    var k := MakerOf(recs, recs', jobs, ids, j);
    assert IsSeeded(recs'[j]) && RoomFor(recs, jobs, k) && FreshId(recs, ids[k]);
    assert Kept(recs[i], recs'[i]) && Sound(recs[i], clock) && !Targets(jobs[k], recs[i]);
    NewBesideOld(jobs[k], recs'[j], recs[i], recs'[i], clock);
  }

  lemma RoomBesideNew(recs: seq<Rec>, recs': seq<Rec>, jobs: seq<Job>, ids: seq<string>, i: nat, j: nat)
    requires Outcome(recs, recs', jobs, ids) && |recs| <= i < j < |recs'| && DistinctStrings(ids)
    requires forall k :: 0 <= k < |jobs| ==> RoomFor(recs, jobs, k)
    ensures Compatible(recs'[i], recs'[j])
  {
    var k := MakerOf(recs, recs', jobs, ids, j);
    var l := MakerOf(recs, recs', jobs, ids, i);
    TwoNewCodes(recs, jobs, ids, l, recs'[i], k, recs'[j]);
  }

  lemma TwoNewCodes(recs: seq<Rec>, jobs: seq<Job>, ids: seq<string>, l: nat, r: Rec, k: nat, r': Rec)
    requires |jobs| <= |ids| && DistinctStrings(ids) && l < |jobs| && k < |jobs| && RoomFor(recs, jobs, k)
    requires IsNew(recs, jobs[l]) && Targets(jobs[l], r) && IsSeeded(r) && r.id == ids[l]
    requires IsNew(recs, jobs[k]) && Targets(jobs[k], r') && IsSeeded(r') && r'.id == ids[k]
    requires r.masterType != r'.masterType || r.code != r'.code
    ensures Compatible(r, r')
  {
    NewBesideNew(jobs[l], r, jobs[k], r');
    assert !SameTarget(jobs[l], jobs[k]);
  }

  lemma RoomMakesCompatible(recs: seq<Rec>, recs': seq<Rec>, jobs: seq<Job>, ids: seq<string>, clock: int, i: nat,
                            j: nat)
    requires Outcome(recs, recs', jobs, ids) && Timelines(recs, clock) && i < j < |recs'|
    requires DistinctStrings(ids) && forall k :: 0 <= k < |ids| ==> FreshId(recs, ids[k])
    requires forall k :: 0 <= k < |jobs| ==> RoomFor(recs, jobs, k)
    ensures Compatible(recs'[i], recs'[j])
  {
    if j < |recs| {
      PairAt(recs, clock, i, j);
      assert Kept(recs[i], recs'[i]) && Kept(recs[j], recs'[j]);
    } else if i < |recs| {
      RoomBesideOld(recs, recs', jobs, ids, clock, i, j);
    } else {
      RoomBesideNew(recs, recs', jobs, ids, i, j);
    }
  }

  lemma TimelinesSplit(recs: seq<Rec>, recs': seq<Rec>, jobs: seq<Job>, ids: seq<string>, clock: int)
    requires Outcome(recs, recs', jobs, ids) && Timelines(recs, clock) && DEFAULT_MASTER_EPOCH <= clock
    ensures Timelines(recs', clock)
      <==> AllCompatible(recs') && forall i :: 0 <= i < |recs'| ==> RightlyActive(recs'[i])
  {
    forall i | 0 <= i < |recs'| ensures Sound(recs'[i], clock) <==> RightlyActive(recs'[i]) {
      if i < |recs| {
        assert Sound(recs[i], clock) && Kept(recs[i], recs'[i]);
      } else {
        assert IsSeeded(recs'[i]);
      }
    }
  }

  /** Main result: seeding on top of a sound store keeps the timelines exactly when the last item
      of each code asks for the active flag that is stored, or for an active record if the code
      is new, and every new code has room in its line. */
  lemma SeedKeepsTimelinesExactlyWhen(recs: seq<Rec>, jobs: seq<Job>, ids: seq<string>, clock: int)
    requires Timelines(recs, clock) && DEFAULT_MASTER_EPOCH <= clock && |jobs| <= |ids|
    requires DistinctStrings(ids) && forall k :: 0 <= k < |ids| ==> FreshId(recs, ids[k])
    ensures Timelines(SeedAll(recs, jobs, ids).recs, clock)
      <==> forall k :: 0 <= k < |jobs| ==> FlagFits(recs, jobs, k) && RoomFor(recs, jobs, k)
  {
    var recs' := SeedAll(recs, jobs, ids).recs;
    SeedingOutcome(recs, jobs, ids);
    TimelinesSplit(recs, recs', jobs, ids, clock);
    FlagsExactlyWhen(recs, recs', jobs, ids);
    LinesExactlyWhen(recs, recs', jobs, ids, clock);
  }

  /** Main result: seeding an empty store gives sound timelines exactly when the last item of each
      code is active and no two codes of a master differ only in case. */
  lemma SeededStoreIsSoundExactlyWhen(jobs: seq<Job>, ids: seq<string>, clock: int)
    requires |jobs| <= |ids| && DistinctStrings(ids) && DEFAULT_MASTER_EPOCH <= clock
    ensures Timelines(SeedAll([], jobs, ids).recs, clock) <==>
      && (forall k :: 0 <= k < |jobs| ==> Demand(jobs, k).isActive.GetOr(true))
      && (forall k, l :: 0 <= k < |jobs| && 0 <= l < |jobs| && SameKey(jobs[l], jobs[k]) ==>
            SameTarget(jobs[l], jobs[k]))
  {
    SeedKeepsTimelinesExactlyWhen([], jobs, ids, clock);
    forall k | 0 <= k < |jobs|
      ensures IsNew([], jobs[k])
      ensures FlagFits([], jobs, k) <==> Demand(jobs, k).isActive.GetOr(true)
      ensures RoomFor([], jobs, k) <==>
        forall l :: 0 <= l < |jobs| && SameKey(jobs[l], jobs[k]) ==> SameTarget(jobs[l], jobs[k])
    {
      forall l | 0 <= l < |jobs| ensures IsNew([], jobs[l]) {
      }
    }
  }

  /** A seeded code leaves the reads of instant `t` alone: the version found either is not visible
      then or has the content that the last item asks for, and a new one starts later. */
  predicate LeavesPast(recs: seq<Rec>, jobs: seq<Job>, k: nat, t: int)
    requires k < |jobs|
  {
    match GlobalIndex(recs, jobs[k].master, jobs[k].item.code)
    case None => t < DEFAULT_MASTER_EPOCH
    case Some(i) => VisibleAt(recs[i], t) ==> recs[i].content == Fresh(Demand(jobs, k).patch)
  }

  lemma StableLeavesPast(recs: seq<Rec>, recs': seq<Rec>, jobs: seq<Job>, ids: seq<string>, t: int, k: nat)
    requires Outcome(recs, recs', jobs, ids) && StableAt(recs, recs', t) && k < |jobs|
    ensures LeavesPast(recs, jobs, k, t)
  {
    var found := GlobalIndex(recs, jobs[k].master, jobs[k].item.code);
    if found.Some? {
      FoundBecomes(recs, recs', jobs, ids, k, found.value);
      assert SameAt(recs[found.value], recs'[found.value], t);
    } else {
      var i := NewBecomes(recs, recs', jobs, ids, k);
      assert IsSeeded(recs'[i]) && !VisibleAt(recs'[i], t);
    }
  }

  lemma FoundIsStable(recs: seq<Rec>, recs': seq<Rec>, jobs: seq<Job>, ids: seq<string>, t: int, i: nat)
    requires Outcome(recs, recs', jobs, ids) && i < |recs|
    requires forall k :: 0 <= k < |jobs| ==> LeavesPast(recs, jobs, k, t)
    ensures SameAt(recs[i], recs'[i], t)
  {
    if recs'[i] != recs[i] {
      assert Found(recs, jobs, i) && Kept(recs[i], recs'[i]);
      var k :| 0 <= k < |jobs| && GlobalIndex(recs, jobs[k].master, jobs[k].item.code) == Some(i);
      FoundBecomes(recs, recs', jobs, ids, k, i);
      assert LeavesPast(recs, jobs, k, t);
      SameContentSameAt(recs[i], recs'[i], Demand(jobs, k), t);
    }
  }

  lemma SameContentSameAt(r: Rec, r': Rec, item: SeedItem, t: int)
    requires Kept(r, r') && Agrees(r', item) && (VisibleAt(r, t) ==> r.content == Fresh(item.patch))
    ensures SameAt(r, r', t)
  {
  }

  lemma NewIsLater(recs: seq<Rec>, recs': seq<Rec>, jobs: seq<Job>, ids: seq<string>, t: int, i: nat)
    requires Outcome(recs, recs', jobs, ids) && |recs| <= i < |recs'|
    requires forall k :: 0 <= k < |jobs| ==> LeavesPast(recs, jobs, k, t)
    ensures !VisibleAt(recs'[i], t)
  {
    var k := MakerOf(recs, recs', jobs, ids, i);
    assert IsSeeded(recs'[i]) && LeavesPast(recs, jobs, k, t);
  }

  /** Main result, from any store: seeding leaves what was visible at an instant alone exactly
      when every item does. */
  lemma SeedKeepsPastExactlyWhen(recs: seq<Rec>, jobs: seq<Job>, ids: seq<string>, t: int)
    requires |jobs| <= |ids|
    ensures StableAt(recs, SeedAll(recs, jobs, ids).recs, t)
      <==> forall k :: 0 <= k < |jobs| ==> LeavesPast(recs, jobs, k, t)
  {
    var recs' := SeedAll(recs, jobs, ids).recs;
    SeedingOutcome(recs, jobs, ids);
    if StableAt(recs, recs', t) {
      forall k | 0 <= k < |jobs| ensures LeavesPast(recs, jobs, k, t) {
        StableLeavesPast(recs, recs', jobs, ids, t, k);
      }
    }
    if forall k :: 0 <= k < |jobs| ==> LeavesPast(recs, jobs, k, t) {
      forall i | 0 <= i < |recs| ensures SameAt(recs[i], recs'[i], t) {
        FoundIsStable(recs, recs', jobs, ids, t, i);
      }
      forall i | |recs| <= i < |recs'| ensures !VisibleAt(recs'[i], t) {
        NewIsLater(recs, recs', jobs, ids, t, i);
      }
    }
  }
}
