/** The idempotent seed loader: `MasterDataSeeder.seed`. */
module Seeder {
  import opened Records
  import opened Lifecycle
  import opened Store

  /** A parsed seed item; absent fields take the loader's defaults. */
  datatype SeedItem = SeedItem(code: string, patch: Patch, isActive: Option<bool>)

  /** A registered master with its parsed seed file, or none if it is missing or unreadable. */
  datatype SeedFile = SeedFile(masterCode: string, items: Option<seq<SeedItem>>)

  datatype SeedReport = SeedReport(scanned: nat, processed: nat, created: nat, updated: nat, same: nat, errors: nat)

  /** One item together with the master it belongs to. */
  datatype Job = Job(master: string, item: SeedItem)

  function JobsOf(master: string, items: seq<SeedItem>): (jobs: seq<Job>)
    ensures |jobs| == |items|
  {
    seq(|items|, i requires 0 <= i < |items| => Job(master, items[i]))
  }

  function Jobs(files: seq<SeedFile>): seq<Job> {
    if files == [] then []
    else
      var last := files[|files| - 1];
      Jobs(files[..|files| - 1]) + if last.items.Some? then JobsOf(last.masterCode, last.items.value) else []
  }

  function Missing(files: seq<SeedFile>): nat {
    if files == [] then 0
    else Missing(files[..|files| - 1]) + if files[|files| - 1].items.None? then 1 else 0
  }

  /** The files that are missing or unreadable are counted one by one. */
  lemma {:induction false} MissingAreCounted(files: seq<SeedFile>)
    ensures Missing(files) == |set f | 0 <= f < |files| && files[f].items.None?|
  {
    if files != [] {
      var front, n := files[..|files| - 1], |files| - 1;
      MissingAreCounted(front);
      var before, after := set f | 0 <= f < n && front[f].items.None?, set f | 0 <= f < |files| && files[f].items.None?;
      assert after == before + if files[n].items.None? then {n} else {};
    }
  }

  predicate IsGlobal(r: Rec, master: string, code: string) {
    r.masterType == master && r.code == code && r.tenant.None?
  }

  function GlobalIndex(recs: seq<Rec>, master: string, code: string): (r: Option<nat>)
    ensures r.Some? ==> r.value < |recs| && IsGlobal(recs[r.value], master, code)
    ensures r.Some? ==> forall i :: 0 <= i < r.value ==> !IsGlobal(recs[i], master, code)
    ensures r.None? ==> forall i :: 0 <= i < |recs| ==> !IsGlobal(recs[i], master, code)
  {
    FirstIndex(recs, r => IsGlobal(r, master, code))
  }

  /** The six compared fields agree. */
  predicate Agrees(r: Rec, item: SeedItem) {
    r.content == Fresh(item.patch) && r.isActive == item.isActive.GetOr(true)
  }

  function SeededRecord(job: Job, id: string): Rec {
    Rec(id, job.master, job.item.code, Fresh(job.item.patch), true, job.item.isActive.GetOr(true),
        DEFAULT_MASTER_EPOCH, None, 1, None, "SYSTEM_SEEDER", Some("SYSTEM_SEEDER"), Published)
  }

  function Refresh(r: Rec, item: SeedItem): Rec {
    r.(content := Fresh(item.patch), isActive := item.isActive.GetOr(true))
  }

  datatype Seeded = Seeded(recs: seq<Rec>, created: nat, updated: nat, same: nat)

  function SeedStep(s: Seeded, job: Job, id: string): Seeded {
    match GlobalIndex(s.recs, job.master, job.item.code)
    case None => s.(recs := s.recs + [SeededRecord(job, id)], created := s.created + 1)
    case Some(i) =>
      if Agrees(s.recs[i], job.item) then s.(same := s.same + 1)
      else s.(recs := s.recs[i := Refresh(s.recs[i], job.item)], updated := s.updated + 1)
  }

  function SeedAll(recs: seq<Rec>, jobs: seq<Job>, ids: seq<string>): Seeded
    requires |jobs| <= |ids|
  {
    if jobs == [] then Seeded(recs, 0, 0, 0)
    else SeedStep(SeedAll(recs, jobs[..|jobs| - 1], ids), jobs[|jobs| - 1], ids[|jobs| - 1])
  }

  lemma OneMoreJob(recs: seq<Rec>, done: seq<Job>, job: Job, ids: seq<string>)
    requires |done| < |ids|
    ensures SeedAll(recs, done + [job], ids) == SeedStep(SeedAll(recs, done, ids), job, ids[|done|])
  {
    assert (done + [job])[..|done|] == done;
  }

  /** The jobs done before and the first `k` of the new ones. */
  function Upto(done: seq<Job>, jobs: seq<Job>, k: nat): (r: seq<Job>)
    requires k <= |jobs|
    ensures |r| == |done| + k
  {
    done + jobs[..k]
  }

  lemma UptoGrows(done: seq<Job>, jobs: seq<Job>, k: nat)
    requires k < |jobs|
    ensures Upto(done, jobs, k + 1) == Upto(done, jobs, k) + [jobs[k]]
  {
  }

  lemma UptoEnds(done: seq<Job>, jobs: seq<Job>)
    ensures Upto(done, jobs, 0) == done && Upto(done, jobs, |jobs|) == done + jobs
  {
  }

  /** What one record may become: only the compared fields of a global record can change. */
  predicate Kept(r: Rec, r': Rec) {
    r' == r || (r.tenant.None? && r' == r.(content := r'.content, isActive := r'.isActive))
  }

  predicate UniqueGlobals(recs: seq<Rec>) {
    forall i, j :: 0 <= i < j < |recs| && recs[i].tenant.None? && recs[j].tenant.None? ==>
      recs[i].masterType != recs[j].masterType || recs[i].code != recs[j].code
  }

  /** A global published system record, version 1, in force since the epoch. */
  predicate IsSeeded(r: Rec) {
    && r.tenant.None? && r.isSystem && r.status.Published? && r.version == 1
    && r.effectiveFrom == DEFAULT_MASTER_EPOCH && r.effectiveTo.None?
  }

  /** The counters add up to the items processed, every creation is one more record, no record
      is removed, tenant records are untouched, new records are global published system records,
      and a code keeps having at most one global record. */
  ghost predicate Conserves(recs: seq<Rec>, s: Seeded, processed: nat) {
    && s.created + s.updated + s.same == processed
    && |s.recs| == |recs| + s.created
    && (forall i :: 0 <= i < |recs| ==> Kept(recs[i], s.recs[i]))
    && (forall i :: |recs| <= i < |s.recs| ==> IsSeeded(s.recs[i]))
    && (UniqueGlobals(recs) ==> UniqueGlobals(s.recs))
  }

  lemma StepKeeps(s: Seeded, job: Job, id: string, i: nat)
    requires i < |s.recs|
    ensures |SeedStep(s, job, id).recs| >= |s.recs| && Kept(s.recs[i], SeedStep(s, job, id).recs[i])
  {
  }

  lemma StepConserves(recs: seq<Rec>, s: Seeded, job: Job, id: string, s': Seeded, processed: nat)
    requires Conserves(recs, s, processed) && s' == SeedStep(s, job, id)
    ensures Conserves(recs, s', processed + 1)
  {
    forall i | 0 <= i < |recs| ensures Kept(recs[i], s'.recs[i]) {
      StepKeeps(s, job, id, i);
      assert Kept(recs[i], s.recs[i]);
    }
    forall i | |recs| <= i < |s'.recs| ensures IsSeeded(s'.recs[i]) {
      if i < |s.recs| { assert IsSeeded(s.recs[i]); }
    }
    if UniqueGlobals(recs) { StepKeepsUnique(s, job, id); }
  }

  /** Conservation and frame hold after every item. */
  lemma {:induction false} SeedingConserves(recs: seq<Rec>, jobs: seq<Job>, ids: seq<string>)
    requires |jobs| <= |ids|
    ensures Conserves(recs, SeedAll(recs, jobs, ids), |jobs|)
  {
    if jobs != [] {
      var front := jobs[..|jobs| - 1];
      SeedingConserves(recs, front, ids);
      StepConserves(recs, SeedAll(recs, front, ids), jobs[|front|], ids[|front|], SeedAll(recs, jobs, ids), |front|);
    }
  }

  lemma StepKeepsUnique(s: Seeded, job: Job, id: string)
    requires UniqueGlobals(s.recs)
    ensures UniqueGlobals(SeedStep(s, job, id).recs)
  {
  }

  /** The first global record of the job's code is as the seed item says. */
  predicate Settled(recs: seq<Rec>, job: Job) {
    var i := GlobalIndex(recs, job.master, job.item.code);
    i.Some? && Agrees(recs[i.value], job.item)
  }

  ghost predicate AllSettled(recs: seq<Rec>, jobs: seq<Job>) {
    forall k :: 0 <= k < |jobs| ==> Settled(recs, jobs[k])
  }

  predicate SameTarget(a: Job, b: Job) {
    a.master == b.master && a.item.code == b.item.code
  }

  predicate SameDemand(a: Job, b: Job) {
    Fresh(a.item.patch) == Fresh(b.item.patch) && a.item.isActive.GetOr(true) == b.item.isActive.GetOr(true)
  }

  /** Items of one code ask for the same fields; distinct codes are the usual case. */
  ghost predicate Consistent(jobs: seq<Job>) {
    forall i, j :: 0 <= i < |jobs| && 0 <= j < |jobs| && SameTarget(jobs[i], jobs[j]) ==> SameDemand(jobs[i], jobs[j])
  }

  /** After one item its own code is settled, and no other code is disturbed. */
  lemma StepSettles(s: Seeded, job: Job, id: string, other: Job)
    ensures Settled(SeedStep(s, job, id).recs, job)
    ensures !SameTarget(job, other) && Settled(s.recs, other) ==> Settled(SeedStep(s, job, id).recs, other)
  {
    var recs' := SeedStep(s, job, id).recs;
    var i := GlobalIndex(s.recs, job.master, job.item.code).GetOr(|s.recs|);
    assert IsGlobal(recs'[i], job.master, job.item.code);
    assert GlobalIndex(recs', job.master, job.item.code) == Some(i);
    if !SameTarget(job, other) && Settled(s.recs, other) {
      var j := GlobalIndex(s.recs, other.master, other.item.code).value;
      assert recs'[j] == s.recs[j];
      assert GlobalIndex(recs', other.master, other.item.code) == Some(j);
    }
  }

  /** The last job with the target of `job`, or `job` itself if there is none. */
  function LastJob(jobs: seq<Job>, job: Job): (r: Job)
    ensures SameTarget(r, job) && (r in jobs || r == job)
  {
    if jobs == [] then job
    else if SameTarget(jobs[|jobs| - 1], job) then jobs[|jobs| - 1]
    else LastJob(jobs[..|jobs| - 1], job)
  }

  /** After a run, the first stored global record of each item's code agrees with the last item
      of that code. */
  lemma {:induction false} LastItemWins(recs: seq<Rec>, jobs: seq<Job>, ids: seq<string>)
    requires |jobs| <= |ids|
    ensures forall k :: 0 <= k < |jobs| ==> Settled(SeedAll(recs, jobs, ids).recs, LastJob(jobs, jobs[k]))
  {
    if jobs != [] {
      var front, job := jobs[..|jobs| - 1], jobs[|jobs| - 1];
      LastItemWins(recs, front, ids);
      var s := SeedAll(recs, front, ids);
      forall k | 0 <= k < |jobs| ensures Settled(SeedAll(recs, jobs, ids).recs, LastJob(jobs, jobs[k])) {
        if !SameTarget(job, jobs[k]) {
          assert jobs[k] == front[k];
          assert Settled(s.recs, LastJob(front, front[k]));
        }
        StepSettles(s, job, ids[|jobs| - 1], LastJob(front, jobs[k]));
      }
    }
  }

  /** After a run over consistent items, each item's first stored global record agrees with it. */
  lemma SeedingSettles(recs: seq<Rec>, jobs: seq<Job>, ids: seq<string>)
    requires |jobs| <= |ids| && Consistent(jobs)
    ensures AllSettled(SeedAll(recs, jobs, ids).recs, jobs)
  {
    LastItemWins(recs, jobs, ids);
    forall k | 0 <= k < |jobs| ensures Settled(SeedAll(recs, jobs, ids).recs, jobs[k]) {
      var last := LastJob(jobs, jobs[k]);
      assert Settled(SeedAll(recs, jobs, ids).recs, last);
      assert SameDemand(last, jobs[k]);
    }
  }

  lemma AllSettledSplits(recs: seq<Rec>, front: seq<Job>, job: Job)
    ensures AllSettled(recs, front + [job]) <==> AllSettled(recs, front) && Settled(recs, job)
  {
    var jobs := front + [job];
    assert forall k :: 0 <= k < |front| ==> jobs[k] == front[k];
    if AllSettled(recs, jobs) {
      assert Settled(recs, jobs[|front|]);
      forall k | 0 <= k < |front| ensures Settled(recs, front[k]) {
        assert Settled(recs, jobs[k]);
      }
    }
  }

  /** Writes are never taken back, and a step that writes nothing found its code settled. */
  lemma StepWrites(s: Seeded, job: Job, id: string)
    ensures
      var s' := SeedStep(s, job, id);
      && s'.created + s'.updated >= s.created + s.updated
      && (s'.created + s'.updated == s.created + s.updated ==> s' == s.(same := s.same + 1))
      && (s' == s.(same := s.same + 1) <==> Settled(s.recs, job))
  {
  }

  /** A run writes nothing exactly when every item is settled beforehand. */
  lemma {:induction false} NothingToDoExactlyWhen(recs: seq<Rec>, jobs: seq<Job>, ids: seq<string>)
    requires |jobs| <= |ids|
    ensures
      var s := SeedAll(recs, jobs, ids);
      && (s == Seeded(recs, 0, 0, |jobs|) <==> AllSettled(recs, jobs))
      && (s.created + s.updated == 0 ==> s == Seeded(recs, 0, 0, |jobs|))
  {
    if jobs != [] {
      var front, job := jobs[..|jobs| - 1], jobs[|jobs| - 1];
      var s := SeedAll(recs, front, ids);
      NothingToDoExactlyWhen(recs, front, ids);
      StepWrites(s, job, ids[|front|]);
      assert SeedAll(recs, jobs, ids) == SeedStep(s, job, ids[|front|]);
      assert jobs == front + [job];
      AllSettledSplits(recs, front, job);
    }
  }

  lemma SettledImpliesConsistent(recs: seq<Rec>, jobs: seq<Job>)
    requires AllSettled(recs, jobs)
    ensures Consistent(jobs)
  {
  }

  /** Main result: re-running the loader on the store it produced creates and updates nothing,
      counts every item as unchanged and leaves the store equal, if and only if items of one
      code never contradict each other. */
  lemma SeedingIsIdempotentExactlyWhen(recs: seq<Rec>, jobs: seq<Job>, ids: seq<string>, ids': seq<string>)
    requires |jobs| <= |ids| && |jobs| <= |ids'|
    ensures
      var first := SeedAll(recs, jobs, ids);
      SeedAll(first.recs, jobs, ids') == Seeded(first.recs, 0, 0, |jobs|) <==> Consistent(jobs)
  {
    var stored := SeedAll(recs, jobs, ids).recs;
    NothingToDoExactlyWhen(stored, jobs, ids');
    if Consistent(jobs) { SeedingSettles(recs, jobs, ids); }
    if AllSettled(stored, jobs) { SettledImpliesConsistent(stored, jobs); }
  }

  /** The loader promises that every seeded row is a system record, which users cannot delete.
      A row that already existed keeps its flag, so the promise is met for an item exactly when
      its code was not stored globally before or was already a system record. */
  lemma SeededRowIsSystemExactlyWhen(recs: seq<Rec>, jobs: seq<Job>, ids: seq<string>, k: nat)
    requires |jobs| <= |ids| && k < |jobs|
    ensures
      var recs' := SeedAll(recs, jobs, ids).recs;
      var before := GlobalIndex(recs, jobs[k].master, jobs[k].item.code);
      var after := GlobalIndex(recs', jobs[k].master, jobs[k].item.code);
      after.Some? && (recs'[after.value].isSystem <==> before.None? || recs[before.value].isSystem)
  {
    SeedingConserves(recs, jobs, ids);
    LastItemWins(recs, jobs, ids);
    assert Settled(SeedAll(recs, jobs, ids).recs, LastJob(jobs, jobs[k]));
    SystemFlagKept(recs, SeedAll(recs, jobs, ids), |jobs|, jobs[k].master, jobs[k].item.code);
  }

  lemma SystemFlagKept(recs: seq<Rec>, s: Seeded, processed: nat, master: string, code: string)
    requires Conserves(recs, s, processed) && GlobalIndex(s.recs, master, code).Some?
    ensures
      var before, after := GlobalIndex(recs, master, code), GlobalIndex(s.recs, master, code).value;
      s.recs[after].isSystem <==> before.None? || recs[before.value].isSystem
  {
    forall i | 0 <= i < |recs| ensures IsGlobal(s.recs[i], master, code) == IsGlobal(recs[i], master, code) {
      assert Kept(recs[i], s.recs[i]);
    }
    var before := GlobalIndex(recs, master, code);
    if before.Some? {
      assert IsGlobal(s.recs[before.value], master, code) && Kept(recs[before.value], s.recs[before.value]);
    }
  }

  /** The number of items in all readable files. */
  function ItemCount(files: seq<SeedFile>): nat {
    if files == [] then 0
    else ItemCount(files[..|files| - 1])
         + if files[|files| - 1].items.Some? then |files[|files| - 1].items.value| else 0
  }

  /** File `f` has an item at position `k`. */
  predicate HasItem(files: seq<SeedFile>, f: int, k: int) {
    0 <= f < |files| && files[f].items.Some? && 0 <= k < |files[f].items.value|
  }

  /** Item `k` of file `f` comes first, or is the same. */
  predicate NotAfter(f: int, k: int, f': int, k': int) {
    f < f' || (f == f' && k <= k')
  }

  /** Job `p` is item `k` of file `f`. */
  predicate IsJobOf(jobs: seq<Job>, p: nat, files: seq<SeedFile>, f: int, k: int) {
    && p < |jobs| && HasItem(files, f, k)
    && jobs[p].master == files[f].masterCode && jobs[p].item == files[f].items.value[k]
  }

  /** The number of the job of an item. */
  function JobNumber(files: seq<SeedFile>, f: int, k: int): nat
    requires HasItem(files, f, k)
  {
    ItemCount(files[..f]) + k
  }

  lemma {:induction false} CountsGrow(files: seq<SeedFile>, f: nat, f': nat)
    requires f <= f' <= |files|
    ensures ItemCount(files[..f]) <= ItemCount(files[..f'])
    ensures f < f' && files[f].items.Some? ==> ItemCount(files[..f]) + |files[f].items.value| <= ItemCount(files[..f'])
  {
    if f < f' {
      CountsGrow(files, f, f' - 1);
      assert files[..f'][..f' - 1] == files[..f' - 1];
    }
  }

  /** Every item has its job: the jobs are the items of the files, in order. */
  lemma {:induction false} ItemIsJob(files: seq<SeedFile>, f: int, k: int)
    requires HasItem(files, f, k)
    ensures |Jobs(files)| == ItemCount(files) && IsJobOf(Jobs(files), JobNumber(files, f, k), files, f, k)
  {
    var front := files[..|files| - 1];
    JobsAreCounted(front);
    if f < |front| {
      assert front[..f] == files[..f];
      ItemIsJob(front, f, k);
    }
  }

  lemma {:induction false} JobsAreCounted(files: seq<SeedFile>)
    ensures |Jobs(files)| == ItemCount(files)
  {
    if files != [] { JobsAreCounted(files[..|files| - 1]); }
  }

  /** And every job is that of some item. */
  lemma {:induction false} ItemOfJob(files: seq<SeedFile>, p: nat) returns (f: int, k: int)
    requires p < |Jobs(files)|
    ensures HasItem(files, f, k) && JobNumber(files, f, k) == p && IsJobOf(Jobs(files), p, files, f, k)
  {
    var front := files[..|files| - 1];
    JobsAreCounted(front);
    if p < |Jobs(front)| {
      f, k := ItemOfJob(front, p);
      assert front[..f] == files[..f];
    } else {
      f, k := |front|, p - |Jobs(front)|;
    }
  }

  /** Later items have later jobs. */
  lemma JobsFollowItems(files: seq<SeedFile>, f: int, k: int, f': int, k': int)
    requires HasItem(files, f, k) && HasItem(files, f', k')
    ensures NotAfter(f, k, f', k') <==> JobNumber(files, f, k) <= JobNumber(files, f', k')
  {
    if f < f' { CountsGrow(files, f, f'); }
    if f' < f { CountsGrow(files, f', f); }
  }

  predicate SameCode(files: seq<SeedFile>, f: int, k: int, f': int, k': int)
    requires HasItem(files, f, k) && HasItem(files, f', k')
  {
    files[f].masterCode == files[f'].masterCode && files[f].items.value[k].code == files[f'].items.value[k'].code
  }

  /** No later item has the master and the code of item `k` of file `f`. */
  ghost predicate IsLastOfCode(files: seq<SeedFile>, f: int, k: int)
    requires HasItem(files, f, k)
  {
    forall f', k' :: HasItem(files, f', k') && SameCode(files, f', k', f, k) ==> NotAfter(f', k', f, k)
  }

  lemma {:induction false} LastJobIs(jobs: seq<Job>, p: nat)
    requires p < |jobs| && forall q :: p < q < |jobs| ==> !SameTarget(jobs[q], jobs[p])
    ensures LastJob(jobs, jobs[p]) == jobs[p]
  {
    if p < |jobs| - 1 {
      assert jobs[..|jobs| - 1][p] == jobs[p];
      LastJobIs(jobs[..|jobs| - 1], p);
    }
  }

  lemma LastItemIsLastJob(files: seq<SeedFile>, f: int, k: int)
    requires HasItem(files, f, k) && IsLastOfCode(files, f, k)
    ensures IsJobOf(Jobs(files), JobNumber(files, f, k), files, f, k)
    ensures
      var jobs := Jobs(files);
      LastJob(jobs, jobs[JobNumber(files, f, k)]) == jobs[JobNumber(files, f, k)]
  {
    var jobs, p := Jobs(files), JobNumber(files, f, k);
    ItemIsJob(files, f, k);
    forall q | p < q < |jobs| ensures !SameTarget(jobs[q], jobs[p]) {
      var f', k' := ItemOfJob(files, q);
      JobsFollowItems(files, f', k', f, k);
      assert SameTarget(jobs[q], jobs[p]) ==> SameCode(files, f', k', f, k);
    }
    LastJobIs(jobs, p);
  }

  /** The record has the fields that the item asks for: absent ones as the loader's defaults. */
  predicate AsItem(r: Rec, item: SeedItem) {
    && r.content.displayName == item.patch.displayName && r.content.description == item.patch.description
    && r.content.sortOrder == (if item.patch.sortOrder.Some? then item.patch.sortOrder.value else 0)
    && r.content.parentCode == item.patch.parentCode
    && r.content.attributes == (if item.patch.attributes.Some? then item.patch.attributes.value else map[])
    && r.isActive == if item.isActive.Some? then item.isActive.value else true
  }

  /** The first stored global record of the code is as the item asks. */
  ghost predicate StoredFirst(recs: seq<Rec>, master: string, item: SeedItem) {
    exists i :: 0 <= i < |recs| && recs[i].masterType == master && recs[i].code == item.code && recs[i].tenant.None?
      && AsItem(recs[i], item)
      && forall j :: 0 <= j < i ==> recs[j].masterType != master || recs[j].code != item.code || recs[j].tenant.Some?
  }

  /** A record that the loader makes for an item. */
  predicate MadeFor(r: Rec, master: string, item: SeedItem) {
    && r.masterType == master && r.code == item.code && r.tenant.None? && r.isSystem && r.version == 1
    && r.effectiveFrom == 0 && r.effectiveTo.None? && r.status == Published
    && r.createdBy == "SYSTEM_SEEDER" && r.approvedBy == Some("SYSTEM_SEEDER")
  }

  ghost predicate MadeForSome(r: Rec, files: seq<SeedFile>) {
    exists f, k :: HasItem(files, f, k) && MadeFor(r, files[f].masterCode, files[f].items.value[k])
  }

  /** A new record is made for some job. */
  lemma {:induction false} NewAreMadeForJobs(recs: seq<Rec>, jobs: seq<Job>, ids: seq<string>, i: nat) returns (p: nat)
    requires |jobs| <= |ids| && |recs| <= i < |SeedAll(recs, jobs, ids).recs|
    ensures p < |jobs| && MadeFor(SeedAll(recs, jobs, ids).recs[i], jobs[p].master, jobs[p].item)
  {
    var front := jobs[..|jobs| - 1];
    var s := SeedAll(recs, front, ids);
    if i < |s.recs| {
      p := NewAreMadeForJobs(recs, front, ids, i);
      assert front[p] == jobs[p];
    } else {
      p := |front|;
    }
  }

  lemma LastItemIsStoredFirst(recs: seq<Rec>, files: seq<SeedFile>, ids: seq<string>, f: int, k: int)
    requires |Jobs(files)| <= |ids| && HasItem(files, f, k) && IsLastOfCode(files, f, k)
    ensures StoredFirst(SeedAll(recs, Jobs(files), ids).recs, files[f].masterCode, files[f].items.value[k])
  {
    var jobs := Jobs(files);
    var recs' := SeedAll(recs, jobs, ids).recs;
    LastItemIsLastJob(files, f, k);
    LastItemWins(recs, jobs, ids);
    var job := jobs[JobNumber(files, f, k)];
    assert Settled(recs', LastJob(jobs, job));
    var i := GlobalIndex(recs', job.master, job.item.code).value;
    assert IsGlobal(recs'[i], job.master, job.item.code) && AsItem(recs'[i], job.item);
    forall j | 0 <= j < i
      ensures recs'[j].masterType != job.master || recs'[j].code != job.item.code || recs'[j].tenant.Some?
    {
      assert !IsGlobal(recs'[j], job.master, job.item.code);
    }
  }

  /** Main result, in terms of the files: the first stored global record of each code has the fields
      of the last item of that code, and every new record is made for some item of its master. */
  lemma SeedingMeetsFiles(recs: seq<Rec>, files: seq<SeedFile>, ids: seq<string>)
    requires |Jobs(files)| <= |ids|
    ensures
      var recs' := SeedAll(recs, Jobs(files), ids).recs;
      && |recs'| >= |recs|
      && (forall f, k :: HasItem(files, f, k) && IsLastOfCode(files, f, k) ==>
            StoredFirst(recs', files[f].masterCode, files[f].items.value[k]))
      && (forall i :: |recs| <= i < |recs'| ==> MadeForSome(recs'[i], files))
  {
    var jobs := Jobs(files);
    var recs' := SeedAll(recs, jobs, ids).recs;
    SeedingConserves(recs, jobs, ids);
    forall f, k | HasItem(files, f, k) && IsLastOfCode(files, f, k)
      ensures StoredFirst(recs', files[f].masterCode, files[f].items.value[k])
    {
      LastItemIsStoredFirst(recs, files, ids, f, k);
    }
    forall i | |recs| <= i < |recs'| ensures MadeForSome(recs'[i], files) {
      var p := NewAreMadeForJobs(recs, jobs, ids, i);
      var f, k := ItemOfJob(files, p);
    }
  }

  class MasterDataSeeder {
    /** The store and the running counters. */
    static ghost function Progress(store: MasterDataStore, report: SeedReport): Seeded
      reads store, store.records
    {
      Seeded(store.View(), report.created, report.updated, report.same)
    }

    /** The store and the report are what the jobs done so far make of the base. */
    static ghost predicate Reached(store: MasterDataStore, base: seq<Rec>, jobs: seq<Job>, ids: seq<string>,
                                   report: SeedReport)
      requires |jobs| <= |ids|
      reads store, store.records
    {
      SeedAll(base, jobs, ids) == Progress(store, report) && report.processed == |jobs|
    }

    /** Overwrites the compared fields of the live record at a position. */
    static method RefreshLive(store: MasterDataStore, i: nat, item: SeedItem)
      requires store.Valid() && i < |store.records|
      modifies store.records[i]
      ensures store.View() == old(store.View())[i := Refresh(old(store.View())[i], item)]
    {
      var existing := store.records[i];
      existing.content := Fresh(item.patch);
      existing.isActive := item.isActive.GetOr(true);
    }

    /** Handles one seed item. */
    static method SeedItem(store: MasterDataStore, job: Job, id: string, report: SeedReport,
                           ghost base: seq<Rec>, ghost done: seq<Job>, ghost ids: seq<string>)
      returns (report': SeedReport)
      requires store.Valid() && |done| < |ids| && id == ids[|done|] && Reached(store, base, done, ids, report)
      modifies store, store.records
      ensures store.Valid() && KeepsObjects(store)
      ensures Reached(store, base, done + [job], ids, report')
      ensures report'.scanned == report.scanned && report'.errors == report.errors
    {
      OneMoreJob(base, done, job, ids);
      report' := report.(processed := report.processed + 1);
      var found := GlobalIndex(store.View(), job.master, job.item.code);
      if found.None? {
        var record := new MasterDataRecord(SeededRecord(job, id));
        store.Append(record);
        report' := report'.(created := report.created + 1);
      } else if Agrees(store.records[found.value].Snapshot(), job.item) {
        report' := report'.(same := report.same + 1);
      } else {
        RefreshLive(store, found.value, job.item);
        report' := report'.(updated := report.updated + 1);
      }
    }

    /** The inner loop of `seed`, over the items of one master. */
    static method SeedItems(store: MasterDataStore, master: string, items: seq<SeedItem>, ids: seq<string>,
                            report: SeedReport, ghost base: seq<Rec>, ghost done: seq<Job>)
      returns (report': SeedReport)
      requires store.Valid() && |done| + |items| <= |ids| && Reached(store, base, done, ids, report)
      modifies store, store.records
      ensures store.Valid() && KeepsObjects(store)
      ensures Reached(store, base, done + JobsOf(master, items), ids, report')
      ensures report'.scanned == report.scanned && report'.errors == report.errors
    {
      report' := report;
      ghost var jobs := JobsOf(master, items);
      UptoEnds(done, jobs);
      for k := 0 to |items|
        invariant store.Valid() && KeepsObjects(store)
        invariant Reached(store, base, Upto(done, jobs, k), ids, report')
        invariant report'.scanned == report.scanned && report'.errors == report.errors
      {
        UptoGrows(done, jobs, k);
        report' := SeedItem(store, Job(master, items[k]), ids[report'.processed], report', base, Upto(done, jobs, k),
                            ids);
      }
    }

    /** `seed` over the registered masters in order. */
    static method Seed(store: MasterDataStore, files: seq<SeedFile>, ids: seq<string>) returns (report: SeedReport)
      requires store.Valid() && |Jobs(files)| <= |ids|
      modifies store, store.records
      ensures store.Valid() && KeepsObjects(store)
      ensures Reached(store, old(store.View()), Jobs(files), ids, report)
      ensures report.scanned == |files| && report.errors == Missing(files)
      ensures report.processed == ItemCount(files)
    {
      report := SeedReport(0, 0, 0, 0, 0, 0);
      ghost var base := store.View();
      for f := 0 to |files|
        invariant store.Valid() && KeepsObjects(store)
        invariant |Jobs(files[..f])| <= |ids| && Reached(store, base, Jobs(files[..f]), ids, report)
        invariant report.scanned == f && report.errors == Missing(files[..f])
      {
        JobsArePrefix(files, f);
        report := report.(scanned := report.scanned + 1);
        match files[f].items {
          case None =>
            report := report.(errors := report.errors + 1);
          case Some(items) =>
            report := SeedItems(store, files[f].masterCode, items, ids, report, base, Jobs(files[..f]));
        }
      }
      assert files[..|files|] == files;
      JobsAreCounted(files);
    }

    static lemma JobsArePrefix(files: seq<SeedFile>, f: nat)
      requires f < |files|
      ensures files[f].items.None? ==> Jobs(files[..f + 1]) == Jobs(files[..f])
      ensures files[f].items.Some? ==>
        Jobs(files[..f + 1]) == Jobs(files[..f]) + JobsOf(files[f].masterCode, files[f].items.value)
      ensures Missing(files[..f + 1]) == Missing(files[..f]) + if files[f].items.None? then 1 else 0
      ensures |Jobs(files[..f + 1])| <= |Jobs(files)|
    {
      assert files[..f + 1][..f] == files[..f];
      JobsGrow(files, f + 1);
    }

    static lemma {:induction false} JobsGrow(files: seq<SeedFile>, f: nat)
      requires f <= |files|
      ensures |Jobs(files[..f])| <= |Jobs(files)|
    {
      if f == |files| {
        assert files[..f] == files;
      } else {
        JobsGrow(files[..|files| - 1], f);
        assert files[..|files| - 1][..f] == files[..f];
      }
    }
  }
}
