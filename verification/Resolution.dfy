/** Point-in-time reads: `get_record` and `list_records` over a stored collection. */
module Resolution {
  import opened Text
  import opened Records

  /** The candidates of `get_record`: type, case-insensitive code, interval, and status. */
  predicate Matches(r: Rec, mt: string, key: string, t: int, inclInactive: bool) {
    r.masterType == mt && r.Key() == key && r.EffectiveAt(t) && (inclInactive || r.status.Published?)
  }

  /** `tenant_id and r.tenant_id == tenant_id`: an empty tenant id counts as none. */
  predicate IsOwn(scope: Tenant, tenant: Tenant) {
    tenant.Some? && tenant.value != "" && scope == tenant
  }

  predicate TenantMatch(r: Rec, tenant: Tenant) {
    IsOwn(r.tenant, tenant)
  }

  function OwnQuery(mt: string, key: string, t: int, tenant: Tenant, inclInactive: bool): Rec -> bool {
    r => Matches(r, mt, key, t, inclInactive) && TenantMatch(r, tenant)
  }

  function GlobalQuery(mt: string, key: string, t: int, inclInactive: bool): Rec -> bool {
    r => Matches(r, mt, key, t, inclInactive) && r.tenant.None?
  }

  function AnyQuery(mt: string, key: string, t: int, inclInactive: bool): Rec -> bool {
    r => Matches(r, mt, key, t, inclInactive)
  }

  /** `get_record`: the tenant's own candidate, else the global one, else the last one. */
  function Resolve(recs: seq<Rec>, mt: string, key: string, t: int, tenant: Tenant, inclInactive: bool)
    : (r: Option<nat>)
    ensures r.Some? ==> r.value < |recs| && Matches(recs[r.value], mt, key, t, inclInactive)
    ensures r.None? <==> forall i :: 0 <= i < |recs| ==> !Matches(recs[i], mt, key, t, inclInactive)
  {
    var own := FirstIndex(recs, OwnQuery(mt, key, t, tenant, inclInactive));
    var global := FirstIndex(recs, GlobalQuery(mt, key, t, inclInactive));
    if own.Some? then own
    else if global.Some? then global
    else LastIndex(recs, AnyQuery(mt, key, t, inclInactive))
  }

  /** The choice made by `Resolve`, given that `i` matches: the earliest match of the tenant's
      own, else the earliest global one, else the latest of all. */
  lemma ResolvePrecedence(recs: seq<Rec>, mt: string, key: string, t: int, tenant: Tenant, inclInactive: bool, i: nat)
    requires i < |recs| && Matches(recs[i], mt, key, t, inclInactive)
    ensures Resolve(recs, mt, key, t, tenant, inclInactive).Some?
    ensures
      var k := Resolve(recs, mt, key, t, tenant, inclInactive).value;
      && (TenantMatch(recs[i], tenant) ==> TenantMatch(recs[k], tenant) && k <= i)
      && (recs[i].tenant.None? ==> TenantMatch(recs[k], tenant) || (recs[k].tenant.None? && k <= i))
      && (!TenantMatch(recs[k], tenant) && recs[k].tenant.Some? ==> i <= k)
  {
  }

  /** `at` are the positions of the candidates among the first `n` records, in stored order. */
  ghost predicate Filtered(recs: seq<Rec>, n: nat, p: Rec -> bool, at: seq<nat>) {
    && n <= |recs|
    && (forall k :: 0 <= k < |at| ==> at[k] < n && p(recs[at[k]]))
    && (forall j, k :: 0 <= j < k < |at| ==> at[j] < at[k])
    && (forall i :: 0 <= i < n && p(recs[i]) ==> i in at)
  }

  lemma FilterTakes(recs: seq<Rec>, n: nat, p: Rec -> bool, at: seq<nat>)
    requires Filtered(recs, n, p, at) && n < |recs| && p(recs[n])
    ensures Filtered(recs, n + 1, p, at + [n])
  {
    var at' := at + [n];
    forall i | 0 <= i < n + 1 && p(recs[i]) ensures i in at' {
      assert i == n || i in at;
    }
  }

  lemma FilterSkips(recs: seq<Rec>, n: nat, p: Rec -> bool, at: seq<nat>)
    requires Filtered(recs, n, p, at) && n < |recs| && !p(recs[n])
    ensures Filtered(recs, n + 1, p, at)
  {
  }

  /** `picked` are the elements of `all` at the given positions. */
  ghost predicate Picked<T>(picked: seq<T>, all: seq<T>, at: seq<nat>) {
    |picked| == |at| && forall k :: 0 <= k < |at| ==> at[k] < |all| && picked[k] == all[at[k]]
  }

  lemma PickOneMore<T>(picked: seq<T>, all: seq<T>, at: seq<nat>, n: nat)
    requires Picked(picked, all, at) && n < |all|
    ensures Picked(picked + [all[n]], all, at + [n])
  {
  }

  /** An element before a candidate is an earlier candidate, or none at all. */
  lemma EarlierPosition(recs: seq<Rec>, n: nat, p: Rec -> bool, at: seq<nat>, k: nat, i: nat) returns (j: nat)
    requires Filtered(recs, n, p, at) && k < |at| && i < at[k] && p(recs[i])
    ensures j < k && at[j] == i
  {
    j :| 0 <= j < |at| && at[j] == i;
  }

  lemma FirstCandidate(recs: seq<Rec>, p: Rec -> bool, at: seq<nat>, q: Rec -> bool, k: nat)
    requires Filtered(recs, |recs|, p, at) && k < |at| && forall r :: q(r) ==> p(r)
    requires q(recs[at[k]]) && forall j :: 0 <= j < k ==> !q(recs[at[j]])
    ensures FirstIndex(recs, q) == Some(at[k])
  {
    forall i | 0 <= i < at[k] ensures !q(recs[i]) {
      if p(recs[i]) {
        var j := EarlierPosition(recs, |recs|, p, at, k, i);
      }
    }
  }

  lemma NoCandidate(recs: seq<Rec>, p: Rec -> bool, at: seq<nat>, q: Rec -> bool)
    requires Filtered(recs, |recs|, p, at) && forall r :: q(r) ==> p(r)
    requires forall j :: 0 <= j < |at| ==> !q(recs[at[j]])
    ensures FirstIndex(recs, q).None?
  {
    forall i | 0 <= i < |recs| ensures !q(recs[i]) {
      assert p(recs[i]) ==> i in at;
    }
  }

  lemma LastCandidate(recs: seq<Rec>, p: Rec -> bool, at: seq<nat>)
    requires Filtered(recs, |recs|, p, at) && at != []
    ensures LastIndex(recs, p) == Some(at[|at| - 1])
  {
    var f := LastIndex(recs, p);
    assert p(recs[at[|at| - 1]]);
    var j :| 0 <= j < |at| && at[j] == f.value;
  }

  predicate HasOwn(scopes: seq<Tenant>, tenant: Tenant) {
    exists k :: 0 <= k < |scopes| && IsOwn(scopes[k], tenant)
  }

  predicate HasGlobal(scopes: seq<Tenant>) {
    exists k :: 0 <= k < |scopes| && scopes[k].None?
  }

  /** `c` is the choice among candidates of the given scopes: the tenant's first, else the
      first global one, else the last. */
  predicate Chosen(scopes: seq<Tenant>, tenant: Tenant, c: nat) {
    c < |scopes| &&
    if HasOwn(scopes, tenant) then
      IsOwn(scopes[c], tenant) && forall j :: 0 <= j < c ==> !IsOwn(scopes[j], tenant)
    else if HasGlobal(scopes) then
      scopes[c].None? && forall j :: 0 <= j < c ==> scopes[j].Some?
    else c == |scopes| - 1
  }

  /** The scopes of the records at some positions. */
  function ScopesAt(recs: seq<Rec>, at: seq<nat>): (scopes: seq<Tenant>)
    requires forall k :: 0 <= k < |at| ==> at[k] < |recs|
    ensures |scopes| == |at|
  {
    seq(|at|, k requires 0 <= k < |at| => recs[at[k]].tenant)
  }

  lemma OwnSearch(recs: seq<Rec>, mt: string, key: string, t: int, tenant: Tenant, inclInactive: bool, at: seq<nat>,
                  c: nat)
    requires Filtered(recs, |recs|, AnyQuery(mt, key, t, inclInactive), at) && Chosen(ScopesAt(recs, at), tenant, c)
    ensures FirstIndex(recs, OwnQuery(mt, key, t, tenant, inclInactive))
      == if HasOwn(ScopesAt(recs, at), tenant) then Some(at[c]) else None
  {
    var p, q, scopes := AnyQuery(mt, key, t, inclInactive), OwnQuery(mt, key, t, tenant, inclInactive),
      ScopesAt(recs, at);
    forall k | 0 <= k < |at| ensures q(recs[at[k]]) == IsOwn(scopes[k], tenant) {
      assert p(recs[at[k]]) && scopes[k] == recs[at[k]].tenant;
    }
    if HasOwn(scopes, tenant) {
      FirstCandidate(recs, p, at, q, c);
    } else {
      NoCandidate(recs, p, at, q);
    }
  }

  lemma GlobalSearch(recs: seq<Rec>, mt: string, key: string, t: int, tenant: Tenant, inclInactive: bool,
                     at: seq<nat>, c: nat)
    requires Filtered(recs, |recs|, AnyQuery(mt, key, t, inclInactive), at) && Chosen(ScopesAt(recs, at), tenant, c)
    requires !HasOwn(ScopesAt(recs, at), tenant)
    ensures FirstIndex(recs, GlobalQuery(mt, key, t, inclInactive))
      == if HasGlobal(ScopesAt(recs, at)) then Some(at[c]) else None
  {
    var p, q, scopes := AnyQuery(mt, key, t, inclInactive), GlobalQuery(mt, key, t, inclInactive), ScopesAt(recs, at);
    forall k | 0 <= k < |at| ensures q(recs[at[k]]) == scopes[k].None? {
      assert p(recs[at[k]]) && scopes[k] == recs[at[k]].tenant;
    }
    if HasGlobal(scopes) {
      FirstCandidate(recs, p, at, q, c);
    } else {
      NoCandidate(recs, p, at, q);
    }
  }

  /** Choosing among the candidates resolves the record. */
  lemma ChosenIsResolved(recs: seq<Rec>, mt: string, key: string, t: int, tenant: Tenant, inclInactive: bool,
                         at: seq<nat>, c: nat)
    requires Filtered(recs, |recs|, AnyQuery(mt, key, t, inclInactive), at) && Chosen(ScopesAt(recs, at), tenant, c)
    ensures Resolve(recs, mt, key, t, tenant, inclInactive) == Some(at[c])
  {
    OwnSearch(recs, mt, key, t, tenant, inclInactive, at, c);
    if !HasOwn(ScopesAt(recs, at), tenant) {
      GlobalSearch(recs, mt, key, t, tenant, inclInactive, at, c);
      LastCandidate(recs, AnyQuery(mt, key, t, inclInactive), at);
    }
  }

  /** What a lookup may find, told by the fields: the type, the code up to case, the instant in the
      interval, and published unless the lookup is inclusive. */
  ghost predicate Candidate(recs: seq<Rec>, i: int, mt: string, key: string, t: int, inclInactive: bool) {
    && 0 <= i < |recs| && recs[i].masterType == mt && Upper(recs[i].code) == key
    && recs[i].effectiveFrom <= t && (recs[i].effectiveTo.Some? ==> t < recs[i].effectiveTo.value)
    && (inclInactive || recs[i].status == Published)
  }

  lemma MatchesAreCandidates(recs: seq<Rec>, mt: string, key: string, t: int, inclInactive: bool)
    ensures forall i :: 0 <= i < |recs| ==>
      (Candidate(recs, i, mt, key, t, inclInactive) <==> Matches(recs[i], mt, key, t, inclInactive))
  {
  }

  /** A candidate of the tenant's own; an empty tenant id counts as none. */
  ghost predicate OwnCandidate(recs: seq<Rec>, i: int, mt: string, key: string, t: int, tenant: Tenant, incl: bool) {
    Candidate(recs, i, mt, key, t, incl) && tenant.Some? && tenant.value != "" && recs[i].tenant == tenant
  }

  ghost predicate GlobalCandidate(recs: seq<Rec>, i: int, mt: string, key: string, t: int, incl: bool) {
    Candidate(recs, i, mt, key, t, incl) && recs[i].tenant.None?
  }

  /** Main result: a lookup finds a record if and only if there is a candidate, and then the
      tenant's own first one, or without any the first global one, or else the last. */
  lemma LookupFinds(recs: seq<Rec>, mt: string, key: string, t: int, tenant: Tenant, incl: bool)
    ensures
      match Resolve(recs, mt, key, t, tenant, incl)
      case None => forall i :: !Candidate(recs, i, mt, key, t, incl)
      case Some(k) =>
        && Candidate(recs, k, mt, key, t, incl)
        && (if OwnCandidate(recs, k, mt, key, t, tenant, incl) then
              forall j :: 0 <= j < k ==> !OwnCandidate(recs, j, mt, key, t, tenant, incl)
            else if GlobalCandidate(recs, k, mt, key, t, incl) then
              && (forall j :: !OwnCandidate(recs, j, mt, key, t, tenant, incl))
              && forall j :: 0 <= j < k ==> !GlobalCandidate(recs, j, mt, key, t, incl)
            else
              && (forall j :: !OwnCandidate(recs, j, mt, key, t, tenant, incl))
              && (forall j :: !GlobalCandidate(recs, j, mt, key, t, incl))
              && forall j :: k < j ==> !Candidate(recs, j, mt, key, t, incl))
  {
    MatchesAreCandidates(recs, mt, key, t, incl);
    var found := Resolve(recs, mt, key, t, tenant, incl);
    if found.Some? {
      var own := FirstIndex(recs, OwnQuery(mt, key, t, tenant, incl));
      var global := FirstIndex(recs, GlobalQuery(mt, key, t, incl));
      forall j | 0 <= j < |recs|
        ensures OwnCandidate(recs, j, mt, key, t, tenant, incl) <==> OwnQuery(mt, key, t, tenant, incl)(recs[j])
        ensures GlobalCandidate(recs, j, mt, key, t, incl) <==> GlobalQuery(mt, key, t, incl)(recs[j])
      {
      }
    }
  }

  /** `list_records` visits these records. */
  predicate Listed(r: Rec, mt: string, t: int, inclInactive: bool) {
    r.masterType == mt && r.EffectiveAt(t) && (inclInactive || r.status.Published?)
  }

  predicate DistinctCodes(d: seq<Rec>) {
    forall i, j :: 0 <= i < j < |d| ==> d[i].code != d[j].code
  }

  function CodeIndex(d: seq<Rec>, code: string): (r: Option<nat>)
    ensures r.Some? ==> r.value < |d| && d[r.value].code == code
    ensures r.None? ==> forall i :: 0 <= i < |d| ==> d[i].code != code
  {
    FirstIndex(d, (r: Rec) => r.code == code)
  }

  /** One step of the loop that fills `by_code`. The dictionary is a sequence in insertion
      order whose entries are keyed by their own code. */
  function ByCodeStep(d: seq<Rec>, r: Rec, mt: string, t: int, tenant: Tenant, inclInactive: bool): seq<Rec> {
    if !Listed(r, mt, t, inclInactive) then d
    else
      match CodeIndex(d, r.code)
      case None => d + [r]
      case Some(i) => if TenantMatch(r, tenant) then d[i := r] else d
  }

  function ByCode(recs: seq<Rec>, mt: string, t: int, tenant: Tenant, inclInactive: bool): (d: seq<Rec>)
  {
    if recs == [] then []
    else
      ByCodeStep(ByCode(recs[..|recs| - 1], mt, t, tenant, inclInactive), recs[|recs| - 1], mt, t, tenant, inclInactive)
  }

  /** The sort key (sort_order, code). */
  predicate RecLeq(a: Rec, b: Rec) {
    a.content.sortOrder < b.content.sortOrder
    || (a.content.sortOrder == b.content.sortOrder && LexLeq(a.code, b.code))
  }

  predicate Sorted(s: seq<Rec>) {
    forall i, j :: 0 <= i < j < |s| ==> RecLeq(s[i], s[j])
  }

  function Insert(s: seq<Rec>, r: Rec): seq<Rec> {
    if s == [] || RecLeq(r, s[0]) then [r] + s else [s[0]] + Insert(s[1..], r)
  }

  function Sort(s: seq<Rec>): seq<Rec> {
    if s == [] then [] else Insert(Sort(s[..|s| - 1]), s[|s| - 1])
  }

  function ListRecords(recs: seq<Rec>, mt: string, t: int, tenant: Tenant, inclInactive: bool): seq<Rec> {
    Sort(ByCode(recs, mt, t, tenant, inclInactive))
  }

  lemma {:induction false} InsertAdds(s: seq<Rec>, r: Rec)
    ensures multiset(Insert(s, r)) == multiset(s) + multiset{r}
  {
    if s != [] && !RecLeq(r, s[0]) {
      InsertAdds(s[1..], r);
      assert s == [s[0]] + s[1..];
    }
  }

  lemma {:induction false} InsertedAreOld(s: seq<Rec>, r: Rec, j: nat)
    requires j < |Insert(s, r)|
    ensures Insert(s, r)[j] == r || Insert(s, r)[j] in s
  {
    if s != [] && !RecLeq(r, s[0]) && j > 0 {
      InsertedAreOld(s[1..], r, j - 1);
    }
  }

  lemma LeqTransitive(a: Rec, b: Rec, c: Rec)
    requires RecLeq(a, b) && RecLeq(b, c)
    ensures RecLeq(a, c)
  {
    if a.content.sortOrder == b.content.sortOrder == c.content.sortOrder {
      LexTransitive(a.code, b.code, c.code);
    }
  }

  lemma ConsKeepsOrder(r: Rec, s: seq<Rec>)
    requires Sorted(s) && forall j :: 0 <= j < |s| ==> RecLeq(r, s[j])
    ensures Sorted([r] + s)
  {
  }

  lemma {:induction false} InsertKeepsOrder(s: seq<Rec>, r: Rec)
    requires Sorted(s)
    ensures Sorted(Insert(s, r))
  {
    if s == [] {
    } else if RecLeq(r, s[0]) {
      forall j | 0 <= j < |s| ensures RecLeq(r, s[j]) {
        if j > 0 { LeqTransitive(r, s[0], s[j]); }
      }
      ConsKeepsOrder(r, s);
    } else {
      var tail := Insert(s[1..], r);
      InsertKeepsOrder(s[1..], r);
      LexTotal(r.code, s[0].code);
      forall j | 0 <= j < |tail| ensures RecLeq(s[0], tail[j]) {
        InsertedAreOld(s[1..], r, j);
      }
      ConsKeepsOrder(s[0], tail);
    }
  }

  lemma SortedBySortOrder(s: seq<Rec>)
    requires Sorted(s)
    ensures forall i, j :: 0 <= i < j < |s| ==>
      || s[i].content.sortOrder < s[j].content.sortOrder
      || (s[i].content.sortOrder == s[j].content.sortOrder
          && (s[i].code <= s[j].code || exists p :: DifferAt(s[i].code, s[j].code, p)))
  {
    forall i, j | 0 <= i < j < |s|
      ensures
        || s[i].content.sortOrder < s[j].content.sortOrder
        || (s[i].content.sortOrder == s[j].content.sortOrder
            && (s[i].code <= s[j].code || exists p :: DifferAt(s[i].code, s[j].code, p)))
    {
      assert RecLeq(s[i], s[j]);
      LexIsFirstDifference(s[i].code, s[j].code);
    }
  }

  /** Sorting yields a permutation, ordered by sort order and, within one, by code. */
  lemma {:induction false} SortIsPermutation(s: seq<Rec>)
    ensures Sorted(Sort(s)) && multiset(Sort(s)) == multiset(s)
    ensures
      var r := Sort(s);
      forall i, j :: 0 <= i < j < |r| ==>
        || r[i].content.sortOrder < r[j].content.sortOrder
        || (r[i].content.sortOrder == r[j].content.sortOrder
            && (r[i].code <= r[j].code || exists p :: DifferAt(r[i].code, r[j].code, p)))
  {
    if s != [] {
      var front, last := s[..|s| - 1], s[|s| - 1];
      SortIsPermutation(front);
      InsertKeepsOrder(Sort(front), last);
      InsertAdds(Sort(front), last);
      assert s == front + [last];
      SortedBySortOrder(Sort(s));
    }
  }
}
