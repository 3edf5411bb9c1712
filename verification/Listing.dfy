/** `list_records` against `get_record`. A lookup matches codes up to case, a list tells spellings
    apart; under the timeline invariant the list holds, for each code, exactly the record that a
    lookup resolves to if and only if the records in force are spelled alike. */
module Listing {
  import opened Records
  import opened Resolution
  import opened Timeline

  ghost predicate HasCode(d: seq<Rec>, code: string) {
    exists k :: 0 <= k < |d| && d[k].code == code
  }

  /** What the loop of `list_records` guarantees about its dictionary after `recs`. */
  ghost predicate Collected(d: seq<Rec>, recs: seq<Rec>, mt: string, t: int, tenant: Tenant, incl: bool) {
    && DistinctCodes(d)
    && (forall k :: 0 <= k < |d| ==> d[k] in recs && Listed(d[k], mt, t, incl))
    && (forall i :: 0 <= i < |recs| && Listed(recs[i], mt, t, incl) ==> HasCode(d, recs[i].code))
    && OwnFirst(d, recs, mt, t, tenant, incl)
  }

  /** An entry is the tenant's own if any visited record of its code was. */
  ghost predicate OwnFirst(d: seq<Rec>, recs: seq<Rec>, mt: string, t: int, tenant: Tenant, incl: bool) {
    forall i, k :: 0 <= i < |recs| && 0 <= k < |d| && recs[i].code == d[k].code ==>
      Listed(recs[i], mt, t, incl) && TenantMatch(recs[i], tenant) ==> TenantMatch(d[k], tenant)
  }

  lemma StepKeepsCodes(d: seq<Rec>, r: Rec, mt: string, t: int, tenant: Tenant, incl: bool)
    requires DistinctCodes(d)
    ensures DistinctCodes(ByCodeStep(d, r, mt, t, tenant, incl))
    ensures forall code :: HasCode(d, code) ==> HasCode(ByCodeStep(d, r, mt, t, tenant, incl), code)
    ensures Listed(r, mt, t, incl) ==> HasCode(ByCodeStep(d, r, mt, t, tenant, incl), r.code)
  {
    var d' := ByCodeStep(d, r, mt, t, tenant, incl);
    forall code | HasCode(d, code) ensures HasCode(d', code) {
      var k :| 0 <= k < |d| && d[k].code == code;
      assert d'[k].code == code;
    }
    if Listed(r, mt, t, incl) {
      var k := CodeIndex(d, r.code).GetOr(|d|);
      assert d'[k].code == r.code;
    }
  }

  lemma StepKeepsOwnFirst(d: seq<Rec>, recs: seq<Rec>, r: Rec, mt: string, t: int, tenant: Tenant, incl: bool)
    requires Collected(d, recs, mt, t, tenant, incl)
    ensures OwnFirst(ByCodeStep(d, r, mt, t, tenant, incl), recs + [r], mt, t, tenant, incl)
  {
  }

  lemma StepCollects(d: seq<Rec>, recs: seq<Rec>, r: Rec, mt: string, t: int, tenant: Tenant, incl: bool)
    requires Collected(d, recs, mt, t, tenant, incl)
    ensures Collected(ByCodeStep(d, r, mt, t, tenant, incl), recs + [r], mt, t, tenant, incl)
  {
    var d' := ByCodeStep(d, r, mt, t, tenant, incl);
    StepKeepsCodes(d, r, mt, t, tenant, incl);
    StepKeepsOwnFirst(d, recs, r, mt, t, tenant, incl);
    forall k | 0 <= k < |d'| ensures d'[k] in recs + [r] && Listed(d'[k], mt, t, incl) {
      if k < |d| && d'[k] == d[k] { assert d[k] in recs; }
    }
  }

  lemma {:induction false} ByCodeCollects(recs: seq<Rec>, mt: string, t: int, tenant: Tenant, incl: bool)
    ensures Collected(ByCode(recs, mt, t, tenant, incl), recs, mt, t, tenant, incl)
  {
    if recs != [] {
      var front := recs[..|recs| - 1];
      ByCodeCollects(front, mt, t, tenant, incl);
      StepCollects(ByCode(front, mt, t, tenant, incl), front, recs[|recs| - 1], mt, t, tenant, incl);
      assert recs == front + [recs[|recs| - 1]];
    }
  }

  /** What the loop visits, told by the fields: the type, this very code, the instant in the
      interval, and published unless the list is inclusive. */
  ghost predicate Visible(recs: seq<Rec>, i: int, mt: string, code: string, t: int, incl: bool) {
    && 0 <= i < |recs| && recs[i].masterType == mt && recs[i].code == code
    && recs[i].effectiveFrom <= t && (recs[i].effectiveTo.Some? ==> t < recs[i].effectiveTo.value)
    && (incl || recs[i].status == Published)
  }

  ghost predicate OwnVisible(recs: seq<Rec>, i: int, mt: string, code: string, t: int, tenant: Tenant, incl: bool) {
    Visible(recs, i, mt, code, t, incl) && tenant.Some? && tenant.value != "" && recs[i].tenant == tenant
  }

  /** The record shown for its code: the tenant's own last one, or without any the first one. */
  ghost predicate Shown(recs: seq<Rec>, i: int, mt: string, t: int, tenant: Tenant, incl: bool) {
    && 0 <= i < |recs| && Visible(recs, i, mt, recs[i].code, t, incl)
    && if OwnVisible(recs, i, mt, recs[i].code, t, tenant, incl) then
         forall j :: i < j ==> !OwnVisible(recs, j, mt, recs[i].code, t, tenant, incl)
       else
         && (forall j :: !OwnVisible(recs, j, mt, recs[i].code, t, tenant, incl))
         && forall j :: 0 <= j < i ==> !Visible(recs, j, mt, recs[i].code, t, incl)
  }

  ghost predicate ShownAs(recs: seq<Rec>, r: Rec, mt: string, t: int, tenant: Tenant, incl: bool) {
    exists i :: 0 <= i < |recs| && recs[i] == r && Shown(recs, i, mt, t, tenant, incl)
  }

  lemma VisibleGrows(recs: seq<Rec>, r: Rec, mt: string, code: string, t: int, tenant: Tenant, incl: bool)
    ensures forall i :: 0 <= i < |recs| ==>
      && (Visible(recs + [r], i, mt, code, t, incl) <==> Visible(recs, i, mt, code, t, incl))
      && (OwnVisible(recs + [r], i, mt, code, t, tenant, incl) <==> OwnVisible(recs, i, mt, code, t, tenant, incl))
  {
  }

  /** An entry stays shown after one more record, unless that is of its code and the tenant's own. */
  lemma StillShown(recs: seq<Rec>, x: Rec, r: Rec, mt: string, t: int, tenant: Tenant, incl: bool)
    requires ShownAs(recs, x, mt, t, tenant, incl)
    requires Listed(r, mt, t, incl) && r.code == x.code ==> !TenantMatch(r, tenant)
    ensures ShownAs(recs + [r], x, mt, t, tenant, incl)
  {
    var i :| 0 <= i < |recs| && recs[i] == x && Shown(recs, i, mt, t, tenant, incl);
    VisibleGrows(recs, r, mt, x.code, t, tenant, incl);
    assert (recs + [r])[i] == x;
    assert Shown(recs + [r], i, mt, t, tenant, incl);
  }

  /** A record that is the tenant's own, or the first of its code, is shown when visited. */
  lemma NewlyShown(recs: seq<Rec>, r: Rec, mt: string, t: int, tenant: Tenant, incl: bool)
    requires Listed(r, mt, t, incl)
    requires TenantMatch(r, tenant) || forall i :: 0 <= i < |recs| ==> !Visible(recs, i, mt, r.code, t, incl)
    ensures ShownAs(recs + [r], r, mt, t, tenant, incl)
  {
    VisibleGrows(recs, r, mt, r.code, t, tenant, incl);
    assert (recs + [r])[|recs|] == r;
    assert Shown(recs + [r], |recs|, mt, t, tenant, incl);
  }

  lemma {:induction false} ByCodeShows(recs: seq<Rec>, mt: string, t: int, tenant: Tenant, incl: bool)
    ensures forall x :: x in ByCode(recs, mt, t, tenant, incl) ==> ShownAs(recs, x, mt, t, tenant, incl)
  {
    if recs != [] {
      var front, r := recs[..|recs| - 1], recs[|recs| - 1];
      var d := ByCode(front, mt, t, tenant, incl);
      assert recs == front + [r];
      ByCodeShows(front, mt, t, tenant, incl);
      ByCodeCollects(front, mt, t, tenant, incl);
      forall x | x in ByCode(recs, mt, t, tenant, incl) ensures ShownAs(recs, x, mt, t, tenant, incl) {
        StepShows(front, d, r, x, mt, t, tenant, incl);
      }
    }
  }

  lemma StepShows(recs: seq<Rec>, d: seq<Rec>, r: Rec, x: Rec, mt: string, t: int, tenant: Tenant, incl: bool)
    requires Collected(d, recs, mt, t, tenant, incl) && x in ByCodeStep(d, r, mt, t, tenant, incl)
    requires forall y :: y in d ==> ShownAs(recs, y, mt, t, tenant, incl)
    ensures ShownAs(recs + [r], x, mt, t, tenant, incl)
  {
    if Listed(r, mt, t, incl) {
      var at := CodeIndex(d, r.code);
      if at.None? {
        forall i | 0 <= i < |recs| ensures !Visible(recs, i, mt, r.code, t, incl) {
          assert Visible(recs, i, mt, r.code, t, incl) ==> HasCode(d, recs[i].code);
        }
        if x in d { StillShown(recs, x, r, mt, t, tenant, incl); } else { NewlyShown(recs, r, mt, t, tenant, incl); }
      } else if TenantMatch(r, tenant) {
        if x == r {
          NewlyShown(recs, r, mt, t, tenant, incl);
        } else {
          var k :| 0 <= k < |d| && k != at.value && d[k] == x;
          StillShown(recs, x, r, mt, t, tenant, incl);
        }
      } else {
        StillShown(recs, x, r, mt, t, tenant, incl);
      }
    } else {
      StillShown(recs, x, r, mt, t, tenant, incl);
    }
  }

  /** Main result: what a list holds, told by the fields. Every visible code has one entry, which
      is the tenant's own last visible record or, without any, the first one; nothing else is in. */
  lemma ListShows(recs: seq<Rec>, mt: string, t: int, tenant: Tenant, incl: bool)
    ensures
      var list := ListRecords(recs, mt, t, tenant, incl);
      && (forall j, k :: 0 <= j < k < |list| ==> list[j].code != list[k].code)
      && (forall x :: x in list ==> ShownAs(recs, x, mt, t, tenant, incl))
      && (forall i :: 0 <= i < |recs| && Visible(recs, i, mt, recs[i].code, t, incl) ==> HasCode(list, recs[i].code))
  {
    ByCodeShows(recs, mt, t, tenant, incl);
    ByCodeCollects(recs, mt, t, tenant, incl);
    ListCollects(recs, mt, t, tenant, incl);
    SortKeepsDistinct(ByCode(recs, mt, t, tenant, incl));
  }

  lemma {:induction false} InsertKeepsDistinct(s: seq<Rec>, r: Rec)
    requires DistinctCodes(s) && forall i :: 0 <= i < |s| ==> s[i].code != r.code
    ensures DistinctCodes(Insert(s, r))
    ensures forall x :: x in Insert(s, r) <==> x == r || x in s
  {
    if s != [] && !RecLeq(r, s[0]) {
      InsertKeepsDistinct(s[1..], r);
      assert s == [s[0]] + s[1..];
      forall x | x in Insert(s[1..], r) ensures x.code != s[0].code {
        if x != r { var i :| 0 <= i < |s[1..]| && s[1..][i] == x; assert s[i + 1] == x; }
      }
    }
  }

  lemma {:induction false} SortKeepsDistinct(s: seq<Rec>)
    requires DistinctCodes(s)
    ensures DistinctCodes(Sort(s))
    ensures forall x :: x in Sort(s) <==> x in s
  {
    if s != [] {
      var front := s[..|s| - 1];
      SortKeepsDistinct(front);
      forall i | 0 <= i < |Sort(front)| ensures Sort(front)[i].code != s[|s| - 1].code {
        assert Sort(front)[i] in front;
      }
      InsertKeepsDistinct(Sort(front), s[|s| - 1]);
      assert s == front + [s[|s| - 1]];
    }
  }

  /** The records of a code in force are global or the tenant's own. */
  ghost predicate InScope(recs: seq<Rec>, mt: string, key: string, t: int, tenant: Tenant) {
    forall i :: 0 <= i < |recs| && Matches(recs[i], mt, key, t, false) ==>
      TenantMatch(recs[i], tenant) || recs[i].tenant.None?
  }

  /** The records of a code in force have one spelling. */
  ghost predicate SpelledAlike(recs: seq<Rec>, mt: string, key: string, t: int) {
    forall i, j :: 0 <= i < |recs| && 0 <= j < |recs| ==>
      Matches(recs[i], mt, key, t, false) && Matches(recs[j], mt, key, t, false) ==> recs[i].code == recs[j].code
  }

  ghost predicate ListsKey(d: seq<Rec>, key: string) {
    exists k :: 0 <= k < |d| && d[k].Key() == key
  }

  /** The entries of a code, if there is any, are all the record that was looked up. */
  ghost predicate AgreesWith(list: seq<Rec>, recs: seq<Rec>, key: string, found: Option<nat>)
    requires found.Some? ==> found.value < |recs|
  {
    forall k :: 0 <= k < |list| && list[k].Key() == key ==> found.Some? && list[k] == recs[found.value]
  }

  /** In a sound store two records of one code in force and of one kind of scope are the same. */
  lemma ScopeIsUnique(recs: seq<Rec>, clock: int, mt: string, key: string, t: int, tenant: Tenant, i: nat, j: nat)
    requires Timelines(recs, clock) && InScope(recs, mt, key, t, tenant) && i < |recs| && j < |recs|
    requires Matches(recs[i], mt, key, t, false) && Matches(recs[j], mt, key, t, false)
    requires TenantMatch(recs[i], tenant) == TenantMatch(recs[j], tenant)
    ensures i == j
  {
    if i != j { PairAt(recs, clock, i, j); }
  }

  /** The list has the visible codes, each once, and the tenant's own record where it has one. */
  lemma ListCollects(recs: seq<Rec>, mt: string, t: int, tenant: Tenant, incl: bool)
    ensures
      var list := ListRecords(recs, mt, t, tenant, incl);
      && Sorted(list) && Collected(list, recs, mt, t, tenant, incl)
  {
    var d, list := ByCode(recs, mt, t, tenant, incl), ListRecords(recs, mt, t, tenant, incl);
    ByCodeCollects(recs, mt, t, tenant, incl);
    SortIsPermutation(d);
    SortKeepsDistinct(d);
    forall k | 0 <= k < |list| ensures list[k] in d && list[k] in recs && Listed(list[k], mt, t, incl) {
      assert list[k] in d;
    }
    forall i | 0 <= i < |recs| && Listed(recs[i], mt, t, incl) ensures HasCode(list, recs[i].code) {
      var k :| 0 <= k < |d| && d[k].code == recs[i].code;
      assert d[k] in list;
    }
  }

  /** An entry that is spelled like the record looked up is that record. */
  lemma EntryIsResolved(recs: seq<Rec>, clock: int, mt: string, key: string, t: int, tenant: Tenant, list: seq<Rec>,
                        k: nat)
    requires Timelines(recs, clock) && InScope(recs, mt, key, t, tenant)
    requires Collected(list, recs, mt, t, tenant, false) && k < |list| && list[k].Key() == key
    ensures Resolve(recs, mt, key, t, tenant, false).Some?
    ensures var r := recs[Resolve(recs, mt, key, t, tenant, false).value];
      list[k].code == r.code ==> list[k] == r
  {
    var i :| 0 <= i < |recs| && recs[i] == list[k];
    assert Matches(recs[i], mt, key, t, false);
    ResolvePrecedence(recs, mt, key, t, tenant, false, i);
    var r := Resolve(recs, mt, key, t, tenant, false).value;
    if list[k].code == recs[r].code {
      assert Listed(recs[r], mt, t, false);
      ScopeIsUnique(recs, clock, mt, key, t, tenant, i, r);
    }
  }

  /** Main result. The list is ordered, has one entry per spelling, and has an entry of a code
      exactly when `get_record` finds one. Those entries are the record it finds, with the
      tenant's beating the global one, if and only if the records in force are spelled alike. */
  lemma ListRefinesGetExactlyWhen(recs: seq<Rec>, clock: int, mt: string, key: string, t: int, tenant: Tenant)
    requires Timelines(recs, clock) && InScope(recs, mt, key, t, tenant)
    ensures
      var list := ListRecords(recs, mt, t, tenant, false);
      var found := Resolve(recs, mt, key, t, tenant, false);
      && Sorted(list) && DistinctCodes(list)
      && (found.Some? <==> ListsKey(list, key))
      && (AgreesWith(list, recs, key, found) <==> SpelledAlike(recs, mt, key, t))
  {
    var list := ListRecords(recs, mt, t, tenant, false);
    var found := Resolve(recs, mt, key, t, tenant, false);
    ListCollects(recs, mt, t, tenant, false);
    if found.Some? {
      assert HasCode(list, recs[found.value].code);
      var k :| 0 <= k < |list| && list[k].code == recs[found.value].code;
      assert list[k].Key() == key;
    }
    forall k | 0 <= k < |list| && list[k].Key() == key
      ensures found.Some? && (SpelledAlike(recs, mt, key, t) ==> list[k] == recs[found.value])
    {
      EntryIsResolved(recs, clock, mt, key, t, tenant, list, k);
      var i :| 0 <= i < |recs| && recs[i] == list[k];
      assert Matches(recs[i], mt, key, t, false);
    }
    if AgreesWith(list, recs, key, found) {
      forall i | 0 <= i < |recs| && Matches(recs[i], mt, key, t, false)
        ensures found.Some? && recs[i].code == recs[found.value].code
      {
        assert HasCode(list, recs[i].code);
        var k :| 0 <= k < |list| && list[k].code == recs[i].code;
        assert list[k].Key() == key;
      }
    }
  }

  /** So spelled alike, a code has exactly one entry. */
  lemma SpelledAlikeIsListedOnce(recs: seq<Rec>, clock: int, mt: string, key: string, t: int, tenant: Tenant)
    requires Timelines(recs, clock) && InScope(recs, mt, key, t, tenant) && SpelledAlike(recs, mt, key, t)
    requires Resolve(recs, mt, key, t, tenant, false).Some?
    ensures
      var list := ListRecords(recs, mt, t, tenant, false);
      exists k :: 0 <= k < |list| && list[k] == recs[Resolve(recs, mt, key, t, tenant, false).value]
        && forall j :: 0 <= j < |list| && j != k ==> list[j].Key() != key
  {
    var list := ListRecords(recs, mt, t, tenant, false);
    ListRefinesGetExactlyWhen(recs, clock, mt, key, t, tenant);
    var k :| 0 <= k < |list| && list[k].Key() == key;
    forall j | 0 <= j < |list| && j != k ensures list[j].Key() != key {
      assert list[j].code != list[k].code;
    }
  }
}
