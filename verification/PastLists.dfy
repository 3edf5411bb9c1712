/** The past is immutable for listings too: `list_records` as of an instant before the clock
    keeps its entries, their order and their business fields whatever is called later. */
module PastLists {
  import opened Records
  import opened Resolution
  import opened Lifecycle
  import opened PastReads

  function FrozenAll(d: seq<Rec>): (f: seq<Rec>)
    ensures |f| == |d|
  {
    seq(|d|, i requires 0 <= i < |d| => Frozen(d[i]))
  }

  lemma FrozenFirst(d: seq<Rec>, d': seq<Rec>, code: string)
    requires FrozenAll(d) == FrozenAll(d')
    ensures CodeIndex(d, code) == CodeIndex(d', code)
  {
    forall i | 0 <= i < |d| ensures d[i].code == d'[i].code {
      assert FrozenAll(d)[i] == FrozenAll(d')[i];
    }
  }

  lemma StepIsStable(d: seq<Rec>, d': seq<Rec>, r: Rec, r': Rec, mt: string, t: int, tenant: Tenant)
    requires FrozenAll(d) == FrozenAll(d') && SameAt(r, r', t)
    ensures FrozenAll(ByCodeStep(d, r, mt, t, tenant, false)) == FrozenAll(ByCodeStep(d', r', mt, t, tenant, false))
  {
    if Listed(r, mt, t, false) {
      assert Frozen(r).code == Frozen(r').code && Frozen(r).tenant == Frozen(r').tenant;
      assert Frozen(r).masterType == Frozen(r').masterType;
      FrozenFirst(d, d', r.code);
      assert FrozenAll(d + [r]) == FrozenAll(d) + [Frozen(r)];
      assert FrozenAll(d' + [r']) == FrozenAll(d') + [Frozen(r')];
      match CodeIndex(d, r.code)
      case None =>
      case Some(i) =>
        assert FrozenAll(d[i := r]) == FrozenAll(d)[i := Frozen(r)];
        assert FrozenAll(d'[i := r']) == FrozenAll(d')[i := Frozen(r')];
    }
  }

  lemma {:induction false} ByCodeIsStable(recs: seq<Rec>, recs': seq<Rec>, mt: string, t: int, tenant: Tenant)
    requires |recs| == |recs'| && forall i :: 0 <= i < |recs| ==> SameAt(recs[i], recs'[i], t)
    ensures FrozenAll(ByCode(recs, mt, t, tenant, false)) == FrozenAll(ByCode(recs', mt, t, tenant, false))
  {
    if recs != [] {
      var n := |recs| - 1;
      ByCodeIsStable(recs[..n], recs'[..n], mt, t, tenant);
      StepIsStable(ByCode(recs[..n], mt, t, tenant, false), ByCode(recs'[..n], mt, t, tenant, false), recs[n],
                   recs'[n], mt, t, tenant);
    }
  }

  lemma {:induction false} InvisibleAreSkipped(recs: seq<Rec>, n: nat, mt: string, t: int, tenant: Tenant)
    requires n <= |recs| && forall i :: n <= i < |recs| ==> !VisibleAt(recs[i], t)
    ensures ByCode(recs, mt, t, tenant, false) == ByCode(recs[..n], mt, t, tenant, false)
  {
    if n == |recs| {
      assert recs[..n] == recs;
    } else {
      InvisibleAreSkipped(recs[..|recs| - 1], n, mt, t, tenant);
      assert recs[..|recs| - 1][..n] == recs[..n];
    }
  }

  lemma {:induction false} InsertCommutes(s: seq<Rec>, r: Rec)
    ensures FrozenAll(Insert(s, r)) == Insert(FrozenAll(s), Frozen(r))
  {
    if s == [] || RecLeq(r, s[0]) {
      assert FrozenAll([r] + s) == [Frozen(r)] + FrozenAll(s);
    } else {
      InsertCommutes(s[1..], r);
      assert FrozenAll(s)[1..] == FrozenAll(s[1..]);
      assert FrozenAll([s[0]] + Insert(s[1..], r)) == [Frozen(s[0])] + FrozenAll(Insert(s[1..], r));
    }
  }

  lemma {:induction false} SortCommutes(s: seq<Rec>)
    ensures FrozenAll(Sort(s)) == Sort(FrozenAll(s))
  {
    if s != [] {
      var front := s[..|s| - 1];
      SortCommutes(front);
      InsertCommutes(Sort(front), s[|s| - 1]);
      assert FrozenAll(s)[..|front|] == FrozenAll(front);
    }
  }

  /** Main result. */
  lemma PastListIsImmutable(reg: Registry, s: State, steps: seq<Step>, clock: int, t: int, mt: string, tenant: Tenant)
    requires t < clock && Clocked(steps, clock)
    requires forall k :: 0 <= k < |steps| ==> KeepsPast(reg, steps[k].op, clock)
    ensures FrozenAll(ListRecords(s.recs, mt, t, tenant, false))
      == FrozenAll(ListRecords(Run(reg, s, steps).recs, mt, t, tenant, false))
  {
    var recs' := Run(reg, s, steps).recs;
    RunKeepsPast(reg, s, steps, clock, clock, t);
    ByCodeIsStable(s.recs, recs'[..|s.recs|], mt, t, tenant);
    InvisibleAreSkipped(recs', |s.recs|, mt, t, tenant);
    SortCommutes(ByCode(s.recs, mt, t, tenant, false));
    SortCommutes(ByCode(recs', mt, t, tenant, false));
  }
}
