/** The reference-integrity guard: live references reported by providers, tallied by entity. */
module References {
  import opened Records

  /** What one provider returned: (entity, count) items, or none if it raised. */
  type Reported = Option<seq<(string, int)>>

  /** The provider results in order, and the simulated references of the value. */
  datatype Evidence = Evidence(providers: seq<Reported>, simulated: seq<(string, int)>)

  /** All reported items; a provider that raised counts for nothing. */
  function Items(e: Evidence): seq<(string, int)> {
    ProviderItems(e.providers) + e.simulated
  }

  function ProviderItems(providers: seq<Reported>): seq<(string, int)> {
    if providers == [] then []
    else ProviderItems(providers[..|providers| - 1]) + providers[|providers| - 1].GetOr([])
  }

  function SumOf(items: seq<(string, int)>): int {
    if items == [] then 0 else SumOf(items[..|items| - 1]) + items[|items| - 1].1
  }

  function SumFor(items: seq<(string, int)>, entity: string): int {
    if items == [] then 0
    else SumFor(items[..|items| - 1], entity) + if items[|items| - 1].0 == entity then items[|items| - 1].1 else 0
  }

  /** The items are exactly those that some provider returned and the simulated ones. */
  lemma {:induction false} ItemsAreReported(e: Evidence, item: (string, int))
    ensures item in Items(e) <==>
      || item in e.simulated
      || exists p :: 0 <= p < |e.providers| && e.providers[p].Some? && item in e.providers[p].value
    decreases |e.providers|
  {
    if e.providers != [] {
      var n := |e.providers| - 1;
      var front := Evidence(e.providers[..n], e.simulated);
      ItemsAreReported(front, item);
      if p :| 0 <= p < |e.providers| && e.providers[p].Some? && item in e.providers[p].value {
        assert p < n ==> front.providers[p] == e.providers[p];
      }
    }
  }

  /** So their sum is that of the sums by provider and of the simulated ones. */
  lemma {:induction false} SumIsOfParts(a: seq<(string, int)>, b: seq<(string, int)>)
    ensures SumOf(a + b) == SumOf(a) + SumOf(b)
  {
    if b == [] {
      assert a + b == a;
    } else {
      assert (a + b)[..|a + b| - 1] == a + b[..|b| - 1];
      SumIsOfParts(a, b[..|b| - 1]);
    }
  }

  ghost function SumOfValues(m: map<string, int>): int {
    if m == map[] then 0 else var k :| k in m; m[k] + SumOfValues(m - {k})
  }

  lemma {:induction false} SumWithout(m: map<string, int>, k: string)
    requires k in m
    ensures SumOfValues(m) == m[k] + SumOfValues(m - {k})
    decreases |m|
  {
    var j :| j in m && SumOfValues(m) == m[j] + SumOfValues(m - {j});
    if j != k {
      SumWithout(m - {j}, k);
      SumWithout(m - {k}, j);
      assert m - {j} - {k} == m - {k} - {j};
    }
  }

  lemma SumAfterUpdate(m: map<string, int>, k: string, v: int)
    ensures SumOfValues(m[k := v]) == SumOfValues(m) + v - if k in m then m[k] else 0
  {
    SumWithout(m[k := v], k);
    assert m[k := v] - {k} == m - {k};
    if k in m {
      SumWithout(m, k);
    } else {
      assert m - {k} == m;
    }
  }

  ghost predicate Mentions(items: seq<(string, int)>, e: string) {
    exists i :: 0 <= i < |items| && items[i].0 == e
  }

  /** A tally is right when it has the reported entities, each with the sum of its counts. */
  ghost predicate Tallies(counts: map<string, int>, items: seq<(string, int)>) {
    && (forall e :: e in counts <==> Mentions(items, e))
    && (forall e :: e in counts ==> counts[e] == SumFor(items, e))
    && SumOfValues(counts) == SumOf(items)
  }

  lemma {:induction false} NoItemsNoSum(items: seq<(string, int)>, e: string)
    requires !Mentions(items, e)
    ensures SumFor(items, e) == 0
  {
    if items != [] {
      assert items[|items| - 1].0 != e;
      NoItemsNoSum(items[..|items| - 1], e);
    }
  }

  lemma MentionsGrows(items: seq<(string, int)>, item: (string, int), e: string)
    ensures Mentions(items + [item], e) <==> Mentions(items, e) || item.0 == e
  {
    var all := items + [item];
    if Mentions(items, e) {
      var i :| 0 <= i < |items| && items[i].0 == e;
      assert all[i].0 == e;
    }
    assert all[|items|] == item;
  }

  function Add(counts: map<string, int>, item: (string, int)): map<string, int> {
    counts[item.0 := (if item.0 in counts then counts[item.0] else 0) + item.1]
  }

  lemma TallyGrows(counts: map<string, int>, items: seq<(string, int)>, item: (string, int))
    requires Tallies(counts, items)
    ensures Tallies(Add(counts, item), items + [item])
  {
    var counts' := Add(counts, item);
    assert (items + [item])[..|items|] == items;
    SumAfterUpdate(counts, item.0, counts'[item.0]);
    if item.0 !in counts { NoItemsNoSum(items, item.0); }
    forall e ensures e in counts' <==> Mentions(items + [item], e) {
      MentionsGrows(items, item, e);
    }
  }

  /** Adds one dictionary of counts to the tally. */
  method AddCounts(counts: map<string, int>, more: seq<(string, int)>, ghost items: seq<(string, int)>)
    returns (counts': map<string, int>)
    requires Tallies(counts, items)
    ensures Tallies(counts', items + more)
  {
    counts' := counts;
    assert items + more[..0] == items;
    for i := 0 to |more|
      invariant Tallies(counts', items + more[..i])
    {
      TallyGrows(counts', items + more[..i], more[i]);
      assert items + more[..i + 1] == items + more[..i] + [more[i]];
      counts' := Add(counts', more[i]);
    }
    assert more[..|more|] == more;
  }

  /** `sum(ref_counts.values())` */
  method SumValues(counts: map<string, int>) returns (total: int)
    ensures total == SumOfValues(counts)
  {
    total := 0;
    var rest := counts;
    while rest != map[]
      invariant total + SumOfValues(rest) == SumOfValues(counts)
      decreases |rest|
    {
      var k :| k in rest;
      SumWithout(rest, k);
      total := total + rest[k];
      rest := rest - {k};
    }
  }

  /** Asks every provider, skipping those that raise. */
  method AskProviders(providers: seq<Reported>) returns (counts: map<string, int>)
    ensures Tallies(counts, ProviderItems(providers))
  {
    counts := map[];
    for i := 0 to |providers|
      invariant Tallies(counts, ProviderItems(providers[..i]))
    {
      ghost var before := ProviderItems(providers[..i]);
      assert providers[..i + 1][..i] == providers[..i];
      assert ProviderItems(providers[..i + 1]) == before + providers[i].GetOr([]);
      if providers[i].Some? {
        counts := AddCounts(counts, providers[i].value, before);
      } else {
        assert before + [] == before;
      }
    }
    assert providers[..|providers|] == providers;
  }

  /** `check_reference_integrity`: nothing reported is lost or counted twice, and the value is
      in use exactly when the reported counts add up to more than zero. */
  method CheckReferenceIntegrity(e: Evidence) returns (counts: map<string, int>, total: int, inUse: bool)
    ensures Tallies(counts, Items(e))
    ensures total == SumOf(Items(e)) && inUse == (total > 0)
  {
    counts := AskProviders(e.providers);
    counts := AddCounts(counts, e.simulated, ProviderItems(e.providers));
    total := SumValues(counts);
    inUse := total > 0;
  }
}
