/** Average development factors per age transition
    (`calculate_development_factors`, app.py lines 71-92). */
module Factors {
  import opened Common
  import opened Pivoting

  /** The last transition estimated: `range(1, 25)` (app.py line 76). */
  const Horizon: int := 24

  /** The summary of one transition; the standard deviation is not modelled. */
  datatype FactorEntry = FactorEntry(mean: real, min: real, max: real, n: nat)

  /** A cohort row takes part in transition `t` when its value at MOB `t-1` is
      positive (a NaN is not) and its value at MOB `t` is present (app.py line 80). */
  predicate Contributes(row: map<int, real>, t: int) {
    t - 1 in row && row[t - 1] > 0.0 && t in row
  }

  /** The individual development factor of one cohort (app.py line 82). */
  function Ratio(row: map<int, real>, t: int): real
    requires Contributes(row, t)
  {
    row[t] / row[t - 1]
  }

  /** The cohorts among `cs` whose rows take part in transition `t`, in order. */
  function ContributorsAmong(cs: seq<string>, rows: map<string, map<int, real>>, t: int): (r: seq<string>)
    ensures forall c :: c in r <==> c in cs && c in rows && Contributes(rows[c], t)
    ensures |r| <= |cs|
  {
    if |cs| == 0 then []
    else
      var c := cs[|cs| - 1];
      ContributorsAmong(cs[..|cs| - 1], rows, t) + (if c in rows && Contributes(rows[c], t) then [c] else [])
  }

  /** The mask `valid_mask` of app.py line 80, as the list of cohorts it selects. */
  function Contributors(p: PivotTable, t: int): (r: seq<string>)
    ensures forall c :: c in r <==> c in p.index && c in p.rows && Contributes(p.rows[c], t)
  {
    ContributorsAmong(p.index, p.rows, t)
  }

  /** `individual_factors` of app.py line 82: one ratio per contributing cohort. */
  function Ratios(p: PivotTable, t: int): (rs: seq<real>)
    ensures |rs| == |Contributors(p, t)|
    ensures forall k :: 0 <= k < |rs| ==>
      var c := Contributors(p, t)[k];
      c in p.rows && p.rows[c][t - 1] > 0.0 && rs[k] * p.rows[c][t - 1] == p.rows[c][t]
  {
    var cs := Contributors(p, t);
    seq(|cs|, k requires 0 <= k < |cs| => Ratio(p.rows[cs[k]], t))
  }

  function Sum(s: seq<real>): real {
    if |s| == 0 then 0.0 else Sum(s[..|s| - 1]) + s[|s| - 1]
  }

  function MinOf(s: seq<real>): (r: real)
    requires |s| > 0
    ensures r in s && forall k :: 0 <= k < |s| ==> r <= s[k]
  {
    if |s| == 1 then s[0]
    else
      var m := MinOf(s[..|s| - 1]);
      if s[|s| - 1] < m then s[|s| - 1] else m
  }

  function MaxOf(s: seq<real>): (r: real)
    requires |s| > 0
    ensures r in s && forall k :: 0 <= k < |s| ==> s[k] <= r
  {
    if |s| == 1 then s[0]
    else
      var m := MaxOf(s[..|s| - 1]);
      if s[|s| - 1] > m then s[|s| - 1] else m
  }

  /** The simple (unweighted) mean; it lies between the least and the greatest element. */
  function Mean(s: seq<real>): (r: real)
    requires |s| > 0
    ensures MinOf(s) <= r <= MaxOf(s)
  {
    SumBounds(s, MinOf(s), MaxOf(s));
    MeanOfBounded(s, MinOf(s), MaxOf(s));
    Sum(s) / (|s| as real)
  }

  /** The entry for transition `t`: None when MOB `t-1` or MOB `t` is not a
      column of the pivot (app.py line 79) or when no cohort takes part
      (app.py line 81). */
  function EntryAt(p: PivotTable, t: int): Option<FactorEntry> {
    if t - 1 in p.columns && t in p.columns then
      var rs := Ratios(p, t);
      if |rs| == 0 then None
      else Some(FactorEntry(Mean(rs), MinOf(rs), MaxOf(rs), |rs|))
    else None
  }

  /** `calculate_development_factors`: for each transition 1..24, the mean,
      min, max and count of the individual factors of the contributing cohorts;
      `factors` holds the means alone. */
  method CalculateDevelopmentFactors(p: PivotTable) returns (factors: map<int, real>, factorsDetail: map<int, FactorEntry>)
    ensures forall t :: t in factorsDetail <==> 1 <= t <= Horizon && EntryAt(p, t).Some?
    ensures forall t :: t in factorsDetail ==> factorsDetail[t] == EntryAt(p, t).value
    ensures factors.Keys == factorsDetail.Keys
    ensures forall t :: t in factors ==> factors[t] == factorsDetail[t].mean
  {
    factors, factorsDetail := map[], map[];
    for mob := 1 to Horizon + 1
      invariant forall t :: t in factorsDetail <==> 1 <= t < mob && EntryAt(p, t).Some?
      invariant forall t :: t in factorsDetail ==> factorsDetail[t] == EntryAt(p, t).value
      invariant factors.Keys == factorsDetail.Keys
      invariant forall t :: t in factors ==> factors[t] == factorsDetail[t].mean
    {
      var prevCol, currCol := mob - 1, mob;
      if prevCol in p.columns && currCol in p.columns {
        var individualFactors := Ratios(p, mob);
        if |individualFactors| > 0 {
          var n := |individualFactors|;
          var mean := Mean(individualFactors);
          var entry := FactorEntry(mean, MinOf(individualFactors), MaxOf(individualFactors), n);
          assert EntryAt(p, mob) == Some(entry);
          factors := factors[mob := mean];
          factorsDetail := factorsDetail[mob := entry];
        } else {
          assert EntryAt(p, mob) == None;
        }
      } else {
        assert EntryAt(p, mob) == None;
      }
    }
  }

  // ---------------------------------------------------------------------
  // Properties of the factor table
  // ---------------------------------------------------------------------

  /** The cohorts of the pivot that take part in transition `t`. */
  ghost function ContributorSet(p: PivotTable, t: int): set<string> {
    set c | c in p.rows && Contributes(p.rows[c], t)
  }

  predicate Distinct(s: seq<string>) {
    forall k, k' :: 0 <= k < k' < |s| ==> s[k] != s[k']
  }

  lemma {:induction false} ContributorsAmongDistinct(cs: seq<string>, rows: map<string, map<int, real>>, t: int)
    requires Distinct(cs)
    ensures Distinct(ContributorsAmong(cs, rows, t))
  {
    if |cs| > 0 {
      var prefix := cs[..|cs| - 1];
      ContributorsAmongDistinct(prefix, rows, t);
      assert cs[|cs| - 1] !in prefix;
    }
  }

  lemma {:induction false} DistinctCardinality(s: seq<string>)
    requires Distinct(s)
    ensures |set x | x in s| == |s|
  {
    if |s| > 0 {
      var prefix := s[..|s| - 1];
      DistinctCardinality(prefix);
      assert (set x | x in s) == (set x | x in prefix) + {s[|s| - 1]};
      assert s[|s| - 1] !in prefix;
    }
  }

  /** Transition `t` has an entry iff some cohort of the pivot takes part in it
      (the column check of app.py line 79 never rejects a transition that has
      contributors), and then `n` is exactly the number of those cohorts, so
      `n >= 1`; each of them contributes one ratio. */
  lemma EntryCount(p: PivotTable, t: int)
    requires ValidPivot(p)
    ensures EntryAt(p, t).Some? <==> ContributorSet(p, t) != {}
    ensures EntryAt(p, t).Some? ==> EntryAt(p, t).value.n == |ContributorSet(p, t)| >= 1
    ensures Distinct(Contributors(p, t)) && (set c | c in Contributors(p, t)) == ContributorSet(p, t)
  {
    ContributorsCounted(p, t);
    var cs := Contributors(p, t);
    if |cs| > 0 {
      var c := cs[0];
      assert c in ContributorSet(p, t);
      assert t - 1 in p.rows[c] && t in p.rows[c];
    }
  }

  /** The contributors are listed once each: they are the set of contributing cohorts. */
  lemma ContributorsCounted(p: PivotTable, t: int)
    requires ValidPivot(p)
    ensures Distinct(Contributors(p, t)) && (set c | c in Contributors(p, t)) == ContributorSet(p, t)
    ensures |Contributors(p, t)| == |ContributorSet(p, t)|
  {
    var cs := Contributors(p, t);
    ContributorsAmongDistinct(p.index, p.rows, t);
    DistinctCardinality(cs);
    assert (set c | c in cs) == ContributorSet(p, t);
  }

  /** An entry summarises exactly the ratios of the contributing cohorts, in
      index order: `n` counts them, `mean` is their sum over `n`, and `min` and
      `max` are the least and the greatest of them, so `min <= mean <= max`. */
  lemma FactorSummary(p: PivotTable, t: int)
    requires EntryAt(p, t).Some?
    ensures var e := EntryAt(p, t).value;
      var rs := Ratios(p, t);
      var cs := Contributors(p, t);
      e.n == |rs| == |cs| >= 1 &&
      (forall k :: 0 <= k < |rs| ==> Contributes(p.rows[cs[k]], t) && rs[k] == p.rows[cs[k]][t] / p.rows[cs[k]][t - 1]) &&
      e.mean == Sum(rs) / (e.n as real) &&
      e.min in rs && e.max in rs &&
      (forall k :: 0 <= k < |rs| ==> e.min <= rs[k] <= e.max) &&
      e.min <= e.mean <= e.max
  {
  }

  lemma {:induction false} SumBounds(s: seq<real>, lo: real, hi: real)
    requires forall k :: 0 <= k < |s| ==> lo <= s[k] <= hi
    ensures (|s| as real) * lo <= Sum(s) <= (|s| as real) * hi
  {
    if |s| > 0 {
      SumBounds(s[..|s| - 1], lo, hi);
    }
  }

  lemma MeanOfBounded(s: seq<real>, lo: real, hi: real)
    requires |s| > 0
    requires (|s| as real) * lo <= Sum(s) <= (|s| as real) * hi
    ensures lo <= Sum(s) / (|s| as real) <= hi
  {
    QuotientBounds(Sum(s), |s| as real, lo, hi);
  }

  lemma QuotientBounds(sum: real, n: real, lo: real, hi: real)
    requires n > 0.0 && n * lo <= sum <= n * hi
    ensures lo <= sum / n <= hi
  {
    var q := sum / n;
    assert q * n == sum;
    assert (q - lo) * n >= 0.0;
    assert (hi - q) * n >= 0.0;
  }

  /** A cohort whose value at `t-1` is zero or negative, or whose value at `t`
      is NaN, never takes part in transition `t`, even when the other cohorts do:
      with cohort A at (0.0, 1.0) and B at (1.0, 2.0), transition 1 is B's alone. */
  lemma ZeroDenominatorExcluded()
    ensures EntryAt(PivotTable(["A", "B"], [0, 1], map["A" := map[0 := 0.0, 1 := 1.0], "B" := map[0 := 1.0, 1 := 2.0]]), 1)
      == Some(FactorEntry(2.0, 2.0, 2.0, 1))
  {
    var p := PivotTable(["A", "B"], [0, 1], map["A" := map[0 := 0.0, 1 := 1.0], "B" := map[0 := 1.0, 1 := 2.0]]);
    assert p.columns[0] == 0 && p.columns[1] == 1;
    assert !Contributes(p.rows["A"], 1) && Contributes(p.rows["B"], 1);
    assert ["A", "B"][..1] == ["A"];
    assert ContributorsAmong(["A"], p.rows, 1) == [];
    assert Contributors(p, 1) == ["B"];
    assert Ratios(p, 1) == [2.0];
    assert [2.0][..0] == [];
  }
}
