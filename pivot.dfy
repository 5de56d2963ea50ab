/** The cohort x MOB pivot of the observations (app.py lines 461-463:
    `df_mob.pivot(index='cohorte', columns='mob', values='mora_pct')`). */
module Pivoting {
  import opened Common
  import opened Reshape

  /** The pivot: its cohorts, each once (`df_pivot.index`); its MOB columns in
      increasing order (`df_pivot.columns`, sorted by `pivot`); and for each
      cohort the MOBs that hold a value. A MOB missing from a cohort's row is
      NaN in the data frame. */
  datatype PivotTable = PivotTable(index: seq<string>, columns: seq<int>, rows: map<string, map<int, real>>)

  predicate StrictlyIncreasing(s: seq<int>) {
    forall k, k' :: 0 <= k < k' < |s| ==> s[k] < s[k']
  }

  /** The index lists every cohort once, the columns are sorted and include
      every MOB a cohort has a value for, and every cohort has at least one
      value: pandas creates a row only for an observation. */
  ghost predicate ValidPivot(p: PivotTable) {
    (forall k, k' :: 0 <= k < k' < |p.index| ==> p.index[k] != p.index[k']) &&
    (forall c :: c in p.rows <==> c in p.index) &&
    StrictlyIncreasing(p.columns) &&
    (forall c, mob :: c in p.rows && mob in p.rows[c] ==> mob in p.columns) &&
    (forall c :: c in p.rows ==> exists k :: 0 <= k < |p.columns| && p.columns[k] in p.rows[c])
  }

  /** No two observations share a cohort and a MOB: pandas' `pivot` raises on
      duplicate entries. */
  ghost predicate UniqueCells(obs: seq<Observation>) {
    forall k, k' :: 0 <= k < k' < |obs| ==> obs[k].cohorte != obs[k'].cohorte || obs[k].mob != obs[k'].mob
  }

  /** `x` added to a sorted list of columns, which stays sorted. */
  function InsertColumn(columns: seq<int>, x: int): (r: seq<int>)
    requires StrictlyIncreasing(columns)
    ensures StrictlyIncreasing(r)
    ensures forall y :: y in r <==> y in columns || y == x
  {
    if |columns| == 0 then [x]
    else if x < columns[0] then [x] + columns
    else if x == columns[0] then columns
    else
      var tail := InsertColumn(columns[1..], x);
      assert forall y :: y in columns[1..] ==> columns[0] < y;
      assert forall k :: 0 <= k < |tail| ==> tail[k] in tail && columns[0] < tail[k];
      [columns[0]] + tail
  }

  /** The pivot, built observation by observation; the index lists the cohorts
      in order of first appearance. */
  function Pivot(obs: seq<Observation>): (p: PivotTable)
    requires UniqueCells(obs)
    ensures StrictlyIncreasing(p.columns)
  {
    if |obs| == 0 then PivotTable([], [], map[])
    else
      var p := Pivot(obs[..|obs| - 1]);
      var o := obs[|obs| - 1];
      var columns := InsertColumn(p.columns, o.mob);
      if o.cohorte in p.rows
      then PivotTable(p.index, columns, p.rows[o.cohorte := p.rows[o.cohorte][o.mob := o.moraPct]])
      else PivotTable(p.index + [o.cohorte], columns, p.rows[o.cohorte := map[o.mob := o.moraPct]])
  }

  /** `df_mob.pivot(...)` as app.py lines 461-463 call it: with no observation
      the data frame has no `cohorte` column and pandas raises KeyError;
      otherwise a well-formed pivot with at least one cohort and one column. */
  function PivotFrame(obs: seq<Observation>): (r: Result<PivotTable, Error>)
    requires UniqueCells(obs)
    ensures r.Err? <==> |obs| == 0
    ensures r.Err? ==> r.error == EmptyFrame
    ensures r.Ok? ==> r.value == Pivot(obs) && ValidPivot(r.value) && ColumnsUsed(r.value)
    ensures r.Ok? ==> obs[0].cohorte in r.value.index && obs[0].mob in r.value.columns
  {
    if |obs| == 0 then Err(EmptyFrame)
    else
      PivotValid(obs);
      PivotHolds(obs, 0);
      Ok(Pivot(obs))
  }

  /** Observation `k` has a row and a column in the pivot. */
  lemma {:induction false} PivotHolds(obs: seq<Observation>, k: int)
    requires UniqueCells(obs) && 0 <= k < |obs|
    ensures obs[k].cohorte in Pivot(obs).rows && obs[k].mob in Pivot(obs).columns
  {
    if k < |obs| - 1 {
      var prefix := obs[..|obs| - 1];
      PivotHolds(prefix, k);
      assert prefix[k] == obs[k];
    }
  }

  ghost predicate RowsAreObserved(obs: seq<Observation>, p: PivotTable) {
    forall c :: c in p.rows ==> exists k :: 0 <= k < |obs| && obs[k].cohorte == c
  }

  /** The rows hold observation `x`'s value at its cohort and MOB. */
  ghost predicate Held(rows: map<string, map<int, real>>, x: Observation) {
    x.cohorte in rows && x.mob in rows[x.cohorte] && rows[x.cohorte][x.mob] == x.moraPct
  }

  ghost predicate KeepsEveryObservation(obs: seq<Observation>, p: PivotTable) {
    forall k :: 0 <= k < |obs| ==> Held(p.rows, obs[k])
  }

  ghost predicate AddsNothing(obs: seq<Observation>, p: PivotTable) {
    forall c, mob :: c in p.rows && mob in p.rows[c] ==>
      exists k :: 0 <= k < |obs| && obs[k].cohorte == c && obs[k].mob == mob
  }

  /** The pivot of the observations holds exactly those observations: a cohort
      is a row iff it has an observation, a (cohort, MOB) pair holds a value iff
      it was observed, and that value is the observed one. */
  lemma {:induction false} PivotContents(obs: seq<Observation>)
    requires UniqueCells(obs)
    ensures RowsAreObserved(obs, Pivot(obs))
    ensures KeepsEveryObservation(obs, Pivot(obs))
    ensures AddsNothing(obs, Pivot(obs))
  {
    if |obs| > 0 {
      var prefix := obs[..|obs| - 1];
      PivotContents(prefix);
      assert forall k :: 0 <= k < |prefix| ==> prefix[k] == obs[k];
      PivotStepRows(obs);
      PivotStepKeeps(obs);
      PivotStepAdds(obs);
    }
  }

  lemma PivotStepRows(obs: seq<Observation>)
    requires |obs| > 0 && UniqueCells(obs)
    requires RowsAreObserved(obs[..|obs| - 1], Pivot(obs[..|obs| - 1]))
    ensures RowsAreObserved(obs, Pivot(obs))
  {
    var prefix, o := obs[..|obs| - 1], obs[|obs| - 1];
    var p, q := Pivot(prefix), Pivot(obs);
    assert q.rows.Keys == p.rows.Keys + {o.cohorte};
    forall c | c in q.rows ensures exists k :: 0 <= k < |obs| && obs[k].cohorte == c {
      if c == o.cohorte {
        assert obs[|obs| - 1].cohorte == c;
      } else {
        assert c in p.rows;
        var k :| 0 <= k < |prefix| && prefix[k].cohorte == c;
        assert obs[k].cohorte == c;
      }
    }
  }

  lemma PivotStepKeeps(obs: seq<Observation>)
    requires |obs| > 0 && UniqueCells(obs)
    requires KeepsEveryObservation(obs[..|obs| - 1], Pivot(obs[..|obs| - 1]))
    ensures KeepsEveryObservation(obs, Pivot(obs))
  {
    var prefix, o := obs[..|obs| - 1], obs[|obs| - 1];
    var p, q := Pivot(prefix), Pivot(obs);
    assert q.rows == Place(p.rows, o);
    assert forall k :: 0 <= k < |prefix| ==> prefix[k] == obs[k];
    PlaceKeepsAll(obs, p.rows);
  }

  /** The rows after observation `o` is entered. */
  function Place(rows: map<string, map<int, real>>, o: Observation): map<string, map<int, real>> {
    rows[o.cohorte := (if o.cohorte in rows then rows[o.cohorte] else map[])[o.mob := o.moraPct]]
  }

  /** Entering the last observation into rows holding all the others keeps
      them and holds the last one too. */
  lemma PlaceKeepsAll(obs: seq<Observation>, rows: map<string, map<int, real>>)
    requires |obs| > 0 && UniqueCells(obs)
    requires forall k :: 0 <= k < |obs| - 1 ==> Held(rows, obs[k])
    ensures forall k :: 0 <= k < |obs| ==> Held(Place(rows, obs[|obs| - 1]), obs[k])
  {
    var o := obs[|obs| - 1];
    forall k | 0 <= k < |obs| ensures Held(Place(rows, o), obs[k]) {
      if k < |obs| - 1 {
        PlaceKeeps(rows, o, obs[k]);
      }
    }
  }

  /** Entering `o` keeps every other cell. */
  lemma PlaceKeeps(rows: map<string, map<int, real>>, o: Observation, x: Observation)
    requires x.cohorte != o.cohorte || x.mob != o.mob
    requires Held(rows, x)
    ensures Held(Place(rows, o), x)
  {
  }

  lemma PivotStepAdds(obs: seq<Observation>)
    requires |obs| > 0 && UniqueCells(obs)
    requires AddsNothing(obs[..|obs| - 1], Pivot(obs[..|obs| - 1]))
    ensures AddsNothing(obs, Pivot(obs))
  {
    var prefix, o, q := obs[..|obs| - 1], obs[|obs| - 1], Pivot(obs);
    forall c, mob | c in q.rows && mob in q.rows[c]
      ensures exists k :: 0 <= k < |obs| && obs[k].cohorte == c && obs[k].mob == mob
    {
      if c != o.cohorte || mob != o.mob {
        var k :| 0 <= k < |prefix| && prefix[k].cohorte == c && prefix[k].mob == mob;
        assert obs[k] == prefix[k];
      } else {
        assert obs[|obs| - 1] == o;
      }
    }
  }

  /** The index lists each cohort that has a row, once. */
  ghost predicate IndexListsRows(p: PivotTable) {
    (forall k, k' :: 0 <= k < k' < |p.index| ==> p.index[k] != p.index[k']) &&
    (forall c :: c in p.rows <==> c in p.index)
  }

  /** The columns are exactly the observed MOBs. */
  ghost predicate ColumnsAreMobs(obs: seq<Observation>, columns: seq<int>) {
    ColumnsObserved(obs, columns) && MobsInColumns(obs, columns)
  }

  ghost predicate ColumnsObserved(obs: seq<Observation>, columns: seq<int>) {
    forall mob :: mob in columns ==> exists k :: 0 <= k < |obs| && obs[k].mob == mob
  }

  ghost predicate MobsInColumns(obs: seq<Observation>, columns: seq<int>) {
    forall k :: 0 <= k < |obs| ==> obs[k].mob in columns
  }

  lemma {:induction false} PivotShape(obs: seq<Observation>)
    requires UniqueCells(obs)
    ensures IndexListsRows(Pivot(obs))
    ensures ColumnsAreMobs(obs, Pivot(obs).columns)
  {
    if |obs| > 0 {
      PivotShape(obs[..|obs| - 1]);
      PivotStepColumns(obs);
    }
  }

  lemma PivotStepColumns(obs: seq<Observation>)
    requires |obs| > 0 && UniqueCells(obs)
    requires ColumnsAreMobs(obs[..|obs| - 1], Pivot(obs[..|obs| - 1]).columns)
    ensures ColumnsAreMobs(obs, Pivot(obs).columns)
  {
    var prefix, o := obs[..|obs| - 1], obs[|obs| - 1];
    var p, q := Pivot(prefix), Pivot(obs);
    assert q.columns == InsertColumn(p.columns, o.mob);
    ColumnsExtend(obs, p.columns, q.columns);
  }

  lemma ColumnsExtend(obs: seq<Observation>, before: seq<int>, after: seq<int>)
    requires |obs| > 0 && ColumnsAreMobs(obs[..|obs| - 1], before)
    requires forall y :: y in after <==> y in before || y == obs[|obs| - 1].mob
    ensures ColumnsAreMobs(obs, after)
  {
    ColumnsObservedExtend(obs, before, after);
    MobsInColumnsExtend(obs, before, after);
  }

  lemma ColumnsObservedExtend(obs: seq<Observation>, before: seq<int>, after: seq<int>)
    requires |obs| > 0 && ColumnsObserved(obs[..|obs| - 1], before)
    requires forall y :: y in after <==> y in before || y == obs[|obs| - 1].mob
    ensures ColumnsObserved(obs, after)
  {
    var prefix, o := obs[..|obs| - 1], obs[|obs| - 1];
    forall mob | mob in after ensures exists k :: 0 <= k < |obs| && obs[k].mob == mob {
      if mob == o.mob {
        assert obs[|obs| - 1].mob == mob;
      } else {
        var k :| 0 <= k < |prefix| && prefix[k].mob == mob;
        assert obs[k].mob == mob;
      }
    }
  }

  lemma MobsInColumnsExtend(obs: seq<Observation>, before: seq<int>, after: seq<int>)
    requires |obs| > 0 && MobsInColumns(obs[..|obs| - 1], before)
    requires forall y :: y in after <==> y in before || y == obs[|obs| - 1].mob
    ensures MobsInColumns(obs, after)
  {
    var prefix := obs[..|obs| - 1];
    forall k | 0 <= k < |obs| ensures obs[k].mob in after {
      if k < |prefix| {
        assert prefix[k].mob in before;
      }
    }
  }

  /** The pivot of a list of observations is well formed: each observed cohort
      is a row of the index once, the columns are the observed MOBs in
      increasing order, and no row or column is empty. */
  lemma PivotValid(obs: seq<Observation>)
    requires UniqueCells(obs)
    ensures ValidPivot(Pivot(obs))
    ensures ColumnsUsed(Pivot(obs))
  {
    var p := Pivot(obs);
    PivotContents(obs);
    PivotShape(obs);
    RowsWithinColumns(obs, p);
    ColumnsHaveRows(obs, p);
    RowsHaveColumns(obs, p);
  }

  /** Every column holds a value for some cohort: pandas creates a column only
      for an observed MOB. */
  ghost predicate ColumnsUsed(p: PivotTable) {
    forall mob :: mob in p.columns ==> exists c :: c in p.rows && mob in p.rows[c]
  }

  lemma RowsWithinColumns(obs: seq<Observation>, p: PivotTable)
    requires AddsNothing(obs, p) && MobsInColumns(obs, p.columns)
    ensures forall c, mob :: c in p.rows && mob in p.rows[c] ==> mob in p.columns
  {
    forall c, mob | c in p.rows && mob in p.rows[c] ensures mob in p.columns {
      var k :| 0 <= k < |obs| && obs[k].cohorte == c && obs[k].mob == mob;
    }
  }

  lemma ColumnsHaveRows(obs: seq<Observation>, p: PivotTable)
    requires KeepsEveryObservation(obs, p) && ColumnsObserved(obs, p.columns)
    ensures forall mob :: mob in p.columns ==> exists c :: c in p.rows && mob in p.rows[c]
  {
    forall mob | mob in p.columns ensures exists c :: c in p.rows && mob in p.rows[c] {
      var k :| 0 <= k < |obs| && obs[k].mob == mob;
      var c := obs[k].cohorte;
      assert c in p.rows && mob in p.rows[c];
    }
  }

  lemma RowsHaveColumns(obs: seq<Observation>, p: PivotTable)
    requires RowsAreObserved(obs, p) && KeepsEveryObservation(obs, p) && MobsInColumns(obs, p.columns)
    ensures forall c :: c in p.rows ==> exists i :: 0 <= i < |p.columns| && p.columns[i] in p.rows[c]
  {
    forall c | c in p.rows ensures exists i :: 0 <= i < |p.columns| && p.columns[i] in p.rows[c] {
      var k :| 0 <= k < |obs| && obs[k].cohorte == c;
      var mob := obs[k].mob;
      assert mob in p.columns && mob in p.rows[c];
      var i :| 0 <= i < |p.columns| && p.columns[i] == mob;
    }
  }
}
