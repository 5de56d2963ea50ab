/** Chain-ladder projection of one cohort (`project_cohort`, app.py lines 104-144). */
module Projection {
  import opened Common
  import opened Labels
  import opened Pivoting

  datatype Kind = Observado | Proyectado

  /** One row of the projection data frame; `factor` is None on observed rows. */
  datatype ProjectionRow = ProjectionRow(cohorte: string, mob: int, fecha: string, moraPct: real, tipo: Kind, factor: Option<real>)

  /** `df_pivot.loc[cohorte].dropna()` (app.py line 111): the columns of the
      pivot at which the cohort's row holds a value, in column order. */
  function Dropna(columns: seq<int>, row: map<int, real>): (ks: seq<int>)
    ensures forall k :: k in ks <==> k in columns && k in row
    ensures forall i :: 0 <= i < |ks| ==> ks[i] in row
    ensures StrictlyIncreasing(columns) ==> StrictlyIncreasing(ks)
  {
    if |columns| == 0 then []
    else
      var init := columns[..|columns| - 1];
      var last := columns[|columns| - 1];
      var ks := Dropna(init, row);
      assert StrictlyIncreasing(columns) ==> StrictlyIncreasing(init);
      assert StrictlyIncreasing(columns) ==> forall i :: 0 <= i < |ks| ==> ks[i] in init && ks[i] < last;
      ks + (if last in row then [last] else [])
  }

  /** The calendar label of MOB `mob` of cohort `c` (the body of `mob_to_date`). */
  function Fecha(c: YearMonth, mob: int): string {
    FormatYearMonth(TargetMonth(c, mob))
  }

  /** The observed rows, one per MOB of `ks` (app.py lines 119-127). */
  function ObservedRows(cohorte: string, c: YearMonth, row: map<int, real>, ks: seq<int>): (rows: seq<ProjectionRow>)
    requires forall i :: 0 <= i < |ks| ==> ks[i] in row
    ensures |rows| == |ks|
  {
    seq(|ks|, i requires 0 <= i < |ks| => ProjectionRow(cohorte, ks[i], Fecha(c, ks[i]), row[ks[i]], Observado, None))
  }

  /** The projected rows from MOB `mob` to `target`, starting from the running
      value `value` (app.py lines 130-142): a MOB without a factor is skipped and
      leaves the running value as it is. */
  function ProjectFrom(cohorte: string, c: YearMonth, factors: map<int, real>, mob: int, target: int, value: real): seq<ProjectionRow>
    decreases target - mob
  {
    if mob > target then []
    else if mob in factors then
      var v := value * factors[mob];
      [ProjectionRow(cohorte, mob, Fecha(c, mob), v, Proyectado, Some(factors[mob]))]
        + ProjectFrom(cohorte, c, factors, mob + 1, target, v)
    else ProjectFrom(cohorte, c, factors, mob + 1, target, value)
  }

  /** What `project_cohort` returns: the not-found message for an unknown
      cohort; the exceptions of `int(NaN)` (a row without values, app.py line
      112) and of `int()` on a malformed label (inside `mob_to_date`); otherwise
      the observed rows followed by the projected ones. */
  function ProjectionOf(p: PivotTable, factors: map<int, real>, cohorte: string, mobObjetivo: int): Result<seq<ProjectionRow>, Error> {
    if cohorte !in p.rows then Err(CohortNotFound("Cohorte " + cohorte + " no encontrada"))
    else
      var row := p.rows[cohorte];
      var ks := Dropna(p.columns, row);
      if |ks| == 0 then Err(NoObservations(cohorte))
      else
        match ParseLabel(cohorte)
        case None => Err(MalformedLabel(cohorte))
        case Some(c) => Ok(Assemble(cohorte, c, factors, row, ks, mobObjetivo))
  }

  /** The observed rows of the MOBs `ks` followed by the forward loop from the
      MOB after the last of them, starting from its value. */
  function Assemble(cohorte: string, c: YearMonth, factors: map<int, real>, row: map<int, real>, ks: seq<int>, target: int): seq<ProjectionRow>
    requires |ks| > 0 && forall i :: 0 <= i < |ks| ==> ks[i] in row
  {
    ObservedRows(cohorte, c, row, ks) + ProjectFrom(cohorte, c, factors, ks[|ks| - 1] + 1, target, row[ks[|ks| - 1]])
  }

  /** One step of the forward loop. */
  lemma ProjectFromUnfold(cohorte: string, c: YearMonth, factors: map<int, real>, mob: int, target: int, value: real)
    requires mob <= target
    ensures ProjectFrom(cohorte, c, factors, mob, target, value) ==
      if mob in factors
      then [ProjectionRow(cohorte, mob, Fecha(c, mob), value * factors[mob], Proyectado, Some(factors[mob]))]
        + ProjectFrom(cohorte, c, factors, mob + 1, target, value * factors[mob])
      else ProjectFrom(cohorte, c, factors, mob + 1, target, value)
  {
  }

  /** `project_cohort`. */
  method ProjectCohort(p: PivotTable, factors: map<int, real>, cohorte: string, mobObjetivo: int)
    returns (r: Result<seq<ProjectionRow>, Error>)
    ensures r == ProjectionOf(p, factors, cohorte, mobObjetivo)
  {
    if cohorte !in p.rows {
      return Err(CohortNotFound("Cohorte " + cohorte + " no encontrada"));
    }
    var cohortData := p.rows[cohorte];
    var ks := Dropna(p.columns, cohortData);
    if |ks| == 0 {
      return Err(NoObservations(cohorte));
    }
    var lastMob := ks[|ks| - 1];
    var lastValue := cohortData[lastMob];
    var c := ParseLabel(cohorte);
    if c.None? {
      return Err(MalformedLabel(cohorte));
    }
    var observed := AppendObserved(cohorte, c.value, cohortData, ks);
    var projected := ProjectForward(cohorte, c.value, factors, lastMob, mobObjetivo, lastValue);
    return Ok(observed + projected);
  }

  /** The loop over the observed MOBs (app.py lines 119-127). */
  method AppendObserved(cohorte: string, c: YearMonth, cohortData: map<int, real>, ks: seq<int>)
    returns (proyeccion: seq<ProjectionRow>)
    requires forall i :: 0 <= i < |ks| ==> ks[i] in cohortData
    ensures proyeccion == ObservedRows(cohorte, c, cohortData, ks)
  {
    ghost var observed := ObservedRows(cohorte, c, cohortData, ks);
    proyeccion := [];
    for i := 0 to |ks|
      invariant |proyeccion| == i
      invariant forall j :: 0 <= j < i ==> proyeccion[j] == observed[j]
    {
      var mob := ks[i];
      proyeccion := proyeccion + [ProjectionRow(cohorte, mob, Fecha(c, mob), cohortData[mob], Observado, None)];
    }
  }

  /** The forward loop over MOBs `lastMob + 1 .. mobObjetivo` (app.py lines 130-142). */
  method ProjectForward(cohorte: string, c: YearMonth, factors: map<int, real>, lastMob: int, mobObjetivo: int, lastValue: real)
    returns (proyeccion: seq<ProjectionRow>)
    ensures proyeccion == ProjectFrom(cohorte, c, factors, lastMob + 1, mobObjetivo, lastValue)
  {
    proyeccion := [];
    var currentValue := lastValue;
    var futureMob := lastMob + 1;
    while futureMob <= mobObjetivo
      invariant proyeccion + ProjectFrom(cohorte, c, factors, futureMob, mobObjetivo, currentValue)
        == ProjectFrom(cohorte, c, factors, lastMob + 1, mobObjetivo, lastValue)
      decreases mobObjetivo - futureMob
    {
      ProjectFromUnfold(cohorte, c, factors, futureMob, mobObjetivo, currentValue);
      if futureMob in factors {
        var factor := factors[futureMob];
        ghost var before := currentValue;
        currentValue := currentValue * factor;
        var row := ProjectionRow(cohorte, futureMob, Fecha(c, futureMob), currentValue, Proyectado, Some(factor));
        ghost var rest := ProjectFrom(cohorte, c, factors, futureMob + 1, mobObjetivo, currentValue);
        assert row == ProjectionRow(cohorte, futureMob, Fecha(c, futureMob), before * factors[futureMob], Proyectado, Some(factors[futureMob]));
        assert proyeccion + ([row] + rest) == (proyeccion + [row]) + rest;
        proyeccion := proyeccion + [row];
      }
      futureMob := futureMob + 1;
    }
    assert proyeccion + [] == proyeccion;
  }

  // ---------------------------------------------------------------------
  // Properties of the projection
  // ---------------------------------------------------------------------

  /** A projected row of the cohort for a MOB in `lo..hi` that has a factor,
      carrying that factor and its calendar label. */
  predicate IsProjectedRow(r: ProjectionRow, cohorte: string, c: YearMonth, factors: map<int, real>, lo: int, hi: int) {
    r.cohorte == cohorte && r.tipo == Proyectado && lo <= r.mob <= hi &&
    r.mob in factors && r.factor == Some(factors[r.mob]) && r.fecha == Fecha(c, r.mob)
  }

  predicate MobsIncrease(rows: seq<ProjectionRow>) {
    forall k, k' :: 0 <= k < k' < |rows| ==> rows[k].mob < rows[k'].mob
  }

  /** Every row of the forward loop is a projected row for a MOB in `mob..target`
      that has a factor, and the MOBs strictly increase. */
  lemma {:induction false} ProjectFromShape(cohorte: string, c: YearMonth, factors: map<int, real>, mob: int, target: int, value: real)
    ensures var rows := ProjectFrom(cohorte, c, factors, mob, target, value);
      (forall k :: 0 <= k < |rows| ==> IsProjectedRow(rows[k], cohorte, c, factors, mob, target)) &&
      MobsIncrease(rows)
    decreases target - mob
  {
    if mob <= target {
      var v := if mob in factors then value * factors[mob] else value;
      ProjectFromUnfold(cohorte, c, factors, mob, target, value);
      ProjectFromShape(cohorte, c, factors, mob + 1, target, v);
      var tail := ProjectFrom(cohorte, c, factors, mob + 1, target, v);
      if mob in factors {
        var head := ProjectionRow(cohorte, mob, Fecha(c, mob), v, Proyectado, Some(factors[mob]));
        PrependProjected(head, tail, cohorte, c, factors, mob, target);
      }
    }
  }

  lemma PrependProjected(head: ProjectionRow, tail: seq<ProjectionRow>, cohorte: string, c: YearMonth, factors: map<int, real>, mob: int, target: int)
    requires mob <= target && IsProjectedRow(head, cohorte, c, factors, mob, mob)
    requires forall k :: 0 <= k < |tail| ==> IsProjectedRow(tail[k], cohorte, c, factors, mob + 1, target)
    requires MobsIncrease(tail)
    ensures var rows := [head] + tail;
      (forall k :: 0 <= k < |rows| ==> IsProjectedRow(rows[k], cohorte, c, factors, mob, target)) &&
      MobsIncrease(rows)
  {
    var rows := [head] + tail;
    assert forall k :: 1 <= k < |rows| ==> rows[k] == tail[k - 1];
  }

  /** Every MOB in `mob..target` that has a factor gets a projected row: a
      missing factor is skipped, it does not end the projection. */
  lemma {:induction false} ProjectFromComplete(cohorte: string, c: YearMonth, factors: map<int, real>, mob: int, target: int, value: real)
    ensures var rows := ProjectFrom(cohorte, c, factors, mob, target, value);
      forall m :: mob <= m <= target && m in factors ==> exists k :: 0 <= k < |rows| && rows[k].mob == m
    decreases target - mob
  {
    if mob <= target {
      var v := if mob in factors then value * factors[mob] else value;
      ProjectFromUnfold(cohorte, c, factors, mob, target, value);
      ProjectFromComplete(cohorte, c, factors, mob + 1, target, v);
      var rows := ProjectFrom(cohorte, c, factors, mob, target, value);
      var tail := ProjectFrom(cohorte, c, factors, mob + 1, target, v);
      forall m | mob <= m <= target && m in factors ensures exists k :: 0 <= k < |rows| && rows[k].mob == m {
        if m == mob {
          assert rows[0].mob == m;
        } else {
          var k :| 0 <= k < |tail| && tail[k].mob == m;
          if mob in factors {
            assert rows[k + 1] == tail[k];
          } else {
            assert rows[k] == tail[k];
          }
        }
      }
    }
  }

  /** `value` carried forward through MOBs `lo..hi`: multiplied by the factor of
      each of them that has one, and left as it is at the others. This is the
      running `current_value` of the forward loop. */
  function Compound(factors: map<int, real>, value: real, lo: int, hi: int): real
    decreases hi - lo
  {
    if hi < lo then value
    else Compound(factors, if lo in factors then value * factors[lo] else value, lo + 1, hi)
  }

  /** The product of the factors of the MOBs in `lo..hi` that have one. */
  function FactorProduct(factors: map<int, real>, lo: int, hi: int): real
    decreases hi - lo
  {
    if hi < lo then 1.0 else FactorProduct(factors, lo, hi - 1) * (if hi in factors then factors[hi] else 1.0)
  }

  lemma {:induction false} FactorProductFront(factors: map<int, real>, lo: int, hi: int)
    requires lo <= hi
    ensures FactorProduct(factors, lo, hi) == (if lo in factors then factors[lo] else 1.0) * FactorProduct(factors, lo + 1, hi)
    decreases hi - lo
  {
    if lo < hi {
      FactorProductFront(factors, lo, hi - 1);
    }
  }

  /** Carrying a value forward multiplies it by the product of the factors met
      on the way: a MOB without a factor counts as a factor of one. */
  lemma {:induction false} CompoundIsProduct(factors: map<int, real>, value: real, lo: int, hi: int)
    ensures Compound(factors, value, lo, hi) == value * FactorProduct(factors, lo, hi)
    decreases hi - lo
  {
    if lo <= hi {
      var f := if lo in factors then factors[lo] else 1.0;
      assert (if lo in factors then value * factors[lo] else value) == value * f;
      CompoundIsProduct(factors, value * f, lo + 1, hi);
      FactorProductFront(factors, lo, hi);
      ValueStep(value, f, FactorProduct(factors, lo + 1, hi));
    }
  }

  lemma ValueStep(value: real, f: real, rest: real)
    ensures (value * f) * rest == value * (f * rest)
  {
  }

  /** Each row's value is `value` carried forward from MOB `mob` through the
      row's own MOB. */
  ghost predicate ValuesFrom(rows: seq<ProjectionRow>, factors: map<int, real>, mob: int, value: real) {
    forall k :: 0 <= k < |rows| ==> rows[k].moraPct == Compound(factors, value, mob, rows[k].mob)
  }

  /** Each projected value is the starting value carried forward through the
      MOBs from `mob` up to and including its own. */
  lemma {:induction false} ProjectFromValues(cohorte: string, c: YearMonth, factors: map<int, real>, mob: int, target: int, value: real)
    ensures ValuesFrom(ProjectFrom(cohorte, c, factors, mob, target, value), factors, mob, value)
    decreases target - mob
  {
    if mob <= target {
      var v := if mob in factors then value * factors[mob] else value;
      ProjectFromUnfold(cohorte, c, factors, mob, target, value);
      ProjectFromValues(cohorte, c, factors, mob + 1, target, v);
      ProjectFromMobsFrom(cohorte, c, factors, mob + 1, target, v);
      ShiftValues(ProjectFrom(cohorte, c, factors, mob + 1, target, v), factors, mob, value);
      if mob in factors {
        assert Compound(factors, value, mob, mob) == Compound(factors, v, mob + 1, mob) == v;
        PrependValue(ProjectionRow(cohorte, mob, Fecha(c, mob), v, Proyectado, Some(factors[mob])),
                     ProjectFrom(cohorte, c, factors, mob + 1, target, v), factors, mob, value);
      }
    }
  }

  /** Every row is past MOB `bound`. */
  predicate MobsAbove(rows: seq<ProjectionRow>, bound: int) {
    forall k :: 0 <= k < |rows| ==> bound < rows[k].mob
  }

  lemma ProjectFromMobsFrom(cohorte: string, c: YearMonth, factors: map<int, real>, mob: int, target: int, value: real)
    ensures MobsAbove(ProjectFrom(cohorte, c, factors, mob, target, value), mob - 1)
  {
    ProjectFromShape(cohorte, c, factors, mob, target, value);
  }

  lemma ProjectFromIncreasing(cohorte: string, c: YearMonth, factors: map<int, real>, mob: int, target: int, value: real)
    ensures MobsIncrease(ProjectFrom(cohorte, c, factors, mob, target, value))
  {
    ProjectFromShape(cohorte, c, factors, mob, target, value);
  }

  lemma ShiftValues(tail: seq<ProjectionRow>, factors: map<int, real>, mob: int, value: real)
    requires ValuesFrom(tail, factors, mob + 1, if mob in factors then value * factors[mob] else value)
    requires MobsAbove(tail, mob)
    ensures ValuesFrom(tail, factors, mob, value)
  {
  }

  lemma PrependValue(head: ProjectionRow, tail: seq<ProjectionRow>, factors: map<int, real>, mob: int, value: real)
    requires head.mob == mob && head.moraPct == Compound(factors, value, mob, mob)
    requires ValuesFrom(tail, factors, mob, value)
    ensures ValuesFrom([head] + tail, factors, mob, value)
  {
    var rows := [head] + tail;
    assert forall k :: 1 <= k < |rows| ==> rows[k] == tail[k - 1];
  }

  // ---------------------------------------------------------------------
  // Properties of `project_cohort` on a well-formed pivot
  // ---------------------------------------------------------------------

  /** The MOBs of a cohort's row that hold a value, in increasing order. */
  function ObservedMobs(p: PivotTable, cohorte: string): (ks: seq<int>)
    requires cohorte in p.rows
    ensures StrictlyIncreasing(p.columns) ==> StrictlyIncreasing(ks)
    ensures forall m :: m in ks <==> m in p.columns && m in p.rows[cohorte]
    ensures forall i :: 0 <= i < |ks| ==> ks[i] in p.rows[cohorte]
  {
    Dropna(p.columns, p.rows[cohorte])
  }

  /** On a pivot every cohort has a value, so `cohort_data` is never empty, and
      its last element (`iloc[-1]`) sits at its largest MOB (`index.max()`):
      the two reads of app.py lines 112-113 agree. */
  lemma LastMobIsMax(p: PivotTable, cohorte: string)
    requires ValidPivot(p) && cohorte in p.rows
    ensures var ks := ObservedMobs(p, cohorte);
      |ks| > 0 && ks[|ks| - 1] in p.rows[cohorte] &&
      forall m :: m in p.rows[cohorte] ==> m <= ks[|ks| - 1]
  {
    var i :| 0 <= i < |p.columns| && p.columns[i] in p.rows[cohorte];
    DropnaKeeps(p.columns, p.rows[cohorte], i);
    LastIsMax(ObservedMobs(p, cohorte), p.rows[cohorte]);
  }

  lemma DropnaKeeps(columns: seq<int>, row: map<int, real>, i: int)
    requires 0 <= i < |columns| && columns[i] in row
    ensures |Dropna(columns, row)| > 0
  {
    var mob := columns[i];
    assert mob in Dropna(columns, row);
  }

  /** The last element of an increasing list of exactly the keys of `row` is
      the largest key. */
  lemma LastIsMax(ks: seq<int>, row: map<int, real>)
    requires |ks| > 0 && StrictlyIncreasing(ks)
    requires forall m :: m in ks <==> m in row
    ensures ks[|ks| - 1] in row && forall m :: m in row ==> m <= ks[|ks| - 1]
  {
    assert ks[|ks| - 1] in ks;
    forall m | m in row ensures m <= ks[|ks| - 1] {
      var j :| 0 <= j < |ks| && ks[j] == m;
    }
  }

  /** Error cases: an unknown cohort gets the not-found message; on a pivot a
      known cohort fails iff its label cannot be read, and never for want of
      observations. */
  lemma ProjectionErrors(p: PivotTable, factors: map<int, real>, cohorte: string, mobObjetivo: int)
    ensures cohorte !in p.rows ==>
      ProjectionOf(p, factors, cohorte, mobObjetivo) == Err(CohortNotFound("Cohorte " + cohorte + " no encontrada"))
    ensures ValidPivot(p) && cohorte in p.rows ==>
      (ProjectionOf(p, factors, cohorte, mobObjetivo).Err? <==> ParseLabel(cohorte).None?) &&
      (ParseLabel(cohorte).None? ==> ProjectionOf(p, factors, cohorte, mobObjetivo) == Err(MalformedLabel(cohorte)))
  {
    if ValidPivot(p) && cohorte in p.rows {
      LastMobIsMax(p, cohorte);
    }
  }

  /** A projection that succeeds is the observed rows of the
      cohort's MOBs with a value followed by the forward loop from the MOB after
      the last of them. */
  lemma ProjectionSplit(p: PivotTable, factors: map<int, real>, cohorte: string, mobObjetivo: int)
    requires ProjectionOf(p, factors, cohorte, mobObjetivo).Ok?
    ensures cohorte in p.rows && |ObservedMobs(p, cohorte)| > 0 && ParseLabel(cohorte).Some?
    ensures ProjectionOf(p, factors, cohorte, mobObjetivo).value ==
      Assemble(cohorte, ParseLabel(cohorte).value, factors, p.rows[cohorte], ObservedMobs(p, cohorte), mobObjetivo)
  {
  }

  /** Rows that are exactly the observed values of a cohort's row: Observado
      rows of the cohort, each at a MOB that holds a value, carrying that value,
      no factor and the label of `mob_to_date`; and every MOB that holds a value
      gets a row. */
  ghost predicate ObservedPart(rows: seq<ProjectionRow>, cohorte: string, row: map<int, real>) {
    (forall k :: 0 <= k < |rows| ==>
      rows[k].cohorte == cohorte && rows[k].tipo == Observado && rows[k].factor == None &&
      rows[k].mob in row && rows[k].moraPct == row[rows[k].mob] &&
      MobToDate(cohorte, rows[k].mob) == Some(rows[k].fecha)) &&
    (forall m :: m in row ==> exists k :: 0 <= k < |rows| && rows[k].mob == m)
  }

  lemma ObservedRowsPart(cohorte: string, c: YearMonth, row: map<int, real>, ks: seq<int>)
    requires ParseLabel(cohorte) == Some(c)
    requires forall i :: 0 <= i < |ks| ==> ks[i] in row
    requires forall m :: m in row ==> m in ks
    ensures ObservedPart(ObservedRows(cohorte, c, row, ks), cohorte, row)
  {
    var rows := ObservedRows(cohorte, c, row, ks);
    forall m | m in row ensures exists k :: 0 <= k < |rows| && rows[k].mob == m {
      var k :| 0 <= k < |ks| && ks[k] == m;
      assert rows[k].mob == m;
    }
  }

  /** The observed part: the first rows, one per MOB of the cohort that holds a
      value (every such MOB is a column of a pivot). */
  lemma ProjectionObserved(p: PivotTable, factors: map<int, real>, cohorte: string, mobObjetivo: int)
    requires ProjectionOf(p, factors, cohorte, mobObjetivo).Ok?
    requires forall m :: m in p.rows[cohorte] ==> m in p.columns
    ensures var rows := ProjectionOf(p, factors, cohorte, mobObjetivo).value;
      var n := |ObservedMobs(p, cohorte)|;
      n <= |rows| && ObservedPart(rows[..n], cohorte, p.rows[cohorte])
  {
    var rows := ProjectionOf(p, factors, cohorte, mobObjetivo).value;
    var ks := ObservedMobs(p, cohorte);
    var c := ParseLabel(cohorte).value;
    var observed := ObservedRows(cohorte, c, p.rows[cohorte], ks);
    ProjectionSplit(p, factors, cohorte, mobObjetivo);
    assert rows[..|ks|] == observed;
    ObservedRowsPart(cohorte, c, p.rows[cohorte], ks);
  }

  /** Rows that are exactly the projection past MOB `last` up to `target`:
      Proyectado rows of the cohort, each for a MOB with a factor, carrying that
      factor, the label of `mob_to_date`, and the value `lastValue` times the
      product of the factors from `last + 1` up to its own MOB; and every MOB in
      that range that has a factor gets a row. */
  ghost predicate ProjectedPart(rows: seq<ProjectionRow>, cohorte: string, factors: map<int, real>, last: int, target: int, lastValue: real) {
    ProjectedRows(rows, cohorte, factors, last, target) &&
    ProductValues(rows, factors, last + 1, lastValue) &&
    CoversFactors(rows, factors, last, target)
  }

  /** Proyectado rows of the cohort, each for a MOB in `last + 1..target` with a
      factor, carrying that factor and the label of `mob_to_date`. */
  ghost predicate ProjectedRows(rows: seq<ProjectionRow>, cohorte: string, factors: map<int, real>, last: int, target: int) {
    forall k :: 0 <= k < |rows| ==>
      rows[k].cohorte == cohorte && rows[k].tipo == Proyectado &&
      last < rows[k].mob <= target && rows[k].mob in factors &&
      rows[k].factor == Some(factors[rows[k].mob]) &&
      MobToDate(cohorte, rows[k].mob) == Some(rows[k].fecha)
  }

  /** Each row's value is `value` times the product of the factors from `lo`
      up to the row's own MOB. */
  ghost predicate ProductValues(rows: seq<ProjectionRow>, factors: map<int, real>, lo: int, value: real) {
    forall k :: 0 <= k < |rows| ==> rows[k].moraPct == value * FactorProduct(factors, lo, rows[k].mob)
  }

  /** Every MOB in `last + 1..target` that has a factor has a row. */
  ghost predicate CoversFactors(rows: seq<ProjectionRow>, factors: map<int, real>, last: int, target: int) {
    forall m :: last < m <= target && m in factors ==> exists k :: 0 <= k < |rows| && rows[k].mob == m
  }

  lemma ProjectFromPart(cohorte: string, c: YearMonth, factors: map<int, real>, last: int, target: int, lastValue: real)
    requires ParseLabel(cohorte) == Some(c)
    ensures ProjectedPart(ProjectFrom(cohorte, c, factors, last + 1, target, lastValue), cohorte, factors, last, target, lastValue)
  {
    ProjectFromRows(cohorte, c, factors, last, target, lastValue);
    ProjectFromValues(cohorte, c, factors, last + 1, target, lastValue);
    ValuesAreProducts(ProjectFrom(cohorte, c, factors, last + 1, target, lastValue), factors, last + 1, lastValue);
    ProjectFromComplete(cohorte, c, factors, last + 1, target, lastValue);
  }

  lemma ProjectFromRows(cohorte: string, c: YearMonth, factors: map<int, real>, last: int, target: int, lastValue: real)
    requires ParseLabel(cohorte) == Some(c)
    ensures ProjectedRows(ProjectFrom(cohorte, c, factors, last + 1, target, lastValue), cohorte, factors, last, target)
  {
    ProjectFromShape(cohorte, c, factors, last + 1, target, lastValue);
  }

  lemma ValuesAreProducts(rows: seq<ProjectionRow>, factors: map<int, real>, lo: int, value: real)
    requires ValuesFrom(rows, factors, lo, value)
    ensures ProductValues(rows, factors, lo, value)
  {
    forall k | 0 <= k < |rows| ensures rows[k].moraPct == value * FactorProduct(factors, lo, rows[k].mob) {
      CompoundIsProduct(factors, value, lo, rows[k].mob);
    }
  }

  /** The projected part: after the observed rows come exactly the projected
      rows past the last observed MOB, valued from the last observed value. */
  lemma ProjectionProjected(p: PivotTable, factors: map<int, real>, cohorte: string, mobObjetivo: int)
    requires ProjectionOf(p, factors, cohorte, mobObjetivo).Ok?
    ensures var rows := ProjectionOf(p, factors, cohorte, mobObjetivo).value;
      var ks := ObservedMobs(p, cohorte);
      |ks| > 0 && |ks| <= |rows| &&
      ProjectedPart(rows[|ks|..], cohorte, factors, ks[|ks| - 1], mobObjetivo, p.rows[cohorte][ks[|ks| - 1]])
  {
    ProjectionSplit(p, factors, cohorte, mobObjetivo);
    ProjectedAfterObserved(cohorte, ParseLabel(cohorte).value, factors, p.rows[cohorte], ObservedMobs(p, cohorte), mobObjetivo);
  }

  lemma ProjectedAfterObserved(cohorte: string, c: YearMonth, factors: map<int, real>, row: map<int, real>, ks: seq<int>, target: int)
    requires ParseLabel(cohorte) == Some(c)
    requires |ks| > 0 && forall i :: 0 <= i < |ks| ==> ks[i] in row
    ensures var rows := Assemble(cohorte, c, factors, row, ks, target);
      |ks| <= |rows| && ProjectedPart(rows[|ks|..], cohorte, factors, ks[|ks| - 1], target, row[ks[|ks| - 1]])
  {
    var last := ks[|ks| - 1];
    var tail := ProjectFrom(cohorte, c, factors, last + 1, target, row[last]);
    var rows := ObservedRows(cohorte, c, row, ks) + tail;
    assert rows[|ks|..] == tail;
    ProjectFromPart(cohorte, c, factors, last, target, row[last]);
  }

  /** The MOBs of the whole projection strictly increase: observed rows in
      column order, then projected rows, all past the last observed MOB. */
  lemma ProjectionIncreasing(p: PivotTable, factors: map<int, real>, cohorte: string, mobObjetivo: int)
    requires StrictlyIncreasing(p.columns) && ProjectionOf(p, factors, cohorte, mobObjetivo).Ok?
    ensures MobsIncrease(ProjectionOf(p, factors, cohorte, mobObjetivo).value)
  {
    ProjectionSplit(p, factors, cohorte, mobObjetivo);
    IncreasingParts(cohorte, ParseLabel(cohorte).value, factors, p.rows[cohorte], ObservedMobs(p, cohorte), mobObjetivo);
  }

  lemma IncreasingParts(cohorte: string, c: YearMonth, factors: map<int, real>, row: map<int, real>, ks: seq<int>, target: int)
    requires |ks| > 0 && StrictlyIncreasing(ks) && forall i :: 0 <= i < |ks| ==> ks[i] in row
    ensures MobsIncrease(Assemble(cohorte, c, factors, row, ks, target))
  {
    var last := ks[|ks| - 1];
    ProjectFromMobsFrom(cohorte, c, factors, last + 1, target, row[last]);
    ProjectFromIncreasing(cohorte, c, factors, last + 1, target, row[last]);
    ObservedIncrease(cohorte, c, row, ks);
    ConcatIncrease(ObservedRows(cohorte, c, row, ks), ProjectFrom(cohorte, c, factors, last + 1, target, row[last]), last);
  }

  lemma ObservedIncrease(cohorte: string, c: YearMonth, row: map<int, real>, ks: seq<int>)
    requires |ks| > 0 && StrictlyIncreasing(ks)
    requires forall i :: 0 <= i < |ks| ==> ks[i] in row
    ensures var rows := ObservedRows(cohorte, c, row, ks);
      MobsIncrease(rows) && forall k :: 0 <= k < |rows| ==> rows[k].mob <= ks[|ks| - 1]
  {
  }

  lemma ConcatIncrease(front: seq<ProjectionRow>, back: seq<ProjectionRow>, last: int)
    requires MobsIncrease(front) && MobsIncrease(back)
    requires forall k :: 0 <= k < |front| ==> front[k].mob <= last
    requires MobsAbove(back, last)
    ensures MobsIncrease(front + back)
  {
    var rows := front + back;
    assert forall k :: |front| <= k < |rows| ==> rows[k] == back[k - |front|];
  }

  /** A target at or before the last observed MOB adds no projected row. */
  lemma ProjectionNothingAhead(p: PivotTable, factors: map<int, real>, cohorte: string, mobObjetivo: int)
    requires ValidPivot(p) && ProjectionOf(p, factors, cohorte, mobObjetivo).Ok?
    requires exists m :: m in p.rows[cohorte] && mobObjetivo <= m
    ensures |ProjectionOf(p, factors, cohorte, mobObjetivo).value| == |ObservedMobs(p, cohorte)|
  {
    LastMobIsMax(p, cohorte);
  }

  /** A MOB without a factor is skipped and the projection goes on past it:
      with factors at MOBs 1 and 3 only, projecting from MOB 1 to MOB 3 from the
      value 0.5 gives rows at MOBs 1 and 3, valued 1.0 and 3.0. */
  lemma MissingFactorSkipped(cohorte: string, c: YearMonth)
    ensures var rows := ProjectFrom(cohorte, c, map[1 := 2.0, 3 := 3.0], 1, 3, 0.5);
      |rows| == 2 &&
      rows[0].mob == 1 && rows[0].moraPct == 1.0 &&
      rows[1].mob == 3 && rows[1].moraPct == 3.0
  {
    var factors := map[1 := 2.0, 3 := 3.0];
    assert ProjectFrom(cohorte, c, factors, 4, 3, 3.0) == [];
    assert ProjectFrom(cohorte, c, factors, 2, 3, 1.0) == ProjectFrom(cohorte, c, factors, 3, 3, 1.0);
  }
}
