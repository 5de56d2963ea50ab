/** From the vintage matrix (cohort x calendar period) to observations in
    months-on-book form (`create_mob_dataframe`, app.py lines 48-68). */
module Reshape {
  import opened Common
  import opened Labels

  /** The vintage matrix: cohort labels (the rows) and period labels (the
      columns) in file order, and the cells that hold a value. A cell whose
      key is missing is NaN. The period labels are distinct: the CSV reader
      renames a repeated column header, so the frame never repeats one. */
  datatype Matrix = Matrix(cohorts: seq<string>, periods: seq<string>, cells: map<(string, string), real>)

  /** The matrix lists cohort `cohort` more than once. The data frame keeps a
      repeated index label, and `df.loc` then returns a Series for each of its
      cells. */
  predicate Repeated(m: Matrix, cohort: string) {
    multiset(m.cohorts)[cohort] > 1
  }

  /** One row of the MOB data frame. */
  datatype Observation = Observation(cohorte: string, periodo: string, mob: int, moraPct: real)

  // ---------------------------------------------------------------------
  // Specification of create_mob_dataframe
  // ---------------------------------------------------------------------

  /** The observations that cohort `cohort`, read as `c`, yields from the
      first `j` periods. A period label is read before its cell is looked at,
      and looking at a cell of a repeated cohort raises. */
  function RowObservations(m: Matrix, cohort: string, c: YearMonth, j: nat): Result<seq<Observation>, Error>
    requires j <= |m.periods|
  {
    if j == 0 then Ok([])
    else
      match RowObservations(m, cohort, c, j - 1)
      case Err(e) => Err(e)
      case Ok(prev) =>
        var period := m.periods[j - 1];
        match ParseLabel(period)
        case None => Err(MalformedLabel(period))
        case Some(p) =>
          if Repeated(m, cohort) then Err(AmbiguousCell(cohort))
          else if (cohort, period) in m.cells
          then Ok(prev + [Observation(cohort, period, MonthsOnBook(c, p), m.cells[(cohort, period)])])
          else Ok(prev)
  }

  /** The observations of the first `i` cohorts, cohort by cohort; a cohort
      label is read before any of the periods. */
  function ObservationsUpTo(m: Matrix, i: nat): Result<seq<Observation>, Error>
    requires i <= |m.cohorts|
  {
    if i == 0 then Ok([])
    else
      match ObservationsUpTo(m, i - 1)
      case Err(e) => Err(e)
      case Ok(prev) =>
        var cohort := m.cohorts[i - 1];
        match ParseLabel(cohort)
        case None => Err(MalformedLabel(cohort))
        case Some(c) =>
          match RowObservations(m, cohort, c, |m.periods|)
          case Err(e) => Err(e)
          case Ok(row) => Ok(prev + row)
  }

  function MobData(m: Matrix): Result<seq<Observation>, Error> {
    ObservationsUpTo(m, |m.cohorts|)
  }

  lemma {:induction false} RowObservationsErrPersists(m: Matrix, cohort: string, c: YearMonth, j: nat, j': nat)
    requires j <= j' <= |m.periods|
    requires RowObservations(m, cohort, c, j).Err?
    ensures RowObservations(m, cohort, c, j') == RowObservations(m, cohort, c, j)
    decreases j' - j
  {
    if j < j' {
      RowObservationsErrPersists(m, cohort, c, j, j' - 1);
    }
  }

  lemma {:induction false} ObservationsUpToErrPersists(m: Matrix, i: nat, i': nat)
    requires i <= i' <= |m.cohorts|
    requires ObservationsUpTo(m, i).Err?
    ensures ObservationsUpTo(m, i') == ObservationsUpTo(m, i)
    decreases i' - i
  {
    if i < i' {
      ObservationsUpToErrPersists(m, i, i' - 1);
    }
  }

  /** `create_mob_dataframe`: the outer loop over cohorts. */
  method CreateMobDataframe(m: Matrix) returns (r: Result<seq<Observation>, Error>)
    ensures r == MobData(m)
  {
    var mobData: seq<Observation> := [];
    var i := 0;
    while i < |m.cohorts|
      invariant 0 <= i <= |m.cohorts|
      invariant ObservationsUpTo(m, i) == Ok(mobData)
    {
      var cohort := m.cohorts[i];
      var c := ParseLabel(cohort);
      if c.None? {
        ObservationsUpToErrPersists(m, i + 1, |m.cohorts|);
        return Err(MalformedLabel(cohort));
      }
      var row := CohortObservations(m, cohort, c.value);
      if row.Err? {
        ObservationsUpToErrPersists(m, i + 1, |m.cohorts|);
        return Err(row.error);
      }
      mobData := mobData + row.value;
      i := i + 1;
    }
    return Ok(mobData);
  }

  /** The inner loop of `create_mob_dataframe` over the periods of one
      cohort, appending one observation per present cell. */
  method CohortObservations(m: Matrix, cohort: string, c: YearMonth) returns (r: Result<seq<Observation>, Error>)
    ensures r == RowObservations(m, cohort, c, |m.periods|)
  {
    var rows: seq<Observation> := [];
    var j := 0;
    while j < |m.periods|
      invariant 0 <= j <= |m.periods|
      invariant RowObservations(m, cohort, c, j) == Ok(rows)
    {
      var period := m.periods[j];
      var p := ParseLabel(period);
      if p.None? {
        RowObservationsErrPersists(m, cohort, c, j + 1, |m.periods|);
        return Err(MalformedLabel(period));
      }
      if Repeated(m, cohort) {
        RowObservationsErrPersists(m, cohort, c, j + 1, |m.periods|);
        return Err(AmbiguousCell(cohort));
      }
      var mob := MonthsOnBook(c, p.value);
      if (cohort, period) in m.cells {
        rows := rows + [Observation(cohort, period, mob, m.cells[(cohort, period)])];
      }
      j := j + 1;
    }
    return Ok(rows);
  }

  // ---------------------------------------------------------------------
  // What create_mob_dataframe produces
  // ---------------------------------------------------------------------

  /** Every label that the loops read is one that `int()` accepts; the period
      labels are read only when there is at least one cohort. */
  ghost predicate LabelsReadable(m: Matrix) {
    (forall i :: 0 <= i < |m.cohorts| ==> ParseLabel(m.cohorts[i]).Some?) &&
    (|m.cohorts| > 0 ==> forall j :: 0 <= j < |m.periods| ==> ParseLabel(m.periods[j]).Some?)
  }

  ghost predicate PeriodsReadable(m: Matrix, j: nat)
    requires j <= |m.periods|
  {
    forall j' :: 0 <= j' < j ==> ParseLabel(m.periods[j']).Some?
  }

  /** Every cell lookup is unambiguous: no cohort is listed twice. Cells are
      looked at only when there is at least one period. */
  ghost predicate CellsUnambiguous(m: Matrix) {
    |m.periods| > 0 ==> forall i :: 0 <= i < |m.cohorts| ==> !Repeated(m, m.cohorts[i])
  }

  /** An error names a label of the matrix that cannot be read, or a cohort
      label that the matrix repeats. */
  ghost predicate BlamesLabel(m: Matrix, e: Error) {
    (e.MalformedLabel? && (e.text in m.cohorts || e.text in m.periods) && ParseLabel(e.text).None?) ||
    (e.AmbiguousCell? && Repeated(m, e.repeated))
  }

  lemma {:induction false} RowObservationsFails(m: Matrix, cohort: string, c: YearMonth, j: nat)
    requires j <= |m.periods|
    ensures RowObservations(m, cohort, c, j).Ok? <==> PeriodsReadable(m, j) && (j > 0 ==> !Repeated(m, cohort))
    ensures RowObservations(m, cohort, c, j).Err? ==> BlamesLabel(m, RowObservations(m, cohort, c, j).error)
  {
    if j > 0 {
      RowObservationsFails(m, cohort, c, j - 1);
    }
  }

  lemma {:induction false} ObservationsUpToFails(m: Matrix, i: nat)
    requires i <= |m.cohorts|
    ensures ObservationsUpTo(m, i).Ok? <==>
      (forall i' :: 0 <= i' < i ==> ParseLabel(m.cohorts[i']).Some?) && (i > 0 ==> PeriodsReadable(m, |m.periods|)) &&
      (|m.periods| > 0 ==> forall i' :: 0 <= i' < i ==> !Repeated(m, m.cohorts[i']))
    ensures ObservationsUpTo(m, i).Err? ==> BlamesLabel(m, ObservationsUpTo(m, i).error)
  {
    if i > 0 {
      ObservationsUpToFails(m, i - 1);
      var c := ParseLabel(m.cohorts[i - 1]);
      if c.Some? {
        RowObservationsFails(m, m.cohorts[i - 1], c.value, |m.periods|);
      }
    }
  }

  /** The reshaping fails exactly when a label it reads is malformed or a cell
      it looks at belongs to a repeated cohort, and then it names such a label. */
  lemma MobDataFails(m: Matrix)
    ensures MobData(m).Ok? <==> LabelsReadable(m) && CellsUnambiguous(m)
    ensures MobData(m).Err? ==> BlamesLabel(m, MobData(m).error)
  {
    ObservationsUpToFails(m, |m.cohorts|);
  }

  /** Cell (i, j) of the matrix holds a value (is not NaN). */
  predicate Present(m: Matrix, i: int, j: int) {
    0 <= i < |m.cohorts| && 0 <= j < |m.periods| && (m.cohorts[i], m.periods[j]) in m.cells
  }

  /** The observation that a present cell with readable labels stands for:
      its MOB is the distance in months from the cohort to the period. */
  function CellObservation(m: Matrix, i: int, j: int): Observation
    requires Present(m, i, j)
    requires ParseLabel(m.cohorts[i]).Some? && ParseLabel(m.periods[j]).Some?
  {
    Observation(m.cohorts[i], m.periods[j],
      MonthsOnBook(ParseLabel(m.cohorts[i]).value, ParseLabel(m.periods[j]).value),
      m.cells[(m.cohorts[i], m.periods[j])])
  }

  /** Row-major order of cells: cohort first, then period. */
  predicate RowMajorBefore(a: (int, int), b: (int, int)) {
    a.0 < b.0 || (a.0 == b.0 && a.1 < b.1)
  }

  /** `obs` lists, via the cell positions `pos`, exactly the present cells of
      the first `rows` cohorts, each once, in row-major order. */
  ghost predicate EnumeratesCells(m: Matrix, rows: nat, obs: seq<Observation>, pos: seq<(int, int)>) {
    |pos| == |obs| &&
    (forall k :: 0 <= k < |pos| ==>
      pos[k].0 < rows && Present(m, pos[k].0, pos[k].1) &&
      ParseLabel(m.cohorts[pos[k].0]).Some? && ParseLabel(m.periods[pos[k].1]).Some? &&
      obs[k] == CellObservation(m, pos[k].0, pos[k].1)) &&
    (forall k, k' :: 0 <= k < k' < |pos| ==> RowMajorBefore(pos[k], pos[k'])) &&
    (forall i, j :: 0 <= i < rows && Present(m, i, j) ==> (i, j) in pos)
  }

  ghost function RowPositions(m: Matrix, i: int, j: nat): seq<(int, int)>
    requires j <= |m.periods|
  {
    if j == 0 then []
    else RowPositions(m, i, j - 1) + (if Present(m, i, j - 1) then [(i, j - 1)] else [])
  }

  ghost function PrefixPositions(m: Matrix, i: nat): seq<(int, int)>
    requires i <= |m.cohorts|
  {
    if i == 0 then [] else PrefixPositions(m, i - 1) + RowPositions(m, i - 1, |m.periods|)
  }

  /** `row`, via the positions `pos`, lists the present cells of cohort `i`
      among the first `j` periods, in period order. */
  ghost predicate EnumeratesRow(m: Matrix, i: int, j: nat, row: seq<Observation>, pos: seq<(int, int)>) {
    0 <= i < |m.cohorts| && ParseLabel(m.cohorts[i]).Some? &&
    |pos| == |row| &&
    (forall k :: 0 <= k < |pos| ==>
      pos[k].0 == i && pos[k].1 < j && Present(m, i, pos[k].1) &&
      ParseLabel(m.periods[pos[k].1]).Some? && row[k] == CellObservation(m, i, pos[k].1)) &&
    (forall k, k' :: 0 <= k < k' < |pos| ==> pos[k].1 < pos[k'].1) &&
    (forall j' :: 0 <= j' < j && Present(m, i, j') ==> (i, j') in pos)
  }

  lemma RowObservationsStep(m: Matrix, i: nat, c: YearMonth, j: nat)
    requires i < |m.cohorts| && 0 < j <= |m.periods|
    requires ParseLabel(m.cohorts[i]) == Some(c)
    requires RowObservations(m, m.cohorts[i], c, j).Ok?
    ensures RowObservations(m, m.cohorts[i], c, j - 1).Ok?
    ensures ParseLabel(m.periods[j - 1]).Some?
    ensures RowObservations(m, m.cohorts[i], c, j).value ==
      RowObservations(m, m.cohorts[i], c, j - 1).value +
      (if Present(m, i, j - 1) then [CellObservation(m, i, j - 1)] else [])
  {
  }

  lemma {:induction false} RowObservationsCells(m: Matrix, i: nat, c: YearMonth, j: nat)
    requires i < |m.cohorts| && j <= |m.periods|
    requires ParseLabel(m.cohorts[i]) == Some(c)
    requires RowObservations(m, m.cohorts[i], c, j).Ok?
    ensures EnumeratesRow(m, i, j, RowObservations(m, m.cohorts[i], c, j).value, RowPositions(m, i, j))
  {
    if j > 0 {
      RowObservationsStep(m, i, c, j);
      RowObservationsCells(m, i, c, j - 1);
      EnumeratesRowExtend(m, i, j, RowObservations(m, m.cohorts[i], c, j - 1).value, RowPositions(m, i, j - 1));
    }
  }

  lemma EnumeratesRowExtend(m: Matrix, i: nat, j: nat, row: seq<Observation>, pos: seq<(int, int)>)
    requires 0 < j <= |m.periods|
    requires EnumeratesRow(m, i, j - 1, row, pos)
    requires ParseLabel(m.periods[j - 1]).Some?
    ensures Present(m, i, j - 1) ==>
      EnumeratesRow(m, i, j, row + [CellObservation(m, i, j - 1)], pos + [(i, j - 1)])
    ensures !Present(m, i, j - 1) ==> EnumeratesRow(m, i, j, row, pos)
  {
  }

  lemma {:induction false} ObservationsUpToStep(m: Matrix, i: nat)
    requires 0 < i <= |m.cohorts|
    requires ObservationsUpTo(m, i).Ok?
    ensures ObservationsUpTo(m, i - 1).Ok?
    ensures ParseLabel(m.cohorts[i - 1]).Some?
    ensures RowObservations(m, m.cohorts[i - 1], ParseLabel(m.cohorts[i - 1]).value, |m.periods|).Ok?
    ensures ObservationsUpTo(m, i).value == ObservationsUpTo(m, i - 1).value +
      RowObservations(m, m.cohorts[i - 1], ParseLabel(m.cohorts[i - 1]).value, |m.periods|).value
  {
  }

  lemma {:induction false} ObservationsUpToCells(m: Matrix, i: nat)
    requires i <= |m.cohorts|
    requires ObservationsUpTo(m, i).Ok?
    ensures EnumeratesCells(m, i, ObservationsUpTo(m, i).value, PrefixPositions(m, i))
  {
    if i > 0 {
      ObservationsUpToStep(m, i);
      ObservationsUpToCells(m, i - 1);
      var c := ParseLabel(m.cohorts[i - 1]).value;
      RowObservationsCells(m, i - 1, c, |m.periods|);
      EnumeratesCellsExtend(m, i,
        ObservationsUpTo(m, i - 1).value, PrefixPositions(m, i - 1),
        RowObservations(m, m.cohorts[i - 1], c, |m.periods|).value, RowPositions(m, i - 1, |m.periods|));
    }
  }

  lemma EnumeratesCellsExtend(m: Matrix, i: nat, obs: seq<Observation>, pos: seq<(int, int)>,
                              row: seq<Observation>, rpos: seq<(int, int)>)
    requires 0 < i <= |m.cohorts|
    requires EnumeratesCells(m, i - 1, obs, pos)
    requires EnumeratesRow(m, i - 1, |m.periods|, row, rpos)
    ensures EnumeratesCells(m, i, obs + row, pos + rpos)
  {
    var obs', pos' := obs + row, pos + rpos;
    assert forall k :: |pos| <= k < |pos'| ==> pos'[k] == rpos[k - |pos|] && obs'[k] == row[k - |pos|];
    forall k, k' | 0 <= k < k' < |pos'| ensures RowMajorBefore(pos'[k], pos'[k']) {
      if k' >= |pos| && k < |pos| {
        assert pos'[k'].0 == i - 1;
      }
    }
  }

  /** The observations are exactly the present cells of the matrix, one each,
      in cohort-major then period order, each carrying its cell's value and the
      MOB `(py-cy)*12 + (pm-cm)`; absent cells yield nothing and negative MOBs
      are kept. */
  lemma MobDataCells(m: Matrix)
    requires MobData(m).Ok?
    ensures exists pos :: EnumeratesCells(m, |m.cohorts|, MobData(m).value, pos)
  {
    ObservationsUpToCells(m, |m.cohorts|);
  }

  lemma ParseMarch2023()
    ensures ParseLabel("2023-03") == Some(YearMonth(2023, 3))
    ensures ParseLabel("2023-01") == Some(YearMonth(2023, 1))
  {
    assert Slice("2023-03", 0, 4) == "2023" && Slice("2023-01", 0, 4) == "2023";
    assert Slice("2023-03", 5, 7) == "03" && Slice("2023-01", 5, 7) == "01";
    assert "2023"[..3] == "202" && "202"[..2] == "20" && "20"[..1] == "2";
    assert "03"[..1] == "0" && "01"[..1] == "0";
  }

  /** A period before its cohort still yields an observation, with a negative MOB. */
  lemma NegativeMobKept()
    ensures MobData(Matrix(["2023-03"], ["2023-01"], map[("2023-03", "2023-01") := 1.5]))
      == Ok([Observation("2023-03", "2023-01", -2, 1.5)])
  {
    var m := Matrix(["2023-03"], ["2023-01"], map[("2023-03", "2023-01") := 1.5]);
    ParseMarch2023();
    assert multiset(m.cohorts)["2023-03"] == 1;
    assert RowObservations(m, "2023-03", YearMonth(2023, 3), 0) == Ok([]);
    assert m.periods[0] == "2023-01" && m.cohorts[0] == "2023-03";
    assert MonthsOnBook(YearMonth(2023, 3), YearMonth(2023, 1)) == -2;
    assert [] + [Observation("2023-03", "2023-01", -2, 1.5)] == [Observation("2023-03", "2023-01", -2, 1.5)];
    assert RowObservations(m, "2023-03", YearMonth(2023, 3), 1) == Ok([Observation("2023-03", "2023-01", -2, 1.5)]);
    assert ObservationsUpTo(m, 1) == Ok([] + [Observation("2023-03", "2023-01", -2, 1.5)]);
  }

  /** A cohort listed twice makes the first cell lookup of its row fail, even
      though both labels and the cell are well formed. */
  lemma RepeatedCohortFails()
    ensures MobData(Matrix(["2023-01", "2023-01"], ["2023-01"], map[("2023-01", "2023-01") := 1.0]))
      == Err(AmbiguousCell("2023-01"))
  {
    var m := Matrix(["2023-01", "2023-01"], ["2023-01"], map[("2023-01", "2023-01") := 1.0]);
    ParseMarch2023();
    assert multiset(m.cohorts)["2023-01"] == 2;
    assert m.periods[0] == "2023-01" && m.cohorts[0] == "2023-01" && m.cohorts[1] == "2023-01";
    assert RowObservations(m, "2023-01", YearMonth(2023, 1), 1) == Err(AmbiguousCell("2023-01"));
    assert ObservationsUpTo(m, 1) == Err(AmbiguousCell("2023-01"));
  }
}
