/** The column extraction of extracao_csv.py: the first field of the header
    row, split on ';', names the columns; the column whose name is the year
    is located; every non-empty data row is split the same way and reduced to
    its first three fields and the field in the year's column.

    The input is the sequence of rows the CSV reader yields, each row a
    sequence of fields. */
module CsvColumn {
  import opened Outcome
  import opened SeqLemmas
  import opened PyStr

  /** The year the routine extracts. */
  const Ano := 1989

  const Sep := ';'

  /** The position of the year's column: StopIteration for no rows at all,
      IndexError for an empty header row, ValueError when no column carries
      the year's name. */
  function HeaderYearIndex(records: seq<seq<string>>, year: int): (r: Result<nat>)
    ensures r.Ok? ==> records != [] && records[0] != []
                      && var columns := SplitOn(records[0][0], Sep);
                         r.value < |columns| && columns[r.value] == Str(year)
                         && Str(year) !in columns[..r.value]
  {
    if records == [] then Err(StopIteration)
    else if records[0] == [] then Err(IndexError)
    else
      match IndexOf(SplitOn(records[0][0], Sep), Str(year))
      case None => Err(ValueError)
      case Some(i) => Ok(i)
  }

  /** A row is too short when `v[0]`, `v[1]`, `v[2]` or `v[idx]` is out of range. */
  predicate TooShort(v: seq<string>, idx: nat) {
    |v| < 3 || |v| <= idx
  }

  /** `[v[0], v[1], v[2], v[idx]]` for the split first field of a non-empty row. */
  function Project(line: seq<string>, idx: nat): Result<seq<string>>
    requires line != []
  {
    var v := SplitOn(line[0], Sep);
    if TooShort(v, idx) then Err(IndexError) else Ok([v[0], v[1], v[2], v[idx]])
  }

  /** The entries of the data rows, in order, skipping empty rows; the first
      short row raises IndexError. */
  function ProjectRows(rows: seq<seq<string>>, idx: nat): Result<seq<seq<string>>> {
    if rows == [] then Ok([])
    else
      var line := rows[|rows| - 1];
      match ProjectRows(rows[..|rows| - 1], idx)
      case Err(e) => Err(e)
      case Ok(item) =>
        if line == [] then Ok(item)
        else
          match Project(line, idx)
          case Err(e) => Err(e)
          case Ok(entry) => Ok(item + [entry])
  }

  /** The whole routine. */
  function Extraction(records: seq<seq<string>>, year: int): Result<seq<seq<string>>> {
    match HeaderYearIndex(records, year)
    case Err(e) => Err(e)
    case Ok(idx) => ProjectRows(records[1..], idx)
  }

  lemma ProjectRowsStep(rows: seq<seq<string>>, i: nat, idx: nat)
    requires i < |rows|
    ensures ProjectRows(rows[..i + 1], idx)
            == match ProjectRows(rows[..i], idx)
               case Err(e) => Err(e)
               case Ok(item) =>
                 if rows[i] == [] then Ok(item)
                 else
                   match Project(rows[i], idx)
                   case Err(e) => Err(e)
                   case Ok(entry) => Ok(item + [entry])
  {
    assert rows[..i + 1][..i] == rows[..i];
  }

  lemma {:induction false} ProjectRowsErrPersists(rows: seq<seq<string>>, m: nat, idx: nat)
    requires m <= |rows| && ProjectRows(rows[..m], idx).Err?
    ensures ProjectRows(rows, idx) == ProjectRows(rows[..m], idx)
    decreases |rows| - m
  {
    if m < |rows| {
      var init := rows[..|rows| - 1];
      assert init[..m] == rows[..m];
      ProjectRowsErrPersists(init, m, idx);
    } else {
      assert rows[..m] == rows;
    }
  }

  /** The module-level loop, appending one entry per non-empty row to `item`. */
  method Extract(records: seq<seq<string>>, year: int) returns (r: Result<seq<seq<string>>>)
    ensures r == Extraction(records, year)
  {
    if records == [] {
      return Err(StopIteration);
    }
    if records[0] == [] {
      return Err(IndexError);
    }
    var columns := SplitOn(records[0][0], Sep);
    var found := IndexOf(columns, Str(year));
    if found.None? {
      return Err(ValueError);
    }
    var idx := found.value;
    var rows := records[1..];
    var item: seq<seq<string>> := [];
    var i := 0;
    while i < |rows|
      invariant 0 <= i <= |rows|
      invariant ProjectRows(rows[..i], idx) == Ok(item)
    {
      ProjectRowsStep(rows, i, idx);
      var line := rows[i];
      if line != [] {
        var v := SplitOn(line[0], Sep);
        if |v| < 3 || |v| <= idx {
          ProjectRowsErrPersists(rows, i + 1, idx);
          return Err(IndexError);
        }
        item := item + [[v[0], v[1], v[2], v[idx]]];
      }
      i := i + 1;
    }
    assert rows[..i] == rows;
    return Ok(item);
  }

  // ------------------------------------------------------------------ lemmas

  /** The non-empty rows, in order. */
  function NonEmpty(rows: seq<seq<string>>): (r: seq<seq<string>>)
    ensures forall k :: 0 <= k < |r| ==> r[k] != []
  {
    if rows == [] then []
    else NonEmpty(rows[..|rows| - 1]) + (if rows[|rows| - 1] == [] then [] else [rows[|rows| - 1]])
  }

  /** Every non-empty row is kept, as often as it occurs, and nothing else is. */
  lemma {:induction false} NonEmptyMembers(rows: seq<seq<string>>)
    ensures forall line :: line in NonEmpty(rows) <==> line in rows && line != []
    ensures forall line :: multiset(NonEmpty(rows))[line] == if line == [] then 0 else multiset(rows)[line]
  {
    if rows != [] {
      var init := rows[..|rows| - 1];
      NonEmptyMembers(init);
      assert rows == init + [rows[|rows| - 1]];
      assert multiset(rows) == multiset(init) + multiset{rows[|rows| - 1]};
    }
  }

  /** The rows are projected exactly when no non-empty row is too short; the
      failure is then IndexError. */
  lemma {:induction false} ProjectRowsFails(rows: seq<seq<string>>, idx: nat)
    ensures ProjectRows(rows, idx).Err? <==>
              exists i :: 0 <= i < |rows| && rows[i] != [] && TooShort(SplitOn(rows[i][0], Sep), idx)
    ensures ProjectRows(rows, idx).Err? ==> ProjectRows(rows, idx).fault == IndexError
  {
    if rows != [] {
      var init := rows[..|rows| - 1];
      ProjectRowsFails(init, idx);
      assert forall i :: 0 <= i < |init| ==> init[i] == rows[i];
    }
  }

  /** One entry per non-empty row, in row order: entry `k` is the first three
      fields and the year's field of the `k`-th non-empty row. */
  lemma {:induction false} ProjectRowsEntries(rows: seq<seq<string>>, idx: nat)
    requires ProjectRows(rows, idx).Ok?
    ensures var item := ProjectRows(rows, idx).value;
            var kept := NonEmpty(rows);
            |item| == |kept|
            && forall k :: 0 <= k < |item| ==>
                 var v := SplitOn(kept[k][0], Sep);
                 !TooShort(v, idx) && item[k] == [v[0], v[1], v[2], v[idx]]
  {
    if rows != [] {
      var init := rows[..|rows| - 1];
      ProjectRowsEntries(init, idx);
    }
  }

  /** A data row written out as its fields joined by ';' projects to those fields. */
  lemma RowRoundTrip(fields: seq<string>, rest: seq<string>, idx: nat)
    requires |fields| >= 3 && idx < |fields|
    requires forall k :: 0 <= k < |fields| ==> Sep !in fields[k]
    ensures Project([JoinWith(fields, Sep)] + rest, idx) == Ok([fields[0], fields[1], fields[2], fields[idx]])
  {
    SplitJoin(fields, Sep);
  }

  /** A header written out as column names joined by ';', with the year's
      name first appearing at `p`, locates the year at `p`. */
  lemma HeaderRoundTrip(columns: seq<string>, others: seq<string>, rows: seq<seq<string>>, year: int, p: nat)
    requires p < |columns| && columns[p] == Str(year) && Str(year) !in columns[..p]
    requires forall k :: 0 <= k < |columns| ==> Sep !in columns[k]
    ensures HeaderYearIndex([[JoinWith(columns, Sep)] + others] + rows, year) == Ok(p)
  {
    SplitJoin(columns, Sep);
    FirstIndexUnique(columns, Str(year), IndexOf(columns, Str(year)).value, p);
  }

  /** For the routine's own year, a header whose first column named "1989" is
      at `p` makes the routine project every data row on column `p`. */
  lemma AnoExtraction(columns: seq<string>, others: seq<string>, rows: seq<seq<string>>, p: nat)
    requires p < |columns| && columns[p] == "1989" && "1989" !in columns[..p]
    requires forall k :: 0 <= k < |columns| ==> Sep !in columns[k]
    ensures Extraction([[JoinWith(columns, Sep)] + others] + rows, Ano) == ProjectRows(rows, p)
  {
    assert Str(Ano) == "1989";
    HeaderRoundTrip(columns, others, rows, Ano, p);
    var records := [[JoinWith(columns, Sep)] + others] + rows;
    assert records[1..] == rows;
  }

  /** The routine fails exactly in these cases: no rows, an empty header row,
      no column named after the year, or a non-empty data row too short for
      the year's column. */
  lemma ExtractionFails(records: seq<seq<string>>, year: int)
    ensures records == [] ==> Extraction(records, year) == Err(StopIteration)
    ensures records != [] && records[0] == [] ==> Extraction(records, year) == Err(IndexError)
    ensures records != [] && records[0] != [] && Str(year) !in SplitOn(records[0][0], Sep) ==>
              Extraction(records, year) == Err(ValueError)
    ensures HeaderYearIndex(records, year).Ok? ==>
              var idx := HeaderYearIndex(records, year).value;
              var rows := records[1..];
              (Extraction(records, year).Err? <==>
                 exists i :: 0 <= i < |rows| && rows[i] != [] && TooShort(SplitOn(rows[i][0], Sep), idx))
              && (Extraction(records, year).Err? ==> Extraction(records, year).fault == IndexError)
  {
    if HeaderYearIndex(records, year).Ok? {
      ProjectRowsFails(records[1..], HeaderYearIndex(records, year).value);
    }
  }
}
