/** The scan of one `tb_dados` table (main.py:65-82, main.py:133-151): skip
    the first row, ignore rows with fewer than two cells, let a `tb_item` first
    cell set the current type, and emit one flat record for each `tb_subitem`
    first cell under the type in force. */
module Classifier {
  import opened Outcome
  import opened SeqLemmas
  import opened PyStr

  /** A `td` cell: its text and the names in its `class` attribute (none when
      the tag carries no such attribute). */
  datatype Cell = Cell(text: string, classes: set<string>)

  /** A `tr` row: its `td` cells in order. */
  datatype Row = Row(cells: seq<Cell>)

  /** One flat output record. `category` is None on the production path,
      which emits no 'Categoria' key. */
  datatype Record = Record(year: int, category: Option<string>, tipo: string,
                           product: string, quantity: string, unit: string)

  /** The type records carry before any `tb_item` row has been seen. */
  const Unknown := "Desconhecido"
  const ItemClass := "tb_item"
  const SubitemClass := "tb_subitem"

  /** The scan looks only at rows with at least two cells. */
  predicate Counted(r: Row) {
    |r.cells| >= 2
  }

  /** A row that sets the current type. */
  predicate IsItemRow(r: Row) {
    Counted(r) && ItemClass in r.cells[0].classes
  }

  /** A row that emits a record; `tb_item` is tested first. */
  predicate IsSubitemRow(r: Row) {
    Counted(r) && ItemClass !in r.cells[0].classes && SubitemClass in r.cells[0].classes
  }

  /** A sub-item row whose second cell holds no token: `split()[-1]` raises IndexError. */
  predicate IsBlankSubitem(r: Row) {
    IsSubitemRow(r) && Words(r.cells[1].text) == []
  }

  /** The first cell's stripped text. */
  function Title(r: Row): string
    requires Counted(r)
  {
    Strip(r.cells[0].text)
  }

  /** The second cell's stripped text. */
  function Quantity(r: Row): string
    requires Counted(r)
  {
    Strip(r.cells[1].text)
  }

  /** The last whitespace-separated token of `s` ("" when there is none). */
  function LastWord(s: string): string {
    var w := Words(s);
    if w == [] then [] else w[|w| - 1]
  }

  /** The current type after `rows`: the title of the last item row among
      them, or `initial` when there is none. */
  function TipoAfter(rows: seq<Row>, initial: string): string {
    if rows == [] then initial
    else if IsItemRow(rows[|rows| - 1]) then Title(rows[|rows| - 1])
    else TipoAfter(rows[..|rows| - 1], initial)
  }

  function MakeRecord(r: Row, tipo: string, year: int, category: Option<string>): Record
    requires Counted(r)
  {
    Record(year, category, tipo, Title(r), Quantity(r), LastWord(r.cells[1].text))
  }

  /** The records of `rows`, defined row by row from the end: one per sub-item
      row, under the type of the item rows before it. */
  function Emitted(rows: seq<Row>, year: int, category: Option<string>): seq<Record> {
    if rows == [] then []
    else
      var init, last := rows[..|rows| - 1], rows[|rows| - 1];
      Emitted(init, year, category)
      + (if IsSubitemRow(last) then [MakeRecord(last, TipoAfter(init, Unknown), year, category)] else [])
  }

  /** Some row is a blank sub-item row. */
  predicate HasBlankSubitem(rows: seq<Row>) {
    rows != [] && (HasBlankSubitem(rows[..|rows| - 1]) || IsBlankSubitem(rows[|rows| - 1]))
  }

  /** Python's `rows[1:]`. */
  function Body(rows: seq<Row>): seq<Row> {
    if rows == [] then [] else rows[1..]
  }

  /** What one table yields: IndexError if some classified sub-item row has a
      blank second cell, otherwise the records of every row after the first. */
  function TableRecords(rows: seq<Row>, year: int, category: Option<string>): Result<seq<Record>> {
    var body := Body(rows);
    if HasBlankSubitem(body) then Err(IndexError)
    else Ok(Emitted(body, year, category))
  }

  /** A blank sub-item row in a prefix is one in the whole. */
  lemma {:induction false} BlankPersists(rows: seq<Row>, m: nat)
    requires m <= |rows| && HasBlankSubitem(rows[..m])
    ensures HasBlankSubitem(rows)
    decreases |rows| - m
  {
    if m < |rows| {
      var init := rows[..|rows| - 1];
      assert init[..m] == rows[..m];
      BlankPersists(init, m);
    } else {
      assert rows[..m] == rows;
    }
  }

  /** The table fails exactly when some row after the first is a sub-item row
      whose second cell has no token. */
  lemma {:induction false} BlankSubitemFails(rows: seq<Row>)
    ensures HasBlankSubitem(rows) <==> exists i :: 0 <= i < |rows| && IsBlankSubitem(rows[i])
  {
    if rows != [] {
      var init := rows[..|rows| - 1];
      BlankSubitemFails(init);
      assert forall i :: 0 <= i < |init| ==> init[i] == rows[i];
      if IsBlankSubitem(rows[|rows| - 1]) {
        assert exists i :: 0 <= i < |rows| && IsBlankSubitem(rows[i]);
      }
    }
  }

  /** The scan itself, one row at a time with the current type in `tipo`. */
  method ClassifyTable(rows: seq<Row>, year: int, category: Option<string>) returns (r: Result<seq<Record>>)
    ensures r == TableRecords(rows, year, category)
  {
    var body := Body(rows);
    var tipo := Unknown;
    var data: seq<Record> := [];
    var i := 0;
    while i < |body|
      invariant 0 <= i <= |body|
      invariant tipo == TipoAfter(body[..i], Unknown)
      invariant data == Emitted(body[..i], year, category)
      invariant !HasBlankSubitem(body[..i])
    {
      assert body[..i + 1] == body[..i] + [body[i]];
      ScanAppend(body[..i], body[i], year, category);
      var row := body[i];
      if |row.cells| >= 2 {
        var product := Title(row);
        var quantity := Quantity(row);
        if ItemClass in row.cells[0].classes {
          tipo := product;
        } else if SubitemClass in row.cells[0].classes {
          var tokens := Words(row.cells[1].text);
          if |tokens| == 0 {
            BlankPersists(body, i + 1);
            return Err(IndexError);
          }
          data := data + [Record(year, category, tipo, product, quantity, tokens[|tokens| - 1])];
        }
      }
      i := i + 1;
    }
    assert body[..i] == body;
    return Ok(data);
  }

  // ------------------------------------------------------------------ lemmas

  /** The number of sub-item rows. */
  function CountSubitems(rows: seq<Row>): nat {
    if rows == [] then 0
    else CountSubitems(rows[..|rows| - 1]) + (if IsSubitemRow(rows[|rows| - 1]) then 1 else 0)
  }

  /** One record per sub-item row, no more and no fewer. */
  lemma {:induction false} EmittedCount(rows: seq<Row>, year: int, category: Option<string>)
    ensures |Emitted(rows, year, category)| == CountSubitems(rows)
  {
    if rows != [] {
      EmittedCount(rows[..|rows| - 1], year, category);
    }
  }

  /** Every record carries the year and the category of its table. */
  lemma {:induction false} EmittedTags(rows: seq<Row>, year: int, category: Option<string>)
    ensures forall rec :: rec in Emitted(rows, year, category) ==> rec.year == year && rec.category == category
  {
    if rows != [] {
      EmittedTags(rows[..|rows| - 1], year, category);
    }
  }

  /** A table that yields records yields one per sub-item row after the
      heading, each tagged with the table's year and category. */
  lemma TableTags(rows: seq<Row>, year: int, category: Option<string>)
    requires TableRecords(rows, year, category).Ok?
    ensures var recs := TableRecords(rows, year, category).value;
            |recs| == CountSubitems(Body(rows))
            && forall rec :: rec in recs ==> rec.year == year && rec.category == category
  {
    EmittedCount(Body(rows), year, category);
    EmittedTags(Body(rows), year, category);
  }

  /** With no item row, the type stays at its initial value. */
  lemma {:induction false} TipoWithoutItems(rows: seq<Row>, initial: string)
    requires forall i :: 0 <= i < |rows| ==> !IsItemRow(rows[i])
    ensures TipoAfter(rows, initial) == initial
  {
    if rows != [] {
      TipoWithoutItems(rows[..|rows| - 1], initial);
    }
  }

  /** The type in force is the title of the most recent item row. */
  lemma {:induction false} TipoIsLatestItem(rows: seq<Row>, initial: string, j: nat)
    requires j < |rows| && IsItemRow(rows[j])
    requires forall i :: j < i < |rows| ==> !IsItemRow(rows[i])
    ensures TipoAfter(rows, initial) == Title(rows[j])
  {
    if j < |rows| - 1 {
      TipoIsLatestItem(rows[..|rows| - 1], initial, j);
    }
  }

  /** The records of a prefix of the rows are a prefix of the records. */
  lemma {:induction false} EmittedPrefix(rows: seq<Row>, m: nat, year: int, category: Option<string>)
    requires m <= |rows|
    ensures var e := Emitted(rows, year, category);
            var p := Emitted(rows[..m], year, category);
            |p| <= |e| && e[..|p|] == p
    decreases |rows| - m
  {
    if m < |rows| {
      var init := rows[..|rows| - 1];
      assert init[..m] == rows[..m];
      EmittedPrefix(init, m, year, category);
    } else {
      assert rows[..m] == rows;
    }
  }

  /** The sub-item row at `j` emits the record numbered by the sub-item rows
      before it, with its own product, quantity and unit and the type in force
      at that row. */
  lemma RecordOfSubitem(rows: seq<Row>, j: nat, year: int, category: Option<string>)
    requires j < |rows| && IsSubitemRow(rows[j])
    ensures var e := Emitted(rows, year, category);
            var k := CountSubitems(rows[..j]);
            k < |e| && e[k] == MakeRecord(rows[j], TipoAfter(rows[..j], Unknown), year, category)
  {
    var pre := rows[..j + 1];
    assert pre[..j] == rows[..j];
    EmittedCount(rows[..j], year, category);
    EmittedPrefix(rows, j + 1, year, category);
  }

  /** A unit taken from a second cell that holds one token is that token, which
      is also the quantity: the unit equals the quantity. */
  lemma UnitOfSingleToken(r: Row, tipo: string, year: int, category: Option<string>)
    requires IsSubitemRow(r)
    requires Strip(r.cells[1].text) != [] && NoSpace(Strip(r.cells[1].text))
    ensures MakeRecord(r, tipo, year, category).unit == MakeRecord(r, tipo, year, category).quantity
  {
    WordsOfOneToken(r.cells[1].text);
  }

  /** The unit is the last token of the second cell: a non-empty run without
      whitespace, followed only by whitespace and preceded by whitespace or by
      nothing. */
  lemma UnitIsLastToken(r: Row, tipo: string, year: int, category: Option<string>)
      returns (before: string, after: string)
    requires IsSubitemRow(r) && !IsBlankSubitem(r)
    ensures var unit := MakeRecord(r, tipo, year, category).unit;
            unit != [] && NoSpace(unit)
            && r.cells[1].text == before + unit + after
            && AllSpace(after) && (before == [] || IsSpace(before[|before| - 1]))
  {
    before, after := LastWordSplit(r.cells[1].text);
  }

  /** One more row at the end of the table, in the form of appending. */
  lemma ScanAppend(rows: seq<Row>, r: Row, year: int, category: Option<string>)
    ensures TipoAfter(rows + [r], Unknown) == if IsItemRow(r) then Title(r) else TipoAfter(rows, Unknown)
    ensures Emitted(rows + [r], year, category)
            == Emitted(rows, year, category)
               + (if IsSubitemRow(r) then [MakeRecord(r, TipoAfter(rows, Unknown), year, category)] else [])
    ensures HasBlankSubitem(rows + [r]) == (HasBlankSubitem(rows) || IsBlankSubitem(r))
  {
    assert (rows + [r])[..|rows|] == rows;
  }

  /** The first row of a table is its heading and is never classified:
      whatever it holds, the table yields what its body yields. */
  lemma TableAfterHeading(heading: Row, other: Row, body: seq<Row>, year: int, category: Option<string>)
    ensures TableRecords([heading] + body, year, category) == TableRecords([other] + body, year, category)
    ensures TableRecords([heading] + body, year, category)
            == if HasBlankSubitem(body) then Err(IndexError) else Ok(Emitted(body, year, category))
  {
    assert ([heading] + body)[1..] == body;
    assert ([other] + body)[1..] == body;
  }

  /** The records that sub-item rows give under one fixed type, in row order. */
  function UnderType(subs: seq<Row>, tipo: string, year: int, category: Option<string>): seq<Record>
    requires forall k :: 0 <= k < |subs| ==> IsSubitemRow(subs[k])
  {
    if subs == [] then []
    else
      assert IsSubitemRow(subs[|subs| - 1]);
      UnderType(subs[..|subs| - 1], tipo, year, category)
      + [MakeRecord(subs[|subs| - 1], tipo, year, category)]
  }

  /** An item row followed by sub-item rows: the type is the item's title
      throughout, and the sub-item rows add their records, in row order and
      all under that title, after the records already emitted. */
  lemma {:induction false} GroupUnderItem(pre: seq<Row>, a: Row, subs: seq<Row>, year: int,
                                          category: Option<string>)
    requires IsItemRow(a)
    requires forall k :: 0 <= k < |subs| ==> IsSubitemRow(subs[k])
    ensures TipoAfter(pre + [a] + subs, Unknown) == Title(a)
    ensures Emitted(pre + [a] + subs, year, category)
            == Emitted(pre, year, category) + UnderType(subs, Title(a), year, category)
    decreases |subs|
  {
    if subs == [] {
      assert pre + [a] + subs == pre + [a];
      ScanAppend(pre, a, year, category);
    } else {
      var init, last := subs[..|subs| - 1], subs[|subs| - 1];
      assert forall k :: 0 <= k < |init| ==> init[k] == subs[k];
      GroupUnderItem(pre, a, init, year, category);
      var q := pre + [a] + init;
      SplitLast(pre + [a], subs);
      ScanAppend(q, last, year, category);
      var e, g := Emitted(pre, year, category), UnderType(init, Title(a), year, category);
      Reassociate(e, g, [MakeRecord(last, Title(a), year, category)]);
    }
  }
}
