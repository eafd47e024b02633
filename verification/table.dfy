/**
 * The health-records table that the tabular matcher answers from (csv_utils.py),
 * the normalisation applied when it is loaded, and the two helpers every query
 * uses: case-insensitive containment on a column, and the de-duplicating join.
 */
module Table {
  import opened Wrappers
  import opened Text
  import opened Numerals

  /** The columns the matcher knows by name; any other column of the file plays no part. */
  datatype Column = PatientID | Name | Diagnosis | Treatment | Facility | Region | Cost | VisitDate

  /** The columns the loader normalises, in the order it visits them. */
  const NormalisedColumns: seq<Column> := [PatientID, Name, Diagnosis, Treatment, Facility, Region, Cost, VisitDate]

  /**
   * A table as read from the file: the columns it has, and per row the text of
   * each cell; a cell the reader takes as missing is absent from its row.
   */
  datatype RawTable = RawTable(columns: set<Column>, rows: seq<map<Column, string>>)

  /** A loaded row: the text of each cell of a present column, and the cost in cents. */
  datatype Row = Row(cells: map<Column, string>, cost: int)

  datatype Table = Table(columns: set<Column>, rows: seq<Row>)

  /** The text of a cell once the column is turned into strings: a missing value reads "nan". */
  function RawCell(row: map<Column, string>, c: Column): string {
    if c in row then row[c] else "nan"
  }

  /** The text of a cell of a loaded row. */
  function Cell(r: Row, c: Column): string {
    if c in r.cells then r.cells[c] else "nan"
  }

  /** A cost cell in cents: the number it spells, or 0 where it spells none. */
  function CostCents(text: string): (c: int)
    ensures ParseCents(text).None? ==> c == 0
    ensures ParseCents(text).Some? ==> c == ParseCents(text).value
  {
    match ParseCents(text)
    case Some(v) => v
    case None => 0
  }

  /** A cost printed with two decimals reads back as the same number of cents. */
  lemma CostCentsReadsFormatted(c: int)
    ensures CostCents(FormatCents(c)) == c
  {
    FormatParseRoundTrip(c);
  }

  /** A missing cost cell, which reads "nan", counts as 0, as `fillna(0)` makes it. */
  lemma MissingCostIsZero(row: map<Column, string>)
    requires Cost !in row
    ensures CostCents(RawCell(row, Cost)) == 0
  {
    var s := RawCell(row, Cost);
    assert s == "nan";
    assert !IsDigit(s[0]) && s[0] != '-' && s[0] != '+';
  }

  /** One column of every row trimmed, the rest untouched. */
  function StripColumn(cells: seq<map<Column, string>>, col: Column): (r: seq<map<Column, string>>)
    ensures |r| == |cells|
    ensures forall i :: 0 <= i < |cells| ==> r[i].Keys == cells[i].Keys
    ensures forall i :: 0 <= i < |cells| && col in cells[i] ==> r[i][col] == Strip(cells[i][col])
    ensures forall i, c :: 0 <= i < |cells| && c in cells[i] && c != col ==> r[i][c] == cells[i][c]
  {
    seq(|cells|, i requires 0 <= i < |cells| => if col in cells[i] then cells[i][col := Strip(cells[i][col])] else cells[i])
  }

  /** The cells of the raw table with exactly the present columns of done trimmed. */
  function PartlyStripped(raw: RawTable, done: set<Column>): (cells: seq<map<Column, string>>)
    ensures |cells| == |raw.rows|
  {
    seq(|raw.rows|, i requires 0 <= i < |raw.rows| => PartlyStrippedRow(raw, done, i))
  }

  /** One row of PartlyStripped. */
  function PartlyStrippedRow(raw: RawTable, done: set<Column>, i: nat): map<Column, string>
    requires i < |raw.rows|
  {
    map c | c in raw.columns :: if c in done then Strip(RawCell(raw.rows[i], c)) else RawCell(raw.rows[i], c)
  }

  /** Trimming column col of one row of a partly trimmed table. */
  lemma StripRowStep(raw: RawTable, done: set<Column>, col: Column, i: nat)
    requires i < |raw.rows|
    ensures var m := PartlyStrippedRow(raw, done, i);
      (if col in m then m[col := Strip(m[col])] else m) == PartlyStrippedRow(raw, done + {col}, i)
  {
    if col in raw.columns {
      StripPresentColumn(raw, done, col, i);
    } else {
      StripAbsentColumn(raw, done, col, i);
    }
  }

  /** StripRowStep for a column the table has: trimming twice is trimming once. */
  lemma StripPresentColumn(raw: RawTable, done: set<Column>, col: Column, i: nat)
    requires i < |raw.rows| && col in raw.columns
    ensures var m := PartlyStrippedRow(raw, done, i);
      m[col := Strip(m[col])] == PartlyStrippedRow(raw, done + {col}, i)
  {
    var m := PartlyStrippedRow(raw, done, i);
    var after := PartlyStrippedRow(raw, done + {col}, i);
    var m' := m[col := Strip(m[col])];
    StripTrimmed(Strip(RawCell(raw.rows[i], col)));
    assert m'[col] == after[col];
    forall c | c in m' ensures m'[c] == after[c] {
      if c != col {
        assert m'[c] == m[c];
      }
    }
    assert m'.Keys == after.Keys;
  }

  /** StripRowStep for a column the table lacks: the row does not change. */
  lemma StripAbsentColumn(raw: RawTable, done: set<Column>, col: Column, i: nat)
    requires i < |raw.rows| && col !in raw.columns
    ensures PartlyStrippedRow(raw, done, i) == PartlyStrippedRow(raw, done + {col}, i)
  {
  }

  /** Trimming one more column of a partly trimmed table. */
  lemma StripColumnStep(raw: RawTable, done: set<Column>, col: Column)
    ensures StripColumn(PartlyStripped(raw, done), col) == PartlyStripped(raw, done + {col})
  {
    var stripped := StripColumn(PartlyStripped(raw, done), col);
    var after := PartlyStripped(raw, done + {col});
    forall i | 0 <= i < |raw.rows| ensures stripped[i] == after[i] {
      StripRowStep(raw, done, col, i);
      assert PartlyStripped(raw, done)[i] == PartlyStrippedRow(raw, done, i);
      assert after[i] == PartlyStrippedRow(raw, done + {col}, i);
    }
  }

  /**
   * The table once loaded: every known column that is present is trimmed, and
   * the cost column becomes a number, 0 wherever its text is not one.
   */
  function Loaded(raw: RawTable): (t: Table)
    ensures t.columns == raw.columns && |t.rows| == |raw.rows|
    ensures forall i :: 0 <= i < |raw.rows| ==> t.rows[i].cells.Keys == raw.columns
    ensures forall i, c :: 0 <= i < |raw.rows| && c in raw.columns ==>
      t.rows[i].cells[c] == Strip(RawCell(raw.rows[i], c))
    ensures forall i :: 0 <= i < |raw.rows| ==>
      t.rows[i].cost == if Cost in raw.columns then CostCents(Strip(RawCell(raw.rows[i], Cost))) else 0
  {
    var cells := PartlyStripped(raw, raw.columns);
    Table(raw.columns, seq(|raw.rows|, i requires 0 <= i < |raw.rows| =>
      Row(cells[i], if Cost in raw.columns then CostCents(cells[i][Cost]) else 0)))
  }

  lemma EveryColumnNormalised(c: Column)
    ensures c in NormalisedColumns
  {
    match c
    case PatientID => assert c == NormalisedColumns[0];
    case Name => assert c == NormalisedColumns[1];
    case Diagnosis => assert c == NormalisedColumns[2];
    case Treatment => assert c == NormalisedColumns[3];
    case Facility => assert c == NormalisedColumns[4];
    case Region => assert c == NormalisedColumns[5];
    case Cost => assert c == NormalisedColumns[6];
    case VisitDate => assert c == NormalisedColumns[7];
  }

  /** Once every present column has been trimmed, the table is trimmed. */
  lemma StrippedEveryColumn(raw: RawTable, done: set<Column>)
    requires raw.columns <= done
    ensures PartlyStripped(raw, done) == PartlyStripped(raw, raw.columns)
  {
    forall i | 0 <= i < |raw.rows| ensures PartlyStripped(raw, done)[i] == PartlyStripped(raw, raw.columns)[i] {
      RowStrippedEvery(raw, done, i);
    }
  }

  /** One row of StrippedEveryColumn. */
  lemma RowStrippedEvery(raw: RawTable, done: set<Column>, i: nat)
    requires raw.columns <= done && i < |raw.rows|
    ensures PartlyStrippedRow(raw, done, i) == PartlyStrippedRow(raw, raw.columns, i)
  {
  }

  /** `_load_csv` after reading: the normalisation loop over the known columns, in place on the cells. */
  method Load(raw: RawTable) returns (t: Table)
    ensures t == Loaded(raw)
  {
    ghost var done: set<Column> := {};
    var cells := PartlyStripped(raw, {});
    for k := 0 to |NormalisedColumns|
      invariant cells == PartlyStripped(raw, done)
      invariant forall c :: c in NormalisedColumns[..k] ==> c in done
    {
      var col := NormalisedColumns[k];
      StripColumnStep(raw, done, col);
      if col in raw.columns {
        cells := StripColumn(cells, col);
      } else {
        assert PartlyStripped(raw, done + {col}) == cells;
      }
      done := done + {col};
    }
    assert NormalisedColumns[..|NormalisedColumns|] == NormalisedColumns;
    forall c | c in raw.columns ensures c in done {
      EveryColumnNormalised(c);
    }
    StrippedEveryColumn(raw, done);
    var rows := seq(|cells|, i requires 0 <= i < |cells| =>
      Row(cells[i], if Cost in raw.columns then CostCents(cells[i][Cost]) else 0));
    t := Table(raw.columns, rows);
  }

  /** `_icontains`: the cell contains the text, ignoring case. */
  predicate CellContains(r: Row, c: Column, text: string) {
    IContains(Cell(r, c), text)
  }

  /** The rows, in order, whose cell in column c contains the text, ignoring case. */
  function RowsContaining(rows: seq<Row>, c: Column, text: string): (res: seq<Row>)
    ensures |res| <= |rows|
    ensures forall r :: r in res <==> r in rows && CellContains(r, c, text)
  {
    if rows == [] then []
    else if CellContains(rows[0], c, text) then [rows[0]] + RowsContaining(rows[1..], c, text)
    else RowsContaining(rows[1..], c, text)
  }

  /** The filter keeps table order: filtering two runs of rows gives their kept rows one after the other. */
  lemma {:induction false} RowsContainingAppend(a: seq<Row>, b: seq<Row>, c: Column, text: string)
    ensures RowsContaining(a + b, c, text) == RowsContaining(a, c, text) + RowsContaining(b, c, text)
  {
    if a == [] {
      assert a + b == b;
    } else {
      assert (a + b)[0] == a[0];
      assert (a + b)[1..] == a[1..] + b;
      RowsContainingAppend(a[1..], b, c, text);
    }
  }

  /** With the empty text every row is kept: every cell contains it. */
  lemma {:induction false} EmptyTextKeepsEveryRow(rows: seq<Row>, c: Column)
    ensures RowsContaining(rows, c, "") == rows
  {
    if rows != [] {
      assert OccursAt(Lower(Cell(rows[0], c)), Lower(""), 0);
      EmptyTextKeepsEveryRow(rows[1..], c);
    }
  }

  /** A column of the given rows, as a list. */
  function Values(rows: seq<Row>, c: Column): (vs: seq<string>)
    ensures |vs| == |rows|
    ensures forall i :: 0 <= i < |rows| ==> vs[i] == Cell(rows[i], c)
  {
    seq(|rows|, i requires 0 <= i < |rows| => Cell(rows[i], c))
  }

  /** The sum of the costs of the rows. */
  function TotalCost(rows: seq<Row>): int {
    if rows == [] then 0 else rows[0].cost + TotalCost(rows[1..])
  }

  /** The sentinel the matcher answers with when it has nothing to say. */
  const NoMatchingData := "No matching data found in CSV."

  /** Position of the first occurrence of x in vs; |vs| when there is none. */
  function IndexOf(vs: seq<string>, x: string): nat {
    if vs == [] then 0
    else if vs[0] == x then 0
    else 1 + IndexOf(vs[1..], x)
  }

  /** IndexOf finds the first occurrence, and finds none exactly when x is not in vs. */
  lemma {:induction false} IndexOfIsFirst(vs: seq<string>, x: string)
    ensures IndexOf(vs, x) <= |vs|
    ensures IndexOf(vs, x) < |vs| <==> x in vs
    ensures IndexOf(vs, x) < |vs| ==> vs[IndexOf(vs, x)] == x
    ensures forall j :: 0 <= j < IndexOf(vs, x) ==> vs[j] != x
  {
    if vs != [] && vs[0] != x {
      IndexOfIsFirst(vs[1..], x);
      assert forall j :: 1 <= j < |vs| ==> vs[j] == vs[1..][j - 1];
      assert x in vs <==> x in vs[1..];
    }
  }

  /**
   * The non-blank values of vs that are not in seen, each once, in the order
   * they are first met.
   */
  function Unique(vs: seq<string>, seen: set<string>): seq<string> {
    if vs == [] then []
    else if Blank(vs[0]) || vs[0] in seen then Unique(vs[1..], seen)
    else [vs[0]] + Unique(vs[1..], seen + {vs[0]})
  }

  /** Unique keeps exactly the non-blank values of vs that are not in seen. */
  lemma {:induction false} UniqueMembers(vs: seq<string>, seen: set<string>)
    ensures forall x :: x in Unique(vs, seen) <==> x in vs && !Blank(x) && x !in seen
  {
    if vs != [] {
      assert forall x :: x in vs <==> x == vs[0] || x in vs[1..];
      if Blank(vs[0]) || vs[0] in seen {
        UniqueMembers(vs[1..], seen);
      } else {
        UniqueMembers(vs[1..], seen + {vs[0]});
      }
    }
  }

  predicate NoDuplicates(u: seq<string>) {
    forall i, j :: 0 <= i < j < |u| ==> u[i] != u[j]
  }

  /** No value appears twice in what Unique keeps. */
  lemma {:induction false} UniqueHasNoDuplicates(vs: seq<string>, seen: set<string>)
    ensures NoDuplicates(Unique(vs, seen))
  {
    if vs != [] {
      if Blank(vs[0]) || vs[0] in seen {
        assert Unique(vs, seen) == Unique(vs[1..], seen);
        UniqueHasNoDuplicates(vs[1..], seen);
      } else {
        var rest := Unique(vs[1..], seen + {vs[0]});
        UniqueHasNoDuplicates(vs[1..], seen + {vs[0]});
        UniqueMembers(vs[1..], seen + {vs[0]});
        assert vs[0] !in rest;
      }
    }
  }

  /** What Unique keeps comes in the order of first occurrence in vs. */
  lemma {:induction false} UniqueKeepsFirstSeenOrder(vs: seq<string>, seen: set<string>, i: nat, j: nat)
    requires var u := Unique(vs, seen); i < j < |u|
    ensures var u := Unique(vs, seen); IndexOf(vs, u[i]) < IndexOf(vs, u[j])
    decreases |vs|, 1
  {
    UniqueMembers(vs, seen);
    if Blank(vs[0]) || vs[0] in seen {
      UniqueOrderPastSkipped(vs, seen, i, j);
    } else {
      UniqueOrderPastKept(vs, seen, i, j);
    }
  }

  /** UniqueKeepsFirstSeenOrder when the head of vs is dropped. */
  lemma {:induction false} UniqueOrderPastSkipped(vs: seq<string>, seen: set<string>, i: nat, j: nat)
    requires vs != [] && (Blank(vs[0]) || vs[0] in seen)
    requires var u := Unique(vs, seen); i < j < |u|
    ensures var u := Unique(vs, seen); IndexOf(vs, u[i]) < IndexOf(vs, u[j])
    decreases |vs|, 0
  {
    var t := Unique(vs[1..], seen);
    assert Unique(vs, seen) == t;
    UniqueKeepsFirstSeenOrder(vs[1..], seen, i, j);
    UniqueMembers(vs[1..], seen);
    assert t[i] in t && t[j] in t;
    IndexOfTail(vs, t[i]);
    IndexOfTail(vs, t[j]);
  }

  /** UniqueKeepsFirstSeenOrder when the head of vs is kept. */
  lemma {:induction false} UniqueOrderPastKept(vs: seq<string>, seen: set<string>, i: nat, j: nat)
    requires vs != [] && !Blank(vs[0]) && vs[0] !in seen
    requires var u := Unique(vs, seen); i < j < |u|
    ensures var u := Unique(vs, seen); IndexOf(vs, u[i]) < IndexOf(vs, u[j])
    decreases |vs|, 0
  {
    var u := Unique(vs, seen);
    var rest := Unique(vs[1..], seen + {vs[0]});
    UniqueMembers(vs, seen);
    assert u[i] in u && u[j] in u;
    KeptHeadSplits(vs, seen);
    LaterValuePastHead(vs, seen, rest[j - 1]);
    if i > 0 {
      UniqueKeepsFirstSeenOrder(vs[1..], seen + {vs[0]}, i - 1, j - 1);
      LaterValuePastHead(vs, seen, rest[i - 1]);
    } else {
      assert u[i] == vs[0];
    }
  }

  /** When the head is kept, Unique is the head and then Unique of the tail. */
  lemma KeptHeadSplits(vs: seq<string>, seen: set<string>)
    requires vs != [] && !Blank(vs[0]) && vs[0] !in seen
    ensures var u := Unique(vs, seen); var rest := Unique(vs[1..], seen + {vs[0]});
      |u| == 1 + |rest| && u[0] == vs[0] && forall k :: 0 < k < |u| ==> u[k] == rest[k - 1]
  {
  }

  /** A value Unique keeps past a kept head comes later in vs than the head. */
  lemma LaterValuePastHead(vs: seq<string>, seen: set<string>, x: string)
    requires vs != [] && !Blank(vs[0]) && vs[0] !in seen
    requires x in Unique(vs[1..], seen + {vs[0]})
    ensures x in vs && x != vs[0] && IndexOf(vs, x) == 1 + IndexOf(vs[1..], x) && IndexOf(vs, vs[0]) == 0
  {
    UniqueMembers(vs[1..], seen + {vs[0]});
    IndexOfTail(vs, x);
  }

  /** Past the head, a value's first position is one more than in the tail. */
  lemma IndexOfTail(vs: seq<string>, x: string)
    requires vs != [] && x in vs[1..] && x != vs[0]
    ensures x in vs && IndexOf(vs, x) == 1 + IndexOf(vs[1..], x)
  {
  }

  /**
   * `_clean_answer`: the distinct non-blank values joined by ", ", or the
   * sentinel when there is none.
   */
  function CleanAnswer(vs: seq<string>): (r: string)
    ensures (forall v :: v in vs ==> Blank(v)) ==> r == NoMatchingData
    ensures (exists v :: v in vs && !Blank(v)) ==> r == Join(", ", Unique(vs, {}))
  {
    var u := Unique(vs, {});
    UniqueMembers(vs, {});
    if u == [] then NoMatchingData
    else
      assert u[0] in vs && !Blank(u[0]);
      Join(", ", u)
  }
}
