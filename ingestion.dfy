/** The ingestion job (ingestion/main.py): read the ratings CSV, normalise
    its header, keep the four rating columns, turn the UNIX-seconds column
    into timestamps and keep the rows of one calendar month. The frame is
    modelled as a header and rows of cells, as pandas holds it; reading the
    file and loading PostgreSQL are not modelled, only their outcomes. */
module Ingestion {
  import opened Wrappers
  import opened Sequences
  import Decimal
  import CommandLine
  import Calendar
  import Preprocessing

  /** One value of a frame: what `read_csv` produces (a missing field is
      Null), plus the timestamps `to_datetime` produces. */
  datatype Cell = Null | Text(text: string) | Integer(integer: int) | Number(number: real) | DateTime(seconds: int)

  datatype Frame = Frame(columns: seq<string>, rows: seq<seq<Cell>>)

  predicate Rectangular(f: Frame) {
    forall i :: 0 <= i < |f.rows| ==> |f.rows[i]| == |f.columns|
  }

  datatype IngestError =
    | InvalidMonthArgument
    | CsvUnreadable
    | MissingColumns(names: seq<string>)
    | TimestampColumnCount(count: nat)
    | UnparsableTimestamp(text: string)
    | TimestampOutOfBounds(seconds: int)

  /** The columns kept by line 29, in this order. */
  const SelectedColumns: seq<string> := ["userid", "productid", "rating", "timestamp"]
  const TimestampColumn: string := "timestamp"

  // ---------------------------------------------------------------- header

  function LowerChar(c: char): char {
    if 'A' <= c <= 'Z' then (c as int + 32) as char else c
  }

  function Lower(s: string): string {
    seq(|s|, i requires 0 <= i < |s| => LowerChar(s[i]))
  }

  predicate HasUpper(s: string) {
    exists i :: 0 <= i < |s| && 'A' <= s[i] <= 'Z'
  }

  /** Lowering is case-insensitive matching: the result has no capitals,
      lowering it again changes nothing, and a name without capitals is
      left alone. */
  lemma LowerNormalises(s: string)
    ensures |Lower(s)| == |s| && !HasUpper(Lower(s))
    ensures Lower(Lower(s)) == Lower(s)
    ensures !HasUpper(s) ==> Lower(s) == s
  {
    if !HasUpper(s) {
      forall i | 0 <= i < |s| ensures Lower(s)[i] == s[i] {
        assert !('A' <= s[i] <= 'Z');
      }
    }
  }

  function LowerNames(names: seq<string>): (r: seq<string>)
    ensures |r| == |names|
  {
    seq(|names|, i requires 0 <= i < |names| => Lower(names[i]))
  }

  /** Line 28: the header is lowered, the cells are untouched. */
  function LowerColumns(f: Frame): (r: Frame)
    ensures Rectangular(f) ==> Rectangular(r)
    ensures r.rows == f.rows && r.columns == LowerNames(f.columns)
  {
    Frame(LowerNames(f.columns), f.rows)
  }

  // ---------------------------------------------------------- `df[labels]`

  /** The positions holding a label, in increasing order. */
  function Positions(cols: seq<string>, name: string): (ps: seq<nat>)
    ensures forall k :: 0 <= k < |ps| ==> ps[k] < |cols| && cols[ps[k]] == name
    ensures forall k, l :: 0 <= k < l < |ps| ==> ps[k] < ps[l]
    decreases |cols|
  {
    if cols == [] then []
    else
      var n := |cols| - 1;
      var init := Positions(cols[..n], name);
      if cols[n] == name then init + [n] else init
  }

  /** Every position holding the label is listed. */
  lemma {:induction false} PositionsComplete(cols: seq<string>, name: string, i: nat)
    requires i < |cols| && cols[i] == name
    ensures i in Positions(cols, name)
    decreases |cols|
  {
    var n := |cols| - 1;
    if i < n {
      PositionsComplete(cols[..n], name, i);
    }
  }

  lemma PositionsEmpty(cols: seq<string>, name: string)
    ensures Positions(cols, name) == [] <==> name !in cols
  {
    if name in cols {
      var i :| 0 <= i < |cols| && cols[i] == name;
      PositionsComplete(cols, name, i);
    }
  }

  /** A label found at j and nowhere else has the single position j. */
  lemma {:induction false} PositionsOfSingle(cols: seq<string>, name: string, j: nat)
    requires j < |cols| && cols[j] == name
    requires forall i :: 0 <= i < |cols| && cols[i] == name ==> i == j
    ensures Positions(cols, name) == [j]
    decreases |cols|
  {
    var n := |cols| - 1;
    if j == n {
      PositionsEmpty(cols[..n], name);
    } else {
      PositionsOfSingle(cols[..n], name, j);
    }
  }

  predicate UniqueLabel(cols: seq<string>, name: string) {
    |Positions(cols, name)| == 1
  }

  function ColumnOf(cols: seq<string>, name: string): (j: nat)
    requires UniqueLabel(cols, name)
    ensures j < |cols| && cols[j] == name
  {
    Positions(cols, name)[0]
  }

  /** The requested labels the header lacks, in request order. */
  function Missing(cols: seq<string>, wanted: seq<string>): (m: seq<string>)
    ensures forall w :: w in m <==> w in wanted && w !in cols
    ensures IsSubsequence(m, wanted)
  {
    if wanted == [] then []
    else if wanted[0] in cols then Missing(cols, wanted[1..])
    else
      var m := [wanted[0]] + Missing(cols, wanted[1..]);
      assert m[0] == wanted[0] && m[1..] == Missing(cols, wanted[1..]);
      m
  }

  /** The source positions of the selected columns: every position of each
      label in turn, as pandas selects all columns carrying a label. */
  function Indices(cols: seq<string>, wanted: seq<string>): (idx: seq<nat>)
    ensures forall k :: 0 <= k < |idx| ==> idx[k] < |cols| && cols[idx[k]] in wanted
  {
    if wanted == [] then []
    else Positions(cols, wanted[0]) + Indices(cols, wanted[1..])
  }

  /** Every column carrying a wanted label is selected. */
  lemma {:induction false} IndicesCover(cols: seq<string>, wanted: seq<string>, i: nat)
    requires i < |cols| && cols[i] in wanted
    ensures i in Indices(cols, wanted)
  {
    if cols[i] == wanted[0] {
      PositionsComplete(cols, wanted[0], i);
    } else {
      IndicesCover(cols, wanted[1..], i);
    }
  }

  lemma {:induction false} IndicesOfUniqueLabels(cols: seq<string>, wanted: seq<string>)
    requires forall w :: w in wanted ==> UniqueLabel(cols, w)
    ensures |Indices(cols, wanted)| == |wanted|
    ensures forall k :: 0 <= k < |wanted| ==> Indices(cols, wanted)[k] == ColumnOf(cols, wanted[k])
  {
    if wanted != [] {
      var head, tail := Positions(cols, wanted[0]), Indices(cols, wanted[1..]);
      assert Indices(cols, wanted) == head + tail;
      assert wanted[0] in wanted;
      assert |head| == 1;
      forall w | w in wanted[1..] ensures UniqueLabel(cols, w) {
        var j :| 0 <= j < |wanted[1..]| && wanted[1..][j] == w;
        assert wanted[j + 1] == w;
      }
      IndicesOfUniqueLabels(cols, wanted[1..]);
      forall k | 1 <= k < |wanted| ensures (head + tail)[k] == ColumnOf(cols, wanted[k]) {
        assert (head + tail)[k] == tail[k - 1];
        assert wanted[k] == wanted[1..][k - 1];
      }
    }
  }

  function Project(row: seq<Cell>, idx: seq<nat>): seq<Cell>
    requires forall k :: 0 <= k < |idx| ==> idx[k] < |row|
  {
    seq(|idx|, k requires 0 <= k < |idx| => row[idx[k]])
  }

  /** Line 29, `df[wanted]`: a KeyError naming the absent labels when any
      is missing, otherwise the columns carrying the wanted labels. */
  function Select(f: Frame, wanted: seq<string>): (r: Result<Frame, IngestError>)
    requires Rectangular(f)
    ensures r.Success? <==> forall w :: w in wanted ==> w in f.columns
    ensures r.Failure? ==> r.error == MissingColumns(Missing(f.columns, wanted)) && Missing(f.columns, wanted) != []
    ensures r.Success? ==> Rectangular(r.value) && |r.value.rows| == |f.rows|
    ensures r.Success? ==> forall c :: c in r.value.columns <==> c in wanted
  {
    var missing := Missing(f.columns, wanted);
    if missing != [] then
      assert missing[0] in missing;
      Failure(MissingColumns(missing))
    else
      var idx := Indices(f.columns, wanted);
      var columns := seq(|idx|, k requires 0 <= k < |idx| => f.columns[idx[k]]);
      assert forall c :: c in wanted ==> c in columns by {
        forall c | c in wanted ensures c in columns {
          assert c in f.columns;
          var i :| 0 <= i < |f.columns| && f.columns[i] == c;
          IndicesCover(f.columns, wanted, i);
          var k :| 0 <= k < |idx| && idx[k] == i;
          assert columns[k] == c;
        }
      }
      Success(Frame(columns, seq(|f.rows|, i requires 0 <= i < |f.rows| => Project(f.rows[i], idx))))
  }

  /** With every wanted label carried by exactly one column, `df[wanted]`
      has exactly the wanted header, each column taken from its source. */
  lemma {:induction false} SelectUniqueLabels(f: Frame, wanted: seq<string>)
    requires Rectangular(f)
    requires forall w :: w in wanted ==> UniqueLabel(f.columns, w)
    ensures Select(f, wanted).Success?
    ensures Select(f, wanted).value.columns == wanted
    ensures forall i, k :: 0 <= i < |f.rows| && 0 <= k < |wanted| ==>
      Select(f, wanted).value.rows[i][k] == f.rows[i][ColumnOf(f.columns, wanted[k])]
  {
    forall w | w in wanted ensures w in f.columns {
      assert f.columns[ColumnOf(f.columns, w)] == w;
    }
    IndicesOfUniqueLabels(f.columns, wanted);
  }

  // ----------------------------------------------- `to_datetime(unit='s')`

  /** pandas holds a timestamp as signed 64-bit nanoseconds since the Epoch,
      the most negative value standing for NaT. */
  const MaxNanoseconds: int := 0x7fff_ffff_ffff_ffff
  const NanosecondsPerSecond: int := 1_000_000_000

  predicate RepresentableSeconds(s: int) {
    -MaxNanoseconds <= s * NanosecondsPerSecond <= MaxNanoseconds
  }

  function SecondsToDateTime(s: int): (r: Result<Cell, IngestError>)
    ensures r.Success? <==> RepresentableSeconds(s)
    ensures r.Success? ==> r.value == DateTime(s)
    ensures r.Failure? ==> r.error == TimestampOutOfBounds(s)
  {
    if RepresentableSeconds(s) then Success(DateTime(s)) else Failure(TimestampOutOfBounds(s))
  }

  /** The int64 value pandas reserves for NaT. */
  const NaTMarker: int := -0x8000_0000_0000_0000

  /** The strings `to_datetime` reads as NaT rather than as a number. Only
      "NaT", "nat", "NAT" and "NAN" can reach it: `read_csv` already turns
      the others into missing values. */
  const NaTNames: set<string> := {"", "NaT", "nat", "NAT", "nan", "NaN", "NAN"}

  /** A cell that line 30 turns into NaT. */
  predicate IsNaT(c: Cell) {
    || c.Null?
    || (c.Integer? && c.integer == NaTMarker)
    || (c.Text? && c.text in NaTNames)
  }

  /** Line 30 on one cell: a missing value, the NaT marker and the NaT
      strings become NaT (kept as Null); other integers, reals and integer
      numerals count seconds since the Epoch, a real being taken to the
      second it falls in. */
  function ToDateTime(c: Cell): (r: Result<Cell, IngestError>)
    ensures r.Success? ==> r.value.Null? || r.value.DateTime?
    ensures r.Success? && r.value.Null? <==> IsNaT(c)
    ensures c.Integer? && !IsNaT(c) ==> (r.Success? <==> RepresentableSeconds(c.integer))
    ensures c.Integer? && !IsNaT(c) && r.Success? ==> r.value == DateTime(c.integer)
    ensures c.Number? ==> (r.Success? <==> RepresentableSeconds(c.number.Floor))
    ensures c.Number? && r.Success? ==> r.value.seconds as real <= c.number < r.value.seconds as real + 1.0
    ensures c.Text? && !IsNaT(c) && Decimal.IntegerLiteral(c.text).None? ==> r == Failure(UnparsableTimestamp(c.text))
    ensures c.Text? && !IsNaT(c) && Decimal.IntegerLiteral(c.text).Some? ==>
      && (r.Success? <==> RepresentableSeconds(Decimal.IntegerLiteral(c.text).value))
      && (r.Success? ==> r.value == DateTime(Decimal.IntegerLiteral(c.text).value))
    ensures c.DateTime? ==> r == Success(c)
  {
    match c
    case Null => Success(Null)
    case Integer(n) => if n == NaTMarker then Success(Null) else SecondsToDateTime(n)
    case Number(x) => SecondsToDateTime(x.Floor)
    case Text(t) =>
      if t in NaTNames then Success(Null)
      else
        (match Decimal.IntegerLiteral(t)
         case Some(n) => SecondsToDateTime(n)
         case None => Failure(UnparsableTimestamp(t)))
    case DateTime(_) => Success(c)
  }

  /** Column k of every row converted; the first unconvertible cell aborts. */
  function ConvertColumn(rows: seq<seq<Cell>>, k: nat): (r: Result<seq<seq<Cell>>, IngestError>)
    requires forall i :: 0 <= i < |rows| ==> k < |rows[i]|
    ensures r.Success? <==> forall i :: 0 <= i < |rows| ==> ToDateTime(rows[i][k]).Success?
    ensures r.Success? ==> |r.value| == |rows|
    ensures r.Success? ==> forall i :: 0 <= i < |rows| ==> r.value[i] == rows[i][k := ToDateTime(rows[i][k]).value]
  {
    if rows == [] then Success([])
    else
      var c :- ToDateTime(rows[0][k]);
      var rest :- ConvertColumn(rows[1..], k);
      ConvertColumnStep(rows, k, c, rest);
      Success([rows[0][k := c]] + rest)
  }

  lemma ConvertColumnStep(rows: seq<seq<Cell>>, k: nat, c: Cell, rest: seq<seq<Cell>>)
    requires |rows| > 0 && forall i :: 0 <= i < |rows| ==> k < |rows[i]|
    requires forall i :: 0 <= i < |rows| ==> ToDateTime(rows[i][k]).Success?
    requires ToDateTime(rows[0][k]) == Success(c)
    requires |rest| == |rows| - 1
    requires forall i :: 0 <= i < |rows| - 1 ==> rest[i] == rows[1..][i][k := ToDateTime(rows[1..][i][k]).value]
    ensures forall i :: 0 <= i < |rows| ==> ([rows[0][k := c]] + rest)[i] == rows[i][k := ToDateTime(rows[i][k]).value]
  {
    forall i | 1 <= i < |rows| ensures ([rows[0][k := c]] + rest)[i] == rows[i][k := ToDateTime(rows[i][k]).value] {
      assert rows[1..][i - 1] == rows[i];
    }
  }

  /** Line 30: `df['timestamp']` must name one column (none is a KeyError,
      several make a frame `to_datetime` cannot read as seconds). */
  function ConvertTimestamps(f: Frame): (r: Result<Frame, IngestError>)
    requires Rectangular(f)
    ensures r.Success? <==> (UniqueLabel(f.columns, TimestampColumn) &&
      forall i :: 0 <= i < |f.rows| ==> ToDateTime(f.rows[i][ColumnOf(f.columns, TimestampColumn)]).Success?)
    ensures !UniqueLabel(f.columns, TimestampColumn) ==> r == Failure(TimestampColumnCount(|Positions(f.columns, TimestampColumn)|))
    ensures r.Success? ==> Rectangular(r.value) && r.value.columns == f.columns && |r.value.rows| == |f.rows|
    ensures r.Success? ==> var k := ColumnOf(f.columns, TimestampColumn);
      forall i :: 0 <= i < |f.rows| ==> r.value.rows[i] == f.rows[i][k := ToDateTime(f.rows[i][k]).value]
  {
    var ps := Positions(f.columns, TimestampColumn);
    if |ps| != 1 then Failure(TimestampColumnCount(|ps|))
    else
      var rows :- ConvertColumn(f.rows, ps[0]);
      Success(Frame(f.columns, rows))
  }

  // ------------------------------------------------------- the month mask

  /** Line 32's mask: NaT has no month, so its row never matches. */
  predicate InMonth(c: Cell, month: int) {
    c.DateTime? && Calendar.MonthOfSeconds(c.seconds) == month
  }

  /** Line 32's mask on a whole row whose timestamp is column k. */
  predicate RowInMonth(row: seq<Cell>, k: nat, month: int) {
    |row| > k && InMonth(row[k], month)
  }

  /** A NaT cell converts without error and matches no month, so line 32
      drops its row whatever the month. */
  lemma NaTMatchesNoMonth(c: Cell, month: int)
    requires IsNaT(c)
    ensures ToDateTime(c) == Success(Null)
    ensures !InMonth(ToDateTime(c).value, month)
  {
  }

  /** Boolean indexing keeps the matching rows in their order. */
  function KeepMonth(rows: seq<seq<Cell>>, k: nat, month: int): (kept: seq<seq<Cell>>)
    ensures forall i :: 0 <= i < |kept| ==> RowInMonth(kept[i], k, month)
    ensures IsSubsequence(kept, rows)
    ensures forall row :: multiset(kept)[row] == if RowInMonth(row, k, month) then multiset(rows)[row] else 0
  {
    Filter(rows, row => RowInMonth(row, k, month))
  }

  // ------------------------------------------------- filter_monthly_data

  /** Lines 28-30, run on the frame `read_csv` returned. */
  function Prepare(f: Frame): (r: Result<Frame, IngestError>)
    requires Rectangular(f)
    ensures r.Success? ==> Rectangular(r.value) && UniqueLabel(r.value.columns, TimestampColumn)
  {
    var selected :- Select(LowerColumns(f), SelectedColumns);
    ConvertTimestamps(selected)
  }

  /** Lines 28-34: the prepared frame's rows whose timestamp falls in the
      month, in their order and with their multiplicity, and no others. */
  function FilterMonthlyData(f: Frame, month: int): (r: Result<Frame, IngestError>)
    requires Rectangular(f)
    ensures r.Success? <==> Prepare(f).Success?
    ensures r.Failure? ==> r == Failure(Prepare(f).error)
    ensures r.Success? ==> Rectangular(r.value) && r.value.columns == Prepare(f).value.columns
    ensures r.Success? ==>
      var p := Prepare(f).value;
      var k := ColumnOf(p.columns, TimestampColumn);
      && IsSubsequence(r.value.rows, p.rows)
      && (forall i :: 0 <= i < |r.value.rows| ==> RowInMonth(r.value.rows[i], k, month))
      && (forall row :: multiset(r.value.rows)[row] == if RowInMonth(row, k, month) then multiset(p.rows)[row] else 0)
  {
    var p :- Prepare(f);
    Success(Frame(p.columns, KeepMonth(p.rows, ColumnOf(p.columns, TimestampColumn), month)))
  }

  /** A month outside 1..12 selects no row, whatever the data. */
  lemma OutOfRangeMonthIsEmpty(f: Frame, month: int)
    requires Rectangular(f)
    requires month < 1 || month > 12
    ensures FilterMonthlyData(f, month).Success? ==> FilterMonthlyData(f, month).value.rows == []
  {
  }

  /** No row is kept for two different months. */
  lemma MonthsPartitionRows(f: Frame, a: int, b: int, row: seq<Cell>)
    requires Rectangular(f)
    requires a != b
    requires FilterMonthlyData(f, a).Success?
    ensures multiset(FilterMonthlyData(f, a).value.rows)[row] == 0 || multiset(FilterMonthlyData(f, b).value.rows)[row] == 0
  {
  }

  /** A prepared row is kept for month m exactly when its timestamp is not
      NaT and falls in m; with MonthsPartitionRows, the months 1..12 account
      for every such row once. */
  lemma MonthsCoverRows(f: Frame, row: seq<Cell>, m: int)
    requires Rectangular(f) && Prepare(f).Success?
    requires row in Prepare(f).value.rows
    ensures var p := Prepare(f).value;
      var k := ColumnOf(p.columns, TimestampColumn);
      row in FilterMonthlyData(f, m).value.rows <==>
        k < |row| && row[k].DateTime? && Calendar.MonthOfSeconds(row[k].seconds) == m
  {
    var p := Prepare(f).value;
    var kept := FilterMonthlyData(f, m).value.rows;
    assert multiset(p.rows)[row] > 0;
    assert row in kept <==> multiset(kept)[row] > 0;
  }

  predicate UniqueHeader(f: Frame) {
    forall w :: w in SelectedColumns ==> UniqueLabel(LowerNames(f.columns), w)
  }

  /** The source column whose lowered name is w. */
  function HeaderColumn(f: Frame, w: string): (j: nat)
    requires UniqueHeader(f) && w in SelectedColumns
    ensures j < |f.columns| && Lower(f.columns[j]) == w
  {
    ColumnOf(LowerNames(f.columns), w)
  }

  lemma TimestampIsFourth()
    ensures UniqueLabel(SelectedColumns, TimestampColumn)
    ensures ColumnOf(SelectedColumns, TimestampColumn) == 3
  {
    assert SelectedColumns[0] != TimestampColumn by { assert |SelectedColumns[0]| == 6; }
    assert SelectedColumns[1] != TimestampColumn by { assert SelectedColumns[1][0] == 'p'; }
    assert SelectedColumns[2] != TimestampColumn by { assert |SelectedColumns[2]| == 6; }
    PositionsOfSingle(SelectedColumns, TimestampColumn, 3);
  }

  /** With a header whose lowered form carries each of the four names once,
      line 29 takes each row's four cells from the matching columns. */
  lemma {:induction false} SelectUniqueHeader(f: Frame)
    requires Rectangular(f) && UniqueHeader(f)
    ensures Select(LowerColumns(f), SelectedColumns).Success?
    ensures var s := Select(LowerColumns(f), SelectedColumns).value;
      && s.columns == SelectedColumns
      && |s.rows| == |f.rows|
      && forall i :: 0 <= i < |f.rows| ==> s.rows[i] == HeaderCells(f, i)
  {
    SelectUniqueLabels(LowerColumns(f), SelectedColumns);
    var s := Select(LowerColumns(f), SelectedColumns).value;
    forall i | 0 <= i < |f.rows| ensures s.rows[i] == HeaderCells(f, i) {
      SelectedRow(f, s.rows[i], i);
    }
  }

  /** Row i's cells under the four lowered names, in their order. */
  function HeaderCells(f: Frame, i: nat): seq<Cell>
    requires Rectangular(f) && UniqueHeader(f) && i < |f.rows|
  {
    [f.rows[i][HeaderColumn(f, "userid")], f.rows[i][HeaderColumn(f, "productid")],
     f.rows[i][HeaderColumn(f, "rating")], f.rows[i][HeaderColumn(f, "timestamp")]]
  }

  lemma {:induction false} SelectedRow(f: Frame, row: seq<Cell>, i: nat)
    requires Rectangular(f) && UniqueHeader(f) && i < |f.rows|
    requires |row| == 4
    requires forall k :: 0 <= k < 4 ==> row[k] == f.rows[i][ColumnOf(LowerNames(f.columns), SelectedColumns[k])]
    ensures row == HeaderCells(f, i)
  {
    assert row[0] == HeaderCells(f, i)[0];
    assert row[1] == HeaderCells(f, i)[1];
    assert row[2] == HeaderCells(f, i)[2];
    assert row[3] == HeaderCells(f, i)[3];
  }

  /** A header whose lowered form carries each of the four names once:
      the prepared frame has exactly the four columns, each row made of the
      source's cells with the timestamp converted, and preparation fails
      only on an unconvertible or unrepresentable timestamp. */
  lemma {:induction false} PrepareUniqueHeader(f: Frame)
    requires Rectangular(f) && UniqueHeader(f)
    ensures Prepare(f).Success? <==>
      forall i :: 0 <= i < |f.rows| ==> ToDateTime(f.rows[i][HeaderColumn(f, "timestamp")]).Success?
    ensures Prepare(f).Success? ==>
      var p := Prepare(f).value;
      && p.columns == SelectedColumns
      && |p.rows| == |f.rows|
      && forall i :: 0 <= i < |f.rows| ==>
        p.rows[i] == [f.rows[i][HeaderColumn(f, "userid")], f.rows[i][HeaderColumn(f, "productid")],
                      f.rows[i][HeaderColumn(f, "rating")], ToDateTime(f.rows[i][HeaderColumn(f, "timestamp")]).value]
  {
    SelectUniqueHeader(f);
    var s := Select(LowerColumns(f), SelectedColumns).value;
    assert Prepare(f) == ConvertTimestamps(s);
    ConvertHeaderCells(f, s);
  }

  /** Line 30 on the four selected cells of every row. */
  lemma {:induction false} ConvertHeaderCells(f: Frame, s: Frame)
    requires Rectangular(f) && UniqueHeader(f)
    requires s.columns == SelectedColumns && |s.rows| == |f.rows|
    requires forall i :: 0 <= i < |f.rows| ==> s.rows[i] == HeaderCells(f, i)
    ensures Rectangular(s)
    ensures ConvertTimestamps(s).Success? <==>
      forall i :: 0 <= i < |f.rows| ==> ToDateTime(f.rows[i][HeaderColumn(f, "timestamp")]).Success?
    ensures ConvertTimestamps(s).Success? ==>
      var p := ConvertTimestamps(s).value;
      && p.columns == SelectedColumns
      && |p.rows| == |f.rows|
      && forall i :: 0 <= i < |f.rows| ==>
        p.rows[i] == [f.rows[i][HeaderColumn(f, "userid")], f.rows[i][HeaderColumn(f, "productid")],
                      f.rows[i][HeaderColumn(f, "rating")], ToDateTime(f.rows[i][HeaderColumn(f, "timestamp")]).value]
  {
    TimestampIsFourth();
    assert Rectangular(s) by {
      forall i | 0 <= i < |s.rows| ensures |s.rows[i]| == |s.columns| {
        assert s.rows[i] == HeaderCells(f, i);
      }
    }
    forall i | 0 <= i < |f.rows| ensures s.rows[i][3] == f.rows[i][HeaderColumn(f, "timestamp")] {
      assert s.rows[i] == HeaderCells(f, i);
    }
  }

  /** The four selected names are distinct, so each names one column. */
  lemma SelectedColumnsUnique(k: nat)
    requires k < 4
    ensures UniqueLabel(SelectedColumns, SelectedColumns[k])
    ensures ColumnOf(SelectedColumns, SelectedColumns[k]) == k
  {
    assert Distinct(SelectedColumns) by {
      assert SelectedColumns[0][0] == 'u' && SelectedColumns[1][0] == 'p';
      assert SelectedColumns[2][0] == 'r' && SelectedColumns[3][0] == 't';
    }
    PositionsOfSingle(SelectedColumns, SelectedColumns[k], k);
  }

  /** The header of the ratings file, as the dataset spells it. */
  const ExampleHeader: seq<string> := ["UserId", "ProductId", "Rating", "Timestamp"]

  lemma ExampleHeaderLowers()
    ensures LowerNames(ExampleHeader) == SelectedColumns
    ensures UniqueHeader(Frame(ExampleHeader, []))
  {
    assert Lower(ExampleHeader[0]) == SelectedColumns[0];
    assert Lower(ExampleHeader[1]) == SelectedColumns[1];
    assert Lower(ExampleHeader[2]) == SelectedColumns[2];
    assert Lower(ExampleHeader[3]) == SelectedColumns[3];
    assert LowerNames(ExampleHeader) == SelectedColumns;
    forall w | w in SelectedColumns ensures UniqueLabel(LowerNames(ExampleHeader), w) {
      var k :| 0 <= k < 4 && SelectedColumns[k] == w;
      SelectedColumnsUnique(k);
    }
  }

  lemma ExampleHeaderColumns(rows: seq<seq<Cell>>)
    ensures UniqueHeader(Frame(ExampleHeader, rows))
    ensures HeaderColumn(Frame(ExampleHeader, rows), "userid") == 0
    ensures HeaderColumn(Frame(ExampleHeader, rows), "productid") == 1
    ensures HeaderColumn(Frame(ExampleHeader, rows), "rating") == 2
    ensures HeaderColumn(Frame(ExampleHeader, rows), "timestamp") == 3
  {
    ExampleHeaderLowers();
    var f := Frame(ExampleHeader, rows);
    assert UniqueHeader(f);
    forall k | 0 <= k < 4 ensures HeaderColumn(f, SelectedColumns[k]) == k {
      SelectedColumnsUnique(k);
    }
  }

  /** Lines 28-30 on one rating of the dataset. */
  lemma ExamplePrepared(user: string, product: string)
    ensures var f := Frame(ExampleHeader, [[Text(user), Text(product), Number(5.0), Integer(1369699200)]]);
      Prepare(f) == Success(Frame(SelectedColumns, [[Text(user), Text(product), Number(5.0), DateTime(1369699200)]]))
  {
    var f := Frame(ExampleHeader, [[Text(user), Text(product), Number(5.0), Integer(1369699200)]]);
    ExampleHeaderColumns(f.rows);
    assert ToDateTime(Integer(1369699200)) == Success(DateTime(1369699200));
    PrepareUniqueHeader(f);
    var p := Prepare(f).value;
    assert p.rows == [p.rows[0]];
  }

  /** The rating stamped 1369699200 (2013-05-28 00:00:00 UTC) is loaded
      for May and not for June. */
  lemma ExampleMay28(user: string, product: string)
    ensures var f := Frame(ExampleHeader, [[Text(user), Text(product), Number(5.0), Integer(1369699200)]]);
      && FilterMonthlyData(f, 6) == Success(Frame(SelectedColumns, []))
      && FilterMonthlyData(f, 5) == Success(Frame(SelectedColumns, [[Text(user), Text(product), Number(5.0), DateTime(1369699200)]]))
  {
    ExamplePrepared(user, product);
    var prepared := [Text(user), Text(product), Number(5.0), DateTime(1369699200)];
    TimestampIsFourth();
    Calendar.ExampleTimestamp();
    assert !InMonth(prepared[3], 6) && InMonth(prepared[3], 5);
    assert KeepMonth([prepared], 3, 6) == [];
    assert KeepMonth([prepared], 3, 5) == [prepared];
  }

  /** A header lacking one of the four names (after lowering) fails with
      the KeyError naming the absent ones, whatever the rows hold. */
  lemma PrepareMissingColumn(f: Frame, w: string)
    requires Rectangular(f)
    requires w in SelectedColumns && w !in LowerNames(f.columns)
    ensures Prepare(f) == Failure(MissingColumns(Missing(LowerNames(f.columns), SelectedColumns)))
    ensures w in Missing(LowerNames(f.columns), SelectedColumns)
  {
  }

  // ---------------------------------------------------------- `__main__`

  /** The table the month's rows are loaded into (line 76). */
  function TableName(month: int): string {
    "ratings_month_" + Decimal.IntToString(month)
  }

  /** Ingestion writes the very table the preprocessing job reads. */
  lemma TableHandOff(a: int, b: int)
    ensures TableName(a) == Preprocessing.TableName(b) <==> a == b
  {
    Preprocessing.NamesIdentifyMonth(a, b);
  }

  /** What the job hands to PostgreSQL: the table and the frame of rows. */
  datatype Load = Load(table: string, frame: Frame)

  /** Lines 74-76 with the CSV read as an input: None when `read_csv`
      fails (lines 22-27). The month is parsed before the file is read. */
  function Ingest(argv: seq<string>, csv: Option<Frame>): (r: Result<Load, IngestError>)
    requires csv.Some? ==> Rectangular(csv.value)
    ensures CommandLine.MonthArgument(argv).None? ==> r == Failure(InvalidMonthArgument)
    ensures CommandLine.MonthArgument(argv).Some? && csv.None? ==> r == Failure(CsvUnreadable)
    ensures r.Success? ==> var month := CommandLine.MonthArgument(argv).value;
      && r.value.table == TableName(month)
      && FilterMonthlyData(csv.value, month) == Success(r.value.frame)
    ensures CommandLine.MonthArgument(argv).Some? && csv.Some? ==>
      (r.Success? <==> Prepare(csv.value).Success?)
  {
    var month :- (match CommandLine.MonthArgument(argv)
                  case Some(m) => Success(m)
                  case None => Failure(InvalidMonthArgument));
    var f :- (match csv
              case Some(f) => Success(f)
              case None => Failure(CsvUnreadable));
    var filtered :- FilterMonthlyData(f, month);
    Success(Load(TableName(month), filtered))
  }

  /** Without an argument the job loads June into ratings_month_6. */
  lemma DefaultIsJune(program: string, f: Frame)
    requires Rectangular(f) && Prepare(f).Success?
    ensures Ingest([program], Some(f)).Success?
    ensures Ingest([program], Some(f)).value.table == "ratings_month_6"
    ensures Ingest([program], Some(f)) == Success(Load("ratings_month_6", FilterMonthlyData(f, 6).value))
  {
    assert Decimal.IntToString(6) == "6";
  }
}
