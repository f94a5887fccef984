/** The Hipparcos star table the service loads once at start-up
    (main.py:10-11) and only reads afterwards: its rows, the point lookup
    `df.loc[hip]`, the magnitude filter `df[df['magnitude'] <= min_mag]`, and
    the text `to_csv()` writes for a selection of rows and for one row. */
module Catalog {
  import opened Outcomes
  import opened Strings
  import opened Numerals

  /** The positional columns the astronomy library builds a star from. The
      service never looks at them; they are kept as fixed-point integers. */
  datatype Astrometry = Astrometry(
    raDegrees: int, decDegrees: int, parallaxMas: int, raMasPerYear: int, decMasPerYear: int)

  /** One row of the table: its `hip` index, its magnitude in hundredths and
      its positional columns. */
  datatype Row = Row(hip: nat, centimag: int, position: Astrometry)

  /** The magnitude column of a row (lower is brighter). */
  function Magnitude(row: Row): real {
    Centi(row.centimag)
  }

  /** The loaded table, rows in file order. */
  datatype Catalog = Catalog(rows: seq<Row>) {
    /** `hip` is the table's index: no two rows share one. */
    predicate Valid() {
      forall i, j :: 0 <= i < j < |rows| ==> rows[i].hip != rows[j].hip
    }
  }

  function Ids(rows: seq<Row>): set<int> {
    set row | row in rows :: row.hip as int
  }

  /** The index from `hip` to row: every id of the table is a key and maps
      to a row of the table carrying that id. */
  function Index(rows: seq<Row>): (m: map<int, Row>)
    ensures m.Keys == Ids(rows)
    ensures forall h :: h in m ==> m[h] in rows && m[h].hip == h
    decreases |rows|
  {
    if rows == [] then map[]
    else
      var m := Index(rows[1..])[rows[0].hip := rows[0]];
      assert rows == [rows[0]] + rows[1..];
      m
  }

  /** Two rows of the table carry `hip`: `df.loc[hip]` then gives a frame of
      rows rather than one row. */
  predicate Repeated(rows: seq<Row>, hip: int) {
    exists i, j :: 0 <= i < j < |rows| && rows[i].hip == hip && rows[j].hip == hip
  }

  /** `df.loc[hip]`: the row indexed by `hip`, or `KeyError` when the table
      has none. A missing id is never answered with a default row. */
  function Lookup(cat: Catalog, hip: int): (r: Result<Row>)
    ensures r.Ok? <==> hip in Ids(cat.rows)
    ensures r.Ok? ==> r.value in cat.rows && r.value.hip == hip
    ensures r.Err? ==> r.failure == KeyMissing
  {
    var index := Index(cat.rows);
    if hip in index then Ok(index[hip]) else Err(KeyMissing)
  }

  /** In a valid table the lookup of a row's id finds that very row. */
  lemma LookupRow(cat: Catalog, k: int)
    requires cat.Valid() && 0 <= k < |cat.rows|
    ensures Lookup(cat, cat.rows[k].hip) == Ok(cat.rows[k])
  {
    var row := cat.rows[k];
    assert row.hip as int in Ids(cat.rows);
    var found := Lookup(cat, row.hip).value;
    var j :| 0 <= j < |cat.rows| && cat.rows[j] == found;
    assert j == k;
  }

  /** `df[df['magnitude'] <= min_mag]`: the rows whose magnitude is at most
      the threshold, the threshold itself included, nothing else. */
  function Select(rows: seq<Row>, minMag: real): (sel: seq<Row>)
    ensures |sel| <= |rows|
    ensures forall row :: row in sel <==> row in rows && Magnitude(row) <= minMag
    ensures forall row :: multiset(sel)[row] == if Magnitude(row) <= minMag then multiset(rows)[row] else 0
    decreases |rows|
  {
    if rows == [] then []
    else
      assert rows == [rows[0]] + rows[1..];
      (if Magnitude(rows[0]) <= minMag then [rows[0]] else []) + Select(rows[1..], minMag)
  }

  /** When every row is fainter than the threshold, nothing is selected. */
  lemma {:induction false} SelectNone(rows: seq<Row>, minMag: real)
    requires forall row :: row in rows ==> Magnitude(row) > minMag
    ensures Select(rows, minMag) == []
    decreases |rows|
  {
    if rows != [] {
      assert forall row :: row in rows[1..] ==> row in rows;
      SelectNone(rows[1..], minMag);
    }
  }

  /** `a` is `b` with some elements left out, the rest in their order. */
  predicate IsSubsequence<T(==)>(a: seq<T>, b: seq<T>)
    decreases |b|
  {
    a == [] || (b != [] && ((a[0] == b[0] && IsSubsequence(a[1..], b[1..])) || IsSubsequence(a, b[1..])))
  }

  /** The selection keeps the table's row order. */
  lemma {:induction false} SelectKeepsOrder(rows: seq<Row>, minMag: real)
    ensures IsSubsequence(Select(rows, minMag), rows)
    decreases |rows|
  {
    if rows != [] {
      var sel, rest := Select(rows, minMag), Select(rows[1..], minMag);
      SelectKeepsOrder(rows[1..], minMag);
      assert IsSubsequence(rest, rows[1..]);
      if Magnitude(rows[0]) <= minMag {
        assert sel == [rows[0]] + rest;
        assert sel[0] == rows[0] && sel[1..] == rest;
      } else {
        assert sel == rest;
      }
    }
  }

  /** Raising the threshold never drops a star: the selection at a lower
      threshold is a subsequence of the selection at a higher one. */
  lemma {:induction false} SelectMonotone(rows: seq<Row>, low: real, high: real)
    requires low <= high
    ensures IsSubsequence(Select(rows, low), Select(rows, high))
    decreases |rows|
  {
    if rows != [] {
      SelectMonotone(rows[1..], low, high);
      var a, b := Select(rows, low), Select(rows, high);
      var a', b' := Select(rows[1..], low), Select(rows[1..], high);
      if Magnitude(rows[0]) <= low {
        assert a[0] == b[0] && a[1..] == a' && b[1..] == b';
      } else if Magnitude(rows[0]) <= high {
        assert a == a' && b != [] && b[1..] == b';
      } else {
        assert a == a' && b == b';
      }
    }
  }

  /** The selection from a valid table is again a valid table: no star is
      selected twice. */
  lemma {:induction false} SelectValid(rows: seq<Row>, minMag: real)
    requires Catalog(rows).Valid()
    ensures Catalog(Select(rows, minMag)).Valid()
    decreases |rows|
  {
    if rows != [] {
      assert Catalog(rows[1..]).Valid();
      SelectValid(rows[1..], minMag);
      var rest := Select(rows[1..], minMag);
      forall k | 0 <= k < |rest| ensures rest[k].hip != rows[0].hip {
        assert rest[k] in rows[1..];
      }
    }
  }

  // ---- the text `to_csv()` writes ----

  /** The data columns of the table after its index, in file order: the
      first six of the Hipparcos table, the ones this model writes. */
  const Columns: seq<string> :=
    ["magnitude", "ra_degrees", "dec_degrees", "parallax_mas", "ra_mas_per_year", "dec_mas_per_year"]

  /** The header line of a selection: the index name, then the columns
      (`hip,magnitude,ra_degrees,...`). */
  const Header: string := Join(["hip"] + Columns, ',')

  /** The header is one trimmed line. */
  lemma HeaderLine()
    ensures |Header| >= 1 && '\n' !in Header && Trimmed(Header)
  {
    var names := ["hip"] + Columns;
    ColumnNames();
    assert "hip"[0] == 'h' && '\n' !in "hip";
    assert forall k :: 1 <= k < |names| ==> names[k] == Columns[k - 1];
    JoinExcludes(names, ',', '\n');
    var last := names[|names| - 1];
    assert last == "dec_mas_per_year";
    assert last[|last| - 1] == 'r';
    JoinTrimmed(names, ',');
  }

  /** No column name holds a line feed or a comma. */
  lemma ColumnNames()
    ensures forall k :: 0 <= k < |Columns| ==> '\n' !in Columns[k] && ',' !in Columns[k]
  {
    forall k, i | 0 <= k < |Columns| && 0 <= i < |Columns[k]|
      ensures Columns[k][i] != '\n' && Columns[k][i] != ','
    {
    }
  }

  /** A row's values, one per entry of `Columns`, as text. */
  function Values(row: Row): (v: seq<string>)
    ensures |v| == |Columns|
    ensures forall k :: 0 <= k < |v| ==> IsField(v[k])
  {
    var p := row.position;
    var mag, ra, dec := RenderCenti(row.centimag), RenderInt(p.raDegrees), RenderInt(p.decDegrees);
    var plx, pmRa, pmDec := RenderInt(p.parallaxMas), RenderInt(p.raMasPerYear), RenderInt(p.decMasPerYear);
    [mag, ra, dec, plx, pmRa, pmDec]
  }

  /** The fields of a row's CSV line: its id first, its magnitude second. */
  function Fields(row: Row): (f: seq<string>)
    ensures |f| == 1 + |Columns|
    ensures forall k :: 0 <= k < |f| ==> IsField(f[k])
  {
    [RenderInt(row.hip)] + Values(row)
  }

  /** The line `DataFrame.to_csv()` writes for a row. */
  function RowLine(row: Row): string {
    Join(Fields(row), ',')
  }

  /** The lines of a selection's rows, one per row, in order. */
  function RowLines(rows: seq<Row>): (lines: seq<string>)
    ensures |lines| == |rows|
  {
    if rows == [] then [] else [RowLine(rows[0])] + RowLines(rows[1..])
  }

  /** Line `k` of a selection's rows is the line of row `k`. */
  lemma {:induction false} RowLinesAt(rows: seq<Row>, k: nat)
    requires k < |rows|
    ensures RowLines(rows)[k] == RowLine(rows[k])
    decreases k
  {
    if k > 0 {
      RowLinesAt(rows[1..], k - 1);
      assert rows[1..][k - 1] == rows[k];
    }
  }

  /** `DataFrame.to_csv()` of a selection: the header line, then one line per
      row in order, every line ended by a line feed. */
  function FrameCsv(rows: seq<Row>): (csv: string)
    ensures |csv| >= 1 && csv[|csv| - 1] == '\n'
  {
    Join([Header] + RowLines(rows), '\n') + "\n"
  }

  /** The lines `Series.to_csv()` writes for one row (`df.loc[hip]`): a header
      holding the row's name, its id, then one `column,value` line per column,
      the magnitude first. */
  function SeriesLines(row: Row): (lines: seq<string>)
    ensures |lines| == 1 + |Columns|
  {
    ["," + RenderInt(row.hip)] + seq(|Columns|, k requires 0 <= k < |Columns| => Columns[k] + "," + Values(row)[k])
  }

  /** `Series.to_csv()` of one row, every line ended by a line feed. */
  function SeriesCsv(row: Row): (csv: string)
    ensures |csv| >= 1 && csv[|csv| - 1] == '\n'
  {
    Join(SeriesLines(row), '\n') + "\n"
  }

  /** No line of `lines` holds a line feed. */
  predicate SingleLines(lines: seq<string>) {
    forall k :: 0 <= k < |lines| ==> '\n' !in lines[k]
  }

  /** Reading a row's line back field by field gives its rendered fields. */
  lemma RowLineFields(row: Row)
    ensures Split(RowLine(row), ',') == Fields(row)
  {
    SplitJoin(Fields(row), ',');
  }

  /** A row's line is one non-empty trimmed line. */
  lemma RowLineShape(row: Row)
    ensures '\n' !in RowLine(row) && |RowLine(row)| >= 1 && Trimmed(RowLine(row))
  {
    var f := Fields(row);
    JoinExcludes(f, ',', '\n');
    JoinTrimmed(f, ',');
  }

  lemma RowLinesSingle(rows: seq<Row>)
    ensures SingleLines(RowLines(rows))
  {
    forall k | 0 <= k < |rows| ensures '\n' !in RowLines(rows)[k] {
      RowLinesAt(rows, k);
      RowLineShape(rows[k]);
    }
  }

  /** The lines of a selection's CSV are single lines. */
  lemma FrameLinesSingle(rows: seq<Row>)
    ensures SingleLines([Header] + RowLines(rows))
  {
    var lines := [Header] + RowLines(rows);
    HeaderLine();
    RowLinesSingle(rows);
    forall k | 0 <= k < |lines| ensures '\n' !in lines[k] {
      if k > 0 {
        assert lines[k] == RowLines(rows)[k - 1];
      }
    }
  }

  /** The first line of a selection's CSV does not begin, and its last
      line does not end, with whitespace. */
  lemma FrameLineEnds(rows: seq<Row>)
    ensures var lines := [Header] + RowLines(rows);
      |lines[0]| >= 1 && !IsSpace(lines[0][0]) && |lines[|lines| - 1]| >= 1 && Trimmed(lines[|lines| - 1])
  {
    var lines := [Header] + RowLines(rows);
    HeaderLine();
    assert lines[0] == Header;
    if rows == [] {
      assert lines[|lines| - 1] == Header;
    } else {
      var last := rows[|rows| - 1];
      RowLineShape(last);
      RowLinesAt(rows, |rows| - 1);
      assert lines[|lines| - 1] == RowLines(rows)[|rows| - 1];
    }
  }

  /** Joined, the lines of a selection's CSV form a trimmed text. */
  lemma FrameTextTrimmed(rows: seq<Row>)
    ensures |Join([Header] + RowLines(rows), '\n')| >= 1 && Trimmed(Join([Header] + RowLines(rows), '\n'))
  {
    FrameLineEnds(rows);
    JoinTrimmed([Header] + RowLines(rows), '\n');
  }

  /** Helper for `LineOfRow`: element `k + 1` of a sequence whose tail after
      the first element is `body` is element `k` of `body`. */
  lemma DataLineAt<T>(lines: seq<T>, body: seq<T>, k: nat, line: T)
    requires k + 1 < |lines| && lines[1..] == body && body[k] == line
    ensures lines[k + 1] == line
  {
  }

  /** Line `k + 1` of a selection's lines, the header being line 0, is the
      line written for row `k`. */
  lemma LineOfRow(csv: seq<string>, rows: seq<Row>, k: nat)
    requires k + 1 < |csv| && csv[1..] == RowLines(rows)
    ensures k < |rows| && csv[k + 1] == RowLine(rows[k])
  {
    RowLinesAt(rows, k);
    DataLineAt(csv, RowLines(rows), k, RowLine(rows[k]));
  }

  /** The CSV of a selection, stripped and split into lines, is the header
      followed by the rows' lines in order: data line `i + 1` is row `i`. */
  lemma {:induction false} FrameLines(rows: seq<Row>)
    ensures var csv := Split(Strip(FrameCsv(rows)), '\n');
      |csv| == |rows| + 1 && csv[0] == Header && csv[1..] == RowLines(rows)
  {
    var lines := [Header] + RowLines(rows);
    FrameLinesSingle(rows);
    FrameTextTrimmed(rows);
    var text := Join(lines, '\n');
    assert FrameCsv(rows) == text + "\n";
    StripTerminated(text);
    SplitJoin(lines, '\n');
    assert lines[1..] == RowLines(rows);
  }

  /** No line of a row's series text holds a line feed. */
  lemma SeriesLinesSingle(row: Row)
    ensures SingleLines(SeriesLines(row))
  {
    var lines := SeriesLines(row);
    forall k | 0 <= k < |lines| ensures '\n' !in lines[k] {
      if k > 0 {
        SeriesLineSingle(row, k - 1);
      }
    }
  }

  /** Helper for `SeriesLineSingle`: two texts around a separator hold no
      character that neither text nor the separator holds. */
  lemma PairExcludes(a: string, b: string, sep: char, c: char)
    requires c != sep && c !in a && c !in b
    ensures c !in a + [sep] + b
  {
  }

  /** The line of column `c` of a row's series text holds no line feed. */
  lemma SeriesLineSingle(row: Row, c: nat)
    requires c < |Columns|
    ensures '\n' !in SeriesLines(row)[c + 1]
  {
    var name, value := Columns[c], Values(row)[c];
    ColumnNames();
    PairExcludes(name, value, ',', '\n');
    assert SeriesLines(row)[c + 1] == name + "," + value;
  }

}
