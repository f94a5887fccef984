/** The logic of main.py's request handlers that the service owns itself:
    reading a magnitude back out of a row's CSV text (`df_star_to_mag`),
    the star lookup of `get_star_at`, the planet-name aliasing of
    `get_planet_at`, and the filter / batch observation / read-back loop of
    `get_bright_stars`. A handler that raises answers with the same error
    response whatever the exception, so each route is a `Result`. */
module SkyfieldApi {
  import opened Outcomes
  import opened Strings
  import opened Numerals
  import opened Catalog
  import opened Sky

  /** The body of a single-target response: `{ra, dec, dist, mag}`. */
  datatype Reading = Reading(ra: real, dec: real, dist: real, mag: real)

  /** One entry of the bright-star response: `{hip, ra, dec, dist, mag}`. */
  datatype BrightStar = BrightStar(hip: int, ra: real, dec: real, dist: real, mag: real)

  // ---- df_star_to_mag (main.py:15-22) ----

  /** `df_star_to_mag` applied to the text `df_star.to_csv()` returned: split
      into lines, take line 1, split it into fields, take field 1, strip it
      and parse it as a float. A missing line or field is an `IndexError`, a
      field that is not a number a `ValueError`. */
  function DfStarToMag(csv: string): (r: Result<real>)
    ensures r.Err? ==> r.failure == IndexOutOfRange || r.failure == BadNumber
  {
    var lines := Split(csv, '\n');
    if |lines| < 2 then Err(IndexOutOfRange)
    else
      var cols := Split(lines[1], ',');
      if |cols| < 2 then Err(IndexOutOfRange)
      else
        match ParseFloat(Strip(cols[1]))
        case None => Err(BadNumber)
        case Some(mag) => Ok(mag)
  }

  /** On a text whose second line has `f0` and `f1` as its first two
      comma-separated fields, the result is `f1` stripped and parsed as a
      float, and `ValueError` when that is not a number. */
  lemma DfStarToMagSecondField(first: string, f0: string, f1: string, fields: string, lines: string)
    requires '\n' !in first && '\n' !in f0 && '\n' !in f1 && '\n' !in fields
    requires ',' !in f0 && ',' !in f1 && (fields == [] || fields[0] == ',')
    requires lines == [] || lines[0] == '\n'
    ensures var csv := first + "\n" + (f0 + "," + f1 + fields) + lines;
      && (ParseFloat(Strip(f1)).Some? ==> DfStarToMag(csv) == Ok(ParseFloat(Strip(f1)).value))
      && (ParseFloat(Strip(f1)).None? ==> DfStarToMag(csv) == Err(BadNumber))
  {
    var second := f0 + "," + f1 + fields;
    assert '\n' !in second;
    SplitFirstTwo(first, second, lines, '\n');
    SplitFirstTwo(f0, f1, fields, ',');
  }

  /** The same for a second line made of a name and a rendered number. */
  lemma DfStarToMagNamedField(first: string, name: string, field: string, lines: string, v: real)
    requires '\n' !in first && '\n' !in name && ',' !in name
    requires IsField(field) && ParseFloat(field) == Some(v)
    requires lines == [] || lines[0] == '\n'
    ensures DfStarToMag(first + "\n" + (name + "," + field + "") + lines) == Ok(v)
  {
    DfStarToMagSecondField(first, name, field, "", lines);
    assert Strip(field) == field;
  }

  /** A text of a single line has no line 1: `IndexError`. */
  lemma DfStarToMagOneLine(csv: string)
    requires '\n' !in csv
    ensures DfStarToMag(csv) == Err(IndexOutOfRange)
  {
    SplitNoSeparator(csv, '\n');
  }

  /** A line 1 with a single field has no field 1: `IndexError`. */
  lemma DfStarToMagOneField(first: string, second: string, lines: string)
    requires '\n' !in first && '\n' !in second && ',' !in second
    requires lines == [] || lines[0] == '\n'
    ensures DfStarToMag(first + "\n" + second + lines) == Err(IndexOutOfRange)
  {
    SplitFirstTwo(first, second, lines, '\n');
    SplitNoSeparator(second, ',');
  }

  /** On the text `to_csv()` writes for a catalog row, the result is that
      row's stored magnitude, unchanged. */
  lemma DfStarToMagOfRow(row: Row)
    ensures DfStarToMag(SeriesCsv(row)) == Ok(Magnitude(row))
  {
    var lines := SeriesLines(row);
    var mag := RenderCenti(row.centimag);
    SeriesLinesSingle(row);
    ColumnNames();
    JoinFirstTwo(lines, '\n');
    assert lines[1] == Columns[0] + "," + Values(row)[0];
    assert lines[1] == Columns[0] + "," + mag + "";
    ParseRenderCenti(row.centimag);
    DfStarToMagNamedField(lines[0], Columns[0], mag, "\n" + Join(lines[2..], '\n') + "\n", Magnitude(row));
  }

  // ---- get_star_at (main.py:40-53) ----

  /** What `get_star_at` answers for a catalog row: the row's place observed
      at `t` and the row's stored magnitude. */
  function StarReading(o: Oracle, t: Instant, row: Row): Reading {
    var p := o.observeStar(t, row.position);
    Reading(p.raHours, p.decDegrees, p.distMeters, Magnitude(row))
  }

  /** `get_star_at` after the time conversion: look the id up, read its
      magnitude back from the row's CSV text, observe the star. An id that is
      not in the catalog makes the request fail. An id two rows carry selects
      a frame, whose observation is a vector of places that `jsonify` cannot
      write, so the request fails too. Any other id succeeds with the stored
      magnitude of the row it names. */
  function StarAt(cat: Catalog, o: Oracle, t: Instant, hip: int): (r: Result<Reading>)
    ensures hip !in Ids(cat.rows) ==> r == Err(KeyMissing)
    ensures Repeated(cat.rows, hip) ==> r == Err(Unserialisable)
    ensures r.Ok? <==> hip in Ids(cat.rows) && !Repeated(cat.rows, hip)
    ensures r.Ok? ==> r == Ok(StarReading(o, t, Lookup(cat, hip).value))
  {
    match Lookup(cat, hip)
    case Err(f) => Err(f)
    case Ok(row) =>
      if Repeated(cat.rows, hip) then Err(Unserialisable)
      else
        DfStarToMagOfRow(row);
        match DfStarToMag(SeriesCsv(row))
        case Err(f) => Err(f)
        case Ok(mag) =>
          var p := o.observeStar(t, row.position);
          Ok(Reading(p.raHours, p.decDegrees, p.distMeters, mag))
  }

  /** In a valid catalog, asking for a row's id answers with that row. */
  lemma StarAtRow(cat: Catalog, o: Oracle, t: Instant, k: int)
    requires cat.Valid() && 0 <= k < |cat.rows|
    ensures StarAt(cat, o, t, cat.rows[k].hip) == Ok(StarReading(o, t, cat.rows[k]))
  {
    LookupRow(cat, k);
  }

  // ---- get_planet_at (main.py:55-71) ----

  /** The ephemeris key for a user's planet name: the name lower-cased, with
      ` barycenter` appended exactly when that is `jupiter` or `saturn`. */
  function ResolvePlanet(name: string): (key: string)
    ensures IsLower(key)
    ensures key != Lower(name) <==> Lower(name) == "jupiter" || Lower(name) == "saturn"
    ensures key != Lower(name) ==> key == Lower(name) + " barycenter"
  {
    var n := Lower(name);
    if n == "jupiter" || n == "saturn" then
      LowerConcat(n, " barycenter");
      n + " barycenter"
    else n
  }

  /** Names that differ only in case resolve to the same key. */
  lemma ResolvePlanetIgnoresCase(a: string, b: string)
    requires Lower(a) == Lower(b)
    ensures ResolvePlanet(a) == ResolvePlanet(b)
  {
  }

  /** Resolving a resolved key changes nothing. */
  lemma ResolvePlanetIdempotent(name: string)
    ensures ResolvePlanet(ResolvePlanet(name)) == ResolvePlanet(name)
  {
    var key := ResolvePlanet(name);
    assert Lower(key) == key;
    if key != Lower(name) {
      assert |key| > |"saturn"|;
    }
  }

  /** Exactly two kinds of name reach the Jupiter barycenter: `jupiter` in any
      case, and the key itself. */
  lemma ResolvePlanetJupiter(name: string)
    ensures ResolvePlanet(name) == "jupiter barycenter" <==>
      Lower(name) == "jupiter" || Lower(name) == "jupiter barycenter"
  {
    if Lower(name) == "saturn" {
      assert ResolvePlanet(name)[0] == 's';
    }
  }

  /** `get_planet_at` after the time conversion: resolve the name, look the
      key up in the ephemeris (`KeyError` when it is not there), observe the
      body and ask the library for its magnitude. */
  function PlanetAt(o: Oracle, t: Instant, name: string): (r: Result<Reading>)
    ensures ResolvePlanet(name) !in o.segments ==> r == Err(KeyMissing)
    ensures r.Ok? <==> ResolvePlanet(name) in o.segments && o.planetaryMagnitude(t, ResolvePlanet(name)).Some?
    ensures r.Ok? ==> o.planetaryMagnitude(t, ResolvePlanet(name)) == Some(r.value.mag)
    ensures r.Ok? ==> o.observeBody(t, ResolvePlanet(name)) == Place(r.value.ra, r.value.dec, r.value.dist)
  {
    var key := ResolvePlanet(name);
    if key !in o.segments then Err(KeyMissing)
    else
      match o.planetaryMagnitude(t, key)
      case None => Err(OracleFailure)
      case Some(mag) =>
        var p := o.observeBody(t, key);
        Ok(Reading(p.raHours, p.decDegrees, p.distMeters, mag))
  }

  /** The planet route does not depend on the case of the name. */
  lemma PlanetAtIgnoresCase(o: Oracle, t: Instant, a: string, b: string)
    requires Lower(a) == Lower(b)
    ensures PlanetAt(o, t, a) == PlanetAt(o, t, b)
  {
    ResolvePlanetIgnoresCase(a, b);
  }

  /** With the giant planets' barycenters loaded, `jupiter` and `saturn` are
      never unknown, whatever their case. */
  lemma PlanetAtGiants(o: Oracle, t: Instant, name: string)
    requires "jupiter barycenter" in o.segments && "saturn barycenter" in o.segments
    requires Lower(name) == "jupiter" || Lower(name) == "saturn"
    ensures PlanetAt(o, t, name) != Err(KeyMissing)
  {
    assert "jupiter" + " barycenter" == "jupiter barycenter";
    assert "saturn" + " barycenter" == "saturn barycenter";
  }

  // ---- get_bright_stars (main.py:99-125) ----

  /** Lines 115-117: the `hip` and `mag` read back from the fields of one
      CSV line, or `None` where `int()`, `float()` or the field index raise. */
  function ReadFields(cols: seq<string>): (r: Option<(int, real)>)
    ensures r.Some? <==> |cols| >= 2 && ParseInt(cols[0]).Some? && ParseFloat(cols[1]).Some?
    ensures r.Some? ==> ParseInt(cols[0]) == Some(r.value.0) && ParseFloat(cols[1]) == Some(r.value.1)
  {
    if |cols| < 2 then None
    else
      match (ParseInt(cols[0]), ParseFloat(cols[1]))
      case (Some(hip), Some(mag)) => Some((hip, mag))
      case _ => None
  }

  /** The `hip` and `mag` read back from one CSV line. */
  function ReadLine(line: string): (r: Option<(int, real)>)
    ensures ',' !in line ==> r.None?
  {
    if ',' !in line then SplitNoSeparator(line, ','); ReadFields(Split(line, ','))
    else ReadFields(Split(line, ','))
  }

  /** A row's CSV line reads back as the row's id and stored magnitude. */
  lemma ReadRowLine(row: Row, line: string)
    requires line == RowLine(row)
    ensures ReadLine(line) == Some((row.hip as int, Magnitude(row)))
  {
    var f := Fields(row);
    RowLineFields(row);
    assert f[0] == RenderInt(row.hip) && f[1] == RenderCenti(row.centimag);
    ParseRenderInt(row.hip);
    ParseRenderCenti(row.centimag);
  }

  /** The number of turns of `for i in range(len(csv) - 1)`. */
  function DataLines(csv: seq<string>): nat {
    if |csv| == 0 then 0 else |csv| - 1
  }

  /** Turn `k` finds line `k + 1` and reads its `hip` and `mag` back. */
  predicate LineReads(csv: seq<string>, k: nat) {
    k + 1 < |csv| && ReadLine(csv[k + 1]).Some?
  }

  /** Every turn of the loop succeeds: the three arrays have an index for
      every line after the header, and each of those lines reads back. */
  predicate Readable(csv: seq<string>, ra: seq<real>, dec: seq<real>, dist: seq<real>) {
    && DataLines(csv) <= |ra| && DataLines(csv) <= |dec| && DataLines(csv) <= |dist|
    && forall k: nat :: k < DataLines(csv) ==> LineReads(csv, k)
  }

  /** Entry `k` of `res` pairs CSV line `k + 1` with index `k` of the arrays. */
  predicate Paired(csv: seq<string>, ra: seq<real>, dec: seq<real>, dist: seq<real>, res: seq<BrightStar>) {
    forall k :: 0 <= k < |res| ==>
      && k + 1 < |csv| && ReadLine(csv[k + 1]) == Some((res[k].hip, res[k].mag))
      && k < |ra| && k < |dec| && k < |dist|
      && res[k].ra == ra[k] && res[k].dec == dec[k] && res[k].dist == dist[k]
  }

  /** Pairing one more line with one more index keeps the pairing. */
  lemma PairedExtend(csv: seq<string>, ra: seq<real>, dec: seq<real>, dist: seq<real>,
                     res: seq<BrightStar>, e: BrightStar)
    requires Paired(csv, ra, dec, dist, res)
    requires |res| + 1 < |csv| && |res| < |ra| && |res| < |dec| && |res| < |dist|
    requires ReadLine(csv[|res| + 1]) == Some((e.hip, e.mag))
    requires e.ra == ra[|res|] && e.dec == dec[|res|] && e.dist == dist[|res|]
    ensures Paired(csv, ra, dec, dist, res + [e])
  {
    var res' := res + [e];
    forall k | 0 <= k < |res'|
      ensures && k + 1 < |csv| && ReadLine(csv[k + 1]) == Some((res'[k].hip, res'[k].mag))
              && k < |ra| && k < |dec| && k < |dist|
              && res'[k].ra == ra[k] && res'[k].dec == dec[k] && res'[k].dist == dist[k]
    {
      if k < |res| {
        assert res'[k] == res[k];
      }
    }
  }

  /** Once every line after the header is paired, every turn succeeded. */
  lemma PairedReadable(csv: seq<string>, ra: seq<real>, dec: seq<real>, dist: seq<real>, res: seq<BrightStar>)
    requires Paired(csv, ra, dec, dist, res) && |res| == DataLines(csv)
    ensures Readable(csv, ra, dec, dist)
  {
    if |res| > 0 {
      PairedLine(csv, ra, dec, dist, res, |res| - 1);
    }
    forall k: nat | k < DataLines(csv) ensures LineReads(csv, k) {
      PairedLine(csv, ra, dec, dist, res, k);
    }
  }

  /** Entry `k` of a pairing: CSV line `k + 1` reads back, and the arrays
      have index `k`. */
  lemma PairedLine(csv: seq<string>, ra: seq<real>, dec: seq<real>, dist: seq<real>, res: seq<BrightStar>, k: nat)
    requires Paired(csv, ra, dec, dist, res) && k < |res|
    ensures LineReads(csv, k) && k < |ra| && k < |dec| && k < |dist|
  {
    var e := res[k];
    assert ReadLine(csv[k + 1]) == Some((e.hip, e.mag));
  }

  /** Lines 114-121: skip the header line and build one entry per further
      line, `hip` and `mag` from CSV line `i + 1`, `ra`, `dec` and `dist` from
      index `i` of the arrays. It fails exactly when some turn would raise,
      and otherwise pairs line `i + 1` with index `i` for every `i`. */
  method ReadBack(csv: seq<string>, ra: seq<real>, dec: seq<real>, dist: seq<real>)
    returns (r: Result<seq<BrightStar>>)
    ensures r.Ok? <==> Readable(csv, ra, dec, dist)
    ensures r.Ok? ==> |r.value| == DataLines(csv)
    ensures r.Ok? ==> forall i :: 0 <= i < |r.value| ==>
      && ReadLine(csv[i + 1]) == Some((r.value[i].hip, r.value[i].mag))
      && r.value[i].ra == ra[i] && r.value[i].dec == dec[i] && r.value[i].dist == dist[i]
  {
    var res: seq<BrightStar> := [];
    var n := DataLines(csv);
    var i := 0;
    while i < n
      invariant 0 <= i <= n
      invariant |res| == i
      invariant Paired(csv, ra, dec, dist, res)
    {
      var cols := Split(csv[i + 1], ',');
      var hip := ParseInt(cols[0]);
      if hip.None? {
        assert !LineReads(csv, i);
        return Err(BadNumber);
      }
      if |cols| < 2 {
        assert !LineReads(csv, i);
        return Err(IndexOutOfRange);
      }
      var mag := ParseFloat(cols[1]);
      if mag.None? {
        assert !LineReads(csv, i);
        return Err(BadNumber);
      }
      if i >= |ra| || i >= |dec| || i >= |dist| {
        return Err(IndexOutOfRange);
      }
      assert ReadLine(csv[i + 1]) == Some((hip.value, mag.value));
      PairedExtend(csv, ra, dec, dist, res, BrightStar(hip.value, ra[i], dec[i], dist[i], mag.value));
      res := res + [BrightStar(hip.value, ra[i], dec[i], dist[i], mag.value)];
      i := i + 1;
    }
    PairedReadable(csv, ra, dec, dist, res);
    r := Ok(res);
  }

  /** The entry the bright-star route gives for a catalog row. */
  function BrightStarOf(o: Oracle, t: Instant, row: Row): BrightStar {
    var p := o.observeStar(t, row.position);
    BrightStar(row.hip, p.raHours, p.decDegrees, p.distMeters, Magnitude(row))
  }

  /** One entry per row, in order. */
  function Entries(o: Oracle, t: Instant, rows: seq<Row>): (res: seq<BrightStar>)
    ensures |res| == |rows|
  {
    seq(|rows|, i requires 0 <= i < |rows| => BrightStarOf(o, t, rows[i]))
  }

  /** What the bright-star route should answer: one entry per catalog row
      with magnitude at most `minMag`, in catalog order, every field of entry
      `i` taken from selected row `i`. */
  function BrightStars(cat: Catalog, o: Oracle, t: Instant, minMag: real): (res: seq<BrightStar>)
    ensures |res| == |Select(cat.rows, minMag)|
    ensures forall i :: 0 <= i < |res| ==> res[i].hip == Select(cat.rows, minMag)[i].hip && res[i].mag == Magnitude(Select(cat.rows, minMag)[i])
  {
    Entries(o, t, Select(cat.rows, minMag))
  }

  /** Line `k + 1` of a selection's lines, the header being line 0, reads
      back as row `k`. */
  lemma ReadDataLine(csv: seq<string>, rows: seq<Row>, k: nat)
    requires k + 1 < |csv| && csv[1..] == RowLines(rows)
    ensures k < |rows| && ReadLine(csv[k + 1]) == Some((rows[k].hip as int, Magnitude(rows[k])))
  {
    LineOfRow(csv, rows, k);
    ReadRowLine(rows[k], csv[k + 1]);
  }

  /** Each data line of a selection's CSV text reads back as the id and
      stored magnitude of the row it was written from. */
  lemma FrameReadsBack(rows: seq<Row>)
    ensures var csv := Split(Strip(FrameCsv(rows)), '\n');
      && |csv| == |rows| + 1
      && forall k :: 0 <= k < |rows| ==> ReadLine(csv[k + 1]) == Some((rows[k].hip as int, Magnitude(rows[k])))
  {
    var csv := Split(Strip(FrameCsv(rows)), '\n');
    FrameLines(rows);
    forall k | 0 <= k < |rows| ensures ReadLine(csv[k + 1]) == Some((rows[k].hip as int, Magnitude(rows[k]))) {
      ReadDataLine(csv, rows, k);
    }
  }

  /** A selection's CSV text read against arrays as long as the selection
      never raises. */
  lemma FrameReadable(rows: seq<Row>, ra: seq<real>, dec: seq<real>, dist: seq<real>)
    requires |ra| == |rows| && |dec| == |rows| && |dist| == |rows|
    ensures Readable(Split(Strip(FrameCsv(rows)), '\n'), ra, dec, dist)
  {
    var csv := Split(Strip(FrameCsv(rows)), '\n');
    FrameReadsBack(rows);
    forall k: nat | k < DataLines(csv) ensures LineReads(csv, k) {
      assert ReadLine(csv[k + 1]) == Some((rows[k].hip as int, Magnitude(rows[k])));
    }
  }

  /** `get_bright_stars` after the time conversion: filter the catalog once,
      build the star batch and the CSV text from that one selection, observe
      the batch, and read the CSV back in step with the arrays. The answer
      is never an error, and each entry's five fields describe the same
      selected star. */
  method GetBrightStars(cat: Catalog, o: Oracle, t: Instant, minMag: real)
    returns (r: Result<seq<BrightStar>>)
    ensures r == Ok(BrightStars(cat, o, t, minMag))
  {
    var bright := Select(cat.rows, minMag);
    var stars := seq(|bright|, k requires 0 <= k < |bright| => bright[k].position);
    var csv := Split(Strip(FrameCsv(bright)), '\n');
    var batch := ObserveBatch(o, t, stars);
    r := ReadBack(csv, batch.ra, batch.dec, batch.dist);

    FrameReadsBack(bright);
    FrameReadable(bright, batch.ra, batch.dec, batch.dist);
    assert r.Ok? && |r.value| == |bright|;
    forall i | 0 <= i < |bright| ensures r.value[i] == BrightStarOf(o, t, bright[i]) {
      assert Place(batch.ra[i], batch.dec[i], batch.dist[i]) == o.observeStar(t, stars[i]);
    }
    assert r.value == Entries(o, t, bright);
  }

  /** Nothing bright enough: the answer is the empty list. */
  lemma BrightStarsEmpty(cat: Catalog, o: Oracle, t: Instant, minMag: real)
    requires forall row :: row in cat.rows ==> Magnitude(row) > minMag
    ensures BrightStars(cat, o, t, minMag) == []
  {
    SelectNone(cat.rows, minMag);
  }

  /** Mapping rows to entries keeps subsequences. */
  lemma {:induction false} EntriesKeepSubsequence(o: Oracle, t: Instant, a: seq<Row>, b: seq<Row>)
    requires IsSubsequence(a, b)
    ensures IsSubsequence(Entries(o, t, a), Entries(o, t, b))
    decreases |b|
  {
    var ea, eb := Entries(o, t, a), Entries(o, t, b);
    if a != [] {
      assert eb[1..] == Entries(o, t, b[1..]);
      if a[0] == b[0] && IsSubsequence(a[1..], b[1..]) {
        EntriesKeepSubsequence(o, t, a[1..], b[1..]);
        assert ea[1..] == Entries(o, t, a[1..]);
      } else {
        EntriesKeepSubsequence(o, t, a, b[1..]);
      }
    }
  }

  /** Raising the threshold never removes an entry: the answer at a lower
      threshold is a subsequence of the answer at a higher one. */
  lemma BrightStarsMonotone(cat: Catalog, o: Oracle, t: Instant, low: real, high: real)
    requires low <= high
    ensures IsSubsequence(BrightStars(cat, o, t, low), BrightStars(cat, o, t, high))
  {
    SelectMonotone(cat.rows, low, high);
    EntriesKeepSubsequence(o, t, Select(cat.rows, low), Select(cat.rows, high));
  }

  /** A row bright enough has an entry in the answer. */
  lemma BrightStarsListRow(cat: Catalog, o: Oracle, t: Instant, minMag: real, row: Row)
    requires row in cat.rows && Magnitude(row) <= minMag
    ensures var res := BrightStars(cat, o, t, minMag);
      exists i :: 0 <= i < |res| && res[i] == BrightStarOf(o, t, row)
  {
    var sel := Select(cat.rows, minMag);
    var i :| 0 <= i < |sel| && sel[i] == row;
    assert BrightStars(cat, o, t, minMag)[i] == BrightStarOf(o, t, row);
  }

  /** In a valid catalog no id is answered twice. */
  lemma BrightStarsDistinct(cat: Catalog, o: Oracle, t: Instant, minMag: real)
    requires cat.Valid()
    ensures var res := BrightStars(cat, o, t, minMag);
      forall i, j :: 0 <= i < j < |res| ==> res[i].hip != res[j].hip
  {
    SelectValid(cat.rows, minMag);
  }

  /** The batch and the single-star routes agree: in a valid catalog, a star
      bright enough appears in the answer exactly once, with the same
      position and magnitude `get_star_at` reports for its id. */
  lemma BrightStarsAgreeWithStarAt(cat: Catalog, o: Oracle, t: Instant, minMag: real, row: Row)
    requires cat.Valid() && row in cat.rows && Magnitude(row) <= minMag
    ensures var res := BrightStars(cat, o, t, minMag);
      && (exists i :: 0 <= i < |res| && res[i].hip == row.hip &&
            StarAt(cat, o, t, row.hip) == Ok(Reading(res[i].ra, res[i].dec, res[i].dist, res[i].mag)))
      && (forall i, j :: 0 <= i < j < |res| ==> res[i].hip != res[j].hip)
  {
    var res := BrightStars(cat, o, t, minMag);
    BrightStarsListRow(cat, o, t, minMag, row);
    BrightStarsDistinct(cat, o, t, minMag);
    var k :| 0 <= k < |cat.rows| && cat.rows[k] == row;
    StarAtRow(cat, o, t, k);
    var i :| 0 <= i < |res| && res[i] == BrightStarOf(o, t, row);
    assert StarAt(cat, o, t, row.hip) == Ok(Reading(res[i].ra, res[i].dec, res[i].dist, res[i].mag));
  }

  /** A star of magnitude 1.97 under a threshold of 2.0: it is answered
      exactly once, with magnitude 1.97, whatever the observed geometry. */
  lemma BrightStarsPolaris(cat: Catalog, o: Oracle, t: Instant, row: Row)
    requires cat.Valid() && row in cat.rows && row.hip == 11767 && row.centimag == 197
    ensures var res := BrightStars(cat, o, t, 2.0);
      exists i :: 0 <= i < |res| && res[i].hip == 11767 && res[i].mag == 1.97 &&
        forall j :: 0 <= j < |res| && res[j].hip == 11767 ==> j == i
  {
    var res := BrightStars(cat, o, t, 2.0);
    assert Magnitude(row) == 1.97;
    BrightStarsListRow(cat, o, t, 2.0, row);
    BrightStarsDistinct(cat, o, t, 2.0);
    var i :| 0 <= i < |res| && res[i] == BrightStarOf(o, t, row);
    assert res[i].hip == 11767 && res[i].mag == 1.97;
  }
}
