# skyfield-api, modelled in Dafny

`main.py` is a small Flask service that answers astronomical queries for a
Unix time. It handles:
- the place and magnitude of a Hipparcos star, by id (`/time/<unix>/hip/<hip>`);
- a planet, by name (`/time/<unix>/planet/<name>`);
- the Sun and the Moon;
- every catalog star at least as bright as a threshold (`/time/<unix>/bright-stars/<min_mag>`).

The astronomy itself (the ephemeris, the star vectors, the transform to the
equator of date, the planetary brightness models) comes from the skyfield
library. The service owns only the glue:
- reading a star's magnitude back out of the CSV text pandas writes for its row (`df_star_to_mag`);
- the catalog lookup `df.loc[hip]`;
- lower-casing a planet name and aliasing `jupiter` and `saturn` to their barycenters;
- the bright-star route: filter the table once, build one star batch and one CSV text from that selection, observe the batch, then walk the CSV lines in step with the three result arrays.

This project models that glue and proves what it promises:
- a stored magnitude survives the CSV round trip unchanged;
- a missing id or planet is an error, never a default;
- the aliasing ignores case;
- the bright-star threshold is inclusive;
- the bright-star answer keeps catalog order;
- every entry of the bright-star answer takes its id, magnitude and coordinates from one and the same catalog row. This holds because the loop reads CSV line `i + 1` together with index `i` of the arrays.

Files:
- `outcomes.dfy`: `Option`, `Result` and the exception kinds a handler turns into its error response.
- `strings.dfy`: Python's `str.split`, `str.strip` and `str.lower` on ASCII, plus `Join` as the inverse of `Split`.
- `numerals.dfy`:
  - how integers and two-decimal magnitudes are written;
  - Python's `int()` and `float()` on plain decimal text;
  - the two round trips.
- `catalog.dfy`:
  - the star table, its index lookup and the magnitude filter;
  - the CSV text `DataFrame.to_csv()` and `Series.to_csv()` write, and what it splits back into.
- `sky.dfy`: the astronomy library as an oracle, a datatype of function values. The batch observation gives three arrays aligned with the batch.
- `service.dfy` (module `SkyfieldApi`): the route logic.
  - `get_bright_stars` is a method. Its loop over the CSV lines (`ReadBack`) is a `while` loop with invariants.
  - `GetBrightStars` is proved to answer `Ok(BrightStars(...))`. `BrightStars` is a reference definition: one entry per selected row, every field taken from that row.

## Model

| member | source | states |
|---|---|---|
| Strings.Split | main.py:17 | `str.split` with one separator yields at least one piece, and no piece holds the separator |
| Strings.SplitThenJoin | main.py:17 | joining the pieces of a split with its separator gives back the original text |
| Strings.SplitJoin | main.py:108 | splitting a join of separator-free pieces gives back exactly those pieces |
| Strings.SplitNoSeparator | main.py:18 | a text without the separator splits into itself alone, so it has no piece 1 |
| Strings.SplitAfterSeparator | main.py:19 | a separator-free prefix followed by the separator is the first piece, and the rest splits on its own |
| Strings.SplitFirstTwo | main.py:17-20 | the first two pieces of `x sep y tail` are `x` and `y`, and they are all the pieces when nothing follows `y` |
| Strings.JoinFirstTwo | main.py:16-17 | a terminated join of three or more pieces starts with piece 0, a separator, then piece 1 |
| Strings.JoinFirst | main.py:108 | a join begins with its first piece |
| Strings.JoinLast | main.py:108 | a join ends with its last piece |
| Strings.JoinExcludes | main.py:108 | a character that is neither the separator nor in any piece is not in the join |
| Strings.JoinTrimmed | main.py:108 | a join whose outer pieces have no whitespace at their outer ends is itself trimmed |
| Strings.Strip | main.py:20 | `str.strip` gives a text with no whitespace at either end, no longer than the input, and returns an already trimmed text unchanged |
| Strings.StripSlice | main.py:108 | `str.strip` returns the slice of the input between a whitespace-only front and a whitespace-only back |
| Strings.StripTerminated | main.py:108 | stripping a trimmed text followed by a line feed removes exactly the line feed |
| Strings.Lower | main.py:61 | `str.lower` keeps the length, lowers each character, leaves no capital, and returns lower-case text unchanged |
| Strings.LowerIdempotent | main.py:61 | lower-casing twice equals lower-casing once |
| Strings.LowerConcat | main.py:61-63 | lower-casing distributes over concatenation, so a lower-case suffix keeps a lowered name lower-case |
| Numerals.Decimal | main.py:16 | a natural number is written as digits, with a leading zero only for zero, and the digits read back as the number |
| Numerals.RenderInt | main.py:108 | a written integer is a non-empty trimmed CSV field, free of commas and line feeds |
| Numerals.ParseInt | main.py:116 | `int()` of empty or all-whitespace text fails |
| Numerals.ParseRenderInt | main.py:116 | round trip: `int()` of a written integer is that integer |
| Numerals.Hundredths | main.py:16 | the two decimals of a fraction are two digits that read back as it |
| Numerals.RenderCenti | main.py:16 | a written magnitude is a non-empty trimmed CSV field, free of commas and line feeds |
| Numerals.ParseUnsigned | main.py:21 | an unsigned decimal reads as a non-negative number |
| Numerals.ParseFloat | main.py:21 | `float()` of empty or all-whitespace text fails |
| Numerals.ParseCentiDigits | main.py:21 | the unsigned text of `a` hundredths reads back as `a / 100` |
| Numerals.ParseFloatTrimmed | main.py:117 | `float()` of trimmed text starting with a digit is the unsigned reading; after a minus sign it is the negated reading |
| Numerals.ParseRenderCenti | main.py:117 | round trip: `float()` of a written magnitude is exactly the stored magnitude |
| Catalog.Index | main.py:10-11 | the table's index has exactly the table's ids as keys, and each maps to a row of the table with that id |
| Catalog.Lookup | main.py:46 | `df.loc[hip]` succeeds exactly when the id is in the table, with a row carrying that id; otherwise it is `KeyError` |
| Catalog.LookupRow | main.py:46 | in a table whose ids are unique, looking up a row's id finds that very row |
| Catalog.Select | main.py:106 | the filter keeps a row exactly when its magnitude is at most the threshold, the threshold included, as many times as the table holds it and no other row; so the selection is as long as the number of qualifying rows |
| Catalog.SelectNone | main.py:106 | when every row is fainter than the threshold the selection is empty |
| Catalog.SelectKeepsOrder | main.py:106 | the selection is a subsequence of the table, in table order |
| Catalog.SelectMonotone | main.py:106 | the selection at a lower threshold is a subsequence of the selection at a higher one |
| Catalog.SelectValid | main.py:106 | a selection from a table with unique ids has unique ids |
| Catalog.HeaderLine | main.py:108 | the header line is non-empty and trimmed, and holds no line feed |
| Catalog.ColumnNames | main.py:16 | no column name holds a comma or a line feed |
| Catalog.Values | main.py:108 | a row writes one CSV field per data column |
| Catalog.Fields | main.py:108 | a row's line has its id followed by one field per column, every one a clean CSV field |
| Catalog.RowLine | main.py:108 | the line `DataFrame.to_csv()` writes for a row; `RowLineFields` states that it splits back into the row's fields and `RowLineShape` that it is one trimmed line |
| Catalog.RowLines | main.py:108 | a selection writes exactly one line per row |
| Catalog.RowLinesAt | main.py:108 | line `k` of a selection's rows is the line written for row `k` |
| Catalog.FrameCsv | main.py:108 | `DataFrame.to_csv()` of a selection ends with a line feed; `FrameLines` states that it strips and splits into the header and the rows' lines |
| Catalog.RowLineFields | main.py:115 | splitting a row's line at commas gives back its written fields: id first, magnitude second |
| Catalog.RowLineShape | main.py:108 | a row's line is non-empty and trimmed, and holds no line feed |
| Catalog.RowLinesSingle | main.py:108 | no row line holds a line feed |
| Catalog.FrameLinesSingle | main.py:108 | neither the header nor any row line holds a line feed |
| Catalog.FrameLineEnds | main.py:108 | the CSV text's first line does not start with whitespace, and its last line does not end with it |
| Catalog.FrameTextTrimmed | main.py:108 | the joined lines of a selection form a non-empty trimmed text |
| Catalog.FrameLines | main.py:108 | `to_csv().strip().split('\n')` of a selection has one line per row plus the header; line 0 is the header and lines 1.. are the rows' lines in order |
| Catalog.LineOfRow | main.py:114-115 | after the header, line `k + 1` of those lines is the line written for row `k` |
| Catalog.SeriesLines | main.py:16 | `Series.to_csv()` of a row has a header line plus one line per column |
| Catalog.SeriesCsv | main.py:16 | `Series.to_csv()` of a row ends with a line feed; `DfStarToMagOfRow` states that `df_star_to_mag` reads the row's magnitude back out of it |
| Catalog.SeriesLineSingle | main.py:16-17 | a column's line in a row's series text holds no line feed |
| Catalog.SeriesLinesSingle | main.py:16-17 | no line of a row's series text holds a line feed |
| Sky.ObserveBatch | main.py:110-113 | the batch observation returns three arrays as long as the batch; entry `i` of each is the place of star `i` observed alone |
| SkyfieldApi.DfStarToMag | main.py:15-22 | `df_star_to_mag` fails only with `IndexError` or `ValueError`; its results on each shape of text are stated by the `DfStarToMag*` lemmas below |
| SkyfieldApi.DfStarToMagSecondField | main.py:15-22 | `df_star_to_mag` of a text whose line 1 has fields `f0, f1, ...` is `float(f1.strip())`, or `ValueError` when that text is not a number |
| SkyfieldApi.DfStarToMagNamedField | main.py:15-22 | a line 1 made of a column name and a written number yields that number |
| SkyfieldApi.DfStarToMagOneLine | main.py:18 | a text of one line has no `lines[1]`, so the result is `IndexError` |
| SkyfieldApi.DfStarToMagOneField | main.py:20 | a line 1 with a single field has no `cols[1]`, so the result is `IndexError` |
| SkyfieldApi.DfStarToMagOfRow | main.py:15-22 | on the text `to_csv()` writes for a catalog row, the result is the row's stored magnitude, unchanged |
| SkyfieldApi.StarAt | main.py:40-53 | an id absent from the table fails with `KeyError`; an id two rows carry fails too, because the observation of the frame `df.loc` then selects cannot be written by `jsonify`; the route answers exactly for the other present ids, with the observed place of the id's row and the row's stored magnitude |
| SkyfieldApi.StarAtRow | main.py:46-51 | in a table with unique ids, asking for a row's id answers that row's place and magnitude |
| SkyfieldApi.ResolvePlanet | main.py:61-63 | the key is lower-case; it differs from the lowered name exactly when that is `jupiter` or `saturn`, and then it is the name plus ` barycenter` |
| SkyfieldApi.ResolvePlanetIgnoresCase | main.py:61-63 | names equal up to case resolve to the same key |
| SkyfieldApi.ResolvePlanetIdempotent | main.py:61-63 | resolving a resolved key changes nothing |
| SkyfieldApi.ResolvePlanetJupiter | main.py:61-63 | a name reaches `jupiter barycenter` exactly when it is `jupiter` in any case or the key itself |
| SkyfieldApi.PlanetAt | main.py:55-71 | a key the ephemeris lacks fails with `KeyError`; the route answers exactly when the resolved key is loaded and the library gives its magnitude, and then it answers the library's place and magnitude for that key |
| SkyfieldApi.PlanetAtIgnoresCase | main.py:61-71 | the planet route answers the same for names equal up to case |
| SkyfieldApi.PlanetAtGiants | main.py:61-64 | with both barycenters loaded, `jupiter` and `saturn` in any case never fail as unknown |
| SkyfieldApi.ReadFields | main.py:115-117 | the fields give an answer exactly when there are at least two, field 0 passes `int()` and field 1 passes `float()`; the answer is those two numbers |
| SkyfieldApi.ReadLine | main.py:115-117 | a line without a comma has no field 1 and raises; `ReadRowLine` states that a row's line reads back as its id and magnitude |
| SkyfieldApi.ReadRowLine | main.py:115-117 | a row's CSV line reads back as the row's id and stored magnitude |
| SkyfieldApi.PairedExtend | main.py:114-121 | appending the entry for line `i + 1` and array index `i` keeps every entry paired with its own line and index |
| SkyfieldApi.PairedLine | main.py:115-120 | when entry `k` is paired, line `k + 1` reads back and the arrays have index `k` |
| SkyfieldApi.PairedReadable | main.py:114-121 | once every line after the header is paired, every turn of the loop succeeds |
| SkyfieldApi.ReadBack | main.py:114-121 | the loop fails exactly when some turn would raise; otherwise it gives one entry per line after the header, and entry `i` takes `hip`/`mag` from line `i + 1` and `ra`/`dec`/`dist` from index `i` |
| SkyfieldApi.Entries | main.py:121 | one entry per selected row |
| SkyfieldApi.BrightStars | main.py:99-125 | the reference answer: one entry per selected row, entry `i` carrying selected row `i`'s id and stored magnitude (and, by `Entries`, its observed place) |
| SkyfieldApi.ReadDataLine | main.py:114-117 | line `k + 1` of a selection's lines reads back as row `k`'s id and magnitude |
| SkyfieldApi.FrameReadsBack | main.py:108-117 | the stripped, split CSV text of a selection has one line per row after the header, and line `k + 1` reads back as row `k` |
| SkyfieldApi.FrameReadable | main.py:108-120 | reading a selection's CSV text against arrays as long as the selection never raises |
| SkyfieldApi.GetBrightStars | main.py:99-125 | the bright-star route never fails; it answers exactly one entry per selected row, in order, with every field of entry `i` taken from selected row `i` |
| SkyfieldApi.BrightStarsEmpty | main.py:106-122 | when no star is bright enough the answer is the empty list, not an error |
| SkyfieldApi.EntriesKeepSubsequence | main.py:121 | mapping rows to entries keeps subsequences |
| SkyfieldApi.BrightStarsMonotone | main.py:106-121 | raising the threshold never removes an entry, and the entries keep their relative order |
| SkyfieldApi.BrightStarsListRow | main.py:106-121 | every row at or under the threshold has its entry in the answer |
| SkyfieldApi.BrightStarsDistinct | main.py:106-121 | in a table with unique ids, no id is answered twice |
| SkyfieldApi.BrightStarsAgreeWithStarAt | main.py:99-125 | a bright-enough star appears exactly once, with the same place and magnitude the single-star route reports for its id |
| SkyfieldApi.BrightStarsPolaris | main.py:106-121 | a star of magnitude 1.97 is answered exactly once under threshold 2.0, with magnitude 1.97 |

## Left out

- Time conversion (`datetime.fromtimestamp`, `ts.from_datetime`), the `aries-gha` route (main.py:24-38) and the Sun and Moon routes (main.py:73-97). They are calls into the astronomy library with no logic of the service's own. An observation instant is a parameter (`Instant`).
- Parsing the URL's `unix_str` and `min_mag` with `float()` (main.py:43, 103). The threshold is given as a number, and a malformed path segment is the Flask shell's error response.
- The Flask shell: routing, `jsonify`, the blanket `except` that prints the exception and answers `'Internal error', 500`. Each route's result is a `Result`, and all `Err` values stand for that one response.
- The astronomy library's numerics. `Oracle` holds them as opaque functions, and the batch observation is taken never to raise, even on the empty batch. `planetary_magnitude` may fail and is modelled as an `Option`.
- Loading the ephemeris and the Hipparcos table from the network or disk (main.py:7-11). The table is a value (`Catalog`), and lemmas that need unique ids require them (`Catalog.Valid`).
- Rows with missing (NaN) magnitudes and the pandas rules for them. Magnitudes are exact decimals held in hundredths, not IEEE doubles. `RenderCenti` writes them with exactly two decimals, where pandas writes the shortest text that round-trips.
- `Catalog.Values`: only the first six data columns of the Hipparcos table are modelled (`magnitude` through `dec_mas_per_year`). The table the astronomy library loads also holds `ra_hours` and `epoch_year`, which `to_csv()` writes after them. The positional columns are never read back, so no proof depends on them, and their float formatting is not modelled.
- `Strings.Lower` and `Strings.IsSpace`: only ASCII case mapping and ASCII whitespace are modelled. Python also lowers and strips non-ASCII characters.
- `Numerals.ParseInt` and `Numerals.ParseFloat` accept only plain decimal text with an optional sign. Python also accepts exponents, `inf`/`nan`, underscores between digits and non-ASCII digits; none of these appear in text the service writes itself.
- `Sky.ObserveBatch`: that observing the whole batch at once gives, at index `i`, the same place as observing star `i` alone is assumed of the library's vectorised arithmetic, not derived. `SkyfieldApi.BrightStarsAgreeWithStarAt` rests on it.
- `Catalog.Lookup`: `df.loc[hip]` on an id two rows carry returns a frame, not a row; `Lookup` returns one of those rows. `SkyfieldApi.StarAt` fails on such an id (`Catalog.Repeated`) without modelling the frame. The vector observation of that frame, and the `TypeError` `jsonify` raises on it, are summed up as `Unserialisable`.
