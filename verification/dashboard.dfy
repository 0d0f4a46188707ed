/**
 * The dashboard page: the rows it loads from the CSV file, the nine summary
 * statistics it computes over every row, the date search that selects the
 * rows handed to the chart, and the page state those three feed.
 */
module Dashboard {
  import opened Wrappers
  import opened Seqs
  import opened Statistics
  import opened DateSearch

  // ---------------------------------------------------------------------
  // Rows

  /** A record as the CSV parser delivers it (header mode): every cell is text. */
  datatype RawRow = RawRow(
    extractDate: string,
    expectedHours: string,
    totalHoursCompulsory: string,
    totalHoursVoluntary: string)

  /** The three numeric columns of a row. */
  datatype Column = ExpectedHours | TotalHoursCompulsory | TotalHoursVoluntary

  /** `CSVRow`: the date stays text, the three hour columns are numbers. */
  datatype Row = Row(
    extractDate: string,
    expectedHours: real,
    totalHoursCompulsory: real,
    totalHoursVoluntary: real)
  {
    function Get(c: Column): real
    {
      match c
      case ExpectedHours => expectedHours
      case TotalHoursCompulsory => totalHoursCompulsory
      case TotalHoursVoluntary => totalHoursVoluntary
    }
  }

  /**
   * `parseFloat(cell) || 0`: the parsed number, or zero when the cell does
   * not parse (`parse` returns `None` where `parseFloat` returns NaN).
   */
  function ParseOrZero(parse: string -> Option<real>, cell: string): (v: real)
    ensures parse(cell).None? ==> v == 0.0
    ensures parse(cell).Some? ==> v == parse(cell).value
  {
    parse(cell).GetOr(0.0)
  }

  /** One record with its three hour cells converted; the date is copied as it is. */
  function NormalizeRow(parse: string -> Option<real>, raw: RawRow): Row
  {
    Row(raw.extractDate,
        ParseOrZero(parse, raw.expectedHours),
        ParseOrZero(parse, raw.totalHoursCompulsory),
        ParseOrZero(parse, raw.totalHoursVoluntary))
  }

  function RowNormalizer(parse: string -> Option<real>): RawRow -> Row
  {
    raw => NormalizeRow(parse, raw)
  }

  /** `formattedData`: every parsed record, normalised, in file order. */
  function Normalize(parse: string -> Option<real>, raws: seq<RawRow>): seq<Row>
  {
    Map(raws, RowNormalizer(parse))
  }

  /**
   * Normalisation keeps one row per record, in order, with the date
   * unchanged; every hour value is the number its cell parses to, and a cell
   * that does not parse becomes zero. No record is dropped or rejected.
   */
  lemma NormalizeSpec(parse: string -> Option<real>, raws: seq<RawRow>)
    ensures |Normalize(parse, raws)| == |raws|
    ensures forall i :: 0 <= i < |raws| ==>
      Normalize(parse, raws)[i].extractDate == raws[i].extractDate
    ensures forall i, v :: 0 <= i < |raws| && parse(raws[i].expectedHours) == Some(v) ==>
      Normalize(parse, raws)[i].expectedHours == v
    ensures forall i :: 0 <= i < |raws| && parse(raws[i].expectedHours).None? ==>
      Normalize(parse, raws)[i].expectedHours == 0.0
    ensures forall i, v :: 0 <= i < |raws| && parse(raws[i].totalHoursCompulsory) == Some(v) ==>
      Normalize(parse, raws)[i].totalHoursCompulsory == v
    ensures forall i :: 0 <= i < |raws| && parse(raws[i].totalHoursCompulsory).None? ==>
      Normalize(parse, raws)[i].totalHoursCompulsory == 0.0
    ensures forall i, v :: 0 <= i < |raws| && parse(raws[i].totalHoursVoluntary) == Some(v) ==>
      Normalize(parse, raws)[i].totalHoursVoluntary == v
    ensures forall i :: 0 <= i < |raws| && parse(raws[i].totalHoursVoluntary).None? ==>
      Normalize(parse, raws)[i].totalHoursVoluntary == 0.0
  {
  }

  /** Normalisation works record by record: normalising a concatenation normalises each part. */
  lemma NormalizeConcat(parse: string -> Option<real>, a: seq<RawRow>, b: seq<RawRow>)
    ensures Normalize(parse, a + b) == Normalize(parse, a) + Normalize(parse, b)
  {
    MapConcat(a, b, RowNormalizer(parse));
  }

  /** The text cell a record holds for column `c`. */
  function Cell(raw: RawRow, c: Column): string
  {
    match c
    case ExpectedHours => raw.expectedHours
    case TotalHoursCompulsory => raw.totalHoursCompulsory
    case TotalHoursVoluntary => raw.totalHoursVoluntary
  }

  /**
   * When every cell of column `c` in this file that parses gives a
   * non-negative number, every hour value of that column is non-negative
   * (the zero default included).
   */
  lemma NormalizeNonNegative(parse: string -> Option<real>, raws: seq<RawRow>, c: Column)
    requires forall i, v :: 0 <= i < |raws| && parse(Cell(raws[i], c)) == Some(v) ==> 0.0 <= v
    ensures forall i :: 0 <= i < |raws| ==> 0.0 <= Normalize(parse, raws)[i].Get(c)
  {
    forall i | 0 <= i < |raws| ensures 0.0 <= Normalize(parse, raws)[i].Get(c) {
      assert Normalize(parse, raws)[i].Get(c) == ParseOrZero(parse, Cell(raws[i], c));
    }
  }

  // ---------------------------------------------------------------------
  // calculateStats

  function ColumnOf(c: Column): Row -> real
  {
    (row: Row) => row.Get(c)
  }

  /** `data.map(row => row.<column>)`. */
  function ColumnValues(data: seq<Row>, c: Column): (r: seq<real>)
    ensures |r| == |data|
    ensures forall i :: 0 <= i < |data| ==> r[i] == data[i].Get(c)
  {
    Map(data, ColumnOf(c))
  }

  /** `Stats`: mean, median and standard deviation of each hour column. */
  datatype Stats = Stats(
    expectedHoursMean: real,
    totalHoursCompulsoryMean: real,
    totalHoursVoluntaryMean: real,
    expectedHoursMedian: real,
    totalHoursCompulsoryMedian: real,
    totalHoursVoluntaryMedian: real,
    expectedHoursStdDev: real,
    totalHoursCompulsoryStdDev: real,
    totalHoursVoluntaryStdDev: real)
  {
    function MeanOf(c: Column): real
    {
      match c
      case ExpectedHours => expectedHoursMean
      case TotalHoursCompulsory => totalHoursCompulsoryMean
      case TotalHoursVoluntary => totalHoursVoluntaryMean
    }

    function MedianOf(c: Column): real
    {
      match c
      case ExpectedHours => expectedHoursMedian
      case TotalHoursCompulsory => totalHoursCompulsoryMedian
      case TotalHoursVoluntary => totalHoursVoluntaryMedian
    }

    function StdDevOf(c: Column): real
    {
      match c
      case ExpectedHours => expectedHoursStdDev
      case TotalHoursCompulsory => totalHoursCompulsoryStdDev
      case TotalHoursVoluntary => totalHoursVoluntaryStdDev
    }
  }

  /**
   * `calculateStats`. On an empty dataset the unseeded `reduce` inside
   * `standardDeviation` throws, so no statistics are produced (`None`).
   * Otherwise each of the nine fields is the statistic of its own column.
   */
  function CalculateStats(data: seq<Row>, sqrt: real -> real): (r: Option<Stats>)
    ensures r.None? <==> |data| == 0
  {
    if |data| == 0 then None
    else
      var expected := ColumnValues(data, ExpectedHours);
      var compulsory := ColumnValues(data, TotalHoursCompulsory);
      var voluntary := ColumnValues(data, TotalHoursVoluntary);
      Some(Stats(
        Mean(expected), Mean(compulsory), Mean(voluntary),
        Median(expected), Median(compulsory), Median(voluntary),
        StandardDeviation(expected, sqrt), StandardDeviation(compulsory, sqrt),
        StandardDeviation(voluntary, sqrt)))
  }

  /** Each of the nine fields is the statistic of its own column. */
  lemma CalculateStatsColumns(data: seq<Row>, sqrt: real -> real, c: Column)
    requires |data| > 0
    ensures CalculateStats(data, sqrt).Some?
    ensures var s := CalculateStats(data, sqrt).value;
            var col := ColumnValues(data, c);
      && s.MeanOf(c) == Mean(col)
      && s.MedianOf(c) == Median(col)
      && s.StdDevOf(c) == StandardDeviation(col, sqrt)
  {
  }

  /**
   * For every column: the mean times the row count is the column total, and
   * mean and median lie between the column's smallest and largest value.
   */
  lemma CalculateStatsBounds(data: seq<Row>, sqrt: real -> real, c: Column)
    requires |data| > 0
    ensures CalculateStats(data, sqrt).Some?
    ensures var s := CalculateStats(data, sqrt).value;
            var col := ColumnValues(data, c);
      && Product(s.MeanOf(c), |data| as real) == Sum(col)
      && Min(col) <= s.MeanOf(c) <= Max(col)
      && Min(col) <= s.MedianOf(c) <= Max(col)
  {
    var col := ColumnValues(data, c);
    CalculateStatsColumns(data, sqrt, c);
    MeanBounds(col);
    MedianBounds(col);
  }

  /** A column is constant exactly when every row holds the same value in it. */
  lemma ColumnConstant(data: seq<Row>, c: Column)
    requires |data| > 0
    ensures var col := ColumnValues(data, c);
      (forall i :: 0 <= i < |col| ==> col[i] == col[0])
      <==> (forall i :: 0 <= i < |data| ==> data[i].Get(c) == data[0].Get(c))
  {
    var col := ColumnValues(data, c);
    assert forall i :: 0 <= i < |data| ==> (col[i] == col[0] <==> data[i].Get(c) == data[0].Get(c));
  }

  /**
   * For every column, given a real square root: the standard deviation is
   * non-negative, squares to the column's variance, and is zero exactly when
   * every row holds the same value.
   */
  lemma CalculateStatsSpread(data: seq<Row>, sqrt: real -> real, c: Column)
    requires |data| > 0
    requires IsSqrt(sqrt)
    ensures CalculateStats(data, sqrt).Some?
    ensures var sd := CalculateStats(data, sqrt).value.StdDevOf(c);
      && 0.0 <= sd
      && Square(sd) == Variance(ColumnValues(data, c))
      && (sd == 0.0 <==> forall i :: 0 <= i < |data| ==> data[i].Get(c) == data[0].Get(c))
  {
    var col := ColumnValues(data, c);
    CalculateStatsColumns(data, sqrt, c);
    StandardDeviationSpec(col, sqrt);
    ColumnConstant(data, c);
  }

  /** At most half of the rows lie strictly below each column's median, and at most half strictly above. */
  lemma CalculateStatsMedianSplits(data: seq<Row>, sqrt: real -> real, c: Column)
    requires |data| > 0
    ensures CalculateStats(data, sqrt).Some?
    ensures var m := CalculateStats(data, sqrt).value.MedianOf(c);
      && Count(ColumnValues(data, c), Below(m)) <= |data| / 2
      && Count(ColumnValues(data, c), Above(m)) <= |data| / 2
  {
    CalculateStatsColumns(data, sqrt, c);
    MedianSplitsInHalf(ColumnValues(data, c));
  }

  /** The statistics do not depend on the order of the rows. */
  lemma CalculateStatsOrderIndependent(data: seq<Row>, other: seq<Row>, sqrt: real -> real)
    requires multiset(data) == multiset(other)
    ensures CalculateStats(data, sqrt) == CalculateStats(other, sqrt)
  {
    assert |data| == |multiset(data)| == |multiset(other)| == |other|;
    if |data| > 0 {
      forall c: Column
        ensures Mean(ColumnValues(data, c)) == Mean(ColumnValues(other, c))
        ensures Median(ColumnValues(data, c)) == Median(ColumnValues(other, c))
        ensures Variance(ColumnValues(data, c)) == Variance(ColumnValues(other, c))
      {
        MapPermutation(data, other, ColumnOf(c));
        MeanPermutation(ColumnValues(data, c), ColumnValues(other, c));
        MedianPermutation(ColumnValues(data, c), ColumnValues(other, c));
        VariancePermutation(ColumnValues(data, c), ColumnValues(other, c));
      }
    }
  }

  // ---------------------------------------------------------------------
  // filteredData

  /** A row is kept when its lower-cased date contains the lower-cased query. */
  predicate MatchesDate(query: string, row: Row)
  {
    Includes(Lower(row.extractDate), Lower(query))
  }

  function DateMatcher(query: string): Row -> bool
  {
    row => MatchesDate(query, row)
  }

  /** `data.filter(...)`: the matching rows, in their original order. */
  function FilterByDate(rows: seq<Row>, query: string): (r: seq<Row>)
    ensures forall i :: 0 <= i < |r| ==> MatchesDate(query, r[i])
    ensures |r| == Count(rows, DateMatcher(query))
  {
    if |rows| == 0 then []
    else
      var head := if MatchesDate(query, rows[0]) then [rows[0]] else [];
      var rest := FilterByDate(rows[1..], query);
      assert forall i :: |head| <= i < |head| + |rest| ==> (head + rest)[i] == rest[i - |head|];
      head + rest
  }

  /** A row is in the result exactly when it is one of the rows and its date matches. */
  lemma {:induction false} FilterMembership(rows: seq<Row>, query: string, x: Row)
    ensures x in FilterByDate(rows, query) <==> x in rows && MatchesDate(query, x)
    decreases |rows|
  {
    if |rows| > 0 {
      FilterMembership(rows[1..], query, x);
      assert rows == [rows[0]] + rows[1..];
    }
  }

  /** Filtering a concatenation filters each part: the kept rows keep their relative order. */
  lemma {:induction false} FilterConcat(a: seq<Row>, b: seq<Row>, query: string)
    ensures FilterByDate(a + b, query) == FilterByDate(a, query) + FilterByDate(b, query)
    decreases |a|
  {
    if |a| == 0 {
      assert a + b == b;
    } else {
      var ab := a + b;
      var head := if MatchesDate(query, a[0]) then [a[0]] else [];
      assert ab[0] == a[0];
      assert ab[1..] == a[1..] + b;
      assert FilterByDate(ab, query) == head + FilterByDate(ab[1..], query);
      assert FilterByDate(a, query) == head + FilterByDate(a[1..], query);
      FilterConcat(a[1..], b, query);
    }
  }

  /** A query equal to a row's date, up to letter case, shows that row. */
  lemma FilterShowsSameDate(rows: seq<Row>, query: string, x: Row)
    requires x in rows
    requires Lower(query) == Lower(x.extractDate)
    ensures x in FilterByDate(rows, query)
  {
    IncludesSelf(Lower(x.extractDate));
    FilterMembership(rows, query, x);
  }

  /** Each row is kept at most as often as it occurs. */
  lemma {:induction false} FilterSubMultiset(rows: seq<Row>, query: string)
    ensures multiset(FilterByDate(rows, query)) <= multiset(rows)
    decreases |rows|
  {
    if |rows| > 0 {
      FilterSubMultiset(rows[1..], query);
      assert rows == [rows[0]] + rows[1..];
    }
  }

  /** The empty query (the initial search box) shows every row. */
  lemma {:induction false} FilterEmptyQuery(rows: seq<Row>)
    ensures FilterByDate(rows, "") == rows
    decreases |rows|
  {
    if |rows| > 0 {
      IncludesEmpty(Lower(rows[0].extractDate));
      FilterEmptyQuery(rows[1..]);
      assert rows == [rows[0]] + rows[1..];
    }
  }

  /** Queries with the same lower-cased text select the same rows. */
  lemma {:induction false} FilterCaseInsensitive(rows: seq<Row>, q1: string, q2: string)
    requires Lower(q1) == Lower(q2)
    ensures FilterByDate(rows, q1) == FilterByDate(rows, q2)
    decreases |rows|
  {
    if |rows| > 0 {
      FilterCaseInsensitive(rows[1..], q1, q2);
    }
  }

  /** A query typed in capitals shows the same rows as the query itself ("JAN" and "jan"). */
  lemma FilterIgnoresUpperCase(rows: seq<Row>, query: string)
    ensures FilterByDate(rows, Upper(query)) == FilterByDate(rows, query)
  {
    LowerUpper(query);
    FilterCaseInsensitive(rows, Upper(query), query);
  }

  /** Searching the search result again with the same query changes nothing. */
  lemma {:induction false} FilterIdempotent(rows: seq<Row>, query: string)
    ensures FilterByDate(FilterByDate(rows, query), query) == FilterByDate(rows, query)
    decreases |rows|
  {
    if |rows| > 0 {
      var head := if MatchesDate(query, rows[0]) then [rows[0]] else [];
      FilterIdempotent(rows[1..], query);
      FilterConcat(head, FilterByDate(rows[1..], query), query);
    }
  }

  /**
   * Typing more into the search box only narrows the result: when the longer
   * query contains the shorter one, its rows are exactly the rows of the
   * shorter query's result that also match the longer query.
   */
  lemma {:induction false} FilterNarrows(rows: seq<Row>, shorter: string, longer: string)
    requires Includes(Lower(longer), Lower(shorter))
    ensures FilterByDate(FilterByDate(rows, shorter), longer) == FilterByDate(rows, longer)
    decreases |rows|
  {
    if |rows| > 0 {
      var x := rows[0];
      if MatchesDate(longer, x) {
        IncludesTransitive(Lower(x.extractDate), Lower(longer), Lower(shorter));
      }
      var head := if MatchesDate(shorter, x) then [x] else [];
      FilterNarrows(rows[1..], shorter, longer);
      FilterConcat(head, FilterByDate(rows[1..], shorter), longer);
    }
  }

  // ---------------------------------------------------------------------
  // Page state

  /**
   * The page's three pieces of state: the loaded rows, the statistics
   * (`None` while "Loading statistics..." is shown) and the search text.
   */
  datatype Page = Page(data: seq<Row>, stats: Option<Stats>, searchQuery: string)

  /** The state before the CSV file has been read. */
  function Initial(): Page
  {
    Page([], None, "")
  }

  /**
   * The parser's completion callback: the normalised rows are stored, then
   * the statistics are computed over them. When the statistics computation
   * throws (no rows) the rows are still stored and the statistics keep their
   * previous value.
   */
  function OnParsed(p: Page, parse: string -> Option<real>, sqrt: real -> real, raws: seq<RawRow>): Page
  {
    var rows := Normalize(parse, raws);
    var computed := CalculateStats(rows, sqrt);
    Page(rows, if computed.Some? then computed else p.stats, p.searchQuery)
  }

  /** Typing into the search box replaces the query and nothing else. */
  function OnSearch(p: Page, query: string): Page
  {
    p.(searchQuery := query)
  }

  /** Typing a sequence of queries, one after the other. */
  function Searches(p: Page, queries: seq<string>): Page
    decreases |queries|
  {
    if |queries| == 0 then p else Searches(OnSearch(p, queries[0]), queries[1..])
  }

  /** The rows handed to the chart. */
  function Visible(p: Page): seq<Row>
  {
    FilterByDate(p.data, p.searchQuery)
  }

  /** Searching never touches the rows or the statistics; the box holds the last query typed. */
  lemma {:induction false} SearchesKeepData(p: Page, queries: seq<string>)
    ensures Searches(p, queries).data == p.data
    ensures Searches(p, queries).stats == p.stats
    ensures Searches(p, queries).searchQuery == if |queries| == 0 then p.searchQuery else queries[|queries| - 1]
    decreases |queries|
  {
    if |queries| > 0 {
      SearchesKeepData(OnSearch(p, queries[0]), queries[1..]);
    }
  }

  /**
   * After the file is loaded and any number of searches, the statistics on
   * display are those of all loaded rows, not of the rows the search
   * selected; an empty file leaves "Loading statistics..." on screen for
   * good; and until something is typed the chart shows every row.
   */
  lemma LoadedPage(parse: string -> Option<real>, sqrt: real -> real, raws: seq<RawRow>, queries: seq<string>)
    ensures var p := Searches(OnParsed(Initial(), parse, sqrt, raws), queries);
      && p.data == Normalize(parse, raws)
      && (|raws| > 0 ==> p.stats == CalculateStats(p.data, sqrt))
      && (|raws| == 0 ==> p.stats.None?)
      && (|queries| == 0 ==> Visible(p) == p.data)
  {
    var loaded := OnParsed(Initial(), parse, sqrt, raws);
    SearchesKeepData(loaded, queries);
    FilterEmptyQuery(loaded.data);
  }
}
