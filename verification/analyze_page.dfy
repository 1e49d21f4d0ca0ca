/** The analysis page's own logic: which upload the path names and finding
    it among the user's uploads, the column lists offered for the axes, the
    chart configuration built from the rows and the chosen axes and type,
    the text preview of the first rows sent for insights, the status badge
    and the truncated preview table. Rows are given: how the page obtains
    them is outside the model. */
module AnalyzePage {
  import opened Common
  import opened Text
  import opened Store
  import opened Api
  import opened Session
  import SaveUpload
  import GetUserUploads
  import UploadPage

  /** A cell: the pages show strings and whole numbers. */
  datatype Value = Str(text: string) | Num(number: int)

  /** Columns are distinct: an object holds at most one value per key. */
  predicate DistinctKeys(pairs: seq<(string, Value)>) {
    forall i, j :: 0 <= i < j < |pairs| ==> pairs[i].0 != pairs[j].0
  }

  /** A row: its (column, value) pairs in the order its keys enumerate. */
  type Row = pairs: seq<(string, Value)> | DistinctKeys(pairs)

  /** `row[key]`: the value held under `key`, `undefined` when there is none. */
  function Lookup(row: Row, key: string): (v: Option<Value>)
    ensures v.None? <==> forall i :: 0 <= i < |row| ==> row[i].0 != key
    ensures v.Some? ==> (key, v.value) in row
    ensures forall i :: 0 <= i < |row| && row[i].0 == key ==> v == Some(row[i].1)
    decreases |row|
  {
    if |row| == 0 then None
    else if row[0].0 == key then Some(row[0].1)
    else
      var v := Lookup(row[1..], key);
      assert v.Some? ==> (key, v.value) in row[1..];
      v
  }

  /** `Object.keys(row)`: the row's columns in order, none twice. */
  function Keys(row: Row): (ks: seq<string>)
    ensures |ks| == |row|
    ensures forall i :: 0 <= i < |row| ==> ks[i] == row[i].0
    ensures forall i, j :: 0 <= i < j < |ks| ==> ks[i] != ks[j]
  {
    seq(|row|, i requires 0 <= i < |row| => row[i].0)
  }

  // ---------------------------------------------------------------------
  // Which upload the page shows

  /** `pathname.split("/").pop()`: the separator-free tail of the path after
      its last `/`, or the whole path when it has none. */
  function UploadIdFromPath(path: string): (id: string)
    ensures '/' !in id
    ensures EndsWith(path, id)
    ensures |id| < |path| ==> path[|path| - |id| - 1] == '/'
  {
    LastOfSplit(path, '/');
    Last(Split(path, '/'))
  }

  /** The id taken from `<anything>/<segment>` is the segment. */
  lemma UploadIdOfSegment(prefix: string, segment: string)
    requires '/' !in segment
    ensures UploadIdFromPath(prefix + "/" + segment) == segment
  {
    var path := prefix + "/" + segment;
    var id := UploadIdFromPath(path);
    assert path[|prefix|] == '/';
    assert path[|path| - |segment|..] == segment;
  }

  /** The page the upload page redirects to names the saved id. */
  lemma UploadIdOfAnalyzePath(uploadId: nat)
    ensures UploadIdFromPath(UploadPage.AnalyzePath(uploadId)) == NatToString(uploadId)
  {
    assert UploadPage.AnalyzePath(uploadId) == "/analyze" + "/" + NatToString(uploadId);
    UploadIdOfSegment("/analyze", NatToString(uploadId));
  }

  const NotFound: string := "Upload not found"
  const FetchFailed: string := "Failed to fetch upload data"

  /** Position of the first upload whose id, as a string, is `uploadId`. */
  function FindIndex(uploads: seq<UploadSummary>, uploadId: string): (r: Option<nat>)
    ensures r.None? <==> forall i :: 0 <= i < |uploads| ==> NatToString(uploads[i].id) != uploadId
    ensures r.Some? ==> r.value < |uploads| && NatToString(uploads[r.value].id) == uploadId
    ensures r.Some? ==> forall i :: 0 <= i < r.value ==> NatToString(uploads[i].id) != uploadId
    decreases |uploads|
  {
    if |uploads| == 0 then None
    else if NatToString(uploads[0].id) == uploadId then Some(0)
    else
      var r := FindIndex(uploads[1..], uploadId);
      if r.None? then None else Some(r.value + 1)
  }

  /** `u` is the first of `uploads` whose id, as a string, is `uploadId`. */
  predicate FirstWithId(uploads: seq<UploadSummary>, uploadId: string, u: UploadSummary) {
    exists k :: 0 <= k < |uploads| && uploads[k] == u && NatToString(uploads[k].id) == uploadId &&
      forall i :: 0 <= i < k ==> NatToString(uploads[i].id) != uploadId
  }

  /** `uploads.find((u) => u.id.toString() === uploadId)`, failing with
      "Upload not found": the first matching upload, and a failure exactly
      when none matches. */
  function FindUpload(uploads: seq<UploadSummary>, uploadId: string): (r: Result<UploadSummary>)
    ensures r.Failure? <==> forall i :: 0 <= i < |uploads| ==> NatToString(uploads[i].id) != uploadId
    ensures r.Failure? ==> r.error == NotFound
    ensures r.Success? ==> FirstWithId(uploads, uploadId, r.value)
  {
    match FindIndex(uploads, uploadId)
    case None => Failure(NotFound)
    case Some(i) =>
      assert FirstWithId(uploads, uploadId, uploads[i]) by {
        assert forall j :: 0 <= j < i ==> NatToString(uploads[j].id) != uploadId;
      }
      Success(uploads[i])
  }

  /** A path segment with a leading zero, like `007`, finds no upload:
      `toString()` never writes one, so no id string can match it. */
  lemma PaddedIdFindsNothing(uploads: seq<UploadSummary>, uploadId: string)
    requires |uploadId| > 1 && uploadId[0] == '0'
    ensures FindUpload(uploads, uploadId) == Failure(NotFound)
  {
    forall i | 0 <= i < |uploads|
      ensures NatToString(uploads[i].id) != uploadId
    {
      NatToStringCanonical(uploads[i].id);
    }
  }

  /** An id held by exactly one upload finds that upload. */
  lemma FindByUniqueId(uploads: seq<UploadSummary>, x: UploadSummary)
    requires x in uploads
    requires forall i :: 0 <= i < |uploads| && uploads[i].id == x.id ==> uploads[i] == x
    ensures FindUpload(uploads, NatToString(x.id)) == Success(x)
  {
    var r := FindUpload(uploads, NatToString(x.id));
    var k :| 0 <= k < |uploads| && uploads[k] == x;
    assert r.Success?;
    var i :| 0 <= i < |uploads| && uploads[i] == r.value;
    NatToStringInjective(r.value.id, x.id);
  }

  /** What loading the page's upload comes to. */
  datatype Load = Skipped | Loaded(upload: UploadSummary) | LoadFailed(message: string)

  /** The loading effect, given the signed-in user, the id from the path and
      how the listing request settled: resolved with the listing when the
      response was ok, resolved with `None` when it was not, or rejected (the
      request or reading its body failed) with the error's message, which
      the page shows as it is. With no user or an empty id nothing is
      requested (`Skipped`). With no user the page then stops loading and
      asks the user to sign in; with an empty id it stays in its loading
      state. */
  function LoadUpload(user: Option<User>, uploadId: string, answer: Settled<Option<seq<UploadSummary>>>): (r: Load)
    ensures user.None? || uploadId == "" <==> r.Skipped?
    ensures !r.Skipped? && answer.Rejected? ==> r == LoadFailed(answer.message)
    ensures !r.Skipped? && answer == Resolved(None) ==> r == LoadFailed(FetchFailed)
    // with a listing: the first upload carrying the id, "Upload not found" when none does
    ensures r.Loaded? <==>
      && !r.Skipped? && answer.Resolved? && answer.value.Some?
      && exists i :: 0 <= i < |answer.value.value| && NatToString(answer.value.value[i].id) == uploadId
    ensures r.Loaded? ==> FirstWithId(answer.value.value, uploadId, r.upload)
    ensures !r.Skipped? && answer.Resolved? && answer.value.Some? && !r.Loaded? ==> r == LoadFailed(NotFound)
  {
    if user.None? || uploadId == "" then Skipped
    else
      match answer
      case Rejected(message) => LoadFailed(message)
      case Resolved(None) => LoadFailed(FetchFailed)
      case Resolved(Some(listed)) =>
        match FindUpload(listed, uploadId)
        case Failure(message) => LoadFailed(message)
        case Success(upload) => Loaded(upload)
  }

  /** With unique ids, the analysis page of an owner's row, reached by its
      redirect path and given that owner's listing, loads that row. */
  lemma OwnRowOpens(t: Table, user: User, k: nat)
    requires UniqueIds(t)
    requires user.id != ""
    requires k < |t| && t[k].userId == user.id
    ensures LoadUpload(Some(user), UploadIdFromPath(UploadPage.AnalyzePath(t[k].id)),
                       Resolved(Some(Listing(t, user.id))))
            == Loaded(Summarize(t[k]))
  {
    ListedUnderOwnId(t, user.id, k);
    FindByUniqueId(Listing(t, user.id), Summarize(t[k]));
    UploadIdOfAnalyzePath(t[k].id);
  }

  /** The whole journey: a user saves a file's record, is sent to its
      analysis page, the page lists that user's uploads and picks the one the
      path names: it is the record just saved. */
  lemma SavedUploadOpens(session: Option<SessionData>, t: Table, f: UploadPage.FileInfo, timestamp: nat, url: string, now: int)
    requires UniqueIds(t)
    requires Caller(session).Some? && Caller(session).value.id != ""
    requires f.name != "" && url != ""
    ensures var user := Caller(session).value;
      var saved := SaveUpload.Handle(session, t, UploadPage.RecordPayload(user.id, f, timestamp, Some(url)), false, now);
      var listed := GetUserUploads.Handle(session, saved.table, GetUserUploads.ListRequest(Some(user.id)), false);
      && saved.response.status == Created
      && listed.PayloadReply?
      && LoadUpload(Some(user), UploadIdFromPath(UploadPage.AnalyzePath(saved.response.payload.uploadId)),
                    Resolved(Some(listed.payload.uploads)))
         == Loaded(Summarize(saved.table[|t|]))
  {
    var user := Caller(session).value;
    var req := UploadPage.RecordPayload(user.id, f, timestamp, Some(url));
    UploadPage.PayloadAccepted(session, t, f, timestamp, Some(url), now);
    var saved := SaveUpload.Handle(session, t, req, false, now);
    SaveUpload.HandleKeepsIdsUnique(session, t, req, false, now);
    assert saved.table[|t|].userId == user.id;
    OwnRowOpens(saved.table, user, |t|);
  }

  // ---------------------------------------------------------------------
  // Columns offered for the axes

  datatype ColumnLists = ColumnLists(columns: seq<string>, numeric: seq<string>)

  predicate IsNumber(v: Option<Value>) {
    v.Some? && v.value.Num?
  }

  /** `b` keeps some of `a`'s elements in `a`'s order. */
  predicate Subsequence(b: seq<string>, a: seq<string>)
    decreases |a|
  {
    if |b| == 0 then true
    else if |a| == 0 then false
    else if b[0] == a[0] then Subsequence(b[1..], a[1..])
    else Subsequence(b, a[1..])
  }

  /** The columns whose value in `first` is a number, in column order. */
  function NumericColumns(first: Row, columns: seq<string>): (r: seq<string>)
    ensures forall c :: c in r <==> c in columns && IsNumber(Lookup(first, c))
    ensures Subsequence(r, columns)
    decreases |columns|
  {
    if |columns| == 0 then []
    else
      var rest := NumericColumns(first, columns[1..]);
      if IsNumber(Lookup(first, columns[0])) then [columns[0]] + rest
      else
        assert |rest| > 0 ==> rest[0] in rest;
        rest
  }

  /** In a list without repeats, a subsequence is fixed by which elements it
      keeps. */
  lemma {:induction false} SubsequenceDetermined(b: seq<string>, c: seq<string>, a: seq<string>)
    requires forall i, j :: 0 <= i < j < |a| ==> a[i] != a[j]
    requires Subsequence(b, a) && Subsequence(c, a)
    requires forall x :: x in b <==> x in c
    ensures b == c
    decreases |a|
  {
    if |a| > 0 {
      var tail := a[1..];
      assert a[0] !in tail;
      SubsequenceWithin(b, a);
      SubsequenceWithin(c, a);
      if |b| > 0 && b[0] == a[0] {
        assert a[0] in c;
        if c[0] != a[0] {
          SubsequenceWithin(c, tail);
          assert false;
        }
        SubsequenceWithin(b[1..], tail);
        SubsequenceWithin(c[1..], tail);
        forall x
          ensures x in b[1..] <==> x in c[1..]
        {
          assert b == [b[0]] + b[1..];
          assert c == [c[0]] + c[1..];
          assert x in b <==> x == a[0] || x in b[1..];
          assert x in c <==> x == a[0] || x in c[1..];
          if x == a[0] {
            assert x !in b[1..] && x !in c[1..];
          }
        }
        SubsequenceDetermined(b[1..], c[1..], tail);
        assert b == [b[0]] + b[1..];
        assert c == [c[0]] + c[1..];
      } else {
        if |b| > 0 {
          SubsequenceWithin(b, tail);
        }
        assert a[0] !in b;
        if |c| > 0 && c[0] == a[0] {
          assert false;
        }
        SubsequenceDetermined(b, c, tail);
      }
    }
  }

  /** Every element of a subsequence is an element of the list. */
  lemma {:induction false} SubsequenceWithin(b: seq<string>, a: seq<string>)
    requires Subsequence(b, a)
    ensures forall x :: x in b ==> x in a
    decreases |a|
  {
    if |b| > 0 {
      if b[0] == a[0] {
        SubsequenceWithin(b[1..], a[1..]);
        assert b == [b[0]] + b[1..];
      } else {
        SubsequenceWithin(b, a[1..]);
      }
    }
  }

  /** `columns` and `numericColumns`: the first row's keys, and those among
      them whose first-row value is a number. With no data both are empty;
      with an empty row list the page fails, as `Object.keys(undefined)`
      throws. */
  function ColumnsOf(parsed: Option<seq<Row>>): (r: Result<ColumnLists>)
    ensures r.Failure? <==> parsed == Some([])
    ensures parsed.None? ==> r == Success(ColumnLists([], []))
    ensures r.Success? && parsed.Some? ==> r.value.columns == Keys(parsed.value[0])
    ensures r.Success? ==> forall i, j :: 0 <= i < j < |r.value.columns| ==> r.value.columns[i] != r.value.columns[j]
    ensures r.Success? ==> Subsequence(r.value.numeric, r.value.columns)
    ensures r.Success? && parsed.Some? ==> forall c :: c in r.value.numeric <==>
      c in r.value.columns && IsNumber(Lookup(parsed.value[0], c))
  {
    match parsed
    case None => Success(ColumnLists([], []))
    case Some(rows) =>
      if |rows| == 0 then Failure("TypeError")
      else
        var columns := Keys(rows[0]);
        Success(ColumnLists(columns, NumericColumns(rows[0], columns)))
  }

  /** The numeric columns are the only list that keeps the numeric columns
      of the first row in column order. */
  lemma NumericColumnsDetermined(first: Row, numeric: seq<string>)
    requires Subsequence(numeric, Keys(first))
    requires forall c :: c in numeric <==> c in Keys(first) && IsNumber(Lookup(first, c))
    ensures numeric == NumericColumns(first, Keys(first))
  {
    SubsequenceDetermined(numeric, NumericColumns(first, Keys(first)), Keys(first));
  }

  // ---------------------------------------------------------------------
  // The chart configuration

  datatype Colour = Palette(colours: seq<string>) | Single(colour: string)

  datatype Point = Point(x: Option<Value>, y: Option<Value>)

  datatype Series = Values(values: seq<Option<Value>>) | Points(points: seq<Point>)

  /** A dataset (`title` is its `label`); `borderWidth` and `fill` are absent from scatter datasets. */
  datatype Dataset = Dataset(
    title: string,
    data: Series,
    backgroundColor: Colour,
    borderColor: string,
    borderWidth: Option<int>,
    fill: Option<bool>)

  /** The declarative configuration handed to the chart library; scatter
      charts carry no labels. */
  datatype ChartConfig = ChartConfig(labels: Option<seq<Option<Value>>>, datasets: seq<Dataset>)

  datatype ChartState = ChartState(
    parsedData: Option<seq<Row>>,
    xAxis: string,
    yAxis: string,
    chartType: string,
    chartData: Option<ChartConfig>,
    showChart: bool)

  const PrimaryColour: string := "#357AFF"
  const BorderColour: string := "#2E69DE"
  const BorderWidth: int := 2
  const PieColours: seq<string> := [
    "#357AFF", "#22C55E", "#F59E0B", "#EF4444", "#8B5CF6",
    "#06B6D4", "#F97316", "#84CC16", "#EC4899", "#6366F1"
  ]

  /** `rows.map((row) => row[key])`. */
  function ColumnValues(rows: seq<Row>, key: string): (vs: seq<Option<Value>>)
    ensures |vs| == |rows|
    ensures forall i :: 0 <= i < |rows| ==> vs[i] == Lookup(rows[i], key)
  {
    seq(|rows|, i requires 0 <= i < |rows| => Lookup(rows[i], key))
  }

  /** `rows.map((row) => ({x: row[x], y: row[y]}))`. */
  function PointsOf(rows: seq<Row>, x: string, y: string): (ps: seq<Point>)
    ensures |ps| == |rows|
    ensures forall i :: 0 <= i < |rows| ==> ps[i] == Point(Lookup(rows[i], x), Lookup(rows[i], y))
  {
    seq(|rows|, i requires 0 <= i < |rows| => Point(Lookup(rows[i], x), Lookup(rows[i], y)))
  }

  /** The configuration for the chosen axes and chart type. A scatter chart
      has one dataset of (x, y) points, one per row in row order, labelled
      "<x> vs <y>", and no labels. Any other type has row i's x-value as
      label i and its y-value as datum i; pie charts get the ten-colour
      palette, line charts are not filled. */
  function ChartFor(rows: seq<Row>, x: string, y: string, chartType: string): (c: ChartConfig)
    ensures |c.datasets| == 1
    ensures c.datasets[0].borderColor == BorderColour
    ensures chartType == "scatter" <==> c.labels.None?
    ensures chartType == "scatter" ==> var d := c.datasets[0];
      && d.title == x + " vs " + y
      && d.data.Points?
      && |d.data.points| == |rows|
      && (forall i :: 0 <= i < |rows| ==> d.data.points[i] == Point(Lookup(rows[i], x), Lookup(rows[i], y)))
      && d.backgroundColor == Single(PrimaryColour)
      && d.borderWidth.None? && d.fill.None?
    ensures chartType != "scatter" ==> var d := c.datasets[0];
      && |c.labels.value| == |rows|
      && (forall i :: 0 <= i < |rows| ==> c.labels.value[i] == Lookup(rows[i], x))
      && d.title == y
      && d.data.Values?
      && |d.data.values| == |rows|
      && (forall i :: 0 <= i < |rows| ==> d.data.values[i] == Lookup(rows[i], y))
      && d.backgroundColor == (if chartType == "pie" then Palette(PieColours) else Single(PrimaryColour))
      && d.borderWidth == Some(BorderWidth)
      && d.fill == Some(chartType != "line")
  {
    if chartType == "scatter" then
      ChartConfig(None, [Dataset(x + " vs " + y, Points(PointsOf(rows, x, y)), Single(PrimaryColour),
                                 BorderColour, None, None)])
    else
      ChartConfig(Some(ColumnValues(rows, x)),
                  [Dataset(y, Values(ColumnValues(rows, y)),
                           if chartType == "pie" then Palette(PieColours) else Single(PrimaryColour),
                           BorderColour, Some(BorderWidth), Some(chartType != "line"))])
  }

  /** A scatter chart plots exactly the (label, datum) pairs any other chart
      type shows for the same rows and axes; the other types differ only in
      colour and fill. */
  lemma ScatterPairsMatchSeries(rows: seq<Row>, x: string, y: string, other: string, another: string)
    requires other != "scatter" && another != "scatter"
    ensures var scatter := ChartFor(rows, x, y, "scatter").datasets[0].data.points;
      var series := ChartFor(rows, x, y, other);
      && |scatter| == |series.labels.value| == |series.datasets[0].data.values|
      && (forall i :: 0 <= i < |scatter| ==>
            scatter[i] == Point(series.labels.value[i], series.datasets[0].data.values[i]))
    ensures ChartFor(rows, x, y, other).labels == ChartFor(rows, x, y, another).labels
    ensures ChartFor(rows, x, y, other).datasets[0].data == ChartFor(rows, x, y, another).datasets[0].data
  {
  }

  /** `generateChart`: without data or with either axis unchosen nothing
      happens; otherwise the chart for the current choices is shown. An
      empty but present row list still yields a (blank) chart. */
  function GenerateChart(s: ChartState): (r: ChartState)
    ensures s.parsedData.None? || s.xAxis == "" || s.yAxis == "" ==> r == s
    ensures s.parsedData.Some? && s.xAxis != "" && s.yAxis != "" ==>
      && r.showChart
      && r.chartData == Some(ChartFor(s.parsedData.value, s.xAxis, s.yAxis, s.chartType))
      && r.(chartData := s.chartData, showChart := s.showChart) == s
  {
    if s.parsedData.None? || s.xAxis == "" || s.yAxis == "" then s
    else s.(chartData := Some(ChartFor(s.parsedData.value, s.xAxis, s.yAxis, s.chartType)), showChart := true)
  }

  // ---------------------------------------------------------------------
  // The data preview sent for insights

  const PreviewRowCount: nat := 5

  function ValueText(v: Value): string {
    match v
    case Str(text) => text
    case Num(number) => IntToString(number)
  }

  /** One `key: value` pair. */
  function PairText(p: (string, Value)): string {
    p.0 + ": " + ValueText(p.1)
  }

  /** The row's `key: value` pairs, in key order. */
  function PairTexts(row: Row): (ps: seq<string>)
    ensures |ps| == |row|
    ensures forall j :: 0 <= j < |row| ==> ps[j] == PairText(row[j])
  {
    seq(|row|, j requires 0 <= j < |row| => PairText(row[j]))
  }

  /** No key and no text value of the row holds a comma. */
  predicate CommaFreeCells(row: Row) {
    forall j :: 0 <= j < |row| ==> ',' !in row[j].0 && (row[j].1.Str? ==> ',' !in row[j].1.text)
  }

  /** Joining comma-free pairs with ", " and splitting at commas gives back
      every pair in order, each after the first led by a space. */
  lemma CommaJoinPairs(row: Row)
    ensures |row| > 0 && CommaFreeCells(row) ==>
      Split(Join(PairTexts(row), ", "), ',') ==
      [PairText(row[0])] + seq(|row| - 1, j requires 0 <= j < |row| - 1 => " " + PairText(row[j + 1]))
  {
    if |row| > 0 && CommaFreeCells(row) {
      PairTextsCommaFree(row);
      assert ", " == [','] + " ";
      SplitJoinGlued(PairTexts(row), ',', " ");
      GluedPairTexts(row);
    }
  }

  /** The glued pairs are the first pair, then each later pair led by a space. */
  lemma GluedPairTexts(row: Row)
    requires |row| > 0
    ensures Glued(PairTexts(row), " ") ==
      [PairText(row[0])] + seq(|row| - 1, j requires 0 <= j < |row| - 1 => " " + PairText(row[j + 1]))
  {
  }

  /** No pair of a comma-free row holds a comma. */
  lemma PairTextsCommaFree(row: Row)
    requires CommaFreeCells(row)
    ensures forall j :: 0 <= j < |row| ==> ',' !in PairTexts(row)[j]
  {
    forall j | 0 <= j < |row|
      ensures ',' !in PairText(row[j])
    {
      if row[j].1.Num? {
        NumberTextChars(row[j].1.number);
      }
    }
  }

  /** One row as `key: value` pairs joined by ", ", in key order: it opens
      with the first pair, each character comes from a pair or from the
      separator, and when no cell holds a comma, splitting it at commas
      gives back every pair in key order (each after the first led by the
      space of the separator). */
  function RowText(row: Row): (r: string)
    ensures |row| == 0 ==> r == ""
    ensures |row| > 0 && CommaFreeCells(row) ==>
      Split(r, ',') == [PairText(row[0])] + seq(|row| - 1, j requires 0 <= j < |row| - 1 => " " + PairText(row[j + 1]))
    ensures |row| > 0 ==> |PairText(row[0])| <= |r| && r[..|PairText(row[0])|] == PairText(row[0])
    ensures forall c :: c in r ==> c in ", " || exists j :: 0 <= j < |row| && c in PairText(row[j])
  {
    var pairs := PairTexts(row);
    var r := Join(pairs, ", ");
    CommaJoinPairs(row);
    assert forall c :: c in r ==> c in ", " || exists j :: 0 <= j < |row| && c in PairText(row[j]) by {
      forall c | c in r && c !in ", "
        ensures exists j :: 0 <= j < |row| && c in PairText(row[j])
      {
        var j :| 0 <= j < |pairs| && c in pairs[j];
        assert c in PairText(row[j]);
      }
    }
    r
  }

  /** A row's text, built from the back: a single pair is its own text, and
      each further pair adds ", " and that pair. This fixes the text of every
      row, whatever its cells hold. */
  lemma RowTextSnoc(row: Row)
    ensures |row| == 1 ==> RowText(row) == PairText(row[0])
    ensures |row| > 1 ==> RowText(row) == RowText(row[..|row| - 1]) + ", " + PairText(row[|row| - 1])
  {
    if |row| > 1 {
      var front: Row := row[..|row| - 1];
      assert PairTexts(row) == PairTexts(front) + [PairText(row[|row| - 1])];
      JoinSnoc(PairTexts(front), PairText(row[|row| - 1]), ", ");
    }
  }

  /** The lines of the preview: one per row, for at most the first five. */
  function PreviewLines(rows: seq<Row>): (lines: seq<string>)
    ensures |lines| == Min(PreviewRowCount, |rows|)
    ensures forall i :: 0 <= i < |lines| ==> lines[i] == RowText(rows[i])
  {
    var n := Min(PreviewRowCount, |rows|);
    seq(n, i requires 0 <= i < n => RowText(rows[i]))
  }

  /** `dataPreview`: the lines joined by line breaks. It opens with the first
      row's text, and no row after the fifth contributes a character. */
  function DataPreview(rows: seq<Row>): (r: string)
    ensures |rows| == 0 ==> r == ""
    ensures |rows| > 0 ==> |RowText(rows[0])| <= |r| && r[..|RowText(rows[0])|] == RowText(rows[0])
    ensures forall c :: c in r ==> c == '\n' || exists i :: 0 <= i < Min(PreviewRowCount, |rows|) && c in RowText(rows[i])
  {
    var lines := PreviewLines(rows);
    var r := Join(lines, "\n");
    assert forall c :: c in r ==> c == '\n' || exists i :: 0 <= i < Min(PreviewRowCount, |rows|) && c in RowText(rows[i]) by {
      forall c | c in r && c != '\n'
        ensures exists i :: 0 <= i < Min(PreviewRowCount, |rows|) && c in RowText(rows[i])
      {
        var i :| 0 <= i < |lines| && c in lines[i];
        assert c in RowText(rows[i]);
      }
    }
    r
  }

  /** The preview, built from the back: one row gives its text, each of the
      next rows up to the fifth adds a line break and its text, and rows
      after the fifth change nothing. This fixes the preview of every table,
      whatever its cells hold. */
  lemma DataPreviewSnoc(rows: seq<Row>, row: Row)
    ensures |rows| == 0 ==> DataPreview(rows + [row]) == RowText(row)
    ensures 0 < |rows| < PreviewRowCount ==> DataPreview(rows + [row]) == DataPreview(rows) + "\n" + RowText(row)
    ensures |rows| >= PreviewRowCount ==> DataPreview(rows + [row]) == DataPreview(rows)
  {
    var lines := PreviewLines(rows);
    var more := PreviewLines(rows + [row]);
    if |rows| < PreviewRowCount {
      assert more == lines + [RowText(row)];
      JoinSnoc(lines, RowText(row), "\n");
    } else {
      assert more == lines;
    }
  }

  /** No key and no text value holds a line break. */
  predicate SingleLineCells(rows: seq<Row>) {
    forall i, j :: 0 <= i < |rows| && 0 <= j < |rows[i]| ==>
      '\n' !in rows[i][j].0 && (rows[i][j].1.Str? ==> '\n' !in rows[i][j].1.text)
  }

  /** A rendered number holds only digits and perhaps a leading minus. */
  lemma NumberTextChars(n: int)
    ensures forall c :: c in IntToString(n) ==> c == '-' || IsDigit(c)
  {
  }

  lemma RowTextSingleLine(row: Row)
    requires forall j :: 0 <= j < |row| ==> '\n' !in row[j].0 && (row[j].1.Str? ==> '\n' !in row[j].1.text)
    ensures '\n' !in RowText(row)
  {
    forall j | 0 <= j < |row|
      ensures '\n' !in PairText(row[j])
    {
      if row[j].1.Num? {
        NumberTextChars(row[j].1.number);
      }
    }
  }

  /** When the cells are single-line, the preview has exactly min(5, rows)
      lines, line i being row i's text: splitting it at line breaks gives
      them back. */
  lemma PreviewLinesRecoverable(rows: seq<Row>)
    requires |rows| > 0
    requires SingleLineCells(rows)
    ensures Split(DataPreview(rows), '\n') == PreviewLines(rows)
    ensures |Split(DataPreview(rows), '\n')| == Min(PreviewRowCount, |rows|)
  {
    var lines := PreviewLines(rows);
    forall i | 0 <= i < |lines|
      ensures '\n' !in lines[i]
    {
      assert forall j :: 0 <= j < |rows[i]| ==>
        '\n' !in rows[i][j].0 && (rows[i][j].1.Str? ==> '\n' !in rows[i][j].1.text);
      RowTextSingleLine(rows[i]);
    }
    SplitJoin(lines, '\n');
  }

  // ---------------------------------------------------------------------
  // The status badge and the preview table

  datatype Badge = Green | Yellow | Blue

  /** The badge colour of an upload's status. */
  function StatusBadge(status: string): (b: Badge)
    ensures b == Green <==> status == "processed"
    ensures b == Yellow <==> status == "processing"
    ensures b == Blue <==> status != "processed" && status != "processing"
  {
    if status == "processed" then Green
    else if status == "processing" then Yellow
    else Blue
  }

  const PreviewTableRows: nat := 10

  /** `parsedData.slice(0, 10)`: the first ten rows, or all when fewer. */
  function PreviewRows(rows: seq<Row>): (shown: seq<Row>)
    ensures |shown| == Min(PreviewTableRows, |rows|)
    ensures shown == rows[..|shown|]
  {
    rows[..Min(PreviewTableRows, |rows|)]
  }

  /** The "Showing 10 of N rows" note: present exactly when there are more
      than ten rows, and naming their number. */
  function TruncationNote(rows: seq<Row>): (note: Option<string>)
    ensures note.Some? <==> |rows| > PreviewTableRows
    ensures note.Some? ==> note.value == "Showing 10 of " + NatToString(|rows|) + " rows"
  {
    if |rows| > PreviewTableRows then Some("Showing 10 of " + NatToString(|rows|) + " rows") else None
  }

  /** The note appears exactly when the table hides rows. */
  lemma NoteExactlyWhenRowsHidden(rows: seq<Row>)
    ensures TruncationNote(rows).Some? <==> PreviewRows(rows) != rows
  {
  }
}
