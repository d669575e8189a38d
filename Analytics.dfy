/**
 * lib/youtube.py, `get_metrics_over_time`: for every video, one wide row with
 * the video's id and publish date followed by five metric groups (views,
 * likes, dislikes, shares, comments), each holding one column per interval
 * (24h, 1w, 2w, 1m, 2m, 3m after publishing).  Dates are day numbers.
 */
module Analytics {
  import opened Wrappers

  datatype Metric = Views | Likes | Dislikes | Shares | Comments

  datatype Interval = H24 | W1 | W2 | M1 | M2 | M3

  /** A column name of the row: `id`, `publish_date` or `<metric>_<interval>`. */
  datatype Key = Id | PublishDate | MetricKey(metric: Metric, interval: Interval)

  /** A cell: the id and publish date are text, a metric is a number or `None`. */
  datatype Cell = Text(text: string) | Number(n: int) | Null

  datatype Column = Column(key: Key, value: Cell)

  /** One row, its columns in dict insertion order. */
  type Row = seq<Column>

  /** One input video: the `id` index, the `publish_date` text, and the day
      that text denotes (the `pd.to_datetime(...).date()` conversion). */
  datatype Video = Video(id: string, publishDate: string, publishDay: int)

  /** The Analytics report request for a video from a start day to an end
      day: `None` when it raises, otherwise the response's `rows` (`[]` when
      the response has no rows). */
  type ReportQuery = (string, int, int) -> Option<seq<seq<int>>>

  /** The five metrics in the order the request asks for them and the groups
      are merged into the row. */
  const Metrics: seq<Metric> := [Views, Likes, Dislikes, Shares, Comments]

  /** The interval table in its (insertion) order. */
  const Intervals: seq<Interval> := [H24, W1, W2, M1, M2, M3]

  function Days(iv: Interval): int
  {
    match iv
    case H24 => 1
    case W1 => 7
    case W2 => 14
    case M1 => 30
    case M2 => 60
    case M3 => 90
  }

  function MetricIndex(m: Metric): (j: nat)
    ensures j < |Metrics| && Metrics[j] == m
  {
    match m
    case Views => 0
    case Likes => 1
    case Dislikes => 2
    case Shares => 3
    case Comments => 4
  }

  function IntervalIndex(iv: Interval): (k: nat)
    ensures k < |Intervals| && Intervals[k] == iv
  {
    match iv
    case H24 => 0
    case W1 => 1
    case W2 => 2
    case M1 => 3
    case M2 => 4
    case M3 => 5
  }

  /** The interval has ended on or before today, so it is queried. */
  predicate Elapsed(v: Video, iv: Interval, today: int)
  {
    v.publishDay + Days(iv) <= today
  }

  /** The cell the group of metric `m` gets for interval `iv`, `None` when
      it gets no column.  Not yet elapsed or an empty response: `None` cells.
      An exception from the request writes nothing.  A response row with
      fewer than five values raises `IndexError` at the first missing one,
      after the earlier metrics were written. */
  function CellFor(v: Video, m: Metric, iv: Interval, today: int, query: ReportQuery): Option<Cell>
  {
    if !Elapsed(v, iv, today) then Some(Null)
    else
      match query(v.id, v.publishDay, v.publishDay + Days(iv))
      case None => None
      case Some(rows) =>
        if rows == [] then Some(Null)
        else if MetricIndex(m) < |rows[0]| then Some(Number(rows[0][MetricIndex(m)]))
        else None
  }

  /** The column the group of metric `m` gets for interval `iv`, if any. */
  function GroupEntry(v: Video, m: Metric, iv: Interval, today: int, query: ReportQuery): seq<Column>
  {
    match CellFor(v, m, iv, today, query)
    case None => []
    case Some(c) => [Column(MetricKey(m, iv), c)]
  }

  /** The `temp_<metric>` dict of metric `m` after the first `n` intervals. */
  function Group(v: Video, m: Metric, n: nat, today: int, query: ReportQuery): seq<Column>
    requires n <= |Intervals|
  {
    if n == 0 then []
    else Group(v, m, n - 1, today, query) + GroupEntry(v, m, Intervals[n - 1], today, query)
  }

  /** The row of one video: `id`, `publish_date`, then the five groups in
      metric order. */
  function RowOf(v: Video, today: int, query: ReportQuery): Row
  {
    [Column(Id, Text(v.id)), Column(PublishDate, Text(v.publishDate))]
      + (Group(v, Views, 6, today, query)
      + (Group(v, Likes, 6, today, query)
      + (Group(v, Dislikes, 6, today, query)
      + (Group(v, Shares, 6, today, query)
      + Group(v, Comments, 6, today, query)))))
  }

  /** The value of a column, as reading the row's dict by key gives it;
      `None` when the row lacks the key. */
  function Lookup(row: Row, k: Key): Option<Cell>
  {
    if row == [] then None
    else if row[0].key == k then Some(row[0].value)
    else Lookup(row[1..], k)
  }

  /** One more interval appends each group's entry for it. */
  lemma GroupStep(v: Video, k: nat, today: int, query: ReportQuery)
    requires k < |Intervals|
    ensures Group(v, Views, k + 1, today, query) == Group(v, Views, k, today, query) + GroupEntry(v, Views, Intervals[k], today, query)
    ensures Group(v, Likes, k + 1, today, query) == Group(v, Likes, k, today, query) + GroupEntry(v, Likes, Intervals[k], today, query)
    ensures Group(v, Dislikes, k + 1, today, query) == Group(v, Dislikes, k, today, query) + GroupEntry(v, Dislikes, Intervals[k], today, query)
    ensures Group(v, Shares, k + 1, today, query) == Group(v, Shares, k, today, query) + GroupEntry(v, Shares, Intervals[k], today, query)
    ensures Group(v, Comments, k + 1, today, query) == Group(v, Comments, k, today, query) + GroupEntry(v, Comments, Intervals[k], today, query)
  {
  }

  /** Every group gets the `None` cell when the interval has not elapsed or
      the response has no rows. */
  lemma NullEntries(v: Video, iv: Interval, today: int, query: ReportQuery)
    requires !Elapsed(v, iv, today) || query(v.id, v.publishDay, v.publishDay + Days(iv)) == Some([])
    ensures GroupEntry(v, Views, iv, today, query) == [Column(MetricKey(Views, iv), Null)]
    ensures GroupEntry(v, Likes, iv, today, query) == [Column(MetricKey(Likes, iv), Null)]
    ensures GroupEntry(v, Dislikes, iv, today, query) == [Column(MetricKey(Dislikes, iv), Null)]
    ensures GroupEntry(v, Shares, iv, today, query) == [Column(MetricKey(Shares, iv), Null)]
    ensures GroupEntry(v, Comments, iv, today, query) == [Column(MetricKey(Comments, iv), Null)]
  {
  }

  /** No group gets a column when the request raises. */
  lemma RaisedEntries(v: Video, iv: Interval, today: int, query: ReportQuery)
    requires Elapsed(v, iv, today) && query(v.id, v.publishDay, v.publishDay + Days(iv)).None?
    ensures GroupEntry(v, Views, iv, today, query) == []
    ensures GroupEntry(v, Likes, iv, today, query) == []
    ensures GroupEntry(v, Dislikes, iv, today, query) == []
    ensures GroupEntry(v, Shares, iv, today, query) == []
    ensures GroupEntry(v, Comments, iv, today, query) == []
  {
  }

  /** The groups of the metrics the first response row reaches get its values. */
  lemma FetchedEntries(v: Video, iv: Interval, today: int, query: ReportQuery, rowData: seq<int>)
    requires Elapsed(v, iv, today)
    requires var response := query(v.id, v.publishDay, v.publishDay + Days(iv));
             response.Some? && response.value != [] && response.value[0] == rowData
    ensures GroupEntry(v, Views, iv, today, query) == if |rowData| > 0 then [Column(MetricKey(Views, iv), Number(rowData[0]))] else []
    ensures GroupEntry(v, Likes, iv, today, query) == if |rowData| > 1 then [Column(MetricKey(Likes, iv), Number(rowData[1]))] else []
    ensures GroupEntry(v, Dislikes, iv, today, query) == if |rowData| > 2 then [Column(MetricKey(Dislikes, iv), Number(rowData[2]))] else []
    ensures GroupEntry(v, Shares, iv, today, query) == if |rowData| > 3 then [Column(MetricKey(Shares, iv), Number(rowData[3]))] else []
    ensures GroupEntry(v, Comments, iv, today, query) == if |rowData| > 4 then [Column(MetricKey(Comments, iv), Number(rowData[4]))] else []
  {
  }

  /** Merging the five complete groups into the row that starts with the id
      and publish date gives the video's row. */
  lemma Merge(v: Video, today: int, query: ReportQuery, views: Row, likes: Row, dislikes: Row, shares: Row, comments: Row)
    requires views == Group(v, Views, 6, today, query) && likes == Group(v, Likes, 6, today, query)
    requires dislikes == Group(v, Dislikes, 6, today, query) && shares == Group(v, Shares, 6, today, query)
    requires comments == Group(v, Comments, 6, today, query)
    ensures [Column(Id, Text(v.id)), Column(PublishDate, Text(v.publishDate))]
            + views + likes + dislikes + shares + comments == RowOf(v, today, query)
  {
    var head: Row := [Column(Id, Text(v.id)), Column(PublishDate, Text(v.publishDate))];
    AppendAssoc(head + views + likes + dislikes, shares, comments);
    AppendAssoc(head + views + likes, dislikes, shares + comments);
    AppendAssoc(head + views, likes, dislikes + (shares + comments));
    AppendAssoc(head, views, likes + (dislikes + (shares + comments)));
  }

  lemma AppendAssoc(a: Row, b: Row, c: Row)
    ensures a + b + c == a + (b + c)
  {
  }

  /** The five `temp_*` dicts after the first `k` intervals. */
  predicate Temps(v: Video, k: nat, today: int, query: ReportQuery,
                  views: Row, likes: Row, dislikes: Row, shares: Row, comments: Row)
    requires k <= |Intervals|
  {
    && views == Group(v, Views, k, today, query) && likes == Group(v, Likes, k, today, query)
    && dislikes == Group(v, Dislikes, k, today, query) && shares == Group(v, Shares, k, today, query)
    && comments == Group(v, Comments, k, today, query)
  }

  lemma NullStep(v: Video, k: nat, today: int, query: ReportQuery,
                 views: Row, likes: Row, dislikes: Row, shares: Row, comments: Row)
    requires k < |Intervals| && Temps(v, k, today, query, views, likes, dislikes, shares, comments)
    requires var iv := Intervals[k];
             !Elapsed(v, iv, today) || query(v.id, v.publishDay, v.publishDay + Days(iv)) == Some([])
    ensures var iv := Intervals[k];
            Temps(v, k + 1, today, query,
                  views + [Column(MetricKey(Views, iv), Null)], likes + [Column(MetricKey(Likes, iv), Null)],
                  dislikes + [Column(MetricKey(Dislikes, iv), Null)], shares + [Column(MetricKey(Shares, iv), Null)],
                  comments + [Column(MetricKey(Comments, iv), Null)])
  {
    GroupStep(v, k, today, query);
    NullEntries(v, Intervals[k], today, query);
  }

  lemma RaisedStep(v: Video, k: nat, today: int, query: ReportQuery,
                   views: Row, likes: Row, dislikes: Row, shares: Row, comments: Row)
    requires k < |Intervals| && Temps(v, k, today, query, views, likes, dislikes, shares, comments)
    requires var iv := Intervals[k];
             Elapsed(v, iv, today) && query(v.id, v.publishDay, v.publishDay + Days(iv)).None?
    ensures Temps(v, k + 1, today, query, views, likes, dislikes, shares, comments)
  {
    GroupStep(v, k, today, query);
    RaisedEntries(v, Intervals[k], today, query);
  }

  lemma FetchedStep(v: Video, k: nat, today: int, query: ReportQuery, rowData: seq<int>,
                    views: Row, likes: Row, dislikes: Row, shares: Row, comments: Row)
    requires k < |Intervals| && Temps(v, k, today, query, views, likes, dislikes, shares, comments)
    requires var iv := Intervals[k];
             var response := query(v.id, v.publishDay, v.publishDay + Days(iv));
             Elapsed(v, iv, today) && response.Some? && response.value != [] && response.value[0] == rowData
    ensures var iv := Intervals[k];
            var views' := if |rowData| > 0 then views + [Column(MetricKey(Views, iv), Number(rowData[0]))] else views;
            var likes' := if |rowData| > 1 then likes + [Column(MetricKey(Likes, iv), Number(rowData[1]))] else likes;
            var dislikes' := if |rowData| > 2 then dislikes + [Column(MetricKey(Dislikes, iv), Number(rowData[2]))] else dislikes;
            var shares' := if |rowData| > 3 then shares + [Column(MetricKey(Shares, iv), Number(rowData[3]))] else shares;
            var comments' := if |rowData| > 4 then comments + [Column(MetricKey(Comments, iv), Number(rowData[4]))] else comments;
      && (|rowData| == 0 ==> Temps(v, k + 1, today, query, views, likes, dislikes, shares, comments))
      && (|rowData| == 1 ==> Temps(v, k + 1, today, query, views', likes, dislikes, shares, comments))
      && (|rowData| == 2 ==> Temps(v, k + 1, today, query, views', likes', dislikes, shares, comments))
      && (|rowData| == 3 ==> Temps(v, k + 1, today, query, views', likes', dislikes', shares, comments))
      && (|rowData| == 4 ==> Temps(v, k + 1, today, query, views', likes', dislikes', shares', comments))
      && (|rowData| >= 5 ==> Temps(v, k + 1, today, query, views', likes', dislikes', shares', comments'))
  {
    GroupStep(v, k, today, query);
    FetchedEntries(v, Intervals[k], today, query, rowData);
  }

  // ---------------------------------------------------------------------
  // The method
  // ---------------------------------------------------------------------

  /** `get_metrics_over_time`: one row per video, in input order. */
  method GetMetricsOverTime(videos: seq<Video>, today: int, query: ReportQuery) returns (analyticsData: seq<Row>)
    ensures |analyticsData| == |videos|
    ensures forall i :: 0 <= i < |videos| ==> analyticsData[i] == RowOf(videos[i], today, query)
  {
    analyticsData := [];
    for i := 0 to |videos|
      invariant |analyticsData| == i
      invariant forall p :: 0 <= p < i ==> analyticsData[p] == RowOf(videos[p], today, query)
    {
      var videoData := VideoRow(videos[i], today, query);
      analyticsData := analyticsData + [videoData];
    }
  }

  /** The body of the loop over the videos: the interval loop filling the
      five `temp_*` dicts, then the merge into `video_data`. */
  method VideoRow(v: Video, today: int, query: ReportQuery) returns (videoData: Row)
    ensures videoData == RowOf(v, today, query)
  {
    var tempViews, tempLikes, tempDislikes, tempShares, tempComments := [], [], [], [], [];
    for k := 0 to |Intervals|
      invariant Temps(v, k, today, query, tempViews, tempLikes, tempDislikes, tempShares, tempComments)
    {
      var iv := Intervals[k];
      var analyticsDate := v.publishDay + Days(iv);
      if analyticsDate > today {
        NullStep(v, k, today, query, tempViews, tempLikes, tempDislikes, tempShares, tempComments);
        tempViews := tempViews + [Column(MetricKey(Views, iv), Null)];
        tempLikes := tempLikes + [Column(MetricKey(Likes, iv), Null)];
        tempDislikes := tempDislikes + [Column(MetricKey(Dislikes, iv), Null)];
        tempShares := tempShares + [Column(MetricKey(Shares, iv), Null)];
        tempComments := tempComments + [Column(MetricKey(Comments, iv), Null)];
        continue;
      }
      var response := query(v.id, v.publishDay, analyticsDate);
      if response.None? {
        // the exception is reported and the interval gets no column
        RaisedStep(v, k, today, query, tempViews, tempLikes, tempDislikes, tempShares, tempComments);
        continue;
      }
      if |response.value| == 0 {
        NullStep(v, k, today, query, tempViews, tempLikes, tempDislikes, tempShares, tempComments);
        tempViews := tempViews + [Column(MetricKey(Views, iv), Null)];
        tempLikes := tempLikes + [Column(MetricKey(Likes, iv), Null)];
        tempDislikes := tempDislikes + [Column(MetricKey(Dislikes, iv), Null)];
        tempShares := tempShares + [Column(MetricKey(Shares, iv), Null)];
        tempComments := tempComments + [Column(MetricKey(Comments, iv), Null)];
        continue;
      }
      // each `row_data[p]` past the end raises IndexError, ending the interval
      var rowData := response.value[0];
      FetchedStep(v, k, today, query, rowData, tempViews, tempLikes, tempDislikes, tempShares, tempComments);
      if |rowData| <= 0 { continue; }
      tempViews := tempViews + [Column(MetricKey(Views, iv), Number(rowData[0]))];
      if |rowData| <= 1 { continue; }
      tempLikes := tempLikes + [Column(MetricKey(Likes, iv), Number(rowData[1]))];
      if |rowData| <= 2 { continue; }
      tempDislikes := tempDislikes + [Column(MetricKey(Dislikes, iv), Number(rowData[2]))];
      if |rowData| <= 3 { continue; }
      tempShares := tempShares + [Column(MetricKey(Shares, iv), Number(rowData[3]))];
      if |rowData| <= 4 { continue; }
      tempComments := tempComments + [Column(MetricKey(Comments, iv), Number(rowData[4]))];
    }
    Merge(v, today, query, tempViews, tempLikes, tempDislikes, tempShares, tempComments);
    videoData := [Column(Id, Text(v.id)), Column(PublishDate, Text(v.publishDate))];
    videoData := videoData + tempViews;
    videoData := videoData + tempLikes;
    videoData := videoData + tempDislikes;
    videoData := videoData + tempShares;
    videoData := videoData + tempComments;
  }

  // ---------------------------------------------------------------------
  // Reading cells back
  // ---------------------------------------------------------------------

  lemma {:induction false} LookupAppend(a: Row, b: Row, k: Key)
    ensures Lookup(a + b, k) == if Lookup(a, k).Some? then Lookup(a, k) else Lookup(b, k)
  {
    if a != [] {
      assert (a + b)[1..] == a[1..] + b;
      LookupAppend(a[1..], b, k);
    } else {
      assert a + b == b;
    }
  }

  lemma {:induction false} LookupMissing(row: Row, k: Key)
    requires forall p :: 0 <= p < |row| ==> row[p].key != k
    ensures Lookup(row, k).None?
  {
    if row != [] {
      LookupMissing(row[1..], k);
    }
  }

  /** The columns of a group all belong to its metric, each interval is one
      of those processed so far, and the intervals follow table order. */
  lemma {:induction false} GroupKeys(v: Video, m: Metric, n: nat, today: int, query: ReportQuery)
    requires n <= |Intervals|
    ensures var g := Group(v, m, n, today, query);
      && |g| <= n
      && (forall p :: 0 <= p < |g| ==> g[p].key.MetricKey? && g[p].key.metric == m
                                       && IntervalIndex(g[p].key.interval) < n)
      && (forall p, q :: 0 <= p < q < |g| ==>
                         IntervalIndex(g[p].key.interval) < IntervalIndex(g[q].key.interval))
  {
    if n > 0 {
      GroupKeys(v, m, n - 1, today, query);
    }
  }

  /** Reading the group of metric `m` at interval `iv` gives the interval's
      cell once the interval has been processed. */
  lemma {:induction false} GroupLookup(v: Video, m: Metric, n: nat, iv: Interval, today: int, query: ReportQuery)
    requires n <= |Intervals|
    ensures Lookup(Group(v, m, n, today, query), MetricKey(m, iv)) ==
            if IntervalIndex(iv) < n then CellFor(v, m, iv, today, query) else None
  {
    if n > 0 {
      var prev := Group(v, m, n - 1, today, query);
      var entry := GroupEntry(v, m, Intervals[n - 1], today, query);
      GroupLookup(v, m, n - 1, iv, today, query);
      LookupAppend(prev, entry, MetricKey(m, iv));
      if IntervalIndex(iv) != n - 1 && entry != [] {
        assert entry[0].key != MetricKey(m, iv);
        LookupMissing(entry, MetricKey(m, iv));
      }
    }
  }

  /** Reading a full group for a key of another column gives nothing. */
  lemma GroupLookupOther(v: Video, m: Metric, k: Key, today: int, query: ReportQuery)
    requires !(k.MetricKey? && k.metric == m)
    ensures Lookup(Group(v, m, 6, today, query), k).None?
  {
    GroupKeys(v, m, 6, today, query);
    LookupMissing(Group(v, m, 6, today, query), k);
  }

  /** The row holds the video's id and publish date, and for each metric
      and interval exactly the cell that interval produced. */
  lemma RowLookup(v: Video, m: Metric, iv: Interval, today: int, query: ReportQuery)
    ensures Lookup(RowOf(v, today, query), Id) == Some(Text(v.id))
    ensures Lookup(RowOf(v, today, query), PublishDate) == Some(Text(v.publishDate))
    ensures Lookup(RowOf(v, today, query), MetricKey(m, iv)) == CellFor(v, m, iv, today, query)
  {
    var head: Row := [Column(Id, Text(v.id)), Column(PublishDate, Text(v.publishDate))];
    var g0, g1, g2, g3, g4 := Group(v, Views, 6, today, query), Group(v, Likes, 6, today, query),
      Group(v, Dislikes, 6, today, query), Group(v, Shares, 6, today, query), Group(v, Comments, 6, today, query);
    var k := MetricKey(m, iv);
    LookupAppend(head, g0 + (g1 + (g2 + (g3 + g4))), k);
    LookupAppend(g0, g1 + (g2 + (g3 + g4)), k);
    LookupAppend(g1, g2 + (g3 + g4), k);
    LookupAppend(g2, g3 + g4, k);
    LookupAppend(g3, g4, k);
    forall other | other != m
      ensures Lookup(Group(v, other, 6, today, query), k).None?
    {
      GroupLookupOther(v, other, k, today, query);
    }
    GroupLookup(v, m, 6, iv, today, query);
  }

  /** The cell of metric `m` at interval `iv` in a video's row, case by case:
      not yet elapsed (`publish_date + days > today`) gives `None`; an
      interval ending on or before today is queried, and then an exception
      leaves the column out, an empty response gives `None`, and a response
      row gives its value at the metric's position, or leaves the column out
      when the row is too short. */
  lemma MetricCell(v: Video, m: Metric, iv: Interval, today: int, query: ReportQuery)
    ensures var cell := Lookup(RowOf(v, today, query), MetricKey(m, iv));
            var response := query(v.id, v.publishDay, v.publishDay + Days(iv));
      && (v.publishDay + Days(iv) > today ==> cell == Some(Null))
      && (v.publishDay + Days(iv) <= today ==>
            && (response.None? ==> cell.None?)
            && (response == Some([]) ==> cell == Some(Null))
            && (response.Some? && response.value != [] ==>
                  cell == if MetricIndex(m) < |response.value[0]|
                          then Some(Number(response.value[0][MetricIndex(m)])) else None))
  {
    RowLookup(v, m, iv, today, query);
  }

  // ---------------------------------------------------------------------
  // No query for an interval that has not elapsed
  // ---------------------------------------------------------------------

  lemma EntryIndependent(v: Video, m: Metric, iv: Interval, today: int, q1: ReportQuery, q2: ReportQuery)
    requires Elapsed(v, iv, today) ==>
               q1(v.id, v.publishDay, v.publishDay + Days(iv)) == q2(v.id, v.publishDay, v.publishDay + Days(iv))
    ensures GroupEntry(v, m, iv, today, q1) == GroupEntry(v, m, iv, today, q2)
  {
  }

  lemma {:induction false} GroupIndependent(v: Video, m: Metric, n: nat, today: int, q1: ReportQuery, q2: ReportQuery)
    requires n <= |Intervals|
    requires forall iv :: Elapsed(v, iv, today) ==>
               q1(v.id, v.publishDay, v.publishDay + Days(iv)) == q2(v.id, v.publishDay, v.publishDay + Days(iv))
    ensures Group(v, m, n, today, q1) == Group(v, m, n, today, q2)
  {
    if n > 0 {
      GroupIndependent(v, m, n - 1, today, q1, q2);
      EntryIndependent(v, m, Intervals[n - 1], today, q1, q2);
    }
  }

  /** The row depends on the report request only at the intervals that have
      elapsed: the others are never queried. */
  lemma QueriedOnlyWhenElapsed(v: Video, today: int, q1: ReportQuery, q2: ReportQuery)
    requires forall iv :: Elapsed(v, iv, today) ==>
               q1(v.id, v.publishDay, v.publishDay + Days(iv)) == q2(v.id, v.publishDay, v.publishDay + Days(iv))
    ensures RowOf(v, today, q1) == RowOf(v, today, q2)
  {
    forall m {
      GroupIndependent(v, m, 6, today, q1, q2);
    }
  }

  // ---------------------------------------------------------------------
  // Column order
  // ---------------------------------------------------------------------

  /** The position a key has in the complete row: `id`, `publish_date`, then
      the metric groups in order, each in interval order. */
  function Rank(k: Key): nat
  {
    match k
    case Id => 0
    case PublishDate => 1
    case MetricKey(m, iv) => 2 + 6 * MetricIndex(m) + IntervalIndex(iv)
  }

  /** The key at a position of the complete row. */
  function SchemaKey(p: nat): Key
    requires p < 32
  {
    if p == 0 then Id
    else if p == 1 then PublishDate
    else MetricKey(Metrics[(p - 2) / 6], Intervals[(p - 2) % 6])
  }

  lemma SplitSix(i: nat, j: nat)
    requires j < 6
    ensures (6 * i + j) / 6 == i && (6 * i + j) % 6 == j
  {
  }

  /** Every key has its own position: the order is total and without ties. */
  lemma SchemaKeyOfRank(k: Key)
    ensures Rank(k) < 32 && SchemaKey(Rank(k)) == k
  {
    if k.MetricKey? {
      SplitSix(MetricIndex(k.metric), IntervalIndex(k.interval));
    }
  }

  /** Every position of the complete row holds the key of that rank, so
      positions and keys correspond one to one. */
  lemma RankOfSchemaKey(p: nat)
    requires p < 32
    ensures Rank(SchemaKey(p)) == p
  {
  }

  predicate Increasing(row: Row)
  {
    forall p, q :: 0 <= p < q < |row| ==> Rank(row[p].key) < Rank(row[q].key)
  }

  lemma IncreasingAppend(a: Row, b: Row, bound: int)
    requires Increasing(a) && Increasing(b)
    requires forall p :: 0 <= p < |a| ==> Rank(a[p].key) < bound
    requires forall p :: 0 <= p < |b| ==> bound <= Rank(b[p].key)
    ensures Increasing(a + b)
  {
    forall p, q | 0 <= p < q < |a + b|
      ensures Rank((a + b)[p].key) < Rank((a + b)[q].key)
    {
      if q < |a| {
        assert (a + b)[p] == a[p] && (a + b)[q] == a[q];
      } else if p >= |a| {
        assert (a + b)[p] == b[p - |a|] && (a + b)[q] == b[q - |a|];
      } else {
        assert (a + b)[p] == a[p] && (a + b)[q] == b[q - |a|];
      }
    }
  }

  /** A group's columns are in interval order and sit in its metric's block. */
  lemma GroupRanks(v: Video, m: Metric, today: int, query: ReportQuery)
    ensures var g := Group(v, m, 6, today, query);
      && Increasing(g)
      && forall p :: 0 <= p < |g| ==> 2 + 6 * MetricIndex(m) <= Rank(g[p].key) < 8 + 6 * MetricIndex(m)
  {
    GroupKeys(v, m, 6, today, query);
  }

  lemma BlockRanks(a: Row, b: Row, lo: int)
    requires forall p :: 0 <= p < |a| ==> lo <= Rank(a[p].key)
    requires forall p :: 0 <= p < |b| ==> lo <= Rank(b[p].key)
    ensures forall p :: 0 <= p < |a + b| ==> lo <= Rank((a + b)[p].key)
  {
    forall p | 0 <= p < |a + b|
      ensures lo <= Rank((a + b)[p].key)
    {
      if p < |a| {
        assert (a + b)[p] == a[p];
      } else {
        assert (a + b)[p] == b[p - |a|];
      }
    }
  }

  /** The merge keeps `id` and `publish_date` first, then all views, likes,
      dislikes, shares and comments columns, each group in interval order;
      in particular no key appears twice, so every `update` only appends. */
  lemma RowKeyOrder(v: Video, today: int, query: ReportQuery)
    ensures Increasing(RowOf(v, today, query))
    ensures var row := RowOf(v, today, query);
            forall p, q :: 0 <= p < q < |row| ==> row[p].key != row[q].key
  {
    var head: Row := [Column(Id, Text(v.id)), Column(PublishDate, Text(v.publishDate))];
    var g0, g1, g2, g3, g4 := Group(v, Views, 6, today, query), Group(v, Likes, 6, today, query),
      Group(v, Dislikes, 6, today, query), Group(v, Shares, 6, today, query), Group(v, Comments, 6, today, query);
    GroupRanks(v, Views, today, query);
    GroupRanks(v, Likes, today, query);
    GroupRanks(v, Dislikes, today, query);
    GroupRanks(v, Shares, today, query);
    GroupRanks(v, Comments, today, query);
    IncreasingAppend(g3, g4, 26);
    BlockRanks(g3, g4, 20);
    IncreasingAppend(g2, g3 + g4, 20);
    BlockRanks(g2, g3 + g4, 14);
    IncreasingAppend(g1, g2 + (g3 + g4), 14);
    BlockRanks(g1, g2 + (g3 + g4), 8);
    IncreasingAppend(g0, g1 + (g2 + (g3 + g4)), 8);
    BlockRanks(g0, g1 + (g2 + (g3 + g4)), 2);
    IncreasingAppend(head, g0 + (g1 + (g2 + (g3 + g4))), 2);
  }

  /** With every interval contributing a cell, each group is complete. */
  lemma {:induction false} GroupComplete(v: Video, m: Metric, n: nat, today: int, query: ReportQuery)
    requires n <= |Intervals|
    requires forall iv :: CellFor(v, m, iv, today, query).Some?
    ensures |Group(v, m, n, today, query)| == n
  {
    if n > 0 {
      GroupComplete(v, m, n - 1, today, query);
    }
  }

  lemma {:induction false} RankAtLeastPosition(row: Row, p: nat)
    requires Increasing(row) && p < |row|
    ensures p <= Rank(row[p].key)
  {
    if p > 0 {
      RankAtLeastPosition(row, p - 1);
    }
  }

  lemma {:induction false} RankAtMostPosition(row: Row, p: nat)
    requires Increasing(row) && p < |row|
    ensures Rank(row[p].key) + (|row| - 1 - p) <= Rank(row[|row| - 1].key)
    decreases |row| - p
  {
    if p < |row| - 1 {
      RankAtMostPosition(row, p + 1);
    }
  }

  /** A row of 32 columns in increasing key order is the complete schema. */
  lemma SchemaOrder(row: Row)
    requires Increasing(row) && |row| == 32
    ensures forall p :: 0 <= p < 32 ==> row[p].key == SchemaKey(p)
  {
    SchemaKeyOfRank(row[31].key);
    forall p | 0 <= p < 32
      ensures row[p].key == SchemaKey(p)
    {
      RankAtLeastPosition(row, p);
      RankAtMostPosition(row, p);
      SchemaKeyOfRank(row[p].key);
    }
  }

  /** When no request raises and no response row is short, the row has all
      32 columns, exactly in schema order. */
  lemma FullSchema(v: Video, today: int, query: ReportQuery)
    requires forall m, iv :: CellFor(v, m, iv, today, query).Some?
    ensures var row := RowOf(v, today, query);
      && |row| == 32
      && forall p :: 0 <= p < 32 ==> row[p].key == SchemaKey(p)
  {
    GroupComplete(v, Views, 6, today, query);
    GroupComplete(v, Likes, 6, today, query);
    GroupComplete(v, Dislikes, 6, today, query);
    GroupComplete(v, Shares, 6, today, query);
    GroupComplete(v, Comments, 6, today, query);
    RowKeyOrder(v, today, query);
    SchemaOrder(RowOf(v, today, query));
  }

  /** A video published today (or later) has every interval still open:
      its row has the full schema and every metric cell is `None`. */
  lemma PublishedTodayAllNull(v: Video, today: int, query: ReportQuery)
    requires today <= v.publishDay
    ensures |RowOf(v, today, query)| == 32
    ensures forall m, iv :: Lookup(RowOf(v, today, query), MetricKey(m, iv)) == Some(Null)
  {
    FullSchema(v, today, query);
    forall m, iv
      ensures Lookup(RowOf(v, today, query), MetricKey(m, iv)) == Some(Null)
    {
      RowLookup(v, m, iv, today, query);
    }
  }
}
