/**
 * lib/youtube.py, `get_generic_info`: one data-API request for all the given
 * video ids, and one record per returned item, with the share count looked
 * up separately and missing counters read as zero.
 */
module VideoInfo {
  import opened Wrappers
  import opened Decimal
  import Helpers

  /** One item of the `videos().list` response: the fields the record uses. */
  datatype VideoItem = VideoItem(
    id: string,
    title: string,
    publishedAt: string,
    duration: string,
    statistics: map<string, string>)

  /** One row of the returned table (indexed by `id`). */
  datatype VideoRecord = VideoRecord(
    id: string,
    title: string,
    publishDate: string,
    duration: string,
    views: int,
    likes: int,
    dislikes: int,
    shares: Option<int>,
    comments: int)

  /** The `videos().list(...).execute()` request for a comma-separated id
      list: `None` when it raises, otherwise the response's items (`[]` when
      the response has none). */
  type VideosRequest = string -> Option<seq<VideoItem>>

  /** `get_shares(video_id, publish_date)`: `None` on an empty response or an
      error, both of which it handles itself. */
  type SharesLookup = (string, string) -> Option<int>

  /** `isodate.parse_duration` and `int(total_seconds())`, `None` if either raises. */
  type DurationParser = string -> Option<int>

  /** `','.join(ids)`. */
  function JoinIds(ids: seq<string>): string
  {
    if |ids| == 0 then ""
    else if |ids| == 1 then ids[0]
    else JoinIds(ids[..|ids| - 1]) + "," + ids[|ids| - 1]
  }

  /** Splits a text at every comma (the inverse of `JoinIds`). */
  function SplitIds(s: string): (r: seq<string>)
    ensures |r| >= 1
    decreases |s|
  {
    if ',' !in s then [s]
    else
      var i := LastComma(s);
      SplitIds(s[..i]) + [s[i + 1..]]
  }

  function LastComma(s: string): (i: nat)
    requires ',' in s
    ensures i < |s| && s[i] == ',' && ',' !in s[i + 1..]
    decreases |s|
  {
    if s[|s| - 1] == ',' then |s| - 1
    else
      var i := LastComma(s[..|s| - 1]);
      assert s[i + 1..] == s[..|s| - 1][i + 1..] + [s[|s| - 1]];
      i
  }

  predicate NoComma(ids: seq<string>) {
    forall k :: 0 <= k < |ids| ==> ',' !in ids[k]
  }

  /** The single request carries every id: splitting its id parameter at the
      commas gives the id list back (ids themselves contain no comma). */
  lemma {:induction false} JoinSplit(ids: seq<string>)
    requires ids != [] && NoComma(ids)
    ensures SplitIds(JoinIds(ids)) == ids
  {
    if |ids| > 1 {
      var prev, last := ids[..|ids| - 1], ids[|ids| - 1];
      var s := JoinIds(ids);
      var joined := JoinIds(prev);
      assert s == joined + "," + last;
      assert ',' in s by { assert s[|joined|] == ','; }
      assert ',' !in last;
      assert LastComma(s) == |joined| by {
        LastCommaOf(joined, last);
      }
      assert s[..|joined|] == joined && s[|joined| + 1..] == last;
      JoinSplit(prev);
      assert ids == prev + [last];
    }
  }

  lemma LastCommaOf(head: string, last: string)
    requires ',' !in last
    ensures ',' in head + "," + last && LastComma(head + "," + last) == |head|
  {
    var s := head + "," + last;
    assert s[|head|] == ',';
    var i := LastComma(s);
  }

  /** `int(item['statistics'].get(key, 0))`: a missing counter reads as 0; a
      present one is parsed, and a string `int` rejects raises. */
  function Counter(statistics: map<string, string>, key: string): Option<int>
  {
    if key in statistics then ParseInt(statistics[key]) else Some(0)
  }

  /** The record `get_generic_info` appends for one item, or `None` when
      building it raises. */
  function RecordOf(item: VideoItem, shares: SharesLookup, parse: DurationParser): Option<VideoRecord>
  {
    var stats := item.statistics;
    match (Counter(stats, "viewCount"), Counter(stats, "likeCount"),
           Counter(stats, "dislikeCount"), Counter(stats, "commentCount"))
    case (Some(views), Some(likes), Some(dislikes), Some(comments)) =>
      Some(VideoRecord(item.id, item.title, item.publishedAt,
                       Helpers.ParseDuration(item.duration, parse),
                       views, likes, dislikes, shares(item.id, item.publishedAt), comments))
    case _ => None
  }

  /** The records of all items, in order; `None` as soon as one of them raises. */
  function RecordsOf(items: seq<VideoItem>, shares: SharesLookup, parse: DurationParser): Option<seq<VideoRecord>>
  {
    if items == [] then Some([])
    else
      match RecordsOf(items[..|items| - 1], shares, parse)
      case None => None
      case Some(records) =>
        match RecordOf(items[|items| - 1], shares, parse)
        case None => None
        case Some(record) => Some(records + [record])
  }

  /** What `get_generic_info(video_ids)` returns: `None` when the request
      raises, when it finds no items, or when building a record raises. */
  function GenericInfo(videoIds: seq<string>, request: VideosRequest, shares: SharesLookup,
                       parse: DurationParser): Option<seq<VideoRecord>>
  {
    match request(JoinIds(videoIds))
    case None => None
    case Some(items) => if items == [] then None else RecordsOf(items, shares, parse)
  }

  /** `get_generic_info`. */
  method GetGenericInfo(videoIds: seq<string>, request: VideosRequest, shares: SharesLookup,
                        parse: DurationParser) returns (table: Option<seq<VideoRecord>>)
    ensures table == GenericInfo(videoIds, request, shares, parse)
  {
    var response := request(JoinIds(videoIds));
    if response.None? {
      return None;
    }
    var items := response.value;
    if |items| == 0 {
      return None;
    }
    var videoData := [];
    for k := 0 to |items|
      invariant RecordsOf(items[..k], shares, parse) == Some(videoData)
    {
      assert items[..k + 1][..k] == items[..k];
      var item := items[k];
      var videoShares := shares(item.id, item.publishedAt);
      var views := Counter(item.statistics, "viewCount");
      var likes := Counter(item.statistics, "likeCount");
      var dislikes := Counter(item.statistics, "dislikeCount");
      var comments := Counter(item.statistics, "commentCount");
      if views.None? || likes.None? || dislikes.None? || comments.None? {
        RecordsNonePropagates(items, k + 1, shares, parse);
        return None;
      }
      videoData := videoData + [VideoRecord(item.id, item.title, item.publishedAt,
                                            Helpers.ParseDuration(item.duration, parse),
                                            views.value, likes.value, dislikes.value,
                                            videoShares, comments.value)];
    }
    assert items[..|items|] == items;
    table := Some(videoData);
  }

  /** An item that raises makes the whole call fail. */
  lemma {:induction false} RecordsNonePropagates(items: seq<VideoItem>, k: nat, shares: SharesLookup, parse: DurationParser)
    requires k <= |items| && RecordsOf(items[..k], shares, parse).None?
    ensures RecordsOf(items, shares, parse).None?
    decreases |items|
  {
    if k < |items| {
      var prev := items[..|items| - 1];
      assert prev[..k] == items[..k];
      RecordsNonePropagates(prev, k, shares, parse);
    } else {
      assert items[..k] == items;
    }
  }

  /** One record per item, in item order, each built from its own item. */
  lemma {:induction false} RecordsInOrder(items: seq<VideoItem>, shares: SharesLookup, parse: DurationParser, k: nat)
    requires RecordsOf(items, shares, parse).Some? && k < |items|
    ensures |RecordsOf(items, shares, parse).value| == |items|
    ensures RecordOf(items[k], shares, parse) == Some(RecordsOf(items, shares, parse).value[k])
    decreases |items|
  {
    var prev := items[..|items| - 1];
    if k < |prev| {
      RecordsInOrder(prev, shares, parse, k);
    } else if prev != [] {
      RecordsInOrder(prev, shares, parse, 0);
    }
  }

  /** Every item can be turned into a record. */
  predicate AllBuild(items: seq<VideoItem>, shares: SharesLookup, parse: DurationParser)
  {
    forall k :: 0 <= k < |items| ==> RecordOf(items[k], shares, parse).Some?
  }

  /** The call yields records exactly when no item raises. */
  lemma {:induction false} RecordsFailOnlyOnBadItem(items: seq<VideoItem>, shares: SharesLookup, parse: DurationParser)
    ensures RecordsOf(items, shares, parse).Some? <==> AllBuild(items, shares, parse)
    decreases |items|
  {
    if items != [] {
      var prev := items[..|items| - 1];
      RecordsFailOnlyOnBadItem(prev, shares, parse);
      if RecordsOf(items, shares, parse).Some? {
        forall k | 0 <= k < |items|
          ensures RecordOf(items[k], shares, parse).Some?
        {
          if k < |prev| {
            assert items[k] == prev[k];
          }
        }
      }
      if AllBuild(items, shares, parse) {
        forall k | 0 <= k < |prev|
          ensures RecordOf(prev[k], shares, parse).Some?
        {
          assert prev[k] == items[k];
        }
        assert RecordOf(items[|items| - 1], shares, parse).Some?;
      }
    }
  }

  /** What one record holds: the item's id, title and publish date, the
      formatted duration, the looked-up shares (`None` stays `None`, never 0),
      and each counter parsed, or 0 when the item lacks it. */
  lemma RecordFields(item: VideoItem, shares: SharesLookup, parse: DurationParser)
    requires RecordOf(item, shares, parse).Some?
    ensures var r := RecordOf(item, shares, parse).value;
      && r.id == item.id && r.title == item.title && r.publishDate == item.publishedAt
      && r.shares == shares(item.id, item.publishedAt)
      && r.duration == Helpers.ParseDuration(item.duration, parse)
      && (r.duration == "N/A" <==> parse(item.duration).None?)
      && ("viewCount" !in item.statistics ==> r.views == 0)
      && ("likeCount" !in item.statistics ==> r.likes == 0)
      && ("dislikeCount" !in item.statistics ==> r.dislikes == 0)
      && ("commentCount" !in item.statistics ==> r.comments == 0)
      && ("viewCount" in item.statistics ==> ParseInt(item.statistics["viewCount"]) == Some(r.views))
      && ("likeCount" in item.statistics ==> ParseInt(item.statistics["likeCount"]) == Some(r.likes))
      && ("dislikeCount" in item.statistics ==> ParseInt(item.statistics["dislikeCount"]) == Some(r.dislikes))
      && ("commentCount" in item.statistics ==> ParseInt(item.statistics["commentCount"]) == Some(r.comments))
  {
  }

  /** A counter given as plain decimal digits is read as its value. */
  lemma CounterReadsDigits(statistics: map<string, string>, key: string, n: nat)
    requires key in statistics && statistics[key] == FromNat(n)
    ensures Counter(statistics, key) == Some(n)
  {
    ParseFromNat(n);
  }

  /** The whole call fails exactly when the request raises, returns no
      items, or some item cannot be turned into a record. */
  lemma GenericInfoNone(videoIds: seq<string>, request: VideosRequest, shares: SharesLookup, parse: DurationParser)
    ensures GenericInfo(videoIds, request, shares, parse).None? <==>
      || request(JoinIds(videoIds)).None?
      || request(JoinIds(videoIds)).value == []
      || exists k :: 0 <= k < |request(JoinIds(videoIds)).value| &&
                     RecordOf(request(JoinIds(videoIds)).value[k], shares, parse).None?
  {
    if request(JoinIds(videoIds)).Some? {
      RecordsFailOnlyOnBadItem(request(JoinIds(videoIds)).value, shares, parse);
    }
  }
}
