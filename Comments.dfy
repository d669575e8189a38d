/**
 * lib/youtube.py, `get_video_comments`: for each video, page through its
 * comment threads with the continuation token and flatten every thread into
 * its top-level comment followed by its replies, each reply pointing back at
 * the thread.
 */
module Comments {
  import opened Wrappers

  /** The snippet fields a record copies. */
  datatype Snippet = Snippet(author: string, publishedAt: string, likeCount: int, text: string)

  datatype Reply = Reply(id: string, snippet: Snippet)

  /** A comment thread: its id, its top-level comment, and its `replies`
      (`None` when the item has no `replies` key). */
  datatype Thread = Thread(id: string, topLevel: Snippet, replies: Option<seq<Reply>>)

  /** One response page: its `items` (`None` when the key is absent) and its
      `nextPageToken`. */
  datatype Page = Page(items: Option<seq<Thread>>, nextPageToken: Option<string>)

  /** One row of the returned table. */
  datatype CommentRecord = CommentRecord(
    videoId: string,
    commentId: string,
    parentCommentId: Option<string>,
    author: string,
    publishedAt: string,
    likeCount: int,
    commentNl: string,
    isReply: bool)

  /** The `commentThreads().list(...).execute()` request for a video and a
      page token: `None` when it raises. */
  type ThreadsRequest = (string, Option<string>) -> Option<Page>

  function TopLevelRecord(videoId: string, t: Thread): CommentRecord
  {
    CommentRecord(videoId, t.id, None, t.topLevel.author, t.topLevel.publishedAt,
                  t.topLevel.likeCount, t.topLevel.text, false)
  }

  function ReplyRecord(videoId: string, parentId: string, r: Reply): CommentRecord
  {
    CommentRecord(videoId, r.id, Some(parentId), r.snippet.author, r.snippet.publishedAt,
                  r.snippet.likeCount, r.snippet.text, true)
  }

  /** The records of a thread's replies, in reply order. */
  function ReplyRecords(videoId: string, parentId: string, replies: seq<Reply>): seq<CommentRecord>
  {
    if replies == [] then []
    else ReplyRecords(videoId, parentId, replies[..|replies| - 1])
         + [ReplyRecord(videoId, parentId, replies[|replies| - 1])]
  }

  /** A thread's records: its top-level comment, then its replies. */
  function ThreadRecords(videoId: string, t: Thread): seq<CommentRecord>
  {
    [TopLevelRecord(videoId, t)]
      + (if t.replies.Some? then ReplyRecords(videoId, t.id, t.replies.value) else [])
  }

  /** The records of a page's threads, in item order. */
  function ItemRecords(videoId: string, items: seq<Thread>): seq<CommentRecord>
  {
    if items == [] then []
    else ItemRecords(videoId, items[..|items| - 1]) + ThreadRecords(videoId, items[|items| - 1])
  }

  function PageRecords(videoId: string, page: Page): seq<CommentRecord>
  {
    if page.items.Some? then ItemRecords(videoId, page.items.value) else []
  }

  /** `not next_page_token` is false: a token that is present and non-empty. */
  predicate HasNext(token: Option<string>)
  {
    token.Some? && token.value != ""
  }

  /** The `while True` loop of a video stops within `n` requests: a request
      raises, or its page carries no further token. */
  predicate EndsWithin(request: ThreadsRequest, videoId: string, token: Option<string>, n: nat)
    decreases n
  {
    n > 0 &&
    match request(videoId, token)
    case None => true
    case Some(page) => !HasNext(page.nextPageToken) || EndsWithin(request, videoId, page.nextPageToken, n - 1)
  }

  /** The records of one video from the page at `token` on, reading at most
      `n` pages: each page's records, then the next page while a token is
      returned; a request that raises ends the video. */
  function VideoRecords(request: ThreadsRequest, videoId: string, token: Option<string>, n: nat): seq<CommentRecord>
    decreases n
  {
    if n == 0 then []
    else
      match request(videoId, token)
      case None => []
      case Some(page) =>
        PageRecords(videoId, page)
          + (if HasNext(page.nextPageToken) then VideoRecords(request, videoId, page.nextPageToken, n - 1) else [])
  }

  /** The records of all videos, in video order. */
  function AllRecords(request: ThreadsRequest, videoIds: seq<string>, n: nat): seq<CommentRecord>
  {
    if videoIds == [] then []
    else AllRecords(request, videoIds[..|videoIds| - 1], n)
         + VideoRecords(request, videoIds[|videoIds| - 1], None, n)
  }

  /** What `get_video_comments` returns: `None` for an empty table. */
  function CommentsTable(request: ThreadsRequest, videoIds: seq<string>, n: nat): Option<seq<CommentRecord>>
  {
    var all := AllRecords(request, videoIds, n);
    if all == [] then None else Some(all)
  }

  // ---------------------------------------------------------------------
  // The method
  // ---------------------------------------------------------------------

  /** `get_video_comments`.  `pages` bounds the number of requests per video
      (the source loops until the API stops returning a token). */
  method GetVideoComments(videoIds: seq<string>, request: ThreadsRequest, ghost pages: nat)
    returns (table: Option<seq<CommentRecord>>)
    requires forall i :: 0 <= i < |videoIds| ==> EndsWithin(request, videoIds[i], None, pages)
    ensures table == CommentsTable(request, videoIds, pages)
  {
    var allComments := [];
    for i := 0 to |videoIds|
      invariant allComments == AllRecords(request, videoIds[..i], pages)
    {
      assert videoIds[..i + 1][..i] == videoIds[..i];
      var videoId := videoIds[i];
      var nextPageToken: Option<string> := None;
      ghost var fuel := pages;
      ghost var before := allComments;
      while true
        invariant EndsWithin(request, videoId, nextPageToken, fuel)
        invariant before + VideoRecords(request, videoId, None, pages)
                  == allComments + VideoRecords(request, videoId, nextPageToken, fuel)
        decreases fuel
      {
        var response := request(videoId, nextPageToken);
        if response.None? {
          // the exception is reported and this video's loop ends
          break;
        }
        var page := response.value;
        ghost var pageStart := allComments;
        if page.items.Some? {
          allComments := AppendItems(allComments, videoId, page.items.value);
        }
        assert allComments == pageStart + PageRecords(videoId, page);
        nextPageToken := page.nextPageToken;
        if !HasNext(nextPageToken) {
          break;
        }
        fuel := fuel - 1;
      }
    }
    assert videoIds[..|videoIds|] == videoIds;
    if allComments == [] {
      table := None;
    } else {
      table := Some(allComments);
    }
  }

  /** The `for item in response['items']` loop with its inner loop over the
      replies, appending to `all_comments`. */
  method AppendItems(allComments: seq<CommentRecord>, videoId: string, items: seq<Thread>)
    returns (extended: seq<CommentRecord>)
    ensures extended == allComments + ItemRecords(videoId, items)
  {
    extended := allComments;
    for j := 0 to |items|
      invariant extended == allComments + ItemRecords(videoId, items[..j])
    {
      var item := items[j];
      var commentId := item.id;
      ghost var itemStart := extended;
      extended := extended + [TopLevelRecord(videoId, item)];
      if item.replies.Some? {
        var replies := item.replies.value;
        ghost var threadStart := extended;
        for r := 0 to |replies|
          invariant extended == threadStart + ReplyRecords(videoId, commentId, replies[..r])
        {
          assert replies[..r + 1][..r] == replies[..r];
          extended := extended + [ReplyRecord(videoId, commentId, replies[r])];
        }
        assert replies[..|replies|] == replies;
      }
      ItemStep(allComments, videoId, items, j, itemStart);
    }
    assert items[..|items|] == items;
  }

  lemma ItemStep(allComments: seq<CommentRecord>, videoId: string, items: seq<Thread>, j: nat, extended: seq<CommentRecord>)
    requires j < |items| && extended == allComments + ItemRecords(videoId, items[..j])
    ensures extended + ThreadRecords(videoId, items[j]) == allComments + ItemRecords(videoId, items[..j + 1])
  {
    assert items[..j + 1][..j] == items[..j];
  }

  // ---------------------------------------------------------------------
  // Parent linkage
  // ---------------------------------------------------------------------

  /** Every record is a reply exactly when it has a parent, and a reply
      directly follows its thread's top-level record or an earlier reply of
      the same thread, of the same video. */
  predicate Linked(rs: seq<CommentRecord>)
  {
    && (forall p :: 0 <= p < |rs| ==> (rs[p].isReply <==> rs[p].parentCommentId.Some?))
    && (rs != [] ==> !rs[0].isReply)
    && (forall p :: 0 < p < |rs| && rs[p].isReply ==> FollowsInThread(rs[p - 1], rs[p]))
  }

  predicate FollowsInThread(prev: CommentRecord, r: CommentRecord)
  {
    && prev.videoId == r.videoId
    && (if prev.isReply then prev.parentCommentId == r.parentCommentId
        else r.parentCommentId == Some(prev.commentId))
  }

  lemma LinkedAppend(a: seq<CommentRecord>, b: seq<CommentRecord>)
    requires Linked(a) && Linked(b)
    ensures Linked(a + b)
  {
    var ab := a + b;
    forall p | 0 < p < |ab| && ab[p].isReply
      ensures FollowsInThread(ab[p - 1], ab[p])
    {
      if p < |a| {
        assert ab[p - 1] == a[p - 1] && ab[p] == a[p];
      } else {
        assert ab[p] == b[p - |a|];
        assert p - |a| > 0;
        assert ab[p - 1] == b[p - 1 - |a|];
      }
    }
  }

  lemma {:induction false} ReplyRecordsLinked(videoId: string, t: Thread, replies: seq<Reply>)
    ensures var rs := [TopLevelRecord(videoId, t)] + ReplyRecords(videoId, t.id, replies);
      && Linked(rs)
      && forall p :: 0 < p < |rs| ==> rs[p].isReply && rs[p].parentCommentId == Some(t.id)
  {
    if replies != [] {
      ReplyRecordsLinked(videoId, t, replies[..|replies| - 1]);
      var rs := [TopLevelRecord(videoId, t)] + ReplyRecords(videoId, t.id, replies);
      var prefix := [TopLevelRecord(videoId, t)] + ReplyRecords(videoId, t.id, replies[..|replies| - 1]);
      assert rs == prefix + [ReplyRecord(videoId, t.id, replies[|replies| - 1])];
    }
  }

  /** A thread flattens to its top-level record (no parent, not a reply, the
      thread's id) followed by its replies, each a reply whose parent is the
      thread's id. */
  lemma ThreadLinked(videoId: string, t: Thread)
    ensures var rs := ThreadRecords(videoId, t);
      && Linked(rs)
      && rs[0].commentId == t.id && rs[0].parentCommentId.None? && !rs[0].isReply
      && forall p :: 0 < p < |rs| ==> rs[p].isReply && rs[p].parentCommentId == Some(t.id)
  {
    if t.replies.Some? {
      ReplyRecordsLinked(videoId, t, t.replies.value);
    }
  }

  lemma {:induction false} ItemRecordsLinked(videoId: string, items: seq<Thread>)
    ensures Linked(ItemRecords(videoId, items))
  {
    if items != [] {
      ItemRecordsLinked(videoId, items[..|items| - 1]);
      ThreadLinked(videoId, items[|items| - 1]);
      LinkedAppend(ItemRecords(videoId, items[..|items| - 1]), ThreadRecords(videoId, items[|items| - 1]));
    }
  }

  lemma {:induction false} VideoRecordsLinked(request: ThreadsRequest, videoId: string, token: Option<string>, n: nat)
    ensures Linked(VideoRecords(request, videoId, token, n))
    decreases n
  {
    if n > 0 && request(videoId, token).Some? {
      var page := request(videoId, token).value;
      if page.items.Some? {
        ItemRecordsLinked(videoId, page.items.value);
      }
      if HasNext(page.nextPageToken) {
        VideoRecordsLinked(request, videoId, page.nextPageToken, n - 1);
        LinkedAppend(PageRecords(videoId, page), VideoRecords(request, videoId, page.nextPageToken, n - 1));
      }
    }
  }

  lemma {:induction false} AllRecordsLinked(request: ThreadsRequest, videoIds: seq<string>, n: nat)
    ensures Linked(AllRecords(request, videoIds, n))
  {
    if videoIds != [] {
      AllRecordsLinked(request, videoIds[..|videoIds| - 1], n);
      VideoRecordsLinked(request, videoIds[|videoIds| - 1], None, n);
      LinkedAppend(AllRecords(request, videoIds[..|videoIds| - 1], n),
                   VideoRecords(request, videoIds[|videoIds| - 1], None, n));
    }
  }

  /** In a linked table every reply has its thread's top-level record
      earlier in the table, of the same video, with only replies to that
      thread in between. */
  lemma {:induction false} ParentOf(rs: seq<CommentRecord>, p: nat) returns (q: nat)
    requires Linked(rs) && p < |rs| && rs[p].isReply
    ensures q < p && !rs[q].isReply
    ensures rs[p].parentCommentId == Some(rs[q].commentId) && rs[q].videoId == rs[p].videoId
    ensures forall x :: q < x <= p ==> rs[x].isReply && rs[x].parentCommentId == rs[p].parentCommentId
  {
    assert FollowsInThread(rs[p - 1], rs[p]);
    if rs[p - 1].isReply {
      q := ParentOf(rs, p - 1);
    } else {
      q := p - 1;
    }
  }

  /** Every record of the returned table that is a reply points at a
      top-level comment before it. */
  lemma TableParents(request: ThreadsRequest, videoIds: seq<string>, pages: nat, p: nat) returns (q: nat)
    requires CommentsTable(request, videoIds, pages).Some?
    requires var rs := CommentsTable(request, videoIds, pages).value; p < |rs| && rs[p].isReply
    ensures var rs := CommentsTable(request, videoIds, pages).value;
      && q < p && !rs[q].isReply && rs[q].parentCommentId.None?
      && rs[p].parentCommentId == Some(rs[q].commentId) && rs[q].videoId == rs[p].videoId
  {
    AllRecordsLinked(request, videoIds, pages);
    q := ParentOf(AllRecords(request, videoIds, pages), p);
  }

  // ---------------------------------------------------------------------
  // Top-level comments and videos
  // ---------------------------------------------------------------------

  /** The comment ids of the top-level records, in table order. */
  function TopLevelIds(rs: seq<CommentRecord>): seq<string>
  {
    if rs == [] then []
    else TopLevelIds(rs[..|rs| - 1]) + (if rs[|rs| - 1].isReply then [] else [rs[|rs| - 1].commentId])
  }

  function ThreadIds(items: seq<Thread>): seq<string>
  {
    if items == [] then [] else ThreadIds(items[..|items| - 1]) + [items[|items| - 1].id]
  }

  lemma {:induction false} TopLevelIdsAppend(a: seq<CommentRecord>, b: seq<CommentRecord>)
    ensures TopLevelIds(a + b) == TopLevelIds(a) + TopLevelIds(b)
    decreases |b|
  {
    if b == [] {
      assert a + b == a;
    } else {
      TopLevelIdsAppend(a, b[..|b| - 1]);
      assert (a + b)[..|a + b| - 1] == a + b[..|b| - 1];
    }
  }

  lemma {:induction false} RepliesHaveNoTopLevel(videoId: string, parentId: string, replies: seq<Reply>)
    ensures TopLevelIds(ReplyRecords(videoId, parentId, replies)) == []
  {
    if replies != [] {
      RepliesHaveNoTopLevel(videoId, parentId, replies[..|replies| - 1]);
      TopLevelIdsAppend(ReplyRecords(videoId, parentId, replies[..|replies| - 1]),
                        [ReplyRecord(videoId, parentId, replies[|replies| - 1])]);
    }
  }

  /** The top-level records of a page are exactly its items, in item order:
      one per thread, carrying the thread's id. */
  lemma {:induction false} PageTopLevel(videoId: string, items: seq<Thread>)
    ensures TopLevelIds(ItemRecords(videoId, items)) == ThreadIds(items)
  {
    if items != [] {
      var t := items[|items| - 1];
      PageTopLevel(videoId, items[..|items| - 1]);
      TopLevelIdsAppend(ItemRecords(videoId, items[..|items| - 1]), ThreadRecords(videoId, t));
      var replies := if t.replies.Some? then ReplyRecords(videoId, t.id, t.replies.value) else [];
      if t.replies.Some? {
        RepliesHaveNoTopLevel(videoId, t.id, t.replies.value);
      }
      TopLevelIdsAppend([TopLevelRecord(videoId, t)], replies);
      assert TopLevelIds([TopLevelRecord(videoId, t)]) == [t.id] by {
        assert [TopLevelRecord(videoId, t)][..0] == [];
      }
    }
  }

  /** Every record a video's pages yield belongs to that video. */
  lemma {:induction false} VideoRecordsOfVideo(request: ThreadsRequest, videoId: string, token: Option<string>, n: nat)
    ensures forall p :: 0 <= p < |VideoRecords(request, videoId, token, n)| ==>
                        VideoRecords(request, videoId, token, n)[p].videoId == videoId
    decreases n
  {
    if n > 0 && request(videoId, token).Some? {
      var page := request(videoId, token).value;
      if page.items.Some? {
        ItemRecordsOfVideo(videoId, page.items.value);
      }
      if HasNext(page.nextPageToken) {
        VideoRecordsOfVideo(request, videoId, page.nextPageToken, n - 1);
      }
    }
  }

  lemma {:induction false} ItemRecordsOfVideo(videoId: string, items: seq<Thread>)
    ensures forall p :: 0 <= p < |ItemRecords(videoId, items)| ==> ItemRecords(videoId, items)[p].videoId == videoId
  {
    if items != [] {
      ItemRecordsOfVideo(videoId, items[..|items| - 1]);
      ThreadLinked(videoId, items[|items| - 1]);
      var t := items[|items| - 1];
      if t.replies.Some? {
        ReplyRecordsOfVideo(videoId, t.id, t.replies.value);
      }
    }
  }

  lemma {:induction false} ReplyRecordsOfVideo(videoId: string, parentId: string, replies: seq<Reply>)
    ensures forall p :: 0 <= p < |ReplyRecords(videoId, parentId, replies)| ==>
                        ReplyRecords(videoId, parentId, replies)[p].videoId == videoId
  {
    if replies != [] {
      ReplyRecordsOfVideo(videoId, parentId, replies[..|replies| - 1]);
    }
  }

  /** The table is the concatenation of the videos' records, in video order:
      each video's records depend only on that video's own requests. */
  lemma {:induction false} AllRecordsAppend(request: ThreadsRequest, a: seq<string>, b: seq<string>, n: nat)
    ensures AllRecords(request, a + b, n) == AllRecords(request, a, n) + AllRecords(request, b, n)
    decreases |b|
  {
    if b == [] {
      assert a + b == a;
    } else {
      var init, last := b[..|b| - 1], b[|b| - 1];
      AllRecordsAppend(request, a, init, n);
      DropLast(a, b);
      assert AllRecords(request, a + b, n)
          == AllRecords(request, a + init, n) + VideoRecords(request, last, None, n);
      RecordsAssoc(AllRecords(request, a, n), AllRecords(request, init, n), VideoRecords(request, last, None, n));
    }
  }

  lemma RecordsAssoc(x: seq<CommentRecord>, y: seq<CommentRecord>, z: seq<CommentRecord>)
    ensures x + y + z == x + (y + z)
  {
  }

  lemma DropLast(a: seq<string>, b: seq<string>)
    requires b != []
    ensures a + b != [] && (a + b)[..|a + b| - 1] == a + b[..|b| - 1] && (a + b)[|a + b| - 1] == b[|b| - 1]
  {
  }

  // ---------------------------------------------------------------------
  // Pagination
  // ---------------------------------------------------------------------

  /** Once the pages end within the bound, more fuel reads nothing more: the
      records do not depend on the bound chosen. */
  lemma {:induction false} FuelIndependent(request: ThreadsRequest, videoId: string, token: Option<string>, n: nat, m: nat)
    requires EndsWithin(request, videoId, token, n) && n <= m
    ensures VideoRecords(request, videoId, token, n) == VideoRecords(request, videoId, token, m)
    decreases n
  {
    var response := request(videoId, token);
    if response.Some? && HasNext(response.value.nextPageToken) {
      FuelIndependent(request, videoId, response.value.nextPageToken, n - 1, m - 1);
    }
  }

  /** A request that raises on a later page keeps the records of the pages
      before it and ends that video only. */
  lemma FailureKeepsEarlierPages(request: ThreadsRequest, videoId: string, token: Option<string>, n: nat, page: Page)
    requires n >= 2 && request(videoId, token) == Some(page) && HasNext(page.nextPageToken)
    requires request(videoId, page.nextPageToken).None?
    ensures VideoRecords(request, videoId, token, n) == PageRecords(videoId, page)
  {
    assert VideoRecords(request, videoId, page.nextPageToken, n - 1) == [];
  }
}
