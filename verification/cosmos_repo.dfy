/** The two document containers of api/src/lib/cosmosRepo.ts, as in-memory
    stores: the feed (one document per processed recipe, partition "feed") and
    the comments (partitioned by recipe id). A document is identified by its id
    together with its partition key; ISO timestamps are the abstract clock values
    `Time`, whose order is the order of the ISO strings. */
module CosmosRepo {
  import opened Common
  import opened Seqs

  datatype FeedItem = FeedItem(
    id: Id,
    pk: string,
    recipeId: Id,
    title: string,
    imageThumbUrl: Option<string>,
    createdAt: Time)

  datatype Comment = Comment(id: Id, recipeId: Id, userId: Id, text: string, createdAt: Time)

  const FeedPartition: string := "feed"

  function FeedKey(d: FeedItem): (Id, string) { (d.id, d.pk) }
  function CommentKey(c: Comment): (Id, Id) { (c.id, c.recipeId) }
  function FeedCreatedAt(d: FeedItem): Time { d.createdAt }
  function CommentCreatedAt(c: Comment): Time { c.createdAt }

  /** A container never holds two documents with the same id in one partition. */
  predicate FeedValid(feed: seq<FeedItem>) { DistinctBy(feed, FeedKey) }
  predicate CommentsValid(comments: seq<Comment>) { DistinctBy(comments, CommentKey) }

  predicate InFeed(d: FeedItem) { d.pk == FeedPartition }
  predicate ForRecipe(recipeId: Id, c: Comment) { c.recipeId == recipeId }

  /** `OFFSET (page - 1) * pageSize LIMIT pageSize`; the query service refuses a
      negative offset or limit. */
  function PageOf<T>(sorted: seq<T>, page: int, pageSize: int): (r: Result<seq<T>>)
    ensures r.Ok? <==> (page - 1) * pageSize >= 0 && pageSize >= 0
    ensures r.Ok? ==> r.value == Page(sorted, (page - 1) * pageSize, pageSize)
    ensures r.Err? ==> r.error == OtherError("invalid OFFSET or LIMIT")
  {
    var offset := (page - 1) * pageSize;
    if offset < 0 || pageSize < 0 then Err(OtherError("invalid OFFSET or LIMIT"))
    else Ok(Page(sorted, offset, pageSize))
  }

  // ---------------------------------------------------------------------
  // Feed.
  // ---------------------------------------------------------------------

  /** getFeedPage */
  function GetFeedPage(feed: seq<FeedItem>, page: int, pageSize: int): Result<seq<FeedItem>> {
    PageOf(SortNewestFirst(Filter(feed, InFeed), FeedCreatedAt), page, pageSize)
  }

  /** A feed page holds at most pageSize documents of the "feed" partition,
      newest first, all taken from the store. */
  lemma GetFeedPageSpec(feed: seq<FeedItem>, page: int, pageSize: int)
    requires GetFeedPage(feed, page, pageSize).Ok?
    ensures var items := GetFeedPage(feed, page, pageSize).value;
      && |items| <= pageSize
      && (forall d :: d in items ==> d in feed && d.pk == FeedPartition)
      && NewestFirst(items, FeedCreatedAt)
  {
    var offset := (page - 1) * pageSize;
    PageOfSorted(Filter(feed, InFeed), FeedCreatedAt, offset, pageSize);
  }

  /** upsertFeedItem: replace the document with the same id and partition in
      place, or add it. */
  function UpsertFeedItem(feed: seq<FeedItem>, item: FeedItem): (r: seq<FeedItem>)
    ensures forall d :: d in r && FeedKey(d) != FeedKey(item) <==> d in feed && FeedKey(d) != FeedKey(item)
    decreases |feed|
  {
    if |feed| == 0 then [item]
    else if FeedKey(feed[0]) == FeedKey(item) then [item] + feed[1..]
    else [feed[0]] + UpsertFeedItem(feed[1..], item)
  }

  /** After an upsert the store holds exactly one document with the item's key,
      the item itself, and stays free of duplicate keys. */
  lemma {:induction false} UpsertFeedItemHolds(feed: seq<FeedItem>, item: FeedItem)
    requires FeedValid(feed)
    ensures var r := UpsertFeedItem(feed, item);
      && FeedValid(r)
      && item in r
      && forall d :: d in r && FeedKey(d) == FeedKey(item) ==> d == item
    decreases |feed|
  {
    if |feed| > 0 && FeedKey(feed[0]) != FeedKey(item) {
      var rest := feed[1..];
      assert FeedValid(rest) by {
        forall i, j | 0 <= i < j < |rest| ensures FeedKey(rest[i]) != FeedKey(rest[j]) {
          assert rest[i] == feed[i + 1] && rest[j] == feed[j + 1];
        }
      }
      UpsertFeedItemHolds(rest, item);
      var tail := UpsertFeedItem(rest, item);
      forall d | d in tail ensures FeedKey(d) != FeedKey(feed[0]) {
        if FeedKey(d) != FeedKey(item) {
          var k :| 0 <= k < |rest| && rest[k] == d;
          assert feed[k + 1] == d;
        }
      }
      DistinctByCons(tail, FeedKey, feed[0]);
    } else if |feed| > 0 {
      var rest := feed[1..];
      forall d | d in rest ensures FeedKey(d) != FeedKey(item) {
        var k :| 0 <= k < |rest| && rest[k] == d;
        assert feed[k + 1] == d;
      }
      forall i, j | 0 <= i < j < |rest| ensures FeedKey(rest[i]) != FeedKey(rest[j]) {
        assert rest[i] == feed[i + 1] && rest[j] == feed[j + 1];
      }
      DistinctByCons(rest, FeedKey, item);
    }
  }

  /** Upserting the same item again changes nothing: re-running converges. */
  lemma {:induction false} UpsertFeedItemIdempotent(feed: seq<FeedItem>, item: FeedItem)
    ensures UpsertFeedItem(UpsertFeedItem(feed, item), item) == UpsertFeedItem(feed, item)
    decreases |feed|
  {
    if |feed| > 0 && FeedKey(feed[0]) != FeedKey(item) {
      UpsertFeedItemIdempotent(feed[1..], item);
      assert ([feed[0]] + UpsertFeedItem(feed[1..], item))[1..] == UpsertFeedItem(feed[1..], item);
    } else if |feed| > 0 {
      assert ([item] + feed[1..])[1..] == feed[1..];
    }
  }

  /** The store without the document (recipeId, "feed"). */
  function RemoveFeedDoc(feed: seq<FeedItem>, recipeId: Id): (r: seq<FeedItem>)
    ensures forall d :: d in r <==> d in feed && FeedKey(d) != (recipeId, FeedPartition)
    decreases |feed|
  {
    if |feed| == 0 then []
    else if FeedKey(feed[0]) == (recipeId, FeedPartition) then RemoveFeedDoc(feed[1..], recipeId)
    else [feed[0]] + RemoveFeedDoc(feed[1..], recipeId)
  }

  /** deleteFeedItem: delete the document (recipeId, "feed"); the store answers
      404 when there is none. */
  function DeleteFeedItem(feed: seq<FeedItem>, recipeId: Id): (r: Result<seq<FeedItem>>)
    ensures r.Ok? <==> exists d :: d in feed && FeedKey(d) == (recipeId, FeedPartition)
    ensures r.Ok? ==> forall d :: d in r.value <==> d in feed && FeedKey(d) != (recipeId, FeedPartition)
    ensures r.Err? ==> r.error == OtherError("not_found")
  {
    if exists d :: d in feed && FeedKey(d) == (recipeId, FeedPartition) then Ok(RemoveFeedDoc(feed, recipeId))
    else Err(OtherError("not_found"))
  }

  lemma {:induction false} UpsertFeedItemIn(feed: seq<FeedItem>, item: FeedItem)
    ensures item in UpsertFeedItem(feed, item)
    decreases |feed|
  {
    if |feed| > 0 && FeedKey(feed[0]) != FeedKey(item) {
      UpsertFeedItemIn(feed[1..], item);
    }
  }

  /** Upserting a document whose key is new and removing it again gives back the
      store as it was, order included. */
  lemma {:induction false} RemoveUndoesUpsert(feed: seq<FeedItem>, item: FeedItem)
    requires item.pk == FeedPartition
    requires forall d :: d in feed ==> FeedKey(d) != FeedKey(item)
    ensures RemoveFeedDoc(UpsertFeedItem(feed, item), item.id) == feed
    decreases |feed|
  {
    if |feed| > 0 {
      assert feed[0] in feed;
      forall d | d in feed[1..] ensures FeedKey(d) != FeedKey(item) {
        var k :| 0 <= k < |feed[1..]| && feed[1..][k] == d;
        assert feed[k + 1] == d;
      }
      RemoveUndoesUpsert(feed[1..], item);
      var up := [feed[0]] + UpsertFeedItem(feed[1..], item);
      assert up[0] == feed[0] && up[1..] == UpsertFeedItem(feed[1..], item);
    }
  }

  /** Deleting the feed document of a recipe right after upserting it as new
      restores the store. */
  lemma DeleteUndoesUpsert(feed: seq<FeedItem>, item: FeedItem)
    requires item.pk == FeedPartition
    requires forall d :: d in feed ==> FeedKey(d) != FeedKey(item)
    ensures DeleteFeedItem(UpsertFeedItem(feed, item), item.id) == Ok(feed)
  {
    UpsertFeedItemIn(feed, item);
    RemoveUndoesUpsert(feed, item);
  }

  // ---------------------------------------------------------------------
  // Comments.
  // ---------------------------------------------------------------------

  function CommentIds(comments: seq<Comment>): (ids: seq<Id>)
    ensures |ids| == |comments|
    ensures forall k :: 0 <= k < |comments| ==> ids[k] == comments[k].id
  {
    seq(|comments|, k requires 0 <= k < |comments| => comments[k].id)
  }

  /** addComment: a new document with a fresh id and the clock's time. */
  function AddComment(comments: seq<Comment>, recipeId: Id, userId: Id, text: string, now: Time): (r: (seq<Comment>, Comment))
    ensures r.0 == comments + [r.1]
  {
    var c := Comment(FreshId(CommentIds(comments)), recipeId, userId, text, now);
    (comments + [c], c)
  }

  /** The stored comment carries the given recipe, author, text and time and an id
      no comment had, so the container stays free of duplicate keys. */
  lemma AddCommentSpec(comments: seq<Comment>, recipeId: Id, userId: Id, text: string, now: Time)
    requires CommentsValid(comments)
    ensures var (after, c) := AddComment(comments, recipeId, userId, text, now);
      && c.recipeId == recipeId && c.userId == userId && c.text == text && c.createdAt == now
      && (forall d :: d in comments ==> d.id != c.id)
      && CommentsValid(after)
  {
    var (after, c) := AddComment(comments, recipeId, userId, text, now);
    var ids := CommentIds(comments);
    forall d | d in comments ensures d.id != c.id {
      var k :| 0 <= k < |comments| && comments[k] == d;
      assert ids[k] == d.id;
    }
    DistinctByAppend(comments, CommentKey, c);
  }

  /** getComments */
  function GetComments(comments: seq<Comment>, recipeId: Id, page: int, pageSize: int): Result<seq<Comment>> {
    PageOf(SortNewestFirst(Filter(comments, c => ForRecipe(recipeId, c)), CommentCreatedAt), page, pageSize)
  }

  /** A comment page holds at most pageSize comments of the one recipe, newest first. */
  lemma GetCommentsSpec(comments: seq<Comment>, recipeId: Id, page: int, pageSize: int)
    requires GetComments(comments, recipeId, page, pageSize).Ok?
    ensures var items := GetComments(comments, recipeId, page, pageSize).value;
      && |items| <= pageSize
      && (forall c :: c in items ==> c in comments && c.recipeId == recipeId)
      && NewestFirst(items, CommentCreatedAt)
  {
    var offset := (page - 1) * pageSize;
    PageOfSorted(Filter(comments, c => ForRecipe(recipeId, c)), CommentCreatedAt, offset, pageSize);
  }

  /** `comments.item(id, recipeId).delete()` for a document known to exist. */
  function DeleteComment(comments: seq<Comment>, id: Id, recipeId: Id): (r: seq<Comment>)
    ensures forall c :: c in r <==> c in comments && CommentKey(c) != (id, recipeId)
  {
    Filter(comments, c => CommentKey(c) != (id, recipeId))
  }

  /** deleteCommentsForRecipe: select the ids of the recipe's comments, then
      delete them one by one. */
  method DeleteCommentsForRecipe(comments: seq<Comment>, recipeId: Id) returns (r: seq<Comment>)
    ensures forall c :: c in r <==> c in comments && c.recipeId != recipeId
  {
    var ids := CommentIds(Filter(comments, c => ForRecipe(recipeId, c)));
    r := comments;
    var i := 0;
    while i < |ids|
      invariant 0 <= i <= |ids|
      invariant forall c :: c in r <==> c in comments && !(c.recipeId == recipeId && c.id in ids[..i])
    {
      assert ids[..i + 1] == ids[..i] + [ids[i]];
      r := DeleteComment(r, ids[i], recipeId);
      i := i + 1;
    }
    assert ids[..i] == ids;
    IdsCoverRecipe(comments, recipeId);
  }

  /** The queried ids name every comment of the recipe. */
  lemma IdsCoverRecipe(comments: seq<Comment>, recipeId: Id)
    ensures var ids := CommentIds(Filter(comments, c => ForRecipe(recipeId, c)));
      forall c :: c in comments && c.recipeId == recipeId ==> c.id in ids
  {
    var mine := Filter(comments, c => ForRecipe(recipeId, c));
    var ids := CommentIds(mine);
    forall c | c in comments && c.recipeId == recipeId ensures c.id in ids {
      assert c in mine;
      var k :| 0 <= k < |mine| && mine[k] == c;
      assert ids[k] == c.id;
    }
  }
}
