/**
 * The tables the downloader revision of the store writes (src/downloader/database.rs):
 * `posts(id, remote_id)` and `downloads(post_id, file_name, mime, original)`.
 * Rows are kept in insertion order; SQLite gives a new row the largest id so far
 * plus one, so insertion order is ascending id order.
 */
module DownloaderDatabase {
  import opened Wrappers
  import opened Seqs

  datatype PostRow = PostRow(id: int, remoteId: int)

  /** `post_id` is SQL NULL (`None`) when the subquery found no post with that remote id. */
  datatype DownloadRow = DownloadRow(postId: Option<int>, fileName: string, mime: string, original: bool)

  /** `fetch_one` found no row. */
  datatype DbError = RowNotFound

  /** Ids ascend strictly along the table and `remote_id` is the unique key of `posts`. */
  ghost predicate WellFormed(posts: seq<PostRow>) {
    && (forall i, j :: 0 <= i < j < |posts| ==> posts[i].id < posts[j].id)
    && (forall i, j :: 0 <= i < j < |posts| ==> posts[i].remoteId != posts[j].remoteId)
  }

  function RemoteIds(posts: seq<PostRow>): set<int> {
    set p | p in posts :: p.remoteId
  }

  /** The remote ids of the rows, in table order. */
  function RemoteIdsOf(posts: seq<PostRow>): (r: seq<int>)
    ensures |r| == |posts| && forall i :: 0 <= i < |posts| ==> r[i] == posts[i].remoteId
  {
    seq(|posts|, i requires 0 <= i < |posts| => posts[i].remoteId)
  }

  /** The rowid SQLite assigns to the next inserted row. */
  function NextRowId(posts: seq<PostRow>): (id: int)
    ensures forall p :: p in posts && WellFormed(posts) ==> p.id < id
  {
    if posts == [] then 1 else posts[|posts| - 1].id + 1
  }

  /** `SELECT id FROM posts WHERE remote_id = ?` over a row sequence. */
  function FindId(posts: seq<PostRow>, remoteId: int): (o: Option<int>)
    ensures o.Some? <==> remoteId in RemoteIds(posts)
    ensures o.Some? ==> PostRow(o.value, remoteId) in posts
  {
    if posts == [] then None
    else if posts[0].remoteId == remoteId then Some(posts[0].id)
    else
      var o := FindId(posts[1..], remoteId);
      assert RemoteIds(posts) == {posts[0].remoteId} + RemoteIds(posts[1..]) by {
        assert posts == [posts[0]] + posts[1..];
      }
      o
  }

  /**
   * `p.id NOT IN (SELECT d.post_id FROM downloads d)` under SQL's three-valued
   * logic: true only when no download names the id AND no download has a NULL
   * post id (a NULL makes the test unknown, and the row is not selected).
   */
  predicate NotInDownloads(id: int, downloads: seq<DownloadRow>) {
    forall d :: d in downloads ==> d.postId.Some? && d.postId.value != id
  }

  /** The selected rows of `pending_posts`, newest (largest id) first. */
  function PendingRows(posts: seq<PostRow>, downloads: seq<DownloadRow>): (r: seq<PostRow>)
    ensures forall p :: p in r <==> p in posts && NotInDownloads(p.id, downloads)
    ensures WellFormed(posts) ==> forall i, j :: 0 <= i < j < |r| ==> r[i].id > r[j].id
    decreases |posts|
  {
    if posts == [] then []
    else
      var init := posts[..|posts| - 1];
      var last := posts[|posts| - 1];
      assert posts == init + [last];
      assert WellFormed(posts) ==> WellFormed(init);
      (if NotInDownloads(last.id, downloads) then [last] else []) + PendingRows(init, downloads)
  }

  /** `pending_posts`: remote ids of posts with no download, ordered by id descending. */
  function Pending(posts: seq<PostRow>, downloads: seq<DownloadRow>): (r: seq<int>)
    ensures forall x :: x in r <==> exists p :: p in posts && p.remoteId == x && NotInDownloads(p.id, downloads)
  {
    var rows := PendingRows(posts, downloads);
    var r := RemoteIdsOf(rows);
    assert forall x :: x in r ==> exists p :: p in rows && p.remoteId == x by {
      forall x | x in r ensures exists p :: p in rows && p.remoteId == x {
        var i :| 0 <= i < |r| && r[i] == x;
        assert rows[i] in rows;
      }
    }
    r
  }

  /** Distinct remote ids make the pending list free of repeats, and the rows strictly newest first. */
  lemma PendingOrdered(posts: seq<PostRow>, downloads: seq<DownloadRow>)
    requires WellFormed(posts)
    ensures NoDuplicates(Pending(posts, downloads))
  {
    var rows := PendingRows(posts, downloads);
    forall i, j | 0 <= i < j < |rows| ensures rows[i].remoteId != rows[j].remoteId {
      assert rows[i] in posts && rows[j] in posts;
      var a :| 0 <= a < |posts| && posts[a] == rows[i];
      var b :| 0 <= b < |posts| && posts[b] == rows[j];
      assert rows[i].id != rows[j].id;
      assert a != b;
    }
  }

  /** With unique remote ids, the number of rows is the number of known remote ids. */
  lemma RowCountIsRemoteIdCount(posts: seq<PostRow>)
    requires WellFormed(posts)
    ensures |RemoteIds(posts)| == |posts|
  {
    var ids := RemoteIdsOf(posts);
    NewIdsDistinct([], posts);
    assert posts[0..] == posts;
    RemoteIdsAsSet(posts);
    DistinctCount(ids);
  }

  /** The known remote ids are the elements of the remote-id column. */
  lemma RemoteIdsAsSet(posts: seq<PostRow>)
    ensures RemoteIds(posts) == ToSet(RemoteIdsOf(posts))
  {
    var ids := RemoteIdsOf(posts);
    forall x | x in RemoteIds(posts) ensures x in ToSet(ids) {
      var p :| p in posts && p.remoteId == x;
      var k :| 0 <= k < |posts| && posts[k] == p;
      assert ids[k] == x;
    }
    forall x | x in ToSet(ids) ensures x in RemoteIds(posts) {
      var k :| 0 <= k < |ids| && ids[k] == x;
      assert posts[k] in posts;
    }
  }

  lemma RemoteIdsSnoc(init: seq<PostRow>, last: PostRow)
    ensures RemoteIds(init + [last]) == RemoteIds(init) + {last.remoteId}
    ensures RemoteIdsOf(init + [last]) == RemoteIdsOf(init) + [last.remoteId]
  {
  }

  /**
   * After a download row for a known remote id is added, that post is no longer
   * pending and every other post keeps its pending status.
   */
  lemma PendingAfterDownload(posts: seq<PostRow>, downloads: seq<DownloadRow>, remoteId: int,
                             fileName: string, mime: string, original: bool)
    requires WellFormed(posts) && remoteId in RemoteIds(posts)
    ensures var after := Pending(posts, downloads + [DownloadRow(FindId(posts, remoteId), fileName, mime, original)]);
      && remoteId !in after
      && forall x :: x != remoteId ==> (x in after <==> x in Pending(posts, downloads))
  {
    var id := FindId(posts, remoteId).value;
    var d := DownloadRow(Some(id), fileName, mime, original);
    var ds := downloads + [d];
    forall p | p in posts && p.remoteId != remoteId
      ensures NotInDownloads(p.id, ds) <==> NotInDownloads(p.id, downloads)
    {
      var k :| 0 <= k < |posts| && posts[k] == p;
      var m :| 0 <= m < |posts| && posts[m] == PostRow(id, remoteId);
      assert k != m;
      assert p.id != id;
    }
    forall p | p in posts && p.remoteId == remoteId ensures !NotInDownloads(p.id, ds) {
      var k :| 0 <= k < |posts| && posts[k] == p;
      var m :| 0 <= m < |posts| && posts[m] == PostRow(id, remoteId);
      assert k == m;
      assert d in ds;
    }
  }

  /** A download row with a NULL post id makes `pending_posts` select nothing at all. */
  lemma NullDownloadHidesEveryPost(posts: seq<PostRow>, downloads: seq<DownloadRow>,
                                   fileName: string, mime: string, original: bool)
    ensures Pending(posts, downloads + [DownloadRow(None, fileName, mime, original)]) == []
  {
    var ds := downloads + [DownloadRow(None, fileName, mime, original)];
    assert DownloadRow(None, fileName, mime, original) in ds;
    var r := Pending(posts, ds);
    assert forall x :: x !in ToSet(r);
    ToSetEmpty(r);
  }

  /** The two tables the downloader writes. */
  class Store {
    var posts: seq<PostRow>
    var downloads: seq<DownloadRow>

    ghost predicate Valid()
      reads this
    {
      WellFormed(posts)
    }

    constructor ()
      ensures Valid() && posts == [] && downloads == []
    {
      posts, downloads := [], [];
    }

    /**
     * `insert_posts`: `INSERT INTO posts (remote_id) VALUES ... ON CONFLICT DO
     * NOTHING RETURNING remote_id`. An empty batch returns at once. Each value
     * row is inserted unless its remote id is already present (from before or
     * from earlier in the same batch); the inserted remote ids are returned in
     * insertion order.
     */
    method InsertPosts(postIds: seq<int>) returns (newIds: seq<int>)
      requires Valid()
      modifies this
      ensures Valid() && downloads == old(downloads)
      ensures postIds == [] ==> newIds == [] && posts == old(posts)
      ensures |old(posts)| <= |posts| && posts[..|old(posts)|] == old(posts)
      ensures newIds == RemoteIdsOf(posts[|old(posts)|..])
      ensures RemoteIds(posts) == RemoteIds(old(posts)) + ToSet(postIds)
      ensures ToSet(newIds) == ToSet(postIds) - RemoteIds(old(posts))
      ensures NoDuplicates(newIds)
    {
      if postIds == [] {
        return [];
      }
      ghost var before := posts;
      ghost var added: seq<PostRow> := [];
      newIds := [];
      var i := 0;
      while i < |postIds|
        invariant 0 <= i <= |postIds|
        invariant Valid() && downloads == old(downloads)
        invariant posts == before + added
        invariant newIds == RemoteIdsOf(added)
        invariant RemoteIds(posts) == RemoteIds(before) + ToSet(postIds[..i])
        invariant ToSet(newIds) == ToSet(postIds[..i]) - RemoteIds(before)
      {
        var x := postIds[i];
        ghost var p0 := posts;
        var inserted := InsertIfAbsent(x);
        if inserted {
          ghost var row := posts[|posts| - 1];
          InsertedRowStep(before, added, newIds, postIds, i, p0, posts, row);
          added := added + [row];
          newIds := newIds + [x];
        } else {
          SkippedRowStep(before, newIds, postIds, i, p0);
        }
        i := i + 1;
      }
      assert postIds[..i] == postIds;
      assert posts[|before|..] == added;
      NewIdsDistinct(before, posts);
    }

    /** One value row of the batch insert: added with a fresh id unless its remote id is known. */
    method InsertIfAbsent(remoteId: int) returns (inserted: bool)
      requires Valid()
      modifies this
      ensures Valid() && downloads == old(downloads)
      ensures inserted <==> remoteId !in RemoteIds(old(posts))
      ensures inserted ==> posts == old(posts) + [PostRow(NextRowId(old(posts)), remoteId)]
      ensures !inserted ==> posts == old(posts)
      ensures RemoteIds(posts) == RemoteIds(old(posts)) + {remoteId}
    {
      inserted := FindId(posts, remoteId).None?;
      if inserted {
        var row := PostRow(NextRowId(posts), remoteId);
        RemoteIdsSnoc(posts, row);
        posts := posts + [row];
      }
    }

    /** `post_count`: `SELECT COUNT(1) FROM posts`, the number of known remote ids. */
    function PostCount(): (n: int)
      requires Valid()
      reads this
      ensures n == |RemoteIds(posts)|
    {
      RowCountIsRemoteIdCount(posts);
      |posts|
    }

    /** `pending_posts`. */
    function PendingPosts(): (r: seq<int>)
      requires Valid()
      reads this
      ensures forall x :: x in r <==> exists p :: p in posts && p.remoteId == x && NotInDownloads(p.id, downloads)
      ensures NoDuplicates(r)
    {
      PendingOrdered(posts, downloads);
      Pending(posts, downloads)
    }

    /**
     * `insert_download`: one row whose post id is the subquery
     * `(SELECT p.id FROM posts p WHERE p.remote_id = ?)`, NULL for an unknown remote id.
     */
    method InsertDownload(remoteId: int, fileName: string, mime: string, original: bool)
      requires Valid()
      modifies this
      ensures Valid() && posts == old(posts)
      ensures downloads == old(downloads) + [DownloadRow(FindId(posts, remoteId), fileName, mime, original)]
      ensures remoteId in RemoteIds(posts) ==>
        && remoteId !in PendingPosts()
        && forall x :: x != remoteId ==> (x in PendingPosts() <==> x in old(PendingPosts()))
    {
      if remoteId in RemoteIds(posts) {
        PendingAfterDownload(posts, downloads, remoteId, fileName, mime, original);
      }
      downloads := downloads + [DownloadRow(FindId(posts, remoteId), fileName, mime, original)];
    }

    /** `get_internal_post_id`: the id stored with the remote id, or no row. */
    function GetInternalPostId(remoteId: int): (r: Result<int, DbError>)
      reads this
      ensures r.Ok? <==> remoteId in RemoteIds(posts)
      ensures r.Ok? ==> PostRow(r.value, remoteId) in posts
    {
      OkOr(FindId(posts, remoteId), RowNotFound)
    }
  }

  lemma InsertStep(postIds: seq<int>, i: nat)
    requires i < |postIds|
    ensures ToSet(postIds[..i + 1]) == ToSet(postIds[..i]) + {postIds[i]}
  {
    assert postIds[..i + 1] == postIds[..i] + [postIds[i]];
    ToSetAppend(postIds[..i], [postIds[i]]);
  }

  /** A value row that was inserted: the table, the returned ids and their sets grow by it. */
  lemma InsertedRowStep(before: seq<PostRow>, added: seq<PostRow>, newIds: seq<int>, postIds: seq<int>,
                        i: nat, p0: seq<PostRow>, p1: seq<PostRow>, row: PostRow)
    requires i < |postIds| && p0 == before + added && newIds == RemoteIdsOf(added)
    requires RemoteIds(p0) == RemoteIds(before) + ToSet(postIds[..i])
    requires ToSet(newIds) == ToSet(postIds[..i]) - RemoteIds(before)
    requires postIds[i] !in RemoteIds(p0) && row.remoteId == postIds[i]
    requires p1 == p0 + [row] && RemoteIds(p1) == RemoteIds(p0) + {postIds[i]}
    ensures p1 == before + (added + [row]) && newIds + [postIds[i]] == RemoteIdsOf(added + [row])
    ensures RemoteIds(p1) == RemoteIds(before) + ToSet(postIds[..i + 1])
    ensures ToSet(newIds + [postIds[i]]) == ToSet(postIds[..i + 1]) - RemoteIds(before)
  {
    var x := postIds[i];
    InsertStep(postIds, i);
    NewIdsStep(RemoteIds(before), ToSet(postIds[..i]), ToSet(newIds), x, true);
    RemoteIdsSnoc(added, row);
    AppendAssoc(before, added, [row]);
    ToSetAppend(newIds, [x]);
    assert ToSet([x]) == {x};
  }

  /** A value row whose remote id was known: nothing is added. */
  lemma SkippedRowStep(before: seq<PostRow>, newIds: seq<int>, postIds: seq<int>, i: nat, p0: seq<PostRow>)
    requires i < |postIds| && postIds[i] in RemoteIds(p0)
    requires RemoteIds(p0) == RemoteIds(before) + ToSet(postIds[..i])
    requires ToSet(newIds) == ToSet(postIds[..i]) - RemoteIds(before)
    ensures RemoteIds(p0) == RemoteIds(before) + ToSet(postIds[..i + 1])
    ensures ToSet(newIds) == ToSet(postIds[..i + 1]) - RemoteIds(before)
  {
    InsertStep(postIds, i);
    NewIdsStep(RemoteIds(before), ToSet(postIds[..i]), ToSet(newIds), postIds[i], false);
  }

  /** How the set of returned ids grows by one value row. */
  lemma NewIdsStep(known: set<int>, seen: set<int>, returned: set<int>, x: int, inserted: bool)
    requires returned == seen - known && (inserted <==> x !in known + seen)
    ensures inserted ==> returned + {x} == (seen + {x}) - known
    ensures !inserted ==> returned == (seen + {x}) - known
  {
  }

  /** The rows appended after a prefix of a well-formed table carry distinct remote ids. */
  lemma NewIdsDistinct(before: seq<PostRow>, posts: seq<PostRow>)
    requires WellFormed(posts) && |before| <= |posts|
    ensures NoDuplicates(RemoteIdsOf(posts[|before|..]))
  {
    var tail := posts[|before|..];
    forall i, j | 0 <= i < j < |tail| ensures tail[i].remoteId != tail[j].remoteId {
      assert tail[i] == posts[|before| + i] && tail[j] == posts[|before| + j];
    }
  }

  /** Submitting the same batch twice: the second call inserts and returns nothing. */
  method ResubmitInsertsNothing(store: Store, postIds: seq<int>) returns (first: seq<int>, second: seq<int>)
    requires store.Valid()
    modifies store
    ensures second == [] && ToSet(first) == ToSet(postIds) - RemoteIds(old(store.posts))
  {
    first := store.InsertPosts(postIds);
    second := store.InsertPosts(postIds);
    ToSetEmpty(second);
  }
}
