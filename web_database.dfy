/** The gallery's read-only queries (src/web/database.rs). */
module WebDatabase {
  import opened Wrappers
  import opened Seqs
  import opened Text
  import opened Sql
  import opened WebModels

  /** A row of the gallery's `posts` table: its id and the key the gallery is ordered by. */
  datatype PostRow = PostRow(id: int, sortId: int)

  /** A joined row before projection, keeping the `sort_id` the query orders by. */
  datatype Joined = Joined(sortId: int, post: Post)

  /** `FROM posts p JOIN downloads d ON d.id = p.id`, in nested-loop order. */
  function Join(posts: seq<PostRow>, downloads: seq<Post>): seq<Joined> {
    if posts == [] then [] else Matches(posts[0], downloads) + Join(posts[1..], downloads)
  }

  /** The download rows joined to one post row. */
  function Matches(p: PostRow, downloads: seq<Post>): seq<Joined> {
    if downloads == [] then []
    else (if downloads[0].id == p.id then [Joined(p.sortId, downloads[0])] else []) + Matches(p, downloads[1..])
  }

  /** A row joined to `p` is a downloads row with `p`'s id, carrying `p`'s `sort_id`. */
  lemma {:induction false} MatchesMembers(p: PostRow, downloads: seq<Post>)
    ensures forall j :: j in Matches(p, downloads) <==> j.post in downloads && j.post.id == p.id && j.sortId == p.sortId
  {
    if downloads != [] {
      assert downloads == [downloads[0]] + downloads[1..];
      MatchesMembers(p, downloads[1..]);
    }
  }

  /** The joined rows are exactly the pairs of a post row and a downloads row with the same id. */
  lemma {:induction false} JoinMembers(posts: seq<PostRow>, downloads: seq<Post>)
    ensures forall j :: j in Join(posts, downloads) <==>
              exists p :: p in posts && j.post in downloads && j.post.id == p.id && j.sortId == p.sortId
  {
    if posts != [] {
      assert posts == [posts[0]] + posts[1..];
      MatchesMembers(posts[0], downloads);
      JoinMembers(posts[1..], downloads);
    }
  }

  predicate SortedDesc(rows: seq<Joined>) {
    forall i, j :: 0 <= i < j < |rows| ==> rows[i].sortId >= rows[j].sortId
  }

  /** A row put in front of sorted rows whose first `sort_id` is at most its own keeps them sorted. */
  lemma SortedCons(h: Joined, rest: seq<Joined>)
    requires SortedDesc(rest) && (rest != [] ==> h.sortId >= rest[0].sortId)
    ensures SortedDesc([h] + rest)
  {
    var r := [h] + rest;
    forall i, j | 0 <= i < j < |r| ensures r[i].sortId >= r[j].sortId {
      if i == 0 && j > 1 {
        assert rest[0].sortId >= rest[j - 1].sortId;
      }
    }
  }

  lemma SortedTail(rows: seq<Joined>)
    requires SortedDesc(rows) && rows != []
    ensures SortedDesc(rows[1..])
  {
    forall i, j | 0 <= i < j < |rows| - 1 ensures rows[1..][i].sortId >= rows[1..][j].sortId {
      assert rows[i + 1].sortId >= rows[j + 1].sortId;
    }
  }

  /** Places `x` after every row with a `sort_id` at least its own. */
  function Insert(x: Joined, rows: seq<Joined>): (r: seq<Joined>)
    requires SortedDesc(rows)
    ensures |r| == |rows| + 1 && (r[0] == x || (rows != [] && r[0] == rows[0]))
    ensures SortedDesc(r) && multiset(r) == multiset(rows) + multiset{x}
  {
    if rows == [] then [x]
    else if rows[0].sortId >= x.sortId then
      SortedTail(rows);
      var rest := Insert(x, rows[1..]);
      SortedCons(rows[0], rest);
      assert rows == [rows[0]] + rows[1..];
      [rows[0]] + rest
    else
      SortedCons(x, rows);
      [x] + rows
  }

  /** `ORDER BY p.sort_id DESC`: a permutation of the rows with non-increasing `sort_id`. */
  function OrderBySortIdDesc(rows: seq<Joined>): (r: seq<Joined>)
    ensures SortedDesc(r) && multiset(r) == multiset(rows)
  {
    if rows == [] then []
    else
      assert rows == [rows[0]] + rows[1..];
      Insert(rows[0], OrderBySortIdDesc(rows[1..]))
  }

  /** The projection `SELECT p.id, d.file_name, d.mime`. */
  function Project(rows: seq<Joined>): (r: seq<Post>)
    ensures |r| == |rows| && forall k :: 0 <= k < |r| ==> r[k] == rows[k].post
  {
    seq(|rows|, k requires 0 <= k < |rows| => rows[k].post)
  }

  /** The ordered joined rows a page is cut from. */
  function Ordered(posts: seq<PostRow>, downloads: seq<Post>): (r: seq<Joined>)
    ensures SortedDesc(r) && multiset(r) == multiset(Join(posts, downloads))
  {
    OrderBySortIdDesc(Join(posts, downloads))
  }

  /**
   * `get_page(limit, offset)`: the joined rows ordered by `sort_id` descending,
   * at most `limit` of them after skipping `offset`. A post appears only
   * through a downloads row whose `id` equals the post's `id`.
   */
  function GetPage(posts: seq<PostRow>, downloads: seq<Post>, limit: int, offset: int): (r: seq<Post>)
    ensures var all := Ordered(posts, downloads);
      var o := Skip(offset, |all|);
      && (limit >= 0 ==> |r| <= limit)
      && |r| == (if limit < 0 then |all| - o else Min(limit, |all| - o))
      && forall k :: 0 <= k < |r| ==> r[k] == all[o + k].post
  {
    ProjectPage(Ordered(posts, downloads), limit, offset)
  }

  /** `LIMIT limit OFFSET offset` on the ordered rows, projected. */
  function ProjectPage(all: seq<Joined>, limit: int, offset: int): (r: seq<Post>)
    ensures var o := Skip(offset, |all|);
      && (limit >= 0 ==> |r| <= limit)
      && |r| == (if limit < 0 then |all| - o else Min(limit, |all| - o))
      && forall k :: 0 <= k < |r| ==> r[k] == all[o + k].post
  {
    var page := LimitOffset(all, limit, offset);
    assert forall k :: 0 <= k < |page| ==> page[k] == all[Skip(offset, |all|) + k];
    Project(page)
  }

  /** Every row of a page is a downloads row joined, by equal ids, to a post row. */
  lemma PageRowsAreJoined(posts: seq<PostRow>, downloads: seq<Post>, limit: int, offset: int, k: nat)
    requires k < |GetPage(posts, downloads, limit, offset)|
    ensures var d := GetPage(posts, downloads, limit, offset)[k];
      d in downloads && exists p :: p in posts && p.id == d.id
  {
    var all := Ordered(posts, downloads);
    var j := all[Skip(offset, |all|) + k];
    assert j in multiset(all);
    assert j in Join(posts, downloads);
    JoinMembers(posts, downloads);
  }

  /**
   * Paging through with a fixed page size visits the ordered rows without gaps
   * or overlaps. The model fixes one order among rows with equal `sort_id`;
   * SQLite does not promise the same tie order to two separate queries, so for
   * tied rows this holds of the model only.
   */
  lemma AdjacentPages(posts: seq<PostRow>, downloads: seq<Post>, size: nat, offset: nat)
    ensures GetPage(posts, downloads, size, offset) + GetPage(posts, downloads, size, offset + size)
              == GetPage(posts, downloads, 2 * size, offset)
  {
    AdjacentSlices(Ordered(posts, downloads), size, offset);
  }

  /** Two pages of one size cut back to back from the same rows make one page of twice the size. */
  lemma AdjacentSlices(all: seq<Joined>, size: nat, offset: nat)
    ensures ProjectPage(all, size, offset) + ProjectPage(all, size, offset + size)
              == ProjectPage(all, 2 * size, offset)
  {
    var a := ProjectPage(all, size, offset);
    var b := ProjectPage(all, size, offset + size);
    var c := ProjectPage(all, 2 * size, offset);
    assert |a + b| == |c|;
    forall k | 0 <= k < |c| ensures (a + b)[k] == c[k] {
      if k >= |a| {
        assert |a| == size;
      }
    }
  }

  datatype QueryError = RowNotFound

  /** `get_post_for_send_image(id)`: `fetch_one` of the downloads rows with that id (the first one). */
  function GetPostForSendImage(downloads: seq<Post>, id: int): (r: Result<Post, QueryError>)
    ensures r.Ok? <==> exists d :: d in downloads && d.id == id
    ensures r.Ok? ==> r.value in downloads && r.value.id == id
  {
    if downloads == [] then Err(RowNotFound)
    else if downloads[0].id == id then Ok(downloads[0])
    else
      assert downloads == [downloads[0]] + downloads[1..];
      GetPostForSendImage(downloads[1..], id)
  }

  const SuggestionLimit: nat := 10

  /** `get_tag_suggestions(input)`: at most ten tags whose name contains the input. */
  function GetTagSuggestions(view: seq<Tag>, input: string): (r: seq<Tag>)
    ensures |r| <= SuggestionLimit
    ensures forall t :: t in r ==> t in view && Contains(t.name, input)
    ensures |r| < SuggestionLimit ==> forall t :: t in view && Contains(t.name, input) ==> t in r
  {
    FirstMatches(view, (t: Tag) => t.name, input, SuggestionLimit)
  }
}
