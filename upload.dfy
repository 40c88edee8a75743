/**
 * The upload side of the server's store (src/upload.rs): the `posts`, `tags`
 * and `post_tags` tables as this revision writes them, the lookup-or-insert
 * transaction that stores one uploaded post with its tags, the read queries
 * that report what is stored, and the multipart form decoding of an upload.
 */
module Upload {
  import opened Wrappers
  import opened Seqs
  import opened Text
  import Files

  /** `posts(id, external_id, extension, mime, original)`; `id` is SQLite's rowid. */
  datatype PostRow = PostRow(id: int, externalId: int, extension: string, mime: string, original: bool)

  /** `tags(id, name, kind)`; the kind column holds `TagKind::as_str`. */
  datatype TagRow = TagRow(id: int, name: string, kind: string)

  /** `post_tags(post_id, tag_id)`; `tag_id` is the subquery's value, `None` for SQL NULL. */
  datatype PostTag = PostTag(postId: int, tagId: Option<int>)

  datatype TagKind = Copyright | Character | Artist | General | Metadata

  /** A tag of an upload: a name and a kind. */
  datatype Tag = Tag(name: string, kind: TagKind)

  /** A failed statement inside the transaction, or a malformed upload. */
  datatype UploadError = DbFailure | BadId | BadTagsJson | MissingId | MissingImage

  /** `TagKind::as_str`. */
  function AsStr(k: TagKind): (s: string)
    ensures s != [] && forall i :: 0 <= i < |s| ==> 'a' <= s[i] <= 'z'
  {
    match k
    case Copyright => "copyright"
    case Character => "character"
    case Artist => "artist"
    case General => "general"
    case Metadata => "metadata"
  }

  /** The variant serde accepts for a string under `rename_all = "lowercase"`. */
  function ParseTagKind(s: string): (k: Option<TagKind>)
    ensures k.Some? <==> s in ["copyright", "character", "artist", "general", "metadata"]
  {
    if s == "copyright" then Some(Copyright)
    else if s == "character" then Some(Character)
    else if s == "artist" then Some(Artist)
    else if s == "general" then Some(General)
    else if s == "metadata" then Some(Metadata)
    else None
  }

  /** `as_str` gives back exactly the name serde reads and writes for every variant. */
  lemma AsStrIsSerdeName(k: TagKind)
    ensures ParseTagKind(AsStr(k)) == Some(k)
  {
  }

  lemma AsStrInjective(a: TagKind, b: TagKind)
    ensures AsStr(a) == AsStr(b) <==> a == b
  {
    AsStrIsSerdeName(a);
    AsStrIsSerdeName(b);
  }

  /** Every string serde accepts is the `as_str` of the variant it yields. */
  lemma SerdeNameIsAsStr(s: string)
    ensures ParseTagKind(s).Some? ==> AsStr(ParseTagKind(s).value) == s
  {
  }

  // ---------------------------------------------------------------- posts

  /** Ids ascend along the table (rowid order) and `external_id` is unique. */
  ghost predicate PostsWellFormed(posts: seq<PostRow>) {
    && (forall i, j :: 0 <= i < j < |posts| ==> posts[i].id < posts[j].id)
    && (forall i, j :: 0 <= i < j < |posts| ==> posts[i].externalId != posts[j].externalId)
  }

  function ExternalIds(posts: seq<PostRow>): set<int> {
    set p | p in posts :: p.externalId
  }

  function PostIds(posts: seq<PostRow>): set<int> {
    set p | p in posts :: p.id
  }

  function NextPostId(posts: seq<PostRow>): (id: int)
    ensures PostsWellFormed(posts) ==> forall p :: p in posts ==> p.id < id
  {
    if posts == [] then 1 else posts[|posts| - 1].id + 1
  }

  /** `SELECT id FROM posts WHERE external_id = ?`. */
  function FindPost(posts: seq<PostRow>, externalId: int): (o: Option<PostRow>)
    ensures o.Some? <==> externalId in ExternalIds(posts)
    ensures o.Some? ==> o.value in posts && o.value.externalId == externalId
  {
    if posts == [] then None
    else if posts[0].externalId == externalId then Some(posts[0])
    else
      assert posts == [posts[0]] + posts[1..];
      FindPost(posts[1..], externalId)
  }

  /** Under a unique `external_id`, the row found is the only row with that id. */
  lemma FindPostUnique(posts: seq<PostRow>, p: PostRow)
    requires PostsWellFormed(posts) && p in posts
    ensures FindPost(posts, p.externalId) == Some(p)
  {
    var q := FindPost(posts, p.externalId).value;
    var a :| 0 <= a < |posts| && posts[a] == p;
    var b :| 0 <= b < |posts| && posts[b] == q;
    assert a == b;
  }

  lemma PostsSnoc(posts: seq<PostRow>, row: PostRow)
    requires PostsWellFormed(posts) && row.id == NextPostId(posts) && row.externalId !in ExternalIds(posts)
    ensures PostsWellFormed(posts + [row])
    ensures ExternalIds(posts + [row]) == ExternalIds(posts) + {row.externalId}
    ensures PostIds(posts + [row]) == PostIds(posts) + {row.id}
  {
    var s := posts + [row];
    forall i, j | 0 <= i < j < |s| ensures s[i].externalId != s[j].externalId {
      if j == |posts| {
        assert s[i] in posts;
      }
    }
  }

  /** With a unique external id, there are as many distinct external ids as rows. */
  lemma {:induction false} ExternalIdCount(posts: seq<PostRow>)
    requires PostsWellFormed(posts)
    ensures |ExternalIds(posts)| == |posts|
    decreases |posts|
  {
    if posts != [] {
      var init := posts[..|posts| - 1];
      var last := posts[|posts| - 1];
      assert posts == init + [last];
      PostsInit(posts);
      ExternalIdCount(init);
      ExternalIdsSnoc(init, last);
    }
  }

  /** Dropping the newest row keeps the table well formed, and its external id is not left behind. */
  lemma PostsInit(posts: seq<PostRow>)
    requires PostsWellFormed(posts) && posts != []
    ensures PostsWellFormed(posts[..|posts| - 1])
    ensures posts[|posts| - 1].externalId !in ExternalIds(posts[..|posts| - 1])
  {
    var init := posts[..|posts| - 1];
    var last := posts[|posts| - 1];
    forall i, j | 0 <= i < j < |init|
      ensures init[i].id < init[j].id && init[i].externalId != init[j].externalId
    {
      assert init[i] == posts[i] && init[j] == posts[j];
    }
    forall p | p in init ensures p.externalId != last.externalId {
      var k :| 0 <= k < |init| && init[k] == p;
      assert posts[k] == p;
    }
  }

  lemma ExternalIdsSnoc(posts: seq<PostRow>, row: PostRow)
    ensures ExternalIds(posts + [row]) == ExternalIds(posts) + {row.externalId}
  {
  }

  /**
   * `filter_already_downloaded_posts`: `SELECT external_id FROM posts WHERE
   * external_id IN (...)`, no query at all for an empty list. Rows come in
   * table order.
   */
  function FilterAlreadyDownloaded(posts: seq<PostRow>, postIds: seq<int>): (r: seq<int>)
    ensures postIds == [] ==> r == []
    ensures forall x :: x in r <==> x in postIds && x in ExternalIds(posts)
    ensures PostsWellFormed(posts) ==> NoDuplicates(r)
    decreases |posts|
  {
    if postIds == [] || posts == [] then []
    else
      var init := posts[..|posts| - 1];
      var last := posts[|posts| - 1];
      assert posts == init + [last];
      assert PostsWellFormed(posts) ==> PostsWellFormed(init);
      assert PostsWellFormed(posts) ==> last.externalId !in ExternalIds(init) by {
        if PostsWellFormed(posts) {
          forall p | p in init ensures p.externalId != last.externalId {
            var k :| 0 <= k < |init| && init[k] == p;
            assert posts[k] == p;
          }
        }
      }
      FilterAlreadyDownloaded(init, postIds) + (if last.externalId in postIds then [last.externalId] else [])
  }

  // ---------------------------------------------------------------- tags

  /** Ids ascend along the table and `name` is unique (the conflict target of the upsert). */
  ghost predicate TagsWellFormed(tags: seq<TagRow>) {
    && (forall i, j :: 0 <= i < j < |tags| ==> tags[i].id < tags[j].id)
    && (forall i, j :: 0 <= i < j < |tags| ==> tags[i].name != tags[j].name)
  }

  function TagNames(tags: seq<TagRow>): set<string> {
    set t | t in tags :: t.name
  }

  function NextTagId(tags: seq<TagRow>): (id: int)
    ensures TagsWellFormed(tags) ==> forall t :: t in tags ==> t.id < id
  {
    if tags == [] then 1 else tags[|tags| - 1].id + 1
  }

  /** `SELECT id FROM tags WHERE name = ?`, NULL when no tag has the name. */
  function FindTag(tags: seq<TagRow>, name: string): (o: Option<int>)
    ensures o.Some? <==> name in TagNames(tags)
    ensures o.Some? ==> exists t :: t in tags && t.name == name && t.id == o.value
  {
    if tags == [] then None
    else if tags[0].name == name then Some(tags[0].id)
    else
      assert tags == [tags[0]] + tags[1..];
      FindTag(tags[1..], name)
  }

  /** `INSERT INTO tags (name, kind) VALUES (?, ?) ON CONFLICT DO NOTHING`. */
  function UpsertTag(tags: seq<TagRow>, name: string, kind: string): (r: seq<TagRow>)
    ensures name in TagNames(tags) ==> r == tags
    ensures name !in TagNames(tags) ==> r == tags + [TagRow(NextTagId(tags), name, kind)]
  {
    if name in TagNames(tags) then tags else tags + [TagRow(NextTagId(tags), name, kind)]
  }

  /** The upsert keeps the table well formed, keeps every row, and makes the name known. */
  lemma UpsertTagProperties(tags: seq<TagRow>, name: string, kind: string)
    requires TagsWellFormed(tags)
    ensures var r := UpsertTag(tags, name, kind);
      && TagsWellFormed(r)
      && |tags| <= |r| && r[..|tags|] == tags
      && TagNames(r) == TagNames(tags) + {name}
      && forall n :: n in TagNames(tags) ==> FindTag(r, n) == FindTag(tags, n)
  {
    UpsertTagRows(tags, name, kind);
    UpsertTagNames(tags, name, kind);
    UpsertTagFinds(tags, name, kind);
  }

  /** The upsert keeps the table well formed and keeps every row. */
  lemma UpsertTagRows(tags: seq<TagRow>, name: string, kind: string)
    requires TagsWellFormed(tags)
    ensures var r := UpsertTag(tags, name, kind);
      TagsWellFormed(r) && |tags| <= |r| && r[..|tags|] == tags
  {
    var r := UpsertTag(tags, name, kind);
    if name !in TagNames(tags) {
      forall i, j | 0 <= i < j < |r| ensures r[i].name != r[j].name {
        if j == |tags| {
          assert r[i] in tags;
        }
      }
    }
  }

  /** After the upsert the name is known, and no other name is added. */
  lemma UpsertTagNames(tags: seq<TagRow>, name: string, kind: string)
    ensures TagNames(UpsertTag(tags, name, kind)) == TagNames(tags) + {name}
  {
    if name !in TagNames(tags) {
      var row := TagRow(NextTagId(tags), name, kind);
      assert forall t :: t in tags + [row] <==> t in tags || t == row;
    }
  }

  /** Every name known before the upsert is found where it was. */
  lemma UpsertTagFinds(tags: seq<TagRow>, name: string, kind: string)
    ensures var r := UpsertTag(tags, name, kind);
      forall n :: n in TagNames(tags) ==> FindTag(r, n) == FindTag(tags, n)
  {
    if name !in TagNames(tags) {
      forall n | n in TagNames(tags) ensures FindTag(UpsertTag(tags, name, kind), n) == FindTag(tags, n) {
        FindTagPrefix(tags, [TagRow(NextTagId(tags), name, kind)], n);
      }
    }
  }

  /** Looking a known name up is not affected by rows appended later. */
  lemma {:induction false} FindTagPrefix(tags: seq<TagRow>, more: seq<TagRow>, n: string)
    requires n in TagNames(tags)
    ensures FindTag(tags + more, n) == FindTag(tags, n)
    decreases |tags|
  {
    assert (tags + more)[0] == tags[0];
    if tags[0].name != n {
      assert (tags + more)[1..] == tags[1..] + more;
      assert tags == [tags[0]] + tags[1..];
      FindTagPrefix(tags[1..], more, n);
    }
  }

  /** The tag table after the upserts for the first `|list|` tags of an upload. */
  function TagsAfter(tags: seq<TagRow>, list: seq<Tag>): seq<TagRow>
    decreases |list|
  {
    if list == [] then tags
    else
      var last := list[|list| - 1];
      UpsertTag(TagsAfter(tags, list[..|list| - 1]), last.name, AsStr(last.kind))
  }

  function NamesOf(list: seq<Tag>): set<string> {
    set t | t in list :: t.name
  }

  /**
   * The upserts of an upload keep every existing tag row (so an existing tag
   * keeps its kind and id), add a row exactly for each new name, and make
   * every listed name known.
   */
  lemma TagsAfterProperties(tags: seq<TagRow>, list: seq<Tag>)
    requires TagsWellFormed(tags)
    ensures var r := TagsAfter(tags, list);
      && TagsWellFormed(r)
      && |tags| <= |r| && r[..|tags|] == tags
      && TagNames(r) == TagNames(tags) + NamesOf(list)
      && forall n :: n in TagNames(tags) ==> FindTag(r, n) == FindTag(tags, n)
  {
    TagsAfterRows(tags, list);
    TagsAfterNames(tags, list);
    var r := TagsAfter(tags, list);
    assert r == tags + r[|tags|..];
    forall n | n in TagNames(tags) ensures FindTag(r, n) == FindTag(tags, n) {
      FindTagPrefix(tags, r[|tags|..], n);
    }
  }

  lemma {:induction false} TagsAfterRows(tags: seq<TagRow>, list: seq<Tag>)
    requires TagsWellFormed(tags)
    ensures var r := TagsAfter(tags, list);
      TagsWellFormed(r) && |tags| <= |r| && r[..|tags|] == tags
    decreases |list|
  {
    if list != [] {
      var init := list[..|list| - 1];
      var last := list[|list| - 1];
      TagsAfterRows(tags, init);
      var mid := TagsAfter(tags, init);
      UpsertTagRows(mid, last.name, AsStr(last.kind));
      PrefixOfPrefix(TagsAfter(tags, list), mid, tags);
    }
  }

  lemma {:induction false} TagsAfterNames(tags: seq<TagRow>, list: seq<Tag>)
    ensures TagNames(TagsAfter(tags, list)) == TagNames(tags) + NamesOf(list)
    decreases |list|
  {
    if list != [] {
      var init := list[..|list| - 1];
      var last := list[|list| - 1];
      TagsAfterNames(tags, init);
      UpsertTagNames(TagsAfter(tags, init), last.name, AsStr(last.kind));
      NamesOfSnoc(list);
    }
  }

  lemma NamesOfSnoc(list: seq<Tag>)
    requires list != []
    ensures NamesOf(list) == NamesOf(list[..|list| - 1]) + {list[|list| - 1].name}
  {
    assert list == list[..|list| - 1] + [list[|list| - 1]];
  }

  lemma PrefixOfPrefix(r: seq<TagRow>, mid: seq<TagRow>, tags: seq<TagRow>)
    requires |mid| <= |r| && r[..|mid|] == mid && |tags| <= |mid| && mid[..|tags|] == tags
    ensures r[..|tags|] == tags
  {
    assert r[..|tags|] == r[..|mid|][..|tags|];
  }

  /** The association rows an upload adds: one per list entry, in list order. */
  function AssocRows(postId: int, tags: seq<TagRow>, list: seq<Tag>): (r: seq<PostTag>)
    ensures |r| == |list|
    ensures forall j :: 0 <= j < |list| ==> r[j] == PostTag(postId, FindTag(tags, list[j].name))
  {
    seq(|list|, j requires 0 <= j < |list| => PostTag(postId, FindTag(tags, list[j].name)))
  }

  /** Every association row an upload adds names an existing tag: the subquery never yields NULL. */
  lemma AssocRowsResolve(postId: int, tags: seq<TagRow>, list: seq<Tag>)
    requires TagsWellFormed(tags)
    ensures forall j :: 0 <= j < |list| ==> AssocRows(postId, TagsAfter(tags, list), list)[j].tagId.Some?
  {
    TagsAfterProperties(tags, list);
    forall j | 0 <= j < |list| ensures list[j].name in NamesOf(list) {
      assert list[j] in list;
    }
  }

  /** The number of statements `insert_post` runs when nothing fails, commit included. */
  function StatementCount(known: bool, list: seq<Tag>): nat {
    2 + (if known then 0 else 1) + 2 * |list| + 1
  }

  class Database {
    var posts: seq<PostRow>
    var tags: seq<TagRow>
    var postTags: seq<PostTag>

    ghost predicate Valid()
      reads this
    {
      PostsWellFormed(posts) && TagsWellFormed(tags)
    }

    constructor ()
      ensures Valid() && posts == [] && tags == [] && postTags == []
    {
      posts, tags, postTags := [], [], [];
    }

    /**
     * `insert_post`: inside one transaction, looks the external id up and
     * inserts a post row if it is new, then for each tag upserts the tag and
     * adds an association row. A failing statement aborts the transaction and
     * nothing is written; which statement fails, if any, is the parameter
     * `failAt` (statements are numbered from 0: begin, lookup, the post
     * insert when it runs, two per tag, commit).
     */
    method InsertPost(externalId: int, extension: string, mime: string, original: bool,
                      list: seq<Tag>, failAt: nat) returns (r: Result<int, UploadError>)
      requires Valid()
      modifies this
      ensures Valid()
      ensures var known := externalId in ExternalIds(old(posts));
        r.Ok? <==> failAt >= StatementCount(known, list)
      ensures r.Err? ==> r.error == DbFailure && posts == old(posts) && tags == old(tags) && postTags == old(postTags)
      ensures r.Ok? && externalId in ExternalIds(old(posts)) ==>
        posts == old(posts) && r.value == FindPost(posts, externalId).value.id
      ensures r.Ok? && externalId !in ExternalIds(old(posts)) ==>
        && r.value == NextPostId(old(posts)) && r.value !in PostIds(old(posts))
        && posts == old(posts) + [PostRow(r.value, externalId, extension, mime, original)]
      ensures r.Ok? ==>
        && tags == TagsAfter(old(tags), list)
        && postTags == old(postTags) + AssocRows(r.value, tags, list)
    {
      var ps := posts;
      var stmt := 0;
      // begin
      if stmt == failAt { return Err(DbFailure); }
      stmt := stmt + 1;
      // SELECT id FROM posts WHERE external_id = ?
      if stmt == failAt { return Err(DbFailure); }
      stmt := stmt + 1;
      var found := FindPost(ps, externalId);
      var id: int;
      if found.Some? {
        id := found.value.id;
      } else {
        if stmt == failAt { return Err(DbFailure); }
        stmt := stmt + 1;
        id := NextPostId(ps);
        PostsSnoc(ps, PostRow(id, externalId, extension, mime, original));
        ps := ps + [PostRow(id, externalId, extension, mime, original)];
      }
      var ok, ts, pts := TagStatements(id, list, tags, postTags, stmt, failAt);
      if !ok { return Err(DbFailure); }
      stmt := stmt + 2 * |list|;
      // commit
      if stmt == failAt { return Err(DbFailure); }
      posts, tags, postTags := ps, ts, pts;
      r := Ok(id);
    }

    /** `get_download_count`: `SELECT COUNT(1) FROM posts`. */
    function GetDownloadCount(): (n: int)
      requires Valid()
      reads this
      ensures n == |posts| == |ExternalIds(posts)|
    {
      ExternalIdCount(posts);
      |posts|
    }

    /** `filter_already_downloaded_posts` over the current table. */
    function FilterAlreadyDownloadedPosts(postIds: seq<int>): (r: seq<int>)
      requires Valid()
      reads this
      ensures postIds == [] ==> r == []
      ensures forall x :: x in r <==> x in postIds && x in ExternalIds(posts)
      ensures NoDuplicates(r)
    {
      FilterAlreadyDownloaded(posts, postIds)
    }
  }

  /**
   * The tag statements of `insert_post`, numbered from `stmt0`: for each tag,
   * the upsert and then the association insert. They run on the
   * transaction's copy of the tables and stop at the statement `failAt`.
   */
  method TagStatements(id: int, list: seq<Tag>, tags0: seq<TagRow>, postTags0: seq<PostTag>,
                       stmt0: nat, failAt: nat) returns (ok: bool, tags: seq<TagRow>, postTags: seq<PostTag>)
    requires TagsWellFormed(tags0) && stmt0 <= failAt
    ensures ok <==> failAt >= stmt0 + 2 * |list|
    ensures ok ==> TagsWellFormed(tags) && tags == TagsAfter(tags0, list)
    ensures ok ==> postTags == postTags0 + AssocRows(id, tags, list)
  {
    var stmt := stmt0;
    tags, postTags := tags0, postTags0;
    var i := 0;
    while i < |list|
      invariant 0 <= i <= |list|
      invariant stmt == stmt0 + 2 * i <= failAt
      invariant TagsWellFormed(tags) && tags == TagsAfter(tags0, list[..i])
      invariant postTags == postTags0 + AssocRows(id, tags, list[..i])
    {
      if stmt == failAt { return false, tags, postTags; }
      stmt := stmt + 1;
      var t := list[i];
      var next := UpsertTag(tags, t.name, AsStr(t.kind));
      if stmt == failAt { return false, tags, postTags; }
      stmt := stmt + 1;
      TagStep(id, tags0, list, i, tags, next, postTags0, postTags);
      tags := next;
      postTags := postTags + [PostTag(id, FindTag(tags, t.name))];
      i := i + 1;
    }
    assert list[..i] == list;
    ok := true;
  }

  /** One tag of the upload: the upsert and association row keep the loop's description. */
  lemma TagStep(id: int, tags0: seq<TagRow>, list: seq<Tag>, i: nat, tags: seq<TagRow>, next: seq<TagRow>,
                postTags0: seq<PostTag>, postTags: seq<PostTag>)
    requires i < |list| && TagsWellFormed(tags0) && tags == TagsAfter(tags0, list[..i])
    requires next == UpsertTag(tags, list[i].name, AsStr(list[i].kind))
    requires postTags == postTags0 + AssocRows(id, tags, list[..i])
    ensures TagsWellFormed(next) && next == TagsAfter(tags0, list[..i + 1])
    ensures postTags + [PostTag(id, FindTag(next, list[i].name))] == postTags0 + AssocRows(id, next, list[..i + 1])
  {
    var t := list[i];
    TagsAfterNext(tags0, list, i);
    TagsAfterRows(tags0, list[..i]);
    TagsAfterNames(tags0, list[..i]);
    UpsertTagRows(tags, t.name, AsStr(t.kind));
    AssocRowsGrow(id, tags, next, list[..i], t);
    AppendAssoc(postTags0, AssocRows(id, tags, list[..i]), [PostTag(id, FindTag(next, t.name))]);
  }

  /** One more tag of the list is one more upsert. */
  lemma TagsAfterNext(tags0: seq<TagRow>, list: seq<Tag>, i: nat)
    requires i < |list|
    ensures list[..i + 1] == list[..i] + [list[i]]
    ensures TagsAfter(tags0, list[..i + 1]) == UpsertTag(TagsAfter(tags0, list[..i]), list[i].name, AsStr(list[i].kind))
  {
    assert list[..i + 1][..i] == list[..i];
  }

  /** The association rows built step by step equal those read off the final tag table. */
  lemma AssocRowsGrow(id: int, ts: seq<TagRow>, ts': seq<TagRow>, done: seq<Tag>, t: Tag)
    requires TagsWellFormed(ts) && ts' == UpsertTag(ts, t.name, AsStr(t.kind))
    requires NamesOf(done) <= TagNames(ts)
    ensures AssocRows(id, ts, done) + [PostTag(id, FindTag(ts', t.name))] == AssocRows(id, ts', done + [t])
  {
    UpsertTagFinds(ts, t.name, AsStr(t.kind));
    forall j | 0 <= j < |done| ensures FindTag(ts', done[j].name) == FindTag(ts, done[j].name) {
      assert done[j] in done;
    }
  }

  // ---------------------------------------------------------------- multipart

  /**
   * One field of the multipart form: its name (absent names read as ""), its
   * text, the content streamed into a temporary file when it is the image,
   * and what `serde_json::from_str` makes of its text as a tag list.
   */
  datatype Part = Part(name: Option<string>, text: string, image: Files.Content, tagsJson: Option<seq<Tag>>)

  datatype PostData = PostData(id: int, image: Files.Content, tags: seq<Tag>)

  function FieldName(p: Part): string {
    match p.name
    case Some(n) => n
    case None => ""
  }

  /** The id a field's text gives: trimmed, then parsed as an `i64`. */
  function ParseId(text: string): (r: Option<int>)
    ensures r.Some? ==> InI64(r.value)
    ensures Trim(Rust, text) == "" ==> r.None?
    ensures forall n :: InI64(n) && Trim(Rust, text) == IntToString(n) ==> r == Some(n)
  {
    var t := Trim(Rust, text);
    assert forall n :: InI64(n) && t == IntToString(n) ==> ParseI64(t) == Some(n) by {
      forall n | InI64(n) && t == IntToString(n) ensures ParseI64(t) == Some(n) {
        ParseI64OfIntToString(n);
      }
    }
    ParseI64(t)
  }

  /** The error a field raises by itself, if any. */
  function PartError(p: Part): Option<UploadError> {
    if FieldName(p) == "id" && ParseId(p.text).None? then Some(BadId)
    else if FieldName(p) == "tags" && p.tagsJson.None? then Some(BadTagsJson)
    else None
  }

  /** The error of the earliest failing field. */
  function FirstError(parts: seq<Part>): Option<UploadError>
    decreases |parts|
  {
    if parts == [] then None
    else
      var e := FirstError(parts[..|parts| - 1]);
      if e.Some? then e else PartError(parts[|parts| - 1])
  }

  /** The last field with the given name: a repeated field overrides the earlier ones. */
  function LastNamed(parts: seq<Part>, name: string): (o: Option<Part>)
    ensures o.Some? ==> o.value in parts && FieldName(o.value) == name
    ensures o.None? <==> forall p :: p in parts ==> FieldName(p) != name
    decreases |parts|
  {
    if parts == [] then None
    else if FieldName(parts[|parts| - 1]) == name then Some(parts[|parts| - 1])
    else
      assert parts == parts[..|parts| - 1] + [parts[|parts| - 1]];
      LastNamed(parts[..|parts| - 1], name)
  }

  /**
   * What `from_multipart` makes of a form: the first field error if any;
   * otherwise the last `id` and `image` fields, both required, and the last
   * `tags` field, defaulting to no tags. Other field names are ignored.
   */
  function Decode(parts: seq<Part>): (r: Result<PostData, UploadError>)
    ensures r.Ok? ==> LastNamed(parts, "id").Some? && LastNamed(parts, "image").Some?
    ensures r.Ok? ==> Some(r.value.id) == ParseId(LastNamed(parts, "id").value.text)
    ensures r.Ok? && LastNamed(parts, "tags").None? ==> r.value.tags == []
  {
    if FirstError(parts).Some? then Err(FirstError(parts).value)
    else
      var idPart := LastNamed(parts, "id");
      var imagePart := LastNamed(parts, "image");
      var tagsPart := LastNamed(parts, "tags");
      if idPart.None? then Err(MissingId)
      else if imagePart.None? then Err(MissingImage)
      else
        NoErrorInAnyPart(parts, idPart.value);
        var tags := if tagsPart.None? then [] else (NoErrorInAnyPart(parts, tagsPart.value); tagsPart.value.tagsJson.value);
        Ok(PostData(ParseId(idPart.value.text).value, imagePart.value.image, tags))
  }

  /** A form without an error has no malformed field. */
  lemma {:induction false} NoErrorInAnyPart(parts: seq<Part>, p: Part)
    requires FirstError(parts).None? && p in parts
    ensures PartError(p).None?
    decreases |parts|
  {
    var init := parts[..|parts| - 1];
    if p != parts[|parts| - 1] {
      assert parts == init + [parts[|parts| - 1]];
      NoErrorInAnyPart(init, p);
    }
  }

  /**
   * `PostData::from_multipart`: reads the fields in order, overwriting the
   * value of each known name, failing on the first malformed `id` or `tags`,
   * and validating the required fields at the end.
   */
  method FromMultipart(parts: seq<Part>) returns (r: Result<PostData, UploadError>)
    ensures r == Decode(parts)
  {
    var id: Option<int> := None;
    var image: Option<Files.Content> := None;
    var tags: Option<seq<Tag>> := None;
    var i := 0;
    while i < |parts|
      invariant 0 <= i <= |parts|
      invariant FirstError(parts[..i]).None?
      invariant id == LastId(parts[..i])
      invariant image == LastImage(parts[..i])
      invariant tags == LastTags(parts[..i])
    {
      PrefixStep(parts, i);
      var err;
      err, id, image, tags := ReadField(parts[i], id, image, tags);
      if err.Some? {
        DecodeOfPrefixError(parts, i + 1, err.value);
        return Err(err.value);
      }
      i := i + 1;
    }
    assert parts[..i] == parts;
    DecodeByLast(parts);
    if id.None? {
      return Err(MissingId);
    }
    if image.None? {
      return Err(MissingImage);
    }
    var t := if tags.Some? then tags.value else [];
    r := Ok(PostData(id.value, image.value, t));
  }

  /**
   * One field of the `while let` loop: an `id` is trimmed and parsed, an
   * `image` kept, a `tags` field decoded; each overwrites its slot, and a
   * malformed `id` or `tags` is an error.
   */
  method ReadField(p: Part, id0: Option<int>, image0: Option<Files.Content>, tags0: Option<seq<Tag>>)
    returns (err: Option<UploadError>, id: Option<int>, image: Option<Files.Content>, tags: Option<seq<Tag>>)
    ensures err == PartError(p)
    ensures err.None? ==>
              && id == (if FieldName(p) == "id" then ParseId(p.text) else id0)
              && image == (if FieldName(p) == "image" then Some(p.image) else image0)
              && tags == (if FieldName(p) == "tags" then p.tagsJson else tags0)
  {
    err, id, image, tags := None, id0, image0, tags0;
    var name := FieldName(p);
    if name == "id" {
      var parsed := ParseId(p.text);
      if parsed.None? {
        return Some(BadId), id, image, tags;
      }
      id := parsed;
    } else if name == "image" {
      image := Some(p.image);
    } else if name == "tags" {
      if p.tagsJson.None? {
        return Some(BadTagsJson), id, image, tags;
      }
      tags := p.tagsJson;
    }
  }

  /** The parsed value of the last `id` field. */
  function LastId(parts: seq<Part>): Option<int> {
    match LastNamed(parts, "id")
    case None => None
    case Some(p) => ParseId(p.text)
  }

  function LastImage(parts: seq<Part>): Option<Files.Content> {
    match LastNamed(parts, "image")
    case None => None
    case Some(p) => Some(p.image)
  }

  function LastTags(parts: seq<Part>): Option<seq<Tag>> {
    match LastNamed(parts, "tags")
    case None => None
    case Some(p) => p.tagsJson
  }

  /** One more field: the error and the last values of the longer prefix. */
  lemma PrefixStep(parts: seq<Part>, i: nat)
    requires i < |parts|
    ensures var s := parts[..i + 1]; var p := parts[i];
      && FirstError(s) == (if FirstError(parts[..i]).Some? then FirstError(parts[..i]) else PartError(p))
      && LastId(s) == (if FieldName(p) == "id" then ParseId(p.text) else LastId(parts[..i]))
      && LastImage(s) == (if FieldName(p) == "image" then Some(p.image) else LastImage(parts[..i]))
      && LastTags(s) == (if FieldName(p) == "tags" then p.tagsJson else LastTags(parts[..i]))
  {
    assert parts[..i + 1][..i] == parts[..i];
  }

  /** Without a field error, the decoded form is read off the last values. */
  lemma DecodeByLast(parts: seq<Part>)
    requires FirstError(parts).None?
    ensures Decode(parts) ==
      if LastId(parts).None? then Err(MissingId)
      else if LastImage(parts).None? then Err(MissingImage)
      else Ok(PostData(LastId(parts).value, LastImage(parts).value,
                       if LastTags(parts).Some? then LastTags(parts).value else []))
  {
    if LastNamed(parts, "id").Some? {
      NoErrorInAnyPart(parts, LastNamed(parts, "id").value);
    }
    if LastNamed(parts, "tags").Some? {
      NoErrorInAnyPart(parts, LastNamed(parts, "tags").value);
    }
  }

  /** An error in a prefix of the form is the error of the whole form. */
  lemma {:induction false} FirstErrorPrefix(parts: seq<Part>, n: nat)
    requires n <= |parts|
    ensures FirstError(parts[..n]).Some? ==> FirstError(parts) == FirstError(parts[..n])
    decreases |parts| - n
  {
    if n < |parts| && FirstError(parts[..n]).Some? {
      FirstErrorStep(parts, n);
      FirstErrorPrefix(parts, n + 1);
    } else if n == |parts| {
      assert parts[..n] == parts;
    }
  }

  /** A form whose prefix has an error decodes to that error. */
  lemma DecodeOfPrefixError(parts: seq<Part>, n: nat, e: UploadError)
    requires n <= |parts| && FirstError(parts[..n]) == Some(e)
    ensures Decode(parts) == Err(e)
  {
    FirstErrorPrefix(parts, n);
  }

  /** The earliest error of one more field: the earlier one, if any, else that field's own. */
  lemma FirstErrorStep(parts: seq<Part>, i: nat)
    requires i < |parts|
    ensures FirstError(parts[..i + 1]) ==
              if FirstError(parts[..i]).Some? then FirstError(parts[..i]) else PartError(parts[i])
  {
    assert parts[..i + 1][..i] == parts[..i];
  }

  /** A field with a name other than `id`, `image` and `tags` changes nothing. */
  lemma UnknownFieldIgnored(parts: seq<Part>, p: Part)
    requires FieldName(p) != "id" && FieldName(p) != "image" && FieldName(p) != "tags"
    ensures Decode(parts + [p]) == Decode(parts)
  {
    var s := parts + [p];
    assert s[..|s| - 1] == parts;
    assert FirstError(s) == FirstError(parts);
    assert LastNamed(s, "id") == LastNamed(parts, "id");
    assert LastNamed(s, "image") == LastNamed(parts, "image");
    assert LastNamed(s, "tags") == LastNamed(parts, "tags");
  }

  /** A second `id`, `image` or `tags` field overrides the first. */
  lemma RepeatedFieldOverrides(parts: seq<Part>, p: Part)
    requires FieldName(p) in {"id", "image", "tags"} && PartError(p).None?
    requires FirstError(parts).None?
    ensures LastNamed(parts + [p], FieldName(p)) == Some(p)
    ensures FirstError(parts + [p]).None?
  {
    var s := parts + [p];
    assert s[..|s| - 1] == parts;
  }

  /** A form with well-formed `id` and `image` fields and no `tags` decodes to an untagged post. */
  lemma MissingTagsDefaultToEmpty(idPart: Part, imagePart: Part)
    requires FieldName(idPart) == "id" && ParseId(idPart.text).Some?
    requires FieldName(imagePart) == "image"
    ensures Decode([idPart, imagePart]) == Ok(PostData(ParseId(idPart.text).value, imagePart.image, []))
  {
    var parts := [idPart, imagePart];
    assert parts[..1] == [idPart] && [idPart][..0] == [];
    assert FirstError([idPart]) == None;
    assert FirstError(parts) == None;
    assert LastNamed(parts, "id") == Some(idPart);
    assert LastNamed(parts, "image") == Some(imagePart);
    assert LastNamed(parts, "tags") == None;
  }

  /** The id text is trimmed before it is parsed. */
  lemma IdIsTrimmed(n: int)
    requires InI64(n)
    ensures ParseId(" " + IntToString(n) + "\n") == Some(n)
  {
    ParseI64OfIntToString(n);
    var s := IntToString(n);
    IntToStringEnds(n);
    TrimPadded(Rust, " ", s, "\n");
  }
}
