/**
 * The web server's search endpoints (src/search.rs): the query-string
 * tokeniser, the tag-intersection query, tag autocompletion, and which file
 * `serve_image`/`serve_mini` read for a post. Queries run over the tables as
 * the upload path writes them.
 */
module Search {
  import opened Wrappers
  import opened Seqs
  import opened Text
  import opened Files
  import opened Sql
  import U = Upload
  import MP = MediaProcessor

  // ---------------------------------------------------------------------------
  // `Search::new`

  datatype Terms = Terms(included: seq<string>, excluded: seq<string>)

  /** The tokens kept as include terms: those not starting with `-`, unchanged, in order. */
  function Includes(words: seq<string>): (r: seq<string>)
    ensures forall i :: 0 <= i < |r| ==> r[i] in words && !StartsWith(r[i], "-")
  {
    if words == [] then []
    else
      var w := words[|words| - 1];
      Includes(words[..|words| - 1]) + (if StartsWith(w, "-") then [] else [w])
  }

  /** The tokens starting with `-`, with that one `-` removed; a lone `-` yields nothing. */
  function Excludes(words: seq<string>): (r: seq<string>)
    ensures forall i :: 0 <= i < |r| ==> r[i] != [] && "-" + r[i] in words
  {
    if words == [] then []
    else
      var w := words[|words| - 1];
      Excludes(words[..|words| - 1])
        + (if StartsWith(w, "-") && |w| > 1 then assert w == w[..1] + w[1..]; [w[1..]] else [])
  }

  /** `Search::new(input)`: each white-space separated token goes to one list or is dropped. */
  method New(input: string) returns (s: Terms)
    ensures s == Terms(Includes(SplitWhitespace(input)), Excludes(SplitWhitespace(input)))
  {
    var words := SplitWhitespace(input);
    var included: seq<string> := [];
    var excluded: seq<string> := [];
    var i := 0;
    while i < |words|
      invariant 0 <= i <= |words|
      invariant included == Includes(words[..i]) && excluded == Excludes(words[..i])
    {
      var term := words[i];
      assert words[..i + 1][..i] == words[..i];
      if StartsWith(term, "-") {
        var t := term[1..];
        if t != [] {
          excluded := excluded + [t];
        }
      } else {
        included := included + [term];
      }
      i := i + 1;
    }
    assert words[..i] == words;
    s := Terms(included, excluded);
  }

  /** Keeping or dropping tokens distributes over concatenation, so terms keep the input order. */
  lemma {:induction false} TermsAppend(a: seq<string>, b: seq<string>)
    ensures Includes(a + b) == Includes(a) + Includes(b)
    ensures Excludes(a + b) == Excludes(a) + Excludes(b)
    decreases |b|
  {
    if b != [] {
      var b' := b[..|b| - 1];
      assert (a + b)[..|a + b| - 1] == a + b';
      assert (a + b)[|a + b| - 1] == b[|b| - 1];
      TermsAppend(a, b');
    } else {
      assert a + b == a;
    }
  }

  /** Exactly the tokens without a leading `-` are included. */
  lemma {:induction false} IncludesMembers(words: seq<string>, t: string)
    ensures t in Includes(words) <==> t in words && !StartsWith(t, "-")
    decreases |words|
  {
    if words != [] {
      var init := words[..|words| - 1];
      assert words == init + [words[|words| - 1]];
      IncludesMembers(init, t);
    }
  }

  /** Exactly the non-empty remainders of tokens with a leading `-` are excluded. */
  lemma {:induction false} ExcludesMembers(words: seq<string>, t: string)
    ensures t in Excludes(words) <==> t != [] && "-" + t in words
    decreases |words|
  {
    if words != [] {
      var init := words[..|words| - 1];
      var w := words[|words| - 1];
      assert words == init + [w];
      ExcludesMembers(init, t);
      if w == "-" + t {
        assert StartsWith(w, "-") && w[1..] == t;
      }
    }
  }

  /** No term is empty or holds white space, and no include term starts with `-`. */
  lemma TermsWellFormed(input: string)
    ensures var ws := SplitWhitespace(input);
      && (forall t :: t in Includes(ws) ==> t != [] && NoSpace(Rust, t) && !StartsWith(t, "-"))
      && (forall t :: t in Excludes(ws) ==> t != [] && NoSpace(Rust, t))
  {
    var ws := SplitWhitespace(input);
    forall t | t in Excludes(ws) ensures t != [] && NoSpace(Rust, t) {
      var w := "-" + t;
      assert w in ws;
      assert forall i :: 0 <= i < |t| ==> t[i] == w[i + 1];
    }
  }

  /** Only one `-` is stripped: `--x` excludes `-x`, and a lone `-` vanishes. */
  lemma StripsOneDash(x: string)
    requires x != []
    ensures Includes(["-"]) == [] && Excludes(["-"]) == []
    ensures Excludes(["--" + x]) == ["-" + x] && Includes(["--" + x]) == []
  {
    assert StartsWith("-", "-");
    assert ("--" + x)[1..] == "-" + x;
    assert StartsWith("--" + x, "-");
  }

  // ---------------------------------------------------------------------------
  // `Database::search`

  /**
   * The rows `JOIN post_tags pt ON p.id = pt.post_id JOIN tags t ON t.id = pt.tag_id
   * WHERE t.name IN (include…)` yields for one post, as pairs of row positions.
   * An empty list renders as `IN ()`, which matches nothing.
   */
  function JoinedRows(tags: seq<U.TagRow>, postTags: seq<U.PostTag>, postId: int, included: seq<string>): set<(int, int)> {
    set i, j | 0 <= i < |postTags| && 0 <= j < |tags|
                 && postTags[i].postId == postId && postTags[i].tagId == Some(tags[j].id)
                 && tags[j].name in included
      :: (i, j)
  }

  /** `HAVING COUNT(1) = include.len()` for the group of this post; a group has at least one row. */
  predicate Hit(tags: seq<U.TagRow>, postTags: seq<U.PostTag>, post: U.PostRow, included: seq<string>) {
    var n := |JoinedRows(tags, postTags, post.id, included)|;
    n >= 1 && n == |included|
  }

  /** The posts whose group survives `HAVING`, in table order. */
  function Matching(posts: seq<U.PostRow>, tags: seq<U.TagRow>, postTags: seq<U.PostTag>, included: seq<string>): (r: seq<U.PostRow>)
    ensures forall p :: p in r <==> p in posts && Hit(tags, postTags, p, included)
  {
    if posts == [] then []
    else
      var init := posts[..|posts| - 1];
      var p := posts[|posts| - 1];
      assert posts == init + [p];
      Matching(init, tags, postTags, included) + (if Hit(tags, postTags, p, included) then [p] else [])
  }

  predicate Ascending(rows: seq<U.PostRow>) {
    forall i, j :: 0 <= i < j < |rows| ==> rows[i].id < rows[j].id
  }

  /** Filtering keeps the table's ascending id order. */
  lemma {:induction false} MatchingAscending(posts: seq<U.PostRow>, tags: seq<U.TagRow>, postTags: seq<U.PostTag>, included: seq<string>)
    requires Ascending(posts)
    ensures Ascending(Matching(posts, tags, postTags, included))
    decreases |posts|
  {
    if posts != [] {
      var init := posts[..|posts| - 1];
      var p := posts[|posts| - 1];
      MatchingAscending(init, tags, postTags, included);
      var m := Matching(init, tags, postTags, included);
      forall q | q in m ensures q.id < p.id {
        var k :| 0 <= k < |init| && init[k] == q;
        assert posts[k] == q;
      }
    }
  }

  /** `ORDER BY p.id DESC`: the matching posts, highest internal id first. */
  function SearchRows(posts: seq<U.PostRow>, tags: seq<U.TagRow>, postTags: seq<U.PostTag>, included: seq<string>): (r: seq<U.PostRow>)
    ensures forall p :: p in r <==> p in posts && Hit(tags, postTags, p, included)
    ensures U.PostsWellFormed(posts) ==> forall i, j :: 0 <= i < j < |r| ==> r[i].id > r[j].id
  {
    var m := Matching(posts, tags, postTags, included);
    assert U.PostsWellFormed(posts) ==> Ascending(m) by {
      if U.PostsWellFormed(posts) {
        MatchingAscending(posts, tags, postTags, included);
      }
    }
    assert forall p :: p in Reverse(m) <==> p in m by {
      forall p ensures p in Reverse(m) <==> p in m {
        if p in m {
          var k :| 0 <= k < |m| && m[k] == p;
          assert Reverse(m)[|m| - 1 - k] == p;
        }
      }
    }
    Reverse(m)
  }

  /** `SELECT p.external_id …`: the external ids of the matching posts. */
  function SearchResult(posts: seq<U.PostRow>, tags: seq<U.TagRow>, postTags: seq<U.PostTag>, included: seq<string>): (r: seq<int>)
    ensures var rows := SearchRows(posts, tags, postTags, included);
      |r| == |rows| && forall k :: 0 <= k < |r| ==> r[k] == rows[k].externalId
  {
    var rows := SearchRows(posts, tags, postTags, included);
    seq(|rows|, k requires 0 <= k < |rows| => rows[k].externalId)
  }

  /** `search(search)`: the query reads the include terms only. */
  function Run(posts: seq<U.PostRow>, tags: seq<U.TagRow>, postTags: seq<U.PostTag>, s: Terms): (r: seq<int>)
    ensures forall x :: x in r <==> exists p :: p in posts && p.externalId == x && Hit(tags, postTags, p, s.included)
    ensures s.included == [] ==> r == []
  {
    var rows := SearchRows(posts, tags, postTags, s.included);
    var r := SearchResult(posts, tags, postTags, s.included);
    assert forall x :: x in r <==> exists p :: p in posts && p.externalId == x && Hit(tags, postTags, p, s.included) by {
      forall x ensures x in r <==> exists p :: p in posts && p.externalId == x && Hit(tags, postTags, p, s.included) {
        if x in r {
          var k :| 0 <= k < |r| && r[k] == x;
          assert rows[k] in rows;
        }
        if exists p :: p in posts && p.externalId == x && Hit(tags, postTags, p, s.included) {
          var p :| p in posts && p.externalId == x && Hit(tags, postTags, p, s.included);
          var k :| 0 <= k < |rows| && rows[k] == p;
          assert r[k] == x;
        }
      }
    }
    assert s.included == [] ==> r == [] by {
      if s.included == [] {
        EmptyIncludeFindsNothing(posts, tags, postTags);
      }
    }
    r
  }

  /** The exclude terms never change the result. */
  lemma ExcludeTermsIgnored(posts: seq<U.PostRow>, tags: seq<U.TagRow>, postTags: seq<U.PostTag>, s: Terms, other: seq<string>)
    ensures Run(posts, tags, postTags, s) == Run(posts, tags, postTags, Terms(s.included, other))
  {
  }

  /** A search without include terms finds nothing: `IN ()` joins no row. */
  lemma EmptyIncludeFindsNothing(posts: seq<U.PostRow>, tags: seq<U.TagRow>, postTags: seq<U.PostTag>)
    ensures SearchResult(posts, tags, postTags, []) == []
  {
    var rows := SearchRows(posts, tags, postTags, []);
    forall p | p in posts ensures !Hit(tags, postTags, p, []) {
      assert JoinedRows(tags, postTags, p.id, []) == {};
    }
    assert ToSet(rows) == {};
    ToSetEmpty(rows);
  }

  /** The names of the tags attached to the post. */
  function PostTagNames(tags: seq<U.TagRow>, postTags: seq<U.PostTag>, postId: int): set<string> {
    set i, j | 0 <= i < |postTags| && 0 <= j < |tags|
                 && postTags[i].postId == postId && postTags[i].tagId == Some(tags[j].id)
      :: tags[j].name
  }

  /** The tag name a joined row carries. */
  function RowName(tags: seq<U.TagRow>, x: (int, int)): string {
    if 0 <= x.1 < |tags| then tags[x.1].name else ""
  }

  /** A set of joined rows carrying distinct names has as many names as rows. */
  lemma {:induction false} RowNamesCard(tags: seq<U.TagRow>, rows: set<(int, int)>)
    requires forall x, y :: x in rows && y in rows && RowName(tags, x) == RowName(tags, y) ==> x == y
    ensures |set x | x in rows :: RowName(tags, x)| == |rows|
    decreases |rows|
  {
    if rows != {} {
      var x :| x in rows;
      var rest := rows - {x};
      RowNamesCard(tags, rest);
      var img := set y | y in rest :: RowName(tags, y);
      assert (set y | y in rows :: RowName(tags, y)) == img + {RowName(tags, x)};
      assert RowName(tags, x) !in img;
    }
  }

  /** With unique tag names and no repeated association row, distinct joined rows carry distinct names. */
  lemma JoinedRowsInjective(tags: seq<U.TagRow>, postTags: seq<U.PostTag>, postId: int, included: seq<string>)
    requires U.TagsWellFormed(tags) && NoDuplicates(postTags)
    ensures var rows := JoinedRows(tags, postTags, postId, included);
      forall x, y :: x in rows && y in rows && RowName(tags, x) == RowName(tags, y) ==> x == y
  {
    var rows := JoinedRows(tags, postTags, postId, included);
    forall x, y | x in rows && y in rows && RowName(tags, x) == RowName(tags, y) ensures x == y {
      assert tags[x.1].name == tags[y.1].name;
      assert x.1 == y.1;
      assert postTags[x.0] == postTags[y.0];
      assert x.0 == y.0;
    }
  }

  /** The names the joined rows carry are the post's tag names that are among the terms. */
  lemma JoinedRowsImage(tags: seq<U.TagRow>, postTags: seq<U.PostTag>, postId: int, included: seq<string>)
    ensures (set x | x in JoinedRows(tags, postTags, postId, included) :: RowName(tags, x))
              == PostTagNames(tags, postTags, postId) * ToSet(included)
  {
    var rows := JoinedRows(tags, postTags, postId, included);
    var names := PostTagNames(tags, postTags, postId) * ToSet(included);
    forall x | x in rows ensures RowName(tags, x) in names {
      assert tags[x.1].name in PostTagNames(tags, postTags, postId);
    }
    forall n | n in names ensures exists x :: x in rows && RowName(tags, x) == n {
      var i, j :| 0 <= i < |postTags| && 0 <= j < |tags|
                   && postTags[i].postId == postId && postTags[i].tagId == Some(tags[j].id) && tags[j].name == n;
      assert (i, j) in rows && RowName(tags, (i, j)) == n;
    }
  }

  /**
   * Under the same conditions, the joined rows of a post correspond one to one
   * with its tag names among the terms.
   */
  lemma JoinedRowsCount(tags: seq<U.TagRow>, postTags: seq<U.PostTag>, postId: int, included: seq<string>)
    requires U.TagsWellFormed(tags) && NoDuplicates(postTags)
    ensures |JoinedRows(tags, postTags, postId, included)| == |PostTagNames(tags, postTags, postId) * ToSet(included)|
  {
    JoinedRowsInjective(tags, postTags, postId, included);
    RowNamesCard(tags, JoinedRows(tags, postTags, postId, included));
    JoinedRowsImage(tags, postTags, postId, included);
  }

  /**
   * The tag intersection: for distinct include terms, a post is found iff it
   * carries every one of them (and there is at least one).
   */
  lemma FoundIffAllTermsPresent(posts: seq<U.PostRow>, tags: seq<U.TagRow>, postTags: seq<U.PostTag>, included: seq<string>, p: U.PostRow)
    requires U.TagsWellFormed(tags) && NoDuplicates(postTags) && NoDuplicates(included)
    requires p in posts
    ensures p in SearchRows(posts, tags, postTags, included) <==>
              included != [] && ToSet(included) <= PostTagNames(tags, postTags, p.id)
  {
    JoinedRowsCount(tags, postTags, p.id, included);
    DistinctCount(included);
    var names := PostTagNames(tags, postTags, p.id);
    var common := names * ToSet(included);
    SubsetCard(common, ToSet(included));
    ToSetEmpty(included);
    if included != [] && ToSet(included) <= names {
      assert common == ToSet(included);
    }
  }

  /** Repeating an include term makes the count unreachable, so nothing is found. */
  lemma RepeatedTermFindsNothing(posts: seq<U.PostRow>, tags: seq<U.TagRow>, postTags: seq<U.PostTag>, included: seq<string>)
    requires U.TagsWellFormed(tags) && NoDuplicates(postTags) && !NoDuplicates(included)
    ensures SearchResult(posts, tags, postTags, included) == []
  {
    var rows := SearchRows(posts, tags, postTags, included);
    ToSetBelowLength(included);
    forall p | p in posts ensures !Hit(tags, postTags, p, included) {
      JoinedRowsCount(tags, postTags, p.id, included);
      SubsetCard(PostTagNames(tags, postTags, p.id) * ToSet(included), ToSet(included));
    }
    assert ToSet(rows) == {};
    ToSetEmpty(rows);
  }

  /**
   * `post_tags` has no unique key in this model, so an association row can
   * occur twice. The post's group then counts that tag twice, and a search
   * for that one tag never finds the post.
   */
  lemma RepeatedAssociationHidesPost(posts: seq<U.PostRow>, tags: seq<U.TagRow>, postTags: seq<U.PostTag>,
                                     p: U.PostRow, name: string, i: nat, j: nat)
    requires i < j < |postTags| && postTags[i] == postTags[j]
    requires postTags[i] == U.PostTag(p.id, U.FindTag(tags, name)) && U.FindTag(tags, name).Some?
    ensures p !in SearchRows(posts, tags, postTags, [name])
  {
    var t :| t in tags && t.name == name && t.id == U.FindTag(tags, name).value;
    var k :| 0 <= k < |tags| && tags[k] == t;
    var rows := JoinedRows(tags, postTags, p.id, [name]);
    assert (i, k) in rows && (j, k) in rows;
    SubsetCard({(i, k), (j, k)}, rows);
  }

  /**
   * Uploading the same post twice with the same tag: the second transaction
   * finds the post, keeps the tag row and inserts the association again, so the
   * tag search no longer returns the post.
   */
  method ReuploadHidesPost(db: U.Database, externalId: int, extension: string, mime: string, original: bool, t: U.Tag)
    returns (first: Result<int, U.UploadError>, second: Result<int, U.UploadError>)
    requires db.Valid()
    modifies db
    ensures first.Ok? && second.Ok? && first.value == second.value
    ensures U.FindPost(db.posts, externalId).Some?
    ensures U.FindPost(db.posts, externalId).value !in SearchRows(db.posts, db.tags, db.postTags, [t.name])
  {
    ghost var posts0, tags0, postTags0 := db.posts, db.tags, db.postTags;
    first := db.InsertPost(externalId, extension, mime, original, [t], 6);
    ghost var posts1, tags1, postTags1 := db.posts, db.tags, db.postTags;
    second := db.InsertPost(externalId, extension, mime, original, [t], 6);
    ReuploadOutcome(posts0, tags0, postTags0, posts1, tags1, postTags1, db.posts, db.tags, db.postTags,
                    externalId, extension, mime, original, t, first, second);
  }

  /** The tables after two successful uploads of the same post with the same single tag. */
  lemma ReuploadOutcome(posts0: seq<U.PostRow>, tags0: seq<U.TagRow>, postTags0: seq<U.PostTag>,
                        posts1: seq<U.PostRow>, tags1: seq<U.TagRow>, postTags1: seq<U.PostTag>,
                        posts2: seq<U.PostRow>, tags2: seq<U.TagRow>, postTags2: seq<U.PostTag>,
                        externalId: int, extension: string, mime: string, original: bool, t: U.Tag,
                        first: Result<int, U.UploadError>, second: Result<int, U.UploadError>)
    requires U.PostsWellFormed(posts1) && U.TagsWellFormed(tags0)
    requires first.Ok? && second.Ok?
    requires externalId in U.ExternalIds(posts0) ==>
      posts1 == posts0 && first.value == U.FindPost(posts1, externalId).value.id
    requires externalId !in U.ExternalIds(posts0) ==>
      posts1 == posts0 + [U.PostRow(first.value, externalId, extension, mime, original)]
    requires tags1 == U.TagsAfter(tags0, [t]) && postTags1 == postTags0 + U.AssocRows(first.value, tags1, [t])
    requires externalId in U.ExternalIds(posts1) ==>
      posts2 == posts1 && second.value == U.FindPost(posts2, externalId).value.id
    requires tags2 == U.TagsAfter(tags1, [t]) && postTags2 == postTags1 + U.AssocRows(second.value, tags2, [t])
    ensures first.value == second.value && U.FindPost(posts2, externalId).Some?
    ensures U.FindPost(posts2, externalId).value !in SearchRows(posts2, tags2, postTags2, [t.name])
  {
    FirstUploadFound(posts0, posts1, externalId, extension, mime, original, first.value);
    var p := U.FindPost(posts1, externalId).value;
    FirstUploadRows(tags0, postTags0, p.id, t);
    ReuploadRows(tags1, postTags1, p.id, t);
    RepeatedAssociationHidesPost(posts2, tags2, postTags2, p, t.name, |postTags1| - 1, |postTags1|);
  }

  /** After a successful upload the post with that external id exists and has the returned id. */
  lemma FirstUploadFound(posts0: seq<U.PostRow>, posts1: seq<U.PostRow>, externalId: int,
                         extension: string, mime: string, original: bool, id: int)
    requires U.PostsWellFormed(posts1)
    requires externalId in U.ExternalIds(posts0) ==> posts1 == posts0 && id == U.FindPost(posts1, externalId).value.id
    requires externalId !in U.ExternalIds(posts0) ==>
      posts1 == posts0 + [U.PostRow(id, externalId, extension, mime, original)]
    ensures U.FindPost(posts1, externalId).Some? && U.FindPost(posts1, externalId).value.id == id
  {
    if externalId !in U.ExternalIds(posts0) {
      var row := U.PostRow(id, externalId, extension, mime, original);
      assert row in posts1;
      U.FindPostUnique(posts1, row);
    }
  }

  /** The tables after the first upload carrying a single tag. */
  lemma FirstUploadRows(tags0: seq<U.TagRow>, postTags0: seq<U.PostTag>, id: int, t: U.Tag)
    requires U.TagsWellFormed(tags0)
    ensures var tags1 := U.TagsAfter(tags0, [t]);
      var postTags1 := postTags0 + U.AssocRows(id, tags1, [t]);
      && U.TagsWellFormed(tags1) && t.name in U.TagNames(tags1)
      && postTags1 != [] && postTags1[|postTags1| - 1] == U.PostTag(id, U.FindTag(tags1, t.name))
  {
    U.TagsAfterProperties(tags0, [t]);
    assert U.NamesOf([t]) == {t.name};
  }

  /** The tables after the second of two uploads carrying the same single tag. */
  lemma ReuploadRows(tags1: seq<U.TagRow>, postTags1: seq<U.PostTag>, id: int, t: U.Tag)
    requires U.TagsWellFormed(tags1) && t.name in U.TagNames(tags1)
    requires postTags1 != [] && postTags1[|postTags1| - 1] == U.PostTag(id, U.FindTag(tags1, t.name))
    ensures U.TagsAfter(tags1, [t]) == tags1 && U.FindTag(tags1, t.name).Some?
    ensures var pt2 := postTags1 + U.AssocRows(id, tags1, [t]);
      |pt2| == |postTags1| + 1 && pt2[|postTags1| - 1] == pt2[|postTags1|]
      && pt2[|postTags1|] == U.PostTag(id, U.FindTag(tags1, t.name))
  {
    assert [t][..0] == [];
  }

  /** A sequence with a repeated element has fewer distinct elements than entries. */
  lemma ToSetBelowLength<T>(s: seq<T>)
    requires !NoDuplicates(s)
    ensures |ToSet(s)| < |s|
  {
    var i, j :| 0 <= i < j < |s| && s[i] == s[j];
    var t := s[..j] + s[j + 1..];
    assert s == s[..j] + [s[j]] + s[j + 1..];
    ToSetAppend(s[..j] + [s[j]], s[j + 1..]);
    ToSetAppend(s[..j], [s[j]]);
    ToSetAppend(s[..j], s[j + 1..]);
    assert s[j] in ToSet(s[..j]) by { assert s[..j][i] == s[j]; }
    assert ToSet(s) == ToSet(t);
    ToSetAtMostLength(t);
  }

  lemma {:induction false} ToSetAtMostLength<T>(s: seq<T>)
    ensures |ToSet(s)| <= |s|
    decreases |s|
  {
    if s != [] {
      var init := s[..|s| - 1];
      assert s == init + [s[|s| - 1]];
      ToSetAppend(init, [s[|s| - 1]]);
      assert ToSet([s[|s| - 1]]) == {s[|s| - 1]};
      ToSetAtMostLength(init);
    }
  }

  // ---------------------------------------------------------------------------
  // `autocomplete` and `get_post`

  /** A row of the `tags_with_uses` view. */
  datatype Suggestion = Suggestion(name: string, kind: string, uses: int)

  const SuggestionLimit: nat := 10

  /** `autocomplete(term)`: at most ten matching rows of the view, all of them when fewer match. */
  function Autocomplete(view: seq<Suggestion>, term: string): (r: seq<Suggestion>)
    ensures |r| <= SuggestionLimit
    ensures forall s :: s in r ==> s in view && Contains(s.name, term)
    ensures |r| < SuggestionLimit ==> forall s :: s in view && Contains(s.name, term) ==> s in r
  {
    FirstMatches(view, (s: Suggestion) => s.name, term, SuggestionLimit)
  }

  datatype QueryError = RowNotFound

  /** `get_post(external_id)`: `fetch_one` of the post row with that external id. */
  function GetPost(posts: seq<U.PostRow>, externalId: int): (r: Result<U.PostRow, QueryError>)
    ensures r.Ok? <==> externalId in U.ExternalIds(posts)
    ensures r.Ok? ==> r.value in posts && r.value.externalId == externalId
  {
    OkOr(U.FindPost(posts, externalId), RowNotFound)
  }

  /** Under a unique `external_id`, `get_post` finds every stored post. */
  lemma GetPostFindsStored(posts: seq<U.PostRow>, p: U.PostRow)
    requires U.PostsWellFormed(posts) && p in posts
    ensures GetPost(posts, p.externalId) == Ok(p)
  {
    U.FindPostUnique(posts, p);
  }

  // ---------------------------------------------------------------------------
  // `serve_image` / `serve_mini`

  /**
   * The file served for a post: the media file itself for an image, its
   * thumbnail otherwise, at the very paths the upload's commit places them.
   */
  function SourcePath(base: Path, post: U.PostRow): (r: Path)
    ensures StartsWith(post.mime, "image") ==> r == MP.MainPath(base, post.id, post.externalId, post.extension)
    ensures !StartsWith(post.mime, "image") ==> r == MP.ThumbPath(base, PaddedName(post.id, post.externalId, post.extension))
  {
    var name := PaddedName(post.id, post.externalId, post.extension);
    if StartsWith(post.mime, "image") then JoinPath(base, name)
    else JoinPath(JoinPath(base, ThumbsDir), name + ".jpeg")
  }

  datatype ServeError = PostNotFound | FileNotFound

  /**
   * The lookup shared by `serve_image` and `serve_mini`: the post must be in
   * the database and its file on disk; the path and the post are returned.
   */
  function ServeSource(onDisk: set<Path>, base: Path, posts: seq<U.PostRow>, externalId: int): (r: Result<(Path, U.PostRow), ServeError>)
    ensures r.Ok? <==> externalId in U.ExternalIds(posts) && SourcePath(base, U.FindPost(posts, externalId).value) in onDisk
    ensures r.Err? && externalId !in U.ExternalIds(posts) ==> r.error == PostNotFound
    ensures r.Ok? ==> r.value.0 in onDisk && r.value.1 in posts && r.value.1.externalId == externalId
                      && r.value.0 == SourcePath(base, r.value.1)
  {
    match GetPost(posts, externalId)
    case Err(_) => Err(PostNotFound)
    case Ok(post) =>
      var path := SourcePath(base, post);
      if path !in onDisk then Err(FileNotFound) else Ok((path, post))
  }

  /** `serve_image`: the file and the post's mime type as the content type. */
  function ServeImage(onDisk: set<Path>, base: Path, posts: seq<U.PostRow>, externalId: int): (r: Result<(Path, string), ServeError>)
    ensures r.Ok? <==> ServeSource(onDisk, base, posts, externalId).Ok?
    ensures r.Ok? ==> exists p :: p in posts && p.externalId == externalId && r.value == (SourcePath(base, p), p.mime)
  {
    match ServeSource(onDisk, base, posts, externalId)
    case Err(e) => Err(e)
    case Ok((path, post)) => Ok((path, post.mime))
  }
}
