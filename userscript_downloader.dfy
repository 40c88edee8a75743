/**
 * The userscript's synchronisation of a user's favorites with the local
 * server: it walks the favorites pages from the back, uploads every post the
 * server does not have yet, and reads each post's tags from its page.
 */
module UserscriptDownloader {
  import opened Wrappers
  import opened Seqs
  import opened Text
  import N = UserscriptNetwork

  /** Favorites per page: the step between two page offsets (`pid`). */
  const PageSize: nat := 50
  /** `sync` starts at least this far back, so that it checks at least ten pages. */
  const MinSyncStart: nat := 500

  function Max(a: int, b: int): int { if a >= b then a else b }

  /** `Math.max(difference, 500)`: where `sync` starts. */
  function SyncStart(totalFavorites: int, serverFavorites: int): (r: int)
    ensures r >= MinSyncStart && r >= totalFavorites - serverFavorites
  {
    Max(totalFavorites - serverFavorites, MinSyncStart)
  }

  /** The offsets the do-while loop visits when it is entered with `pid`. */
  function Offsets(pid: int): (r: seq<int>)
    ensures |r| >= 1 && r[0] == Max(0, pid - PageSize) && r[|r| - 1] == 0
    decreases Max(pid, 0)
  {
    var next := Max(0, pid - PageSize);
    if next > 0 then [next] + Offsets(next) else [next]
  }

  /** Each offset is 50 below the one before, clamped at 0, and only the last is 0. */
  predicate Descending(r: seq<int>) {
    forall i :: 0 <= i < |r| - 1 ==> r[i] > 0 && r[i + 1] == Max(0, r[i] - PageSize)
  }

  /** The visited offsets go down by a page at a time. */
  lemma {:induction false} OffsetsDescend(pid: int)
    ensures Descending(Offsets(pid))
    decreases Max(pid, 0)
  {
    var next := Max(0, pid - PageSize);
    if next > 0 {
      OffsetsDescend(next);
      var r, t := Offsets(pid), Offsets(next);
      assert r == [next] + t;
      forall i | 0 <= i < |r| - 1 ensures r[i] > 0 && r[i + 1] == Max(0, r[i] - PageSize) {
        if i > 0 {
          assert r[i] == t[i - 1] && r[i + 1] == t[i];
          assert t[i - 1] > 0 && t[i] == Max(0, t[i - 1] - PageSize);
        } else {
          assert r[0] == next && r[1] == t[0];
        }
      }
    }
  }

  /** The `i`-th visited offset is `pid - 50(i + 1)`, clamped at 0. */
  lemma {:induction false} OffsetsClosedForm(pid: int, i: nat)
    requires i < |Offsets(pid)|
    ensures Offsets(pid)[i] == Max(0, pid - PageSize * (i + 1))
    decreases Max(pid, 0)
  {
    var next := Max(0, pid - PageSize);
    if i > 0 {
      OffsetsClosedForm(next, i - 1);
    }
  }

  /** One page for every started 50 favorites, and at least one page. */
  lemma {:induction false} OffsetsCount(pid: int)
    ensures |Offsets(pid)| == (if pid <= PageSize then 1 else (pid + PageSize - 1) / PageSize)
    decreases Max(pid, 0)
  {
    if pid > PageSize {
      OffsetsCount(pid - PageSize);
    }
  }

  /** `sync` checks at least ten pages, whatever the counts say. */
  lemma SyncChecksTenPages(totalFavorites: int, serverFavorites: int)
    ensures |Offsets(SyncStart(totalFavorites, serverFavorites))| >= MinSyncStart / PageSize
  {
    OffsetsCount(SyncStart(totalFavorites, serverFavorites));
  }

  /** The server's answer to `/check`: which of the ids it already has. */
  function DownloadedOf(ids: seq<int>, server: set<int>): (r: seq<int>)
    ensures forall x :: x in r <==> x in ids && x in server
  {
    Filter(ids, (id: int) => id in server)
  }

  /** The filter `id => id` absent from the server. */
  function NotIn(server: set<int>): int -> bool {
    id => id !in server
  }

  /** What `filterForNotDownloaded` then `reverse` leave of a page: the ids to upload, last first. */
  function PageUploads(ids: seq<int>, server: set<int>): (r: seq<int>)
    ensures forall x :: x in r <==> x in ids && x !in server
  {
    ReverseMembers(Filter(ids, NotIn(server)));
    Reverse(Filter(ids, NotIn(server)))
  }

  /**
   * The ids the do-while loop entered with `pid` uploads when every upload
   * succeeds. Each upload gives the server its id before the next page is
   * checked.
   */
  function Plan(pid: int, page: int -> seq<int>, server: set<int>): (r: seq<int>)
    ensures forall x :: x in r ==> x !in server
    decreases Max(pid, 0)
  {
    var next := Max(0, pid - PageSize);
    var up := PageUploads(page(next), server);
    up + (if next > 0 then Plan(next, page, server + ToSet(up)) else [])
  }

  /** The number of ids on the pages the do-while loop entered with `pid` visits. */
  function IdCount(pid: int, page: int -> seq<int>): nat
    decreases Max(pid, 0)
  {
    var next := Max(0, pid - PageSize);
    |page(next)| + (if next > 0 then IdCount(next, page) else 0)
  }

  /** The number of ids on the pages at `offsets`. */
  function PagesTotal(offsets: seq<int>, page: int -> seq<int>): nat {
    if offsets == [] then 0 else |page(offsets[0])| + PagesTotal(offsets[1..], page)
  }

  /** The counted ids are those on the visited pages. */
  lemma {:induction false} IdCountIsPagesTotal(pid: int, page: int -> seq<int>)
    ensures IdCount(pid, page) == PagesTotal(Offsets(pid), page)
    decreases Max(pid, 0)
  {
    var next := Max(0, pid - PageSize);
    var r := Offsets(pid);
    assert r[0] == next;
    if next > 0 {
      IdCountIsPagesTotal(next, page);
      assert r[1..] == Offsets(next);
    } else {
      assert r == [0];
      assert PagesTotal([], page) == 0;
    }
  }

  /** A page checked against the server uploads the ids the server lacks. */
  lemma NotDownloadedIsFilter(ids: seq<int>, server: set<int>)
    ensures N.NotDownloaded(ids, DownloadedOf(ids, server)) == Filter(ids, NotIn(server))
  {
    FilterCongruent(ids, N.NotListed(DownloadedOf(ids, server)), NotIn(server));
  }

  /** One turn of the do-while loop visits the offset below `pid`; the rest are visited from there. */
  lemma VisitStep(pid: int, seen: seq<int>, offsets: seq<int>)
    requires seen + Offsets(pid) == offsets
    ensures seen + [Max(0, pid - PageSize)] <= offsets
    ensures Max(0, pid - PageSize) > 0 ==>
              (seen + [Max(0, pid - PageSize)]) + Offsets(Max(0, pid - PageSize)) == offsets
    ensures Max(0, pid - PageSize) == 0 ==> seen + [Max(0, pid - PageSize)] == offsets
  {
    var next := Max(0, pid - PageSize);
    var rest := if next > 0 then Offsets(next) else [];
    assert Offsets(pid) == [next] + rest;
    AppendAssoc(seen, [next], rest);
    PrefixOfAppend(seen + [next], rest);
  }

  /**
   * One turn of `sync`'s do-while loop uploads `postIds[..done]` of the ids
   * the page lacks; what was planned before is then the plan from there on, or
   * the failing id comes next.
   */
  lemma PlanStep(pid: int, page: int -> seq<int>, server: set<int>, before: seq<int>,
                 postIds: seq<int>, done: nat, plan: seq<int>)
    requires before + Plan(pid, page, server) == plan
    requires postIds == PageUploads(page(Max(0, pid - PageSize)), server) && done <= |postIds|
    ensures done < |postIds| ==> before + postIds[..done] + [postIds[done]] <= plan
    ensures done == |postIds| && Max(0, pid - PageSize) > 0 ==>
              (before + postIds[..done]) + Plan(Max(0, pid - PageSize), page, server + ToSet(postIds)) == plan
    ensures done == |postIds| && Max(0, pid - PageSize) == 0 ==> before + postIds[..done] == plan
  {
    var next := Max(0, pid - PageSize);
    var tail := if next > 0 then Plan(next, page, server + ToSet(postIds)) else [];
    assert Plan(pid, page, server) == postIds + tail;
    if done < |postIds| {
      PrefixThenNext(before, postIds, done, tail);
    } else {
      assert postIds[..done] == postIds;
      AppendAssoc(before, postIds, tail);
    }
  }

  /**
   * One turn of `sync`'s do-while loop, from offset `pid` to `next`: the page
   * is visited next and its first `done` uploads come next in the plan.
   */
  lemma SyncStep(pid: int, next: int, page: int -> seq<int>, server: set<int>, visited: seq<int>,
                 uploaded: seq<int>, postIds: seq<int>, done: nat, offsets: seq<int>, plan: seq<int>,
                 status: int -> int)
    requires next == Max(0, pid - PageSize)
    requires visited + Offsets(pid) == offsets && uploaded + Plan(pid, page, server) == plan
    requires forall x :: x in uploaded ==> status(x) == 200
    requires postIds == PageUploads(page(next), server) && done <= |postIds|
    requires forall x :: x in postIds[..done] ==> status(x) == 200
    ensures forall x :: x in uploaded + postIds[..done] ==> status(x) == 200
    ensures visited + [next] <= offsets
    ensures done < |postIds| ==> uploaded + postIds[..done] + [postIds[done]] <= plan
    ensures done == |postIds| && next > 0 ==>
              (visited + [next]) + Offsets(next) == offsets
              && (uploaded + postIds[..done]) + Plan(next, page, server + ToSet(postIds)) == plan
    ensures done == |postIds| && next == 0 ==> visited + [next] == offsets && uploaded + postIds[..done] == plan
  {
    VisitStep(pid, visited, offsets);
    PlanStep(pid, page, server, uploaded, postIds, done, plan);
  }

  /** `filterForNotDownloaded` on a page's ids, answered by a server holding `server`, then `reverse`. */
  method CheckPage(ids: seq<int>, server: set<int>) returns (postIds: seq<int>)
    ensures postIds == PageUploads(ids, server)
  {
    postIds := N.NotDownloaded(ids, DownloadedOf(ids, server));
    NotDownloadedIsFilter(ids, server);
    postIds := Reverse(postIds);
  }

  /** `fullSync`'s ids not reported by the server, in page order reversed, are the ones `sync` would upload. */
  lemma MissingIsPageUploads(ids: seq<int>, server: set<int>)
    ensures Filter(Reverse(ids), N.NotListed(DownloadedOf(Reverse(ids), server))) == PageUploads(ids, server)
  {
    FilterReverse(ids, NotIn(server));
    NotDownloadedIsFilter(Reverse(ids), server);
  }

  /**
   * The body of `sync`'s do-while loop: the next offset, the ids of that page
   * the server lacks, in upload order, and the uploads until one fails.
   */
  method SyncTurn(pid: int, page: int -> seq<int>, server: set<int>, status: int -> int)
    returns (next: int, postIds: seq<int>, done: nat, failed: Option<int>)
    ensures next == Max(0, pid - PageSize)
    ensures postIds == PageUploads(page(next), server) && done <= |postIds|
    ensures forall x :: x in postIds[..done] ==> status(x) == 200
    ensures failed.None? ==> done == |postIds|
    ensures failed.Some? ==> done < |postIds| && failed == Some(postIds[done]) && status(postIds[done]) != 200
  {
    next := Max(0, pid - PageSize);
    postIds := CheckPage(page(next), server);
    done, failed := UploadPage(postIds, status);
  }

  /** The `for` loop of `sync` over one page: the ids are uploaded in order until one fails. */
  method UploadPage(postIds: seq<int>, status: int -> int) returns (done: nat, failed: Option<int>)
    ensures done <= |postIds|
    ensures forall x :: x in postIds[..done] ==> status(x) == 200
    ensures failed.None? ==> done == |postIds|
    ensures failed.Some? ==> done < |postIds| && failed == Some(postIds[done]) && status(postIds[done]) != 200
  {
    done := 0;
    while done < |postIds|
      invariant done <= |postIds|
      invariant forall x :: x in postIds[..done] ==> status(x) == 200
    {
      var result := N.UploadResult(status(postIds[done]));
      if result.Err? {
        return done, Some(postIds[done]);
      }
      assert postIds[..done + 1] == postIds[..done] + [postIds[done]];
      done := done + 1;
    }
    failed := None;
  }

  /**
   * `sync(userId, totalFavorites, serverFavorites)`. `page(pid)` are the post
   * ids on the favorites page at offset `pid`, `server0` the ids the server
   * has, and `status(id)` the server's answer to the upload of `id`. An upload
   * that fails ends the sync with that id in `failed`. `uploaded` are the
   * uploads in order; the progress counter `downloaded` is its length.
   */
  method Sync(totalFavorites: int, serverFavorites: int, page: int -> seq<int>,
              server0: set<int>, status: int -> int)
    returns (visited: seq<int>, uploaded: seq<int>, failed: Option<int>)
    ensures forall x :: x in uploaded ==> status(x) == 200
    ensures failed.None? ==>
              visited == Offsets(SyncStart(totalFavorites, serverFavorites))
              && uploaded == Plan(SyncStart(totalFavorites, serverFavorites), page, server0)
    ensures failed.Some? ==>
              status(failed.value) != 200 && visited <= Offsets(SyncStart(totalFavorites, serverFavorites))
              && uploaded + [failed.value] <= Plan(SyncStart(totalFavorites, serverFavorites), page, server0)
  {
    var start := SyncStart(totalFavorites, serverFavorites);
    ghost var offsets := Offsets(start);
    ghost var plan := Plan(start, page, server0);
    var pid := start;
    var server := server0;
    visited, uploaded, failed := [], [], None;
    while true
      invariant forall x :: x in uploaded ==> status(x) == 200
      invariant visited + Offsets(pid) == offsets && uploaded + Plan(pid, page, server) == plan
      decreases |offsets| - |visited|
    {
      ghost var last := pid;
      var postIds, done, f;
      pid, postIds, done, f := SyncTurn(pid, page, server, status);
      SyncStep(last, pid, page, server, visited, uploaded, postIds, done, offsets, plan, status);
      visited := visited + [pid];
      uploaded := uploaded + postIds[..done];
      if f.Some? {
        failed := f;
        return;
      }
      server := server + ToSet(postIds);
      if pid == 0 {
        break;
      }
    }
  }

  /**
   * The `for` loop of `fullSync` over one page: ids the server reported are
   * counted and skipped, the others uploaded in order until one fails. `done`
   * is how many ids were counted.
   */
  method UploadMissing(postIds: seq<int>, alreadyDownloaded: seq<int>, status: int -> int)
    returns (done: nat, uploaded: seq<int>, failed: Option<int>)
    ensures done <= |postIds|
    ensures uploaded == N.NotDownloaded(postIds[..done], alreadyDownloaded)
    ensures forall x :: x in uploaded ==> status(x) == 200 && x in postIds && x !in alreadyDownloaded
    ensures failed.None? ==> done == |postIds| && uploaded == N.NotDownloaded(postIds, alreadyDownloaded)
    ensures failed.Some? ==>
              done < |postIds| && failed == Some(postIds[done])
              && postIds[done] !in alreadyDownloaded && status(postIds[done]) != 200
              && uploaded + [postIds[done]] <= N.NotDownloaded(postIds, alreadyDownloaded)
  {
    done, uploaded := 0, [];
    while done < |postIds|
      invariant done <= |postIds|
      invariant uploaded == N.NotDownloaded(postIds[..done], alreadyDownloaded)
      invariant forall x :: x in uploaded ==> status(x) == 200 && x in postIds && x !in alreadyDownloaded
    {
      var postId := postIds[done];
      NotDownloadedStep(postIds, done, alreadyDownloaded);
      if postId in alreadyDownloaded {
        done := done + 1;
        continue;
      }
      var result := N.UploadResult(status(postId));
      if result.Err? {
        FilterPrefix(postIds, done + 1, N.NotListed(alreadyDownloaded));
        return done, uploaded, Some(postId);
      }
      uploaded := uploaded + [postId];
      done := done + 1;
    }
    assert postIds[..done] == postIds;
    failed := None;
  }

  /** One more id of the page: skipped when the server reported it, listed after the earlier ones otherwise. */
  lemma NotDownloadedStep(postIds: seq<int>, done: nat, alreadyDownloaded: seq<int>)
    requires done < |postIds|
    ensures N.NotDownloaded(postIds[..done + 1], alreadyDownloaded) ==
              N.NotDownloaded(postIds[..done], alreadyDownloaded)
              + (if postIds[done] in alreadyDownloaded then [] else [postIds[done]])
  {
    var postId := postIds[done];
    assert postIds[..done + 1] == postIds[..done] + [postId];
    FilterAppend(postIds[..done], [postId], N.NotListed(alreadyDownloaded));
    assert [postId][..0] == [];
  }

  /** `fullSync`'s view of a page, the ids the server reported skipped, is the page `sync` would upload. */
  lemma MissingIsPlanned(pid: int, page: int -> seq<int>, server: set<int>, before: seq<int>,
                         postIds: seq<int>, alreadyDownloaded: seq<int>, plan: seq<int>)
    requires before + Plan(pid, page, server) == plan
    requires postIds == Reverse(page(Max(0, pid - PageSize)))
    requires alreadyDownloaded == DownloadedOf(postIds, server)
    ensures N.NotDownloaded(postIds, alreadyDownloaded) == PageUploads(page(Max(0, pid - PageSize)), server)
    ensures plan == before + (N.NotDownloaded(postIds, alreadyDownloaded)
                              + (if Max(0, pid - PageSize) > 0
                                 then Plan(Max(0, pid - PageSize), page,
                                           server + ToSet(N.NotDownloaded(postIds, alreadyDownloaded)))
                                 else []))
  {
    MissingIsPageUploads(page(Max(0, pid - PageSize)), server);
  }

  /**
   * One turn of `fullSync`'s do-while loop that checks the whole page: what
   * was planned before is the plan from the next page on.
   */
  lemma MissingStep(pid: int, page: int -> seq<int>, server: set<int>, before: seq<int>,
                    postIds: seq<int>, alreadyDownloaded: seq<int>, pageUploads: seq<int>, plan: seq<int>)
    requires before + Plan(pid, page, server) == plan
    requires postIds == Reverse(page(Max(0, pid - PageSize)))
    requires alreadyDownloaded == DownloadedOf(postIds, server)
    requires pageUploads == N.NotDownloaded(postIds, alreadyDownloaded)
    ensures Max(0, pid - PageSize) > 0 ==>
              (before + pageUploads) + Plan(Max(0, pid - PageSize), page, server + ToSet(pageUploads)) == plan
    ensures Max(0, pid - PageSize) == 0 ==> before + pageUploads == plan
  {
    MissingIsPlanned(pid, page, server, before, postIds, alreadyDownloaded, plan);
    var next := Max(0, pid - PageSize);
    var tail := if next > 0 then Plan(next, page, server + ToSet(pageUploads)) else [];
    AppendAssoc(before, pageUploads, tail);
  }

  /**
   * One turn of `fullSync`'s do-while loop that ends in a failed upload: the
   * ids uploaded so far and the failing one start what was planned.
   */
  lemma MissingFailStep(pid: int, page: int -> seq<int>, server: set<int>, before: seq<int>,
                        postIds: seq<int>, alreadyDownloaded: seq<int>, sent: seq<int>, plan: seq<int>)
    requires before + Plan(pid, page, server) == plan
    requires postIds == Reverse(page(Max(0, pid - PageSize)))
    requires alreadyDownloaded == DownloadedOf(postIds, server)
    requires sent <= N.NotDownloaded(postIds, alreadyDownloaded)
    ensures before + sent <= plan
  {
    MissingIsPlanned(pid, page, server, before, postIds, alreadyDownloaded, plan);
    var up := N.NotDownloaded(postIds, alreadyDownloaded);
    var next := Max(0, pid - PageSize);
    PrefixExtend(before, sent, up, if next > 0 then Plan(next, page, server + ToSet(up)) else []);
  }

  /**
   * One turn of `fullSync`'s do-while loop, from offset `pid` to `next`, that
   * uploads every missing id of the page: the page is visited next, its
   * uploads come next in the plan and all its ids are counted.
   */
  lemma FullSyncStep(pid: int, next: int, page: int -> seq<int>, server: set<int>, visited: seq<int>,
                     uploaded: seq<int>, downloaded: nat, total: int, postIds: seq<int>,
                     alreadyDownloaded: seq<int>, done: nat, pageUploads: seq<int>,
                     offsets: seq<int>, plan: seq<int>, status: int -> int)
    requires next == Max(0, pid - PageSize)
    requires visited + Offsets(pid) == offsets && uploaded + Plan(pid, page, server) == plan
    requires downloaded + IdCount(pid, page) == IdCount(total, page)
    requires forall x :: x in uploaded ==> status(x) == 200
    requires postIds == Reverse(page(next)) && alreadyDownloaded == DownloadedOf(postIds, server)
    requires done == |postIds| && pageUploads == N.NotDownloaded(postIds, alreadyDownloaded)
    requires forall x :: x in pageUploads ==> status(x) == 200
    ensures forall x :: x in uploaded + pageUploads ==> status(x) == 200
    ensures visited + [next] <= offsets
    ensures next > 0 ==>
              && (visited + [next]) + Offsets(next) == offsets
              && (uploaded + pageUploads) + Plan(next, page, server + ToSet(pageUploads)) == plan
              && (downloaded + done) + IdCount(next, page) == IdCount(total, page)
    ensures next == 0 ==>
              && visited + [next] == offsets && uploaded + pageUploads == plan
              && downloaded + done == IdCount(total, page)
  {
    VisitStep(pid, visited, offsets);
    MissingStep(pid, page, server, uploaded, postIds, alreadyDownloaded, pageUploads, plan);
    assert IdCount(pid, page) == done + (if next > 0 then IdCount(next, page) else 0);
  }

  /**
   * One turn of `fullSync`'s do-while loop that ends in the failed upload of
   * `f`: the page is visited next, and its uploads and `f` come next in the plan.
   */
  lemma FullSyncFailStep(pid: int, next: int, page: int -> seq<int>, server: set<int>, visited: seq<int>,
                         uploaded: seq<int>, postIds: seq<int>, alreadyDownloaded: seq<int>,
                         pageUploads: seq<int>, f: int, offsets: seq<int>, plan: seq<int>,
                         status: int -> int)
    requires next == Max(0, pid - PageSize)
    requires visited + Offsets(pid) == offsets && uploaded + Plan(pid, page, server) == plan
    requires forall x :: x in uploaded ==> status(x) == 200
    requires postIds == Reverse(page(next)) && alreadyDownloaded == DownloadedOf(postIds, server)
    requires pageUploads + [f] <= N.NotDownloaded(postIds, alreadyDownloaded)
    requires forall x :: x in pageUploads ==> status(x) == 200
    ensures forall x :: x in uploaded + pageUploads ==> status(x) == 200
    ensures visited + [next] <= offsets
    ensures (uploaded + pageUploads) + [f] <= plan
  {
    VisitStep(pid, visited, offsets);
    MissingFailStep(pid, page, server, uploaded, postIds, alreadyDownloaded, pageUploads + [f], plan);
    AppendAssoc(uploaded, pageUploads, [f]);
  }

  /**
   * `fullSync(userId, totalFavorites)`: every page from the back, counting
   * the ids the server already has as well as the uploaded ones.
   */
  method FullSync(totalFavorites: int, page: int -> seq<int>, server0: set<int>, status: int -> int)
    returns (visited: seq<int>, uploaded: seq<int>, downloaded: nat, failed: Option<int>)
    ensures forall x :: x in uploaded ==> status(x) == 200
    ensures failed.None? ==>
              visited == Offsets(totalFavorites)
              && uploaded == Plan(totalFavorites, page, server0)
              && downloaded == IdCount(totalFavorites, page)
    ensures failed.Some? ==>
              status(failed.value) != 200 && visited <= Offsets(totalFavorites)
              && uploaded + [failed.value] <= Plan(totalFavorites, page, server0)
  {
    ghost var offsets := Offsets(totalFavorites);
    ghost var plan := Plan(totalFavorites, page, server0);
    var pid := totalFavorites;
    var server := server0;
    visited, uploaded, downloaded, failed := [], [], 0, None;
    while true
      invariant forall x :: x in uploaded ==> status(x) == 200
      invariant visited + Offsets(pid) == offsets && uploaded + Plan(pid, page, server) == plan
      invariant downloaded + IdCount(pid, page) == IdCount(totalFavorites, page)
      decreases |offsets| - |visited|
    {
      ghost var last := pid;
      pid := Max(0, pid - PageSize);
      var postIds := Reverse(page(pid));
      var alreadyDownloaded := DownloadedOf(postIds, server);
      var done, pageUploads, f := UploadMissing(postIds, alreadyDownloaded, status);
      if f.Some? {
        FullSyncFailStep(last, pid, page, server, visited, uploaded, postIds, alreadyDownloaded,
                         pageUploads, f.value, offsets, plan, status);
        visited := visited + [pid];
        uploaded := uploaded + pageUploads;
        downloaded := downloaded + done;
        failed := f;
        return;
      }
      FullSyncStep(last, pid, page, server, visited, uploaded, downloaded, totalFavorites, postIds,
                   alreadyDownloaded, done, pageUploads, offsets, plan, status);
      visited := visited + [pid];
      uploaded := uploaded + pageUploads;
      downloaded := downloaded + done;
      server := server + ToSet(pageUploads);
      if pid == 0 {
        break;
      }
    }
  }

  /** An upload `sync` or `fullSync` makes is of an id the server did not have at the start. */
  lemma PlannedAreMissing(uploaded: seq<int>, pid: int, page: int -> seq<int>, server: set<int>)
    requires uploaded <= Plan(pid, page, server)
    ensures forall x :: x in uploaded ==> x !in server
  {
    var p := Plan(pid, page, server);
    forall x | x in uploaded ensures x !in server {
      var k :| 0 <= k < |uploaded| && uploaded[k] == x;
      assert p[k] == x;
    }
  }

  // ---------------------------------------------------------------------------
  // Tags of a post page

  const TagKinds: seq<string> := ["copyright", "character", "artist", "general", "metadata"]
  const TagKindClass: string := "tag-type-"

  /** One `.tag` element: its search link's text, if it has one, and its classes. */
  datatype TagElement = TagElement(linkText: Option<string>, classes: seq<string>)

  /** A tag as read, before filtering. */
  datatype RawTag = RawTag(name: string, kind: Option<string>)

  datatype Tag = Tag(name: string, kind: string)

  /** `s.replaceAll(from, to)` for one-character strings. */
  function ReplaceChar(s: string, from: char, to: char): (r: string)
    ensures |r| == |s| && forall i :: 0 <= i < |s| ==> r[i] == (if s[i] == from then to else s[i])
  {
    if s == [] then [] else [if s[0] == from then to else s[0]] + ReplaceChar(s[1..], from, to)
  }

  /** The tag name: the link text trimmed, with spaces turned into underscores; `""` without a link. */
  function TagName(e: TagElement): (r: string)
    ensures ' ' !in r
    ensures r != [] ==> !IsSpace(Js, r[0]) && !IsSpace(Js, r[|r| - 1])
  {
    match e.linkText
    case None => ""
    case Some(text) =>
      var r := ReplaceChar(Trim(Js, text), ' ', '_');
      assert forall i :: 0 <= i < |r| ==> r[i] != ' ';
      r
  }

  /** The first class starting with `tag-type-`, without that prefix. */
  function KindOfClasses(classes: seq<string>): (r: Option<string>)
    ensures r.Some? ==> exists c :: c in classes && StartsWith(c, TagKindClass) && r.value == c[|TagKindClass|..]
    ensures r.None? ==> forall c :: c in classes ==> !StartsWith(c, TagKindClass)
  {
    if classes == [] then None
    else if StartsWith(classes[0], TagKindClass) then Some(classes[0][|TagKindClass|..])
    else KindOfClasses(classes[1..])
  }

  function ReadTag(e: TagElement): RawTag {
    RawTag(TagName(e), KindOfClasses(e.classes))
  }

  /** `tagFilter`: a non-empty name and one of the five kinds. */
  predicate TagFilter(t: RawTag) {
    t.name != "" && t.kind.Some? && t.kind.value != "" && t.kind.value in TagKinds
  }

  /** `.map(tagElement => ...)`: each element read as a name and a kind. */
  function ReadTags(elements: seq<TagElement>): (r: seq<RawTag>)
    ensures |r| == |elements| && forall i :: 0 <= i < |r| ==> r[i] == ReadTag(elements[i])
    ensures forall x :: x in r ==> ' ' !in x.name
  {
    if elements == [] then [] else [ReadTag(elements[0])] + ReadTags(elements[1..])
  }

  /** `.filter(tagFilter)`: the raw tags that pass the filter, in order, as tags. */
  function Kept(raws: seq<RawTag>): (r: seq<Tag>)
    ensures forall t :: t in r ==> t.name != "" && t.kind in TagKinds && RawTag(t.name, Some(t.kind)) in raws
    ensures forall x :: x in raws && TagFilter(x) ==> Tag(x.name, x.kind.value) in r
  {
    if raws == [] then []
    else
      var t := raws[0];
      assert forall x :: x in raws[1..] ==> x in raws;
      assert forall x :: x in raws ==> x == t || x in raws[1..];
      (if TagFilter(t) then [Tag(t.name, t.kind.value)] else []) + Kept(raws[1..])
  }

  /** The elements read and filtered, as tags. */
  function KeptTags(elements: seq<TagElement>): (r: seq<Tag>)
    ensures forall t :: t in r ==> t.name != "" && t.kind in TagKinds && ' ' !in t.name
  {
    Kept(ReadTags(elements))
  }

  /** The kept tags are exactly the elements that pass `tagFilter`, read as tags. */
  lemma KeptTagsMembers(elements: seq<TagElement>)
    ensures forall t :: t in KeptTags(elements) ==>
              exists e :: e in elements && ReadTag(e) == RawTag(t.name, Some(t.kind))
    ensures forall e :: e in elements && TagFilter(ReadTag(e)) ==>
              Tag(TagName(e), ReadTag(e).kind.value) in KeptTags(elements)
  {
    var raws := ReadTags(elements);
    forall t | t in KeptTags(elements)
      ensures exists e :: e in elements && ReadTag(e) == RawTag(t.name, Some(t.kind))
    {
      var i :| 0 <= i < |raws| && raws[i] == RawTag(t.name, Some(t.kind));
      assert elements[i] in elements;
    }
    forall e | e in elements && TagFilter(ReadTag(e))
      ensures Tag(TagName(e), ReadTag(e).kind.value) in KeptTags(elements)
    {
      var i :| 0 <= i < |elements| && elements[i] == e;
      assert raws[i] == ReadTag(e) && raws[i] in raws;
    }
  }

  /** `tags.findIndex(t => t.name === name)`: the first position of the name, `-1` when absent. */
  function FindIndex(tags: seq<Tag>, name: string): (r: int)
    ensures -1 <= r < |tags|
    ensures r >= 0 ==> tags[r].name == name && forall j :: 0 <= j < r ==> tags[j].name != name
    ensures r == -1 ==> forall j :: 0 <= j < |tags| ==> tags[j].name != name
  {
    if tags == [] then -1
    else if tags[0].name == name then 0
    else
      var k := FindIndex(tags[1..], name);
      if k == -1 then -1 else k + 1
  }

  /** The tag at `j` is the first with its name. */
  predicate FirstOfName(tags: seq<Tag>, j: nat)
    requires j < |tags|
  {
    FindIndex(tags, tags[j].name) == j
  }

  /**
   * `.filter((t, index, array) => index === array.findIndex(...))` from
   * position `k` on: each kept tag is the first with its name.
   */
  function FirstByName(tags: seq<Tag>, k: nat): (r: seq<Tag>)
    requires k <= |tags|
    ensures forall i :: 0 <= i < |r| ==>
              k <= FindIndex(tags, r[i].name) && tags[FindIndex(tags, r[i].name)] == r[i]
    ensures forall i, i' :: 0 <= i < i' < |r| ==> FindIndex(tags, r[i].name) < FindIndex(tags, r[i'].name)
    ensures forall i, i' :: 0 <= i < i' < |r| ==> r[i].name != r[i'].name
    ensures forall j {:trigger FirstOfName(tags, j)} :: k <= j < |tags| && FirstOfName(tags, j) ==> tags[j] in r
    decreases |tags| - k
  {
    if k == |tags| then []
    else
      var rest := FirstByName(tags, k + 1);
      if FirstOfName(tags, k) then FirstByNameKeeps(tags, k, rest); [tags[k]] + rest
      else FirstByNameSkips(tags, k, rest); rest
  }

  /** The contract of `FirstByName` for a result `r` from position `k`. */
  predicate KeepsFirsts(tags: seq<Tag>, k: nat, r: seq<Tag>)
    requires k <= |tags|
  {
    && (forall i :: 0 <= i < |r| ==>
          k <= FindIndex(tags, r[i].name) && tags[FindIndex(tags, r[i].name)] == r[i])
    && (forall i, i' :: 0 <= i < i' < |r| ==> FindIndex(tags, r[i].name) < FindIndex(tags, r[i'].name))
    && (forall i, i' :: 0 <= i < i' < |r| ==> r[i].name != r[i'].name)
    && (forall j {:trigger FirstOfName(tags, j)} :: k <= j < |tags| && FirstOfName(tags, j) ==> tags[j] in r)
  }

  /** A tag that is the first of its name is kept, in front of the later ones. */
  lemma FirstByNameKeeps(tags: seq<Tag>, k: nat, rest: seq<Tag>)
    requires k < |tags| && KeepsFirsts(tags, k + 1, rest) && FirstOfName(tags, k)
    ensures KeepsFirsts(tags, k, [tags[k]] + rest)
  {
    var r := [tags[k]] + rest;
    forall i | 0 <= i < |r|
      ensures k <= FindIndex(tags, r[i].name) && tags[FindIndex(tags, r[i].name)] == r[i]
    {
      if i > 0 {
        assert r[i] == rest[i - 1];
      }
    }
    forall i, i' | 0 <= i < i' < |r|
      ensures FindIndex(tags, r[i].name) < FindIndex(tags, r[i'].name) && r[i].name != r[i'].name
    {
      assert r[i'] == rest[i' - 1];
      if i > 0 {
        assert r[i] == rest[i - 1];
      }
    }
    forall j | k <= j < |tags| && FirstOfName(tags, j) ensures tags[j] in r {
      if j > k {
        assert tags[j] in rest;
      }
    }
  }

  /** A tag whose name came earlier is dropped. */
  lemma FirstByNameSkips(tags: seq<Tag>, k: nat, rest: seq<Tag>)
    requires k < |tags| && KeepsFirsts(tags, k + 1, rest) && !FirstOfName(tags, k)
    ensures KeepsFirsts(tags, k, rest)
  {
    forall j | k <= j < |tags| && FirstOfName(tags, j) ensures tags[j] in rest {
      assert j != k;
    }
  }

  /** `getImageTags(postDOM)`: the tags of a post have distinct names. */
  function ImageTags(elements: seq<TagElement>): (r: seq<Tag>)
    ensures forall i, i' :: 0 <= i < i' < |r| ==> r[i].name != r[i'].name
  {
    FirstByName(KeptTags(elements), 0)
  }

  /** Each tag of a post is the first kept tag with its name, so it has a name and a known kind. */
  lemma ImageTagsKept(elements: seq<TagElement>)
    ensures var r := ImageTags(elements);
            forall t :: t in r ==> t in KeptTags(elements) && t.name != "" && t.kind in TagKinds
  {
    var kept := KeptTags(elements);
    var r := ImageTags(elements);
    forall t | t in r ensures t in kept {
      var i :| 0 <= i < |r| && r[i] == t;
      assert kept[FindIndex(kept, t.name)] == t;
    }
  }

  /** Every kept name has a tag in the result. */
  lemma ImageTagsCover(elements: seq<TagElement>)
    ensures var r := ImageTags(elements);
            forall t :: t in KeptTags(elements) ==> exists u :: u in r && u.name == t.name
  {
    var kept := KeptTags(elements);
    var r := ImageTags(elements);
    forall t | t in kept ensures exists u :: u in r && u.name == t.name {
      var f := FindIndex(kept, t.name);
      assert f >= 0;
      assert FirstOfName(kept, f);
      assert kept[f] in r;
    }
  }

  /** A link of the post's `.link-list`: its text, if any, and its `href`, if any. */
  datatype Link = Link(text: Option<string>, href: Option<string>)

  /** `a.textContent ?? ""`. */
  function TextOf(l: Link): string {
    match l.text
    case None => ""
    case Some(t) => t
  }

  datatype UrlError = NoLinkList | NoOriginalImageLink

  const OriginalImage: string := "Original image"

  /** The link to the original image is the one whose text, trimmed, is `Original image`. */
  predicate IsOriginal(l: Link) {
    Trim(Js, TextOf(l)) == OriginalImage
  }

  /** `.find(p)` from position `k` on: the first link satisfying `p` (`None` when there is none). */
  function FindLink(links: seq<Link>, p: Link -> bool, k: nat): (r: Option<nat>)
    requires k <= |links|
    ensures r.Some? ==> k <= r.value < |links| && p(links[r.value])
                        && forall j :: k <= j < r.value ==> !p(links[j])
    ensures r.None? ==> forall j :: k <= j < |links| ==> !p(links[j])
    decreases |links| - k
  {
    if k == |links| then None
    else if p(links[k]) then Some(k)
    else FindLink(links, p, k + 1)
  }

  /** `getImageUrl(postDOM)`: the `href` of the first `Original image` link; `None` for a page without a link list. */
  function ImageUrl(linkList: Option<seq<Link>>): (r: Result<string, UrlError>)
    ensures linkList.None? ==> r == Err(NoLinkList)
    ensures r.Ok? ==> exists k :: FindLink(linkList.value, IsOriginal, 0) == Some(k)
                                 && linkList.value[k].href == Some(r.value) && r.value != ""
    ensures linkList.Some? ==>
              (r.Ok? <==> match FindLink(linkList.value, IsOriginal, 0)
                          case None => false
                          case Some(k) => linkList.value[k].href.Some? && linkList.value[k].href.value != "")
  {
    match linkList
    case None => Err(NoLinkList)
    case Some(links) =>
      match FindLink(links, IsOriginal, 0)
      case None => Err(NoOriginalImageLink)
      case Some(k) =>
        match links[k].href
        case None => Err(NoOriginalImageLink)
        case Some(url) => if url == "" then Err(NoOriginalImageLink) else Ok(url)
  }

  datatype UserIdError = NoUserId

  /** `getUserId()`: the `id` query parameter, parsed (`None` is `NaN`); missing or empty is an error. */
  function UserId(idParam: Option<string>): (r: Result<Option<int>, UserIdError>)
    ensures r.Err? <==> idParam.None? || idParam == Some("")
    ensures r.Ok? ==> r.value == JsParseInt(idParam.value)
  {
    match idParam
    case None => Err(NoUserId)
    case Some(id) => if id == "" then Err(NoUserId) else Ok(JsParseInt(id))
  }

  /** A profile link query `id=<n>` gives the user `n`. */
  lemma UserIdOfRendered(n: int)
    ensures UserId(Some(IntToString(n))) == Ok(Some(n))
  {
    JsParseIntOfIntToString(n);
    assert IntToString(n) != "";
  }

  datatype CountError = NoFavoritesCount

  /** `x + 1` on a parsed number, where `NaN + 1` stays `NaN`. */
  function PlusOne(x: Option<int>): Option<int> {
    match x
    case None => None
    case Some(n) => Some(n + 1)
  }

  /** `getUserFavoritesCount`: the profile's favorites link text, parsed, plus one (`None` is `NaN`). */
  function FavoritesCount(linkText: Option<string>): (r: Result<Option<int>, CountError>)
    ensures linkText.None? || linkText == Some("") <==> r.Err?
    ensures r.Ok? ==> r.value == PlusOne(JsParseInt(linkText.value))
  {
    match linkText
    case None => Err(NoFavoritesCount)
    case Some(s) => if s == "" then Err(NoFavoritesCount) else Ok(PlusOne(JsParseInt(s)))
  }

  /** A profile showing `n` favorites yields `n + 1`. */
  lemma FavoritesCountOfRendered(n: int)
    ensures FavoritesCount(Some(IntToString(n))) == Ok(Some(n + 1))
  {
    JsParseIntOfIntToString(n);
    assert IntToString(n) != "";
  }
}
