/** The gallery's page-button window and image route (src/web/routes.rs). */
module WebRoutes {
  import opened Wrappers
  import opened Files
  import opened WebModels
  import WebDatabase

  datatype Pagination = Pagination(pages: seq<int>, showFirst: bool, showLast: bool, totalPageCount: int)

  /** `u64::div_ceil`. */
  function DivCeil(n: nat, d: nat): (q: nat)
    requires d > 0
    ensures q * d >= n && (q == 0 || (q - 1) * d < n)
  {
    (n + d - 1) / d
  }

  function Clamp(x: int, lo: int, hi: int): int
    requires lo <= hi
  {
    if x < lo then lo else if x > hi then hi else x
  }

  function Max(a: int, b: int): int { if a > b then a else b }
  function Min(a: int, b: int): int { if a < b then a else b }

  /** `a..=b` collected into a vector. */
  function Range(a: int, b: int): (r: seq<int>)
    ensures |r| == (if b < a then 0 else b - a + 1)
    ensures forall k :: 0 <= k < |r| ==> r[k] == a + k
  {
    if b < a then [] else seq(b - a + 1, k requires 0 <= k <= b - a => a + k)
  }

  /**
   * The first and last button of the window: centred on `current` where
   * possible, shifted left at the end, never before page 1.
   */
  function Window(total: int, buttons: int, current: int): (w: (int, int))
    requires 1 <= current <= total && buttons >= 1
    ensures 1 <= w.0 <= current <= w.1 <= total
    ensures w.1 - w.0 + 1 == Min(buttons, total)
  {
    var offset := (buttons - 1) / 2;
    assert 0 <= offset <= buttons - 1;
    // `saturating_sub` cannot saturate here: the operands are non-negative and in range
    var desiredStart := Max(current - offset, 1);
    var desiredEnd := desiredStart + buttons - 1;
    var start := if desiredEnd > total then Max(total - (buttons - 1), 1) else desiredStart;
    (start, Min(start + buttons - 1, total))
  }

  /**
   * `pagination(button_count, current_page, total_post_count)` with
   * `POSTS_PER_PAGE` as `perPage`: a window of at most `max(button_count, 1)`
   * consecutive page numbers holding the clamped current page, inside
   * `1..=total_page_count`.
   */
  function Paginate(perPage: nat, buttonCount: int, currentPage: int, totalPostCount: nat): (r: Pagination)
    requires perPage > 0
    ensures r.totalPageCount == DivCeil(totalPostCount, perPage)
    ensures r.totalPageCount == 0 <==> totalPostCount == 0
    ensures r.totalPageCount == 0 ==> r == Pagination([], false, false, 0)
    ensures r.totalPageCount > 0 ==>
      var total := r.totalPageCount;
      && |r.pages| == Min(Max(buttonCount, 1), total)
      && 1 <= r.pages[0] && r.pages[|r.pages| - 1] <= total
      && (forall k :: 0 <= k < |r.pages| ==> r.pages[k] == r.pages[0] + k)
      && Clamp(currentPage, 1, total) in r.pages
      && (r.showFirst <==> r.pages[0] > 1)
      && (r.showLast <==> r.pages[|r.pages| - 1] < total)
  {
    var total := DivCeil(totalPostCount, perPage);
    if total == 0 then Pagination([], false, false, 0)
    else
      var current := Clamp(currentPage, 1, total);
      var (start, end) := Window(total, Max(buttonCount, 1), current);
      var pages := Range(start, end);
      assert pages[current - start] == current;
      Pagination(pages, start > 1, end < total, total)
  }

  /** A current page outside `1..=total` behaves like the nearest end. */
  lemma OutOfRangePageIsClamped(perPage: nat, buttonCount: int, currentPage: int, totalPostCount: nat)
    requires perPage > 0 && totalPostCount > 0
    ensures var total := DivCeil(totalPostCount, perPage);
      && (currentPage < 1 ==> Paginate(perPage, buttonCount, currentPage, totalPostCount) == Paginate(perPage, buttonCount, 1, totalPostCount))
      && (currentPage > total ==> Paginate(perPage, buttonCount, currentPage, totalPostCount) == Paginate(perPage, buttonCount, total, totalPostCount))
  {
  }

  /** The window the index page shows: five buttons. */
  lemma FiveButtonExample()
    ensures Paginate(1, 5, 1, 10).pages == [1, 2, 3, 4, 5]
    ensures Paginate(1, 5, 10, 10).pages == [6, 7, 8, 9, 10]
    ensures Paginate(1, 5, 6, 10).pages == [4, 5, 6, 7, 8]
    ensures Paginate(1, 5, 6, 10).showFirst && Paginate(1, 5, 6, 10).showLast
  {
    assert Range(1, 5) == [1, 2, 3, 4, 5];
    assert Range(6, 10) == [6, 7, 8, 9, 10];
    assert Range(4, 8) == [4, 5, 6, 7, 8];
  }

  datatype SendError = NotFound

  /** `send_image(post_id)`: the downloads row, and its image path if that file exists. */
  function SendImage(onDisk: set<Path>, base: Path, downloads: seq<Post>, postId: int): (r: Result<(Path, string), SendError>)
    ensures r.Ok? <==> exists d :: d in downloads && d.id == postId && ImagePath(WebDatabase.GetPostForSendImage(downloads, postId).value, base) in onDisk
    ensures r.Ok? ==> r.value.0 in onDisk && exists d :: d in downloads && d.id == postId && r.value == (ImagePath(d, base), d.mime)
  {
    match WebDatabase.GetPostForSendImage(downloads, postId)
    case Err(_) => Err(NotFound)
    case Ok(post) =>
      var path := ImagePath(post, base);
      if path in onDisk then Ok((path, post.mime)) else Err(NotFound)
  }
}
