/**
 * The userscript's requests: uploads to the local server, the check of which
 * post ids the server already has, and the throttled retry used for every
 * page and image fetched from the booru.
 */
module UserscriptNetwork {
  import opened Wrappers
  import opened Seqs

  const MaxRetries: nat := 5
  const BaseDelay: real := 100.0
  const FailIncrease: real := 2.0
  const SuccessDecrease: real := 0.9
  const SuccessStreak: nat := 5

  datatype UploadError = UnexpectedStatus(status: int)

  /** `upload(post)` once the server has answered with `status`. */
  function UploadResult(status: int): (r: Result<(), UploadError>)
    ensures r.Ok? <==> status == 200
    ensures r.Err? ==> r.error == UnexpectedStatus(status)
  {
    if status != 200 then Err(UnexpectedStatus(status)) else Ok(())
  }

  /** The filter `id => !downloadedIds.includes(id)`. */
  function NotListed(downloadedIds: seq<int>): int -> bool {
    id => id !in downloadedIds
  }

  /** `filterForNotDownloaded(ids)`, given the server's list of the ids it already has. */
  function NotDownloaded(ids: seq<int>, downloadedIds: seq<int>): (r: seq<int>)
    ensures |r| <= |ids|
    ensures forall x :: x in r <==> x in ids && x !in downloadedIds
  {
    Filter(ids, NotListed(downloadedIds))
  }

  /** Nothing is dropped when the server has none of the ids, and the order is the input's. */
  lemma NotDownloadedKeepsOrder(a: seq<int>, b: seq<int>, downloadedIds: seq<int>)
    ensures NotDownloaded(a + b, downloadedIds) == NotDownloaded(a, downloadedIds) + NotDownloaded(b, downloadedIds)
    ensures (forall x :: x in a ==> x !in downloadedIds) ==> NotDownloaded(a, downloadedIds) == a
  {
    FilterAppend(a, b, NotListed(downloadedIds));
    if forall x :: x in a ==> x !in downloadedIds {
      FilterKeepsAll(a, NotListed(downloadedIds));
    }
  }

  /** `checkIfDownloaded(id)`: the id when the server does NOT have it, `null` when it does. */
  function CheckIfDownloaded(id: int, downloadedIds: seq<int>): (r: Option<int>)
    ensures r == Some(id) <==> id !in downloadedIds
    ensures r == None <==> id in downloadedIds
  {
    var a := NotDownloaded([id], downloadedIds);
    assert |a| > 0 ==> a[0] in a;
    assert id !in downloadedIds ==> id in a;
    if |a| > 0 then Some(a[0]) else None
  }

  /** `d` doubled `k` times: the delay after `k` failures in a row. */
  function Doubled(d: real, k: nat): (r: real)
    ensures d > 0.0 ==> r >= d
  {
    if k == 0 then d else Doubled(d, k - 1) * FailIncrease
  }

  /** The waits of the first `n` attempts, starting from the delay `d`. */
  function Delays(d: real, n: nat): (r: seq<real>)
    ensures |r| == n && forall j :: 0 <= j < n ==> r[j] == Doubled(d, j)
  {
    if n == 0 then [] else Delays(d, n - 1) + [Doubled(d, n - 1)]
  }

  /** The first of the attempts `k`, `k+1`, ... below `MaxRetries` that succeeds. */
  function FirstSuccess(succeeds: nat -> bool, k: nat): (r: Option<nat>)
    ensures r.Some? ==> k <= r.value < MaxRetries && succeeds(r.value)
                        && forall j :: k <= j < r.value ==> !succeeds(j)
    ensures r.None? ==> forall j :: k <= j < MaxRetries ==> !succeeds(j)
    decreases MaxRetries - k
  {
    if k >= MaxRetries then None
    else if succeeds(k) then Some(k)
    else FirstSuccess(succeeds, k + 1)
  }

  /** The module-level `currentDelay` and `currentStreak` shared by every retried fetch. */
  class Throttle {
    var currentDelay: real
    var currentStreak: nat

    ghost predicate Valid()
      reads this
    {
      currentDelay > 0.0 && currentStreak < SuccessStreak
    }

    constructor ()
      ensures Valid() && currentDelay == BaseDelay && currentStreak == 0
    {
      currentDelay := BaseDelay;
      currentStreak := 0;
    }

    /** A fetch succeeded: one more in the streak, and a tenth off the delay when the streak is full. */
    method RecordSuccess()
      requires currentDelay > 0.0 && currentStreak < SuccessStreak
      modifies this
      ensures Valid()
      ensures old(currentStreak) + 1 == SuccessStreak ==>
                currentStreak == 0 && currentDelay == old(currentDelay) * SuccessDecrease
      ensures old(currentStreak) + 1 < SuccessStreak ==>
                currentStreak == old(currentStreak) + 1 && currentDelay == old(currentDelay)
    {
      currentStreak := currentStreak + 1;
      if currentStreak == SuccessStreak {
        currentStreak := 0;
        currentDelay := currentDelay * SuccessDecrease;
      }
    }

    /** A fetch failed: the streak is broken and the delay doubles. */
    method RecordFailure()
      requires currentDelay > 0.0
      modifies this
      ensures currentStreak == 0 && currentDelay == old(currentDelay) * FailIncrease && currentDelay > 0.0
    {
      currentStreak := 0;
      currentDelay := currentDelay * FailIncrease;
    }

    /**
     * `retry(url, fetch)`, where attempt `k` of the fetch succeeds when
     * `succeeds(k)`. `r` is the successful attempt, `None` the thrown error;
     * `sleeps` are the waits in order, without their jitter.
     */
    method Retry(succeeds: nat -> bool) returns (r: Option<nat>, calls: nat, sleeps: seq<real>)
      requires Valid()
      modifies this
      ensures Valid()
      ensures r == FirstSuccess(succeeds, 0)
      ensures calls <= MaxRetries && calls == (if r.Some? then r.value + 1 else MaxRetries)
      ensures |sleeps| == (if r.Some? then r.value + 1 else MaxRetries + 1)
      ensures forall j :: 0 <= j < |sleeps| ==> sleeps[j] == Doubled(old(currentDelay), j)
      ensures r.None? ==> currentStreak == 0 && currentDelay == Doubled(old(currentDelay), MaxRetries)
      ensures r.Some? && r.value > 0 ==>
                currentStreak == 1 && currentDelay == Doubled(old(currentDelay), r.value)
      ensures r == Some(0) && old(currentStreak) + 1 == SuccessStreak ==>
                currentStreak == 0 && currentDelay == old(currentDelay) * SuccessDecrease
      ensures r == Some(0) && old(currentStreak) + 1 < SuccessStreak ==>
                currentStreak == old(currentStreak) + 1 && currentDelay == old(currentDelay)
    {
      ghost var d0, s0 := currentDelay, currentStreak;
      sleeps := [currentDelay];
      calls := 0;
      var attempt: nat := 0;
      while attempt < MaxRetries
        invariant attempt <= MaxRetries && calls == attempt
        invariant FirstSuccess(succeeds, 0) == FirstSuccess(succeeds, attempt)
        invariant attempt > 0 ==> currentStreak == 0
        invariant attempt == 0 ==> currentStreak == s0
        invariant currentDelay == Doubled(d0, attempt) && currentDelay > 0.0
        invariant sleeps == Delays(d0, attempt + 1)
      {
        calls := calls + 1;
        if succeeds(attempt) {
          RecordSuccess();
          r := Some(attempt);
          return;
        }
        RecordFailure();
        sleeps := sleeps + [currentDelay];
        attempt := attempt + 1;
      }
      r := None;
    }
  }

  /** Five successes in a row bring the delay down by a tenth and start a new streak. */
  method FiveSuccesses(t: Throttle) returns (delays: seq<real>)
    requires t.Valid() && t.currentStreak == 0
    modifies t
    ensures t.Valid() && t.currentStreak == 0
    ensures t.currentDelay == old(t.currentDelay) * SuccessDecrease
  {
    var always := (k: nat) => true;
    var i := 0;
    delays := [];
    while i < SuccessStreak
      invariant 0 <= i <= SuccessStreak && t.Valid()
      invariant i < SuccessStreak ==> t.currentStreak == i && t.currentDelay == old(t.currentDelay)
      invariant i == SuccessStreak ==>
                  t.currentStreak == 0 && t.currentDelay == old(t.currentDelay) * SuccessDecrease
    {
      var r, calls, sleeps := t.Retry(always);
      assert r == Some(0);
      delays := delays + sleeps;
      i := i + 1;
    }
  }
}
