/**
 * The userscript's document fetcher: a GET retried with exponential backoff on
 * throttling and server errors, the check of the answer's content type, and
 * the post ids read from a favorites page.
 */
module UserscriptFetcher {
  import opened Wrappers
  import opened Seqs
  import opened Text

  const MaxRetries: nat := 5
  const BaseDelay: nat := 100
  const BackoffMultiplier: nat := 2
  const RetryStatus: seq<int> := [429, 500, 502, 503, 504]

  /** The five types `DOMParser.parseFromString` accepts. */
  const SupportedTypes: seq<string> :=
    ["application/xml", "application/xhtml+xml", "text/html", "text/xml", "image/svg+xml"]

  /** What one call of `fetch(url)` did: threw, or answered with a status. */
  datatype Attempt = Threw | Responded(status: int)

  /** An attempt the loop accepts: a response whose status is not retried. */
  predicate Accepted(a: Attempt) {
    a.Responded? && a.status !in RetryStatus
  }

  /** `BACKOFF_MULTIPLIER ** k`. */
  function Pow(k: nat): (r: nat)
    ensures r >= 1
  {
    if k == 0 then 1 else BackoffMultiplier * Pow(k - 1)
  }

  /** The wait after the failed attempt `attempt` (counted from 1). */
  function Backoff(attempt: nat): nat
    requires attempt >= 1
  {
    BaseDelay * Pow(attempt - 1)
  }

  /** The waits are 100, 200, 400, 800 and 1600 milliseconds. */
  lemma BackoffSchedule()
    ensures Backoff(1) == 100 && Backoff(2) == 200 && Backoff(3) == 400
    ensures Backoff(4) == 800 && Backoff(5) == 1600
  {
  }

  /** The first attempt from `attempt` to `MaxRetries` that is accepted. */
  function FirstAccepted(attempts: nat -> Attempt, attempt: nat): (r: Option<nat>)
    requires attempt >= 1
    ensures r.Some? ==> attempt <= r.value <= MaxRetries && Accepted(attempts(r.value))
                        && forall k :: attempt <= k < r.value ==> !Accepted(attempts(k))
    ensures r.None? ==> forall k :: attempt <= k <= MaxRetries ==> !Accepted(attempts(k))
    decreases MaxRetries + 1 - attempt
  {
    if attempt > MaxRetries then None
    else if Accepted(attempts(attempt)) then Some(attempt)
    else FirstAccepted(attempts, attempt + 1)
  }

  datatype FetchError = ExceededMaxRetries | NoContentType | InvalidDocument

  /**
   * `getWithRetry(url)`, where `attempts(k)` is what the `k`-th fetch does.
   * The result is the accepted attempt's number and status; `sleeps` are the
   * waits, in order.
   */
  method GetWithRetry(attempts: nat -> Attempt) returns (r: Result<(nat, int), FetchError>, sleeps: seq<nat>)
    ensures r.Ok? <==> FirstAccepted(attempts, 1).Some?
    ensures r.Ok? ==> r.value.0 == FirstAccepted(attempts, 1).value
                      && attempts(r.value.0) == Responded(r.value.1)
    ensures r.Err? ==> r.error == ExceededMaxRetries
    ensures |sleeps| == (if r.Ok? then r.value.0 - 1 else MaxRetries)
    ensures forall k :: 0 <= k < |sleeps| ==> sleeps[k] == Backoff(k + 1)
  {
    var attempt: nat := 1;
    sleeps := [];
    while attempt <= MaxRetries
      invariant 1 <= attempt <= MaxRetries + 1
      invariant FirstAccepted(attempts, 1) == FirstAccepted(attempts, attempt)
      invariant |sleeps| == attempt - 1
      invariant forall k :: 0 <= k < |sleeps| ==> sleeps[k] == Backoff(k + 1)
    {
      var response := attempts(attempt);
      if response.Responded? && response.status !in RetryStatus {
        return Ok((attempt, response.status)), sleeps;
      }
      sleeps := sleeps + [BaseDelay * Pow(attempt - 1)];
      attempt := attempt + 1;
    }
    r := Err(ExceededMaxRetries);
  }

  /** When every attempt fails, there are five attempts and five waits, the last before the error. */
  method AllAttemptsFail() returns (r: Result<(nat, int), FetchError>, sleeps: seq<nat>)
    ensures r == Err(ExceededMaxRetries)
    ensures sleeps == [100, 200, 400, 800, 1600]
  {
    r, sleeps := GetWithRetry((k: nat) => Responded(503));
    BackoffSchedule();
  }

  /**
   * `fetchDocument(url)` up to the parse: `getWithRetry`, then the check of the
   * accepted response's `Content-Type`. `headers(k)` is that header of the
   * `k`-th response. A document is parsed only from an accepted attempt whose
   * media type is one of the supported ones; the result names that attempt and type.
   */
  method FetchDocument(attempts: nat -> Attempt, headers: nat -> Option<string>)
    returns (r: Result<(nat, string), FetchError>, sleeps: seq<nat>)
    ensures FirstAccepted(attempts, 1).None? ==> r == Err(ExceededMaxRetries)
    ensures FirstAccepted(attempts, 1).Some? ==>
              var k := FirstAccepted(attempts, 1).value;
              (r.Ok? <==> DocumentType(headers(k)).Ok?)
              && (r.Err? ==> r.error == DocumentType(headers(k)).error)
    ensures r.Ok? ==> FirstAccepted(attempts, 1) == Some(r.value.0) && attempts(r.value.0).Responded?
                      && headers(r.value.0).Some? && r.value.1 == MediaType(headers(r.value.0).value)
                      && r.value.1 in SupportedTypes
    ensures |sleeps| == (if FirstAccepted(attempts, 1).Some? then FirstAccepted(attempts, 1).value - 1 else MaxRetries)
    ensures forall k :: 0 <= k < |sleeps| ==> sleeps[k] == Backoff(k + 1)
  {
    var response;
    response, sleeps := GetWithRetry(attempts);
    if response.Err? {
      return Err(response.error), sleeps;
    }
    var k := response.value.0;
    var contentType := DocumentType(headers(k));
    if contentType.Err? {
      return Err(contentType.error), sleeps;
    }
    r := Ok((k, contentType.value));
  }

  /** `isValidDOMParserContentType(t)`: an exact match of one of the five types. */
  predicate IsValidContentType(t: string) {
    t in SupportedTypes
  }

  /** The `Content-Type` header up to its first `;`, trimmed. */
  function MediaType(header: string): (r: string)
    ensures ';' !in r && Trim(Js, r) == r
    ensures ';' !in header ==> r == Trim(Js, header)
  {
    var pre := Split(header, ';')[0];
    TrimKeepsOnly(Js, pre);
    TrimIdempotent(Js, pre);
    if ';' in header then Trim(Js, pre)
    else SplitNoSeparator(header, ';'); Trim(Js, pre)
  }

  /** `fetchDocument`'s check of the `Content-Type` header (`None` when it is missing). */
  function DocumentType(header: Option<string>): (r: Result<string, FetchError>)
    ensures header.None? ==> r == Err(NoContentType)
    ensures header.Some? && MediaType(header.value) == "" ==> r == Err(NoContentType)
    ensures header.Some? && MediaType(header.value) != "" ==>
              (r.Ok? <==> IsValidContentType(MediaType(header.value)))
    ensures r.Ok? ==> header.Some? && r.value == MediaType(header.value) && r.value in SupportedTypes
    ensures r.Err? ==> r.error != ExceededMaxRetries
  {
    match header
    case None => Err(NoContentType)
    case Some(h) =>
      var t := MediaType(h);
      if t == "" then Err(NoContentType)
      else if !IsValidContentType(t) then Err(InvalidDocument)
      else Ok(t)
  }

  /** The supported types hold no `;` and start and end with a letter. */
  lemma SupportedTypeShape(t: string)
    requires t in SupportedTypes
    ensures t != [] && ';' !in t && !IsSpace(Js, t[0]) && !IsSpace(Js, t[|t| - 1])
  {
  }

  /** Parameters after the type, and spaces around it, do not matter. */
  lemma DocumentTypeWithParameters(t: string, params: string)
    requires t in SupportedTypes
    ensures DocumentType(Some(" " + t + "; " + params)) == Ok(t)
  {
    SupportedTypeShape(t);
    var pre := " " + t;
    assert ';' !in pre;
    assert " " + t + "; " + params == pre + [';'] + (" " + params);
    SplitAround(pre, ';', " " + params);
    SplitNoSeparator(pre, ';');
    assert MediaType(" " + t + "; " + params) == Trim(Js, pre);
    TrimPadded(Js, " ", t, "");
    assert " " + t + "" == pre;
  }

  /** The post id of a thumbnail anchor: `Number.parseInt(anchor.id.substring(1), 10)`. */
  function AnchorPostId(anchorId: string): (r: Option<int>)
    ensures |anchorId| <= 1 ==> r.None?
    ensures |anchorId| > 1 && AllDigits(anchorId[1..]) ==> r == Some(DigitsToNat(anchorId[1..]) as int)
  {
    var rest := if |anchorId| >= 1 then anchorId[1..] else "";
    if rest != [] && AllDigits(rest) then JsParseIntOfDigits(rest); JsParseInt(rest)
    else assert rest == [] ==> LeadingDigits(TrimStart(Js, rest)) == []; JsParseInt(rest)
  }

  /** `getIdsFromDOM(dom)`: the anchors' post ids, last anchor first. */
  function IdsFromDom(anchorIds: seq<string>): (r: seq<Option<int>>)
    ensures |r| == |anchorIds|
    ensures forall i :: 0 <= i < |r| ==> r[i] == AnchorPostId(anchorIds[|anchorIds| - 1 - i])
  {
    var ids := AnchorPostIds(anchorIds);
    ReverseOfPointwise(anchorIds, ids, AnchorPostId);
    Reverse(ids)
  }

  /** Reversing a sequence computed pointwise from `xs` computes it from `xs` read backwards. */
  lemma ReverseOfPointwise<A, B>(xs: seq<A>, ys: seq<B>, f: A -> B)
    requires |ys| == |xs| && forall i :: 0 <= i < |ys| ==> ys[i] == f(xs[i])
    ensures forall i :: 0 <= i < |ys| ==> Reverse(ys)[i] == f(xs[|xs| - 1 - i])
  {
    forall i | 0 <= i < |ys| ensures Reverse(ys)[i] == f(xs[|xs| - 1 - i]) {
      assert Reverse(ys)[i] == ys[|ys| - 1 - i];
    }
  }

  /** The anchors' post ids in document order, as `getPostIds` reads them. */
  function AnchorPostIds(anchorIds: seq<string>): (r: seq<Option<int>>)
    ensures |r| == |anchorIds| && forall i :: 0 <= i < |r| ==> r[i] == AnchorPostId(anchorIds[i])
  {
    if anchorIds == [] then [] else [AnchorPostId(anchorIds[0])] + AnchorPostIds(anchorIds[1..])
  }

  /** An anchor id made of one leading character and a rendered id gives that id back. */
  lemma AnchorPostIdOfRendered(c: char, n: int)
    ensures AnchorPostId([c] + IntToString(n)) == Some(n)
  {
    assert ([c] + IntToString(n))[1..] == IntToString(n);
    JsParseIntOfIntToString(n);
  }
}
