/**
 * The downloader's HTTP endpoints (src/downloader/api.rs): `POST /post` stores a
 * batch of remote ids and hands each newly stored id to the download workers
 * through an unbounded channel; `GET /post` reports the number of stored posts.
 */
module DownloaderApi {
  import opened Seqs
  import opened DownloaderDatabase

  /** The body of a successful response, or the error reply a failed statement turns into. */
  datatype Reply = Success | Count(count: int) | Failure

  /**
   * The shared handler state: the store and the sending half of the channel.
   * The channel is the sequence of ids sent so far; a send fails once the
   * receiving half has been dropped, and a failed send delivers nothing.
   */
  class ApiState {
    const database: Store
    var queue: seq<int>
    var receiverAlive: bool

    ghost predicate Valid()
      reads this, database
    {
      database.Valid()
    }

    constructor (database: Store, receiverAlive: bool)
      requires database.Valid()
      ensures this.database == database && queue == [] && this.receiverAlive == receiverAlive
      ensures Valid()
    {
      this.database := database;
      queue := [];
      this.receiverAlive := receiverAlive;
    }

    /** `sender.send(id)` with its result discarded. */
    method Send(id: int)
      modifies this
      ensures receiverAlive == old(receiverAlive)
      ensures queue == old(queue) + (if receiverAlive then [id] else [])
    {
      if receiverAlive {
        queue := queue + [id];
      }
    }

    /**
     * `receive_posts`: inserts the batch, then sends every id the insert
     * returned, in order. The reply is a success whether or not the sends arrived.
     * When the insert statement fails (`insertFails`), `?` returns the error
     * before anything is sent; the single statement changes no row.
     */
    method ReceivePosts(postIds: seq<int>, insertFails: bool) returns (reply: Reply, newIds: seq<int>)
      requires Valid()
      modifies this, database
      ensures Valid() && receiverAlive == old(receiverAlive)
      ensures insertFails ==> reply == Failure && newIds == [] && queue == old(queue)
                              && database.posts == old(database.posts)
      ensures !insertFails ==> reply == Success
      ensures |old(database.posts)| <= |database.posts|
      ensures database.posts[..|old(database.posts)|] == old(database.posts)
      ensures newIds == RemoteIdsOf(database.posts[|old(database.posts)|..])
      ensures !insertFails ==> RemoteIds(database.posts) == RemoteIds(old(database.posts)) + ToSet(postIds)
      ensures !insertFails ==> ToSet(newIds) == ToSet(postIds) - RemoteIds(old(database.posts))
      ensures database.downloads == old(database.downloads)
      ensures queue == old(queue) + (if receiverAlive then newIds else [])
    {
      if insertFails {
        return Failure, [];
      }
      newIds := database.InsertPosts(postIds);
      ghost var posts, downloads := database.posts, database.downloads;
      var i := 0;
      while i < |newIds|
        invariant 0 <= i <= |newIds|
        invariant receiverAlive == old(receiverAlive)
        invariant database.posts == posts && database.downloads == downloads
        invariant queue == old(queue) + (if receiverAlive then newIds[..i] else [])
      {
        assert newIds[..i + 1] == newIds[..i] + [newIds[i]];
        Send(newIds[i]);
        i := i + 1;
      }
      assert newIds[..i] == newIds;
      reply := Success;
    }

    /** `post_count`: the number of stored posts. */
    function PostCount(): (reply: Reply)
      requires Valid()
      reads this, database
      ensures reply == Count(|RemoteIds(database.posts)|)
    {
      Count(database.PostCount())
    }
  }

  /** The ids a batch makes the channel carry, given the store it is submitted to. */
  function Enqueued(posts: seq<PostRow>, postIds: seq<int>, receiverAlive: bool): (r: set<int>)
  {
    if receiverAlive then ToSet(postIds) - RemoteIds(posts) else {}
  }

  /**
   * Only ids unknown to the store are ever enqueued: submitting a batch whose
   * ids are all stored (such as the same batch a second time) sends nothing.
   */
  method ResubmitEnqueuesNothing(api: ApiState, postIds: seq<int>)
    requires api.Valid()
    modifies api, api.database
    ensures api.Valid()
    ensures ToSet(api.queue) == ToSet(old(api.queue)) + Enqueued(old(api.database.posts), postIds, api.receiverAlive)
    ensures |api.queue| == |old(api.queue)| + (if api.receiverAlive then |ToSet(postIds) - RemoteIds(old(api.database.posts))| else 0)
  {
    ghost var q0 := api.queue;
    var _, first := api.ReceivePosts(postIds, false);
    ghost var q1 := api.queue;
    var _, second := api.ReceivePosts(postIds, false);
    ToSetEmpty(second);
    assert api.queue == q1;
    ToSetAppend(q0, if api.receiverAlive then first else []);
    DistinctCount(first);
  }
}
