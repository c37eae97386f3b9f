/**
 * The `'data'` handler of the filtered stream (src/index.ts, lines 20-46):
 * each chunk longer than the two-byte keep-alive is parsed, its author is
 * found or created in the `User` table, and then the tweet is inserted into
 * the `Tweet` table.
 */
module Ingestion {
  import opened Wrappers
  import opened Entities

  /** An expanded user of a stream message; `json` is `JSON.stringify(user)`. */
  datatype StreamUser = StreamUser(id: string, username: string, json: string)

  /** The `data` object of a stream message. */
  datatype StreamTweet = StreamTweet(id: string, text: string, authorId: Option<string>)

  /** The `includes` object; its `users` array may be absent. */
  datatype Includes = Includes(users: Option<seq<StreamUser>>)

  /**
   * A parsed stream message; an absent field is `None`, and `json` is
   * `JSON.stringify(tweet)`.
   */
  datatype StreamResponse = StreamResponse(data: Option<StreamTweet>, includes: Option<Includes>, json: string)

  /** A chunk: its length in bytes, and what `JSON.parse` makes of it (`None` when it throws). */
  datatype Chunk = Chunk(size: nat, parsed: Option<StreamResponse>)

  /**
   * How the handler ends: the keep-alive is skipped, the tweet is stored, or
   * the handler's promise is rejected by a parse error, a `TypeError` on a
   * missing field, or a refused insert.
   */
  datatype Outcome = KeepAlive | Stored | ParseError | TypeError | InsertFailed(error: DbError)

  /** `tweet.includes.users[0]`; `None` where reading it, or its `id`, throws. */
  function Author(r: StreamResponse): (u: Option<StreamUser>)
    ensures u.Some? <==> r.includes.Some? && r.includes.value.users.Some? && |r.includes.value.users.value| >= 1
    ensures u.Some? ==> u.value == r.includes.value.users.value[0]
  {
    match r.includes
    case None => None
    case Some(inc) =>
      match inc.users
      case None => None
      case Some(users) => if |users| == 0 then None else Some(users[0])
  }

  /** Find-or-create: the tables after the author is known to be stored. */
  function WithAuthor(t: Tables, u: StreamUser): (r: Tables)
    ensures u.id in r.users && r.tweets == t.tweets && t.users.Keys <= r.users.Keys
  {
    if u.id in t.users then t
    else InsertUser(t, u.id, u.username, u.json).value
  }

  /**
   * One chunk. The author step completes before the tweet is read, so a
   * message without `data` still leaves its author stored.
   */
  function Ingest(t: Tables, c: Chunk): (r: (Tables, Outcome))
    ensures t.users.Keys <= r.0.users.Keys && t.tweets.Keys <= r.0.tweets.Keys
    ensures r.1 != Stored ==> r.0.tweets == t.tweets
  {
    if c.size <= 2 then (t, KeepAlive)
    else if c.parsed.None? then (t, ParseError)
    else
      var r := c.parsed.value;
      match Author(r)
      case None => (t, TypeError)
      case Some(u) =>
        var t1 := WithAuthor(t, u);
        if r.data.None? then (t1, TypeError)
        else
          match InsertTweet(t1, r.data.value.id, u.id, r.json)
          case Err(e) => (t1, InsertFailed(e))
          case Ok(t2) => (t2, Stored)
  }

  /** The author step adds the author's row when it is new and otherwise leaves the user table alone. */
  lemma WithAuthorSpec(t: Tables, u: StreamUser)
    requires Valid(t)
    ensures var t1 := WithAuthor(t, u);
      && Valid(t1)
      && t1.users == (if u.id in t.users then t.users
                      else t.users[u.id := UserRow(t.nextUserId, u.id, u.username, u.json)])
      && t1.tweets == t.tweets && t1.nextTweetId == t.nextTweetId
      && u.id in t1.users
  {
    InsertUserSpec(t, u.id, u.username, u.json);
  }

  /** A keep-alive chunk is not parsed and changes nothing. */
  lemma KeepAliveIgnored(t: Tables, c: Chunk)
    requires c.size <= 2
    ensures Ingest(t, c) == (t, KeepAlive)
  {
  }

  /** Every chunk leaves the tables valid: unique `id_str`s, the foreign key, distinct generated keys. */
  lemma IngestKeepsValid(t: Tables, c: Chunk)
    requires Valid(t)
    ensures Valid(Ingest(t, c).0)
  {
    if c.size > 2 && c.parsed.Some? && Author(c.parsed.value).Some? {
      var r, u := c.parsed.value, Author(c.parsed.value).value;
      WithAuthorSpec(t, u);
      if r.data.Some? {
        InsertTweetSpec(WithAuthor(t, u), r.data.value.id, u.id, r.json);
      }
    }
  }

  /**
   * A message with an author: the author's row is added exactly when no user
   * has its `id_str`, and an existing row is kept as it was.
   */
  lemma AuthorFoundOrCreated(t: Tables, c: Chunk)
    requires Valid(t) && c.size > 2 && c.parsed.Some? && Author(c.parsed.value).Some?
    ensures var u := Author(c.parsed.value).value;
      var t1 := Ingest(t, c).0;
      && u.id in t1.users
      && (u.id in t.users ==> t1.users == t.users)
      && (u.id !in t.users ==> t1.users == t.users[u.id := UserRow(t.nextUserId, u.id, u.username, u.json)])
  {
    var r, u := c.parsed.value, Author(c.parsed.value).value;
    WithAuthorSpec(t, u);
    if r.data.Some? {
      InsertTweetSpec(WithAuthor(t, u), r.data.value.id, u.id, r.json);
    }
  }

  /**
   * A message with an author and a tweet: the tweet is stored exactly when its
   * `id_str` is new, as one row whose `user_id_str` is the included user's id;
   * otherwise the insert is refused for the unique column and no row is added.
   */
  lemma TweetInsertedOnce(t: Tables, c: Chunk)
    requires Valid(t) && c.size > 2 && c.parsed.Some? && Author(c.parsed.value).Some?
    requires c.parsed.value.data.Some?
    ensures var r := c.parsed.value;
      var u := Author(r).value;
      var d := r.data.value;
      var (t1, outcome) := Ingest(t, c);
      && (outcome == Stored <==> d.id !in t.tweets)
      && (outcome != Stored ==> outcome == InsertFailed(UniqueViolation) && t1.tweets == t.tweets)
      && (outcome == Stored ==>
            t1.tweets == t.tweets[d.id := TweetRow(t.nextTweetId, d.id, u.id, r.json)]
            && t1.tweets[d.id].userIdStr in t1.users)
  {
    var r, u := c.parsed.value, Author(c.parsed.value).value;
    WithAuthorSpec(t, u);
    InsertTweetSpec(WithAuthor(t, u), r.data.value.id, u.id, r.json);
  }

  /** Delivering the same message again after it was stored is refused and changes nothing. */
  lemma RedeliveryRefused(t: Tables, c: Chunk)
    requires Valid(t) && Ingest(t, c).1 == Stored
    ensures Ingest(Ingest(t, c).0, c) == (Ingest(t, c).0, InsertFailed(UniqueViolation))
  {
    var r, u := c.parsed.value, Author(c.parsed.value).value;
    var t1 := Ingest(t, c).0;
    TweetInsertedOnce(t, c);
    IngestKeepsValid(t, c);
    WithAuthorSpec(t1, u);
    assert WithAuthor(t1, u) == t1;
  }

  /**
   * The tweet row takes its user from `includes.users[0]`: the `author_id`
   * of the tweet has no effect.
   */
  lemma AuthorIdIgnored(t: Tables, c: Chunk, other: Option<string>)
    requires c.parsed.Some? && c.parsed.value.data.Some?
    ensures var r := c.parsed.value;
      var c2 := c.(parsed := Some(r.(data := Some(r.data.value.(authorId := other)))));
      Ingest(t, c2) == Ingest(t, c)
  {
  }

  /** The two tables of the database and their generated-key counters, updated chunk by chunk. */
  class Store {
    var users: map<string, UserRow>
    var tweets: map<string, TweetRow>
    var nextUserId: nat
    var nextTweetId: nat

    function Snapshot(): Tables
      reads this
    {
      Tables(users, tweets, nextUserId, nextTweetId)
    }

    predicate Valid()
      reads this
    {
      Entities.Valid(Snapshot())
    }

    constructor ()
      ensures Valid() && Snapshot() == Empty()
    {
      users := map[];
      tweets := map[];
      nextUserId := 1;
      nextTweetId := 1;
    }

    /** Find-or-create of the included user: `User.findOne`, then `save` when it is missing. */
    method StoreAuthor(u: StreamUser)
      requires Valid()
      modifies this
      ensures Snapshot() == WithAuthor(old(Snapshot()), u)
    {
      var found := FindUser(Snapshot(), u.id);
      if found.None? {
        users := users[u.id := UserRow(nextUserId, u.id, u.username, u.json)];
        nextUserId := nextUserId + 1;
      }
    }

    /** The `'data'` handler for one chunk. */
    method OnData(c: Chunk) returns (outcome: Outcome)
      requires Valid()
      modifies this
      ensures (Snapshot(), outcome) == Ingest(old(Snapshot()), c)
      ensures Valid()
    {
      ghost var t0 := Snapshot();
      IngestKeepsValid(t0, c);
      if c.size <= 2 {
        return KeepAlive;
      }
      if c.parsed.None? {
        return ParseError;
      }
      var r := c.parsed.value;
      var author := Author(r);
      if author.None? {
        return TypeError;
      }
      var u := author.value;
      StoreAuthor(u);
      ghost var t1 := Snapshot();
      if r.data.None? {
        return TypeError;
      }
      var id := r.data.value.id;
      if id in tweets {
        return InsertFailed(UniqueViolation);
      }
      tweets := tweets[id := TweetRow(nextTweetId, id, u.id, r.json)];
      nextTweetId := nextTweetId + 1;
      outcome := Stored;
      assert u.id in t1.users;
      assert Snapshot() == InsertTweet(t1, id, u.id, r.json).value;
    }
  }
}
