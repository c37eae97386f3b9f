/**
 * The two tables declared by src/entity/User.ts and src/entity/Tweet.ts, as
 * maps keyed by the unique `id_str` column, with the constraints the
 * declarations put on them: a unique `id_str` in each table, a foreign key
 * from `tweet.user_id_str` to `user.id_str` that cascades on delete, and
 * a generated primary key `id` for every row.
 */
module Entities {
  import opened Wrappers

  /** A `User` row; `data` is the serialised user. */
  datatype UserRow = UserRow(id: nat, idStr: string, username: string, data: string)

  /** A `Tweet` row; `data` is the serialised response. */
  datatype TweetRow = TweetRow(id: nat, idStr: string, userIdStr: string, data: string)

  /**
   * Both tables, keyed by `id_str`, and the next value of each generated
   * primary key.
   */
  datatype Tables = Tables(
    users: map<string, UserRow>,
    tweets: map<string, TweetRow>,
    nextUserId: nat,
    nextTweetId: nat)

  /** The tables a fresh database starts with. */
  function Empty(): (t: Tables)
    ensures Valid(t) && t.users == map[] && t.tweets == map[]
  {
    Tables(map[], map[], 1, 1)
  }

  /** Every row is stored under its own `id_str`, so `id_str` is unique in each table. */
  predicate KeyedById(t: Tables)
  {
    && (forall k :: k in t.users ==> t.users[k].idStr == k)
    && (forall k :: k in t.tweets ==> t.tweets[k].idStr == k)
  }

  /** Every tweet's `user_id_str` is the `id_str` of a stored user. */
  predicate ForeignKeyHolds(t: Tables)
  {
    forall k :: k in t.tweets ==> t.tweets[k].userIdStr in t.users
  }

  /** Generated keys are positive, below the next one to hand out, and never shared. */
  predicate GeneratedIds(t: Tables)
  {
    && t.nextUserId >= 1 && t.nextTweetId >= 1
    && (forall k :: k in t.users ==> 0 < t.users[k].id < t.nextUserId)
    && (forall k :: k in t.tweets ==> 0 < t.tweets[k].id < t.nextTweetId)
    && (forall a, b :: a in t.users && b in t.users && a != b ==> t.users[a].id != t.users[b].id)
    && (forall a, b :: a in t.tweets && b in t.tweets && a != b ==> t.tweets[a].id != t.tweets[b].id)
  }

  predicate Valid(t: Tables)
  {
    KeyedById(t) && ForeignKeyHolds(t) && GeneratedIds(t)
  }

  /** `User.findOneOrFail({ id_str })`: the user with that `id_str`, if any. */
  function FindUser(t: Tables, idStr: string): (r: Option<UserRow>)
    requires Valid(t)
    ensures r.Some? <==> idStr in t.users
    ensures r.Some? ==> r.value == t.users[idStr] && r.value.idStr == idStr
  {
    if idStr in t.users then Some(t.users[idStr]) else None
  }

  /** Why an insert is refused. */
  datatype DbError = UniqueViolation | ForeignKeyViolation

  /**
   * `User.create({...}).save()` on a new entity: an INSERT, refused when the
   * `id_str` is already taken.
   */
  function InsertUser(t: Tables, idStr: string, username: string, data: string): (r: Result<Tables, DbError>)
    ensures r.Err? ==> r.error == UniqueViolation
    ensures r.Ok? ==> idStr in r.value.users && r.value.tweets == t.tweets && t.users.Keys <= r.value.users.Keys
  {
    if idStr in t.users then Err(UniqueViolation)
    else Ok(t.(users := t.users[idStr := UserRow(t.nextUserId, idStr, username, data)],
               nextUserId := t.nextUserId + 1))
  }

  /**
   * `Tweet.create({...}).save()` on a new entity: an INSERT, refused when the
   * `id_str` is already taken or `user_id_str` names no user.
   */
  function InsertTweet(t: Tables, idStr: string, userIdStr: string, data: string): (r: Result<Tables, DbError>)
    ensures r.Ok? ==> idStr in r.value.tweets && r.value.users == t.users && t.tweets.Keys <= r.value.tweets.Keys
  {
    if idStr in t.tweets then Err(UniqueViolation)
    else if userIdStr !in t.users then Err(ForeignKeyViolation)
    else Ok(t.(tweets := t.tweets[idStr := TweetRow(t.nextTweetId, idStr, userIdStr, data)],
               nextTweetId := t.nextTweetId + 1))
  }

  /** A user's `tweets` relation: the tweets whose `user_id_str` is its `id_str`. */
  function TweetsOf(t: Tables, userIdStr: string): (r: map<string, TweetRow>)
    ensures forall k :: k in r ==> k in t.tweets && r[k] == t.tweets[k] && r[k].userIdStr == userIdStr
  {
    map k | k in t.tweets && t.tweets[k].userIdStr == userIdStr :: t.tweets[k]
  }

  /** Deleting a user deletes its tweets with it (`onDelete: 'CASCADE'`). */
  function DeleteUser(t: Tables, idStr: string): (r: Tables)
    ensures idStr !in r.users && r.users.Keys <= t.users.Keys && r.tweets.Keys <= t.tweets.Keys
  {
    t.(users := t.users - {idStr},
       tweets := map k | k in t.tweets && t.tweets[k].userIdStr != idStr :: t.tweets[k])
  }

  /**
   * An insert of a user succeeds exactly when its `id_str` is new; it adds
   * that one row with the next generated key and keeps the tables valid.
   */
  lemma InsertUserSpec(t: Tables, idStr: string, username: string, data: string)
    requires Valid(t)
    ensures InsertUser(t, idStr, username, data).Ok? <==> idStr !in t.users
    ensures InsertUser(t, idStr, username, data).Ok? ==>
      var t1 := InsertUser(t, idStr, username, data).value;
      && Valid(t1)
      && t1.users == t.users[idStr := UserRow(t.nextUserId, idStr, username, data)]
      && t1.tweets == t.tweets
  {
    if idStr !in t.users {
      var t1 := InsertUser(t, idStr, username, data).value;
      assert KeyedById(t1) && ForeignKeyHolds(t1);
      assert GeneratedIds(t1) by {
        forall a, b | a in t1.users && b in t1.users && a != b
          ensures t1.users[a].id != t1.users[b].id
        {
          if a != idStr && b != idStr {
            assert t1.users[a] == t.users[a] && t1.users[b] == t.users[b];
          }
        }
      }
    }
  }

  /**
   * An insert of a tweet succeeds exactly when its `id_str` is new and its
   * user exists; it adds that one row and keeps the tables valid.
   */
  lemma InsertTweetSpec(t: Tables, idStr: string, userIdStr: string, data: string)
    requires Valid(t)
    ensures InsertTweet(t, idStr, userIdStr, data).Ok? <==> idStr !in t.tweets && userIdStr in t.users
    ensures InsertTweet(t, idStr, userIdStr, data).Ok? ==>
      var t1 := InsertTweet(t, idStr, userIdStr, data).value;
      && Valid(t1)
      && t1.tweets == t.tweets[idStr := TweetRow(t.nextTweetId, idStr, userIdStr, data)]
      && t1.users == t.users
  {
    if idStr !in t.tweets && userIdStr in t.users {
      var t1 := InsertTweet(t, idStr, userIdStr, data).value;
      assert KeyedById(t1) && ForeignKeyHolds(t1);
      assert GeneratedIds(t1) by {
        forall a, b | a in t1.tweets && b in t1.tweets && a != b
          ensures t1.tweets[a].id != t1.tweets[b].id
        {
          if a != idStr && b != idStr {
            assert t1.tweets[a] == t.tweets[a] && t1.tweets[b] == t.tweets[b];
          }
        }
      }
    }
  }

  /**
   * The cascade removes the user and exactly its tweets, keeps every other
   * row as it was, and leaves the tables valid.
   */
  lemma DeleteUserCascades(t: Tables, idStr: string)
    requires Valid(t)
    ensures var t1 := DeleteUser(t, idStr);
      && Valid(t1)
      && idStr !in t1.users
      && (forall k :: k in t1.users <==> k in t.users && k != idStr)
      && (forall k :: k in t1.users ==> t1.users[k] == t.users[k])
      && (forall k :: k in t1.tweets <==> k in t.tweets && k !in TweetsOf(t, idStr))
      && (forall k :: k in t1.tweets ==> t1.tweets[k] == t.tweets[k])
      && TweetsOf(t1, idStr) == map[]
  {
    var t1 := DeleteUser(t, idStr);
    assert Valid(t1) by {
      assert KeyedById(t1);
      assert ForeignKeyHolds(t1);
      assert GeneratedIds(t1);
    }
    assert forall k :: k !in TweetsOf(t1, idStr);
  }

  /**
   * The `tweets` relation partitions the tweets: each tweet is in the relation
   * of its own user and of no other.
   */
  lemma TweetsOfPartition(t: Tables, k: string, u: string)
    requires Valid(t) && k in t.tweets
    ensures k in TweetsOf(t, u) <==> u == t.tweets[k].userIdStr
    ensures k in TweetsOf(t, t.tweets[k].userIdStr) && t.tweets[k].userIdStr in t.users
  {
  }
}
