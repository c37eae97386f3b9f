# GraphTL core, modelled in Dafny

GraphTL streams tweets from the Twitter API v2 into a relational database.
This project models and proves properties of three pieces of its
deterministic logic:

- **The OAuth 2.0 token generator** (`src/utils/token-generator.ts`):
  - `base64URLEncode`, the base64url encoding of section 5 of RFC 4648 without padding;
  - the PKCE `code_verifier` and its S256 `code_challenge` (RFC 7636, sections 4.1, 4.2 and Appendix A);
  - the `state` check of the callback, the CSRF guard of section 10.12 of RFC 6749;
  - the rewrite of `.env` with the new tokens.

  The module-level `state` and `code_verifier`, the `.env` contents and the token
  requests sent form a session, held by the class `CallbackServer`. Its
  `Listen` and `HandleCallback` methods are proved against the functions
  `Start` and `Respond`.
- **The stream's `'data'` handler** (`src/index.ts`). It skips keep-alive chunks,
  finds or creates the author in the `User` table, then inserts the tweet into
  the `Tweet` table. The tables and their constraints come from
  `src/entity/User.ts` and `src/entity/Tweet.ts`:
  - `id_str` is unique in each table;
  - every `Tweet.user_id_str` names a user, and deleting a user cascades to their tweets;
  - the primary keys are generated.

  The class `Ingestion.Store` holds the two tables as maps keyed by `id_str`.
  Its `OnData` method handles one chunk and is proved against the function `Ingest`.
- **The request normalisers** (`src/utils/twitter.ts`). The axios request
  interceptor flattens query-parameter values. The table
  `convertHttpMethodToAxiosMethod` maps the generated client's HTTP methods to
  axios methods.

Supporting modules:

| module | content |
|---|---|
| `JsStrings` | `split`, `join` and global one-character `replace` |
| `JsObjects` | objects and `Map`s as property lists in creation order; `Object.entries`, `Object.fromEntries` and spread follow the own-property order of section 10.1.11.1 of ECMAScript 2023 (array-index keys first, ascending; other keys in creation order) |
| `Base64` | the standard encoding of section 4 of RFC 4648, what `Buffer.toString('base64')` produces, with a decoder as its inverse |
| `Wrappers` | `Option` and `Result` |

## Model

| member | source | states |
|---|---|---|
| JsStrings.Join | src/utils/token-generator.ts:46 | `join(c)`; `Split` and `SplitJoin` state that it and `split` undo each other |
| JsStrings.Split | src/utils/token-generator.ts:43 | `split` on one character gives at least one piece, no piece holds the separator, and joining the pieces with it gives the text back |
| JsStrings.SplitJoin | src/utils/token-generator.ts:43-46 | lines without the separator, joined and split again, come back unchanged |
| JsStrings.ReplaceAll | src/utils/token-generator.ts:58-59 | a global one-character `replace` keeps the length and changes exactly the positions holding the pattern |
| JsStrings.RemoveAll | src/utils/token-generator.ts:60 | deleting every `=` shortens the text by the number of `=`, leaves none, and keeps every other character |
| JsStrings.RemoveAllAppend | src/utils/token-generator.ts:60 | the deletion works left to right: on a concatenation it gives the concatenation of the two results, so order and repeated characters are kept |
| JsStrings.RemoveAllOne | src/utils/token-generator.ts:60 | a single character is kept exactly when it is not the deleted one |
| JsStrings.Count | src/utils/token-generator.ts:60 | the number of occurrences is at most the length, and zero exactly when the character does not occur |
| JsObjects.Put | src/utils/token-generator.ts:43-45 | setting a key keeps the position of an existing key and appends a new key last; the key then holds the new value and every other key is unchanged |
| JsObjects.FromEntries | src/utils/token-generator.ts:43 | `new Map(entries)` / `Object.fromEntries`: each key once, in order of first occurrence, with the value of its last occurrence |
| JsObjects.FromEntriesOfUnique | src/utils/twitter.ts:13 | entries that already have distinct keys come out of `Object.fromEntries` unchanged |
| JsObjects.PutNew | src/utils/token-generator.ts:44-45 | putting a key that is absent appends exactly that entry |
| JsObjects.PutSame | src/utils/token-generator.ts:44-45 | putting the value a key already has changes nothing |
| JsObjects.IndexOrderIsNumeric | src/utils/token-generator.ts:42 | the order that sorts array-index keys (shorter first, then by character) is their numeric order |
| JsObjects.Entries | src/utils/token-generator.ts:42 | `Object.entries`; `EntriesPermutes`, `EntriesOrder` and `EntriesGet` state its order and contents |
| JsObjects.EntriesPermutes | src/utils/token-generator.ts:42 | `Object.entries` lists the properties of an object as a permutation of them, without repeated keys, with array indices ascending |
| JsObjects.EntriesOrder | src/utils/token-generator.ts:42 | `Object.entries` lists array-index keys first, in ascending numeric order, then the other keys in creation order |
| JsObjects.EntriesGet | src/utils/token-generator.ts:42 | every key has the same value in `Object.entries` as in the object |
| JsObjects.EntriesIdempotent | src/utils/token-generator.ts:42-43 | listing an object already in `Object.entries` order leaves it as it is |
| JsObjects.MapValues | src/utils/token-generator.ts:46 | mapping over the values keeps every key and its position |
| JsObjects.MapValuesEntries | src/utils/token-generator.ts:42-46 | mapping over the values commutes with `Object.entries` |
| Base64.Encode | src/utils/token-generator.ts:57 | `Buffer.toString('base64')`; `EncodeLength`, `EncodeShape`, `DecodeEncode` and `EncodeInjective` state its length, shape and inverse |
| Base64.Decode | src/utils/token-generator.ts:57 | the decoder, the inverse of `Buffer.toString('base64')`, accepts only text whose length is a multiple of four |
| Base64.EncodeLength | src/utils/token-generator.ts:57 | the standard encoding takes four characters for every started group of three bytes |
| Base64.EncodeShape | src/utils/token-generator.ts:57 | the standard encoding is alphabet characters followed by exactly `(3 - n mod 3) mod 3` `=` characters, at most two |
| Base64.QuadRoundTrip | src/utils/token-generator.ts:57 | a full group of three bytes decodes back from its four characters |
| Base64.DecodeEncode | src/utils/token-generator.ts:57 | decoding undoes the standard encoding for every byte string |
| Base64.EncodeInjective | src/utils/token-generator.ts:57 | no two byte strings share a standard encoding |
| TokenGenerator.UrlSafe | src/utils/token-generator.ts:58-60 | after the three replacements the text holds no `+`, `/` or `=` |
| TokenGenerator.UrlSafeRef | src/utils/token-generator.ts:58-60 | the one-pass reference rewrite; `UrlSafeIsRef` states that the three chained replacements equal it |
| TokenGenerator.UrlSafeIsRef | src/utils/token-generator.ts:58-60 | the three global replacements equal a one-pass rewrite that maps `+` to `-` and `/` to `_` and drops `=` |
| TokenGenerator.UrlSafeLength | src/utils/token-generator.ts:58-60 | the output is the input's length minus its number of `=` |
| TokenGenerator.Base64UrlEncode | src/utils/token-generator.ts:56-60 | `base64URLEncode` output never contains `+`, `/` or `=` |
| TokenGenerator.UrlEncodeIsMap | src/utils/token-generator.ts:56-60 | the base64url form is the alphabet part of the standard encoding mapped position by position, with the padding gone |
| TokenGenerator.UrlEncodeShape | src/utils/token-generator.ts:56-60 | `n` bytes give `ceil(4n / 3)` characters, all from `[A-Za-z0-9-_]` |
| TokenGenerator.UrlRoundTrip | src/utils/token-generator.ts:56-60 | restoring `+`, `/` and the padding and then decoding gives the bytes back |
| TokenGenerator.UrlEncodeInjective | src/utils/token-generator.ts:56-60 | distinct buffers have distinct base64url forms |
| TokenGenerator.CodeVerifier | src/utils/token-generator.ts:65 | the verifier is URL-safe: no `+`, `/` or `=` |
| TokenGenerator.CodeChallenge | src/utils/token-generator.ts:73 | the challenge is URL-safe: no `+`, `/` or `=` |
| TokenGenerator.CodeVerifierShape | src/utils/token-generator.ts:65 | a verifier from 32 random bytes is exactly 43 characters of `[A-Za-z0-9-_]`, within the 43 to 128 that RFC 7636 allows |
| TokenGenerator.ChallengeBindsDigest | src/utils/token-generator.ts:73 | equal S256 challenges mean equal SHA-256 digests of the verifiers |
| JsObjects.Get | src/utils/token-generator.ts:29 | reading a property or `searchParams.get(name)` answers `None` exactly when no entry has the name |
| JsObjects.GetFirst | src/utils/token-generator.ts:29 | `searchParams.get` answers with the value of the first pair carrying the name |
| TokenGenerator.AuthParams | src/utils/token-generator.ts:66-75 | the authorization query has seven parameters, each named once |
| TokenGenerator.AuthParamsCarry | src/utils/token-generator.ts:66-75 | the authorization query carries `response_type=code`, the stored `state`, the challenge and `code_challenge_method=s256` |
| TokenGenerator.Start | src/utils/token-generator.ts:62-77 | `listen` stores the new `state` together with a verifier, and leaves `.env` and the requests sent alone |
| TokenGenerator.Respond | src/utils/token-generator.ts:27-54 | a callback never changes the stored `state` or verifier, and sends at most one token request, after those already sent |
| TokenGenerator.UnsetStateRefuses | src/utils/token-generator.ts:23-52 | before `listen` has set `state`, every callback gets a 400 and changes nothing |
| TokenGenerator.MismatchRefused | src/utils/token-generator.ts:29-52 | a callback gets a 400 exactly when its `state` differs from the stored one, and then sends no token request and leaves `.env` alone |
| TokenGenerator.MatchSendsRequest | src/utils/token-generator.ts:31-37 | a matching callback sends exactly one token request, with `grant_type=authorization_code`, the callback's `code` and the stored verifier |
| TokenGenerator.MatchOutcome | src/utils/token-generator.ts:31-53 | a matching callback redirects to the site exactly when the token request succeeds and `.env` exists, and `.env` then holds the rewrite with the new tokens; otherwise there is no reply and `.env` is untouched |
| TokenGenerator.PkceBinding | src/utils/token-generator.ts:31-73 | after `listen`, a callback with the issued `state` sends the very verifier whose challenge the authorization URL carried (section 4.5 of RFC 7636) |
| TokenGenerator.RespondKeepsPaired | src/utils/token-generator.ts:23-65 | a callback never leaves a stored `state` without a stored verifier |
| TokenGenerator.CallbackServer.constructor | src/utils/token-generator.ts:23-24 | the server starts with neither `state` nor verifier |
| TokenGenerator.CallbackServer.Listen | src/utils/token-generator.ts:62-77 | `listen` stores the new `state` and verifier and returns the authorization query, as `Start` describes |
| TokenGenerator.CallbackServer.HandleCallback | src/utils/token-generator.ts:27-54 | one callback updates the session and replies as `Respond` describes, and keeps `state` paired with a verifier |
| EnvMerge.SplitPair | src/utils/token-generator.ts:43 | `split('=', 2)` gives a key and a value without `=`; a line without `=` is the key with the value `undefined` |
| EnvMerge.SplitPairTruncates | src/utils/token-generator.ts:43 | a line is cut at its first two `=`: the text after the second is lost |
| EnvMerge.NonEmptyMembers | src/utils/token-generator.ts:43 | `filter(Boolean)` keeps exactly the non-empty lines |
| EnvMerge.NonEmptyAppend | src/utils/token-generator.ts:43 | `filter(Boolean)` works line by line: on a concatenation it gives the concatenation of the two results, so order and repeated lines are kept |
| EnvMerge.NonEmptyOne | src/utils/token-generator.ts:43 | a single line is kept exactly when it is not empty |
| EnvMerge.ParseEnv | src/utils/token-generator.ts:43 | reading `.env` gives an object with each key once |
| EnvMerge.ParseEnvEntries | src/utils/token-generator.ts:43 | the file is read as one entry per key, in the order keys first appear, with the value of the key's last line |
| EnvMerge.MergeContents | src/utils/token-generator.ts:42-45 | the written properties hold each key once: `BEARER_TOKEN` and `REFRESH_TOKEN` with the new tokens (`undefined` when no refresh token came back), every other key of the file with its last value |
| EnvMerge.MergeOrder | src/utils/token-generator.ts:42-45 | the lines come out with array-index keys first and ascending, then the file's other keys in order of first appearance, then the token keys the file lacked |
| EnvMerge.Rewrite | src/utils/token-generator.ts:42-47 | the new `.env` text; `MergeContents`, `MergeOrder`, `RewriteLines`, `RewriteEnd`, `WrittenReadBack` and `RewriteIdempotent` state what it holds |
| EnvMerge.RewriteLines | src/utils/token-generator.ts:46 | the new text splits into one `KEY=value` line per written property, with `undefined` printed as `undefined` |
| EnvMerge.RewriteEnd | src/utils/token-generator.ts:46 | the new text is not empty and does not end with a newline |
| EnvMerge.WrittenReadBack | src/utils/token-generator.ts:43-46 | written text read back gives the written properties, each value cut at its first `=` |
| EnvMerge.RewriteIdempotent | src/utils/token-generator.ts:42-47 | rewriting the rewritten file with the same newline-free tokens gives the same text |
| Entities.Empty | src/entity/User.ts:5-7 | a fresh database has both tables empty and satisfies every constraint |
| Entities.FindUser | src/index.ts:28 | `findOneOrFail({ id_str })` finds a user exactly when one has that `id_str`, and returns that row |
| Entities.InsertUser | src/index.ts:30-35 | a refused user insert is a unique violation; a successful one stores the user, keeps every other user and leaves the tweets alone |
| Entities.InsertTweet | src/index.ts:38-44 | a successful tweet insert stores the tweet, keeps every other tweet and leaves the users alone |
| Entities.TweetsOf | src/entity/User.ts:24-25 | a user's `tweets` are rows of the tweet table whose `user_id_str` is that user's |
| Entities.DeleteUser | src/entity/Tweet.ts:15-17 | deleting a user removes it and adds no user or tweet |
| Entities.InsertUserSpec | src/entity/User.ts:6-16 | a user insert succeeds exactly when `id_str` is new, adds that one row with the next generated `id`, and keeps the constraints |
| Entities.InsertTweetSpec | src/entity/Tweet.ts:6-21 | a tweet insert succeeds exactly when `id_str` is new and `user_id_str` names a user, adds that one row, and keeps the constraints |
| Entities.DeleteUserCascades | src/entity/Tweet.ts:15-17 | deleting a user removes exactly that user and their tweets, keeps every other row, and keeps the constraints |
| Entities.TweetsOfPartition | src/entity/User.ts:24-25 | a user's `tweets` are exactly the tweets whose `user_id_str` is that user's `id_str`, and every tweet belongs to a stored user |
| Ingestion.Author | src/index.ts:24 | the author is `includes.users[0]`, present exactly when `includes.users` exists and is not empty |
| Ingestion.WithAuthor | src/index.ts:28-36 | after find-or-create the author is stored, every user is kept and the tweets are untouched |
| Ingestion.Ingest | src/index.ts:20-46 | a chunk never removes a user or a tweet, and changes the tweet table only when it ends with the tweet stored |
| Ingestion.WithAuthorSpec | src/index.ts:28-36 | find-or-create adds the author's row exactly when no user has its `id_str`, leaves the tweet table alone, and keeps the constraints |
| Ingestion.KeepAliveIgnored | src/index.ts:21-22 | a chunk of at most two bytes is not parsed and changes nothing |
| Ingestion.IngestKeepsValid | src/index.ts:20-46 | every chunk leaves the tables satisfying unique `id_str`, the foreign key and distinct generated keys |
| Ingestion.AuthorFoundOrCreated | src/index.ts:24-36 | the author is stored afterwards; an existing user table is left unchanged; otherwise one row is added with the next generated key, the user's `id` as `id_str`, its `username` and its serialised data |
| Ingestion.TweetInsertedOnce | src/index.ts:38-44 | the tweet is stored exactly when its `id_str` is new, as one row whose `user_id_str` is a stored user; otherwise the insert fails on the unique column and adds nothing |
| Ingestion.RedeliveryRefused | src/index.ts:38-44 | delivering a stored tweet again fails on the unique column and changes nothing |
| Ingestion.AuthorIdIgnored | src/index.ts:39-40 | the tweet's `author_id` has no effect; the row's user comes from `includes.users[0]` |
| Ingestion.Store.constructor | src/index.ts:9 | the store opens on empty tables that satisfy every constraint |
| Ingestion.Store.StoreAuthor | src/index.ts:28-36 | the find-or-create step changes the tables as `WithAuthor` describes |
| Ingestion.Store.OnData | src/index.ts:20-46 | one chunk updates the tables and ends as `Ingest` describes, and keeps the constraints |
| Twitter.FlattenEntry | src/utils/twitter.ts:14-18 | a `null` value throws; a non-object passes through unchanged; an array becomes its elements joined with `,`; an object whose `value` is an array becomes that array joined; an object with a truthy `value` becomes that value; any other object becomes the `undefined` key with value `undefined`; a result value is never an array or `null` |
| Twitter.FlattenedIsFlat | src/utils/twitter.ts:13-19 | after the interceptor no parameter value is an array or `null` |
| Twitter.FlattenParams | src/utils/twitter.ts:13 | the interceptor as written throws when the request has no parameters, and its output has each key once |
| Twitter.FlattenParamsOrAbsent | src/utils/twitter.ts:13-19 | the corrected interceptor keeps absent parameters absent and present ones present, with each key once |
| Twitter.FlattenEach | src/utils/twitter.ts:13-19 | the map throws exactly when some value is `null`, and otherwise flattens each entry in place |
| Twitter.AbsentParamsThrow | src/utils/twitter.ts:13 | a request without query parameters makes the interceptor throw |
| Twitter.FlattenParamsOrAbsentSpec | src/utils/twitter.ts:13-19 | with the fix, absent parameters stay absent; present ones fail exactly when a value is `null` and otherwise agree with the interceptor as written |
| Twitter.FlattenKeepsEntries | src/utils/twitter.ts:13-19 | without `null` or dropped values, the output has one property per parameter, in `Object.entries` order, each with its flattened value |
| Twitter.DroppedLeavesStrayKey | src/utils/twitter.ts:18 | an object whose `value` is missing or falsy leaves a property named `undefined` in the output |
| Twitter.JoinedArraySplits | src/utils/twitter.ts:15 | an array of comma-free strings can be split back out of its joined form |
| Twitter.FlattenEntryIdempotent | src/utils/twitter.ts:14-17 | flattening again a value that the interceptor produced and that is not an object changes nothing |
| Twitter.ToAxiosMethod | src/utils/twitter.ts:36-48 | every HTTP method other than `TRACE` maps to the axios method of the same name |
| Twitter.FromAxiosMethod | src/utils/twitter.ts:36-48 | every axios method the table produces has an HTTP method of the same name |
| Twitter.MethodTable | src/utils/twitter.ts:37-47 | every HTTP method maps to the axios method of the same name except `TRACE`, which maps to `POST`, and every axios method is reached |

## Left out

- HTTP and process plumbing is not modelled: the server, the axios calls, `process.exit`, console output, the reply's `end` callback, and the interceptors' error handlers. The token endpoint is a function parameter; `None` stands for a failed request.
- The server stops after the redirect (`exit(0)` at src/utils/token-generator.ts:50). The model does not stop: later callbacks are still handled.
- `randomBytes(32)` is a parameter. SHA-256 is an arbitrary function given to the server.
- The `state` generator `Math.random().toString(36).substring(7)` uses floating point and randomness. `state` is a parameter of `Listen`.
- `URLSearchParams` form encoding of the token request and of the authorization URL is not modelled. Both are lists of name-value pairs; the authorization URL's query is returned from `Listen` as such a list.
- `JSON.parse` and `JSON.stringify` are not modelled. A chunk is its length and its already-parsed record (`None` when parsing throws), and the `data` columns are opaque strings.
- `readFileSync` and `writeFileSync` on `.env` are modelled as a field holding the file's text, `None` when the file does not exist.
- Ingestion.Store.constructor: opens on empty tables, while the real database may already hold rows. Every lemma about `Ingest` takes any tables that satisfy the constraints, so it covers such a database too.
- The callback handler is atomic in the model. In the source it awaits the token request (src/utils/token-generator.ts:31-47), so a second matching `/callback` arriving meanwhile sends a second token request and can rewrite `.env` twice.
- An undefined `env.CLIENT_ID`, a token response without `access_token`, and the MySQL `TEXT` size limit on the `data` columns are not modelled: the client id and the tokens are strings, and `data` has no length limit.
- The `'data'` handlers run asynchronously and may interleave. Two chunks from the same new author could both miss `findOneOrFail` and try to insert the user twice. The model handles one chunk at a time.
- `findOneOrFail(...).catch(create)` creates the user after any failure of the lookup. The model's lookup fails only when the user is missing.
- The `created_at` and `updated_at` date columns, and the `text` field passed to `Tweet.create`, have no effect on the rows modelled; the `Tweet` entity has no `text` column.
- Unhandled promise rejections of the handler (a `TypeError` on a missing field, a refused insert) are the `Outcome` values; what Node does with them is not modelled.
- Query-parameter values are `undefined`, `null`, booleans, integers, strings, arrays and plain objects. Floating-point numbers, symbols, functions and bigints are not modelled. Objects print as `[object Object]` in a join, whatever their `toString`.
- Twitter.FlattenEntry: `value` is read as an own property only; inherited properties (from a prototype) are not modelled.
- The stream connection, `connectSearchStream`, rule packing and history paging have no source here. src/utils/graphtl-orm.ts, ormconfig.ts and src/utils/client-code-generator.ts are not part of this model.
- `code_challenge_method` is sent as the lower-case `s256` the source writes; RFC 7636 names the method `S256`. The model keeps the source's spelling.

## Findings

| source | as written | input that shows it | evidently intended | confidence | as-written member | corrected member |
|---|---|---|---|---|---|---|
| src/utils/twitter.ts:13 | `Object.entries(request.params)` throws a `TypeError` when `request.params` is `undefined`, which the `queryParameters: QueryParameters \| undefined` parameter at src/utils/twitter.ts:55 allows and passes as `params` at line 63 | a request issued with no query parameters (`queryParameters` is `undefined`) | absent query parameters stay absent and the request proceeds | not executed | Twitter.AbsentParamsThrow | Twitter.FlattenParamsOrAbsentSpec |
