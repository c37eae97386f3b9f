/**
 * The OAuth 2.0 authorization-code flow with PKCE that
 * src/utils/token-generator.ts drives: the base64url encoding it uses for the
 * `code_verifier` and the `code_challenge` (section 4.1 and Appendix A of
 * RFC 7636), and the callback server, whose module-level `state` and
 * `code_verifier` are the fields of a session object.
 */
module TokenGenerator {
  import opened Wrappers
  import opened JsStrings
  import opened JsObjects
  import Base64
  import EnvMerge

  type byte = Base64.byte

  /** `+` becomes `-` and `/` becomes `_`; every other character is kept. */
  function UrlChar(c: char): char
  {
    if c == '+' then '-' else if c == '/' then '_' else c
  }

  /** The characters of the base64url alphabet (section 5 of RFC 4648). */
  predicate IsUrlChar(c: char)
  {
    'A' <= c <= 'Z' || 'a' <= c <= 'z' || '0' <= c <= '9' || c == '-' || c == '_'
  }

  /**
   * `.replace(/\+/g, '-').replace(/\//g, '_').replace(/=/g, '')`: standard
   * base64 text turned into the URL-safe alphabet without padding.
   */
  function UrlSafe(b64: string): (u: string)
    ensures '+' !in u && '/' !in u && '=' !in u
  {
    var s1 := ReplaceAll(b64, '+', '-');
    var s2 := ReplaceAll(s1, '/', '_');
    assert '+' !in s1 by {
      forall i | 0 <= i < |s1| ensures s1[i] != '+' {
      }
    }
    assert '+' !in s2 && '/' !in s2 by {
      forall i | 0 <= i < |s2| ensures s2[i] != '+' && s2[i] != '/' {
        assert s2[i] == (if s1[i] == '/' then '_' else s1[i]);
      }
    }
    RemoveAll(s2, '=')
  }

  /**
   * The same rewrite in one pass, character by character: each `=` is
   * dropped and each other character is mapped by `UrlChar`.
   */
  function UrlSafeRef(s: string): string
  {
    if s == [] then []
    else RefOf(s[0]) + UrlSafeRef(s[1..])
  }

  /** What the rewrite makes of one character. */
  function RefOf(c: char): string
  {
    if c == '=' then [] else [UrlChar(c)]
  }

  /** The three global replacements do what the one-pass rewrite does. */
  lemma {:induction false} UrlSafeIsRef(s: string)
    ensures UrlSafe(s) == UrlSafeRef(s)
  {
    if s != [] {
      UrlSafeIsRef(s[1..]);
      var s2 := ReplaceAll(ReplaceAll(s, '+', '-'), '/', '_');
      assert ReplaceAll(s, '+', '-')[1..] == ReplaceAll(s[1..], '+', '-');
      assert s2[1..] == ReplaceAll(ReplaceAll(s[1..], '+', '-'), '/', '_');
      assert s2[0] == UrlChar(s[0]);
      assert s2 == [s2[0]] + s2[1..];
    }
  }

  /**
   * Only the `=` characters are removed: the result is as long as the input
   * less its `=` characters.
   */
  lemma {:induction false} UrlSafeLength(s: string)
    ensures |UrlSafe(s)| == |s| - Count(s, '=')
  {
    UrlSafeIsRef(s);
    RefLength(s);
  }

  lemma {:induction false} RefLength(s: string)
    ensures |UrlSafeRef(s)| == |s| - Count(s, '=')
  {
    if s != [] {
      RefLength(s[1..]);
    }
  }

  lemma {:induction false} RefAppend(a: string, b: string)
    ensures UrlSafeRef(a + b) == UrlSafeRef(a) + UrlSafeRef(b)
  {
    if a == [] {
      assert a + b == b;
    } else {
      var h, t := RefOf(a[0]), a[1..];
      assert UrlSafeRef(a + b) == h + UrlSafeRef(t + b) by {
        assert (a + b)[0] == a[0] && (a + b)[1..] == t + b;
      }
      RefAppend(t, b);
      assert UrlSafeRef(a) == h + UrlSafeRef(t);
      assert h + (UrlSafeRef(t) + UrlSafeRef(b)) == (h + UrlSafeRef(t)) + UrlSafeRef(b);
    }
  }

  /** On alphabet characters the rewrite is a position-by-position map. */
  lemma {:induction false} RefOfAlphabet(s: string)
    requires forall i :: 0 <= i < |s| ==> Base64.IsStdChar(s[i])
    ensures |UrlSafeRef(s)| == |s|
    ensures forall i :: 0 <= i < |s| ==> UrlSafeRef(s)[i] == UrlChar(s[i])
  {
    if s != [] {
      RefOfAlphabet(s[1..]);
    }
  }

  /** Padding disappears entirely. */
  lemma {:induction false} RefOfPadding(s: string)
    requires forall i :: 0 <= i < |s| ==> s[i] == '='
    ensures UrlSafeRef(s) == []
  {
    if s != [] {
      RefOfPadding(s[1..]);
    }
  }

  /** `base64URLEncode(buffer)`: `buffer.toString('base64')` made URL-safe. */
  function Base64UrlEncode(buffer: seq<byte>): (u: string)
    ensures '+' !in u && '/' !in u && '=' !in u
  {
    UrlSafe(Base64.Encode(buffer))
  }

  /** `-` back to `+` and `_` back to `/`. */
  function StdCharOf(c: char): char
  {
    if c == '-' then '+' else if c == '_' then '/' else c
  }

  /** `n` padding characters. */
  function Padding(n: nat): (s: string)
    ensures |s| == n && forall i :: 0 <= i < n ==> s[i] == '='
  {
    seq(n, _ => '=')
  }

  /** `u` with `-` and `_` mapped back, position by position. */
  function UnmapUrl(u: string): (s: string)
    ensures |s| == |u|
  {
    seq(|u|, i requires 0 <= i < |u| => StdCharOf(u[i]))
  }

  /** base64url text back to standard base64: the alphabet mapped back and the padding restored. */
  function FromUrlSafe(u: string): (s: string)
    ensures |s| == |u| + (4 - |u| % 4) % 4
  {
    UnmapUrl(u) + Padding((4 - |u| % 4) % 4)
  }

  /** base64url text back to bytes; `None` for text no buffer encodes to. */
  function Base64UrlDecode(u: string): Option<seq<byte>>
  {
    Base64.Decode(FromUrlSafe(u))
  }

  /** `s` with `+` and `/` mapped, position by position. */
  function MapUrl(s: string): (m: string)
    ensures |m| == |s|
  {
    seq(|s|, i requires 0 <= i < |s| => UrlChar(s[i]))
  }

  /**
   * The standard encoding is alphabet characters followed by its padding, and
   * the URL-safe encoding is the alphabet part with `+` and `/` mapped.
   */
  lemma UrlEncodeIsMap(buffer: seq<byte>)
    ensures var e := Base64.Encode(buffer);
      var k := Base64.PadLength(|buffer|);
      && k <= 2 && k <= |e|
      && |e| == 4 * ((|buffer| + 2) / 3)
      && e == e[..|e| - k] + Padding(k)
      && (forall i :: 0 <= i < |e| - k ==> Base64.IsStdChar(e[i]))
      && Base64UrlEncode(buffer) == MapUrl(e[..|e| - k])
  {
    var e := Base64.Encode(buffer);
    var k := Base64.PadLength(|buffer|);
    EncodeSplits(buffer);
    UrlSafeOfPadded(e[..|e| - k], k);
  }

  /** The standard encoding is its alphabet part followed by `PadLength` padding characters. */
  lemma EncodeSplits(buffer: seq<byte>)
    ensures var e := Base64.Encode(buffer);
      var k := Base64.PadLength(|buffer|);
      && k <= 2 && k <= |e|
      && |e| == 4 * ((|buffer| + 2) / 3)
      && e == e[..|e| - k] + Padding(k)
      && (forall i :: 0 <= i < |e| - k ==> Base64.IsStdChar(e[i]))
  {
    var e := Base64.Encode(buffer);
    var k := Base64.PadLength(|buffer|);
    Base64.EncodeShape(buffer);
    Base64.EncodeLength(buffer);
    assert e[|e| - k..] == Padding(k);
    assert e == e[..|e| - k] + e[|e| - k..];
  }

  /** Alphabet characters followed by padding become the mapped alphabet characters. */
  lemma UrlSafeOfPadded(alpha: string, k: nat)
    requires forall i :: 0 <= i < |alpha| ==> Base64.IsStdChar(alpha[i])
    ensures UrlSafe(alpha + Padding(k)) == MapUrl(alpha)
  {
    RefAppend(alpha, Padding(k));
    RefOfAlphabet(alpha);
    RefOfPadding(Padding(k));
    UrlSafeIsRef(alpha + Padding(k));
  }

  /**
   * `base64URLEncode` of `n` bytes is `ceil(4n / 3)` characters of the
   * base64url alphabet.
   */
  lemma UrlEncodeShape(buffer: seq<byte>)
    ensures |Base64UrlEncode(buffer)| == 4 * ((|buffer| + 2) / 3) - Base64.PadLength(|buffer|)
    ensures forall i :: 0 <= i < |Base64UrlEncode(buffer)| ==> IsUrlChar(Base64UrlEncode(buffer)[i])
  {
    var e := Base64.Encode(buffer);
    var k := Base64.PadLength(|buffer|);
    UrlEncodeIsMap(buffer);
    MapUrlShape(e[..|e| - k]);
  }

  /** Mapping alphabet characters gives base64url characters. */
  lemma MapUrlShape(alpha: string)
    requires forall i :: 0 <= i < |alpha| ==> Base64.IsStdChar(alpha[i])
    ensures forall i :: 0 <= i < |alpha| ==> IsUrlChar(MapUrl(alpha)[i])
  {
  }

  /** Mapping back undoes the mapping on alphabet characters. */
  lemma UnmapMap(alpha: string)
    requires forall i :: 0 <= i < |alpha| ==> Base64.IsStdChar(alpha[i])
    ensures UnmapUrl(MapUrl(alpha)) == alpha
  {
  }

  /** Mapping back and padding again gives the standard encoding. */
  lemma FromUrlSafeRestores(buffer: seq<byte>)
    ensures FromUrlSafe(Base64UrlEncode(buffer)) == Base64.Encode(buffer)
  {
    var e := Base64.Encode(buffer);
    var k := Base64.PadLength(|buffer|);
    UrlEncodeIsMap(buffer);
    FromUrlSafeOfMap(e[..|e| - k], k, (|buffer| + 2) / 3);
  }

  lemma FromUrlSafeOfMap(alpha: string, k: nat, groups: nat)
    requires forall i :: 0 <= i < |alpha| ==> Base64.IsStdChar(alpha[i])
    requires k <= 2 && |alpha| + k == 4 * groups
    ensures FromUrlSafe(MapUrl(alpha)) == alpha + Padding(k)
  {
    PaddingBack(groups, k);
    UnmapMap(alpha);
  }

  /** The padding removed from a whole number of groups of four is the padding restored. */
  lemma PaddingBack(groups: nat, k: nat)
    requires k <= 2 && k <= 4 * groups
    ensures (4 - (4 * groups - k) % 4) % 4 == k
  {
    if k > 0 {
      assert 4 * groups - k == 4 * (groups - 1) + (4 - k);
    }
  }

  /** Decoding undoes `base64URLEncode`. */
  lemma UrlRoundTrip(buffer: seq<byte>)
    ensures Base64UrlDecode(Base64UrlEncode(buffer)) == Some(buffer)
  {
    FromUrlSafeRestores(buffer);
    Base64.DecodeEncode(buffer);
  }

  /** No two buffers share a base64url encoding. */
  lemma UrlEncodeInjective(a: seq<byte>, b: seq<byte>)
    requires Base64UrlEncode(a) == Base64UrlEncode(b)
    ensures a == b
  {
    UrlRoundTrip(a);
    UrlRoundTrip(b);
  }

  /** `base64URLEncode(randomBytes(32))`: the PKCE `code_verifier`. */
  function CodeVerifier(random: seq<byte>): (v: string)
    ensures '+' !in v && '/' !in v && '=' !in v
  {
    Base64UrlEncode(random)
  }

  /**
   * Thirty-two random bytes give a verifier of 43 base64url characters, within
   * the 43 to 128 characters that section 4.1 of RFC 7636 allows and drawn from
   * its unreserved characters.
   */
  lemma CodeVerifierShape(random: seq<byte>)
    requires |random| == 32
    ensures |CodeVerifier(random)| == 43
    ensures forall i :: 0 <= i < 43 ==> IsUrlChar(CodeVerifier(random)[i])
  {
    UrlEncodeShape(random);
    VerifierLength(|random|);
  }

  lemma VerifierLength(n: nat)
    requires n == 32
    ensures 4 * ((n + 2) / 3) - Base64.PadLength(n) == 43
  {
    assert (n + 2) / 3 == 11;
  }

  /** `base64URLEncode(createHash('sha256').update(verifier).digest())`: the S256 challenge. */
  function CodeChallenge(verifier: string, sha256: string -> seq<byte>): (c: string)
    ensures '+' !in c && '/' !in c && '=' !in c
  {
    Base64UrlEncode(sha256(verifier))
  }

  /** The challenge determines the digest the verifier must hash to. */
  lemma ChallengeBindsDigest(v1: string, v2: string, sha256: string -> seq<byte>)
    requires CodeChallenge(v1, sha256) == CodeChallenge(v2, sha256)
    ensures sha256(v1) == sha256(v2)
  {
    UrlEncodeInjective(sha256(v1), sha256(v2));
  }

  /**
   * The query of a request URL as its `name=value` pairs, in order;
   * `searchParams.get(name)` is `Get`, the first value of `name`.
   */
  type Query = Props<string>

  /** The `application/x-www-form-urlencoded` body of the token request. */
  datatype TokenRequest = TokenRequest(
    code: Option<string>,
    grantType: string,
    clientId: string,
    redirectUri: string,
    codeVerifier: Option<string>)

  /** The fields of the token endpoint's answer that the callback uses. */
  datatype TokenResponse = TokenResponse(accessToken: string, refreshToken: Option<string>, expiresIn: int)

  /** What the callback writes back: a 302 to the site, a bare 400, or nothing. */
  datatype Reply = Redirect302(location: string) | BadRequest400 | NoReply

  const RedirectUri: string := "http://localhost"
  const SiteUrl: string := "https://twitter.com"
  const Scope: string := "tweet.read users.read follows.read like.read mute.read block.read bookmark.read"

  /**
   * The module-level state of the generator: `state` and `code_verifier`
   * (`None` until the server listens), the contents of `.env` (`None` when
   * there is no such file) and the token requests sent so far.
   */
  datatype Session = Session(
    state: Option<string>,
    codeVerifier: Option<string>,
    envFile: Option<string>,
    sent: seq<TokenRequest>)

  /** `state === params.get('state')`: an unset `state` never equals a string or `null`. */
  predicate StateMatches(state: Option<string>, q: Query)
  {
    state.Some? && Get(q, "state") == Some(state.value)
  }

  /** The token request for a callback, carrying the stored verifier. */
  function TokenRequestFor(s: Session, q: Query, clientId: string): (r: TokenRequest)
    ensures r.grantType == "authorization_code" && r.codeVerifier == s.codeVerifier
    ensures r.code == Get(q, "code") && r.redirectUri == RedirectUri
  {
    TokenRequest(Get(q, "code"), "authorization_code", clientId, RedirectUri, s.codeVerifier)
  }

  /**
   * The callback handler: a request without the stored `state` gets a 400 and
   * changes nothing; otherwise the token request is sent, and when it succeeds
   * and `.env` can be read, `.env` is rewritten with the new tokens and the
   * browser is redirected. A failed request or a missing `.env` rejects the
   * handler, which then writes no reply.
   */
  function Respond(s: Session, q: Query, clientId: string, endpoint: TokenRequest -> Option<TokenResponse>): (r: (Session, Reply))
    ensures r.0.state == s.state && r.0.codeVerifier == s.codeVerifier
    ensures r.0.sent == s.sent || (|r.0.sent| == |s.sent| + 1 && r.0.sent[..|s.sent|] == s.sent)
  {
    if !StateMatches(s.state, q) then (s, BadRequest400)
    else
      var req := TokenRequestFor(s, q, clientId);
      var s1 := s.(sent := s.sent + [req]);
      match endpoint(req)
      case None => (s1, NoReply)
      case Some(tokens) =>
        if s1.envFile.None? then (s1, NoReply)
        else
          var text := EnvMerge.Rewrite(s1.envFile.value, tokens.accessToken, tokens.refreshToken);
          (s1.(envFile := Some(text)), Redirect302(SiteUrl))
  }

  /** The query of the authorization request URL, in the order the source builds it. */
  function AuthParams(clientId: string, state: string, challenge: string): (q: Query)
    ensures |q| == 7 && UniqueKeys(q)
  {
    [("response_type", "code"),
     ("client_id", clientId),
     ("redirect_uri", RedirectUri),
     ("scope", Scope),
     ("state", state),
     ("code_challenge", challenge),
     ("code_challenge_method", "s256")]
  }

  /** The authorization query carries the state, the challenge and the method named `s256`. */
  lemma AuthParamsCarry(clientId: string, state: string, challenge: string)
    ensures var r := AuthParams(clientId, state, challenge);
      && Get(r, "response_type") == Some("code")
      && Get(r, "state") == Some(state)
      && Get(r, "code_challenge") == Some(challenge)
      && Get(r, "code_challenge_method") == Some("s256")
  {
    CarriesState(clientId, state, challenge);
    CarriesChallenge(clientId, state, challenge);
    CarriesMethod(clientId, state, challenge);
    GetFirst(AuthParams(clientId, state, challenge), "response_type", 0);
  }

  lemma CarriesState(clientId: string, state: string, challenge: string)
    ensures Get(AuthParams(clientId, state, challenge), "state") == Some(state)
  {
    GetFirst(AuthParams(clientId, state, challenge), "state", 4);
  }

  lemma CarriesChallenge(clientId: string, state: string, challenge: string)
    ensures Get(AuthParams(clientId, state, challenge), "code_challenge") == Some(challenge)
  {
    GetFirst(AuthParams(clientId, state, challenge), "code_challenge", 5);
  }

  lemma CarriesMethod(clientId: string, state: string, challenge: string)
    ensures Get(AuthParams(clientId, state, challenge), "code_challenge_method") == Some("s256")
  {
    GetFirst(AuthParams(clientId, state, challenge), "code_challenge_method", 6);
  }

  /**
   * The `listen` callback: a new `state` and a verifier from 32 random bytes
   * are stored, and the authorization URL carries the state and the verifier's
   * challenge.
   */
  function Start(s: Session, random: seq<byte>, state: string, clientId: string, sha256: string -> seq<byte>): (r: (Session, Query))
    ensures Paired(r.0) && r.0.state == Some(state)
    ensures r.0.sent == s.sent && r.0.envFile == s.envFile
  {
    var verifier := CodeVerifier(random);
    (s.(state := Some(state), codeVerifier := Some(verifier)),
     AuthParams(clientId, state, CodeChallenge(verifier, sha256)))
  }

  /** Before the server listens, every callback is refused. */
  lemma UnsetStateRefuses(s: Session, q: Query, clientId: string, endpoint: TokenRequest -> Option<TokenResponse>)
    requires s.state.None?
    ensures Respond(s, q, clientId, endpoint) == (s, BadRequest400)
  {
  }

  /**
   * A callback gets a 400 exactly when its `state` differs from the stored one,
   * and then no token request is sent and `.env` is left alone.
   */
  lemma MismatchRefused(s: Session, q: Query, clientId: string, endpoint: TokenRequest -> Option<TokenResponse>)
    ensures Respond(s, q, clientId, endpoint).1 == BadRequest400 <==> !StateMatches(s.state, q)
    ensures !StateMatches(s.state, q) ==> Respond(s, q, clientId, endpoint).0 == s
  {
  }

  /**
   * A matching callback sends exactly one token request, for the
   * authorization code, with the stored verifier; `state` and the verifier are
   * kept.
   */
  lemma MatchSendsRequest(s: Session, q: Query, clientId: string, endpoint: TokenRequest -> Option<TokenResponse>)
    requires StateMatches(s.state, q)
    ensures var s1 := Respond(s, q, clientId, endpoint).0;
      && s1.sent == s.sent + [TokenRequest(Get(q, "code"), "authorization_code", clientId, RedirectUri, s.codeVerifier)]
      && s1.state == s.state && s1.codeVerifier == s.codeVerifier
  {
  }

  /**
   * The reply to a matching callback: a redirect exactly when the token
   * request succeeds and `.env` exists, and `.env` then holds the rewrite with
   * the new tokens; otherwise no reply and `.env` untouched.
   */
  lemma MatchOutcome(s: Session, q: Query, clientId: string, endpoint: TokenRequest -> Option<TokenResponse>)
    requires StateMatches(s.state, q)
    ensures var (s1, reply) := Respond(s, q, clientId, endpoint);
      var tokens := endpoint(TokenRequestFor(s, q, clientId));
      && (reply == Redirect302(SiteUrl) <==> tokens.Some? && s.envFile.Some?)
      && (reply != Redirect302(SiteUrl) ==> reply == NoReply && s1.envFile == s.envFile)
      && (reply == Redirect302(SiteUrl) ==>
            s1.envFile == Some(EnvMerge.Rewrite(s.envFile.value, tokens.value.accessToken, tokens.value.refreshToken)))
  {
  }

  /**
   * The PKCE binding (section 4.5 of RFC 7636): after `listen`, a callback that
   * returns the issued `state` sends the very verifier whose S256 challenge the
   * authorization URL carried.
   */
  lemma PkceBinding(s: Session, random: seq<byte>, state: string, clientId: string,
                    sha256: string -> seq<byte>, q: Query, endpoint: TokenRequest -> Option<TokenResponse>)
    requires Get(q, "state") == Some(state)
    ensures var (s1, params) := Start(s, random, state, clientId, sha256);
      var s2 := Respond(s1, q, clientId, endpoint).0;
      && |s2.sent| == |s.sent| + 1
      && s2.sent[|s.sent|].grantType == "authorization_code"
      && s2.sent[|s.sent|].codeVerifier.Some?
      && Get(params, "code_challenge") == Some(CodeChallenge(s2.sent[|s.sent|].codeVerifier.value, sha256))
      && Get(params, "code_challenge_method") == Some("s256")
  {
    var (s1, params) := Start(s, random, state, clientId, sha256);
    AuthParamsCarry(clientId, state, CodeChallenge(CodeVerifier(random), sha256));
    assert StateMatches(s1.state, q);
    MatchSendsRequest(s1, q, clientId, endpoint);
  }

  /** A stored `state` always comes with a stored verifier. */
  predicate Paired(s: Session)
  {
    s.state.Some? ==> s.codeVerifier.Some?
  }

  lemma RespondKeepsPaired(s: Session, q: Query, clientId: string, endpoint: TokenRequest -> Option<TokenResponse>)
    requires Paired(s)
    ensures Paired(Respond(s, q, clientId, endpoint).0)
  {
  }

  /**
   * The callback server: the session variables of the module, the contents of
   * `.env`, the log of token requests, and the client id and SHA-256 it is
   * configured with.
   */
  class CallbackServer {
    var state: Option<string>
    var codeVerifier: Option<string>
    var envFile: Option<string>
    var sent: seq<TokenRequest>
    const clientId: string
    const sha256: string -> seq<byte>

    function Snapshot(): Session
      reads this
    {
      Session(state, codeVerifier, envFile, sent)
    }

    predicate Valid()
      reads this
    {
      Paired(Snapshot())
    }

    constructor (envFile: Option<string>, clientId: string, sha256: string -> seq<byte>)
      ensures Valid()
      ensures Snapshot() == Session(None, None, envFile, [])
      ensures this.clientId == clientId && this.sha256 == sha256
    {
      this.state := None;
      this.codeVerifier := None;
      this.envFile := envFile;
      this.sent := [];
      this.clientId := clientId;
      this.sha256 := sha256;
    }

    /** The `listen` callback: store a new state and verifier, return the authorization query. */
    method Listen(random: seq<byte>, newState: string) returns (params: Query)
      requires Valid()
      modifies this
      ensures Valid()
      ensures (Snapshot(), params) == Start(old(Snapshot()), random, newState, clientId, sha256)
    {
      state := Some(newState);
      var verifier := CodeVerifier(random);
      codeVerifier := Some(verifier);
      params := AuthParams(clientId, newState, CodeChallenge(verifier, sha256));
    }

    /** One request to the callback URL. */
    method HandleCallback(q: Query, endpoint: TokenRequest -> Option<TokenResponse>) returns (reply: Reply)
      requires Valid()
      modifies this
      ensures Valid()
      ensures (Snapshot(), reply) == Respond(old(Snapshot()), q, clientId, endpoint)
    {
      ghost var s0 := Snapshot();
      RespondKeepsPaired(s0, q, clientId, endpoint);
      if state != Get(q, "state") || state.None? {
        assert !StateMatches(s0.state, q);
        return BadRequest400;
      }
      assert StateMatches(s0.state, q);
      var req := TokenRequest(Get(q, "code"), "authorization_code", clientId, RedirectUri, codeVerifier);
      assert req == TokenRequestFor(s0, q, clientId);
      sent := sent + [req];
      ghost var s1 := Snapshot();
      assert s1 == s0.(sent := s0.sent + [req]);
      var tokens := endpoint(req);
      if tokens.None? || envFile.None? {
        return NoReply;
      }
      var text := EnvMerge.Rewrite(envFile.value, tokens.value.accessToken, tokens.value.refreshToken);
      envFile := Some(text);
      assert Snapshot() == s1.(envFile := Some(text));
      reply := Redirect302(SiteUrl);
    }
  }
}
