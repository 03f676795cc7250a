/** TokenService: the append-only store of OAuth token records, the choice of the latest
    record, and the refresh-token grant of section 6 of RFC 6749.

    The pure functions below say what each operation does to the table; the methods at the
    end perform the same steps on an AppDb and are proved to agree with them. */
module TokenService {
  import opened Wrappers
  import opened Models
  import opened Http
  import Data

  /** The token endpoint the refresh grant always posts to. */
  const RefreshEndpoint := "https://api.schwabapi.com/v1/oauth/token"

  // ---- The latest record ----

  /** The position of the record OrderByDescending(CreatedAt).First() picks: a greatest
      CreatedAt and, among equal ones, the last appended. */
  function LatestIndex(ts: seq<OAuthToken>): (k: nat)
    requires |ts| > 0
    ensures k < |ts|
    ensures forall i :: 0 <= i < |ts| ==> ts[i].createdAt <= ts[k].createdAt
    ensures forall i :: k < i < |ts| ==> ts[i].createdAt < ts[k].createdAt
  {
    if |ts| == 1 then 0
    else
      var k := LatestIndex(ts[..|ts| - 1]);
      if ts[|ts| - 1].createdAt >= ts[k].createdAt then |ts| - 1 else k
  }

  /** The latest record, or None on an empty table. */
  function Latest(ts: seq<OAuthToken>): (r: Option<OAuthToken>)
    ensures r.None? <==> |ts| == 0
    ensures r.Some? ==> r.value in ts && forall i :: 0 <= i < |ts| ==> ts[i].createdAt <= r.value.createdAt
  {
    if |ts| == 0 then None else Some(ts[LatestIndex(ts)])
  }

  // ---- SaveTokenAsync ----

  /** The record SaveTokenAsync builds at time now: null tokens become "", the expiry is
      expires_in seconds after now, and CreatedAt takes its default, now. */
  function NewRecord(id: int, t: TokenResponse, now: int): OAuthToken {
    OAuthToken(id, t.accessToken.GetOr(""), Some(t.refreshToken.GetOr("")), now + t.expiresIn, now)
  }

  /** The table after SaveTokenAsync: the record is appended with the next identity value. */
  function Saved(ts: seq<OAuthToken>, t: TokenResponse, now: int): seq<OAuthToken> {
    ts + [NewRecord(|ts| + 1, t, now)]
  }

  /** Saving appends exactly one record, leaves the others as they were, and stores the
      response with null tokens replaced by "". */
  lemma SavedAppendsOne(ts: seq<OAuthToken>, t: TokenResponse, now: int)
    ensures var ts' := Saved(ts, t, now);
      && |ts'| == |ts| + 1 && ts'[..|ts|] == ts
      && ts'[|ts|].expiresAt == now + t.expiresIn
      && ts'[|ts|].createdAt == now
      && (t.accessToken.Some? ==> ts'[|ts|].accessToken == t.accessToken.value)
      && (t.accessToken.None? ==> ts'[|ts|].accessToken == "")
      && ts'[|ts|].refreshToken == Some(if t.refreshToken.Some? then t.refreshToken.value else "")
  {
  }

  /** Saving keeps the identity column numbered. */
  lemma SavedNumbered(ts: seq<OAuthToken>, t: TokenResponse, now: int)
    requires TokensNumbered(ts)
    ensures TokensNumbered(Saved(ts, t, now))
  {
  }

  /** A record saved no earlier than every stored one becomes the latest. */
  lemma LatestAfterSave(ts: seq<OAuthToken>, t: TokenResponse, now: int)
    requires forall i :: 0 <= i < |ts| ==> ts[i].createdAt <= now
    ensures Latest(Saved(ts, t, now)) == Some(NewRecord(|ts| + 1, t, now))
  {
  }

  // ---- RefreshTokenAsync ----

  /** The refresh grant for the latest record: grant_type=refresh_token and its refresh
      token, "" when it has none, posted with HTTP Basic client authentication. */
  function RefreshRequest(s: OAuthSettings, latest: OAuthToken): TokenRequest {
    TokenRequest(
      Some(RefreshEndpoint),
      BasicCredential(s.clientId, s.clientSecret),
      [("grant_type", "refresh_token"), ("refresh_token", latest.refreshToken.GetOr(""))])
  }

  /** What a token operation returned, the request it posted, if any, and the table after it. */
  datatype StoreResult = StoreResult(outcome: Call<Option<OAuthToken>>, sent: Option<TokenRequest>, tokens: seq<OAuthToken>)

  /** RefreshTokenAsync at time now, with send the HTTP exchange and parse the JSON
      deserializer (None for a JSON null). */
  function Refresh(ts: seq<OAuthToken>, s: OAuthSettings, now: int,
                   send: TokenRequest -> Call<HttpReply>,
                   parse: string -> Call<Option<TokenResponse>>): StoreResult
  {
    match Latest(ts)
    case None => StoreResult(Returned(None), None, ts)
    case Some(latest) =>
      var req := RefreshRequest(s, latest);
      match send(req)
      case Threw(ex) => StoreResult(Threw(ex), Some(req), ts)
      case Returned(reply) =>
        if !IsSuccessStatusCode(reply.status) then StoreResult(Returned(None), Some(req), ts)
        else
          match parse(reply.content)
          case Threw(ex) => StoreResult(Threw(ex), Some(req), ts)
          case Returned(None) => StoreResult(Returned(None), Some(req), ts)
          case Returned(Some(t)) =>
            var ts' := Saved(ts, t, now);
            StoreResult(Returned(Latest(ts')), Some(req), ts')
  }

  /** On an empty table nothing is posted and nothing is returned. */
  lemma RefreshEmptyStore(s: OAuthSettings, now: int, send: TokenRequest -> Call<HttpReply>,
                          parse: string -> Call<Option<TokenResponse>>)
    ensures Refresh([], s, now, send, parse) == StoreResult(Returned(None), None, [])
  {
  }

  /** A request is posted exactly when the table is not empty, and it is the refresh grant
      for the latest record, with no check of its age and no guard against an empty token. */
  lemma RefreshSendsLatest(ts: seq<OAuthToken>, s: OAuthSettings, now: int,
                           send: TokenRequest -> Call<HttpReply>,
                           parse: string -> Call<Option<TokenResponse>>)
    ensures var r := Refresh(ts, s, now, send, parse);
      && (r.sent.Some? <==> |ts| > 0)
      && (r.sent.Some? ==>
            && r.sent.value.url == Some(RefreshEndpoint)
            && r.sent.value.form == [("grant_type", "refresh_token"),
                                     ("refresh_token", Latest(ts).value.refreshToken.GetOr(""))]
            && r.sent.value.basicCredential == BasicCredential(s.clientId, s.clientSecret))
  {
  }

  /** The table changes only on success: a failed, thrown or null reply leaves it as it was. */
  lemma RefreshFailureUnchanged(ts: seq<OAuthToken>, s: OAuthSettings, now: int,
                                send: TokenRequest -> Call<HttpReply>,
                                parse: string -> Call<Option<TokenResponse>>)
    ensures var r := Refresh(ts, s, now, send, parse);
      !(r.outcome.Returned? && r.outcome.value.Some?) ==> r.tokens == ts
  {
  }

  /** A non-success status returns none and changes nothing, whatever the body. */
  lemma RefreshRejected(ts: seq<OAuthToken>, s: OAuthSettings, now: int,
                        send: TokenRequest -> Call<HttpReply>,
                        parse: string -> Call<Option<TokenResponse>>)
    requires |ts| > 0
    requires var reply := send(RefreshRequest(s, Latest(ts).value));
      reply.Returned? && !IsSuccessStatusCode(reply.value.status)
    ensures var r := Refresh(ts, s, now, send, parse);
      r.outcome == Returned(None) && r.tokens == ts
  {
  }

  /** A successful refresh appends exactly the record built from the response, and, when no
      stored record is dated after now, returns that new record as the latest. */
  lemma RefreshSuccess(ts: seq<OAuthToken>, s: OAuthSettings, now: int,
                       send: TokenRequest -> Call<HttpReply>,
                       parse: string -> Call<Option<TokenResponse>>)
    requires forall i :: 0 <= i < |ts| ==> ts[i].createdAt <= now
    ensures var r := Refresh(ts, s, now, send, parse);
      r.outcome.Returned? && r.outcome.value.Some? ==>
        && |r.tokens| == |ts| + 1 && r.tokens[..|ts|] == ts
        && r.outcome.value.value == r.tokens[|ts|]
        && r.tokens[|ts|].createdAt == now
  {
    var r := Refresh(ts, s, now, send, parse);
    if r.outcome.Returned? && r.outcome.value.Some? {
      var req := RefreshRequest(s, Latest(ts).value);
      var t := parse(send(req).value.content).value.value;
      LatestAfterSave(ts, t, now);
    }
  }

  /** A response without refresh_token is stored as "", so the next refresh posts "". */
  lemma RefreshWithoutRefreshToken(ts: seq<OAuthToken>, s: OAuthSettings, now: int,
                                   send: TokenRequest -> Call<HttpReply>,
                                   parse: string -> Call<Option<TokenResponse>>,
                                   later: int, send2: TokenRequest -> Call<HttpReply>)
    requires forall i :: 0 <= i < |ts| ==> ts[i].createdAt <= now
    requires |ts| > 0
    requires var reply := send(RefreshRequest(s, Latest(ts).value));
      && reply.Returned? && IsSuccessStatusCode(reply.value.status)
      && var parsed := parse(reply.value.content);
         parsed.Returned? && parsed.value.Some? && parsed.value.value.refreshToken.None?
    ensures var r := Refresh(ts, s, now, send, parse);
      && r.outcome.Returned? && r.outcome.value.Some?
      && r.outcome.value.value.refreshToken == Some("")
      && var next := Refresh(r.tokens, s, later, send2, parse);
         next.sent.Some? && next.sent.value.form[1] == ("refresh_token", "")
  {
    var reply := send(RefreshRequest(s, Latest(ts).value));
    var t := parse(reply.value.content).value.value;
    LatestAfterSave(ts, t, now);
  }

  // ---- GetValidTokenAsync ----

  /** GetValidTokenAsync: the latest record unless it is missing or its expiry is before
      now, in which case the refresh grant's result. */
  function GetValid(ts: seq<OAuthToken>, s: OAuthSettings, now: int,
                    send: TokenRequest -> Call<HttpReply>,
                    parse: string -> Call<Option<TokenResponse>>): StoreResult
  {
    match Latest(ts)
    case Some(t) =>
      if t.expiresAt < now then Refresh(ts, s, now, send, parse)
      else StoreResult(Returned(Some(t)), None, ts)
    case None => Refresh(ts, s, now, send, parse)
  }

  /** A latest record whose expiry is not before now (expiring exactly now included) is
      returned unchanged, with no exchange and no change to the table. */
  lemma GetValidReturnsUnexpired(ts: seq<OAuthToken>, s: OAuthSettings, now: int,
                                 send: TokenRequest -> Call<HttpReply>,
                                 parse: string -> Call<Option<TokenResponse>>)
    requires |ts| > 0 && Latest(ts).value.expiresAt >= now
    ensures GetValid(ts, s, now, send, parse) == StoreResult(Returned(Latest(ts)), None, ts)
  {
  }

  /** Right after saving a response with a non-negative lifetime at time now, the saved
      record is returned with no exchange. */
  lemma GetValidAfterSave(ts: seq<OAuthToken>, t: TokenResponse, s: OAuthSettings, now: int,
                          send: TokenRequest -> Call<HttpReply>,
                          parse: string -> Call<Option<TokenResponse>>)
    requires forall i :: 0 <= i < |ts| ==> ts[i].createdAt <= now
    requires t.expiresIn >= 0
    ensures GetValid(Saved(ts, t, now), s, now, send, parse)
      == StoreResult(Returned(Some(NewRecord(|ts| + 1, t, now))), None, Saved(ts, t, now))
  {
    LatestAfterSave(ts, t, now);
    GetValidReturnsUnexpired(Saved(ts, t, now), s, now, send, parse);
  }

  /** An expired latest record is refreshed. */
  lemma GetValidRefreshesExpired(ts: seq<OAuthToken>, s: OAuthSettings, now: int,
                                 send: TokenRequest -> Call<HttpReply>,
                                 parse: string -> Call<Option<TokenResponse>>)
    requires |ts| > 0 && Latest(ts).value.expiresAt < now
    ensures GetValid(ts, s, now, send, parse) == Refresh(ts, s, now, send, parse)
    ensures GetValid(ts, s, now, send, parse).sent == Some(RefreshRequest(s, Latest(ts).value))
  {
  }

  /** On an empty table GetValidTokenAsync returns none and posts nothing. */
  lemma GetValidEmptyStore(s: OAuthSettings, now: int, send: TokenRequest -> Call<HttpReply>,
                           parse: string -> Call<Option<TokenResponse>>)
    ensures GetValid([], s, now, send, parse) == StoreResult(Returned(None), None, [])
  {
  }

  // ---- The service over the database ----

  /** SaveTokenAsync at time now. */
  method SaveToken(db: Data.AppDb, t: TokenResponse, now: int)
    requires db.Valid()
    modifies db
    ensures db.Valid()
    ensures db.tokens == Saved(old(db.tokens), t, now)
    ensures db.tenants == old(db.tenants) && db.users == old(db.users) && db.nextGuid == old(db.nextGuid)
  {
    var entity := NewRecord(|db.tokens| + 1, t, now);
    db.tokens := db.tokens + [entity];
  }

  /** RefreshTokenAsync at time now; sent is the request it posted, if any. */
  method RefreshToken(db: Data.AppDb, s: OAuthSettings, now: int,
                      send: TokenRequest -> Call<HttpReply>,
                      parse: string -> Call<Option<TokenResponse>>)
    returns (outcome: Call<Option<OAuthToken>>, sent: Option<TokenRequest>)
    requires db.Valid()
    modifies db
    ensures db.Valid()
    ensures Refresh(old(db.tokens), s, now, send, parse) == StoreResult(outcome, sent, db.tokens)
    ensures db.tenants == old(db.tenants) && db.users == old(db.users) && db.nextGuid == old(db.nextGuid)
  {
    var latest := Latest(db.tokens);
    if latest.None? {
      return Returned(None), None;
    }
    var request := RefreshRequest(s, latest.value);
    sent := Some(request);
    var response := send(request);
    if response.Threw? {
      return Threw(response.ex), sent;
    }
    if !IsSuccessStatusCode(response.value.status) {
      return Returned(None), sent;
    }
    var newToken := parse(response.value.content);
    if newToken.Threw? {
      return Threw(newToken.ex), sent;
    }
    if newToken.value.None? {
      return Returned(None), sent;
    }
    SaveToken(db, newToken.value.value, now);
    outcome := Returned(Latest(db.tokens));
  }

  /** GetValidTokenAsync at time now. */
  method GetValidToken(db: Data.AppDb, s: OAuthSettings, now: int,
                       send: TokenRequest -> Call<HttpReply>,
                       parse: string -> Call<Option<TokenResponse>>)
    returns (outcome: Call<Option<OAuthToken>>, sent: Option<TokenRequest>)
    requires db.Valid()
    modifies db
    ensures db.Valid()
    ensures GetValid(old(db.tokens), s, now, send, parse) == StoreResult(outcome, sent, db.tokens)
    ensures db.tenants == old(db.tenants) && db.users == old(db.users) && db.nextGuid == old(db.nextGuid)
  {
    var token := Latest(db.tokens);
    if token.None? || token.value.expiresAt < now {
      outcome, sent := RefreshToken(db, s, now, send, parse);
      return;
    }
    return Returned(token), None;
  }
}
