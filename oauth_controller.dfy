/** OAuthController: the authorization URL of the authorization-code grant (section 4.1.1
    of RFC 6749) and the callback that exchanges the returned code for tokens (section
    4.1.3 of RFC 6749) and stores them through TokenService. */
module OAuthController {
  import opened Wrappers
  import opened Models
  import opened Http
  import Text
  import PercentEncoding
  import TokenService
  import Data

  // ---- The authorization URL ----

  /** One query parameter, key and value each escaped with Uri.EscapeDataString. */
  function Parameter(key: string, value: string): string {
    PercentEncoding.EscapeDataString(key) + "=" + PercentEncoding.EscapeDataString(value)
  }

  /** The parameters of a dictionary, in its order. */
  function Parameters(ps: seq<(string, string)>): (r: seq<string>)
    ensures |r| == |ps|
  {
    if ps == [] then [] else [Parameter(ps[0].0, ps[0].1)] + Parameters(ps[1..])
  }

  /** A query string: the parameters joined with '&'. */
  function Query(ps: seq<(string, string)>): string {
    Text.Join(Parameters(ps), "&")
  }

  /** $"{baseUrl}?{query}" over the dictionary { client_id, redirect_uri }, in that order; a
      null base URL interpolates as "". */
  function AuthorizationUrl(baseUrl: Option<string>, clientId: string, redirectUri: string): string {
    baseUrl.GetOr("") + "?" + Query([("client_id", clientId), ("redirect_uri", redirectUri)])
  }

  /** Two parameters with unreserved keys: the keys appear as they are, the values escaped. */
  lemma TwoParameters(k0: string, v0: string, k1: string, v1: string)
    requires forall i :: 0 <= i < |k0| ==> PercentEncoding.IsUnreserved(k0[i])
    requires forall i :: 0 <= i < |k1| ==> PercentEncoding.IsUnreserved(k1[i])
    ensures Query([(k0, v0), (k1, v1)])
      == (k0 + "=" + PercentEncoding.EscapeDataString(v0)) + "&" + (k1 + "=" + PercentEncoding.EscapeDataString(v1))
  {
    PercentEncoding.EscapeUnreserved(k0);
    PercentEncoding.EscapeUnreserved(k1);
    var p0, p1 := Parameter(k0, v0), Parameter(k1, v1);
    var ps := [(k0, v0), (k1, v1)];
    assert Parameters(ps[1..][1..]) == [];
    assert Parameters(ps) == [p0, p1];
    assert Text.Join([p0, p1], "&") == p0 + "&" + p1 by {
      assert [p0, p1][1..] == [p1];
    }
  }

  /** The URL is the base, '?', client_id and then redirect_uri, their values escaped. */
  lemma AuthorizationUrlSpec(baseUrl: Option<string>, clientId: string, redirectUri: string)
    ensures AuthorizationUrl(baseUrl, clientId, redirectUri)
      == baseUrl.GetOr("") + "?" + AuthorizationQuery(clientId, redirectUri)
  {
    TwoParameters("client_id", clientId, "redirect_uri", redirectUri);
  }

  /** The query of the authorization URL with its keys written out. */
  function AuthorizationQuery(clientId: string, redirectUri: string): string {
    ("client_id" + "=" + PercentEncoding.EscapeDataString(clientId))
    + "&" + ("redirect_uri" + "=" + PercentEncoding.EscapeDataString(redirectUri))
  }

  /** Two texts without '&' joined by '&' split back into the two. */
  lemma SplitPair(p0: string, p1: string)
    requires '&' !in p0 && '&' !in p1
    ensures Text.Split(p0 + "&" + p1, '&') == [p0, p1]
  {
    Text.SplitJoin([p0, p1], '&');
    assert [p0, p1][1..] == [p1];
  }

  /** A parameter whose key holds no '&' holds none, and the text after the key and its
      '=' unescapes to the value. */
  lemma ParameterValue(k: string, v: string)
    requires '&' !in k
    ensures '&' !in k + "=" + PercentEncoding.EscapeDataString(v)
    ensures PercentEncoding.UnescapeDataString((k + "=" + PercentEncoding.EscapeDataString(v))[|k| + 1..]) == v
  {
    var e := PercentEncoding.EscapeDataString(v);
    PercentEncoding.EscapeHasNoDelimiters(v);
    assert (k + "=" + e)[|k| + 1..] == e;
    PercentEncoding.UnescapeEscape(v);
  }

  /** A query of two parameters whose keys hold no '&' splits back into the two, and the
      text after each key and its '=' unescapes to the value. */
  lemma TwoParametersRoundTrip(k0: string, v0: string, k1: string, v1: string)
    requires '&' !in k0 && '&' !in k1
    ensures var e0, e1 := PercentEncoding.EscapeDataString(v0), PercentEncoding.EscapeDataString(v1);
      var parts := Text.Split((k0 + "=" + e0) + "&" + (k1 + "=" + e1), '&');
      && parts == [k0 + "=" + e0, k1 + "=" + e1]
      && PercentEncoding.UnescapeDataString(parts[0][|k0| + 1..]) == v0
      && PercentEncoding.UnescapeDataString(parts[1][|k1| + 1..]) == v1
  {
    ParameterValue(k0, v0);
    ParameterValue(k1, v1);
    SplitPair(k0 + "=" + PercentEncoding.EscapeDataString(v0), k1 + "=" + PercentEncoding.EscapeDataString(v1));
  }

  /** The query splits on '&' into exactly the two parameters, and unescaping each value
      gives back the configured one. */
  lemma AuthorizationQueryRoundTrip(clientId: string, redirectUri: string)
    ensures var parts := Text.Split(AuthorizationQuery(clientId, redirectUri), '&');
      && parts == ["client_id" + "=" + PercentEncoding.EscapeDataString(clientId),
                   "redirect_uri" + "=" + PercentEncoding.EscapeDataString(redirectUri)]
      && PercentEncoding.UnescapeDataString(parts[0][10..]) == clientId
      && PercentEncoding.UnescapeDataString(parts[1][13..]) == redirectUri
  {
    TwoParametersRoundTrip("client_id", clientId, "redirect_uri", redirectUri);
  }

  /** The answer of InitiateLogin and RedirectToSchwab: a redirect, or a 400 with a message.
      Their catch clauses cannot be reached: with both settings present nothing in the
      block throws. */
  datatype LoginAnswer = Redirect(url: string) | BadRequest(message: string)

  /** The guards of the two redirecting actions: the client id first, then the redirect URI. */
  function GuardedRedirect(s: OAuthSettings, noClientIdMessage: string, noRedirectUriMessage: string): LoginAnswer {
    if s.clientId == "" then BadRequest(noClientIdMessage)
    else if Text.IsNullOrEmpty(s.redirectUri) then BadRequest(noRedirectUriMessage)
    else Redirect(AuthorizationUrl(s.authorizeUrl, s.clientId, s.redirectUri.value))
  }

  function InitiateLogin(s: OAuthSettings): LoginAnswer {
    GuardedRedirect(s, "Schwab Client ID is not configured. Please check your configuration.",
                    "Redirect URI is not configured. Please check your configuration.")
  }

  function RedirectToSchwab(s: OAuthSettings): LoginAnswer {
    GuardedRedirect(s, "Schwab Client ID is not configured", "Redirect URI is not configured")
  }

  /** The body of GetAuthorizationUrl: the URL and the lifetimes it advertises. */
  datatype AuthorizationInfo = AuthorizationInfo(
    authorizationUrl: string, accessTokenValidMinutes: int, refreshTokenValidDays: int,
    automaticRefreshBeforeExpiryMinutes: int)

  /** GetAuthorizationUrl: no checks, and a null redirect URI becomes "". */
  function GetAuthorizationUrl(s: OAuthSettings): AuthorizationInfo {
    AuthorizationInfo(AuthorizationUrl(s.authorizeUrl, s.clientId, s.redirectUri.GetOr("")), 30, 7, 30)
  }

  /** The guards in order, and the redirect to the URL GetAuthorizationUrl reports once both
      settings are present. */
  lemma GuardedRedirectSpec(s: OAuthSettings, noClientIdMessage: string, noRedirectUriMessage: string)
    ensures var a := GuardedRedirect(s, noClientIdMessage, noRedirectUriMessage);
      && (s.clientId == "" ==> a == BadRequest(noClientIdMessage))
      && (s.clientId != "" && Text.IsNullOrEmpty(s.redirectUri) ==> a == BadRequest(noRedirectUriMessage))
      && (a.Redirect? <==> s.clientId != "" && !Text.IsNullOrEmpty(s.redirectUri))
      && (a.Redirect? ==> a == Redirect(GetAuthorizationUrl(s).authorizationUrl))
  {
  }

  /** An empty client id is reported before the redirect URI is looked at. */
  lemma RedirectGuards(s: OAuthSettings)
    ensures s.clientId == "" ==>
      InitiateLogin(s) == BadRequest("Schwab Client ID is not configured. Please check your configuration.")
      && RedirectToSchwab(s) == BadRequest("Schwab Client ID is not configured")
    ensures s.clientId != "" && Text.IsNullOrEmpty(s.redirectUri) ==>
      InitiateLogin(s) == BadRequest("Redirect URI is not configured. Please check your configuration.")
      && RedirectToSchwab(s) == BadRequest("Redirect URI is not configured")
  {
    GuardedRedirectSpec(s, "Schwab Client ID is not configured. Please check your configuration.",
                        "Redirect URI is not configured. Please check your configuration.");
    GuardedRedirectSpec(s, "Schwab Client ID is not configured", "Redirect URI is not configured");
  }

  /** Both redirecting actions redirect under the same conditions, to the URL
      GetAuthorizationUrl reports, and differ only in their messages. */
  lemma RedirectsAgree(s: OAuthSettings)
    ensures InitiateLogin(s).Redirect? <==> s.clientId != "" && !Text.IsNullOrEmpty(s.redirectUri)
    ensures RedirectToSchwab(s).Redirect? <==> InitiateLogin(s).Redirect?
    ensures InitiateLogin(s).Redirect? ==>
      InitiateLogin(s) == RedirectToSchwab(s) == Redirect(GetAuthorizationUrl(s).authorizationUrl)
  {
    GuardedRedirectSpec(s, "Schwab Client ID is not configured. Please check your configuration.",
                        "Redirect URI is not configured. Please check your configuration.");
    GuardedRedirectSpec(s, "Schwab Client ID is not configured", "Redirect URI is not configured");
  }

  /** GetAuthorizationUrl answers even with no redirect URI configured, with an empty value. */
  lemma AuthorizationUrlWithoutRedirectUri(s: OAuthSettings)
    requires s.redirectUri.None?
    ensures GetAuthorizationUrl(s).authorizationUrl
      == s.authorizeUrl.GetOr("") + "?" + AuthorizationQuery(s.clientId, "")
    ensures AuthorizationQuery(s.clientId, "")
      == ("client_id" + "=" + PercentEncoding.EscapeDataString(s.clientId)) + "&" + ("redirect_uri" + "=")
  {
    var empty := "";
    AuthorizationUrlSpec(s.authorizeUrl, s.clientId, empty);
    PercentEncoding.EscapeUnreserved(empty);
    assert GetAuthorizationUrl(s).authorizationUrl == AuthorizationUrl(s.authorizeUrl, s.clientId, empty);
  }

  // ---- Callback ----

  /** C#'s integer division by a positive divisor, which truncates toward zero. */
  function TruncatedDivision(a: int, d: int): (q: int)
    requires d > 0
    ensures a >= 0 ==> 0 <= a - q * d < d
    ensures a < 0 ==> -d < a - q * d <= 0
  {
    if a >= 0 then a / d else -((-a) / d)
  }

  /** The responses of Callback. */
  datatype CallbackAnswer =
    | MissingCode
    | NoRedirectUri
    | ExchangeFailed(details: string, statusCode: int)
    | NotDeserialized
    | Completed(accessTokenExpiresInMinutes: int, tokenType: Option<string>, scope: Option<string>)
    | Failed(message: string)
  {
    function Status(): int {
      match this
      case Completed(_, _, _) => 200
      case Failed(_) => 500
      case _ => 400
    }
  }

  /** The token request of the authorization-code grant: HTTP Basic client credentials and
      exactly the fields grant_type, code and redirect_uri. */
  function CodeRequest(s: OAuthSettings, decodedCode: string, redirectUri: string): TokenRequest {
    TokenRequest(s.tokenUrl, BasicCredential(s.clientId, s.clientSecret),
                 [("grant_type", "authorization_code"), ("code", decodedCode), ("redirect_uri", redirectUri)])
  }

  /** What the callback answered, the request it posted, if any, and the token table after it. */
  datatype CallbackResult = CallbackResult(answer: CallbackAnswer, sent: Option<TokenRequest>, tokens: seq<OAuthToken>)

  /** Callback(code) at time now over the token table ts. */
  function Callback(ts: seq<OAuthToken>, code: Option<string>, s: OAuthSettings, now: int,
                    send: TokenRequest -> Call<HttpReply>,
                    parse: string -> Call<Option<TokenResponse>>): CallbackResult
  {
    if Text.IsNullOrWhiteSpace(code) then CallbackResult(MissingCode, None, ts)
    else
      var decodedCode := PercentEncoding.UnescapeDataString(code.value);
      if Text.IsNullOrWhiteSpace(s.redirectUri) then CallbackResult(NoRedirectUri, None, ts)
      else
        var request := CodeRequest(s, decodedCode, s.redirectUri.value);
        match send(request)
        case Threw(e) => CallbackResult(Failed(e.message), Some(request), ts)
        case Returned(reply) =>
          if !IsSuccessStatusCode(reply.status) then
            CallbackResult(ExchangeFailed(reply.content, reply.status), Some(request), ts)
          else
            match parse(reply.content)
            case Threw(e) => CallbackResult(Failed(e.message), Some(request), ts)
            case Returned(None) => CallbackResult(NotDeserialized, Some(request), ts)
            case Returned(Some(t)) =>
              CallbackResult(Completed(TruncatedDivision(t.expiresIn, 60), t.tokenType, t.scope),
                             Some(request), TokenService.Saved(ts, t, now))
  }

  /** A missing or blank code, or a blank redirect URI, is a 400 with nothing posted and
      nothing stored; otherwise exactly the grant request with the unescaped code is posted. */
  lemma CallbackGuards(ts: seq<OAuthToken>, code: Option<string>, s: OAuthSettings, now: int,
                       send: TokenRequest -> Call<HttpReply>,
                       parse: string -> Call<Option<TokenResponse>>)
    ensures var r := Callback(ts, code, s, now, send, parse);
      && (Text.IsNullOrWhiteSpace(code) ==> r == CallbackResult(MissingCode, None, ts))
      && (!Text.IsNullOrWhiteSpace(code) && Text.IsNullOrWhiteSpace(s.redirectUri) ==>
            r == CallbackResult(NoRedirectUri, None, ts))
      && (r.sent.Some? <==> !Text.IsNullOrWhiteSpace(code) && !Text.IsNullOrWhiteSpace(s.redirectUri))
      && (r.sent.Some? ==>
            && r.sent.value.url == s.tokenUrl
            && r.sent.value.basicCredential == BasicCredential(s.clientId, s.clientSecret)
            && r.sent.value.form == [("grant_type", "authorization_code"),
                                     ("code", PercentEncoding.UnescapeDataString(code.value)),
                                     ("redirect_uri", s.redirectUri.value)])
  {
  }

  /** A code that arrives percent-encoded is posted as the code the server issued. */
  lemma CallbackPostsIssuedCode(ts: seq<OAuthToken>, issued: string, s: OAuthSettings, now: int,
                                send: TokenRequest -> Call<HttpReply>,
                                parse: string -> Call<Option<TokenResponse>>)
    requires !Text.IsNullOrWhiteSpace(Some(PercentEncoding.EscapeDataString(issued)))
    requires !Text.IsNullOrWhiteSpace(s.redirectUri)
    ensures var r := Callback(ts, Some(PercentEncoding.EscapeDataString(issued)), s, now, send, parse);
      r.sent.Some? && r.sent.value.form[1] == ("code", issued)
  {
    PercentEncoding.UnescapeEscape(issued);
  }

  /** The table changes only when the exchange completes, and then by exactly the record
      built from the response; a non-success reply is a 400 carrying the upstream status and
      body, and the reported minutes are expires_in / 60 truncated toward zero. */
  lemma CallbackStoresOnlyOnSuccess(ts: seq<OAuthToken>, code: Option<string>, s: OAuthSettings, now: int,
                                    send: TokenRequest -> Call<HttpReply>,
                                    parse: string -> Call<Option<TokenResponse>>)
    ensures var r := Callback(ts, code, s, now, send, parse);
      && (!r.answer.Completed? ==> r.tokens == ts)
      && (r.answer.Completed? ==>
            && r.sent.Some? && send(r.sent.value).Returned?
            && var reply := send(r.sent.value).value;
               && IsSuccessStatusCode(reply.status)
               && parse(reply.content).Returned? && parse(reply.content).value.Some?
               && var t := parse(reply.content).value.value;
                  && r.tokens == TokenService.Saved(ts, t, now)
                  && |r.tokens| == |ts| + 1
                  && r.answer.accessTokenExpiresInMinutes * 60 <= (if t.expiresIn >= 0 then t.expiresIn else t.expiresIn + 59)
                  && r.answer == Completed(TruncatedDivision(t.expiresIn, 60), t.tokenType, t.scope))
      && (r.sent.Some? && send(r.sent.value).Returned? && !IsSuccessStatusCode(send(r.sent.value).value.status) ==>
            r.answer == ExchangeFailed(send(r.sent.value).value.content, send(r.sent.value).value.status)
            && r.answer.Status() == 400)
  {
  }

  /** A token response with a negative lifetime of 90 seconds still completes the callback:
      the reported minutes are -1, as C# truncates (Dafny's division would give -2), and the
      record is stored already expired. */
  lemma CallbackNegativeLifetime(ts: seq<OAuthToken>, code: Option<string>, s: OAuthSettings, now: int,
                                 send: TokenRequest -> Call<HttpReply>,
                                 parse: string -> Call<Option<TokenResponse>>,
                                 reply: HttpReply, t: TokenResponse)
    requires !Text.IsNullOrWhiteSpace(code) && !Text.IsNullOrWhiteSpace(s.redirectUri)
    requires send(CodeRequest(s, PercentEncoding.UnescapeDataString(code.value), s.redirectUri.value)) == Returned(reply)
    requires IsSuccessStatusCode(reply.status)
    requires parse(reply.content) == Returned(Some(t))
    requires t.expiresIn == -90
    ensures var r := Callback(ts, code, s, now, send, parse);
      && r.answer == Completed(-1, t.tokenType, t.scope)
      && r.answer.Status() == 200
      && r.tokens == TokenService.Saved(ts, t, now)
      && r.tokens[|ts|].expiresAt == now - 90 < now
  {
    assert TruncatedDivision(-90, 60) == -1;
  }

  /** Right after a callback that completed with a lifetime of at least a minute,
      GetValidTokenAsync returns the stored record without another exchange. A lifetime
      under a minute can still be reported as 0 minutes while the record is already expired. */
  lemma CallbackThenValidToken(ts: seq<OAuthToken>, code: Option<string>, s: OAuthSettings, now: int,
                               send: TokenRequest -> Call<HttpReply>,
                               parse: string -> Call<Option<TokenResponse>>,
                               send2: TokenRequest -> Call<HttpReply>)
    requires forall i :: 0 <= i < |ts| ==> ts[i].createdAt <= now
    ensures var r := Callback(ts, code, s, now, send, parse);
      r.answer.Completed? && r.answer.accessTokenExpiresInMinutes > 0 ==>
        |r.tokens| == |ts| + 1
        && TokenService.GetValid(r.tokens, s, now, send2, parse) == TokenService.StoreResult(Returned(Some(r.tokens[|ts|])), None, r.tokens)
  {
    var r := Callback(ts, code, s, now, send, parse);
    if r.answer.Completed? && r.answer.accessTokenExpiresInMinutes > 0 {
      CallbackStoresOnlyOnSuccess(ts, code, s, now, send, parse);
      var t := parse(send(r.sent.value).value.content).value.value;
      assert r.tokens == TokenService.Saved(ts, t, now);
      assert t.expiresIn >= 0;
      TokenService.GetValidAfterSave(ts, t, s, now, send2, parse);
    }
  }

  /** Callback on the database: the same steps, posting through send and saving through
      TokenService.SaveToken. */
  method CallbackOn(db: Data.AppDb, code: Option<string>, s: OAuthSettings, now: int,
                    send: TokenRequest -> Call<HttpReply>,
                    parse: string -> Call<Option<TokenResponse>>)
    returns (answer: CallbackAnswer, sent: Option<TokenRequest>)
    requires db.Valid()
    modifies db
    ensures db.Valid()
    ensures Callback(old(db.tokens), code, s, now, send, parse) == CallbackResult(answer, sent, db.tokens)
    ensures db.tenants == old(db.tenants) && db.users == old(db.users) && db.nextGuid == old(db.nextGuid)
  {
    if Text.IsNullOrWhiteSpace(code) {
      return MissingCode, None;
    }
    var decodedCode := PercentEncoding.UnescapeDataString(code.value);
    if Text.IsNullOrWhiteSpace(s.redirectUri) {
      return NoRedirectUri, None;
    }
    var request := CodeRequest(s, decodedCode, s.redirectUri.value);
    sent := Some(request);
    var response := send(request);
    if response.Threw? {
      return Failed(response.ex.message), sent;
    }
    if !IsSuccessStatusCode(response.value.status) {
      return ExchangeFailed(response.value.content, response.value.status), sent;
    }
    var token := parse(response.value.content);
    if token.Threw? {
      return Failed(token.ex.message), sent;
    }
    if token.value.None? {
      return NotDeserialized, sent;
    }
    TokenService.SaveToken(db, token.value.value, now);
    answer := Completed(TruncatedDivision(token.value.value.expiresIn, 60), token.value.value.tokenType, token.value.value.scope);
  }
}
