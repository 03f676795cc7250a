/** TokenController: the status, health and manual-refresh endpoints. Each classifies the
    results of token service calls; call results come in as Call values, durations in
    seconds. */
module TokenController {
  import opened Wrappers
  import opened Models
  import TokenService
  import Http

  const SecondsPerDay := 86400

  const RestartStep := "Refresh token expired - restart OAuth flow with GET /api/auth/authorization-url"
  const ValidStep := "Token is valid"
  const AutoRefreshStep := "Token will be automatically refreshed by background service"

  /** The body of GET status. */
  datatype TokenStatus =
    | NoToken(message: string, nextStep: string)
    | HasToken(
        isValid: bool,
        tokenId: int,
        expiresAt: int,
        createdAt: int,
        timeUntilExpiry: Option<int>,
        refreshTokenAge: Option<int>,
        needsRestart: bool,
        refreshTokenDaysRemaining: real,
        nextStep: string)

  /** What an endpoint answered: 200 with a body, 400 with an error, or 500. */
  datatype Answer<T> = Ok(body: T) | BadRequest(error: string) | ServerError

  /** SchwabApiInfo.RefreshTokenDaysRemaining: 0 when a restart is needed, otherwise seven
      days less the refresh token's age in days (0 for an unknown age), never below 0. */
  function DaysRemaining(needsRestart: bool, ageSeconds: Option<int>): real {
    if needsRestart then 0.0
    else
      var days := 7.0 - (if ageSeconds.Some? then ageSeconds.value as real / SecondsPerDay as real else 0.0);
      if 0.0 >= days then 0.0 else days
  }

  /** NextStep: a needed restart comes first, then validity. */
  function NextStep(needsRestart: bool, isValid: bool): string {
    if needsRestart then RestartStep else if isValid then ValidStep else AutoRefreshStep
  }

  /** GET status, from the results of GetCurrentTokenAsync, IsTokenValidAsync,
      GetTimeUntilExpiryAsync, NeedsOAuthFlowRestartAsync and GetRefreshTokenAgeAsync. */
  function GetTokenStatus(currentToken: Call<Option<OAuthToken>>, isValid: Call<bool>,
                          timeUntilExpiry: Call<Option<int>>, needsRestart: Call<bool>,
                          refreshTokenAge: Call<Option<int>>): Answer<TokenStatus>
  {
    match currentToken
    case Threw(_) => ServerError
    case Returned(None) =>
      Ok(NoToken("No token found - OAuth flow needs to be initiated",
                 "Call GET /api/auth/authorization-url to start the OAuth flow"))
    case Returned(Some(token)) =>
      if isValid.Threw? || timeUntilExpiry.Threw? || needsRestart.Threw? || refreshTokenAge.Threw? then
        ServerError
      else
        var restart := needsRestart.value;
        Ok(HasToken(isValid.value, token.id, token.expiresAt, token.createdAt,
                    timeUntilExpiry.value, refreshTokenAge.value, restart,
                    DaysRemaining(restart, refreshTokenAge.value),
                    NextStep(restart, isValid.value)))
  }

  /** The days remaining lie in [0, 7] for any non-negative or unknown age, and are 0 when a
      restart is needed. */
  lemma DaysRemainingBounds(needsRestart: bool, ageSeconds: Option<int>)
    requires ageSeconds.Some? ==> ageSeconds.value >= 0
    ensures 0.0 <= DaysRemaining(needsRestart, ageSeconds) <= 7.0
    ensures needsRestart ==> DaysRemaining(needsRestart, ageSeconds) == 0.0
    ensures !needsRestart && ageSeconds.None? ==> DaysRemaining(needsRestart, ageSeconds) == 7.0
    ensures !needsRestart && ageSeconds.Some? && ageSeconds.value >= 7 * SecondsPerDay ==>
      DaysRemaining(needsRestart, ageSeconds) == 0.0
  {
  }

  /** The next step reports a restart whenever one is needed, validity only when no restart
      is needed, and automatic refresh only when neither holds. */
  lemma NextStepPriority(needsRestart: bool, isValid: bool)
    ensures NextStep(needsRestart, isValid) == RestartStep <==> needsRestart
    ensures NextStep(needsRestart, isValid) == ValidStep <==> !needsRestart && isValid
    ensures NextStep(needsRestart, isValid) == AutoRefreshStep <==> !needsRestart && !isValid
  {
  }

  /** With no current token the status says HasToken = false, and none of the other queries
      affects the answer. */
  lemma NoTokenIgnoresQueries(isValid: Call<bool>, timeUntilExpiry: Call<Option<int>>,
                              needsRestart: Call<bool>, refreshTokenAge: Call<Option<int>>,
                              isValid': Call<bool>, timeUntilExpiry': Call<Option<int>>,
                              needsRestart': Call<bool>, refreshTokenAge': Call<Option<int>>)
    ensures GetTokenStatus(Returned(None), isValid, timeUntilExpiry, needsRestart, refreshTokenAge)
            == GetTokenStatus(Returned(None), isValid', timeUntilExpiry', needsRestart', refreshTokenAge')
    ensures GetTokenStatus(Returned(None), isValid, timeUntilExpiry, needsRestart, refreshTokenAge).Ok?
    ensures GetTokenStatus(Returned(None), isValid, timeUntilExpiry, needsRestart, refreshTokenAge).body.NoToken?
  {
  }

  /** With a token and every query answered, the status reports that token and the answers. */
  lemma StatusReportsToken(token: OAuthToken, isValid: bool, timeUntilExpiry: Option<int>,
                           needsRestart: bool, refreshTokenAge: Option<int>)
    ensures var a := GetTokenStatus(Returned(Some(token)), Returned(isValid), Returned(timeUntilExpiry),
                                    Returned(needsRestart), Returned(refreshTokenAge));
      && a.Ok? && a.body.HasToken?
      && a.body.tokenId == token.id && a.body.expiresAt == token.expiresAt
      && a.body.isValid == isValid && a.body.needsRestart == needsRestart
      && (needsRestart ==> a.body.refreshTokenDaysRemaining == 0.0 && a.body.nextStep == RestartStep)
  {
  }

  // ---- GET health ----

  datatype Health = Expired | ExpiringSoon | Healthy {
    function Label(): string {
      match this
      case Expired => "Expired"
      case ExpiringSoon => "Expiring Soon"
      case Healthy => "Healthy"
    }
  }

  /** The body of GET health. */
  datatype HealthReport = HealthReport(status: Health, isValid: bool, timeUntilExpiry: Option<int>)

  /** TimeUntilExpiry?.TotalMinutes <= 30, where a null duration compares false. */
  predicate ExpiresWithinHalfHour(timeUntilExpiry: Option<int>) {
    timeUntilExpiry.Some? && timeUntilExpiry.value as real / 60.0 <= 30.0
  }

  /** GET health, from IsTokenValidAsync and GetTimeUntilExpiryAsync. */
  function GetTokenHealth(isValid: Call<bool>, timeUntilExpiry: Call<Option<int>>): Answer<HealthReport> {
    if isValid.Threw? || timeUntilExpiry.Threw? then ServerError
    else
      var status :=
        if !isValid.value then Expired
        else if ExpiresWithinHalfHour(timeUntilExpiry.value) then ExpiringSoon
        else Healthy;
      Ok(HealthReport(status, isValid.value, timeUntilExpiry.value))
  }

  /** An invalid token is Expired whatever time remains. */
  lemma InvalidIsExpired(timeUntilExpiry: Option<int>)
    ensures GetTokenHealth(Returned(false), Returned(timeUntilExpiry)) == Ok(HealthReport(Expired, false, timeUntilExpiry))
  {
  }

  /** A valid token is Expiring Soon exactly when at most 1800 seconds remain, and Healthy
      otherwise, an unknown time included. */
  lemma ValidHealth(timeUntilExpiry: Option<int>)
    ensures var a := GetTokenHealth(Returned(true), Returned(timeUntilExpiry));
      && a.Ok?
      && (a.body.status == ExpiringSoon <==> timeUntilExpiry.Some? && timeUntilExpiry.value <= 1800)
      && (a.body.status == Healthy <==> timeUntilExpiry.None? || timeUntilExpiry.value > 1800)
  {
    if timeUntilExpiry.Some? {
      var m := timeUntilExpiry.value as real / 60.0;
      assert m <= 30.0 <==> timeUntilExpiry.value as real <= 1800.0;
    }
  }

  // ---- POST refresh ----

  /** The body of a successful manual refresh. */
  datatype Refreshed = Refreshed(tokenId: int, expiresAt: int)

  /** POST refresh, from the result of RefreshTokenAsync. */
  function ManualRefresh(refreshed: Call<Option<OAuthToken>>): Answer<Refreshed> {
    match refreshed
    case Threw(_) => ServerError
    case Returned(None) => BadRequest("Token refresh failed")
    case Returned(Some(t)) => Ok(Refreshed(t.id, t.expiresAt))
  }

  /** Against the token store: a refresh the endpoint rejects or that finds no stored token
      answers 400, and a successful one reports the new record's identity value and an expiry
      of expires_in seconds after now. */
  lemma ManualRefreshOnStore(ts: seq<OAuthToken>, s: OAuthSettings, now: int,
                             send: TokenRequest -> Call<Http.HttpReply>,
                             parse: string -> Call<Option<TokenResponse>>)
    requires forall i :: 0 <= i < |ts| ==> ts[i].createdAt <= now
    ensures |ts| == 0 ==> ManualRefresh(TokenService.Refresh(ts, s, now, send, parse).outcome) == BadRequest("Token refresh failed")
    ensures var a := ManualRefresh(TokenService.Refresh(ts, s, now, send, parse).outcome);
      a.Ok? ==>
        var reply := send(TokenService.RefreshRequest(s, TokenService.Latest(ts).value));
        var t := parse(reply.value.content).value.value;
        |ts| > 0 && reply.Returned? && Http.IsSuccessStatusCode(reply.value.status)
        && a.body == Refreshed(|ts| + 1, now + t.expiresIn)
  {
    var r := TokenService.Refresh(ts, s, now, send, parse);
    if r.outcome.Returned? && r.outcome.value.Some? {
      var reply := send(TokenService.RefreshRequest(s, TokenService.Latest(ts).value));
      var t := parse(reply.value.content).value.value;
      TokenService.LatestAfterSave(ts, t, now);
    }
  }
}
