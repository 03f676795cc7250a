/** The entities, settings and wire records of the backend (backend/Models, backend/Entities). */
module Models {
  import opened Wrappers
  import Utf8
  import Base64

  /** A Guid key. Fresh keys come from AppDb.NewGuid, which never repeats one. */
  type Guid = nat

  /** SchwabTokenResponse: the token endpoint's JSON reply; every string may be null. */
  datatype TokenResponse = TokenResponse(
    accessToken: Option<string>,
    refreshToken: Option<string>,
    expiresIn: int,
    tokenType: Option<string>,
    scope: Option<string>,
    idToken: Option<string>)

  /** OAuthToken: one stored token record; times are in seconds. */
  datatype OAuthToken = OAuthToken(
    id: int,
    accessToken: string,
    refreshToken: Option<string>,
    expiresAt: int,
    createdAt: int)

  /** SchwabOAuthSettings. */
  datatype OAuthSettings = OAuthSettings(
    clientId: string,
    clientSecret: string,
    redirectUri: Option<string>,
    tokenUrl: Option<string>,
    authorizeUrl: Option<string>)

  /** TokenRefreshSettings: the background refresher's knobs, in minutes and counts. */
  datatype TokenRefreshSettings = TokenRefreshSettings(
    checkIntervalMinutes: int,
    refreshBeforeExpiryMinutes: int,
    errorRetryDelayMinutes: int,
    maxConsecutiveFailures: int)

  /** The property initialisers of TokenRefreshSettings. */
  const DefaultRefreshSettings := TokenRefreshSettings(15, 30, 5, 3)

  datatype Tenant = Tenant(id: Guid, name: string, subdomain: string, createdAt: int)

  datatype User = User(
    id: Guid,
    tenantId: Guid,
    email: string,
    passwordHash: string,
    firstName: string,
    lastName: string,
    createdAt: int)

  /** User.FullName. */
  function FullName(u: User): string {
    u.firstName + " " + u.lastName
  }

  /** The full name holds both names, in order, around one space. */
  lemma FullNameParts(u: User)
    ensures |FullName(u)| == |u.firstName| + 1 + |u.lastName|
    ensures FullName(u)[..|u.firstName|] == u.firstName
    ensures FullName(u)[|u.firstName|] == ' '
    ensures FullName(u)[|u.firstName| + 1..] == u.lastName
  {
  }

  // ---- The token endpoint exchange (sections 4.1.3 and 6 of RFC 6749) ----

  /** A POST to a token endpoint: the URL (null when it is not configured), the HTTP Basic
      credential of the Authorization header, and the form fields in order. */
  datatype TokenRequest = TokenRequest(url: Option<string>, basicCredential: string, form: seq<(string, string)>)

  /** The credential of HTTP Basic authentication (section 2 of RFC 7617, section 2.3.1 of
      RFC 6749): base 64 of the UTF-8 bytes of "id:secret". */
  function BasicCredential(clientId: string, clientSecret: string): string {
    Base64.Encode(Utf8.Encode(clientId + ":" + clientSecret))
  }

  /** The credential decodes back to exactly "id:secret". */
  lemma BasicCredentialDecodes(clientId: string, clientSecret: string)
    ensures match Base64.Decode(BasicCredential(clientId, clientSecret))
      case None => false
      case Some(bytes) => Utf8.Decode(bytes) == Some(clientId + ":" + clientSecret)
  {
    Base64.DecodeEncode(Utf8.Encode(clientId + ":" + clientSecret));
    Utf8.DecodeEncode(clientId + ":" + clientSecret);
  }

  // ---- Table-wide facts ----

  predicate TenantIdsDistinct(ts: seq<Tenant>) {
    forall i, j :: 0 <= i < j < |ts| ==> ts[i].id != ts[j].id
  }

  predicate UserIdsDistinct(us: seq<User>) {
    forall i, j :: 0 <= i < j < |us| ==> us[i].id != us[j].id
  }

  predicate HasTenant(ts: seq<Tenant>, id: Guid) {
    exists i :: 0 <= i < |ts| && ts[i].id == id
  }

  /** The foreign key from users to tenants. */
  predicate UsersHaveTenants(ts: seq<Tenant>, us: seq<User>) {
    forall i :: 0 <= i < |us| ==> HasTenant(ts, us[i].tenantId)
  }

  /** Every tenant key is below next. */
  predicate TenantIdsBelow(ts: seq<Tenant>, next: nat) {
    forall i :: 0 <= i < |ts| ==> ts[i].id < next
  }

  /** Every user key is below next. */
  predicate UserIdsBelow(us: seq<User>, next: nat) {
    forall i :: 0 <= i < |us| ==> us[i].id < next
  }

  /** The identity column of OAuthToken: the n-th record has Id n. */
  predicate TokensNumbered(tokens: seq<OAuthToken>) {
    forall i :: 0 <= i < |tokens| ==> tokens[i].id == i + 1
  }
}
