/** UserAuthController: the tenant is taken from the first label of the request's host name;
    registration and login are routed to AuthService and their result becomes 200 or 400. */
module UserAuthController {
  import opened Wrappers
  import opened Models
  import Text
  import TenantService
  import AuthService
  import Data

  const NoSubdomainMessage := "No tenant found. Please access via subdomain (e.g., demo.localhost)"
  const NoTenantMessage := "Tenant not found"
  const UserFoundMessage := "User found"

  /** An action result carrying an AuthResponse: Ok is 200, BadRequest is 400. */
  datatype AuthAnswer = Ok(body: AuthService.AuthResponse) | BadRequest(body: AuthService.AuthResponse)
  {
    function Status(): int {
      if Ok? then 200 else 400
    }
  }

  /** ExtractSubdomain: the text before the first '.' of the host, when there is a '.'. */
  function ExtractSubdomain(host: string): Option<string> {
    var parts := Text.Split(host, '.');
    if |parts| >= 2 then Some(parts[0]) else None
  }

  /** A host yields a subdomain exactly when it holds a '.', and the subdomain is the text
      before the first '.'. */
  lemma ExtractSubdomainSpec(host: string)
    ensures ExtractSubdomain(host).Some? <==> '.' in host
    ensures ExtractSubdomain(host).Some? ==>
      ExtractSubdomain(host).value == host[..Text.IndexOf(host, '.')]
      && '.' !in ExtractSubdomain(host).value
  {
    Text.SplitFirst(host, '.');
  }

  /** Putting a dot-free label in front of a domain gives that label back: demo.localhost is
      read as demo. */
  lemma ExtractSubdomainOfHost(first: string, domain: string)
    requires '.' !in first
    ensures ExtractSubdomain(first + "." + domain) == Some(first)
  {
    var host := first + "." + domain;
    ExtractSubdomainSpec(host);
    assert host[|first|] == '.';
    assert '.' in host;
    var k := Text.IndexOf(host, '.');
    assert k == |first|;
    assert host[..k] == first;
  }

  /** The tenant Register hands to RegisterAsync: none for a new tenant or a host without a
      subdomain, else the key of the tenant the subdomain names, if any. */
  function RegisterTenantContext(ts: seq<Tenant>, host: string, request: AuthService.RegisterRequest): Option<Guid> {
    if request.isNewTenant then None
    else
      var subdomain := ExtractSubdomain(host);
      if Text.IsNullOrEmpty(subdomain) then None
      else match TenantService.GetTenantBySubdomain(ts, subdomain.value)
        case None => None
        case Some(t) => Some(t.id)
  }

  /** The context is a stored tenant whose subdomain is the host's first label, lower-cased;
      it is absent for a new tenant and whenever no such tenant exists. */
  lemma RegisterTenantContextSpec(ts: seq<Tenant>, host: string, request: AuthService.RegisterRequest)
    ensures var c := RegisterTenantContext(ts, host, request);
      && (request.isNewTenant ==> c.None?)
      && (c.Some? ==>
            var sub := ExtractSubdomain(host);
            && sub.Some? && sub.value != ""
            && exists i :: 0 <= i < |ts| && ts[i].id == c.value && ts[i].subdomain == Text.ToLower(sub.value))
      && (!request.isNewTenant && ExtractSubdomain(host).Some? && ExtractSubdomain(host).value != "" ==>
            (c.None? <==> TenantService.IsSubdomainAvailable(ts, ExtractSubdomain(host).value)))
  {
    var sub := ExtractSubdomain(host);
    if sub.Some? {
      TenantService.GetTenantBySubdomainSpec(ts, sub.value);
    }
  }

  /** Register: resolves the tenant context from the host, then RegisterAsync. */
  method Register(db: Data.AppDb, host: string, request: AuthService.RegisterRequest, now: int,
                  hash: string -> string)
    returns (answer: AuthAnswer)
    requires db.Valid()
    modifies db
    ensures db.Valid()
    ensures db.tokens == old(db.tokens)
    ensures answer.Ok? <==> answer.body.success
    ensures answer.body.success <==>
      && AuthService.TenantResolves(old(db.tenants), request, RegisterTenantContext(old(db.tenants), host, request))
      && !AuthService.EmailRegistered(old(db.users), request.email)
    ensures !request.isNewTenant ==> db.tenants == old(db.tenants)
    ensures !answer.body.success ==> db.users == old(db.users)
    ensures answer.body.success ==>
      && |db.users| == |old(db.users)| + 1 && db.users[..|old(db.users)|] == old(db.users)
      && db.users[|old(db.users)|].email == request.email
      && db.users[|old(db.users)|].passwordHash == hash(request.password)
  {
    var currentTenantId := RegisterTenantContext(db.tenants, host, request);
    var result := AuthService.Register(db, request, currentTenantId, now, hash);
    if result.success {
      answer := Ok(result);
    } else {
      answer := BadRequest(result);
    }
  }

  /** Login: the host must name a stored tenant; then LoginAsync within that tenant. */
  function Login(ts: seq<Tenant>, us: seq<User>, host: string, request: AuthService.LoginRequest,
                 verify: (string, string) -> bool): AuthAnswer
  {
    var subdomain := ExtractSubdomain(host);
    if Text.IsNullOrEmpty(subdomain) then BadRequest(AuthService.Failure(NoSubdomainMessage))
    else match TenantService.GetTenantBySubdomain(ts, subdomain.value)
      case None => BadRequest(AuthService.Failure(NoTenantMessage))
      case Some(t) =>
        var result := AuthService.Login(ts, us, request, t.id, verify);
        if result.success then Ok(result) else BadRequest(result)
  }

  /** A host without a usable subdomain, or one naming no tenant, is turned away before any
      user is looked at; otherwise the answer is LoginAsync's for that tenant, 200 exactly when
      it succeeded. */
  lemma LoginRouting(ts: seq<Tenant>, us: seq<User>, host: string, request: AuthService.LoginRequest,
                     verify: (string, string) -> bool)
    ensures var a := Login(ts, us, host, request, verify);
      && (a.Ok? <==> a.body.success)
      && ('.' !in host || host[0] == '.' ==> a == BadRequest(AuthService.Failure(NoSubdomainMessage)))
      && ('.' in host && host[0] != '.' ==>
            var sub := host[..Text.IndexOf(host, '.')];
            && sub != ""
            && (TenantService.IsSubdomainAvailable(ts, sub) ==> a == BadRequest(AuthService.Failure(NoTenantMessage)))
            && (!TenantService.IsSubdomainAvailable(ts, sub) ==>
                  exists i :: 0 <= i < |ts| && ts[i].subdomain == Text.ToLower(sub)
                    && a.body == AuthService.Login(ts, us, request, ts[i].id, verify)))
  {
    ExtractSubdomainSpec(host);
    var sub := ExtractSubdomain(host);
    if sub.Some? {
      TenantService.GetTenantBySubdomainSpec(ts, sub.value);
      if host[0] != '.' {
        assert Text.IndexOf(host, '.') > 0;
        assert |sub.value| > 0;
      } else {
        assert Text.IndexOf(host, '.') == 0;
      }
    }
  }

  /** A user registered with a fresh email in the tenant the host's first label names logs
      in through that host with the same password. */
  lemma LoginThroughSubdomainAfterRegister(ts: seq<Tenant>, us: seq<User>, u: User, first: string,
                                           domain: string, password: string, verify: (string, string) -> bool)
    requires '.' !in first && first != ""
    requires TenantService.GetTenantBySubdomain(ts, first).Some?
    requires TenantService.GetTenantBySubdomain(ts, first).value.id == u.tenantId
    requires !AuthService.EmailRegistered(us, u.email)
    requires verify(password, u.passwordHash)
    ensures Login(ts, us + [u], first + "." + domain, AuthService.LoginRequest(u.email, password), verify)
      == Ok(AuthService.Login(ts, us + [u], AuthService.LoginRequest(u.email, password), u.tenantId, verify))
  {
    ExtractSubdomainOfHost(first, domain);
    TenantService.GetTenantBySubdomainSpec(ts, first);
    AuthService.LoginAfterRegister(ts, us, u, password, verify);
  }

  /** GetUser's result: 200 with the user and its tenant, 404, or an unhandled null
      dereference (500) for a user whose tenant is missing. */
  datatype UserAnswer = Found(body: AuthService.AuthResponse) | UserNotFound | Unhandled
  {
    function Status(): int {
      match this
      case Found(_) => 200
      case UserNotFound => 404
      case Unhandled => 500
    }
  }

  /** GetUser(userId). */
  function GetUser(ts: seq<Tenant>, us: seq<User>, userId: Guid): UserAnswer {
    match AuthService.GetUserById(us, userId)
    case None => UserNotFound
    case Some(u) =>
      match TenantService.GetTenantById(ts, u.tenantId)
      case None => Unhandled
      case Some(t) =>
        Found(AuthService.AuthResponse(true, UserFoundMessage, Some(AuthService.UserDtoOf(u)),
                                       Some(AuthService.TenantInfoOf(t))))
  }

  /** An unknown key is a 404; with every user's tenant stored, a known key is a 200 naming
      that user and its own tenant. */
  lemma GetUserSpec(ts: seq<Tenant>, us: seq<User>, userId: Guid)
    requires UsersHaveTenants(ts, us)
    ensures var a := GetUser(ts, us, userId);
      && (a == UserNotFound <==> forall i :: 0 <= i < |us| ==> us[i].id != userId)
      && a != Unhandled
      && (a.Found? ==>
            exists i :: 0 <= i < |us| && us[i].id == userId
              && a.body.user == Some(AuthService.UserDtoOf(us[i]))
              && a.body.tenant.Some? && a.body.tenant.value.id == us[i].tenantId)
  {
    AuthService.GetUserByIdSpec(us, userId);
    var r := AuthService.GetUserById(us, userId);
    if r.Some? {
      var i :| 0 <= i < |us| && us[i] == r.value;
      assert HasTenant(ts, us[i].tenantId);
      TenantService.GetTenantByIdSpec(ts, r.value.tenantId);
    }
  }
}
