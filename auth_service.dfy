/** AuthService: registration, which may first create a tenant and then adds a user, and
    login, a lookup by email within one tenant followed by a password check. BCrypt is
    seen only through a hash function and a verify predicate, both inputs. */
module AuthService {
  import opened Wrappers
  import opened Models
  import Text
  import TenantService
  import Data

  /** RegisterRequest. The tenant fields are nullable. */
  datatype RegisterRequest = RegisterRequest(
    email: string,
    password: string,
    firstName: string,
    lastName: string,
    isNewTenant: bool,
    tenantName: Option<string>,
    subdomain: Option<string>)

  datatype LoginRequest = LoginRequest(email: string, password: string)

  datatype UserDto = UserDto(id: Guid, email: string, firstName: string, lastName: string, fullName: string)

  /** TenantDto as it appears in an AuthResponse. */
  datatype TenantInfo = TenantInfo(id: Guid, name: string, subdomain: string)

  datatype AuthResponse = AuthResponse(success: bool, message: string, user: Option<UserDto>, tenant: Option<TenantInfo>)

  const RequiredMessage := "Tenant name and subdomain are required for new tenant"
  const TakenMessage := "Subdomain is already taken"
  const NoContextMessage := "No tenant context found"
  const NoTenantMessage := "Tenant not found"
  const EmailTakenMessage := "Email address is already registered"
  const InvalidCredentialsMessage := "Invalid email or password"
  const LoginFailedMessage := "Login failed. Please try again."

  function Failure(message: string): AuthResponse {
    AuthResponse(false, message, None, None)
  }

  function UserDtoOf(u: User): UserDto {
    UserDto(u.id, u.email, u.firstName, u.lastName, FullName(u))
  }

  function TenantInfoOf(t: Tenant): TenantInfo {
    TenantInfo(t.id, t.name, t.subdomain)
  }

  /** Some user of any tenant has this email. */
  predicate EmailRegistered(us: seq<User>, email: string) {
    exists i :: 0 <= i < |us| && us[i].email == email
  }

  /** The tenant checks of RegisterAsync pass: a new tenant has a name and an available
      subdomain, or an existing one is given and stored. */
  predicate TenantResolves(ts: seq<Tenant>, request: RegisterRequest, currentTenantId: Option<Guid>) {
    if request.isNewTenant then
      && !Text.IsNullOrEmpty(request.tenantName) && !Text.IsNullOrEmpty(request.subdomain)
      && TenantService.IsSubdomainAvailable(ts, request.subdomain.value)
    else
      currentTenantId.Some? && HasTenant(ts, currentTenantId.value)
  }

  /** Appending a user with a fresh key whose tenant is stored keeps the tables valid. */
  lemma AppendUserValid(ts: seq<Tenant>, us: seq<User>, u: User, next: nat)
    requires UserIdsDistinct(us) && UsersHaveTenants(ts, us) && UserIdsBelow(us, next)
    requires forall i :: 0 <= i < |us| ==> us[i].id < u.id
    requires u.id < next && HasTenant(ts, u.tenantId)
    ensures UserIdsDistinct(us + [u]) && UsersHaveTenants(ts, us + [u]) && UserIdsBelow(us + [u], next)
  {
  }

  /** RegisterAsync at time now. */
  method Register(db: Data.AppDb, request: RegisterRequest, currentTenantId: Option<Guid>, now: int,
                  hash: string -> string)
    returns (r: AuthResponse)
    requires db.Valid()
    modifies db
    ensures db.Valid()
    ensures db.tokens == old(db.tokens)
    // The checks, in order; each failure before the tenant is created changes nothing.
    ensures request.isNewTenant && (Text.IsNullOrEmpty(request.tenantName) || Text.IsNullOrEmpty(request.subdomain)) ==>
      r == Failure(RequiredMessage) && db.tenants == old(db.tenants) && db.users == old(db.users)
    ensures request.isNewTenant && !Text.IsNullOrEmpty(request.tenantName) && !Text.IsNullOrEmpty(request.subdomain)
            && !TenantService.IsSubdomainAvailable(old(db.tenants), request.subdomain.value) ==>
      r == Failure(TakenMessage) && db.tenants == old(db.tenants) && db.users == old(db.users)
    ensures !request.isNewTenant && currentTenantId.None? ==>
      r == Failure(NoContextMessage) && db.tenants == old(db.tenants) && db.users == old(db.users)
    ensures !request.isNewTenant && currentTenantId.Some? && !HasTenant(old(db.tenants), currentTenantId.value) ==>
      r == Failure(NoTenantMessage) && db.tenants == old(db.tenants) && db.users == old(db.users)
    ensures TenantResolves(old(db.tenants), request, currentTenantId) && EmailRegistered(old(db.users), request.email) ==>
      r == Failure(EmailTakenMessage) && db.users == old(db.users)
    // An existing tenant is never changed; a new one stays stored even when the email check fails.
    ensures !request.isNewTenant ==> db.tenants == old(db.tenants)
    ensures TenantResolves(old(db.tenants), request, currentTenantId) && request.isNewTenant ==>
      && |db.tenants| == |old(db.tenants)| + 1 && db.tenants[..|old(db.tenants)|] == old(db.tenants)
      && db.tenants[|old(db.tenants)|].name == request.tenantName.value
      && db.tenants[|old(db.tenants)|].subdomain == Text.ToLower(request.subdomain.value)
    // Success, and the one user it adds.
    ensures r.success <==> TenantResolves(old(db.tenants), request, currentTenantId) && !EmailRegistered(old(db.users), request.email)
    ensures !r.success ==> db.users == old(db.users) && r.user.None?
    ensures r.success ==>
      && |db.users| == |old(db.users)| + 1 && db.users[..|old(db.users)|] == old(db.users)
      && var u := db.users[|old(db.users)|];
      && u.email == request.email && u.passwordHash == hash(request.password)
      && u.firstName == request.firstName && u.lastName == request.lastName && u.createdAt == now
      && (forall i :: 0 <= i < |old(db.users)| ==> old(db.users)[i].id != u.id)
      && (!request.isNewTenant ==> Some(u.tenantId) == currentTenantId)
      && (request.isNewTenant ==> u.tenantId == db.tenants[|old(db.tenants)|].id)
      && r.user == Some(UserDtoOf(u)) && r.tenant.Some? && r.tenant.value.id == u.tenantId
  {
    var tenant: Tenant;
    if request.isNewTenant {
      if Text.IsNullOrEmpty(request.tenantName) || Text.IsNullOrEmpty(request.subdomain) {
        return Failure(RequiredMessage);
      }
      if !TenantService.IsSubdomainAvailable(db.tenants, request.subdomain.value) {
        return Failure(TakenMessage);
      }
      tenant := TenantService.CreateTenant(db, request.tenantName.value, request.subdomain.value, now);
      assert db.tenants[|db.tenants| - 1] == tenant;
    } else {
      if currentTenantId.None? {
        return Failure(NoContextMessage);
      }
      var found := TenantService.GetTenantById(db.tenants, currentTenantId.value);
      TenantService.GetTenantByIdSpec(db.tenants, currentTenantId.value);
      if found.None? {
        return Failure(NoTenantMessage);
      }
      tenant := found.value;
    }
    assert HasTenant(db.tenants, tenant.id);
    if EmailRegistered(db.users, request.email) {
      return Failure(EmailTakenMessage);
    }
    var id := db.NewGuid();
    var user := User(id, tenant.id, request.email, hash(request.password), request.firstName, request.lastName, now);
    AppendUserValid(db.tenants, db.users, user, db.nextGuid);
    db.users := db.users + [user];
    r := AuthResponse(true, "Registration successful", Some(UserDtoOf(user)), Some(TenantInfoOf(tenant)));
  }

  // ---- LoginAsync ----

  /** The position of the first user with this email in this tenant, or |us|. */
  function IndexOfLogin(us: seq<User>, email: string, tenantId: Guid): (k: nat)
    ensures k <= |us|
    ensures k < |us| ==> us[k].email == email && us[k].tenantId == tenantId
    ensures forall i :: 0 <= i < k ==> !(us[i].email == email && us[i].tenantId == tenantId)
  {
    if us == [] then 0
    else if us[0].email == email && us[0].tenantId == tenantId then 0
    else 1 + IndexOfLogin(us[1..], email, tenantId)
  }

  /** LoginAsync; verify(password, hash) is BCrypt.Verify. A user whose tenant is missing
      makes the code dereference null, which the catch turns into the generic failure. */
  function Login(ts: seq<Tenant>, us: seq<User>, request: LoginRequest, tenantId: Guid,
                 verify: (string, string) -> bool): AuthResponse
  {
    var k := IndexOfLogin(us, request.email, tenantId);
    if k == |us| then Failure(InvalidCredentialsMessage)
    else if !verify(request.password, us[k].passwordHash) then Failure(InvalidCredentialsMessage)
    else match TenantService.GetTenantById(ts, us[k].tenantId)
      case None => Failure(LoginFailedMessage)
      case Some(t) => AuthResponse(true, "Login successful", Some(UserDtoOf(us[k])), Some(TenantInfoOf(t)))
  }

  /** A successful login names a stored user of that tenant with that email whose password
      verifies, and the tenant it belongs to. */
  lemma LoginSuccessSound(ts: seq<Tenant>, us: seq<User>, request: LoginRequest, tenantId: Guid,
                          verify: (string, string) -> bool)
    ensures var r := Login(ts, us, request, tenantId, verify);
      r.success ==>
        exists i :: 0 <= i < |us| && us[i].email == request.email && us[i].tenantId == tenantId
          && verify(request.password, us[i].passwordHash)
          && r.user == Some(UserDtoOf(us[i])) && r.tenant.Some? && r.tenant.value.id == tenantId
  {
    var k := IndexOfLogin(us, request.email, tenantId);
    if Login(ts, us, request, tenantId, verify).success {
      TenantService.GetTenantByIdSpec(ts, us[k].tenantId);
      assert 0 <= k < |us|;
    }
  }

  /** An unknown email and a wrong password give the very same response. */
  lemma LoginFailuresIdentical(ts: seq<Tenant>, us: seq<User>, request: LoginRequest, tenantId: Guid,
                               verify: (string, string) -> bool)
    requires || !(exists i :: 0 <= i < |us| && us[i].email == request.email && us[i].tenantId == tenantId)
             || !verify(request.password, us[IndexOfLogin(us, request.email, tenantId)].passwordHash)
    ensures Login(ts, us, request, tenantId, verify) == Failure(InvalidCredentialsMessage)
  {
  }

  /** A user registered with a fresh email logs in to its tenant with the same password. */
  lemma LoginAfterRegister(ts: seq<Tenant>, us: seq<User>, u: User, password: string,
                           verify: (string, string) -> bool)
    requires !EmailRegistered(us, u.email) && HasTenant(ts, u.tenantId)
    requires verify(password, u.passwordHash)
    ensures var r := Login(ts, us + [u], LoginRequest(u.email, password), u.tenantId, verify);
      r.success && r.user == Some(UserDtoOf(u))
  {
    var us' := us + [u];
    var k := IndexOfLogin(us', u.email, u.tenantId);
    assert us'[|us|] == u;
    assert k == |us|;
    TenantService.GetTenantByIdSpec(ts, u.tenantId);
  }

  /** GetUserByIdAsync. */
  function GetUserById(us: seq<User>, id: Guid): Option<User> {
    if us == [] then None
    else if us[0].id == id then Some(us[0])
    else GetUserById(us[1..], id)
  }

  /** The user lookup finds the stored user with that key, and none when there is none. */
  lemma {:induction false} GetUserByIdSpec(us: seq<User>, id: Guid)
    ensures var r := GetUserById(us, id);
      && (r.Some? ==> r.value in us && r.value.id == id)
      && (r.None? <==> forall i :: 0 <= i < |us| ==> us[i].id != id)
  {
    if us != [] {
      GetUserByIdSpec(us[1..], id);
      if us[0].id != id {
        assert forall i :: 1 <= i < |us| ==> us[i] == us[1..][i - 1];
      }
    }
  }
}
