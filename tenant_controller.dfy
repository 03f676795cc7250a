/** TenantController: creation, update and deletion of tenants, each checking the
    subdomain and its uniqueness before it writes. Subdomains are compared exactly here,
    unlike TenantService, which lower-cases first. */
module TenantController {
  import opened Wrappers
  import opened Models
  import opened Subdomain
  import TenantService
  import Data

  const InvalidSubdomainMessage := "Invalid subdomain. Use only lowercase letters, numbers, and hyphens."
  const TakenMessage := "This subdomain is already taken."

  /** TenantDto as the create and update actions read it. */
  datatype TenantDto = TenantDto(name: string, subdomain: string)

  /** The action results: 201 with the tenant, 204, 400, 409 and 404. */
  datatype TenantAnswer =
    | Created(tenant: Tenant)
    | NoContent
    | BadRequest(message: string)
    | Conflict(message: string)
    | NotFound
  {
    function Status(): int {
      match this
      case Created(_) => 201
      case NoContent => 204
      case BadRequest(_) => 400
      case Conflict(_) => 409
      case NotFound => 404
    }
  }

  /** Some stored tenant has exactly this subdomain. */
  predicate HasSubdomain(ts: seq<Tenant>, sub: string) {
    exists i :: 0 <= i < |ts| && ts[i].subdomain == sub
  }

  /** Some stored tenant other than id has exactly this subdomain. */
  predicate HeldByOther(ts: seq<Tenant>, sub: string, id: Guid) {
    exists i :: 0 <= i < |ts| && ts[i].subdomain == sub && ts[i].id != id
  }

  /** The tenant after an update that passes its checks: a non-empty name replaces the name,
      a non-empty subdomain replaces the subdomain. */
  function Revised(t: Tenant, dto: TenantDto): Tenant {
    t.(name := if dto.name != "" then dto.name else t.name,
       subdomain := if dto.subdomain != "" then dto.subdomain else t.subdomain)
  }

  /** An update changes the name only for a non-empty name, the subdomain exactly for a
      non-empty one that differs, and never the key or the creation time. */
  lemma RevisedChanges(t: Tenant, dto: TenantDto)
    ensures Revised(t, dto).id == t.id && Revised(t, dto).createdAt == t.createdAt
    ensures Revised(t, dto).name != t.name ==> dto.name != "" && Revised(t, dto).name == dto.name
    ensures Revised(t, dto).subdomain != t.subdomain <==> dto.subdomain != "" && dto.subdomain != t.subdomain
    ensures Revised(t, dto).subdomain != t.subdomain ==> Revised(t, dto).subdomain == dto.subdomain
  {
  }

  /** The table without the tenant at position k. */
  function RemoveAt(ts: seq<Tenant>, k: nat): seq<Tenant>
    requires k < |ts|
  {
    ts[..k] + ts[k + 1..]
  }

  /** The users whose tenant is not id, in order: what the cascade delete leaves. */
  function UsersOutside(us: seq<User>, id: Guid): (r: seq<User>)
    ensures |r| <= |us|
  {
    if us == [] then []
    else (if us[0].tenantId != id then [us[0]] else []) + UsersOutside(us[1..], id)
  }

  /** The cascade keeps exactly the users of other tenants. */
  lemma {:induction false} UsersOutsideSpec(us: seq<User>, id: Guid)
    ensures forall u :: u in UsersOutside(us, id) <==> u in us && u.tenantId != id
  {
    if us != [] {
      UsersOutsideSpec(us[1..], id);
      assert forall u :: u in us <==> u == us[0] || u in us[1..];
    }
  }

  /** Removing the tenant with key id from a table with distinct keys removes exactly it. */
  lemma RemoveAtSpec(ts: seq<Tenant>, k: nat)
    requires k < |ts| && TenantIdsDistinct(ts)
    ensures |RemoveAt(ts, k)| == |ts| - 1
    ensures forall t :: t in RemoveAt(ts, k) <==> t in ts && t.id != ts[k].id
  {
    var r := RemoveAt(ts, k);
    forall t | t in ts && t.id != ts[k].id
      ensures t in r
    {
      var j :| 0 <= j < |ts| && ts[j] == t;
      if j < k { assert r[j] == t; } else { assert r[j - 1] == t; }
    }
    forall t | t in r
      ensures t in ts && t.id != ts[k].id
    {
      var j :| 0 <= j < |r| && r[j] == t;
      if j < k { assert t == ts[j]; } else { assert t == ts[j + 1]; }
    }
  }

  /** Replacing a tenant by one with the same key keeps the table valid. */
  lemma ReplaceKeepsValid(ts: seq<Tenant>, us: seq<User>, k: nat, t: Tenant, next: nat)
    requires k < |ts| && t.id == ts[k].id
    requires TenantIdsDistinct(ts) && UsersHaveTenants(ts, us)
    requires TenantIdsBelow(ts, next)
    ensures TenantIdsDistinct(ts[k := t]) && UsersHaveTenants(ts[k := t], us)
    ensures TenantIdsBelow(ts[k := t], next)
  {
    forall i | 0 <= i < |us|
      ensures HasTenant(ts[k := t], us[i].tenantId)
    {
      var j :| 0 <= j < |ts| && ts[j].id == us[i].tenantId;
      assert ts[k := t][j].id == ts[j].id;
    }
  }

  /** Removing a tenant keeps the keys distinct and below next. */
  lemma RemoveAtKeepsKeys(ts: seq<Tenant>, k: nat, next: nat)
    requires k < |ts| && TenantIdsDistinct(ts) && TenantIdsBelow(ts, next)
    ensures TenantIdsDistinct(RemoveAt(ts, k)) && TenantIdsBelow(RemoveAt(ts, k), next)
  {
    var ts' := RemoveAt(ts, k);
    forall i, j | 0 <= i < j < |ts'|
      ensures ts'[i].id != ts'[j].id
    {
      var i0 := if i < k then i else i + 1;
      var j0 := if j < k then j else j + 1;
      assert ts'[i] == ts[i0] && ts'[j] == ts[j0] && i0 < j0;
    }
    forall i | 0 <= i < |ts'|
      ensures ts'[i].id < next
    {
      assert ts'[i] == ts[if i < k then i else i + 1];
    }
  }

  /** The users left by the cascade still have their tenants after the removal. */
  lemma CascadeKeepsForeignKey(ts: seq<Tenant>, us: seq<User>, k: nat)
    requires k < |ts| && TenantIdsDistinct(ts) && UsersHaveTenants(ts, us)
    ensures UsersHaveTenants(RemoveAt(ts, k), UsersOutside(us, ts[k].id))
  {
    var ts', us' := RemoveAt(ts, k), UsersOutside(us, ts[k].id);
    RemoveAtSpec(ts, k);
    UsersOutsideSpec(us, ts[k].id);
    forall i | 0 <= i < |us'|
      ensures HasTenant(ts', us'[i].tenantId)
    {
      assert us'[i] in us';
      var m :| 0 <= m < |us| && us[m] == us'[i];
      var j :| 0 <= j < |ts| && ts[j].id == us[m].tenantId;
      assert ts[j] in ts';
      var j' :| 0 <= j' < |ts'| && ts'[j'] == ts[j];
    }
  }

  /** The cascade keeps user keys below next. */
  lemma CascadeKeepsBelow(us: seq<User>, id: Guid, next: nat)
    requires UserIdsBelow(us, next)
    ensures UserIdsBelow(UsersOutside(us, id), next)
  {
    var us' := UsersOutside(us, id);
    UsersOutsideSpec(us, id);
    forall i | 0 <= i < |us'|
      ensures us'[i].id < next
    {
      assert us'[i] in us';
      var m :| 0 <= m < |us| && us[m] == us'[i];
    }
  }

  /** The cascade keeps user keys distinct. */
  lemma {:induction false} UsersOutsideDistinct(us: seq<User>, id: Guid)
    requires UserIdsDistinct(us)
    ensures UserIdsDistinct(UsersOutside(us, id))
  {
    if us != [] {
      assert UserIdsDistinct(us[1..]) by {
        forall i, j | 0 <= i < j < |us[1..]|
          ensures us[1..][i].id != us[1..][j].id
        {
          assert us[1..][i] == us[i + 1] && us[1..][j] == us[j + 1];
        }
      }
      UsersOutsideDistinct(us[1..], id);
      UsersOutsideSpec(us[1..], id);
      var rest := UsersOutside(us[1..], id);
      if us[0].tenantId != id {
        var r := [us[0]] + rest;
        forall j | 1 <= j < |r|
          ensures r[0].id != r[j].id
        {
          assert r[j] in rest;
          var m :| 1 <= m < |us| && us[m] == r[j];
        }
      }
    }
  }

  /** POST: a valid, untaken subdomain creates a tenant with a fresh key at time now. */
  method CreateTenant(db: Data.AppDb, dto: TenantDto, now: int) returns (a: TenantAnswer)
    requires db.Valid()
    modifies db
    ensures db.Valid()
    ensures db.users == old(db.users) && db.tokens == old(db.tokens)
    ensures !IsValidSubdomainAsWritten(dto.subdomain) ==>
      a == BadRequest(InvalidSubdomainMessage) && db.tenants == old(db.tenants)
    ensures IsValidSubdomainAsWritten(dto.subdomain) && HasSubdomain(old(db.tenants), dto.subdomain) ==>
      a == Conflict(TakenMessage) && db.tenants == old(db.tenants)
    ensures IsValidSubdomainAsWritten(dto.subdomain) && !HasSubdomain(old(db.tenants), dto.subdomain) ==>
      && a.Created? && db.tenants == old(db.tenants) + [a.tenant]
      && a.tenant.name == dto.name && a.tenant.subdomain == dto.subdomain && a.tenant.createdAt == now
      && !HasTenant(old(db.tenants), a.tenant.id)
  {
    if !IsValidSubdomainAsWritten(dto.subdomain) {
      return BadRequest(InvalidSubdomainMessage);
    }
    if HasSubdomain(db.tenants, dto.subdomain) {
      return Conflict(TakenMessage);
    }
    var id := db.NewGuid();
    var tenant := Tenant(id, dto.name, dto.subdomain, now);
    TenantService.AppendTenantValid(db.tenants, db.users, tenant, db.nextGuid);
    db.tenants := db.tenants + [tenant];
    a := Created(tenant);
  }

  /** PUT: the name and subdomain rules of the update; nothing is stored unless every check
      passes, a name change included. */
  method UpdateTenant(db: Data.AppDb, id: Guid, dto: TenantDto) returns (a: TenantAnswer)
    requires db.Valid()
    modifies db
    ensures db.Valid()
    ensures db.users == old(db.users) && db.tokens == old(db.tokens) && db.nextGuid == old(db.nextGuid)
    ensures a != NoContent ==> db.tenants == old(db.tenants)
    ensures !HasTenant(old(db.tenants), id) ==> a == NotFound
    ensures HasTenant(old(db.tenants), id) ==>
      var k := TenantService.IndexOfId(old(db.tenants), id);
      var t := old(db.tenants)[k];
      var changes := dto.subdomain != "" && dto.subdomain != t.subdomain;
      && (changes && !IsValidSubdomainAsWritten(dto.subdomain) ==> a == BadRequest(InvalidSubdomainMessage))
      && (changes && IsValidSubdomainAsWritten(dto.subdomain) && HeldByOther(old(db.tenants), dto.subdomain, id) ==>
            a == Conflict(TakenMessage))
      && (!changes || (IsValidSubdomainAsWritten(dto.subdomain) && !HeldByOther(old(db.tenants), dto.subdomain, id)) ==>
            a == NoContent && db.tenants == old(db.tenants)[k := Revised(t, dto)])
  {
    var k := TenantService.IndexOfId(db.tenants, id);
    if k == |db.tenants| {
      return NotFound;
    }
    var tenant := db.tenants[k];
    if dto.name != "" {
      tenant := tenant.(name := dto.name);
    }
    if dto.subdomain != "" && dto.subdomain != tenant.subdomain {
      if !IsValidSubdomainAsWritten(dto.subdomain) {
        return BadRequest(InvalidSubdomainMessage);
      }
      if HeldByOther(db.tenants, dto.subdomain, id) {
        return Conflict(TakenMessage);
      }
      tenant := tenant.(subdomain := dto.subdomain);
    }
    ReplaceKeepsValid(db.tenants, db.users, k, tenant, db.nextGuid);
    db.tenants := db.tenants[k := tenant];
    a := NoContent;
  }

  /** DELETE: removes the tenant with that key and, by the cascade, its users. */
  method DeleteTenant(db: Data.AppDb, id: Guid) returns (a: TenantAnswer)
    requires db.Valid()
    modifies db
    ensures db.Valid()
    ensures db.tokens == old(db.tokens) && db.nextGuid == old(db.nextGuid)
    ensures !HasTenant(old(db.tenants), id) ==>
      a == NotFound && db.tenants == old(db.tenants) && db.users == old(db.users)
    ensures HasTenant(old(db.tenants), id) ==>
      && a == NoContent
      && db.tenants == RemoveAt(old(db.tenants), TenantService.IndexOfId(old(db.tenants), id))
      && db.users == UsersOutside(old(db.users), id)
      && (forall t :: t in db.tenants <==> t in old(db.tenants) && t.id != id)
      && (forall u :: u in db.users <==> u in old(db.users) && u.tenantId != id)
  {
    var k := TenantService.IndexOfId(db.tenants, id);
    if k == |db.tenants| {
      return NotFound;
    }
    RemoveAtKeepsKeys(db.tenants, k, db.nextGuid);
    CascadeKeepsForeignKey(db.tenants, db.users, k);
    CascadeKeepsBelow(db.users, id, db.nextGuid);
    UsersOutsideDistinct(db.users, id);
    RemoveAtSpec(db.tenants, k);
    UsersOutsideSpec(db.users, id);
    db.tenants, db.users := RemoveAt(db.tenants, k), UsersOutside(db.users, id);
    a := NoContent;
  }
}
