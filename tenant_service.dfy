/** TenantService: lookups of the tenant table by subdomain (lower-cased first) and by id,
    the availability test, and the creation of a tenant without any check. */
module TenantService {
  import opened Wrappers
  import opened Models
  import Text
  import Data

  /** The position of the first tenant whose subdomain is sub, or |ts| when there is none. */
  function IndexOfSubdomain(ts: seq<Tenant>, sub: string): (k: nat)
    ensures k <= |ts|
    ensures k < |ts| ==> ts[k].subdomain == sub
    ensures forall i :: 0 <= i < k ==> ts[i].subdomain != sub
  {
    if ts == [] then 0
    else if ts[0].subdomain == sub then 0
    else 1 + IndexOfSubdomain(ts[1..], sub)
  }

  /** The position of the first tenant with key id, or |ts| when there is none. */
  function IndexOfId(ts: seq<Tenant>, id: Guid): (k: nat)
    ensures k <= |ts|
    ensures k < |ts| ==> ts[k].id == id
    ensures forall i :: 0 <= i < k ==> ts[i].id != id
  {
    if ts == [] then 0
    else if ts[0].id == id then 0
    else 1 + IndexOfId(ts[1..], id)
  }

  /** GetTenantBySubdomainAsync. */
  function GetTenantBySubdomain(ts: seq<Tenant>, subdomain: string): Option<Tenant> {
    var k := IndexOfSubdomain(ts, Text.ToLower(subdomain));
    if k < |ts| then Some(ts[k]) else None
  }

  /** GetTenantByIdAsync. */
  function GetTenantById(ts: seq<Tenant>, id: Guid): Option<Tenant> {
    var k := IndexOfId(ts, id);
    if k < |ts| then Some(ts[k]) else None
  }

  /** IsSubdomainAvailableAsync: no stored subdomain equals the lower-cased argument. */
  predicate IsSubdomainAvailable(ts: seq<Tenant>, subdomain: string) {
    forall i :: 0 <= i < |ts| ==> ts[i].subdomain != Text.ToLower(subdomain)
  }

  /** The subdomain lookup finds a stored tenant whose subdomain is the lower-cased argument,
      and finds none exactly when the subdomain is available. */
  lemma GetTenantBySubdomainSpec(ts: seq<Tenant>, subdomain: string)
    ensures var r := GetTenantBySubdomain(ts, subdomain);
      && (r.Some? ==> r.value in ts && r.value.subdomain == Text.ToLower(subdomain))
      && (r.None? <==> IsSubdomainAvailable(ts, subdomain))
  {
  }

  /** The id lookup finds the stored tenant with that key, and none when there is none. */
  lemma GetTenantByIdSpec(ts: seq<Tenant>, id: Guid)
    ensures var r := GetTenantById(ts, id);
      && (r.Some? ==> r.value in ts && r.value.id == id)
      && (r.None? <==> !HasTenant(ts, id))
  {
  }

  /** The lookups ignore ASCII case: a subdomain and its lower-case form answer alike. */
  lemma LookupIgnoresCase(ts: seq<Tenant>, subdomain: string)
    ensures GetTenantBySubdomain(ts, Text.ToLower(subdomain)) == GetTenantBySubdomain(ts, subdomain)
    ensures IsSubdomainAvailable(ts, Text.ToLower(subdomain)) == IsSubdomainAvailable(ts, subdomain)
  {
    Text.ToLowerIdempotent(subdomain);
  }

  /** Once a tenant holding lower(s) is stored, s is no longer available and its lookup succeeds. */
  lemma CreatedIsTaken(ts: seq<Tenant>, t: Tenant, subdomain: string)
    requires t.subdomain == Text.ToLower(subdomain)
    ensures !IsSubdomainAvailable(ts + [t], subdomain)
    ensures GetTenantBySubdomain(ts + [t], subdomain).Some?
  {
    assert (ts + [t])[|ts|] == t;
  }

  /** Appending a tenant with a key below none of the stored ones keeps the table valid. */
  lemma AppendTenantValid(ts: seq<Tenant>, us: seq<User>, t: Tenant, next: nat)
    requires TenantIdsDistinct(ts) && UsersHaveTenants(ts, us)
    requires forall i :: 0 <= i < |ts| ==> ts[i].id < t.id
    requires t.id < next
    requires TenantIdsBelow(ts, next)
    ensures TenantIdsDistinct(ts + [t]) && UsersHaveTenants(ts + [t], us)
    ensures TenantIdsBelow(ts + [t], next)
  {
    var ts' := ts + [t];
    forall i | 0 <= i < |us|
      ensures HasTenant(ts', us[i].tenantId)
    {
      var j :| 0 <= j < |ts| && ts[j].id == us[i].tenantId;
      assert ts'[j] == ts[j];
    }
  }

  /** CreateTenantAsync at time now: appends a tenant with a fresh key, the given name and
      the lower-cased subdomain; nothing is checked first. */
  method CreateTenant(db: Data.AppDb, name: string, subdomain: string, now: int) returns (t: Tenant)
    requires db.Valid()
    modifies db
    ensures db.Valid()
    ensures db.tenants == old(db.tenants) + [t]
    ensures t.name == name && t.subdomain == Text.ToLower(subdomain) && t.createdAt == now
    ensures !HasTenant(old(db.tenants), t.id)
    ensures db.users == old(db.users) && db.tokens == old(db.tokens)
  {
    var id := db.NewGuid();
    t := Tenant(id, name, Text.ToLower(subdomain), now);
    AppendTenantValid(db.tenants, db.users, t, db.nextGuid);
    db.tenants := db.tenants + [t];
  }
}
