/** AppDbContext: the three tables the services read and write, held as sequences in
    insertion order, and the source of fresh Guid keys. */
module Data {
  import opened Models

  class AppDb {
    var tokens: seq<OAuthToken>
    var tenants: seq<Tenant>
    var users: seq<User>
    /** Every key handed out so far is below nextGuid. */
    var nextGuid: nat

    /** Keys are unique, every user's tenant exists (the foreign key whose cascade delete is
        configured in AppDbContext), and token ids follow the identity column. */
    predicate Valid()
      reads this
    {
      && TenantIdsDistinct(tenants)
      && UserIdsDistinct(users)
      && UsersHaveTenants(tenants, users)
      && TenantIdsBelow(tenants, nextGuid)
      && UserIdsBelow(users, nextGuid)
      && TokensNumbered(tokens)
    }

    constructor ()
      ensures Valid()
      ensures tokens == [] && tenants == [] && users == []
    {
      tokens, tenants, users, nextGuid := [], [], [], 0;
    }

    /** Guid.NewGuid: a key no stored row holds and that is never handed out again. */
    method NewGuid() returns (g: Guid)
      requires Valid()
      modifies this
      ensures Valid()
      ensures g == old(nextGuid) && nextGuid == g + 1
      ensures tokens == old(tokens) && tenants == old(tenants) && users == old(users)
      ensures forall i :: 0 <= i < |tenants| ==> tenants[i].id < g
      ensures forall i :: 0 <= i < |users| ==> users[i].id < g
    {
      g := nextGuid;
      nextGuid := nextGuid + 1;
    }
  }
}
