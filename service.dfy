/** The service as the program runs it: one store object whose collections the route
    handlers update in place, one storage call at a time, returning as soon as a
    check raises. Each handler is proved to leave the store exactly as the matching
    function of `Registry` describes, and to keep the store invariant. */
module Service {
  import opened Common
  import opened Sanitizer
  import opened Tokens
  import opened Registry
  import opened RegistryInvariant

  class OrgStore {
    /** The `organizations` collection. */
    var orgs: seq<Organization>
    /** The `admins` collection. */
    var admins: seq<Admin>
    /** The per-organization partitions, by collection name. */
    var partitions: map<string, seq<Marker>>
    /** The next unused document identifier. */
    var nextId: Id

    /** The store as one value. */
    function Model(): State
      reads this
    {
      State(orgs, admins, partitions, nextId)
    }

    ghost predicate Valid()
      reads this
    {
      Inv(Model())
    }

    /** A fresh, empty master database. */
    constructor ()
      ensures Valid() && Model() == Empty()
    {
      orgs, admins, partitions, nextId := [], [], map[], 0;
    }

    /** `POST /org/create`. */
    method CreateOrg(req: CreateOrgRequest, passwordHash: Bytes, now: int) returns (r: Outcome<OrgSummary>)
      requires Valid()
      modifies this
      ensures Valid()
      ensures Step(Model(), r) == Registry.CreateOrg(old(Model()), req, passwordHash, now)
    {
      ghost var s0 := Model();
      r := CreateRecord(req, passwordHash, now);
      CreateOrgPreservesInv(s0, req, passwordHash, now);
    }

    /** The body of `create_org`: both uniqueness checks, then the three inserts. */
    method CreateRecord(req: CreateOrgRequest, passwordHash: Bytes, now: int) returns (r: Outcome<OrgSummary>)
      modifies this
      ensures Step(Model(), r) == Registry.CreateOrg(old(Model()), req, passwordHash, now)
    {
      if FindOrg(orgs, ByName(req.organizationName)).Some? {
        return Err(400, "Organization name already exists");
      }
      if FindAdmin(admins, ByEmail(req.email)).Some? {
        return Err(400, "Admin email already used");
      }
      var adminId := nextId;
      admins := admins + [Admin(adminId, req.email, passwordHash, now)];
      nextId := nextId + 1;
      var collectionName := OrgCollectionName(req.organizationName);
      partitions := partitions[collectionName := PartitionOf(partitions, collectionName) + [Marker(CollectionCreated, now)]];
      var orgId := nextId;
      orgs := orgs + [Organization(orgId, req.organizationName, collectionName, adminId, now)];
      nextId := nextId + 1;
      r := Ok(OrgSummary(orgId, req.organizationName, collectionName));
    }

    /** `GET /org/get`. */
    method GetOrg(name: string) returns (r: Outcome<Organization>)
      ensures r == Registry.GetOrg(Model(), name)
      ensures r.Ok? <==> exists j :: 0 <= j < |orgs| && orgs[j].name == name
      ensures r.Ok? ==> r.value in orgs && r.value.name == name
      ensures r.Err? ==> r == Err(404, "Organization not found")
    {
      var found := FindOrg(orgs, ByName(name));
      if found.None? {
        return Err(404, "Organization not found");
      }
      r := Ok(orgs[found.value]);
    }

    /** `PUT /org/update`, with the bearer-token dependency resolved first. */
    method UpdateOrg(authorization: string, now: int, verify: string -> Option<Claims>,
                     req: UpdateOrgRequest, passwordHash: Bytes) returns (r: Outcome<string>)
      requires Valid()
      modifies this
      ensures Valid()
      ensures var auth := GetCurrentAdmin(authorization, now, verify);
        if auth.Err? then Model() == old(Model()) && r == Err(auth.status, auth.detail)
        else Step(Model(), r) == Registry.UpdateOrg(old(Model()), req, passwordHash)
    {
      var auth := GetCurrentAdmin(authorization, now, verify);
      if auth.Err? {
        return Err(auth.status, auth.detail);
      }
      ghost var s0 := Model();
      r := UpdateRecord(req, passwordHash);
      UpdateOrgPreservesInv(s0, req, passwordHash);
    }

    /** The body of `update_org`: find the record, apply the credential changes, then
        the rename. */
    method UpdateRecord(req: UpdateOrgRequest, passwordHash: Bytes) returns (r: Outcome<string>)
      modifies this
      ensures Step(Model(), r) == Registry.UpdateOrg(old(Model()), req, passwordHash)
    {
      var found := FindOrg(orgs, ByName(req.organizationName));
      if found.None? {
        return Err(404, "Organization not found");
      }
      var existing := orgs[found.value];
      var cred := UpdateAdminCredentials(existing.adminId, req.email, req.password, passwordHash);
      if cred.Err? {
        return Err(cred.status, cred.detail);
      }
      r := RenameRecord(existing, Strip(req.organizationName));
    }

    /** The credential part of `update_org` for the record's administrator. */
    method UpdateAdminCredentials(adminId: Id, email: Option<string>, password: Option<string>, passwordHash: Bytes)
      returns (r: Outcome<()>)
      modifies this
      ensures Step(Model(), r) == UpdateCredentials(old(Model()), adminId, email, password, passwordHash)
    {
      if Truthy(email) || Truthy(password) {
        if FindAdmin(admins, ByAdminId(adminId)).None? {
          return Err(500, "Admin referenced not found");
        }
        if Truthy(email) {
          if FindAdmin(admins, ByEmailExcept(email.value, adminId)).Some? {
            return Err(400, "Email already in use");
          }
          admins := SetAdminEmail(admins, adminId, email.value);
        }
        if Truthy(password) {
          admins := SetAdminPasswordHash(admins, adminId, passwordHash);
        }
      }
      r := Ok(());
    }

    /** The rename part of `update_org`: the staged `updates` are written to the
        record only once the partition has been renamed. */
    method RenameRecord(existing: Organization, newName: string) returns (r: Outcome<string>)
      modifies this
      ensures Step(Model(), r) == RenameOrg(old(Model()), existing, newName)
    {
      var updates: Option<OrgUpdate> := None;
      if newName != existing.name {
        if FindOrg(orgs, ByName(newName)).Some? {
          return Err(400, "Target organization name already exists");
        }
        var oldCollection := existing.collectionName;
        var newCollection := OrgCollectionName(newName);
        var failure := RenameFailure(partitions, oldCollection, newCollection);
        if failure.Some? {
          return Err(500, "Failed renaming collection: " + failure.value);
        }
        partitions := RenamePartition(partitions, oldCollection, newCollection);
        updates := Some(OrgUpdate(newName, newCollection));
      }
      if updates.Some? {
        orgs := SetOrgFields(orgs, existing.id, updates.value);
      }
      r := Ok(UpdatedMessage);
    }

    /** `DELETE /org/delete`, with the bearer-token dependency resolved first. */
    method DeleteOrg(authorization: string, now: int, verify: string -> Option<Claims>,
                     name: string) returns (r: Outcome<string>)
      requires Valid()
      modifies this
      ensures Valid()
      ensures var auth := GetCurrentAdmin(authorization, now, verify);
        if auth.Err? then Model() == old(Model()) && r == Err(auth.status, auth.detail)
        else Step(Model(), r) == Registry.DeleteOrg(old(Model()), name, auth.value)
    {
      var auth := GetCurrentAdmin(authorization, now, verify);
      if auth.Err? {
        return Err(auth.status, auth.detail);
      }
      ghost var s0 := Model();
      r := DeleteRecord(name, auth.value);
      DeleteOrgPreservesInv(s0, name, auth.value);
    }

    /** The body of `delete_org` for a caller with claims `admin`. */
    method DeleteRecord(name: string, admin: Claims) returns (r: Outcome<string>)
      modifies this
      ensures Step(Model(), r) == Registry.DeleteOrg(old(Model()), name, admin)
    {
      var found := FindOrg(orgs, ByName(name));
      if found.None? {
        return Err(404, "Organization not found");
      }
      var existing := orgs[found.value];
      var adminOrgId := admin.payload.orgId;
      if adminOrgId.Some? && adminOrgId.value != existing.id {
        return Err(403, "Not authorized to delete this organization");
      }
      partitions := partitions - {existing.collectionName};
      admins := DeleteAdminById(admins, existing.adminId);
      orgs := DeleteOrgById(orgs, existing.id);
      r := Ok(DeletedMessage);
    }

    /** `POST /admin/login`. `checkpw` is the password check and `ttl` is `JWT_EXP`. */
    method AdminLogin(req: AdminLoginRequest, checkpw: (string, Bytes) -> bool, now: int, ttl: int)
      returns (r: Outcome<Claims>)
      ensures r == Registry.AdminLogin(Model(), req, checkpw, now, ttl)
      ensures r.Err? ==> r == Err(401, "Invalid credentials")
      ensures r.Ok? ==> r.value.exp == now + ttl && r.value.payload.email == req.email
    {
      var found := FindAdmin(admins, ByEmail(req.email));
      if found.None? {
        return Err(401, "Invalid credentials");
      }
      var admin := admins[found.value];
      if !checkpw(req.password, admin.passwordHash) {
        return Err(401, "Invalid credentials");
      }
      var org := FindOrg(orgs, ByAdminRef(admin.id));
      var payload := Payload(admin.id, if org.Some? then Some(orgs[org.value].id) else None, admin.email);
      r := Ok(CreateJwt(payload, now, ttl));
    }
  }
}
