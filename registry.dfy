/** The tenant registry and the provisioning handlers as functions over one value of
    the whole store. The store stands in for the master database: the `organizations`
    collection, the `admins` collection, and every per-organization partition. A
    collection is a sequence of documents in insertion order, and a lookup
    (`find_one`) returns the first document its filter matches. */
module Registry {
  import opened Common
  import opened Sanitizer
  import opened Tokens

  /** A bcrypt hash: opaque bytes with the salt embedded. */
  type Bytes = seq<bv8>

  /** A document of the `admins` collection. */
  datatype Admin = Admin(id: Id, email: string, passwordHash: Bytes, createdAt: int)

  /** A document of the `organizations` collection (the registry record). */
  datatype Organization = Organization(id: Id, name: string, collectionName: string, adminId: Id, createdAt: int)

  /** The creation marker `{"_meta": ..., "created_at": ...}` written into a new partition. */
  datatype Marker = Marker(meta: string, createdAt: int)

  /** The `_meta` value of a creation marker. */
  const CollectionCreated := "collection_created"

  /** The whole store; `nextId` is the source of fresh document identifiers. */
  datatype State = State(orgs: seq<Organization>, admins: seq<Admin>, partitions: map<string, seq<Marker>>, nextId: Id)

  /** A handler's effect: the store afterwards and the response. */
  datatype Step<T> = Step(state: State, outcome: Outcome<T>)

  /** Request bodies (after validation) and the record summary `create_org` returns. */
  datatype CreateOrgRequest = CreateOrgRequest(organizationName: string, email: string, password: string)
  datatype UpdateOrgRequest = UpdateOrgRequest(organizationName: string, email: Option<string>, password: Option<string>)
  datatype AdminLoginRequest = AdminLoginRequest(email: string, password: string)
  datatype OrgSummary = OrgSummary(id: Id, organizationName: string, collectionName: string)

  /** The fields `update_org` stages for its single registry write. */
  datatype OrgUpdate = OrgUpdate(organizationName: string, collectionName: string)

  const UpdatedMessage := "Organization updated"
  const DeletedMessage := "Organization deleted"

  /** The query filters the handlers send to the `organizations` collection. */
  datatype OrgFilter = ByName(name: string) | ByOrgId(id: Id) | ByAdminRef(adminId: Id)
  {
    predicate Matches(o: Organization)
    {
      match this
      case ByName(n) => o.name == n
      case ByOrgId(i) => o.id == i
      case ByAdminRef(a) => o.adminId == a
    }
  }

  /** The query filters the handlers send to the `admins` collection;
      `ByEmailExcept` is `{"email": e, "_id": {"$ne": id}}`. */
  datatype AdminFilter = ByEmail(email: string) | ByAdminId(id: Id) | ByEmailExcept(other: string, except: Id)
  {
    predicate Matches(a: Admin)
    {
      match this
      case ByEmail(e) => a.email == e
      case ByAdminId(i) => a.id == i
      case ByEmailExcept(e, i) => a.email == e && a.id != i
    }
  }

  /** `orgs_col.find_one(filter)`: the position of the first matching record. */
  function FindOrg(orgs: seq<Organization>, f: OrgFilter): (r: Option<nat>)
    ensures r.Some? ==> r.value < |orgs| && f.Matches(orgs[r.value])
    ensures r.Some? ==> forall j :: 0 <= j < r.value ==> !f.Matches(orgs[j])
    ensures r.None? <==> forall j :: 0 <= j < |orgs| ==> !f.Matches(orgs[j])
  {
    Find(orgs, o => f.Matches(o))
  }

  /** `admins_col.find_one(filter)`: the position of the first matching administrator. */
  function FindAdmin(admins: seq<Admin>, f: AdminFilter): (r: Option<nat>)
    ensures r.Some? ==> r.value < |admins| && f.Matches(admins[r.value])
    ensures r.Some? ==> forall j :: 0 <= j < r.value ==> !f.Matches(admins[j])
    ensures r.None? <==> forall j :: 0 <= j < |admins| ==> !f.Matches(admins[j])
  {
    Find(admins, a => f.Matches(a))
  }

  /** The sequence without its element at position `i` (`delete_one` of that document). */
  function RemoveAt<T>(s: seq<T>, i: nat): (r: seq<T>)
    requires i < |s|
    ensures |r| == |s| - 1
    ensures forall j :: 0 <= j < i ==> r[j] == s[j]
    ensures forall j :: i <= j < |r| ==> r[j] == s[j + 1]
  {
    s[..i] + s[i + 1..]
  }

  /** The documents of a partition; a partition nobody has written to is empty. */
  function PartitionOf(parts: map<string, seq<Marker>>, name: string): seq<Marker>
  {
    if name in parts then parts[name] else []
  }

  /** Why the storage engine refuses `rename(target)` on partition `source`, if it does:
      the source must exist, differ from the target, and the target must not exist. */
  function RenameFailure(parts: map<string, seq<Marker>>, source: string, target: string): (r: Option<string>)
    ensures r.None? <==> source in parts && target !in parts
  {
    if source !in parts then Some("source namespace does not exist")
    else if source == target then Some("Can't rename a collection to itself")
    else if target in parts then Some("target namespace exists")
    else None
  }

  /** The partitions after a successful rename: the documents move to the new name. */
  function RenamePartition(parts: map<string, seq<Marker>>, source: string, target: string): (r: map<string, seq<Marker>>)
    requires source in parts && target !in parts
    ensures r.Keys == parts.Keys - {source} + {target}
    ensures r[target] == parts[source]
    ensures forall n :: n in parts && n != source ==> n in r && r[n] == parts[n]
  {
    (parts - {source})[target := parts[source]]
  }

  /** `admins_col.update_one({"_id": id}, {"$set": {"email": email}})`. */
  function SetAdminEmail(admins: seq<Admin>, id: Id, email: string): seq<Admin>
  {
    match FindAdmin(admins, ByAdminId(id))
    case None => admins
    case Some(k) => admins[k := admins[k].(email := email)]
  }

  /** `admins_col.update_one({"_id": id}, {"$set": {"password_hash": hash}})`. */
  function SetAdminPasswordHash(admins: seq<Admin>, id: Id, hash: Bytes): seq<Admin>
  {
    match FindAdmin(admins, ByAdminId(id))
    case None => admins
    case Some(k) => admins[k := admins[k].(passwordHash := hash)]
  }

  /** `orgs_col.update_one({"_id": id}, {"$set": updates})`. */
  function SetOrgFields(orgs: seq<Organization>, id: Id, u: OrgUpdate): seq<Organization>
  {
    match FindOrg(orgs, ByOrgId(id))
    case None => orgs
    case Some(i) => orgs[i := orgs[i].(name := u.organizationName, collectionName := u.collectionName)]
  }

  /** `admins_col.delete_one({"_id": id})`. */
  function DeleteAdminById(admins: seq<Admin>, id: Id): seq<Admin>
  {
    match FindAdmin(admins, ByAdminId(id))
    case None => admins
    case Some(k) => RemoveAt(admins, k)
  }

  /** `orgs_col.delete_one({"_id": id})`. */
  function DeleteOrgById(orgs: seq<Organization>, id: Id): seq<Organization>
  {
    match FindOrg(orgs, ByOrgId(id))
    case None => orgs
    case Some(i) => RemoveAt(orgs, i)
  }

  // ---------------------------------------------------------------------------
  // The store invariant

  /** Every identifier in use was handed out by the counter. */
  ghost predicate IdsIssued(orgs: seq<Organization>, admins: seq<Admin>, nextId: Id)
  {
    && (forall i :: 0 <= i < |orgs| ==> orgs[i].id < nextId)
    && (forall i :: 0 <= i < |admins| ==> admins[i].id < nextId)
  }

  /** The registry invariant: each record's partition name is derived from its name. */
  ghost predicate RegistryConsistent(orgs: seq<Organization>)
  {
    forall i :: 0 <= i < |orgs| ==> orgs[i].collectionName == OrgCollectionName(orgs[i].name)
  }

  /** Record identifiers, names (the unique index) and administrator links are distinct. */
  ghost predicate UniqueOrgs(orgs: seq<Organization>)
  {
    forall i, j :: 0 <= i < j < |orgs| ==>
      orgs[i].id != orgs[j].id && orgs[i].name != orgs[j].name && orgs[i].adminId != orgs[j].adminId
  }

  /** Administrator identifiers and e-mail addresses are distinct. */
  ghost predicate UniqueAdmins(admins: seq<Admin>)
  {
    forall i, j :: 0 <= i < j < |admins| ==>
      admins[i].id != admins[j].id && admins[i].email != admins[j].email
  }

  /** Some administrator has identifier `id`. */
  ghost predicate HasAdmin(admins: seq<Admin>, id: Id)
  {
    exists k :: 0 <= k < |admins| && admins[k].id == id
  }

  /** Every record's administrator exists. */
  ghost predicate AdminsLinked(orgs: seq<Organization>, admins: seq<Admin>)
  {
    forall i :: 0 <= i < |orgs| ==> HasAdmin(admins, orgs[i].adminId)
  }

  ghost predicate Inv(s: State)
  {
    && IdsIssued(s.orgs, s.admins, s.nextId)
    && RegistryConsistent(s.orgs)
    && UniqueOrgs(s.orgs)
    && UniqueAdmins(s.admins)
    && AdminsLinked(s.orgs, s.admins)
  }

  /** The empty master database. */
  function Empty(): (s: State)
    ensures Inv(s)
  {
    State([], [], map[], 0)
  }

  // ---------------------------------------------------------------------------
  // The handlers

  /** `create_org`. `passwordHash` is the output of `hash_password(req.password)`
      and `now` is the clock reading used for every `created_at`. */
  function CreateOrg(s: State, req: CreateOrgRequest, passwordHash: Bytes, now: int): Step<OrgSummary>
  {
    if FindOrg(s.orgs, ByName(req.organizationName)).Some? then
      Step(s, Err(400, "Organization name already exists"))
    else if FindAdmin(s.admins, ByEmail(req.email)).Some? then
      Step(s, Err(400, "Admin email already used"))
    else
      var adminId := s.nextId;
      var collectionName := OrgCollectionName(req.organizationName);
      var orgId := s.nextId + 1;
      var admins := s.admins + [Admin(adminId, req.email, passwordHash, now)];
      var parts := s.partitions[collectionName := PartitionOf(s.partitions, collectionName) + [Marker(CollectionCreated, now)]];
      var orgs := s.orgs + [Organization(orgId, req.organizationName, collectionName, adminId, now)];
      Step(State(orgs, admins, parts, s.nextId + 2), Ok(OrgSummary(orgId, req.organizationName, collectionName)))
  }

  /** `get_org`: the record with this exact name, or 404. */
  function GetOrg(s: State, name: string): (r: Outcome<Organization>)
    ensures r.Ok? <==> exists j :: 0 <= j < |s.orgs| && s.orgs[j].name == name
    ensures r.Ok? ==> r.value in s.orgs && r.value.name == name
    ensures r.Err? ==> r == Err(404, "Organization not found")
  {
    match FindOrg(s.orgs, ByName(name))
    case None => Err(404, "Organization not found")
    case Some(i) => Ok(s.orgs[i])
  }

  /** The credential part of `update_org` for the record's administrator `adminId`:
      only when an e-mail or a password is supplied, load the administrator, refuse an
      e-mail another administrator uses, then write the e-mail and the password hash. */
  function UpdateCredentials(s: State, adminId: Id, email: Option<string>, password: Option<string>,
                             passwordHash: Bytes): Step<()>
  {
    if !(Truthy(email) || Truthy(password)) then Step(s, Ok(()))
    else if FindAdmin(s.admins, ByAdminId(adminId)).None? then
      Step(s, Err(500, "Admin referenced not found"))
    else if Truthy(email) && FindAdmin(s.admins, ByEmailExcept(email.value, adminId)).Some? then
      Step(s, Err(400, "Email already in use"))
    else
      var admins1 := if Truthy(email) then SetAdminEmail(s.admins, adminId, email.value) else s.admins;
      var admins2 := if Truthy(password) then SetAdminPasswordHash(admins1, adminId, passwordHash) else admins1;
      Step(s.(admins := admins2), Ok(()))
  }

  /** The administrator document after the credential writes of `update_org`. */
  function WithCredentials(a: Admin, email: Option<string>, password: Option<string>, passwordHash: Bytes): Admin
  {
    a.(email := if Truthy(email) then email.value else a.email,
       passwordHash := if Truthy(password) then passwordHash else a.passwordHash)
  }

  /** The rename part of `update_org` for record `existing` and the stripped request
      name `newName`. */
  function RenameOrg(s: State, existing: Organization, newName: string): Step<string>
  {
    if newName == existing.name then Step(s, Ok(UpdatedMessage))
    else if FindOrg(s.orgs, ByName(newName)).Some? then
      Step(s, Err(400, "Target organization name already exists"))
    else
      var newCollection := OrgCollectionName(newName);
      match RenameFailure(s.partitions, existing.collectionName, newCollection)
      case Some(reason) => Step(s, Err(500, "Failed renaming collection: " + reason))
      case None =>
        var parts := RenamePartition(s.partitions, existing.collectionName, newCollection);
        var orgs := SetOrgFields(s.orgs, existing.id, OrgUpdate(newName, newCollection));
        Step(s.(orgs := orgs, partitions := parts), Ok(UpdatedMessage))
  }

  /** `update_org`: look the record up by the exact request name, apply the credential
      changes, then rename when the stripped request name differs from the stored one.
      The token the route demands plays no part. */
  function UpdateOrg(s: State, req: UpdateOrgRequest, passwordHash: Bytes): Step<string>
  {
    match FindOrg(s.orgs, ByName(req.organizationName))
    case None => Step(s, Err(404, "Organization not found"))
    case Some(i) =>
      var existing := s.orgs[i];
      var cred := UpdateCredentials(s, existing.adminId, req.email, req.password, passwordHash);
      if cred.outcome.Err? then Step(cred.state, Err(cred.outcome.status, cred.outcome.detail))
      else RenameOrg(cred.state, existing, Strip(req.organizationName))
  }

  /** `delete_org` for an authenticated caller with claims `admin`: 404 for an unknown
      name, 403 when the caller's organization claim is set and names another record;
      otherwise drop the partition, the administrator and the record. */
  function DeleteOrg(s: State, name: string, admin: Claims): Step<string>
  {
    match FindOrg(s.orgs, ByName(name))
    case None => Step(s, Err(404, "Organization not found"))
    case Some(i) =>
      var existing := s.orgs[i];
      if admin.payload.orgId.Some? && admin.payload.orgId.value != existing.id then
        Step(s, Err(403, "Not authorized to delete this organization"))
      else
        var parts := s.partitions - {existing.collectionName};
        var admins := DeleteAdminById(s.admins, existing.adminId);
        var orgs := DeleteOrgById(s.orgs, existing.id);
        Step(State(orgs, admins, parts, s.nextId), Ok(DeletedMessage))
  }

  /** The claims `admin_login` signs for administrator `a`: its identifier, the
      identifier of the first record linked to it (or none), and its e-mail. */
  function LoginPayload(s: State, a: Admin): Payload
  {
    var org := FindOrg(s.orgs, ByAdminRef(a.id));
    Payload(a.id, if org.Some? then Some(s.orgs[org.value].id) else None, a.email)
  }

  /** `admin_login`: an unknown e-mail and a wrong password give the same 401; on
      success, a token for the administrator expiring `ttl` seconds after `now`.
      `checkpw` is the password-verification primitive. */
  function AdminLogin(s: State, req: AdminLoginRequest, checkpw: (string, Bytes) -> bool, now: int, ttl: int): (r: Outcome<Claims>)
    ensures r.Err? ==> r == Err(401, "Invalid credentials")
    ensures (forall k :: 0 <= k < |s.admins| ==> s.admins[k].email != req.email) ==> r.Err?
    ensures r.Ok? ==> r.value.exp == now + ttl && r.value.payload.email == req.email
  {
    match FindAdmin(s.admins, ByEmail(req.email))
    case None => Err(401, "Invalid credentials")
    case Some(k) =>
      if !checkpw(req.password, s.admins[k].passwordHash) then Err(401, "Invalid credentials")
      else Ok(CreateJwt(LoginPayload(s, s.admins[k]), now, ttl))
  }
}
