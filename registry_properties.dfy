/** What the handlers promise: their error cases, what a successful call changes and
    what it leaves alone, and how the handlers combine. */
module RegistryProperties {
  import opened Common
  import opened Sanitizer
  import opened SanitizerProperties
  import opened Tokens
  import TokenProperties
  import opened Registry
  import opened RegistryInvariant

  // ---------------------------------------------------------------------------
  // Lookups under the uniqueness invariant

  /** With record names unique, the name lookup finds exactly the record that has it. */
  lemma FindOrgByUniqueName(orgs: seq<Organization>, j: nat)
    requires UniqueOrgs(orgs) && j < |orgs|
    ensures FindOrg(orgs, ByName(orgs[j].name)) == Some(j)
  {
    assert ByName(orgs[j].name).Matches(orgs[j]);
  }

  /** With record identifiers unique, the identifier lookup finds exactly that record. */
  lemma FindOrgByUniqueId(orgs: seq<Organization>, j: nat)
    requires UniqueOrgs(orgs) && j < |orgs|
    ensures FindOrg(orgs, ByOrgId(orgs[j].id)) == Some(j)
  {
    assert ByOrgId(orgs[j].id).Matches(orgs[j]);
  }

  /** With administrator links unique, the link lookup finds exactly the record that
      has it. */
  lemma FindOrgByUniqueAdminRef(orgs: seq<Organization>, j: nat)
    requires UniqueOrgs(orgs) && j < |orgs|
    ensures FindOrg(orgs, ByAdminRef(orgs[j].adminId)) == Some(j)
  {
    assert ByAdminRef(orgs[j].adminId).Matches(orgs[j]);
  }

  /** With administrator identifiers unique, the identifier lookup finds exactly that
      administrator. */
  lemma FindAdminByUniqueId(admins: seq<Admin>, k: nat)
    requires UniqueAdmins(admins) && k < |admins|
    ensures FindAdmin(admins, ByAdminId(admins[k].id)) == Some(k)
  {
    assert ByAdminId(admins[k].id).Matches(admins[k]);
  }

  /** With e-mail addresses unique, the e-mail lookup finds exactly that administrator. */
  lemma FindAdminByUniqueEmail(admins: seq<Admin>, k: nat)
    requires UniqueAdmins(admins) && k < |admins|
    ensures FindAdmin(admins, ByEmail(admins[k].email)) == Some(k)
  {
    assert ByEmail(admins[k].email).Matches(admins[k]);
  }

  /** A lookup that misses every old record and matches the appended one finds it. */
  lemma FindOrgAppended(orgs: seq<Organization>, o: Organization, f: OrgFilter)
    requires forall j :: 0 <= j < |orgs| ==> !f.Matches(orgs[j])
    requires f.Matches(o)
    ensures FindOrg(orgs + [o], f) == Some(|orgs|)
  {
    var t := orgs + [o];
    assert t[|orgs|] == o;
    forall j | 0 <= j < |orgs| ensures !f.Matches(t[j]) {
      assert t[j] == orgs[j];
    }
  }

  /** The same for administrators. */
  lemma FindAdminAppended(admins: seq<Admin>, a: Admin, f: AdminFilter)
    requires forall j :: 0 <= j < |admins| ==> !f.Matches(admins[j])
    requires f.Matches(a)
    ensures FindAdmin(admins + [a], f) == Some(|admins|)
  {
    var t := admins + [a];
    assert t[|admins|] == a;
    forall j | 0 <= j < |admins| ensures !f.Matches(t[j]) {
      assert t[j] == admins[j];
    }
  }

  // ---------------------------------------------------------------------------
  // create_org

  /** A name already in the registry is refused with 400 and nothing is written. */
  lemma CreateOrgNameTaken(s: State, req: CreateOrgRequest, passwordHash: Bytes, now: int, j: nat)
    requires j < |s.orgs| && s.orgs[j].name == req.organizationName
    ensures CreateOrg(s, req, passwordHash, now) == Step(s, Err(400, "Organization name already exists"))
  {
    assert ByName(req.organizationName).Matches(s.orgs[j]);
  }

  /** A fresh name with an e-mail some administrator already uses is refused with 400
      and nothing is written. */
  lemma CreateOrgEmailTaken(s: State, req: CreateOrgRequest, passwordHash: Bytes, now: int, k: nat)
    requires forall j :: 0 <= j < |s.orgs| ==> s.orgs[j].name != req.organizationName
    requires k < |s.admins| && s.admins[k].email == req.email
    ensures CreateOrg(s, req, passwordHash, now) == Step(s, Err(400, "Admin email already used"))
  {
    assert ByEmail(req.email).Matches(s.admins[k]);
  }

  /** Creation succeeds exactly when both the name and the e-mail are unused, and a
      refused creation leaves the store as it was. */
  lemma CreateOrgSucceedsIff(s: State, req: CreateOrgRequest, passwordHash: Bytes, now: int)
    ensures CreateOrg(s, req, passwordHash, now).outcome.Ok? <==>
              (forall j :: 0 <= j < |s.orgs| ==> s.orgs[j].name != req.organizationName)
              && (forall k :: 0 <= k < |s.admins| ==> s.admins[k].email != req.email)
    ensures CreateOrg(s, req, passwordHash, now).outcome.Err? ==>
              CreateOrg(s, req, passwordHash, now).state == s
  {
    if FindOrg(s.orgs, ByName(req.organizationName)).None? {
      assert forall j :: 0 <= j < |s.orgs| ==> !ByName(req.organizationName).Matches(s.orgs[j]);
    }
    if FindAdmin(s.admins, ByEmail(req.email)).None? {
      assert forall k :: 0 <= k < |s.admins| ==> !ByEmail(req.email).Matches(s.admins[k]);
    }
  }

  /** A successful creation appends exactly one administrator and one record to the
      store: both get identifiers no document had, the record is named as requested,
      links to the new administrator and names the partition derived from its name;
      that partition gains the creation marker and no other partition changes. The
      response describes the new record. */
  lemma CreateOrgProvisions(s: State, req: CreateOrgRequest, passwordHash: Bytes, now: int)
    requires Inv(s)
    requires CreateOrg(s, req, passwordHash, now).outcome.Ok?
    ensures var t := CreateOrg(s, req, passwordHash, now).state;
      && |t.orgs| == |s.orgs| + 1 && t.orgs[..|s.orgs|] == s.orgs
      && |t.admins| == |s.admins| + 1 && t.admins[..|s.admins|] == s.admins
    ensures var t := CreateOrg(s, req, passwordHash, now).state;
      var o, a := t.orgs[|s.orgs|], t.admins[|s.admins|];
      && o.name == req.organizationName && o.collectionName == OrgCollectionName(req.organizationName)
      && o.adminId == a.id && a.email == req.email && a.passwordHash == passwordHash
      && (forall j :: 0 <= j < |s.orgs| ==> s.orgs[j].id != o.id)
      && (forall k :: 0 <= k < |s.admins| ==> s.admins[k].id != a.id)
      && CreateOrg(s, req, passwordHash, now).outcome == Ok(OrgSummary(o.id, o.name, o.collectionName))
    ensures var t := CreateOrg(s, req, passwordHash, now).state;
      var cn := OrgCollectionName(req.organizationName);
      && t.partitions.Keys == s.partitions.Keys + {cn}
      && t.partitions[cn] == PartitionOf(s.partitions, cn) + [Marker(CollectionCreated, now)]
      && (forall n :: n in s.partitions && n != cn ==> t.partitions[n] == s.partitions[n])
  {
    var t := CreateOrg(s, req, passwordHash, now).state;
    assert t.orgs[..|s.orgs|] == s.orgs;
    assert t.admins[..|s.admins|] == s.admins;
  }

  /** A new record's partition is never one of the two master collections. */
  lemma CreateOrgSparesMasterCollections(s: State, req: CreateOrgRequest, passwordHash: Bytes, now: int)
    requires CreateOrg(s, req, passwordHash, now).outcome.Ok?
    ensures var cn := CreateOrg(s, req, passwordHash, now).outcome.value.collectionName;
      && StartsWith(cn, Prefix) && cn != "organizations" && cn != "admins"
  {
    var cn := OrgCollectionName(req.organizationName);
    CollectionNameNotRegistry(req.organizationName);
    CollectionNameShape(req.organizationName);
    assert cn[..|Prefix|] == Prefix;
  }

  /** After a successful creation the record can be read back by its name, and a
      second creation under the same name is refused. */
  lemma {:induction false} CreateThenGet(s: State, req: CreateOrgRequest, passwordHash: Bytes, now: int,
                                         req2: CreateOrgRequest, passwordHash2: Bytes, now2: int)
    requires CreateOrg(s, req, passwordHash, now).outcome.Ok?
    requires req2.organizationName == req.organizationName
    ensures var t := CreateOrg(s, req, passwordHash, now).state;
      && GetOrg(t, req.organizationName) == Ok(t.orgs[|s.orgs|])
      && CreateOrg(t, req2, passwordHash2, now2) == Step(t, Err(400, "Organization name already exists"))
  {
    var t := CreateOrg(s, req, passwordHash, now).state;
    var o := t.orgs[|s.orgs|];
    assert t.orgs == s.orgs + [o];
    assert FindOrg(s.orgs, ByName(req.organizationName)).None?;
    FindOrgAppended(s.orgs, o, ByName(req.organizationName));
    CreateOrgNameTaken(t, req2, passwordHash2, now2, |s.orgs|);
  }

  /** After a successful creation the e-mail lookup finds the new administrator. */
  lemma CreatedAdminFound(s: State, req: CreateOrgRequest, passwordHash: Bytes, now: int)
    requires CreateOrg(s, req, passwordHash, now).outcome.Ok?
    ensures var t := CreateOrg(s, req, passwordHash, now).state;
      && FindAdmin(t.admins, ByEmail(req.email)) == Some(|s.admins|)
      && t.admins[|s.admins|] == Admin(s.nextId, req.email, passwordHash, now)
  {
    var t := CreateOrg(s, req, passwordHash, now).state;
    assert FindAdmin(s.admins, ByEmail(req.email)).None?;
    FindAdminAppended(s.admins, t.admins[|s.admins|], ByEmail(req.email));
  }

  /** After a successful creation the link lookup for the new administrator finds the
      new record, since no older record links to an identifier not yet issued. */
  lemma CreatedRecordLinked(s: State, req: CreateOrgRequest, passwordHash: Bytes, now: int)
    requires IdsIssued(s.orgs, s.admins, s.nextId) && AdminsLinked(s.orgs, s.admins)
    requires CreateOrg(s, req, passwordHash, now).outcome.Ok?
    ensures var t := CreateOrg(s, req, passwordHash, now).state;
      && FindOrg(t.orgs, ByAdminRef(s.nextId)) == Some(|s.orgs|)
      && t.orgs[|s.orgs|].id == s.nextId + 1
  {
    var t := CreateOrg(s, req, passwordHash, now).state;
    forall j | 0 <= j < |s.orgs| ensures !ByAdminRef(s.nextId).Matches(s.orgs[j]) {
      var m :| 0 <= m < |s.admins| && s.admins[m].id == s.orgs[j].adminId;
    }
    FindOrgAppended(s.orgs, t.orgs[|s.orgs|], ByAdminRef(s.nextId));
  }

  /** The administrator a creation provisions can log in with the password whose hash
      was stored, and the token names it and the new record. */
  lemma {:induction false} CreateThenLogin(s: State, req: CreateOrgRequest, passwordHash: Bytes, now: int,
                                           checkpw: (string, Bytes) -> bool, later: int, ttl: int)
    requires Inv(s)
    requires CreateOrg(s, req, passwordHash, now).outcome.Ok?
    requires checkpw(req.password, passwordHash)
    ensures var t := CreateOrg(s, req, passwordHash, now).state;
      AdminLogin(t, AdminLoginRequest(req.email, req.password), checkpw, later, ttl)
        == Ok(Claims(Payload(s.nextId, Some(s.nextId + 1), req.email), later + ttl))
  {
    CreatedAdminFound(s, req, passwordHash, now);
    CreatedRecordLinked(s, req, passwordHash, now);
  }

  // ---------------------------------------------------------------------------
  // get_org

  /** A record read back names the partition derived from its name. */
  lemma GetOrgConsistent(s: State, name: string)
    requires Inv(s)
    requires GetOrg(s, name).Ok?
    ensures GetOrg(s, name).value.collectionName == OrgCollectionName(name)
  {
    var i := FindOrg(s.orgs, ByName(name)).value;
    assert GetOrg(s, name).value == s.orgs[i];
  }

  // ---------------------------------------------------------------------------
  // update_org

  /** An unknown name is refused with 404; nothing is written. */
  lemma UpdateOrgNotFound(s: State, req: UpdateOrgRequest, passwordHash: Bytes)
    requires forall j :: 0 <= j < |s.orgs| ==> s.orgs[j].name != req.organizationName
    ensures UpdateOrg(s, req, passwordHash) == Step(s, Err(404, "Organization not found"))
  {
    assert forall j :: 0 <= j < |s.orgs| ==> !ByName(req.organizationName).Matches(s.orgs[j]);
  }

  /** A new e-mail that a different administrator uses is refused with 400; nothing is
      written. */
  lemma UpdateOrgEmailTaken(s: State, req: UpdateOrgRequest, passwordHash: Bytes, i: nat, k: nat)
    requires UniqueOrgs(s.orgs) && AdminsLinked(s.orgs, s.admins)
    requires i < |s.orgs| && s.orgs[i].name == req.organizationName
    requires Truthy(req.email)
    requires k < |s.admins| && s.admins[k].email == req.email.value && s.admins[k].id != s.orgs[i].adminId
    ensures UpdateOrg(s, req, passwordHash) == Step(s, Err(400, "Email already in use"))
  {
    FindOrgByUniqueName(s.orgs, i);
    var m :| 0 <= m < |s.admins| && s.admins[m].id == s.orgs[i].adminId;
    assert ByAdminId(s.orgs[i].adminId).Matches(s.admins[m]);
    assert ByEmailExcept(req.email.value, s.orgs[i].adminId).Matches(s.admins[k]);
  }

  /** The credential step addresses the record's own administrator: supplying its
      current e-mail again is not a conflict, and the new credentials are written to
      that administrator alone, whatever the rename step then answers. */
  lemma {:induction false} UpdateOrgWritesCredentials(s: State, req: UpdateOrgRequest, passwordHash: Bytes, i: nat, k: nat)
    requires Inv(s)
    requires i < |s.orgs| && s.orgs[i].name == req.organizationName
    requires k < |s.admins| && s.admins[k].id == s.orgs[i].adminId
    requires Truthy(req.email) || Truthy(req.password)
    requires Truthy(req.email) ==> forall j :: 0 <= j < |s.admins| && j != k ==> s.admins[j].email != req.email.value
    ensures UpdateOrg(s, req, passwordHash).state.admins ==
              s.admins[k := WithCredentials(s.admins[k], req.email, req.password, passwordHash)]
    ensures UpdateOrg(s, req, passwordHash).state.orgs == s.orgs
    ensures UpdateCredentials(s, s.orgs[i].adminId, req.email, req.password, passwordHash).outcome == Ok(())
  {
    var adminId := s.orgs[i].adminId;
    FindOrgByUniqueName(s.orgs, i);
    FindAdminByUniqueId(s.admins, k);
    if Truthy(req.email) {
      assert forall j :: 0 <= j < |s.admins| ==> !ByEmailExcept(req.email.value, adminId).Matches(s.admins[j]);
    }
    CredentialsWritten(s, adminId, req.email, req.password, passwordHash, k);
    var cred := UpdateCredentials(s, adminId, req.email, req.password, passwordHash);
    RenameOfStrippedNameFails(cred.state, s.orgs[i]);
  }

  /** Asking for credential changes on a record whose administrator is missing is a
      500, before anything is written. */
  lemma UpdateOrgAdminMissing(s: State, req: UpdateOrgRequest, passwordHash: Bytes, i: nat)
    requires UniqueOrgs(s.orgs)
    requires i < |s.orgs| && s.orgs[i].name == req.organizationName
    requires Truthy(req.email) || Truthy(req.password)
    requires forall k :: 0 <= k < |s.admins| ==> s.admins[k].id != s.orgs[i].adminId
    ensures UpdateOrg(s, req, passwordHash) == Step(s, Err(500, "Admin referenced not found"))
  {
    FindOrgByUniqueName(s.orgs, i);
    assert forall k :: 0 <= k < |s.admins| ==> !ByAdminId(s.orgs[i].adminId).Matches(s.admins[k]);
  }

  /** The rename step's refusals: an unchanged name is nothing to do, a target name
      that is already registered is a 400, and a partition rename the storage engine
      refuses is a 500; every refusal leaves the store as it was. */
  lemma RenameOrgRefusals(s: State, existing: Organization, newName: string)
    ensures newName == existing.name ==> RenameOrg(s, existing, newName) == Step(s, Ok(UpdatedMessage))
    ensures newName != existing.name && (exists j :: 0 <= j < |s.orgs| && s.orgs[j].name == newName) ==>
              RenameOrg(s, existing, newName) == Step(s, Err(400, "Target organization name already exists"))
    ensures RenameOrg(s, existing, newName).outcome.Err? ==> RenameOrg(s, existing, newName).state == s
    ensures RenameOrg(s, existing, newName).outcome.Err? && RenameOrg(s, existing, newName).outcome.status == 500 ==>
              existing.collectionName !in s.partitions || OrgCollectionName(newName) in s.partitions
    ensures newName != existing.name && (forall j :: 0 <= j < |s.orgs| ==> s.orgs[j].name != newName)
            && RenameFailure(s.partitions, existing.collectionName, OrgCollectionName(newName)).Some? ==>
              RenameOrg(s, existing, newName) ==
                Step(s, Err(500, "Failed renaming collection: " +
                                 RenameFailure(s.partitions, existing.collectionName, OrgCollectionName(newName)).value))
    ensures newName != existing.name && (forall j :: 0 <= j < |s.orgs| ==> s.orgs[j].name != newName)
            && RenameFailure(s.partitions, existing.collectionName, OrgCollectionName(newName)).None? ==>
              RenameOrg(s, existing, newName).outcome == Ok(UpdatedMessage)
  {
    if newName != existing.name && (forall j :: 0 <= j < |s.orgs| ==> s.orgs[j].name != newName) {
      assert forall j :: 0 <= j < |s.orgs| ==> !ByName(newName).Matches(s.orgs[j]);
    }
    if newName != existing.name && (exists j :: 0 <= j < |s.orgs| && s.orgs[j].name == newName) {
      var j :| 0 <= j < |s.orgs| && s.orgs[j].name == newName;
      assert ByName(newName).Matches(s.orgs[j]);
    }
  }

  /** A rename the storage engine accepts moves the partition's documents to the name
      derived from the new name and rewrites the record's name and partition name
      together, so the record stays consistent; nothing else changes. */
  lemma {:induction false} RenameOrgMoves(s: State, existing: Organization, newName: string, i: nat)
    requires UniqueOrgs(s.orgs) && i < |s.orgs| && s.orgs[i].id == existing.id
    requires newName != existing.name && RenameOrg(s, existing, newName).outcome.Ok?
    ensures var t, src, dst := RenameOrg(s, existing, newName).state, existing.collectionName, OrgCollectionName(newName);
      && src in s.partitions && dst !in s.partitions
      && t.partitions.Keys == s.partitions.Keys - {src} + {dst}
      && t.partitions[dst] == s.partitions[src]
      && (forall n :: n in s.partitions && n != src ==> t.partitions[n] == s.partitions[n])
    ensures var t := RenameOrg(s, existing, newName).state;
      && |t.orgs| == |s.orgs| && t.admins == s.admins && t.nextId == s.nextId
      && t.orgs[i] == s.orgs[i].(name := newName, collectionName := OrgCollectionName(newName))
      && t.orgs[i].collectionName == OrgCollectionName(t.orgs[i].name)
      && (forall j :: 0 <= j < |s.orgs| && j != i ==> t.orgs[j] == s.orgs[j])
  {
    FindOrgByUniqueId(s.orgs, i);
  }

  /** The central property of `update_org` as written: it never changes the registry
      or the partitions. The record is looked up by the exact request name and the
      rename target is that name stripped, which derives the same partition name; so
      either the names already agree and nothing is to be renamed, or the storage
      engine is asked to rename a partition onto itself. */
  lemma {:induction false} UpdateOrgNeverRenames(s: State, req: UpdateOrgRequest, passwordHash: Bytes)
    requires Inv(s)
    ensures UpdateOrg(s, req, passwordHash).state.orgs == s.orgs
    ensures UpdateOrg(s, req, passwordHash).state.partitions == s.partitions
    ensures UpdateOrg(s, req, passwordHash).state.nextId == s.nextId
  {
    match FindOrg(s.orgs, ByName(req.organizationName))
    case None =>
    case Some(i) =>
      var existing := s.orgs[i];
      UpdateCredentialsPreservesInv(s, existing.adminId, req.email, req.password, passwordHash);
      var cred := UpdateCredentials(s, existing.adminId, req.email, req.password, passwordHash);
      RenameOfStrippedNameFails(cred.state, existing);
  }

  /** Once the record is found and the credential step has succeeded, `update_org`
      reports success exactly when the request name carries no surrounding
      whitespace; a padded name is always an error, after the credential writes. */
  lemma {:induction false} UpdateOrgAnswer(s: State, req: UpdateOrgRequest, passwordHash: Bytes, i: nat)
    requires Inv(s)
    requires i < |s.orgs| && s.orgs[i].name == req.organizationName
    requires UpdateCredentials(s, s.orgs[i].adminId, req.email, req.password, passwordHash).outcome.Ok?
    ensures UpdateOrg(s, req, passwordHash).outcome.Ok? <==> Strip(req.organizationName) == req.organizationName
    ensures UpdateOrg(s, req, passwordHash).outcome.Ok? ==> UpdateOrg(s, req, passwordHash).outcome.value == UpdatedMessage
    ensures UpdateOrg(s, req, passwordHash).state ==
              UpdateCredentials(s, s.orgs[i].adminId, req.email, req.password, passwordHash).state
  {
    FindOrgByUniqueName(s.orgs, i);
    var cred := UpdateCredentials(s, s.orgs[i].adminId, req.email, req.password, passwordHash);
    RenameOfStrippedNameFails(cred.state, s.orgs[i]);
  }

  /** With a padded request name, `update_org` of a known record ends in an error
      once the credential step has succeeded: 400 when the stripped name is itself a
      registered name, and otherwise 500, because the storage engine refuses to rename
      the record's partition onto itself (or, when that partition was dropped with a
      record of the same partition name, finds no partition to rename). */
  lemma {:induction false} UpdateOrgPaddedName(s: State, req: UpdateOrgRequest, passwordHash: Bytes, i: nat)
    requires Inv(s)
    requires i < |s.orgs| && s.orgs[i].name == req.organizationName
    requires Strip(req.organizationName) != req.organizationName
    requires UpdateCredentials(s, s.orgs[i].adminId, req.email, req.password, passwordHash).outcome.Ok?
    ensures (exists j :: 0 <= j < |s.orgs| && s.orgs[j].name == Strip(req.organizationName)) ==>
              UpdateOrg(s, req, passwordHash).outcome == Err(400, "Target organization name already exists")
    ensures (forall j :: 0 <= j < |s.orgs| ==> s.orgs[j].name != Strip(req.organizationName)) ==>
              UpdateOrg(s, req, passwordHash).outcome ==
                Err(500, "Failed renaming collection: " +
                         if s.orgs[i].collectionName in s.partitions then "Can't rename a collection to itself"
                         else "source namespace does not exist")
  {
    FindOrgByUniqueName(s.orgs, i);
    var existing := s.orgs[i];
    UpdateCredentialsPreservesInv(s, existing.adminId, req.email, req.password, passwordHash);
    var cred := UpdateCredentials(s, existing.adminId, req.email, req.password, passwordHash);
    CollectionNameIgnoresPadding(existing.name);
    RenameOrgRefusals(cred.state, existing, Strip(req.organizationName));
  }

  /** Without an e-mail or a password, `update_org` of a known record writes nothing. */
  lemma UpdateOrgNothingToWrite(s: State, req: UpdateOrgRequest, passwordHash: Bytes)
    requires Inv(s)
    requires !Truthy(req.email) && !Truthy(req.password)
    ensures UpdateOrg(s, req, passwordHash).state == s
  {
    match FindOrg(s.orgs, ByName(req.organizationName))
    case None =>
    case Some(i) =>
      RenameOfStrippedNameFails(s, s.orgs[i]);
  }

  // ---------------------------------------------------------------------------
  // delete_org

  /** An unknown name is refused with 404; nothing is removed. */
  lemma DeleteOrgNotFound(s: State, name: string, admin: Claims)
    requires forall j :: 0 <= j < |s.orgs| ==> s.orgs[j].name != name
    ensures DeleteOrg(s, name, admin) == Step(s, Err(404, "Organization not found"))
  {
    assert forall j :: 0 <= j < |s.orgs| ==> !ByName(name).Matches(s.orgs[j]);
  }

  /** A caller whose token names another record is refused with 403; nothing is
      removed. */
  lemma DeleteOrgForbidden(s: State, name: string, admin: Claims, i: nat)
    requires UniqueOrgs(s.orgs)
    requires i < |s.orgs| && s.orgs[i].name == name
    requires admin.payload.orgId.Some? && admin.payload.orgId.value != s.orgs[i].id
    ensures DeleteOrg(s, name, admin) == Step(s, Err(403, "Not authorized to delete this organization"))
  {
    FindOrgByUniqueName(s.orgs, i);
  }

  /** Deletion of a known record is permitted exactly when the caller's token names no
      record or names this one; a token without an organization claim may delete
      any record. */
  lemma DeleteOrgPermittedIff(s: State, name: string, admin: Claims, i: nat)
    requires UniqueOrgs(s.orgs)
    requires i < |s.orgs| && s.orgs[i].name == name
    ensures DeleteOrg(s, name, admin).outcome.Ok? <==>
              admin.payload.orgId.None? || admin.payload.orgId.value == s.orgs[i].id
    ensures DeleteOrg(s, name, admin).outcome.Ok? ==> DeleteOrg(s, name, admin).outcome.value == DeletedMessage
  {
    FindOrgByUniqueName(s.orgs, i);
  }

  /** A permitted deletion removes exactly the record, its administrator and its
      partition: every other record, administrator and partition stays, and the name
      is no longer found. */
  lemma {:induction false} DeleteOrgRemoves(s: State, name: string, admin: Claims, i: nat, k: nat)
    requires Inv(s)
    requires i < |s.orgs| && s.orgs[i].name == name
    requires admin.payload.orgId.None? || admin.payload.orgId.value == s.orgs[i].id
    requires k < |s.admins| && s.admins[k].id == s.orgs[i].adminId
    ensures var t := DeleteOrg(s, name, admin).state;
      t.orgs == RemoveAt(s.orgs, i) && t.admins == RemoveAt(s.admins, k) && t.nextId == s.nextId
    ensures var t := DeleteOrg(s, name, admin).state;
      t.partitions == s.partitions - {s.orgs[i].collectionName}
  {
    FindOrgByUniqueName(s.orgs, i);
    FindOrgByUniqueId(s.orgs, i);
    FindAdminByUniqueId(s.admins, k);
  }

  /** After a permitted deletion the name is no longer found. */
  lemma {:induction false} DeleteThenGet(s: State, name: string, admin: Claims, i: nat, k: nat)
    requires Inv(s)
    requires i < |s.orgs| && s.orgs[i].name == name
    requires admin.payload.orgId.None? || admin.payload.orgId.value == s.orgs[i].id
    requires k < |s.admins| && s.admins[k].id == s.orgs[i].adminId
    ensures GetOrg(DeleteOrg(s, name, admin).state, name) == Err(404, "Organization not found")
  {
    DeleteOrgRemoves(s, name, admin, i, k);
    var orgs' := RemoveAt(s.orgs, i);
    forall j | 0 <= j < |orgs'| ensures !ByName(name).Matches(orgs'[j]) {
      var j0 := if j < i then j else j + 1;
      assert orgs'[j] == s.orgs[j0];
    }
  }

  /** Two records whose names sanitize alike share one partition, so deleting one
      drops the partition the other still names. */
  lemma {:induction false} SharedPartitionDropped(s: State, name: string, admin: Claims, i: nat, j: nat)
    requires UniqueOrgs(s.orgs) && RegistryConsistent(s.orgs)
    requires i < |s.orgs| && j < |s.orgs| && i != j && s.orgs[i].name == name
    requires OrgCollectionName(s.orgs[j].name) == OrgCollectionName(name)
    requires admin.payload.orgId.None?
    ensures var t := DeleteOrg(s, name, admin).state;
      exists m :: 0 <= m < |t.orgs| && t.orgs[m] == s.orgs[j] && t.orgs[m].collectionName !in t.partitions
  {
    FindOrgByUniqueName(s.orgs, i);
    FindOrgByUniqueId(s.orgs, i);
    var t := DeleteOrg(s, name, admin).state;
    assert t.orgs == RemoveAt(s.orgs, i);
    var m := if j < i then j else j - 1;
    assert t.orgs[m] == s.orgs[j];
  }

  // ---------------------------------------------------------------------------
  // admin_login

  /** An unknown e-mail and a wrong password get the same answer. */
  lemma AdminLoginWrongPassword(s: State, req: AdminLoginRequest, checkpw: (string, Bytes) -> bool,
                                now: int, ttl: int, k: nat)
    requires UniqueAdmins(s.admins)
    requires k < |s.admins| && s.admins[k].email == req.email
    requires !checkpw(req.password, s.admins[k].passwordHash)
    ensures AdminLogin(s, req, checkpw, now, ttl) == Err(401, "Invalid credentials")
  {
    FindAdminByUniqueEmail(s.admins, k);
  }

  /** A successful login issues, for the administrator with that e-mail, its
      identifier, the identifier of the record it administers (none when it
      administers none), its e-mail, and an expiry `ttl` seconds ahead. */
  lemma {:induction false} AdminLoginClaims(s: State, req: AdminLoginRequest, checkpw: (string, Bytes) -> bool,
                                            now: int, ttl: int, k: nat)
    requires Inv(s)
    requires k < |s.admins| && s.admins[k].email == req.email
    requires checkpw(req.password, s.admins[k].passwordHash)
    ensures var a := s.admins[k];
      && ((forall j :: 0 <= j < |s.orgs| ==> s.orgs[j].adminId != a.id) ==>
            AdminLogin(s, req, checkpw, now, ttl) == Ok(Claims(Payload(a.id, None, a.email), now + ttl)))
      && (forall j :: 0 <= j < |s.orgs| && s.orgs[j].adminId == a.id ==>
            AdminLogin(s, req, checkpw, now, ttl) == Ok(Claims(Payload(a.id, Some(s.orgs[j].id), a.email), now + ttl)))
  {
    FindAdminByUniqueEmail(s.admins, k);
    forall j | 0 <= j < |s.orgs| && s.orgs[j].adminId == s.admins[k].id
      ensures AdminLogin(s, req, checkpw, now, ttl) == Ok(Claims(Payload(s.admins[k].id, Some(s.orgs[j].id), s.admins[k].email), now + ttl))
    {
      FindOrgByUniqueAdminRef(s.orgs, j);
    }
  }

  /** A token from a successful login is accepted on the protected routes until it
      expires, and its organization claim permits deleting that record and no other. */
  lemma {:induction false} LoginTokenScope(s: State, req: AdminLoginRequest, checkpw: (string, Bytes) -> bool,
                                           now: int, ttl: int, token: string, verify: string -> Option<Claims>,
                                           later: int, i: nat, j: nat)
    requires Inv(s)
    requires AdminLogin(s, req, checkpw, now, ttl).Ok?
    requires verify(token) == Some(AdminLogin(s, req, checkpw, now, ttl).value)
    requires i < |s.orgs| && j < |s.orgs| && i != j
    requires AdminLogin(s, req, checkpw, now, ttl).value.payload.adminId == s.orgs[i].adminId
    ensures GetCurrentAdmin(BearerPrefix + token, later, verify).Ok? <==> later < now + ttl
    ensures DeleteOrg(s, s.orgs[i].name, AdminLogin(s, req, checkpw, now, ttl).value).outcome.Ok?
    ensures DeleteOrg(s, s.orgs[j].name, AdminLogin(s, req, checkpw, now, ttl).value)
              == Step(s, Err(403, "Not authorized to delete this organization"))
  {
    var c := AdminLogin(s, req, checkpw, now, ttl).value;
    TokenProperties.IssuedTokenLifetime(token, c.payload, now, ttl, later, verify);
    var k := FindAdmin(s.admins, ByEmail(req.email)).value;
    FindOrgByUniqueAdminRef(s.orgs, i);
    assert c.payload.orgId == Some(s.orgs[i].id);
    DeleteOrgPermittedIff(s, s.orgs[i].name, c, i);
    DeleteOrgForbidden(s, s.orgs[j].name, c, j);
  }
}
