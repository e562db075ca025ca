/** Every handler keeps the store invariant `Registry.Inv`: identifiers come from the
    counter, names, identifiers and e-mail addresses are unique, each record's
    partition name is derived from its name, and each record's administrator exists. */
module RegistryInvariant {
  import opened Common
  import opened Sanitizer
  import opened SanitizerProperties
  import opened Registry

  // ---------------------------------------------------------------------------
  // create_org

  /** Appending a fresh administrator and a record linked to it keeps the
      identifier, uniqueness and link parts of the invariant. */
  lemma ProvisionKeepsLinks(orgs: seq<Organization>, admins: seq<Admin>, nextId: Id, o: Organization, a: Admin)
    requires IdsIssued(orgs, admins, nextId) && UniqueOrgs(orgs) && UniqueAdmins(admins) && AdminsLinked(orgs, admins)
    requires a.id == nextId && o.id == nextId + 1 && o.adminId == a.id
    requires forall j :: 0 <= j < |orgs| ==> orgs[j].name != o.name
    requires forall j :: 0 <= j < |admins| ==> admins[j].email != a.email
    ensures IdsIssued(orgs + [o], admins + [a], nextId + 2)
    ensures UniqueOrgs(orgs + [o]) && UniqueAdmins(admins + [a]) && AdminsLinked(orgs + [o], admins + [a])
  {
    var orgs', admins' := orgs + [o], admins + [a];
    forall i | 0 <= i < |orgs|
      ensures orgs[i].adminId != a.id
    {
      var k :| 0 <= k < |admins| && admins[k].id == orgs[i].adminId;
    }
    assert orgs'[|orgs|] == o;
    assert UniqueOrgs(orgs');
    forall i | 0 <= i < |orgs'|
      ensures HasAdmin(admins', orgs'[i].adminId)
    {
      if i < |orgs| {
        var k :| 0 <= k < |admins| && admins[k].id == orgs[i].adminId;
        assert admins'[k] == admins[k];
      } else {
        assert admins'[|admins|] == a;
      }
    }
  }

  lemma ProvisionKeepsRegistry(orgs: seq<Organization>, o: Organization)
    requires RegistryConsistent(orgs)
    requires o.collectionName == OrgCollectionName(o.name)
    ensures RegistryConsistent(orgs + [o])
  {
    assert (orgs + [o])[|orgs|] == o;
  }

  lemma CreateOrgPreservesInv(s: State, req: CreateOrgRequest, passwordHash: Bytes, now: int)
    requires Inv(s)
    ensures Inv(CreateOrg(s, req, passwordHash, now).state)
  {
    if FindOrg(s.orgs, ByName(req.organizationName)).None? && FindAdmin(s.admins, ByEmail(req.email)).None? {
      CreatedOrgKeepsInv(s, req, passwordHash, now);
    } else {
      assert CreateOrg(s, req, passwordHash, now).state == s;
    }
  }

  lemma CreatedOrgKeepsInv(s: State, req: CreateOrgRequest, passwordHash: Bytes, now: int)
    requires Inv(s)
    requires FindOrg(s.orgs, ByName(req.organizationName)).None? && FindAdmin(s.admins, ByEmail(req.email)).None?
    ensures Inv(CreateOrg(s, req, passwordHash, now).state)
  {
    var cn := OrgCollectionName(req.organizationName);
    var o := Organization(s.nextId + 1, req.organizationName, cn, s.nextId, now);
    var a := Admin(s.nextId, req.email, passwordHash, now);
    var t := CreateOrg(s, req, passwordHash, now).state;
    assert t.orgs == s.orgs + [o] && t.admins == s.admins + [a] && t.nextId == s.nextId + 2;
    ProvisionKeepsLinks(s.orgs, s.admins, s.nextId, o, a);
    ProvisionKeepsRegistry(s.orgs, o);
  }

  // ---------------------------------------------------------------------------
  // update_org

  /** Rewriting one administrator's document in place, keeping its identifier and
      taking an e-mail nobody else uses, keeps the administrator parts of the
      invariant. */
  lemma AdminRewriteKeepsInv(orgs: seq<Organization>, admins: seq<Admin>, nextId: Id, k: nat, a: Admin)
    requires IdsIssued(orgs, admins, nextId) && UniqueAdmins(admins) && AdminsLinked(orgs, admins)
    requires k < |admins| && a.id == admins[k].id
    requires forall j :: 0 <= j < |admins| && j != k ==> admins[j].email != a.email
    ensures IdsIssued(orgs, admins[k := a], nextId) && UniqueAdmins(admins[k := a]) && AdminsLinked(orgs, admins[k := a])
  {
    var admins' := admins[k := a];
    forall i | 0 <= i < |orgs|
      ensures HasAdmin(admins', orgs[i].adminId)
    {
      var j :| 0 <= j < |admins| && admins[j].id == orgs[i].adminId;
      assert admins'[j].id == orgs[i].adminId;
    }
  }

  /** A lookup that found position `k` still finds it after that document is
      rewritten into one the filter still matches. */
  lemma FindAdminAfterRewrite(admins: seq<Admin>, f: AdminFilter, k: nat, a: Admin)
    requires FindAdmin(admins, f) == Some(k) && f.Matches(a)
    ensures FindAdmin(admins[k := a], f) == Some(k)
  {
    assert admins[k := a][k] == a;
  }

  /** When the credential step of `update_org` writes, it rewrites exactly the
      administrator's document, as `WithCredentials` describes. */
  lemma CredentialsWritten(s: State, adminId: Id, email: Option<string>, password: Option<string>, passwordHash: Bytes, k: nat)
    requires Truthy(email) || Truthy(password)
    requires FindAdmin(s.admins, ByAdminId(adminId)) == Some(k)
    requires !(Truthy(email) && FindAdmin(s.admins, ByEmailExcept(email.value, adminId)).Some?)
    ensures UpdateCredentials(s, adminId, email, password, passwordHash) ==
              Step(s.(admins := s.admins[k := WithCredentials(s.admins[k], email, password, passwordHash)]), Ok(()))
  {
    var a := s.admins[k];
    var a1 := if Truthy(email) then a.(email := email.value) else a;
    var admins1 := s.admins[k := a1];
    assert admins1 == if Truthy(email) then SetAdminEmail(s.admins, adminId, email.value) else s.admins;
    FindAdminAfterRewrite(s.admins, ByAdminId(adminId), k, a1);
    var a2 := if Truthy(password) then a1.(passwordHash := passwordHash) else a1;
    assert admins1[k := a2] == s.admins[k := a2];
  }

  /** Under the invariant the credential step keeps the invariant and touches only
      the administrators. */
  lemma UpdateCredentialsPreservesInv(s: State, adminId: Id, email: Option<string>, password: Option<string>, passwordHash: Bytes)
    requires Inv(s)
    ensures var t := UpdateCredentials(s, adminId, email, password, passwordHash).state;
      Inv(t) && t.orgs == s.orgs && t.partitions == s.partitions && t.nextId == s.nextId
  {
    var found := FindAdmin(s.admins, ByAdminId(adminId));
    if (Truthy(email) || Truthy(password)) && found.Some?
       && !(Truthy(email) && FindAdmin(s.admins, ByEmailExcept(email.value, adminId)).Some?)
    {
      var k := found.value;
      var a2 := WithCredentials(s.admins[k], email, password, passwordHash);
      CredentialsWritten(s, adminId, email, password, passwordHash, k);
      forall j | 0 <= j < |s.admins| && j != k
        ensures s.admins[j].email != a2.email
      {
        if Truthy(email) {
          assert !ByEmailExcept(email.value, adminId).Matches(s.admins[j]);
        }
      }
      AdminRewriteKeepsInv(s.orgs, s.admins, s.nextId, k, a2);
    }
  }

  /** Under the registry invariant the rename step of `update_org` changes nothing:
      the stripped name's partition name is the record's own partition name, so the
      storage engine is asked to rename a partition onto itself and refuses. */
  lemma RenameOfStrippedNameFails(s: State, existing: Organization)
    requires existing.collectionName == OrgCollectionName(existing.name)
    ensures RenameOrg(s, existing, Strip(existing.name)).state == s
    ensures RenameOrg(s, existing, Strip(existing.name)).outcome.Err? <==> Strip(existing.name) != existing.name
  {
    CollectionNameIgnoresPadding(existing.name);
  }

  lemma UpdateOrgPreservesInv(s: State, req: UpdateOrgRequest, passwordHash: Bytes)
    requires Inv(s)
    ensures Inv(UpdateOrg(s, req, passwordHash).state)
  {
    match FindOrg(s.orgs, ByName(req.organizationName))
    case None =>
    case Some(i) =>
      var existing := s.orgs[i];
      var cred := UpdateCredentials(s, existing.adminId, req.email, req.password, passwordHash);
      UpdateCredentialsPreservesInv(s, existing.adminId, req.email, req.password, passwordHash);
      RenameOfStrippedNameFails(cred.state, existing);
  }

  // ---------------------------------------------------------------------------
  // delete_org

  /** Removing a record keeps the record parts of the invariant. */
  lemma RemoveOrgKeepsInv(orgs: seq<Organization>, i: nat)
    requires RegistryConsistent(orgs) && UniqueOrgs(orgs) && i < |orgs|
    ensures RegistryConsistent(RemoveAt(orgs, i)) && UniqueOrgs(RemoveAt(orgs, i))
  {
    var orgs' := RemoveAt(orgs, i);
    forall a, b | 0 <= a < b < |orgs'|
      ensures orgs'[a].id != orgs'[b].id && orgs'[a].name != orgs'[b].name && orgs'[a].adminId != orgs'[b].adminId
    {
      var a0, b0 := if a < i then a else a + 1, if b < i then b else b + 1;
      assert orgs'[a] == orgs[a0] && orgs'[b] == orgs[b0];
    }
  }

  /** Removing an administrator keeps administrator identifiers and e-mails unique. */
  lemma RemoveAdminKeepsUnique(admins: seq<Admin>, k: nat)
    requires UniqueAdmins(admins) && k < |admins|
    ensures UniqueAdmins(RemoveAt(admins, k))
  {
    var admins' := RemoveAt(admins, k);
    forall a, b | 0 <= a < b < |admins'|
      ensures admins'[a].id != admins'[b].id && admins'[a].email != admins'[b].email
    {
      var a0, b0 := if a < k then a else a + 1, if b < k then b else b + 1;
      assert admins'[a] == admins[a0] && admins'[b] == admins[b0];
    }
  }

  /** Removing a record together with its administrator leaves every other record's
      administrator in place. */
  lemma RemovalKeepsLinks(orgs: seq<Organization>, admins: seq<Admin>, i: nat, k: nat)
    requires UniqueOrgs(orgs) && AdminsLinked(orgs, admins)
    requires i < |orgs| && k < |admins| && admins[k].id == orgs[i].adminId
    ensures AdminsLinked(RemoveAt(orgs, i), RemoveAt(admins, k))
  {
    var orgs', admins' := RemoveAt(orgs, i), RemoveAt(admins, k);
    forall j | 0 <= j < |orgs'|
      ensures HasAdmin(admins', orgs'[j].adminId)
    {
      var o := if j < i then j else j + 1;
      assert orgs'[j] == orgs[o];
      var m :| 0 <= m < |admins| && admins[m].id == orgs[o].adminId;
      assert m != k;
      if m < k {
        assert admins'[m].id == orgs[o].adminId;
      } else {
        assert admins'[m - 1].id == orgs[o].adminId;
      }
    }
  }

  /** The permitted branch of `delete_org` keeps the invariant. */
  lemma DeletedOrgKeepsInv(s: State, name: string, admin: Tokens.Claims, i: nat, k: nat)
    requires Inv(s)
    requires FindOrg(s.orgs, ByName(name)) == Some(i)
    requires !(admin.payload.orgId.Some? && admin.payload.orgId.value != s.orgs[i].id)
    requires k < |s.admins| && s.admins[k].id == s.orgs[i].adminId
    ensures Inv(DeleteOrg(s, name, admin).state)
  {
    var existing := s.orgs[i];
    var t := DeleteOrg(s, name, admin).state;
    assert ByOrgId(existing.id).Matches(s.orgs[i]);
    assert FindOrg(s.orgs, ByOrgId(existing.id)) == Some(i);
    assert ByAdminId(existing.adminId).Matches(s.admins[k]);
    assert FindAdmin(s.admins, ByAdminId(existing.adminId)) == Some(k);
    assert t.orgs == RemoveAt(s.orgs, i) && t.admins == RemoveAt(s.admins, k) && t.nextId == s.nextId;
    RemoveOrgKeepsInv(s.orgs, i);
    RemoveAdminKeepsUnique(s.admins, k);
    RemovalKeepsLinks(s.orgs, s.admins, i, k);
  }

  lemma DeleteOrgPreservesInv(s: State, name: string, admin: Tokens.Claims)
    requires Inv(s)
    ensures Inv(DeleteOrg(s, name, admin).state)
  {
    match FindOrg(s.orgs, ByName(name))
    case None =>
    case Some(i) =>
      if !(admin.payload.orgId.Some? && admin.payload.orgId.value != s.orgs[i].id) {
        var k :| 0 <= k < |s.admins| && s.admins[k].id == s.orgs[i].adminId;
        DeletedOrgKeepsInv(s, name, admin, i, k);
      }
  }
}
