# Organization management service: a verified model

This project models the core of a multi-tenant organization-management backend. An
organization is registered in a master `organizations` collection. Its administrator
account lives in a master `admins` collection. Each organization owns a storage
partition (a collection) whose name is derived from the organization's name by a
sanitizer. The service has five handlers: create, get, update, delete, and admin login.
Update and delete are protected by a bearer token issued at login.

The model has these modules:

- `Common`: `Option`, the handler `Outcome` (a value, or an HTTP status with a detail
  string), and `Find`/`IndexOf`/`StartsWith` on sequences.
- `Sanitizer` and `SanitizerProperties`:
  - `org_collection_name` as a function over ASCII: `str.strip`, then per character
    `str.isalnum`/`str.lower` or `_`, then the `org_` prefix;
  - its shape, charset, padding-insensitivity and collision properties.
- `Tokens` and `TokenProperties`:
  - the `Authorization` header check of `get_current_admin`;
  - the claims `create_jwt` issues;
  - the expiry and validity checks of `decode_jwt`, over an abstract `verify`
    function that maps a token to the claims it was signed with.
- `Registry`:
  - the whole store as one value: the registry records, the administrators, the
    partitions by name, and a fresh-identifier counter;
  - each handler as a function from the store to the new store and an outcome;
  - the store invariant `Inv`: identifiers issued by the counter, the
    registry-consistency rule `collection_name == org_collection_name(name)`, unique
    record ids, names and administrator links, unique administrator ids and
    e-mails, and every record's administrator present.
- `RegistryInvariant`: every handler preserves `Inv`.
- `RegistryProperties`: the error cases, the effects of successful calls, and
  scenarios that combine handlers.
- `Service`: the class `OrgStore`.
  - Its fields are the collections, updated in place.
  - Its methods make the handlers' storage calls one by one, in the program's
    order, returning as soon as a check fails.
  - Every mutating method, route or step, is proved to produce exactly the state
    and outcome of its `Registry` function.
  - Each route method (`CreateOrg`, `UpdateOrg`, `DeleteOrg`) also keeps `Inv`.

A collection is a sequence of documents in insertion order. `find_one` returns the
first matching document (`FindOrg`, `FindAdmin`). The store is kept in sequences
rather than maps keyed by id, so that "the first match" keeps its meaning for
non-unique filters such as the e-mail lookup. Document identifiers come from one
counter: `create_org` gives the administrator `nextId` and the record `nextId + 1`.

Behaviour of the code worth knowing:

- **`update_org` has a rename branch but never renames.** The request has no
  new-name field.
  - The handler looks the record up by the exact request name, and takes the
    rename target to be that same name stripped of whitespace.
  - The sanitizer strips first, so the target's partition name equals the record's
    own partition name.
  - So either the names already agree and nothing is renamed, or the storage engine
    is asked to rename a partition onto itself, which it refuses.
  - Under the invariant, `update_org` therefore never changes the registry or the
    partitions (`RegistryProperties.UpdateOrgNeverRenames`).
  - A padded name always ends in an error (`RegistryProperties.UpdateOrgAnswer`):
    400 when the stripped name is itself registered, otherwise 500 from the storage
    engine (`RegistryProperties.UpdateOrgPaddedName`). The error comes after the
    credential writes, which persist.
  - The general rename branch is still modelled and proved on its own:
    `RegistryProperties.RenameOrgRefusals` and `RegistryProperties.RenameOrgMoves`.
- **Token expiry.** The JWT library treats a token as expired when `exp <= now`,
  that is, already at the second its `exp` claim names. With an integer `exp`,
  comparing against whole seconds gives the same answer as the exact clock.
- **Partitions can be shared.** The sanitizer is not injective: `"A B"` and `"A_B"`
  both give `org_a_b`. Two records can then name the same partition, and deleting
  one drops the partition the other still names
  (`RegistryProperties.SharedPartitionDropped`). So "every record's partition
  exists" is not an invariant of the program, and `Inv` does not claim it.
- **Delete authorization.** The 403 check only fires when the token carries an
  organization claim. A token of an administrator with no record may delete any
  record (`RegistryProperties.DeleteOrgPermittedIff`).
- **Update authorization.** `update_org` demands a valid token but never reads its
  claims, so any administrator's token may update any record. `Registry.UpdateOrg`
  therefore takes no claims, and `Service.OrgStore.UpdateOrg` only checks the token.

## Model

| member | source | states |
|---|---|---|
| Sanitizer.IsSpace | main.py:75 | `str.isspace` on ASCII: tab through carriage return, 0x1C-0x1F and space; what `strip` removes (`SanitizerProperties.StripSpec`) |
| Sanitizer.IsAlnum | main.py:75 | `str.isalnum` on ASCII: letters and digits; what `SanitizeChar` keeps |
| Sanitizer.Lower | main.py:75 | ASCII `str.lower`: an upper-case letter maps to the letter 32 code points on (its lower-case form), every other character is left alone; the result is never upper-case and keeps the alphanumeric class |
| Sanitizer.TrimStart | main.py:75 | the left half of `str.strip`; what it removes is stated by `SanitizerProperties.TrimStartSpec` |
| Sanitizer.TrimEnd | main.py:75 | the right half of `str.strip`; stated by `SanitizerProperties.TrimEndSpec` |
| Sanitizer.Strip | main.py:75 | `org_name.strip()`; a slice with no whitespace at either end, all removed characters whitespace (`SanitizerProperties.StripSpec`), idempotent (`SanitizerProperties.StripIdempotent`) |
| Sanitizer.SanitizeChar | main.py:75 | an alphanumeric character maps to its lower-case form, anything else to `_`; the result is always a partition character |
| Sanitizer.SanitizeChars | main.py:75 | the join is one-to-one: same length as the stripped name, character i is the map of input character i (no collapsing of runs) |
| Sanitizer.OrgCollectionName | main.py:74-76 | `org_collection_name`: strip, map each character, prefix `org_`; its result's length, prefix and characters are stated by `SanitizerProperties.CollectionNameShape` |
| SanitizerProperties.TrimStartSpec | main.py:75 | leading strip removes exactly the leading whitespace: a suffix remains, all removed characters are whitespace, and the remainder does not start with whitespace |
| SanitizerProperties.TrimEndSpec | main.py:75 | trailing strip removes exactly the trailing whitespace, symmetrically |
| SanitizerProperties.StripSpec | main.py:75 | `strip` yields a slice of the input with whitespace on both sides removed and no whitespace at either end |
| SanitizerProperties.CollectionNameShape | main.py:74-76 | length is 4 + the stripped length, the prefix is `org_`, and each suffix character is `lower(c)` for alphanumeric `c` and `_` otherwise |
| SanitizerProperties.StripUnpadded | main.py:75 | a string with no whitespace at either end is its own strip |
| SanitizerProperties.StripIdempotent | main.py:75 | stripping twice is stripping once |
| SanitizerProperties.CollectionNameIgnoresPadding | main.py:74-76 | the partition name of the stripped name equals that of the name itself |
| SanitizerProperties.CollectionNameCharset | main.py:75-76 | every character after the prefix is a lower-case letter, a digit or `_` |
| SanitizerProperties.CollectionNameNotRegistry | main.py:74-76 | no organization's partition name is `organizations` or `admins` |
| SanitizerProperties.CanonicalNameKept | main.py:74-76 | a stripped name made only of partition characters is kept verbatim after `org_` |
| SanitizerProperties.NamesCollide | main.py:75 | `"A B"` and `"A_B"` are different names with the same partition name `org_a_b`, so the sanitizer is not injective |
| Common.IndexOf | main.py:69 | finds the first occurrence of a character, or reports that there is none |
| Common.StartsWith | main.py:67 | `str.startswith`: the prefix is no longer than the string and equals its first characters; used by `Tokens.BearerToken` |
| Common.Truthy | main.py:134 | Python truthiness of an optional string: `None` and `""` are false; the guard of `UpdateCredentials` (`RegistryProperties.UpdateOrgNothingToWrite`) |
| Common.Find | main.py:82 | `find_one` over any collection: the first element satisfying the filter, and none iff no element does |
| Tokens.CreateJwt | main.py:52-55 | the claims `create_jwt` signs: the payload plus `exp = now + ttl` (`TokenProperties.IssuedClaims`) |
| Tokens.Expired | main.py:60 | the library's expiry rule `exp <= now` (`TokenProperties.IssuedTokenLifetime`) |
| Tokens.DecodeJwt | main.py:57-63 | a token is accepted iff its signature verifies and it has not expired; then the result is its claims; a bad token gives 401 "Invalid token", an expired one 401 "Token expired" |
| Tokens.BearerToken | main.py:66-69 | a header not starting with `Bearer ` is refused with 401 "Invalid auth header"; otherwise the token is exactly the text after the first space, which is everything after the prefix |
| Tokens.GetCurrentAdmin | main.py:66-71 | every refusal is a 401; success iff the header has the bearer scheme and its token decodes, and then the result is the token's verified claims |
| TokenProperties.IssuedClaims | main.py:52-55 | the issued claims carry the payload unchanged and expire exactly `ttl` seconds after issue |
| TokenProperties.IssuedTokenLifetime | main.py:52-70 | a header carrying an issued token yields exactly the issued claims before `issue + ttl` and 401 "Token expired" from then on |
| TokenProperties.DefaultTokenLifetime | main.py:19 | with the default `JWT_EXP` of 3600 seconds, a token is accepted 3599 seconds after issue and refused as expired at 3600 |
| TokenProperties.MissingSchemeRefused | main.py:67-68 | a header without the bearer scheme is refused before the token is looked at |
| Registry.FindOrg | main.py:82 | `find_one` on the registry gives the first matching record, or none iff no record matches |
| Registry.FindAdmin | main.py:93 | `find_one` on the administrators gives the first match, or none iff nothing matches |
| Registry.PartitionOf | main.py:104 | `master_db[name]`: a partition nobody has written to reads as empty; `create_org` appends its marker to it (`RegistryProperties.CreateOrgProvisions`) |
| Registry.SetAdminEmail | main.py:145 | `update_one` of the administrator's e-mail by id (`RegistryInvariant.CredentialsWritten`) |
| Registry.SetAdminPasswordHash | main.py:147 | `update_one` of the administrator's hash by id (`RegistryInvariant.CredentialsWritten`) |
| Registry.SetOrgFields | main.py:166 | `update_one` of the record's name and partition name by id (`RegistryProperties.RenameOrgMoves`) |
| Registry.DeleteAdminById | main.py:191 | `delete_one` of the administrator by id (`RegistryProperties.DeleteOrgRemoves`) |
| Registry.DeleteOrgById | main.py:194 | `delete_one` of the record by id (`RegistryProperties.DeleteOrgRemoves`) |
| Registry.RemoveAt | main.py:194 | `delete_one` removes exactly one document and keeps the others in order |
| Registry.RenameFailure | main.py:158-161 | the engine accepts a rename iff the source partition exists and the target does not (which also rules out renaming onto itself) |
| Registry.RenamePartition | main.py:159 | after a rename the target holds the source's documents, the source is gone and every other partition is unchanged |
| Registry.Empty | main.py:21-26 | the empty store satisfies the store invariant |
| Registry.CreateOrg | main.py:79-115 | `create_org` as a store step; its refusals and effects are stated by `RegistryProperties.CreateOrgSucceedsIff` and `RegistryProperties.CreateOrgProvisions` |
| Registry.GetOrg | main.py:117-123 | success iff some record has exactly that name, and then the result is such a record; otherwise 404 "Organization not found" |
| Registry.UpdateCredentials | main.py:134-147 | the credential part of `update_org`; stated by `RegistryInvariant.CredentialsWritten` and `RegistryInvariant.UpdateCredentialsPreservesInv` |
| Registry.RenameOrg | main.py:150-166 | the rename part of `update_org`: an unchanged name answers Ok, a registered target 400, an engine refusal 500, and a new unregistered name the engine accepts answers Ok; stated by `RegistryProperties.RenameOrgRefusals` and `RegistryProperties.RenameOrgMoves` |
| Registry.UpdateOrg | main.py:125-168 | `update_org` as a store step; stated by `RegistryProperties.UpdateOrgAnswer`, `RegistryProperties.UpdateOrgNeverRenames` and the error lemmas below |
| Registry.DeleteOrg | main.py:170-196 | `delete_org` for given claims; stated by `RegistryProperties.DeleteOrgPermittedIff` and `RegistryProperties.DeleteOrgRemoves` |
| Registry.LoginPayload | main.py:208-213 | the claims signed at login: the administrator's id, its first linked record's id or none, its e-mail (`RegistryProperties.AdminLoginClaims`) |
| Registry.AdminLogin | main.py:198-215 | every refusal is 401 "Invalid credentials"; an unknown e-mail is refused; a success carries the requested e-mail and expires `ttl` seconds after `now` |
| RegistryInvariant.ProvisionKeepsLinks | main.py:97-113 | appending an administrator and a record with fresh ids, a fresh name and a fresh e-mail keeps ids issued, uniqueness and links |
| RegistryInvariant.ProvisionKeepsRegistry | main.py:100-113 | appending a record whose partition name is derived from its name keeps the registry consistent |
| RegistryInvariant.CreateOrgPreservesInv | main.py:79-115 | `create_org` preserves the store invariant |
| RegistryInvariant.CreatedOrgKeepsInv | main.py:97-115 | the successful branch of `create_org` preserves the store invariant |
| RegistryInvariant.AdminRewriteKeepsInv | main.py:145-147 | rewriting an administrator in place with its id kept and an e-mail no other administrator has keeps the invariant |
| RegistryInvariant.FindAdminAfterRewrite | main.py:145-147 | the lookup that found an administrator still finds it at the same position after a rewrite that still matches |
| RegistryInvariant.CredentialsWritten | main.py:134-147 | when the credential step writes, the new administrators are the old ones with exactly the linked administrator's e-mail and/or hash replaced |
| RegistryInvariant.UpdateCredentialsPreservesInv | main.py:134-147 | the credential step keeps the invariant and changes neither the records, the partitions nor the counter |
| RegistryInvariant.RenameOfStrippedNameFails | main.py:150-161 | for a consistent record, renaming to its stripped name leaves the store unchanged, and is an error exactly when the name had padding |
| RegistryInvariant.UpdateOrgPreservesInv | main.py:125-168 | `update_org` preserves the store invariant |
| RegistryInvariant.RemoveOrgKeepsInv | main.py:194 | removing a record keeps the registry consistent and unique |
| RegistryInvariant.RemoveAdminKeepsUnique | main.py:191 | removing an administrator keeps administrator ids and e-mails unique |
| RegistryInvariant.RemovalKeepsLinks | main.py:188-194 | removing a record together with its administrator leaves every other record's administrator in place |
| RegistryInvariant.DeletedOrgKeepsInv | main.py:182-194 | the permitted branch of `delete_org` preserves the store invariant |
| RegistryInvariant.DeleteOrgPreservesInv | main.py:170-196 | `delete_org` preserves the store invariant |
| RegistryProperties.FindOrgByUniqueName | main.py:82 | with unique names, the name lookup finds exactly the record with that name |
| RegistryProperties.FindOrgByUniqueId | main.py:194 | with unique ids, the id lookup finds exactly that record |
| RegistryProperties.FindOrgByUniqueAdminRef | main.py:208 | with unique administrator links, the link lookup finds exactly that record |
| RegistryProperties.FindAdminByUniqueId | main.py:191 | with unique administrator ids, the id lookup finds exactly that administrator |
| RegistryProperties.FindAdminByUniqueEmail | main.py:201 | with unique e-mails, the e-mail lookup finds exactly that administrator |
| RegistryProperties.FindOrgAppended | main.py:113 | a lookup that misses every older record and matches an inserted one finds the inserted one |
| RegistryProperties.FindAdminAppended | main.py:97 | the same for an inserted administrator |
| RegistryProperties.CreateOrgNameTaken | main.py:82-83 | a registered name is refused with 400 "Organization name already exists" and the store is unchanged |
| RegistryProperties.CreateOrgEmailTaken | main.py:91-95 | a fresh name with an e-mail already in use is refused with 400 "Admin email already used" and the store is unchanged |
| RegistryProperties.CreateOrgSucceedsIff | main.py:79-115 | creation succeeds iff both the name and the e-mail are unused; a refused creation leaves the store unchanged |
| RegistryProperties.CreateOrgProvisions | main.py:97-115 | success appends exactly one administrator and one record, with ids no document had; the record has the requested name, the derived partition name and a link to the new administrator; the administrator has the e-mail and hash; that partition gains the `collection_created` marker and no other partition changes; the response is the record's id, name and partition name |
| RegistryProperties.CreateOrgSparesMasterCollections | main.py:100-104 | the partition a creation writes to starts with `org_` and is never a master collection |
| RegistryProperties.CreateThenGet | main.py:79-123 | after a successful creation `get_org` returns the new record, and a second creation under the same name is refused with 400 |
| RegistryProperties.CreatedAdminFound | main.py:201 | after a creation the e-mail lookup finds the new administrator with the stored hash |
| RegistryProperties.CreatedRecordLinked | main.py:208 | after a creation the link lookup for the new administrator finds the new record |
| RegistryProperties.CreateThenLogin | main.py:198-215 | the provisioned administrator logs in with the password whose hash was stored, and gets claims naming it, the new record, its e-mail and the expiry |
| RegistryProperties.GetOrgConsistent | main.py:117-123 | a record read back names the partition derived from its name |
| RegistryProperties.UpdateOrgNotFound | main.py:129-131 | an unknown name is refused with 404 and the store is unchanged |
| RegistryProperties.UpdateOrgEmailTaken | main.py:141-144 | a new e-mail used by a different administrator is refused with 400 "Email already in use" and the store is unchanged |
| RegistryProperties.UpdateOrgWritesCredentials | main.py:134-147 | when no other administrator has the new e-mail (the administrator's own current e-mail included), the credential step answers Ok; the new credentials land on the linked administrator alone, and the registry is untouched, however the rename step ends |
| RegistryProperties.UpdateOrgAdminMissing | main.py:134-140 | a credential change for a record whose administrator is missing is a 500 "Admin referenced not found" with the store unchanged |
| RegistryProperties.RenameOrgRefusals | main.py:150-168 | an unchanged name is nothing to do; a registered target name is 400; an engine refusal of an unregistered new name is exactly 500 "Failed renaming collection: " with the engine's reason, and a 500 arises only from an engine refusal; an unregistered new name the engine accepts answers Ok (whose effect `RegistryProperties.RenameOrgMoves` states); every refusal leaves the store unchanged |
| RegistryProperties.RenameOrgMoves | main.py:155-166 | an accepted rename moves the partition's documents to the derived new name and rewrites the record's name and partition name together (keeping it consistent); nothing else changes |
| RegistryProperties.UpdateOrgNeverRenames | main.py:125-168 | under the invariant `update_org` never changes the records, the partitions or the counter |
| RegistryProperties.UpdateOrgAnswer | main.py:150-168 | once the credential step succeeds, `update_org` succeeds iff the request name has no surrounding whitespace, and the store is what the credential step left |
| RegistryProperties.UpdateOrgPaddedName | main.py:150-161 | once the credential step succeeds, a padded request name gives 400 "Target organization name already exists" when its stripped form is registered, and otherwise 500 "Failed renaming collection: " with the engine's refusal of a self-rename (or of a missing partition) |
| RegistryProperties.UpdateOrgNothingToWrite | main.py:133-168 | without an e-mail or password, `update_org` writes nothing |
| RegistryProperties.DeleteOrgNotFound | main.py:172-174 | an unknown name is refused with 404 and the store is unchanged |
| RegistryProperties.DeleteOrgForbidden | main.py:177-179 | a token naming another record is refused with 403 and the store is unchanged |
| RegistryProperties.DeleteOrgPermittedIff | main.py:177-196 | deleting a known record succeeds iff the token has no organization claim or names this record |
| RegistryProperties.DeleteOrgRemoves | main.py:182-194 | a permitted deletion removes exactly the record, its administrator and its partition; the rest is unchanged |
| RegistryProperties.DeleteThenGet | main.py:170-196 | after a permitted deletion the name is no longer found (404) |
| RegistryProperties.SharedPartitionDropped | main.py:182-185 | when two records' names sanitize alike, deleting one leaves the other naming a partition that no longer exists |
| RegistryProperties.AdminLoginWrongPassword | main.py:201-205 | a wrong password gets the same 401 "Invalid credentials" as an unknown e-mail |
| RegistryProperties.AdminLoginClaims | main.py:201-214 | a successful login issues the administrator's id, the id of the record it administers (none if it administers none), its e-mail, and the expiry `now + ttl` |
| RegistryProperties.LoginTokenScope | main.py:198-215 | a login token is accepted until it expires; its organization claim permits deleting that record and gets 403 for every other |
| Service.OrgStore.constructor | main.py:21-26 | a new store is empty and satisfies the invariant |
| Service.OrgStore.CreateOrg | main.py:79-115 | keeps the invariant, and leaves exactly the state and outcome `Registry.CreateOrg` describes |
| Service.OrgStore.CreateRecord | main.py:82-115 | the two uniqueness checks and three inserts, in order, produce `Registry.CreateOrg` |
| Service.OrgStore.GetOrg | main.py:117-123 | reads only; success iff a record has the name, and then returns it; otherwise 404 |
| Service.OrgStore.UpdateOrg | main.py:125-168 | a refused token is a 401 with the store unchanged; otherwise exactly `Registry.UpdateOrg`; keeps the invariant |
| Service.OrgStore.UpdateRecord | main.py:129-168 | lookup, credential step, then rename step produce `Registry.UpdateOrg` |
| Service.OrgStore.UpdateAdminCredentials | main.py:134-147 | the guarded administrator writes produce `Registry.UpdateCredentials` |
| Service.OrgStore.RenameRecord | main.py:150-166 | the rename checks, partition rename and staged `updates` write produce `Registry.RenameOrg` |
| Service.OrgStore.DeleteOrg | main.py:170-196 | a refused token is a 401 with the store unchanged; otherwise exactly `Registry.DeleteOrg` with the token's claims; keeps the invariant |
| Service.OrgStore.DeleteRecord | main.py:172-196 | the lookup, the 403 check and the three removals produce `Registry.DeleteOrg` |
| Service.OrgStore.AdminLogin | main.py:198-215 | reads only; every refusal is 401 "Invalid credentials"; a success expires `ttl` after `now` and carries the e-mail; exactly `Registry.AdminLogin` |

## Left out

- The MongoDB client, database handles and index creation (main.py:15-26) are not modelled. The collections are values in the store. The unique index on `organization_name` is the `UniqueOrgs` part of the invariant, not modelled code.
- FastAPI routing, dependency injection and `HTTPException` transport are not modelled. A handler's outcome is a value or a status with a detail string. Response envelopes (`{"status": "success", ...}`) are reduced to their payload.
- Pydantic validation (`min_length`, `EmailStr`) is not modelled, because e-mail parsing is library behaviour. The model accepts any strings. The properties hold without the length bounds.
- bcrypt hashing and checking are not modelled, because they are foreign cryptography with random salts. The hash of the request password is a parameter. Password checking is a parameter `checkpw`.
- JWT signing and signature checking are not modelled, because they are library cryptography. A token is decoded by an abstract `verify` parameter, and only the expiry rule is modelled. The secret, the algorithm and the environment variables are not modelled. `JWT_EXP` is the parameter `ttl`, and `Tokens.DefaultJwtExpSeconds` is its default.
- The clock is a parameter `now`. One reading is used for every `created_at` of a `create_org` call, where the program reads the clock three times; the readings are never compared.
- Concurrency is not modelled: the program has no coordination between simultaneous requests, and the model runs one handler at a time.
- Unicode is not modelled: `str.isspace`, `str.isalnum` and `str.lower` are modelled on ASCII only. The model treats every non-ASCII character as neither whitespace nor alphanumeric, so `org_collection_name` turns it into `_` and never strips it. Python keeps a non-ASCII letter or digit lower-cased, strips non-ASCII whitespace, and `'İ'.lower()` is even two characters long. So `SanitizerProperties.CollectionNameShape` and `SanitizerProperties.CollectionNameCharset` hold of the program only for ASCII names.
- Storage failures are not modelled. The exceptions swallowed during delete (main.py:182-185, main.py:190-193) are ignored, so dropping a partition and deleting a document always succeed in the model.
- The rename failure reasons are not the storage engine's exact message texts. The model keeps the engine's three refusal conditions and the `Failed renaming collection: ` prefix.
- `find_one` returns documents in natural order, which the model takes to be insertion order.
- The guard `existing.get("admin_id")` in `delete_org` is not modelled as a branch, because every record carries an administrator link by construction.
- The conversions between `ObjectId` and its string form are not modelled: identifiers are natural numbers, compared directly.
- `create_org` computes the password hash before the e-mail check. The model cannot show this order, because hashing does not change the store.
