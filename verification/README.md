# Thunder: models and proofs of the stateful cores

Thunder is an identity server whose services check requests with some queries and then write SQL tables. This
project models the parts of it in which the checks and the writes have to fit together, and proves what they keep
over all runs. `dafny verify dfyconfig.toml` checks everything.

| module | what it models |
|---|---|
| OrganizationUnits, OrganizationUnitPaths, OrganizationUnitService | the organization-unit table as a forest that can be re-parented; ancestor walks; lookup by a path of handles |
| ResourcePermissions, ResourceSteps, ResourceService | resource servers, resources and actions, and the permission strings printed from them |
| Certificates, CertificateStore, CertificateService | the certificate table behind a cache by ID and a cache by reference |
| ApplicationRows, Float64 | the codec between an application and its rows, JSON numbers included |
| ApplicationStore, ApplicationCaches, ApplicationService | the application tables, the three caches in front of them, and the create and update sagas that also write certificates |
| RoleQueries, RoleTables, RoleService, Listings | roles, permissions and assignments of all deployments, and the authorization query in its two SQL dialects |
| Pagination | the link builder of the list endpoints |
| IdpProperties | normalisation of identity provider properties |
| UserIndex | the attribute index of users and the lookup through it |
| SqlPlaceholders | the binding rules of numbered and positional placeholders in PostgreSQL and SQLite, and when they agree |
| Text, Prelude | string helpers and shared types |

A table is a map or a set. A service call is one atomic step. Where the source updates a table or a cache, the model
is a class whose methods do the same steps in the same order; each is proved against a step function
(`OpError`, `Apply`) or an abstract state, and the lemmas about runs are about those. A statement that may fail, a
Set that a cache may refuse, and the entries that any Get or Set lets expire or evicts are nondeterministic choices
inside the methods, so a method's contract covers every way they can go. The flag `reliable` of a store says that its
database takes every statement that the constraints allow; under it the contracts also say exactly when a call
succeeds, so that failing is never an excuse.

Every step function is tied to the entities by lemmas that do not mention it: which calls are accepted
(`...AcceptedIff`), that a refusal names the first reason that holds (`...RefusalsAreTrue`), and which rows a call writes
(`...CallWrites`). The codec of applications has the same: which fields survive (`ReadBackAgrees`) and which
applications come back unchanged (`ReadsBackUnchangedIff`).

What holds unconditionally, and what the proofs turned up. Each way in which the code fails an expectation comes with
its exact condition and with an input that shows it:

- The organization-unit forest survives every run. Writing a unit back unchanged fails below a parent
  (`NoOpUpdateSucceedsIffRoot`, `NoOpUpdateIsRefused`), and a unit whose stored handle has outer white space is
  accepted and then found by no path (`FoundByPathIff`, `UntrimmedHandleIsUnreachable`).
- Permissions identify resources, and actions, within a server. A resource and an action may still share one
  (`ResourceActionCollisionIff`, `ResourceAndActionCollide`).
- The certificate caches are coherent because the application service passes the ID it replaces; the certificate
  service does not enforce that (`UpdateByIDCoherentIff`, `MismatchedUpdateIsIncoherent`).
- Create and update of an application leave both stores as they were on any error unless the compensating call itself
  fails. The undo of an update goes by the ID in the path and the step by the ID in the request, so the two have to
  agree (`UndoRestoresIff`, `MisdirectedUndo`); the HTTP handler makes them agree. Delete has no undo
  (`DeleteLeavesOrphanIff`, `DeleteLeavesOrphan`).
- A token validity period passes through a double when the application is read; `RoundTripsIff` says which survive,
  and 2^53 + 1 does not (`SmallPeriodsRoundTrip`).
- The next and last links come apart on unaligned offsets and when the next offset overflows
  (`NextAndLastComeApartIff`, `AlignedNextIffLast`, `UnalignedLinks`, `OverflowingLinks`).

## How to read the assumptions

- `generated...` parameters and the `id` of a create are the UUIDs and client IDs of the generators. Where a method
  needs one to be unused it requires that; elsewhere a collision is refused by the tables' unique constraints.
- Answers of other services (organization units, users, groups) and verdicts of checks that read no modelled table
  (flow graphs, branding, redirect URIs, grant types) are inputs.
- Cascading deletes and unique constraints are those of `backend/dbscripts`.

## Model

| member | source | states |
|---|---|---|
| `OrganizationUnits.WalkBound` | backend/internal/ou/service.go:609-620 | The measure of the ancestor loops: a walk up an acyclic table passes at most as many units as the table has, because the units passed are distinct. |
| `OrganizationUnits.WalkEnds` | backend/internal/ou/service.go:609-620 | Every parent chain of an acyclic table without dangling parents ends within the size of the table. |
| `OrganizationUnits.AncestorOrder` | backend/internal/ou/service.go:237-266 | Ancestor-or-self on an acyclic table is reflexive, antisymmetric and transitive. |
| `OrganizationUnits.AncestorsFormAChain` | backend/internal/ou/service.go:237-266 | Any two ancestors of one unit are comparable, so the ancestors of a unit form a chain. |
| `OrganizationUnits.ReparentAcyclicIff` | backend/internal/ou/service.go:348-350 | Changing one row keeps the table acyclic if and only if the row is no ancestor-or-self of its new parent: the check is sound and necessary. |
| `OrganizationUnits.GuardedDeleteRemovesOneRow` | backend/internal/ou/service.go:451-470 | Under the children guard the parent cascade removes exactly the one row. |
| `OrganizationUnits.CreateKeepsForest` | backend/internal/ou/service.go:115-176 | An accepted create keeps the forest: no cycle, no dangling parent, no two siblings (roots included) with one name or one handle. |
| `OrganizationUnits.UpdateKeepsForest` | backend/internal/ou/service.go:323-396 | An accepted update, re-parenting included, keeps the forest although the conflict check is skipped in one case. |
| `OrganizationUnits.DeleteKeepsForest` | backend/internal/ou/service.go:451-470 | An accepted delete keeps the forest. |
| `OrganizationUnits.RunKeepsForest` | backend/internal/ou/service.go:115-176 | Every run of creates, re-parenting updates and deletes keeps the forest. |
| `OrganizationUnits.ReachableTablesAreForests` | backend/internal/ou/service.go:115-176 | Every table reachable from the empty one is a forest. |
| `OrganizationUnits.NoOpUpdateSucceedsIffRoot` | backend/internal/ou/service.go:352-378 | Finding: writing a unit back unchanged succeeds if and only if it is a root, because the conflict queries find the unit itself below a parent. |
| `OrganizationUnits.UpdateUnderSameParentIff` | backend/internal/ou/service.go:352-378 | Exactly when an update that keeps a unit below its parent is accepted: name and handle must both be unused there, hence both change. |
| `OrganizationUnits.NoOpUpdateIsRefused` | backend/internal/ou/service.go:352-378 | Two creates reach a table whose child unit cannot be written back unchanged. |
| `OrganizationUnits.CreateAcceptedIff` | backend/internal/ou/service.go:115-176 | A create is accepted exactly when name and handle are proper, the parent exists, nobody below that parent has the name or the handle, and the ID is new. |
| `OrganizationUnits.UpdateAcceptedIff` | backend/internal/ou/service.go:323-396 | An update is accepted exactly when, besides, the unit is no ancestor of its new parent; at the new place the unit itself counts among those who have a name, unless it is a root and stays one. |
| `OrganizationUnits.DeleteAcceptedIff` | backend/internal/ou/service.go:451-470 | A delete is accepted exactly when the unit exists and neither a unit nor a member hangs on it. |
| `OrganizationUnits.RefusalsAreTrue` | backend/internal/ou/service.go:323-396 | Every refusal names the first reason, in the order of the code, that holds in the table. |
| `OrganizationUnits.AcceptedCallWrites` | backend/internal/ou/service.go:379-395 | After an accepted call the row of the unit is the request, or gone, and every other row is as before. |
| `OrganizationUnits.UnnamedRowStays` | backend/internal/ou/service.go:379-395 | Over any run, a unit that no call names keeps its row. |
| `OrganizationUnits.WrittenRowStays` | backend/internal/ou/service.go:379-395 | What an accepted create or update wrote is what the unit is until a later call names it. |
| `OrganizationUnitPaths.PathIsUnique` | backend/internal/ou/store.go:163-210 | A unit has at most one root-to-node handle path. |
| `OrganizationUnitPaths.PathsAreInjective` | backend/internal/ou/store.go:163-210 | Distinct units have distinct handle paths. |
| `OrganizationUnitPaths.PathExists` | backend/internal/ou/store.go:163-210 | In a forest every unit has a handle path. |
| `OrganizationUnitPaths.NextRowExists` | backend/internal/ou/store.go:176-198 | A unit whose path runs through the current row has a matching row at the next step, so the lookup does not stop early. |
| `OrganizationUnitPaths.PathSegmentsAtSlash` | backend/internal/ou/service.go:648-666 | Path preprocessing distributes over a slash wherever it is put and however often. |
| `OrganizationUnitPaths.OuterSlashesIgnored` | backend/internal/ou/service.go:654-666 | Leading and trailing slashes do not change what a path stands for. |
| `OrganizationUnitPaths.ReadPathOfJoin` | backend/internal/ou/service.go:648-666 | Preprocessing the slash-join of trimmed, non-blank, slash-free handles gives the handles back. |
| `OrganizationUnitPaths.FindsAtMostOne` | backend/internal/ou/store.go:163-210 | A path string finds at most one unit. |
| `OrganizationUnitPaths.FoundByPathIff` | backend/internal/ou/service.go:648-666 | Path lookup inverts path printing exactly where it can: a unit is found by some path string if and only if every handle above and including it is trimmed, and then the plain join finds it. |
| `OrganizationUnitPaths.UntrimmedHandleIsUnreachable` | backend/internal/ou/service.go:635-646 | Finding: a reachable table with a unit that no path string finds, since stored handles are not trimmed and path segments are. |
| `OrganizationUnitService.ValidateAndProcessHandlePath` | backend/internal/ou/service.go:648-666 | The loop returns the trimmed, non-blank pieces in order, or an error for a path of white space or of slashes. |
| `OrganizationUnitService.OrganizationUnitService.CreateOrganizationUnit` | backend/internal/ou/service.go:115-176 | Guards in the order of the code. On success the ID was new and its row is the request; on an error nothing changes; the forest stays. |
| `OrganizationUnitService.CheckCircularDependency` | backend/internal/ou/service.go:596-623 | Terminates, and errs if and only if the unit is an ancestor-or-self of the proposed parent. |
| `OrganizationUnitService.OrganizationUnitService.IsParent` | backend/internal/ou/service.go:237-266 | Terminates and decides the ancestor-or-self relation; a missing child is an error unless both IDs are equal. |
| `OrganizationUnitService.OrganizationUnitService.UpdateOrganizationUnit` | backend/internal/ou/service.go:269-291 | A missing unit is an error. On success the row of the unit is the request, its new parent included, and no other row has changed; on an error nothing changes; the forest stays. |
| `OrganizationUnitService.OrganizationUnitService.UpdateOUInternal` | backend/internal/ou/service.go:323-396 | The guards in the order of the code, with the pointer comparison of the parents as written. On success the row of the unit is the request and no other row has changed. |
| `OrganizationUnitService.OrganizationUnitService.DeleteOrganizationUnit` | backend/internal/ou/service.go:399-420 | On success the table loses exactly this row. |
| `OrganizationUnitService.OrganizationUnitService.DeleteOUInternal` | backend/internal/ou/service.go:451-470 | Refused while children, users or groups exist; otherwise exactly one row goes. |
| `OrganizationUnitService.FindByHandles` | backend/internal/ou/store.go:163-210 | The downward loop finds a unit if and only if the handles are its root-to-node path. |
| `OrganizationUnitService.OrganizationUnitService.GetOrganizationUnitByPath` | backend/internal/ou/service.go:198-219 | Finds exactly the unit the path string stands for, with the right one of two errors otherwise. |
| `OrganizationUnitService.OrganizationUnitService.UpdateOrganizationUnitByPath` | backend/internal/ou/service.go:294-321 | On success the row of the unit the path finds is the request and no other row has changed; without such a unit the right one of two errors, and nothing changes. |
| `OrganizationUnitService.OrganizationUnitService.DeleteOrganizationUnitByPath` | backend/internal/ou/service.go:423-448 | Deletes the unit the path finds and no other; without such a unit the right one of two errors, and nothing changes. |
| `ResourcePermissions.HandlesAreClean` | backend/internal/resource/service.go:1022-1035 | Every handle on a root-to-resource path is free of the delimiter and 1 to 100 characters long. |
| `ResourcePermissions.PermissionIsJoin` | backend/internal/resource/service.go:1047-1057 | A stored permission is the delimiter-join of the handles from the root down. |
| `ResourcePermissions.PermissionSplits` | backend/internal/resource/service.go:1047-1057 | Splitting a stored permission at the delimiter recovers the handle path. |
| `ResourcePermissions.DerivedSplits` | backend/internal/resource/service.go:1047-1057 | The same for whatever hangs below a resource, actions included. |
| `ResourcePermissions.HandlesAreInjective` | backend/internal/resource/store.go:433-459 | Resources of one server with one handle path are one resource, by the parent-scoped handle check. |
| `ResourcePermissions.ResourcePermissionsAreInjective` | backend/internal/resource/service.go:341-405 | Within a server two resources with equal permissions are the same resource. |
| `ResourcePermissions.ActionPermissionsAreInjective` | backend/internal/resource/service.go:583-639 | Within a server two actions with equal permissions are the same action. |
| `ResourcePermissions.ResourceActionCollisionIff` | backend/internal/resource/service.go:583-639 | Finding: a resource and an action of one server carry one permission exactly when they hang at one place under one handle; nothing checks the two against each other. |
| `ResourcePermissions.PrefixOrderIsTreeOrder` | backend/internal/resource/service.go:1047-1057 | One permission plus the delimiter is a prefix of another if and only if its resource is a strict ancestor. |
| `ResourcePermissions.PermissionLength` | backend/internal/resource/service.go:1022-1035 | A permission at depth n has at most 101 * n - 1 characters. |
| `ResourceSteps.HandleErrorIff` | backend/internal/resource/service.go:1022-1035 | The character scan refuses a non-empty handle exactly when it is too long, has a character outside the alphabet, or contains the delimiter. |
| `ResourceSteps.ServerOpKeepsInv` | backend/internal/resource/service.go:108-178 | Creating or updating a server keeps the invariant: valid delimiters, unique names and identifiers, anchored rows, derived permissions, distinct sibling handles. |
| `ResourceSteps.DeleteServerKeepsInv` | backend/internal/resource/store_constants.go:86-96 | Deleting a server orphans nothing although its guard does not count the actions of resources. |
| `ResourceSteps.CreateResourceKeepsInv` | backend/internal/resource/service.go:341-405 | Creating a resource keeps the invariant. |
| `ResourceSteps.CreateActionKeepsInv` | backend/internal/resource/service.go:583-639 | Creating an action keeps the invariant. |
| `ResourceSteps.RenameOrDeleteKeepsInv` | backend/internal/resource/service.go:486-576 | Updates write names only and guarded deletes orphan nothing: the invariant stays. |
| `ResourceSteps.RunKeepsInv` | backend/internal/resource/service.go:306-336 | Over every run no resource or action outlives its parent or server, and every permission is the one its place derives. |
| `ResourceSteps.RunKeepsIdentity` | backend/internal/resource/store_constants.go:178-187 | Delimiter, server, parent, handle and permission never change after creation, over any run. |
| `ResourceSteps.CreatedPermissionIsFixedAndUnique` | backend/internal/resource/service.go:341-405 | A resource keeps the permission it was created with as long as it lives, and no other resource of its server ever has it meanwhile. |
| `ResourceSteps.ResourceAndActionCollide` | backend/internal/resource/service.go:583-639 | Three creates reach tables in which a resource and an action of one server share a permission. |
| `ResourceSteps.ValidHandleIff` | backend/internal/resource/service.go:1006-1035 | A valid handle has 1 to 100 letters, digits or delimiter characters, none of them the delimiter of the server. |
| `ResourceSteps.ServerAcceptedIff` | backend/internal/resource/service.go:108-336 | Exactly which server calls are accepted; a server may keep its own name and identifier, and none with rows below it may go. |
| `ResourceSteps.ResourceAcceptedIff` | backend/internal/resource/service.go:341-576 | Exactly which resource calls are accepted; a handle has to be new below its own parent only. |
| `ResourceSteps.ActionAcceptedIff` | backend/internal/resource/service.go:583-861 | Exactly which action calls are accepted; a handle has to be new on its own server or resource only. |
| `ResourceSteps.ServerRefusalsAreTrue` | backend/internal/resource/service.go:108-336 | A refused server call names the first reason, in the order of the code, that holds. |
| `ResourceSteps.RowRefusalsAreTrue` | backend/internal/resource/service.go:341-861 | So does a refused resource or action call. |
| `ResourceService.ValidateHandle` | backend/internal/resource/service.go:1022-1035 | The loop answers as the recursive specification and accepts exactly the valid handles. |
| `ResourceService.ResourceService.CreateResourceServer` | backend/internal/resource/service.go:108-178 | Error and new tables are those of the step; on success exactly one server row is added, with the chosen or the default delimiter. |
| `ResourceService.ResourceService.UpdateResourceServer` | backend/internal/resource/service.go:229-303 | Error and new tables are those of the step; on success one server row is rewritten and its delimiter kept. |
| `ResourceService.ResourceService.DeleteResourceServer` | backend/internal/resource/service.go:306-336 | Error and new tables are those of the step; on success the server is gone and no resource or action names it. |
| `ResourceService.ResourceService.CreateResource` | backend/internal/resource/service.go:341-405 | Error and new tables are those of the step; on success one row is added, whose permission is the handle after the parent's permission and the delimiter. |
| `ResourceService.ResourceService.UpdateResource` | backend/internal/resource/service.go:486-532 | Error and new tables are those of the step; on success one name changes and nothing else. |
| `ResourceService.ResourceService.DeleteResource` | backend/internal/resource/service.go:535-576 | Error and new tables are those of the step; refused while children or actions exist, otherwise the resource is gone and nothing else. |
| `ResourceService.ResourceService.CreateAction` | backend/internal/resource/service.go:583-639 | Error and new tables are those of the step; on success one row is added, whose permission is printed below its resource or alone. |
| `ResourceService.ResourceService.UpdateAction` | backend/internal/resource/service.go:750-807 | Error and new tables are those of the step; on success one name changes and nothing else. |
| `ResourceService.ResourceService.DeleteAction` | backend/internal/resource/service.go:812-861 | Error and new tables are those of the step; at most the action goes. |
| `Certificates.ReferenceKeyIsInjective` | backend/internal/cert/cache_backed_store.go:239-243 | On valid reference types the cache key determines type and ID. |
| `Certificates.ReferenceKeyCollidesOnOtherTypes` | backend/internal/cert/cache_backed_store.go:239-243 | On other type strings two references can share a key, so the injectivity needs the type check. |
| `Certificates.HitsAgreeWithTable` | backend/internal/cert/cache_backed_store.go:47-81 | A hit in either cache is what the table would answer. |
| `Certificates.CreateRebinds` | backend/internal/application/service.go:924-954 | A create binds its reference and touches no other; deleting by reference undoes it exactly. |
| `Certificates.UpdateRebinds` | backend/internal/application/service.go:1033-1120 | An update rebinds its reference and touches no other; writing the old row back undoes it exactly. |
| `Certificates.DeleteRebinds` | backend/internal/application/service.go:973-989 | A delete by reference unbinds that reference and no other. |
| `Certificates.RecreateRestoresBindings` | backend/internal/application/service.go:1123-1173 | Deleting a certificate and creating it again under a new ID leaves every reference bound to its old type and value. |
| `Certificates.UpdateByIDCoherentIff` | backend/internal/cert/service.go:142-182 | Exactly when the by-ID update leaves the caches coherent: if and only if the new certificate carries the ID it replaces, which the service does not enforce. |
| `Certificates.MismatchedUpdateIsIncoherent` | backend/internal/cert/service.go:142-182 | A stored certificate and an update of it after which the by-ID cache answers for an ID the table does not have. |
| `Certificates.CreationErrorIff` | backend/internal/cert/service.go:294-334 | Exactly which certificates may be created and stored, and every refusal names the first thing wrong. |
| `CertificateStore.CacheBackedStore.GetCertificateByID` | backend/internal/cert/cache_backed_store.go:47-63 | Answers what the table holds, from the cache or not. |
| `CertificateStore.CacheBackedStore.GetCertificateByReference` | backend/internal/cert/cache_backed_store.go:66-81 | Answers the one certificate of the reference, or that there is none. |
| `CertificateStore.CacheBackedStore.CreateCertificate` | backend/internal/cert/cache_backed_store.go:84-90 | Adds one row under an unused ID and reference or leaves the table alone; caches stay coherent. |
| `CertificateStore.CacheBackedStore.DeleteCertificateByID` | backend/internal/cert/cache_backed_store.go:120-145 | Removes the row and its entries. |
| `CertificateStore.CacheBackedStore.DeleteCertificateByReference` | backend/internal/cert/cache_backed_store.go:148-172 | Removes the rows of the reference and their entries. |
| `CertificateStore.CacheBackedStore.Evict` | backend/internal/system/cache/inmemorycache.go:203-224 | Expired or displaced entries go, whichever they are; what is left is a subcache and as coherent as before. |
| `CertificateStore.CacheBackedStore.CacheCertificate` | backend/internal/cert/cache_backed_store.go:175-205 | Either Set may be refused and each may evict others: every entry left is an old one or the new one, and coherent if the certificate is the stored row. |
| `CertificateStore.CacheBackedStore.UpdateCertificate` | backend/internal/cert/cache_backed_store.go:93-117 | Writes type and value under the old ID and caches the caller's object after dropping the old entries; coherent when the IDs agree. |
| `CertificateService.CertificateService.GetCertificateByID` | backend/internal/cert/service.go:58-79 | The stored certificate, or the error that applies. |
| `CertificateService.CertificateService.GetCertificateByReference` | backend/internal/cert/service.go:82-109 | Type and ID are checked first; then the certificate of the reference or its absence. |
| `CertificateService.CertificateService.CreateCertificate` | backend/internal/cert/service.go:112-139 | Validation and reference check decide; on success exactly one row is added under the generated ID. |
| `CertificateService.CertificateService.UpdateCertificateByReference` | backend/internal/cert/service.go:185-232 | Only a valid certificate with the same reference replaces the row of the reference; what is wrong with the reference or the certificate is the error. |
| `CertificateService.CertificateService.DeleteCertificateByID` | backend/internal/cert/service.go:235-249 | Removes the certificate, or nothing on an error. |
| `CertificateService.CertificateService.DeleteCertificateByReference` | backend/internal/cert/service.go:252-271 | Removes the certificate of a valid reference, or nothing on an error. |
| `CertificateService.CertificateService.UpdateCertificateByID` | backend/internal/cert/service.go:142-182 | Only a valid certificate with the same reference changes the row; the table stays valid for every ID the certificate carries, and the caches coherent when it is the row's own. |
| `Float64.SmallPeriodsRoundTrip` | backend/internal/application/store.go:648-650 | Every period of magnitude up to 2^53 survives, and 2^53 + 1 does not. |
| `Float64.ThroughFloat64Idempotent` | backend/internal/application/store.go:648-650 | A period that was read back and stored again is read back the same. |
| `Float64.RoundTripsIff` | backend/internal/application/store.go:648-650 | An int64 survives the passage through a double if and only if it is a double, that is a multiple of the spacing at its magnitude. |
| `Float64.IsDoubleIff` | backend/internal/application/store.go:648-650 | The integers with a 53-bit significand and a power of two are exactly the multiples of the spacing at their magnitude. |
| `Float64.SpacingIsLeast` | backend/internal/application/store.go:648-650 | The spacing is the least that lets the significand fit: above one, the magnitude is at least 2^52 times it. |
| `Float64.RoundsToNearestEven` | backend/internal/application/store.go:648-650 | Rounding gives a double, no double is nearer, and of two equally near ones it takes the one with the even significand. |
| `ApplicationRows.TokenRoundTrips` | backend/internal/application/store.go:634-659 | The root token object decodes to its normal form: absent when empty, the period rounded to a double. |
| `ApplicationRows.OAuthTokenRoundTrips` | backend/internal/application/store.go:755-844 | The OAuth token objects decode to their normal forms. |
| `ApplicationRows.OAuthRoundTrips` | backend/internal/application/store.go:430-466 | Decoding an encoded OAuth row gives the normal form of the configuration. |
| `ApplicationRows.AppRoundTrips` | backend/internal/application/store.go:662-752 | Decoding the encoded rows of an application gives its normal form. |
| `ApplicationRows.NormalIsIdempotent` | backend/internal/application/store.go:386-466 | Storing what was read and reading it again changes nothing more. |
| `ApplicationRows.OAuthFields` | backend/internal/application/store.go:430-466 | Each member of the stored OAuth JSON spells the field it is named for. |
| `ApplicationRows.AppFields` | backend/internal/application/store.go:386-427 | So does each member of the stored application JSON. |
| `ApplicationRows.SameNormalOAuthIff` | backend/internal/application/store.go:755-844 | Two configurations have one normal form if and only if they agree on every field: IDs, secret, flags, URIs, token periods, and the elements of every list. |
| `ApplicationRows.SameNormalIff` | backend/internal/application/store.go:662-752 | The same for applications; the period of the root token is compared as a double. |
| `ApplicationRows.ReadsBackUnchangedIff` | backend/internal/application/store.go:662-752 | An application is read back as it was stored if and only if its always-filled lists are there, no optional list or token is empty, and the period of its root token is a double. |
| `ApplicationRows.ReadBackAgrees` | backend/internal/application/store.go:386-466 | Whatever was stored, what is read back agrees with it on every field. |
| `ApplicationStore.WriteKeepsContentsValid` | backend/internal/application/service.go:178-186 | A checked write keeps names and client IDs unique. |
| `ApplicationStore.RepresentsAdded` | backend/internal/application/store.go:329-364 | An update that adds an OAuth configuration leaves tables that hold exactly the new contents. |
| `ApplicationStore.RepresentsChanged` | backend/internal/application/store.go:329-364 | So does one that changes it. |
| `ApplicationStore.RepresentsDropped` | backend/internal/application/store.go:329-364 | So does one that drops it, although the row is deleted by client ID: that ID finds no other application. |
| `ApplicationStore.RepresentsUpdated` | backend/internal/application/store.go:329-364 | The three-way OAuth step of an update, decided by the caller's normal form of the old application, leaves exactly the new contents. |
| `ApplicationStore.RepresentsDeleted` | backend/internal/application/store.go:367-383 | A delete with its cascade leaves tables that hold exactly the other applications. |
| `ApplicationStore.ReadAppIsNormal` | backend/internal/application/store.go:294-326 | The joined row read back is the normal form of the stored application. |
| `ApplicationStore.ApplicationStore.CreateApplication` | backend/internal/application/store.go:92-119 | Both rows or none. |
| `ApplicationStore.ApplicationStore.GetApplicationByID` | backend/internal/application/store.go:284-286 | The normal form of the stored application, which agrees with it on every field, or that there is none. |
| `ApplicationStore.ApplicationStore.GetApplicationByName` | backend/internal/application/store.go:289-291 | The same for the application of that name, or that there is none. |
| `ApplicationStore.ApplicationStore.GetOAuthApplication` | backend/internal/application/store.go:176-281 | The normal form of the configuration with that client ID, which agrees with it on every field, or that there is none. |
| `ApplicationStore.ApplicationStore.UpdateApplication` | backend/internal/application/store.go:329-364 | All statements of the update or none. |
| `ApplicationStore.ApplicationStore.DeleteApplication` | backend/internal/application/store.go:367-383 | The application and its OAuth row, or nothing. |
| `ApplicationCaches.CachedApplicationStore.CreateApplication` | backend/internal/application/cache_backed_store.go:48-54 | The store's answer, with coherent caches. |
| `ApplicationCaches.CachedApplicationStore.UpdateApplication` | backend/internal/application/cache_backed_store.go:125-144 | The store's answer, with the old keys dropped and coherent caches. |
| `ApplicationCaches.CachedApplicationStore.DeleteApplication` | backend/internal/application/cache_backed_store.go:147-177 | The store's answer, with the old keys dropped and coherent caches. |
| `ApplicationCaches.CachedApplicationStore.Evict` | backend/internal/system/cache/inmemorycache.go:203-224 | Expired or displaced entries go, whichever they are; what is left are subcaches and as coherent as before. |
| `ApplicationCaches.CachedApplicationStore.CacheApplication` | backend/internal/application/cache_backed_store.go:180-208 | Any of the three Sets may be refused and each may evict others: every entry left is an old one or the new one, and the caches stay coherent. |
| `ApplicationCaches.CachedApplicationStore.GetApplicationByID` | backend/internal/application/cache_backed_store.go:87-103 | An application that agrees with the stored one on every field, hit or miss, over every run with refused Sets and entries that expire or are evicted at any Get or Set. |
| `ApplicationCaches.CachedApplicationStore.GetApplicationByName` | backend/internal/application/cache_backed_store.go:106-122 | The same for a lookup by name. |
| `ApplicationCaches.CachedApplicationStore.GetOAuthApplication` | backend/internal/application/cache_backed_store.go:67-84 | The same for a lookup by client ID. |
| `ApplicationService.CertStepRebinds` | backend/internal/application/service.go:1033-1120 | The certificate step of an update binds the application to the requested certificate and touches no other. |
| `ApplicationService.ApplicationService.ProcessInboundAuthConfig` | backend/internal/application/service.go:794-866 | An accepted client ID is used by no other application, although the check reads a cache; a refusal is true of the stored applications. |
| `ApplicationService.ApplicationService.CheckName` | backend/internal/application/service.go:178-186 | The name check through the cache is exact unless the database fails. |
| `ApplicationService.ApplicationService.ValidateApplication` | backend/internal/application/service.go:168-265 | An accepted request may be written, and what is to be stored has the request's fields; an error that names a conflict is true of the stored applications, and one that blames the request is true of it. |
| `ApplicationService.ApplicationService.CheckUpdate` | backend/internal/application/service.go:418-540 | The checks before an update: exact with a reliable database, and refusals are true of the stored applications and of the request in any case. |
| `ApplicationService.ApplicationService.UpdateApplicationCertificate` | backend/internal/application/service.go:1033-1120 | Change, create, delete or nothing. On success the application is bound to the type and value the request names, or to nothing if it names none; on an error the certificates are unchanged, and the error is true of the request. |
| `ApplicationService.UndoRestoresIff` | backend/internal/application/service.go:1123-1173 | The undo restores every binding if and only if the request's ID is the path's or the step created no certificate. |
| `ApplicationService.MisdirectedUndo` | backend/internal/application/service.go:1123-1173 | With two different IDs the undo of a created certificate keeps it and deletes another application's. |
| `ApplicationService.DeleteLeavesOrphanIff` | backend/internal/application/service.go:601-628 | A delete leaves the certificate behind exactly when the application's delete was taken, the certificate's was refused, and a certificate was bound. |
| `ApplicationService.DeleteLeavesOrphan` | backend/internal/application/service.go:601-628 | A valid state and refused statement that leave an orphan. |
| `ApplicationService.ApplicationService.CreateApplication` | backend/internal/application/service.go:81-165 | Success: every stored field is the request's, the client ID the one asked for or the generated one, and the certificate bound has the request's own type and value. Error: true of the request and of the stored applications, and neither store has changed, unless the compensating delete itself failed, and then exactly the created certificate is left. With reliable databases it succeeds if and only if the request is complete, shares no name or client ID with a stored application, and its certificate is proper and new. |
| `ApplicationService.ApplicationService.RollbackCertificateUpdate` | backend/internal/application/service.go:1123-1173 | Each undo branch leaves the specified table: the old one after an update, the old type and value under the new ID after a delete, and no certificate of the application after a create. The old bindings are back exactly under the condition above; its own validation never fails, only the database can. |
| `ApplicationService.ApplicationService.UpdateApplication` | backend/internal/application/service.go:418-598 | For every request ID. Success: every stored field is the request's, and the certificate bound has the request's own type and value, or there is none. Error: true, the applications are unchanged and the certificates have their old type and value, unless the undo itself failed, and then the certificate step stands, or it was misdirected. With reliable databases it succeeds if and only if the request is complete, shares no name or client ID with another stored application, and its certificate is proper. |
| `ApplicationService.ApplicationService.DeleteApplication` | backend/internal/application/service.go:601-628 | For every choice of refused statements: the application is gone unless its own delete was refused, and the call succeeds exactly when neither was, and then no certificate of the application is left. |
| `ApplicationService.RequestedCertificateIs` | backend/internal/application/service.go:893-921 | A request is refused exactly when it asks for something other than a non-empty JWKS or a JWKS_URI with a valid URI, with the error that applies; what it asks for has its own type and value. |
| `ApplicationService.CreateAllowedIff` | backend/internal/application/service.go:168-265 | Which creates the checks let through, in terms of the stored names and client IDs. |
| `ApplicationService.UpdateAllowedIff` | backend/internal/application/service.go:418-540 | The same for updates. |
| `ApplicationService.ApplicationService.CheckChange` | backend/internal/application/service.go:448-540 | The checks of an update against the application found: exact with a reliable database, and refusals are true. |
| `ApplicationService.ApplicationService.CreateApplicationCertificate` | backend/internal/application/service.go:924-954 | Stores the certificate if there is one; a client error means an improper certificate or a bound reference, a server error a failing database or a used ID. |
| `ApplicationService.ApplicationService.RollbackAppCertificateCreation` | backend/internal/application/service.go:958-970 | The certificate of the application is gone, unless the database refused. |
| `ApplicationService.ApplicationService.StoreWithCertificate` | backend/internal/application/service.go:81-115 | Both writes of a create with the undo between them: both, or none, or exactly the certificate when its undo failed. |
| `RoleQueries.PostgresMeansIntended` | backend/internal/role/storeconstants.go:136-220 | The numbered form with the argument list is the query with the values in place. |
| `RoleQueries.SqliteMeansIntended` | backend/internal/role/storeconstants.go:136-220 | So is the positional form with its one shared named parameter and the same argument list. |
| `RoleQueries.SqliteFormIndexes` | backend/internal/role/storeconstants.go:143-146 | In SQLite's numbering the three uses of $1 are argument one and the question marks are two, three and so on. |
| `RoleQueries.IntendedIsAuthorized` | backend/internal/role/storeconstants.go:143-146 | That query selects exactly the requested permissions held through a user or group assignment in the deployment. |
| `RoleQueries.BothDialectsAreAuthorized` | backend/internal/role/storeconstants.go:136-220 | Both dialects select that set, for every user, group list, non-empty request and database. |
| `RoleQueries.BuildAuthorizedPermissionsQuery` | backend/internal/role/storeconstants.go:136-220 | The loops build the two forms and the one argument list. |
| `RoleQueries.AuthorizedIff` | backend/internal/role/storeconstants.go:143-146 | A permission is authorized exactly when it is requested and some role of the deployment has it that is assigned to the user or to one of the groups. |
| `RoleTables.RunKeepsValid` | backend/internal/role/store.go:105-134 | In every reachable state each assignment and permission row belongs to a live role, and no two roles of one unit share a name. |
| `RoleTables.AuthorizedTracesToLiveRole` | backend/internal/role/store.go:444-475 | Every authorized permission comes from an existing role of that deployment that holds it and is assigned to the caller. |
| `RoleTables.OnlyHoldersNotice` | backend/internal/role/storeconstants.go:143-146 | A change of one role's permission rows changes nothing for callers without that role. |
| `RoleTables.DeleteChangesNobody` | backend/internal/role/service.go:253-291 | A successful role delete changes nobody's authorized set; deleting a missing role changes nothing at all. |
| `RoleTables.RemoveUndoesAddIff` | backend/internal/role/store.go:296-323 | A bulk remove brings back what was there before a bulk add exactly when none of the assignments was there, which an accepted add guarantees. |
| `RoleTables.AddUndoesRemoveIff` | backend/internal/role/store.go:296-323 | A bulk add brings back what was there before a bulk remove exactly when all of the assignments were there; after an accepted remove the add is accepted exactly when the assignees are known and none is listed twice. |
| `RoleTables.UpdateBackRestores` | backend/internal/role/store.go:238-272 | Updating back with the earlier permissions restores the tables, and exactly when that call is accepted. |
| `RoleTables.SliceOfRun` | backend/internal/role/store.go:105-323 | The rows of one deployment after a run are what that deployment's own calls make of its own rows. |
| `RoleTables.DeploymentsAreIsolated` | backend/internal/role/store.go:105-323 | Two histories that agree on a deployment authorize alike there, whatever the other deployments do. |
| `RoleTables.UpdateReachesHoldersOnly` | backend/internal/role/service.go:191-250 | A role update changes nothing for callers without the role; its holders hold afterwards exactly the requested new permissions and what they hold through other roles. |
| `RoleTables.AcceptedIff` | backend/internal/role/service.go:108-429 | Exactly which of the five role calls are accepted. |
| `RoleTables.RefusalsAreTrue` | backend/internal/role/service.go:108-429 | Every refusal names the first reason, in the order of the code, that holds. |
| `RoleTables.AcceptedCallWrites` | backend/internal/role/store.go:105-323 | After an accepted create the permission rows and the assignment rows of the role are exactly those requested; after an update its permission rows are; after a delete there is none; a bulk change adds or removes exactly the assignments named. Rows of other roles stay. |
| `RoleTables.AuthorizedByRole` | backend/internal/role/storeconstants.go:143-146 | What a caller may do is what other roles give and, if the role is assigned to the caller, what it gives. |
| `RoleTables.OtherRolesStay` | backend/internal/role/store.go:105-323 | No accepted call touches what callers hold through other roles or in other deployments. |
| `RoleTables.AssignedAfter` | backend/internal/role/store.go:105-323 | Who holds the role after an accepted call. |
| `RoleTables.CreateReachesAssigneesOnly` | backend/internal/role/service.go:108-165 | Creating a role gives its assignees the requested ones of its permissions on top of what they had, and everybody else nothing. |
| `RoleTables.AddReachesAssigneesOnly` | backend/internal/role/service.go:364-397 | Adding assignments gives the assignees the requested ones of the permissions of the role on top of what they had, and everybody else nothing. |
| `RoleTables.RemoveReachesAssigneesOnly` | backend/internal/role/service.go:400-429 | Removing assignments takes the permissions of the role, unless held otherwise, from those with no assignment of it left, and changes nothing for the others. |
| `Listings.ListingIsUnique` | backend/internal/role/storeconstants.go:201-210 | A set of permissions has exactly one sorted duplicate-free listing. |
| `Listings.OrderBy` | backend/internal/role/storeconstants.go:201-210 | Sorting a distinct answer gives that listing. |
| `Listings.LessIff` | backend/internal/role/storeconstants.go:201-210 | The listing order is the lexicographic one: a proper prefix first, otherwise the smaller character at the first difference. |
| `RoleService.AddPermissionsToRole` | backend/internal/role/store.go:360-373 | The insert loop adds all rows, none of which was there, or fails. |
| `RoleService.AddAssignmentsToRole` | backend/internal/role/store.go:376-389 | The insert loop adds all rows, none of which was there, or fails. |
| `RoleService.RemoveAssignmentsFromRole` | backend/internal/role/store.go:308-323 | The delete loop removes all the rows named, or fails. |
| `RoleService.ValidateAssignmentsRequest` | backend/internal/role/service.go:505-520 | Empty list, bad type and empty ID are told apart; otherwise every assignment is well-formed. |
| `RoleService.UniqueStrings` | backend/internal/system/utils/sliceutil.go:121-137 | The same strings without duplicates. |
| `RoleService.ValidateAssignmentIDs` | backend/internal/role/service.go:523-571 | Unless a service fails, an error exactly when some user or group is unknown. |
| `RoleService.AnswerIsAuthorized` | backend/internal/role/store.go:444-475 | Whatever statement is run with its dialect's binding, its answer is the authorized set. |
| `RoleService.Execute` | backend/internal/role/store.go:459-475 | The rows are the sorted listing of what the bound statement selects. |
| `RoleService.RoleService.Commit` | backend/internal/role/store.go:534-556 | The pending tables or the old ones. |
| `RoleService.RoleService.CreateRole` | backend/internal/role/service.go:108-165 | The role with all its permissions and assignments, or nothing; the error is the step's own unless a statement failed. AcceptedCallWrites says which rows those are. |
| `RoleService.RoleService.UpdateRoleWithPermissions` | backend/internal/role/service.go:191-250 | All of the update or nothing. |
| `RoleService.RoleService.DeleteRole` | backend/internal/role/service.go:253-291 | Refused while anybody holds the role; a missing role is no error. |
| `RoleService.RoleService.AddAssignments` | backend/internal/role/service.go:364-397 | All of the assignments or none. |
| `RoleService.RoleService.RemoveAssignments` | backend/internal/role/service.go:400-429 | All of the assignments or none. |
| `RoleService.RoleService.GetAuthorizedPermissions` | backend/internal/role/service.go:432-470 | On either database, the authorized permissions in ascending order, each once; the two guards as in the code. |
| `Pagination.BuildPaginationLinks` | backend/internal/resource/service.go:966-1002 | First and prev exactly behind the start, prev one limit back or at zero; next exactly when the 64-bit sum is below the total; last exactly when the aligned page of the last item lies ahead; each once, for every limit of at least one and total of at least zero. |
| `Pagination.LastPageIs` | backend/internal/resource/service.go:993-999 | The computed last offset is the one aligned page that holds the last item; an empty list has none. |
| `Pagination.PrevReachesStart` | backend/internal/resource/service.go:969-983 | Following prev reaches offset zero from any offset. |
| `Pagination.NextLeadsBackIff` | backend/internal/resource/service.go:985-991 | A next link leads to an earlier offset, a negative one, if and only if the 64-bit addition overflows; otherwise it leads forward into the list. |
| `Pagination.WalkShowsTheRest` | backend/internal/resource/service.go:985-991 | Following next from any offset terminates and shows the rest of the list, each item once and in order. |
| `Pagination.WalkLeadsBackIff` | backend/internal/resource/service.go:985-991 | A walk meets a link that leads back exactly when its last offset plus the limit overflows. |
| `Pagination.WalkFromStart` | backend/internal/role/service.go:585-621 | From the start the walk shows the whole list once, ends at the computed last offset, and meets a link that leads back exactly when that offset plus the limit overflows. |
| `Pagination.NextAndLastComeApartIff` | backend/internal/ou/service.go:680-716 | For every request, exactly when a next link comes without a last link, and exactly when a last link comes without a next link. |
| `Pagination.AlignedNextIffLast` | backend/internal/ou/service.go:680-716 | On aligned offsets next and last come together exactly as long as the 64-bit addition does not overflow. |
| `Pagination.OverflowingLinks` | backend/internal/resource/service.go:985-999 | At the largest offset an empty list has a next link to a negative offset and no last link; on the longest list even the walk from the start, in pages of 100, meets such a link. |
| `Pagination.UnalignedLinks` | backend/internal/resource/service.go:985-999 | Three items in pages of two, from the second item: a last link and no next link. |
| `IdpProperties.ConfigsFit` | backend/internal/idp/constants.go:83-161 | In all four configurations every default is an allowed property with a proper value, and none is about the scopes. |
| `IdpProperties.LastWins` | backend/internal/idp/utils.go:74-101 | The last supplied property of a name is the one kept. |
| `IdpProperties.OpenIDIsAdded` | backend/internal/idp/utils.go:129-171 | Adding openid keeps the scopes asked for, in order, and openid is then among them. |
| `IdpProperties.KeysBetween` | backend/internal/idp/utils.go:61-126 | The names kept lie between the required and the allowed ones, defaults included. |
| `IdpProperties.SuppliedStands` | backend/internal/idp/utils.go:111-117 | Outside the scopes the last supplied property stands; a default never replaces it. |
| `IdpProperties.OpenIDAlwaysThere` | backend/internal/idp/utils.go:119-124 | Where openid is ensured the scopes contain it, after those asked for. |
| `IdpProperties.NormalisationIsIdempotent` | backend/internal/idp/utils.go:61-126 | Normalising a normal form, listed in any order, is accepted and changes nothing. |
| `IdpProperties.InputOrderDoesNotMatter` | backend/internal/idp/utils.go:61-126 | The order of distinct supplied properties does not matter. |
| `IdpProperties.ParseScopes` | backend/internal/system/utils/stringutil.go:34-47 | The loop gives the trimmed non-blank pieces. |
| `IdpProperties.EnsureOpenIDScope` | backend/internal/idp/utils.go:129-171 | The edited map is the specified one; only re-encrypting a secret value can fail. |
| `IdpProperties.ApplyDefaults` | backend/internal/idp/utils.go:111-117 | Visiting the defaults in any order gives the same map. |
| `IdpProperties.PropertyMapToSlice` | backend/internal/idp/utils.go:187-193 | Visiting the map in any order lists each property once. |
| `IdpProperties.FilterProperties` | backend/internal/idp/utils.go:71-109 | The first thing wrong with the request, or the supplied properties by name. |
| `IdpProperties.ValidateIDPProperties` | backend/internal/idp/utils.go:61-126 | Accepted exactly when every property is proper and known to the type and the required ones are there, but for a secret scopes value that cannot be encrypted again. For OIDC and GOOGLE the result has one scopes property with openid after the scopes asked for; for OAUTH and GITHUB the last one supplied, if any; of each other name the last one supplied or the default. |
| `IdpProperties.InputErrorIff` | backend/internal/idp/utils.go:71-109 | A request passes the filter exactly when all its properties are proper and allowed and the required ones are there. |
| `IdpProperties.AcceptedIff` | backend/internal/idp/constants.go:83-161 | The same for each of the four types, by the names each of them knows and requires. |
| `IdpProperties.RefusedMeans` | backend/internal/idp/utils.go:74-109 | A refused request gets the error of its first faulty property, or of the missing required one; only re-encrypting a secret scopes value fails otherwise. |
| `IdpProperties.AcceptedMeans` | backend/internal/idp/utils.go:111-126 | What an accepted request becomes for each of the four types: scopes, defaults and all other properties. |
| `UserIndex.RunKeepsIndexed` | backend/internal/user/store.go:137-300 | In every reachable state the index holds exactly the configured primitive attributes of the existing users. |
| `UserIndex.OneRowPerAttribute` | backend/internal/user/store.go:638-714 | An attribute of a user has at most one index row. |
| `UserIndex.PlaceholdersLineUp` | backend/internal/user/store.go:687-698 | Row k of the batch takes placeholders 4k+1 to 4k+4, and they spell the rows in order; read by number, as PostgreSQL does, or in order of first use, as SQLite does, they take the same arguments. |
| `UserIndex.IndexFindsExactlyTheMatches` | backend/internal/user/storeconstants.go:231-281 | When every filter is indexed, the self-join over the index selects exactly the users whose attributes match. |
| `UserIndex.BuildIdentifyQueryFromIndexedAttributes` | backend/internal/user/storeconstants.go:231-281 | Sorted keys, one joined copy a key, and placeholders that line up with the arguments and mean the same to both databases. |
| `UserIndex.UserStore.CollectIndexedAttributes` | backend/internal/user/store.go:653-676 | Visiting the attributes in any order collects exactly the expected rows, each once. |
| `UserIndex.UserStore.SyncIndexedAttributes` | backend/internal/user/store.go:638-714 | The batch adds exactly the expected rows or fails. |
| `UserIndex.UserStore.CreateUser` | backend/internal/user/store.go:137-198 | On success the user was new, its row has the unit, type and attributes given, and the index rows follow them; otherwise nothing changes. |
| `UserIndex.UserStore.UpdateUser` | backend/internal/user/store.go:230-300 | On success the row has the unit, type and attributes given and the index rows are replaced; otherwise nothing changes; a missing user is told apart. |
| `UserIndex.UserStore.DeleteUser` | backend/internal/user/store.go:327-345 | The user goes with its index rows. |
| `UserIndex.CallWrites` | backend/internal/user/store.go:137-345 | After a call the row of the user is the one given, or gone, and its index rows are those of its configured strings, numbers and booleans, true under "true" and false under "false"; all other rows stay. |
| `SqlPlaceholders.RulesAgreeIff` | backend/internal/user/store.go:687-698 | PostgreSQL and SQLite read a text of numbered placeholders alike if and only if the numbers come in order of first use. |
| `SqlPlaceholders.SwappedNumbersDisagree` | backend/internal/user/store.go:687-698 | Two placeholders in the wrong order, which the two databases read differently. |
| `Text.SpacesAre` | backend/internal/ou/service.go:626-646 | The white space that names, handles and path pieces are trimmed of. |

## Left out

- Concurrent requests: checks and writes are separate queries; every statement here is about one call after another.
- Failing database reads and writes in the organization-unit and resource services: each call there has one write, so a failure changes nothing; the certificate, application, role and user models do include them.
- Deployments other than the caller's, except for roles and users, whose tables carry the deployment column.
- Internal numeric row IDs of resources and servers, which are identified with their UUIDs.
- Descriptions, timestamps, credentials, display names and all text of error messages.
- Column widths: a name, handle or permission longer than its column is refused by PostgreSQL and not here.
- Strings are sequences of characters, so a length limit counts characters where Go counts bytes; handles that pass the alphabet check are ASCII.
- The database collation: ORDER BY is by character code.
- JSON text: rows hold JSON values with their member names as constructors; escaping, UTF-8 and duplicate members are not modelled, and numbers of the user attributes are the text their float64 prints as.
- Conversion of an out-of-range double to int64, which Go leaves to the machine, gives the smallest integer as on amd64.
- Object identity of cached entries: caches hold values, so a caller that changed a returned object would go unnoticed.
- Cache Delete failures: the in-memory cache's Delete cannot fail, and the model's does not.
- Inbound configurations of an application: at most one, the OAuth one.
- Default token configuration, client secret hashing and the checks of grant types, redirect URIs and public clients, which do not touch the stores.
- List endpoints other than their pagination links, and the base URL of the links.
- The hybrid and JSON-column user lookups, user and credential updates other than attributes, and the user service's schema checks.
- Encryption of secret identity provider properties: decrypting what was encrypted gives it back, and encrypting may fail.
- The name and type check before the identity provider properties, groups, notification senders, file-based stores, flows and authentication, which would only add easy members.
- HTTP handlers, routing and logging.
- RoleService.RoleService.Commit: a commit that reports failure is taken not to have happened.
