# Orchard content store, roles, shell state and shape results in Dafny

This project models five parts of Orchard (the ASP.NET Core CMS):

- **`DefaultContentManager`**, the versioned content store:
  - A logical content item (`ContentItemId`) has numbered version rows. Each row carries a `Latest` flag and a `Published` flag.
  - The manager resolves a version in one of six modes, keeps a per-request cache of the items it loaded, and runs handler phases around each change.
  - It creates, publishes, unpublishes, versions and removes items by changing the items' fields in place and saving them to a YesSql document session.
  - The session is a unit of work with an identity map: storage receives an item's values only if the item was passed to `Save`, and it receives them as they are when the session flushes.
- **`RolesPermissionsHandler`**: collects the names that grant a permission (its name, every permission implying it, transitively, and `SiteOwner`). It then decides the requirement from the `Permission` claims of the roles examined for the user.
- **`RoleUpdater`**: when a feature is installed, it turns the default stereotypes of that feature's permission providers into roles. It appends each missing permission name once and never removes a claim.
- **`ShellStateManager`**: a lazily loaded, cached list of feature states, with get-or-create and updates of the enable and install states.
- **`ShapeResult`**: a placement decides whether a driver's shape is built and which group it belongs to. It also decides how the shape's metadata is rewritten and where in the shape tree the shape is added.

Files:

| file | module | contents |
|---|---|---|
| `common.dfy` | `Common` | `Option`, and the ordinal case-insensitive comparison |
| `security.dfy` | `Security` | roles, role claims, the role manager |
| `roles_permissions.dfy` | `RolesPermissions` | `RolesPermissionsHandler` |
| `role_updater.dfy` | `RoleUpdating` | `RoleUpdater` |
| `shell_state.dfy` | `ShellStates` | `ShellStateManager` |
| `shape_result.dfy` | `Shapes` | `ShapeResult` and the shape metadata it rewrites |
| `content_versions.dfy` | `ContentVersions` | rows, version options and modes, queries, phases, handlers, the flag invariants |
| `content_manager.dfy` | `ContentManagement` | content items, the document session, the manager's cache, the id generator |
| `default_content_manager.dfy` | `ContentManagers` | `DefaultContentManager` |

Model of the document session (`ContentManagement.DocumentSession`):

- `db` holds the rows in storage.
- `loaded` is the identity map: one instance per row id.
- `enlisted` holds the row ids passed to `Save`.
- `View()` is the rows as the session sees them, with loaded instances' current values.
- `Committed()` is what storage holds once the session flushes.
- `Synced()` says that every change made so far will reach storage.
- A query flushes the session first, so it sees `Committed()`.

`DefaultContentManager.Consistent()` says two things: the session is `Synced()`, and each content item has at most one latest row and at most one published row.

## Model

Source paths are relative to the repository root.

| member | source | states |
|---|---|---|
| Common.ToUpperOrdinal | src/Orchard.Web/Modules/Orchard.Roles/Services/RolesPermissionsHandler.cs:36 | ordinal case folding maps a lower-case ASCII letter to the same letter in upper case and leaves every other character alone |
| Common.ToUpperOrdinalSame | src/Orchard.Web/Modules/Orchard.Roles/Services/RolesPermissionsHandler.cs:36 | two characters fold to the same character exactly when they are equal or are the two cases of one ASCII letter |
| Common.EqualsIgnoreCaseCharwise | src/Orchard.DisplayManagement/Views/ShapeResult.cs:56 | two strings compare equal ignoring case exactly when they have the same length and agree at every position up to the case of an ASCII letter |
| Security.PermissionValuesMember | src/Orchard.Web/Modules/Orchard.Roles/Services/RolesPermissionsHandler.cs:62-66 | a name is among a role's permission values exactly when some claim of type `Permission` carries it |
| Security.PermissionValuesAppend | src/Orchard.Web/Modules/Orchard.Roles/Services/RoleUpdater.cs:107 | the permission values of appended claims are appended to the role's values |
| Security.PermissionClaims | src/Orchard.Web/Modules/Orchard.Roles/Services/RoleUpdater.cs:126 | one `Permission` claim per name, in the names' order |
| Security.PermissionValuesOfPermissionClaims | src/Orchard.Web/Modules/Orchard.Roles/Services/RoleUpdater.cs:119-127 | the claims appended for a list of names have exactly those names as permission values |
| Security.RoleManager.GetRoleByNameAsync | src/Orchard.Web/Modules/Orchard.Roles/Services/RolesPermissionsHandler.cs:58 | the role filed under the name, or null when there is none |
| Security.RoleManager.CreateRoleAsync | src/Orchard.Web/Modules/Orchard.Roles/Services/RoleUpdater.cs:102 | a fresh role with no claims, filed under its name; the other roles stay |
| Security.RoleManager.UpdateRoles | src/Orchard.Web/Modules/Orchard.Roles/Services/RoleUpdater.cs:132 | the roles are persisted once more and not changed |
| RolesPermissions.NameSet.Add | src/Orchard.Web/Modules/Orchard.Roles/Services/RolesPermissionsHandler.cs:36 | the case-insensitive set gains the case-folded key of the name |
| RolesPermissions.PermissionNames | src/Orchard.Web/Modules/Orchard.Roles/Services/RolesPermissionsHandler.cs:78-100 | the set ends up holding the names it held before, the names of the explored permissions (the permission itself among them) and `SiteOwner`; every permission implying an explored one is named; the recursion terminates on cyclic graphs because each call adds a name not yet in the set |
| RolesPermissions.Progress | src/Orchard.Web/Modules/Orchard.Roles/Services/RolesPermissionsHandler.cs:88-95 | skipping names already in the set makes the number of names still to collect decrease at every recursive call |
| RolesPermissions.ExploredStep | src/Orchard.Web/Modules/Orchard.Roles/Services/RolesPermissionsHandler.cs:86-96 | what one recursive call collects extends what the loop has collected so far |
| RolesPermissions.ExploredDone | src/Orchard.Web/Modules/Orchard.Roles/Services/RolesPermissionsHandler.cs:97-99 | once every implying permission is named, adding `SiteOwner` completes the collection |
| RolesPermissions.GrantingNamesComplete | src/Orchard.Web/Modules/Orchard.Roles/Services/RolesPermissionsHandler.cs:84-97 | every permission from which the required one is reachable through `ImpliedBy`, by a path of any length and whatever the cycles, is named in the granting set (names identify permissions; nothing implies `SiteOwner`) |
| RolesPermissions.RoleClaimValuesMember | src/Orchard.Web/Modules/Orchard.Roles/Services/RolesPermissionsHandler.cs:47-53 | a role name comes from the user exactly when a claim of type `ClaimTypes.Role` carries it |
| RolesPermissions.RolesToExamine | src/Orchard.Web/Modules/Orchard.Roles/Services/RolesPermissionsHandler.cs:41-54 | the roles examined are `Anonymous`, then `Authenticated` and the user's role claims in order for an authenticated user |
| RolesPermissions.ExaminedRolesShape | src/Orchard.Web/Modules/Orchard.Roles/Services/RolesPermissionsHandler.cs:41-54 | `Anonymous` is always examined, `Authenticated` exactly for authenticated users, and any other role only for an authenticated user holding a role claim that names it |
| RolesPermissions.AuthorizationHandlerContext.Succeed | src/Orchard.Web/Modules/Orchard.Roles/Services/RolesPermissionsHandler.cs:70 | the context has succeeded |
| RolesPermissions.HasGrantingClaim | src/Orchard.Web/Modules/Orchard.Roles/Services/RolesPermissionsHandler.cs:62-73 | true exactly when the role holds a `Permission` claim whose value, ignoring case, is in the granting set |
| RolesPermissions.NoneGrantsStep | src/Orchard.Web/Modules/Orchard.Roles/Services/RolesPermissionsHandler.cs:56-75 | a role that is missing or grants nothing keeps "no examined role grants" true |
| RolesPermissions.HandleRequirementAsync | src/Orchard.Web/Modules/Orchard.Roles/Services/RolesPermissionsHandler.cs:27-76 | a context that already succeeded is left succeeded; otherwise the granting names are collected as `PermissionNames` promises, and the context succeeds exactly when some examined role that exists grants one of them (missing roles are skipped) |
| RoleUpdating.DistinctExceptMembers | src/Orchard.Web/Modules/Orchard.Roles/Services/RoleUpdater.cs:109-115 | LINQ's `Union`, `Distinct` and `Except` keep exactly the elements outside the excluded set, each once |
| RoleUpdating.AdditionalPermissionNamesSpec | src/Orchard.Web/Modules/Orchard.Roles/Services/RoleUpdater.cs:106-115 | the additional names are the stereotype's names the role does not hold, each once, in the stereotype's order |
| RoleUpdating.DistinctExceptIdempotent | src/Orchard.Web/Modules/Orchard.Roles/Services/RoleUpdater.cs:109-111 | `Distinct` after `Union` changes nothing |
| RoleUpdating.MergedGrants | src/Orchard.Web/Modules/Orchard.Roles/Services/RoleUpdater.cs:106-127 | the merge keeps the existing claims as a prefix; afterwards the role holds a name exactly when it held it before or the stereotype lists it (a null list counts as empty) |
| RoleUpdating.MergedNoDuplicates | src/Orchard.Web/Modules/Orchard.Roles/Services/RoleUpdater.cs:109-127 | a role whose permission names have no duplicates keeps none after the merge |
| RoleUpdating.MergedIdempotent | src/Orchard.Web/Modules/Orchard.Roles/Services/RoleUpdater.cs:114-127 | merging the same stereotype again adds nothing |
| RoleUpdating.ProvidersForFeature | src/Orchard.Web/Modules/Orchard.Roles/Services/RoleUpdater.cs:72 | the providers kept are exactly those whose feature id equals the installed feature's id |
| RoleUpdating.ApplyAllKeys | src/Orchard.Web/Modules/Orchard.Roles/Services/RoleUpdater.cs:94-103 | afterwards the roles are the existing ones plus one per stereotype name |
| RoleUpdating.ApplyAllAppendsOnly | src/Orchard.Web/Modules/Orchard.Roles/Services/RoleUpdater.cs:119-127 | every existing role keeps its claims as a prefix, and a role no stereotype names is untouched |
| RoleUpdating.ApplyAllGrants | src/Orchard.Web/Modules/Orchard.Roles/Services/RoleUpdater.cs:86-127 | every permission name of every stereotype is held by the role of that stereotype's name |
| RoleUpdating.RoleUpdater.GetOrCreateRole | src/Orchard.Web/Modules/Orchard.Roles/Services/RoleUpdater.cs:94-103 | the role with that name, created empty when missing; no other role changes |
| RoleUpdating.RoleUpdater.GrantPermissions | src/Orchard.Web/Modules/Orchard.Roles/Services/RoleUpdater.cs:117-127 | one `Permission` claim is appended per name, in order, after the existing claims |
| RoleUpdating.RoleUpdater.MergeStereotype | src/Orchard.Web/Modules/Orchard.Roles/Services/RoleUpdater.cs:94-127 | the claims of every role become `ApplyStereotype` of the claims before; existing roles stay filed under their names |
| RoleUpdating.RoleUpdater.MergeStereotypes | src/Orchard.Web/Modules/Orchard.Roles/Services/RoleUpdater.cs:89-129 | the claims become `ApplyAll` of the claims before, over the stereotypes in order |
| RoleUpdating.RoleUpdater.AddDefaultRolesForFeatureAsync | src/Orchard.Web/Modules/Orchard.Roles/Services/RoleUpdater.cs:67-133 | the stereotypes of the feature's providers are merged in order, and the roles are persisted exactly once, even when no provider matches |
| RoleUpdating.RoleUpdater.OnFeatureEvent | src/Orchard.Web/Modules/Orchard.Roles/Services/RoleUpdater.cs:34-65 | only `Installed` adds the default roles; every other feature event changes nothing |
| ShellStates.FirstWithName | src/Orchard.Environment.Shell/ShellStateManager.cs:90 | the index of the first feature state with the name, or none when no state has it |
| ShellStates.FirstWithNameAppend | src/Orchard.Environment.Shell/ShellStateManager.cs:90-96 | appending a state changes the first match only when there was none |
| ShellStates.LocatedTwice | src/Orchard.Environment.Shell/ShellStateManager.cs:88-99 | get-or-create is idempotent: a second lookup of the same name returns the same state and appends nothing |
| ShellStates.ShellFeatureState.constructor | src/Orchard.Environment.Shell/ShellStateManager.cs:94 | a new feature state has the name and both states at their default |
| ShellStates.ShellStateManager.UpdateShellState | src/Orchard.Environment.Shell/ShellStateManager.cs:101-104 | the cached document is saved, and later queries return it |
| ShellStates.ShellStateManager.GetShellStateAsync | src/Orchard.Environment.Shell/ShellStateManager.cs:23-39 | the cached document without a query once loaded; otherwise the stored one; otherwise a fresh empty document, which is saved; in each case the features are the ones the manager would show |
| ShellStates.ShellStateManager.GetOrCreateFeatureState | src/Orchard.Environment.Shell/ShellStateManager.cs:88-99 | the first state with that name, or a new state with that name appended as the one change to the list; the result is then the first match in the list |
| ShellStates.ShellStateManager.UpdateEnabledState | src/Orchard.Environment.Shell/ShellStateManager.cs:41-63 | the stored entry and the caller's state both take the value, and their install states are kept; other features are untouched; a stored state other than the expected one only logs a warning; the document is saved |
| ShellStates.ShellStateManager.UpdateInstalledState | src/Orchard.Environment.Shell/ShellStateManager.cs:65-86 | as `UpdateEnabledState`, for the install state, keeping the enable states |
| Shapes.ShapeMetadata.OnProcessing | src/Orchard.DisplayManagement/Views/ShapeResult.cs:77-80 | one more processing callback; nothing else changes |
| Shapes.ShapeMetadata.Cache | src/Orchard.DisplayManagement/Views/ShapeResult.cs:83-86 | the metadata is cached under the id, and the cache context returned carries that id |
| Shapes.ShapeMetadata.Rewrite | src/Orchard.DisplayManagement/Views/ShapeResult.cs:88-104 | a named shape type replaces the type and clears the alternates and wrappers; the placement's alternates and wrappers are then appended in order |
| Shapes.RewrittenIdempotent | src/Orchard.DisplayManagement/Views/ShapeResult.cs:88-104 | applying a placement again leaves the alternates (or wrappers) unchanged exactly when it names a shape type or adds none |
| Shapes.RewrittenShape | src/Orchard.DisplayManagement/Views/ShapeResult.cs:88-104 | with a shape type the result is the placement's list alone; without one the existing list is kept as a prefix |
| Shapes.ShapeBuilder.Build | src/Orchard.DisplayManagement/Views/ShapeResult.cs:61 | the driver's shape (possibly null), with one more call counted |
| Shapes.CacheCallback.Invoke | src/Orchard.DisplayManagement/Views/ShapeResult.cs:85 | the callback receives the cache context |
| Shapes.ShapeTree.Add | src/Orchard.DisplayManagement/Views/ShapeResult.cs:121-128 | the shape is appended, with its position, to the items of that zone only |
| Shapes.PositionOf | src/Orchard.DisplayManagement/Views/ShapeResult.cs:113-128 | a position is passed exactly when the placement's position is non-empty |
| Shapes.ParentShape | src/Orchard.DisplayManagement/Views/ShapeResult.cs:106-119 | the layout for a layout zone, otherwise the context's shape, then one zone per name, in order |
| Shapes.ShapeResult.constructor | src/Orchard.DisplayManagement/Views/ShapeResult.cs:20-33 | the shape type, builder and processing callback are kept; every other setting starts null |
| Shapes.ShapeResult.Decorate | src/Orchard.DisplayManagement/Views/ShapeResult.cs:69-104 | the metadata takes the result's prefix, the display type, and the placement's source and tab; it gains the processing callback if any; it is cached (and the callback invoked) only when a cache id is non-empty and a callback was given; then it is rewritten by the placement |
| Shapes.ShapeResult.Place | src/Orchard.DisplayManagement/Views/ShapeResult.cs:69-128 | the decorated shape is added to the placement's zone, at its position when one is given |
| Shapes.ShapeResult.Apply | src/Orchard.DisplayManagement/Views/ShapeResult.cs:35-129 | a null, empty or "-" location adds nothing; otherwise the group becomes the placement's group, overwriting `OnGroup`; the builder runs only when that group equals the context's group ignoring case (null read as ""); a null shape adds nothing; a built shape is decorated (display type null for editors) and added to the placement's zone |
| Shapes.ShapeResult.Prefix | src/Orchard.DisplayManagement/Views/ShapeResult.cs:131-135 | returns the result itself with the prefix set; the other settings are kept |
| Shapes.ShapeResult.Location | src/Orchard.DisplayManagement/Views/ShapeResult.cs:137-141 | returns the result itself; `GetLocation` then returns the zone |
| Shapes.ShapeResult.Differentiator | src/Orchard.DisplayManagement/Views/ShapeResult.cs:143-147 | returns the result itself; `GetDifferentiator` then returns the differentiator |
| Shapes.ShapeResult.OnGroup | src/Orchard.DisplayManagement/Views/ShapeResult.cs:149-153 | returns the result itself; `GetGroup` then returns the group |
| Shapes.ShapeResult.Cache | src/Orchard.DisplayManagement/Views/ShapeResult.cs:155-160 | returns the result itself with the cache id and callback set; the other settings are kept |
| ContentVersions.ModeOf | src/Orchard.ContentManagement/DefaultContentManager.cs:95-159 | a non-zero row id always selects the row-id mode, and otherwise a non-zero version number selects the number mode; the published mode is chosen only for published options with no draft option; draft-required options always select a lookup |
| ContentVersions.NamedOptionsModes | src/Orchard.ContentManagement/DefaultContentManager.cs:87 | each named option set selects the mode its name promises |
| ContentVersions.QueryOf | src/Orchard.ContentManagement/DefaultContentManager.cs:111-158 | every query matches only rows of the item asked for; the latest and draft-required modes both ask for the latest row |
| ContentVersions.PublishKeepsFlagsUnique | src/Orchard.ContentManagement/DefaultContentManager.cs:219-242 | demoting the item's published row and publishing the item's row keeps at most one published and one latest row per item |
| ContentVersions.WithoutLatestKeepsFlagsUnique | src/Orchard.ContentManagement/DefaultContentManager.cs:303-307 | demoting a latest row keeps the flags unique |
| ContentVersions.NewVersionKeepsFlagsUnique | src/Orchard.ContentManagement/DefaultContentManager.cs:191-204 | demoting the item's latest row and adding an unpublished new row keeps the flags unique |
| ContentVersions.ClearingKeepsFlagsUnique | src/Orchard.ContentManagement/DefaultContentManager.cs:277 | clearing flags on one row never breaks uniqueness |
| ContentVersions.CreatedRow | src/Orchard.ContentManagement/DefaultContentManager.cs:336-353 | the row `Create` stores: number 0 becomes version 1, latest and published; an explicit version number wins; a draft is not published; identity and type are kept and the number is never 0 |
| ContentVersions.FreshItemKeepsFlagsUnique | src/Orchard.ContentManagement/DefaultContentManager.cs:374 | a row of an item no other row belongs to keeps the flags unique |
| ContentVersions.UniqueMatch | src/Orchard.ContentManagement/DefaultContentManager.cs:121-158 | under unique flags, a latest, draft or published query matches at most one row, so `FirstOrDefault` has no choice to make |
| ContentVersions.RemovedRows | src/Orchard.ContentManagement/DefaultContentManager.cs:393-407 | clearing both flags exactly on the rows the active query matched gives `Deactivated` over `ActiveIds` |
| ContentVersions.RemoveDeactivatesItem | src/Orchard.ContentManagement/DefaultContentManager.cs:391-410 | removal deletes no row; every row of the item ends neither latest nor published, with its number kept; rows the query did not match are untouched; the flags stay unique |
| ContentVersions.RunPublishingAppend | src/Orchard.ContentManagement/DefaultContentManager.cs:224-227 | every handler sees the one `Cancel` flag the handlers before it left: running two batches in turn is running them all in order |
| ContentVersions.CancelledByLast | src/Orchard.ContentManagement/DefaultContentManager.cs:224-229 | the flag read at line 229 is what the last handler leaves, given what the others left, so a later handler can clear an earlier handler's `Cancel` |
| ContentVersions.CancelledBySetters | src/Orchard.ContentManagement/DefaultContentManager.cs:224-229 | when no handler clears a set flag, publishing is cancelled exactly when some handler sets `Cancel` on its own |
| ContentManagement.ContentItem.FromRow | src/Orchard.ContentManagement/DefaultContentManager.cs:102 | the instance a session makes for a stored row carries that row |
| ContentManagement.SyncedCommitted | src/Orchard.ContentManagement/DefaultContentManager.cs:217-222 | when every change will reach storage, flushing makes storage what the session sees |
| ContentManagement.EnlistRow | src/Orchard.ContentManagement/DefaultContentManager.cs:236 | enlisting a row writes its current values at the flush |
| ContentManagement.AssignRow | src/Orchard.ContentManagement/DefaultContentManager.cs:237 | an assignment after `Save` still reaches storage |
| ContentManagement.DocumentSession.Unwritten | src/Orchard.ContentManagement/DefaultContentManager.cs:277-279 | a changed row that is not enlisted keeps its stored values, so not every change reaches storage |
| ContentManagement.DocumentSession.SaveNew | src/Orchard.ContentManagement/DefaultContentManager.cs:374 | an unsaved item gets the next row id, is loaded and enlisted; storage will receive its row |
| ContentManagement.DocumentSession.Save | src/Orchard.ContentManagement/DefaultContentManager.cs:236 | a loaded item is enlisted: what the session sees is unchanged and storage will receive the item's row |
| ContentManagement.DocumentSession.SetPublished | src/Orchard.ContentManagement/DefaultContentManager.cs:237 | an assignment to `Published` is seen by the session, and written only if the item is enlisted |
| ContentManagement.DocumentSession.SetLatest | src/Orchard.ContentManagement/DefaultContentManager.cs:305 | an assignment to `Latest`, likewise |
| ContentManagement.DocumentSession.SetNumber | src/Orchard.ContentManagement/DefaultContentManager.cs:338 | an assignment to `Number`, likewise |
| ContentManagement.DocumentSession.Flush | src/Orchard.ContentManagement/DefaultContentManager.cs:217-218 | storage takes the enlisted rows' current values; what the session sees is unchanged |
| ContentManagement.DocumentSession.Get | src/Orchard.ContentManagement/DefaultContentManager.cs:102 | the session's one instance of the row, or null exactly when the session sees no such row |
| ContentManagement.DocumentSession.Query | src/Orchard.ContentManagement/DefaultContentManager.cs:111-117 | after a flush, an instance of some matching row, or null exactly when no row matches |
| ContentManagement.DocumentSession.QueryAll | src/Orchard.ContentManagement/DefaultContentManager.cs:393-396 | after a flush, the instances of exactly the matching rows |
| ContentManagement.DefaultContentManagerSession.Store | src/Orchard.ContentManagement/DefaultContentManager.cs:175 | the item is cached by row id and by version, and as its item's published version when published |
| ContentManagement.DefaultContentManagerSession.CachedLoaded | src/Orchard.ContentManagement/DefaultContentManager.cs:97-99 | an item the cache recalls is the session's instance of its row |
| ContentManagement.DefaultContentManagerSession.RecallVersionId | src/Orchard.ContentManagement/DefaultContentManager.cs:97 | the item cached under the row id, if any |
| ContentManagement.DefaultContentManagerSession.RecallContentItemId | src/Orchard.ContentManagement/DefaultContentManager.cs:106 | the item cached under the item id and version number, if any |
| ContentManagement.DefaultContentManagerSession.RecallPublishedItemId | src/Orchard.ContentManagement/DefaultContentManager.cs:150 | the item cached as the published version, if any |
| ContentManagement.LinearBlockIdGenerator.GetNextId | src/Orchard.ContentManagement/DefaultContentManager.cs:68 | each id is above every id handed out before |
| ContentManagers.DefaultContentManager.New | src/Orchard.ContentManagement/DefaultContentManager.cs:43-83 | a fresh unsaved item of the type, with the next content item id, no number and no flags, between the activation and initialization phases |
| ContentManagers.DefaultContentManager.FirstOrDefault | src/Orchard.ContentManagement/DefaultContentManager.cs:111-158 | a loaded instance matching the query as the session sees the rows, or null exactly when none matches |
| ContentManagers.DefaultContentManager.Lookup | src/Orchard.ContentManagement/DefaultContentManager.cs:92-159 | the row-id, version-number and published modes return the cached instance without touching storage when one is cached; otherwise the mode's query (or the row id) decides, and null means no row matches |
| ContentManagers.DefaultContentManager.LoadOrRecall | src/Orchard.ContentManagement/DefaultContentManager.cs:169-189 | an item already cached by row id is returned without the load phases; otherwise it is cached before `Loading` and `Loaded` run |
| ContentManagers.DefaultContentManager.FindLatest | src/Orchard.ContentManagement/DefaultContentManager.cs:290-301 | the existing item when it is latest, otherwise the latest row found; under unique flags, that is the item's latest row |
| ContentManagers.DefaultContentManager.NewVersion | src/Orchard.ContentManagement/DefaultContentManager.cs:286-314 | a fresh unsaved item, latest and unpublished, with the content item id and number given |
| ContentManagers.DefaultContentManager.DemoteLatest | src/Orchard.ContentManagement/DefaultContentManager.cs:290-307 | the latest version found loses its flag and nothing else changes; the flags stay unique |
| ContentManagers.DefaultContentManager.BuildNewVersionAsync | src/Orchard.ContentManagement/DefaultContentManager.cs:284-327 | the latest version loses its flag; the new item has the same content item id, the latest number plus one (or 1 when there is none) and the latest flag; versioning phases follow the activation phases |
| ContentManagers.DefaultContentManager.SaveNewItem | src/Orchard.ContentManagement/DefaultContentManager.cs:203 | an unsaved item gets a new row id and its row is added, unchanged |
| ContentManagers.DefaultContentManager.SaveNewVersion | src/Orchard.ContentManagement/DefaultContentManager.cs:199-203 | the new version built for a saved item is saved under a new row id; its number is the item's latest row's plus one (or 1), and that row loses its latest flag |
| ContentManagers.DefaultContentManager.NewDraft | src/Orchard.ContentManagement/DefaultContentManager.cs:195-203 | the item's latest row (the item itself when it is latest) loses its flag and a new latest unpublished row of the same content item is added, numbered one more than that row (or 1); the flags stay unique |
| ContentManagers.DefaultContentManager.RequireDraft | src/Orchard.ContentManagement/DefaultContentManager.cs:191-204 | a published item is replaced by a new draft version, numbered one more than the item's latest row, which loses its flag; an unpublished one is returned and saved as it is |
| ContentManagers.DefaultContentManager.GetAsync | src/Orchard.ContentManagement/DefaultContentManager.cs:90-207 | a cache hit (row id, number or published mode) returns the cached instance and touches neither the session nor the phases; otherwise the result is null exactly when no row matches the mode's query, and a draft-required lookup that finds nothing is reported as `thrown`; without draft-required options the rows are not changed and a found item matches the query; with draft-required options a found item is the item's latest, unpublished row and the flags stay unique; the row fetched from storage is the content item's latest, is cached by row id, and runs `Loading`/`Loaded` unless it was cached already; a published fetched row is replaced by a new version numbered one more, after the activation and versioning phases |
| ContentManagers.DefaultContentManager.GetPublishedAsync | src/Orchard.ContentManagement/DefaultContentManager.cs:85-88 | the cached published item, or the published row of the item, or null exactly when there is none; rows are not changed |
| ContentManagers.DefaultContentManager.Unflag | src/Orchard.ContentManagement/DefaultContentManager.cs:234-237 | the previous published version is saved, then loses its flag, and that change reaches storage |
| ContentManagers.DefaultContentManager.FlagLoaded | src/Orchard.ContentManagement/DefaultContentManager.cs:240-242 | a loaded item gains the published flag and is saved |
| ContentManagers.DefaultContentManager.FlagNew | src/Orchard.ContentManagement/DefaultContentManager.cs:240-242 | an unsaved item gains the published flag and is saved under a new row id |
| ContentManagers.DefaultContentManager.Promote | src/Orchard.ContentManagement/DefaultContentManager.cs:234-242 | the rows become `AfterPublish`; the flags stay unique when the row demoted is the item's published row |
| ContentManagers.DefaultContentManager.FindPublished | src/Orchard.ContentManagement/DefaultContentManager.cs:219-222 | the published row of the item, or null when there is none |
| ContentManagers.DefaultContentManager.PublishAsync | src/Orchard.ContentManagement/DefaultContentManager.cs:209-245 | an already published item changes nothing and runs no phase; cancellation (the shared `Cancel` flag after every handler ran in order) leaves every row as it was and skips `Published`; otherwise the previous published row loses its flag and the item gains it, and both changes reach storage; for an item already saved the flags stay unique |
| ContentManagers.DefaultContentManager.PublishedVersion | src/Orchard.ContentManagement/DefaultContentManager.cs:249-265 | the item itself when published, otherwise its published version as `GetAsync` finds it, or null exactly when there is none |
| ContentManagers.DefaultContentManager.ClearPublished | src/Orchard.ContentManagement/DefaultContentManager.cs:268-281 | the corrected variant from "## Findings", with line 279 saving `publishedItem`: the published version loses its flag and is saved, so the change reaches storage, between `Unpublishing` and `Unpublished`; the flags stay unique |
| ContentManagers.DefaultContentManager.UnflagSavingOther | src/Orchard.ContentManagement/DefaultContentManager.cs:275-279 | when the version unpublished is another, unenlisted item, storage keeps it published while the session shows it unpublished |
| ContentManagers.DefaultContentManager.ClearPublishedAsWritten | src/Orchard.ContentManagement/DefaultContentManager.cs:268-281 | as `UnflagSavingOther`, between the unpublishing phases |
| ContentManagers.DefaultContentManager.UnpublishAsync | src/Orchard.ContentManagement/DefaultContentManager.cs:247-282 | the corrected variant from "## Findings", with line 279 saving `publishedItem`: without a published version nothing changes; otherwise that version loses its flag, the change reaches storage, the unpublishing phases run and the flags stay unique |
| ContentManagers.DefaultContentManager.UnpublishAsyncAsWritten | src/Orchard.ContentManagement/DefaultContentManager.cs:247-282 | the code as written: without a published version nothing changes; otherwise that version loses its flag in the session, the item passed in is the one saved, and the unpublishing phases run; when the published version is found by the query, its cleared flag never reaches storage |
| ContentManagers.DefaultContentManager.FirstVersion | src/Orchard.ContentManagement/DefaultContentManager.cs:336-341 | the item becomes version 1, latest and published |
| ContentManagers.DefaultContentManager.ApplyVersionOptions | src/Orchard.ContentManagement/DefaultContentManager.cs:343-353 | an explicit version number replaces the number; a draft is not published |
| ContentManagers.DefaultContentManager.ApplyCreateOptions | src/Orchard.ContentManagement/DefaultContentManager.cs:336-353 | the item's row becomes `CreatedRow` of its row and the options |
| ContentManagers.DefaultContentManager.SaveAndCache | src/Orchard.ContentManagement/DefaultContentManager.cs:374-375 | the item is saved (under a new row id if unsaved) and cached by row id, and its row reaches storage |
| ContentManagers.DefaultContentManager.CreateWithOptions | src/Orchard.ContentManagement/DefaultContentManager.cs:334-376 | the item's row becomes `CreatedRow`, is saved and cached; `Creating` and `Created` run, then `Publishing` and `Published` for published options; a new item of a fresh content item keeps the flags unique |
| ContentManagers.DefaultContentManager.Create | src/Orchard.ContentManagement/DefaultContentManager.cs:329-332 | created with the published options: a new item becomes version 1, latest and published |
| ContentManagers.DefaultContentManager.Deactivate | src/Orchard.ContentManagement/DefaultContentManager.cs:404-406 | a version loses both flags and is saved |
| ContentManagers.DefaultContentManager.DeactivateNext | src/Orchard.ContentManagement/DefaultContentManager.cs:402-407 | one more listed version is deactivated; those done before stay as they are |
| ContentManagers.DefaultContentManager.DeactivateAll | src/Orchard.ContentManagement/DefaultContentManager.cs:402-407 | exactly the listed versions lose both flags; every other row is kept; the changes reach storage |
| ContentManagers.DefaultContentManager.ActiveVersions | src/Orchard.ContentManagement/DefaultContentManager.cs:393-396 | the loaded instances of exactly the published or latest rows of the item |
| ContentManagers.DefaultContentManager.DeactivateItem | src/Orchard.ContentManagement/DefaultContentManager.cs:393-407 | the rows become `Deactivated` over `ActiveIds`; the flags stay unique |
| ContentManagers.DefaultContentManager.RemoveAsync | src/Orchard.ContentManagement/DefaultContentManager.cs:391-410 | the rows become `Deactivated` over `ActiveIds`, which `RemoveDeactivatesItem` characterises (no row deleted, none of the item's rows latest or published, the others untouched); the changes reach storage; the phases are `Removing` then `Removed`; the flags stay unique |

## Left out

- Logging, `async`/`await` and the debug messages of every part are not modelled. The warnings of `ShellStateManager` are kept, as a list.
- Exception isolation in `Handlers.Invoke` is not modelled, because that extension is not part of this model. Handlers are a list whose one effect is the shared `Cancel` flag of `Publishing`, which each may set or clear. Every other phase is recorded, in order, and changes nothing.
- Handler payloads are opaque: dynamic aspects, `GetItemMetadata`, `GetContentTypeDefinitions`, and the type definition lookup and synthesis in `New`.
- The `(int)` cast of a generated id is not modelled; ids are unbounded integers.
- `DefaultContentManagerSession` and `VersionOptions` are not part of this model's source files. They are reconstructed from their uses. `Store` overwrites an entry with the same key, and an entry that has gone stale is never removed.
- YesSql query mechanics are not modelled. A query flushes the unit of work and then matches rows in storage. `FirstOrDefault` may return any matching row. The order of `List()` is left to storage, and `RemoveAsync` handles its versions as a set.
- ContentManagers.DefaultContentManager.GetAsync: a draft-required lookup that finds no item dereferences null in the source. The model returns `thrown` instead.
- ContentManagers.DefaultContentManager.GetAsync: results are characterised by query matches only while every change in the session will reach storage (`Synced`). Otherwise the query sees the flushed rows, and the model states nothing about them.
- ContentManagers.DefaultContentManager.PublishAsync: unique flags are promised only for an item already saved. Publishing an unsaved item that is latest can leave two latest rows of its content item, and the source does not prevent this.
- ContentManagers.DefaultContentManager.CreateWithOptions: unique flags are promised only for an unsaved item of a content item with no rows. The source checks neither.
- ContentManagers.DefaultContentManager.UnpublishAsync: the item passed in must be the session's loaded instance of its row. The model has no row for an item that is neither saved nor loaded.
- ContentManagers.DefaultContentManager.RemoveAsync: the query for the active versions runs after the `Removing` phase rather than before it. Phases change no row, so the rows end the same.
- ContentManagers.DefaultContentManager.BuildNewVersionAsync: `New` runs after the latest version is found rather than before. Neither reads what the other changes.
- Case-insensitive comparison folds ASCII letters only.
- Role names are looked up exactly. The role manager itself is not part of this model.
- RoleUpdating.ProvidersForFeature: `GetFeatureForDependency` is an input. Each provider carries the id of its feature, or none.
- `ShapeResult`'s placement parsing (`GetGroup`, `GetTab`, `GetPosition`, `GetZones`, `IsLayoutZone`) and dynamic dispatch on shapes are inputs. The builder returns a fixed shape or null. Callbacks are identified by value. The two `Apply` overloads share one method with a context kind.
- `ShellStateManager` blocks on `GetShellStateAsync().Result`; the model is sequential. The session query is a field holding the stored document.
- Routing, command hosting, Razor pages, DI bootstrapping, the theme service and the UI glue are not part of this model.

## Findings

| source | as written | input that shows it | evidently intended | confidence | as-written member | corrected member |
|---|---|---|---|---|---|---|
| src/Orchard.ContentManagement/DefaultContentManager.cs:279 | `UnpublishAsync` clears `Published` on the version it found, then saves the item it was given | an unpublished draft whose published version is not yet loaded: the query loads that version, which is never enlisted, so storage keeps it published | save the version whose flag was cleared (`_session.Save(publishedItem)`) | medium; not executed | ContentManagers.DefaultContentManager.UnpublishAsyncAsWritten | ContentManagers.DefaultContentManager.UnpublishAsync |
