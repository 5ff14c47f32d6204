# Verified model of the NestJS microservice boilerplate

A Dafny model of the parts of the boilerplate API that decide something, with proofs.
`dafny verify dfyconfig.toml` checks everything, within the verifier's default limits.

**Access control** (`AccessState`, `AccessInvariant`, `AccessRuns`, `AccessEffects`, `AccessStore`,
`Sessions`). Permissions, roles and users are rows with a soft-delete mark; reads skip marked rows,
the name columns of permissions and roles are unique over all rows, and an association to a missing
row is refused. `AccessState` gives every use case as one step on the tables. `AccessStore` holds
the same use cases as they run: entities whose arrays are pushed to and reassigned, loops over the
requested names, and a store whose tables change; each is proved to take exactly its step. The
invariant (no deleted role holds a permission, no role holds a deleted permission, unique names and
live e-mails, normalised names with a colon) is kept by every step and so by every run. On top of it:
when each step goes through, and whose access it changes. `Sessions` adds tokens, the logout
blacklist and the authorization guard, with time.

**List queries** (`SearchStrings`, `SortStrings`, `RegexText`, `ListFilters`,
`ListFilterAgreement`, `LikeReadings`). The search string is parsed, checked against an allow-list and translated
twice, into a Mongo query and into a TypeORM where map. Leaf tests (equality, pattern, ilike) are
parameters; the meaning of each translation and the exact relation between the two are proved.

**Repository filters** (`FilterFlattening`, `CommandFilters`). Nested filters flattened into dotted
keys, once and twice; operator queries built from command lists.

**Rewriters and encoders** (`ResourceNames`, `SnakeCase`, `PositionalIds`). Chains of global
regular-expression passes, modelled as the scans they are, are proved equal to something simple;
ULID and ObjectId order is proved to be the order of their parts.

**Collections and events** (`NullLastSort`, `Paging`, `EntityEvents`). The null-last sort, paging and
chunking, and the event arrays of entities in a heap with aliasing.

`JsString` has the JavaScript string operations used throughout, over ASCII letters, its alphabet and
white space checked against tables written out; `Wrappers` has `Option` and `Result`.

## Reading notes

- Library behaviour the model takes as given: the jsonwebtoken reading of `expiresIn` (a bare numeric
  string is milliseconds, a number is seconds) and its check of `exp` (section 4.1.4 of RFC 7519);
  Redis taking `PX` as a positive integer of milliseconds; TypeORM reads, eager relations included,
  skipping soft-deleted rows, and a save replacing the association by the entity's list.
- `src/infra/database/postgres/schemas/role.ts:35` cascades `recover` and `update` but not `insert`,
  while the tests of role-add-permission expect an unknown permission to be created. The store
  therefore takes `cascade` as a parameter; every result holds for both values, and `AddSucceedsIff`
  says what differs.
- Generated uuids are parameters assumed unused; clocks and random digits are parameters.
- Where the code does not do what its documentation promises, the code is followed:
  the permission update schema lets an in-process caller set the deletion mark, by a `Date` that no
  JSON body can carry (`PermissionUpdateKeepsIff`, `PermissionUpdateCanBreak`); `TOKEN_EXPIRATION` is documented as `1h`, which the cache refuses
  (`AcceptedAgainIff`); converting a filter twice differs from converting once when an object sits
  under an empty key (`ConvertTwiceIff`, `EmptyKeyConvertsTwice`); only the first parenthesis of each
  kind is escaped (`PatternMatchesIff`); the command check refuses exactly two conflicting commands
  and lets three through (`ConflictGetsThroughIff`, `ThreeGetThrough`); the ULID documentation
  promises Crockford's Base32 and ids increasing within a millisecond, the code writes `0-9A-V` and
  random digits (`UlidIsCrockfordIff`, `UlidReadsAsCrockfordIff`, `UlidOrderWithinTimestamp`);
  different projects can get one resource name (`ProjectsCollideIff`, `ProjectsCanCollide`); an
  accepted sort string can fail or lose an order (`SortFailsIff`, `OrderUndefinedIff`).
- The two stores read a `like` text differently: Mongo searches the widened pattern anywhere in the
  field, ignoring case; Postgres compares the whole column by `ilike`, both sides unaccented. Asked
  for `name:a`, Mongo selects `cat` and TypeORM does not (`StoresPartOnContainment`). The comparison
  of the translations therefore names what it asks of the requested texts (`SelectionsCompare`), and
  `LikeReadings` says when the stores provide it. The case folding of one and the unaccenting and
  folding of the other are parameters, taking one character to one character.

## Model

| member | source | states |
|---|---|---|
| AccessState.NamesAreFixedPoints | src/core/permission/entity/permission.ts:9-13 | the transforms of permission and role names yield clean names of one case, and such names are exactly their fixed points, so re-parsing a stored entity keeps its name |
| AccessState.NamesLetterByLetter | src/core/role/entity/role.ts:14 | letter by letter: the trimmed text with spaces as underscores, permissions in small letters, roles in capitals |
| AccessInvariant.PermissionCreateKeeps | src/core/permission/use-cases/permission-create.ts:25-39 | creating a permission keeps the whole invariant |
| AccessInvariant.PermissionDeleteKeeps | src/core/permission/use-cases/permission-delete.ts:21-41 | deleting a permission keeps the invariant: only live roles are consulted, which suffices because deleted roles hold nothing |
| AccessInvariant.PermissionUpdateKeepsIff | src/core/permission/use-cases/permission-update.ts:13-52 | an accepted update keeps the invariant exactly when it does not set a deletion mark on a held permission; a refused one changes nothing |
| AccessInvariant.PermissionUpdateCanBreak | src/core/permission/use-cases/permission-update.ts:13-15 | on a store with one live permission and one live role holding it, an update that carries only a deletion mark is accepted and leaves the role holding a deleted permission |
| AccessInvariant.RoleNamesDistinct | src/core/role/entity/role.ts:42-48 | in every reachable state no role has two permissions of one name |
| AccessInvariant.LoadsAll | src/infra/database/postgres/schemas/role.ts:35-37 | in every reachable state a role read returns every stored association |
| AccessInvariant.RoleCreateKeeps | src/core/role/use-cases/role-create.ts:25-33 | creating a role keeps the invariant |
| AccessInvariant.RoleUpdateKeeps | src/core/role/use-cases/role-update.ts:24-41 | updating a role keeps the invariant |
| AccessInvariant.RoleDeleteKeeps | src/core/role/use-cases/role-delete.ts:20-38 | deleting a role keeps the invariant; its permissions are known to be empty because held permissions are live |
| AccessInvariant.AddNamesAddsExactly | src/core/role/use-cases/role-add-permission.ts:36-45 | the add loop makes the names the old ones plus the normalised request and leaves an entity fit to save |
| AccessInvariant.RemoveNamesRemovesExactly | src/core/role/use-cases/role-delete-permission.ts:35-41 | the remove loop removes exactly the requested names: the skip branch never keeps a held one |
| AccessInvariant.SaveEntityKeeps | src/infra/repository/postgres/repository.ts:78-86 | saving a well-formed role entity keeps the invariant and stores exactly that entity, or changes nothing |
| AccessRuns.StepKeeps | src/infra/repository/postgres/repository.ts:78-86 | every use-case step keeps the invariant, and a refused step leaves the store as it was |
| AccessRuns.RunKeeps | src/core/permission/use-cases/permission-delete.ts:22-38 | the invariant holds after every run of steps, with either cascade behaviour |
| AccessRuns.UserCreateKeeps | src/core/user/use-cases/user-create.ts:38-75 | creating a user keeps live e-mails distinct and references intact |
| AccessRuns.UserUpdateKeeps | src/core/user/use-cases/user-update.ts:30-60 | updating a user keeps the invariant |
| AccessRuns.UserDeleteKeeps | src/core/user/use-cases/user-delete.ts:21-37 | deleting a user keeps the invariant |
| AccessRuns.RoleAddKeeps | src/core/role/use-cases/role-add-permission.ts:26-48 | a successful add makes the role's names old plus request, whatever the request's spelling, inserts no row but new ones of requested names, and touches no other role, user or known row |
| AccessRuns.RoleRemoveKeeps | src/core/role/use-cases/role-delete-permission.ts:24-44 | a removal succeeds iff the role is live, makes the role's names old minus request and touches nothing else |
| AccessRuns.AddSucceedsIff | src/core/role/use-cases/role-add-permission.ts:34-47 | an add goes through exactly when the role is live and every requested name, normalised, has a colon and is held already, asked for before, spelled as a live permission's name or, with cascade, a name no row has; and when each refusal is given |
| AccessRuns.LengthCheckIsExact | src/core/user/use-cases/user-create.ts:39-43 | the length check passes exactly when every requested role is live and none repeats, and then the rows have exactly the requested names |
| AccessRuns.GuardSeesGrants | src/middlewares/guards/authorization.guard.ts:77-90 | in a reachable state the names gathered from what the guard reads are exactly what the stored rows of live roles grant |
| AccessRuns.AddingGrants | src/core/role/use-cases/role-add-permission.ts:36-47 | after an add a user is granted a permission iff before or by having the role and the name being requested |
| AccessRuns.RemovingGrants | src/core/role/use-cases/role-delete-permission.ts:35-43 | after a removal a user keeps a permission iff some live role other than this one grants it, or it was not requested |
| AccessEffects.PermissionCreateIff | src/core/permission/use-cases/permission-create.ts:26-34 | creation succeeds iff the normalised name has a colon and no row has it; when each refusal is given, a deleted row's name being refused only by the table; the row stored; no access changes |
| AccessEffects.PermissionDeleteIff | src/core/permission/use-cases/permission-delete.ts:22-38 | deletion succeeds iff the permission is live and no role at all holds it; when each refusal is given; the row stored; nobody loses access |
| AccessEffects.PermissionUpdateIff | src/core/permission/use-cases/permission-update.ts:24-47 | an update succeeds iff the permission is live and its new name has a colon and is no other row's; when each refusal is given; the row takes what is given and keeps the rest |
| AccessEffects.RenamingMovesGrants | src/core/permission/use-cases/permission-update.ts:31-47 | an accepted rename moves access from the old name to the new one and leaves every other name alone |
| AccessEffects.RoleCreateIff | src/core/role/use-cases/role-create.ts:26-28 | creation succeeds iff no role row has the name; the row stored starts empty; nobody's access changes |
| AccessEffects.RoleDeleteIff | src/core/role/use-cases/role-delete.ts:21-35 | deletion succeeds iff the role is live and its row holds nothing; when each refusal is given; the row stored; nobody loses access |
| AccessEffects.RoleUpdateKeepsGrants | src/core/role/use-cases/role-update.ts:25-34 | renaming succeeds iff the role is live and no other row has the name, stores the name and nothing else, and changes nobody's access |
| AccessEffects.UserCreateIff | src/core/user/use-cases/user-create.ts:39-61 | creation succeeds iff the roles are non-empty, known, distinct and live and no live user has the e-mail; when each refusal is given; the row has the given name, e-mail and the live rows of the named roles; the new user may do exactly what these grant |
| AccessEffects.UserUpdateIff | src/core/user/use-cases/user-update.ts:31-49 | the exact success condition of an update and of each refusal; the row takes the name, e-mail and roles given and keeps the others; a role list replaces the user's access, its absence keeps it |
| AccessEffects.UserDeleteEffect | src/core/user/use-cases/user-delete.ts:22-32 | a live user is marked deleted and otherwise unchanged; the deleted user is granted nothing, others are unaffected, the e-mail is free again |
| AccessEffects.DeletionAsksLiveRoles | src/core/permission/use-cases/permission-delete.ts:22-32 | in any state whatever, a deletion is refused for an association iff some live role holds the permission |
| AccessEffects.AcceptedStepActs | src/core/role/use-cases/role-update.ts:24-41 | every accepted step of a run has done what it says |
| AccessStore.RoleEntity.AddPermission | src/core/role/entity/role.ts:42-48 | pushes at the end unless the name is held |
| AccessStore.RoleEntity.RemovePermissionByName | src/core/role/entity/role.ts:50-52 | keeps, in order, exactly the permissions of other names |
| AccessStore.WithoutNameInOrder | src/core/role/entity/role.ts:51 | filtering two lists in a row filters each, so order and number are kept |
| AccessStore.Store.AddPermissionsToRole | src/core/role/use-cases/role-add-permission.ts:26-48 | the loop over entity and store takes exactly the step of AccessState.RoleAddPermission |
| AccessStore.Store.RemovePermissionsFromRole | src/core/role/use-cases/role-delete-permission.ts:24-44 | the loop over entity and store takes exactly the step of AccessState.RoleDeletePermission |
| AccessStore.Store.LoadRole | src/infra/repository/postgres/repository.ts:231-235 | an entity with the live permissions of the role, in some order |
| AccessStore.Store.SaveEntity | src/infra/repository/postgres/repository.ts:78-86 | writes the role row, its association and any new permission rows, all or nothing |
| AccessStore.Store.CreatePermission | src/core/permission/use-cases/permission-create.ts:25-39 | takes exactly the step of AccessState.PermissionCreate |
| AccessStore.Store.UpdatePermission | src/core/permission/use-cases/permission-update.ts:24-52 | takes exactly the step of AccessState.PermissionUpdate |
| AccessStore.Store.DeletePermission | src/core/permission/use-cases/permission-delete.ts:21-41 | takes exactly the step of AccessState.PermissionDelete |
| AccessStore.Store.UpdateRole | src/core/role/use-cases/role-update.ts:24-41 | takes exactly the step of AccessState.RoleUpdate |
| AccessStore.Store.DeleteRole | src/core/role/use-cases/role-delete.ts:20-38 | takes exactly the step of AccessState.RoleDelete |
| AccessStore.Store.CreateUser | src/core/user/use-cases/user-create.ts:38-75 | takes exactly the step of AccessState.UserCreate |
| AccessStore.Store.UpdateUser | src/core/user/use-cases/user-update.ts:30-74 | takes exactly the step of AccessState.UserUpdate |
| AccessStore.Store.Serve | src/core/permission/use-cases/permission-delete.ts:21-41 | serving any admissible sequence of requests, the store goes through the states of the run and ends in a good one |
| Sessions.AcceptedAgainIff | src/core/user/use-cases/user-logout.ts:20-21 | when a logged-out token is accepted again: never with a millisecond string; exactly computed conditions for a unit string and for a number |
| Sessions.LogoutIff | src/core/user/use-cases/user-logout.ts:11-21 | a logout goes through iff the trimmed token has ten or more characters and the setting is a positive number or millisecond string; it then keeps out that token until that many milliseconds from now and touches no other entry; when each refusal is given |
| Sessions.LoggedOutStaysOut | src/middlewares/guards/authorization.guard.ts:52-64 | with a millisecond string, a token of ten or more characters signed by its logout is refused, behind any scheme, in every state of every later run of logouts and passing time, whatever the store holds |
| Sessions.AllowedIff | src/middlewares/guards/authorization.guard.ts:47-102 | in a reachable store a protected request with the header `scheme token` is let in iff the token is not kept out, is signed and unexpired, and the asked permission is granted by a live role of the live user; forbidden iff only the grant is missing |
| Sessions.RefusedIff | src/middlewares/guards/authorization.guard.ts:52-82 | for such a header, when exactly the request is refused as logged out, invalid, without user id or with an unknown user |
| Sessions.WithoutHeader | src/middlewares/guards/authorization.guard.ts:28-50 | a public route asks nothing; a protected one is refused for lack of a token iff the header is missing or empty |
| Sessions.TokenStandsAfterTheScheme | src/middlewares/guards/authorization.guard.ts:52 | the token is what stands between the first space and the next one or the end; without a space there is none |
| Sessions.OthersUntouched | src/core/user/use-cases/user-logout.ts:20 | over any run, a token that nobody logs out keeps its standing |
| Sessions.Gate.ExecuteLogout | src/core/user/use-cases/user-logout.ts:19-24 | keeps out the trimmed token of ten or more characters until now plus the setting, or refuses and changes nothing, with the exact cause |
| Sessions.Gate.CanActivate | src/middlewares/guards/authorization.guard.ts:27-103 | the gathering loop decides as AccessState and the blacklist say; trace id and user fields are set as stated |
| RegexText.PassesAreSimultaneous | src/utils/mongoose.ts:35-44 | the six sequential passes are one simultaneous per-character expansion |
| RegexText.PatternMatchesIff | src/utils/mongoose.ts:20-60 | for text whose only special characters are parentheses the pattern is valid iff the parentheses after the first of each kind balance, and then matches, letter by letter, exactly the strings with a listed form, or a comma, at the covered letters of the text without those parentheses |
| RegexText.AcceptedWrittenOut | src/utils/mongoose.ts:37-43 | the forms each class accepts, by code point |
| RegexText.LikeFindsIff | src/utils/decorators/filter/mongoose/validate-mongoose-filter-fields.decorator.ts:73-95 | unanchored and under any case folding, the pattern finds exactly the texts that contain such a form anywhere |
| ListFilters.MongoAcceptsIff | src/utils/decorators/filter/mongoose/validate-mongoose-filter-fields.decorator.ts:23-34 | the translation refuses exactly a listed id, a field outside the allow-list, or a requested text that is not of its field's format, each with its error, read off the caller's map |
| ListFilters.FoundIsRequested | src/utils/decorators/filter/mongoose/validate-mongoose-filter-fields.decorator.ts:40-46 | what the loops find for an entry is exactly what the caller's map asks of it: the one non-empty text, or every text of the list |
| ListFilters.CollectGathers | src/utils/decorators/filter/mongoose/validate-mongoose-filter-fields.decorator.ts:39-96 | the loop pushes exactly the leaves of all listed texts and of all single texts of the map, and fails exactly at a text that does not convert |
| ListFilters.MongoMeansTheSearch | src/utils/decorators/filter/mongoose/validate-mongoose-filter-fields.decorator.ts:17-106 | the query selects a document iff it is live, has the id, satisfies every single text of the caller's map and, if any list has a text, one text of the pooled lists; no empty list remains |
| ListFilterAgreement.TypeOrmMeansTheSearch | src/utils/decorators/filter/typeorm/validate-typeorm-filter-fields.decorator.ts:36-91 | with distinct columns, and whatever the leaf tests, the where map selects the live rows satisfying every single text of the caller's map, and of every list some text, in TypeORM's own tests |
| ListFilterAgreement.TypeOrmAcceptsIff | src/utils/decorators/filter/typeorm/validate-typeorm-filter-fields.decorator.ts:23-44 | the translation refuses exactly a field outside the allow-list or a requested text that is not of its format |
| ListFilterAgreement.SelectionsCompare | src/utils/decorators/filter/typeorm/validate-typeorm-filter-fields.decorator.ts:23-91 | for a document on which `ilike` finds no more than the patterns of the requested texts, what TypeORM selects Mongo selects; where the requested texts are read alike and at most one filter is a list, they select the same |
| ListFilterAgreement.TwoListsDisagree | src/utils/decorators/filter/mongoose/validate-mongoose-filter-fields.decorator.ts:49-61 | with two list filters some leaf tests and document tell the translations apart, for every such search |
| LikeReadings.StoresCompare | src/utils/decorators/filter/typeorm/validate-typeorm-filter-fields.decorator.ts:73-88 | with `ilike` on the whole column and the pattern anywhere in the field: if the requested texts mean themselves and the pattern accepts what unaccenting and case folding identify, TypeORM selects no more than Mongo |
| LikeReadings.AsciiReadings | src/utils/decorators/filter/typeorm/validate-typeorm-filter-fields.decorator.ts:85-87 | on ASCII text and comma-free ASCII fields `ilike` holds exactly when the pattern is found and the lengths are equal |
| LikeReadings.ILikeIsWhole | src/utils/decorators/filter/typeorm/validate-typeorm-filter-fields.decorator.ts:85-87 | without wildcards in the text, `ilike` holds iff the strings agree at every position |
| LikeReadings.StoresPartOnContainment | src/utils/decorators/filter/mongoose/validate-mongoose-filter-fields.decorator.ts:87-94 | asked for `name:a`, Mongo selects a document whose name is `cat` and TypeORM does not |
| ListFilterAgreement.ConvertMongooseFilter | src/utils/decorators/filter/mongoose/validate-mongoose-filter-fields.decorator.ts:14-109 | the loop replaces the argument's search by exactly the query of ListFilters.ToMongo, or fails with its error |
| ListFilterAgreement.ConvertTypeOrmFilter | src/utils/decorators/filter/typeorm/validate-typeorm-filter-fields.decorator.ts:20-94 | the loop replaces the argument's search by exactly the map of ListFilters.ToTypeOrm, or fails with its error |
| SearchStrings.TransformSearch | src/utils/search.ts:36-51 | the loop over segments computes SearchStrings.ParseSearch |
| SearchStrings.SearchRoundTrips | src/utils/search.ts:8-51 | every printed non-empty list of bindings, white space around values and all, passes both checks and parses back to the map it stands for, the values trimmed and the last binding winning |
| SearchStrings.SearchMapRoundTrips | src/utils/search.ts:36-51 | every non-empty plain map comes back, in whatever order it is printed |
| SearchStrings.SearchRefusals | src/utils/search.ts:8-51 | when exactly each check and the transform refuse a string, read off its text |
| SearchStrings.LaterPiecesIgnored | src/utils/search.ts:41-43 | pieces of a segment after the second are not read |
| SearchStrings.TransformFailsIff | src/utils/search.ts:19-42 | a string that passes both checks makes the transform fail iff some segment has no colon |
| SearchStrings.AcceptedButFails | src/utils/search.ts:41-42 | one such string |
| SortStrings.SortRoundTrips | src/utils/sort.ts:13-54 | every printed non-empty list of plain sorts passes both checks and parses back, the last binding winning |
| SortStrings.SortMapRoundTrips | src/utils/sort.ts:40-54 | every non-empty plain sort map comes back, in whatever order it is printed |
| SortStrings.SortRefusals | src/utils/sort.ts:13-54 | when exactly each check and the transform refuse a string; the empty string sorts by creation, latest first |
| SortStrings.SortSegmentMeans | src/utils/sort.ts:44-48 | the order of `field:word` by the trimmed lower-case word, an empty one ascending, and what the other words give |
| SortStrings.SortPiecesIgnored | src/utils/sort.ts:45-46 | pieces of a segment after the second are not read |
| SortStrings.SortFailsIff | src/utils/sort.ts:25-47 | a string that passes both checks makes the transform fail iff some segment has no colon |
| SortStrings.OrderUndefinedIff | src/utils/sort.ts:44-48 | a parsed sort has a field without an order iff the last segment of some field has a second piece the enum does not know |
| SortStrings.AcceptedSortsGoWrong | src/utils/sort.ts:25-47 | `a:asc,desc` is accepted and fails; `a:x:asc` is accepted and binds no order |
| SortStrings.ValidateDatabaseSortAllowed | src/utils/decorators/sort/validate-sort-fields.decorator.ts:17-41 | refuses iff a field is outside the list; otherwise the new sort binds exactly the mapped columns of the fields asked for, each to the order of the last entry asking for it |
| FilterFlattening.FlattenKeys | src/utils/decorators/filter/mongoose/convert-mongoose-filter-to-query.decorator.ts:38-50 | the recursive loop writes into the target exactly what FilterFlattening.Flatten says |
| FilterFlattening.FlattenIsExact | src/utils/decorators/filter/mongoose/convert-mongoose-filter-to-query.decorator.ts:32-50 | with plain keys the flat map has exactly one entry per leaf, at its dotted path |
| FilterFlattening.UnflattenInverts | src/utils/decorators/filter/mongoose/convert-mongoose-filter-to-query.decorator.ts:38-50 | splitting the keys recovers the filter's leaves by path, that is the filter up to key order and empty sub-objects |
| FilterFlattening.ConvertFilterToMongo | src/utils/decorators/filter/mongoose/convert-mongoose-filter-to-query.decorator.ts:11-36 | marks the input live, moves its id and returns it flattened |
| FilterFlattening.ConvertMeans | src/utils/decorators/filter/mongoose/convert-mongoose-filter-to-query.decorator.ts:18-50 | with plain keys, one conversion binds the deletion mark to null and every other leaf at its dotted path, under `_id` for an id taken for true, and binds nothing else |
| FilterFlattening.ConvertTwiceIff | src/infra/repository/mongo/repository.ts:433-439 | converting twice differs from converting once exactly when the caller's filter has an object under an empty key that brings up a truthy id with no falsy top-level id after it, or a deletion mark other than null with the top-level mark before it |
| FilterFlattening.NoEmptyKeySettles | src/infra/repository/mongo/repository.ts:433-439 | without an object under an empty key, converting the converted filter gives the same |
| FilterFlattening.EmptyKeyConvertsTwice | src/utils/decorators/filter/mongoose/convert-mongoose-filter-to-query.decorator.ts:18-25 | for `{ "": { id: "5" } }` the first conversion binds `id` and the second `_id` |
| CommandFilters.GroupBy | src/utils/collection.ts:8-17 | a group per occurring property, holding that property's sublist in order |
| CommandFilters.ValidateFindByCommandsFilter | src/infra/repository/util.ts:9-36 | accepts iff no property has exactly two like commands or exactly two equality commands |
| CommandFilters.RefusesExactlyTwo | src/infra/repository/util.ts:9-36 | counted by position in the list, it is refused iff some property has exactly two commands of one kind |
| CommandFilters.ConflictGetsThroughIff | src/infra/repository/util.ts:18-30 | a list with several commands of one kind on a property is accepted iff every such number is above two; a list without any is always accepted |
| CommandFilters.BuildCommandFilter | src/infra/repository/mongo/repository.ts:447-478 | every field bound to its last command, the deletion mark always to null |
| CommandFilters.QueryFields | src/infra/repository/mongo/repository.ts:462-477 | a command on `id` binds `_id`, never `id`; every other field is bound iff it is the mark or has a command |
| CommandFilters.QueryMeansLastCommands | src/infra/repository/mongo/repository.ts:455-477 | the query selects a document iff it is live and meets the last command on every other field |
| CommandFilters.QueryMeansAllCommands | src/infra/repository/mongo/repository.ts:455-477 | with distinct fields, none the deletion mark, it selects the live documents meeting every command |
| CommandFilters.ThreeGetThrough | src/infra/repository/util.ts:18-20 | two like commands on a property are refused, three of them accepted |
| NullLastSort.CompareIsPreorder | src/utils/collection.ts:75-82 | on keys of one kind the comparator is antisymmetric, transitive and zero exactly on equal keys |
| NullLastSort.SortIsTheStableSort | src/utils/collection.ts:74-83 | a list is a stable sort of the input (section 23.1.3.30 of ECMA-262) iff it is this one: existence and uniqueness |
| NullLastSort.DirectionIsMeant | src/utils/collection.ts:81 | ascending gives rising numbers and strings, descending falling ones, read off the keys |
| NullLastSort.MissingKeysLast | src/utils/collection.ts:79-80 | in both directions the items without a key come last, in original order, after the sorted others |
| PositionalIds.UlidLengthIff | src/utils/id-generator.ts:117-133 | the body has 26 characters iff the timestamp is below 32 to the tenth |
| PositionalIds.UlidDecodes | src/utils/id-generator.ts:120-130 | the first ten characters decode to the timestamp, the others are the random digits |
| PositionalIds.UlidCase | src/utils/id-generator.ts:126-130 | the body is digits and capitals, or digits and small letters if asked for |
| PositionalIds.DigitsWrittenOut | src/utils/id-generator.ts:121 | the digit characters, written out |
| PositionalIds.UlidOrder | src/utils/id-generator.ts:117-133 | an earlier timestamp gives a smaller id whatever the random parts, in either case, under any prefix and suffix |
| PositionalIds.UlidOrderWithinTimestamp | src/utils/id-generator.ts:124-125 | within one timestamp the order is exactly that of the random digits |
| PositionalIds.UlidIsCrockfordIff | src/utils/id-generator.ts:120-131 | the body keeps to Crockford's alphabet iff none of its digits is 18, 21, 24 or 30 |
| PositionalIds.UlidReadsAsCrockfordIff | src/utils/id-generator.ts:120-131 | its first ten characters read as Crockford's Base32 give the timestamp iff every digit of the timestamp is below 18 |
| PositionalIds.ObjectIdOrder | src/utils/id-generator.ts:249-255 | for in-range parts the body is 24 digits and string order is the order of (timestamp, machine bytes, process, counter) |
| PositionalIds.ObjectIdDecodes | src/utils/id-generator.ts:249-255 | for in-range parts the body is 24 hexadecimal digits whose fields stand for timestamp, machine bytes, process and counter |
| ResourceNames.NormalizeIsJoinedWords | IaC/foundation/src/names.ts:3-10 | the chain of rewrites is: take the words, join them by single dashes; the result uses only a-z0-9- without doubled or edge dashes |
| ResourceNames.NormalizeKeepsLetters | IaC/foundation/src/names.ts:3-10 | the small letters and digits of the lower-cased input are kept in order, and nothing but dashes is beside them |
| ResourceNames.NormalizeFixesIffNormal | IaC/edge/src/names.ts:3-10 | the fixed points are exactly the normal names; idempotence |
| ResourceNames.TrimIsIdle | IaC/foundation/src/names.ts:5 | the first trim never changes the result |
| ResourceNames.NormalizeSplits | IaC/foundation/src/names.ts:3-10 | normalising a dash join joins the normalised halves, leaving out an empty one |
| ResourceNames.ResourceNameInjective | IaC/foundation/src/names.ts:125-127 | for one project and environment two suffixes share a name iff they normalise alike; injective on normal suffixes |
| ResourceNames.ProjectsCollideIff | IaC/foundation/src/names.ts:125-127 | two configurations give a suffix the same name iff project and environment joined by a dash normalise alike, that is iff their words in a row are the same |
| ResourceNames.ProjectsCanCollide | IaC/foundation/src/names.ts:125-127 | two configurations that give every suffix the same name |
| SnakeCase.AcronymScanIsRule | src/utils/text.ts:14 | the greedy, backtracking acronym scan puts an underscore exactly between two capitals before a small letter |
| SnakeCase.PassesMarkWordBreaks | src/infra/repository/util.ts:75-76 | in either order the two scans are one simultaneous rule on the input |
| SnakeCase.ColumnOnlyInserts | src/infra/repository/util.ts:73-78 | the column rewriter changes the lower-cased input only by inserting underscores, at the word breaks |
| SnakeCase.ColumnFixesIff | src/infra/repository/util.ts:73-78 | its fixed points are the strings without capitals; idempotence |
| SnakeCase.TextKeepsContent | src/utils/text.ts:10-20 | the text rewriter keeps the letters and digits, lower-cased, in order, with nothing but single underscores around them |
| SnakeCase.TextIsOnePass | src/utils/text.ts:10-20 | the whole rewriter is: mark the word breaks, then one pass that turns each run of dashes, underscores and white space into one underscore, lowers letters and leaves out the rest |
| SnakeCase.TextFixesIff | src/utils/text.ts:10-20 | its fixed points are exactly the strings in snake form; idempotence |
| EntityEvents.OneMore | src/utils/entity.ts:86-106 | what one add, release or clear does to each entity's pending and released events |
| EntityEvents.UnclearedSplits | src/utils/entity.ts:94-106 | an entity's uncleared events are its released ones followed by its pending ones |
| EntityEvents.EntityClass.AddEvent | src/utils/entity.ts:86-92 | pushes onto the entity's own array; every other array, handed out or live, is as before |
| EntityEvents.EntityClass.GetEvents | src/utils/entity.ts:94-96 | returns the live array itself, holding the pending events |
| EntityEvents.EntityClass.ReleaseEvents | src/utils/entity.ts:98-102 | hands out the old array with the pending events and gives the entity a fresh one |
| EntityEvents.EntityClass.ClearEvents | src/utils/entity.ts:104-106 | replaces the array by a fresh empty one; the old array is untouched |
| EntityEvents.EventsConserved | src/utils/entity.ts:86-106 | after any interleaving releases plus pending are the entity's uncleared events, once each in order, and no array handed out has changed |
| Paging.Normalise | src/utils/pagination.ts:14-38 | pages are at least 1 and limits between 1 and 100, when the request is refused, and what NaN and infinities become |
| Paging.Chunk | src/utils/collection.ts:66-72 | as many chunks as pages, chunk p-1 being page p; refused iff the size is not positive |
| Paging.PagesCoverExactly | src/utils/pagination.ts:41-47 | pages 1 to the total, taken by skip and limit, concatenate to the whole list |
| Paging.PositionOnOnePage | src/infra/repository/postgres/repository.ts:56-67 | every position is on exactly one of these pages |

## Left out

- Interleavings inside a use case: each is one atomic step, since the check and the save are not one transaction in the code.
- AccessStore.Store.UpdatePermission: takes, like AccessState.PermissionUpdate, a name and a deletion mark; the schema's timestamps and its untyped role list are not modelled.
- AccessStore.Store.CreateUser: like in AccessState.UserCreate, the e-mail format check, the password row, the welcome e-mail and the tracing log are not modelled.
- Sessions.AllowedIff: the signature check is a parameter; tracing calls are dropped.
- Sessions.AcceptedAgainIff: an entry evicted from the cache before its time is not modelled.
- ListFilters.ToTypeOrm: the SQL text of a `Raw` operator is not modelled, only the test it stands for.
- ListFilterAgreement.SelectionsCompare: an empty list filter, an `id` in the search and two filters on one column are outside it.
- LikeReadings.StoresCompare: text with `%`, `_` or characters special in a pattern, other than one parenthesis of each kind, is outside it, and so are foldings of one character into several.
- RegexText.PatternMatchesIff: text with special characters other than parentheses is outside it.
- SearchStrings.SearchRoundTrips: property names that JavaScript objects treat specially, such as `__proto__`, are plain keys here.
- FilterFlattening.Flatten: integer-like keys, which JavaScript enumerates first, keep their place here; dates and other objects without own keys are empty objects.
- NullLastSort.SortNullLast: the engine's in-place sort of the copied array is not a loop of this repository, so it is a function, shown to be the only stable sort; NaN keys and lists mixing numbers with strings are not modelled.
- PositionalIds: fractional or negative timestamps, and a machine id that is not three bytes.
- ResourceNames, SnakeCase: case folding outside ASCII.
- Postgres command lists, `findOr`, relation joins and select-column helpers: string building or easy members.
- `nanoid`, `slugify`, sums, minima and maxima: they would only add easy members.
- `isActive` and `isDeleted`: their conditions are swapped in `src/utils/entity.ts:37-43`; the model reads the deletion mark directly.
- Password change and reset: both save the object they loaded instead of the entity they hashed.
- Cats, birds, controllers, modules, logging, metrics, tracing, health, e-mail, HTTP and infrastructure resources: wiring or I/O.
