# Verification model of the users API

A Dafny model of the users service: its generated model layer with the three statement caches, the referral relation as a
graph of objects over one table, the routes that write that table, the gRPC view, the check-email route and the migration of
wallet addresses to bytes. `dafny verify dfyconfig.toml` checks everything.

## How the model is laid out

- `Text`, `ColumnNames`, `CacheKeys`: decimal numerals, the eighteen column names, and the keys of the caches. The names form
  a uniquely decodable code although nothing is written between them: one name is a prefix of another only for
  `ethereum_challenge` and `ethereum_challenge_sent`, and what is left of the longer one starts with `_`, as no name does.
- `CacheProtocol`, `Statements`: look up, build, execute and store as separate steps of any number of goroutines. The protocol
  is generic in the calls, keys and statements; `Statements` supplies those of Insert, Update and Upsert, and the class
  `UserStatements` has the caches as fields. `UpsertQuery` writes the text of an upsert, and `Execution` says what the three
  statements do to a row and to the object they were built for. `Reading` reads a text back as quoted names and numbered
  placeholders, and `StatementReadings` says what the three statements read as.
  `Execution.RowsAreHeld`, `Execution.PlainLibraryBinds` and `Execution.PlainUpsertsQualify` show that what is asked of
  libraries, objects and rows there can be met.
- `Users`, `Database`: the table with its primary key, its foreign key with ON DELETE SET NULL and its unique referral codes,
  and a connection whose statements may fail and whose answers come in any order the query allows.
- `UserObjects`, `Loaders`, `Relations`, `SwapRemoval`, `Consistency`: user objects on the heap with their two-way pointers, the
  eager loaders, and the operations that change table and pointers together. The methods state their whole new state; the
  lemmas of `Consistency` say what that state means: objects are in agreement for o when each names the referrer that the
  table's row names, and o lists exactly the objects that name it, which are exactly those that point back at it.
  `Agreement` states that on the heap, before and after each operation, and `LoadedAgreement` for what the loaders leave;
  `WholeRows` says that the rest of a row is left alone. `SwapRemoval.RemoveInPlace` is the removal loop on an array that may be
  the very array the elements to remove are read from.
- `Service`, `UserController`, `GrpcApi`: the routes as a state machine over a history of tables, the handlers step by step,
  and what they answer with. A request's queries may each be answered from a different past state.
- `BulkUpdate`: UserSlice.UpdateAll, with the statement as a tree of columns and parameter positions.
- `CheckEmail`, `AddressMigration`: the aggregation over rows and over a map in any order, and the hex codec on a whole table.

## Where the code does less than one might expect

These are stated as exact conditions or with the failing case.

- Keys off the table: a list with a name that is not a column can have the key of another list
  (`CacheKeys.KeyClashOffTheTable`). With a library that takes whitelists as they are given, Update's cache goes unnoticed
  exactly if no list that cannot be built has the key of one that can (`Statements.UpdateTransparentExactly`), that is, its
  kind and, run together, its names (`Statements.MasqueradesPlainly`). `Statements.UnknownColumnsLeakSomewhere` is a run.
- An upsert that ignores conflicts takes one for success and leaves its object as it was. Whatever it meets, an upsert leaves
  object and row the same exactly if it updates on conflict (`Execution.SynchronisesExactly`, with the failing rows in
  `Execution.IgnoredConflictDiffers`); `Execution.UpsertSynchronises` says so for every input, options included.
- Upsert's options shape the statement but are not in the key. The cache goes unnoticed exactly if calls with equal keys have
  the same conflict clause under the options in force (`Statements.UpsertCacheTransparent`), as calls with equal options in
  force always do. `Statements.OptionsLeak` gives the run in which two calls do not, and `Statements.TargetLeaksSomewhere` a
  library and a call for it.
- The SET list of an upsert starts with a stray comma exactly if an empty name comes first and a non-empty one follows
  (`UpsertQuery.SetListIsJoin`).
- Adding, setting and removing referred users, and setting a referrer, leave a moved object in the list of another referrer:
  that referrer stays in agreement exactly if it lists none of them (`Consistency.AddLeavesOthers`, `SetLeavesOthers`,
  `RemoveLeavesOthers`, `SetReferrerLeavesOthers`). Removing a referred user leaves it in the list it is removed from if it was
  listed more often than it is given (`Consistency.RemoveKeepsConsistent`).
- Loading the users that an object refers brings everything into agreement exactly if the object is not its own referrer: the
  row of one that is comes back as another object (`Consistency.LoadedIsConsistent`).
- DeleteUser deletes outside the transaction it began, so the failure of the commit is reported although the row is gone: exactly
  if everything before the commit went through (`UserController.DeleteUser`). It can happen exactly to users who are there and
  have no devices (`UserController.FailureMayDelete`), and `UserController.LoneUserIsGone` is an input.
- SetMigrated answers for a missing user as for a failure, although its lookup made it a not-found
  (`UserController.SetMigrated`).
- The comment on SetReferringUserUsers speaks of an update of the related objects' lists; the code changes only o's list and
  the back pointers.
- A gRPC request without an address asks for the confirmed users whose address is NULL (`GrpcApi.Confirmed`).

## Model

| member | source | states |
|---|---|---|
| Text.ItoaDecodes | models/boil_types.go:37 | a numeral followed by something that does not start with a digit can be told apart from what follows |
| Text.ItoaDenotes | models/boil_types.go:37 | a printed number, read as a decimal numeral, is the number |
| ColumnNames.OnlyPrefixPair | models/users.go:365 | one column name is a proper prefix of another only for ethereum_challenge and ethereum_challenge_sent |
| ColumnNames.FirstNameDecodes | models/users.go:365 | two texts that start with a column name and agree have the same first name, when what follows is names or a terminator |
| ColumnNames.ConcatDecodes | models/boil_types.go:38-40 | two lists of column names of any lengths, written without separators and followed by terminators, are equal if the texts are |
| CacheKeys.MakeCacheKey | models/boil_types.go:34-52 | the two loops over a buffer produce the key that the injectivity lemmas speak of |
| CacheKeys.MakeUpsertKey | models/users.go:1421-1446 | the same for the key that Upsert assembles, with its flag and its four dotted sections |
| CacheKeys.ColumnsPartDecodes | models/users.go:1433-1436 | kind and columns can be read back from a section, whatever terminated text follows |
| CacheKeys.CacheKeyInjective | models/boil_types.go:34-52 | two keys over real columns are equal if and only if kind, columns and non-zero defaults are |
| CacheKeys.KeysEqualExactly | models/boil_types.go:37-40 | for names of columns or not, two keys without defaults are equal if and only if kind and concatenation are, when no concatenation starts with a digit or sign |
| CacheKeys.UpsertKeyInjective | models/users.go:1421-1451 | two upsert keys over real columns are equal if and only if flag, conflict, update, insert and defaults are |
| CacheKeys.KeyClashOffTheTable | models/boil_types.go:38-40 | two different lists, one of them with a name that is no column, have the same key |
| CacheProtocol.StepKeepsInv | models/users.go:1207-1268 | any step of any goroutine keeps cache, work in hand and log fresh, and never changes or drops a cache entry |
| CacheProtocol.RunKeepsInv | models/users.go:1207-1268 | so does every run |
| CacheProtocol.SoloCall | models/users.go:1281-1331 | on a fresh cache a call served alone executes what it would build, stores only a success, and leaves the cache fresh |
| CacheProtocol.ClashIsSeen | models/users.go:1281-1331 | two calls with one key and different statements, run in turn, execute a statement that its caller would not have built |
| CacheProtocol.InTurnExactly | models/users.go:1281-1331 | two calls with one key, one after the other, execute what they would build if and only if they build the same |
| CacheProtocol.TransparentExactlyWhenFaithful | models/users.go:1207-1268 | no interleaving shows the cache if and only if equal keys build equal statements |
| Statements.InsertsFaithful | models/users.go:1207-1243 | Insert calls over real columns with one key build one statement |
| Statements.UpdatesFaithful | models/users.go:1281-1306 | the same for Update |
| Statements.InsertCacheTransparent | models/users.go:1207-1268 | in every interleaving of Insert calls each executes what its own arguments build, and the cache holds only fresh statements |
| Statements.UpdateCacheTransparent | models/users.go:1281-1331 | the same for Update |
| Statements.UpsertsFaithful | models/users.go:1421-1495 | Upsert's key determines its statement if and only if calls that differ in their options only have the same conflict clause |
| Statements.UpsertCacheTransparent | models/users.go:1421-1525 | no interleaving of Upsert calls shows the cache if and only if calls with equal keys have the same conflict clause under their options in force |
| Statements.EffectiveOptionsAgree | models/psql_upsert.go:39-42 | equal options in force are enough for that |
| Statements.OptionsLeak | models/users.go:1483 | of two calls that differ in their options only, the second executes its own statement if and only if their conflict clauses are equal |
| Statements.TargetLeaks | models/users.go:1483 | a conflict target given by one caller is executed for the next, who gave none, and is right if and only if it is the default |
| Statements.TargetLeaksSomewhere | models/users.go:1483 | the failure happens, for a library and a call that are given |
| Statements.UpdateTransparentExactly | models/users.go:1281-1306 | for lists of any names, no interleaving of Update calls shows the cache if and only if no list that cannot be built has the key of one that can |
| Statements.MasqueradesPlainly | models/boil_types.go:37-40 | a caller can tell: that is to have its kind and, run together, its names, when these do not start with a digit or sign |
| Statements.PlainLibraryTakesAsGiven | models/users.go:1281-1306 | there is such a library, and two lists for which the condition fails |
| Statements.UnknownColumnsLeakSomewhere | models/users.go:1281-1306 | that happens, for a library that is given and would not have built the list at all |
| Statements.UserStatements.constructor | models/users.go:388-397 | the caches start empty and in agreement with a fresh build |
| Statements.UserStatements.Insert | models/users.go:1207-1268 | with the cache, Insert executes exactly what it would build without, and the cache is left as the protocol's solo run leaves it |
| Statements.UserStatements.Update | models/users.go:1281-1331 | the same for Update, created_at being dropped unless the columns are a whitelist |
| Statements.UserStatements.Upsert | models/users.go:1421-1525 | the same for Upsert, among calls that agree on their options |
| Statements.InsertBuildsExactly | models/users.go:1214-1229 | an insert can be built if and only if the table has its columns and those it returns |
| Statements.UpdateBuildsExactly | models/users.go:1287-1306 | an update can be built if and only if there is something to set and the table has it |
| Statements.UpsertBuildsExactly | models/users.go:1455-1494 | an upsert can be built if and only if the table has its insert columns and there is something to update when conflicts are to be resolved |
| Execution.InsertSynchronises | models/users.go:1214-1258 | the i-th placeholder is bound to the object's field of the i-th column, so the row has the object's values there and defaults elsewhere; after RETURNING is scanned the object has the row's value of every column written or returned |
| StatementReadings.InsertReads | models/users.go:1230-1242 | read back, an insert names the table, its columns in order, as many placeholders numbered from 1, and the columns it returns |
| Execution.UpdateOverwrites | models/users.go:1287-1318 | the i-th placeholder is bound to the i-th column's field and the last one to the id, so the statement overwrites exactly those columns of exactly the row with the object's id |
| StatementReadings.UpdateReads | models/users.go:1299-1302 | read back, an update names the table, then each column in order with the placeholder of its own number, then the id with the one after them |
| Execution.CreatedAtIsKept | models/users.go:1292-1294 | unless the columns are a whitelist, created_at is never assigned and every other column of the set is |
| Execution.WholeRowWrite | models/users.go:1287-1304 | an inferred update leaves id and created_at of the row alone and takes every other column from the object |
| Execution.WriteBackIsUpdate | models/users.go:1287-1318 | so it does to the row what the whole-row write of the table model does, column by column |
| Execution.WriteBackIsExecuted | models/users.go:1287-1318 | for the whole table: a raw table that mirrors one of the model mirrors, after the statement, its write-back and no other table, whether it has the id or not |
| Execution.UpsertSynchronises | models/users.go:1455-1518 | for every row it may meet and all options: object and row are the same afterwards if and only if it inserts, or updates by its columns, or they were the same on an ignored conflict, or a given update list keeps to the object where nothing is returned |
| StatementReadings.UpsertReads | models/psql_upsert.go:34-99 | read back, an upsert without options names the table, its columns, as many placeholders numbered from 1, the columns in conflict, each update column twice if conflicts are resolved and none else, and the columns it returns |
| Execution.ConflictIsAsked | models/users.go:1474-1482 | the columns in conflict are those the caller gives, or else the key if conflicts are to be resolved |
| Execution.SynchronisesExactly | models/users.go:1509-1513 | without a given update list, object and row are the same whatever row with the object's id it meets, if and only if it updates on conflict |
| Execution.IgnoredConflictDiffers | models/users.go:1509-1513 | the failing rows: with the object's id and another value in any one column |
| UpsertQuery.LastOptionHolds | models/psql_upsert.go:39-42 | of several options of a kind the last one is in force |
| UpsertQuery.NoOptionHolds | models/psql_upsert.go:39-42 | without one of a kind its field is empty |
| UpsertQuery.WriteSetList | models/psql_upsert.go:78-89 | the indexed loop writes the text whose shape SetTextShape gives |
| UpsertQuery.BuildUpsertQuery | models/psql_upsert.go:34-99 | the buffer holds target, action and returning clause of the options in force, for all lists and options |
| UpsertQuery.SetTextShape | models/psql_upsert.go:78-89 | the SET list is the comma-join of "c = EXCLUDED.c" over the non-empty names, behind a comma if an empty name came first |
| UpsertQuery.SetListIsJoin | models/psql_upsert.go:78-89 | it is exactly that join if and only if no empty name comes before a non-empty one at the head of the list |
| UpsertQuery.ActionExactly | models/psql_upsert.go:70-91 | the action is literally DO NOTHING unless conflicts are to be resolved, and else DO UPDATE SET with the list given as an option or the join over the columns |
| UpsertQuery.PlaceholdersOfStatement | models/psql_upsert.go:34-99 | the whole statement has as many placeholders as insert columns, when no '$' comes with a name or an option |
| UpsertQuery.OptionsShapeStatement | models/psql_upsert.go:61-91 | two option lists make the same statement if and only if their options in force make the same conflict clause |
| UpsertQuery.ClausesAgree | models/psql_upsert.go:61-91 | with one action the targets decide, with one target the SET lists do, unless nothing is to be updated |
| UpsertQuery.TargetShapesStatement | models/psql_upsert.go:61-67 | a conflict target makes the statement that no option makes if and only if it is the default |
| Database.DB.Update | models/users.go:1287-1318 | a whole-row write leaves id and created_at alone, changes nothing when the row is gone, and is refused if a constraint breaks |
| Database.DB.Delete | models/users.go:1532-1555 | a delete leaves the table that DeleteExactly describes, and no constraint refuses it |
| Users.DeleteExactly | migrations/20230323103558_referral_date.sql:9 | exactly one row goes; rows that named it lose their referrer and nothing else; all others are untouched |
| Users.InsertSoundExactly | migrations/20211220190844_make_referral_unique.sql:3 | a new row meets the constraints if and only if its referrer is a row or itself and nobody has its referral code |
| Database.DB.SelectOrdered | models/users.go:627-645 | every matching row comes exactly once, highest keys first |
| UserObjects.One | models/users.go:606-624 | the first row is a matching one with the highest key, and there is none exactly if no row matches |
| Loaders.FindById | models/users.go:810-821 | the inner loop finds the first candidate with the id, and never matches NULL |
| Loaders.LinkOne | models/users.go:810-821 | one round points the object at its referrer and appends it to that referrer's list alone |
| Loaders.Join | models/users.go:810-821 | the nested loop equals the relational join, in both directions, for repeated objects too |
| Loaders.FoundIsTheTable | models/users.go:756-766 | of the referrers named, the loaded ones are those that the table has |
| Loaders.LoadReferringUser | models/users.go:704-824 | each object points at the one row its referring_user_id names or keeps what it had; each loaded referrer lists exactly the objects that name it, in slice order |
| Loaders.DirectionsAgree | models/users.go:810-821 | an object is in a loaded referrer's list if and only if it points at it |
| Loaders.LoadReferringUserOfOne | models/users.go:800-808 | the singular loader points at the row named, if the table has it, whose list is then the object alone |
| Loaders.LoadReferringUserUsers | models/users.go:923-938 | each object's list grows by exactly the rows it owns, in result order, and every loaded row has an owner and points back at it |
| Loaders.LoadReferringUserUsersOfOne | models/users.go:912-921 | the singular loader replaces the list by the rows that name the object, each pointing back at it |
| Loaders.OwnedByOne | models/users.go:912-934 | for a single object the plural loader hands out just those rows, in the same order |
| Loaders.OwnedIsNaming | models/users.go:923-934 | for distinct ids, an object owns exactly the rows that name it |
| Loaders.OwnedMembers | models/users.go:923-934 | a loaded row is in the list of its owner and in no other |
| Relations.AddReferringUserUsers | models/users.go:1023-1070 | rows, pointers, o's list and the table after adding, with or without insertion and for any overlap of objects; the table after a failure, which while the connection is up means that the constraints refuse the next row |
| Relations.SetReferringUserUsers | models/users.go:1078-1104 | rows, pointers, o's list and the table after replacing, old and new objects overlapping or not; failures as for adding |
| Relations.RemoveReferringUserUsers | models/users.go:1109-1144 | rows, pointers, o's list after swap-removal and the table after removing, which does not fail while the connection is up |
| Relations.RemoveFrom | models/users.go:1128-1141 | the inner loop stays in bounds and moves the last element into the place of the first match |
| Relations.SetReferringUser | models/users.go:942-984 | rows, pointers and table after setting a referrer, also when an object refers itself |
| Relations.UpdateAccepted | models/users.go:1030-1050 | without insertion, the statement for a related row is refused if and only if the row is there and the referrer is not |
| Relations.StoredForgets | models/users.go:1025-1050 | what is stored does not depend on the referrers the related rows named before |
| SwapRemoval.RemovedBag | models/users.go:1128-1141 | one removal takes away one occurrence, if there is one, and nothing else |
| SwapRemoval.RemovedAt | models/users.go:1134-1138 | the last element stands where the first match was, and all others where they were |
| SwapRemoval.RemovedAllBag | models/users.go:1128-1141 | as a multiset, the list loses exactly one occurrence for each element asked for that is still there |
| SwapRemoval.RemoveInPlace | models/users.go:1128-1141 | the same on the array itself, even when the elements to remove are read from that array while it changes |
| Consistency.ReplacedChildren | models/users.go:1078-1104 | after replacing, exactly the related ids name o, former children are NULL, and every other row is as it was |
| Consistency.AddKeepsConsistent | models/users.go:1023-1070 | adding keeps objects, pointers, o's list and table in agreement |
| Consistency.ClearKeepsConsistent | models/users.go:1078-1101 | so does the clearing half of replacing, after which o lists nobody |
| Consistency.SetKeepsConsistent | models/users.go:1078-1104 | so does replacing, for any overlap of old and new |
| Consistency.SetListsRelated | models/users.go:1078-1104 | after replacing, o lists just the related objects, in order |
| Consistency.AssignedRow | models/users.go:1115-1123 | removing takes the referrer away from exactly the rows with a related id |
| Consistency.RemoveKeepsConsistent | models/users.go:1109-1144 | removing keeps everything in agreement if and only if no removed object was listed more often than given |
| Consistency.SetReferrerKeepsConsistent | models/users.go:942-984 | setting a referrer keeps what that referrer lists in agreement |
| Consistency.AddLeavesOthers | models/users.go:1023-1070 | another referrer stays in agreement if and only if it lists none of the added objects |
| Consistency.SetLeavesOthers | models/users.go:1078-1104 | the same for replacing: another referrer stays in agreement if and only if it lists none of the new objects |
| Consistency.RemoveLeavesOthers | models/users.go:1109-1144 | the same for removing: if and only if it lists none of the removed objects |
| Consistency.SetReferrerLeavesOthers | models/users.go:942-984 | the same for setting a referrer: if and only if it does not list the object |
| Consistency.LoadedIsConsistent | models/users.go:828-938 | loading the users that an object refers brings objects, pointers and table into agreement if and only if the object is not its own referrer |
| LoadedAgreement.ReferredLoadedConsistent | models/users.go:923-938 | loading the referred users of a slice leaves all its objects in agreement if and only if none of them refers to one of them, by id or by pointer |
| LoadedAgreement.ReferrersLoadedConsistent | models/users.go:810-821 | loading the referrers of a slice leaves every loaded one in agreement if and only if none has an id of the slice and none names a loaded one |
| Agreement.Add | models/users.go:1023-1070 | on the heap, agreement before is agreement after |
| Agreement.Set | models/users.go:1078-1104 | the same for replacing, after which o lists just the related objects |
| Agreement.Remove | models/users.go:1109-1144 | agreement before is agreement after if and only if no removed object was listed more often than given |
| Agreement.SetReferrer | models/users.go:942-984 | the same for setting a referrer, and what that referrer lists |
| WholeRows.NewRowExactly | models/users.go:1025-1050 | relating changes an object's referrer and, on insertion, a creation time that was not set; nothing else |
| WholeRows.AddKeepsSame | models/users.go:1023-1070 | objects that had the table's whole rows have them after adding, with insertion or without |
| WholeRows.SetKeepsSame | models/users.go:1078-1104 | the same for replacing |
| WholeRows.RemoveKeepsSame | models/users.go:1109-1144 | the same for removing |
| WholeRows.SetReferrerKeepsSame | models/users.go:942-984 | the same for setting a referrer |
| BulkUpdate.StatementOverwrites | models/users.go:1354-1399 | for every order of the columns, the statement overwrites them on exactly the rows with the given ids, and affects just those |
| BulkUpdate.AssignOverwrites | models/users.go:1367-1373 | the i-th parameter goes to the i-th column, so setting them in turn is overwriting them together |
| BulkUpdate.MatchesIds | models/users.go:1376-1383 | the ids are bound to the positions after the columns, and the repeated clause holds of exactly the rows with such an id |
| BulkUpdate.WellFormedExactly | models/users.go:1354-1399 | the statement is well formed if and only if the columns exist |
| BulkUpdate.Range | models/users.go:1364-1373 | ranging over the map gives every column once with its value, in some order |
| BulkUpdate.UpdateAll | models/users.go:1354-1399 | all of it or nothing, with the count of rows; an empty slice succeeds, and any other exactly if the connection holds, there are columns, the table has them and the constraints allow the outcome |
| Service.StaleWrite | internal/controllers/user_controller.go:339-358 | a whole-row write of a row read earlier is refused exactly if its referrer is gone while it is not, and else sets migrated_at only |
| Service.DeleteIsLater | migrations/20230323103558_referral_date.sql:9 | a delete keeps every constraint, adds no id, and leaves every other row but for a referrer that is gone |
| Service.StepKeepsInv | internal/controllers/user_controller.go:295-358 | every step of every request keeps the invariant of the history |
| Service.EveryRunIsSafe | cmd/users-api/main.go:107-117 | in every run the constraints hold in every state, no id is ever added, and a row changes only in migrated_at or by losing a referrer that is gone |
| Service.EveryWriteBackIsSafe | internal/controllers/user_controller.go:339-358 | in every run, whatever the delay since the read, a write-back is refused or sets migrated_at only |
| Service.StepMigrates | internal/controllers/user_controller.go:346-354 | a step changes the migrated_at of a row only by a write-back to that very row, to what it writes |
| Service.MigratedByWriteBacksOnly | internal/controllers/user_controller.go:346-354 | in every state of every run, a row's migrated_at is that of the start or one that a write-back of the run wrote for its id |
| Service.MigrationAlone | internal/controllers/user_controller.go:339-358 | the two steps of a migration, alone, write the row that was read with the new time, if that is accepted |
| Service.DeletionAlone | internal/controllers/user_controller.go:295-332 | the two steps of a deletion, alone, delete the row if and only if it is there and has no devices |
| Service.SurvivorsDetermineTheTable | migrations/20230323103558_referral_date.sql:9 | but for migrated_at, each state is determined by the start and by who is left |
| UserController.AnswerShownExactly | internal/controllers/user_controller.go:107-139 | over every run, the answer for a user is that of the start but for migrated_at, with the referrer's address if and only if the referrer was there at both reads and is confirmed |
| UserController.ResponseExactly | internal/controllers/user_controller.go:107-139 | every field of the answer, the referral code only if the wallet is confirmed, the referrer's address only if the referrer's is |
| UserController.GetUserByEth | internal/controllers/user_controller.go:158-168 | the row picked has a confirmed email if and only if some row with the address has, whichever tied row comes first |
| UserController.PreferConfirmed | internal/controllers/user_controller.go:231-241 | another user's row takes the place of the claim's own only if it has the claim's address, and then under the claim's id; a failed lookup changes nothing |
| UserController.GetUser | internal/controllers/user_controller.go:223-251 | found, not found or failed exactly by the claim's own row and the queries for it; the answer has the claim's id; with an address that some row has, it shows such a row, email-confirmed if and only if one is; else the claim's own row |
| UserController.SetMigrated | internal/controllers/user_controller.go:339-358 | success exactly if the row was read, the statement went through and the constraints allow it; it then wrote the reader's row with migrated_at set or cleared; anything else changed nothing |
| UserController.MigrationWithinRun | internal/controllers/user_controller.go:339-358 | within a run, that write is refused or sets migrated_at only |
| UserController.DeleteUser | internal/controllers/user_controller.go:295-332 | status and table for every outcome of its four statements; a failure deleted the row if and only if everything but the commit went through |
| UserController.DeletionInService | internal/controllers/user_controller.go:295-332 | the steps of a deletion in a run leave the table that the handler leaves |
| UserController.FailureMayDelete | internal/controllers/user_controller.go:321-327 | a reported failure can have deleted the row if and only if the user is there and has no devices |
| UserController.LoneUserIsGone | internal/controllers/user_controller.go:321-327 | the input at which it happens |
| GrpcApi.FormatUser | internal/api/users.go:45-73 | the view of a user and of the referrer it points at, for every object with its relation struct |
| GrpcApi.ViewExactly | internal/api/users.go:45-73 | email and address show if and only if they are confirmed and there, a referrer if and only if the user was referred |
| GrpcApi.ReferredByExactly | internal/api/users.go:60-70 | a referrer is valid if and only if there is one and it is confirmed, and then shows its id and address, and else nothing |
| GrpcApi.UnconfirmedIsHidden | internal/api/users.go:45-73 | the view is the same whatever an unconfirmed email or address is |
| GrpcApi.GetUser | internal/api/users.go:29-43 | found, not found or failed exactly by the row and the two queries; found, it is the view of the row and of the referrer the table has for it |
| GrpcApi.GetUserByEthAddr | internal/api/users.go:75-90 | not found exactly if no confirmed row has the address; otherwise the view of one that has, or a failure to serve one |
| GrpcApi.GetUsersByEthereumAddress | internal/api/users.go:92-110 | the views of all confirmed rows with the address, each once, newest first, each with its own referrer; fails exactly if one of them cannot be served |
| GrpcApi.NewestFirst | internal/api/users.go:97 | no user is shown before one that was created later |
| GrpcApi.ReferrerShownExactly | internal/api/users.go:60-70 | over every run, a referred user always shows it, and the referrer is valid if and only if it was there at both reads and is confirmed, and shows as the one the user started with |
| GrpcApi.DeletedReferrerStaysInvalid | pkg/grpc/users.proto:42-44 | once the referrer is deleted, no request that reads anything later shows it as valid |
| CheckEmail.InAppStatus | internal/controllers/admin_handlers.go:56-72 | the map has each distinct 20-byte address once, with whether any row has it in the app |
| CheckEmail.SelectedExactly | internal/controllers/admin_handlers.go:36-41 | a row is among those answered if and only if it has the address as its email and both its email and its wallet are confirmed |
| CheckEmail.CheckExactly | internal/controllers/admin_handlers.go:78-101 | of vehicles, devices and, in the app, tokens, the first balance that is not zero decides or fails; all being zero there was no use |
| CheckEmail.Count | internal/controllers/admin_handlers.go:74-110 | for every order of the map: fails exactly if some address's check fails, and else counts the used addresses of each kind |
| CheckEmail.Aggregate | internal/controllers/admin_handlers.go:56-120 | the two loops and the response together are a function of the set of rows |
| CheckEmail.CheckEmail | internal/controllers/admin_handlers.go:29-120 | with the query answered and the node dialed, the answer or the failure is that of the rows the table has for the address; otherwise it fails |
| CheckEmail.OutcomeOfPermutation | internal/controllers/admin_handlers.go:56-112 | every permutation of the rows has the same outcome, failure included |
| CheckEmail.OutcomeOfTable | internal/controllers/admin_handlers.go:36-41 | the outcome depends on the table only, not on the order in which rows are read |
| CheckEmail.ResponseMeans | internal/controllers/admin_handlers.go:114-120 | the counts add up to the distinct used addresses, and inUse is that some row shows use |
| CheckEmail.ResponseCounts | internal/controllers/admin_handlers.go:74-120 | when all balances are told, the counts are those of the distinct wallets, in the app and not, with vehicles or devices or, in the app, tokens; inUse is that some row's wallet has any |
| CheckEmail.MoreRowsMoreUse | internal/controllers/admin_handlers.go:66-110 | more rows never lower the in-app count or the total, nor turn inUse off, nor make a check that passes fail for fewer rows |
| AddressMigration.DecodeEncode | migrations/20240108120235_make_eth_addr_byte_arr.sql:17 | decoding undoes encoding, for all bytes |
| AddressMigration.EncodeDecode | migrations/20240108120235_make_eth_addr_byte_arr.sql:41 | encoding what was decoded gives its digits in lower case, without blanks |
| AddressMigration.EncodedAt | migrations/20240108120235_make_eth_addr_byte_arr.sql:41 | the i-th byte is printed as two of the digits 0 to f, the high one first |
| AddressMigration.ValueIsPlace | migrations/20240108120235_make_eth_addr_byte_arr.sql:17 | a digit of either case is read as its place among 0 to f |
| AddressMigration.DecodesExactly | migrations/20240108120235_make_eth_addr_byte_arr.sql:17 | exactly the texts made of pairs of hex digits and of blanks between them are decoded |
| AddressMigration.Migration.Up | migrations/20240108120235_make_eth_addr_byte_arr.sql:5-19 | in any order of the rows, the whole column is rewritten, or nothing if one text is not hex |
| AddressMigration.Migration.Down | migrations/20240108120235_make_eth_addr_byte_arr.sql:29-43 | in any order of the rows, the whole column is rewritten |
| AddressMigration.UpAfterDown | migrations/20240108120235_make_eth_addr_byte_arr.sql:16-43 | Down and then Up is the identity on every table of bytes |
| AddressMigration.DownAfterUp | migrations/20240108120235_make_eth_addr_byte_arr.sql:16-43 | a table that Up accepts comes back from Down unchanged if and only if its texts start with 0x and then have no upper case and no blank |
| AddressMigration.DownAfterUpCell | migrations/20240108120235_make_eth_addr_byte_arr.sql:16-43 | what comes back is 0x and the digits in lower case, without blanks |
| AddressMigration.AddressesAreAccepted | migrations/20240108120235_make_eth_addr_byte_arr.sql:17 | every text of 0x and 40 digits becomes exactly 20 bytes, which check-email keeps |
| AddressMigration.TwentyBytes | internal/controllers/admin_handlers.go:59 | of the texts that Up accepts, exactly those with 40 digits after the first two characters pass the length check of check-email |

## Left out

- Library code: InsertColumnSet, UpdateColumnSet, NonZeroDefaultSet, BindMapping, IsWhitelist and the quoting of identifiers are arbitrary pure functions; queries.Equal is equality of strings, and false on NULL.
- BulkUpdate.UpdateAll: its statement is a tree of columns and parameter positions, so the text that strmangle writes for it is not part of the model.
- Relation structs are values inside their user object, so a relation struct shared by two copied user objects is not modelled, nor are copied objects.
- Lists of referred users are sequences: memory that a Go slice shares with the caller's arguments or with its spare capacity is modelled only in SwapRemoval, for the removal loop.
- Relations.SetReferringUserUsers: as in the other relation operations, the objects' rows after a statement fails part-way are not stated.
- UserController.DeleteUser: other requests' steps between its lookup and its delete are in Service, not in this method.
- RemoveReferringUser: which sibling its loop drops depends on library code that is not part of this model.
- DeleteAll, ReloadAll, Exists, Count and the query builders: they would add only lookups and one more statement.
- Query mods given to the loaders.
- Hooks, contexts, skipped timestamps and debug output; NOW() and time.Now() are parameters.
- HTTP, tokens, gRPC transport, logging and configuration: a claim is an id with an optional address.
- The chain and the devices service are arbitrary functions or parameters; computeWeb3Used is left out.
- The checksummed printed form of an address, and the padding or cropping of addresses that are not 20 bytes long.
- The padding that a CHAR column may add to a text; the other migrations.
- The constraint on referral codes is the only unique one besides the primary key; column lengths and types are not checked.
