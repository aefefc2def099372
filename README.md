# Techlyric data-access providers, modelled in Dafny

This project models the shared data-access layer behind the ASP.NET providers of the
techlyric repository:

- the Microsoft Access providers: membership, roles, profile and Web Parts personalization;
- the helper code they share;
- the SQLite role provider.

The model covers:

- **Connections** (`ConnectionHelper`, `Connections`, `Transactions`). The Access connection
  helper resolves and checks database file names, caches one connection holder per file and
  translates driver errors. A connection holder is opened re-entrantly and closed once.
- **The database** (`AccessStore`). The `aspnet_*` tables of the Access file are maps and sets.
  Each INSERT, UPDATE and DELETE the providers issue is a function on those tables. A `Database`
  object holds the current tables and, between BEGIN and COMMIT or ROLLBACK, the tables as they
  were at BEGIN.
- **Identifiers** (`Identifiers`). Applications, paths and users are looked up, and created when
  asked for (insert, then look up again). Each provider caches its application id.
- **Argument checks** (`PersonalizationProviderHelper`, `Paging`). These are the guards of
  `PersonalizationProviderHelper.cs`, and the paging loops of the membership, profile and
  personalization queries.
- **Membership** (`MembershipProvider`). This covers the checks and statements of CreateUser,
  GetPasswordWithFormat, the status messages and the passwordFormat setting.
- **Access roles** (`AccessRoles`). This covers role and user lookups, AddUsersToRoles,
  RemoveUsersFromRoles, CreateRole, DeleteRole and IsUserInRole, each inside its transaction.
- **Profile** (`AccessProfile`). This covers:
  - the `name:S|B:start:length:` encoding of PrepareDataForSaving and its parse, ParseDataFromDB;
  - SetPropertyValues and GetPropertyValues against `aspnet_Profile`;
  - the authentication-option clause and GetProfilesForQuery.
- **Personalization** (`PersonalizationBlobs`, `PersonalizationReset`, `AccessPersonalization`).
  This covers:
  - Base64 (`Base64`) serialization of page blobs;
  - LoadPersonalizationBlobs, SavePersonalizationBlob and ResetPersonalizationBlob;
  - the reset operations (ResetState, ResetAllState, ResetStatePerPaths, ResetUserStatePerUsers,
    ResetUserState);
  - FindState over shared and per-user state.
- **SQLite roles** (`SQLiteRoles`). The provider's tables are keyed by GUID strings. The model
  covers:
  - the context transaction that a call joins, or else its own connection and transaction;
  - the role operations, with their comma-joined name lists.

`Common` and `Text` hold the .NET string behaviour the providers rely on: `Trim`, `IndexOf`,
`ToLowerInvariant`, `Split`, and `Int32` formatting and parsing.

Some inputs are parameters of the model:

- the clock;
- the rows a query returns, in the order it returns them;
- generated GUIDs;
- the SecUtility validators;
- the password encoder;
- whether a file exists;
- the HTTP context.

## Model

| member | source | states |
|---|---|---|
| Common.TrimSpec | src/Data.MSAccess/AccessProviders/PersonalizationProviderHelper.cs:42 | String.Trim returns a slice of its input with no white space at either end, and everything cut away is white space |
| Common.TrimIdentity | src/Data.MSAccess/AccessProviders/PersonalizationProviderHelper.cs:56-63 | Trim leaves a string unchanged exactly when it has no white space at either end |
| Common.TrimIdempotent | src/Data.MSAccess/AccessProviders/PersonalizationProviderHelper.cs:85 | trimming twice is trimming once |
| Common.IndexOf | src/Data.MSAccess/AccessProviders/PersonalizationProviderHelper.cs:47 | String.IndexOf(char) is -1 exactly when the character is absent, and otherwise the position of its first occurrence |
| Common.ReplaceChar | src/Data.MSAccess/AccessProviders/AccessConnectionHelper.cs:264 | String.Replace swaps every occurrence of one character for the other and keeps every other character and the length |
| Common.ToLower | src/Data.SQLite/Providers/SQLiteRoleProvider.cs:173-174 | ToLowerInvariant keeps the length and lowers each character in place |
| Common.Wrap32 | src/Data.MSAccess/AccessProviders/PersonalizationProviderHelper.cs:162 | unchecked Int32 arithmetic yields an Int32 equal to the exact value modulo 2^32, and the exact value itself when it fits |
| Common.ToLowerIdempotent | src/Data.SQLite/Providers/SQLiteRoleProvider.cs:173-174 | a lowered name lowers to itself, so a lowered key matches its own lookups |
| Text.SplitTerminated | src/Data.MSAccess/AccessProviders/AccessProfileProvider.cs:209 | Split on a separator gives back the pieces of a separator-terminated concatenation, plus the trailing piece, when no piece holds the separator |
| Text.Split | src/Data.MSAccess/AccessProviders/AccessProfileProvider.cs:209 | String.Split always yields at least one piece |
| Text.ParseInt32 | src/Data.MSAccess/AccessProviders/AccessProfileProvider.cs:154-155 | Int32.Parse yields only values within Int32 |
| Text.NatToString | src/Data.MSAccess/AccessProviders/AccessProfileProvider.cs:325 | the decimal form of a number is a non-empty string of digits |
| Text.ParseIntToString | src/Data.MSAccess/AccessProviders/AccessProfileProvider.cs:154-155 | Int32.Parse of an Int32 formatted with ToString(InvariantCulture) gives the number back |
| Text.IntToStringFree | src/Data.MSAccess/AccessProviders/AccessProfileProvider.cs:325 | a formatted integer holds only digits and a minus sign, so never the ':' separator |
| Base64.RoundTrip | src/Data.MSAccess/AccessProviders/AccessPersonalizationProvider.cs:1188-1195 | Convert.FromBase64String(Convert.ToBase64String(bytes)) is the bytes, for every byte sequence |
| Base64.EncodeEmpty | src/Data.MSAccess/AccessProviders/AccessPersonalizationProvider.cs:1188-1195 | only the empty array encodes to the empty string |
| ConnectionHelper.CheckConnectionString | src/Data.MSAccess/AccessProviders/AccessConnectionHelper.cs:358-377 | a configured connection string passes; a rooted name passes exactly when the file exists; a relative name passes exactly when it is non-empty and has no ".."; an empty name fails with IndexOutOfRangeException |
| ConnectionHelper.LeadingSeparatorRuleUnreachable | src/Data.MSAccess/AccessProviders/AccessConnectionHelper.cs:365-375 | a name starting with '/' or '\' is rooted, so the leading-separator rule is never the one that rejects it |
| ConnectionHelper.RootMarkersAreEquivalent | src/Data.MSAccess/AccessProviders/AccessConnectionHelper.cs:262-270 | "~/name", "/name" and "name" resolve to the same full path under the application root |
| ConnectionHelper.FullPathEndsWithName | src/Data.MSAccess/AccessProviders/AccessConnectionHelper.cs:262-270 | a relative name is appended to the root: the full path ends with it, with forward slashes turned into backslashes |
| ConnectionHelper.RoundToSecondsSpec | src/Data.MSAccess/AccessProviders/AccessConnectionHelper.cs:379-382 | rounding drops less than a second, lands on a whole second, is idempotent and keeps the order of times |
| ConnectionHelper.GetBetterException | src/Data.MSAccess/AccessProviders/AccessConnectionHelper.cs:308-356 | a driver error on a connection with a data source becomes FileNotFound for a missing file or "not writable" for a write-protected one; anything else is returned unchanged |
| ConnectionHelper.BetterExceptionKeepsProviderErrors | src/Data.MSAccess/AccessProviders/AccessConnectionHelper.cs:308-356 | the translation never turns a non-driver error into another one, so provider errors reach the caller as raised |
| Connections.ResolveSpec | src/Data.MSAccess/AccessProviders/AccessConnectionHelper.cs:35-97 | a relative name containing ".." is refused, and every resolved file name is a valid database file |
| Connections.CheckAcceptsWhatResolves | src/Data.MSAccess/AccessProviders/AccessConnectionHelper.cs:35-97 | a non-empty name that BuildConnectionForFileName accepts also passes CheckConnectionString, when valid files exist |
| Connections.ConnectionHolder.constructor | src/Data.MSAccess/AccessProviders/AccessConnectionHelper.cs:394-398 | a new holder is closed, its monitor free, and it records its creation date |
| Connections.ConnectionHolder.Open | src/Data.MSAccess/AccessProviders/AccessConnectionHelper.cs:402-424 | the monitor is entered; an open holder stays open with the monitor entered once more; a closed one opens, or on failure leaves the monitor and rethrows |
| Connections.ConnectionHolder.Close | src/Data.MSAccess/AccessProviders/AccessConnectionHelper.cs:428-440 | a closed holder is untouched; an open one is closed and its monitor left once |
| Connections.ConnectionCache.Evict | src/Data.MSAccess/AccessProviders/AccessConnectionHelper.cs:144-149 | a cached holder whose data source file no longer exists is removed, and nothing else changes |
| Connections.ConnectionCache.Build | src/Data.MSAccess/AccessProviders/AccessConnectionHelper.cs:35-97 | a cached name is left alone; otherwise a refused name changes nothing and an accepted one gets a new closed holder under its lower-cased key |
| Connections.ConnectionCache.GetConnection | src/Data.MSAccess/AccessProviders/AccessConnectionHelper.cs:136-162 | on success the returned holder is the one cached under the trimmed name and the only one in use, and every other cached entry is unchanged; on failure no holder is in use and the error is the driver error or a plain exception |
| Connections.ConnectionCache.OpenCached | src/Data.MSAccess/AccessProviders/AccessConnectionHelper.cs:159-160 | the cached holder is opened and returned, or the driver's failure is returned with the cache idle |
| Transactions.Acquire | src/Data.MSAccess/AccessProviders/AccessConnectionHelper.cs:136-162 | on success exactly the returned holder is in use; on failure none is, and the tables are unchanged |
| Transactions.Release | src/Data.MSAccess/AccessProviders/AccessMembershipProvider.cs:466-480 | an uncommitted transaction is rolled back to the tables at BEGIN and the holder closed; committed tables stay |
| AccessStore.ApplyPreservesValid | src/Data.MSAccess/AccessProviders/AccessConnectionHelper.cs:117-126 | every statement keeps generated ids positive and below the counter, and never moves the counter back |
| AccessStore.InsertedUserIsFound | src/Data.MSAccess/AccessProviders/AccessConnectionHelper.cs:238-252 | after inserting an absent user name, the lookup finds a new id that no other user row carries |
| AccessStore.PairStatements | src/Data.MSAccess/AccessProviders/AccessRoleProvider.cs:453-461 | inserting or deleting a (user, role) pair changes aspnet_UsersInRoles alone, and affects one row exactly when the pair was absent or present |
| AccessStore.DeleteUserBlobsOfCount | src/Data.MSAccess/AccessProviders/AccessPersonalizationProvider.cs:1031-1050 | the SELECT COUNT(*) before a user's DELETE equals the number of rows the DELETE removes |
| AccessStore.DeleteInactiveUserBlobsCount | src/Data.MSAccess/AccessProviders/AccessPersonalizationProvider.cs:811-861 | the count of inactive users' rows equals the number of rows their DELETE removes |
| AccessStore.DeleteSharedBlobsAtCount | src/Data.MSAccess/AccessProviders/AccessPersonalizationProvider.cs:946-970 | the count of a path's shared rows equals the number of rows the DELETE removes |
| AccessStore.Database.Begin | src/Data.MSAccess/AccessProviders/AccessMembershipProvider.cs:359-361 | BEGIN TRANSACTION records the current tables and changes none |
| AccessStore.Database.Commit | src/Data.MSAccess/AccessProviders/AccessMembershipProvider.cs:443-445 | COMMIT keeps the tables and ends the transaction |
| AccessStore.Database.Rollback | src/Data.MSAccess/AccessProviders/AccessMembershipProvider.cs:468-477 | ROLLBACK restores the tables at BEGIN; outside a transaction its failure is swallowed and nothing changes |
| AccessStore.Database.Execute | src/Data.MSAccess/AccessProviders/AccessMembershipProvider.cs:426-437 | ExecuteNonQuery applies the statement and reports the number of rows it affects |
| Identifiers.ApplicationIdSpec | src/Data.MSAccess/AccessProviders/AccessConnectionHelper.cs:104-132 | the lookup is non-zero exactly for a present name; creating an absent name gives it a new positive id, keeps every other id, and creating twice is creating once |
| Identifiers.PathIdSpec | src/Data.MSAccess/AccessProviders/AccessConnectionHelper.cs:169-200 | the same for the paths of an application |
| Identifiers.UserIdSpec | src/Data.MSAccess/AccessProviders/AccessConnectionHelper.cs:217-258 | the same for the users of an application |
| Identifiers.ApplicationIdsStable | src/Data.MSAccess/AccessProviders/AccessConnectionHelper.cs:104-132 | no statement changes the id of an application already present, so a cached id stays right |
| Identifiers.GetApplicationID | src/Data.MSAccess/AccessProviders/AccessConnectionHelper.cs:104-132 | returns the application's id; with createIfNeeded an absent name is inserted first, so the result is non-zero; without it, an absent name gives 0 and nothing changes |
| Identifiers.GetPathID | src/Data.MSAccess/AccessProviders/AccessConnectionHelper.cs:169-200 | the same lookup-or-create for a path of an application |
| Identifiers.GetUserID | src/Data.MSAccess/AccessProviders/AccessConnectionHelper.cs:217-258 | 0 with no change for application 0 or an empty name; otherwise the user's id, a created user getting the anonymity flag and the activity time cut to seconds |
| Identifiers.Truncated | src/Data.MSAccess/AccessProviders/AccessMembershipProvider.cs:1740-1742 | the name cut to 255 characters is a prefix of it and equals it when it was short enough |
| Identifiers.ApplicationIdCache.GetApplicationId | src/Data.MSAccess/AccessProviders/AccessMembershipProvider.cs:1736-1748 | a cached non-zero id is reused only for a holder older than the cache date; otherwise the truncated name is looked up or created and the id is the application's |
| Identifiers.ApplicationIdCache.SetApplicationName | src/Data.MSAccess/AccessProviders/AccessMembershipProvider.cs:68-79 | a different name clears the cached id; the same name keeps it |
| Identifiers.ApplicationIdCache.SetBoundedApplicationName | src/Data.MSAccess/AccessProviders/AccessProfileProvider.cs:97-109 | a name over 255 characters is refused with nothing changed; otherwise as SetApplicationName |
| Identifiers.ApplicationIdCache.SetPersonalizationApplicationNameAsWritten | src/Data.MSAccess/AccessProviders/AccessPersonalizationProvider.cs:55-62 | a name over 255 characters is refused; any other name is stored and the cached id is kept |
| Identifiers.StaleIdAfterRename | src/Data.MSAccess/AccessProviders/AccessPersonalizationProvider.cs:82-104 | with the setter as written, after renaming "A" to "B" the next lookup returns the id of "A" |
| PersonalizationProviderHelper.CheckEntry | src/Data.MSAccess/AccessProviders/PersonalizationProviderHelper.cs:41-54 | one entry fails as null, empty, comma-holding or too long, in that order, and otherwise is trimmed |
| PersonalizationProviderHelper.CheckEntries | src/Data.MSAccess/AccessProviders/PersonalizationProviderHelper.cs:39-69 | the entries pass exactly when each passes, and then come back trimmed |
| PersonalizationProviderHelper.CheckEntriesReportsFirstFailure | src/Data.MSAccess/AccessProviders/PersonalizationProviderHelper.cs:39-69 | the error reported is that of the first failing entry |
| PersonalizationProviderHelper.CheckAndTrimNonEmptyStringEntries | src/Data.MSAccess/AccessProviders/PersonalizationProviderHelper.cs:17-72 | null or empty arrays fail as the source says; otherwise the result is the checked entries, in the same array when trimming changed none and in a new one otherwise |
| PersonalizationProviderHelper.CheckArrayEntries | src/Data.MSAccess/AccessProviders/PersonalizationProviderHelper.cs:17-38 | a null array is None when allowed and an ArgumentNull error otherwise, and an empty array an Argument error |
| PersonalizationProviderHelper.AllEntriesPass | src/Data.MSAccess/AccessProviders/PersonalizationProviderHelper.cs:39-69 | when every entry passes, the array passes, and an entry is kept exactly when trimming leaves it alone |
| PersonalizationProviderHelper.SameLengthTrimIsIdentity | src/Data.MSAccess/AccessProviders/PersonalizationProviderHelper.cs:56-63 | a trim that keeps the length returns the string itself, which is what the length comparison relies on |
| PersonalizationProviderHelper.CheckAndTrimString | src/Data.MSAccess/AccessProviders/PersonalizationProviderHelper.cs:74-95 | null passes unless throwIfNull; otherwise the trimmed value, which must be non-empty and within the length limit |
| PersonalizationProviderHelper.CheckAndTrimStringWithoutCommas | src/Data.MSAccess/AccessProviders/PersonalizationProviderHelper.cs:97-105 | null is refused, and so is any trimmed value holding a comma; otherwise the trimmed value |
| PersonalizationProviderHelper.CheckAndTrimStringAgreesWithEntries | src/Data.MSAccess/AccessProviders/PersonalizationProviderHelper.cs:74-95 | the single-string check accepts what the array check accepts for one entry, and yields the same value |
| PersonalizationProviderHelper.CheckAndTrimStringIdempotent | src/Data.MSAccess/AccessProviders/PersonalizationProviderHelper.cs:74-95 | an accepted value is accepted again, unchanged |
| PersonalizationProviderHelper.CheckOnlyOnePathWithUsers | src/Data.MSAccess/AccessProviders/PersonalizationProviderHelper.cs:107-114 | fails exactly when user names are given together with more than one path |
| PersonalizationProviderHelper.CheckNegativeInteger | src/Data.MSAccess/AccessProviders/PersonalizationProviderHelper.cs:116-122 | fails exactly for a negative value |
| PersonalizationProviderHelper.CheckNegativeReturnedInteger | src/Data.MSAccess/AccessProviders/PersonalizationProviderHelper.cs:124-130 | fails exactly for a negative returned value |
| PersonalizationProviderHelper.CheckNullEntries | src/Data.MSAccess/AccessProviders/PersonalizationProviderHelper.cs:132-149 | passes exactly for a present, non-empty collection without null items |
| PersonalizationProviderHelper.CheckPageIndexAndSize | src/Data.MSAccess/AccessProviders/PersonalizationProviderHelper.cs:151-167 | passes exactly when the index is not negative, the size is positive and the last row index fits in Int32 |
| PersonalizationProviderHelper.PageBoundsDoNotOverflow | src/Data.MSAccess/AccessProviders/PersonalizationProviderHelper.cs:162-166 | once the bounds pass, the Int32 products computed from them afterwards cannot wrap |
| PersonalizationProviderHelper.CheckPersonalizationScope | src/Data.MSAccess/AccessProviders/PersonalizationProviderHelper.cs:169-175 | passes exactly for the User and Shared scopes |
| PersonalizationProviderHelper.CheckUsernamesInSharedScope | src/Data.MSAccess/AccessProviders/PersonalizationProviderHelper.cs:177-183 | fails exactly when a usernames array, even an empty one, is given |
| Paging.CheckBounds | src/Data.MSAccess/AccessProviders/AccessMembershipProvider.cs:1322-1333 | the inline check refuses a negative index, a size below 1, and a last row beyond Int32 |
| Paging.CheckBoundsAgreesWithValidator | src/Data.MSAccess/AccessProviders/AccessProfileProvider.cs:708-719 | the inline bounds check and CheckPageIndexAndSize accept the same arguments |
| Paging.WindowSpec | src/Data.MSAccess/AccessProviders/AccessMembershipProvider.cs:1338-1389 | a row is on the page exactly when its position lies between pageIndex * pageSize and the page's last row, and the page keeps the rows' order |
| Paging.EveryRowOnItsPage | src/Data.MSAccess/AccessProviders/AccessMembershipProvider.cs:1327-1328 | row k is item k % pageSize of page k / pageSize |
| Paging.PageBeyondEndIsEmpty | src/Data.MSAccess/AccessProviders/AccessMembershipProvider.cs:1327-1328 | a page that starts after the last row is empty |
| Paging.PageZeroBased | src/Data.MSAccess/AccessProviders/AccessMembershipProvider.cs:1320-1389 | bad bounds give their ArgumentException; otherwise the loop returns exactly the window of the rows and the total count of rows |
| Paging.PageOneBased | src/Data.MSAccess/AccessProviders/AccessPersonalizationProvider.cs:152-171 | the one-based loop returns the same window and the total count |
| MembershipProvider.PasswordFormatRoundTrip | src/Data.MSAccess/AccessProviders/AccessMembershipProvider.cs:159-180 | a format's own name selects it; a missing setting means Hashed; any other setting is refused; Hashed is refused together with password retrieval, and only then |
| MembershipProvider.ExceptionTextSpec | src/Data.MSAccess/AccessProviders/AccessMembershipProvider.cs:1763-1802 | only status 0 has no message; statuses 1 to 7 have distinct messages, any other the unknown-error text; a status is due to a bad password exactly when its message is one of the password, question or answer ones |
| MembershipProvider.PasswordLookupSpec | src/Data.MSAccess/AccessProviders/AccessMembershipProvider.cs:1679-1732 | the stored password is returned exactly with status 0; an unknown member gives 1, and a wrong answer (case-insensitive) when one is required gives 3 |
| MembershipProvider.FirstFailure | src/Data.MSAccess/AccessProviders/AccessMembershipProvider.cs:284-340 | the position of the first failing check: all earlier checks passed and that one failed |
| MembershipProvider.CreateUserReportsFirstFailure | src/Data.MSAccess/AccessProviders/AccessMembershipProvider.cs:284-345 | CreateUser reports the status of the first failing check, in source order; a given userId is refused only once all checks pass; only then does it continue |
| MembershipProvider.AccessMembershipProvider.AddMember | src/Data.MSAccess/AccessProviders/AccessMembershipProvider.cs:363-437 | ProviderError exactly when the user name is missing or empty; with the cached id current, the status is StoreStatus of the tables before (DuplicateUserName for an existing member, DuplicateEmail for a taken address when unique addresses are required, else Success); on Success MemberAdded holds: the new membership row, the user row filed under the resolved application (the configured one when the cached id is current) with the member id and stamped activity, at most the configured application added, and every other user row, path, role and table unchanged |
| MembershipProvider.StoreStatus | src/Data.MSAccess/AccessProviders/AccessMembershipProvider.cs:363-437 | the status is one of Success, ProviderError, DuplicateUserName, DuplicateEmail, decided in that order from the tables with the user added |
| MembershipProvider.StoreStatusSpec | src/Data.MSAccess/AccessProviders/AccessMembershipProvider.cs:363-437 | an existing member gives DuplicateUserName; a new user in a known application succeeds exactly when the address is not taken or need not be unique |
| MembershipProvider.AccessMembershipProvider.ResolveUser | src/Data.MSAccess/AccessProviders/AccessMembershipProvider.cs:363-374 | the user id is 0 exactly for a missing or empty name; otherwise the user exists under that id and only the applications and users tables change |
| MembershipProvider.AccessMembershipProvider.Transact | src/Data.MSAccess/AccessProviders/AccessMembershipProvider.cs:359-447 | the status is the one AddMember decides (StoreStatus when the cached id is current); COMMIT happens on Success alone, with MemberAdded as for AddMember; any other status leaves the transaction open for the rollback |
| MembershipProvider.AccessMembershipProvider.InsertMember | src/Data.MSAccess/AccessProviders/AccessMembershipProvider.cs:405-437 | the membership row is inserted under the user id and every user row with that id has its activity stamped; nothing else changes |
| MembershipProvider.MemberAddedByStatements | src/Data.MSAccess/AccessProviders/AccessMembershipProvider.cs:363-437 | the application lookup-or-insert, the user lookup-or-insert, the membership INSERT and the activity UPDATE together give MemberAdded |
| MembershipProvider.AccessMembershipProvider.CreateUser | src/Data.MSAccess/AccessProviders/AccessMembershipProvider.cs:275-486 | the first failing check decides the status with no change; after the checks the status is StoreStatus of the tables before, when the cached id is current; on Success MemberAdded holds, under the configured application when the cached id is current; any other status or error leaves the tables as they were |
| MembershipProvider.AccessMembershipProvider.Store | src/Data.MSAccess/AccessProviders/AccessMembershipProvider.cs:347-480 | after the checks: the status is StoreStatus when the cached id is current; Success gives MemberAdded (the member under the resolved application, every other row kept), anything else restores the tables; an error is the driver error or a plain exception; the holder is released on every path |
| AccessRoles.RoleIdSpec | src/Data.MSAccess/AccessProviders/AccessRoleProvider.cs:768-790 | GetRoleId is non-zero exactly for a present role; a created role gets a new positive id without changing others; a deleted role is no longer found |
| AccessRoles.AddUsersOnlyAddsUsers | src/Data.MSAccess/AccessProviders/AccessRoleProvider.cs:438-447 | creating missing users only adds rows to aspnet_Users and keeps the tables valid |
| AccessRoles.AddUsersKeepsUsers | src/Data.MSAccess/AccessProviders/AccessRoleProvider.cs:438-447 | creating users keeps every existing user as it was and leaves every name present |
| AccessRoles.GrantedMeansInRole | src/Data.MSAccess/AccessProviders/AccessRoleProvider.cs:384-493 | after AddUsersToRoles every named user is in every named role, as IsUserInRole answers |
| AccessRoles.RevokedMeansNotInRole | src/Data.MSAccess/AccessProviders/AccessRoleProvider.cs:495-595 | after RemoveUsersFromRoles no named user is in a named role |
| AccessRoles.RevokeUndoesGrant | src/Data.MSAccess/AccessProviders/AccessRoleProvider.cs:449-561 | removing what was just added, when all users existed and none was in the roles, restores the tables |
| AccessRoles.AddUsersFoundAll | src/Data.MSAccess/AccessProviders/AccessRoleProvider.cs:438-447 | creating names that all exist changes nothing |
| AccessRoles.AccessRoleProvider.FindRoles | src/Data.MSAccess/AccessProviders/AccessRoleProvider.cs:402-408 | the role ids when every role exists; otherwise the first unknown role is reported |
| AccessRoles.AccessRoleProvider.FindUsers | src/Data.MSAccess/AccessProviders/AccessRoleProvider.cs:517-523 | the user ids, with nothing changed, when every user exists; otherwise the first unknown user is reported |
| AccessRoles.AccessRoleProvider.LookUpUsers | src/Data.MSAccess/AccessProviders/AccessRoleProvider.cs:410-413 | each name's id, 0 for a user that does not exist yet, with nothing changed |
| AccessRoles.AccessRoleProvider.CheckNoneInRoles | src/Data.MSAccess/AccessProviders/AccessRoleProvider.cs:418-436 | passes exactly when no existing user is in any role; otherwise it reports a user already in a role |
| AccessRoles.AccessRoleProvider.CheckAllInRoles | src/Data.MSAccess/AccessProviders/AccessRoleProvider.cs:533-549 | passes exactly when every user is in every role; otherwise it reports a user missing from a role |
| AccessRoles.AccessRoleProvider.CreateMissingUsers | src/Data.MSAccess/AccessProviders/AccessRoleProvider.cs:438-447 | an empty name fails; otherwise every user not found is created and every id held is the user's non-zero id |
| AccessRoles.AccessRoleProvider.InsertPairs | src/Data.MSAccess/AccessProviders/AccessRoleProvider.cs:449-462 | passes exactly when every insert, user by user, adds a row (PairsInsert); then every (user, role) pair is inserted, and only the pairs table changes |
| AccessRoles.AccessRoleProvider.DeletePairs | src/Data.MSAccess/AccessProviders/AccessRoleProvider.cs:551-563 | passes exactly when every delete, user by user, removes a row (PairsDelete); then every (user, role) pair is deleted, and only the pairs table changes |
| AccessRoles.AccessRoleProvider.ResolveApplication | src/Data.MSAccess/AccessProviders/AccessRoleProvider.cs:792-804 | the application row exists afterwards, and the id returned is its positive id |
| AccessRoles.AccessRoleProvider.EnsureUser | src/Data.MSAccess/AccessProviders/AccessRoleProvider.cs:438-447 | an empty name gives 0 with no change; otherwise the user exists afterwards, created if missing, and its non-zero id is returned |
| AccessRoles.AccessRoleProvider.InsertRow | src/Data.MSAccess/AccessProviders/AccessRoleProvider.cs:453-461 | passes exactly when each pair is new and no role id repeats; then one user is paired with each role, and only the pairs table changes |
| AccessRoles.DistinctPairsInsert | src/Data.MSAccess/AccessProviders/AccessRoleProvider.cs:449-462 | distinct users and distinct roles with no pair yet present make every insert add a row |
| AccessRoles.DistinctPairsDelete | src/Data.MSAccess/AccessProviders/AccessRoleProvider.cs:551-563 | distinct users and distinct roles with every pair present make every delete remove a row |
| AccessRoles.RepeatedRoleInsertFails | src/Data.MSAccess/AccessProviders/AccessRoleProvider.cs:453-461 | a role id listed twice makes an insert add no row, for any non-empty user list |
| AccessRoles.RepeatedRoleNameRefused | src/Data.MSAccess/AccessProviders/AccessRoleProvider.cs:400-466 | a role named twice makes AddUsersToRoles fail |
| AccessRoles.SinglePairRevoked | src/Data.MSAccess/AccessProviders/AccessRoleProvider.cs:512-567 | one known user in one known role is removed by RemoveUsersFromRoles |
| AccessRoles.AccessRoleProvider.DeleteRow | src/Data.MSAccess/AccessProviders/AccessRoleProvider.cs:555-562 | passes exactly when each pair exists and no role id repeats; then one user is taken out of each role, and only the pairs table changes |
| AccessRoles.AccessRoleProvider.GrantAll | src/Data.MSAccess/AccessProviders/AccessRoleProvider.cs:400-466 | an unknown role is refused before BEGIN; commits exactly when GrantSucceeds holds (roles known, no existing user in a role, every name non-empty, every insert adds a row), with the users created and paired with every role; otherwise nothing is kept |
| AccessRoles.AccessRoleProvider.RevokeAll | src/Data.MSAccess/AccessProviders/AccessRoleProvider.cs:512-567 | an unknown user or role is refused; commits exactly when RevokeSucceeds holds (users and roles known, every pair present, every delete removes a row), with every pair removed; otherwise nothing is kept |
| AccessRoles.AccessRoleProvider.InsertRoleRow | src/Data.MSAccess/AccessProviders/AccessRoleProvider.cs:222-242 | an existing role is refused with no change; otherwise the role is added |
| AccessRoles.AccessRoleProvider.DeleteRoleRow | src/Data.MSAccess/AccessProviders/AccessRoleProvider.cs:284-314 | false for an unknown role; a populated role is refused when asked; otherwise the role row is removed and true returned |
| AccessRoles.AccessRoleProvider.AddUsersToRoles | src/Data.MSAccess/AccessProviders/AccessRoleProvider.cs:384-493 | success implies GrantSucceeds and every named user is in every named role; when GrantSucceeds holds the only failure is a connection error; on failure at most the application row is added |
| AccessRoles.AccessRoleProvider.RemoveUsersFromRoles | src/Data.MSAccess/AccessProviders/AccessRoleProvider.cs:495-595 | success implies RevokeSucceeds and no named user is in a named role; when RevokeSucceeds holds the only failure is a connection error; on failure at most the application row is added |
| AccessRoles.AccessRoleProvider.CreateRole | src/Data.MSAccess/AccessProviders/AccessRoleProvider.cs:209-270 | Pass exactly adds the role, which was absent; an existing role always fails, with "Provider role already exists" unless the connection failed; for an absent role the only failure is a connection error; a failure adds at most the application row |
| AccessRoles.AccessRoleProvider.DeleteRoleNamed | src/Data.MSAccess/AccessProviders/AccessRoleProvider.cs:272-342 | an unknown role gives false and removes nothing; a known role is removed and the answer is whether exactly one row went; a populated role asked to be refused fails with "Role is not empty", and any other failure is a connection error; a failure adds at most the application row |
| AccessRoles.KnownRoleDeletesOneRow | src/Data.MSAccess/AccessProviders/AccessRoleProvider.cs:307-314 | while role ids are unique, deleting a known role removes exactly one row, so DeleteRole answers true |
| AccessRoles.AccessRoleProvider.IsUserInRole | src/Data.MSAccess/AccessProviders/AccessRoleProvider.cs:91-147 | false for an empty user name without touching the store; otherwise true exactly when the user and the role exist and are paired; the only failure is a connection error, for a non-empty name |
| AccessRoles.AccessRoleProvider.Ask | src/Data.MSAccess/AccessProviders/AccessRoleProvider.cs:101-128 | the answer is whether the user and the role exist and are paired |
| AccessProfile.PreparedNames | src/Data.MSAccess/AccessProviders/AccessProfileProvider.cs:273-330 | the names string is the records' four fields, each followed by ':', and the buffer stays empty without binary storage |
| AccessProfile.PreparedLocates | src/Data.MSAccess/AccessProviders/AccessProfileProvider.cs:273-330 | every record's start and length select its own string in the values string |
| AccessProfile.EntriesNamed | src/Data.MSAccess/AccessProviders/AccessProfileProvider.cs:273-330 | each record carries the name of one property, and there are no more records than properties |
| AccessProfile.EntriesDistinct | src/Data.MSAccess/AccessProviders/AccessProfileProvider.cs:273-330 | properties with distinct names get records with distinct names |
| AccessProfile.ItemsMeanRecords | src/Data.MSAccess/AccessProviders/AccessProfileProvider.cs:255-270 | whenever the first loop finds something to save, the names string is not empty |
| AccessProfile.PrepareDataForSaving | src/Data.MSAccess/AccessProviders/AccessProfileProvider.cs:243-351 | with nothing dirty and storable the strings come back unchanged; otherwise names and values are the properties' encoding |
| AccessProfile.AppendProperty | src/Data.MSAccess/AccessProviders/AccessProfileProvider.cs:273-330 | the strings after one property are the encoding before it with that property's record appended |
| AccessProfile.Find | src/Data.MSAccess/AccessProviders/AccessProfileProvider.cs:149 | the index of the first property with the name, or -1 when none has it |
| AccessProfile.StoppedStays | src/Data.MSAccess/AccessProviders/AccessProfileProvider.cs:177-179 | once an exception has ended the parse, later records change nothing |
| AccessProfile.ParseDataFromDB | src/Data.MSAccess/AccessProviders/AccessProfileProvider.cs:140-180 | with a null argument nothing changes; otherwise the properties are what the whole records leave them, up to the first exception, which is swallowed |
| AccessProfile.ParseRecord | src/Data.MSAccess/AccessProviders/AccessProfileProvider.cs:146-175 | one record updates the properties as its fields say, or throws and leaves them as they were |
| AccessProfile.ReadBackPrefix | src/Data.MSAccess/AccessProviders/AccessProfileProvider.cs:146-175 | reading back the first k written records leaves each property as its last record says |
| AccessProfile.SavedValuesReadBack | src/Data.MSAccess/AccessProviders/AccessProfileProvider.cs:140-180 | splitting the saved names on ':' and parsing them against the saved values restores every saved property, for distinct ':'-free names |
| AccessProfile.ClauseForAuthenticationOptions | src/Data.MSAccess/AccessProviders/AccessProfileProvider.cs:786-799 | the appended condition admits exactly the users the option selects: anonymous, authenticated, or all |
| AccessProfile.ProfileSavedIsStored | src/Data.MSAccess/AccessProviders/AccessProfileProvider.cs:380-411 | after the save, the user's profile row is the one saved |
| AccessProfile.ProfileSavedKeeps | src/Data.MSAccess/AccessProviders/AccessProfileProvider.cs:380-411 | the save touches only aspnet_Users and aspnet_Profile, and every other user's profile row is kept unchanged |
| AccessProfile.ProfileUpsert | src/Data.MSAccess/AccessProviders/AccessProfileProvider.cs:386-405 | the UPDATE of an existing row and the INSERT of a missing one both leave the user with the new row |
| AccessProfile.VisitKeepsProfiles | src/Data.MSAccess/AccessProviders/AccessProfileProvider.cs:212-219 | reading a profile changes no stored profile row and no application |
| AccessProfile.LoadAfterSave | src/Data.MSAccess/AccessProviders/AccessProfileProvider.cs:184-241 | what SetPropertyValues stores is what GetPropertyValues reads back into the properties |
| AccessProfile.LoadInto | src/Data.MSAccess/AccessProviders/AccessProfileProvider.cs:232-235 | a row that was read is split on ':' and parsed into the properties; no row leaves them as they were |
| AccessProfile.AccessProfileProvider.StoreRow | src/Data.MSAccess/AccessProviders/AccessProfileProvider.cs:379-412 | the user is found or created (anonymous when not authenticated) and the user's profile row becomes the new one |
| AccessProfile.AccessProfileProvider.ResolveApplication | src/Data.MSAccess/AccessProviders/AccessProfileProvider.cs:445-457 | the application row exists afterwards, and the id returned is its positive id |
| AccessProfile.AccessProfileProvider.SetPropertyValues | src/Data.MSAccess/AccessProviders/AccessProfileProvider.cs:353-440 | nothing changes for a missing or empty user name or when nothing is dirty and storable; otherwise the encoded names and values become the user's profile row |
| AccessProfile.AccessProfileProvider.SaveProfile | src/Data.MSAccess/AccessProviders/AccessProfileProvider.cs:375-416 | inside one transaction the application id is resolved and the row stored, then committed |
| AccessProfile.AccessProfileProvider.ReadProfile | src/Data.MSAccess/AccessProviders/AccessProfileProvider.cs:194-220 | the user is looked up without creation; an existing user's row, if any, is returned and the activity stamped |
| AccessProfile.AccessProfileProvider.GetPropertyValuesFromDatabase | src/Data.MSAccess/AccessProviders/AccessProfileProvider.cs:184-241 | the user's stored row, when there is one, is parsed into the collection; otherwise the collection is unchanged |
| AccessProfile.AccessProfileProvider.GetPropertyValues | src/Data.MSAccess/AccessProviders/AccessProfileProvider.cs:116-138 | an empty collection is returned as it is; an empty user name leaves values unread; otherwise the stored values are read in |
| AccessProfile.AccessProfileProvider.GetProfilesForQuery | src/Data.MSAccess/AccessProviders/AccessProfileProvider.cs:706-769 | bad page bounds are refused before a connection is taken; otherwise the page of the query's rows and the count of all of them |
| PersonalizationBlobs.Serialize | src/Data.MSAccess/AccessProviders/AccessPersonalizationProvider.cs:1188-1195 | a null or empty blob is the empty string, any other blob a non-empty Base64 text |
| PersonalizationBlobs.Deserialize | src/Data.MSAccess/AccessProviders/AccessPersonalizationProvider.cs:73-80 | a null or empty string is a null blob; a blob comes only from non-empty text; the only failure is FormatException |
| PersonalizationBlobs.SerializeRoundTrip | src/Data.MSAccess/AccessProviders/AccessPersonalizationProvider.cs:73-80 | Deserialize(Serialize(blob)) is the blob when it is not empty, and null otherwise |
| PersonalizationBlobs.SharedBlobUpsert | src/Data.MSAccess/AccessProviders/AccessPersonalizationProvider.cs:1087-1104 | the UPDATE of a path's shared row affects one row exactly when the row exists, and the INSERT otherwise adds it |
| PersonalizationBlobs.UserBlobUpsert | src/Data.MSAccess/AccessProviders/AccessPersonalizationProvider.cs:1106-1134 | the same for a user's row at a path |
| PersonalizationBlobs.SavePreservesDecodable | src/Data.MSAccess/AccessProviders/AccessPersonalizationProvider.cs:1136-1186 | a save stores text that decodes, so all stored settings still decode |
| PersonalizationBlobs.SaveThenLoad | src/Data.MSAccess/AccessProviders/AccessPersonalizationProvider.cs:615-665 | a load after a save returns the saved blob (null for an empty one): the shared blob for no user name, the user's blob otherwise |
| PersonalizationBlobs.SaveKeepsOthers | src/Data.MSAccess/AccessProviders/AccessPersonalizationProvider.cs:1136-1186 | a save leaves every other path's shared row and every other path's or user's row as it was |
| PersonalizationBlobs.ResetThenLoad | src/Data.MSAccess/AccessProviders/AccessPersonalizationProvider.cs:684-732 | after a reset the page loads without the settings that were reset, and what remains still decodes |
| PersonalizationReset.ResetPlan | src/Data.MSAccess/AccessProviders/AccessPersonalizationProvider.cs:880-921 | the argument errors, in order, and the reset chosen: all or per-path shared state; in user scope all, per-path, or per-user (with at most one path) |
| PersonalizationReset.DeleteAllParts | src/Data.MSAccess/AccessProviders/AccessPersonalizationProvider.cs:734-775 | DELETE FROM the table leaves it empty and keeps every application, path and user id |
| PersonalizationReset.ClearPathsKeeps | src/Data.MSAccess/AccessProviders/AccessPersonalizationProvider.cs:923-1002 | a per-path reset changes its own table alone |
| PersonalizationReset.ClearPathsCount | src/Data.MSAccess/AccessProviders/AccessPersonalizationProvider.cs:923-1002 | a per-path reset returns the number of rows it removed |
| PersonalizationReset.ClearSharedPaths | src/Data.MSAccess/AccessProviders/AccessPersonalizationProvider.cs:923-1002 | on the shared table it removes exactly the rows of the paths' ids |
| PersonalizationReset.ClearUserPaths | src/Data.MSAccess/AccessProviders/AccessPersonalizationProvider.cs:923-1002 | on the per-user table it removes exactly the rows at the paths' ids |
| PersonalizationReset.ClearUsersKeeps | src/Data.MSAccess/AccessProviders/AccessPersonalizationProvider.cs:1004-1085 | a per-user reset changes the per-user table alone |
| PersonalizationReset.ClearUsersCount | src/Data.MSAccess/AccessProviders/AccessPersonalizationProvider.cs:1004-1085 | a per-user reset returns the number of rows it removed |
| PersonalizationReset.ClearUsersRemoves | src/Data.MSAccess/AccessProviders/AccessPersonalizationProvider.cs:1004-1085 | a per-user reset removes exactly the users' rows, at the given path when there is one |
| PersonalizationReset.ResetOutcomeCounts | src/Data.MSAccess/AccessProviders/AccessPersonalizationProvider.cs:880-921 | whatever reset runs, its count is the number of rows deleted from its table, and the other table is unchanged |
| PersonalizationReset.InactiveClearedKeeps | src/Data.MSAccess/AccessProviders/AccessPersonalizationProvider.cs:791-878 | the inactive reset keeps every other table and every per-user row that does not match |
| PersonalizationReset.InactiveClearedCount | src/Data.MSAccess/AccessProviders/AccessPersonalizationProvider.cs:849-861 | the inactive reset returns the number of rows it removed |
| PersonalizationReset.InactiveClearedLeavesNone | src/Data.MSAccess/AccessProviders/AccessPersonalizationProvider.cs:791-878 | after the inactive reset no matching row remains |
| AccessPersonalization.FindStateCheck | src/Data.MSAccess/AccessProviders/AccessPersonalizationProvider.cs:218-252 | the checks of the scope, the page bounds and the query's path and user name fail in that order, and pass exactly when each passes |
| AccessPersonalization.SharedInfosSpec | src/Data.MSAccess/AccessProviders/AccessPersonalizationProvider.cs:175-194 | each page entry becomes one shared entry, in order, with its path, date, size and its path's per-user totals |
| AccessPersonalization.SharedInfosAsWrittenSpec | src/Data.MSAccess/AccessProviders/AccessPersonalizationProvider.cs:182-194 | as written, the second pass succeeds exactly when every path on the page has per-user rows, and then agrees with SharedInfos |
| AccessPersonalization.SharedPageWithoutUserRows | src/Data.MSAccess/AccessProviders/AccessPersonalizationProvider.cs:188 | a page entry whose path no user has personalized makes the query throw, where totals of 0 are meant |
| AccessPersonalization.AccessPersonalizationProvider.GetApplicationName | src/Data.MSAccess/AccessProviders/AccessPersonalizationProvider.cs:47-54 | the effective name is returned (the default one for a null or empty name) and stored; the cached id is kept |
| AccessPersonalization.AccessPersonalizationProvider.SetApplicationName | src/Data.MSAccess/AccessProviders/AccessPersonalizationProvider.cs:55-62 | as written: a name over 255 characters is refused; another name is stored and the cached id and date are kept, so the provider stays consistent exactly when the cache still matches, which holds when no id was cached or the name is unchanged |
| AccessPersonalization.AccessPersonalizationProvider.LoadPersonalizationBlobs | src/Data.MSAccess/AccessProviders/AccessPersonalizationProvider.cs:615-665 | the page's shared blob and the user's blob are those LoadResult reads from the tables |
| AccessPersonalization.AccessPersonalizationProvider.ResolveApplication | src/Data.MSAccess/AccessProviders/AccessPersonalizationProvider.cs:82-104 | the application row exists afterwards, and the id returned is its positive id |
| AccessPersonalization.AccessPersonalizationProvider.LoadBlobs | src/Data.MSAccess/AccessProviders/AccessPersonalizationProvider.cs:631-649 | once connected: the blobs read are those LoadResult gives for the tables with the application row, and only the visit stamps change |
| AccessPersonalization.AccessPersonalizationProvider.SavePersonalizationBlob | src/Data.MSAccess/AccessProviders/AccessPersonalizationProvider.cs:1136-1186 | the blob is stored as the path's shared or the user's settings, and a load afterwards returns it |
| AccessPersonalization.AccessPersonalizationProvider.StoreSharedBlob | src/Data.MSAccess/AccessProviders/AccessPersonalizationProvider.cs:1087-1104 | the path's shared row holds the blob afterwards, and nothing else changes |
| AccessPersonalization.AccessPersonalizationProvider.StoreUserBlob | src/Data.MSAccess/AccessProviders/AccessPersonalizationProvider.cs:1106-1134 | the user's row at the path holds the blob afterwards, and nothing else changes |
| AccessPersonalization.AccessPersonalizationProvider.SaveBlob | src/Data.MSAccess/AccessProviders/AccessPersonalizationProvider.cs:1136-1186 | once connected, the tables become BlobSaved of the tables with the application row |
| AccessPersonalization.AccessPersonalizationProvider.ResetPersonalizationBlob | src/Data.MSAccess/AccessProviders/AccessPersonalizationProvider.cs:684-732 | the path's shared settings or the user's are deleted, so a load afterwards finds none |
| AccessPersonalization.AccessPersonalizationProvider.ResetBlob | src/Data.MSAccess/AccessProviders/AccessPersonalizationProvider.cs:684-732 | once connected, the tables become BlobReset of the tables with the application row |
| AccessPersonalization.AccessPersonalizationProvider.ResetAllState | src/Data.MSAccess/AccessProviders/AccessPersonalizationProvider.cs:734-775 | every row of the table is deleted and their number returned |
| AccessPersonalization.AccessPersonalizationProvider.ClearAll | src/Data.MSAccess/AccessProviders/AccessPersonalizationProvider.cs:734-775 | the table is emptied and the number of rows it held is returned |
| AccessPersonalization.AccessPersonalizationProvider.ResetStatePerPaths | src/Data.MSAccess/AccessProviders/AccessPersonalizationProvider.cs:923-1002 | no paths reset nothing; otherwise the paths' rows are deleted from the table and counted |
| AccessPersonalization.AccessPersonalizationProvider.ClearOnePath | src/Data.MSAccess/AccessProviders/AccessPersonalizationProvider.cs:955-965 | one path's rows are counted and deleted, as one step of ClearPaths |
| AccessPersonalization.AccessPersonalizationProvider.ClearPathsLoop | src/Data.MSAccess/AccessProviders/AccessPersonalizationProvider.cs:955-965 | the loop leaves the tables and the count ClearPaths defines |
| AccessPersonalization.AccessPersonalizationProvider.ClearPathsInTransaction | src/Data.MSAccess/AccessProviders/AccessPersonalizationProvider.cs:923-1002 | inside one transaction, with the application row ensured, the tables and count are those of ClearPaths |
| AccessPersonalization.AccessPersonalizationProvider.ResetUserStatePerUsers | src/Data.MSAccess/AccessProviders/AccessPersonalizationProvider.cs:1004-1085 | the users' rows, at the path when one is given, are deleted and counted |
| AccessPersonalization.AccessPersonalizationProvider.ClearOneUser | src/Data.MSAccess/AccessProviders/AccessPersonalizationProvider.cs:1038-1048 | one user's rows are counted and deleted, as one step of ClearUsers |
| AccessPersonalization.AccessPersonalizationProvider.ClearUsersLoop | src/Data.MSAccess/AccessProviders/AccessPersonalizationProvider.cs:1038-1048 | the loop leaves the tables and the count ClearUsers defines |
| AccessPersonalization.AccessPersonalizationProvider.ClearUsersInTransaction | src/Data.MSAccess/AccessProviders/AccessPersonalizationProvider.cs:1004-1085 | inside one transaction, with the application row ensured, the tables and count are those of ClearUsers |
| AccessPersonalization.AccessPersonalizationProvider.ResetState | src/Data.MSAccess/AccessProviders/AccessPersonalizationProvider.cs:880-921 | a failed check throws with nothing changed; otherwise the selected reset runs, returns the rows it deleted, and leaves the other table alone |
| AccessPersonalization.AccessPersonalizationProvider.RunResetAction | src/Data.MSAccess/AccessProviders/AccessPersonalizationProvider.cs:898-921 | the reset the action names runs, and the tables and count are those of ResetOutcome |
| AccessPersonalization.AccessPersonalizationProvider.ResetUserState | src/Data.MSAccess/AccessProviders/AccessPersonalizationProvider.cs:791-878 | the per-user rows of users inactive since the date (at the path, when given) are deleted and counted, and none remains |
| AccessPersonalization.AccessPersonalizationProvider.ClearInactive | src/Data.MSAccess/AccessProviders/AccessPersonalizationProvider.cs:800-870 | once connected, the tables and count are those of InactiveCleared with the date cut to seconds |
| AccessPersonalization.AccessPersonalizationProvider.CompleteSharedInfos | src/Data.MSAccess/AccessProviders/AccessPersonalizationProvider.cs:175-194 | as written: the result is SharedInfosAsWritten, which fails with InvalidCastException on a path with no per-user rows and otherwise completes each page entry with its path's per-user size and count, in order |
| AccessPersonalization.AccessPersonalizationProvider.FindShared | src/Data.MSAccess/AccessProviders/AccessPersonalizationProvider.cs:106-216 | as written: the page window completed by SharedInfosAsWritten with the count of all rows, or its InvalidCastException |
| AccessPersonalization.AccessPersonalizationProvider.FindUsers | src/Data.MSAccess/AccessProviders/AccessPersonalizationProvider.cs:254-359 | the per-user entries of the one-based page window and the count of all rows |
| AccessPersonalization.AccessPersonalizationProvider.FindState | src/Data.MSAccess/AccessProviders/AccessPersonalizationProvider.cs:218-252 | a failed check throws with nothing changed; InvalidCastException exactly from a shared page holding a path with no per-user rows; otherwise the page of shared entries with totals, or of per-user entries, and the count of all rows |
| SQLiteRoles.ConnectionFor | src/Data.SQLite/Providers/SQLiteRoleProvider.cs:739-752 | the context's transaction connection is used exactly when IsTransactionInProgress holds |
| SQLiteRoles.ListedRoundTrip | src/Data.SQLite/Providers/SQLiteRoleProvider.cs:341-364 | no rows list as an empty array; otherwise at least one name is listed; rows without commas list as themselves |
| SQLiteRoles.CommaChecksDiffer | src/Data.SQLite/Providers/SQLiteRoleProvider.cs:132 | the written check misses exactly the names that start with a comma |
| SQLiteRoles.LeadingCommaRoleListsAsTwo | src/Data.SQLite/Providers/SQLiteRoleProvider.cs:206-209 | ",admin" passes the written check, and a list holding it reads back as "" and "admin" |
| SQLiteRoles.AcceptedNameListsAsItself | src/Data.SQLite/Providers/SQLiteRoleProvider.cs:357-362 | a name the intended check accepts is listed as itself |
| SQLiteRoles.NullApplicationMatchesNothing | src/Data.SQLite/Providers/SQLiteRoleProvider.cs:596-597 | with a NULL application id no role, user or membership matches |
| SQLiteRoles.GrantMakesMembers | src/Data.SQLite/Providers/SQLiteRoleProvider.cs:156-177 | afterwards a pair is a member exactly when it was one, or both names were requested and both exist |
| SQLiteRoles.RevokeEndsMembers | src/Data.SQLite/Providers/SQLiteRoleProvider.cs:540-558 | afterwards a pair is a member exactly when it was one and its names were not both requested |
| SQLiteRoles.RevokeUndoesGrant | src/Data.SQLite/Providers/SQLiteRoleProvider.cs:120-198 | when no requested pair was a member, removing what was added restores the memberships |
| SQLiteRoles.NewMemberChecksSpec | src/Data.SQLite/Providers/SQLiteRoleProvider.cs:130-144 | as written: the per-user checks pass exactly when no user name holds a comma after its first character and none is in any requested role |
| SQLiteRoles.LeadingCommaUserPasses | src/Data.SQLite/Providers/SQLiteRoleProvider.cs:130-135 | ",bob" passes the written per-user check, and a list holding it reads back as "" and "bob" |
| SQLiteRoles.IntendedNewMembersListAsThemselves | src/Data.SQLite/Providers/SQLiteRoleProvider.cs:130-144 | with the intended check, every accepted user name is listed as itself |
| SQLiteRoles.AddUsersChecksSpec | src/Data.SQLite/Providers/SQLiteRoleProvider.cs:122-144 | as written: the checks pass exactly when every role exists, no name holds a comma after its first character and no user is in a role; then removing undoes adding |
| SQLiteRoles.RemoveUsersChecks | src/Data.SQLite/Providers/SQLiteRoleProvider.cs:511-528 | passes exactly when every role exists and every user is in every role |
| SQLiteRoles.CreateRoleChecks | src/Data.SQLite/Providers/SQLiteRoleProvider.cs:206-219 | as written: passes exactly when the name holds no comma after its first character, the role does not exist and the validator accepts it; a later comma is refused with the commas message |
| SQLiteRoles.DeleteRoleReachesOtherApplication | src/Data.SQLite/Providers/SQLiteRoleProvider.cs:280-285 | as written, deleting "Admin" in one application removes a member of "Admin" in another |
| SQLiteRoles.DropRoleSpec | src/Data.SQLite/Providers/SQLiteRoleProvider.cs:278-296 | the role is gone, no membership of it is left, and other applications' roles and memberships are unchanged |
| SQLiteRoles.DropRoleAsWrittenSpec | src/Data.SQLite/Providers/SQLiteRoleProvider.cs:278-296 | as written: the role is gone, the memberships left are those of roles with another lowered name in any application, and other applications' roles stay |
| SQLiteRoles.CreateThenDrop | src/Data.SQLite/Providers/SQLiteRoleProvider.cs:223-243 | a created role exists afterwards, and deleting it again as written restores the tables when no membership points at a role of that lowered name |
| SQLiteRoles.RoleNamesOf | src/Data.SQLite/Providers/SQLiteRoleProvider.cs:336-347 | each role id read gives that role's name, in order |
| SQLiteRoles.MemberNamesOf | src/Data.SQLite/Providers/SQLiteRoleProvider.cs:432-447 | each membership read gives its user's name, in order |
| SQLiteRoles.MembershipRoleNamesOf | src/Data.SQLite/Providers/SQLiteRoleProvider.cs:383-398 | each membership read gives its role's name, in order |
| SQLiteRoles.SQLiteRoleProvider.OpenConnection | src/Data.SQLite/Providers/SQLiteRoleProvider.cs:739-752 | the connection is the context's when a transaction is in progress, otherwise a fresh one is counted |
| SQLiteRoles.SQLiteRoleProvider.CloseConnection | src/Data.SQLite/Providers/SQLiteRoleProvider.cs:195-196 | the connection is disposed unless a transaction is in progress |
| SQLiteRoles.SQLiteRoleProvider.BeginIfNone | src/Data.SQLite/Providers/SQLiteRoleProvider.cs:153-154 | a transaction is begun exactly when none is in progress in the context |
| SQLiteRoles.SQLiteRoleProvider.CommitIfOwned | src/Data.SQLite/Providers/SQLiteRoleProvider.cs:180-181 | only a transaction this call began is committed |
| SQLiteRoles.SQLiteRoleProvider.SetApplicationName | src/Data.SQLite/Providers/SQLiteRoleProvider.cs:42-53 | a name over 256 characters is refused with nothing changed; otherwise the name is set and the id is the one stored for it |
| SQLiteRoles.SQLiteRoleProvider.VerifyApplication | src/Data.SQLite/Providers/SQLiteRoleProvider.cs:696-726 | a non-empty id changes nothing; otherwise an application row is inserted under a new id; the id is never empty afterwards |
| SQLiteRoles.SQLiteRoleProvider.RoleExists | src/Data.SQLite/Providers/SQLiteRoleProvider.cs:589-613 | true exactly when a role of the application has the lowered name |
| SQLiteRoles.SQLiteRoleProvider.IsUserInRole | src/Data.SQLite/Providers/SQLiteRoleProvider.cs:475-502 | true exactly when a membership pairs the user and the role of the application |
| SQLiteRoles.SQLiteRoleProvider.ReadNames | src/Data.SQLite/Providers/SQLiteRoleProvider.cs:342-364 | the names are the rows listed: empty exactly for no rows, and the rows themselves when none holds a comma |
| SQLiteRoles.SQLiteRoleProvider.GetAllRoles | src/Data.SQLite/Providers/SQLiteRoleProvider.cs:327-365 | the names of the application's roles, in the order read |
| SQLiteRoles.SQLiteRoleProvider.GetRolesForUser | src/Data.SQLite/Providers/SQLiteRoleProvider.cs:374-416 | the names of the user's roles, in the order read |
| SQLiteRoles.SQLiteRoleProvider.GetUsersInRole | src/Data.SQLite/Providers/SQLiteRoleProvider.cs:423-465 | the names of the role's users, in the order read |
| SQLiteRoles.SQLiteRoleProvider.CheckRolesExist | src/Data.SQLite/Providers/SQLiteRoleProvider.cs:122-128 | passes exactly when every role exists |
| SQLiteRoles.SQLiteRoleProvider.CheckNewMembers | src/Data.SQLite/Providers/SQLiteRoleProvider.cs:130-144 | reports the first user name holding a comma after its first character or already in a requested role, as NewMemberChecks decides |
| SQLiteRoles.SQLiteRoleProvider.InAnyOf | src/Data.SQLite/Providers/SQLiteRoleProvider.cs:137-143 | true exactly when the user is in one of the roles |
| SQLiteRoles.SQLiteRoleProvider.InAllOf | src/Data.SQLite/Providers/SQLiteRoleProvider.cs:521-527 | true exactly when the user is in every role |
| SQLiteRoles.SQLiteRoleProvider.CheckMembers | src/Data.SQLite/Providers/SQLiteRoleProvider.cs:519-528 | passes exactly when every user is in every role |
| SQLiteRoles.SQLiteRoleProvider.AddUsersToRoles | src/Data.SQLite/Providers/SQLiteRoleProvider.cs:120-198 | a failed check (the written comma check included) changes nothing; otherwise every requested user that exists is paired with every requested role |
| SQLiteRoles.SQLiteRoleProvider.GrantRow | src/Data.SQLite/Providers/SQLiteRoleProvider.cs:169-177 | the inserts for one user name extend Grant by that name |
| SQLiteRoles.SQLiteRoleProvider.RevokeRow | src/Data.SQLite/Providers/SQLiteRoleProvider.cs:550-558 | the deletes for one user name extend Revoke by that name |
| SQLiteRoles.SQLiteRoleProvider.RemoveUsersFromRoles | src/Data.SQLite/Providers/SQLiteRoleProvider.cs:509-580 | a failed check changes nothing; otherwise every requested pair is removed |
| SQLiteRoles.SQLiteRoleProvider.CreateRole | src/Data.SQLite/Providers/SQLiteRoleProvider.cs:204-246 | the result is CreateRoleChecks (the written comma check); a failed check changes nothing; otherwise the role is added under the new id |
| SQLiteRoles.SQLiteRoleProvider.DropRoleRows | src/Data.SQLite/Providers/SQLiteRoleProvider.cs:278-296 | as written: the two deletes leave the tables DropRoleAsWritten defines, inside the call's transaction |
| SQLiteRoles.SQLiteRoleProvider.DeleteRole | src/Data.SQLite/Providers/SQLiteRoleProvider.cs:256-319 | an unknown role, or a populated one when asked, is refused; otherwise the role goes with the memberships of every role of its lowered name in any application, and true is returned |

## Left out

- PersonalizationReset.ResetPlan and AccessPersonalization.AccessPersonalizationProvider.ResetAllState: ResetAllState deletes every row of its table, whatever application the row belongs to. The model keeps this, because that is what the code does.
- Transactions.Acquire: the cache lock around GetConnection is not modelled, so the operation is one atomic step.
- Connections.ConnectionHolder.Open: re-entry into an already open holder enters the monitor once more, and Close leaves it once. That is modelled as written.
- Membership operations other than CreateUser are not modelled (UpdateUser, ValidateUser, ChangePassword, ResetPassword, the Find and Get queries, DeleteUser). Only GetPasswordWithFormat, the status messages and the paging loop are shared with them.
- Password salting, hashing and encryption (GenerateSalt, EncodePassword, UnEncodePassword) are a parameter, because they call .NET cryptography.
- The SecUtility validators are not part of this model. They are parameters of the checks.
- Profile: DeleteProfiles, DeleteInactiveProfiles, GetNumberOfInactiveProfiles and the queries' SQL text are left out. GetProfilesForQuery takes the rows the query returns.
- Profile: ConvertObjectToString, SerializePropertyValue, Deserialize and GetObjectFromString are left out, because they call .NET serializers. Payloads are strings or bytes.
- Personalization: GetCountOfState, GetCountOfSharedState and GetCountOfUserState are left out. The LIKE patterns and ORDER BY of FindState are parameters: the query rows and per-path totals are given.
- Personalization: Initialize, and the configuration of every provider, are left out.
- Dates are whole tick counts. DateTime.Now is a parameter, and RoundToSeconds is integer division.
- Integers are unbounded. Counts returned from loops are not wrapped at Int32. Page bounds are checked against Int32 as the source does.
- AccessPersonalization.AccessPersonalizationProvider.LoadPersonalizationBlobs: whether the connection was made is a ghost result, so the contract does not name the failures; it states the tables and the result once connected.
- Common.ToLower: Char.ToLowerInvariant covers ASCII letters only. Connections.ConnectionCache keys are folded with it, which approximates the InvariantCultureIgnoreCase comparer of the connection table in the same way.
- AccessStore.Database.Rollback: the snapshot includes the next AutoNumber value, so a rolled-back insert gives its id again. Jet does not roll AutoNumber back, so ids issued after a rollback differ from the program's; which rows exist is the same.
- String.Trim removes the ASCII white space and the common Unicode spaces, not the whole Unicode category.
- Convert.FromBase64String does not skip white space inside its input.
- The driver never fails a statement, so the rollback paths after a failed statement are reached only through the providers' own refusals.
- Exceptions thrown part-way through a loop, other than the providers' own checks, are not modelled.
- Concurrency, impersonation (revertImpersonation) and the file system are not modelled. Whether a file exists or is a valid database is an input.
- Access relationships between tables (cascading deletes) are not part of this model.
- SQLiteRoles.SQLiteRoleProvider.ReadNames: the row order of a query is a parameter, an enumeration of the matching rows.
- SQLiteRoles.SQLiteRoleProvider.AddUsersToRoles: UsersInRoles is a set, so the duplicate-key failure of a repeated INSERT is not modelled. The code raises it when a user name or a role name is repeated, or when two names are equal after ToLowerInvariant (["admin", "admin"] or ["Admin", "admin"]); the model unions the pair in once and passes.
- SQLiteRoles.SQLiteRoleProvider.RemoveUsersFromRoles: the scalar subqueries are modelled as matching all rows with the name. This is the same when lowered names are unique per application.
- SQLiteRoles.SQLiteRoleProvider.CreateRole: Guid.NewGuid is a parameter (also for VerifyApplication), and CreateRole requires the new role id to be unused.
- SQLiteRoles.SQLiteRoleProvider: the static fields are instance fields of one provider object.
- SQLiteRoles.SQLiteRoleProvider.CommitIfOwned: the commit of an outer transaction found in the HTTP context belongs to the caller and is not modelled.
- SQLiteRoles.SQLiteRoleProvider: FindUsersInRole (LIKE matching) and Initialize are not modelled.
- SQLiteRoles.SQLiteRoleProvider.VerifyApplication: the applications table is keyed by name.
- SQLiteRoles.SQLiteRoleProvider.SetApplicationName: the setter does not call VerifyApplication, so a new name leaves a NULL id until VerifyApplication runs (see NullApplicationMatchesNothing).

- AccessPersonalization.AccessPersonalizationProvider.SetApplicationName: the setter is modelled as written and keeps the cached id. The other operations require the cached id to belong to the current name, so the model does not follow them after a rename with an id cached; Identifiers.StaleIdAfterRename shows what they would answer.
- MembershipProvider.AccessMembershipProvider.CreateUser: the status is stated only while the cached application id belongs to the configured name. A rollback after GetApplicationId created the application can leave a cached id of an application that is gone.
- Identifiers.ApplicationIdIn, Identifiers.PathIdIn, Identifiers.UserIdIn, AccessRoles.RoleIdIn and MembershipProvider.EmailTaken match names and addresses exactly, while Jet compares text without regard to case. So the model treats "Admin" after "admin" as a second role, user, path or application, where the database finds the first one; and with unique addresses required, CreateUser with "bob@x.com" beside a member with "Bob@X.com" is a Success in the model where the code answers DuplicateEmail.
- AccessProfile.Find matches property names exactly, while the .NET property collection ignores case.
- ConnectionHelper: Path.IsPathRooted throws ArgumentException on a name holding invalid path characters. The model treats such a name like any other.

## Findings

The provider members follow the code as written at each of these sites. Each corrected member states the intended behaviour and is used by nothing but its own lemmas.

| source | as written | input that shows it | evidently intended | confidence | as-written member | corrected member |
|---|---|---|---|---|---|---|
| src/Data.MSAccess/AccessProviders/AccessPersonalizationProvider.cs:55-62 | the ApplicationName setter stores the new name but keeps the cached application id | rename "A" to "B" after a lookup, then look up through a holder older than the cache date: the id of "A" is answered | a changed name clears the cached id, as the other Access providers' setters do | not executed | Identifiers.StaleIdAfterRename | Identifiers.ApplicationIdCache.SetBoundedApplicationName |
| src/Data.MSAccess/AccessProviders/AccessPersonalizationProvider.cs:188 | Convert.ToInt32 of SUM(LEN(PageSettings)), which is NULL for a path with no per-user rows | a shared entry on the page whose path no user has personalized: InvalidCastException | the entry gets a personalization size and count of 0 | not executed | AccessPersonalization.SharedPageWithoutUserRows | AccessPersonalization.SharedInfosSpec |
| src/Data.SQLite/Providers/SQLiteRoleProvider.cs:206 | the comma check is IndexOf(',') > 0, so a comma at position 0 passes | role name ",admin": it is created, and GetAllRoles then lists "" and "admin" | refuse a comma anywhere (IndexOf(',') != -1) | not executed | SQLiteRoles.LeadingCommaRoleListsAsTwo | SQLiteRoles.AcceptedNameListsAsItself |
| src/Data.SQLite/Providers/SQLiteRoleProvider.cs:280-281 | DeleteRole deletes memberships of every role with the lowered name, in every application | roles "Admin" in applications a and b, bob in b's "Admin": deleting "Admin" in a removes bob's membership | only memberships of this application's role are deleted | not executed | SQLiteRoles.DeleteRoleReachesOtherApplication | SQLiteRoles.DropRoleSpec |
| src/Data.SQLite/Providers/SQLiteRoleProvider.cs:132 | the user-name comma check is IndexOf(',') > 0, so a comma at position 0 passes | AddUsersToRoles with user ",bob": the check passes, and once a user ",bob" is paired with the role, GetUsersInRole lists "" and "bob" | refuse a comma anywhere in a user name | not executed | SQLiteRoles.LeadingCommaUserPasses | SQLiteRoles.IntendedNewMembersListAsThemselves |
