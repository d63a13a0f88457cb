# TextCommunicator — authorization and data-consistency model

TextCommunicator is an ASP.NET Core MVC messenger. Registered users exchange
direct messages, administrators manage groups and their memberships, members
post to group chats, and users edit their profiles, including an optional
profile photo. This project models the server core of that application in
Dafny:

- the database context: one table per entity set, the unique index on a
  membership's (GroupId, UserId) pair, and the restricting foreign keys from a
  direct message to its sender and recipient (`schema.dfy`);
- the controller actions of `GroupsController`, `AdminController`,
  `ChatController`, `ProfileController` and the registration action of
  `AccountController`;
- the start-up seeding of roles and of the default administrator in
  `Program.cs`.

The store is a class, `Schema.Store`, with one sequence field per table plus
the id counters and a logical clock. Each action that writes to the database is
a method that `modifies` the store. Its contract states the whole new state,
either as an update of `old(s.Content())` or through a specification function
(`DeleteGroupTables`, `DeleteUserTables`, `SeedTables`). Each controller
action that writes also keeps `Valid()` (every schema constraint holds) and
`Seeded()` (both roles exist, and a user with the administrator's exact e-mail
holds Admin). The seeding methods are weaker: `Seeding.EnsureRoles` keeps
`Valid()` only, `Seeding.EnsureAdmin` states only its new content, and
`Seeding.Seed` keeps `Valid()` and keeps or establishes `Seeded()` only under
the conditions its contract names. Read-only actions are functions over the
table values, except `AdminController.Users`, a method whose loop builds the
rows one user at a time. The lemmas beside them state what each query returns:
exactly which rows, in which order, and with which error outcomes.

The caller is a `Principal` (its id and the roles in its cookie). HTTP results
are an `Outcome` value:

| Outcome | meaning |
|---|---|
| `Ok` | the action did its work |
| `Forbid` | the caller is not allowed to do this |
| `NotFound` | the entity asked for does not exist |
| `Rejected(reason)` | a validation or store error; nothing from that save persists |
| `Protected` | the target is the default administrator |
| `NoOp` | a redirect with nothing done |

A save that names a missing group or user makes `SaveChangesAsync` throw. No
action catches it: the exception handler of `Program.cs` shows the error page.
The model writes that outcome as `Rejected(ForeignKeyViolation)`. Nothing from
the failed batch persists, but an earlier save of the same request stays: in
`GroupsController.Create` the group saved first remains.

Files: `wrappers.dfy` (Option, Result), `text.dfy` (white space, `Trim`, case
mapping, `Path.GetExtension`, ordinal string order), `collections.dfy` (`Where`,
`Distinct`, `OrderBy`), `entities.dfy`, `schema.dfy`, `groups.dfy`,
`admin.dfy`, `chat.dfy`, `profile.dfy`, `account.dfy`, `seeding.dfy`.

## Model

| member | source | states |
|---|---|---|
| Text.TrimStartRemovesPrefix | Controllers/ChatController.cs:67 | `TrimStart` drops exactly the longest all-white-space prefix: the rest is a suffix of the input, the dropped part is blank, and the rest does not start with white space |
| Text.TrimEndRemovesSuffix | Controllers/ChatController.cs:67 | `TrimEnd` drops exactly the longest all-white-space suffix, and the rest does not end with white space |
| Text.Trim | Controllers/GroupsController.cs:107 | `string.Trim()`: never longer than the input; empty exactly when the input is all white space; otherwise starts and ends with a non-white-space character |
| Text.TrimSlice | Controllers/ChatController.cs:67 | the trimmed text is a contiguous slice of the input with only white space cut off on either side |
| Text.TrimIdempotent | Controllers/ProfileController.cs:66-68 | trimming twice is trimming once |
| Text.TrimmedTextIsFixedPoint | Controllers/GroupsController.cs:54 | a non-empty string is its own trim exactly when it neither starts nor ends with white space |
| Text.GetExtension | Controllers/ProfileController.cs:75 | `Path.GetExtension`: either empty (no `.` inside the last path segment other than a final one) or a suffix of at least two characters that starts with `.` and holds no other `.` or `/` |
| Text.StrLeTotal | Controllers/GroupsController.cs:29 | the ordinal string order used by `OrderBy` relates any two strings one way or the other |
| Text.StrLeTransitive | Controllers/GroupsController.cs:29 | the ordinal string order is transitive |
| Text.StrLeAntisymmetric | Controllers/GroupsController.cs:29 | two strings ordered both ways are equal |
| Collections.Filter | Controllers/GroupsController.cs:27 | `Where`: keeps exactly the elements satisfying the predicate |
| Collections.Distinct | Controllers/GroupsController.cs:58 | `Distinct()`: the same elements as the input, none repeated |
| Collections.SortBy | Controllers/GroupsController.cs:29 | `OrderBy`: sorted by the key and a permutation of the input |
| Collections.SortByMembers | Controllers/GroupsController.cs:29 | sorting keeps the length and exactly the elements of the input |
| Schema.FindUser | Controllers/AdminController.cs:40 | `FindByIdAsync`: a position holding that id, or none exactly when no user has that id |
| Schema.FindByEmail | Controllers/AccountController.cs:62 | `FindByEmailAsync`: the first user whose normalised e-mail matches, or none exactly when no user matches; Identity's `SingleOrDefault` lookup gives the same user, because valid tables hold each normalised e-mail at most once (`UsersOk`, `DistinctUsers`) |
| Schema.FindGroup | Controllers/GroupsController.cs:120 | `FirstOrDefaultAsync(x => x.Id == id)`: a group with that id, or none exactly when there is none |
| Schema.FindGroupExact | Controllers/GroupsController.cs:120 | with increasing ids, the lookup returns the very group holding that id |
| Schema.FindUserExact | Controllers/ProfileController.cs:56 | with unique ids, looking up a user's id finds that user's position |
| Schema.MessagesOk | Data/ApplicationDbContext.cs:19-27 | in a valid message table no two rows share an id, and every message's sender and recipient is an existing user (the two restricted foreign keys) |
| Schema.UniqueMemberships | Data/ApplicationDbContext.cs:29-31 | the unique index on (GroupId, UserId), both ways: it holds exactly when two rows with the same pair are the same row |
| Schema.MembersOk | Data/ApplicationDbContext.cs:29-31 | in a valid membership table no two rows share an id, and every membership names an existing group and an existing user |
| Schema.TablesOk | Data/ApplicationDbContext.cs:19-31 | valid tables satisfy the model's configuration: direct messages name existing users both ways, memberships name existing groups and users, and no (GroupId, UserId) pair repeats |
| Schema.Store.Valid | Data/ApplicationDbContext.cs:19-31 | a valid store's direct messages name existing users and its memberships repeat no (GroupId, UserId) pair |
| Schema.AppendMembers | Data/ApplicationDbContext.cs:29-31 | a batch of new memberships that repeats no (GroupId, UserId) pair, references existing groups and users and is numbered from the counter keeps the membership table valid |
| Schema.UpdateUserKeepsTables | Controllers/ProfileController.cs:113 | rewriting one user row without changing its id, e-mail or user name, and with roles the role table holds, keeps every constraint; the seeded administrator survives unless that row loses Admin |
| Schema.AddUserKeepsTables | Controllers/AccountController.cs:69-70 | inserting a user with a fresh id and an e-mail no user holds after normalisation keeps every constraint and the seeded state |
| Schema.Store.constructor | Program.cs:62 | `EnsureCreatedAsync` on a new database: every table empty and every constraint holding |
| GroupsController.MemberGroups | Controllers/GroupsController.cs:26-28 | every group listed is a group the caller is a member of |
| GroupsController.IsMember | Controllers/GroupsController.cs:71 | the membership gate of `Chat` (and of `Send`, line 98) holds exactly when some membership row carries that group and that user |
| GroupsController.Index | Controllers/GroupsController.cs:22-33 | the caller's groups, sorted by name |
| GroupsController.MemberGroupsComplete | Controllers/GroupsController.cs:26-28 | every group the caller is a member of is listed |
| GroupsController.MemberGroupsNoDuplicates | Controllers/GroupsController.cs:26-28 | under the unique index no group is listed twice |
| GroupsController.IndexExact | Controllers/GroupsController.cs:26-30 | `Index` lists exactly the caller's groups, each once, ordered by name |
| GroupsController.GroupThread | Controllers/GroupsController.cs:77-78 | the thread only holds messages of the table that belong to that group, and is never longer than the table |
| GroupsController.GroupThreadExact | Controllers/GroupsController.cs:77-79 | a group's thread is exactly that group's messages, in ascending `CreatedAt` |
| GroupsController.JoinSenders | Controllers/GroupsController.cs:79-82 | the inner join yields at most one line per message, and every line's sender is an existing user |
| GroupsController.JoinSendersKeepsAll | Controllers/GroupsController.cs:80-83 | when every sender exists, the join with users keeps one line per message, in order, each showing its sender's user name |
| GroupsController.Chat | Controllers/GroupsController.cs:67-91 | a non-member gets `Forbid` (even for a missing group); a member of a missing group gets `NotFound`; otherwise the page names that group |
| GroupsController.ChatShowsGroupThread | Controllers/GroupsController.cs:71-84 | in a valid store a member's chat page shows exactly the group's messages, in ascending `CreatedAt`, each with its sender's name |
| GroupsController.MemberRows | Controllers/GroupsController.cs:139-144 | every row is a membership of the group joined with its user's e-mail |
| GroupsController.MemberRowsComplete | Controllers/GroupsController.cs:139-144 | every membership of the group appears with its user's e-mail |
| GroupsController.Members | Controllers/GroupsController.cs:134-149 | `Forbid` exactly for non-administrators; `NotFound` exactly for a missing group; otherwise rows sorted by e-mail, each a membership of that group |
| GroupsController.MembersComplete | Controllers/GroupsController.cs:134-149 | in a valid store every membership of the group is listed |
| GroupsController.GroupItems | Controllers/GroupsController.cs:214 | one list item per group, with its id and name |
| GroupsController.AllGroups | Controllers/GroupsController.cs:208-218 | `Forbid` exactly for non-administrators; otherwise every group once, sorted by name |
| GroupsController.NewMembershipsNumbered | Controllers/GroupsController.cs:197-201 | the memberships the loop adds carry the group's id and consecutive ids from the counter |
| GroupsController.NewMembershipsUsers | Controllers/GroupsController.cs:197-201 | the loop adds a membership for every requested id not already in the group and for no other; when all are present it adds nothing |
| GroupsController.NewMembershipsUnique | Controllers/GroupsController.cs:58-59 | over distinct ids, the new memberships repeat no (GroupId, UserId) pair |
| GroupsController.AddedCoversRequest | Controllers/GroupsController.cs:192-203 | after `AddMembers` every requested id is a member of the group |
| GroupsController.AddedMakesMembersOnce | Controllers/GroupsController.cs:192-203 | after `AddMembers` every requested id is a member exactly once: no pair repeats |
| GroupsController.AddMembersIdempotent | Controllers/GroupsController.cs:192-203 | repeating `AddMembers` with the same ids adds nothing |
| GroupsController.BuildBatch | Controllers/GroupsController.cs:197-201 | the `foreach` loop builds exactly the memberships `NewMemberships` specifies |
| GroupsController.AddGroupKeepsTables | Controllers/GroupsController.cs:54-56 | saving a trimmed, non-empty group name with the next id and time keeps every constraint |
| GroupsController.AddBatchKeepsTables | Controllers/GroupsController.cs:58-61 | saving an accepted, pair-unique membership batch keeps every constraint |
| GroupsController.AddGroupMessageKeepsTables | Controllers/GroupsController.cs:103-109 | saving a trimmed group message from a live user to an existing group keeps every constraint |
| GroupsController.DeleteGroupRemovesExactly | Controllers/GroupsController.cs:123-125 | deleting a group removes exactly that group and the memberships and messages naming it; every other row stays |
| GroupsController.DeleteGroupKeepsTables | Controllers/GroupsController.cs:123-127 | the tables after deleting a group satisfy every constraint |
| GroupsController.RemovesExactlyOne | Controllers/GroupsController.cs:155-159 | with unique ids, removing a present membership removes exactly one row |
| GroupsController.RemoveMembershipKeepsTables | Controllers/GroupsController.cs:158-159 | removing a membership keeps every constraint |
| GroupsController.SaveMemberships | Controllers/GroupsController.cs:61 | `SaveChangesAsync` on a membership batch: all rows saved when every group and user exists, otherwise none and a foreign-key rejection |
| GroupsController.SaveGroup | Controllers/GroupsController.cs:54-56 | the group is saved with the next id and the current time; nothing else changes |
| GroupsController.Create | Controllers/GroupsController.cs:44-64 | non-administrators are refused; a blank name creates nothing; otherwise the trimmed name is saved, then one membership per distinct requested id, and the group stays even when the membership save is refused |
| GroupsController.Send | Controllers/GroupsController.cs:93-113 | a non-member is refused and nothing is added; blank content adds nothing; otherwise exactly one message from the caller to that group with the trimmed content |
| GroupsController.Delete | Controllers/GroupsController.cs:116-129 | non-administrators are refused; a missing group is a no-op; otherwise the group, its memberships and its messages go and nothing else changes |
| GroupsController.RemoveMember | Controllers/GroupsController.cs:151-162 | non-administrators are refused; only a membership matching both id and group is removed, exactly one row; otherwise nothing changes |
| GroupsController.AddMembers | Controllers/GroupsController.cs:187-205 | non-administrators are refused; otherwise the memberships for the new distinct ids are appended (or, on a foreign-key rejection, none) and existing rows stay |
| AdminController.RowsListEveryone | Controllers/AdminController.cs:23-30 | rows built one per user in e-mail order list every user once, sorted by e-mail, flagged exactly when the user holds Admin |
| AdminController.Users | Controllers/AdminController.cs:21-33 | `Forbid` for non-administrators; otherwise one row per user, sorted by e-mail, each row's flag true exactly when its user holds Admin |
| AdminController.ToggleRoles | Controllers/AdminController.cs:50-59 | the new role set is never empty, holds Admin exactly when the old one did not, and holds User whenever the old one held User or Admin |
| AdminController.ToggleFlipsAdmin | Controllers/AdminController.cs:49-60 | the toggle flips Admin; a demoted user holds exactly User; the role set is never empty |
| AdminController.ToggleTwice | Controllers/AdminController.cs:49-60 | toggling twice restores the roles exactly when they held User (so {User} is restored) |
| AdminController.ToggleAdmin | Controllers/AdminController.cs:37-63 | non-administrators are refused; an unknown id changes nothing; the default administrator is protected; otherwise only that user's roles change, as toggled |
| AdminController.DeleteUserRemovesExactly | Controllers/AdminController.cs:77-82 | deleting a user removes exactly that user, its memberships, its direct messages either way and its group messages; every other row stays |
| AdminController.RestrictRefusesReferencedUser | Data/ApplicationDbContext.cs:19-27 | a user still named by a direct message cannot be removed without breaking the message foreign keys |
| AdminController.ClearReferencesKeepsTables | Controllers/AdminController.cs:77-81 | removing the user's memberships and messages keeps every constraint |
| AdminController.RemoveUserKeepsTables | Controllers/AdminController.cs:82 | removing an unreferenced user keeps every constraint, and keeps the seeded state unless it is the default administrator |
| AdminController.RemoveReferences | Controllers/AdminController.cs:77-81 | the first save: the user's memberships, direct messages and group messages go, nothing else |
| AdminController.RemoveUser | Controllers/AdminController.cs:82 | `DeleteAsync`: only the user row goes |
| AdminController.DeleteUser | Controllers/AdminController.cs:64-85 | non-administrators are refused; an unknown id or the default administrator changes nothing; otherwise the tables become `DeleteUserTables` |
| ChatController.Items | Controllers/ChatController.cs:28 | one list item per user, with its id and user name |
| ChatController.Index | Controllers/ChatController.cs:21-32 | the people list never names the caller and is never longer than the user table |
| ChatController.IndexListsOthers | Controllers/ChatController.cs:25-29 | the people list holds every user except the caller, never the caller, sorted by user name |
| ChatController.Lines | Controllers/ChatController.cs:45 | one view line per message, with its sender, content and time |
| ChatController.Thread | Controllers/ChatController.cs:41-43 | a message is in the thread exactly when it is in the table and passes between the two users, either way; never longer than the table |
| ChatController.With | Controllers/ChatController.cs:34-53 | an unknown id gives `NotFound`, exactly; otherwise the conversation with that user, under its user name |
| ChatController.WithShowsThread | Controllers/ChatController.cs:41-46 | the conversation holds exactly the messages between the two users, either way, in ascending `CreatedAt` |
| ChatController.ThreadSymmetric | Controllers/ChatController.cs:42-44 | both participants see the same messages in the same order |
| ChatController.AddMessageKeepsTables | Controllers/ChatController.cs:63-70 | saving a trimmed message between two live users with the next id and time keeps every constraint |
| ChatController.SendExtendsThread | Controllers/ChatController.cs:63-70 | a sent message lands at the end of its own thread and changes no other thread |
| ChatController.Send | Controllers/ChatController.cs:55-73 | blank content adds nothing; a missing sender or recipient is refused by the foreign keys; otherwise exactly one message with the trimmed content, and nothing else changes |
| ProfileController.TargetOf | Controllers/ProfileController.cs:28 | a missing or blank id means the caller |
| ProfileController.MayEdit | Controllers/ProfileController.cs:29 | the self-or-admin check of both `Edit` actions (also line 53): the caller may always edit themself, an administrator may edit anyone, and anyone else only themself |
| ProfileController.EditForm | Controllers/ProfileController.cs:22-46 | `Forbid` exactly when a non-administrator asks for someone else; `NotFound` exactly when allowed and the user is unknown; otherwise that user's form |
| ProfileController.OwnFormWithoutId | Controllers/ProfileController.cs:28-33 | any user reaches their own form without an id, whatever their roles |
| ProfileController.NullIfBlank | Controllers/ProfileController.cs:66-68 | null exactly for null or white-space input; otherwise the trimmed text, non-empty with no white space at either end |
| ProfileController.NullIfBlankIdempotent | Controllers/ProfileController.cs:66-68 | normalising a normalised field changes nothing |
| ProfileController.AllowedExtensionUpper | Controllers/ProfileController.cs:74-76 | ignoring case, an extension passes exactly when its upper-case form is `.JPG`, `.JPEG`, `.PNG` or `.WEBP` |
| ProfileController.CheckPhoto | Controllers/ProfileController.cs:71-89 | no photo or an empty one is ignored; a bad extension is refused whatever the size; an allowed extension above 2 MiB is refused; otherwise accepted with its extension |
| ProfileController.UploadPath | Controllers/ProfileController.cs:94-110 | the stored path is `/uploads/` followed by the fresh name and the original extension |
| ProfileController.StoredPhotoIsDiscardable | Controllers/ProfileController.cs:103-110 | a path this action stores lies under `/uploads/`, so replacing that photo later deletes the file |
| ProfileController.Edit | Controllers/ProfileController.cs:48-117 | the self-or-administrator check, then the lookup, then model validity; a refused photo saves nothing; otherwise the three fields are normalised, an accepted photo's path is recorded, the old one is deleted only when it lies under `/uploads/`, and only that user's row changes |
| AccountController.NewUser | Controllers/AccountController.cs:69 | the new user's user name and e-mail are the submitted e-mail, with no role yet |
| AccountController.SaveNewUser | Controllers/AccountController.cs:70-80 | the user is inserted and then given the User role; nothing else changes |
| AccountController.Register | Controllers/AccountController.cs:57-84 | an invalid form, an e-mail in use or a failed creation adds no user and assigns no role; otherwise exactly one user is appended, holding only User |
| AccountController.RegisteredUserFound | Controllers/AccountController.cs:62-80 | after registering, the new user is found by its e-mail and by its id, and holds exactly User |
| Seeding.NewAdmin | Program.cs:76 | the seeded administrator's user name and e-mail are `admin@tc.local` |
| Seeding.SeedKeepsTables | Program.cs:58-84 | seeding keeps every constraint; it always leaves a user matching the administrator's e-mail that holds Admin; it establishes the seeded state when none matched or the match is exact |
| Seeding.SeedTouchesOnlyAdmin | Program.cs:72-82 | a user is created only when none matched; otherwise only the found user changes, by gaining Admin |
| Seeding.SeedIdempotent | Program.cs:67-82 | seeding twice gives the same tables as seeding once |
| Seeding.ReseedAfterCreate | Program.cs:73-78 | the administrator a first seeding created is found again and already holds Admin |
| Seeding.ReseedAfterPromote | Program.cs:80-82 | the user a first seeding promoted is found again and already holds Admin |
| Seeding.EnsureRoles | Program.cs:67-69 | the loop creates each missing role: afterwards the roles are the old ones plus Admin and User |
| Seeding.EnsureAdmin | Program.cs:71-82 | creates the administrator when none matched, then adds Admin unless held |
| Seeding.Seed | Program.cs:58-84 | `EnsureDbAndSeedAsync`: the tables become `SeedTables` of the old ones and stay valid; the seeded state is kept or established |
| Seeding.SeedEmpty | Program.cs:67-78 | on a database with no users and no roles, seeding creates exactly the administrator and both roles, and the tables are seeded |
| Seeding.Startup | Program.cs:50 | start-up on an empty database gives a valid, seeded store holding only the administrator and both roles |

## Left out

- Sign-in, sign-out and the password policy (`Login`, `Logout`, `PasswordSignInAsync`, `SignInAsync`) are session handling. `CreateAsync`'s verdict is the `createOk` parameter of `Register`.
- Seeding assumes the administrator's creation succeeds: its password `admin123` meets the six-character policy, and no user holds its e-mail at that point.
- `AddToRoleAsync`, `RemoveFromRoleAsync`, `UpdateAsync` and `DeleteAsync` are modelled as succeeding. The source ignores their results (`Controllers/AdminController.cs` lines 52, 55, 59 and 82; `UpdateAsync` in `Controllers/ProfileController.cs`).
- Profile photo file I/O (creating the folder, writing the file, checking and deleting the old one) is not modelled. `Edit` returns the path it would delete as `discard`, and the GUID file name is the `freshName` parameter.
- New user ids are the `freshId` parameters. The caller is a `Principal` value rather than a lookup of the signed-in user.
- Views, `ViewBag`/`TempData` messages and redirects become `Outcome` values. The GET forms of `Create` and `AddMembers` only render lists and are not modelled.
- `DateTime.UtcNow` becomes a logical clock that every insert advances, so `CreatedAt` strictly increases along each table.
- Concurrency is not modelled. Each action runs alone, so the check-then-insert race in `AddMembers` cannot occur. The two `SaveChangesAsync` calls of `Create` and of `DeleteUser` run as two steps of one method. In `Create`, the group saved by the first step stays when the membership batch is refused, as the code does; no transaction wraps the two saves.
- DataAnnotations validation (`[Required]`, `[EmailAddress]`, `[MaxLength]`, `[Phone]`) is the `modelValid` flag.
- The client-side search filter in `wwwroot/js/site.js` is UI code.
- Text.Upper: only ASCII letters are mapped to upper case, not the full invariant-culture mapping. E-mails and extensions differing only in non-ASCII case are treated as distinct.
- Text.GetExtension: only `/` separates directories, as on Unix. The Windows separators `\` and `:` are not treated as separators.
- Text.StrLe: strings are ordered by code point, as SQLite's default binary collation orders UTF-8. Other collations are not modelled.
- Ids are unbounded integers. The 32-bit wrap-around of an `int` key is not modelled.
- The `??` fallbacks for a missing user name or e-mail (`"?"`, `"(brak)"`) are not modelled: every user has both, equal, as both creation paths set them.
- `Seeded()` asks for a user whose e-mail is exactly `admin@tc.local`, the comparison `ToggleAdmin` and `DeleteUser` use to protect it. Seeding finds the administrator by normalised e-mail. So on a database whose only match differs in case, seeding promotes that user without establishing `Seeded()`. `Seeding.Seed` states this case separately.
