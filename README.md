# access-media-hub: a Dafny model of its request rules

access-media-hub is a file-distribution web application with a PHP API and a
React client. Administrators and operators upload files. They grant access to
single users, to groups and to categories, and can bound a file's availability
by a start and an end date. Users see and download what is granted to them.

This project models the parts of the application that decide something:

- who sees which file, in the dashboard statistics;
- how upload and edit requests are validated and normalised, and how they
  write the `files` and `file_permissions` tables;
- how upload notifications are addressed;
- the `set`/`add`/`remove` operations on group membership, and the UUID
  formatter;
- the guard chain of the permission listing;
- the password-reset token life cycle;
- the profile upsert;
- the client's edit dialog, the search, extension, audio and size helpers of
  the files page, and the role filter of the sidebar menu.

One module per source file:

| module | file |
|---|---|
| `Common` | shared helpers: statuses, PHP `empty`, `trim`, ASCII case, subsequences, hexadecimal digits |
| `Tables` | the database rows and `class Database` holding the tables |
| `Stats` | api/reports/stats.php |
| `Upload` | api/files/upload.php |
| `FileUpdate` | api/files/update.php |
| `GroupMembers` | api/groups/manage-members.php |
| `PermissionList` | api/files/permissions.php |
| `PasswordReset` | api/auth/forgot-password.php and api/auth/reset-password.php |
| `ProfileUpdate` | api/users/update.php |
| `EditFileDialog` | src/components/dialogs/EditFileDialog.tsx |
| `FilesPage` | src/pages/Files.tsx |
| `Sidebar` | src/components/AppSidebar.tsx |

The tables are fields of `class Database`. They are sequences for the tables
the handlers scan in order, and maps for the tables they look up by key. Each
handler that writes is a method on a `Database` whose `modifies` clause names
only the table fields it writes.

The handlers' outside inputs become parameters:

- the clock (`now`, `today`, as integers);
- random values (token bytes, file ids, `mt_rand` draws);
- the outcome of moving the uploaded binary;
- where a database statement throws (`fault` parameters).

Read-only queries are functions over the tables. The SQL of stats.php is
modelled twice:

- a literal model of its LEFT JOINs and WHERE clause;
- a visibility predicate.

The two are proved to select the same files.

Where the behaviour of the code differs from how the application is described
elsewhere, the model follows the code:

- No handler checks that a permission object names exactly one target.
  Each object becomes one row with whatever keys it carries.
- Administrators get no extra visibility in the user-role statistics. A file
  with no permission rows is visible only to its uploader.
- A category permission on upload notifies every user with notifications on,
  whether or not they subscribe to the category.
- The edit endpoint accepts a title that is blank after trimming.
- PHP `empty()` treats the string `"0"` as empty. So a title or an id of `"0"`
  is rejected like a missing one.
- The files page calls `isAudioFile` with the file's title, not its stored
  name.
- A reset token whose expiry column is NULL counts as expired:
  `strtotime(NULL)` is false and compares below `time()`.

## Model

| member | source | states |
|---|---|---|
| Stats.JoinPermissions | api/reports/stats.php:37-39 | each permission row of a file gives one joined row, and the group and category hits are computed for the requester |
| Stats.VisibleFiles | api/reports/stats.php:40-45 | a file is in the list iff it is in the table and visible to the user; the list is no longer than the table |
| Stats.FileJoinSelects | api/reports/stats.php:37-45 | one file's joined rows all carry that file, and some joined row passes the WHERE clause iff the file is visible |
| Stats.JoinedSelects | api/reports/stats.php:35-45 | over the whole join, a table file has a row passing WHERE iff it is visible |
| Stats.SelectedIdsAreVisibleIds | api/reports/stats.php:35-45 | the DISTINCT ids the query selects are exactly the ids of the visible files |
| Stats.VisibleFilesUnique | api/reports/stats.php:35 | with unique file ids, the visible list has unique ids |
| Stats.IdCount | api/reports/stats.php:35 | a list with unique ids has as many distinct ids as entries |
| Stats.TotalFilesCountsVisibleFiles | api/reports/stats.php:35-45 | `COUNT(DISTINCT f.id)` equals the number of visible files; a file matched by several rows counts once |
| Stats.DeletedFileNeverSelected | api/reports/stats.php:40 | a soft-deleted file is never selected, even for its uploader |
| Stats.InactiveFileNeverSelected | api/reports/stats.php:41 | a file whose status is not `active` is never selected |
| Stats.UngatedFileOnlyForUploader | api/reports/stats.php:37-45 | a file with no permission rows is selected iff the requester uploaded it and it is live, active and in its window |
| Stats.DirectGrantSelected | api/reports/stats.php:42-45 | a live, active file with a row naming the user is selected when permanent or today is inside the inclusive window |
| Stats.LatestIndex | api/reports/stats.php:71 | the index of the first newest row: no row is newer and no earlier row is as new |
| Stats.MostRecent | api/reports/stats.php:71-72 | `ORDER BY created_at DESC LIMIT k`: min(k, n) rows taken from the input, newest first, and no row left out is newer than one taken |
| Stats.NewestFirstStep | api/reports/stats.php:71 | the newest row put in front of a newest-first selection of the others keeps the order |
| Stats.NothingNewerStep | api/reports/stats.php:71-72 | taking the newest row and a selection of the others that leaves nothing newer out leaves nothing newer out of the whole |
| Stats.RecentFilesAreNewestVisible | api/reports/stats.php:60-72 | at most three recent files, newest first, each visible, and no visible file left out is newer than a listed one |
| Stats.UserCountAtMostLiveCount | api/reports/stats.php:35-45 | the user's file count never exceeds the count of live files |
| Stats.VisibleAtMostLive | api/reports/stats.php:40 | every visible file is live, so the visible list is no longer than the live count |
| Stats.Report | api/reports/stats.php:33-133 | a user gets the user report: the visible-file count (at most the live count), their own downloads counted, and as recent files the `MostRecent` three of the visible files (so `RecentFilesAreNewestVisible` applies); other roles get every live file and every download counted |
| Upload.CheckUpload | api/files/upload.php:62-84 | no file is rejected first and an invalid file next, each iff its condition holds; a request is accepted iff it has a valid file, its dates are in order unless permanent, and its title is non-empty; an accepted request carries the description (empty if absent) and is permanent iff the posted value is exactly `'1'`, permanence clears both dates, a start after the end is rejected before an empty title, and an accepted title is the posted one, non-empty |
| Upload.EqualDatesAccepted | api/files/upload.php:74-78 | equal start and end dates are accepted |
| Upload.OnlyExactOneIsPermanent | api/files/upload.php:64 | any posted value other than `'1'` leaves the file non-permanent |
| Upload.AcceptedRowWellFormed | api/files/upload.php:68-117 | the file row an accepted request inserts has no dates when permanent and an ordered window otherwise |
| Upload.Keys | api/files/upload.php:165 | the keys of the recipient map, in insertion order |
| Upload.PutKeys | api/files/upload.php:164-193 | assigning `$notification_users[$email]` adds the key once, or keeps the keys when present; keys stay distinct |
| Upload.PutAllKeys | api/files/upload.php:164-166 | assigning a batch of rows: the keys are the old keys plus the rows' emails |
| Upload.PutAllDistinct | api/files/upload.php:164-166 | assigning a batch of rows to an array with distinct keys keeps them distinct |
| Upload.PutAllConcat | api/files/upload.php:164-166 | assigning two batches one after the other is assigning their concatenation |
| Upload.AudienceRows | api/files/upload.php:157-193 | one audience query returns an email iff a user with that email is in the audience and has notifications on |
| Upload.PutAudiencesKeys | api/files/upload.php:153-196 | after one permission object's queries, the map keys are the old keys plus what those queries fetch, still distinct |
| Upload.AudiencesFetch | api/files/upload.php:155-195 | one permission object's queries fetch an email iff the object reaches a notifiable user with that email |
| Upload.CollectedRecipients | api/files/upload.php:151-197 | each email appears once in the map, and an email is in it iff some permission object reaches a notifiable user with it |
| Upload.CategoryPermissionNotifiesEveryone | api/files/upload.php:184-195 | a category permission adds every user with notifications on, whatever their subscriptions |
| Upload.SilentUsersNotCollected | api/files/upload.php:157-193 | an email whose users all have notifications off is never collected |
| Upload.Outbox | api/files/upload.php:215-216 | the emails sent are the map's keys other than the uploader's, in map order |
| Upload.OutboxDistinct | api/files/upload.php:215-216 | skipping the uploader keeps the keys distinct |
| Upload.OutboxExcludesUploader | api/files/upload.php:151-216 | each address is mailed once and the uploader is never mailed; the others mailed are exactly the addresses the permissions reach |
| Upload.CategoryNames | api/files/upload.php:200-212 | the category list holds exactly the known names of the non-empty `category_id`s, at most one per object |
| Upload.CategoryNamesFor | api/files/upload.php:200-212 | the loop appending category names builds the category list |
| Upload.CollectRecipients | api/files/upload.php:151-197 | the nested loops filling the recipient map build the collected map |
| Upload.InsertFile | api/files/upload.php:98-136 | the transaction commits iff no INSERT throws; on commit the file row is appended and one permission row per object follows, in order |
| Upload.AppendKeepsIdsUnique | api/files/upload.php:103-118 | appending a row whose id is new keeps file ids unique |
| Upload.UploadFile | api/files/upload.php:37-241 | a user gets 403 first, then any other verb 405, then an invalid request 400; 201 iff the binary moved and no insert throws, with one new file row, one permission row per object and the notification outbox; once the request is valid any other outcome is 500; on a failure nothing is inserted and a moved binary is deleted |
| FileUpdate.CheckUpdate | api/files/update.php:44-70 | a missing id or title gives 400; a start after the end gives 400 unless permanent; accepted fields are the trimmed title and description, status defaulting to `active`, and no dates when permanent |
| FileUpdate.UpdateRows | api/files/update.php:84-103 | the UPDATE rewrites exactly the rows with the id and leaves the others as they were |
| FileUpdate.UpdateRowsKeepsInvariant | api/files/update.php:84-103 | the UPDATE keeps ids unique and every window well formed, and never changes id, creation time, uploader or deletion |
| FileUpdate.ChangedRowsPositive | api/files/update.php:128 | the affected-row count is positive iff some row with the id actually changes |
| FileUpdate.EarlierUpdateAlwaysChanges | api/files/update.php:84-128 | since `updated_at` is set to the current time, a row last updated earlier always counts as changed |
| FileUpdate.UpdateFile | api/files/update.php:33-147 | a user-role requester gets 403, another verb 405, invalid input 400, a throwing existence SELECT 500 and an absent or deleted file 404, both with nothing written; otherwise the file row is updated, a non-empty list replaces the permission rows (a throw part-way leaves the rows written so far), and the status is 200 iff a row changed or the list was non-empty |
| FileUpdate.WriteUpdate | api/files/update.php:83-136 | a throw at the UPDATE writes nothing and gives 500; otherwise the row is updated, a non-empty list replaces the permissions (500 with the rows written so far when a statement throws), and the status is 200 iff a row changed or the list was non-empty, else 400 |
| FileUpdate.ReplaceFilePermissions | api/files/update.php:106-126 | delete then insert without a transaction: a throw at the DELETE changes nothing, a throw at insert k leaves the first k rows, success replaces the rows |
| FileUpdate.InterruptedReplacement | api/files/update.php:107-125 | after replacement with the first k objects the file has exactly k rows, and every other file keeps its rows |
| Tables.PermissionsOf | api/files/permissions.php:63-66 | the rows of one file, no more rows than the table |
| Tables.WithoutFile | api/files/update.php:108-110 | `DELETE FROM file_permissions WHERE file_id = ?` keeps exactly the other files' rows |
| Tables.RowsFor | api/files/upload.php:125-133 | one row per permission object for the file, in order |
| Tables.ReplacePermissionsEffect | api/files/update.php:106-126 | after replacement the file's rows are one per submitted object and every other file's rows are unchanged |
| Tables.FindLiveFile | api/files/update.php:73-77 | the first row with the id that is not soft-deleted, or none exists |
| GroupMembers.GroupRows | api/groups/manage-members.php:122-185 | a row is one of group g's iff it is in the table with that group |
| GroupMembers.WithoutGroup | api/groups/manage-members.php:124-127 | `DELETE ... WHERE group_id` keeps exactly the other groups' rows |
| GroupMembers.NewRows | api/groups/manage-members.php:144-174 | one new row per listed user, in order, added by the requester |
| GroupMembers.WithoutAny | api/groups/manage-members.php:178-184 | a row is kept iff it does not pair the group with a listed user |
| GroupMembers.GroupRowsConcat | api/groups/manage-members.php:122-185 | a group's rows in two tables joined are its rows in the first then in the second |
| GroupMembers.MemberIdsConcat | api/groups/manage-members.php:122-185 | a group's member ids in two tables joined are its ids in the first then in the second |
| GroupMembers.SetMembersEffect | api/groups/manage-members.php:122-175 | after `set` the group's members are exactly the listed users in order, duplicates included, and other groups' rows are unchanged |
| GroupMembers.AddMissingEffect | api/groups/manage-members.php:145-175 | `add` keeps every row and appends rows of the group only; a user is a member afterwards iff before or listed; no duplicate pair is created |
| GroupMembers.RemoveEffect | api/groups/manage-members.php:176-184 | after `remove` a user is a member iff they were and are not listed, and other groups' rows are unchanged |
| GroupMembers.ApplyKeepsOtherGroups | api/groups/manage-members.php:122-185 | no action, known or not, changes another group's rows |
| GroupMembers.ManageMembers | api/groups/manage-members.php:39-201 | GET gives 400 without a group id, 500 when a query throws, else 404 or 200, changing nothing; POST without group or users gives 400, a throwing group lookup 500, an unknown group 404, all unchanged; a throw inside the transaction (the `set` DELETE, the schema queries, or an iteration that is reached) rolls back with 500; otherwise 200 with the action applied (`set` by default, an unknown action changing nothing) |
| GroupMembers.MembersTransaction | api/groups/manage-members.php:120-200 | the transaction commits iff no statement throws: a throw before the loop stops every action, a throw at iteration k only the three looping actions with more than k users; a committed table is the action applied |
| GroupMembers.InsertedStep | api/groups/manage-members.php:142-175 | one more listed user handled: `set` appends a row, `add` appends one only when the user is not yet a member |
| GroupMembers.InsertMembers | api/groups/manage-members.php:122-175 | the insert loop builds the `set` or `add` table, and commits iff no iteration throws |
| GroupMembers.RemoveMembers | api/groups/manage-members.php:176-184 | the delete loop builds the `remove` table, and commits iff no iteration throws |
| GroupMembers.Hex4 | api/groups/manage-members.php:10 | `%04x` prints four lower-case hexadecimal digits, the first for the top nibble |
| GroupMembers.Hex4RoundTrip | api/groups/manage-members.php:10 | reading back four printed digits gives the value |
| GroupMembers.BitOrDisjoint | api/groups/manage-members.php:13-14 | OR-ing a multiple of 2^k into a value below 2^k adds them |
| GroupMembers.MaskedDraws | api/groups/manage-members.php:13-14 | the version and variant masks add to their draws |
| GroupMembers.UuidGroups | api/groups/manage-members.php:9-17 | the UUID is 36 characters with hyphens at 8, 13, 18 and 23, and each group prints its draw |
| GroupMembers.UuidDigits | api/groups/manage-members.php:9-17 | every other character is a lower-case hexadecimal digit |
| GroupMembers.UuidVersionAndVariant | api/groups/manage-members.php:13-14 | the version digit is `4` and the variant digit one of `8`, `9`, `a`, `b` (section 4.4 of RFC 4122) |
| GroupMembers.UuidDraws | api/groups/manage-members.php:10-15 | each draw can be read back from its group, the masks added |
| PermissionList.Targets | api/files/permissions.php:63-66 | the `(user_id, group_id, category_id)` columns of each row, in order |
| PermissionList.ListPermissions | api/files/permissions.php:33-79 | another verb gets 405, an empty id 400, an absent or deleted file 404, a requester neither admin nor uploader 403; a 200 lists exactly the file's permission targets, and every other status lists nothing |
| PermissionList.ListingSucceedsIffViewable | api/files/permissions.php:33-69 | the listing succeeds iff the verb is GET, the id is non-empty, the file is live and the requester is admin or its uploader; it then returns every stored row of the file, in insertion order (an assumption; see Left out) |
| PasswordReset.Bin2Hex | api/auth/forgot-password.php:43 | `bin2hex` gives two hexadecimal digits per byte |
| PasswordReset.Hex2Bin | api/auth/forgot-password.php:43 | reading pairs of digits gives half as many bytes |
| PasswordReset.Bin2HexRoundTrip | api/auth/forgot-password.php:43 | reading back the printed token gives the random bytes |
| PasswordReset.TokenShape | api/auth/forgot-password.php:43 | the token of 32 random bytes is 64 hexadecimal digits |
| PasswordReset.IssueTo | api/auth/forgot-password.php:47-52 | every account with the email gets the token and its expiry, and no other account changes |
| PasswordReset.FindByToken | api/auth/reset-password.php:22-27 | the first account holding the token, or none holds it |
| PasswordReset.CheckToken | api/auth/reset-password.php:22-40 | the token is unknown iff no account holds it, and usable iff one does and its expiry is not before now |
| PasswordReset.Consume | api/auth/reset-password.php:43-48 | the account gets the new hash and loses its token and expiry; others are unchanged |
| PasswordReset.IssuedTokenAcceptedUntilExpiry | api/auth/forgot-password.php:43-52 | a freshly issued token is accepted exactly up to and including now + 3600, and opens an account with the email it was sent to |
| PasswordReset.TokenSingleUse | api/auth/reset-password.php:43-48 | once used, a token no other account holds is refused as unknown |
| PasswordReset.IssueToUnknownEmail | api/auth/forgot-password.php:41-78 | an unknown email changes no account |
| PasswordReset.ForgotPassword | api/auth/forgot-password.php:21-87 | another verb gets 405 and a blank email 400; a known or unknown email gets the same 200 message; only a known email gets a fresh token expiring in one hour; a failing lookup or update gives 500 with nothing changed |
| PasswordReset.ResetPassword | api/auth/reset-password.php:8-166 | a blank token or password gives 400; an unknown or expired token gives 400 with nothing changed; a usable one is consumed with the new hash; GET shows the form or the expired page and changes nothing; other verbs get 405 |
| ProfileUpdate.ProfileFieldsOf | api/users/update.php:35-43 | fields exist iff `full_name` is given; the name is the posted one trimmed, `whatsapp` is the posted one trimmed or null when absent, and notifications default to on |
| ProfileUpdate.ResubmitStoresSame | api/users/update.php:41-43 | resubmitting the stored fields stores the same fields |
| ProfileUpdate.UpsertEffect | api/users/update.php:55-78 | the user has a profile with the three fields; an existing profile keeps its role and active flag, a new one is `user` and active; other profiles are unchanged |
| ProfileUpdate.UpsertIdempotent | api/users/update.php:46-81 | submitting the same fields twice leaves the table as one submission did |
| ProfileUpdate.StoreProfile | api/users/update.php:48-79 | the SELECT then UPDATE or INSERT leaves the table as `Upsert` describes |
| ProfileUpdate.UpdateProfile | api/users/update.php:31-99 | another verb gets 405, a missing name 400, a throw 500, all with profiles unchanged; otherwise 200 with the upsert |
| EditFileDialog.DatePart | src/components/dialogs/EditFileDialog.tsx:50-51 | the prefix of the date up to the first `T` |
| EditFileDialog.DatePartIdempotent | src/components/dialogs/EditFileDialog.tsx:50-51 | truncating twice truncates once |
| EditFileDialog.SentDate | src/components/dialogs/EditFileDialog.tsx:92-93 | a date is sent as null iff the file is permanent or the field is empty; otherwise it is sent as typed |
| EditFileDialog.UserIdsOf | src/components/dialogs/EditFileDialog.tsx:66 | the truthy user ids of the loaded rows |
| EditFileDialog.GroupIdsOf | src/components/dialogs/EditFileDialog.tsx:67 | the truthy group ids of the loaded rows |
| EditFileDialog.CategoryIdsOf | src/components/dialogs/EditFileDialog.tsx:68 | the truthy category ids of the loaded rows |
| EditFileDialog.SplitMembers | src/components/dialogs/EditFileDialog.tsx:66-68 | an id is selected as user, group or category iff it is non-empty and some loaded row sets that field to it |
| EditFileDialog.BuildPermissions | src/components/dialogs/EditFileDialog.tsx:96-100 | user entries, then group entries, then category entries, each naming one target; the length is the sum of the three |
| EditFileDialog.SplitBuildRoundTrip | src/components/dialogs/EditFileDialog.tsx:60-100 | splitting the submitted list gives back the three selections |
| EditFileDialog.SaveThenReloadShowsSelection | src/components/dialogs/EditFileDialog.tsx:60-100 | for a non-empty selection, after the update endpoint stores the submitted list, the permission listing, split again, shows the same selections |
| EditFileDialog.SaveNeverClearsPermissions | api/files/update.php:105-126 | because an empty list skips the rewrite, saving with nothing selected leaves the file's permissions as they were, and no save takes a file's last permission away |
| EditFileDialog.EditForm.constructor | src/components/dialogs/EditFileDialog.tsx:31-40 | the initial form state: empty fields, not permanent, `active`, nothing selected |
| EditFileDialog.EditForm.Load | src/components/dialogs/EditFileDialog.tsx:46-58 | a file's fields are copied into the form, with missing values defaulted and dates truncated at `T` |
| EditFileDialog.EditForm.LoadPermissions | src/components/dialogs/EditFileDialog.tsx:60-75 | loaded rows replace the three selections with their split; no data leaves them |
| EditFileDialog.EditForm.SetPermanent | src/components/dialogs/EditFileDialog.tsx:188-193 | ticking permanent clears both dates; unticking keeps them |
| EditFileDialog.EditForm.BuildPayload | src/components/dialogs/EditFileDialog.tsx:88-100 | trimmed title and description, null dates when permanent or empty, the combined permission list that splits back to the selections, and a non-empty title whenever submit is enabled |
| FilesPage.SearchFilter | src/pages/Files.tsx:62-65 | no files give an empty list; otherwise an order-preserving subsequence keeping a file iff its title or description contains the term, ignoring case |
| FilesPage.EmptyTermKeepsAll | src/pages/Files.tsx:62-65 | an empty term keeps every file |
| FilesPage.SearchIgnoresCase | src/pages/Files.tsx:62-65 | lower- or upper-casing the term does not change the result |
| FilesPage.KeepSameLowered | src/pages/Files.tsx:62-65 | two terms equal once lowered select the same files |
| FilesPage.LastSegment | src/pages/Files.tsx:75 | `split('.').pop()`: the dot-free suffix after the last dot, or the whole name |
| FilesPage.FileExtension | src/pages/Files.tsx:74-77 | the upper-cased last segment, or `FILE` when it is empty |
| FilesPage.ExtensionOfAppended | src/pages/Files.tsx:74-77 | a name ending in `.ext` has extension `EXT` |
| FilesPage.Mp3IsAudio | src/pages/Files.tsx:81-85 | a name ending in `.mp3`, in any case, is audio |
| FilesPage.AudioMimeIsAudio | src/pages/Files.tsx:84 | a MIME type starting with `audio/` makes any file audio |
| FilesPage.TextIsNotAudioByName | src/pages/Files.tsx:81-85 | a `.txt` name without a MIME type is not audio |
| FilesPage.UnitIndex | src/pages/Files.tsx:70 | the floor of the base-1024 logarithm of a positive size |
| FilesPage.UnboundedUnitIndex | src/pages/Files.tsx:69-71 | two tebibytes are labelled with the unit `undefined` |
| FilesPage.FormatFileSize | src/pages/Files.tsx:67-72 | `N/A` iff the size is missing or zero; otherwise one of the four units, its power not exceeding the size |
| FilesPage.CappedAgreesBelowTebibyte | src/pages/Files.tsx:67-72 | below 1024^4 bytes the capped label equals the label as written |
| FilesPage.RoleGatesAgree | src/pages/Files.tsx:177-335 | management actions are offered iff the role is not `user`, and download statistics only where management is |
| Sidebar.EffectiveRole | src/components/AppSidebar.tsx:32 | a missing role is `user` |
| Sidebar.ItemsWithRoleSpec | src/components/AppSidebar.tsx:53 | the filter keeps an order-preserving subsequence, with exactly the items whose roles include the role |
| Sidebar.MenusNestByRole | src/components/AppSidebar.tsx:41-53 | the user menu is a subsequence of the operator menu, itself a subsequence of the admin menu |
| Sidebar.AdminSeesEverything | src/components/AppSidebar.tsx:40-53 | the admin sees all ten items |
| Sidebar.UserMenu | src/components/AppSidebar.tsx:32-53 | a user, or a missing role, sees exactly Dashboard, Arquivos and Meu Perfil |
| Sidebar.MenuUrlsDistinct | src/components/AppSidebar.tsx:40-51 | the ten menu URLs are distinct |
| Sidebar.AtMostOneActive | src/components/AppSidebar.tsx:34-53 | at most one shown item is active for a path, under a whole-path match; the menu URLs are lower case without a trailing slash, so this covers `NavLink` with `end`, which ignores case and a trailing slash |
| Common.Trim | api/files/update.php:51 | `trim`: no blank at either end, and the result is a contiguous part of the input with only blanks before and after it |
| Common.TrimIdempotent | api/users/update.php:41-42 | trimming twice trims once |

## Left out

- Authentication and request plumbing are not modelled: the bearer token and its 401 responses, CORS, security headers, and the security logger. The requester's id and role come in as parameters.
- The access check and the rate limit of the group and profile handlers (`canModifyResource`, `checkCriticalRateLimit`) are taken to pass. Their code is not part of this model.
- The file validator is not part of this model. Its verdict on the upload is a boolean field of the request.
- E-mail sending is not modelled. The upload handler returns the list of addresses it would mail and the category names of the message. Password reset returns the new token state.
- Dates are integers. Parsing (`strtotime`, `date`, `split('T')` of a real ISO timestamp) is left out, beyond truncating at the first `T`.
- Randomness is passed in as parameters: `random_bytes`, `uniqid`, `mt_rand`.
- Filesystem calls are passed in or recorded: `move_uploaded_file` is a boolean, and the `uploads` set records stored names.
- In the membership table, the row id column is not modelled: the choice between an auto-increment id and a UUID per row. `generateUUID` is modelled on its own.
- FilesPage.FormatFileSize: the printed number (`toFixed(1)` of a float division) is not modelled, only the exponent and the unit. Nor is the floating-point rounding of `Math.log` at exact powers of 1024.
- Case mapping covers ASCII letters only. JavaScript's full Unicode `toLowerCase`/`toUpperCase` is not modelled.
- The `ALTER TABLE` statements at the top of forgot-password are not modelled. The reset columns are part of the model's users table.
- GroupMembers.ManageMembers: the GET branch models its 400/404/200 statuses, not the content of the member listing it returns.
- GroupMembers.ManageMembers: a throw at the POST group lookup reaches `rollback` with no transaction open, which PDO answers with a second exception outside the `try`; the model answers 500 with nothing changed, not PHP's uncaught-exception response. A throw in the security log after `commit` is not modelled; the committed rows would stay.
- The 500 paths of the read-only handlers (stats, permission listing) are not modelled. Their queries are taken to succeed.
- JSON decoding of fields of the wrong type is not modelled, such as a string where an array is expected.
- SQL string comparisons are exact in the model. MySQL's default collations compare without case and ignore trailing spaces, so there `Active` and `active ` equal `active`, e-mail addresses match in any case, and ids that differ only in case or trailing blanks match. The model's status and id comparisons treat such values as different.
- Stats.InactiveFileNeverSelected: a file is active only when its status is exactly `active`. The update handler stores `status` as sent, so a file saved as `Active` is selected by the statistics query in the database, while this lemma treats it as inactive.
- Row order: a SELECT without ORDER BY (the permission listing, the member and file scans) is taken to return rows in insertion order. SQL promises no order, so `PermissionList.ListingSucceedsIffViewable` and `EditFileDialog.SaveThenReloadShowsSelection` hold in the database only up to the order of the listed rows.
- The upload INSERT does not write `status`, and the table schema is not part of the source: `NewFileRow` assumes the column default is `active`. That choice decides whether a fresh upload counts in the statistics.
- JavaScript's `trim` is modelled on its ASCII blanks only (`JsSpace`). It also strips U+00A0, U+FEFF, U+2028, U+2029 and the other Unicode space separators, so a title of a lone no-break space disables submit in the edit dialog while `EditForm.CanSubmit` holds for it.
- ProfileUpdate.ProfileFieldsOf: `(bool)` of an arbitrary JSON value is modelled as an optional boolean.
- The dialog's loading flags, its toasts and the query-cache invalidation are not modelled.
- Sidebar: a role outside admin, operator and user is not modelled.
- Exception messages appended to 500 bodies are not modelled, nor `profiles.updated_at`.
- Post-commit exceptions are not modelled: a failing logger after a successful commit.
- The logout and role-validation endpoints are thin wrappers over token handling and the logger, and are not part of this model.

## Findings

| source | as written | input that shows it | evidently intended | confidence | as-written member | corrected member |
|---|---|---|---|---|---|---|
| src/pages/Files.tsx:69-71 | `sizes[i]` is indexed with the unbounded floor of the base-1024 logarithm, and `sizes` has only four units | a size of 2199023255552 bytes (2·1024^4) gives index 4, so the unit is `undefined` | the index is capped at the last unit, so every size gets one of B, KB, MB, GB | high, from the code; not executed | FilesPage.UnboundedUnitIndex | FilesPage.FormatFileSize |
