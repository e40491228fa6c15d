# File-sharing portal: access, import and notification rules in Dafny

This project models the core of a Django portal that an educational institution uses to hand out study material.
- Administrators manage batches (class cohorts), batch codes and students.
- Teachers upload files to a batch, or to chosen students of it.
- Students open and list the files meant for them.

The model covers:

- **The tables** (`Store`): batches, batch codes, users, students, uploads and notifications. They are the fields of one `Portal` object.
  - `ValidDb` holds the unique columns and the foreign keys.
  - Deletions follow the `on_delete` rules: CASCADE, SET_NULL, and removal from share lists.
  - Every insert draws its primary key from one counter.
- **The access resolver** `Upload.is_accessible_by_student` and the listings built on it: `Student.get_active_files`, and the looser "batch or shared" query used by the received-files page and the dashboard.
- **Notification fan-out**: what `Upload.save` sends for a new upload, and the text `Notification.create_file_notification` builds.
- **The administrative views** of core/views.py:
  - the spreadsheet import of students (column mapping, row validation, username derivation, per-row error reporting, and what a whole sheet does to the tables, in `ImportEffects`);
  - adding one student;
  - moving a student between batches;
  - changing a student's username;
  - synchronising batch codes;
  - deleting a batch code with its cascade.
- **The teacher's upload form** `share_file`. The form is first cleaned as the view reads it: text fields stripped and '0' read as "all" (`CleanForm`). The file's lower-cased extension is computed once (`FileExtension`); the screening and sharing rules then work on the cleaned form and that extension.
- **The student pages** `view_file` and `received_files`.

Dates are day numbers, and timestamps are integers. "Today" and "now" are always parameters. Whether a file exists on disk is a parameter too. Python string operations are modelled on ASCII in `Text`.

Where the code and its documented intent disagree, the model follows the code. The one exception is `get_active_files`, where the model has both the code as written and the intended query (see Findings):
- `share_file` treats both dates as optional, but it passes `from_date=None`/`to_date=None` to the constructor. That overrides the column defaults, so the insert fails on the NOT NULL constraint. In the model a blank date therefore ends in `SaveFailed` and nothing is saved.
- `share_file` saves the upload, which notifies every student of the batch, before it narrows `shared_with` or deletes the upload again. Students left out of a narrowed share, or of a share that was then deleted, keep their notice (`NoticedWithoutAccess`).
- Deleting a batch code deletes the teacher `Batch`. The foreign key is SET_NULL, so the batch's uploads that were shared with the whole batch become unscoped broadcasts, visible to every student (`DeletedBatchUploadsBecomeBroadcasts`).
- In the import, a row rejected by the empty-cell check is labelled with the previous row's student name. This is because `student_name` is looked up in `locals()`.
- The received-files page and the dashboard use `Q(batch=…) | Q(shared_with=…)` rather than the resolver. They list batch uploads shared exclusively with other students, and they miss unscoped broadcasts (`BatchOrSharedOverreach`, `BatchOrSharedOmits`).
- Roles are compared by the capitalised names "Admin", "Teacher" and "Student". The choice keys are lower case; the model uses the names the views compare.
- `get_active_files` calls `select_related` on a `union`, which Django refuses, and its `except` branch then returns an empty listing. See Findings.
- `transfer_student` fetches or creates the target batch before it checks that the student is in the source batch. A refused transfer can therefore leave a new batch behind.

## Model

| member | source | states |
|---|---|---|
| Entities.RoleName | core/models.py:4-13 | each role's stored name lower-cases to one of the three choice keys |
| Entities.RoleNameInjective | core/models.py:10 | distinct roles have distinct names (`role_name` is unique) |
| Uploads.IsAccessibleByStudent | teacher/models.py:87-134 | inactive or expired uploads are refused; a direct share grants; an exclusive share list refuses everyone else; a batch-scoped upload is open only to students of that batch; an unscoped one to all |
| Uploads.AccessIgnoresFromDate | teacher/models.py:87-134 | changing `from_date` never changes the decision (early access) |
| Uploads.AccessDependsOnIdAndBatch | teacher/models.py:87-134 | only the student's id and batch matter |
| Uploads.AccessibleIffLiveAndScoped | teacher/models.py:87-134 | the resolver equals one formula: live and (directly shared, or shared with all and in scope) |
| StudentFiles.ActiveFiles | student/models.py:17-55 | the union of direct, batch and general shares among live uploads, each once, newest first |
| StudentFiles.ActiveFilesExact | student/models.py:17-55 | the intended `get_active_files` query lists exactly the uploads the resolver grants |
| StudentFiles.GetActiveFiles | student/models.py:27-55 | as written: never lists an upload the resolver refuses; when the query raises, the `except` branch lists nothing; otherwise it lists every granted upload |
| StudentFiles.GetActiveFilesLosesGranted | student/models.py:46-55 | every upload the resolver grants is in the intended listing and missing from the listing as written |
| StudentFiles.BroadcastIsGranted | student/models.py:46-55 | a live broadcast upload shows the gap for every student: granted, in the intended listing, and the written one is empty |
| StudentFiles.BatchOrSharedFiles | student/views.py:231-235 | live uploads of the student's batch or shared with them, each once, newest first |
| StudentFiles.BatchOrSharedOverreach | student/views.py:231-235 | what the looser query lists but the resolver refuses: batch uploads shared exclusively with others |
| StudentFiles.BatchOrSharedOmits | student/views.py:231-235 | what the looser query misses: unscoped broadcasts, for any student with a batch |
| Notifications.FileTitle | core/models.py:80 | the title is "New {subject} File Available", and the subject reads back from it |
| Notifications.TitleInjective | core/models.py:80 | different subjects give different titles |
| Notifications.FileNotification | core/models.py:68-91 | owner, unread, title; batch variant exactly for a batch upload with a code, else the personal variant with the optional batch suffix |
| Notifications.BatchFlagNeedsCode | core/models.py:83-89 | a batch upload without a code reads like a personal share without one |
| Notifications.VariantsDiffer | core/models.py:84-87 | a batch notice never equals a personal notice for the same topic and teacher |
| Store.FindUser | student/views.py:307 | the user found has that id and is in the table; none found means no user has that id |
| Store.FindStudent | core/views.py:345 | `Student.objects.get(id=…)`: the student found has that id; none found (`DoesNotExist`) means no student has it, negative ids included |
| Store.FindBatchCodeById | core/views.py:136 | `BatchCode.objects.get(id=…)`: the row found has that id; none found means no row has it |
| Store.RenameUser | core/views.py:1214-1220 | only the user with that id takes the new username; ids are kept, and usernames stay unique when no other user holds the new one |
| Store.MoveStudent | core/views.py:353-354 | only the student with that id changes batch; ids are kept, and ids, codes and users stay distinct |
| Store.FanOut | teacher/models.py:57-85 | every notice is titled after the subject, unread and owned by a recipient |
| Store.FanOutOncePerRecipient | teacher/models.py:61-73 | each user gets exactly one notice if they are a recipient's user, else none |
| Store.FanOutBatchVariant | teacher/models.py:61-73 | for a batch upload every notice carries the batch message with its code |
| Store.NoticesToConcat | core/models.py:55-66 | notices to a user add up over concatenation |
| Store.DeleteUsersDb | core/views.py:150-160 | deleting users removes exactly their students and notifications; each upload keeps every other field, keeps its teacher exactly when that teacher survives (else `None`), and its share list becomes the old list restricted to the surviving students; batches, batch codes and the id counter are unchanged; the constraints hold |
| Store.DeleteUsersShares | teacher/models.py:35 | a share list loses exactly the students whose user was deleted (the cascade from `Student.user` removes their `shared_with` links) |
| Store.DeleteBatchDb | core/views.py:150-160 | deleting a batch clears it from its students and uploads (SET_NULL) and nothing else |
| Store.DeleteBatchCodeDb | core/views.py:163 | only the batch-code row with that id goes |
| Store.Portal.InsertUpload | teacher/models.py:54-55 | the upload row is inserted with a fresh id and nothing else changes |
| Store.Portal.CreateNotification | core/models.py:55-61 | an unread notification row for an existing user is appended |
| Store.Portal.CreateBatchCode | core/views.py:613-620 | a batch-code row with a fresh id and an unused code is appended |
| Store.Portal.SaveNewUpload | teacher/models.py:43-85 | the row is inserted with a fresh id and, when active, the recipients are notified |
| Store.Portal.ResaveUpload | teacher/models.py:51-57 | saving an existing upload replaces its row and notifies nobody |
| Store.Portal.NotifyRecipients | teacher/models.py:61-73 | the loop appends exactly `FanOut` of the students |
| Store.Portal.DeleteUpload | teacher/views.py:154-158 | the upload's row goes; notifications stay |
| Store.Portal.DeleteBatchCode | core/views.py:163 | the table state is `DeleteBatchCodeDb` of the old state |
| Store.Portal.SetShares | teacher/views.py:170-185 | only that upload's share list changes |
| Store.Portal.DeleteUsers | core/views.py:150-160 | the table state is `DeleteUsersDb` of the old state |
| Store.Portal.DeleteBatch | core/views.py:159 | the table state is `DeleteBatchDb` of the old state |
| Store.Portal.CreateStudent | core/views.py:660-665 | a student row with a fresh id is appended under the uniqueness and foreign-key preconditions |
| Store.Portal.CreateUser | core/views.py:649-657 | a user row with a fresh id and unused username is appended |
| Store.Portal.EnsureBatch | teacher/views.py:104-109 | `get_or_create` of a batch adds its code to the batch table |
| Store.Portal.UpdateBatchCode | core/views.py:622-629 | the batch code's row takes the new class, year and branch; other rows are unchanged |
| Store.Portal.SetStudentBatch | core/views.py:326-371 | only that student's batch changes |
| Store.Portal.SetUsername | core/views.py:1214-1226 | only that user's username changes, and it stays unique |
| Queries.Filter | student/models.py:29-44 | `filter`: the rows satisfying the predicate |
| Queries.FilterPairwise | student/models.py:29-44 | filtering keeps pairwise constraints |
| Queries.FilterDropsLast | teacher/views.py:154-158 | deleting the row just appended gives back the earlier table |
| Queries.NewestFirst | student/models.py:49 | `order_by('-uploaded_at')`: sorted newest first, a permutation of the input |
| Queries.Distinct | student/models.py:46-49 | `union`: duplicates removed, order and elements kept |
| Text.TrimStartDropsLeading | core/views.py:598-606 | `lstrip()` drops exactly the leading run of white space |
| Text.TrimEndDropsTrailing | core/views.py:598-606 | `rstrip()` drops exactly the trailing run of white space |
| Text.StripEmptyIffSpace | core/views.py:598-606 | `strip()` is empty exactly for all-space text |
| Text.StripEdges | core/views.py:534 | `strip()` keeps the middle of the text, between its leading and trailing white space, and has no white space at either end |
| Text.NatToStringRoundTrip | core/views.py:669 | `str(n)` reads back as `n` |
| Text.NatToStringInjective | core/views.py:669 | distinct numbers print differently |
| Text.ZeroPadSpec | core/views.py:883-887 | `{n:0Wd}` has at least `W` characters and reads back as `n` |
| Text.SplitFirstNoToken | core/views.py:634-636 | `split(maxsplit=1)` of all-space text has no first token |
| Text.SplitFirstKeepAlnum | core/views.py:634-640 | joining the two parts and keeping alphanumerics equals keeping alphanumerics of the whole name |
| Text.KeepAlnumIsAlnum | core/views.py:640 | the username base holds only alphanumerics |
| Text.LexLessTrichotomy | student/views.py:290-293 | `sorted()` order on strings is total |
| Text.LexLessTransitive | student/views.py:290-293 | `sorted()` order on strings is transitive |
| Roster.Normalise | core/views.py:554-562 | normalised headers hold no spaces, underscores or hyphens |
| Roster.MatchesIffSpelling | core/views.py:540-562 | a header matches a column exactly when it normalises like one of its spellings or its standard name |
| Roster.FirstInFinds | core/views.py:554-562 | the header found matches and no earlier header does; none found means no header matches |
| Roster.FirstMatchIndexIsFirst | core/views.py:554-562 | the header chosen for a column is the first one that matches it |
| Roster.FindHeader | core/views.py:554-562 | the header loop finds exactly `FirstIn` |
| Roster.BuildColumnMapping | core/views.py:554-562 | a column is mapped exactly when some header matches, to the first such header |
| Roster.PartialMappingStep | core/views.py:554-562 | looking at one more column adds exactly that column's first match, if it has one |
| Roster.PartialMappingComplete | core/views.py:554-562 | after all six columns the partial mapping is the whole mapping |
| Roster.Rank | core/views.py:540-547 | each column has its position in the standard order |
| Roster.MissingEssentials | core/views.py:565-570 | exactly the essential columns without a header, in standard order |
| Roster.CheckRow | core/views.py:591-610 | an accepted row has every cell, its fields are the stripped cells and the name, code and batch are non-empty; a rejection names the stripped student name only when it got that far |
| Roster.CheckRowAcceptsExactly | core/views.py:591-610 | a row is accepted exactly when every cell is present and not blank and the academic year, stripped and without hyphens, is a run of digits |
| Roster.StripCells | core/views.py:598-606 | a stripped cell is empty exactly when the cell is all space |
| Roster.NameParts | core/views.py:634-636 | the name has no first token exactly when it is all space |
| Roster.BaseUsernameOfName | core/views.py:634-640 | the username base is the lower-cased name with only alphanumerics kept |
| Roster.CandidateInjective | core/views.py:641-645 | different counters give different usernames |
| Roster.TriedGrows | core/views.py:643-645 | each attempt shrinks the set of taken names not yet tried |
| Roster.DeriveUsername | core/views.py:639-645 | the first candidate not taken, every earlier candidate being taken |
| Roster.DerivedStudentCodeDecodes | core/views.py:883-887 | the derived code is `<batch>-<count+1>` zero-padded to 3, or `STU<id>` padded to 4, and reads back |
| CoreViews.StripAll | core/views.py:534 | every header label is stripped: empty exactly when the raw header is all space, otherwise without white space at either end |
| CoreViews.UpsertBatchCode | core/views.py:613-629 | afterwards the code has one row with the given class, year and branch; other rows are unchanged |
| CoreViews.UpdatedBatchCodes | core/views.py:622-629 | updating the code's row keeps every other row |
| CoreViews.CreateStudentUser | core/views.py:639-657 | the new user gets the first free candidate username and a fresh id |
| CoreViews.ImportRow | core/views.py:613-665 | `RowImported`: the row's batch code gets its Batch and a BatchCode carrying the row's class, year and branch, and no other BatchCode changes; at most one Student-role user with the row's code is appended; the student is appended, with the row's code, name and batch, exactly when the row does not fail; uploads and notifications are untouched. A name without words fails with "list index out of range" and creates no user; a taken student code fails with the uniqueness error after the user was created |
| CoreViews.BulkUploadStudents | core/views.py:464-689 | empty sheet and missing columns refused without change; counters add up to the rows; status "success" exactly without errors; every error is labelled with a row; every unacceptable row has an error; after an import the database is the `ImportEffect` of the accepted rows with `successful` new students |
| CoreViews.RowErrorLabelled | core/views.py:669 | an error message starts with its row label |
| CoreViews.ImportRows | core/views.py:588-671 | every row is counted once as a success or a failure, there is one error line per failure, each line is labelled with a row number, and every row that fails the checks has a line; the database ends as `ImportEffect` of the accepted rows: each batch code they name has its Batch and a BatchCode with the fields of the last row naming it, other BatchCodes are unchanged, new users are Student-role users with one of those codes, exactly `successful` students are added, each from an accepted row, and uploads and notifications are untouched |
| CoreViews.ErrorsMatchRows | core/views.py:664-671 | once every row is accounted for, each error line names a row and each rejected row has a line |
| CoreViews.ProcessRow | core/views.py:591-671 | a rejected row fails with its reason and changes nothing; an accepted row has the effect `RowImported` states; either way the database after the pass is the import of the accepted rows up to and including this one |
| ImportEffects.AcceptedFields | core/views.py:588-610 | the accepted rows' fields in sheet order, at most one per row (which rows: `AcceptedFieldsExactly`) |
| ImportEffects.LastFor | core/views.py:613-629 | some row names the code exactly when there is a last row naming it, and that row is one of the rows |
| ImportEffects.ImportStep | core/views.py:588-665 | importing one more accepted row into the import of the earlier rows gives the import of all of them |
| ImportEffects.ImportRowStep | core/views.py:588-671 | the loop's step: a rejected row leaves the import of the earlier rows as it is, an accepted row extends it |
| ImportEffects.AcceptedFieldsExactly | core/views.py:591-610 | a row's fields are among the imported ones exactly when the row check accepts the row |
| ImportEffects.ImportedBatchCodes | core/views.py:613-631 | after an import every accepted row's batch code has its Batch and a BatchCode, whatever happened to its student |
| ImportEffects.ImportedStudentsFromRows | core/views.py:659-665 | every student the import added carries the enrollment number, name and batch code of an accepted row |
| CoreViews.AddIndividualStudent | core/views.py:691-774 | required fields, then name and code checks, with nothing changed on failure; on success the whole new state as `StudentStored` gives it |
| CoreViews.StoreNewStudent | core/views.py:710-751 | `StudentStored`: a BatchCode with the class (or "Class for <code>"), "2025-2026" and "Nehru nagar" is appended only when the code had none, the Batch exists, one Student-role user with an unused username and the name's two parts is appended, and one student with the code, name and batch pointing at that user; uploads and notifications are untouched |
| CoreViews.TransferStudent | core/views.py:326-371 | required fields, date and id format, unknown student (including a negative id) or batch, wrong source batch, then the move with its notification |
| CoreViews.UpdateStudentCredentials | core/views.py:1187-1249 | username required, student found, username free for this user; only then the username changes |
| CoreViews.SyncBatchCodes | core/views.py:59-85 | every user's batch code gains a placeholder row, existing rows are kept, and every code gets a batch |
| CoreViews.ExtendWithPlaceholder | core/views.py:62-69 | a placeholder for a user's uncovered batch code keeps the table an extension by placeholders, and the codes then cover that user's code as well |
| CoreViews.SkipCoveredUser | core/views.py:62-69 | a user with no batch code, or one already present, needs no new row for the codes to cover them |
| CoreViews.CreateMissingBatchCodes | core/views.py:59-69 | the codes become the old codes plus the users' codes |
| CoreViews.EnsureBatchesForCodes | core/views.py:77-85 | every batch code gets its batch |
| CoreViews.DeleteBatchCodeResult | core/views.py:140-163 | the notify, cascade and delete sequence keeps every table constraint |
| CoreViews.AdminNotices | core/views.py:140-147 | one deletion record per administrator, titled and worded as the view writes it |
| CoreViews.AdminNoticesOnce | core/views.py:140-147 | each user gets one deletion record if an administrator, else none |
| CoreViews.NotifyAdmins | core/views.py:140-147 | the loop appends exactly `AdminNotices` |
| CoreViews.NoticedDb | core/views.py:140-147 | recording the deletion for the administrators only appends their notices and keeps the constraints (each notice names an existing user) |
| CoreViews.ClearedDb | core/views.py:140-160 | the notify and cascade steps, with the `Batch.DoesNotExist` branch skipping the cascade, keep every table constraint |
| CoreViews.DeletionRemovesBatch | core/views.py:150-163 | after deletion the code has no row, no batch and no student |
| CoreViews.DeletionRemovesBatchUsers | core/views.py:150-160 | a user survives exactly when they are not a student of the batch; other students remain |
| CoreViews.DeletionRecordedForAdmins | core/views.py:140-147 | every surviving administrator has the deletion record |
| CoreViews.DeletedBatchUploadsBecomeBroadcasts | core/views.py:159 | an upload of the deleted batch loses its batch and, when shared with all, opens to every student while live |
| CoreViews.BatchStudentUsers | core/views.py:151-156 | exactly the users of the batch's students |
| CoreViews.DeleteBatchCodeView | core/views.py:123-189 | an unknown id changes nothing; otherwise the state is the notify, cascade and delete sequence |
| TeacherViews.MissingFields | teacher/views.py:59-70 | on the cleaned form, no field is missing exactly when the five text fields are non-empty and a named file came with it |
| TeacherViews.MissingMeansBlank | teacher/views.py:39-70 | on the raw form, no field is missing exactly when none of the five text fields is blank and a named file came with it |
| TeacherViews.Extension | teacher/views.py:74 | an extension is empty or a suffix of the name that starts with its only dot and has no separator |
| TeacherViews.ExtensionOfName | teacher/views.py:74 | a name with a real stem keeps its last suffix as extension |
| TeacherViews.DotNameHasNoExtension | teacher/views.py:74-82 | ".pdf" alone has no extension and is refused |
| TeacherViews.Screen | teacher/views.py:32-97 | the cleaned request passes screening exactly when it is acceptable: role, fields, the lower-cased extension, size, date format and order; a missing-fields refusal lists the missing fields |
| TeacherViews.OnlyStaffShare | teacher/views.py:32-35 | only teachers and administrators pass the role check |
| TeacherViews.NormaliseSelection | teacher/views.py:49 | '0' becomes "all"; other ids are kept |
| TeacherViews.SelectionResult | teacher/views.py:153-185 | empty or unmatched selections delete the upload but keep its notices; "all" keeps it batch-wide; otherwise it is shared with the picked students |
| TeacherViews.ShareKeepsPeople | teacher/views.py:22-205 | sharing never changes users, students or batch codes |
| TeacherViews.RefusalsChangeNothing | teacher/views.py:32-151 | a request refused by screening, or whose save fails on a blank date, leaves the database as it was |
| TeacherViews.EmptyBatchCreatesBatch | teacher/views.py:104-117 | a batch without students is refused, but its batch row has been created on the way |
| TeacherViews.SavedRequest | teacher/views.py:104-151 | a request that saved its upload was acceptable, named a batch with students, and gave both dates |
| TeacherViews.ShareNotifiesBatch | teacher/views.py:138-151 | once saved, each user gets exactly one new notice if a student of the batch, whatever the selection does |
| TeacherViews.PickedMember | teacher/views.py:177-178 | a student is picked exactly when their code was ticked and they are in the batch |
| TeacherViews.ShareAudience | teacher/views.py:170-185 | on the cleaned form, the shared upload opens, while live, to every student of the batch for "all", else exactly to the ticked students of the batch |
| TeacherViews.ShareFileAudience | teacher/views.py:39-185 | the same on the raw form: the stripped batch code, and '0' counting as "all" |
| TeacherViews.NoticedWithoutAccess | teacher/views.py:138-185 | a batch student left out of a narrowed share got a notice yet cannot open the file |
| TeacherViews.ShareFile | teacher/views.py:22-205 | the view ends in `ShareFileResult` |
| TeacherViews.ShareAccepted | teacher/views.py:101-185 | the steps after screening end in `AcceptedResult` |
| TeacherViews.SaveAndSelect | teacher/views.py:138-185 | save then selection end in `SelectionResult` |
| StudentViews.ActiveUpload | student/views.py:59 | the upload found has that id and is active; none found means no active upload has that id |
| StudentViews.StudentOfUser | student/views.py:95 | the profile found belongs to the user; none found means the user has no profile |
| StudentViews.ViewFile | student/views.py:33-154 | a served upload exists with that id and is live; teachers are refused |
| StudentViews.StudentServedIffAccessible | student/views.py:93-118 | for a student with a profile, a stored file is served exactly when the resolver grants it |
| StudentViews.AdminServedIffLive | student/views.py:60-80 | for an administrator, a stored file is served exactly when the upload is live |
| StudentViews.ProfileOfUser | student/views.py:95 | a user has one student profile |
| StudentViews.CardsFor | student/views.py:296-322 | every card in a group comes from a file of that subject |
| StudentViews.CardsForComplete | student/views.py:319-322 | every file of the subject has its card in the group |
| StudentViews.InsertSubject | student/views.py:290-291 | inserting keeps a strictly sorted list and adds exactly the new subject |
| StudentViews.SortedSubjects | student/views.py:290-291 | `sorted` subject set: strictly increasing, exactly the files' subjects |
| StudentViews.GroupsFor | student/views.py:292-330 | every kept group has a non-empty subject and exactly that subject's cards |
| StudentViews.GroupsForOrdered | student/views.py:291-330 | groups come in ascending subject order |
| StudentViews.GroupsForComplete | student/views.py:319-330 | each file with a subject appears in its group |
| StudentViews.ListingExact | student/views.py:290-330 | the listing is ordered, exact per subject and complete |
| StudentViews.Buckets | student/views.py:293-322 | the buckets are keyed by exactly the subjects given |
| StudentViews.BucketsHoldCards | student/views.py:293-322 | every subject's bucket holds exactly that subject's cards, and the empty subject's bucket none |
| StudentViews.FillSubjects | student/views.py:292-322 | the dictionary loop builds exactly `Buckets` |
| StudentViews.GroupBySubject | student/views.py:292-330 | the dictionary loop and filter build exactly `ListingOf` |
| StudentViews.StudentListingSound | student/views.py:218-235 | every card shown to a student comes from a live upload of their batch or shared with them, under its subject |
| StudentViews.ReceivedFiles | student/views.py:156-364 | only students and administrators get a listing; a missing profile is created, or its taken code fails the page; no batch gives an empty page |
| StudentViews.ShowListing | student/views.py:282-288 | no files or no groups gives the "no files" page |

## Left out

- HTTP, sessions, messages, templates, JSON encoding, logging and the CORS and cache headers are not modelled. Views return an outcome value instead of a response.
- Files on disk are not modelled: uploading, the existence check, streaming. `view_file` takes a flag saying whether the file is stored; the received-files cards omit the link that depends on it.
- Password hashing and `set_password` are left out, because passwords are opaque to every rule modelled here.
- The request-wide transaction and its poisoning after a failed insert are left out. In the import, a duplicate student code breaks the transaction: later rows fail with a transaction error, and the request is rolled back. The model keeps the effects of each row in turn.
- `retry_on_db_lock` is not modelled, because lock contention is a property of SQLite under concurrency.
- Except-branches that the modelled state cannot reach are left out: a missing role row, a student without a user, a missing batch during deletion, and the dead `student_count == 0` test inside `share_file`'s selection step.
- Store.Portal.SaveNewUpload models both branches of `Upload.save`, including the one that notifies the students of a share list (`Store.Recipient`). No view reaches that branch: `share_file` sets the share list only after the first save. So the branch is reachable in the model only.
- The Admin-only check at the top of the core views (core/views.py:51, 124, 327, 467, 693 and 1188) is not modelled. Each view method of `CoreViews` stands for a request an administrator made; the refusal and redirect for anyone else are left out.
- The column defaults of `from_date` and `to_date` (teacher/models.py:28-33, a 30-day window) are not modelled. `share_file`, the only view that creates uploads, always passes both dates, so the defaults never apply.
- Spreadsheet reading (pandas) is left out. A sheet is a list of raw headers and rows of optional strings, after `str()` conversion; each row is keyed by the stripped header labels (`StripAll`), because the view renames the columns to those labels before reading any row.
- Dates are taken as already parsed: a date field is blank, malformed or a day number.
- Fan-out order is left out: notices are created in table order, and a listing's `-created_at` ordering is not modelled.
- `select_related` is left out as a join hint. Its one effect on behaviour, the failure of `get_active_files`, is described under Findings. The dashboard's counters other than the received-files query are left out too.
- `manage_students` in teacher/views.py is not part of this model: its route is disabled and it draws random codes.
- All primary keys come from one counter rather than one sequence per table. Only uniqueness matters to the rules.
- CoreViews.AddIndividualStudent checks the name and code before writing anything. This stands in for the atomic block's rollback: the resulting state is the same.
- CoreViews.DeleteBatchCodeView deletes the batch's student users as one set. The source deletes them one by one; the resulting state is the same.
- Roster.DerivedStudentCode is not used by a modelled view. Signup and login are not part of this model; only their code format is.
- Uploads.IsAccessibleByStudent compares batches by code. Batch codes are unique, so this is the same as comparing batch ids.

## Findings

| source | as written | input that shows it | evidently intended | confidence | as-written member | corrected member |
|---|---|---|---|---|---|---|
| student/models.py:46-55 | `select_related('teacher', 'batch')` is applied to the result of `union(...)`. Django raises `NotSupportedError` for that, and the surrounding `except` returns `Upload.objects.none()` | any student, with a live upload that has no batch and no share list (`BroadcastIsGranted`) | the union of direct, batch and general shares among live uploads, each once, newest first | medium, not executed: it depends on the installed Django version rejecting `select_related` after `union` | StudentFiles.GetActiveFiles, StudentFiles.GetActiveFilesLosesGranted | StudentFiles.ActiveFiles, StudentFiles.ActiveFilesExact |
