# Reply mail server: mailbox state and validation rules in Dafny

Reply is a Django REST mail service. A user registers, sends emails (with
file attachments kept in an object store) to other registered users, and
manages what they see through four folders: Inbox, Sent, Starred and Trash.
An email row is shared by its sender and its receiver. Each user sees it
through (user, email) rows in the four folder tables. The handlers in
`emails/views.py` create and delete those rows. The serializers in
`emails/serializers.py` decide which registration and email payloads are
accepted and what gets stored.

This project models that core and proves properties of it.

- `wrappers.dfy`: `Option` and `Result`.
- `tables.dfy` (module `Tables`): a folder table is a sequence of `Row(user, email)`. Two ORM deletions are modelled on it:
  - `filter(...).delete()` is `RemoveAll`;
  - the delete half of `get(...).delete()` is `RemoveOne`.

  The code enforces no uniqueness, so rows are counted as a multiset.
- `serializers.py` → `serializers.dfy` (module `Serializers`): the field checks, with the web framework's whitespace trimming and its refusal of null characters. Also:
  - the existing-username check;
  - the registration decision (`usernameError`, `confirmError`);
  - the `create` and `update` rules.
- `mailbox.dfy` (module `Mailbox`): the database as one value, `Store`. It defines:
  - what each batch handler does for one id (`Step`);
  - the handler loop over the comma-separated ids, which stops at the first exception (`Run`);
  - folder listings, the store a successful send produces (`Deliver`), and attachment links.

  It also defines the store invariant `Consistent`:
  - every reference points at an existing user or email;
  - usernames are unique, stored trimmed and free of null characters;
  - no (user, email) pair has two rows in one folder, or rows in both Inbox and Trash.

  The invariant is proved to hold after every handler.
- `views.py` → `views.dfy` (module `Views`): class `Server` holds the tables as fields. Each request handler is a method that loops and updates the tables in place, as the source does. Each method is proved to keep `Valid()` and to compute its specification: a function of `Mailbox` for sending, listing, the batch handlers and attachment links; the `Serializers` functions `ValidateRegistration`/`CreateAccount` for registration and `ValidateEmail`/`UpdateRead` for the read update.

Email ids are assigned 1, 2, 3, … and no handler deletes an email, so email `id` is `emails[id - 1]`. A user is identified by its position in the user table.

## Model

| member | source | states |
|---|---|---|
| `Serializers.TrimStart` | emails/serializers.py:86-87 | stripping leading whitespace (Python `str.isspace()` characters, predicate `IsSpace`) keeps a suffix that is empty or starts with a non-space, and every dropped character is whitespace |
| `Serializers.TrimEnd` | emails/serializers.py:86-87 | stripping trailing whitespace keeps a prefix that is empty or ends with a non-space, and every dropped character is whitespace |
| `Serializers.Trim` | emails/serializers.py:86-87 | the `str.strip()` every CharField applies is never longer than its input, and is empty or neither starts nor ends with whitespace |
| `Serializers.TrimIsMiddleSlice` | emails/serializers.py:86-87 | the stripped value is the contiguous part of the input that starts where the leading whitespace ends; everything before it and everything after it is whitespace |
| `Serializers.StripsToMiddleSlice` | emails/serializers.py:86-87 | dropping a whitespace-only prefix and then a whitespace-only suffix leaves a middle slice of the input with only whitespace around it |
| `Serializers.TrimmedBlankIffAllSpace` | emails/serializers.py:86-87 | a text field counts as blank exactly when every character is whitespace |
| `Serializers.TrimIdempotent` | emails/serializers.py:28-32 | a stored (trimmed) value trims to itself, so it passes the same check unchanged |
| `Serializers.CharField` | emails/serializers.py:28-32 | a required text field passes iff present, not blank once trimmed, within its minimum and maximum length once trimmed, and free of null characters; the accepted value is the trimmed one; absent gives `Required`, all-whitespace gives `Blank`; otherwise every failing validator (too short, too long, null character) is reported together |
| `Serializers.CharFieldReportsEveryValidator` | emails/serializers.py:28-32 | a present, non-blank value that fails is refused by its validators, and the report names exactly the failing ones: too short, too long, null character |
| `Serializers.FindUser` | emails/serializers.py:12-17 | looking a user up by name yields a user carrying that name, and yields nothing iff no user has it; no user is created |
| `Serializers.ExistingUsername` | emails/serializers.py:19-24 | `validate_username` accepts iff the trimmed name is non-blank, free of null characters and some user has it; it rejects with `UnknownUser` iff the name passes the field checks but nobody has it |
| `Serializers.CheckRegistrationFields` | emails/serializers.py:28-32 | each registration field has an error iff it fails its bound: names non-blank, username at least 3 characters, password and confirm at least 8, none holding a null character; no error at all iff every bound holds |
| `Serializers.CheckRegistration` | emails/serializers.py:54-66 | `usernameError` iff the username is taken; `confirmError` iff password and confirm differ; the two are independent, so both can be reported |
| `Serializers.ValidateRegistration` | emails/serializers.py:27-66 | registration is accepted iff the field bounds hold, the trimmed username is free and the trimmed password equals the trimmed confirm; field errors are reported iff a bound fails, and they are exactly the per-field errors of `CheckRegistrationFields`; otherwise each flag is reported iff its condition holds |
| `Serializers.CreateAccount` | emails/serializers.py:44-52 | an account is made iff a password is present; it stores names and username as validated and the password only as its hash, with confirm dropped |
| `Serializers.CheckEmailFields` | emails/serializers.py:84-91 | each email field has an error iff it fails its check: subject non-blank and at most 100 characters, message non-blank, neither holding a null character, sender and receiver naming existing users |
| `Serializers.ValidateEmail` | emails/serializers.py:84-91 | an email payload is accepted iff the subject is non-blank and at most 100 characters, the message is non-blank, neither holds a null character, and sender and receiver name existing users; on rejection each field's error is absent iff that field's condition holds |
| `Serializers.CreateEmail` | emails/serializers.py:93-108 | the stored email's sender and receiver are the users the validated names resolve to; subject and message are stored as validated; `read` and `created_at` follow the defaults listed under Left out |
| `Serializers.UpdateRead` | emails/serializers.py:110-114 | update changes only `read`; an absent `read` keeps the old value; subject, message, sender, receiver and created_at are unchanged; the email is unchanged iff `read` is absent or equal to the old value |
| `Serializers.InboxRecipientAsWritten` | emails/views.py:99 | the send handler's receiver lookup, as written, finds a user iff some user's name equals the raw payload name exactly, and the user it finds carries that name |
| `Serializers.PaddedReceiverValidatesButIsNotFound` | emails/views.py:82-100 | a receiver name with a leading space validates, yet the lookup as written finds nobody |
| `Serializers.PaddedReceiverValidates` | emails/serializers.py:86-91 | one leading space in front of an existing username still passes email validation |
| `Serializers.ValidEmailHasInboxRecipient` | emails/serializers.py:99-108 | for every accepted payload, the receiver and sender `create` resolves exist and carry the trimmed names that validation checked |
| `Tables.RemoveAll` | emails/views.py:218 | `filter().delete()` removes every copy of the row, leaves every other row's count unchanged and creates nothing |
| `Tables.RemoveOne` | emails/views.py:128 | deleting the row `get` found removes exactly one copy of it |
| `Tables.RemoveAllUndoesAppend` | emails/views.py:217-220 | creating a row that was absent and then deleting all its copies restores the table exactly |
| `Mailbox.Step` | emails/views.py:126-129 | one id of any batch handler (also lines 184-186, 214-220, 248-253, 264-266) raises "does not exist" for the email iff no email has that id, and a successful id changes no user, email or attachment |
| `Mailbox.ToggleStarRow` | emails/views.py:216-220 | the star toggle for one (user, email) row changes only the Starred table, and in it the count of no other row |
| `Mailbox.TrashRow` | emails/views.py:128-129 | moving one row to Trash changes only Inbox and Trash, and in them the count of no other row |
| `Mailbox.RestoreRow` | emails/views.py:251-253 | restoring one row changes only Inbox and Trash, and in them the count of no other row |
| `Mailbox.PurgeTrashRow` | emails/views.py:266 | purging one row from Trash changes only the Trash table, and in it the count of no other row |
| `Mailbox.PurgeSentRow` | emails/views.py:186 | purging one row from Sent changes only the Sent table, and in it the count of no other row |
| `Mailbox.DeleteSingle` | emails/views.py:128 | `get().delete()` succeeds iff exactly one matching row exists, and then removes it; it raises "does not exist" iff there is none and "multiple objects" iff there are several |
| `Mailbox.ToggleStarEffect` | emails/views.py:214-220 | star toggle deletes all Starred rows for (user, email) if there is any, else creates exactly one; afterwards there are 0 or 1 |
| `Mailbox.ToggleStarTwice` | emails/views.py:214-220 | two toggles from unstarred give back exactly the original store |
| `Mailbox.MoveToTrashEffect` | emails/views.py:126-129 | move to trash succeeds iff the email exists and exactly one Inbox row for (user, email) exists; that row goes and one Trash row is added; each failure raises its own error |
| `Mailbox.RestoreEffect` | emails/views.py:248-253 | restore deletes all Trash rows for (user, email) and adds one Inbox row if there is any; with none the id changes nothing and is no error |
| `Mailbox.PurgeEffect` | emails/views.py:184-186 | purge from Trash (also lines 264-266) or from Sent succeeds iff exactly one matching row exists; it removes that row, raises when there is none, and changes no other table, so it never creates a row |
| `Mailbox.TrashThenRestore` | emails/views.py:122-131 | on a consistent store, moving an email to Trash and restoring it leaves Inbox and Trash with the same rows as before |
| `Mailbox.RemoveAllSameForOthers` | emails/views.py:218 | deleting all of one user's copies of a row changes no other user's rows |
| `Mailbox.AppendSameForOthers` | emails/views.py:220 | creating a row for one user changes no other user's rows |
| `Mailbox.DeleteSingleSameForOthers` | emails/views.py:186 | deleting one user's single row changes no other user's rows |
| `Mailbox.StepConfined` | emails/views.py:126-129 | one successful id of any batch handler (also lines 184-186, 214-220, 248-253, 264-266) changes only its action's folder tables and only the acting user's rows; users, emails and attachments are untouched |
| `Mailbox.ToggleStarKeepsConsistent` | emails/views.py:217-220 | a star toggle keeps the store invariant |
| `Mailbox.TrashKeepsConsistent` | emails/views.py:128-129 | moving to trash keeps the store invariant |
| `Mailbox.RestoreKeepsConsistent` | emails/views.py:251-253 | restoring keeps the store invariant: the new Inbox row cannot duplicate one, since a Trash row excluded any Inbox row |
| `Mailbox.PurgeTrashKeepsConsistent` | emails/views.py:266 | purging from Trash keeps the store invariant |
| `Mailbox.PurgeSentKeepsConsistent` | emails/views.py:186 | purging from Sent keeps the store invariant |
| `Mailbox.StepPreservesConsistent` | emails/views.py:126-129 | every successful id of every batch handler (also lines 184-186, 214-220, 248-253, 264-266) keeps the store invariant |
| `Mailbox.NoMultipleRowsWhenConsistent` | emails/views.py:128 | on a consistent store no handler's `get` ever finds several rows |
| `Mailbox.Run` | emails/views.py:126-129 | the `for email_id in email_ids` loop of each batch handler (also lines 184-186, 214-220, 248-253, 264-266) stops, if at all, at an id of the batch, and never changes users, emails or attachments |
| `Mailbox.RunStopsAtFirstFailure` | emails/views.py:124-131 | a batch that raises stopped at the first failing id; the ids before it all succeeded in list order and their changes are the final state |
| `Mailbox.RunNext` | emails/views.py:126-129 | the batch over one more id continues with exactly that id's step |
| `Mailbox.RunAfterStop` | emails/views.py:182-188 | once an id has raised, the ids after it change nothing |
| `Mailbox.RunConfined` | emails/views.py:246-255 | a whole batch touches only the acting user's rows in its action's tables, never users, emails or attachments |
| `Mailbox.RunPreservesConsistent` | emails/views.py:262-268 | a whole batch by an existing user keeps the store invariant |
| `Mailbox.Listing` | emails/views.py:63-68 | every entry of a folder listing (also lines 168-173, 203-206, 237-240) is an existing email under its own id, and there are no more entries than rows |
| `Mailbox.ListedIndices` | emails/views.py:63-68 | every position it yields holds one of the user's rows naming an existing email |
| `Mailbox.ListedIndicesComplete` | emails/views.py:63-68 | the listed positions are strictly increasing (table order, each once), and every row of the user naming an existing email is among them |
| `Mailbox.ListingIsOwnRows` | emails/views.py:61-68 | a folder listing has exactly one entry per listed row, in table order: entry k is the id and email of the k-th of the user's rows naming an existing email |
| `Mailbox.ListingIdsDistinct` | emails/views.py:63-68 | a folder table without duplicate rows lists each email id at most once |
| `Mailbox.ConsistentListingIdsDistinct` | emails/views.py:57-70 | in a consistent store every folder listing (also lines 162-175, 198-208, 232-242) shows each email id at most once |
| `Mailbox.ListingIgnoresNewEmail` | emails/views.py:63-67 | adding an email changes no listing of the existing rows |
| `Mailbox.ListingAppend` | emails/views.py:63-68 | a newly created row adds its email, under its id, at the end of its user's listing |
| `Mailbox.AttachmentRows` | emails/views.py:87-96 | one attachment row per uploaded file, in file order, named after the file, keyed fresh id + "_" + file name, owned by the new email |
| `Mailbox.Uploads` | emails/views.py:97 | one upload per file into bucket `reply-django-server` under that file's key |
| `Mailbox.Deliver` | emails/views.py:85-101 | a successful send stores the new email under the next id, every existing email keeps its id, and users, Starred and Trash are unchanged |
| `Mailbox.DeliverPreservesConsistent` | emails/views.py:84-101 | a successful send by an existing user keeps the store invariant |
| `Mailbox.DeliverListings` | emails/views.py:99-101 | after a send, the receiver's Inbox listing and the sender's Sent listing end with the new email under its new id, and every other listing is unchanged |
| `Mailbox.AsSentBy` | emails/views.py:80 | the handler replaces the payload's sender by the acting user's name; what validation then makes of it is stated by `Mailbox.ComposedEmail` |
| `Mailbox.Composed` | emails/views.py:80-85 | the email a validated send stores has as sender a user carrying the acting user's trimmed name and as receiver a user carrying the trimmed receiver name; `Mailbox.ComposedEmail` states when it validates and what it stores |
| `Mailbox.ComposedEmail` | emails/views.py:80-85 | since the handler overwrites the sender with the acting user, a send (`Composed`) validates iff subject, message and receiver do; an unknown receiver is rejected here; the stored email's sender is the acting user, its receiver the named user, and its text fields are trimmed |
| `Mailbox.AsWrittenLookupAgreesWhenTrimmed` | emails/views.py:99 | for every accepted send, the lookup as written finds the stored email's receiver when the receiver name needs no trimming, and finds nobody when it does: the two lookups differ exactly on padded names |
| `Mailbox.DeliverAsWritten` | emails/views.py:84-100 | the send handler as written: when the raw-name lookup finds the stored receiver the result is exactly `Deliver`'s store; when it finds nobody, the email and its attachment rows are stored but Inbox and Sent are left as they were |
| `Mailbox.SendAsWritten` | emails/views.py:84-100 | for every accepted send, the handler as written equals `Deliver` when the receiver name needs no trimming; with a padded name the new email is stored, yet no row of any folder refers to it and no user's listing of any folder changes |
| `Mailbox.RegisterEffect` | emails/serializers.py:44-52 | a successful registration stores the trimmed fields and the hash of the trimmed password, and keeps the store invariant |
| `Mailbox.AddAccountPreservesConsistent` | emails/serializers.py:57-58 | adding an account under a free, trimmed username without null characters keeps usernames unique and the invariant |
| `Mailbox.UpdateEmailPreservesConsistent` | emails/serializers.py:110-114 | replacing an email by one with the same sender and receiver keeps the store invariant |
| `Mailbox.Links` | emails/views.py:288-298 | the attachment view's links for one email: at most one per attachment row; `Mailbox.LinksOfAll`, `Mailbox.LinksOfNone`, `Mailbox.LinksConcat` and `Mailbox.DeliverLinks` state which ones |
| `Mailbox.LinksConcat` | emails/views.py:286-298 | the links of two attachment tables in sequence are the links of each in sequence |
| `Mailbox.LinksOfNone` | emails/views.py:286-298 | an email without attachment rows has no links |
| `Mailbox.LinksOfAll` | emails/views.py:288-298 | the rows of one send give one `{name: url}` per file, presigned for the file's key with expiry 300 |
| `Mailbox.LinksOfNewEmail` | emails/views.py:288-298 | attachment rows of other emails in front of a send's rows add no link to that email's list |
| `Mailbox.DeliverLinks` | emails/views.py:284-300 | after a send with n files, the new email's link list has exactly n entries; the i-th names the i-th file and is presigned for its key with expiry 300 |
| `Views.Server.Register` | emails/views.py:40-47 | registration succeeds iff the payload validates; then exactly the new account is added, otherwise nothing changes and the serializer's errors are returned |
| `Views.Server.AddUser` | emails/serializers.py:47-51 | saving the new user appends it and changes nothing else |
| `Views.Server.Send` | emails/views.py:75-105 | sending stores exactly `Composed`'s email when the payload validates: one new email, its attachment rows and uploads, one Inbox row for the receiver and one Sent row for the sender. An invalid payload changes nothing and returns the errors |
| `Views.Server.Save` | emails/views.py:85-101 | the successful branch produces exactly the `Deliver` store and keeps the invariant |
| `Views.Server.AttachFiles` | emails/views.py:87-97 | the file loop appends exactly `AttachmentRows` and requests exactly `Uploads`, touching no other table |
| `Views.Server.MarkRead` | emails/views.py:110-117 | raises iff the email does not exist; a valid payload updates only that email's `read`; an invalid payload saves nothing yet reports success |
| `Views.Server.SaveEmail` | emails/serializers.py:111-112 | saving an email with unchanged sender and receiver replaces it and keeps the invariant |
| `Views.Server.ListFolder` | emails/views.py:57-70 | the Inbox listing (and Sent, lines 162-175; Starred, 198-208; Trash, 232-242) is exactly `Listing` of the folder's rows for the user: each email with its id, in table order |
| `Views.Server.ToggleStars` | emails/views.py:210-222 | the star handler's loop computes exactly `Run(ToggleStar, …)`: final tables and where it stopped, and it keeps the invariant |
| `Views.Server.MoveToTrash` | emails/views.py:122-131 | the Inbox delete handler's loop computes exactly `Run(MoveToTrash, …)` and keeps the invariant |
| `Views.Server.Restore` | emails/views.py:244-255 | the Trash patch handler's loop computes exactly `Run(RestoreFromTrash, …)` and keeps the invariant |
| `Views.Server.PurgeFromTrash` | emails/views.py:257-268 | the Trash delete handler's loop computes exactly `Run(PurgeTrash, …)` and keeps the invariant |
| `Views.Server.PurgeFromSent` | emails/views.py:177-188 | the Sent delete handler's loop computes exactly `Run(PurgeSent, …)` and keeps the invariant |
| `Views.Server.AttachmentLinks` | emails/views.py:274-300 | raises iff the email does not exist; otherwise returns exactly `Links` of its attachment rows: one `{name: url}` per row, expiry 300 |

## Left out

- Object store access: creating the client, `upload_fileobj` and `generate_presigned_url` (emails/views.py:136-153, 278-297) are a network service.
  - Presigning is an opaque function parameter.
  - Each upload is recorded as an `Upload` request.
  - Whether `upload_file` succeeds is not modelled. The attachment row is recorded either way, as in the code.
- Fresh ids for object keys (emails/views.py:88) are a parameter `uuids`, one per file. Their uniqueness is not modelled.
- Password hashing (`set_password`) is an opaque function parameter. JWT token issuance (emails/serializers.py:35-42) and `current_user` are left out: both call into libraries.
- The clock: an absent `created_at` is stored as the parameter `now`.
- Serializers.CreateEmail: what the Email model does with `read` and `created_at` is not part of this model, so two defaults are assumed. An absent `read` is stored as false. A `created_at` in the payload is stored as given; under an `auto_now_add` field Django would store the clock value instead.
- Listing entries carry the email's id and the stored email. The rendering of sender and receiver as `{username: ...}` objects is not modelled.
- HTTP plumbing is left out:
  - status codes and response bodies;
  - the JSON decoding of the send payload (emails/views.py:78);
  - URL routing.

  Handler results are `Result` / `Outcome` values instead. A payload field of the wrong JSON type is not modelled.
- Email ids in query strings are integers here. A non-numeric id, which makes `get` raise a different exception, and a missing `email_id` parameter are not modelled.
- `emails/models.py` is not part of this model. The views and serializers are followed instead.
- Ordering and atomicity:
  - Unordered query results are taken in table (insertion) order.
  - No transaction exists, so a raising request keeps the changes made before the exception. `Mailbox.RunStopsAtFirstFailure` states this for the batch handlers, and `Mailbox.SendAsWritten` for a send whose receiver lookup raises.
- Concurrency between requests is not modelled: the code does nothing about it.
- The REST framework release is not pinned by the repository. Its CharField is modelled as current releases behave: whitespace is stripped, then the length validators and the null-character validator run. Surrogate code points cannot occur in a Dafny string.
- Users are looked up by exact string equality. Database collation rules that might compare names differently are not modelled.
- Views.Server.Send: models the corrected receiver lookup (see Findings), as do `Mailbox.Deliver` and `Mailbox.DeliverListings`, which build the Inbox row for the receiver validation resolved. Under the code as written, a send whose raw receiver name differs from the trimmed one raises after the email and its attachments were stored. That behaviour is modelled separately by `Mailbox.DeliverAsWritten`. `Serializers.PaddedReceiverValidatesButIsNotFound` exhibits it, `Mailbox.AsWrittenLookupAgreesWhenTrimmed` proves the two lookups agree exactly when the receiver name needs no trimming, and `Mailbox.SendAsWritten` proves the stored email then reaches no folder.

## Findings

| source | as written | input that shows it | evidently intended | confidence | as-written member | corrected member |
|---|---|---|---|---|---|---|
| emails/views.py:99 | The Inbox row's receiver is looked up by the raw payload name. Validation and `create` both use the whitespace-trimmed name. | Users: `bob`. Payload: receiver `" bob"`, sender `bob`, subject `Hi`, message `Hello`. Validation passes and the email is created for `bob`. The lookup of `" bob"` then raises "does not exist", so the email is stored with no Inbox and no Sent row. | The Inbox row goes to the receiver `create` resolved. That user exists for every valid payload. | not executed | `Serializers.InboxRecipientAsWritten` (with `Mailbox.DeliverAsWritten`, `Mailbox.SendAsWritten`, `Serializers.PaddedReceiverValidatesButIsNotFound` and `Mailbox.AsWrittenLookupAgreesWhenTrimmed`) | `Views.Server.Send` (with `Serializers.ValidEmailHasInboxRecipient`) |
