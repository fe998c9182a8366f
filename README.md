# Accounting backend: transaction sync, in Dafny

This project models the core of a small personal-finance backend written with Flask and SQLAlchemy on PostgreSQL. A client uploads batches of income and expense records. Each record carries a client-chosen `server_id`. The server merges each record into the `transactions` table: it updates the caller's row that holds that `server_id`, or inserts a new row. It then commits once. A download returns every row the caller owns. A `users` table holds registered users, and the login decision is made against it.

The model has five modules:

- `Schema` (schema.dfy): the rows of `users` and `transactions`, and the constraints the database checks at every flush and commit:
  - NOT NULL on `user_id`, `server_id`, `amount`, `type`, `category_id` and `date`;
  - Integer is 32 bits wide;
  - `amount` is Numeric(10, 2), held here as integer cents;
  - String(20) for `date`, String(80) for `username` and String(255) for the password hash;
  - `server_id` and `username` are unique.
- `Reconcile` (reconcile.dfy): the upload endpoint as specification functions:
  - `Step` is one iteration of the loop;
  - `Run` is the loop over the whole list;
  - `UploadSpec` is the whole request, with its early exits and the final commit.

  The module also holds the lemmas about these functions.
- `Accounts` (accounts.dfy): registration, the login decision and the current-user lookup.
- `Retrieval` (retrieval.dfy): the download filter and `to_dict`.
- `Backend` (backend.dfy): the class `Store`.
  - Its fields are `users`, `committed`, a `staged` copy of `transactions` standing for the session, and the two id sequences.
  - Its methods `Register` and `Upload` change the store in place. `Upload` is the record loop itself, proved equal to `UploadSpec` by its loop invariant.

How the model reads the code:

- **Absent and null are different.** Each incoming field is an `Option<Cell<T>>`. `None` means the key is absent, so the patch keeps the old value. `Some(Null)` means the key is present with null, so the patch writes NULL. This is what `dict.get(key, default)` does at app.py:202-206: it falls back only when the key is absent, not when its value is null.
- **The lookup is per owner.** The query at app.py:198 filters on `server_id` and the caller's `user_id`, while the schema makes `server_id` unique across all users (app.py:65). So a record naming another user's `server_id` never touches that user's row. Instead it stages a second row with the same `server_id`, which the next flush rejects (`ForeignServerIdAborts`, `UploadKeepsStore`).
- **Autoflush.** The query at app.py:198 autoflushes the session first. So the constraint check runs before every lookup, not only at the commit at app.py:231. A failed flush raises inside the per-record `try`, just as a malformed record does. Lookups see every row staged earlier in the batch.
- **Rollback is session-wide.** The `except` branch at app.py:224-227 calls `db.session.rollback()`, which discards everything staged since the last commit, not only the failing record's work. `uploaded_count` keeps its earlier increments. `FailingRecordDiscardsEarlierRecords` shows the result: a 200 reply that counts records of which none were stored.
- **Clean records.** Several lemmas are about batches of *clean* records (`Clean`). A clean record carries `server_id`, `amount`, `type`, `category_id` and `date`, each with a value the schema accepts. `description` may be absent, null or a string. A fresh record missing any of the other keys is inserted with a NULL in a NOT NULL column, so the next flush fails.
- **The commit is all-or-nothing.** If the staged rows violate a constraint, the reply is 500 without a count and the committed table is unchanged.

## Model

| member | source | states |
|---|---|---|
| `Reconcile.Find` | app.py:196-198 | The lookup returns a row owned by the caller that holds the given `server_id`, and returns nothing exactly when no such row exists. |
| `Reconcile.Patch` | app.py:200-207 | Each of amount, type, category_id, date and description keeps its old value when its key is absent and takes the incoming value (null included) when present. `user_id`, `server_id` and `created_at` are unchanged, and `updated_at` is now. |
| `Reconcile.NewRow` | app.py:209-220 | A new row is owned by the caller and holds the record's `server_id`. An absent key gives NULL and a present key gives its value. `created_at` and `updated_at` are now. |
| `Reconcile.UploadSpec` | app.py:176-246 | An unknown user gets 404 and a missing `transactions` key gets 400, both with the table unchanged. Only a 200 carries a count, and that count never exceeds the batch length. Any reply other than 200 leaves the committed table unchanged. For an iterable batch, the reply is 200 exactly when the rows the loop (`Run`) staged meet every constraint. A 200 then commits exactly those rows and reports the loop's count. |
| `Reconcile.RunCount` | app.py:193-227 | `uploaded_count` grows by at most one per well-formed record. |
| `Reconcile.Passes` | app.py:195-198 | A record gets through the loop body exactly when `.get` works on it (it is a dictionary) and the autoflush that the query at app.py:198 triggers accepts the rows staged so far. What follows from passing or not is stated by `Step`. |
| `Reconcile.Step` | app.py:195-227 | One iteration. A record that passes is counted. A record that raises resets the staged rows to the committed ones, leaves the count unchanged and takes no row id. At most one row id is taken. Its effect on rows is proved in `StepPatches`, `StepInserts` and `StepTracks`. |
| `Reconcile.Run` | app.py:194-227 | The loop over the list, in order. The count never falls and grows by at most the list's length, and so does the id sequence. `RunCount`, `RunTracks` and `RunClean` prove more about it. |
| `Reconcile.StepPatches` | app.py:198-207 | When the caller already holds the record's `server_id`, that row is patched in place and no row is added. |
| `Reconcile.StepInserts` | app.py:209-221 | When the caller does not hold the record's `server_id`, exactly one row is added under a fresh id. That row is `NewRow` of the record: it is owned by the caller, holds the record's `server_id`, and has NULL for every absent key. Every other row is unchanged. |
| `Reconcile.MissingKeyBlocksFlush` | app.py:209-221 | A record inserted without `server_id`, `amount`, `type`, `category_id` or `date` stages a row with NULL in a NOT NULL column. The next autoflush, or the commit, then rejects the staged rows. |
| `Reconcile.StepTracks` | app.py:194-227 | One iteration deletes no committed row and changes no committed row's owner, `server_id` or `created_at`. Every row it adds is the caller's, and every row of another user stays as committed. |
| `Reconcile.RunTracks` | app.py:194-227 | The same holds for the whole loop, whatever the records. |
| `Reconcile.DescriptionAfterCases` | app.py:206 | Over a batch, `get('description', current)` either sets the description, whatever it held before, or leaves it as it was. It is left alone when no record names the row's server id. |
| `Reconcile.DescriptionAfterTwice` | app.py:206 | Applying a batch's descriptions twice gives what applying them once gives. |
| `Reconcile.RunClean` | app.py:194-223 | Take a batch of records that carry every NOT NULL key with a value the schema accepts, whose server ids no other user holds. `description` may be absent. Every record passes and is counted. The staged rows stay within the constraints. Each row named by the batch is the caller's, carries the last record naming it and was updated now. Its description is what the batch's `get`s leave: NULL for a new row when no record names one. Every other row is as committed. |
| `Reconcile.CleanBatchCommitted` | app.py:194-236 | The whole request for such a batch: the reply is 200 counting every record. The committed table is the old one overwritten by the batch, the last record naming a server id winning. |
| `Reconcile.UploadKeepsStore` | app.py:194-236 | An upload keeps the constraints, the id sequence and the foreign key. It deletes no row and changes no row's owner, `server_id` or `created_at`. It leaves every row of another user exactly as it was, and every row it adds is the caller's. |
| `Reconcile.ReuploadIdempotent` | app.py:196-207 | Uploading the same clean batch twice gives the same count and the same set of rows. Every column but `updated_at` is unchanged, `description` included, even for records without it. `updated_at` is the second upload's time on every row the batch names. |
| `Reconcile.FreshRunGrows` | app.py:209-221 | A batch of such records, with distinct server ids that no row holds, stages one new row per record and keeps every committed row. Records without `description` are included. |
| `Reconcile.FreshBatchAddsAll` | app.py:209-236 | Such a batch is committed with a count equal to its length, and the table grows by exactly that many rows. |
| `Reconcile.ForeignServerIdAborts` | app.py:194-236 | A record naming a `server_id` held by another user is inserted, not merged. When it is the last record, the commit breaks `server_id` uniqueness: the reply is 500 and the committed table is unchanged. |
| `Reconcile.FailingRecordDiscardsEarlierRecords` | app.py:223-241 | A record that raises after clean records rolls them all back, yet the reply is 200 with those records counted. |
| `Accounts.UserNamed` | app.py:107 | The username lookup finds the user with that name, and finds nothing exactly when the name is not taken. |
| `Accounts.RegisterSpec` | app.py:98-125 | A missing or empty username or password, or a taken username, gets 400 with `users` unchanged. Otherwise the reply is 201 exactly when both columns fit the schema, and then exactly that user is added under the next id. It is 500, with `users` unchanged, exactly when a column is too long. |
| `Accounts.RegisterKeepsUsers` | app.py:110-116 | Registration keeps usernames unique and within the column widths. A 201 adds exactly one user under a fresh id. |
| `Accounts.RegisterTwiceRefused` | app.py:106-108 | After a successful registration, registering the same name again gets 400 and changes nothing. Exactly one user holds that name. |
| `Accounts.Login` | app.py:129-154 | A missing or empty field gets 400. The reply is 200 exactly when a user with that name exists and the password check accepts, and a 200 names that user. Every other case gets 401. |
| `Accounts.LoginFailuresAlike` | app.py:140-142 | An unknown username and a known user with a wrong password get the very same reply, 401. |
| `Accounts.CurrentUser` | app.py:159-171 | The reply is 200 exactly when the caller exists, and carries the caller's own id and username. Otherwise the reply is 404. |
| `Retrieval.ToDict` | app.py:77-89 | The snapshot carries the row's id and owner, and every column of the row: `FromSnapshot` reads the row back from it unchanged. |
| `Retrieval.SnapshotRoundTrip` | app.py:77-89 | The other direction: a snapshot is the `to_dict` of the row read back from it. |
| `Retrieval.OwnedKeys` | app.py:261 | `filter_by(user_id=caller)` yields only ids of existing rows owned by the caller. `Download` states the other direction: every row the caller owns is in the reply. |
| `Retrieval.Snapshots` | app.py:264 | Each entry of the list is the `to_dict` of the row its id names, for an id that was asked for. `SnapshotCount` proves there is one entry per id. |
| `Retrieval.Download` | app.py:251-272 | An unknown caller gets 404. Otherwise the list holds exactly the snapshots of the committed rows the caller owns, and it is empty, not an error, when there are none. |
| `Retrieval.SnapshotCount` | app.py:264 | Converting rows to snapshots loses none: one snapshot per row. |
| `Retrieval.DownloadCount` | app.py:261-264 | The download has as many entries as the caller owns rows. |
| `Backend.Store.constructor` | app.py:40-72 | The store starts with empty tables, nothing staged, and both sequences at 1. |
| `Backend.Store.Rollback` | app.py:226 | Every staged change is dropped. |
| `Backend.Store.Commit` | app.py:231 | Staged rows that pass the flush become the committed table. |
| `Backend.Store.Register` | app.py:98-125 | Registration in place: the reply, the new `users` table and the sequence are those of `RegisterSpec`. `transactions` is untouched and the store stays valid. |
| `Backend.Store.Upload` | app.py:176-246 | The record loop in place: the reply, the committed table and the sequence are those of `UploadSpec`. `users` is untouched, nothing is left staged, and the store stays valid. |
| `Backend.UploadLeavesOthersDownload` | app.py:251-264 | An upload by one user leaves every other user's download exactly as it was. |
| `Backend.FreshBatchGrowsDownload` | app.py:209-223 | A clean batch of new, distinct server ids adds exactly one entry per record to the caller's download, records without `description` included. |
| `Backend.RegisterUploadDownloadScenario` | app.py:98-272 | A whole session: "alice" registers into an empty table with id 1 and logs in. She uploads server id 100 at 12.50, then server id 100 again at 15.00. Each upload answers 200 with a count of 1, and her download then holds a single entry, with server id 100 and 15.00. |
| `Backend.PartialReuploadDiffers` | app.py:194-236 | Re-uploading a batch is not idempotent in general. Take the batch [server id 6 without `amount`, server id 10, server id 6] and upload it twice into an empty table. The first upload answers 200 with a count of 2 and stores one row: the record without `amount` stages a NULL amount, the next autoflush fails and rolls the session back, and only the last record is stored. The second upload answers 200 with a count of 3 and leaves two rows: the record without `amount` now patches the stored row, so every record goes through. |

## Left out

- Flask routing, the JSON body, `jsonify` and the response messages are transport. A reply is a status plus the value the endpoint returns, and a body that is not valid JSON is not modelled.
- The health-check endpoint (app.py:92-94) returns a constant and is not modelled.
- JWT issuance and validation, the identity loaders and the `int(float(identity))` parsing are foreign library calls. The authenticated caller is a parameter, and a 200 login names the user a token would be issued for.
- Password hashing is a foreign library call. Registration is given the hash, and login is given the hash check as a function.
- `float(amount)` in `to_dict` and amounts sent as floats are left out: amounts are integer cents, and rounding to two decimals is not modelled. The ISO rendering of timestamps is left out too: they stay values.
- `created_at` and `updated_at` are nullable columns (app.py:71-72), and `to_dict` renders a null one as None (app.py:87-88). Their defaults fill them on every insert and update, so the model holds them as plain values and does not model a null timestamp.
- The clock (`datetime.utcnow`) is the parameter `now`, the same for a whole request.
- Values of the wrong JSON type (a string where an integer is expected) are not modelled. Every present value has its column's type or is null. Their type errors at flush are therefore not covered. Errors from NOT NULL, from integer width and from Numeric(10, 2) are covered, and so are errors from string length, with the two exceptions in the next line.
- The model hands out a row id when a row is staged, while PostgreSQL assigns it at flush. Only freshness is modelled, not the exact numbers the sequence yields.
- A body whose `transactions` value is a dictionary or a string is iterated by key or by character in the source. In the model, it becomes a list of malformed records.
- The `except` branches that catch unexpected errors (app.py:123-125, 153-154, 170-171, 243-246, 271-272) are modelled only where the error is one the model has: a constraint failure, a malformed record, or a `transactions` value that cannot be iterated.
- The order of the downloaded list is not promised by the source and is not modelled: the reply holds a set.
- Logging with `print` and the unused imports (app.py:9-11) are left out.
- create_database.py is not part of this model: it only creates the database over a connection.
- Concurrent requests and isolation levels are not modelled; each request runs alone.
- ForeignServerIdAborts: the 500 is proved only when the record naming another user's `server_id` comes last, after clean records. When records follow it, the next lookup's autoflush fails instead and the batch goes on; `Step` and `UploadKeepsStore` cover that case.
- Two string cases differ from PostgreSQL and psycopg2.
  - An over-long string whose excess characters are all spaces is stored cut to the column's width. `RowFits` and `UserFits` reject it instead, so the model answers 500 where the source stores the value and answers 200 or 201.
  - A string holding the NUL character is refused at flush. The model accepts it in every string column.
- ReuploadIdempotent: the records must carry `server_id`, `amount`, `type`, `category_id` and `date` with values the schema accepts, and no other user may hold their server ids. `description` may be absent. A record that leaves out another key still goes through when it patches a row the caller holds. Batches with such records are not covered, because re-upload is not idempotent for them: `PartialReuploadDiffers` gives a batch whose two uploads differ in count and rows.
