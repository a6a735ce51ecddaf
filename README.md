# careConnect clinic intake backend — a Dafny model of its handlers

careConnect is a small multi-tenant REST backend: clinics have staff users,
staff upload intake documents, and an upload can be submitted for a (not yet
implemented) extraction step. Its logic is the request validation and tenant
authorisation inside four Express handlers, plus the seed script that
creates the demo clinic and staff user. This project models that logic
over an in-memory database and proves what each handler promises.

- `wrappers.dfy` — `Option`.
- `queries.dfy` (`Queries`) — tables as sequences of rows: `FindBy` (the first
  row with a key: `findUnique`, `findFirst`), `Where` (a `where` filter),
  `Has`, `UniqueBy` (a unique constraint) and lemmas about them.
- `schema.dfy` (`Schema`) — `Clinic`, `User`, `Upload`, the `Store` of the three
  tables, `Valid` (unique ids, names and emails; foreign keys resolve) and
  `TenantConsistent` (every upload was made by a STAFF user of its own clinic).
- `http.dfy` (`Http`) — request fields (`Field`: absent and `""` are both
  missing, as JavaScript falsiness makes them), response bodies and
  `Response`, which includes `NoResponse` for a handler that sends nothing.
- `persistence.dfy` (`Persistence`) — the database client as a class
  `Database` whose three tables are fields, with the two keyed upserts and the
  insert; the two upsert methods are specified by pure functions on `Store`,
  the insert by its own postcondition.
- `storage_keys.dfy` (`StorageKeys`) — the placeholder key
  `placeholder/<Date.now()>_<originalFilename>` and its inverse.
- `uploads.dfy` (`Uploads`) — createUpload: the pure six-step validation chain
  and the method that performs the single insert.
- `extractions.dfy` (`Extractions`) — startExtraction, a pure function: it
  returns a response and no database, so no path writes.
- `clinics.dfy` (`Clinics`) — listClinics and listClinicUploads, pure functions.
- `seed.dfy` (`Seed`) — the seed script as a method on `Database`, specified by
  `SeedStore`, with idempotence and uniqueness lemmas.

Inputs that come from outside the code are parameters: `Date.now()` (`now`),
the id the database generates for a new row (`newId`, `clinicId`, `userId`,
required to be unused) and the database's `createdAt` timestamp.

The listing of a clinic's uploads is ordered by `createdAt` non-increasing,
with ties in an open order; startExtraction's 400 response lists
`['clinicId', 'userId', 'uploadId']`; when every extraction check passes the
handler sends no response.

## Model

| member | source | states |
|---|---|---|
| `Uploads.ValidateUpload` | server/src/controllers/uploads.controller.js:8-59 | the first failing check decides the answer, in this order: any of the four fields missing gives 400 'Missing Fields' listing exactly clinicId, uploadedByUserId, originalFilename, mimeType; a MIME type not exactly one of application/pdf, image/png, image/jpeg gives 400 'Invalid mimeType' with the allow-list and the received value; unknown clinic 404; unknown user 404; user of another clinic 403 'User does not belong to this clinic'; non-STAFF user 403 'Only staff can upload intake forms'; the request is accepted exactly when all six pass |
| `Uploads.CreateUpload` | server/src/controllers/uploads.controller.js:8-72 | a rejected request answers with the validation's response and changes no table; an accepted one appends exactly one upload with the request's clinic, uploader, filename and MIME type, status RECEIVED and key `placeholder/<now>_<filename>`, and answers 201 with that record; clinics and users never change; the schema constraints and the tenancy rule are preserved |
| `Uploads.AcceptedInsertKeepsInvariants` | server/src/controllers/uploads.controller.js:29-70 | the checks are exactly what makes the inserted row's foreign keys valid and its uploader a STAFF user of its clinic, so the insert keeps `Valid` and `TenantConsistent` |
| `Uploads.OtherClinicUserIsForbidden` | server/src/controllers/uploads.controller.js:39-59 | a user of another clinic gets 403 'User does not belong to this clinic' whatever their role: the clinic check precedes the role check |
| `Uploads.NewUpload` | server/src/controllers/uploads.controller.js:61-70 | the inserted record carries the generated id and timestamp, the request's clinicId, uploadedByUserId, originalFilename and mimeType, status RECEIVED, and the storage key `StorageKey(now, originalFilename)`, from which the upload time and the filename read back |
| `Persistence.Database.InsertUpload` | server/src/controllers/uploads.controller.js:61-70 | `upload.create` adds one row at the end of the Upload table and touches nothing else |
| `StorageKeys.StorageKey` | server/src/controllers/uploads.controller.js:67 | the key is the prefix `placeholder/`, then exactly `Decimal(now)` (the timestamp's decimal digits without leading zeros, as `${Date.now()}` renders it), then `_`, then the original filename unchanged |
| `StorageKeys.Decimal` | server/src/controllers/uploads.controller.js:67 | the rendering of `Date.now()` in the key is a non-empty run of decimal digits without a leading zero |
| `StorageKeys.ParseDecimalOfDecimal` | server/src/controllers/uploads.controller.js:67 | the digits in the key denote exactly the timestamp |
| `StorageKeys.StorageKeyRoundTrip` | server/src/controllers/uploads.controller.js:67 | the placeholder key can be read back into the timestamp and the original filename |
| `StorageKeys.StorageKeyInjective` | server/src/controllers/uploads.controller.js:67 | two uploads get the same key only when they share the millisecond and the filename |
| `Extractions.StartExtraction` | server/src/controllers/extractions.controller.js:3-67 | first failing check decides: a missing clinicId, userId or uploadId gives 400 'Missing Fields' with required = clinicId, userId, uploadId; unknown upload 404 'Upload not found'; upload of another clinic 403 'Upload does not belong to clinic' (before any user lookup); no user with both that id and that clinic 404 'User not found'; non-STAFF 403 'User not authorized'; when all pass no response is sent; the result carries no database, so nothing is written on any path |
| `Extractions.OtherClinicUserIsNotFound` | server/src/controllers/extractions.controller.js:39-55 | a user who exists but belongs to another clinic gets 404 'User not found' from the clinic-scoped lookup, not 403 |
| `Queries.FindBy` | server/src/controllers/extractions.controller.js:15-49 | `findUnique`/`findFirst`: None exactly when no row has the key; otherwise the first row with that key |
| `Queries.Where` | server/src/controllers/clinics.controller.js:32-35 | the `where: { clinicId }` filter (also used for the users include at lines 6-8): every row satisfying the condition, as often as in the table, and no other row |
| `Clinics.ListClinics` | server/src/controllers/clinics.controller.js:3-11 | 200 with every clinic in table order, each paired with exactly the users whose clinicId is that clinic's id, each as often as in the User table |
| `Clinics.WithUsers` | server/src/controllers/clinics.controller.js:5-9 | `include: { users: true }` gives a clinic exactly its own users |
| `Clinics.ListClinicUploads` | server/src/controllers/clinics.controller.js:18-55 | an unknown clinic gets 404 'Clinic not found' and nothing else; otherwise 200 with each of the clinic's uploads exactly once, no upload of another clinic, ordered by createdAt non-increasing, each entry holding only id, originalFilename, status, createdAt and uploadedBy {id, email, role} |
| `Clinics.ClinicUploads` | server/src/controllers/clinics.controller.js:32-38 | the clinic's uploads, each as often as in the table, none of another clinic, newest first |
| `Clinics.InsertByCreatedAt` | server/src/controllers/clinics.controller.js:36-38 | one step of the `createdAt` descending order: placing an upload into a newest-first sequence keeps it newest first and adds exactly that upload |
| `Clinics.SortNewestFirst` | server/src/controllers/clinics.controller.js:36-38 | `orderBy: { createdAt: 'desc' }` yields a newest-first permutation of its input |
| `Clinics.Summary` | server/src/controllers/clinics.controller.js:39-51 | a listed entry copies the upload's id, originalFilename, status and createdAt, and its uploader entry carries the upload's uploadedByUserId |
| `Clinics.SummaryShowsUploader` | server/src/controllers/clinics.controller.js:44-50 | the uploader entry of a listed upload is the id, email and role of a User row whose id is the upload's uploadedByUserId |
| `Clinics.Project` | server/src/controllers/clinics.controller.js:39-51 | the projection keeps one entry per row, in the same order, with the row's id, originalFilename, status, createdAt and uploader id |
| `Clinics.ClinicUploadsAreTheClinics` | server/src/controllers/clinics.controller.js:32-35 | every listed row is a row of the clinic, every row of the clinic is listed, and no upload id repeats |
| `Clinics.ProjectionListsEachOnce` | server/src/controllers/clinics.controller.js:39-51 | projecting the sorted rows keeps their order and distinctness and lists exactly the clinic's uploads |
| `Clinics.ProjectionKeepsOrderAndIds` | server/src/controllers/clinics.controller.js:36-43 | an entry per row carrying the row's id and createdAt keeps the newest-first order and the distinct ids |
| `Clinics.ProjectionShowsTheClinics` | server/src/controllers/clinics.controller.js:39-51 | the summaries of exactly the clinic's rows show each upload of the clinic and nothing from another clinic |
| `Clinics.LatestUploadListedFirst` | server/src/controllers/clinics.controller.js:32-38 | an upload created strictly later than every other upload of its clinic heads that clinic's listing |
| `Persistence.UpsertClinicByName` | server/prisma/seed.js:5-13 | an existing clinic with the name is returned and the database is unchanged; otherwise exactly one clinic with that name is appended and returned |
| `Persistence.UpsertUserByEmail` | server/prisma/seed.js:15-25 | an existing user with the email is returned unchanged (clinic and role not reset); otherwise exactly one user with the given fields is appended and returned |
| `Persistence.UpsertClinicKeepsValid` | server/prisma/seed.js:5-13 | the clinic upsert keeps ids and names unique and foreign keys valid |
| `Persistence.UpsertUserKeepsValid` | server/prisma/seed.js:15-25 | the user upsert keeps ids and emails unique and foreign keys valid when the clinic exists |
| `Persistence.Database.UpsertClinic` | server/prisma/seed.js:5-13 | the in-place upsert leaves the tables as `UpsertClinicByName` describes and returns its row |
| `Persistence.Database.UpsertUser` | server/prisma/seed.js:15-25 | the in-place upsert leaves the tables as `UpsertUserByEmail` describes and returns its row |
| `Seed.SeedStore` | server/prisma/seed.js:5-25 | the clinic is 'CareConnect Mobile' and the staff user 'andres@careconnect.care'; existing rows are returned unchanged; a created user has role STAFF and the id of the clinic upserted first; uploads never change |
| `Seed.SeedDatabase` | server/prisma/seed.js:3-26 | running the script leaves the database as `SeedStore` describes and returns its clinic and staff user |
| `Seed.SeedKeepsValid` | server/prisma/seed.js:5-25 | seeding keeps the schema's constraints |
| `Seed.SeedKeepsTenancy` | server/prisma/seed.js:5-25 | seeding keeps every upload's uploader a STAFF user of its clinic |
| `Seed.SeedIdempotent` | server/prisma/seed.js:5-25 | seeding a seeded database changes nothing and returns the same clinic and staff user |
| `Seed.SeedLeavesOneClinicAndOneStaff` | server/prisma/seed.js:5-25 | afterwards exactly one clinic has the demo name and exactly one user the staff email, and they are the rows returned |

## Left out

- The `catch` branches that answer 500 'Internal Server Error', and all `console` logging: which failures the database client raises is not visible in this code.
- Express routing, JSON body parsing, the `/health` handler and the listen port (`server/server.js`, `server/src/routes/*.js`). Note that startExtraction is exported but no route in `server/src/routes/uploads.routes.js` reaches it.
- The connection pool, the Prisma adapter and environment loading (`server/src/db/prisma.js`): the database is modelled as three in-memory tables.
- `process.exit(1)` and `$disconnect` in the seed script, and a seed whose upserts fail.
- The clock and id generation: `Date.now()`, `createdAt` and generated ids are parameters; a generated id is required to be unused.
- Concurrency: the read-then-write sequences are modelled as atomic, so the races between concurrent requests are not captured.
- Any behaviour of a successful extraction: the code implements none.
- JavaScript falsiness of non-string values (`0`, `false`, numbers as ids): every field is an optional string.
- Exponent notation in the key: `Date.now()` is rendered as plain decimal digits; JavaScript switches to exponent notation from 10^21 milliseconds on, which no real clock reaches.
- Row order of unordered queries (`findMany` without `orderBy`, the included users) is left to the database; the model uses table order. The contract of `Clinics.ListClinics` fixes the order of the clinics; the contract of `Clinics.WithUsers` states only which users a clinic gets and how often each appears, not their order.
- Ties in `createdAt`: the database leaves their order open; the sort picks one order and its contract promises only the non-increasing order and the permutation.
- Columns of Clinic, User and Upload beyond those the handlers read or write: the schema file is not part of this model.
