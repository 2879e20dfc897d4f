# minimoodle submission lifecycle, in Dafny

This is a model of the backend of minimoodle, a small academic platform. Teachers publish tasks for subjects. Students enrol in subjects, upload submissions for tasks and list their tasks with a status. The status is one of `entregado`, `pendiente`, `caducado` or `inactivo`.

The model covers two files:
- the request handlers of `main.py`;
- the storage layer of `services/storage.py`, which fronts DynamoDB tables and an S3 bucket.

The files are:

- `wrappers.dfy`: `Option`, which stands for Python's `None` or a value.
- `iso_time.dfy`: naive `datetime` values (`Instant` is a valid one) and their comparison `Later` (Python's `>`). It also models `isoformat()` and `fromisoformat()` on the extended ISO 8601 date-time form `YYYY-MM-DDTHH:MM:SS[.ffffff]` (ISO 8601-1:2019, section 5.4). It proves `fromisoformat(isoformat(d)) == d`, and that every accepted string is `isoformat()` of its result, or that followed by `.000000`.
- `tables.dfy`: one DynamoDB table as a map from primary key to item, plus the order in which keys were first written. It defines `get_item`, `put_item`, `delete_item`, `scan` and secondary-index queries. Query results come in table order.
- `schemas.dfy`: the records, namely `Role`, the caller from the token, and tasks and submissions in their parsed and their stored (ISO-string) forms. It also holds the conversions between the two forms.
- `storage.dfy`: the read operations of `services/storage.py`, as functions of the tables they read. Its class `Store` holds the five tables and the bucket's key set, and performs every write.
- `status.dfy`: the if/elif chain that gives a task its status.
- `api.dfy`: the handlers of `main.py` as methods on a `Store`.
- `listing.dfy`: `get_student_tasks` as four methods: the handler, which reads the caller's enrollments, the outer loop over the enrollments, the inner loop over one subject's tasks, and the loop body that reads one task. The whole is proved equal to a specification function built from the enrollments, the tasks, a clock reading per entry and a service fault per entry. Lemmas about that function state what the listing contains.

Conventions:
- Error paths are results, not preconditions.
  - An `HTTPException` raised by a handler is an `HttpError`.
  - An exception nothing catches is `Unhandled`. The framework answers it with 500.
  - A `ClientError` that the storage layer catches is a `fault: bool` parameter. When it is set, the operation returns its sentinel (`None`, `False` or `[]`) and changes nothing.
- These become parameters:
  - `uuid4()` becomes a fresh id, with a precondition that it is not yet a key;
  - `datetime.utcnow()` becomes an `Instant` (`clock(k)` for the `k`-th listing entry);
  - the presigned-URL service becomes an `Option<string>`.
- The student handlers take the caller from the token, and their `role_checker` dependency becomes a precondition on the caller's role. The admin and teacher handlers take no caller, so their role lists are not modelled (see below).

## Model

| member | source | states |
|---|---|---|
| Status.ResolveStatus | main.py:56-63 | What each status means: `inactivo` only without a submission and after the expiry; `caducado` only without a submission, after the due time and not after the expiry; `pendiente` only without a submission and after neither. |
| Status.DeliveredIffSubmitted | main.py:56-63 | The status is `entregado` exactly when a submission exists, whatever the clock says. |
| Status.Windows | main.py:56-63 | With no submission, and expiry after the due time: `pendiente` iff `now` is not after the due time; `caducado` iff after the due time but not after the expiry; `inactivo` iff after the expiry. |
| Status.PendingAtDueTime | main.py:60-63 | Exactly at the due time the status is still `pendiente`, because the comparisons are strict. |
| Status.LateAtExpiry | main.py:60-61 | Exactly at the expiry the status is `caducado`, not yet `inactivo`. |
| Status.MidWindowExample | main.py:56-63 | Due 2024-01-10, expiry 2024-01-20, asked 2024-01-15: `caducado` without a submission, `entregado` with one. |
| IsoTime.Later | main.py:60-62 | Python's `>` on naive datetimes. A later datetime is a different one and is not in an earlier year. |
| IsoTime.LaterIrreflexive | main.py:60 | No datetime is later than itself. |
| IsoTime.LaterTransitive | main.py:60-62 | `>` on datetimes is transitive. |
| IsoTime.LaterTotal | main.py:162 | Two different datetimes are ordered one way or the other, so `<=` is the negation of `>`. |
| IsoTime.Format | main.py:167-169 | `isoformat()` writes 19 characters, or 26 when the microsecond is not zero. |
| IsoTime.DigitsAreDigits | main.py:167-169 | Every character of a zero-padded field is a decimal digit. |
| IsoTime.DigitsRoundTrip | services/storage.py:48-50 | Reading back a zero-padded field gives the number written. |
| IsoTime.DigitsOfValue | services/storage.py:48-50 | A digit string is the zero-padded rendering of its own value. |
| IsoTime.DigitsValueDefined | services/storage.py:48-50 | A string has a numeric value exactly when all its characters are decimal digits, and that value is below 10 to the power of its length. |
| IsoTime.Layout | main.py:167-169 | In the layout `isoformat()` writes, each field and each separator sits at a fixed offset whatever the fields hold, and the fraction part starts at offset 19. |
| IsoTime.FormatSlices | main.py:167-169 | Where `isoformat()` puts each field and each separator. |
| IsoTime.FormatDigitValues | services/storage.py:48-50 | Each digit field that `isoformat()` writes reads back as the datetime's own field. |
| IsoTime.FieldValuesAt | services/storage.py:48-50 | When the first fields of a string read successfully, the value read for each field is the value of that field's digits. |
| IsoTime.SixFieldValues | services/storage.py:48-50 | When the date and time fields of a string read as six given numbers, they are read as exactly those numbers, in order. |
| IsoTime.ShapedFieldValues | services/storage.py:48-50 | The same for a 19-character string, and for all seven fields of a 26-character string with a fraction. |
| IsoTime.Parse | services/storage.py:48-50 | `fromisoformat()` on the two forms `isoformat()` writes. A string it accepts has the punctuation of one of them, and without a fraction the microsecond is zero. |
| IsoTime.ParseFormat | services/storage.py:48-50 | `fromisoformat(d.isoformat()) == d` for every valid datetime. |
| IsoTime.ParseFields | services/storage.py:48-50 | An accepted string has the punctuation of one of the two forms, and each of its fields reads as the parsed value's field. Without a fraction the microsecond is zero. |
| IsoTime.ParsedDigits | services/storage.py:48-50 | Every field of an accepted string is the zero-padded rendering of the parsed value. |
| IsoTime.FormatParse | services/storage.py:48-50 | Every string accepted is what `isoformat()` writes for the result, except that an explicit `.000000` fraction is dropped. |
| IsoTime.FormatOfFields | services/storage.py:48-50 | A shaped string whose fields are the zero-padded fields of a datetime is that datetime's `isoformat()`, or it with an explicit `.000000` fraction. |
| Tables.Get | services/storage.py:39 | `get_item` returns `None` exactly when no item is stored under the key. |
| Tables.Put | services/storage.py:41 | `put_item` stores the item under its key, leaves every other key unchanged, and appends a new key to the order. |
| Tables.Delete | services/storage.py:42 | After `delete_item` the key is absent, and every other key is unchanged. |
| Tables.Select | services/storage.py:58-61 | An index query returns no more items than the table has keys; which items it returns is stated in `SelectMembers` and `SelectFirst`. |
| Tables.SelectMembers | services/storage.py:56-82 | A query returns exactly the stored items that satisfy its key condition. |
| Tables.SelectFirst | services/storage.py:84-94 | The first item a query returns is the first matching item in table order. |
| Tables.SelectDistinct | services/storage.py:56-82 | A query on a table keyed by its items returns no item twice. |
| Tables.Scan | services/storage.py:40 | `scan` returns exactly the stored items. |
| Tables.Joined | main.py:131-132 | Looking up each element and dropping the misses gives exactly the stored items found under those keys. |
| Schemas.ReadTask | services/storage.py:45-51 | Reading a stored task keeps every field and parses the three timestamps. It succeeds exactly when all three parse. |
| Schemas.TaskToItem | main.py:166-169 | The stored form of a task is keyed by its id and reads back as the same task. |
| Schemas.SubmissionToItem | services/storage.py:102-104 | The stored form of a submission keeps every field and has an ISO `fecha_entrega` that parses back to the same time. |
| Storage.GetTaskById | services/storage.py:45-51 | `Missing` exactly when the id is not stored; otherwise the stored item read back. |
| Storage.IsStudentEnrolled | services/storage.py:53-54 | True exactly when an enrollment of that user in that subject is stored. |
| Storage.GetStudentSubjects | services/storage.py:56-62 | The query returns no more items than the table holds. |
| Storage.StudentSubjectsMembers | services/storage.py:56-62 | Exactly the stored enrollments of the user. |
| Storage.StudentSubjectsDistinct | services/storage.py:56-62 | The user's enrollments come back once each. |
| Storage.GetTasksForSubject | services/storage.py:64-70 | The query returns no more items than the table has keys. |
| Storage.TasksForSubjectMembers | services/storage.py:64-70 | Exactly the stored tasks of the subject. |
| Storage.TasksForSubjectDistinct | services/storage.py:64-70 | The subject's tasks come back once each. |
| Storage.GetStudentsForSubject | services/storage.py:72-82 | `[]` on a service error; otherwise exactly the stored enrollments of the subject. |
| Storage.GetSubmission | services/storage.py:84-96 | `None` on a service error. |
| Storage.SubmissionFound | services/storage.py:84-96 | Without a service error, `None` only when the user has no record for the task. A record returned is that user's record for the task that comes first in query order. |
| Storage.Store.constructor | services/storage.py:14-15 | The store starts with empty tables and an empty bucket. |
| Storage.Store.PutTaskItem | services/storage.py:41 | `put_item` on Tasks returns its item and changes only that key. |
| Storage.Store.DeleteTaskItem | services/storage.py:42 | `delete_item` on Tasks returns True and removes only that key. |
| Storage.Store.PutEnrollmentItem | services/storage.py:41 | `put_item` on Enrollments, keyed by (subject_id, user_id). |
| Storage.Store.PutSubjectItem | services/storage.py:41 | `put_item` on Subjects, keyed by the subject's id. |
| Storage.Store.DeleteSubjectItem | services/storage.py:42 | `delete_item` on Subjects returns True and removes only that key. |
| Storage.Store.PutUserItem | services/storage.py:41 | `put_item` on Users, keyed by the user's id. |
| Storage.Store.DeleteUserItem | services/storage.py:42 | `delete_item` on Users returns True and removes only that key. |
| Storage.Store.CreateSubmissionDb | services/storage.py:98-107 | On a service error it returns `None` and changes nothing. Otherwise it stores the record with its ISO `fecha_entrega` and returns that item. |
| Storage.Store.DeleteSubmissionDb | services/storage.py:109-116 | Returns False and changes nothing on a service error. Otherwise it returns True and removes only that record. |
| Storage.Store.DeleteS3Object | services/storage.py:28-34 | Returns False and leaves the bucket as it was on a service error; otherwise returns True and removes only that key. |
| Api.ObjectKey | main.py:82 | The object key lies under the `entregas/` prefix and ends with the file name. |
| Api.UploadRecord | main.py:92-98 | The record of an upload belongs to the caller, the task and the task's subject, and its object name is the key built from those ids and the file name. |
| Api.ObjectKeyInjective | main.py:82 | Different (subject, task, user, file name) give different object keys, provided the three ids contain no `/`. |
| Api.GetUploadUrl | main.py:68-101 | A missing task gives `NotFound`, an unreadable task `Unhandled`, and no URL `ServerError`; each leaves the store unchanged. Otherwise the result is the URL. A student also gets exactly one new record with key `entregas/<subject>/<task>/<user>/<file>`, with no duplicate check, unless the write faults. Other roles change nothing. |
| Api.DeleteSubmission | main.py:103-116 | A missing or foreign submission gives `NotFound`, a missing or unreadable task `Unhandled`, and deletion after the expiry `Forbidden`; each leaves the store unchanged. Otherwise the blob is removed and then the record, each unless its service faults. The second happens whatever the first reports. |
| Api.CreateTask | main.py:160-172 | An expiry not strictly after the due time gives `BadRequest` and changes nothing. Otherwise the task is stored under the fresh id with ISO timestamps, reads back as itself and is returned. |
| Api.EnrollStudent | main.py:174-180 | `Conflict`, with nothing changed, exactly when the pair is already enrolled. Otherwise the pair is enrolled afterwards and nothing else changes. |
| Api.StudentEnrollInSubject | main.py:118-125 | The same rule for the caller and the body's subject. A body without `subject_id` fails unhandled. |
| Api.GetEnrolledSubjects | main.py:127-132 | Exactly the stored subjects of the caller's enrollments. |
| Api.GetSubjectStudents | main.py:182-187 | `[]` when the enrollment query faults; otherwise exactly the stored users enrolled in the subject. |
| Api.GetUserList | main.py:33-34 | Exactly the stored users. |
| Api.AdminGetAllSubjects | main.py:207-209 | Exactly the stored subjects. |
| Api.AdminGetSubject | main.py:211-215 | `NotFound` exactly when the subject is not stored; otherwise the stored subject. |
| Api.AdminCreateUser | main.py:191-195 | Stores and returns the user under the fresh id; nothing else changes. |
| Api.AdminDeleteUser | main.py:197-200 | Removes only the user; the user's enrollments and submissions stay. |
| Api.AdminCreateSubject | main.py:202-205 | Replaces the body's id with the fresh id, then stores and returns the subject. |
| Api.AdminUpdateSubject | main.py:217-220 | The path id overrides the body's id, and the subject is written whether or not it existed before. |
| Api.AdminDeleteSubject | main.py:222-225 | Removes only the subject; its tasks and enrollments stay. |
| Api.AdminDeleteTask | main.py:227-231 | Removes only the task, which then reads as missing; its submissions stay. |
| Listing.StudentTasks | main.py:48-66 | The specification of the listing: the entries of all visited tasks collected in visiting order, one per visited task when it succeeds. |
| Listing.GetStudentTasks | main.py:48-66 | The nested loops return exactly `StudentTasks`: the entries of the visited tasks, in visiting order. The first task that does not read back aborts with `Unhandled`. |
| Listing.ListingVisitsEachTaskOnce | main.py:48-52 | The loops visit every stored task of every subject the student is enrolled in, each exactly once, and nothing else. |
| Listing.StudentVisitsMembership | main.py:48-52 | A task is visited exactly when it is stored and the student is enrolled in its subject. |
| Listing.StudentVisitsDistinct | main.py:50-52 | No task is visited twice. |
| Listing.StudentSubjectsDifferent | services/storage.py:56-62 | A student's enrollments are in pairwise different subjects. |
| Listing.ListingEntries | main.py:53-65 | There is one entry per visit, at the visit's position. Each entry holds the task as read back, the first submission of the student for it, and the status the chain gives at that entry's clock reading. |
| Listing.ListingOkIff | main.py:53 | The listing succeeds exactly when every visited task reads back; otherwise it fails with `Unhandled`. |
| Listing.ListingSucceeds | main.py:53 | In a store whose task timestamps all parse, the listing never fails. |
| Listing.ListStudentTasks | main.py:48-66 | The outer loop over the enrollments returns the entries of all visits collected in order, or the first failure among them. |
| Listing.ListSubjectTasks | main.py:52-65 | The inner loop over one subject's tasks extends the entries collected so far by that subject's entries, or ends the whole listing with the first failure among them. |
| Listing.ReadEntry | main.py:53-65 | One loop body: the task read back, the student's first submission for it and the status at that clock reading, or `Unhandled` when the task does not read back. |
| Listing.EntryOk | main.py:53 | A visit's entry succeeds exactly when its task is found and reads back. |
| Listing.CollectStep | main.py:53-65 | Collecting one more entry appends its value when it succeeded; when it failed, the whole listing is that failure. |

## Left out

- FastAPI wiring is not modelled: the app object, CORS, `health_check` and the uvicorn entry point (main.py:13-30, 234-236). It is transport plumbing.
- `login_via_selection` (main.py:36-43) and `services/auth.py` are not modelled; token issuance goes through a JWT library. The role lists of `role_checker` are preconditions on the caller for the student handlers only.
- The admin and teacher role lists are not modelled. `CreateTask`, `EnrollStudent`, `GetSubjectStudents` and every `Admin*` method take no caller (main.py:160, 174, 182, 191-227). The model does not capture that a caller whose role is not in the handler's list is refused with 403 (services/auth.py:40-49).
- The second `get_student_tasks` (main.py:134-155) has the same body as the first and is modelled once. Its status chain (main.py:145-152) is the same `ResolveStatus`.
- Api.GetUploadUrl: main.py:85 passes the keyword `content_type`, which `create_presigned_url` (services/storage.py:18) does not declare. As written, Python raises `TypeError` there for every task that exists. The model instead treats the call as a service returning a URL or `None` (the `signed` parameter). It binds no content type, and it leaves out the 3600-second expiry and the `put_object` method.
- An uncaught `ClientError` is not modelled; those table calls always succeed in the model. This covers `get_item`, `put_item`, `delete_item` and `scan`, and the queries of `get_student_subjects` and `get_tasks_for_subject`. In the source these exceptions propagate and the framework answers 500.
- Paging is not modelled. A DynamoDB query or scan returns one page, and the code reads only `Items` of that page. The model returns every match.
- Index queries return items in the order their keys were first written. DynamoDB orders them by the index's sort key, which the source does not show.
- IsoTime.Parse accepts only the two forms `isoformat()` writes. `fromisoformat()` also accepts others: a date alone, a space separator, shorter fractions, UTC offsets. The model rejects them, as `Malformed`.
- Time zones are not modelled. Every datetime in the model is naive, `TaskCreate` included, so the model cannot express a `create_task` request whose timestamps carry a UTC offset. The source accepts such a request and stores the offset in its ISO strings (main.py:162-169). Later, comparing the naive `utcnow()` with such a timestamp raises `TypeError` (main.py:60, 62 and 111), and the framework answers 500.
- Uploads through the presigned URL happen outside the code, so the model's bucket never gains keys. It only loses them through `delete_s3_object`.
- Concurrency is not modelled; every request runs alone.
- main.py:171 (`if not created_task`) cannot fire, because `put_item` returns the non-empty item it was given. The model has no such branch.
- The `if not task` test at main.py:78 would also reject a stored but empty item. A stored task always has its fields in the model.
- `TaskCreate`, `TaskInDB`, `SubmissionInDB` and `StudentTask` are not in models/schemas.py. Their fields are taken from main.py:92-97, 162-169 and services/storage.py:103.
  - `StudentTask(**task.dict(), ...)` is modelled as a record holding the task, and not as flattened fields.
  - The submission's default `fecha_entrega` is the parameter `submitted_at`.

`get_submission` returns `items[0]`, the first matching record in query order (services/storage.py:94); it does not pick the most recent one.
