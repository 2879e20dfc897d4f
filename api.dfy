/**
 * The request handlers of main.py over the in-memory store. The student
 * handlers take the caller, and their `role_checker` role becomes a
 * precondition on it; the admin and teacher handlers take no caller. The
 * clock, `uuid4()` and the presigned-URL service become parameters.
 */
module Api {
  import opened Wrappers
  import opened IsoTime
  import opened Tables
  import opened Schemas
  import opened Storage

  /** The `HTTPException`s the handlers raise, and a failure nothing catches. */
  datatype HttpError =
    | NotFound     // 404
    | Forbidden    // 403
    | BadRequest   // 400
    | Conflict     // 409
    | ServerError  // 500, raised explicitly
    | Unhandled    // an exception the handler does not catch; the framework answers 500

  datatype Result<T> = Ok(value: T) | Err(error: HttpError)

  // -----------------------------------------------------------------
  // Upload registration
  // -----------------------------------------------------------------

  /** The S3 object key of an upload. */
  function ObjectKey(subject_id: string, task_id: string, user_id: string, file_name: string): (key: string)
    ensures "entregas/" <= key
    ensures |key| >= |file_name| && key[|key| - |file_name|..] == file_name
  {
    "entregas/" + subject_id + "/" + task_id + "/" + user_id + "/" + file_name
  }

  predicate NoSlash(s: string) {
    forall i :: 0 <= i < |s| ==> s[i] != '/'
  }

  /** In `a + "/" + x` with `a` free of '/', the first '/' is at index `|a|`. */
  lemma FirstSlash(a: string, x: string)
    requires NoSlash(a)
    ensures (a + "/" + x)[|a|] == '/'
    ensures forall i :: 0 <= i < |a| ==> (a + "/" + x)[i] != '/'
  {
  }

  lemma SplitAtSlash(a: string, x: string, b: string, y: string)
    requires NoSlash(a) && NoSlash(b)
    requires a + "/" + x == b + "/" + y
    ensures a == b && x == y
  {
    var s := a + "/" + x;
    FirstSlash(a, x);
    FirstSlash(b, y);
    if |a| < |b| || |b| < |a| {
      // index min(|a|, |b|) holds '/' on one side and an id character on the other
      assert false;
    }
    assert a == s[..|a|] && b == s[..|b|];
    assert x == s[|a| + 1..] && y == (b + "/" + y)[|b| + 1..];
  }

  /**
   * Uploads for different (subject, task, user) never share an object key,
   * as long as those three ids contain no '/'; the file name is recovered too.
   */
  lemma ObjectKeyInjective(s1: string, t1: string, u1: string, f1: string,
                           s2: string, t2: string, u2: string, f2: string)
    requires NoSlash(s1) && NoSlash(t1) && NoSlash(u1)
    requires NoSlash(s2) && NoSlash(t2) && NoSlash(u2)
    requires ObjectKey(s1, t1, u1, f1) == ObjectKey(s2, t2, u2, f2)
    ensures s1 == s2 && t1 == t2 && u1 == u2 && f1 == f2
  {
    var p := "entregas/";
    var r1, r2 := s1 + "/" + (t1 + "/" + (u1 + "/" + f1)), s2 + "/" + (t2 + "/" + (u2 + "/" + f2));
    assert ObjectKey(s1, t1, u1, f1) == p + r1;
    assert ObjectKey(s2, t2, u2, f2) == p + r2;
    assert r1 == (p + r1)[|p|..] && r2 == (p + r2)[|p|..];
    SplitAtSlash(s1, t1 + "/" + (u1 + "/" + f1), s2, t2 + "/" + (u2 + "/" + f2));
    SplitAtSlash(t1, u1 + "/" + f1, t2, u2 + "/" + f2);
    SplitAtSlash(u1, f1, u2, f2);
  }

  /** The submission record a student's upload registration writes. */
  function UploadRecord(task: Task, task_id: string, caller: Caller, file_name: string,
                        submission_id: string, submitted_at: Instant): (r: Submission)
    ensures r.user_id == caller.user_id && r.task_id == task_id && r.subject_id == task.subject_id
    ensures r.s3_object_name == ObjectKey(r.subject_id, r.task_id, r.user_id, file_name)
  {
    Submission(submission_id, task_id, caller.user_id, task.subject_id,
               ObjectKey(task.subject_id, task_id, caller.user_id, file_name), submitted_at)
  }

  /**
   * `get_upload_url`, for any authenticated caller. `signed` is what the
   * presigned-URL service returns (`None` when it raised), `submission_id`
   * the fresh `uuid4()`, `submitted_at` the submission's default timestamp
   * and `write_fault` whether the Submissions table raised. No existing
   * submission of the caller for the task is looked for.
   */
  method GetUploadUrl(store: Store, caller: Caller, task_id: string, file_name: string,
                      signed: Option<string>, submission_id: string, submitted_at: Instant, write_fault: bool)
    returns (r: Result<string>)
    requires store.Valid()
    requires submission_id !in store.submissions.items
    modifies store
    ensures store.Valid()
    ensures old(GetTaskById(store.tasks, task_id)).Missing? ==> r == Err(NotFound)
    ensures old(GetTaskById(store.tasks, task_id)).Malformed? ==> r == Err(Unhandled)
    ensures old(GetTaskById(store.tasks, task_id)).Found? && signed.None? ==> r == Err(ServerError)
    ensures old(GetTaskById(store.tasks, task_id)).Found? && signed.Some? ==> r == Ok(signed.value)
    ensures r.Err? ==> unchanged(store)
    ensures r.Ok? ==>
      var record := UploadRecord(old(GetTaskById(store.tasks, task_id)).task, task_id, caller, file_name,
                                 submission_id, submitted_at);
      store.submissions == if caller.rol == Student && !write_fault
                           then Put(old(store.submissions), submission_id, SubmissionToItem(record))
                           else old(store.submissions)
    ensures store.tasks == old(store.tasks) && store.enrollments == old(store.enrollments)
    ensures store.subjects == old(store.subjects) && store.users == old(store.users)
    ensures store.blobs == old(store.blobs)
  {
    match GetTaskById(store.tasks, task_id)
    case Missing =>
      return Err(NotFound);
    case Malformed =>
      return Err(Unhandled);
    case Found(task) =>
      if signed.None? {
        return Err(ServerError);
      }
      if caller.rol == Student {
        var submission := UploadRecord(task, task_id, caller, file_name, submission_id, submitted_at);
        var _ := store.CreateSubmissionDb(submission, write_fault);
      }
      r := Ok(signed.value);
  }

  // -----------------------------------------------------------------
  // Submission deletion
  // -----------------------------------------------------------------

  /**
   * `delete_submission`, for students. `now` is the clock reading; the two
   * flags say whether S3 and the Submissions table raised. A missing or
   * foreign submission is `NotFound`; a task that is missing or unreadable
   * makes the handler fail unhandled; after the expiry it is `Forbidden`.
   * Otherwise the blob and then the record are deleted, and the outcomes of
   * both deletions are ignored.
   */
  method DeleteSubmission(store: Store, caller: Caller, submission_id: string, now: Instant,
                          blob_fault: bool, db_fault: bool)
    returns (r: Result<()>)
    requires store.Valid() && caller.rol == Student
    modifies store
    ensures store.Valid()
    ensures var sub := Get(old(store.submissions), submission_id);
      sub.None? || sub.value.user_id != caller.user_id ==> r == Err(NotFound)
    ensures var sub := Get(old(store.submissions), submission_id);
      sub.Some? && sub.value.user_id == caller.user_id ==>
        var read := old(GetTaskById(store.tasks, sub.value.task_id));
        && (!read.Found? ==> r == Err(Unhandled))
        && (read.Found? && Later(now, read.task.fecha_caducidad) ==> r == Err(Forbidden))
        && (read.Found? && !Later(now, read.task.fecha_caducidad) ==> r == Ok(()))
    ensures r.Err? ==> unchanged(store)
    ensures r.Ok? ==>
      var sub := Get(old(store.submissions), submission_id).value;
      && store.blobs == (if blob_fault then old(store.blobs) else old(store.blobs) - {sub.s3_object_name})
      && store.submissions == (if db_fault then old(store.submissions)
                               else Delete(old(store.submissions), submission_id))
    ensures store.tasks == old(store.tasks) && store.enrollments == old(store.enrollments)
    ensures store.subjects == old(store.subjects) && store.users == old(store.users)
  {
    var found := Get(store.submissions, submission_id);
    if found.None? || found.value.user_id != caller.user_id {
      return Err(NotFound);
    }
    var submission := found.value;
    var read := GetTaskById(store.tasks, submission.task_id);
    if !read.Found? {
      return Err(Unhandled);
    }
    if Later(now, read.task.fecha_caducidad) {
      return Err(Forbidden);
    }
    var _ := store.DeleteS3Object(submission.s3_object_name, blob_fault);
    var _ := store.DeleteSubmissionDb(submission_id, db_fault);
    r := Ok(());
  }

  // -----------------------------------------------------------------
  // Tasks and enrollments
  // -----------------------------------------------------------------

  /**
   * `create_task`, for admins and teachers: rejects an expiry that is not
   * strictly after the due time; otherwise stores the task under the fresh
   * id `task_id` with its timestamps as ISO strings and returns it.
   */
  method CreateTask(store: Store, request: TaskCreate, task_id: string) returns (r: Result<Task>)
    requires store.Valid()
    requires task_id !in store.tasks.items
    modifies store
    ensures store.Valid()
    ensures r.Err? <==> !Later(request.fecha_caducidad, request.fecha_entrega)
    ensures r.Err? ==> r.error == BadRequest && unchanged(store)
    ensures r.Ok? ==>
      && r.value == Task(task_id, request.subject_id, request.titulo,
                         request.fecha_creacion, request.fecha_entrega, request.fecha_caducidad)
      && store.tasks == Put(old(store.tasks), task_id, TaskToItem(r.value))
      && GetTaskById(store.tasks, task_id) == Found(r.value)
    ensures old(TasksReadable(store.tasks)) ==> TasksReadable(store.tasks)
    ensures store.submissions == old(store.submissions) && store.enrollments == old(store.enrollments)
    ensures store.subjects == old(store.subjects) && store.users == old(store.users)
    ensures store.blobs == old(store.blobs)
  {
    // `fecha_caducidad <= fecha_entrega` is the negation of `>` for datetimes.
    if !Later(request.fecha_caducidad, request.fecha_entrega) {
      return Err(BadRequest);
    }
    var task := Task(task_id, request.subject_id, request.titulo,
                     request.fecha_creacion, request.fecha_entrega, request.fecha_caducidad);
    var created := store.PutTaskItem(TaskToItem(task));
    r := Ok(task);
  }

  /**
   * `enroll_student`, for admins and teachers, and the shared rule of
   * `student_enroll_in_subject`: a second enrollment of the same pair is
   * `Conflict`; otherwise the pair is enrolled and nothing else changes.
   */
  method EnrollStudent(store: Store, enrollment: Enrollment) returns (r: Result<()>)
    requires store.Valid()
    modifies store
    ensures store.Valid()
    ensures old(IsStudentEnrolled(store.enrollments, enrollment.user_id, enrollment.subject_id)) ==> r == Err(Conflict)
    ensures !old(IsStudentEnrolled(store.enrollments, enrollment.user_id, enrollment.subject_id)) ==> r == Ok(())
    ensures r.Err? ==> unchanged(store)
    ensures r.Ok? ==>
      && store.enrollments == Put(old(store.enrollments), EnrollmentKey(enrollment), enrollment)
      && IsStudentEnrolled(store.enrollments, enrollment.user_id, enrollment.subject_id)
    ensures store.tasks == old(store.tasks) && store.submissions == old(store.submissions)
    ensures store.subjects == old(store.subjects) && store.users == old(store.users)
    ensures store.blobs == old(store.blobs)
  {
    if IsStudentEnrolled(store.enrollments, enrollment.user_id, enrollment.subject_id) {
      return Err(Conflict);
    }
    var _ := store.PutEnrollmentItem(enrollment);
    r := Ok(());
  }

  /**
   * `student_enroll_in_subject`, for students: enrolls the caller in the
   * subject of the request body. A body without `subject_id` makes the
   * store lookup fail unhandled.
   */
  method StudentEnrollInSubject(store: Store, caller: Caller, subject: Subject) returns (r: Result<()>)
    requires store.Valid() && caller.rol == Student
    modifies store
    ensures store.Valid()
    ensures subject.subject_id.None? ==> r == Err(Unhandled)
    ensures subject.subject_id.Some? && old(IsStudentEnrolled(store.enrollments, caller.user_id, subject.subject_id.value))
      ==> r == Err(Conflict)
    ensures subject.subject_id.Some? && !old(IsStudentEnrolled(store.enrollments, caller.user_id, subject.subject_id.value))
      ==> r == Ok(())
    ensures r.Err? ==> unchanged(store)
    ensures r.Ok? ==>
      var e := Enrollment(caller.user_id, subject.subject_id.value);
      && store.enrollments == Put(old(store.enrollments), EnrollmentKey(e), e)
      && IsStudentEnrolled(store.enrollments, caller.user_id, subject.subject_id.value)
    ensures store.tasks == old(store.tasks) && store.submissions == old(store.submissions)
    ensures store.subjects == old(store.subjects) && store.users == old(store.users)
    ensures store.blobs == old(store.blobs)
  {
    if subject.subject_id.None? {
      return Err(Unhandled);
    }
    r := EnrollStudent(store, Enrollment(caller.user_id, subject.subject_id.value));
  }

  // -----------------------------------------------------------------
  // Listings built from lookups
  // -----------------------------------------------------------------

  /**
   * `get_enrolled_subjects`: the subjects of the caller's enrollments, with
   * the enrollments whose subject no longer exists skipped.
   */
  function GetEnrolledSubjects(store: Store, caller: Caller): (r: seq<Subject>)
    reads store
    requires store.Valid() && caller.rol == Student
    ensures forall s :: s in r <==>
      exists e :: e in store.enrollments.items.Values && e.user_id == caller.user_id
                  && e.subject_id in store.subjects.items && store.subjects.items[e.subject_id] == s
  {
    var es := GetStudentSubjects(store.enrollments, caller.user_id);
    StudentSubjectsMembers(store.enrollments, caller.user_id);
    var r := Joined(es, (e: Enrollment) => e.subject_id, store.subjects);
    assert forall e :: e in es ==> exists i :: 0 <= i < |es| && es[i] == e;
    r
  }

  /**
   * `get_subject_students`, for admins and teachers: the users enrolled in
   * a subject, with deleted users skipped; `[]` when the enrollment query raised.
   */
  function GetSubjectStudents(store: Store, subject_id: string, fault: bool): (r: seq<User>)
    reads store
    requires store.Valid()
    ensures fault ==> r == []
    ensures !fault ==> forall u :: u in r <==>
      exists e :: e in store.enrollments.items.Values && e.subject_id == subject_id
                  && e.user_id in store.users.items && store.users.items[e.user_id] == u
  {
    var es := GetStudentsForSubject(store.enrollments, subject_id, fault);
    var r := Joined(es, (e: Enrollment) => e.user_id, store.users);
    assert forall e :: e in es ==> exists i :: 0 <= i < |es| && es[i] == e;
    r
  }

  // -----------------------------------------------------------------
  // Admin CRUD
  // -----------------------------------------------------------------

  /** `get_user_list`: every user, in table order. */
  function GetUserList(store: Store): (r: seq<User>)
    reads store
    requires store.Valid()
    ensures forall u :: u in r <==> u in store.users.items.Values
  {
    Scan(store.users)
  }

  /** `admin_get_all_subjects`: every subject, in table order. */
  function AdminGetAllSubjects(store: Store): (r: seq<Subject>)
    reads store
    requires store.Valid()
    ensures forall s :: s in r <==> s in store.subjects.items.Values
  {
    Scan(store.subjects)
  }

  /** `admin_get_subject`: the subject, or `NotFound`. */
  function AdminGetSubject(store: Store, subject_id: string): (r: Result<Subject>)
    reads store
    ensures r.Err? <==> subject_id !in store.subjects.items
    ensures r.Err? ==> r.error == NotFound
    ensures r.Ok? ==> r.value == store.subjects.items[subject_id]
  {
    match Get(store.subjects, subject_id)
    case None => Err(NotFound)
    case Some(s) => Ok(s)
  }

  /** `admin_create_user`: stores the user under the fresh id `user_id`. */
  method AdminCreateUser(store: Store, user: UserCreate, user_id: string) returns (r: User)
    requires store.Valid()
    requires user_id !in store.users.items
    modifies store
    ensures store.Valid()
    ensures r == User(user_id, user.nombre, user.rol)
    ensures store.users == Put(old(store.users), user_id, r)
    ensures store.tasks == old(store.tasks) && store.submissions == old(store.submissions)
    ensures store.enrollments == old(store.enrollments) && store.subjects == old(store.subjects)
    ensures store.blobs == old(store.blobs)
  {
    r := store.PutUserItem(User(user_id, user.nombre, user.rol));
  }

  /** `admin_delete_user`: enrollments and submissions of the user stay. */
  method AdminDeleteUser(store: Store, user_id: string)
    requires store.Valid()
    modifies store
    ensures store.Valid()
    ensures store.users == Delete(old(store.users), user_id)
    ensures store.tasks == old(store.tasks) && store.submissions == old(store.submissions)
    ensures store.enrollments == old(store.enrollments) && store.subjects == old(store.subjects)
    ensures store.blobs == old(store.blobs)
  {
    var _ := store.DeleteUserItem(user_id);
  }

  /** `admin_create_subject`: the body's id is replaced by the fresh id `subject_id`. */
  method AdminCreateSubject(store: Store, subject: Subject, subject_id: string) returns (r: Subject)
    requires store.Valid()
    requires subject_id !in store.subjects.items
    modifies store
    ensures store.Valid()
    ensures r == subject.(subject_id := Some(subject_id))
    ensures store.subjects == Put(old(store.subjects), subject_id, r)
    ensures store.tasks == old(store.tasks) && store.submissions == old(store.submissions)
    ensures store.enrollments == old(store.enrollments) && store.users == old(store.users)
    ensures store.blobs == old(store.blobs)
  {
    r := store.PutSubjectItem(subject.(subject_id := Some(subject_id)));
  }

  /**
   * `admin_update_subject`: the path id overrides the body's id, and the
   * subject is written whether or not it existed before.
   */
  method AdminUpdateSubject(store: Store, subject_id: string, subject: Subject) returns (r: Subject)
    requires store.Valid()
    modifies store
    ensures store.Valid()
    ensures r == subject.(subject_id := Some(subject_id))
    ensures store.subjects == Put(old(store.subjects), subject_id, r)
    ensures store.tasks == old(store.tasks) && store.submissions == old(store.submissions)
    ensures store.enrollments == old(store.enrollments) && store.users == old(store.users)
    ensures store.blobs == old(store.blobs)
  {
    r := store.PutSubjectItem(subject.(subject_id := Some(subject_id)));
  }

  /** `admin_delete_subject`: its tasks and enrollments stay. */
  method AdminDeleteSubject(store: Store, subject_id: string)
    requires store.Valid()
    modifies store
    ensures store.Valid()
    ensures store.subjects == Delete(old(store.subjects), subject_id)
    ensures store.tasks == old(store.tasks) && store.submissions == old(store.submissions)
    ensures store.enrollments == old(store.enrollments) && store.users == old(store.users)
    ensures store.blobs == old(store.blobs)
  {
    var _ := store.DeleteSubjectItem(subject_id);
  }

  /** `admin_delete_task`: the task's submissions are NOT deleted with it. */
  method AdminDeleteTask(store: Store, task_id: string)
    requires store.Valid()
    modifies store
    ensures store.Valid()
    ensures store.tasks == Delete(old(store.tasks), task_id)
    ensures GetTaskById(store.tasks, task_id).Missing?
    ensures old(TasksReadable(store.tasks)) ==> TasksReadable(store.tasks)
    ensures store.submissions == old(store.submissions) && store.enrollments == old(store.enrollments)
    ensures store.subjects == old(store.subjects) && store.users == old(store.users)
    ensures store.blobs == old(store.blobs)
  {
    var _ := store.DeleteTaskItem(task_id);
  }
}
