/**
 * services/storage.py: the DynamoDB tables and the S3 bucket as one
 * in-memory store. Every operation that catches `ClientError` takes a
 * `fault` flag saying whether the service raised it; the operation then
 * returns its sentinel (`None`, `False` or `[]`) and changes nothing.
 * The reads are functions of the tables they query; the class holds the
 * tables and performs the writes.
 */
module Storage {
  import opened Wrappers
  import opened IsoTime
  import opened Tables
  import opened Schemas

  ghost predicate TasksTable(t: Table<string, TaskItem>) {
    Tables.Valid(t) && KeyedBy(t, TaskKey)
  }

  ghost predicate SubmissionsTable(t: Table<string, SubmissionItem>) {
    Tables.Valid(t) && KeyedBy(t, SubmissionKey)
  }

  ghost predicate EnrollmentsTable(t: Table<(string, string), Enrollment>) {
    Tables.Valid(t) && KeyedBy(t, EnrollmentKey)
  }

  ghost predicate SubjectsTable(t: Table<string, Subject>) {
    Tables.Valid(t) && forall k :: k in t.items ==> t.items[k].subject_id == Some(k)
  }

  ghost predicate UsersTable(t: Table<string, User>) {
    Tables.Valid(t) && KeyedBy(t, UserKey)
  }

  /** Every stored task has timestamps that `fromisoformat` accepts. */
  ghost predicate TasksReadable(tasks: Table<string, TaskItem>) {
    forall k :: k in tasks.items ==> ReadTask(tasks.items[k]).Found?
  }

  // -------------------------------------------------------------------
  // Reads: functions of the tables they query
  // -------------------------------------------------------------------

  /** `get_task_by_id_from_db`: the stored task with its timestamps parsed. */
  function GetTaskById(tasks: Table<string, TaskItem>, task_id: string): (r: TaskRead)
    ensures r.Missing? <==> task_id !in tasks.items
    ensures task_id in tasks.items ==> r == ReadTask(tasks.items[task_id])
  {
    match Get(tasks, task_id)
    case None => Missing
    case Some(item) => ReadTask(item)
  }

  /** `is_student_enrolled`: an enrollment record for this user and subject exists. */
  predicate IsStudentEnrolled(enrollments: Table<(string, string), Enrollment>, user_id: string, subject_id: string)
    requires EnrollmentsTable(enrollments)
    ensures IsStudentEnrolled(enrollments, user_id, subject_id) <==>
      exists e :: e in enrollments.items.Values && e.user_id == user_id && e.subject_id == subject_id
  {
    var k := (subject_id, user_id);
    assert k in enrollments.items ==> enrollments.items[k] in enrollments.items.Values;
    k in enrollments.items
  }

  /** The key condition of the `user-subject-index` query. */
  function ByUser(user_id: string): Enrollment -> bool {
    (e: Enrollment) => e.user_id == user_id
  }

  /** The key condition of the `subject-tasks-index` query. */
  function BySubject(subject_id: string): TaskItem -> bool {
    (t: TaskItem) => t.subject_id == subject_id
  }

  /** `get_student_subjects`: the enrollments of a user (index `user-subject-index`, `StudentSubjectsMembers`). */
  function GetStudentSubjects(enrollments: Table<(string, string), Enrollment>, user_id: string): (r: seq<Enrollment>)
    requires EnrollmentsTable(enrollments)
    ensures |r| <= |enrollments.items|
  {
    DistinctCard(enrollments);
    Select(enrollments, ByUser(user_id))
  }

  /** The enrollments of a user are exactly the stored enrollments with that user. */
  lemma StudentSubjectsMembers(enrollments: Table<(string, string), Enrollment>, user_id: string)
    requires EnrollmentsTable(enrollments)
    ensures forall e :: e in GetStudentSubjects(enrollments, user_id) <==>
      e in enrollments.items.Values && e.user_id == user_id
  {
    SelectMembers(enrollments, ByUser(user_id));
  }

  /** A user's enrollments come back once each. */
  lemma StudentSubjectsDistinct(enrollments: Table<(string, string), Enrollment>, user_id: string)
    requires EnrollmentsTable(enrollments)
    ensures Distinct(GetStudentSubjects(enrollments, user_id))
  {
    SelectDistinct(enrollments, ByUser(user_id), EnrollmentKey);
  }

  /** `get_tasks_for_subject`: the stored tasks of a subject (index `subject-tasks-index`, `TasksForSubjectMembers`). */
  function GetTasksForSubject(tasks: Table<string, TaskItem>, subject_id: string): (r: seq<TaskItem>)
    ensures |r| <= |tasks.order|
  {
    Select(tasks, BySubject(subject_id))
  }

  /** The tasks of a subject are exactly the stored tasks with that subject. */
  lemma TasksForSubjectMembers(tasks: Table<string, TaskItem>, subject_id: string)
    requires TasksTable(tasks)
    ensures forall t :: t in GetTasksForSubject(tasks, subject_id) <==>
      t in tasks.items.Values && t.subject_id == subject_id
  {
    SelectMembers(tasks, BySubject(subject_id));
  }

  /** A subject's tasks come back once each. */
  lemma TasksForSubjectDistinct(tasks: Table<string, TaskItem>, subject_id: string)
    requires TasksTable(tasks)
    ensures Distinct(GetTasksForSubject(tasks, subject_id))
  {
    SelectDistinct(tasks, BySubject(subject_id), TaskKey);
  }

  /** `get_students_for_subject`: the enrollments of a subject, or `[]` on a service error. */
  function GetStudentsForSubject(enrollments: Table<(string, string), Enrollment>, subject_id: string, fault: bool)
    : (r: seq<Enrollment>)
    requires EnrollmentsTable(enrollments)
    ensures fault ==> r == []
    ensures !fault ==> forall e :: e in r <==> e in enrollments.items.Values && e.subject_id == subject_id
  {
    var p := (e: Enrollment) => e.subject_id == subject_id;
    SelectMembers(enrollments, p);
    if fault then [] else Select(enrollments, p)
  }

  /** The key condition of the `user-task-index` query. */
  function ByUserAndTask(user_id: string, task_id: string): SubmissionItem -> bool {
    (s: SubmissionItem) => s.user_id == user_id && s.task_id == task_id
  }

  /**
   * `get_submission`: the first record, in query order, of this user for
   * this task; `None` when there is none or the service raised
   * (`SubmissionFound`).
   */
  function GetSubmission(submissions: Table<string, SubmissionItem>, user_id: string, task_id: string, fault: bool)
    : (r: Option<SubmissionItem>)
    ensures fault ==> r.None?
  {
    if fault then None
    else
      var items := Select(submissions, ByUserAndTask(user_id, task_id));
      if items != [] then Some(items[0]) else None
  }

  /**
   * Without a service error, `get_submission` finds a record exactly when
   * the user has one for the task, and it is the first such in query order.
   */
  lemma SubmissionFound(submissions: Table<string, SubmissionItem>, user_id: string, task_id: string, fault: bool)
    requires SubmissionsTable(submissions)
    ensures var r := GetSubmission(submissions, user_id, task_id, fault);
      && (!fault && r.None? ==>
            forall s :: s in submissions.items.Values ==> !(s.user_id == user_id && s.task_id == task_id))
      && (r.Some? ==>
            && r.value in submissions.items.Values && r.value.user_id == user_id && r.value.task_id == task_id
            && exists i :: 0 <= i < |submissions.order| && submissions.items[submissions.order[i]] == r.value
                 && forall j :: 0 <= j < i ==>
                      !(submissions.items[submissions.order[j]].user_id == user_id
                        && submissions.items[submissions.order[j]].task_id == task_id))
  {
    SelectMembers(submissions, ByUserAndTask(user_id, task_id));
    SelectFirst(submissions, ByUserAndTask(user_id, task_id));
  }

  class Store {
    var tasks: Table<string, TaskItem>
    var submissions: Table<string, SubmissionItem>
    var enrollments: Table<(string, string), Enrollment>
    var subjects: Table<string, Subject>
    var users: Table<string, User>
    /** Object keys present in the task bucket. */
    var blobs: set<string>

    /** Every table is well formed and keeps each item under its own primary key. */
    ghost predicate Valid()
      reads this
    {
      && TasksTable(tasks) && SubmissionsTable(submissions) && EnrollmentsTable(enrollments)
      && SubjectsTable(subjects) && UsersTable(users)
    }

    constructor ()
      ensures Valid() && TasksReadable(tasks)
      ensures tasks.items == map[] && submissions.items == map[] && enrollments.items == map[]
      ensures subjects.items == map[] && users.items == map[] && blobs == {}
    {
      tasks, submissions, enrollments := Empty(), Empty(), Empty();
      subjects, users, blobs := Empty(), Empty(), {};
    }

    // ---------------------------------------------------------------
    // Writes (`put_item`, `delete_item`, and the submission helpers)
    // ---------------------------------------------------------------

    /** `put_item` on the Tasks table: returns the item it stored. */
    method PutTaskItem(item: TaskItem) returns (r: TaskItem)
      requires Valid()
      modifies this`tasks
      ensures Valid()
      ensures r == item
      ensures tasks == Put(old(tasks), item.task_id, item)
    {
      tasks := Put(tasks, item.task_id, item);
      r := item;
    }

    /** `delete_item` on the Tasks table: always reports success. */
    method DeleteTaskItem(task_id: string) returns (ok: bool)
      requires Valid()
      modifies this`tasks
      ensures Valid()
      ensures ok
      ensures tasks == Delete(old(tasks), task_id)
    {
      tasks := Delete(tasks, task_id);
      ok := true;
    }

    /** `put_item` on the Enrollments table, keyed by (subject_id, user_id). */
    method PutEnrollmentItem(e: Enrollment) returns (r: Enrollment)
      requires Valid()
      modifies this`enrollments
      ensures Valid()
      ensures r == e
      ensures enrollments == Put(old(enrollments), EnrollmentKey(e), e)
    {
      enrollments := Put(enrollments, EnrollmentKey(e), e);
      r := e;
    }

    /** `put_item` on the Subjects table; the callers always set the key first. */
    method PutSubjectItem(s: Subject) returns (r: Subject)
      requires Valid()
      requires s.subject_id.Some?
      modifies this`subjects
      ensures Valid()
      ensures r == s
      ensures subjects == Put(old(subjects), s.subject_id.value, s)
    {
      subjects := Put(subjects, s.subject_id.value, s);
      r := s;
    }

    /** `delete_item` on the Subjects table. */
    method DeleteSubjectItem(subject_id: string) returns (ok: bool)
      requires Valid()
      modifies this`subjects
      ensures Valid()
      ensures ok
      ensures subjects == Delete(old(subjects), subject_id)
    {
      subjects := Delete(subjects, subject_id);
      ok := true;
    }

    /** `put_item` on the Users table. */
    method PutUserItem(u: User) returns (r: User)
      requires Valid()
      modifies this`users
      ensures Valid()
      ensures r == u
      ensures users == Put(old(users), u.user_id, u)
    {
      users := Put(users, u.user_id, u);
      r := u;
    }

    /** `delete_item` on the Users table. */
    method DeleteUserItem(user_id: string) returns (ok: bool)
      requires Valid()
      modifies this`users
      ensures Valid()
      ensures ok
      ensures users == Delete(old(users), user_id)
    {
      users := Delete(users, user_id);
      ok := true;
    }

    /**
     * `create_submission_db`: store the record with `fecha_entrega` as an
     * ISO string and return that item, or `None` on a service error.
     */
    method CreateSubmissionDb(s: Submission, fault: bool) returns (r: Option<SubmissionItem>)
      requires Valid()
      modifies this`submissions
      ensures Valid()
      ensures fault ==> r.None? && submissions == old(submissions)
      ensures !fault ==> r == Some(SubmissionToItem(s))
      ensures !fault ==> submissions == Put(old(submissions), s.submission_id, SubmissionToItem(s))
    {
      if fault {
        r := None;
      } else {
        var item := SubmissionToItem(s);
        submissions := Put(submissions, s.submission_id, item);
        r := Some(item);
      }
    }

    /** `delete_submission_db`: remove the record keyed by this id; `False` on a service error. */
    method DeleteSubmissionDb(submission_id: string, fault: bool) returns (ok: bool)
      requires Valid()
      modifies this`submissions
      ensures Valid()
      ensures ok == !fault
      ensures submissions == if fault then old(submissions) else Delete(old(submissions), submission_id)
    {
      if fault {
        ok := false;
      } else {
        submissions := Delete(submissions, submission_id);
        ok := true;
      }
    }

    /**
     * `delete_s3_object`: S3 deletes a key whether or not it exists; `False`
     * on a service error, with the bucket left as it was.
     */
    method DeleteS3Object(object_name: string, fault: bool) returns (ok: bool)
      modifies this`blobs
      ensures ok == !fault
      ensures blobs == if fault then old(blobs) else old(blobs) - {object_name}
    {
      if fault {
        ok := false;
      } else {
        blobs := blobs - {object_name};
        ok := true;
      }
    }
  }
}
