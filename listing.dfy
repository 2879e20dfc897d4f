/**
 * `get_student_tasks` (main.py): for every enrollment of the student, every
 * task of that subject, in query order, with its submission and its status.
 * The clock is read anew for each entry and the submission lookup may hit a
 * service error, so both are given per entry: `clock(k)` and `faults(k)`
 * for the k-th entry.
 */
module Listing {
  import opened Wrappers
  import opened IsoTime
  import opened Tables
  import opened Schemas
  import opened Storage
  import opened Status
  import opened Api

  // -----------------------------------------------------------------
  // The two loops as recursions
  // -----------------------------------------------------------------

  /** `f(x)` for every `x` of `xs`, concatenated left to right: the nested loop's visiting order. */
  function Concat<A, B>(f: A -> seq<B>, xs: seq<A>): seq<B>
  {
    if xs == [] then [] else Concat(f, xs[..|xs| - 1]) + f(xs[|xs| - 1])
  }

  /** `f(xs[m], m)` for every position `m` of `xs`: a loop body applied with its iteration count. */
  function MapIndexed<A, B>(f: (A, nat) -> B, xs: seq<A>): (r: seq<B>)
    ensures |r| == |xs|
  {
    if xs == [] then [] else MapIndexed(f, xs[..|xs| - 1]) + [f(xs[|xs| - 1], |xs| - 1)]
  }

  lemma {:induction false} MapIndexedAt<A, B>(f: (A, nat) -> B, xs: seq<A>, m: nat)
    requires m < |xs|
    ensures MapIndexed(f, xs)[m] == f(xs[m], m)
    decreases |xs|
  {
    var last := |xs| - 1;
    if m < last {
      MapIndexedAt(f, xs[..last], m);
      assert xs[..last][m] == xs[m];
    }
  }

  /** The values of the first `k` results, appended one by one; the first failing result aborts. */
  function Collect<X>(rs: seq<Result<X>>, k: nat): Result<seq<X>>
    requires k <= |rs|
  {
    if k == 0 then Ok([])
    else
      match Collect(rs, k - 1)
      case Err(e) => Err(e)
      case Ok(acc) =>
        match rs[k - 1]
        case Err(e) => Err(e)
        case Ok(x) => Ok(acc + [x])
  }

  /** The concatenation over a prefix is a prefix of the concatenation. */
  lemma {:induction false} ConcatPrefix<A, B>(f: A -> seq<B>, xs: seq<A>, k: nat)
    requires k <= |xs|
    ensures Concat(f, xs[..k]) <= Concat(f, xs)
    decreases |xs|
  {
    if k < |xs| {
      var init := xs[..|xs| - 1];
      assert xs[..k] == init[..k];
      ConcatPrefix(f, init, k);
    } else {
      assert xs[..k] == xs;
    }
  }

  /** Extending the prefix by one element appends that element's part. */
  lemma ConcatSnoc<A, B>(f: A -> seq<B>, xs: seq<A>, i: nat)
    requires i < |xs|
    ensures Concat(f, xs[..i + 1]) == Concat(f, xs[..i]) + f(xs[i])
  {
    assert xs[..i + 1][..i] == xs[..i];
  }

  /** `f(xs[i])` sits right after the concatenation over `xs[..i]`. */
  lemma ConcatSlice<A, B>(f: A -> seq<B>, xs: seq<A>, i: nat)
    requires i < |xs|
    ensures var n := |Concat(f, xs[..i])|;
      n + |f(xs[i])| <= |Concat(f, xs)| && Concat(f, xs)[n..n + |f(xs[i])|] == f(xs[i])
  {
    ConcatSnoc(f, xs, i);
    ConcatPrefix(f, xs, i + 1);
    var head, part, all := Concat(f, xs[..i]), f(xs[i]), Concat(f, xs);
    var slice := all[|head|..|head| + |part|];
    assert forall j :: 0 <= j < |part| ==> slice[j] == part[j];
  }

  /** An element is in the concatenation exactly when it is in one of the parts. */
  lemma {:induction false} ConcatMembership<A, B>(f: A -> seq<B>, xs: seq<A>, y: B)
    ensures y in Concat(f, xs) <==> exists i :: 0 <= i < |xs| && y in f(xs[i])
  {
    if xs != [] {
      var init := xs[..|xs| - 1];
      ConcatMembership(f, init, y);
      if y in Concat(f, init) {
        var i :| 0 <= i < |init| && y in f(init[i]);
        assert xs[i] == init[i];
      }
      if i :| 0 <= i < |xs| && y in f(xs[i]) {
        if i < |init| {
          assert xs[i] == init[i];
        }
      }
    }
  }

  /** Pairwise disjoint parts without repetitions concatenate to a sequence without repetitions. */
  lemma {:induction false} ConcatDistinct<A, B>(f: A -> seq<B>, xs: seq<A>)
    requires forall i :: 0 <= i < |xs| ==> Distinct(f(xs[i]))
    requires forall i, j, y :: 0 <= i < j < |xs| && y in f(xs[i]) ==> y !in f(xs[j])
    ensures Distinct(Concat(f, xs))
  {
    if xs != [] {
      var init, last := xs[..|xs| - 1], xs[|xs| - 1];
      assert forall i :: 0 <= i < |init| ==> init[i] == xs[i];
      ConcatDistinct(f, init);
      forall y | y in Concat(f, init)
        ensures y !in f(last)
      {
        ConcatMembership(f, init, y);
        var i :| 0 <= i < |init| && y in f(init[i]);
        assert xs[i] == init[i];
      }
      DistinctConcat(Concat(f, init), f(last));
    }
  }

  /** A failure among the first `a` steps is the failure of every longer run. */
  lemma {:induction false} CollectErrExtends<X>(rs: seq<Result<X>>, a: nat, b: nat)
    requires a <= b <= |rs| && Collect(rs, a).Err?
    ensures Collect(rs, b) == Collect(rs, a)
    decreases b
  {
    if a < b {
      CollectErrExtends(rs, a, b - 1);
    }
  }

  /** One more step after a successful run appends its value, or fails the whole run with its error. */
  lemma CollectStep<X>(rs: seq<Result<X>>, k: nat, acc: seq<X>)
    requires k < |rs| && Collect(rs, k) == Ok(acc)
    ensures rs[k].Ok? ==> Collect(rs, k + 1) == Ok(acc + [rs[k].value])
    ensures rs[k].Err? ==> Collect(rs, |rs|) == Err(rs[k].error)
  {
    if rs[k].Err? {
      CollectErrExtends(rs, k + 1, |rs|);
    }
  }

  /** A successful run of `k` steps holds the result of each step, at its position. */
  lemma {:induction false} CollectShape<X>(rs: seq<Result<X>>, k: nat)
    requires k <= |rs| && Collect(rs, k).Ok?
    ensures |Collect(rs, k).value| == k
    ensures forall m :: 0 <= m < k ==> rs[m] == Ok(Collect(rs, k).value[m])
  {
    if k > 0 {
      CollectShape(rs, k - 1);
    }
  }

  /** A run of `k` steps succeeds exactly when each of its steps does. */
  lemma {:induction false} CollectOkIff<X>(rs: seq<Result<X>>, k: nat)
    requires k <= |rs|
    ensures Collect(rs, k).Ok? <==> forall m :: 0 <= m < k ==> rs[m].Ok?
  {
    if k > 0 {
      CollectOkIff(rs, k - 1);
    }
  }

  /** A failed run fails with the error of one of its steps. */
  lemma {:induction false} CollectErrors<X>(rs: seq<Result<X>>, k: nat)
    requires k <= |rs| && Collect(rs, k).Err?
    ensures exists m :: 0 <= m < k && rs[m] == Err(Collect(rs, k).error)
  {
    if Collect(rs, k - 1).Err? {
      CollectErrors(rs, k - 1);
    } else {
      assert rs[k - 1] == Err(Collect(rs, k).error);
    }
  }

  // -----------------------------------------------------------------
  // The listing
  // -----------------------------------------------------------------

  /** The tasks of an enrollment's subject, in query order. */
  function SubjectTasks(tasks: Table<string, TaskItem>): Enrollment -> seq<TaskItem>
  {
    (e: Enrollment) => GetTasksForSubject(tasks, e.subject_id)
  }

  /** The task items visited: enrollment by enrollment, each subject's tasks in query order. */
  function Visits(tasks: Table<string, TaskItem>, es: seq<Enrollment>): seq<TaskItem>
  {
    Concat(SubjectTasks(tasks), es)
  }

  /** The entry of one visited task, or the failure of `TaskInDB(**get_task_by_id_from_db(...))`. */
  function Entry(tasks: Table<string, TaskItem>, submissions: Table<string, SubmissionItem>,
                 user_id: string, item: TaskItem, now: Instant, fault: bool): Result<StudentTask>
  {
    match GetTaskById(tasks, item.task_id)
    case Found(task) =>
      var submission := GetSubmission(submissions, user_id, task.task_id, fault);
      Ok(StudentTask(task, ResolveStatus(now, task.fecha_entrega, task.fecha_caducidad, submission.Some?),
                     submission))
    case _ => Err(Unhandled)
  }

  /** The entry of each visited item, the `m`-th read at `clock(m)` with lookup fault `faults(m)`. */
  function Entries(tasks: Table<string, TaskItem>, submissions: Table<string, SubmissionItem>,
                   user_id: string, items: seq<TaskItem>, clock: nat -> Instant, faults: nat -> bool)
    : seq<Result<StudentTask>>
  {
    MapIndexed((item: TaskItem, m: nat) => Entry(tasks, submissions, user_id, item, clock(m), faults(m)), items)
  }

  /** The `m`-th entry is the entry of the `m`-th visited item. */
  lemma EntriesAt(tasks: Table<string, TaskItem>, submissions: Table<string, SubmissionItem>,
                  user_id: string, items: seq<TaskItem>, clock: nat -> Instant, faults: nat -> bool, m: nat)
    requires m < |items|
    ensures |Entries(tasks, submissions, user_id, items, clock, faults)| == |items|
    ensures Entries(tasks, submissions, user_id, items, clock, faults)[m]
            == Entry(tasks, submissions, user_id, items[m], clock(m), faults(m))
  {
    var f := (item: TaskItem, k: nat) => Entry(tasks, submissions, user_id, item, clock(k), faults(k));
    MapIndexedAt(f, items, m);
  }

  /** `entries` holds, from position `n0` on, the entries of the items of `part`. */
  ghost predicate EntriesOf(entries: seq<Result<StudentTask>>, tasks: Table<string, TaskItem>,
                            submissions: Table<string, SubmissionItem>, user_id: string,
                            clock: nat -> Instant, faults: nat -> bool, n0: nat, part: seq<TaskItem>)
  {
    && n0 + |part| <= |entries|
    && forall m {:trigger clock(m)} :: n0 <= m < n0 + |part| ==>
         entries[m] == Entry(tasks, submissions, user_id, part[m - n0], clock(m), faults(m))
  }

  /** The entries of a run of consecutive items within a run are the entries of that inner run. */
  lemma EntriesOfPart(entries: seq<Result<StudentTask>>, tasks: Table<string, TaskItem>,
                      submissions: Table<string, SubmissionItem>, user_id: string,
                      clock: nat -> Instant, faults: nat -> bool, items: seq<TaskItem>, n0: nat, part: seq<TaskItem>)
    requires EntriesOf(entries, tasks, submissions, user_id, clock, faults, 0, items)
    requires n0 + |part| <= |items| && items[n0..n0 + |part|] == part
    ensures EntriesOf(entries, tasks, submissions, user_id, clock, faults, n0, part)
  {
    forall m | n0 <= m < n0 + |part|
      ensures entries[m] == Entry(tasks, submissions, user_id, part[m - n0], clock(m), faults(m))
    {
      assert part[m - n0] == items[n0..n0 + |part|][m - n0] == items[m];
    }
  }

  /** The entries of a run of consecutive visited items are the entries of those items. */
  lemma EntriesOfSlice(tasks: Table<string, TaskItem>, submissions: Table<string, SubmissionItem>,
                       user_id: string, items: seq<TaskItem>, clock: nat -> Instant, faults: nat -> bool,
                       n0: nat, part: seq<TaskItem>)
    requires n0 + |part| <= |items| && items[n0..n0 + |part|] == part
    ensures EntriesOf(Entries(tasks, submissions, user_id, items, clock, faults),
                      tasks, submissions, user_id, clock, faults, n0, part)
  {
    var entries := Entries(tasks, submissions, user_id, items, clock, faults);
    forall m | n0 <= m < n0 + |part|
      ensures entries[m] == Entry(tasks, submissions, user_id, part[m - n0], clock(m), faults(m))
    {
      EntriesAt(tasks, submissions, user_id, items, clock, faults, m);
      assert items[m] == items[n0..n0 + |part|][m - n0];
    }
  }

  /** What the student's task listing returns. */
  function StudentTasks(store: Store, user_id: string, clock: nat -> Instant, faults: nat -> bool)
    : (r: Result<seq<StudentTask>>)
    reads store
    requires store.Valid()
    ensures r.Ok? ==> |r.value| == |Visits(store.tasks, GetStudentSubjects(store.enrollments, user_id))|
  {
    var v := Visits(store.tasks, GetStudentSubjects(store.enrollments, user_id));
    var rs := Entries(store.tasks, store.submissions, user_id, v, clock, faults);
    var r := Collect(rs, |v|);
    assert r.Ok? ==> |r.value| == |v| by {
      if r.Ok? {
        CollectShape(rs, |v|);
      }
    }
    r
  }

  /** `get_student_tasks`, for students. */
  method GetStudentTasks(store: Store, caller: Caller, clock: nat -> Instant, faults: nat -> bool)
    returns (r: Result<seq<StudentTask>>)
    requires store.Valid() && caller.rol == Student
    ensures r == StudentTasks(store, caller.user_id, clock, faults)
  {
    var student_subjects := GetStudentSubjects(store.enrollments, caller.user_id);
    ghost var visits := Visits(store.tasks, student_subjects);
    ghost var entries := Entries(store.tasks, store.submissions, caller.user_id, visits, clock, faults);
    assert visits[0..|visits|] == visits;
    EntriesOfSlice(store.tasks, store.submissions, caller.user_id, visits, clock, faults, 0, visits);
    r := ListStudentTasks(store.tasks, store.submissions, caller.user_id, clock, faults, student_subjects, entries);
  }

  /** The outer loop of `get_student_tasks`: the tasks of each enrollment's subject, in turn. */
  method ListStudentTasks(tasks: Table<string, TaskItem>, submissions: Table<string, SubmissionItem>,
      user_id: string, clock: nat -> Instant, faults: nat -> bool, student_subjects: seq<Enrollment>,
      ghost entries: seq<Result<StudentTask>>)
    returns (r: Result<seq<StudentTask>>)
    requires |entries| == |Visits(tasks, student_subjects)|
    requires EntriesOf(entries, tasks, submissions, user_id, clock, faults, 0, Visits(tasks, student_subjects))
    ensures r == Collect(entries, |Visits(tasks, student_subjects)|)
  {
    ghost var per := SubjectTasks(tasks);
    ghost var visits := Concat(per, student_subjects);
    var all_tasks: seq<StudentTask> := [];
    var n: nat := 0;
    for i := 0 to |student_subjects|
      invariant n == |Concat(per, student_subjects[..i])| <= |visits|
      invariant Collect(entries, n) == Ok(all_tasks)
    {
      var subject_tasks := GetTasksForSubject(tasks, student_subjects[i].subject_id);
      ConcatSnoc(per, student_subjects, i);
      assert per(student_subjects[i]) == subject_tasks;
      ConcatSlice(per, student_subjects, i);
      EntriesOfPart(entries, tasks, submissions, user_id, clock, faults, visits, n, subject_tasks);
      var listed := ListSubjectTasks(tasks, submissions, user_id, clock, faults, entries, subject_tasks, n, all_tasks);
      if listed.Err? {
        return listed;
      }
      all_tasks := listed.value;
      n := n + |subject_tasks|;
    }
    assert student_subjects[..|student_subjects|] == student_subjects;
    r := Ok(all_tasks);
  }

  /**
   * The inner loop of `get_student_tasks`: the entries of one subject's
   * tasks, which sit at positions `n0`.. of the visits, appended to the
   * listing so far; a task that does not read back aborts the whole listing.
   */
  method ListSubjectTasks(tasks: Table<string, TaskItem>, submissions: Table<string, SubmissionItem>,
                          user_id: string, clock: nat -> Instant, faults: nat -> bool,
                          ghost entries: seq<Result<StudentTask>>,
                          subject_tasks: seq<TaskItem>, n0: nat, acc0: seq<StudentTask>)
    returns (r: Result<seq<StudentTask>>)
    requires EntriesOf(entries, tasks, submissions, user_id, clock, faults, n0, subject_tasks)
    requires Collect(entries, n0) == Ok(acc0)
    ensures r.Ok? ==> Collect(entries, n0 + |subject_tasks|) == Ok(r.value)
    ensures r.Err? ==> Collect(entries, |entries|) == r
  {
    var all_tasks := acc0;
    for m := n0 to n0 + |subject_tasks|
      invariant Collect(entries, m) == Ok(all_tasks)
    {
      var entry := ReadEntry(tasks, submissions, user_id, subject_tasks[m - n0], clock(m), faults(m));
      CollectStep(entries, m, all_tasks);
      if entry.Err? {
        return Err(entry.error);
      }
      all_tasks := all_tasks + [entry.value];
    }
    r := Ok(all_tasks);
  }

  /** The body of the inner loop: read the task back, look up the student's submission, resolve the status. */
  method ReadEntry(tasks: Table<string, TaskItem>, submissions: Table<string, SubmissionItem>,
                   user_id: string, item: TaskItem, now: Instant, fault: bool)
    returns (r: Result<StudentTask>)
    ensures r == Entry(tasks, submissions, user_id, item, now, fault)
  {
    match GetTaskById(tasks, item.task_id)
    case Found(task) =>
      var submission := GetSubmission(submissions, user_id, task.task_id, fault);
      var status := ResolveStatus(now, task.fecha_entrega, task.fecha_caducidad, submission.Some?);
      r := Ok(StudentTask(task, status, submission));
    case _ =>
      r := Err(Unhandled);
  }

  /** One entry fails exactly when its task cannot be read back. */
  lemma EntryOk(tasks: Table<string, TaskItem>, submissions: Table<string, SubmissionItem>,
                user_id: string, item: TaskItem, now: Instant, fault: bool)
    ensures Entry(tasks, submissions, user_id, item, now, fault).Ok? <==> GetTaskById(tasks, item.task_id).Found?
  {
  }

  // -----------------------------------------------------------------
  // What the listing contains
  // -----------------------------------------------------------------

  /** A student's enrollments are in pairwise different subjects. */
  lemma StudentSubjectsDifferent(enrollments: Table<(string, string), Enrollment>, user_id: string)
    requires EnrollmentsTable(enrollments)
    ensures var es := GetStudentSubjects(enrollments, user_id);
      forall i, j :: 0 <= i < j < |es| ==> es[i].subject_id != es[j].subject_id
  {
    var es := GetStudentSubjects(enrollments, user_id);
    StudentSubjectsDistinct(enrollments, user_id);
    StudentSubjectsMembers(enrollments, user_id);
    forall i, j | 0 <= i < j < |es|
      ensures es[i].subject_id != es[j].subject_id
    {
      assert es[i] in enrollments.items.Values && es[j] in enrollments.items.Values;
      var ki :| ki in enrollments.items && enrollments.items[ki] == es[i];
      var kj :| kj in enrollments.items && enrollments.items[kj] == es[j];
      assert EnrollmentKey(es[i]) == ki && EnrollmentKey(es[j]) == kj;
    }
  }

  /** A student's listing visits no task twice. */
  lemma StudentVisitsDistinct(tasks: Table<string, TaskItem>, enrollments: Table<(string, string), Enrollment>,
                              user_id: string)
    requires TasksTable(tasks) && EnrollmentsTable(enrollments)
    ensures Distinct(Visits(tasks, GetStudentSubjects(enrollments, user_id)))
  {
    var es := GetStudentSubjects(enrollments, user_id);
    var f := SubjectTasks(tasks);
    StudentSubjectsDifferent(enrollments, user_id);
    forall i, j, y | 0 <= i < j < |es| && y in f(es[i])
      ensures y !in f(es[j])
    {
      TasksForSubjectMembers(tasks, es[i].subject_id);
      TasksForSubjectMembers(tasks, es[j].subject_id);
    }
    forall i | 0 <= i < |es|
      ensures Distinct(f(es[i]))
    {
      TasksForSubjectDistinct(tasks, es[i].subject_id);
    }
    ConcatDistinct(f, es);
  }

  /** A student's listing visits exactly the stored tasks of the subjects the student is enrolled in. */
  lemma StudentVisitsMembership(tasks: Table<string, TaskItem>, enrollments: Table<(string, string), Enrollment>,
                                user_id: string, t: TaskItem)
    requires TasksTable(tasks) && EnrollmentsTable(enrollments)
    ensures t in Visits(tasks, GetStudentSubjects(enrollments, user_id)) <==>
      t in tasks.items.Values
      && exists e :: e in enrollments.items.Values && e.user_id == user_id && e.subject_id == t.subject_id
  {
    var es := GetStudentSubjects(enrollments, user_id);
    var f := SubjectTasks(tasks);
    ConcatMembership(f, es, t);
    StudentSubjectsMembers(enrollments, user_id);
    if t in Concat(f, es) {
      var i :| 0 <= i < |es| && t in f(es[i]);
      TasksForSubjectMembers(tasks, es[i].subject_id);
      assert es[i] in enrollments.items.Values && es[i].user_id == user_id;
    }
    if e :| e in enrollments.items.Values && e.user_id == user_id && e.subject_id == t.subject_id {
      var i :| 0 <= i < |es| && es[i] == e;
      TasksForSubjectMembers(tasks, e.subject_id);
      assert t in tasks.items.Values ==> t in f(es[i]);
    }
  }

  /**
   * The visits of a student's listing: every task of every subject the
   * student is enrolled in, each exactly once.
   */
  lemma ListingVisitsEachTaskOnce(store: Store, user_id: string)
    requires store.Valid()
    ensures var v := Visits(store.tasks, GetStudentSubjects(store.enrollments, user_id));
      && Distinct(v)
      && forall t :: t in v <==>
           t in store.tasks.items.Values
           && exists e :: e in store.enrollments.items.Values && e.user_id == user_id && e.subject_id == t.subject_id
  {
    StudentVisitsDistinct(store.tasks, store.enrollments, user_id);
    forall t {
      StudentVisitsMembership(store.tasks, store.enrollments, user_id, t);
    }
  }

  /**
   * Each successful listing entry is the visited task as read back, the
   * first submission found for it, and the status the chain gives for the
   * clock reading of that entry.
   */
  lemma ListingEntries(store: Store, user_id: string, clock: nat -> Instant, faults: nat -> bool)
    requires store.Valid()
    requires StudentTasks(store, user_id, clock, faults).Ok?
    ensures var v := Visits(store.tasks, GetStudentSubjects(store.enrollments, user_id));
      var r := StudentTasks(store, user_id, clock, faults).value;
      && |r| == |v|
      && forall k :: 0 <= k < |v| ==>
           && GetTaskById(store.tasks, v[k].task_id) == Found(r[k].task)
           && r[k].task.task_id == v[k].task_id
           && r[k].submission == GetSubmission(store.submissions, user_id, v[k].task_id, faults(k))
           && r[k].status == ResolveStatus(clock(k), r[k].task.fecha_entrega, r[k].task.fecha_caducidad,
                                           r[k].submission.Some?)
  {
    var v := Visits(store.tasks, GetStudentSubjects(store.enrollments, user_id));
    var rs := Entries(store.tasks, store.submissions, user_id, v, clock, faults);
    CollectShape(rs, |v|);
    var r := Collect(rs, |v|).value;
    forall k | 0 <= k < |v|
      ensures && GetTaskById(store.tasks, v[k].task_id) == Found(r[k].task)
              && r[k].task.task_id == v[k].task_id
              && r[k].submission == GetSubmission(store.submissions, user_id, v[k].task_id, faults(k))
              && r[k].status == ResolveStatus(clock(k), r[k].task.fecha_entrega, r[k].task.fecha_caducidad,
                                              r[k].submission.Some?)
    {
      assert rs[k] == Ok(r[k]);
      EntriesAt(store.tasks, store.submissions, user_id, v, clock, faults, k);
      EntryOk(store.tasks, store.submissions, user_id, v[k], clock(k), faults(k));
    }
  }

  /** In a store whose task timestamps all parse, the listing never fails. */
  lemma ListingSucceeds(store: Store, user_id: string, clock: nat -> Instant, faults: nat -> bool)
    requires store.Valid() && TasksReadable(store.tasks)
    ensures StudentTasks(store, user_id, clock, faults).Ok?
  {
    var es := GetStudentSubjects(store.enrollments, user_id);
    var v := Visits(store.tasks, es);
    var rs := Entries(store.tasks, store.submissions, user_id, v, clock, faults);
    forall m | 0 <= m < |v|
      ensures rs[m].Ok?
    {
      ConcatMembership(SubjectTasks(store.tasks), es, v[m]);
      var i :| 0 <= i < |es| && v[m] in SubjectTasks(store.tasks)(es[i]);
      TasksForSubjectMembers(store.tasks, es[i].subject_id);
      var key :| key in store.tasks.items && store.tasks.items[key] == v[m];
      assert TaskKey(v[m]) == key;
      assert GetTaskById(store.tasks, v[m].task_id).Found?;
      EntryOk(store.tasks, store.submissions, user_id, v[m], clock(m), faults(m));
      EntriesAt(store.tasks, store.submissions, user_id, v, clock, faults, m);
    }
    CollectOkIff(rs, |v|);
  }

  /**
   * The listing succeeds exactly when every visited task reads back;
   * otherwise it is the unhandled exception of the first one that does not.
   */
  lemma ListingOkIff(store: Store, user_id: string, clock: nat -> Instant, faults: nat -> bool)
    requires store.Valid()
    ensures var v := Visits(store.tasks, GetStudentSubjects(store.enrollments, user_id));
      var r := StudentTasks(store, user_id, clock, faults);
      && (r.Ok? <==> forall m :: 0 <= m < |v| ==> GetTaskById(store.tasks, v[m].task_id).Found?)
      && (r.Err? ==> r.error == Unhandled)
  {
    var v := Visits(store.tasks, GetStudentSubjects(store.enrollments, user_id));
    var rs := Entries(store.tasks, store.submissions, user_id, v, clock, faults);
    forall m | 0 <= m < |v|
      ensures rs[m].Ok? <==> GetTaskById(store.tasks, v[m].task_id).Found?
      ensures rs[m].Err? ==> rs[m].error == Unhandled
    {
      EntriesAt(store.tasks, store.submissions, user_id, v, clock, faults, m);
      EntryOk(store.tasks, store.submissions, user_id, v[m], clock(m), faults(m));
    }
    CollectOkIff(rs, |v|);
    if Collect(rs, |v|).Err? {
      CollectErrors(rs, |v|);
    }
  }
}
