/**
 * The records the handlers and the store exchange. `Role` comes from
 * models/schemas.py; the task, submission and listing records are the ones
 * main.py builds and services/storage.py stores, with their fields taken
 * from how the code uses them.
 */
module Schemas {
  import opened Wrappers
  import opened IsoTime

  /** "administrador", "docente", "estudiante". */
  datatype Role = Admin | Teacher | Student

  /** The authenticated caller (`TokenData`): user id and role from the token. */
  datatype Caller = Caller(user_id: string, rol: Role)

  /** Derived per task on every listing; never stored. */
  datatype SubmissionStatus = Entregado | Inactivo | Caducado | Pendiente

  /** The body of a task-creation request (`TaskCreate`). */
  datatype TaskCreate = TaskCreate(subject_id: string, titulo: string,
                                   fecha_creacion: Instant, fecha_entrega: Instant,
                                   fecha_caducidad: Instant)

  /** A task with parsed timestamps (`TaskInDB`). */
  datatype Task = Task(task_id: string, subject_id: string, titulo: string,
                       fecha_creacion: Instant, fecha_entrega: Instant, fecha_caducidad: Instant)

  /** A task as the Tasks table holds it: the timestamps are ISO strings. */
  datatype TaskItem = TaskItem(task_id: string, subject_id: string, titulo: string,
                               fecha_creacion: string, fecha_entrega: string, fecha_caducidad: string)

  /** A submission record before it is stored (`SubmissionInDB`). */
  datatype Submission = Submission(submission_id: string, task_id: string, user_id: string,
                                   subject_id: string, s3_object_name: string, fecha_entrega: Instant)

  /** A submission as the Submissions table holds and returns it. */
  datatype SubmissionItem = SubmissionItem(submission_id: string, task_id: string, user_id: string,
                                           subject_id: string, s3_object_name: string, fecha_entrega: string)

  datatype Enrollment = Enrollment(user_id: string, subject_id: string)

  datatype Subject = Subject(subject_id: Option<string>, nombre_materia: string, descripcion: string)

  datatype UserCreate = UserCreate(nombre: string, rol: Role)

  datatype User = User(user_id: string, nombre: string, rol: Role)

  /** One entry of a student's task listing: the task, its status and the submission found. */
  datatype StudentTask = StudentTask(task: Task, status: SubmissionStatus, submission: Option<SubmissionItem>)

  /**
   * What reading a task by id yields: no item, the item with its timestamps
   * parsed, or an item whose timestamp strings `fromisoformat` rejects (it
   * raises `ValueError`, which nothing catches).
   */
  datatype TaskRead = Missing | Found(task: Task) | Malformed

  // Primary keys of the tables, taken from the item as `put_item` does.
  function TaskKey(t: TaskItem): string { t.task_id }
  function SubmissionKey(s: SubmissionItem): string { s.submission_id }
  function EnrollmentKey(e: Enrollment): (string, string) { (e.subject_id, e.user_id) }
  function UserKey(u: User): string { u.user_id }

  /**
   * The conversion `get_task_by_id_from_db` applies to a stored item: the
   * three timestamps go through `fromisoformat`, every other field is kept.
   */
  function ReadTask(item: TaskItem): (r: TaskRead)
    ensures !r.Missing?
    ensures r.Found? <==>
      Parse(item.fecha_creacion).Some? && Parse(item.fecha_entrega).Some? && Parse(item.fecha_caducidad).Some?
    ensures r.Found? ==>
      && r.task.task_id == item.task_id && r.task.subject_id == item.subject_id && r.task.titulo == item.titulo
      && Parse(item.fecha_creacion) == Some(r.task.fecha_creacion)
      && Parse(item.fecha_entrega) == Some(r.task.fecha_entrega)
      && Parse(item.fecha_caducidad) == Some(r.task.fecha_caducidad)
  {
    match Parse(item.fecha_creacion)
    case None => Malformed
    case Some(c) =>
      match Parse(item.fecha_entrega)
      case None => Malformed
      case Some(e) =>
        match Parse(item.fecha_caducidad)
        case None => Malformed
        case Some(x) => Found(Task(item.task_id, item.subject_id, item.titulo, c, e, x))
  }

  /**
   * The item `create_task` writes: the task with its three timestamps
   * rendered by `isoformat`. Reading it back gives the same task.
   */
  function TaskToItem(t: Task): (item: TaskItem)
    ensures TaskKey(item) == t.task_id
    ensures ReadTask(item) == Found(t)
  {
    ParseFormat(t.fecha_creacion);
    ParseFormat(t.fecha_entrega);
    ParseFormat(t.fecha_caducidad);
    TaskItem(t.task_id, t.subject_id, t.titulo,
             Format(t.fecha_creacion), Format(t.fecha_entrega), Format(t.fecha_caducidad))
  }

  /**
   * The item `create_submission_db` stores: the submission with
   * `fecha_entrega` rendered by `isoformat`, which parses back to the same time.
   */
  function SubmissionToItem(s: Submission): (item: SubmissionItem)
    ensures SubmissionKey(item) == s.submission_id
    ensures item.task_id == s.task_id && item.user_id == s.user_id && item.subject_id == s.subject_id
    ensures item.s3_object_name == s.s3_object_name
    ensures Parse(item.fecha_entrega) == Some(s.fecha_entrega)
  {
    ParseFormat(s.fecha_entrega);
    SubmissionItem(s.submission_id, s.task_id, s.user_id, s.subject_id, s.s3_object_name, Format(s.fecha_entrega))
  }
}
