/**
 * The status chain of the student task listing (main.py): a submission
 * wins; otherwise the expiry and then the due time are compared strictly.
 */
module Status {
  import opened IsoTime
  import opened Schemas

  function ResolveStatus(now: Instant, fecha_entrega: Instant, fecha_caducidad: Instant, submitted: bool)
    : (r: SubmissionStatus)
    ensures r == Inactivo ==> !submitted && Later(now, fecha_caducidad)
    ensures r == Caducado ==> !submitted && Later(now, fecha_entrega) && !Later(now, fecha_caducidad)
    ensures r == Pendiente ==> !submitted && !Later(now, fecha_entrega) && !Later(now, fecha_caducidad)
  {
    if submitted then Entregado
    else if Later(now, fecha_caducidad) then Inactivo
    else if Later(now, fecha_entrega) then Caducado
    else Pendiente
  }

  /** With a submission the status is `entregado`, and only then. */
  lemma DeliveredIffSubmitted(now: Instant, fecha_entrega: Instant, fecha_caducidad: Instant, submitted: bool)
    ensures (ResolveStatus(now, fecha_entrega, fecha_caducidad, submitted) == Entregado) <==> submitted
  {
  }

  /**
   * For a task whose expiry is after its due time (what `create_task`
   * enforces) and no submission, the three windows: up to and including the
   * due time `pendiente`; after it up to and including the expiry `caducado`;
   * after the expiry `inactivo`.
   */
  lemma Windows(now: Instant, fecha_entrega: Instant, fecha_caducidad: Instant)
    requires Later(fecha_caducidad, fecha_entrega)
    ensures var s := ResolveStatus(now, fecha_entrega, fecha_caducidad, false);
      && (s == Pendiente <==> !Later(now, fecha_entrega))
      && (s == Caducado <==> Later(now, fecha_entrega) && !Later(now, fecha_caducidad))
      && (s == Inactivo <==> Later(now, fecha_caducidad))
  {
    if Later(now, fecha_caducidad) {
      LaterTransitive(now, fecha_caducidad, fecha_entrega);
    }
  }

  /** Exactly at the due time the task is still `pendiente`. */
  lemma PendingAtDueTime(fecha_entrega: Instant, fecha_caducidad: Instant)
    requires Later(fecha_caducidad, fecha_entrega)
    ensures ResolveStatus(fecha_entrega, fecha_entrega, fecha_caducidad, false) == Pendiente
  {
    LaterIrreflexive(fecha_entrega);
    Windows(fecha_entrega, fecha_entrega, fecha_caducidad);
  }

  /** Exactly at the expiry the task is `caducado`, not yet `inactivo`. */
  lemma LateAtExpiry(fecha_entrega: Instant, fecha_caducidad: Instant)
    requires Later(fecha_caducidad, fecha_entrega)
    ensures ResolveStatus(fecha_caducidad, fecha_entrega, fecha_caducidad, false) == Caducado
  {
    LaterIrreflexive(fecha_caducidad);
  }

  /**
   * Due 2024-01-10, expiry 2024-01-20, asked on 2024-01-15: `caducado`
   * without a submission, `entregado` with one.
   */
  lemma MidWindowExample()
    ensures var due, expiry, now := DateTime(2024, 1, 10, 0, 0, 0, 0), DateTime(2024, 1, 20, 0, 0, 0, 0),
                                    DateTime(2024, 1, 15, 0, 0, 0, 0);
      ResolveStatus(now, due, expiry, false) == Caducado && ResolveStatus(now, due, expiry, true) == Entregado
  {
  }
}
