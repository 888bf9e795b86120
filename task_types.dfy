/**
 * Task records of the task board and the two helpers defined beside them:
 * status normalisation and the calendar/open discriminant.
 */
module TaskTypes {

  datatype Option<+T> = None | Some(value: T)

  /** The two values a task's status may take once it has been normalised. */
  datatype Status = Open | Completed

  datatype Priority = Low | Normal | High

  /** Names one of the two collections ('calendar' | 'open'). */
  datatype TaskType = CalendarType | OpenType

  /**
   * A task, tagged by variant: a calendar task carries a date, an open task
   * does not. The status type is a parameter: a record read from untyped data
   * may hold any text there (LooseTask), a normalised record holds a Status (Task).
   */
  datatype TaskOf<S> =
    | CalendarTask(id: string, title: string, details: string, status: S,
                   priority: Option<Priority>, date: string)
    | OpenTask(id: string, title: string, details: string, status: S,
               priority: Option<Priority>)

  type Task = TaskOf<Status>

  type LooseTask = TaskOf<string>

  /** The text a status is written as. */
  function StatusText(s: Status): string {
    match s
    case Open => "open"
    case Completed => "completed"
  }

  predicate IsValidStatusText(text: string) {
    text == "open" || text == "completed"
  }

  predicate AllCalendar(tasks: seq<Task>) {
    forall i :: 0 <= i < |tasks| ==> tasks[i].CalendarTask?
  }

  predicate AllOpen(tasks: seq<Task>) {
    forall i :: 0 <= i < |tasks| ==> tasks[i].OpenTask?
  }

  /**
   * The property names the record carries as a JavaScript object: the base
   * fields, `priority` only when it is set, and `date` only on a calendar task.
   */
  function Keys<S>(t: TaskOf<S>): set<string> {
    {"id", "title", "details", "status"}
    + (if t.priority.Some? then {"priority"} else {})
    + (if t.CalendarTask? then {"date"} else {})
  }

  /** The record with its status replaced and every other field kept (`{ ...task, status: s }`). */
  function WithStatus<S, U>(t: TaskOf<S>, s: U): TaskOf<U> {
    match t
    case CalendarTask(id, title, details, _, priority, date) =>
      CalendarTask(id, title, details, s, priority, date)
    case OpenTask(id, title, details, _, priority) =>
      OpenTask(id, title, details, s, priority)
  }

  /** A normalised record seen as untyped data again: its status written as text. */
  function Loosen(t: Task): LooseTask {
    WithStatus(t, StatusText(t.status))
  }

  function LoosenAll(tasks: seq<Task>): seq<LooseTask> {
    seq(|tasks|, i requires 0 <= i < |tasks| => Loosen(tasks[i]))
  }

  /**
   * ensureValidTaskStatus: keeps every record in place, keeps a status that is
   * already "open" or "completed", and replaces any other status with open.
   */
  function EnsureValidTaskStatus(tasks: seq<LooseTask>): (r: seq<Task>)
    ensures |r| == |tasks|
    ensures forall i :: 0 <= i < |tasks| ==> r[i] == WithStatus(tasks[i], r[i].status)
    ensures forall i :: 0 <= i < |tasks| && IsValidStatusText(tasks[i].status) ==>
              StatusText(r[i].status) == tasks[i].status
    ensures forall i :: 0 <= i < |tasks| && !IsValidStatusText(tasks[i].status) ==>
              r[i].status == Open
  {
    if tasks == [] then []
    else
      var t := tasks[0];
      var s := if t.status == "completed" then Completed else Open;
      var rest := EnsureValidTaskStatus(tasks[1..]);
      assert forall i :: 1 <= i < |tasks| ==> ([WithStatus(t, s)] + rest)[i] == rest[i - 1];
      [WithStatus(t, s)] + rest
  }

  /** A record whose status is already valid comes back exactly as it was. */
  lemma EnsureValidKeepsValid(tasks: seq<Task>)
    ensures LoosenAll(EnsureValidTaskStatus(LoosenAll(tasks))) == LoosenAll(tasks)
    ensures EnsureValidTaskStatus(LoosenAll(tasks)) == tasks
  {
    var r := EnsureValidTaskStatus(LoosenAll(tasks));
    forall i | 0 <= i < |tasks|
      ensures r[i] == tasks[i]
    {
      // StatusText is one-to-one, so the kept text pins the status.
      assert StatusText(r[i].status) == StatusText(tasks[i].status);
      assert r[i].status == tasks[i].status by {
        match r[i].status
        case Open =>
        case Completed =>
      }
    }
  }

  /** Normalising twice is the same as normalising once. */
  lemma EnsureValidIdempotent(tasks: seq<LooseTask>)
    ensures EnsureValidTaskStatus(LoosenAll(EnsureValidTaskStatus(tasks))) == EnsureValidTaskStatus(tasks)
  {
    EnsureValidKeepsValid(EnsureValidTaskStatus(tasks));
  }

  /** isCalendarTask: true exactly when the record carries a `date` property. */
  predicate IsCalendarTask<S>(t: TaskOf<S>): (r: bool)
    ensures r <==> "date" in Keys(t)
  {
    t.CalendarTask?
  }
}
