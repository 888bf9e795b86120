/**
 * The application state: the two task collections, the two commands that
 * change them, and the export that follows every change.
 */
module App {
  import opened TaskTypes
  import opened CsvParser

  /** `status === 'completed' ? 'open' : 'completed'`: always the other status. */
  function Flip(s: Status): (r: Status)
    ensures r != s
  {
    match s
    case Open => Completed
    case Completed => Open
  }

  /**
   * The `.map` inside handleTaskComplete: every record whose id matches has
   * its status flipped, every other record is kept, and nothing moves.
   */
  function ToggleStatus(tasks: seq<Task>, taskId: string): (r: seq<Task>)
    ensures |r| == |tasks|
    ensures forall i :: 0 <= i < |tasks| ==> r[i] == tasks[i].(status := r[i].status)
    ensures forall i :: 0 <= i < |tasks| && tasks[i].id == taskId ==> r[i].status != tasks[i].status
    ensures forall i :: 0 <= i < |tasks| && tasks[i].id != taskId ==> r[i] == tasks[i]
  {
    if tasks == [] then []
    else
      var t := tasks[0];
      var head := if t.id == taskId then t.(status := Flip(t.status)) else t;
      var rest := ToggleStatus(tasks[1..], taskId);
      assert forall i :: 1 <= i < |tasks| ==> ([head] + rest)[i] == rest[i - 1];
      [head] + rest
  }

  /** Toggling an id that no record carries changes nothing. */
  lemma ToggleAbsentId(tasks: seq<Task>, taskId: string)
    requires forall i :: 0 <= i < |tasks| ==> tasks[i].id != taskId
    ensures ToggleStatus(tasks, taskId) == tasks
  {
  }

  /** Toggling the same id twice restores the collection. */
  lemma ToggleTwice(tasks: seq<Task>, taskId: string)
    ensures ToggleStatus(ToggleStatus(tasks, taskId), taskId) == tasks
  {
  }

  /** Toggling keeps each record's variant, so a collection stays all-calendar or all-open. */
  lemma ToggleKeepsVariant(tasks: seq<Task>, taskId: string)
    ensures AllCalendar(tasks) ==> AllCalendar(ToggleStatus(tasks, taskId))
    ensures AllOpen(tasks) ==> AllOpen(ToggleStatus(tasks, taskId))
  {
  }

  /** The state held by the App component. */
  class TaskStore {
    var calendarTasks: seq<Task>
    var openTasks: seq<Task>
    /** Every pair of texts handed to the download step, oldest first. */
    var saved: seq<Export>

    ghost predicate Valid()
      reads this
    {
      AllCalendar(calendarTasks) && AllOpen(openTasks)
    }

    /** The state once both files have been loaded and parsed. */
    constructor (calendar: seq<Task>, open: seq<Task>)
      requires AllCalendar(calendar) && AllOpen(open)
      ensures Valid()
      ensures calendarTasks == calendar && openTasks == open && saved == []
    {
      calendarTasks := calendar;
      openTasks := open;
      saved := [];
    }

    /**
     * handleTaskComplete: toggles the id in the open collection when the type
     * is open and in the calendar collection otherwise, leaves the other
     * collection alone, and exports the state after the change.
     */
    method HandleTaskComplete(taskId: string, taskType: TaskType)
      requires Valid()
      modifies this
      ensures Valid()
      ensures taskType == OpenType ==>
                openTasks == ToggleStatus(old(openTasks), taskId) && calendarTasks == old(calendarTasks)
      ensures taskType != OpenType ==>
                calendarTasks == ToggleStatus(old(calendarTasks), taskId) && openTasks == old(openTasks)
      ensures saved == old(saved) + [SaveTasks(calendarTasks, openTasks)]
    {
      if taskType == OpenType {
        ToggleKeepsVariant(openTasks, taskId);
        openTasks := ToggleStatus(openTasks, taskId);
      } else {
        ToggleKeepsVariant(calendarTasks, taskId);
        calendarTasks := ToggleStatus(calendarTasks, taskId);
      }
      Save();
    }

    /**
     * handleTaskReorder: the open collection becomes the argument as given,
     * the calendar collection is untouched, and the new state is exported.
     */
    method HandleTaskReorder(reorderedTasks: seq<Task>)
      requires Valid() && AllOpen(reorderedTasks)
      modifies this
      ensures Valid()
      ensures openTasks == reorderedTasks && calendarTasks == old(calendarTasks)
      ensures saved == old(saved) + [SaveTasks(calendarTasks, openTasks)]
    {
      openTasks := reorderedTasks;
      Save();
    }

    /** saveTasks on the current state: the pair of texts is handed to the download step. */
    method Save()
      requires AllCalendar(calendarTasks)
      modifies this
      ensures calendarTasks == old(calendarTasks) && openTasks == old(openTasks)
      ensures saved == old(saved) + [SaveTasks(calendarTasks, openTasks)]
    {
      saved := saved + [SaveTasks(calendarTasks, openTasks)];
    }
  }
}
