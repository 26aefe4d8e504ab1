/**
 * The immutable snapshot of a recorded task (TRTask and the TRStep record):
 * a tree whose inner nodes are tasks and whose leaves are steps.
 */
module Tasks {
  import opened Wrappers
  import opened Resolutions

  /** An item of a task: a step or a nested task (TRTaskItemType). */
  datatype Item<T> = StepItem(step: Step) | TaskItem(task: Task<T>)
  {
    /** Every task in this item was built by the validating constructor. */
    predicate WellFormed()
    {
      match this
      case StepItem(_) => true
      case TaskItem(t) => t.WellFormed()
    }

    /** description(): a step's own description, or the nested task's. */
    function Description(): string
      requires WellFormed()
    {
      match this
      case StepItem(s) => s.description
      case TaskItem(t) => t.Description()
    }
  }

  /** A finished step: its description and its resolution. */
  datatype Step = Step(description: string, resolution: StepResolution)

  /** A finished task: its items (item 0 names the task) and its resolution. */
  datatype Task<T> = Task(items: seq<Item<T>>, resolution: TaskResolution<T>)
  {
    /** The item list is non-empty here and in every nested task. */
    predicate WellFormed()
    {
      |items| > 0 && forall i :: 0 <= i < |items| ==> items[i].WellFormed()
    }

    /** A task is described by its first item. */
    function Description(): string
      requires WellFormed()
    {
      items[0].Description()
    }
  }

  const EmptyItemsMessage := "Task item lists cannot be empty."

  /**
   * The record's validating constructor: an empty item list is rejected
   * with an argument error, anything else is kept exactly as given.
   */
  function NewTask<T>(items: seq<Item<T>>, resolution: TaskResolution<T>): (r: Result<Task<T>, Error>)
    ensures r.Success? <==> |items| > 0
    ensures r.Success? ==> r.value.items == items && r.value.resolution == resolution
    ensures r.Failure? ==> r.error == IllegalArgument(EmptyItemsMessage)
    ensures r.Success? && (forall i :: 0 <= i < |items| ==> items[i].WellFormed()) ==> r.value.WellFormed()
  {
    if |items| == 0 then Failure(IllegalArgument(EmptyItemsMessage))
    else Success(Task(items, resolution))
  }

  /**
   * A task's description depends on item 0 only: appending items or
   * replacing the resolution keeps it.
   */
  lemma DescriptionKept<T>(t: Task<T>, more: seq<Item<T>>, resolution: TaskResolution<T>)
    requires t.WellFormed() && forall i :: 0 <= i < |more| ==> more[i].WellFormed()
    ensures Task(t.items + more, resolution).WellFormed()
    ensures Task(t.items + more, resolution).Description() == t.Description()
  {
    var u := Task(t.items + more, resolution);
    assert forall i :: 0 <= i < |u.items| ==> u.items[i] == if i < |t.items| then t.items[i] else more[i - |t.items|];
  }
}
