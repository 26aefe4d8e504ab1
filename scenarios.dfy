/**
 * Whole recording sessions, each ending in the snapshot or the outcome the
 * session must produce.
 */
module Scenarios {
  import opened Wrappers
  import opened Resolutions
  import opened Tasks
  import opened TaskRecorders
  import opened Steps
  import opened ItemLists

  const Started := "Started task..."

  /** The first item of every snapshot of a recorder created with Started. */
  function StartedItem(): Item<int>
  {
    StepItem(Step(Started, StepSucceeded("")))
  }

  /** Closing a recorder that never got a resolution fails with the state error naming its step. */
  method CloseUnresolved() returns (outcome: Outcome<Error>)
    ensures outcome == Fail(UnresolvedError(Started))
  {
    var r := TaskRecorder<int>.Create(Started);
    outcome := r.Close();
  }

  /** Once a resolution is set, closing succeeds however often it is repeated. */
  method CloseTwice() returns (c0: Outcome<Error>, c1: Outcome<Error>)
    ensures c0 == Pass && c1 == Pass
  {
    var r := TaskRecorder<int>.Create(Started);
    r.SetTaskSucceeded("OK", 0);
    c0 := r.Close();
    c1 := r.Close();
  }

  /**
   * A step of the older interface: each setter overwrites the resolution
   * completely, reading it changes nothing, and the name stays the one the
   * step was created with.
   */
  method OverwriteStep(name: string, m0: string, m1: string, ex: Option<Cause>)
    returns (r0: StepResolution, r1: StepResolution, r2: StepResolution, r3: StepResolution, n: string)
    ensures r0 == StepSucceeded("") && r1 == StepFailed(m0, ex)
    ensures r2 == StepSucceeded(m1) && r3 == r2 && n == name
  {
    var s := new MutableStep(name);
    r0 := s.Resolution();
    s.SetFailed(m0, ex);
    r1 := s.Resolution();
    s.SetSucceeded(m1);
    r2 := s.Resolution();
    r3 := s.Resolution();
    n := s.Name();
  }

  /** A validated task record cannot be built from an empty item list. */
  lemma EmptyTaskRejected()
    ensures NewTask<int>([], TaskFailed("WHAT?", None)) == Failure(IllegalArgument(EmptyItemsMessage))
  {
  }

  /** A call of one of the recorder's task setters, with its arguments. */
  datatype TaskCall =
    | ResolveWith(resolution: TaskResolution<int>)
    | SucceededWith(message: string, value: int)
    | FailedMessage(message: string)
    | FailedOptional(message: string, exception: Option<Cause>)

  /** The resolution a task setter call writes. */
  function Decided(call: TaskCall): (res: TaskResolution<int>)
  {
    match call
    case ResolveWith(r) => r
    case SucceededWith(m, v) => TaskSucceeded(m, v)
    case FailedMessage(m) => TaskFailed(m, None)
    case FailedOptional(m, e) => TaskFailed(m, e)
  }

  /** Performs one task setter call on the recorder. */
  method Decide(r: TaskRecorder<int>, call: TaskCall)
    requires r.InTree()
    modifies r`resolution
    ensures r.InTree() && r.resolution == Some(Decided(call)) && r.Items() == old(r.Items())
  {
    match call {
      case ResolveWith(res) => r.SetTaskResolution(res);
      case SucceededWith(m, v) => r.SetTaskSucceeded(m, v);
      case FailedMessage(m) => r.SetTaskFailedMessage(m);
      case FailedOptional(m, e) => r.SetTaskFailed(m, e);
    }
  }

  /**
   * A recorder that is only resolved: its snapshot holds the first step and
   * the resolution the setter wrote, and close passes.
   */
  method RecordResolutionOnly(call: TaskCall) returns (t: Result<Task<int>, Error>, outcome: Outcome<Error>)
    ensures t == Success(Task([StartedItem()], Decided(call))) && outcome == Pass
  {
    var r := TaskRecorder<int>.Create(Started);
    Decide(r, call);
    t := r.ToTask();
    outcome := r.Close();
  }

  /** A call of one of the recorder's step setters, with its arguments. */
  datatype StepCall =
    | Succeeded(message: string)
    | SucceededEmpty
    | Failed(message: string)
    | FailedWith(message: string, exception: Cause)
    | FailedStepOptional(message: string, optional: Option<Cause>)

  /** The resolution a step setter call writes. */
  function Written(call: StepCall): (res: StepResolution)
  {
    match call
    case Succeeded(m) => StepSucceeded(m)
    case SucceededEmpty => StepSucceeded("")
    case Failed(m) => StepFailed(m, None)
    case FailedWith(m, e) => StepFailed(m, Some(e))
    case FailedStepOptional(m, o) => StepFailed(m, o)
  }

  /** Performs one step setter call on the recorder. */
  method Apply(r: TaskRecorder<int>, call: StepCall)
    requires r.InTree()
    modifies r.stepCurrent`resolution
    ensures r.stepCurrent.resolution == Written(call) && r.InTree()
    ensures old(r.Items()).Success? ==>
              r.Items() == Success(old(r.Items()).value[r.currentIndex := StepItem(Step(r.stepCurrent.description, Written(call)))])
  {
    match call
    case Succeeded(m) => r.SetStepSucceeded(m);
    case SucceededEmpty => r.SetStepSucceededEmpty();
    case Failed(m) => r.SetStepFailed(m);
    case FailedWith(m, e) => r.SetStepFailedWith(m, e);
    case FailedStepOptional(m, o) => r.SetStepFailedOptional(m, o);
  }

  /** beginStep on a root recorder without subtasks: one new item, the new step. */
  method BeginOneStep(r: TaskRecorder<int>, ghost before: seq<Item<int>>, description: string, ghost after: seq<Item<int>>)
    returns (h: StepRecorder)
    requires r.Root() == r && r.TaskRepr == {r} && r.InTree() && r.Items() == Success(before)
    requires after == before + [StepItem(Step(description, StepSucceeded("")))]
    modifies r`recorders, r`stepCurrent, r`currentIndex, r`StepRepr
    ensures fresh(h) && r.recorders == old(r.recorders) + [StepChild(h)] && r.currentIndex == |r.recorders| - 1
    ensures r.TaskRepr == {r} && r.InTree() && r.Items() == Success(after)
  {
    assert r.Ancestors() == {r};
    h := r.BeginStep(description);
  }

  /**
   * beginStep followed by one step setter on a root recorder without
   * subtasks: the recorder gains one item, the new step with the resolution
   * the setter writes.
   */
  method AppendResolvedStep(r: TaskRecorder<int>, ghost before: seq<Item<int>>, description: string, call: StepCall,
                            ghost after: seq<Item<int>>)
    requires r.Root() == r && r.TaskRepr == {r} && r.InTree() && r.Items() == Success(before)
    requires after == before + [StepItem(Step(description, Written(call)))]
    modifies r`recorders, r`stepCurrent, r`currentIndex, r`StepRepr
    ensures r.TaskRepr == {r} && r.InTree() && r.Items() == Success(after)
  {
    ghost var begun := before + [StepItem(Step(description, StepSucceeded("")))];
    assert begun[|before| := StepItem(Step(description, Written(call)))] == after;
    var step := BeginOneStep(r, before, description, begun);
    assert r.currentIndex == |before|;
    Apply(r, call);
  }

  /** setTaskResolution followed by toTask on a recorder whose items all convert. */
  method ResolveAndSnapshot(r: TaskRecorder<int>, ghost items: seq<Item<int>>, resolution: TaskResolution<int>)
    returns (t: Result<Task<int>, Error>)
    requires r.InTree() && r.Items() == Success(items)
    modifies r`resolution
    ensures r.InTree() && r.resolution == Some(resolution) && t == Success(Task(items, resolution))
  {
    r.SetTaskResolution(resolution);
    t := r.ToTask();
  }

  /** Three steps resolved through the recorder, then the task resolved. */
  method RecordSucceededSteps() returns (t: Result<Task<int>, Error>, closed: Outcome<Error>)
    ensures closed == Pass
    ensures t == Success(Task([
      StartedItem(),
      StepItem(Step("Step 0", StepSucceeded("OK 0"))),
      StepItem(Step("Step 1", StepSucceeded(""))),
      StepItem(Step("Step 2", StepSucceeded("OK 2")))], TaskSucceeded("OK!", 23)))
  {
    ghost var items := [StartedItem(), StepItem(Step("Step 0", StepSucceeded("OK 0"))), StepItem(Step("Step 1", StepSucceeded(""))),
      StepItem(Step("Step 2", StepSucceeded("OK 2")))];
    assert items[..1] == [items[0]];
    assert items[..2] == items[..1] + [StepItem(Step("Step 0", Written(Succeeded("OK 0"))))];
    assert items[..3] == items[..2] + [StepItem(Step("Step 1", Written(SucceededEmpty)))];
    assert items == items[..3] + [StepItem(Step("Step 2", Written(Succeeded("OK 2"))))];
    var r := TaskRecorder<int>.Create(Started);
    AppendResolvedStep(r, items[..1], "Step 0", Succeeded("OK 0"), items[..2]);
    AppendResolvedStep(r, items[..2], "Step 1", SucceededEmpty, items[..3]);
    AppendResolvedStep(r, items[..3], "Step 2", Succeeded("OK 2"), items);
    t := ResolveAndSnapshot(r, items, TaskSucceeded("OK!", 23));
    closed := r.Close();
  }

  /** Three steps failed through the recorder, with and without exceptions, then the task resolved. */
  method RecordFailedSteps(ex0: Cause, ex1: Cause) returns (t: Result<Task<int>, Error>, closed: Outcome<Error>)
    ensures closed == Pass
    ensures t == Success(Task([
      StartedItem(),
      StepItem(Step("Step 0", StepFailed("Failed 0", None))),
      StepItem(Step("Step 1", StepFailed("Failed 1", Some(ex0)))),
      StepItem(Step("Step 2", StepFailed("Failed 2", Some(ex1))))], TaskSucceeded("OK!", 23)))
  {
    ghost var items := [StartedItem(), StepItem(Step("Step 0", StepFailed("Failed 0", None))),
      StepItem(Step("Step 1", StepFailed("Failed 1", Some(ex0)))), StepItem(Step("Step 2", StepFailed("Failed 2", Some(ex1))))];
    assert items[..1] == [items[0]];
    assert items[..2] == items[..1] + [StepItem(Step("Step 0", Written(Failed("Failed 0"))))];
    assert items[..3] == items[..2] + [StepItem(Step("Step 1", Written(FailedWith("Failed 1", ex0))))];
    assert items == items[..3] + [StepItem(Step("Step 2", Written(FailedStepOptional("Failed 2", Some(ex1)))))];
    var r := TaskRecorder<int>.Create(Started);
    AppendResolvedStep(r, items[..1], "Step 0", Failed("Failed 0"), items[..2]);
    AppendResolvedStep(r, items[..2], "Step 1", FailedWith("Failed 1", ex0), items[..3]);
    AppendResolvedStep(r, items[..3], "Step 2", FailedStepOptional("Failed 2", Some(ex1)), items);
    t := ResolveAndSnapshot(r, items, TaskSucceeded("OK!", 23));
    closed := r.Close();
  }

  /** A root recorder with two steps begun after its first, and the handle of the earlier one. */
  method BeginTwoSteps() returns (r: TaskRecorder<int>, h0: StepRecorder)
    ensures fresh(r) && fresh(h0) && r.Root() == r && r.TaskRepr == {r} && r.InTree()
    ensures |r.recorders| == 3 && r.recorders[1] == StepChild(h0) && r.currentIndex == 2
    ensures r.Items() == Success([StartedItem(), StepItem(Step("Step 0", StepSucceeded(""))), StepItem(Step("Step 1", StepSucceeded("")))])
  {
    ghost var items := [StartedItem(), StepItem(Step("Step 0", StepSucceeded(""))), StepItem(Step("Step 1", StepSucceeded("")))];
    assert items[..1] == [StartedItem()];
    assert items[..2] == items[..1] + [StepItem(Step("Step 0", StepSucceeded("")))];
    assert items == items[..2] + [StepItem(Step("Step 1", StepSucceeded("")))];
    r := TaskRecorder<int>.Create(Started);
    h0 := BeginOneStep(r, items[..1], "Step 0", items[..2]);
    var h1 := BeginOneStep(r, items[..2], "Step 1", items);
  }

  /**
   * The handle of an earlier step stays writable after a later step begins:
   * writing through it changes that step's item and no other, and the later
   * step stays current.
   */
  method WriteEarlierStep(res: StepResolution) returns (items: Result<seq<Item<int>>, Error>)
    ensures items == Success([StartedItem(), StepItem(Step("Step 0", res)), StepItem(Step("Step 1", StepSucceeded("")))])
  {
    ghost var before := [StartedItem(), StepItem(Step("Step 0", StepSucceeded(""))), StepItem(Step("Step 1", StepSucceeded("")))];
    assert before[1 := StepItem(Step("Step 0", res))] ==
      [StartedItem(), StepItem(Step("Step 0", res)), StepItem(Step("Step 1", StepSucceeded("")))];
    var r, h0 := BeginTwoSteps();
    r.ChildrenWithin();
    label Begun:
    h0.SetStepResolution(res);
    r.StepHandleWritten@Begun(1);
    items := r.Items();
  }

  /** beginSubtask on a root recorder: the new recorder holds only its first step. */
  method AddSubtask(r: TaskRecorder<int>, ghost before: seq<Result<Item<int>, Error>>, description: string,
                    ghost after: seq<Result<Item<int>, Error>>, ghost j: nat) returns (st: TaskRecorder<int>)
    requires r.Root() == r && r.InTree() && r.Results() == before && j == |before|
    requires after == before + [Failure(UnresolvedError(description))]
    modifies r`recorders, r.Ancestors()`TaskRepr, r.Ancestors()`StepRepr
    ensures fresh(st) && st.Root() == r && st.InTree() && st.resolution == None && r.TaskRepr == old(r.TaskRepr) + {st}
    ensures st.Items() == Success([StepItem(Step(description, StepSucceeded("")))])
    ensures r.InTree() && r.Results() == after && j < |r.recorders| && r.recorders[j] == TaskChild(st)
  {
    st := r.BeginSubtask(description);
    st.FirstItems();
  }

  /**
   * setTaskSucceeded, toTask and close on a recorder nested directly in a
   * root: the snapshot carries the resolution, close passes, and the parent
   * sees the nested recorder's new item.
   */
  method ResolveSubtask(r: TaskRecorder<int>, st: TaskRecorder<int>, ghost j: nat, ghost before: seq<Result<Item<int>, Error>>,
                        ghost items: seq<Item<int>>, message: string, value: int, ghost after: seq<Result<Item<int>, Error>>)
    returns (t: Result<Task<int>, Error>, outcome: Outcome<Error>)
    requires r.Root() == r && r.InTree() && r.Results() == before
    requires j < |r.recorders| && r.recorders[j] == TaskChild(st) && st.Items() == Success(items)
    requires after == before[j := Success(TaskItem(Task(items, TaskSucceeded(message, value))))]
    modifies st`resolution
    ensures r.InTree() && r.Results() == after && r.recorders == old(r.recorders)
    ensures t == Success(Task(items, TaskSucceeded(message, value))) && outcome == Pass
  {
    r.ChildrenWithin();
    r.NestedValid(st);
    st.SetTaskSucceeded(message, value);
    t := st.ToTask();
    r.ResolutionsOnlyChanged();
    r.NestedResolutionResults(j);
    assert ItemOf(r.recorders[j]) == Success(TaskItem(Task(items, TaskSucceeded(message, value))));
    label Resolved:
    outcome := st.Close();
    r.Untouched@Resolved();
  }

  /** setTaskSucceeded followed by toTask on a recorder whose results all succeed. */
  method SucceedAndSnapshot(r: TaskRecorder<int>, ghost rs: seq<Result<Item<int>, Error>>, ghost items: seq<Item<int>>,
                            message: string, value: int) returns (t: Result<Task<int>, Error>)
    requires r.InTree() && r.Results() == rs && Collect(rs) == Success(items)
    modifies r`resolution
    ensures r.InTree() && r.resolution == Some(TaskSucceeded(message, value))
    ensures t == Success(Task(items, TaskSucceeded(message, value)))
  {
    r.SetTaskSucceeded(message, value);
    t := r.ToTask();
  }

  /**
   * beginSubtask, then setTaskSucceeded, toTask and close on the new
   * recorder, on a root: the root gains the nested recorder's item.
   */
  method AddResolvedSubtask(r: TaskRecorder<int>, ghost before: seq<Result<Item<int>, Error>>, description: string,
                            message: string, value: int, ghost after: seq<Result<Item<int>, Error>>)
    returns (t: Result<Task<int>, Error>, outcome: Outcome<Error>)
    requires r.Root() == r && r.InTree() && r.Results() == before
    requires after == before + [Success(TaskItem(Task([StepItem(Step(description, StepSucceeded("")))], TaskSucceeded(message, value))))]
    modifies r`recorders, r`TaskRepr, r`StepRepr
    ensures r.InTree() && r.Results() == after
    ensures t == Success(Task([StepItem(Step(description, StepSucceeded("")))], TaskSucceeded(message, value))) && outcome == Pass
  {
    ghost var items := [StepItem(Step(description, StepSucceeded("")))];
    ghost var begun := before + [Failure(UnresolvedError(description))];
    assert begun[|before| := Success(TaskItem(Task(items, TaskSucceeded(message, value))))] == after;
    assert r.Ancestors() == {r};
    var st := AddSubtask(r, before, description, begun, |before|);
    t, outcome := ResolveSubtask(r, st, |before|, begun, items, message, value, after);
  }

  /** The result a successful snapshot's resolution carries, and 0 for any other. */
  function ResultOf(t: Result<Task<int>, Error>): (n: int)
    ensures t.Success? && t.value.resolution.TaskSucceeded? ==> n == t.value.resolution.result
  {
    if t.Success? && t.value.resolution.TaskSucceeded? then t.value.resolution.result else 0
  }

  /** The results of the root of RecordSubtasks before, between and after its two nested recorders. */
  function SubtaskResults(n: nat): seq<Result<Item<int>, Error>>
  {
    var x := Task([StepItem(Step("Subtask X", StepSucceeded("")))], TaskSucceeded("X", 23));
    var y := Task([StepItem(Step("Subtask Y", StepSucceeded("")))], TaskSucceeded("Y", 17));
    match n
    case 0 => [Success(StartedItem())]
    case 1 => [Success(StartedItem()), Success(TaskItem(x))]
    case _ => [Success(StartedItem()), Success(TaskItem(x)), Success(TaskItem(y))]
  }

  /** The items of the final snapshot of RecordSubtasks. */
  function SubtaskItems(): seq<Item<int>>
  {
    [StartedItem(),
     TaskItem(Task([StepItem(Step("Subtask X", StepSucceeded("")))], TaskSucceeded("X", 23))),
     TaskItem(Task([StepItem(Step("Subtask Y", StepSucceeded("")))], TaskSucceeded("Y", 17)))]
  }

  /** How the results of RecordSubtasks evolve, and what they collect to. */
  lemma SubtaskResultSteps()
    ensures SubtaskResults(1) ==
              SubtaskResults(0) + [Success(TaskItem(Task([StepItem(Step("Subtask X", StepSucceeded("")))], TaskSucceeded("X", 23))))]
    ensures SubtaskResults(2) ==
              SubtaskResults(1) + [Success(TaskItem(Task([StepItem(Step("Subtask Y", StepSucceeded("")))], TaskSucceeded("Y", 17))))]
    ensures Collect(SubtaskResults(2)) == Success(SubtaskItems())
    ensures SubtaskItems()[1].Description() == "Subtask X" && SubtaskItems()[2].Description() == "Subtask Y"
  {
    CollectSuccesses(SubtaskResults(2), SubtaskItems());
  }

  /** A fresh root recorder with its first nested recorder resolved, snapshotted and closed. */
  method BeginWithSubtaskX() returns (r: TaskRecorder<int>, t0: Result<Task<int>, Error>, c0: Outcome<Error>)
    ensures fresh(r) && r.Root() == r && r.InTree() && r.Results() == SubtaskResults(1)
    ensures t0 == Success(Task([StepItem(Step("Subtask X", StepSucceeded("")))], TaskSucceeded("X", 23))) && c0 == Pass
  {
    SubtaskResultSteps();
    r := TaskRecorder<int>.Create(Started);
    CollectSuccesses(r.Results(), [StartedItem()]);
    t0, c0 := AddResolvedSubtask(r, SubtaskResults(0), "Subtask X", "X", 23, SubtaskResults(1));
  }

  /**
   * Two nested recorders, each resolved, snapshotted and closed, then the
   * parent resolved with the sum of their results.
   */
  method RecordSubtasks()
    returns (t0: Result<Task<int>, Error>, c0: Outcome<Error>, t1: Result<Task<int>, Error>, c1: Outcome<Error>,
             t: Result<Task<int>, Error>, closed: Outcome<Error>)
    ensures t0 == Success(Task([StepItem(Step("Subtask X", StepSucceeded("")))], TaskSucceeded("X", 23)))
    ensures t1 == Success(Task([StepItem(Step("Subtask Y", StepSucceeded("")))], TaskSucceeded("Y", 17)))
    ensures c0 == Pass && c1 == Pass && closed == Pass
    ensures t == Success(Task([StartedItem(), TaskItem(t0.value), TaskItem(t1.value)], TaskSucceeded("Z", 40)))
    ensures t.value.items[1].Description() == "Subtask X" && t.value.items[2].Description() == "Subtask Y"
  {
    SubtaskResultSteps();
    var r;
    r, t0, c0 := BeginWithSubtaskX();
    t1, c1 := AddResolvedSubtask(r, SubtaskResults(1), "Subtask Y", "Y", 17, SubtaskResults(2));
    t := SucceedAndSnapshot(r, SubtaskResults(2), SubtaskItems(), "Z", ResultOf(t0) + ResultOf(t1));
    closed := r.Close();
  }
}
