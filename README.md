# taskrecorder: a verified model of the task-recording tree

The io7m taskrecorder library lets a program record what it did as a tree.
A live **task recorder** holds an ordered list of children. Each child is a
**step recorder** or a nested task recorder. The recorder also holds a pointer
to the *current step* and an optional *task resolution*. Three kinds of
operation act on it:

- `beginStep` and `beginSubtask` append children;
- the `set*` operations overwrite a resolution;
- `toTask` and `close` only work once a task resolution is set.

`toTask` turns the recorder into an immutable **task**: a non-empty list of
items, each a step or a nested task, plus the resolution. A task is described
by its first item. The older `TRStep` class is a mutable step: a fixed name
and a resolution that each setter overwrites.

The model is split into these modules:

- `Wrappers` (wrappers.dfy): `Option`, `Result` and `Outcome`.
- `Resolutions` (resolutions.dfy): step and task resolutions, the `Cause`
  attached to a failure, and the two exceptions the library raises.
- `Tasks` (task.dfy): the immutable snapshot (`TRTask` and the step record)
  and its validating constructor `NewTask`.
- `ItemLists` (items.dfy): collecting the children's conversion results into
  an item list. The children are converted in order and the first failure
  aborts the list, as Java's `stream().map(...).toList()` does when the
  mapping throws.
- `TaskRecorders` (task_recorder.dfy): the classes `TaskRecorder` and
  `StepRecorder`.
  - A nested recorder stays usable after it is appended, so every recorder
    knows its tree's root (a ghost constant). Every recorder of a tree keeps
    the invariant `InTree()`.
  - Ghost footprints `TaskRepr` and `StepRepr` make children disjoint and
    the tree acyclic.
  - `ToTask` is a function that recurses down the footprint.
  - Every recorder method that changes state states the new state and how
    the recorder's snapshot items change. A write through a step handle
    (`StepRecorder.SetStepResolution`) states the new resolution. The
    lemma `StepHandleWritten` then gives the owning recorder's new items,
    for the current step and for earlier ones alike.
- `Steps` (steps.dfy): the mutable `TRStep` as the class `MutableStep`.
- `Scenarios` (scenarios.dfy): whole recording sessions. Most come from the
  library's test suite and are proved to end in the snapshot and outcome the
  test expects. A few further sessions exercise the contracts on their own
  (`CloseTwice`, `OverwriteStep`, `BeginTwoSteps`, `WriteEarlierStep`).

Exceptions thrown by the library become `Result`/`Outcome` values.
Java's `IllegalArgumentException` and `IllegalStateException` become
`Error.IllegalArgument` and `Error.IllegalState`.

Two behaviours of the code are easy to miss:

- The "no resolution" error names the description of the recorder's
  *current step*, not necessarily the description it was created with
  (`com.io7m.taskrecorder.core/src/main/java/com/io7m/taskrecorder/core/TRTaskRecorder.java:156`). After `beginStep` the two can differ; they stay equal when the new step is given the creation description.
- Item 0 of a snapshot is the recorder's first step recorder. While it is
  current, step setters overwrite it, so its resolution is not always
  `Succeeded("")`.

## Model

| member | source | states |
|---|---|---|
| Tasks.NewTask | com.io7m.taskrecorder.core/src/main/java/com/io7m/taskrecorder/core/TRTask.java:42-50 | construction succeeds exactly when the item list is non-empty. The items and the resolution are kept exactly as given. An empty list fails with IllegalArgument("Task item lists cannot be empty."). |
| Tasks.DescriptionKept | com.io7m.taskrecorder.core/src/main/java/com/io7m/taskrecorder/core/TRTask.java:52-56 | a task's description depends on item 0 only, so appending items or replacing the resolution keeps it. A subtask snapshot's description is its creation description: ToTask ensures `Description() == title`, and BeginSubtask ensures `task.title == description`. |
| ItemLists.Collect | com.io7m.taskrecorder.core/src/main/java/com/io7m/taskrecorder/core/TRTaskRecorder.java:136-139 | a successful collection has one item per result, with each result the success of the item at its position |
| ItemLists.CollectSucceeds | com.io7m.taskrecorder.core/src/main/java/com/io7m/taskrecorder/core/TRTaskRecorder.java:136-139 | collecting succeeds if and only if every child's conversion succeeds |
| ItemLists.CollectFailsFirst | com.io7m.taskrecorder.core/src/main/java/com/io7m/taskrecorder/core/TRTaskRecorder.java:136-139 | a failed collection carries the error of a failing result that every earlier result precedes successfully, which is the first failure |
| ItemLists.CollectAppend | com.io7m.taskrecorder.core/src/main/java/com/io7m/taskrecorder/core/TRTaskRecorder.java:136-139 | adding a child at the end extends the item list by its item, or fails with the first error |
| ItemLists.CollectReplace | com.io7m.taskrecorder.core/src/main/java/com/io7m/taskrecorder/core/TRTaskRecorder.java:136-139 | replacing one successful result by another replaces exactly that item, and leaves a failure as it was |
| ItemLists.CollectSuccesses | com.io7m.taskrecorder.core/src/main/java/com/io7m/taskrecorder/core/TRTaskRecorder.java:136-139 | results that are all successes collect to exactly their items |
| TaskRecorders.StepRecorder.constructor | com.io7m.taskrecorder.core/src/main/java/com/io7m/taskrecorder/core/TRTaskRecorder.java:167-174 | a new step recorder has the given description and resolution Succeeded("") |
| TaskRecorders.StepRecorder.ToStep | com.io7m.taskrecorder.core/src/main/java/com/io7m/taskrecorder/core/TRTaskRecorder.java:176-180 | the step record carries the recorder's description and current resolution |
| TaskRecorders.StepRecorder.SetStepResolution | com.io7m.taskrecorder.core/src/main/java/com/io7m/taskrecorder/core/TRTaskRecorder.java:182-188 | the given resolution replaces the old one |
| TaskRecorders.ItemOf | com.io7m.taskrecorder.core/src/main/java/com/io7m/taskrecorder/core/TRTaskRecorder.java:68-82 | a step child becomes its step record. A nested recorder becomes the task its own toTask yields, or fails with toTask's error. A successful item is well formed. |
| TaskRecorders.ChildResults | com.io7m.taskrecorder.core/src/main/java/com/io7m/taskrecorder/core/TRTaskRecorder.java:136-139 | one conversion result per child, in the children's order |
| TaskRecorders.TaskRecorder.Init | com.io7m.taskrecorder.core/src/main/java/com/io7m/taskrecorder/core/TRTaskRecorder.java:38-49 | a new recorder has exactly one child, a fresh step with the description and Succeeded(""). That step is current, and no resolution is set. |
| TaskRecorders.TaskRecorder.Create | com.io7m.taskrecorder.core/src/main/java/com/io7m/taskrecorder/core/TRTaskRecorder.java:61-66 | creates a fresh root recorder that satisfies the tree invariant. Its snapshot items are exactly [Step(description, Succeeded(""))]. |
| TaskRecorders.TaskRecorder.FirstItems | com.io7m.taskrecorder.core/src/main/java/com/io7m/taskrecorder/core/TRTaskRecorder.java:38-49 | a recorder that holds only its first step converts to exactly that step's record |
| TaskRecorders.TaskRecorder.CheckResolution | com.io7m.taskrecorder.core/src/main/java/com/io7m/taskrecorder/core/TRTaskRecorder.java:151-159 | fails if and only if no task resolution is set, with the state error naming the current step's description. The message is built by `UnresolvedError` as "No resolution was set for task '<description>'" (TRTaskRecorder.java:154-157). |
| TaskRecorders.TaskRecorder.Results | com.io7m.taskrecorder.core/src/main/java/com/io7m/taskrecorder/core/TRTaskRecorder.java:136-139 | one conversion result per child, in order, each the child's own item |
| TaskRecorders.TaskRecorder.Items | com.io7m.taskrecorder.core/src/main/java/com/io7m/taskrecorder/core/TRTaskRecorder.java:136-139 | on success, the items correspond one to one and in order with the children: a step child gives its step record, and a nested recorder gives its own snapshot. On failure, some nested recorder's toTask fails with that error. |
| TaskRecorders.TaskRecorder.ToTask | com.io7m.taskrecorder.core/src/main/java/com/io7m/taskrecorder/core/TRTaskRecorder.java:131-142 | with no resolution, fails with the state error naming the current step. Otherwise it succeeds exactly when every child converts, yielding Task(items, resolution), which is well formed. The snapshot's description is the recorder's creation description. |
| TaskRecorders.TaskRecorder.NestedItemDescribed | com.io7m.taskrecorder.tests/src/main/java/com/io7m/taskrecorder/tests/TRTaskRecorderTest.java:257-264 | in a successful snapshot, the item of a nested recorder is a well-formed task described by that recorder's creation description |
| TaskRecorders.TaskRecorder.ToTaskSucceedsIffResolved | com.io7m.taskrecorder.core/src/main/java/com/io7m/taskrecorder/core/TRTaskRecorder.java:68-82 | toTask succeeds if and only if this recorder and every recorder nested in it, at any depth, has a task resolution |
| TaskRecorders.TaskRecorder.ToTaskFailureNamesUnresolved | com.io7m.taskrecorder.core/src/main/java/com/io7m/taskrecorder/core/TRTaskRecorder.java:151-159 | when toTask fails, its error is the state error of a recorder that has no resolution and is this recorder or is reached from it through nested recorder children. The error names that recorder's current step. |
| TaskRecorders.TaskRecorder.UnresolvedBlocks | com.io7m.taskrecorder.core/src/main/java/com/io7m/taskrecorder/core/TRTaskRecorder.java:68-82 | a recorder without a resolution anywhere below this one, reached through nested recorder children, makes this recorder's toTask fail |
| TaskRecorders.TaskRecorder.ReachesWithin | com.io7m.taskrecorder.core/src/main/java/com/io7m/taskrecorder/core/TRTaskRecorder.java:90-101 | every recorder reached through nested recorder children lies in the footprint |
| TaskRecorders.TaskRecorder.BeginSubtask | com.io7m.taskrecorder.core/src/main/java/com/io7m/taskrecorder/core/TRTaskRecorder.java:90-101 | appends exactly one fresh recorder that holds only step d and has no resolution. The current step and earlier children are unchanged, and the tree invariant holds for both recorders. The parent's snapshot now fails with the new recorder's error unless it already failed. |
| TaskRecorders.TaskRecorder.AttachSubtask | com.io7m.taskrecorder.core/src/main/java/com/io7m/taskrecorder/core/TRTaskRecorder.java:98-99 | the appending step of beginSubtask: the new child is last, every other recorder keeps its children, and the earlier children keep their results |
| TaskRecorders.TaskRecorder.SubtaskAppendedValid | com.io7m.taskrecorder.core/src/main/java/com/io7m/taskrecorder/core/TRTaskRecorder.java:98-99 | appending a fresh nested recorder keeps every recorder of the tree valid |
| TaskRecorders.TaskRecorder.SubtaskDisjoint | com.io7m.taskrecorder.core/src/main/java/com/io7m/taskrecorder/core/TRTaskRecorder.java:98-99 | after appending a nested recorder, the children of every enclosing recorder still own disjoint recorders and steps |
| TaskRecorders.TaskRecorder.SubtaskAppendedResults | com.io7m.taskrecorder.core/src/main/java/com/io7m/taskrecorder/core/TRTaskRecorder.java:98-99 | appending a nested recorder keeps the earlier children's results and adds the new recorder's unresolved error |
| TaskRecorders.TaskRecorder.BeginStep | com.io7m.taskrecorder.core/src/main/java/com/io7m/taskrecorder/core/TRTaskRecorder.java:103-115 | appends exactly one fresh step (d, Succeeded("")) at the end and makes it current. Earlier children keep their items, so the snapshot gains exactly that step. |
| TaskRecorders.TaskRecorder.AttachStep | com.io7m.taskrecorder.core/src/main/java/com/io7m/taskrecorder/core/TRTaskRecorder.java:111-113 | the appending step of beginStep: the new step is last and current, and no other recorder's children, current step or resolution changes |
| TaskRecorders.TaskRecorder.StepAppendedValid | com.io7m.taskrecorder.core/src/main/java/com/io7m/taskrecorder/core/TRTaskRecorder.java:111-113 | appending a fresh step keeps every recorder of the tree valid |
| TaskRecorders.TaskRecorder.StepDisjoint | com.io7m.taskrecorder.core/src/main/java/com/io7m/taskrecorder/core/TRTaskRecorder.java:111-113 | after appending a step, the children of every enclosing recorder still own disjoint steps |
| TaskRecorders.TaskRecorder.StepAppendedResults | com.io7m.taskrecorder.core/src/main/java/com/io7m/taskrecorder/core/TRTaskRecorder.java:111-113 | appending a step keeps the earlier children's results and adds the step's record |
| TaskRecorders.TaskRecorder.StepCurrent | com.io7m.taskrecorder.core/src/main/java/com/io7m/taskrecorder/core/TRTaskRecorder.java:117-121 | returns the current step, which is the last step child: every later child is a nested recorder |
| TaskRecorders.TaskRecorder.SetStepResolution | com.io7m.taskrecorder.core/src/main/java/com/io7m/taskrecorder/core/TRTaskRecorderType.java:115-120 | writes the resolution to the current step only. The children, the task resolution and every other item are unchanged; the current step's item changes to the new record. |
| TaskRecorders.TaskRecorder.StepResults | com.io7m.taskrecorder.core/src/main/java/com/io7m/taskrecorder/core/TRTaskRecorder.java:182-188 | changing the resolution of the step of child i, current or not, changes the result of that child and of no other |
| TaskRecorders.TaskRecorder.StepHandleWritten | com.io7m.taskrecorder.core/src/main/java/com/io7m/taskrecorder/core/TRTaskRecorder.java:182-188 | a write through the handle of any step child keeps the tree invariant. It replaces exactly that child's item by the step's new record and leaves a failed snapshot as it was. |
| TaskRecorders.TaskRecorder.SetStepSucceeded | com.io7m.taskrecorder.tests/src/main/java/com/io7m/taskrecorder/tests/TRTaskRecorderTest.java:139 | the current step becomes Succeeded(message), and only its item changes |
| TaskRecorders.TaskRecorder.SetStepSucceededEmpty | com.io7m.taskrecorder.tests/src/main/java/com/io7m/taskrecorder/tests/TRTaskRecorderTest.java:141 | the current step becomes Succeeded(""), and only its item changes |
| TaskRecorders.TaskRecorder.SetStepFailed | com.io7m.taskrecorder.tests/src/main/java/com/io7m/taskrecorder/tests/TRTaskRecorderTest.java:185 | the current step becomes Failed(message) without an exception, and only its item changes |
| TaskRecorders.TaskRecorder.SetStepFailedWith | com.io7m.taskrecorder.tests/src/main/java/com/io7m/taskrecorder/tests/TRTaskRecorderTest.java:187 | the current step becomes Failed(message) with the same exception, and only its item changes |
| TaskRecorders.TaskRecorder.SetStepFailedOptional | com.io7m.taskrecorder.tests/src/main/java/com/io7m/taskrecorder/tests/TRTaskRecorderTest.java:189 | the current step becomes Failed(message) with the optional exception as given, and only its item changes |
| TaskRecorders.TaskRecorder.ResolutionsOnlyChanged | com.io7m.taskrecorder.core/src/main/java/com/io7m/taskrecorder/core/TRTaskRecorder.java:123-129 | writing resolutions anywhere in a tree keeps the tree invariant |
| TaskRecorders.TaskRecorder.Untouched | com.io7m.taskrecorder.core/src/main/java/com/io7m/taskrecorder/core/TRTaskRecorder.java:144-149 | a tree that nothing changed keeps its invariant and its conversion results |
| TaskRecorders.TaskRecorder.NestedResolutionResults | com.io7m.taskrecorder.core/src/main/java/com/io7m/taskrecorder/core/TRTaskRecorder.java:75-77 | resolving a directly nested recorder changes the parent's result for that child only, to that child's new item |
| TaskRecorders.TaskRecorder.SetTaskResolution | com.io7m.taskrecorder.core/src/main/java/com/io7m/taskrecorder/core/TRTaskRecorder.java:123-129 | the resolution replaces any earlier one, so the last write wins, and the items are unchanged. toTask then succeeds exactly when the items convert, with this resolution. An earlier successful snapshot changes only in its resolution. |
| TaskRecorders.TaskRecorder.SetTaskSucceeded | com.io7m.taskrecorder.core/src/main/java/com/io7m/taskrecorder/core/TRTaskRecorderType.java:76-81 | the same effect as setTaskResolution(Succeeded(message, value)) |
| TaskRecorders.TaskRecorder.SetTaskFailed | com.io7m.taskrecorder.core/src/main/java/com/io7m/taskrecorder/core/TRTaskRecorderType.java:90-95 | the same effect as setTaskResolution(Failed(message, exception)) |
| TaskRecorders.TaskRecorder.SetTaskFailedMessage | com.io7m.taskrecorder.core/src/main/java/com/io7m/taskrecorder/core/TRTaskRecorderType.java:103-107 | the same effect as setTaskResolution(Failed(message, none)) |
| TaskRecorders.TaskRecorder.Close | com.io7m.taskrecorder.core/src/main/java/com/io7m/taskrecorder/core/TRTaskRecorder.java:144-149 | fails if and only if no resolution is set, with the state error naming the current step, and changes nothing |
| Steps.MutableStep.constructor | com.io7m.taskrecorder.core/src/main/java/com/io7m/taskrecorder/core/TRStep.java:35-44 | a new step has the given name and resolution Succeeded("") |
| Steps.MutableStep.SetSucceeded | com.io7m.taskrecorder.core/src/main/java/com/io7m/taskrecorder/core/TRStep.java:46-57 | the resolution becomes Succeeded(message), the empty message included |
| Steps.MutableStep.SetFailed | com.io7m.taskrecorder.core/src/main/java/com/io7m/taskrecorder/core/TRStep.java:65-72 | the resolution becomes Failed(message, exception), with the exception kept |
| Steps.MutableStep.Resolution | com.io7m.taskrecorder.core/src/main/java/com/io7m/taskrecorder/core/TRStep.java:74-78 | returns the current resolution and changes nothing |
| Steps.MutableStep.Name | com.io7m.taskrecorder.core/src/main/java/com/io7m/taskrecorder/core/TRStep.java:80-84 | returns the name given at construction |
| Scenarios.OverwriteStep | com.io7m.taskrecorder.core/src/main/java/com/io7m/taskrecorder/core/TRStep.java:46-84 | each setter overwrites the previous resolution completely, so only the last call is observable. Reading twice gives the same value, and the name never changes. |
| Scenarios.EmptyTaskRejected | com.io7m.taskrecorder.tests/src/main/java/com/io7m/taskrecorder/tests/TRTaskRecorderTest.java:51-60 | a task record with no items is rejected with the argument error |
| Scenarios.CloseUnresolved | com.io7m.taskrecorder.tests/src/main/java/com/io7m/taskrecorder/tests/TRTaskRecorderTest.java:66-73 | closing a fresh recorder fails with "No resolution was set for task 'Started task...'" |
| Scenarios.CloseTwice | com.io7m.taskrecorder.core/src/main/java/com/io7m/taskrecorder/core/TRTaskRecorder.java:144-149 | once a resolution is set, repeated close calls all pass |
| Scenarios.Decide | com.io7m.taskrecorder.core/src/main/java/com/io7m/taskrecorder/core/TRTaskRecorderType.java:66-107 | each task setter writes its resolution and leaves the items unchanged |
| Scenarios.RecordResolutionOnly | com.io7m.taskrecorder.tests/src/main/java/com/io7m/taskrecorder/tests/TRTaskRecorderTest.java:79-102 | a created recorder given only a task resolution snapshots to [Step("Started task...", Succeeded(""))] with that resolution, and close passes (the same holds for the sessions at lines 108-126, 277-296 and 302-321) |
| Scenarios.Apply | com.io7m.taskrecorder.tests/src/main/java/com/io7m/taskrecorder/tests/TRTaskRecorderTest.java:139-143 | each step setter writes its resolution to the current step, and only that item changes |
| Scenarios.BeginOneStep | com.io7m.taskrecorder.core/src/main/java/com/io7m/taskrecorder/core/TRTaskRecorder.java:103-115 | beginStep on a root recorder without subtasks appends the fresh step's handle, makes it current, and adds exactly its item |
| Scenarios.AppendResolvedStep | com.io7m.taskrecorder.core/src/main/java/com/io7m/taskrecorder/core/TRTaskRecorderType.java:42-52 | beginStep followed by a step setter adds exactly one item, the new step with the written resolution |
| Scenarios.BeginTwoSteps | com.io7m.taskrecorder.core/src/main/java/com/io7m/taskrecorder/core/TRTaskRecorder.java:103-115 | two steps begun on a fresh recorder follow its first step in order, and the later one is current |
| Scenarios.WriteEarlierStep | com.io7m.taskrecorder.core/src/main/java/com/io7m/taskrecorder/core/TRTaskRecorder.java:182-188 | writing through the handle of a step that is no longer current changes that step's item only, so the snapshot shows the earlier step with the new resolution |
| Scenarios.ResolveAndSnapshot | com.io7m.taskrecorder.core/src/main/java/com/io7m/taskrecorder/core/TRTaskRecorder.java:131-142 | a resolved recorder whose items convert snapshots to exactly those items with that resolution |
| Scenarios.RecordSucceededSteps | com.io7m.taskrecorder.tests/src/main/java/com/io7m/taskrecorder/tests/TRTaskRecorderTest.java:132-169 | three steps with Succeeded("OK 0"), Succeeded("") and Succeeded("OK 2") appear in that order after the first step, and the resolution carries 23. Closing the recorder then passes. |
| Scenarios.RecordFailedSteps | com.io7m.taskrecorder.tests/src/main/java/com/io7m/taskrecorder/tests/TRTaskRecorderTest.java:175-215 | three failed steps appear in order with their messages and with no exception, ex0 and ex1 respectively. Closing the recorder then passes. |
| Scenarios.AddSubtask | com.io7m.taskrecorder.core/src/main/java/com/io7m/taskrecorder/core/TRTaskRecorder.java:90-101 | beginSubtask on a root adds a fresh unresolved recorder holding only its step, at the given position |
| Scenarios.ResolveSubtask | com.io7m.taskrecorder.tests/src/main/java/com/io7m/taskrecorder/tests/TRTaskRecorderTest.java:229-232 | a nested recorder resolved, snapshotted and closed yields its task, passes close, and changes the parent's results at its own position only |
| Scenarios.SucceedAndSnapshot | com.io7m.taskrecorder.tests/src/main/java/com/io7m/taskrecorder/tests/TRTaskRecorderTest.java:240-249 | the parent resolved after its nested recorders snapshots to the items they collect to |
| Scenarios.AddResolvedSubtask | com.io7m.taskrecorder.tests/src/main/java/com/io7m/taskrecorder/tests/TRTaskRecorderTest.java:234-238 | beginSubtask, then resolving, snapshotting and closing the nested recorder, replaces the parent's new unresolved result by the nested snapshot |
| Scenarios.SubtaskResultSteps | com.io7m.taskrecorder.tests/src/main/java/com/io7m/taskrecorder/tests/TRTaskRecorderTest.java:221-271 | the parent's results gain the two nested snapshots in order and collect to the final item list, whose nested items are described "Subtask X" and "Subtask Y" |
| Scenarios.BeginWithSubtaskX | com.io7m.taskrecorder.tests/src/main/java/com/io7m/taskrecorder/tests/TRTaskRecorderTest.java:225-232 | a fresh root with its first nested recorder resolved with 23 |
| Scenarios.RecordSubtasks | com.io7m.taskrecorder.tests/src/main/java/com/io7m/taskrecorder/tests/TRTaskRecorderTest.java:221-271 | two nested recorders snapshot to their own tasks (23 and 17) and pass close. The parent's snapshot holds the first step and both nested tasks in order, described by their creation descriptions, and the parent's resolution is 40. Closing the parent then passes. |

## Left out

- Logging: the SLF4J logger and its trace and debug calls are I/O with no effect on the recorded state.
- Null checks: the `requireNonNull` checks cannot fail, because Dafny references and datatype values are never null. This includes the check that a task record has a resolution (`TRTask.java:45`), so the model has no missing-resolution path.
- toString: the formatting of `toString` is not modelled; it depends on record formatting that is not part of this model.
- The "Unrecognized recorder type" branch of `toTaskItem` is not modelled: it is unreachable, because a child is a closed datatype of two cases.
- Exceptions: a Java `Throwable` is modelled as a `Cause` carrying only an identity, since the recorder only passes exceptions along.
- Subtask result types: a nested recorder has the same result type as its parent, whereas Java's `beginSubtask` lets each choose its own.
- Concurrency and any closed state are not modelled. The code has neither, and `close` is only the resolution check.
- The step-setter interface `TRTaskStepResolutionRecorderType` is not part of this model. Its five setters are modelled from how the test suite calls them, each as a call to setStepResolution. The tests observe each step's message and its success or failure, and the exception where one is passed. `SetStepFailed(message)` writing `Failed(message, none)` is this model's assumption, since the test never checks that step's exception (TRTaskRecorderTest.java:199-202). `RecordFailedSteps` inherits that assumption for "Step 0".
- TRStep resolutions: the separate resolution type of `TRStep` has the same two cases as the step resolution and reuses it.
- The older recorder API (`TRTask.create`, `steps()`, `setResult`) and its tests are not modelled; its implementation is not part of this model.
- TaskRecorders.TaskRecorder.SetStepResolution, TaskRecorders.TaskRecorder.BeginStep, TaskRecorders.TaskRecorder.BeginSubtask and TaskRecorders.StepRecorder.SetStepResolution (with `StepHandleWritten`) state how the items of the recorder they are called on, or of the handle's owner, change. When that recorder is nested, no lemma states how an enclosing recorder's `Results()`/`Items()` change; only a task resolution of a direct child is covered (`NestedResolutionResults`).
- Scenarios: the sessions are proved for root recorders and their direct children. Deeper nesting is covered by the general contracts of `TaskRecorder`, not by a scenario.
