/**
 * The live task recorder (TRTaskRecorder with the default methods of
 * TRTaskRecorderType) and its step sub-recorder (TRStepRecorder).
 *
 * A recorder owns an ordered list of child recorders: step recorders and
 * nested task recorders. Nested recorders are objects of their own that the
 * caller keeps using after they were appended, so every recorder knows the
 * root of its tree (a ghost constant) and the invariant InTree() is stated
 * over the whole tree: every node of the root's TaskRepr is NodeValid().
 *
 * The methods state how the item list changes as a sequence update
 * (appending one item, replacing item j). A caller that chains several of
 * them states the item list it expects first and asserts each update
 * (e.g. that before[j := x] is the expected list) before the heap changes.
 * Calls on a nested recorder are costlier to chain than calls on a root: a
 * helper method should carry about one of them, passing the states before
 * and after as ghost parameters.
 */
module TaskRecorders {
  import opened Wrappers
  import opened Resolutions
  import opened Tasks
  import opened ItemLists

  /** The state error raised when no task resolution was set. */
  function UnresolvedError(description: string): Error
  {
    IllegalState("No resolution was set for task '" + description + "'")
  }

  /** A step being recorded: a fixed description and an overwritable resolution. */
  class StepRecorder {
    const description: string
    var resolution: StepResolution

    constructor (description: string)
      ensures this.description == description && resolution == StepSucceeded("")
    {
      this.description := description;
      resolution := StepSucceeded("");
    }

    /** toStep: the immutable step record for the current state. */
    function ToStep(): (s: Step)
      reads this`resolution
      ensures s.description == description && s.resolution == resolution
    {
      Step(description, resolution)
    }

    /** setStepResolution: the new resolution replaces the old one. */
    method SetStepResolution(r: StepResolution)
      modifies this`resolution
      ensures resolution == r
    {
      resolution := r;
    }
  }

  /** A child of a task recorder. */
  datatype Child<T> = StepChild(step: StepRecorder) | TaskChild(task: TaskRecorder<T>)

  /** The recorder a task child is, as a set for use in reads clauses; empty for a step child. */
  ghost function RecorderOf<T>(ch: Child<T>): set<TaskRecorder<T>>
  {
    if ch.TaskChild? then {ch.task} else {}
  }

  /** The step recorders a child owns. */
  ghost function StepsOf<T>(ch: Child<T>): set<StepRecorder>
    reads RecorderOf(ch)`StepRepr
  {
    match ch
    case StepChild(s) => {s}
    case TaskChild(c) => c.StepRepr
  }

  /** The task recorders a child owns. */
  ghost function TasksOf<T>(ch: Child<T>): set<TaskRecorder<T>>
    reads RecorderOf(ch)`TaskRepr
  {
    match ch
    case StepChild(_) => {}
    case TaskChild(c) => c.TaskRepr
  }

  /** A child whose whole footprint is unchanged keeps its snapshot item. */
  twostate lemma SameItem<T>(ch: Child<T>)
    requires old(ch.TaskChild? ==> ch.task.Valid())
    requires ch.TaskChild? ==> unchanged(old(ch.task.TaskRepr)) && unchanged(old(ch.task.StepRepr))
    requires ch.StepChild? ==> unchanged(ch.step)
    ensures ch.TaskChild? ==> ch.task.Valid()
    ensures ItemOf(ch) == old(ItemOf(ch))
  {
  }

  /** Every child lies within the given footprint and every nested recorder is valid. */
  ghost predicate Within<T>(cs: seq<Child<T>>, tasks: set<TaskRecorder<T>>, steps: set<StepRecorder>)
    reads tasks`TaskRepr, tasks`recorders, tasks`currentIndex, tasks`stepCurrent, tasks`StepRepr
  {
    forall j :: 0 <= j < |cs| ==>
      match cs[j]
      case StepChild(s) => s in steps
      case TaskChild(c) => c in tasks && c.TaskRepr <= tasks && c.StepRepr <= steps && c.Valid()
  }

  /**
   * toTaskItem: the snapshot item of one child, which depends on that child's
   * own footprint only; a nested recorder is converted by its own toTask.
   */
  function ItemOf<T>(ch: Child<T>): (r: Result<Item<T>, Error>)
    reads RecorderOf(ch)`TaskRepr, RecorderOf(ch)`StepRepr
    reads (if ch.TaskChild? then ch.task.TaskRepr else {})`recorders
    reads (if ch.TaskChild? then ch.task.TaskRepr else {})`currentIndex
    reads (if ch.TaskChild? then ch.task.TaskRepr else {})`stepCurrent
    reads (if ch.TaskChild? then ch.task.TaskRepr else {})`TaskRepr
    reads (if ch.TaskChild? then ch.task.TaskRepr else {})`StepRepr
    reads (if ch.TaskChild? then ch.task.TaskRepr else {})`resolution
    reads StepsOf(ch)`resolution
    requires ch.TaskChild? ==> ch.task.Valid()
    decreases TasksOf(ch), 4
    ensures r.Success? ==> r.value.WellFormed()
    ensures ch.StepChild? ==> r == Success(StepItem(ch.step.ToStep()))
    ensures ch.TaskChild? && r.Success? ==> r.value.TaskItem? && ch.task.ToTask() == Success(r.value.task)
    ensures ch.TaskChild? && r.Failure? ==> ch.task.ToTask() == Failure(r.error)
  {
    match ch
    case StepChild(s) => Success(StepItem(s.ToStep()))
    case TaskChild(c) =>
      var t := c.ToTask();
      if t.Success? then Success(TaskItem(t.value)) else Failure(t.error)
  }

  /** The conversion results of the children, one for one and in order. */
  function ChildResults<T>(cs: seq<Child<T>>, ghost tasks: set<TaskRecorder<T>>, ghost steps: set<StepRecorder>)
    : (rs: seq<Result<Item<T>, Error>>)
    reads tasks`TaskRepr, tasks`recorders, tasks`currentIndex, tasks`stepCurrent, tasks`StepRepr
    reads tasks`resolution, steps`resolution
    requires Within(cs, tasks, steps)
    decreases tasks, 5, |cs|
    ensures |rs| == |cs| && forall j :: 0 <= j < |cs| ==> rs[j] == ItemOf(cs[j])
  {
    if |cs| == 0 then []
    else ChildResults(cs[..|cs| - 1], tasks, steps) + [ItemOf(cs[|cs| - 1])]
  }

  /** Records a new nested recorder and its step in the footprints of every recorder in A. */
  ghost method AddToFootprints<T>(A: set<TaskRecorder<T>>, t: TaskRecorder<T>, s: StepRecorder)
    modifies A`TaskRepr, A`StepRepr
    ensures forall m | m in A :: m.TaskRepr == old(m.TaskRepr) + {t} && m.StepRepr == old(m.StepRepr) + {s}
  {
    forall m | m in A {
      m.TaskRepr := m.TaskRepr + {t};
    }
    forall m | m in A {
      m.StepRepr := m.StepRepr + {s};
    }
  }

  /** Records a new step in the footprints of every recorder in A. */
  ghost method AddStepToFootprints<T>(A: set<TaskRecorder<T>>, s: StepRecorder)
    modifies A`StepRepr
    ensures forall m | m in A :: m.StepRepr == old(m.StepRepr) + {s}
  {
    forall m | m in A {
      m.StepRepr := m.StepRepr + {s};
    }
  }

  class TaskRecorder<T> {
    /** The children, in the order they were begun; child 0 names the task. */
    var recorders: seq<Child<T>>
    /** The step that step resolutions are written to. */
    var stepCurrent: StepRecorder
    /** The task resolution; None until one is set. */
    var resolution: Option<TaskResolution<T>>

    /** The description this recorder was created with. */
    ghost const title: string
    /** The root of the tree this recorder belongs to; null for a root. */
    ghost const root: TaskRecorder?<T>
    /** The position of stepCurrent among the children. */
    ghost var currentIndex: nat
    /** A footprint holding this recorder and every task recorder it reaches through nested children. */
    ghost var TaskRepr: set<TaskRecorder<T>>
    /** Every step recorder in this recorder and its nested recorders. */
    ghost var StepRepr: set<StepRecorder>

    ghost function Root(): TaskRecorder<T>
    {
      if root == null then this else root
    }

    /** What one node of a tree must satisfy, given the sets of the nodes below it. */
    ghost predicate NodeValid()
      reads this`recorders, this`currentIndex, this`stepCurrent, this`TaskRepr, this`StepRepr
      reads TaskRepr`TaskRepr, TaskRepr`StepRepr
    {
      && this in TaskRepr
      && |recorders| > 0 && recorders[0].StepChild? && recorders[0].step.description == title
      && currentIndex < |recorders| && recorders[currentIndex] == StepChild(stepCurrent)
      && (forall j :: currentIndex < j < |recorders| ==> recorders[j].TaskChild?)
      && (forall j :: 0 <= j < |recorders| && recorders[j].StepChild? ==> recorders[j].step in StepRepr)
      && (forall j :: 0 <= j < |recorders| && recorders[j].TaskChild? ==>
            recorders[j].task in TaskRepr && recorders[j].task != this)
      && (forall k {:trigger k.TaskRepr} {:trigger k.StepRepr} :: k in TaskRepr ==>
            && k.TaskRepr <= TaskRepr && k.StepRepr <= StepRepr
            && k.Root() == Root()
            && (k != this ==> this !in k.TaskRepr))
      && (forall i, j :: 0 <= i < j < |recorders| ==>
            StepsOf(recorders[i]) !! StepsOf(recorders[j]) && TasksOf(recorders[i]) !! TasksOf(recorders[j]))
    }

    /** This recorder and every recorder nested in it are well formed. */
    ghost predicate Valid()
      reads this`TaskRepr, TaskRepr`recorders, TaskRepr`currentIndex, TaskRepr`stepCurrent
      reads TaskRepr`TaskRepr, TaskRepr`StepRepr
    {
      this in TaskRepr && NodeValid() && forall m {:trigger m.NodeValid()} :: m in TaskRepr ==> m.NodeValid()
    }

    /** The invariant every recorder handed to a caller keeps. */
    ghost predicate InTree()
      reads Root()`TaskRepr, Root().TaskRepr`recorders, Root().TaskRepr`currentIndex
      reads Root().TaskRepr`stepCurrent, Root().TaskRepr`TaskRepr, Root().TaskRepr`StepRepr
    {
      Root().Valid() && this in Root().TaskRepr && Valid()
    }

    /** The recorders of the tree whose subtree holds this one. */
    ghost function Ancestors(): set<TaskRecorder<T>>
      reads Root()`TaskRepr, Root().TaskRepr`TaskRepr
    {
      set m | m in Root().TaskRepr && this in m.TaskRepr
    }

    lemma NestedValid(k: TaskRecorder<T>)
      requires Valid() && k in TaskRepr
      ensures k.Valid() && k.TaskRepr <= TaskRepr && k.StepRepr <= StepRepr && k.Root() == Root()
    {
    }

    /** Every recorder of a valid tree satisfies the invariant InTree(). */
    lemma MemberInTree(k: TaskRecorder<T>)
      requires Root() == this && Valid() && k in TaskRepr
      ensures k.InTree()
    {
      NestedValid(k);
    }

    /** The children lie in the footprint below this recorder. */
    lemma ChildrenWithin()
      requires Valid()
      ensures Within(recorders, TaskRepr - {this}, StepRepr)
    {
      forall j | 0 <= j < |recorders| && recorders[j].TaskChild?
        ensures recorders[j].task.Valid()
      {
        NestedValid(recorders[j].task);
      }
    }

    /** The private constructor: a recorder whose only child is a step named by the description. */
    constructor Init(description: string, ghost root: TaskRecorder?<T>)
      ensures this.root == root && title == description && resolution == None
      ensures fresh(stepCurrent) && stepCurrent.description == description
      ensures stepCurrent.resolution == StepSucceeded("")
      ensures recorders == [StepChild(stepCurrent)] && currentIndex == 0
      ensures TaskRepr == {this} && StepRepr == {stepCurrent}
      ensures NodeValid()
    {
      this.root := root;
      title := description;
      var first := new StepRecorder(description);
      recorders := [StepChild(first)];
      stepCurrent := first;
      currentIndex := 0;
      resolution := None;
      StepRepr := {first};
      new;
      TaskRepr := {this};
    }

    /** create: a new root recorder. */
    static method Create(description: string) returns (r: TaskRecorder<T>)
      ensures fresh(r) && fresh(r.stepCurrent) && r.Root() == r && r.TaskRepr == {r} && r.InTree()
      ensures r.recorders == [StepChild(r.stepCurrent)] && r.currentIndex == 0 && r.stepCurrent.description == description
      ensures r.stepCurrent.resolution == StepSucceeded("") && r.resolution == None
      ensures r.Items() == Success([StepItem(Step(description, StepSucceeded("")))])
    {
      r := new TaskRecorder.Init(description, null);
      r.FirstItems();
    }

    /** The snapshot items of a recorder that holds only its first step. */
    lemma FirstItems()
      requires NodeValid() && TaskRepr == {this} && recorders == [StepChild(stepCurrent)]
      ensures Valid() && Results() == [Success(StepItem(stepCurrent.ToStep()))]
      ensures Items() == Success([StepItem(stepCurrent.ToStep())])
    {
      var item := StepItem(stepCurrent.ToStep());
      assert Results() == [Success(item)];
      var rs: seq<Result<Item<T>, Error>> := [Success(item)];
      assert rs[..0] == [];
      assert Collect(rs[..0]) == Success([]);
      assert Collect(rs) == Success([] + [item]);
      assert [] + [item] == [item];
    }

    /** checkResolution: a state error naming the current step when no resolution is set. */
    function CheckResolution(): (r: Outcome<Error>)
      reads this`resolution, this`stepCurrent
      ensures r.Fail? <==> resolution.None?
      ensures r.Fail? ==> r.error == UnresolvedError(stepCurrent.description)
    {
      if resolution.None? then Fail(UnresolvedError(stepCurrent.description)) else Pass
    }

    /**
     * The conversion results of the children. The reads clauses of Results
     * and Items leave out this recorder's own resolution: it does not enter
     * any child's item, so setting it keeps the items by framing alone.
     */
    function Results(): (rs: seq<Result<Item<T>, Error>>)
      reads this`TaskRepr, TaskRepr`recorders, TaskRepr`currentIndex, TaskRepr`stepCurrent
      reads TaskRepr`TaskRepr, TaskRepr`StepRepr, (TaskRepr - {this})`resolution, StepRepr`resolution
      requires Valid()
      decreases TaskRepr, 1
      ensures |rs| == |recorders|
      ensures forall j :: 0 <= j < |recorders| ==>
                (recorders[j].TaskChild? ==> recorders[j].task.Valid()) && rs[j] == ItemOf(recorders[j])
    {
      ChildrenWithin();
      ChildResults(recorders, TaskRepr - {this}, StepRepr)
    }

    /** The items the snapshot holds: one per child, in order, or the first child's error. */
    function Items(): (r: Result<seq<Item<T>>, Error>)
      reads this`TaskRepr, TaskRepr`recorders, TaskRepr`currentIndex, TaskRepr`stepCurrent
      reads TaskRepr`TaskRepr, TaskRepr`StepRepr, (TaskRepr - {this})`resolution, StepRepr`resolution
      requires Valid()
      decreases TaskRepr, 2
      ensures r.Success? ==> |r.value| == |recorders|
      ensures r.Success? ==> forall j :: 0 <= j < |recorders| && recorders[j].StepChild? ==>
                r.value[j] == StepItem(recorders[j].step.ToStep())
      ensures r.Success? ==> forall j :: 0 <= j < |recorders| && recorders[j].TaskChild? ==>
                && r.value[j].TaskItem? && recorders[j].task.Valid()
                && recorders[j].task.ToTask() == Success(r.value[j].task)
      ensures r.Failure? ==> exists j :: 0 <= j < |recorders| && recorders[j].TaskChild? &&
                                         recorders[j].task.Valid() && recorders[j].task.ToTask() == Failure(r.error)
    {
      ChildrenWithin();
      var rs := Results();
      if Collect(rs).Failure? then CollectFailsFirst(rs); Collect(rs) else Collect(rs)
    }

    /**
     * toTask: the immutable snapshot of this recorder and of every recorder
     * nested in it, or the state error of the first unresolved one.
     */
    function ToTask(): (r: Result<Task<T>, Error>)
      reads this`TaskRepr, TaskRepr`recorders, TaskRepr`currentIndex, TaskRepr`stepCurrent
      reads TaskRepr`TaskRepr, TaskRepr`StepRepr, TaskRepr`resolution, StepRepr`resolution
      requires Valid()
      decreases TaskRepr, 3
      ensures resolution.None? ==> r == Failure(UnresolvedError(stepCurrent.description))
      ensures resolution.Some? ==> (r.Success? <==> Items().Success?)
      ensures r.Success? ==> r.value.WellFormed() && r.value == Task(Items().value, resolution.value)
      ensures r.Failure? && resolution.Some? ==> Items() == Failure(r.error)
      ensures r.Success? ==> r.value.Description() == title
    {
      match CheckResolution()
      case Fail(e) => Failure(e)
      case Pass =>
        var items := Items();
        if items.Failure? then Failure(items.error) else NewTask(items.value, resolution.value)
    }

    /**
     * In a snapshot, the item of a nested recorder is a task described by
     * that recorder's creation description.
     */
    lemma NestedItemDescribed(j: nat)
      requires Valid() && Items().Success? && j < |recorders| && recorders[j].TaskChild?
      ensures Items().value[j].TaskItem? && Items().value[j].task.WellFormed()
      ensures Items().value[j].task.Description() == recorders[j].task.title
    {
    }

    /** This recorder and every recorder nested in it has a task resolution. */
    ghost predicate AllResolved()
      reads this`TaskRepr, TaskRepr`recorders, TaskRepr`currentIndex, TaskRepr`stepCurrent
      reads TaskRepr`TaskRepr, TaskRepr`StepRepr, TaskRepr`resolution
      requires Valid()
      decreases TaskRepr
    {
      && resolution.Some?
      && forall j :: 0 <= j < |recorders| && recorders[j].TaskChild? ==> recorders[j].task.AllResolved()
    }

    /** k is this recorder or is reached from it through nested recorder children. */
    ghost predicate Reaches(k: TaskRecorder<T>)
      reads this`TaskRepr, TaskRepr`recorders, TaskRepr`currentIndex, TaskRepr`stepCurrent
      reads TaskRepr`TaskRepr, TaskRepr`StepRepr
      requires Valid()
      decreases TaskRepr
    {
      ChildrenWithin();
      || k == this
      || exists j :: 0 <= j < |recorders| && recorders[j].TaskChild? && recorders[j].task.Reaches(k)
    }

    /**
     * toTask succeeds exactly when no recorder of the subtree is left
     * without a task resolution: steps never fail, and a step resolution
     * need not have been set.
     */
    lemma {:induction false} ToTaskSucceedsIffResolved()
      requires Valid()
      decreases TaskRepr
      ensures ToTask().Success? <==> AllResolved()
    {
      if resolution.Some? {
        CollectSucceeds(Results());
        ChildrenWithin();
        forall j | 0 <= j < |recorders| && recorders[j].TaskChild?
          ensures recorders[j].task.ToTask().Success? <==> recorders[j].task.AllResolved()
        {
          NestedValid(recorders[j].task);
          recorders[j].task.ToTaskSucceedsIffResolved();
        }
      }
    }

    /**
     * When toTask fails, its error is the state error of some recorder of
     * the subtree that has no task resolution, naming that recorder's
     * current step.
     */
    lemma {:induction false} ToTaskFailureNamesUnresolved()
      requires Valid() && ToTask().Failure?
      decreases TaskRepr
      ensures exists k :: Reaches(k) && k.resolution.None? && ToTask().error == UnresolvedError(k.stepCurrent.description)
    {
      if resolution.Some? {
        CollectFailsFirst(Results());
        var j :| 0 <= j < |recorders| && Results()[j] == Failure(Items().error) && SucceedUpTo(Results(), j);
        var c := recorders[j].task;
        NestedValid(c);
        c.ToTaskFailureNamesUnresolved();
        var k :| c.Reaches(k) && k.resolution.None? && c.ToTask().error == UnresolvedError(k.stepCurrent.description);
        assert Reaches(k);
      } else {
        assert Reaches(this);
      }
    }

    /** An unresolved recorder anywhere below this one makes toTask fail. */
    lemma {:induction false} UnresolvedBlocks(k: TaskRecorder<T>)
      requires Valid() && Reaches(k) && k.resolution.None?
      decreases TaskRepr
      ensures ToTask().Failure?
    {
      if k != this && resolution.Some? {
        ChildrenWithin();
        var j :| 0 <= j < |recorders| && recorders[j].TaskChild? && recorders[j].task.Reaches(k);
        var c := recorders[j].task;
        NestedValid(c);
        c.UnresolvedBlocks(k);
        CollectSucceeds(Results());
        assert Results()[j].Failure?;
      }
    }

    /** Every recorder this one reaches lies in its footprint. */
    lemma {:induction false} ReachesWithin(k: TaskRecorder<T>)
      requires Valid() && Reaches(k)
      decreases TaskRepr
      ensures k in TaskRepr
    {
      if k != this {
        ChildrenWithin();
        var j :| 0 <= j < |recorders| && recorders[j].TaskChild? && recorders[j].task.Reaches(k);
        var c := recorders[j].task;
        NestedValid(c);
        c.ReachesWithin(k);
      }
    }

    /** The recorder a subtask child is, for a child list that ends in one. */
    ghost function LastTask(): TaskRecorder<T>
      reads this`recorders
      requires |recorders| > 0 && recorders[|recorders| - 1].TaskChild?
    {
      recorders[|recorders| - 1].task
    }

    /** The state change of beginSubtask keeps every recorder of the tree valid. */
    twostate lemma SubtaskAppendedValid(A: set<TaskRecorder<T>>)
      requires old(InTree()) && A == old(Ancestors())
      requires |recorders| > 0 && recorders[|recorders| - 1].TaskChild?
      requires recorders == old(recorders) + [TaskChild(LastTask())]
      requires fresh(LastTask()) && fresh(LastTask().stepCurrent) && LastTask().Root() == Root()
      requires LastTask().NodeValid() && LastTask().TaskRepr == {LastTask()}
      requires LastTask().StepRepr == {LastTask().stepCurrent}
      requires currentIndex == old(currentIndex) && stepCurrent == old(stepCurrent)
      requires forall m | m in old(Root().TaskRepr) && m != this ::
                 m.recorders == old(m.recorders) && m.currentIndex == old(m.currentIndex) && m.stepCurrent == old(m.stepCurrent)
      requires forall m | m in A ::
                 m.TaskRepr == old(m.TaskRepr) + {LastTask()} && m.StepRepr == old(m.StepRepr) + {LastTask().stepCurrent}
      requires forall m | m in old(Root().TaskRepr) && m !in A ::
                 m.TaskRepr == old(m.TaskRepr) && m.StepRepr == old(m.StepRepr)
      ensures InTree() && Root().TaskRepr == old(Root().TaskRepr) + {LastTask()}
    {
      ghost var R := old(Root().TaskRepr);
      var t := LastTask();
      var s := t.stepCurrent;
      SubtaskDisjoint(A);
      forall m | m in R + {t}
        ensures m.NodeValid()
      {
        if m == t {
        } else if m !in A {
          assert old(m.NodeValid());
          assert forall k | k in m.TaskRepr :: k !in A;
        } else {
          assert old(m.NodeValid());
          forall k | k in m.TaskRepr
            ensures k.TaskRepr <= m.TaskRepr && k.StepRepr <= m.StepRepr && k.Root() == m.Root()
            ensures k != m ==> m !in k.TaskRepr
          {
            if k != t {
              assert old(k.TaskRepr <= m.TaskRepr && k.StepRepr <= m.StepRepr);
            }
          }
        }
      }
      assert Root().Valid();
      Root().NestedValid(this);
    }

    /** The state change of beginSubtask keeps the children of an enclosing recorder disjoint. */
    twostate lemma SubtaskDisjoint(A: set<TaskRecorder<T>>)
      requires old(InTree()) && A == old(Ancestors())
      requires |recorders| > 0 && recorders[|recorders| - 1].TaskChild?
      requires recorders == old(recorders) + [TaskChild(LastTask())]
      requires fresh(LastTask()) && fresh(LastTask().stepCurrent) && LastTask().TaskRepr == {LastTask()}
      requires LastTask().StepRepr == {LastTask().stepCurrent}
      requires forall m | m in old(Root().TaskRepr) && m != this :: m.recorders == old(m.recorders)
      requires forall m | m in A ::
                 m.TaskRepr == old(m.TaskRepr) + {LastTask()} && m.StepRepr == old(m.StepRepr) + {LastTask().stepCurrent}
      requires forall m | m in old(Root().TaskRepr) && m !in A ::
                 m.TaskRepr == old(m.TaskRepr) && m.StepRepr == old(m.StepRepr)
      ensures forall node, i, j :: node in A && 0 <= i < j < |node.recorders| ==>
                StepsOf(node.recorders[i]) !! StepsOf(node.recorders[j]) && TasksOf(node.recorders[i]) !! TasksOf(node.recorders[j])
    {
      var t := LastTask();
      var s := t.stepCurrent;
      forall node, i, j | node in A && 0 <= i < j < |node.recorders|
        ensures StepsOf(node.recorders[i]) !! StepsOf(node.recorders[j]) && TasksOf(node.recorders[i]) !! TasksOf(node.recorders[j])
      {
        assert old(node.NodeValid());
        var ci, cj := node.recorders[i], node.recorders[j];
        assert s !in old(StepsOf(ci)) && t !in old(TasksOf(ci));
        assert StepsOf(ci) == old(StepsOf(ci)) + (if ci.TaskChild? && ci.task in A then {s} else {});
        assert TasksOf(ci) == old(TasksOf(ci)) + (if ci.TaskChild? && ci.task in A then {t} else {});
        if !(node == this && j == |recorders| - 1) {
          assert old(TasksOf(ci) !! TasksOf(cj)) && old(StepsOf(ci) !! StepsOf(cj));
          assert s !in old(StepsOf(cj)) && t !in old(TasksOf(cj));
          assert StepsOf(cj) == old(StepsOf(cj)) + (if cj.TaskChild? && cj.task in A then {s} else {});
          assert TasksOf(cj) == old(TasksOf(cj)) + (if cj.TaskChild? && cj.task in A then {t} else {});
        }
      }
    }

    /** The state change of beginSubtask keeps the results of the earlier children. */
    twostate lemma SubtaskAppendedResults()
      requires old(Valid()) && Valid()
      requires old(Within(recorders, TaskRepr - {this}, StepRepr))
      requires |recorders| > 0 && recorders[|recorders| - 1].TaskChild?
      requires recorders == old(recorders) + [TaskChild(LastTask())]
      requires fresh(LastTask()) && LastTask().resolution.None?
      requires forall k | k in old(TaskRepr) && k != this :: unchanged(k)
      requires unchanged(old(StepRepr))
      ensures Results() == old(Results()) + [Failure(UnresolvedError(LastTask().stepCurrent.description))]
    {
      var rs, rs' := old(Results()), Results();
      var last := Failure(UnresolvedError(LastTask().stepCurrent.description));
      forall j | 0 <= j < |rs'|
        ensures rs'[j] == (rs + [last])[j]
      {
        if j < |rs| {
          SameItem(recorders[j]);
        }
      }
      assert rs' == rs + [last];
    }

    /**
     * beginSubtask: appends a fresh nested recorder whose only child is a
     * step with the description and which has no resolution yet; the current
     * step and every earlier child are kept.
     */
    method BeginSubtask(description: string) returns (task: TaskRecorder<T>)
      requires InTree()
      modifies this`recorders, Ancestors()`TaskRepr, Ancestors()`StepRepr
      ensures fresh(task) && fresh(task.stepCurrent) && task.Root() == Root() && task.InTree()
      ensures task.recorders == [StepChild(task.stepCurrent)] && task.title == description
      ensures task.stepCurrent.description == description && task.stepCurrent.resolution == StepSucceeded("")
      ensures task.resolution == None && task.TaskRepr == {task}
      ensures task.ToTask() == Failure(UnresolvedError(description))
      ensures recorders == old(recorders) + [TaskChild(task)] && stepCurrent == old(stepCurrent)
      ensures InTree() && Root().TaskRepr == old(Root().TaskRepr) + {task}
      ensures Results() == old(Results()) + [Failure(UnresolvedError(description))]
      ensures old(Items()).Failure? ==> Items() == old(Items())
      ensures old(Items()).Success? ==> Items() == Failure(UnresolvedError(description))
    {
      task := AttachSubtask(description);
      Root().MemberInTree(task);
      CollectAppend(old(Results()), Failure(UnresolvedError(description)));
    }

    /** The state change of beginSubtask, with the nested recorder's own facts. */
    method AttachSubtask(description: string) returns (task: TaskRecorder<T>)
      requires InTree()
      modifies this`recorders, Ancestors()`TaskRepr, Ancestors()`StepRepr
      ensures fresh(task) && fresh(task.stepCurrent) && task.Root() == Root()
      ensures task.recorders == [StepChild(task.stepCurrent)] && task.title == description
      ensures task.stepCurrent.description == description && task.stepCurrent.resolution == StepSucceeded("")
      ensures task.resolution == None && task.TaskRepr == {task}
      ensures recorders == old(recorders) + [TaskChild(task)] && stepCurrent == old(stepCurrent)
      ensures InTree() && Root().TaskRepr == old(Root().TaskRepr) + {task}
      ensures Results() == old(Results()) + [Failure(UnresolvedError(description))]
    {
      ghost var A := Ancestors();
      ChildrenWithin();
      task := new TaskRecorder.Init(description, Root());
      assert task !in A;
      recorders := recorders + [TaskChild(task)];
      AddToFootprints(A, task, task.stepCurrent);
      assert task.TaskRepr == {task} && task.recorders == [StepChild(task.stepCurrent)];
      assert task.stepCurrent.description == description && task.stepCurrent.resolution == StepSucceeded("");
      assert recorders == old(recorders) + [TaskChild(task)] && stepCurrent == old(stepCurrent);
      SubtaskAppendedValid(A);
      assert forall k | k in old(TaskRepr) && k != this :: k !in A;
      SubtaskAppendedResults();
    }

    /** stepCurrent: the step that step resolutions are written to. */
    method StepCurrent() returns (step: StepRecorder)
      requires InTree()
      ensures step == stepCurrent && step == recorders[currentIndex].step
      ensures forall j :: currentIndex < j < |recorders| ==> recorders[j].TaskChild?
    {
      step := stepCurrent;
    }

    /**
     * setStepResolution: writes the resolution to the current step, which
     * replaces the item of that step and of no other child.
     */
    method SetStepResolution(r: StepResolution)
      requires InTree()
      modifies stepCurrent`resolution
      ensures stepCurrent.resolution == r && InTree()
      ensures Results() == old(Results())[currentIndex := Success(StepItem(Step(stepCurrent.description, r)))]
      ensures old(Items()).Failure? ==> Items() == old(Items())
      ensures old(Items()).Success? ==>
                Items() == Success(old(Items()).value[currentIndex := StepItem(Step(stepCurrent.description, r))])
    {
      ChildrenWithin();
      stepCurrent.SetStepResolution(r);
      ResolutionsOnlyChanged();
      StepResults(currentIndex);
      CollectReplace(old(Results()), currentIndex, StepItem(Step(stepCurrent.description, stepCurrent.resolution)));
    }

    /** setStepSucceeded(message): the current step succeeded with the message. */
    method SetStepSucceeded(message: string)
      requires InTree()
      modifies stepCurrent`resolution
      ensures stepCurrent.resolution == StepSucceeded(message) && InTree()
      ensures Results() == old(Results())[currentIndex := Success(StepItem(Step(stepCurrent.description, StepSucceeded(message))))]
      ensures old(Items()).Failure? ==> Items() == old(Items())
      ensures old(Items()).Success? ==>
                Items() == Success(old(Items()).value[currentIndex := StepItem(Step(stepCurrent.description, StepSucceeded(message)))])
    {
      SetStepResolution(StepSucceeded(message));
    }

    /** setStepSucceeded(): the current step succeeded with the empty message. */
    method SetStepSucceededEmpty()
      requires InTree()
      modifies stepCurrent`resolution
      ensures stepCurrent.resolution == StepSucceeded("") && InTree()
      ensures Results() == old(Results())[currentIndex := Success(StepItem(Step(stepCurrent.description, StepSucceeded(""))))]
      ensures old(Items()).Failure? ==> Items() == old(Items())
      ensures old(Items()).Success? ==>
                Items() == Success(old(Items()).value[currentIndex := StepItem(Step(stepCurrent.description, StepSucceeded("")))])
    {
      SetStepResolution(StepSucceeded(""));
    }

    /** setStepFailed(message): the current step failed without an exception. */
    method SetStepFailed(message: string)
      requires InTree()
      modifies stepCurrent`resolution
      ensures stepCurrent.resolution == StepFailed(message, None) && InTree()
      ensures Results() == old(Results())[currentIndex := Success(StepItem(Step(stepCurrent.description, StepFailed(message, None))))]
      ensures old(Items()).Failure? ==> Items() == old(Items())
      ensures old(Items()).Success? ==>
                Items() == Success(old(Items()).value[currentIndex := StepItem(Step(stepCurrent.description, StepFailed(message, None)))])
    {
      SetStepResolution(StepFailed(message, None));
    }

    /** setStepFailed(message, exception): the current step failed with the exception. */
    method SetStepFailedWith(message: string, exception: Cause)
      requires InTree()
      modifies stepCurrent`resolution
      ensures stepCurrent.resolution == StepFailed(message, Some(exception)) && InTree()
      ensures Results() == old(Results())[currentIndex := Success(StepItem(Step(stepCurrent.description, StepFailed(message, Some(exception)))))]
      ensures old(Items()).Failure? ==> Items() == old(Items())
      ensures old(Items()).Success? ==>
                Items() == Success(old(Items()).value[currentIndex := StepItem(Step(stepCurrent.description, StepFailed(message, Some(exception))))])
    {
      SetStepResolution(StepFailed(message, Some(exception)));
    }

    /** setStepFailed(message, optional exception): the current step failed with the exception, if any. */
    method SetStepFailedOptional(message: string, exception: Option<Cause>)
      requires InTree()
      modifies stepCurrent`resolution
      ensures stepCurrent.resolution == StepFailed(message, exception) && InTree()
      ensures Results() == old(Results())[currentIndex := Success(StepItem(Step(stepCurrent.description, StepFailed(message, exception))))]
      ensures old(Items()).Failure? ==> Items() == old(Items())
      ensures old(Items()).Success? ==>
                Items() == Success(old(Items()).value[currentIndex := StepItem(Step(stepCurrent.description, StepFailed(message, exception)))])
    {
      SetStepResolution(StepFailed(message, exception));
    }

    /** Writing task or step resolutions keeps the tree invariant. */
    twostate lemma ResolutionsOnlyChanged()
      requires old(InTree())
      requires forall k | k in old(Root().TaskRepr) ::
                 unchanged(k`recorders, k`currentIndex, k`stepCurrent, k`TaskRepr, k`StepRepr)
      ensures InTree()
    {
    }

    /** A recorder of a tree that nothing changed keeps its invariant and its results. */
    twostate lemma Untouched()
      requires old(InTree())
      requires forall k | k in old(Root().TaskRepr) :: unchanged(k)
      requires forall x | x in old(Root().StepRepr) :: unchanged(x)
      ensures InTree() && Results() == old(Results())
    {
      ResolutionsOnlyChanged();
      ChildrenWithin();
      var rs, rs' := old(Results()), Results();
      forall j | 0 <= j < |rs|
        ensures rs'[j] == rs[j]
      {
        SameItem(recorders[j]);
      }
    }

    /**
     * Changing the resolution of the step of child i, current or not, changes
     * the result of that child and of no other.
     */
    twostate lemma StepResults(i: nat)
      requires old(Valid()) && Valid()
      requires old(Within(recorders, TaskRepr - {this}, StepRepr))
      requires i < |recorders| && recorders[i].StepChild?
      requires unchanged(this`recorders, this`currentIndex, this`stepCurrent, this`TaskRepr)
      requires forall k | k in old(TaskRepr) :: unchanged(k)
      requires forall x | x in old(StepRepr) && x != recorders[i].step :: unchanged(x)
      ensures Results() == old(Results())[i := Success(StepItem(recorders[i].step.ToStep()))]
    {
      var rs, rs' := old(Results()), Results();
      var s := recorders[i].step;
      forall j | 0 <= j < |rs'|
        ensures rs'[j] == rs[i := Success(StepItem(s.ToStep()))][j]
      {
        if j != i {
          var lo, hi := if j < i then j else i, if j < i then i else j;
          assert StepsOf(recorders[lo]) !! StepsOf(recorders[hi]);
          assert s !in StepsOf(recorders[j]);
          SameItem(recorders[j]);
        }
      }
      assert rs' == rs[i := Success(StepItem(s.ToStep()))];
    }

    /**
     * A write through the handle of any step child, current or not (the
     * handle beginStep returned stays writable after later steps begin):
     * the tree invariant holds and only that child's item changes.
     */
    twostate lemma StepHandleWritten(i: nat)
      requires old(InTree()) && old(Within(recorders, TaskRepr - {this}, StepRepr))
      requires i < |recorders| && recorders[i].StepChild?
      requires forall k | k in old(Root().TaskRepr) :: unchanged(k)
      requires forall x | x in old(Root().StepRepr) && x != recorders[i].step :: unchanged(x)
      ensures InTree()
      ensures Results() == old(Results())[i := Success(StepItem(recorders[i].step.ToStep()))]
      ensures old(Items()).Failure? ==> Items() == old(Items())
      ensures old(Items()).Success? ==> Items() == Success(old(Items()).value[i := StepItem(recorders[i].step.ToStep())])
    {
      ResolutionsOnlyChanged();
      assert old(TaskRepr <= Root().TaskRepr && StepRepr <= Root().StepRepr);
      StepResults(i);
      CollectReplace(old(Results()), i, StepItem(recorders[i].step.ToStep()));
    }

    /**
     * Changing the resolution of a directly nested recorder changes only the
     * result of the child that holds it.
     */
    twostate lemma NestedResolutionResults(j: nat)
      requires old(Valid()) && Valid()
      requires old(Within(recorders, TaskRepr - {this}, StepRepr))
      requires j < |recorders| && recorders[j].TaskChild?
      requires unchanged(this`recorders, this`TaskRepr, this`StepRepr)
      requires forall k | k in old(TaskRepr) && k != recorders[j].task :: unchanged(k)
      requires unchanged(recorders[j].task`recorders, recorders[j].task`currentIndex, recorders[j].task`stepCurrent)
      requires unchanged(recorders[j].task`TaskRepr, recorders[j].task`StepRepr)
      requires forall x | x in old(StepRepr) :: unchanged(x)
      ensures recorders[j].task.Valid()
      ensures Results() == old(Results())[j := ItemOf(recorders[j])]
    {
      var rs, rs' := old(Results()), Results();
      var c := recorders[j].task;
      forall i | 0 <= i < |rs'|
        ensures rs'[i] == rs[j := ItemOf(recorders[j])][i]
      {
        if i != j {
          var lo, hi := if i < j then i else j, if i < j then j else i;
          assert TasksOf(recorders[lo]) !! TasksOf(recorders[hi]);
          assert c !in TasksOf(recorders[i]);
          SameItem(recorders[i]);
        }
      }
      assert rs' == rs[j := ItemOf(recorders[j])];
    }

    /**
     * setTaskResolution: the resolution replaces any earlier one (the last
     * write wins); the children and their items are untouched.
     */
    method SetTaskResolution(r: TaskResolution<T>)
      requires InTree()
      modifies this`resolution
      ensures resolution == Some(r) && InTree()
      ensures Items() == old(Items())
      ensures ToTask().Success? <==> Items().Success?
      ensures ToTask().Success? ==> ToTask().value == Task(Items().value, r)
      ensures ToTask().Failure? ==> Items() == Failure(ToTask().error)
      ensures old(ToTask()).Success? ==> ToTask() == Success(old(ToTask()).value.(resolution := r))
    {
      resolution := Some(r);
      ResolutionsOnlyChanged();
    }

    /** setTaskSucceeded: the same effect as setting a success resolution. */
    method SetTaskSucceeded(message: string, value: T)
      requires InTree()
      modifies this`resolution
      ensures resolution == Some(TaskSucceeded(message, value)) && InTree()
      ensures Items() == old(Items())
      ensures ToTask().Success? <==> Items().Success?
      ensures ToTask().Success? ==> ToTask().value == Task(Items().value, TaskSucceeded(message, value))
    {
      SetTaskResolution(TaskSucceeded(message, value));
    }

    /** setTaskFailed(message, exception): the same effect as setting a failure resolution. */
    method SetTaskFailed(message: string, exception: Option<Cause>)
      requires InTree()
      modifies this`resolution
      ensures resolution == Some(TaskFailed(message, exception)) && InTree()
      ensures Items() == old(Items())
      ensures ToTask().Success? <==> Items().Success?
      ensures ToTask().Success? ==> ToTask().value == Task(Items().value, TaskFailed(message, exception))
    {
      SetTaskResolution(TaskFailed(message, exception));
    }

    /** setTaskFailed(message): a failure resolution without an exception. */
    method SetTaskFailedMessage(message: string)
      requires InTree()
      modifies this`resolution
      ensures resolution == Some(TaskFailed(message, None)) && InTree()
      ensures Items() == old(Items())
      ensures ToTask().Success? <==> Items().Success?
      ensures ToTask().Success? ==> ToTask().value == Task(Items().value, TaskFailed(message, None))
    {
      SetTaskFailed(message, None);
    }

    /**
     * close: fails with the state error naming the current step exactly when
     * no task resolution is set, and changes nothing either way.
     */
    method Close() returns (outcome: Outcome<Error>)
      ensures outcome.Fail? <==> resolution.None?
      ensures outcome.Fail? ==> outcome.error == UnresolvedError(stepCurrent.description)
    {
      outcome := CheckResolution();
    }

    /** The state change of beginStep keeps every recorder of the tree valid. */
    twostate lemma StepAppendedValid(A: set<TaskRecorder<T>>)
      requires old(InTree()) && A == old(Ancestors())
      requires fresh(stepCurrent) && recorders == old(recorders) + [StepChild(stepCurrent)]
      requires currentIndex == |recorders| - 1
      requires forall m | m in old(Root().TaskRepr) :: m.TaskRepr == old(m.TaskRepr)
      requires forall m | m in old(Root().TaskRepr) && m != this ::
                 m.recorders == old(m.recorders) && m.currentIndex == old(m.currentIndex) && m.stepCurrent == old(m.stepCurrent)
      requires forall m | m in A :: m.StepRepr == old(m.StepRepr) + {stepCurrent}
      requires forall m | m in old(Root().TaskRepr) && m !in A :: m.StepRepr == old(m.StepRepr)
      ensures InTree()
    {
      ghost var R := old(Root().TaskRepr);
      StepDisjoint(A);
      forall m | m in R
        ensures m.NodeValid()
      {
        assert old(m.NodeValid());
        if m !in A {
          assert forall k | k in m.TaskRepr :: k !in A;
        } else {
          forall k | k in m.TaskRepr
            ensures k.StepRepr <= m.StepRepr
          {
            assert old(k.StepRepr <= m.StepRepr);
          }
        }
      }
      assert Root().Valid();
      Root().NestedValid(this);
    }

    /** The state change of beginStep keeps the children of an enclosing recorder disjoint. */
    twostate lemma StepDisjoint(A: set<TaskRecorder<T>>)
      requires old(InTree()) && A == old(Ancestors())
      requires fresh(stepCurrent) && recorders == old(recorders) + [StepChild(stepCurrent)]
      requires currentIndex == |recorders| - 1
      requires forall m | m in old(Root().TaskRepr) :: m.TaskRepr == old(m.TaskRepr)
      requires forall m | m in old(Root().TaskRepr) && m != this ::
                 m.recorders == old(m.recorders) && m.currentIndex == old(m.currentIndex) && m.stepCurrent == old(m.stepCurrent)
      requires forall m | m in A :: m.StepRepr == old(m.StepRepr) + {stepCurrent}
      requires forall m | m in old(Root().TaskRepr) && m !in A :: m.StepRepr == old(m.StepRepr)
      ensures forall node, i, j :: node in A && 0 <= i < j < |node.recorders| ==>
                StepsOf(node.recorders[i]) !! StepsOf(node.recorders[j]) && TasksOf(node.recorders[i]) !! TasksOf(node.recorders[j])
    {
      forall node, i, j | node in A && 0 <= i < j < |node.recorders|
        ensures StepsOf(node.recorders[i]) !! StepsOf(node.recorders[j]) && TasksOf(node.recorders[i]) !! TasksOf(node.recorders[j])
      {
        assert old(node.NodeValid());
        var ci, cj := node.recorders[i], node.recorders[j];
        assert stepCurrent !in old(StepsOf(ci));
        assert StepsOf(ci) == old(StepsOf(ci)) + (if ci.TaskChild? && ci.task in A then {stepCurrent} else {});
        if !(node == this && j == |recorders| - 1) {
          assert old(TasksOf(ci) !! TasksOf(cj)) && old(StepsOf(ci) !! StepsOf(cj));
          assert stepCurrent !in old(StepsOf(cj));
          assert StepsOf(cj) == old(StepsOf(cj)) + (if cj.TaskChild? && cj.task in A then {stepCurrent} else {});
        }
      }
    }

    /** The state change of beginStep keeps the results of the earlier children. */
    twostate lemma StepAppendedResults()
      requires old(Valid()) && Valid()
      requires old(Within(recorders, TaskRepr - {this}, StepRepr))
      requires fresh(stepCurrent) && recorders == old(recorders) + [StepChild(stepCurrent)]
      requires forall k | k in old(TaskRepr) && k != this :: unchanged(k)
      requires unchanged(old(StepRepr))
      ensures Results() == old(Results()) + [Success(StepItem(stepCurrent.ToStep()))]
    {
      var rs, rs' := old(Results()), Results();
      var last := Success(StepItem(stepCurrent.ToStep()));
      forall j | 0 <= j < |rs'|
        ensures rs'[j] == (rs + [last])[j]
      {
        if j < |rs| {
          SameItem(recorders[j]);
        }
      }
      assert rs' == rs + [last];
    }

    /**
     * beginStep: appends a fresh step child with resolution Succeeded("") and
     * makes it the current step; every earlier child and its item are kept.
     */
    method BeginStep(description: string) returns (step: StepRecorder)
      requires InTree()
      modifies this`recorders, this`stepCurrent, this`currentIndex, Ancestors()`StepRepr
      ensures fresh(step) && step.description == description && step.resolution == StepSucceeded("")
      ensures recorders == old(recorders) + [StepChild(step)] && stepCurrent == step && currentIndex == |recorders| - 1
      ensures InTree() && Root().TaskRepr == old(Root().TaskRepr)
      ensures Results() == old(Results()) + [Success(StepItem(Step(description, StepSucceeded(""))))]
      ensures old(Items()).Failure? ==> Items() == old(Items())
      ensures old(Items()).Success? ==>
                Items() == Success(old(Items()).value + [StepItem(Step(description, StepSucceeded("")))])
    {
      step := AttachStep(description);
      CollectAppend(old(Results()), Success(StepItem(Step(description, StepSucceeded("")))));
    }

    /** The state change of beginStep. */
    method AttachStep(description: string) returns (step: StepRecorder)
      requires InTree()
      modifies this`recorders, this`stepCurrent, this`currentIndex, Ancestors()`StepRepr
      ensures fresh(step) && step.description == description && step.resolution == StepSucceeded("")
      ensures recorders == old(recorders) + [StepChild(step)] && stepCurrent == step && currentIndex == |recorders| - 1
      ensures InTree() && Root().TaskRepr == old(Root().TaskRepr)
      ensures Results() == old(Results()) + [Success(StepItem(Step(description, StepSucceeded(""))))]
    {
      ghost var A := Ancestors();
      ChildrenWithin();
      step := new StepRecorder(description);
      recorders := recorders + [StepChild(step)];
      currentIndex := |recorders| - 1;
      stepCurrent := step;
      AddStepToFootprints(A, step);
      StepAppendedValid(A);
      assert forall k | k in old(TaskRepr) && k != this :: k !in A;
      StepAppendedResults();
    }
  }
}
