/** The job record of the scheduler and its dependency gate (models/job.py).

    A job has an identity, a simulated cost, a list of the IDs of the jobs it
    depends on, and a completion flag that only ever goes from false to true.
    The thread lock, the sleep and the logging of the original are left out:
    none of them decides anything.
 */
module Jobs {

  /** An optional argument: the source's `None` default. */
  datatype Option<T> = None | Some(value: T)

  /** The dependencies in `deps` that are not in `completed`, in their
      original order and with their repetitions: the list that the gate
      builds before it answers. */
  function Unmet<Id(==,!new)>(deps: seq<Id>, completed: set<Id>): (u: seq<Id>)
    ensures forall d :: d in u <==> d in deps && d !in completed
    ensures forall d :: multiset(u)[d] == if d in completed then 0 else multiset(deps)[d]
    ensures u == [] <==> forall d :: d in deps ==> d in completed
    ensures |u| <= |deps|
  {
    if deps == [] then []
    else
      assert deps == [deps[0]] + deps[1..];
      var rest := Unmet(deps[1..], completed);
      if deps[0] in completed then rest else [deps[0]] + rest
  }

  /** Nothing is met when nothing has completed: the gate's list is the whole
      dependency list. */
  lemma {:induction false} UnmetNothingCompleted<Id(!new)>(deps: seq<Id>)
    ensures Unmet(deps, {}) == deps
  {
    if deps != [] {
      UnmetNothingCompleted(deps[1..]);
      assert Unmet(deps, {}) == [deps[0]] + Unmet(deps[1..], {});
      assert deps == [deps[0]] + deps[1..];
    }
  }

  /** Completing one more job `x` removes exactly the occurrences of `x` from
      the unmet list. */
  lemma {:induction false} UnmetComplete<Id(!new)>(deps: seq<Id>, completed: set<Id>, x: Id)
    requires x !in completed
    ensures |Unmet(deps, completed)| == |Unmet(deps, completed + {x})| + multiset(deps)[x]
  {
    if deps != [] {
      UnmetComplete(deps[1..], completed, x);
      assert deps == [deps[0]] + deps[1..];
    }
  }

  /** Growing the completed set only filters the unmet list further: what is
      unmet for the larger set is what remains of the smaller set's unmet list
      once the larger set is taken out of it. */
  lemma {:induction false} UnmetNarrows<Id(!new)>(deps: seq<Id>, c1: set<Id>, c2: set<Id>)
    requires c1 <= c2
    ensures Unmet(Unmet(deps, c1), c2) == Unmet(deps, c2)
  {
    if deps != [] {
      UnmetNarrows(deps[1..], c1, c2);
      if deps[0] !in c1 {
        assert Unmet(deps, c1) == [deps[0]] + Unmet(deps[1..], c1);
        assert Unmet(deps, c1)[1..] == Unmet(deps[1..], c1);
      }
    }
  }

  /** Two completed sets that agree on every ID of `deps` leave the same
      unmet list. */
  lemma {:induction false} UnmetAgrees<Id(!new)>(deps: seq<Id>, c1: set<Id>, c2: set<Id>)
    requires forall d :: d in deps ==> (d in c1 <==> d in c2)
    ensures Unmet(deps, c1) == Unmet(deps, c2)
  {
    if deps != [] {
      UnmetAgrees(deps[1..], c1, c2);
    }
  }

  /** As more jobs complete, the gate's unmet list is the earlier unmet list
      with only the newly completed IDs taken out, in the same order; so it
      only shrinks. */
  lemma UnmetShrinks<Id(!new)>(deps: seq<Id>, c1: set<Id>, c2: set<Id>)
    requires c1 <= c2
    ensures Unmet(deps, c2) == Unmet(Unmet(deps, c1), c2 - c1)
    ensures |Unmet(deps, c2)| <= |Unmet(deps, c1)|
  {
    UnmetNarrows(deps, c1, c2);
    UnmetAgrees(Unmet(deps, c1), c2, c2 - c1);
  }

  /** A unit of work. `jobId` and `executionTime` are fixed at creation;
      `dependencies` is reassigned only by deadlock resolution; `isCompleted`
      is write-once true. */
  class Job {
    const jobId: int
    const executionTime: int
    var dependencies: seq<int>
    var isCompleted: bool

    /** A missing or empty dependency list is stored as the empty list; any
        other list is stored as given. A new job is not completed. */
    constructor (jobId: int, executionTime: int, dependencies: Option<seq<int>>)
      ensures this.jobId == jobId && this.executionTime == executionTime
      ensures dependencies.None? ==> this.dependencies == []
      ensures dependencies.Some? ==> this.dependencies == dependencies.value
      ensures !isCompleted
    {
      this.jobId := jobId;
      this.executionTime := executionTime;
      this.dependencies := if dependencies.Some? && dependencies.value != [] then dependencies.value else [];
      this.isCompleted := false;
    }

    /** Runs the job and records that it completed. The wait itself is left
        out, but not its failure for a negative `executionTime`: the wait
        then raises before the flag is written, which `ok == false` stands
        for, and the flag keeps its old value. A time beyond the range the
        wait accepts is treated as success. The dependency list is untouched
        either way. */
    method Execute() returns (ok: bool)
      modifies this`isCompleted
      ensures ok <==> executionTime >= 0
      ensures isCompleted == (old(isCompleted) || ok)
      ensures dependencies == old(dependencies)
    {
      if executionTime < 0 {
        return false;
      }
      isCompleted := true;
      return true;
    }

    /** Records completion without running. Calling it again changes
        nothing, since the flag is already true and it only ever sets it. */
    method MarkComplete()
      modifies this`isCompleted
      ensures isCompleted
      ensures dependencies == old(dependencies)
    {
      isCompleted := true;
    }

    /** The dependency gate: the job may run once every ID it depends on is
        in `completed`. Being a function, it changes no field. */
    function CanExecute(completed: set<int>): (r: bool)
      reads this
      ensures r <==> forall d :: d in dependencies ==> d in completed
      ensures dependencies == [] ==> r
    {
      var unmet := Unmet(dependencies, completed);
      assert (forall d :: d in dependencies ==> d in completed) ==> unmet == [];
      unmet == []
    }
  }

  /** The gate is monotone: a job that may run for some completed set may run
      for every larger one. It follows from the gate's contract alone. */
  lemma CanExecuteMonotone(job: Job, c1: set<int>, c2: set<int>)
    requires c1 <= c2 && job.CanExecute(c1)
    ensures job.CanExecute(c2)
  {
  }

  /** The scenario of the job tests: a job depending on job 0 is gated on 0
      having completed; executing it sets the flag and keeps the rest. */
  method GateScenario() returns (withZero: bool, withNothing: bool, done: bool)
    ensures withZero && !withNothing && done
  {
    var job0 := new Job(0, 2, None);
    var job1 := new Job(1, 5, Some([job0.jobId]));
    assert job1.dependencies == [0] && !job1.isCompleted;
    withZero := job1.CanExecute({0});
    withNothing := job1.CanExecute({});
    var ok := job1.Execute();
    done := ok && job1.isCompleted;
  }
}
