/** Deadlock detection and resolution over the scheduler's job objects
    (scheduler/deadlock.py).

    Detection is Kahn's topological sort: build the dependency -> dependents
    lists and the in-degree of every job, seed a FIFO ready queue with the jobs
    of in-degree zero, then repeatedly pop a job, append it to the sorted
    order and decrement the in-degrees of its dependents, enqueueing those
    that reach zero. Whatever is left with a positive in-degree is reported.
    Each step is a method of its own so that what it leaves behind can be
    stated; DetectDeadlock is proved to return exactly the reference set
    DependencyGraph.Deadlocked of the jobs' current dependency lists.
    Resolution clears the dependency list of every reported job in place.
 */
module Deadlock {
  import opened Jobs
  import opened DependencyGraph

  // ---------------------------------------------------------------------
  // Views of the job objects.

  /** No two positions of the list hold jobs with the same ID. This and
      IdsOf are DependencyGraph.UniqueIds and NodeIds read off the objects'
      constant IDs, so that they survive changes to the jobs' dependency
      lists; UniqueIdsOfSnapshot and NodeIdsOfSnapshot tie each to its
      counterpart. */
  ghost predicate DistinctIds(jobs: seq<Job>)
  {
    forall i, k :: 0 <= i < k < |jobs| ==> jobs[i].jobId != jobs[k].jobId
  }

  /** No element occurs twice. */
  ghost predicate Distinct<T>(s: seq<T>)
  {
    forall i, k :: 0 <= i < k < |s| ==> s[i] != s[k]
  }

  ghost function IdsOf(s: seq<Job>): set<int>
  {
    set j | j in s :: j.jobId
  }

  /** What the analysis sees of a job: its ID and its current dependencies. */
  ghost function NodeOf(j: Job): Node<int>
    reads j
  {
    Node(j.jobId, j.dependencies)
  }

  ghost function Snapshot(jobs: seq<Job>): (g: seq<Node<int>>)
    reads jobs
    ensures |g| == |jobs|
    ensures forall i :: 0 <= i < |jobs| ==> g[i] == NodeOf(jobs[i])
  {
    if jobs == [] then [] else Snapshot(jobs[..|jobs| - 1]) + [NodeOf(jobs[|jobs| - 1])]
  }

  /** Some dependency in `deps` names no job of `ids` or names a job of
      `reported`: a reported job that waits on this cannot be run. */
  ghost predicate WaitsOnReported(deps: seq<int>, ids: set<int>, reported: set<int>)
  {
    exists d :: d in deps && (d !in ids || d in reported)
  }

  /** The IDs of the jobs whose in-degree is still positive: what detection
      reports when not every job was sorted. */
  function BlockedIds(jobs: seq<Job>, inDegree: map<int, int>): (b: set<int>)
    ensures b <= IdsOf(jobs)
    ensures forall j :: j in jobs && Degree(inDegree, j.jobId) > 0 ==> j.jobId in b
  {
    set j | j in jobs && Degree(inDegree, j.jobId) > 0 :: j.jobId
  }

  /** A read of the in-degree table, which defaults to 0 like the source's
      `defaultdict(int)`. */
  function Degree(inDegree: map<int, int>, id: int): int
  {
    if id in inDegree then inDegree[id] else 0
  }

  /** A read of the dependents table, which defaults to the empty list like
      the source's `defaultdict(list)`. */
  function Dependents(graph: map<int, seq<Job>>, id: int): seq<Job>
  {
    if id in graph then graph[id] else []
  }

  // ---------------------------------------------------------------------
  // Small facts about the views.

  /** Jobs with distinct IDs are distinct jobs. */
  lemma DistinctIdsDistinct(jobs: seq<Job>)
    requires DistinctIds(jobs)
    ensures Distinct(jobs)
  {
  }

  lemma SameIdSameJob(jobs: seq<Job>, a: Job, b: Job)
    requires DistinctIds(jobs)
    requires a in jobs && b in jobs && a.jobId == b.jobId
    ensures a == b
  {
    var i :| 0 <= i < |jobs| && jobs[i] == a;
    var k :| 0 <= k < |jobs| && jobs[k] == b;
    assert i == k;
  }

  lemma UniqueIdsOfSnapshot(jobs: seq<Job>)
    ensures DistinctIds(jobs) <==> UniqueIds(Snapshot(jobs))
  {
  }

  lemma {:induction false} NodeIdsOfSnapshot(s: seq<Job>)
    ensures NodeIds(Snapshot(s)) == IdsOf(s)
  {
    forall x | x in IdsOf(s) ensures x in NodeIds(Snapshot(s)) {
      var j :| j in s && j.jobId == x;
      var i :| 0 <= i < |s| && s[i] == j;
      assert Snapshot(s)[i] in Snapshot(s);
    }
  }

  /** A sorted job's ID identifies it among the jobs. */
  lemma InSortedById(jobs: seq<Job>, sorted: seq<Job>, j: Job)
    requires DistinctIds(jobs)
    requires forall x :: x in sorted ==> x in jobs
    requires j in jobs
    ensures j in sorted <==> j.jobId in IdsOf(sorted)
  {
    if j.jobId in IdsOf(sorted) {
      var x :| x in sorted && x.jobId == j.jobId;
      SameIdSameJob(jobs, x, j);
    }
  }

  lemma {:induction false} DistinctCard<T>(s: seq<T>)
    requires Distinct(s)
    ensures |set x | x in s| == |s|
  {
    if s != [] {
      var last := s[|s| - 1];
      var init := s[..|s| - 1];
      DistinctCard(init);
      assert s == init + [last];
      assert (set x | x in s) == (set x | x in init) + {last};
    }
  }

  lemma {:induction false} SetCard<T>(s: seq<T>)
    ensures |set x | x in s| <= |s|
  {
    if s != [] {
      var last := s[|s| - 1];
      var init := s[..|s| - 1];
      SetCard(init);
      assert s == init + [last];
      assert (set x | x in s) == (set x | x in init) + {last};
    }
  }

  lemma SubsetCard<T>(a: set<T>, b: set<T>)
    requires a <= b
    ensures |a| <= |b|
    ensures |a| == |b| ==> a == b
  {
    assert b == a + (b - a);
  }

  /** A list without repeats drawn from `t` is no longer than `t`, and as
      long only if it holds every element of `t`. */
  lemma DistinctWithin<T>(s: seq<T>, t: seq<T>)
    requires Distinct(s)
    requires forall x :: x in s ==> x in t
    ensures |s| <= |t|
    ensures |s| >= |t| ==> forall x :: x in t ==> x in s
  {
    DistinctCard(s);
    SetCard(t);
    var inS, inT := set x | x in s, set x | x in t;
    SubsetCard(inS, inT);
    if |s| >= |t| {
      forall x | x in t ensures x in s {
        assert x in inT;
      }
    }
  }

  // ---------------------------------------------------------------------
  // Detection.

  /** One step of the inner loop of the first pass, for one ID `d` and one
      job `j`: appending `job` to the dependents of `deps[t]` counts one
      more occurrence of `deps[t]` for `job` and changes no other count. */
  lemma AppendDependentAt(graph0: map<int, seq<Job>>, graph: map<int, seq<Job>>, job: Job, deps: seq<int>, t: nat, d: int, j: Job)
    requires t < |deps|
    requires multiset(Dependents(graph, d))[j] == multiset(Dependents(graph0, d))[j] + (if j == job then multiset(deps[..t])[d] else 0)
    ensures var after := graph[deps[t] := Dependents(graph, deps[t]) + [job]];
      multiset(Dependents(after, d))[j] == multiset(Dependents(graph0, d))[j] + (if j == job then multiset(deps[..t + 1])[d] else 0)
  {
    var after := graph[deps[t] := Dependents(graph, deps[t]) + [job]];
    assert deps[..t + 1] == deps[..t] + [deps[t]];
    if d == deps[t] {
      assert Dependents(after, d) == Dependents(graph, d) + [job];
    } else {
      assert Dependents(after, d) == Dependents(graph, d);
    }
  }

  /** One step of the inner loop of the first pass, for all IDs and jobs. */
  lemma AppendDependent(graph0: map<int, seq<Job>>, graph: map<int, seq<Job>>, job: Job, deps: seq<int>, t: nat)
    requires t < |deps|
    requires forall d, j :: multiset(Dependents(graph, d))[j] == multiset(Dependents(graph0, d))[j] + (if j == job then multiset(deps[..t])[d] else 0)
    ensures var after := graph[deps[t] := Dependents(graph, deps[t]) + [job]];
      forall d, j :: multiset(Dependents(after, d))[j] == multiset(Dependents(graph0, d))[j] + (if j == job then multiset(deps[..t + 1])[d] else 0)
  {
    forall d, j
      ensures var after := graph[deps[t] := Dependents(graph, deps[t]) + [job]];
        multiset(Dependents(after, d))[j] == multiset(Dependents(graph0, d))[j] + (if j == job then multiset(deps[..t + 1])[d] else 0)
    {
      AppendDependentAt(graph0, graph, job, deps, t, d, j);
    }
  }

  /** The inner loop of the first pass, for one job: for every occurrence of
      an ID `d` in the job's dependencies, the job is appended to `d`'s
      dependents and its in-degree grows by one. */
  method AddDependents(job: Job, graph0: map<int, seq<Job>>, inDegree0: map<int, int>)
    returns (graph: map<int, seq<Job>>, inDegree: map<int, int>)
    ensures forall id :: Degree(inDegree, id) == Degree(inDegree0, id) + (if id == job.jobId then |job.dependencies| else 0)
    ensures forall d, j :: multiset(Dependents(graph, d))[j] == multiset(Dependents(graph0, d))[j] + (if j == job then multiset(job.dependencies)[d] else 0)
  {
    var deps := job.dependencies;
    graph, inDegree := graph0, inDegree0;
    for t := 0 to |deps|
      invariant forall id :: Degree(inDegree, id) == Degree(inDegree0, id) + (if id == job.jobId then t else 0)
      invariant forall d, j :: multiset(Dependents(graph, d))[j] == multiset(Dependents(graph0, d))[j] + (if j == job then multiset(deps[..t])[d] else 0)
    {
      var d := deps[t];
      assert deps[..t + 1] == deps[..t] + [d];
      ghost var before := graph;
      graph := graph[d := Dependents(graph, d) + [job]];
      inDegree := inDegree[job.jobId := Degree(inDegree, job.jobId) + 1];
      AppendDependent(graph0, before, job, deps, t);
    }
    assert deps[..|deps|] == deps;
  }

  /** The first pass: afterwards every job's in-degree is the length of its
      dependency list, and the dependents of an ID `d` hold each job once per
      occurrence of `d` in its dependencies, and nothing else. */
  method BuildGraph(jobs: seq<Job>) returns (graph: map<int, seq<Job>>, inDegree: map<int, int>)
    requires DistinctIds(jobs)
    ensures forall j :: j in jobs ==> Degree(inDegree, j.jobId) == |j.dependencies|
    ensures forall d, j :: j in jobs ==> multiset(Dependents(graph, d))[j] == multiset(j.dependencies)[d]
    ensures forall d, j :: j in Dependents(graph, d) ==> j in jobs
  {
    graph, inDegree := map[], map[];
    for i := 0 to |jobs|
      invariant forall k :: 0 <= k < i ==> Degree(inDegree, jobs[k].jobId) == |jobs[k].dependencies|
      invariant forall k :: i <= k < |jobs| ==> Degree(inDegree, jobs[k].jobId) == 0
      invariant forall d, k :: 0 <= k < |jobs| ==> multiset(Dependents(graph, d))[jobs[k]] == if k < i then multiset(jobs[k].dependencies)[d] else 0
      invariant forall d, j :: j !in jobs ==> multiset(Dependents(graph, d))[j] == 0
    {
      ghost var graph0, inDegree0 := graph, inDegree;
      graph, inDegree := AddDependents(jobs[i], graph, inDegree);
      DegreesAdded(jobs, i, inDegree0, inDegree);
      DependentsAdded(jobs, i, graph0, graph);
    }
    DependentsWithin(jobs, graph);
  }

  /** One round of the first pass sets the in-degree of the `i`th job and
      leaves the others. */
  lemma DegreesAdded(jobs: seq<Job>, i: nat, inDegree0: map<int, int>, inDegree: map<int, int>)
    requires DistinctIds(jobs) && i < |jobs|
    requires forall k :: 0 <= k < i ==> Degree(inDegree0, jobs[k].jobId) == |jobs[k].dependencies|
    requires forall k :: i <= k < |jobs| ==> Degree(inDegree0, jobs[k].jobId) == 0
    requires forall id :: Degree(inDegree, id) == Degree(inDegree0, id) + (if id == jobs[i].jobId then |jobs[i].dependencies| else 0)
    ensures forall k :: 0 <= k < i + 1 ==> Degree(inDegree, jobs[k].jobId) == |jobs[k].dependencies|
    ensures forall k :: i + 1 <= k < |jobs| ==> Degree(inDegree, jobs[k].jobId) == 0
  {
  }

  /** One round of the first pass adds the `i`th job to the dependents table
      once per occurrence of each of its dependencies. */
  lemma DependentsAdded(jobs: seq<Job>, i: nat, graph0: map<int, seq<Job>>, graph: map<int, seq<Job>>)
    requires DistinctIds(jobs) && i < |jobs|
    requires forall d, k :: 0 <= k < |jobs| ==> multiset(Dependents(graph0, d))[jobs[k]] == if k < i then multiset(jobs[k].dependencies)[d] else 0
    requires forall d, j :: j !in jobs ==> multiset(Dependents(graph0, d))[j] == 0
    requires forall d, j :: multiset(Dependents(graph, d))[j] == multiset(Dependents(graph0, d))[j] + (if j == jobs[i] then multiset(jobs[i].dependencies)[d] else 0)
    ensures forall d, k :: 0 <= k < |jobs| ==> multiset(Dependents(graph, d))[jobs[k]] == if k < i + 1 then multiset(jobs[k].dependencies)[d] else 0
    ensures forall d, j :: j !in jobs ==> multiset(Dependents(graph, d))[j] == 0
  {
    DistinctIdsDistinct(jobs);
  }

  /** After the first pass the table holds each job of the list once per
      occurrence of `d` among its dependencies, and no other job. */
  lemma DependentsWithin(jobs: seq<Job>, graph: map<int, seq<Job>>)
    requires forall d, k :: 0 <= k < |jobs| ==> multiset(Dependents(graph, d))[jobs[k]] == if k < |jobs| then multiset(jobs[k].dependencies)[d] else 0
    requires forall d, j :: j !in jobs ==> multiset(Dependents(graph, d))[j] == 0
    ensures forall d, j :: j in jobs ==> multiset(Dependents(graph, d))[j] == multiset(j.dependencies)[d]
    ensures forall d, j :: j in Dependents(graph, d) ==> j in jobs
  {
    forall d, j | j in jobs ensures multiset(Dependents(graph, d))[j] == multiset(j.dependencies)[d] {
      var k :| 0 <= k < |jobs| && jobs[k] == j;
    }
    forall d, j | j in Dependents(graph, d) ensures j in jobs {
      assert multiset(Dependents(graph, d))[j] > 0;
    }
  }

  /** The second pass: the ready queue starts with the jobs of in-degree 0,
      in list order. */
  method SeedReady(jobs: seq<Job>, inDegree: map<int, int>) returns (queue: seq<Job>)
    requires DistinctIds(jobs)
    ensures forall j :: j in queue <==> j in jobs && Degree(inDegree, j.jobId) == 0
    ensures Distinct(queue)
  {
    queue := [];
    for i := 0 to |jobs|
      invariant forall j :: j in queue <==> j in jobs[..i] && Degree(inDegree, j.jobId) == 0
      invariant Distinct(queue)
    {
      assert jobs[..i + 1] == jobs[..i] + [jobs[i]];
      if Degree(inDegree, jobs[i].jobId) == 0 {
        queue := queue + [jobs[i]];
      }
    }
    assert jobs[..|jobs|] == jobs;
  }

  /** What the inner loop of the main loop keeps after releasing
      `next[..t]`: every job is enqueued at most once, each in-degree has
      lost the occurrences of its job in `next[..t]`, and a job has
      in-degree 0 exactly when it is sorted or waiting in the queue. */
  ghost predicate Released(jobs: seq<Job>, sorted: seq<Job>, next: seq<Job>, t: nat, inDegree0: map<int, int>, queue: seq<Job>, inDegree: map<int, int>)
    requires t <= |next|
  {
    && (forall j :: j in queue ==> j in jobs)
    && Distinct(sorted + queue)
    && (forall j :: j in jobs ==> Degree(inDegree, j.jobId) == Degree(inDegree0, j.jobId) - multiset(next[..t])[j])
    && (forall j :: j in jobs ==> (j in sorted || j in queue <==> Degree(inDegree, j.jobId) == 0))
  }

  /** Releasing `next[t]` takes one from its in-degree, which stays
      positive until its last occurrence in `next`, and changes no other
      job's in-degree. */
  lemma ReleaseDegree(jobs: seq<Job>, next: seq<Job>, t: nat, inDegree0: map<int, int>, inDegree: map<int, int>, inDegree': map<int, int>)
    requires DistinctIds(jobs)
    requires forall j :: j in next ==> j in jobs
    requires forall j :: j in jobs ==> multiset(next)[j] <= Degree(inDegree0, j.jobId)
    requires t < |next|
    requires forall j :: j in jobs ==> Degree(inDegree, j.jobId) == Degree(inDegree0, j.jobId) - multiset(next[..t])[j]
    requires inDegree' == inDegree[next[t].jobId := Degree(inDegree, next[t].jobId) - 1]
    ensures forall j :: j in jobs ==> Degree(inDegree', j.jobId) == Degree(inDegree0, j.jobId) - multiset(next[..t + 1])[j]
    ensures forall j :: j in jobs && j != next[t] ==> Degree(inDegree', j.jobId) == Degree(inDegree, j.jobId)
    ensures Degree(inDegree, next[t].jobId) > 0
  {
    var nextJob := next[t];
    assert next[..t + 1] == next[..t] + [nextJob];
    assert multiset(next[..t + 1]) <= multiset(next) by {
      assert next == next[..t + 1] + next[t + 1..];
    }
    forall j | j in jobs && j != nextJob ensures j.jobId != nextJob.jobId {
      if j.jobId == nextJob.jobId {
        SameIdSameJob(jobs, j, nextJob);
      }
    }
  }

  /** Releasing one more dependent keeps Released. */
  lemma ReleaseOne(jobs: seq<Job>, sorted: seq<Job>, next: seq<Job>, t: nat, inDegree0: map<int, int>,
                   queue: seq<Job>, inDegree: map<int, int>, queue': seq<Job>, inDegree': map<int, int>)
    requires DistinctIds(jobs)
    requires forall j :: j in next ==> j in jobs
    requires forall j :: j in jobs ==> multiset(next)[j] <= Degree(inDegree0, j.jobId)
    requires t < |next| && Released(jobs, sorted, next, t, inDegree0, queue, inDegree)
    requires inDegree' == inDegree[next[t].jobId := Degree(inDegree, next[t].jobId) - 1]
    requires queue' == if Degree(inDegree', next[t].jobId) == 0 then queue + [next[t]] else queue
    ensures Released(jobs, sorted, next, t + 1, inDegree0, queue', inDegree')
  {
    var nextJob := next[t];
    ReleaseDegree(jobs, next, t, inDegree0, inDegree, inDegree');
    if Degree(inDegree', nextJob.jobId) == 0 {
      AppendFresh(sorted + queue, nextJob);
      assert sorted + (queue + [nextJob]) == (sorted + queue) + [nextJob];
    }
  }

  /** Released after the whole of `next`. */
  lemma ReleasedAll(jobs: seq<Job>, sorted: seq<Job>, next: seq<Job>, inDegree0: map<int, int>, queue: seq<Job>, inDegree: map<int, int>)
    requires Released(jobs, sorted, next, |next|, inDegree0, queue, inDegree)
    ensures forall j :: j in queue ==> j in jobs
    ensures Distinct(sorted + queue)
    ensures forall j :: j in jobs ==> Degree(inDegree, j.jobId) == Degree(inDegree0, j.jobId) - multiset(next)[j]
    ensures forall j :: j in jobs ==> (j in sorted || j in queue <==> Degree(inDegree, j.jobId) == 0)
  {
    assert next[..|next|] == next;
  }

  /** The inner loop of the main loop: every dependent of the job just
      sorted loses one in-degree per occurrence, and each one that reaches 0
      joins the back of the queue. */
  method ReleaseDependents(jobs: seq<Job>, ghost sorted: seq<Job>, next: seq<Job>, queue0: seq<Job>, inDegree0: map<int, int>)
    returns (queue: seq<Job>, inDegree: map<int, int>)
    requires DistinctIds(jobs)
    requires forall j :: j in next ==> j in jobs
    requires forall j :: j in queue0 ==> j in jobs
    requires Distinct(sorted + queue0)
    requires forall j :: j in jobs ==> multiset(next)[j] <= Degree(inDegree0, j.jobId)
    requires forall j :: j in jobs ==> (j in sorted || j in queue0 <==> Degree(inDegree0, j.jobId) == 0)
    ensures forall j :: j in queue ==> j in jobs
    ensures Distinct(sorted + queue)
    ensures forall j :: j in jobs ==> Degree(inDegree, j.jobId) == Degree(inDegree0, j.jobId) - multiset(next)[j]
    ensures forall j :: j in jobs ==> (j in sorted || j in queue <==> Degree(inDegree, j.jobId) == 0)
  {
    queue, inDegree := queue0, inDegree0;
    for t := 0 to |next|
      invariant Released(jobs, sorted, next, t, inDegree0, queue, inDegree)
    {
      var nextJob := next[t];
      ghost var queue1, inDegree1 := queue, inDegree;
      inDegree := inDegree[nextJob.jobId := Degree(inDegree, nextJob.jobId) - 1];
      queue := if Degree(inDegree, nextJob.jobId) == 0 then queue + [nextJob] else queue;
      ReleaseOne(jobs, sorted, next, t, inDegree0, queue1, inDegree1, queue, inDegree);
    }
    ReleasedAll(jobs, sorted, next, inDegree0, queue, inDegree);
  }

  /** The head of the queue is not yet sorted, and moving it from the queue
      to the sorted order keeps every job enqueued at most once. */
  lemma PopFresh<T>(sorted: seq<T>, queue: seq<T>)
    requires queue != [] && Distinct(sorted + queue)
    ensures queue[0] !in sorted
    ensures (sorted + [queue[0]]) + queue[1..] == sorted + queue
  {
    var enqueued := sorted + queue;
    assert enqueued[|sorted|] == queue[0];
    forall k | 0 <= k < |sorted| ensures sorted[k] != queue[0] {
      assert enqueued[k] == sorted[k];
    }
  }

  /** What the main loop keeps: every job is enqueued at most once, the
      sorted order is a topological order of the jobs it holds, every
      in-degree is the number of dependencies not yet sorted, and a job has
      in-degree 0 exactly when it is sorted or waiting in the queue. */
  ghost predicate KahnState(jobs: seq<Job>, sorted: seq<Job>, queue: seq<Job>, inDegree: map<int, int>)
    reads jobs, sorted
  {
    && (forall j :: j in sorted ==> j in jobs)
    && (forall j :: j in queue ==> j in jobs)
    && Distinct(sorted + queue)
    && |sorted| + |queue| <= |jobs|
    && TopologicallyOrdered(Snapshot(sorted))
    && (forall j :: j in jobs ==> Degree(inDegree, j.jobId) == |Unmet(j.dependencies, IdsOf(sorted))|)
    && (forall j :: j in jobs ==> (j in sorted || j in queue <==> Degree(inDegree, j.jobId) == 0))
  }

  /** The state the main loop leaves once the queue has run dry: the sorted
      order is duplicate-free, made of the jobs, at most as long, all of them
      exactly when it is as long, and topological; each in-degree is the
      number of the job's unsorted dependencies, and a job is sorted exactly
      when its in-degree is 0. */
  ghost predicate DryState(jobs: seq<Job>, sortedOrder: seq<Job>, inDegree: map<int, int>)
    reads jobs, sortedOrder
  {
    && Distinct(sortedOrder)
    && (forall j :: j in sortedOrder ==> j in jobs)
    && |sortedOrder| <= |jobs|
    && (|sortedOrder| == |jobs| <==> forall j :: j in jobs ==> j in sortedOrder)
    && TopologicallyOrdered(Snapshot(sortedOrder))
    && (forall j :: j in jobs ==> Degree(inDegree, j.jobId) == |Unmet(j.dependencies, IdsOf(sortedOrder))|)
    && (forall j :: j in jobs ==> (j in sortedOrder <==> Degree(inDegree, j.jobId) == 0))
  }

  /** Moving the head of the queue to the sorted order keeps every job
      enqueued at most once and the jobs of in-degree 0 those sorted or
      waiting; the sorted IDs grow by exactly the head's ID. */
  lemma PopQueue(jobs: seq<Job>, sorted0: seq<Job>, queue0: seq<Job>, inDegree0: map<int, int>)
    requires DistinctIds(jobs) && queue0 != []
    requires forall j :: j in sorted0 ==> j in jobs
    requires forall j :: j in queue0 ==> j in jobs
    requires Distinct(sorted0 + queue0)
    requires forall j :: j in jobs ==> (j in sorted0 || j in queue0 <==> Degree(inDegree0, j.jobId) == 0)
    ensures queue0[0].jobId !in IdsOf(sorted0)
    ensures IdsOf(sorted0 + [queue0[0]]) == IdsOf(sorted0) + {queue0[0].jobId}
    ensures forall j :: j in sorted0 + [queue0[0]] ==> j in jobs
    ensures forall j :: j in queue0[1..] ==> j in jobs
    ensures Distinct((sorted0 + [queue0[0]]) + queue0[1..])
    ensures forall j :: j in jobs ==> (j in sorted0 + [queue0[0]] || j in queue0[1..] <==> Degree(inDegree0, j.jobId) == 0)
  {
    var current := queue0[0];
    PopFresh(sorted0, queue0);
    InSortedById(jobs, sorted0, current);
    assert queue0 == [current] + queue0[1..];
  }

  /** Moving the head of the queue to the sorted order also keeps the sorted
      order topological, the head's dependencies being all sorted. */
  lemma PopHead(jobs: seq<Job>, sorted0: seq<Job>, queue0: seq<Job>, inDegree0: map<int, int>)
    requires DistinctIds(jobs)
    requires queue0 != [] && KahnState(jobs, sorted0, queue0, inDegree0)
    ensures TopologicallyOrdered(Snapshot(sorted0 + [queue0[0]]))
  {
    var current := queue0[0];
    PopQueue(jobs, sorted0, queue0, inDegree0);
    assert current in jobs && Degree(inDegree0, current.jobId) == 0;
    TopoExtend(sorted0, current);
  }

  /** Once `current` is sorted, each job's in-degree exceeds its number of
      unsorted dependencies by its occurrences among `current`'s
      dependents. */
  lemma DegreesAfterPop(jobs: seq<Job>, graph: map<int, seq<Job>>, sorted0: seq<Job>, current: Job, inDegree0: map<int, int>)
    requires forall d, j :: j in jobs ==> multiset(Dependents(graph, d))[j] == multiset(j.dependencies)[d]
    requires forall j :: j in jobs ==> Degree(inDegree0, j.jobId) == |Unmet(j.dependencies, IdsOf(sorted0))|
    requires current.jobId !in IdsOf(sorted0)
    requires IdsOf(sorted0 + [current]) == IdsOf(sorted0) + {current.jobId}
    ensures forall j :: j in jobs ==>
      Degree(inDegree0, j.jobId) == |Unmet(j.dependencies, IdsOf(sorted0 + [current]))| + multiset(Dependents(graph, current.jobId))[j]
  {
    forall j | j in jobs
      ensures Degree(inDegree0, j.jobId) == |Unmet(j.dependencies, IdsOf(sorted0 + [current]))| + multiset(Dependents(graph, current.jobId))[j]
    {
      UnmetComplete(j.dependencies, IdsOf(sorted0), current.jobId);
    }
  }

  /** What popping the head leaves for the release loop: the sorted order
      with the head appended is topological and, with the rest of the queue,
      duplicate-free; each in-degree is the number of unsorted dependencies
      plus the job's occurrences among the head's dependents; a job is
      sorted or waiting exactly when its in-degree is 0. */
  lemma PopRound(jobs: seq<Job>, graph: map<int, seq<Job>>, sorted0: seq<Job>, queue0: seq<Job>, inDegree0: map<int, int>,
                 sorted: seq<Job>, next: seq<Job>)
    requires DistinctIds(jobs)
    requires forall d, j :: j in jobs ==> multiset(Dependents(graph, d))[j] == multiset(j.dependencies)[d]
    requires forall d, j :: j in Dependents(graph, d) ==> j in jobs
    requires queue0 != [] && KahnState(jobs, sorted0, queue0, inDegree0)
    requires sorted == sorted0 + [queue0[0]] && next == Dependents(graph, queue0[0].jobId)
    ensures forall j :: j in next ==> j in jobs
    ensures forall j :: j in sorted ==> j in jobs
    ensures forall j :: j in queue0[1..] ==> j in jobs
    ensures Distinct(sorted + queue0[1..])
    ensures TopologicallyOrdered(Snapshot(sorted))
    ensures forall j :: j in jobs ==> Degree(inDegree0, j.jobId) == |Unmet(j.dependencies, IdsOf(sorted))| + multiset(next)[j]
    ensures forall j :: j in jobs ==> (j in sorted || j in queue0[1..] <==> Degree(inDegree0, j.jobId) == 0)
  {
    PopQueue(jobs, sorted0, queue0, inDegree0);
    PopHead(jobs, sorted0, queue0, inDegree0);
    DegreesAfterPop(jobs, graph, sorted0, queue0[0], inDegree0);
  }

  /** After the dependents of the newly sorted job are released, the state
      of the main loop holds again. */
  lemma RoundKeepsState(jobs: seq<Job>, sorted: seq<Job>, next: seq<Job>, inDegree0: map<int, int>, queue: seq<Job>, inDegree: map<int, int>)
    requires forall j :: j in sorted ==> j in jobs
    requires TopologicallyOrdered(Snapshot(sorted))
    requires forall j :: j in jobs ==> Degree(inDegree0, j.jobId) == |Unmet(j.dependencies, IdsOf(sorted))| + multiset(next)[j]
    requires forall j :: j in queue ==> j in jobs
    requires Distinct(sorted + queue)
    requires forall j :: j in jobs ==> Degree(inDegree, j.jobId) == Degree(inDegree0, j.jobId) - multiset(next)[j]
    requires forall j :: j in jobs ==> (j in sorted || j in queue <==> Degree(inDegree, j.jobId) == 0)
    ensures KahnState(jobs, sorted, queue, inDegree)
  {
    DistinctWithin(sorted + queue, jobs);
  }

  /** One round of the main loop: pop the head of the queue, append it to
      the sorted order and release its dependents. */
  method SortNext(jobs: seq<Job>, graph: map<int, seq<Job>>, sorted0: seq<Job>, queue0: seq<Job>, inDegree0: map<int, int>)
    returns (sorted: seq<Job>, queue: seq<Job>, inDegree: map<int, int>)
    requires DistinctIds(jobs)
    requires forall d, j :: j in jobs ==> multiset(Dependents(graph, d))[j] == multiset(j.dependencies)[d]
    requires forall d, j :: j in Dependents(graph, d) ==> j in jobs
    requires queue0 != [] && KahnState(jobs, sorted0, queue0, inDegree0)
    ensures sorted == sorted0 + [queue0[0]]
    ensures KahnState(jobs, sorted, queue, inDegree)
  {
    var current := queue0[0];
    sorted := sorted0 + [current];
    var next := Dependents(graph, current.jobId);
    PopRound(jobs, graph, sorted0, queue0, inDegree0, sorted, next);
    ghost var snapshot := Snapshot(sorted);
    queue, inDegree := ReleaseDependents(jobs, sorted, next, queue0[1..], inDegree0);
    assert Snapshot(sorted) == snapshot;
    RoundKeepsState(jobs, sorted, next, inDegree0, queue, inDegree);
  }

  /** The main loop: afterwards the sorted order is a topological order of
      the jobs it holds, every in-degree is the number of dependencies left
      unsorted, and a job is sorted exactly when its in-degree is 0. */
  method KahnSort(jobs: seq<Job>, graph: map<int, seq<Job>>, inDegree0: map<int, int>, queue0: seq<Job>)
    returns (sortedOrder: seq<Job>, inDegree: map<int, int>)
    requires DistinctIds(jobs)
    requires forall j :: j in jobs ==> Degree(inDegree0, j.jobId) == |j.dependencies|
    requires forall d, j :: j in jobs ==> multiset(Dependents(graph, d))[j] == multiset(j.dependencies)[d]
    requires forall d, j :: j in Dependents(graph, d) ==> j in jobs
    requires forall j :: j in queue0 <==> j in jobs && j.dependencies == []
    requires Distinct(queue0)
    ensures DryState(jobs, sortedOrder, inDegree)
  {
    sortedOrder, inDegree := [], inDegree0;
    var queue := queue0;
    StartState(jobs, inDegree0, queue0);
    while queue != []
      invariant KahnState(jobs, sortedOrder, queue, inDegree)
      decreases |jobs| - |sortedOrder|
    {
      sortedOrder, queue, inDegree := SortNext(jobs, graph, sortedOrder, queue, inDegree);
    }
    EndState(jobs, sortedOrder, inDegree);
  }

  /** Before the first round nothing is sorted and the queue holds the jobs
      without dependencies. */
  lemma StartState(jobs: seq<Job>, inDegree0: map<int, int>, queue0: seq<Job>)
    requires forall j :: j in jobs ==> Degree(inDegree0, j.jobId) == |j.dependencies|
    requires forall j :: j in queue0 <==> j in jobs && j.dependencies == []
    requires Distinct(queue0)
    ensures KahnState(jobs, [], queue0, inDegree0)
  {
    DistinctWithin(queue0, jobs);
    assert [] + queue0 == queue0;
    assert IdsOf([]) == {};
    forall j | j in jobs ensures Degree(inDegree0, j.jobId) == |Unmet(j.dependencies, {})| {
      UnmetNothingCompleted(j.dependencies);
    }
  }

  /** Once the queue is empty, the sorted order is all of the jobs exactly
      when it is as long as the job list. */
  lemma EndState(jobs: seq<Job>, sortedOrder: seq<Job>, inDegree: map<int, int>)
    requires DistinctIds(jobs)
    requires KahnState(jobs, sortedOrder, [], inDegree)
    ensures DryState(jobs, sortedOrder, inDegree)
  {
    assert sortedOrder + [] == sortedOrder;
    DistinctWithin(sortedOrder, jobs);
    if forall j :: j in jobs ==> j in sortedOrder {
      DistinctIdsDistinct(jobs);
      DistinctWithin(jobs, sortedOrder);
    }
  }

  /** Appending a job whose dependencies are all sorted keeps the sorted
      order topological. */
  lemma TopoExtend(sorted: seq<Job>, current: Job)
    requires TopologicallyOrdered(Snapshot(sorted))
    requires Unmet(current.dependencies, IdsOf(sorted)) == []
    ensures TopologicallyOrdered(Snapshot(sorted + [current]))
  {
    var s := Snapshot(sorted);
    var s' := Snapshot(sorted + [current]);
    assert s' == s + [NodeOf(current)];
    NodeIdsOfSnapshot(sorted);
    forall k | 0 <= k < |s'| ensures AllDone(s'[k].deps, NodeIds(s'[..k])) {
      if k < |s| {
        assert s'[..k] == s[..k];
      } else {
        assert s'[..k] == s;
      }
    }
  }

  lemma AppendFresh<T>(s: seq<T>, x: T)
    requires Distinct(s) && x !in s
    ensures Distinct(s + [x])
  {
  }

  /** Detects the deadlocked jobs: the result is exactly the reference set of
      deadlocked IDs for the jobs' current dependency lists. */
  method DetectDeadlock(jobs: seq<Job>) returns (deadlocked: set<int>)
    requires DistinctIds(jobs)
    ensures deadlocked == Deadlocked(Snapshot(jobs))
    ensures deadlocked <= IdsOf(jobs)
    ensures forall j :: j in jobs && j.jobId in deadlocked ==> WaitsOnReported(j.dependencies, IdsOf(jobs), deadlocked)
  {
    var graph, inDegree := BuildGraph(jobs);
    var queue := SeedReady(jobs, inDegree);
    var sortedOrder;
    sortedOrder, inDegree := KahnSort(jobs, graph, inDegree, queue);
    deadlocked := Report(jobs, sortedOrder, inDegree);
  }

  /** The verdict once the queue has run dry: nothing when every job was
      sorted, otherwise the IDs of the jobs whose in-degree is still
      positive. This is the reference set, and every reported job waits on
      an ID that names no job or names a reported job. */
  method Report(jobs: seq<Job>, sortedOrder: seq<Job>, inDegree: map<int, int>) returns (deadlocked: set<int>)
    requires DistinctIds(jobs)
    requires DryState(jobs, sortedOrder, inDegree)
    ensures deadlocked == Deadlocked(Snapshot(jobs))
    ensures deadlocked <= IdsOf(jobs)
    ensures deadlocked == {} <==> |sortedOrder| == |jobs|
    ensures forall j :: j in jobs && j.jobId in deadlocked ==> WaitsOnReported(j.dependencies, IdsOf(jobs), deadlocked)
  {
    if |sortedOrder| != |jobs| {
      deadlocked := BlockedIds(jobs, inDegree);
      BlockedWaitOnBlocked(jobs, sortedOrder, inDegree, deadlocked);
    } else {
      deadlocked := {};
    }
    DetectMatchesReference(jobs, sortedOrder, inDegree);
  }

  /** Once the queue has run dry, every job left with a positive in-degree
      waits on an ID that names no job or names another such job: its first
      unmet dependency is one of these. */
  lemma BlockedWaitOnBlocked(jobs: seq<Job>, sortedOrder: seq<Job>, inDegree: map<int, int>, blocked: set<int>)
    requires DistinctIds(jobs)
    requires DryState(jobs, sortedOrder, inDegree)
    requires blocked == BlockedIds(jobs, inDegree)
    ensures forall j :: j in jobs && j.jobId in blocked ==> WaitsOnReported(j.dependencies, IdsOf(jobs), blocked)
  {
    forall j | j in jobs && j.jobId in blocked
      ensures WaitsOnReported(j.dependencies, IdsOf(jobs), blocked)
    {
      var x :| x in jobs && Degree(inDegree, x.jobId) > 0 && x.jobId == j.jobId;
      SameIdSameJob(jobs, x, j);
      var unmet := Unmet(j.dependencies, IdsOf(sortedOrder));
      var d := unmet[0];
      assert d in unmet;
      if d in IdsOf(jobs) {
        var k :| k in jobs && k.jobId == d;
        assert k !in sortedOrder;
        assert d in blocked;
      }
    }
  }

  /** The snapshot of a sub-list of the jobs is made of nodes of the whole
      snapshot. */
  lemma SnapshotWithin(sorted: seq<Job>, jobs: seq<Job>)
    requires forall j :: j in sorted ==> j in jobs
    ensures forall n :: n in Snapshot(sorted) ==> n in Snapshot(jobs)
  {
    var s, g := Snapshot(sorted), Snapshot(jobs);
    forall n | n in s ensures n in g {
      var k :| 0 <= k < |s| && s[k] == n;
      assert sorted[k] in sorted;
      var i :| 0 <= i < |jobs| && jobs[i] == sorted[k];
      assert g[i] == n;
    }
  }

  /** When the queue has run dry, no unsorted job has all its dependencies
      sorted: its in-degree, the number of its unsorted dependencies, is
      positive. */
  lemma ClosedWhenDry(jobs: seq<Job>, sortedOrder: seq<Job>, inDegree: map<int, int>)
    requires DistinctIds(jobs)
    requires DryState(jobs, sortedOrder, inDegree)
    ensures Closed(Snapshot(jobs), IdsOf(sortedOrder))
  {
    var g, done := Snapshot(jobs), IdsOf(sortedOrder);
    forall n | n in g && n.id !in done ensures !AllDone(n.deps, done) {
      var i :| 0 <= i < |g| && g[i] == n;
      var j := jobs[i];
      assert j in jobs && n.deps == j.dependencies;
      InSortedById(jobs, sortedOrder, j);
      assert Unmet(j.dependencies, done) != [];
    }
  }

  /** With distinct IDs, the IDs of the jobs outside a sub-list are the IDs
      of all jobs less those of the sub-list. */
  lemma UnsortedIds(jobs: seq<Job>, sortedOrder: seq<Job>)
    requires DistinctIds(jobs)
    requires forall j :: j in sortedOrder ==> j in jobs
    ensures (set j | j in jobs && j !in sortedOrder :: j.jobId) == IdsOf(jobs) - IdsOf(sortedOrder)
  {
    forall x | x in IdsOf(jobs) - IdsOf(sortedOrder) ensures x in set j | j in jobs && j !in sortedOrder :: j.jobId {
      var j :| j in jobs && j.jobId == x;
    }
    forall j | j in jobs && j !in sortedOrder ensures j.jobId !in IdsOf(sortedOrder) {
      InSortedById(jobs, sortedOrder, j);
    }
  }

  /** The jobs left with a positive in-degree are exactly the unsorted
      ones. */
  lemma BlockedAreUnsorted(jobs: seq<Job>, sortedOrder: seq<Job>, inDegree: map<int, int>)
    requires forall j :: j in jobs ==> Degree(inDegree, j.jobId) == |Unmet(j.dependencies, IdsOf(sortedOrder))|
    requires forall j :: j in jobs ==> (j in sortedOrder <==> Degree(inDegree, j.jobId) == 0)
    ensures (set j | j in jobs && j !in sortedOrder :: j.jobId) == BlockedIds(jobs, inDegree)
  {
    var unsorted := set j | j in jobs && j !in sortedOrder :: j.jobId;
    var blocked := BlockedIds(jobs, inDegree);
    forall x | x in unsorted ensures x in blocked {
      var j :| j in jobs && j !in sortedOrder && j.jobId == x;
      assert Degree(inDegree, j.jobId) > 0;
    }
    forall x | x in blocked ensures x in unsorted {
      var j :| j in jobs && Degree(inDegree, j.jobId) > 0 && j.jobId == x;
      assert j !in sortedOrder;
    }
    assert unsorted == blocked;
  }

  /** A sorted order shorter than the job list leaves some job with a
      positive in-degree. */
  lemma SomeBlocked(jobs: seq<Job>, sortedOrder: seq<Job>, inDegree: map<int, int>)
    requires |sortedOrder| == |jobs| <==> forall j :: j in jobs ==> j in sortedOrder
    requires forall j :: j in jobs ==> (j in sortedOrder <==> Degree(inDegree, j.jobId) == 0)
    requires forall j :: j in jobs ==> Degree(inDegree, j.jobId) >= 0
    ensures |sortedOrder| != |jobs| ==> BlockedIds(jobs, inDegree) != {}
  {
    if |sortedOrder| != |jobs| {
      var blocked :| blocked in jobs && blocked !in sortedOrder;
      assert blocked.jobId in BlockedIds(jobs, inDegree);
    }
  }

  /** What KahnSort leaves behind pins down the reference set. */
  lemma DetectMatchesReference(jobs: seq<Job>, sortedOrder: seq<Job>, inDegree: map<int, int>)
    requires DistinctIds(jobs)
    requires DryState(jobs, sortedOrder, inDegree)
    ensures Deadlocked(Snapshot(jobs)) == (if |sortedOrder| != |jobs| then BlockedIds(jobs, inDegree) else {})
    ensures Deadlocked(Snapshot(jobs)) <= IdsOf(jobs)
    ensures Deadlocked(Snapshot(jobs)) == {} <==> |sortedOrder| == |jobs|
  {
    SomeBlocked(jobs, sortedOrder, inDegree);
    SnapshotWithin(sortedOrder, jobs);
    ClosedWhenDry(jobs, sortedOrder, inDegree);
    NodeIdsOfSnapshot(sortedOrder);
    SettledExactly(Snapshot(jobs), Snapshot(sortedOrder));
    DeadlockedIsUnsettled(Snapshot(jobs));
    NodeIdsOfSnapshot(jobs);
    UnsortedIds(jobs, sortedOrder);
    BlockedAreUnsorted(jobs, sortedOrder, inDegree);
  }

  // ---------------------------------------------------------------------
  // Resolution.

  /** Clears, in place, the dependency list of every job whose ID is in
      `deadlocked` and returns the same list; with nothing deadlocked the
      jobs are returned untouched. */
  method ResolveDeadlock(deadlocked: set<int>, jobs: seq<Job>) returns (result: seq<Job>)
    modifies jobs
    ensures result == jobs
    ensures Snapshot(jobs) == Resolved(deadlocked, old(Snapshot(jobs)))
    ensures forall j :: j in jobs ==> j.isCompleted == old(j.isCompleted)
  {
    if |deadlocked| == 0 {
      return jobs;
    }
    ClearDependencies(deadlocked, jobs);
    return jobs;
  }

  /** The resolution loop: every job whose ID is in `deadlocked` loses all
      its dependencies, in place; every other field stays as it was. A job
      listed twice is cleared once, which is the same. */
  method ClearDependencies(deadlocked: set<int>, jobs: seq<Job>)
    modifies jobs
    ensures forall j :: j in jobs ==> j.isCompleted == old(j.isCompleted)
    ensures forall j :: j in jobs ==> j.dependencies == if j.jobId in deadlocked then [] else old(j.dependencies)
  {
    for i := 0 to |jobs|
      invariant forall j :: j in jobs ==> j.isCompleted == old(j.isCompleted)
      invariant forall j :: j in jobs ==>
        j.dependencies == if j.jobId in deadlocked && j in jobs[..i] then [] else old(j.dependencies)
    {
      assert jobs[..i + 1] == jobs[..i] + [jobs[i]];
      if jobs[i].jobId in deadlocked {
        jobs[i].dependencies := [];
      }
    }
    assert jobs[..|jobs|] == jobs;
  }

  /** The coordinator's one cycle-breaking pass: detect, and resolve what
      was found when it is not empty. Afterwards the reference reports
      nothing, and no completion flag has changed. */
  method BreakCycles(jobs: seq<Job>) returns (deadlocked: set<int>)
    requires DistinctIds(jobs)
    modifies jobs
    ensures deadlocked == Deadlocked(old(Snapshot(jobs)))
    ensures Snapshot(jobs) == Resolved(deadlocked, old(Snapshot(jobs)))
    ensures forall j :: j in jobs ==> j.isCompleted == old(j.isCompleted)
    ensures Deadlocked(Snapshot(jobs)) == {}
  {
    deadlocked := DetectDeadlock(jobs);
    if |deadlocked| > 0 {
      var _ := ResolveDeadlock(deadlocked, jobs);
    }
    ResolveClearsDeadlock(old(Snapshot(jobs)));
  }

  /** Resolving what detection found and detecting again finds nothing,
      whatever the jobs. */
  method ResolveAndRecheck(deadlocked: set<int>, jobs: seq<Job>) returns (again: set<int>)
    requires DistinctIds(jobs)
    requires deadlocked == Deadlocked(Snapshot(jobs))
    modifies jobs
    ensures again == {}
  {
    ghost var before := Snapshot(jobs);
    var _ := ResolveDeadlock(deadlocked, jobs);
    ResolveClearsDeadlock(before);
    again := DetectDeadlock(jobs);
  }

  /** Three jobs each depending on the next, the last on the first, are
      all deadlocked. */
  lemma ThreeJobCycle(job1: Job, job2: Job, job3: Job)
    requires job1.jobId != job2.jobId && job2.jobId != job3.jobId && job1.jobId != job3.jobId
    requires job1.dependencies == [job2.jobId]
    requires job2.dependencies == [job3.jobId]
    requires job3.dependencies == [job1.jobId]
    ensures DistinctIds([job1, job2, job3])
    ensures Deadlocked(Snapshot([job1, job2, job3])) == {job1.jobId, job2.jobId, job3.jobId}
  {
    var a, b, c := job1.jobId, job2.jobId, job3.jobId;
    assert Snapshot([job1, job2, job3]) == [Node(a, [b]), Node(b, [c]), Node(c, [a])];
    ThreeCycle(a, b, c);
  }

  /** The jobs of the deadlock tests: 1, 2 and 3 each depend on the next,
      the last on the first. */
  method NewCycle() returns (jobs: seq<Job>)
    ensures fresh(set j | j in jobs)
    ensures DistinctIds(jobs)
    ensures Deadlocked(Snapshot(jobs)) == {1, 2, 3}
  {
    var job1 := new Job(1, 2, Some([2]));
    var job2 := new Job(2, 3, Some([3]));
    var job3 := new Job(3, 1, Some([1]));
    ThreeJobCycle(job1, job2, job3);
    jobs := [job1, job2, job3];
  }

  /** The deadlock tests: all three jobs of the cycle are reported; after
      resolution nothing is. */
  method ThreeCycleScenario() returns (found: set<int>, again: set<int>)
    ensures found == {1, 2, 3}
    ensures again == {}
  {
    var jobs := NewCycle();
    found := DetectDeadlock(jobs);
    again := ResolveAndRecheck(found, jobs);
  }
}
