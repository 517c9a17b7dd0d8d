/** The reference meaning of deadlock detection and resolution, on values.

    A job list is seen as a sequence of nodes, each an ID with the IDs it
    depends on. A job settles in round k when the gate lets it run given the
    jobs settled in round k - 1; a job that has not settled after as many
    rounds as there are jobs is deadlocked: it sits on a dependency cycle,
    behind one, or behind an ID that names no job. The imperative detection
    in module Deadlock is proved to compute exactly this set.
 */
module DependencyGraph {
  import opened Jobs

  /** A job as the dependency analysis sees it. */
  datatype Node<Id> = Node(id: Id, deps: seq<Id>)

  ghost function NodeIds<Id>(g: seq<Node<Id>>): set<Id>
  {
    set n | n in g :: n.id
  }

  /** No two positions of the list carry the same job ID. */
  ghost predicate UniqueIds<Id>(g: seq<Node<Id>>)
  {
    forall i, k :: 0 <= i < k < |g| ==> g[i].id != g[k].id
  }

  /** Every ID in `deps` is in `done`: the gate's condition, as the analysis
      states it (lemma GateAgrees ties it to the gate itself). */
  ghost predicate AllDone<Id>(deps: seq<Id>, done: set<Id>)
  {
    forall d :: d in deps ==> d in done
  }

  lemma GateAgrees<Id(!new)>(deps: seq<Id>, done: set<Id>)
    ensures AllDone(deps, done) <==> Unmet(deps, done) == []
  {
  }

  /** The IDs of the jobs that can run after `k` rounds in which every job
      whose dependencies had all completed ran. */
  ghost function Settled<Id(!new)>(g: seq<Node<Id>>, k: nat): (s: set<Id>)
    ensures s <= NodeIds(g)
  {
    if k == 0 then {}
    else
      var before := Settled(g, k - 1);
      set n | n in g && AllDone(n.deps, before) :: n.id
  }

  /** The IDs of the jobs that never settle: the deadlocked jobs. */
  ghost function Deadlocked<Id(!new)>(g: seq<Node<Id>>): set<Id>
  {
    set n | n in g && n.id !in Settled(g, |g|) :: n.id
  }

  /** The deadlocked IDs are the IDs of the list that never settle. */
  lemma DeadlockedIsUnsettled<Id(!new)>(g: seq<Node<Id>>)
    ensures Deadlocked(g) == NodeIds(g) - Settled(g, |g|)
  {
    forall x | x in NodeIds(g) - Settled(g, |g|) ensures x in Deadlocked(g) {
      var n :| n in g && n.id == x;
    }
  }

  /** `s` lists jobs in an order in which every job depends only on jobs
      listed before it. */
  ghost predicate TopologicallyOrdered<Id(!new)>(s: seq<Node<Id>>)
  {
    forall k :: 0 <= k < |s| ==> AllDone(s[k].deps, NodeIds(s[..k]))
  }

  /** No job outside `done` could run if exactly the jobs of `done` had
      completed: the state in which Kahn's ready queue runs dry. */
  ghost predicate Closed<Id(!new)>(g: seq<Node<Id>>, done: set<Id>)
  {
    forall n :: n in g && n.id !in done ==> !AllDone(n.deps, done)
  }

  /** Fewer dependencies and more completed jobs keep a job ready. */
  lemma AllDoneWeakens<Id>(deps: seq<Id>, fewer: seq<Id>, done: set<Id>, more: set<Id>)
    requires forall d :: d in fewer ==> d in deps
    requires done <= more && AllDone(deps, done)
    ensures AllDone(fewer, more)
  {
  }

  /** A job all of whose dependencies have settled by round `k` settles in
      round `k + 1`. */
  lemma SettlesAfter<Id(!new)>(g: seq<Node<Id>>, k: nat, n: Node<Id>)
    requires n in g && AllDone(n.deps, Settled(g, k))
    ensures n.id in Settled(g, k + 1)
  {
  }

  /** The resolution policy: every job whose ID is in `deadlocked` loses all
      its dependencies; every other job is kept as it is. */
  ghost function Resolved<Id>(deadlocked: set<Id>, g: seq<Node<Id>>): (r: seq<Node<Id>>)
    ensures |r| == |g|
    ensures deadlocked == {} ==> r == g
  {
    seq(|g|, i requires 0 <= i < |g| => if g[i].id in deadlocked then Node(g[i].id, []) else g[i])
  }

  // ---------------------------------------------------------------------
  // Rounds only ever add jobs.

  lemma {:induction false} SettledStep<Id(!new)>(g: seq<Node<Id>>, k: nat)
    ensures Settled(g, k) <= Settled(g, k + 1)
  {
    if k > 0 {
      SettledStep(g, k - 1);
      forall n | n in g && AllDone(n.deps, Settled(g, k - 1))
        ensures n.id in Settled(g, k + 1)
      {
        assert AllDone(n.deps, Settled(g, k));
      }
    }
  }

  lemma {:induction false} SettledGrows<Id(!new)>(g: seq<Node<Id>>, a: nat, b: nat)
    requires a <= b
    ensures Settled(g, a) <= Settled(g, b)
    decreases b - a
  {
    if a < b {
      SettledStep(g, a);
      SettledGrows(g, a + 1, b);
    }
  }

  // ---------------------------------------------------------------------
  // What Kahn's algorithm leaves behind determines the settled jobs.

  /** Every job of a topological order settles no later than its position. */
  lemma {:induction false} PrefixSettles<Id(!new)>(g: seq<Node<Id>>, s: seq<Node<Id>>, k: nat)
    requires forall n :: n in s ==> n in g
    requires TopologicallyOrdered(s)
    requires k <= |s|
    ensures NodeIds(s[..k]) <= Settled(g, k)
  {
    if k > 0 {
      var k' := k - 1;
      PrefixSettles(g, s, k');
      var last := s[k'];
      assert s[..k] == s[..k'] + [last];
      assert last in g;
      AllDoneWeakens(last.deps, last.deps, NodeIds(s[..k']), Settled(g, k'));
      SettlesAfter(g, k', last);
      SettledStep(g, k');
      forall x | x in NodeIds(s[..k]) ensures x in Settled(g, k) {
        var n :| n in s[..k] && n.id == x;
        if n != last {
          assert n in s[..k'];
        }
      }
    }
  }

  /** Nothing settles outside a closed set. */
  lemma {:induction false} SettledWithinClosed<Id(!new)>(g: seq<Node<Id>>, done: set<Id>, k: nat)
    requires Closed(g, done)
    ensures Settled(g, k) <= done
  {
    if k > 0 {
      SettledWithinClosed(g, done, k - 1);
      forall n | n in g && AllDone(n.deps, Settled(g, k - 1))
        ensures n.id in done
      {
        assert AllDone(n.deps, done);
      }
    }
  }

  /** A topological order of some of the jobs that leaves the rest closed
      holds exactly the jobs that settle. */
  lemma SettledExactly<Id(!new)>(g: seq<Node<Id>>, s: seq<Node<Id>>)
    requires forall n :: n in s ==> n in g
    requires |s| <= |g|
    requires TopologicallyOrdered(s)
    requires Closed(g, NodeIds(s))
    ensures Settled(g, |g|) == NodeIds(s)
  {
    PrefixSettles(g, s, |s|);
    assert s[..|s|] == s;
    SettledGrows(g, |s|, |g|);
    SettledWithinClosed(g, NodeIds(s), |g|);
  }

  // ---------------------------------------------------------------------
  // Properties of the deadlocked set.

  /** Jobs that can be listed in an order in which each depends only on jobs
      listed before it (every dependency names a listed job and there is no
      cycle) are never deadlocked. */
  lemma TopologicalOrderNoDeadlock<Id(!new)>(g: seq<Node<Id>>, order: seq<Node<Id>>)
    requires multiset(order) == multiset(g)
    requires TopologicallyOrdered(order)
    ensures Deadlocked(g) == {}
  {
    assert |order| == |multiset(order)| == |g|;
    forall n | n in order ensures n in g {
      assert n in multiset(order);
    }
    PrefixSettles(g, order, |order|);
    assert order[..|order|] == order;
    forall n | n in g ensures n.id in Settled(g, |g|) {
      assert n in multiset(g);
      assert n in order;
    }
  }

  /** The lists the producers build depend only on earlier jobs, so they
      never deadlock. */
  lemma ProducerOrderNoDeadlock<Id(!new)>(g: seq<Node<Id>>)
    requires TopologicallyOrdered(g)
    ensures Deadlocked(g) == {}
  {
    TopologicalOrderNoDeadlock(g, g);
  }

  /** Every job with an ID in `knot` depends on some ID in `knot`: the shape of
      a dependency cycle, together with anything caught behind it. */
  ghost predicate SelfBlocking<Id>(g: seq<Node<Id>>, knot: set<Id>)
  {
    forall n :: n in g && n.id in knot ==> exists d :: d in n.deps && d in knot
  }

  /** No job of a self-blocking set ever settles. */
  lemma {:induction false} SelfBlockingNeverSettles<Id(!new)>(g: seq<Node<Id>>, knot: set<Id>, k: nat)
    requires SelfBlocking(g, knot)
    ensures Settled(g, k) !! knot
  {
    if k > 0 {
      var before := Settled(g, k - 1);
      SelfBlockingNeverSettles(g, knot, k - 1);
      forall n | n in g && n.id in knot ensures !AllDone(n.deps, before) {
        var d :| d in n.deps && d in knot;
        assert d !in before;
      }
    }
  }

  /** The jobs of a self-blocking set are all reported as deadlocked. */
  lemma SelfBlockingIsDeadlocked<Id(!new)>(g: seq<Node<Id>>, knot: set<Id>)
    requires SelfBlocking(g, knot)
    ensures knot * NodeIds(g) <= Deadlocked(g)
  {
    SelfBlockingNeverSettles(g, knot, |g|);
    forall x | x in knot * NodeIds(g) ensures x in Deadlocked(g) {
      var n :| n in g && n.id == x;
    }
  }

  /** The job after position `i` on a cycle. */
  function Successor<Id>(cycle: seq<Id>, i: int): Id
    requires 0 <= i < |cycle|
  {
    cycle[(i + 1) % |cycle|]
  }

  /** On a cycle of jobs, each depending on the next and the last on the
      first, every job is reported as deadlocked. */
  lemma CycleIsDeadlocked<Id(!new)>(g: seq<Node<Id>>, cycle: seq<Id>)
    requires forall i :: 0 <= i < |cycle| ==> cycle[i] in NodeIds(g)
    requires forall n, i :: n in g && 0 <= i < |cycle| && n.id == cycle[i] ==> Successor(cycle, i) in n.deps
    ensures forall i :: 0 <= i < |cycle| ==> cycle[i] in Deadlocked(g)
  {
    var knot := set i | 0 <= i < |cycle| :: cycle[i];
    forall n | n in g && n.id in knot ensures exists d :: d in n.deps && d in knot {
      var i :| 0 <= i < |cycle| && cycle[i] == n.id;
      var j := (i + 1) % |cycle|;
      assert Successor(cycle, i) == cycle[j] && cycle[j] in knot;
    }
    SelfBlockingIsDeadlocked(g, knot);
    forall i | 0 <= i < |cycle| ensures cycle[i] in Deadlocked(g) {
      assert cycle[i] in knot;
    }
  }

  /** A job that depends on an ID naming no job, or on a deadlocked job, is
      itself deadlocked. */
  lemma BlockedBehind<Id(!new)>(g: seq<Node<Id>>, n: Node<Id>, d: Id)
    requires UniqueIds(g)
    requires n in g && d in n.deps
    requires d !in NodeIds(g) || d in Deadlocked(g)
    ensures n.id in Deadlocked(g)
  {
    var k := |g|;
    SettledStep(g, k - 1);
    var before := Settled(g, k - 1);
    assert d !in before;
    forall m | m in g && m.id == n.id ensures !AllDone(m.deps, before) {
      var i :| 0 <= i < |g| && g[i] == m;
      var j :| 0 <= j < |g| && g[j] == n;
      assert i == j;
    }
  }

  /** When every job belongs to a self-blocking set, the deadlocked jobs are
      exactly that set. */
  lemma AllBlocked<Id(!new)>(g: seq<Node<Id>>, knot: set<Id>)
    requires SelfBlocking(g, knot) && NodeIds(g) == knot
    ensures Deadlocked(g) == knot
  {
    SelfBlockingIsDeadlocked(g, knot);
    DeadlockedIsUnsettled(g);
  }

  /** A cycle of three jobs, a -> b -> c -> a as in the test suite's
      1 -> 2 -> 3 -> 1, is reported in full. */
  lemma ThreeCycle<Id(!new)>(a: Id, b: Id, c: Id)
    ensures Deadlocked([Node(a, [b]), Node(b, [c]), Node(c, [a])]) == {a, b, c}
  {
    var g := [Node(a, [b]), Node(b, [c]), Node(c, [a])];
    var knot := {a, b, c};
    assert NodeIds(g) == knot by {
      assert g[0] in g && g[1] in g && g[2] in g;
    }
    assert SelfBlocking(g, knot) by {
      forall n | n in g && n.id in knot ensures exists d :: d in n.deps && d in knot {
        assert n.deps[0] in n.deps;
      }
    }
    AllBlocked(g, knot);
  }

  // ---------------------------------------------------------------------
  // Resolution.

  /** Dropping dependencies never delays a job. */
  lemma {:induction false} FewerDepsSettleSooner<Id(!new)>(g: seq<Node<Id>>, h: seq<Node<Id>>, k: nat)
    requires |g| == |h|
    requires forall i :: 0 <= i < |g| ==> h[i].id == g[i].id
    requires forall i, d :: 0 <= i < |g| && d in h[i].deps ==> d in g[i].deps
    ensures Settled(g, k) <= Settled(h, k)
  {
    if k > 0 {
      var k' := k - 1;
      FewerDepsSettleSooner(g, h, k');
      var before, after := Settled(g, k'), Settled(h, k');
      forall x | x in Settled(g, k) ensures x in Settled(h, k) {
        var n :| n in g && AllDone(n.deps, before) && n.id == x;
        var i :| 0 <= i < |g| && g[i] == n;
        AllDoneWeakens(n.deps, h[i].deps, before, after);
        SettlesAfter(h, k', h[i]);
      }
    }
  }

  /** Resolving the detected set removes every deadlock: analysing the
      resolved list again finds nothing. */
  lemma ResolveClearsDeadlock<Id(!new)>(g: seq<Node<Id>>)
    ensures Deadlocked(Resolved(Deadlocked(g), g)) == {}
  {
    var dead := Deadlocked(g);
    var h := Resolved(dead, g);
    FewerDepsSettleSooner(g, h, |g|);
    if |g| > 0 {
      SettledGrows(h, 1, |h|);
    }
    forall n | n in h ensures n.id in Settled(h, |h|) {
      var i :| 0 <= i < |h| && h[i] == n;
      if g[i].id in dead {
        assert AllDone(n.deps, Settled(h, 0));
        assert n.id in Settled(h, 1);
      } else {
        assert g[i] in g;
      }
    }
  }
}
