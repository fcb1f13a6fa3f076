/**
  Reachability over a "needs" relation given as a function from a name to the
  names it needs: closed sets, the closure of a set of seeds, and the worklist
  walk that computes it.
 */
module Reach {
  import opened Collections

  /** `s` contains everything its members need. */
  ghost predicate Closed(expand: string -> set<string>, s: set<string>)
  {
    forall x :: x in s ==> expand(x) <= s
  }

  /** `r` is the least closed set that contains `seeds`. */
  ghost predicate IsClosureOf(expand: string -> set<string>, r: set<string>, seeds: set<string>)
  {
    && seeds <= r
    && Closed(expand, r)
    && forall s: set<string> :: seeds <= s && Closed(expand, s) ==> r <= s
  }

  /** The closure is determined by the seeds: any two closures of the same seeds coincide. */
  lemma ClosureUnique(expand: string -> set<string>, r1: set<string>, r2: set<string>, seeds: set<string>)
    requires IsClosureOf(expand, r1, seeds) && IsClosureOf(expand, r2, seeds)
    ensures r1 == r2
  {
    assert r1 <= r2;
    assert r2 <= r1;
  }

  /** Growing the seeds never shrinks the closure. */
  lemma ClosureMonotone(expand: string -> set<string>, r1: set<string>, seeds1: set<string>, r2: set<string>, seeds2: set<string>)
    requires IsClosureOf(expand, r1, seeds1) && IsClosureOf(expand, r2, seeds2)
    requires seeds1 <= seeds2
    ensures r1 <= r2
  {
    assert seeds1 <= r2 && Closed(expand, r2);
  }

  /** Every kept name is expanded already or still queued. */
  ghost predicate Covered(deps: set<string>, queue: seq<string>, expanded: set<string>)
  {
    forall x :: x in deps ==> x in expanded || x in queue
  }

  /** What an expanded name needs is kept or queued. */
  ghost predicate Followed(expand: string -> set<string>, deps: set<string>, queue: seq<string>, expanded: set<string>)
  {
    forall x, y :: x in expanded && y in expand(x) ==> y in deps || y in queue
  }

  /** An expanded name queued again has its needs not kept yet queued behind it. */
  ghost predicate Behind(expand: string -> set<string>, deps: set<string>, queue: seq<string>, expanded: set<string>)
  {
    forall i, y :: 0 <= i < |queue| && queue[i] in expanded && y in expand(queue[i]) && y !in deps ==>
      exists j :: i < j < |queue| && queue[j] == y
  }

  /** Everything kept or queued lies in every closed set that contains the seeds. */
  ghost predicate Within(expand: string -> set<string>, seeds: set<string>, deps: set<string>, queue: seq<string>)
  {
    forall s: set<string> :: seeds <= s && Closed(expand, s) ==> deps <= s && (forall x :: x in queue ==> x in s)
  }

  /** What the walk keeps true. */
  ghost predicate WalkInvariant(expand: string -> set<string>, universe: set<string>, seeds: set<string>,
                                deps: set<string>, queue: seq<string>, expanded: set<string>)
  {
    && seeds <= deps <= universe && expanded <= deps
    && (forall x :: x in queue ==> x in universe)
    && Covered(deps, queue, expanded)
    && Followed(expand, deps, queue, expanded)
    && Behind(expand, deps, queue, expanded)
    && Within(expand, seeds, deps, queue)
  }

  /** The queue after a pop: what stayed, then the new names. */
  lemma PoppedQueue(queue: seq<string>, newDeps: seq<string>, queue': seq<string>)
    requires |queue| > 0 && queue' == queue[..|queue| - 1] + newDeps
    ensures forall i :: 0 <= i < |queue| - 1 ==> queue'[i] == queue[i]
    ensures forall k :: 0 <= k < |newDeps| ==> queue'[|queue| - 1 + k] == newDeps[k]
    ensures forall x :: x in queue' <==> (x in queue[..|queue| - 1] || x in newDeps)
  {
  }

  lemma CoveredStep(deps: set<string>, queue: seq<string>, expanded: set<string>, newDeps: seq<string>, queue': seq<string>)
    requires Covered(deps, queue, expanded)
    requires |queue| > 0 && queue' == queue[..|queue| - 1] + newDeps
    ensures Covered(deps + {queue[|queue| - 1]}, queue', expanded + {queue[|queue| - 1]})
  {
    var n := |queue| - 1;
    PoppedQueue(queue, newDeps, queue');
    forall x | x in deps && x != queue[n] && x !in expanded
      ensures x in queue'
    {
      var i :| 0 <= i < |queue| && queue[i] == x;
      assert queue'[i] == x;
    }
  }

  lemma FollowedStep(expand: string -> set<string>, deps: set<string>, queue: seq<string>, expanded: set<string>,
                     newDeps: seq<string>, queue': seq<string>)
    requires Followed(expand, deps, queue, expanded)
    requires |queue| > 0 && queue' == queue[..|queue| - 1] + newDeps
    requires forall x :: x in newDeps <==> x in expand(queue[|queue| - 1]) && x !in deps + {queue[|queue| - 1]}
    ensures Followed(expand, deps + {queue[|queue| - 1]}, queue', expanded + {queue[|queue| - 1]})
  {
    var n := |queue| - 1;
    PoppedQueue(queue, newDeps, queue');
    forall x, y | x in expanded && y in expand(x) && y !in deps + {queue[n]}
      ensures y in queue'
    {
      var i :| 0 <= i < |queue| && queue[i] == y;
      assert queue'[i] == y;
    }
  }

  /** An expanded name that stays queued keeps its witnesses: they sat before the popped end. */
  lemma BehindKept(expand: string -> set<string>, deps: set<string>, queue: seq<string>, expanded: set<string>,
                   newDeps: seq<string>, queue': seq<string>, i: int, y: string)
    requires Behind(expand, deps, queue, expanded)
    requires |queue| > 0 && queue' == queue[..|queue| - 1] + newDeps
    requires 0 <= i < |queue| - 1 && queue[i] in expanded && y in expand(queue[i]) && y !in deps + {queue[|queue| - 1]}
    ensures exists j :: i < j < |queue'| && queue'[j] == y
  {
    var j :| i < j < |queue| && queue[j] == y;
    assert j < |queue| - 1;
    assert queue'[j] == y;
  }

  /** The popped name, expanded now, has its new needs queued at the end. */
  lemma BehindFresh(queue: seq<string>, newDeps: seq<string>, queue': seq<string>, i: int, y: string)
    requires |queue| > 0 && queue' == queue[..|queue| - 1] + newDeps
    requires 0 <= i < |queue| - 1 && y in newDeps
    ensures exists j :: i < j < |queue'| && queue'[j] == y
  {
    var k :| 0 <= k < |newDeps| && newDeps[k] == y;
    assert queue'[|queue| - 1 + k] == y;
  }

  lemma BehindStep(expand: string -> set<string>, deps: set<string>, queue: seq<string>, expanded: set<string>,
                   newDeps: seq<string>, queue': seq<string>)
    requires Behind(expand, deps, queue, expanded) && expanded <= deps
    requires |queue| > 0 && queue' == queue[..|queue| - 1] + newDeps
    requires forall x :: x in newDeps <==> x in expand(queue[|queue| - 1]) && x !in deps + {queue[|queue| - 1]}
    ensures Behind(expand, deps + {queue[|queue| - 1]}, queue', expanded + {queue[|queue| - 1]})
  {
    var n := |queue| - 1;
    var item := queue[n];
    PoppedQueue(queue, newDeps, queue');
    forall k | n <= k < |queue'|
      ensures queue'[k] in newDeps && queue'[k] !in expanded + {item}
    {
      assert queue'[k] == newDeps[k - n];
    }
    forall i, y | 0 <= i < n && queue'[i] in expanded + {item} && y in expand(queue'[i]) && y !in deps + {item}
      ensures exists j :: i < j < |queue'| && queue'[j] == y
    {
      if queue[i] in expanded {
        BehindKept(expand, deps, queue, expanded, newDeps, queue', i, y);
      } else {
        BehindFresh(queue, newDeps, queue', i, y);
      }
    }
  }

  lemma WithinStep(expand: string -> set<string>, seeds: set<string>, deps: set<string>, queue: seq<string>,
                   newDeps: seq<string>, queue': seq<string>)
    requires Within(expand, seeds, deps, queue)
    requires |queue| > 0 && queue' == queue[..|queue| - 1] + newDeps
    requires forall x :: x in newDeps ==> x in expand(queue[|queue| - 1])
    ensures Within(expand, seeds, deps + {queue[|queue| - 1]}, queue')
  {
    PoppedQueue(queue, newDeps, queue');
    forall s: set<string> | seeds <= s && Closed(expand, s)
      ensures deps + {queue[|queue| - 1]} <= s && (forall x :: x in queue' ==> x in s)
    {
      assert queue[|queue| - 1] in s;
    }
  }

  /** One pop of the walk keeps the invariant. */
  lemma WalkStep(expand: string -> set<string>, universe: set<string>, seeds: set<string>,
                 deps: set<string>, queue: seq<string>, expanded: set<string>, newDeps: seq<string>)
    requires WalkInvariant(expand, universe, seeds, deps, queue, expanded)
    requires forall x :: expand(x) <= universe
    requires |queue| > 0
    requires forall x :: x in newDeps <==> x in expand(queue[|queue| - 1]) && x !in deps + {queue[|queue| - 1]}
    ensures WalkInvariant(expand, universe, seeds, deps + {queue[|queue| - 1]}, queue[..|queue| - 1] + newDeps,
                          expanded + {queue[|queue| - 1]})
  {
    var queue' := queue[..|queue| - 1] + newDeps;
    PoppedQueue(queue, newDeps, queue');
    CoveredStep(deps, queue, expanded, newDeps, queue');
    FollowedStep(expand, deps, queue, expanded, newDeps, queue');
    BehindStep(expand, deps, queue, expanded, newDeps, queue');
    WithinStep(expand, seeds, deps, queue, newDeps, queue');
  }

  /** Popping a name that was expanded before queues nothing new. */
  lemma RevisitQueuesNothing(expand: string -> set<string>, universe: set<string>, seeds: set<string>,
                             deps: set<string>, queue: seq<string>, expanded: set<string>)
    requires WalkInvariant(expand, universe, seeds, deps, queue, expanded)
    requires |queue| > 0 && queue[|queue| - 1] in expanded
    ensures expand(queue[|queue| - 1]) - (deps + {queue[|queue| - 1]}) == {}
  {
  }

  /** When the queue is empty, what is kept is the closure. */
  lemma WalkDone(expand: string -> set<string>, universe: set<string>, seeds: set<string>,
                 deps: set<string>, expanded: set<string>)
    requires WalkInvariant(expand, universe, seeds, deps, [], expanded)
    ensures IsClosureOf(expand, deps, seeds)
  {
    assert expanded == deps;
  }

  /**
    The worklist walk of `get_dependencies`: pop the last queued name, keep
    it, and queue those of its needs not kept yet. `universe` bounds every
    name the walk can meet; it only serves the termination argument.
   */
  method Walk(expand: string -> set<string>, ghost universe: set<string>, seeds: set<string>) returns (deps: set<string>)
    requires seeds <= universe
    requires forall x :: expand(x) <= universe
    ensures IsClosureOf(expand, deps, seeds)
  {
    deps := seeds;
    var queue := Enumerate(deps);
    ghost var expanded: set<string> := {};
    while |queue| > 0
      invariant WalkInvariant(expand, universe, seeds, deps, queue, expanded)
      decreases |universe - expanded|, |queue|
    {
      var item := queue[|queue| - 1];
      var newDeps := Enumerate(expand(item) - (deps + {item}));
      if item in expanded {
        RevisitQueuesNothing(expand, universe, seeds, deps, queue, expanded);
        assert |newDeps| == 0;
        assert expanded + {item} == expanded;
      } else {
        assert item in universe;
        assert universe - expanded == (universe - (expanded + {item})) + {item};
      }
      WalkStep(expand, universe, seeds, deps, queue, expanded, newDeps);
      queue := queue[..|queue| - 1] + newDeps;
      deps := deps + {item};
      expanded := expanded + {item};
    }
    WalkDone(expand, universe, seeds, deps, expanded);
  }
}
