// The tasks between two tasks of a recipe, found by following every chain of dependencies.
module TasksBetween {
  import opened PyStrings

  type Task = string

  /** The tasks of a recipe, and the tasks that each of them comes after. */
  datatype Graph = Graph(tasks: seq<Task>, deps: map<Task, seq<Task>>) {
    ghost predicate Valid() {
      forall t :: t in tasks ==> t in deps
    }

    /** b is another task and depends on a. */
    predicate Edge(a: Task, b: Task) {
      b in tasks && b != a && b in deps && a in deps[b]
    }

    ghost predicate Walk(w: seq<Task>) {
      w != [] && forall i :: 0 <= i < |w| - 1 ==> Edge(w[i], w[i + 1])
    }

    /** A walk that stops when it gets to end. */
    ghost predicate WalkTo(end: Task, w: seq<Task>) {
      Walk(w) && forall i :: 0 <= i < |w| - 1 ==> w[i] != end
    }

    /** No walk with this beginning meets a task twice. */
    ghost predicate Simple(end: Task, p: seq<Task>) {
      forall w :: WalkTo(end, w) && p <= w ==> Distinct(w)
    }

    /** t lies on a walk with this beginning that gets to end. */
    ghost predicate On(end: Task, p: seq<Task>, t: Task) {
      exists w :: WalkTo(end, w) && p <= w && w[|w| - 1] == end && t in w
    }
  }

  class Follower {
    const g: Graph
    const end: Task
    /** Every task that a chain may hold. */
    ghost const all: set<Task>
    var chain: seq<Task>
    var outtasks: seq<Task>

    constructor (g: Graph, start: Task, end: Task)
      ensures this.g == g && this.end == end && chain == [] && outtasks == [] && all == (set t | t in g.tasks) + {start}
    {
      this.g, this.end, all, chain, outtasks := g, end, (set t | t in g.tasks) + {start}, [], [];
    }

    ghost predicate Inside(s: seq<Task>) {
      && (forall t :: t in g.tasks ==> t in all)
      && (forall t :: t in s ==> t in all)
    }

    /**
     * `follow_chain(task, endtask, chain)`. The result is false for the fatal error, which comes exactly when
     * some way on meets a task twice. Otherwise the chain is as it was, and exactly the tasks on the ways
     * from here to the end were added.
     */
    method FollowChain(task: Task) returns (ok: bool)
      requires g.Valid() && Distinct(chain) && Distinct(outtasks)
      requires g.WalkTo(end, chain + [task]) && Inside(chain + [task])
      modifies this
      ensures ok <==> g.Simple(end, old(chain) + [task])
      ensures ok ==> chain == old(chain) && Distinct(outtasks)
      ensures ok ==> forall t :: t in outtasks <==>
        t in old(outtasks) || ((exists o :: o in g.tasks && o != end) && g.On(end, old(chain) + [task], t))
      decreases |all| - |chain|
    {
      ghost var p := chain + [task];
      if task in chain {
        assert !Distinct(p) by {
          var i :| 0 <= i < |chain| && chain[i] == task;
          assert p[i] == p[|chain|];
        }
        assert p <= p;
        return false;
      }
      Bounded(p, all);
      chain := chain + [task];
      ghost var before := outtasks;
      for k := 0 to |g.tasks|
        invariant chain == p && Distinct(outtasks)
        invariant task == end ==> forall t :: t in outtasks <==>
          t in before || ((exists i :: 0 <= i < k && g.tasks[i] != end) && t in p)
        invariant task != end ==> forall i :: 0 <= i < k && g.Edge(task, g.tasks[i]) ==> g.Simple(end, p + [g.tasks[i]])
        invariant task != end ==> forall t :: t in outtasks <==>
          t in before || ((exists o :: o in g.tasks && o != end) &&
            exists i :: 0 <= i < k && g.Edge(task, g.tasks[i]) && g.On(end, p + [g.tasks[i]], t))
      {
        var othertask := g.tasks[k];
        if othertask == task {
          continue;
        }
        if task == end {
          AddAll();
        } else if task in g.deps[othertask] {
          var fine := FollowChain(othertask);
          if !fine {
            FurtherWalks(g, end, p, othertask);
            return false;
          }
        }
      }
      if task == end {
        AtEnd(g, end, p);
        assert forall i :: 0 <= i < |g.tasks| ==> g.tasks[i] in g.tasks;
      } else {
        BeforeEnd(g, end, p);
      }
      chain := chain[..|chain| - 1];
      return true;
    }

    /** The tasks of the chain that are not in outtasks yet. */
    method AddAll()
      requires Distinct(outtasks)
      modifies this`outtasks
      ensures Distinct(outtasks)
      ensures forall t :: t in outtasks <==> t in old(outtasks) || t in chain
    {
      for i := 0 to |chain|
        invariant Distinct(outtasks)
        invariant forall t :: t in outtasks <==> t in old(outtasks) || t in chain[..i]
      {
        if chain[i] !in outtasks {
          outtasks := outtasks + [chain[i]];
        }
      }
    }
  }

  lemma {:induction false} Bounded(s: seq<Task>, all: set<Task>)
    requires Distinct(s) && forall t :: t in s ==> t in all
    ensures |s| <= |all|
  {
    if s != [] {
      var last := s[|s| - 1];
      Bounded(s[..|s| - 1], all - {last});
    }
  }

  /** Nothing goes on after the end. */
  lemma AtEnd(g: Graph, end: Task, p: seq<Task>)
    requires g.WalkTo(end, p) && p[|p| - 1] == end
    ensures g.Simple(end, p) <==> Distinct(p)
    ensures forall t :: g.On(end, p, t) <==> t in p
  {
    assert p <= p;
    forall w | g.WalkTo(end, w) && p <= w ensures w == p {
      assert w[|p| - 1] == end;
    }
  }

  lemma FurtherWalks(g: Graph, end: Task, p: seq<Task>, t: Task)
    ensures g.Simple(end, p) ==> g.Simple(end, p + [t])
  {
    forall w | g.Simple(end, p) && g.WalkTo(end, w) && p + [t] <= w ensures Distinct(w) {
      assert p <= w;
    }
  }

  /** A walk that gets further takes one of the edges. */
  lemma NextTask(g: Graph, end: Task, p: seq<Task>, w: seq<Task>)
    requires g.WalkTo(end, w) && p <= w && p != [] && |w| > |p|
    ensures w[|p|] in g.tasks && g.Edge(p[|p| - 1], w[|p|]) && p + [w[|p|]] <= w
  {
    assert g.Edge(w[|p| - 1], w[|p|]);
  }

  lemma BeforeEnd(g: Graph, end: Task, p: seq<Task>)
    requires g.WalkTo(end, p) && p[|p| - 1] != end
    ensures g.Simple(end, p) <==>
      Distinct(p) && forall i :: 0 <= i < |g.tasks| && g.Edge(p[|p| - 1], g.tasks[i]) ==> g.Simple(end, p + [g.tasks[i]])
    ensures forall t :: g.On(end, p, t) <==>
      exists i :: 0 <= i < |g.tasks| && g.Edge(p[|p| - 1], g.tasks[i]) && g.On(end, p + [g.tasks[i]], t)
  {
    assert p <= p;
    if g.Simple(end, p) {
      forall i | 0 <= i < |g.tasks| ensures g.Simple(end, p + [g.tasks[i]]) {
        FurtherWalks(g, end, p, g.tasks[i]);
      }
    }
    if Distinct(p) && forall i :: 0 <= i < |g.tasks| && g.Edge(p[|p| - 1], g.tasks[i]) ==> g.Simple(end, p + [g.tasks[i]]) {
      forall w | g.WalkTo(end, w) && p <= w ensures Distinct(w) {
        if |w| > |p| {
          NextTask(g, end, p, w);
        } else {
          assert w == p;
        }
      }
    }
    forall t | g.On(end, p, t)
      ensures exists i :: 0 <= i < |g.tasks| && g.Edge(p[|p| - 1], g.tasks[i]) && g.On(end, p + [g.tasks[i]], t)
    {
      var w :| g.WalkTo(end, w) && p <= w && w[|w| - 1] == end && t in w;
      assert |w| == |p| ==> w == p;
      NextTask(g, end, p, w);
      var i :| 0 <= i < |g.tasks| && g.tasks[i] == w[|p|];
      assert g.On(end, p + [g.tasks[i]], t);
    }
    forall i, t | 0 <= i < |g.tasks| && g.On(end, p + [g.tasks[i]], t)
      ensures g.On(end, p, t)
    {
      var w :| g.WalkTo(end, w) && p + [g.tasks[i]] <= w && w[|w| - 1] == end && t in w;
      assert p <= w;
    }
  }

  /** b is another task of the recipe, with a among its dependencies. */
  predicate ComesAfter(g: Graph, b: Task, a: Task) {
    a != b && b in g.deps && (exists k :: 0 <= k < |g.deps[b]| && g.deps[b][k] == a) && exists k :: 0 <= k < |g.tasks| && g.tasks[k] == b
  }

  /** From start on, each further task comes after the one before it; none before the last is end. */
  ghost predicate Onward(g: Graph, w: seq<Task>, start: Task, end: Task) {
    w != [] && w[0] == start && forall i :: 0 <= i < |w| - 1 ==> ComesAfter(g, w[i + 1], w[i]) && w[i] != end
  }

  /** Such a way that gets to end. */
  ghost predicate Way(g: Graph, w: seq<Task>, start: Task, end: Task) {
    Onward(g, w, start, end) && w[|w| - 1] == end
  }

  ghost predicate OnWay(g: Graph, start: Task, end: Task, t: Task) {
    exists w :: Way(g, w, start, end) && t in w
  }

  lemma OnwardIsWalk(g: Graph, w: seq<Task>, start: Task, end: Task)
    ensures Onward(g, w, start, end) <==> g.WalkTo(end, w) && [start] <= w
  {
    assert forall a, b :: ComesAfter(g, b, a) <==> g.Edge(a, b);
  }

  lemma WaysAreWalks(g: Graph, start: Task, end: Task)
    ensures forall t :: g.On(end, [start], t) <==> OnWay(g, start, end, t)
    ensures g.Simple(end, [start]) <==> forall w :: Onward(g, w, start, end) ==> Distinct(w)
  {
    forall w ensures Onward(g, w, start, end) <==> g.WalkTo(end, w) && [start] <= w {
      OnwardIsWalk(g, w, start, end);
    }
    hide Graph.WalkTo, Onward;
  }

  /** `tasksbetween(task_start, task_end, d)`; the result is false for the fatal error. */
  method TasksBetween(g: Graph, start: Task, end: Task) returns (ok: bool, outtasks: seq<Task>)
    requires g.Valid()
    ensures ok <==> g.Simple(end, [start])
    ensures ok ==> Distinct(outtasks)
    ensures ok ==> forall t :: t in outtasks <==> (exists o :: o in g.tasks && o != end) && g.On(end, [start], t)
    ensures ok ==> forall t :: t in outtasks <==> (exists o :: o in g.tasks && o != end) && OnWay(g, start, end, t)
    ensures ok <==> forall w :: Onward(g, w, start, end) ==> Distinct(w)
  {
    WaysAreWalks(g, start, end);
    var f := new Follower(g, start, end);
    assert f.chain + [start] == [start];
    ok := f.FollowChain(start);
    outtasks := f.outtasks;
  }

  // ---- paths and cycles ----

  ghost predicate Path(g: Graph, w: seq<Task>, a: Task, b: Task) {
    g.Walk(w) && w[0] == a && w[|w| - 1] == b
  }

  /** A cycle that can be reached without passing the end. */
  ghost predicate CycleBeforeEnd(g: Graph, start: Task, end: Task) {
    exists p, c :: g.WalkTo(end, p) && g.WalkTo(end, c) && |c| > 1
                   && p[0] == start && p[|p| - 1] == c[0] == c[|c| - 1]
  }

  /** The fatal error is for such a cycle and nothing else. */
  lemma FatalIffCycle(g: Graph, start: Task, end: Task)
    ensures g.Simple(end, [start]) <==> !CycleBeforeEnd(g, start, end)
  {
    if !g.Simple(end, [start]) {
      var w :| g.WalkTo(end, w) && [start] <= w && !Distinct(w);
      var i, j :| 0 <= i < j < |w| && w[i] == w[j];
      CycleInWalk(g, end, w, i, j);
    }
    if CycleBeforeEnd(g, start, end) {
      var p, c :| g.WalkTo(end, p) && g.WalkTo(end, c) && |c| > 1 && p[0] == start && p[|p| - 1] == c[0] == c[|c| - 1];
      AroundTheCycle(g, start, end, p, c);
    }
  }

  lemma CycleInWalk(g: Graph, end: Task, w: seq<Task>, i: nat, j: nat)
    requires g.WalkTo(end, w) && i < j < |w| && w[i] == w[j]
    ensures CycleBeforeEnd(g, w[0], end)
  {
    var p, c := w[..i + 1], w[i..j + 1];
    PartOfWalk(g, end, w, 0, i + 1);
    PartOfWalk(g, end, w, i, j + 1);
    hide Graph.WalkTo;
    assert w[0..i + 1] == p;
    assert p[0] == w[0] && p[|p| - 1] == c[0] == c[|c| - 1];
  }

  lemma PartOfWalk(g: Graph, end: Task, w: seq<Task>, i: nat, j: nat)
    requires g.WalkTo(end, w) && i < j <= |w|
    ensures g.WalkTo(end, w[i..j])
  {
    var p := w[i..j];
    forall k | 0 <= k < |p| - 1 ensures g.Edge(p[k], p[k + 1]) && p[k] != end {
      assert g.Edge(w[i + k], w[i + k + 1]);
    }
  }

  lemma AroundTheCycle(g: Graph, start: Task, end: Task, p: seq<Task>, c: seq<Task>)
    requires g.WalkTo(end, p) && g.WalkTo(end, c) && |c| > 1 && p[0] == start && p[|p| - 1] == c[0] == c[|c| - 1]
    ensures !g.Simple(end, [start])
  {
    var w := p + c[1..];
    forall k | 0 <= k < |w| - 1 ensures g.Edge(w[k], w[k + 1]) && w[k] != end {
      if k >= |p| - 1 {
        assert w[k] == c[k - (|p| - 1)] && w[k + 1] == c[k - (|p| - 1) + 1];
      }
    }
    assert g.WalkTo(end, w) && [start] <= w && w[|p| - 1] == w[|w| - 1];
  }

  ghost predicate Acyclic(g: Graph) {
    forall w :: g.Walk(w) ==> Distinct(w)
  }

  /** In a recipe with at least two tasks and no cycle: the tasks on the paths from the one to the other. */
  lemma OnIffOnPath(g: Graph, start: Task, end: Task, t: Task)
    requires Acyclic(g)
    ensures g.Simple(end, [start])
    ensures g.On(end, [start], t) <==> exists w :: Path(g, w, start, end) && t in w
    ensures g.On(end, [start], t) <==> (exists v :: Path(g, v, start, t)) && (exists u :: Path(g, u, t, end))
  {
    forall w | Path(g, w, start, end) && t in w ensures g.On(end, [start], t) {
      assert [start] <= w && g.WalkTo(end, w);
    }
    forall w, k | Path(g, w, start, end) && 0 <= k < |w| && w[k] == t
      ensures (exists v :: Path(g, v, start, t)) && (exists u :: Path(g, u, t, end))
    {
      assert Path(g, w[..k + 1], start, t) && Path(g, w[k..], t, end);
    }
    forall v, u | Path(g, v, start, t) && Path(g, u, t, end)
      ensures exists w :: Path(g, w, start, end) && t in w
    {
      var w := v + u[1..];
      forall k | 0 <= k < |w| - 1 ensures g.Edge(w[k], w[k + 1]) {
        if k >= |v| - 1 {
          assert w[k] == u[k - (|v| - 1)] && w[k + 1] == u[k - (|v| - 1) + 1];
        }
      }
      assert w[|v| - 1] == t && Path(g, w, start, end);
    }
  }
}
