/** The readiness scheduler of ProcessInParallelAsync: it starts every node
    without parents, then, each time a task finishes, marks its node
    finished and starts every child whose parents are all finished.

    Tasks are identified by the number under which they were started; the
    wait for "any task to finish" is a nondeterministic choice among the
    running tasks, and the payloads themselves are not run. */
module Executor {
  import opened Graphs

  /** The bookkeeping of one run as a value: the node of every task in
      `allTasks` (in list order), the `finishedActions` flags, and the node of
      every task started so far (in start order). */
  datatype ExecState = ExecState(running: seq<int>, finished: seq<bool>, started: seq<int>)

  /** Every node in `ps` has its finished flag set. */
  predicate AllFinished<T>(ps: seq<Node<T>>, finished: seq<bool>) {
    forall i :: 0 <= i < |ps| ==> 0 <= ps[i].ind < |finished| && finished[ps[i].ind]
  }

  /** The nodes of `cs` whose parents are all finished, in the order of `cs`. */
  function ReadyAmong<T>(nodes: seq<Node<T>>, edges: seq<Edge>, finished: seq<bool>, cs: seq<Node<T>>): seq<Node<T>>
    requires EdgesWithin(edges, |nodes|)
  {
    if cs == [] then []
    else
      var c := cs[|cs| - 1];
      ReadyAmong(nodes, edges, finished, cs[..|cs| - 1])
        + if AllFinished(Incoming(nodes, edges, c.ind), finished) then [c] else []
  }

  /** The nodes below `n` that have no parents, in increasing order. */
  function Roots<T>(nodes: seq<Node<T>>, edges: seq<Edge>, n: nat): seq<int>
    requires EdgesWithin(edges, |nodes|)
  {
    if n == 0 then []
    else Roots(nodes, edges, n - 1) + if |Incoming(nodes, edges, n - 1)| == 0 then [n - 1] else []
  }

  /** The state just before the main loop: the parentless nodes are running
      and started, and no node is finished. */
  function InitialState<T>(nodes: seq<Node<T>>, edges: seq<Edge>): ExecState
    requires EdgesWithin(edges, |nodes|)
  {
    var roots := Roots(nodes, edges, |nodes|);
    ExecState(roots, seq(|nodes|, _ => false), roots)
  }

  /** One iteration of the main loop when the task at position `k` of the
      task list is the one that finished: its node is marked finished, the
      ready children of that node are started, and the task leaves the list. */
  function Step<T>(nodes: seq<Node<T>>, edges: seq<Edge>, s: ExecState, k: nat): ExecState
    requires EdgesWithin(edges, |nodes|)
    requires k < |s.running| && 0 <= s.running[k] < |s.finished|
  {
    var p := s.running[k];
    var finished := s.finished[p := true];
    var ready := ReadyChildren(nodes, edges, finished, p);
    ExecState(s.running[..k] + s.running[k + 1..] + ready, finished, s.started + ready)
  }

  /** The children of `p`, in children order, whose parents are all finished. */
  function ReadyChildren<T>(nodes: seq<Node<T>>, edges: seq<Edge>, finished: seq<bool>, p: int): seq<int>
    requires EdgesWithin(edges, |nodes|)
  {
    Inds(ReadyAmong(nodes, edges, finished, Adjacent(nodes, edges, p)))
  }

  /** What holds of the bookkeeping between iterations of the main loop. */
  ghost predicate Inv<T>(nodes: seq<Node<T>>, edges: seq<Edge>, s: ExecState)
    requires EdgesWithin(edges, |nodes|)
  {
    && |s.finished| == |nodes|
    && Distinct(s.started) && Distinct(s.running)
    && (forall i :: 0 <= i < |s.running| ==> 0 <= s.running[i] < |nodes| && !s.finished[s.running[i]])
    && (forall v :: v in s.started ==> 0 <= v < |nodes|)
    // a node has been started exactly when all of its parents are finished
    && (forall v :: 0 <= v < |nodes| ==> (v in s.started <==> AllFinished(Incoming(nodes, edges, v), s.finished)))
    // a started node is either still running or finished
    && (forall v :: 0 <= v < |nodes| ==> (v in s.started <==> v in s.running || s.finished[v]))
  }

  /** `rank` numbers the nodes so that every edge goes up: the graph has no cycle. */
  predicate IsRanking(edges: seq<Edge>, rank: seq<nat>) {
    EdgesWithin(edges, |rank|)
    && forall k :: 0 <= k < |edges| ==> rank[edges[k].source] < rank[edges[k].target]
  }

  ghost predicate Acyclic(edges: seq<Edge>, size: nat) {
    exists rank: seq<nat> :: |rank| == size && IsRanking(edges, rank)
  }

  /** The number of unfinished nodes. */
  function CountUnfinished(finished: seq<bool>): nat {
    if finished == [] then 0
    else CountUnfinished(finished[..|finished| - 1]) + if finished[|finished| - 1] then 0 else 1
  }

  /** The position of the first occurrence of `x` in `s`. */
  function IndexOf(s: seq<nat>, x: nat): (k: nat)
    requires x in s
    ensures k < |s| && s[k] == x && x !in s[..k]
  {
    if s[0] == x then 0 else 1 + IndexOf(s[1..], x)
  }

  /** `List.Remove`: drops the first occurrence of `x`, if any. */
  function RemoveFirst(s: seq<nat>, x: nat): seq<nat> {
    if s == [] then []
    else if s[0] == x then s[1..]
    else [s[0]] + RemoveFirst(s[1..], x)
  }

  /** The node index of every task in `tasks`, in order. */
  function NodesOf<T>(tasks: seq<nat>, m: map<nat, Node<T>>): seq<int>
    requires forall t :: t in tasks ==> t in m
  {
    seq(|tasks|, i requires 0 <= i < |tasks| => m[tasks[i]].ind)
  }

  // ---------------------------------------------------------------------
  // Lemmas about the specification functions

  /** A node is ready among `cs` exactly when it is in `cs` and its parents
      are all finished. */
  lemma {:induction false} ReadyAmongMembers<T>(nodes: seq<Node<T>>, edges: seq<Edge>, finished: seq<bool>, cs: seq<Node<T>>, x: Node<T>)
    requires EdgesWithin(edges, |nodes|)
    ensures x in ReadyAmong(nodes, edges, finished, cs)
        <==> x in cs && AllFinished(Incoming(nodes, edges, x.ind), finished)
  {
    if cs != [] {
      var init := cs[..|cs| - 1];
      assert cs == init + [cs[|cs| - 1]];
      ReadyAmongMembers(nodes, edges, finished, init, x);
    }
  }

  /** Picking the ready nodes out of a list without repeated indices gives a
      list without repeated indices. */
  lemma {:induction false} ReadyAmongDistinct<T>(nodes: seq<Node<T>>, edges: seq<Edge>, finished: seq<bool>, cs: seq<Node<T>>)
    requires EdgesWithin(edges, |nodes|)
    requires Distinct(Inds(cs))
    ensures Distinct(Inds(ReadyAmong(nodes, edges, finished, cs)))
  {
    if cs != [] {
      var n := |cs| - 1;
      var init := cs[..n];
      var c := cs[n];
      assert Inds(init) == Inds(cs)[..n];
      ReadyAmongDistinct(nodes, edges, finished, init);
      var before := ReadyAmong(nodes, edges, finished, init);
      if AllFinished(Incoming(nodes, edges, c.ind), finished) {
        var after := Inds(before) + [c.ind];
        assert Inds(before + [c]) == after;
        forall i | 0 <= i < |before|
          ensures before[i].ind != c.ind
        {
          ReadyAmongMembers(nodes, edges, finished, init, before[i]);
          var j :| 0 <= j < |init| && init[j] == before[i];
          assert Inds(cs)[j] == before[i].ind && Inds(cs)[n] == c.ind;
        }
        forall i, j | 0 <= i < j < |after|
          ensures after[i] != after[j]
        {
          if j < |after| - 1 {
            assert after[i] == Inds(before)[i] && after[j] == Inds(before)[j];
          }
        }
        assert ReadyAmong(nodes, edges, finished, cs) == before + [c];
      } else {
        assert ReadyAmong(nodes, edges, finished, cs) == before;
      }
    }
  }

  /** The roots are exactly the parentless nodes below `n`, in strictly
      increasing order. */
  lemma {:induction false} RootsExactly<T>(nodes: seq<Node<T>>, edges: seq<Edge>, n: nat)
    requires EdgesWithin(edges, |nodes|)
    ensures forall v :: v in Roots(nodes, edges, n) <==> 0 <= v < n && |Incoming(nodes, edges, v)| == 0
    ensures forall i, j :: 0 <= i < j < |Roots(nodes, edges, n)| ==> Roots(nodes, edges, n)[i] < Roots(nodes, edges, n)[j]
  {
    if n > 0 {
      RootsExactly(nodes, edges, n - 1);
      var before := Roots(nodes, edges, n - 1);
      if |Incoming(nodes, edges, n - 1)| == 0 {
        var r := before + [n - 1];
        assert Roots(nodes, edges, n) == r;
        forall i, j | 0 <= i < j < |r|
          ensures r[i] < r[j]
        {
          if j == |r| - 1 {
            assert r[i] in before;
          } else {
            assert r[i] == before[i] && r[j] == before[j];
          }
        }
      } else {
        assert Roots(nodes, edges, n) == before;
      }
    }
  }

  lemma {:induction false} MarkFinishedCount(finished: seq<bool>, p: int)
    requires 0 <= p < |finished| && !finished[p]
    ensures CountUnfinished(finished[p := true]) == CountUnfinished(finished) - 1
  {
    var n := |finished| - 1;
    if p < n {
      assert finished[p := true][..n] == finished[..n][p := true];
      MarkFinishedCount(finished[..n], p);
    } else {
      assert finished[p := true][..n] == finished[..n];
    }
  }

  lemma AllFinishedMonotone<T>(ps: seq<Node<T>>, finished: seq<bool>, p: int)
    requires AllFinished(ps, finished) && 0 <= p < |finished|
    ensures AllFinished(ps, finished[p := true])
  {
  }

  lemma DistinctConcat<X>(a: seq<X>, b: seq<X>)
    requires Distinct(a) && Distinct(b)
    requires forall x :: x in a ==> x !in b
    ensures Distinct(a + b)
  {
    forall i, j | 0 <= i < j < |a + b|
      ensures (a + b)[i] != (a + b)[j]
    {
      if j < |a| {
      } else if i < |a| {
        assert (a + b)[i] in a && (a + b)[j] in b;
      } else {
        assert (a + b)[i] == b[i - |a|] && (a + b)[j] == b[j - |a|];
      }
    }
  }

  /** Cutting out position `k` of a list without repeats leaves the other
      elements, still without repeats. */
  lemma RemoveAtMembers<X>(s: seq<X>, k: nat)
    requires Distinct(s) && k < |s|
    ensures Distinct(s[..k] + s[k + 1..])
    ensures forall x :: x in s[..k] + s[k + 1..] <==> x in s && x != s[k]
  {
    var r := s[..k] + s[k + 1..];
    forall i, j | 0 <= i < j < |r|
      ensures r[i] != r[j]
    {
      var i' := if i < k then i else i + 1;
      var j' := if j < k then j else j + 1;
      assert r[i] == s[i'] && r[j] == s[j'];
    }
    forall x
      ensures x in r <==> x in s && x != s[k]
    {
      if x in r {
        var i :| 0 <= i < |r| && r[i] == x;
        var i' := if i < k then i else i + 1;
        assert s[i'] == x;
      }
      if x in s && x != s[k] {
        var i :| 0 <= i < |s| && s[i] == x;
        if i < k {
          assert r[i] == x;
        } else {
          assert r[i - 1] == x;
        }
      }
    }
  }

  lemma {:induction false} RemoveFirstAt(s: seq<nat>, x: nat, k: nat)
    requires k < |s| && s[k] == x && x !in s[..k]
    ensures RemoveFirst(s, x) == s[..k] + s[k + 1..]
  {
    if k > 0 {
      assert s[0] != x;
      assert s[1..][..k - 1] == s[1..k];
      RemoveFirstAt(s[1..], x, k - 1);
      assert s[..k] == [s[0]] + s[1..k];
    }
  }

  /** Before the main loop the invariant holds. */
  lemma InitialInv<T>(nodes: seq<Node<T>>, edges: seq<Edge>)
    requires WellIndexed(nodes) && EdgesWithin(edges, |nodes|)
    ensures Inv(nodes, edges, InitialState(nodes, edges))
  {
    var s := InitialState(nodes, edges);
    RootsExactly(nodes, edges, |nodes|);
    forall i | 0 <= i < |s.running|
      ensures 0 <= s.running[i] < |nodes| && !s.finished[s.running[i]]
    {
      assert s.running[i] in Roots(nodes, edges, |nodes|);
    }
    forall v | 0 <= v < |nodes|
      ensures v in s.started <==> AllFinished(Incoming(nodes, edges, v), s.finished)
    {
      var ps := Incoming(nodes, edges, v);
      if |ps| != 0 {
        ListedNodesWithin(nodes, edges, v);
        assert ps[0] in ps;
        assert !s.finished[ps[0].ind];
      }
    }
  }

  /** The children of `p` that the step starts are not yet started, and no
      index comes twice, provided no edge is given twice. */
  lemma ReadyChildrenFresh<T>(nodes: seq<Node<T>>, edges: seq<Edge>, s: ExecState, p: int)
    requires WellIndexed(nodes) && EdgesWithin(edges, |nodes|) && NoDuplicateEdges(edges)
    requires Inv(nodes, edges, s) && 0 <= p < |nodes| && !s.finished[p]
    ensures Distinct(ReadyChildren(nodes, edges, s.finished[p := true], p))
    ensures forall r :: r in ReadyChildren(nodes, edges, s.finished[p := true], p) ==> 0 <= r < |nodes| && r !in s.started
  {
    var fin := s.finished[p := true];
    var children := Adjacent(nodes, edges, p);
    var readyNodes := ReadyAmong(nodes, edges, fin, children);
    var ready := Inds(readyNodes);
    ListedNodesWithin(nodes, edges, p);
    forall r | r in ready
      ensures 0 <= r < |nodes| && r !in s.started
    {
      var i :| 0 <= i < |readyNodes| && readyNodes[i].ind == r;
      ReadyAmongMembers(nodes, edges, fin, children, readyNodes[i]);
      // p is a parent of r and was not finished, so r had not been started
      ChildIffParent(nodes, edges, p, r);
      var ps := Incoming(nodes, edges, r);
      var j :| 0 <= j < |ps| && ps[j] == nodes[p];
      assert !AllFinished(ps, s.finished);
    }
    ChildrenDistinct(nodes, edges, p);
    ReadyAmongDistinct(nodes, edges, fin, children);
  }

  /** After the step, node `v` counts as started exactly when all its
      parents are finished. */
  lemma ReadyChildrenCompleteAt<T>(nodes: seq<Node<T>>, edges: seq<Edge>, s: ExecState, p: int, v: int)
    requires WellIndexed(nodes) && EdgesWithin(edges, |nodes|)
    requires Inv(nodes, edges, s) && 0 <= p < |nodes| && 0 <= v < |nodes|
    ensures v in s.started + ReadyChildren(nodes, edges, s.finished[p := true], p) <==>
            AllFinished(Incoming(nodes, edges, v), s.finished[p := true])
  {
    var fin := s.finished[p := true];
    var children := Adjacent(nodes, edges, p);
    var readyNodes := ReadyAmong(nodes, edges, fin, children);
    var ready := Inds(readyNodes);
    var ps := Incoming(nodes, edges, v);
    if v in s.started {
      AllFinishedMonotone(ps, s.finished, p);
    } else {
      if v in ready {
        var i :| 0 <= i < |readyNodes| && readyNodes[i].ind == v;
        ReadyAmongMembers(nodes, edges, fin, children, readyNodes[i]);
      }
      if AllFinished(ps, fin) {
        // some parent was unfinished before the step: it can only be p
        ListedNodesWithin(nodes, edges, v);
        var j :| 0 <= j < |ps| && !s.finished[ps[j].ind];
        assert ps[j] == nodes[p];
        ChildIffParent(nodes, edges, p, v);
        ReadyAmongMembers(nodes, edges, fin, children, nodes[v]);
        var i :| 0 <= i < |readyNodes| && readyNodes[i] == nodes[v];
        assert ready[i] == v;
      }
    }
  }

  /** After the step a node counts as started exactly when all its parents
      are finished. */
  lemma ReadyChildrenComplete<T>(nodes: seq<Node<T>>, edges: seq<Edge>, s: ExecState, p: int)
    requires WellIndexed(nodes) && EdgesWithin(edges, |nodes|)
    requires Inv(nodes, edges, s) && 0 <= p < |nodes|
    ensures forall v :: 0 <= v < |nodes| ==>
      (v in s.started + ReadyChildren(nodes, edges, s.finished[p := true], p) <==>
       AllFinished(Incoming(nodes, edges, v), s.finished[p := true]))
  {
    forall v | 0 <= v < |nodes|
      ensures v in s.started + ReadyChildren(nodes, edges, s.finished[p := true], p) <==>
              AllFinished(Incoming(nodes, edges, v), s.finished[p := true])
    {
      ReadyChildrenCompleteAt(nodes, edges, s, p, v);
    }
  }

  /** After the step the running nodes are distinct, in range and
      unfinished. */
  lemma StepRunning<T>(nodes: seq<Node<T>>, edges: seq<Edge>, s: ExecState, k: nat)
    requires WellIndexed(nodes) && EdgesWithin(edges, |nodes|) && NoDuplicateEdges(edges)
    requires Inv(nodes, edges, s) && k < |s.running|
    ensures var t := Step(nodes, edges, s, k);
      && Distinct(t.running)
      && forall i :: 0 <= i < |t.running| ==> 0 <= t.running[i] < |nodes| && !t.finished[t.running[i]]
  {
    var p := s.running[k];
    var fin := s.finished[p := true];
    var ready := ReadyChildren(nodes, edges, fin, p);
    var rest := s.running[..k] + s.running[k + 1..];
    var t := Step(nodes, edges, s, k);
    assert t == ExecState(rest + ready, fin, s.started + ready);
    ReadyChildrenFresh(nodes, edges, s, p);
    RemoveAtMembers(s.running, k);
    forall x | x in rest
      ensures x !in ready
    {
      assert x in s.running;
    }
    DistinctConcat(rest, ready);
    forall i | 0 <= i < |t.running|
      ensures 0 <= t.running[i] < |nodes| && !fin[t.running[i]]
    {
      if i < |rest| {
        var j := if i < k then i else i + 1;
        assert t.running[i] == s.running[j] && j != k;
        assert s.running[j] != p;
      } else {
        var r := ready[i - |rest|];
        assert t.running[i] == r && r in ready;
        assert s.running[k] in s.running;
        assert p in s.started && r !in s.started;
      }
    }
  }

  /** After the step the started nodes are distinct and in range, and a
      node is started exactly when it is running or finished. */
  lemma StepStarted<T>(nodes: seq<Node<T>>, edges: seq<Edge>, s: ExecState, k: nat)
    requires WellIndexed(nodes) && EdgesWithin(edges, |nodes|) && NoDuplicateEdges(edges)
    requires Inv(nodes, edges, s) && k < |s.running|
    ensures var t := Step(nodes, edges, s, k);
      && Distinct(t.started)
      && (forall v :: v in t.started ==> 0 <= v < |nodes|)
      && forall v :: 0 <= v < |nodes| ==> (v in t.started <==> v in t.running || t.finished[v])
  {
    var p := s.running[k];
    var fin := s.finished[p := true];
    var ready := ReadyChildren(nodes, edges, fin, p);
    var rest := s.running[..k] + s.running[k + 1..];
    var t := Step(nodes, edges, s, k);
    assert t == ExecState(rest + ready, fin, s.started + ready);
    ReadyChildrenFresh(nodes, edges, s, p);
    DistinctConcat(s.started, ready);
    RemoveAtMembers(s.running, k);
    forall v | 0 <= v < |nodes|
      ensures v in t.started <==> v in t.running || fin[v]
    {
      if v in ready {
        assert v in t.started && v in t.running;
      } else if v == p {
        assert s.running[k] in s.running;
        assert v in s.started && fin[v];
      } else {
        assert v in t.started <==> v in s.started;
        assert v in t.running <==> v in s.running;
        assert fin[v] == s.finished[v];
      }
    }
  }

  /** One iteration of the main loop keeps the invariant and finishes one
      more node, provided no edge is given twice. */
  lemma StepPreservesInv<T>(nodes: seq<Node<T>>, edges: seq<Edge>, s: ExecState, k: nat)
    requires WellIndexed(nodes) && EdgesWithin(edges, |nodes|) && NoDuplicateEdges(edges)
    requires Inv(nodes, edges, s) && k < |s.running|
    ensures Inv(nodes, edges, Step(nodes, edges, s, k))
    ensures CountUnfinished(Step(nodes, edges, s, k).finished) < CountUnfinished(s.finished)
  {
    var p := s.running[k];
    assert 0 <= p < |nodes| && !s.finished[p];
    MarkFinishedCount(s.finished, p);
    ReadyChildrenComplete(nodes, edges, s, p);
    StepRunning(nodes, edges, s, k);
    StepStarted(nodes, edges, s, k);
  }

  /** The invariant at every node of rank below `bound`, once no task is
      running: that node is finished. */
  lemma {:induction false} FinishedBelowRank<T>(nodes: seq<Node<T>>, edges: seq<Edge>, s: ExecState, rank: seq<nat>, bound: nat)
    requires WellIndexed(nodes) && EdgesWithin(edges, |nodes|)
    requires Inv(nodes, edges, s) && s.running == []
    requires |rank| == |nodes| && IsRanking(edges, rank)
    ensures forall v :: 0 <= v < |nodes| && rank[v] < bound ==> s.finished[v]
  {
    if bound > 0 {
      FinishedBelowRank(nodes, edges, s, rank, bound - 1);
      forall v | 0 <= v < |nodes| && rank[v] == bound - 1
        ensures s.finished[v]
      {
        var ps := Incoming(nodes, edges, v);
        forall i | 0 <= i < |ps|
          ensures 0 <= ps[i].ind < |s.finished| && s.finished[ps[i].ind]
        {
          IncomingMembers(nodes, edges, v, ps[i]);
          var j :| 0 <= j < |edges| && edges[j].target == v && nodes[edges[j].source] == ps[i];
          assert ps[i].ind == edges[j].source;
        }
      }
    }
  }

  /** Once no task is left, every started node is finished; and in a graph
      without cycles every node has been started and finished. */
  lemma AllDoneWhenIdle<T>(nodes: seq<Node<T>>, edges: seq<Edge>, s: ExecState)
    requires WellIndexed(nodes) && EdgesWithin(edges, |nodes|)
    requires Inv(nodes, edges, s) && s.running == []
    ensures forall v :: 0 <= v < |nodes| ==> (v in s.started <==> s.finished[v])
    ensures Acyclic(edges, |nodes|) ==> forall v :: 0 <= v < |nodes| ==> s.finished[v] && v in s.started
  {
    if Acyclic(edges, |nodes|) {
      var rank: seq<nat> :| |rank| == |nodes| && IsRanking(edges, rank);
      forall v | 0 <= v < |nodes|
        ensures s.finished[v]
      {
        FinishedBelowRank(nodes, edges, s, rank, rank[v] + 1);
      }
    }
  }

  lemma NodesOfAppend<T>(tasks: seq<nat>, m: map<nat, Node<T>>, t: nat, node: Node<T>)
    requires forall u :: u in tasks ==> u in m
    requires t !in tasks
    ensures NodesOf(tasks + [t], m[t := node]) == NodesOf(tasks, m) + [node.ind]
  {
  }

  lemma NodesOfRemoveAt<T>(tasks: seq<nat>, m: map<nat, Node<T>>, k: nat)
    requires forall u :: u in tasks ==> u in m
    requires k < |tasks|
    ensures forall u :: u in tasks[..k] + tasks[k + 1..] ==> u in m
    ensures NodesOf(tasks[..k] + tasks[k + 1..], m) == NodesOf(tasks, m)[..k] + NodesOf(tasks, m)[k + 1..]
  {
    var r := tasks[..k] + tasks[k + 1..];
    forall u | u in r
      ensures u in m
    {
      var i :| 0 <= i < |r| && r[i] == u;
      assert u == tasks[if i < k then i else i + 1];
    }
  }

  /** The ready nodes among the first `j + 1` children are those among the
      first `j`, followed by child `j` when its parents are all finished. */
  lemma ReadyAmongPrefix<T>(nodes: seq<Node<T>>, edges: seq<Edge>, finished: seq<bool>, cs: seq<Node<T>>, j: nat)
    requires EdgesWithin(edges, |nodes|) && j < |cs|
    ensures Inds(ReadyAmong(nodes, edges, finished, cs[..j + 1]))
         == Inds(ReadyAmong(nodes, edges, finished, cs[..j]))
            + if AllFinished(Incoming(nodes, edges, cs[j].ind), finished) then [cs[j].ind] else []
  {
    assert cs[..j + 1][..j] == cs[..j];
    var before := ReadyAmong(nodes, edges, finished, cs[..j]);
    assert Inds(before + [cs[j]]) == Inds(before) + [cs[j].ind];
  }

  lemma AllFinishedPrefix<T>(ps: seq<Node<T>>, finished: seq<bool>, i: nat)
    requires i < |ps|
    ensures AllFinished(ps[..i + 1], finished)
        <==> AllFinished(ps[..i], finished) && 0 <= ps[i].ind < |finished| && finished[ps[i].ind]
  {
    assert forall j :: 0 <= j < i ==> ps[..i + 1][j] == ps[..i][j];
  }

  lemma AppendAssoc<X>(a: seq<X>, b: seq<X>, c: seq<X>)
    ensures (a + b) + c == a + (b + c)
  {
  }

  lemma RemoveAtAppend<X>(a: seq<X>, b: seq<X>, k: nat)
    requires k < |a|
    ensures (a + b)[..k] + (a + b)[k + 1..] == a[..k] + a[k + 1..] + b
  {
    assert (a + b)[..k] == a[..k];
    assert (a + b)[k + 1..] == a[k + 1..] + b;
  }

  /** `tasks` still begins with `tasks0`, and every task added since was
      numbered from `next0` on, below `next`. */
  predicate Extends(tasks: seq<nat>, next: nat, tasks0: seq<nat>, next0: nat) {
    && |tasks0| <= |tasks| && tasks[..|tasks0|] == tasks0 && next0 <= next
    && forall i :: |tasks0| <= i < |tasks| ==> tasks[i] >= next0
  }

  lemma ExtendsTrans(t2: seq<nat>, n2: nat, t1: seq<nat>, n1: nat, t0: seq<nat>, n0: nat)
    requires Extends(t1, n1, t0, n0) && Extends(t2, n2, t1, n1)
    ensures Extends(t2, n2, t0, n0)
  {
    assert t2[..|t0|] == t2[..|t1|][..|t0|];
  }

  // ---------------------------------------------------------------------
  // The scheduler's state and its loops

  class Execution<T> {
    /** The graph being run. */
    const g: Graph<T>
    /** `finishedActions`: one flag per node. */
    const finishedActions: array<bool>
    /** `allTasks`: the tasks started and not yet seen finished. */
    var allTasks: seq<nat>
    /** `map`: the node each task was started for. */
    var taskMap: map<nat, Node<T>>
    /** The number the next started task gets; tasks are never reused. */
    var nextTask: nat
    /** The node of every task started so far, in start order: a record
        of the run kept for the proofs, with no counterpart in the program. */
    ghost var startOrder: seq<int>

    ghost predicate Valid()
      reads this, g.adjacencyList, g.parentsList, finishedActions
    {
      && g.Valid() && finishedActions.Length == g.size
      && Distinct(allTasks)
      && (forall t :: t in allTasks ==> t in taskMap)
      && (forall t :: t in taskMap ==> t < nextTask && 0 <= taskMap[t].ind < g.size)
    }

    /** The node of every task in `allTasks`, in list order. */
    function Running(): seq<int>
      reads this
      requires forall t :: t in allTasks ==> t in taskMap
    {
      NodesOf(allTasks, taskMap)
    }

    ghost function State(): ExecState
      reads this, g.adjacencyList, g.parentsList, finishedActions
      requires Valid()
    {
      ExecState(Running(), finishedActions[..], startOrder)
    }

    /** Sets up an empty task list, an empty task map and an all-false
        `finishedActions` array with one flag per node. */
    constructor (g: Graph<T>)
      requires g.Valid()
      ensures Valid() && this.g == g && fresh(finishedActions)
      ensures allTasks == [] && taskMap == map[] && startOrder == []
      ensures finishedActions[..] == seq(g.size, _ => false)
    {
      this.g := g;
      finishedActions := new bool[g.size](_ => false);
      allTasks := [];
      taskMap := map[];
      nextTask := 0;
      startOrder := [];
    }

    /** `TaskFactory.StartNew` for `node`: a new task, recorded in the task
        map and appended to the task list. */
    method StartTask(node: Node<T>)
      requires Valid() && 0 <= node.ind < g.size
      modifies this
      ensures Valid()
      ensures allTasks == old(allTasks) + [old(nextTask)] && nextTask == old(nextTask) + 1
      ensures taskMap == old(taskMap)[old(nextTask) := node]
      ensures Running() == old(Running()) + [node.ind]
      ensures startOrder == old(startOrder) + [node.ind]
    {
      var task := nextTask;
      nextTask := nextTask + 1;
      NodesOfAppend(allTasks, taskMap, task, node);
      taskMap := taskMap[task := node];
      allTasks := allTasks + [task];
      startOrder := startOrder + [node.ind];
    }

    /** The loop before the main loop: starts, in index order, every node
        whose parents count is zero. */
    method StartRoots()
      requires Valid() && allTasks == [] && startOrder == []
      requires finishedActions[..] == seq(g.size, _ => false)
      modifies this
      ensures Valid() && State() == InitialState(g.allNodes, g.edges)
    {
      for i := 0 to g.size
        invariant Valid()
        invariant Running() == Roots(g.allNodes, g.edges, i)
        invariant startOrder == Roots(g.allNodes, g.edges, i)
      {
        if g.GetParentsCount(i) != 0 {
          continue;
        }
        StartTask(g.GetNode(i));
      }
    }

    /** The check on a child: true exactly when every parent of `child` has
        its finished flag set. */
    method ParentsFinished(child: Node<T>) returns (canBeStarted: bool)
      requires Valid() && 0 <= child.ind < g.size
      ensures canBeStarted == AllFinished(Incoming(g.allNodes, g.edges, child.ind), finishedActions[..])
    {
      canBeStarted := true;
      var parents := g.GetParents(child);
      ghost var fin := finishedActions[..];
      for i := 0 to |parents|
        invariant canBeStarted == AllFinished(parents[..i], fin)
      {
        assert parents[i] in parents;
        AllFinishedPrefix(parents, fin, i);
        if !finishedActions[parents[i].ind] {
          canBeStarted := false;
        }
      }
      assert parents[..|parents|] == parents;
    }

    /** One turn of the loop over the children: the child is started when
        all its parents are finished, and otherwise skipped. */
    method StartIfReady(child: Node<T>)
      requires Valid() && 0 <= child.ind < g.size
      modifies this
      ensures Valid() && Extends(allTasks, nextTask, old(allTasks), old(nextTask))
      ensures var r := if AllFinished(Incoming(g.allNodes, g.edges, child.ind), finishedActions[..]) then [child.ind] else [];
        && Running() == old(Running()) + r
        && startOrder == old(startOrder) + r
    {
      var canBeStarted := ParentsFinished(child);
      if canBeStarted {
        StartTask(child);
      }
    }

    /** The loop over the children of a finished node: starts, in children
        order, every child whose parents are all finished. */
    method StartReadyChildren(node: Node<T>)
      requires Valid() && 0 <= node.ind < g.size
      modifies this
      ensures Valid() && Extends(allTasks, nextTask, old(allTasks), old(nextTask))
      ensures var ready := ReadyChildren(g.allNodes, g.edges, finishedActions[..], node.ind);
        && Running() == old(Running()) + ready
        && startOrder == old(startOrder) + ready
    {
      var children := g.GetChildren(node);
      ghost var nodes, edges, fin := g.allNodes, g.edges, finishedActions[..];
      ghost var tasks0, next0, running0, started0 := allTasks, nextTask, Running(), startOrder;
      ghost var ready: seq<int> := [];
      for j := 0 to |children|
        invariant Valid() && finishedActions[..] == fin
        invariant Extends(allTasks, nextTask, tasks0, next0)
        invariant ready == Inds(ReadyAmong(nodes, edges, fin, children[..j]))
        invariant Running() == running0 + ready && startOrder == started0 + ready
      {
        var child := children[j];
        assert child in children;
        ReadyAmongPrefix(nodes, edges, fin, children, j);
        ghost var tasks1, next1 := allTasks, nextTask;
        ghost var r := if AllFinished(Incoming(nodes, edges, child.ind), fin) then [child.ind] else [];
        StartIfReady(child);
        ExtendsTrans(allTasks, nextTask, tasks1, next1, tasks0, next0);
        AppendAssoc(running0, ready, r);
        AppendAssoc(started0, ready, r);
        ready := ready + r;
      }
      assert children[..|children|] == children;
    }

    /** The body of the scan once it reaches the finished task: marks its
        node finished, then starts the children that became ready. */
    method FinishNode(node: Node<T>)
      requires Valid() && 0 <= node.ind < g.size
      modifies this, finishedActions
      ensures Valid() && Extends(allTasks, nextTask, old(allTasks), old(nextTask))
      ensures finishedActions[..] == old(finishedActions[..])[node.ind := true]
      ensures var ready := ReadyChildren(g.allNodes, g.edges, finishedActions[..], node.ind);
        && Running() == old(Running()) + ready
        && startOrder == old(startOrder) + ready
    {
      finishedActions[node.ind] := true;
      StartReadyChildren(node);
    }

    /** The scan of the task list: the turn that meets `finished` marks its
        node finished and starts the ready children, which the scan then
        also visits; every other turn does nothing. */
    method ScanTasks(finished: nat)
      requires Valid() && finished in allTasks
      modifies this, finishedActions
      ensures Valid() && Extends(allTasks, nextTask, old(allTasks), old(nextTask))
      ensures var p := old(taskMap[finished].ind);
        && finishedActions[..] == old(finishedActions[..])[p := true]
        && var ready := ReadyChildren(g.allNodes, g.edges, finishedActions[..], p);
        && Running() == old(Running()) + ready
        && startOrder == old(startOrder) + ready
    {
      ghost var k := IndexOf(allTasks, finished);
      ghost var tasks0, next0, running0, started0, fin0 := allTasks, nextTask, Running(), startOrder, finishedActions[..];
      ghost var p := taskMap[finished].ind;
      ghost var fin := fin0[p := true];
      ghost var ready := ReadyChildren(g.allNodes, g.edges, fin, p);
      var i := 0;
      while i < |allTasks|
        invariant Valid()
        invariant 0 <= i <= |allTasks| && Extends(allTasks, nextTask, tasks0, next0)
        invariant i <= k ==> allTasks == tasks0 && taskMap == old(taskMap) && nextTask == next0
        invariant i <= k ==> startOrder == started0 && finishedActions[..] == fin0
        invariant k < i ==> Running() == running0 + ready && startOrder == started0 + ready && finishedActions[..] == fin
        decreases if k < i then 0 else 1, |allTasks| - i
      {
        var curTask := allTasks[i];
        if i < |tasks0| {
          assert tasks0[i] == curTask;
        }
        if finished != curTask {
          i := i + 1;
          continue;
        }
        FinishNode(taskMap[curTask]);
        i := i + 1;
      }
    }

    /** `allTasks.Remove(finished)`: drops the task from the task list. */
    method RemoveFinished(finished: nat, ghost k: nat)
      requires Valid() && k < |allTasks| && allTasks[k] == finished
      modifies this
      ensures Valid() && finished !in allTasks
      ensures allTasks == old(allTasks)[..k] + old(allTasks)[k + 1..]
      ensures Running() == old(Running())[..k] + old(Running())[k + 1..]
      ensures taskMap == old(taskMap) && nextTask == old(nextTask) && startOrder == old(startOrder)
    {
      RemoveFirstAt(allTasks, finished, k);
      NodesOfRemoveAt(allTasks, taskMap, k);
      RemoveAtMembers(allTasks, k);
      allTasks := RemoveFirst(allTasks, finished);
    }

    /** One iteration of the main loop, once `finished` has been reported
        finished: the scan of the task list, then the removal of the task. */
    method CompleteTask(finished: nat)
      requires Valid() && finished in allTasks
      modifies this, finishedActions
      ensures Valid()
      ensures State() == Step(g.allNodes, g.edges, old(State()), IndexOf(old(allTasks), finished))
      ensures finished !in allTasks
      ensures finishedActions[..] == old(finishedActions[..])[old(taskMap[finished].ind) := true]
    {
      ghost var k := IndexOf(allTasks, finished);
      ghost var running0 := Running();
      assert running0[k] == taskMap[finished].ind;
      ScanTasks(finished);
      ghost var ready := Running()[|running0|..];
      assert allTasks[k] == finished;
      RemoveFinished(finished, k);
      RemoveAtAppend(running0, ready, k);
    }
  }

  /** The whole of ProcessInParallelAsync: start the parentless nodes, then,
      while any task is left, let one of them finish and complete it.  At the
      end every started node is finished, no node was started twice, a node
      was started exactly when all its parents had finished, and in a graph
      without cycles every node was started and finished exactly once. */
  method ProcessInParallel<T>(g: Graph<T>) returns (e: Execution<T>)
    requires g.Valid() && NoDuplicateEdges(g.edges)
    ensures fresh(e) && fresh(e.finishedActions) && e.g == g && e.Valid()
    ensures e.allTasks == []
    ensures Inv(g.allNodes, g.edges, e.State())
    ensures Distinct(e.startOrder)
    ensures forall v :: 0 <= v < g.size ==> (v in e.startOrder <==> e.finishedActions[v])
    ensures Acyclic(g.edges, g.size) ==> forall v :: 0 <= v < g.size ==> e.finishedActions[v] && v in e.startOrder
  {
    e := new Execution(g);
    e.StartRoots();
    InitialInv(g.allNodes, g.edges);
    while e.allTasks != []
      invariant fresh(e) && fresh(e.finishedActions) && e.g == g && e.Valid()
      invariant Inv(g.allNodes, g.edges, e.State())
      decreases CountUnfinished(e.finishedActions[..])
    {
      // Task.WhenAny: any one of the running tasks may be the one that finished
      assert e.allTasks[0] in e.allTasks;
      var finished :| finished in e.allTasks;
      ghost var before := e.State();
      ghost var k := IndexOf(e.allTasks, finished);
      e.CompleteTask(finished);
      StepPreservesInv(g.allNodes, g.edges, before, k);
    }
    AllDoneWhenIdle(g.allNodes, g.edges, e.State());
  }
}

/** The three-node run that Main sets up. */
module MainScenario {
  import opened Graphs
  import opened Executor

  /** The payloads stand for the text each action prints. */
  function MainNodes(): seq<Node<string>> {
    [Node("1", 0), Node("2", 1), Node("3", 2)]
  }

  /** Nodes 1 and 2 each depend on node 0 only. */
  function MainEdges(): seq<Edge> {
    [Edge(0, 1), Edge(0, 2)]
  }

  lemma MainGraphLists()
    ensures Incoming(MainNodes(), MainEdges(), 0) == []
    ensures Incoming(MainNodes(), MainEdges(), 1) == [MainNodes()[0]]
    ensures Incoming(MainNodes(), MainEdges(), 2) == [MainNodes()[0]]
    ensures Adjacent(MainNodes(), MainEdges(), 0) == [MainNodes()[1], MainNodes()[2]]
    ensures Adjacent(MainNodes(), MainEdges(), 1) == []
    ensures Adjacent(MainNodes(), MainEdges(), 2) == []
  {
    var nodes, edges := MainNodes(), MainEdges();
    assert edges[..1] == [Edge(0, 1)];
    var reversed := Reversed(edges);
    assert reversed == [Edge(1, 0), Edge(2, 0)] && reversed[..1] == [Edge(1, 0)];
    assert Adjacent(nodes, reversed[..1], 0) == [];
    assert Adjacent(nodes, reversed[..1], 1) == [nodes[0]];
    assert Adjacent(nodes, reversed[..1], 2) == [];
  }

  /** Node 0 starts alone. */
  lemma MainStart()
    ensures InitialState(MainNodes(), MainEdges()) == ExecState([0], [false, false, false], [0])
  {
    MainGraphLists();
    assert Roots(MainNodes(), MainEdges(), 3) == [0];
  }

  /** When node 0 finishes, nodes 1 and 2 start, in that order. */
  lemma MainFirstStep()
    ensures Step(MainNodes(), MainEdges(), ExecState([0], [false, false, false], [0]), 0)
         == ExecState([1, 2], [true, false, false], [0, 1, 2])
  {
    var nodes, edges := MainNodes(), MainEdges();
    var fin := [true, false, false];
    MainGraphLists();
    assert AllFinished(Incoming(nodes, edges, 1), fin);
    assert AllFinished(Incoming(nodes, edges, 2), fin);
    var ready := [nodes[1], nodes[2]];
    assert ready[..1] == [nodes[1]] && [nodes[1]][..0] == [];
    assert ReadyAmong(nodes, edges, fin, [nodes[1]]) == [nodes[1]];
    assert ReadyAmong(nodes, edges, fin, ready) == ready;
    assert ReadyChildren(nodes, edges, fin, 0) == [1, 2];
    assert [false, false, false][0 := true] == fin;
    assert [0][..0] + [0][1..] == [];
  }

  /** Nodes 1 and 2 have no children: finishing either starts nothing. */
  lemma MainLeafStep(s: ExecState, k: nat)
    requires k < |s.running| && s.running[k] in {1, 2} && |s.finished| == 3
    ensures Step(MainNodes(), MainEdges(), s, k)
         == ExecState(s.running[..k] + s.running[k + 1..], s.finished[s.running[k] := true], s.started)
  {
    MainGraphLists();
  }

  /** Builds Main's graph and starts its only root. */
  method StartMainGraph() returns (e: Execution<string>)
    ensures fresh(e) && fresh(e.finishedActions) && e.Valid()
    ensures e.g.allNodes == MainNodes() && e.g.edges == MainEdges()
    ensures e.State() == ExecState([0], [false, false, false], [0])
  {
    var g := new Graph(3, MainNodes(), MainEdges());
    e := new Execution(g);
    e.StartRoots();
    MainStart();
  }

  /** Node 0 is the only running task; finishing it starts nodes 1 and 2. */
  method CompleteMainRoot(e: Execution<string>)
    requires e.Valid() && e.g.allNodes == MainNodes() && e.g.edges == MainEdges()
    requires e.State() == ExecState([0], [false, false, false], [0])
    modifies e, e.finishedActions
    ensures e.Valid() && e.State() == ExecState([1, 2], [true, false, false], [0, 1, 2])
  {
    assert e.allTasks[0] in e.allTasks;
    var first :| first in e.allTasks;
    assert |e.allTasks| == |e.Running()| == 1;
    e.CompleteTask(first);
    MainFirstStep();
  }

  /** Nodes 1 and 2 run; whichever finishes first starts nothing, and the
      other keeps running. */
  method CompleteFirstLeaf(e: Execution<string>)
    requires e.Valid() && e.g.allNodes == MainNodes() && e.g.edges == MainEdges()
    requires e.State() == ExecState([1, 2], [true, false, false], [0, 1, 2])
    modifies e, e.finishedActions
    ensures e.Valid()
    ensures e.State() in {ExecState([2], [true, true, false], [0, 1, 2]), ExecState([1], [true, false, true], [0, 1, 2])}
  {
    assert e.allTasks[0] in e.allTasks;
    var second :| second in e.allTasks;
    ghost var s1, tasks1 := e.State(), e.allTasks;
    assert |tasks1| == |s1.running| == 2;
    e.CompleteTask(second);
    ghost var k1 := IndexOf(tasks1, second);
    MainLeafStep(s1, k1);
    if k1 == 0 {
      assert [1, 2][..0] + [1, 2][1..] == [2];
      assert [true, false, false][1 := true] == [true, true, false];
    } else {
      assert [1, 2][..1] + [1, 2][2..] == [1];
      assert [true, false, false][2 := true] == [true, false, true];
    }
  }

  /** The remaining leaf finishes, and with it the whole run. */
  method CompleteLastLeaf(e: Execution<string>)
    requires e.Valid() && e.g.allNodes == MainNodes() && e.g.edges == MainEdges()
    requires e.State() in {ExecState([2], [true, true, false], [0, 1, 2]), ExecState([1], [true, false, true], [0, 1, 2])}
    modifies e, e.finishedActions
    ensures e.Valid() && e.State() == ExecState([], [true, true, true], [0, 1, 2])
  {
    assert e.allTasks[0] in e.allTasks;
    var third :| third in e.allTasks;
    ghost var s2 := e.State();
    assert |e.allTasks| == |s2.running| == 1;
    e.CompleteTask(third);
    MainLeafStep(s2, 0);
    if s2.running == [2] {
      assert [true, true, false][2 := true] == [true, true, true];
    } else {
      assert [true, false, true][1 := true] == [true, true, true];
    }
  }

  /** Main's run: node 0 starts alone; once it finishes, nodes 1 and 2 are
      started, in that order; whichever of them finishes first, the run
      ends with all three finished. */
  method RunMainGraph() returns (runningAtStart: seq<int>, runningAfterFirst: seq<int>, ghost startOrder: seq<int>, finished: seq<bool>)
    ensures runningAtStart == [0]
    ensures runningAfterFirst == [1, 2]
    ensures startOrder == [0, 1, 2]
    ensures finished == [true, true, true]
  {
    var e := StartMainGraph();
    runningAtStart := e.Running();
    CompleteMainRoot(e);
    runningAfterFirst := e.Running();
    CompleteFirstLeaf(e);
    CompleteLastLeaf(e);
    startOrder := e.startOrder;
    finished := e.finishedActions[..];
  }
}
