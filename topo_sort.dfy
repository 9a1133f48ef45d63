/** The order in which a class's subjects are attempted: the prerequisite
    graph over the class's required subjects and Kahn's algorithm over it. */
module SubjectOrder {
  import opened Names
  import opened Collections
  import opened OrderedMaps

  /** `(prerequisite, subject)`: the first must come before the second. */
  type Edge = (Name, Name)

  /** `subject_prerequisites.get(base_subject, [])` for the base of `subject`. */
  function PrereqsOf(prereqs: map<Name, seq<Name>>, subject: Name): seq<Name> {
    var base := StripLab(subject);
    if base in prereqs then prereqs[base] else []
  }

  /** The edges one pass of the innermost loop adds for `subject` and one of its
      base subject's prerequisites: the prerequisite edge when the prerequisite
      is a node, then, for a lab whose base subject is a node, the lab edge again
      on every pass. */
  function StepEdges(nodes: seq<Name>, subject: Name, prereq: Name): seq<Edge> {
    (if prereq in nodes then [(prereq, subject)] else []) +
    (if EndsWithLab(subject) && StripLab(subject) in nodes then [(StripLab(subject), subject)] else [])
  }

  /** The edges added for `subject` by the passes over `ps`. */
  function PrereqEdges(nodes: seq<Name>, subject: Name, ps: seq<Name>): seq<Edge> {
    if |ps| == 0 then []
    else PrereqEdges(nodes, subject, ps[..|ps| - 1]) + StepEdges(nodes, subject, ps[|ps| - 1])
  }

  /** The edges added while the outer loop walks `subs`. */
  function EdgesOf(nodes: seq<Name>, subs: seq<Name>, prereqs: map<Name, seq<Name>>): seq<Edge> {
    if |subs| == 0 then []
    else
      var s := subs[|subs| - 1];
      EdgesOf(nodes, subs[..|subs| - 1], prereqs) + PrereqEdges(nodes, s, PrereqsOf(prereqs, s))
  }

  /** Every edge of the prerequisite graph, repeated edges included, in the
      order the graph is built. */
  function Edges(nodes: seq<Name>, prereqs: map<Name, seq<Name>>): seq<Edge> {
    EdgesOf(nodes, nodes, prereqs)
  }

  /** Edges join nodes and end at the subject being processed. */
  lemma {:induction false} PrereqEdgesWithin(nodes: seq<Name>, subject: Name, ps: seq<Name>)
    requires subject in nodes
    ensures forall e :: e in PrereqEdges(nodes, subject, ps) ==> e.0 in nodes && e.1 == subject
  {
    if |ps| > 0 { PrereqEdgesWithin(nodes, subject, ps[..|ps| - 1]); }
  }

  lemma {:induction false} EdgesWithin(nodes: seq<Name>, subs: seq<Name>, prereqs: map<Name, seq<Name>>)
    requires forall s :: s in subs ==> s in nodes
    ensures forall e :: e in EdgesOf(nodes, subs, prereqs) ==> e.0 in nodes && e.1 in nodes
  {
    if |subs| > 0 {
      var s := subs[|subs| - 1];
      EdgesWithin(nodes, subs[..|subs| - 1], prereqs);
      PrereqEdgesWithin(nodes, s, PrereqsOf(prereqs, s));
    }
  }

  /** `graph[u]`: the successors of `u`, in the order their edges were added. */
  function Succ(es: seq<Edge>, u: Name): seq<Name>
  {
    if |es| == 0 then []
    else
      var e := es[|es| - 1];
      Succ(es[..|es| - 1], u) + (if e.0 == u then [e.1] else [])
  }

  /** `in_degree[v]` once the edges from `done` are discounted. */
  function InCount(es: seq<Edge>, v: Name, done: set<Name>): nat {
    if |es| == 0 then 0
    else
      var e := es[|es| - 1];
      InCount(es[..|es| - 1], v, done) + (if e.1 == v && e.0 !in done then 1 else 0)
  }

  /** Every successor listed for `u` is the end of an edge from `u`. */
  lemma {:induction false} SuccEdge(es: seq<Edge>, u: Name, x: Name)
    requires x in Succ(es, u)
    ensures (u, x) in es
  {
    var pre := es[..|es| - 1];
    if x in Succ(pre, u) {
      SuccEdge(pre, u, x);
      assert pre <= es;
    } else {
      assert es[|es| - 1] == (u, x);
    }
  }

  lemma SuccSnoc(es: seq<Edge>, e: Edge, u: Name)
    ensures Succ(es + [e], u) == Succ(es, u) + (if e.0 == u then [e.1] else [])
  {
    assert (es + [e])[..|es|] == es;
  }

  lemma InCountSnoc(es: seq<Edge>, e: Edge, v: Name, done: set<Name>)
    ensures InCount(es + [e], v, done) == InCount(es, v, done) + (if e.1 == v && e.0 !in done then 1 else 0)
  {
    assert (es + [e])[..|es|] == es;
  }

  /** No edge into `v` is left exactly when all its sources are done. */
  lemma {:induction false} InCountZero(es: seq<Edge>, v: Name, done: set<Name>)
    ensures InCount(es, v, done) == 0 <==> forall e :: e in es && e.1 == v ==> e.0 in done
  {
    if |es| > 0 {
      var pre := es[..|es| - 1];
      InCountZero(pre, v, done);
      assert es == pre + [es[|es| - 1]];
    }
  }

  /** Finishing node `u` removes exactly its outgoing edges from every count:
      the decrements of the Kahn loop over `graph[u]`. */
  lemma {:induction false} InCountFinish(es: seq<Edge>, v: Name, done: set<Name>, u: Name)
    requires u !in done
    ensures InCount(es, v, done) == InCount(es, v, done + {u}) + CountOf(Succ(es, u), v)
  {
    if |es| > 0 {
      var pre := es[..|es| - 1];
      InCountFinish(pre, v, done, u);
      var e := es[|es| - 1];
      assert Succ(es, u) == Succ(pre, u) + (if e.0 == u then [e.1] else []);
    }
  }

  /** An order of the nodes in which every edge points forward. */
  predicate IsTopoOrder(order: seq<Name>, es: seq<Edge>) {
    forall e :: e in es ==> e.0 in order && e.1 in order && IndexOf(order, e.0) < IndexOf(order, e.1)
  }

  /** Some arrangement of the nodes respects every edge. */
  ghost predicate Sortable(nodes: seq<Name>, es: seq<Edge>) {
    exists order :: Distinct(order) && multiset(order) == multiset(nodes) && IsTopoOrder(order, es)
  }

  /** Every node of `rem` has an edge coming from a node of `rem`. */
  ghost predicate Blocked(es: seq<Edge>, rem: set<Name>) {
    forall w {:trigger HasPredIn(es, rem, w)} :: w in rem ==> HasPredIn(es, rem, w)
  }

  /** Some edge into `w` comes from a node of `rem`. */
  ghost predicate HasPredIn(es: seq<Edge>, rem: set<Name>, w: Name) {
    exists e :: e in es && e.1 == w && e.0 in rem
  }

  /** In a blocked set no order can respect the edges: following edges
      backwards from `v` would reach ever smaller positions. */
  lemma {:induction false} NoDescent(order: seq<Name>, es: seq<Edge>, rem: set<Name>, v: Name, k: nat)
    requires v in rem && v in order && IndexOf(order, v) < k
    requires Blocked(es, rem)
    ensures !IsTopoOrder(order, es)
    decreases k
  {
    if IsTopoOrder(order, es) {
      assert HasPredIn(es, rem, v);
      var e :| e in es && e.1 == v && e.0 in rem;
      assert e.0 in order && IndexOf(order, e.0) < IndexOf(order, v);
      NoDescent(order, es, rem, e.0, IndexOf(order, v));
      assert false;
    }
  }

  /** `graph` and `in_degree` describe the edges `es` over the nodes. */
  ghost predicate GraphOf(nodes: seq<Name>, es: seq<Edge>, graph: map<Name, seq<Name>>, inDegree: map<Name, int>) {
    graph.Keys == SetOf(nodes) && inDegree.Keys == SetOf(nodes) &&
    (forall v :: v in graph ==> graph[v] == Succ(es, v)) &&
    (forall v :: v in inDegree ==> inDegree[v] == InCount(es, v, {}))
  }

  /** `graph[a].append(b); in_degree[b] += 1` records the edge `(a, b)`. */
  lemma AddEdge(nodes: seq<Name>, es: seq<Edge>, graph: map<Name, seq<Name>>, inDegree: map<Name, int>, e: Edge)
    requires GraphOf(nodes, es, graph, inDegree) && e.0 in nodes && e.1 in nodes
    ensures GraphOf(nodes, es + [e], graph[e.0 := graph[e.0] + [e.1]], inDegree[e.1 := inDegree[e.1] + 1])
  {
    forall v | v in graph ensures Succ(es + [e], v) == (if v == e.0 then graph[v] + [e.1] else graph[v]) {
      SuccSnoc(es, e, v);
    }
    forall v | v in inDegree ensures InCount(es + [e], v, {}) == (if v == e.1 then inDegree[v] + 1 else inDegree[v]) {
      InCountSnoc(es, e, v, {});
    }
  }

  /** `if cond: graph[a].append(b); in_degree[b] += 1` */
  method AddEdgeIf(nodes: seq<Name>, cond: bool, e: Edge,
                   graph0: map<Name, seq<Name>>, inDegree0: map<Name, int>, ghost es0: seq<Edge>)
    returns (graph: map<Name, seq<Name>>, inDegree: map<Name, int>, ghost es: seq<Edge>)
    requires GraphOf(nodes, es0, graph0, inDegree0)
    requires cond ==> e.0 in nodes && e.1 in nodes
    ensures es == es0 + (if cond then [e] else [])
    ensures GraphOf(nodes, es, graph, inDegree)
  {
    graph, inDegree, es := graph0, inDegree0, es0;
    if cond {
      AddEdge(nodes, es, graph, inDegree, e);
      graph := graph[e.0 := graph[e.0] + [e.1]];
      inDegree := inDegree[e.1 := inDegree[e.1] + 1];
      es := es + [e];
    } else {
      assert es == es0 + [];
    }
  }

  /** One pass of the innermost loop: the edge from the prerequisite, then the
      edge from the base subject of a lab. */
  method AddPrereqStep(nodes: seq<Name>, subject: Name, prereq: Name,
                       graph0: map<Name, seq<Name>>, inDegree0: map<Name, int>, ghost es0: seq<Edge>)
    returns (graph: map<Name, seq<Name>>, inDegree: map<Name, int>, ghost es: seq<Edge>)
    requires subject in nodes && GraphOf(nodes, es0, graph0, inDegree0)
    ensures es == es0 + StepEdges(nodes, subject, prereq)
    ensures GraphOf(nodes, es, graph, inDegree)
  {
    var base := StripLab(subject);
    ghost var mid;
    graph, inDegree, mid := AddEdgeIf(nodes, prereq in nodes, (prereq, subject), graph0, inDegree0, es0);
    graph, inDegree, es := AddEdgeIf(nodes, EndsWithLab(subject) && base in nodes, (base, subject),
                                     graph, inDegree, mid);
  }

  /** The innermost loop for one subject: a pass per prerequisite of its
      base subject. */
  method AddSubjectEdges(nodes: seq<Name>, subject: Name, ps: seq<Name>,
                         graph0: map<Name, seq<Name>>, inDegree0: map<Name, int>, ghost es0: seq<Edge>)
    returns (graph: map<Name, seq<Name>>, inDegree: map<Name, int>, ghost es: seq<Edge>)
    requires subject in nodes && GraphOf(nodes, es0, graph0, inDegree0)
    ensures es == es0 + PrereqEdges(nodes, subject, ps)
    ensures GraphOf(nodes, es, graph, inDegree)
  {
    graph, inDegree, es := graph0, inDegree0, es0;
    var j := 0;
    while j < |ps|
      invariant 0 <= j <= |ps|
      invariant es == es0 + PrereqEdges(nodes, subject, ps[..j])
      invariant GraphOf(nodes, es, graph, inDegree)
    {
      graph, inDegree, es := AddPrereqStep(nodes, subject, ps[j], graph, inDegree, es);
      assert ps[..j + 1][..j] == ps[..j];
      j := j + 1;
    }
    assert ps[..j] == ps;
  }

  /** The two dictionaries built at the start: `graph[u]` lists the successors
      of `u` and `in_degree[v]` counts the edges into `v`. */
  method BuildGraph(nodes: seq<Name>, prereqs: map<Name, seq<Name>>)
    returns (graph: map<Name, seq<Name>>, inDegree: map<Name, int>)
    ensures GraphOf(nodes, Edges(nodes, prereqs), graph, inDegree)
  {
    graph := map s | s in nodes :: [];
    inDegree := map s | s in nodes :: 0;
    ghost var es: seq<Edge> := [];
    var i := 0;
    while i < |nodes|
      invariant 0 <= i <= |nodes|
      invariant es == EdgesOf(nodes, nodes[..i], prereqs)
      invariant GraphOf(nodes, es, graph, inDegree)
    {
      var subject := nodes[i];
      var base := StripLab(subject);
      var ps := if base in prereqs then prereqs[base] else [];
      assert ps == PrereqsOf(prereqs, subject);
      graph, inDegree, es := AddSubjectEdges(nodes, subject, ps, graph, inDegree, es);
      assert nodes[..i + 1][..i] == nodes[..i];
      i := i + 1;
    }
    assert nodes[..i] == nodes;
  }

  /** `deque([s for s in in_degree if in_degree[s] == 0])`, in key order. */
  method InitialQueue(nodes: seq<Name>, inDegree: map<Name, int>) returns (queue: seq<Name>)
    requires Distinct(nodes) && inDegree.Keys == SetOf(nodes)
    ensures Distinct(queue)
    ensures forall v :: v in queue <==> v in nodes && inDegree[v] == 0
  {
    queue := [];
    var k := 0;
    while k < |nodes|
      invariant 0 <= k <= |nodes|
      invariant Distinct(queue)
      invariant forall v :: v in queue <==> v in nodes[..k] && inDegree[v] == 0
    {
      var s := nodes[k];
      assert forall v :: v in nodes[..k + 1] <==> v in nodes[..k] || v == s;
      if inDegree[s] == 0 {
        assert s !in nodes[..k];
        DistinctSnoc(queue, s);
        queue := queue + [s];
      }
      k := k + 1;
    }
    assert nodes[..k] == nodes;
  }

  /** Edges into the emitted prefix come from earlier in it. */
  predicate EdgesBackward(result: seq<Name>, es: seq<Edge>) {
    forall e :: e in es && e.1 in result ==> e.0 in result && IndexOf(result, e.0) < IndexOf(result, e.1)
  }

  /** Emitting `u`, all of whose sources were emitted already, keeps every
      edge into the prefix pointing backward. */
  lemma EmitKeepsBackward(result: seq<Name>, es: seq<Edge>, u: Name)
    requires EdgesBackward(result, es) && u !in result
    requires forall e :: e in es && e.1 == u ==> e.0 in result
    ensures EdgesBackward(result + [u], es)
  {
    forall e | e in es && e.1 in result + [u]
      ensures e.0 in result + [u] && IndexOf(result + [u], e.0) < IndexOf(result + [u], e.1)
    {
      IndexOfSnoc(result, u, e.0);
      if e.1 == u { IndexOfLast(result, u); } else { IndexOfSnoc(result, u, e.1); }
    }
  }

  /** Once every node is emitted, every edge points forward. */
  lemma BackwardComplete(nodes: seq<Name>, es: seq<Edge>, result: seq<Name>)
    requires EdgesBackward(result, es) && SetOf(result) == SetOf(nodes)
    requires forall e :: e in es ==> e.0 in nodes && e.1 in nodes
    ensures IsTopoOrder(result, es)
  {
    forall e | e in es ensures e.0 in result && e.1 in result && IndexOf(result, e.0) < IndexOf(result, e.1) {
      assert e.1 in SetOf(nodes);
    }
  }

  /** When the queue runs dry before every node is emitted, each remaining
      node still has an edge from a remaining node, so no order exists. */
  lemma StalledNotSortable(nodes: seq<Name>, es: seq<Edge>, result: seq<Name>)
    requires Distinct(nodes) && Distinct(result) && |result| < |nodes|
    requires forall x :: x in result ==> x in nodes
    requires forall e :: e in es ==> e.0 in nodes && e.1 in nodes
    requires forall v :: v in nodes && v !in result ==> InCount(es, v, SetOf(result)) > 0
    ensures !Sortable(nodes, es)
  {
    var rem := SetOf(nodes) - SetOf(result);
    forall w | w in rem ensures HasPredIn(es, rem, w) {
      InCountZero(es, w, SetOf(result));
    }
    if SetOf(nodes) <= SetOf(result) {
      DistinctWithinLength(nodes, result);
      assert false;
    }
    var v :| v in nodes && v !in result;
    forall order | Distinct(order) && multiset(order) == multiset(nodes)
      ensures !IsTopoOrder(order, es)
    {
      assert multiset(order)[v] > 0;
      NoDescent(order, es, rem, v, |order|);
    }
  }

  /** `result + queue` holds distinct nodes, and exactly those whose pending
      count is zero. */
  ghost predicate QueueInv(nodes: seq<Name>, result: seq<Name>, inDegree: map<Name, int>, queue: seq<Name>) {
    Distinct(result + queue) && (forall x :: x in result + queue ==> x in nodes) &&
    inDegree.Keys == SetOf(nodes) &&
    (forall v :: v in inDegree ==> (v in result + queue <==> inDegree[v] == 0))
  }

  /** The pending counts after `j` passes of the loop over `graph[u]`. */
  ghost predicate CountInv(es: seq<Edge>, succ: seq<Name>, done: set<Name>, inDegree: map<Name, int>, j: int) {
    0 <= j <= |succ| &&
    forall v :: v in inDegree ==> inDegree[v] == InCount(es, v, done) - CountOf(succ[..j], v)
  }

  /** One pass discounts one edge into `succ[j]`. */
  lemma CountStep(es: seq<Edge>, succ: seq<Name>, done: set<Name>, inDegree: map<Name, int>, j: int)
    requires CountInv(es, succ, done, inDegree, j) && j < |succ| && succ[j] in inDegree
    ensures CountInv(es, succ, done, inDegree[succ[j] := inDegree[succ[j]] - 1], j + 1)
  {
    var n := succ[j];
    var d := inDegree[n := inDegree[n] - 1];
    assert succ[..j + 1] == succ[..j] + [n];
    forall v | v in d ensures d[v] == InCount(es, v, done) - CountOf(succ[..j + 1], v) {
      CountOfAppend(succ[..j], [n], v);
    }
  }

  /** The edges out of `u` not yet discounted keep `succ[j]` pending. */
  lemma StillPending(es: seq<Edge>, succ: seq<Name>, done: set<Name>, result: seq<Name>,
                     inDegree: map<Name, int>, j: int)
    requires CountInv(es, succ, done, inDegree, j) && j < |succ| && succ[j] in inDegree
    requires InCount(es, succ[j], done) == InCount(es, succ[j], SetOf(result)) + CountOf(succ, succ[j])
    ensures inDegree[succ[j]] >= 1
  {
    var n := succ[j];
    assert succ == succ[..j] + succ[j..] && succ[j..] == [n] + succ[j + 1..];
    CountOfAppend(succ[..j], succ[j..], n);
    CountOfAppend([n], succ[j + 1..], n);
  }

  /** A pending node whose count drops to zero joins the queue; every other
      node keeps its place. */
  lemma QueueStep(nodes: seq<Name>, result: seq<Name>, inDegree: map<Name, int>, queue: seq<Name>, n: Name)
    requires QueueInv(nodes, result, inDegree, queue) && n in inDegree && inDegree[n] >= 1
    ensures var d := inDegree[n := inDegree[n] - 1];
            QueueInv(nodes, result, d, if d[n] == 0 then queue + [n] else queue)
  {
    var d := inDegree[n := inDegree[n] - 1];
    assert n !in result + queue;
    if d[n] == 0 {
      DistinctSnoc(result + queue, n);
      assert result + (queue + [n]) == result + queue + [n];
    }
  }

  /** The loop over `graph[u]` after `u` is emitted: each edge out of `u` is
      discounted once, and a successor joins the queue when its count
      reaches zero. */
  method Release(nodes: seq<Name>, es: seq<Edge>, succ: seq<Name>, ghost done: set<Name>,
                 result: seq<Name>, inDegree0: map<Name, int>, queue0: seq<Name>)
    returns (inDegree: map<Name, int>, queue: seq<Name>)
    requires QueueInv(nodes, result, inDegree0, queue0)
    requires forall x :: x in succ ==> x in nodes
    requires forall v :: v in inDegree0 ==> inDegree0[v] == InCount(es, v, done)
    requires forall v :: v in inDegree0 ==> InCount(es, v, done) == InCount(es, v, SetOf(result)) + CountOf(succ, v)
    ensures QueueInv(nodes, result, inDegree, queue)
    ensures forall v :: v in inDegree ==> inDegree[v] == InCount(es, v, SetOf(result))
  {
    inDegree, queue := inDegree0, queue0;
    var j := 0;
    assert CountInv(es, succ, done, inDegree, j);
    while j < |succ|
      invariant QueueInv(nodes, result, inDegree, queue)
      invariant CountInv(es, succ, done, inDegree, j)
      invariant inDegree.Keys == inDegree0.Keys
      decreases |succ| - j
    {
      var neighbor := succ[j];
      assert neighbor in inDegree;
      StillPending(es, succ, done, result, inDegree, j);
      CountStep(es, succ, done, inDegree, j);
      QueueStep(nodes, result, inDegree, queue, neighbor);
      inDegree := inDegree[neighbor := inDegree[neighbor] - 1];
      if inDegree[neighbor] == 0 {
        queue := queue + [neighbor];
      }
      j := j + 1;
    }
    assert succ[..j] == succ;
  }

  /** The Kahn loop proper: pop the queue, emit the subject, and release its
      successors. */
  method Kahn(nodes: seq<Name>, es: seq<Edge>, graph: map<Name, seq<Name>>,
              inDegree0: map<Name, int>, queue0: seq<Name>)
    returns (result: seq<Name>)
    requires Distinct(nodes)
    requires forall e :: e in es ==> e.0 in nodes && e.1 in nodes
    requires GraphOf(nodes, es, graph, inDegree0)
    requires Distinct(queue0) && forall v :: v in queue0 <==> v in nodes && inDegree0[v] == 0
    ensures Distinct(result) && forall v :: v in result ==> v in nodes
    ensures IsTopoOrder(result, es) || |result| < |nodes|
    ensures |result| < |nodes| ==> !Sortable(nodes, es)
  {
    var inDegree := inDegree0;
    var queue := queue0;
    result := [];
    assert SetOf(result) == {};
    while |queue| > 0
      invariant QueueInv(nodes, result, inDegree, queue)
      invariant forall v :: v in inDegree ==> inDegree[v] == InCount(es, v, SetOf(result))
      invariant EdgesBackward(result, es)
      decreases |nodes| - |result|
    {
      DistinctWithinLength(result + queue, nodes);
      var u := queue[0];
      ghost var done := SetOf(result);
      DistinctConcat(result, queue);
      assert result + queue == result + [u] + queue[1..];
      InCountZero(es, u, done);
      EmitKeepsBackward(result, es, u);
      queue := queue[1..];
      result := result + [u];
      assert SetOf(result) == done + {u};
      var succ := graph[u];
      forall v | v in inDegree
        ensures InCount(es, v, done) == InCount(es, v, SetOf(result)) + CountOf(succ, v)
      {
        InCountFinish(es, v, done, u);
      }
      forall x | x in succ ensures x in nodes {
        SuccEdge(es, u, x);
      }
      inDegree, queue := Release(nodes, es, succ, done, result, inDegree, queue);
    }
    DistinctConcat(result, queue);
    DistinctWithinLength(result, nodes);
    if |result| == |nodes| {
      DistinctFillsSet(result, nodes);
      BackwardComplete(nodes, es, result);
    } else {
      StalledNotSortable(nodes, es, result);
    }
  }

  /** topological_sort_subjects on the required subjects of one class, in key
      order: the result is always a rearrangement of the subjects; it respects
      every prerequisite edge whenever that is possible, and otherwise is the
      subjects in their original order. */
  method TopologicalSort(nodes: seq<Name>, prereqs: map<Name, seq<Name>>) returns (order: seq<Name>)
    requires Distinct(nodes)
    ensures Distinct(order) && multiset(order) == multiset(nodes)
    ensures Sortable(nodes, Edges(nodes, prereqs)) ==> IsTopoOrder(order, Edges(nodes, prereqs))
    ensures !Sortable(nodes, Edges(nodes, prereqs)) ==> order == nodes
  {
    EdgesWithin(nodes, nodes, prereqs);
    var graph, inDegree := BuildGraph(nodes, prereqs);
    var queue := InitialQueue(nodes, inDegree);
    var result := Kahn(nodes, Edges(nodes, prereqs), graph, inDegree, queue);
    if |result| == |nodes| {
      DistinctFillsSet(result, nodes);
      order := result;
    } else {
      DistinctWithinLength(result, nodes);
      order := nodes;
    }
  }

  /** topological_sort_subjects(cls): an unknown class gets no subjects. */
  method TopologicalSortSubjects(assignments: map<Name, OMap<int>>, prereqs: map<Name, seq<Name>>, cls: Name)
    returns (order: seq<Name>)
    requires cls in assignments ==> WellFormed(assignments[cls])
    ensures cls !in assignments ==> order == []
    ensures cls in assignments ==>
              Distinct(order) && multiset(order) == multiset(Keys(assignments[cls]))
    ensures cls in assignments && Sortable(Keys(assignments[cls]), Edges(Keys(assignments[cls]), prereqs)) ==>
              IsTopoOrder(order, Edges(Keys(assignments[cls]), prereqs))
    ensures cls in assignments && !Sortable(Keys(assignments[cls]), Edges(Keys(assignments[cls]), prereqs)) ==>
              order == Keys(assignments[cls])
  {
    if cls !in assignments {
      return [];
    }
    order := TopologicalSort(Keys(assignments[cls]), prereqs);
  }
}
