/** The queue-based shortest-path search of benchmark/dijkstra_small.c.

    The search is label correcting: a node is enqueued each time its label
    improves, so the queue can hold entries whose distance is no longer the
    node's label.  The integer 9999 stands both for "no edge" and for "not
    reached". */
module ShortestPath {

  const NUM_NODES := 100
  const NONE := 9999
  const INT_MAX := 0x7fff_ffff

  // ---------- Graphs, walks and costs: the reference notion ----------

  /** The adjacency matrix: `g[u][v]` is the cost of the edge, or NONE. */
  type Graph = seq<seq<int>>

  predicate IsGraph(g: Graph) {
    |g| == NUM_NODES && forall u :: 0 <= u < NUM_NODES ==> |g[u]| == NUM_NODES
  }

  predicate IsNode(v: int) {
    0 <= v < NUM_NODES
  }

  predicate Edge(g: Graph, u: int, v: int)
    requires IsGraph(g)
  {
    IsNode(u) && IsNode(v) && g[u][v] != NONE
  }

  ghost predicate Walk(g: Graph, p: seq<int>)
    requires IsGraph(g)
  {
    && p != []
    && IsNode(p[|p| - 1])
    && (|p| > 1 ==> Walk(g, p[..|p| - 1]) && Edge(g, p[|p| - 2], p[|p| - 1]))
  }

  ghost function Cost(g: Graph, p: seq<int>): int
    requires IsGraph(g) && Walk(g, p)
  {
    if |p| == 1 then 0
    else Cost(g, p[..|p| - 1]) + g[p[|p| - 2]][p[|p| - 1]]
  }

  ghost predicate Simple(p: seq<int>) {
    forall j, k :: 0 <= j < k < |p| ==> p[j] != p[k]
  }

  ghost predicate WalkFromTo(g: Graph, p: seq<int>, s: int, v: int)
    requires IsGraph(g)
  {
    Walk(g, p) && p[0] == s && p[|p| - 1] == v
  }

  /** If `p` is a simple path from `s`, it does not cost exactly the sentinel, and
      following one more edge does not overflow an int. */
  ghost predicate PathFits(g: Graph, s: int, p: seq<int>)
    requires IsGraph(g)
  {
    Walk(g, p) && p[0] == s && Simple(p) ==>
      Cost(g, p) != NONE && StepsFit(g, p[|p| - 1], Cost(g, p))
  }

  ghost predicate StepsFit(g: Graph, u: int, d: int)
    requires IsGraph(g)
  {
    forall v :: Edge(g, u, v) ==> d + g[u][v] <= INT_MAX
  }

  /** Costs are non-negative. */
  ghost predicate Proper(g: Graph, s: int) {
    IsGraph(g) && IsNode(s) && forall u, v :: IsNode(u) && IsNode(v) ==> g[u][v] >= 0
  }

  /** No simple path from `s` costs the sentinel or overflows with one more edge: then the
      invariants hold in every state of the run. */
  ghost predicate Admissible(g: Graph, s: int) {
    Proper(g, s) && forall p {:trigger PathFits(g, s, p)} :: PathFits(g, s, p)
  }

  /** `d` is the least cost of a walk from `s` to `v`. */
  ghost predicate ShortestDistance(g: Graph, s: int, v: int, d: int)
    requires IsGraph(g)
  {
    && (exists p :: WalkFromTo(g, p, s, v) && Cost(g, p) == d)
    && (forall p :: WalkFromTo(g, p, s, v) ==> d <= Cost(g, p))
  }

  ghost predicate Unreachable(g: Graph, s: int, v: int)
    requires IsGraph(g)
  {
    forall p :: !WalkFromTo(g, p, s, v)
  }

  lemma ExtendWalk(g: Graph, p: seq<int>, v: int)
    requires IsGraph(g) && Walk(g, p) && Edge(g, p[|p| - 1], v)
    ensures Walk(g, p + [v])
    ensures Cost(g, p + [v]) == Cost(g, p) + g[p[|p| - 1]][v]
  {
    assert (p + [v])[..|p|] == p;
  }

  // ---------- Labels, queue entries and the invariant of the search ----------

  datatype Label = Label(iDist: int, iPrev: int)

  datatype Entry = Entry(iNode: int, iDist: int, iPrev: int)

  predicate Reached(ns: seq<Label>, v: int) {
    IsNode(v) && v < |ns| && ns[v].iDist != NONE
  }

  /** No prefix of `p` is cheaper than the label of the node it ends in. */
  ghost predicate Supported(g: Graph, ns: seq<Label>, p: seq<int>)
    requires IsGraph(g) && Walk(g, p)
  {
    var v := p[|p| - 1];
    && Reached(ns, v) && ns[v].iDist <= Cost(g, p)
    && (|p| > 1 ==> Supported(g, ns, p[..|p| - 1]))
  }

  /** `p` is a supported simple path from `s` to `v` of cost `d`. */
  ghost predicate Witness(g: Graph, s: int, ns: seq<Label>, p: seq<int>, v: int, d: int)
    requires IsGraph(g)
  {
    WalkFromTo(g, p, s, v) && Simple(p) && Cost(g, p) == d && Supported(g, ns, p)
  }

  ghost predicate EntriesWitnessed(g: Graph, s: int, ns: seq<Label>, q: seq<Entry>, qw: seq<seq<int>>)
    requires IsGraph(g)
  {
    |q| == |qw| && forall i {:trigger qw[i]} :: 0 <= i < |q| ==> Witness(g, s, ns, qw[i], q[i].iNode, q[i].iDist)
  }

  /** A reached node but the start hangs below a reached predecessor, at no less
      than the predecessor's label plus the edge. */
  ghost predicate LinkOk(g: Graph, s: int, ns: seq<Label>, v: int)
    requires IsGraph(g) && IsNode(v) && |ns| == NUM_NODES
  {
    if v == s || ns[v].iDist == NONE then
      ns[v].iPrev == NONE
    else
      var u := ns[v].iPrev;
      IsNode(u) && ns[u].iDist != NONE && g[u][v] != NONE && ns[v].iDist >= ns[u].iDist + g[u][v]
  }

  ghost predicate PrevOk(g: Graph, s: int, ns: seq<Label>)
    requires IsGraph(g) && IsNode(s)
  {
    && |ns| == NUM_NODES
    && ns[s] == Label(0, NONE)
    && forall v {:trigger LinkOk(g, s, ns, v)} :: IsNode(v) ==> LinkOk(g, s, ns, v)
  }

  /** `p` follows iPrev links from node to node. */
  ghost predicate PrevChain(ns: seq<Label>, p: seq<int>) {
    && p != []
    && IsNode(p[0]) && |ns| == NUM_NODES
    && (|p| > 1 ==> ns[p[0]].iPrev == p[1] && PrevChain(ns, p[1..]))
  }

  ghost predicate NoPrevCycle(ns: seq<Label>) {
    forall p :: PrevChain(ns, p) && |p| >= 2 ==> p[0] != p[|p| - 1]
  }

  ghost predicate Pending(ns: seq<Label>, q: seq<Entry>, v: int)
    requires IsNode(v) && v < |ns|
  {
    exists i :: 0 <= i < |q| && q[i].iNode == v && q[i].iDist == ns[v].iDist
  }

  /** The edges out of `u` to nodes below `n` offer nothing better from distance `d`. */
  ghost predicate Settled(g: Graph, ns: seq<Label>, u: int, d: int, n: int)
    requires IsGraph(g) && |ns| == NUM_NODES
  {
    forall w {:trigger Edge(g, u, w)} :: 0 <= w < n && Edge(g, u, w) ==> Reached(ns, w) && ns[w].iDist <= d + g[u][w]
  }

  ghost predicate Inv(g: Graph, s: int, ns: seq<Label>, q: seq<Entry>, qw: seq<seq<int>>)
    requires IsGraph(g) && IsNode(s)
  {
    EntriesWitnessed(g, s, ns, q, qw) && PrevOk(g, s, ns) && NoPrevCycle(ns)
  }

  // ---------- One relaxation keeps the invariant ----------

  lemma {:induction false} CostNonNegative(g: Graph, s: int, p: seq<int>)
    requires Proper(g, s) && Walk(g, p)
    ensures Cost(g, p) >= 0
  {
    if |p| > 1 {
      CostNonNegative(g, s, p[..|p| - 1]);
    }
  }

  /** Every node on a supported path has a label no larger than the path's cost, so
      a node that the path's extension would improve cannot lie on it. */
  lemma {:induction false} SupportedBound(g: Graph, s: int, ns: seq<Label>, p: seq<int>, v: int)
    requires Admissible(g, s) && Walk(g, p) && Supported(g, ns, p) && v in p
    ensures Reached(ns, v) && ns[v].iDist <= Cost(g, p)
  {
    if v != p[|p| - 1] {
      SupportedBound(g, s, ns, p[..|p| - 1], v);
    }
  }

  lemma {:induction false} SupportSurvives(g: Graph, ns: seq<Label>, ns': seq<Label>, p: seq<int>)
    requires IsGraph(g) && Walk(g, p) && Supported(g, ns, p)
    requires forall u :: Reached(ns, u) ==> Reached(ns', u) && ns'[u].iDist <= ns[u].iDist
    ensures Supported(g, ns', p)
  {
    if |p| > 1 {
      SupportSurvives(g, ns, ns', p[..|p| - 1]);
    }
    assert Reached(ns, p[|p| - 1]);
  }

  /** Following an improving edge extends a witness to a witness of the new label. */
  lemma WitnessExtends(g: Graph, s: int, ns: seq<Label>, p: seq<int>, n: int, d: int, i: int)
    requires Admissible(g, s) && |ns| == NUM_NODES
    requires Witness(g, s, ns, p, n, d) && Edge(g, n, i)
    requires !Reached(ns, i) || ns[i].iDist > d + g[n][i]
    ensures i !in p
    ensures 0 <= d + g[n][i] <= INT_MAX && d + g[n][i] != NONE
    ensures Witness(g, s, ns[i := Label(d + g[n][i], n)], p + [i], i, d + g[n][i])
  {
    if i in p {
      SupportedBound(g, s, ns, p, i);
    }
    ExtendWalk(g, p, i);
    CostNonNegative(g, s, p + [i]);
    assert Simple(p + [i]);
    assert PathFits(g, s, p) && PathFits(g, s, p + [i]);
    var ns' := ns[i := Label(d + g[n][i], n)];
    SupportSurvives(g, ns, ns', p);
    assert (p + [i])[..|p|] == p;
  }

  /** Along iPrev links the labels do not grow. */
  lemma {:induction false} ChainDescends(g: Graph, s: int, ns: seq<Label>, p: seq<int>)
    requires Admissible(g, s) && PrevOk(g, s, ns) && PrevChain(ns, p)
    ensures IsNode(p[|p| - 1])
    ensures |p| >= 2 ==> Reached(ns, p[|p| - 1])
    ensures ns[p[0]].iDist >= ns[p[|p| - 1]].iDist
  {
    if |p| >= 2 {
      assert LinkOk(g, s, ns, p[0]);
      ChainDescends(g, s, ns, p[1..]);
    }
  }

  /** A chain that comes back to its start after `i` got the predecessor `n` holds
      old chains from its start to `i` and from `n` to its end. */
  lemma {:induction false} SplitAtFirst(ns: seq<Label>, l: Label, i: int, p: seq<int>) returns (a: seq<int>)
    requires IsNode(i) && |ns| == NUM_NODES && PrevChain(ns[i := l], p)
    requires i in p[..|p| - 1]
    ensures PrevChain(ns, a) && a[0] == p[0] && a[|a| - 1] == i
  {
    if p[0] == i {
      a := [i];
    } else {
      assert i in p[1..][..|p| - 2];
      var t := SplitAtFirst(ns, l, i, p[1..]);
      a := [p[0]] + t;
      assert a[1..] == t;
    }
  }

  lemma {:induction false} SplitAtLast(ns: seq<Label>, l: Label, i: int, p: seq<int>) returns (b: seq<int>)
    requires IsNode(i) && |ns| == NUM_NODES && PrevChain(ns[i := l], p)
    requires i in p[..|p| - 1]
    ensures PrevChain(ns, b) && b[0] == l.iPrev && b[|b| - 1] == p[|p| - 1]
  {
    if i in p[1..][..|p| - 2] {
      b := SplitAtLast(ns, l, i, p[1..]);
    } else {
      assert p[0] == i;
      b := p[1..];
      ChainBefore(ns, l, i, b);
    }
  }

  /** A chain whose links avoid `i` was a chain before `i` got a new predecessor. */
  lemma {:induction false} ChainBefore(ns: seq<Label>, l: Label, i: int, p: seq<int>)
    requires IsNode(i) && |ns| == NUM_NODES && PrevChain(ns[i := l], p)
    requires i !in p[..|p| - 1]
    ensures PrevChain(ns, p)
  {
    if |p| > 1 {
      assert p[0] in p[..|p| - 1];
      assert p[1..][..|p| - 2] == p[..|p| - 1][1..];
      ChainBefore(ns, l, i, p[1..]);
    }
  }

  /** Hanging the improved node `i` below `n` closes no iPrev cycle, even over edges
      of cost zero. */
  lemma RelaxClosesNoCycle(g: Graph, s: int, ns: seq<Label>, n: int, i: int, nd: int)
    requires Admissible(g, s) && PrevOk(g, s, ns) && NoPrevCycle(ns)
    requires Reached(ns, n) && Edge(g, n, i) && n != i
    requires ns[n].iDist + g[n][i] <= nd
    requires !Reached(ns, i) || ns[i].iDist > nd
    ensures NoPrevCycle(ns[i := Label(nd, n)])
  {
    var l := Label(nd, n);
    forall p | PrevChain(ns[i := l], p) && |p| >= 2 && p[0] == p[|p| - 1]
      ensures false
    {
      if i in p[..|p| - 1] {
        var a := SplitAtFirst(ns, l, i, p);
        var b := SplitAtLast(ns, l, i, p);
        ChainDescends(g, s, ns, a);
        ChainDescends(g, s, ns, b);
      } else {
        ChainBefore(ns, l, i, p);
      }
    }
  }

  lemma RelaxKeepsPrevOk(g: Graph, s: int, ns: seq<Label>, n: int, i: int, nd: int)
    requires Admissible(g, s) && PrevOk(g, s, ns)
    requires Reached(ns, n) && Edge(g, n, i) && n != i && i != s
    requires ns[n].iDist + g[n][i] <= nd != NONE
    requires !Reached(ns, i) || ns[i].iDist > nd
    ensures PrevOk(g, s, ns[i := Label(nd, n)])
  {
    forall v | IsNode(v) ensures LinkOk(g, s, ns[i := Label(nd, n)], v) {
      assert LinkOk(g, s, ns, v);
    }
  }

  lemma WitnessSurvives(g: Graph, s: int, ns: seq<Label>, ns': seq<Label>, p: seq<int>, v: int, d: int)
    requires IsGraph(g) && Witness(g, s, ns, p, v, d)
    requires forall u :: Reached(ns, u) ==> Reached(ns', u) && ns'[u].iDist <= ns[u].iDist
    ensures Witness(g, s, ns', p, v, d)
  {
    SupportSurvives(g, ns, ns', p);
  }

  lemma NewEntryWitnessed(g: Graph, s: int, ns: seq<Label>, ns': seq<Label>, q: seq<Entry>, qw: seq<seq<int>>,
                          e: Entry, p: seq<int>)
    requires IsGraph(g) && EntriesWitnessed(g, s, ns, q, qw)
    requires forall u :: Reached(ns, u) ==> Reached(ns', u) && ns'[u].iDist <= ns[u].iDist
    requires Witness(g, s, ns', p, e.iNode, e.iDist)
    ensures EntriesWitnessed(g, s, ns', q + [e], qw + [p])
  {
    forall j | 0 <= j < |q|
      ensures Witness(g, s, ns', qw[j], q[j].iNode, q[j].iDist)
    {
      WitnessSurvives(g, s, ns, ns', qw[j], q[j].iNode, q[j].iDist);
    }
  }

  ghost predicate Improvable(g: Graph, ns: seq<Label>, n: int, d: int, i: int)
    requires IsGraph(g) && |ns| == NUM_NODES
  {
    Edge(g, n, i) && (!Reached(ns, i) || ns[i].iDist > d + g[n][i])
  }

  /** What the path behind the dequeued entry says about the node it improves. */
  lemma ImprovementFacts(g: Graph, s: int, ns: seq<Label>, p: seq<int>, n: int, d: int, i: int)
    requires Admissible(g, s) && |ns| == NUM_NODES
    requires Witness(g, s, ns, p, n, d) && Improvable(g, ns, n, d, i)
    ensures i != n && i != s && Reached(ns, n) && ns[n].iDist <= d
    ensures 0 <= d + g[n][i] <= INT_MAX && d + g[n][i] != NONE
  {
    WitnessExtends(g, s, ns, p, n, d, i);
    SupportedBound(g, s, ns, p, n);
  }

  lemma RelaxKeepsEntries(g: Graph, s: int, ns: seq<Label>, q: seq<Entry>, qw: seq<seq<int>>,
                          p: seq<int>, n: int, d: int, i: int)
    requires Admissible(g, s) && EntriesWitnessed(g, s, ns, q, qw) && |ns| == NUM_NODES
    requires Witness(g, s, ns, p, n, d) && Improvable(g, ns, n, d, i)
    ensures var nd := d + g[n][i];
      EntriesWitnessed(g, s, ns[i := Label(nd, n)], q + [Entry(i, nd, n)], qw + [p + [i]])
  {
    var nd := d + g[n][i];
    WitnessExtends(g, s, ns, p, n, d, i);
    NewEntryWitnessed(g, s, ns, ns[i := Label(nd, n)], q, qw, Entry(i, nd, n), p + [i]);
  }

  /** One relaxation of the inner loop keeps the whole invariant. */
  lemma RelaxKeepsInv(g: Graph, s: int, ns: seq<Label>, q: seq<Entry>, qw: seq<seq<int>>,
                      p: seq<int>, n: int, d: int, i: int)
    requires Admissible(g, s) && Inv(g, s, ns, q, qw)
    requires Witness(g, s, ns, p, n, d) && Improvable(g, ns, n, d, i)
    ensures var nd := d + g[n][i];
      Inv(g, s, ns[i := Label(nd, n)], q + [Entry(i, nd, n)], qw + [p + [i]])
  {
    var nd := d + g[n][i];
    ImprovementFacts(g, s, ns, p, n, d, i);
    RelaxKeepsEntries(g, s, ns, q, qw, p, n, d, i);
    RelaxKeepsPrevOk(g, s, ns, n, i, nd);
    RelaxClosesNoCycle(g, s, ns, n, i, nd);
  }

  // ---------- The inner loop ----------

  /** The labels and the queue: what the search computes with. */
  datatype Work = Work(ns: seq<Label>, q: seq<Entry>)

  /** Looks at the edge from the dequeued node `n` to `i`. */
  ghost function RelaxEdge(g: Graph, w: Work, n: int, d: int, i: int): (r: Work)
    requires IsGraph(g) && |w.ns| == NUM_NODES
    ensures |r.ns| == NUM_NODES
  {
    if Improvable(g, w.ns, n, d, i) then
      var nd := d + g[n][i];
      Work(w.ns[i := Label(nd, n)], w.q + [Entry(i, nd, n)])
    else w
  }

  /** Looks at the edges from `n` to the nodes below `i`. */
  ghost function RelaxBelow(g: Graph, w: Work, n: int, d: int, i: nat): (r: Work)
    requires IsGraph(g) && |w.ns| == NUM_NODES
    ensures |r.ns| == NUM_NODES
  {
    if i == 0 then w else RelaxEdge(g, RelaxBelow(g, w, n, d, i - 1), n, d, i - 1)
  }

  /** The work together with the witness paths behind its entries. */
  datatype State = State(w: Work, qw: seq<seq<int>>)

  ghost predicate Idle(g: Graph, s: int, st: State)
    requires IsGraph(g) && IsNode(s)
  {
    Inv(g, s, st.w.ns, st.w.q, st.qw)
  }

  /** The invariant of the loop over the edges out of the dequeued node `n`. */
  ghost predicate Expanding(g: Graph, s: int, st: State, p: seq<int>, n: int, d: int)
    requires IsGraph(g) && IsNode(s)
  {
    Idle(g, s, st) && Witness(g, s, st.w.ns, p, n, d)
  }

  lemma RelaxEdgeKeeps(g: Graph, s: int, st: State, p: seq<int>, n: int, d: int, i: int) returns (st': State)
    requires Admissible(g, s) && Expanding(g, s, st, p, n, d)
    ensures st'.w == RelaxEdge(g, st.w, n, d, i)
    ensures Expanding(g, s, st', p, n, d)
  {
    st' := st;
    if Improvable(g, st.w.ns, n, d, i) {
      st' := State(RelaxEdge(g, st.w, n, d, i), st.qw + [p + [i]]);
      ImprovementFacts(g, s, st.w.ns, p, n, d, i);
      RelaxKeepsInv(g, s, st.w.ns, st.w.q, st.qw, p, n, d, i);
      WitnessSurvives(g, s, st.w.ns, st'.w.ns, p, n, d);
    }
  }

  lemma {:induction false} RelaxBelowKeeps(g: Graph, s: int, st: State, p: seq<int>, n: int, d: int, i: nat)
    returns (st': State)
    requires Admissible(g, s) && Expanding(g, s, st, p, n, d)
    ensures st'.w == RelaxBelow(g, st.w, n, d, i)
    ensures Expanding(g, s, st', p, n, d)
  {
    if i == 0 {
      st' := st;
    } else {
      var st1 := RelaxBelowKeeps(g, s, st, p, n, d, i - 1);
      st' := RelaxEdgeKeeps(g, s, st1, p, n, d, i - 1);
    }
  }

  // ---------- The whole run ----------

  ghost function Start(s: int): (w: Work)
    ensures |w.ns| == NUM_NODES
  {
    Work(seq(NUM_NODES, v => if v == s then Label(0, NONE) else Label(NONE, NONE)), [Entry(s, 0, NONE)])
  }

  /** One turn of the outer loop: dequeue an entry and look at all its edges. */
  ghost function Turn(g: Graph, w: Work): (r: Work)
    requires IsGraph(g) && |w.ns| == NUM_NODES && w.q != []
    ensures |r.ns| == NUM_NODES
  {
    RelaxBelow(g, Work(w.ns, w.q[1..]), w.q[0].iNode, w.q[0].iDist, NUM_NODES)
  }

  /** The work after `k` turns. */
  ghost function Run(g: Graph, s: int, k: nat): (w: Work)
    requires IsGraph(g)
    ensures |w.ns| == NUM_NODES
  {
    if k == 0 then Start(s)
    else
      var w := Run(g, s, k - 1);
      if w.q == [] then w else Turn(g, w)
  }

  lemma LinklessChain(ns: seq<Label>, p: seq<int>)
    requires PrevChain(ns, p) && forall v :: IsNode(v) ==> ns[v].iPrev == NONE
    ensures |p| == 1
  {
  }

  lemma StartIsIdle(g: Graph, s: int) returns (st: State)
    requires Admissible(g, s)
    ensures st.w == Start(s) && Idle(g, s, st)
  {
    st := State(Start(s), [[s]]);
    assert st.w.q[0].iNode == s;
    assert Witness(g, s, st.w.ns, [s], s, 0);
    forall p ensures PrevChain(st.w.ns, p) ==> |p| == 1 {
      if PrevChain(st.w.ns, p) {
        LinklessChain(st.w.ns, p);
      }
    }
  }

  lemma DequeueOpens(g: Graph, s: int, st: State) returns (st': State, p: seq<int>)
    requires Admissible(g, s) && Idle(g, s, st) && st.w.q != []
    ensures st'.w == Work(st.w.ns, st.w.q[1..])
    ensures Expanding(g, s, st', p, st.w.q[0].iNode, st.w.q[0].iDist)
  {
    var ns, q := st.w.ns, st.w.q;
    st', p := State(Work(ns, q[1..]), st.qw[1..]), st.qw[0];
    forall j | 0 <= j < |q| - 1 ensures Witness(g, s, ns, st.qw[1..][j], q[1..][j].iNode, q[1..][j].iDist) {
      assert st.qw[1..][j] == st.qw[j + 1];
    }
  }

  lemma TurnKeeps(g: Graph, s: int, st: State) returns (st': State)
    requires Admissible(g, s) && Idle(g, s, st) && st.w.q != []
    ensures st'.w == Turn(g, st.w) && Idle(g, s, st')
  {
    var st0, p := DequeueOpens(g, s, st);
    st' := RelaxBelowKeeps(g, s, st0, p, st.w.q[0].iNode, st.w.q[0].iDist, NUM_NODES);
  }

  lemma {:induction false} RunKeeps(g: Graph, s: int, k: nat) returns (st: State)
    requires Admissible(g, s)
    ensures st.w == Run(g, s, k) && Idle(g, s, st)
  {
    if k == 0 {
      st := StartIsIdle(g, s);
    } else {
      var st1 := RunKeeps(g, s, k - 1);
      if st1.w.q == [] {
        st := st1;
      } else {
        st := TurnKeeps(g, s, st1);
      }
    }
  }

  /** In every state of the run, inside a turn too, the iPrev links form no cycle and
      each link carries at least its edge. */
  lemma EveryStateOfTheRun(g: Graph, s: int, k: nat, i: nat)
    requires Admissible(g, s) && Run(g, s, k).q != [] && i <= NUM_NODES
    ensures var w, e := Run(g, s, k), Run(g, s, k).q[0];
      var now := RelaxBelow(g, Work(w.ns, w.q[1..]), e.iNode, e.iDist, i);
      NoPrevCycle(now.ns) && PrevOk(g, s, now.ns)
  {
    var st := RunKeeps(g, s, k);
    var e := st.w.q[0];
    var st0, p := DequeueOpens(g, s, st);
    var st' := RelaxBelowKeeps(g, s, st0, p, e.iNode, e.iDist, i);
  }

  // ---------- Distances ----------

  ghost predicate CostOf(g: Graph, s: int, v: int, d: int)
    requires IsGraph(g)
  {
    exists p :: WalkFromTo(g, p, s, v) && Cost(g, p) == d
  }

  /** `d` is the cost of a walk with `edges` edges. */
  ghost predicate WalkOf(g: Graph, s: int, v: int, d: int, edges: nat)
    requires IsGraph(g)
  {
    exists p :: WalkFromTo(g, p, s, v) && Cost(g, p) == d && |p| == edges + 1
  }

  /** No node lies at exactly the distance that stands for "not reached". */
  ghost predicate NoneFree(g: Graph, s: int) {
    IsGraph(g) && forall v {:trigger ShortestDistance(g, s, v, NONE)} :: IsNode(v) ==> !ShortestDistance(g, s, v, NONE)
  }

  lemma WalkHasCost(g: Graph, s: int, v: int, d: int, edges: nat)
    requires IsGraph(g) && WalkOf(g, s, v, d, edges)
    ensures CostOf(g, s, v, d)
  {
  }

  lemma LongerWalk(g: Graph, s: int, u: int, v: int, d: int, edges: nat)
    requires IsGraph(g) && WalkOf(g, s, u, d, edges) && Edge(g, u, v)
    ensures WalkOf(g, s, v, d + g[u][v], edges + 1)
  {
    var p :| WalkFromTo(g, p, s, u) && Cost(g, p) == d && |p| == edges + 1;
    ExtendWalk(g, p, v);
    assert WalkFromTo(g, p + [v], s, v);
  }

  lemma LeastCost(g: Graph, s: int, v: int, d: int, e: int)
    requires IsGraph(g) && ShortestDistance(g, s, v, d) && CostOf(g, s, v, e)
    ensures d <= e
  {
  }

  lemma SameDistance(g: Graph, s: int, v: int, d: int, e: int)
    requires IsGraph(g) && ShortestDistance(g, s, v, d) && ShortestDistance(g, s, v, e)
    ensures d == e
  {
  }

  /** On a shortest walk the distance before the last edge is shortest too. */
  lemma ShortestBefore(g: Graph, s: int, u: int, v: int, d: int)
    requires IsGraph(g) && CostOf(g, s, u, d) && Edge(g, u, v) && ShortestDistance(g, s, v, d + g[u][v])
    ensures ShortestDistance(g, s, u, d)
  {
    forall p | WalkFromTo(g, p, s, u) ensures d <= Cost(g, p) {
      ExtendWalk(g, p, v);
      assert WalkFromTo(g, p + [v], s, v);
    }
  }

  lemma StartDistance(g: Graph, s: int)
    requires Proper(g, s)
    ensures WalkFromTo(g, [s], s, s) && Cost(g, [s]) == 0 && ShortestDistance(g, s, s, 0)
  {
    forall p | WalkFromTo(g, p, s, s) ensures 0 <= Cost(g, p) {
      CostNonNegative(g, s, p);
    }
  }

  lemma {:induction false} WalkPrefix(g: Graph, s: int, p: seq<int>, k: nat)
    requires Proper(g, s) && Walk(g, p) && 0 < k <= |p|
    ensures Walk(g, p[..k]) && Cost(g, p[..k]) <= Cost(g, p)
  {
    if k < |p| {
      WalkPrefix(g, s, p[..|p| - 1], k);
      assert p[..|p| - 1][..k] == p[..k];
    } else {
      assert p[..k] == p;
    }
  }

  /** Leaving out the cycles makes no walk dearer. */
  lemma {:induction false} SimplerWalk(g: Graph, s: int, p: seq<int>) returns (r: seq<int>)
    requires Proper(g, s) && Walk(g, p)
    ensures Walk(g, r) && r[0] == p[0] && r[|r| - 1] == p[|p| - 1]
    ensures Simple(r) && Cost(g, r) <= Cost(g, p)
  {
    if |p| == 1 {
      return p;
    }
    var v, c := p[|p| - 1], g[p[|p| - 2]][p[|p| - 1]];
    var q := SimplerWalk(g, s, p[..|p| - 1]);
    assert Edge(g, q[|q| - 1], v) && c >= 0 && Cost(g, q) + c <= Cost(g, p);
    r := Rejoined(g, s, q, v);
  }

  /** A simple walk extended by an edge, or cut off where it was at that node before. */
  lemma Rejoined(g: Graph, s: int, q: seq<int>, v: int) returns (r: seq<int>)
    requires Proper(g, s) && Walk(g, q) && Simple(q) && Edge(g, q[|q| - 1], v)
    ensures Walk(g, r) && r[0] == q[0] && r[|r| - 1] == v
    ensures Simple(r) && Cost(g, r) <= Cost(g, q) + g[q[|q| - 1]][v]
  {
    if v in q {
      var k :| 0 <= k < |q| && q[k] == v;
      WalkPrefix(g, s, q, k + 1);
      r := q[..k + 1];
    } else {
      ExtendWalk(g, q, v);
      r := q + [v];
    }
  }

  lemma {:induction false} WalkNodes(g: Graph, p: seq<int>, k: nat)
    requires IsGraph(g) && Walk(g, p) && k < |p|
    ensures IsNode(p[k])
  {
    if k < |p| - 1 {
      WalkNodes(g, p[..|p| - 1], k);
    }
  }

  lemma SimpleWalkIsShort(g: Graph, p: seq<int>)
    requires IsGraph(g) && Walk(g, p) && Simple(p)
    ensures |p| <= NUM_NODES
  {
    forall v | v in p ensures 0 <= v < NUM_NODES {
      var k :| 0 <= k < |p| && p[k] == v;
      WalkNodes(g, p, k);
    }
    SimpleIsShort(p, NUM_NODES);
  }

  lemma {:induction false} CheapestWalk(g: Graph, s: int, v: int, p: seq<int>) returns (r: seq<int>)
    requires Proper(g, s) && WalkFromTo(g, p, s, v) && Cost(g, p) >= 0
    ensures WalkFromTo(g, r, s, v) && ShortestDistance(g, s, v, Cost(g, r))
    decreases Cost(g, p)
  {
    if q :| WalkFromTo(g, q, s, v) && Cost(g, q) < Cost(g, p) {
      CostNonNegative(g, s, q);
      r := CheapestWalk(g, s, v, q);
    } else {
      r := p;
    }
  }

  /** A node that a walk reaches has a shortest walk of fewer edges than there are nodes. */
  lemma ShortWalk(g: Graph, s: int, v: int) returns (r: seq<int>)
    requires Proper(g, s) && !Unreachable(g, s, v)
    ensures WalkFromTo(g, r, s, v) && ShortestDistance(g, s, v, Cost(g, r))
    ensures |r| <= NUM_NODES && Simple(r)
  {
    var p :| WalkFromTo(g, p, s, v);
    CostNonNegative(g, s, p);
    var q := CheapestWalk(g, s, v, p);
    r := SimplerWalk(g, s, q);
    assert WalkFromTo(g, r, s, v);
    SimpleWalkIsShort(g, r);
    LeastCost(g, s, v, Cost(g, q), Cost(g, r));
  }

  // ---------- Rounds of the queue ----------

  /** A label is the initial one or the cost of a walk. */
  ghost predicate Sound(g: Graph, s: int, ns: seq<Label>, v: int)
    requires IsGraph(g) && IsNode(v) && |ns| == NUM_NODES
  {
    ns[v] == Label(NONE, NONE) || CostOf(g, s, v, ns[v].iDist)
  }

  /** The label is the distance. */
  ghost predicate Final(g: Graph, s: int, ns: seq<Label>, v: int)
    requires IsGraph(g) && IsNode(v) && |ns| == NUM_NODES
  {
    ShortestDistance(g, s, v, ns[v].iDist)
  }

  /** An entry stands for a walk of `edges` edges; with the distance of its node it has made
      the label final. */
  ghost predicate EntryOk(g: Graph, s: int, ns: seq<Label>, v: int, d: int, edges: nat)
    requires IsGraph(g) && |ns| == NUM_NODES
  {
    && IsNode(v) && WalkOf(g, s, v, d, edges)
    && (ShortestDistance(g, s, v, d) ==> ns[v].iDist == d)
  }

  /** If a shortest walk to `w` ends with the edge from `u`, the label of `w` is final. */
  ghost predicate TightTo(g: Graph, s: int, ns: seq<Label>, u: int, w: int)
    requires IsGraph(g) && IsNode(u) && IsNode(w) && |ns| == NUM_NODES
  {
    Edge(g, u, w) && ShortestDistance(g, s, w, ns[u].iDist + g[u][w]) ==> ns[w].iDist == ns[u].iDist + g[u][w]
  }

  ghost predicate TightDone(g: Graph, s: int, ns: seq<Label>, u: int, n: int)
    requires IsGraph(g) && IsNode(u) && n <= NUM_NODES == |ns|
  {
    forall w {:trigger TightTo(g, s, ns, u, w)} :: 0 <= w < n ==> TightTo(g, s, ns, u, w)
  }

  /** A node with a final label has its entry to come, has handed its distance on, or is the
      one being expanded. */
  ghost predicate Handled(g: Graph, s: int, ns: seq<Label>, q: seq<Entry>, busy: int, d: int, u: int)
    requires IsGraph(g) && IsNode(u) && |ns| == NUM_NODES
  {
    Final(g, s, ns, u) ==>
      Pending(ns, q, u) || TightDone(g, s, ns, u, NUM_NODES) || (u == busy && ns[u].iDist == d)
  }

  /** The entries left from walks of `edges` edges come first; those behind have one edge more.
      `base` holds the nodes whose labels were final when the round began, `order` all that are
      final, as they became so. */
  datatype Level = Level(edges: nat, left: nat, base: set<int>, order: seq<int>)

  /** Every node with a shortest walk of at most `edges` edges is in `base`. */
  ghost predicate ReachedBy(g: Graph, s: int, edges: nat, base: set<int>)
    requires IsGraph(g)
  {
    forall p {:trigger Walk(g, p)} ::
      Walk(g, p) && p[0] == s && |p| <= edges + 1 && ShortestDistance(g, s, p[|p| - 1], Cost(g, p)) ==>
        p[|p| - 1] in base
  }

  ghost predicate EntryAt(g: Graph, s: int, w: Work, lv: Level, k: int)
    requires IsGraph(g) && |w.ns| == NUM_NODES && 0 <= k < |w.q|
  {
    && EntryOk(g, s, w.ns, w.q[k].iNode, w.q[k].iDist, if k < lv.left then lv.edges else lv.edges + 1)
    && (k >= lv.left ==> w.q[k].iNode !in lv.base)
  }

  ghost predicate EntriesOk(g: Graph, s: int, w: Work, lv: Level)
    requires IsGraph(g) && |w.ns| == NUM_NODES
  {
    lv.left <= |w.q| && forall k {:trigger EntryAt(g, s, w, lv, k)} :: 0 <= k < |w.q| ==> EntryAt(g, s, w, lv, k)
  }

  ghost predicate BaseOk(g: Graph, s: int, ns: seq<Label>, base: set<int>)
    requires IsGraph(g) && |ns| == NUM_NODES
  {
    forall v {:trigger v in base} :: v in base ==> IsNode(v) && Final(g, s, ns, v)
  }

  /** The node at place `j` hangs by a tight edge below one that became final before. */
  ghost predicate Hung(g: Graph, ns: seq<Label>, order: seq<int>, j: int)
    requires IsGraph(g) && |ns| == NUM_NODES && 0 <= j < |order|
  {
    var v := order[j];
    && IsNode(v) && v !in order[..j]
    && if j == 0 then ns[v] == Label(0, NONE)
       else
         var u := ns[v].iPrev;
         u in order[..j] && Edge(g, u, v) && ns[v].iDist == ns[u].iDist + g[u][v]
  }

  ghost predicate Ordered(g: Graph, s: int, ns: seq<Label>, order: seq<int>)
    requires IsGraph(g) && |ns| == NUM_NODES
  {
    && order != [] && order[0] == s
    && (forall j {:trigger Hung(g, ns, order, j)} :: 0 <= j < |order| ==> Hung(g, ns, order, j))
    && (forall v {:trigger v in order} :: v in order ==> IsNode(v) && Final(g, s, ns, v))
    && (forall v {:trigger Final(g, s, ns, v)} :: IsNode(v) && Final(g, s, ns, v) ==> v in order)
  }

  ghost predicate LabelsOk(g: Graph, s: int, w: Work, busy: int, d: int)
    requires IsGraph(g) && |w.ns| == NUM_NODES
  {
    && (forall v {:trigger Sound(g, s, w.ns, v)} :: IsNode(v) ==> Sound(g, s, w.ns, v))
    && (forall v {:trigger Handled(g, s, w.ns, w.q, busy, d, v)} :: IsNode(v) ==>
          Handled(g, s, w.ns, w.q, busy, d, v))
  }

  /** The invariant of the rounds, while `busy` is expanded at distance `d`. */
  ghost predicate Round(g: Graph, s: int, w: Work, lv: Level, busy: int, d: int) {
    && IsGraph(g) && |w.ns| == NUM_NODES && lv.edges < NUM_NODES
    && LabelsOk(g, s, w, busy, d) && EntriesOk(g, s, w, lv)
    && BaseOk(g, s, w.ns, lv.base) && ReachedBy(g, s, lv.edges, lv.base)
    && Ordered(g, s, w.ns, lv.order)
  }

  /** What is known of the entry being expanded, its edges to nodes below `i` done. */
  ghost predicate Busy(g: Graph, s: int, ns: seq<Label>, n: int, d: int, edges: nat, i: int)
    requires IsGraph(g) && i <= NUM_NODES == |ns|
  {
    && EntryOk(g, s, ns, n, d, edges)
    && (Final(g, s, ns, n) && ns[n].iDist == d ==> TightDone(g, s, ns, n, i))
  }

  ghost function NewLabel(g: Graph, ns: seq<Label>, n: int, d: int, i: int): seq<Label>
    requires IsGraph(g) && Edge(g, n, i) && |ns| == NUM_NODES
  {
    ns[i := Label(d + g[n][i], n)]
  }

  /** A label that is improved was not final, so the final ones stay. */
  lemma NotFinalYet(g: Graph, s: int, ns: seq<Label>, n: int, d: int, i: int, edges: nat)
    requires IsGraph(g) && |ns| == NUM_NODES && NoneFree(g, s)
    requires EntryOk(g, s, ns, n, d, edges) && Improvable(g, ns, n, d, i)
    ensures WalkOf(g, s, i, d + g[n][i], edges + 1) && CostOf(g, s, i, d + g[n][i])
    ensures !Final(g, s, ns, i)
  {
    var nd := d + g[n][i];
    LongerWalk(g, s, n, i, d, edges);
    WalkHasCost(g, s, i, nd, edges + 1);
    if Final(g, s, ns, i) {
      LeastCost(g, s, i, ns[i].iDist, nd);
    }
  }

  lemma EntryStays(g: Graph, s: int, ns: seq<Label>, n: int, d: int, i: int, v: int, e: int, edges: nat)
    requires IsGraph(g) && |ns| == NUM_NODES && Edge(g, n, i) && !Final(g, s, ns, i)
    requires EntryOk(g, s, ns, v, e, edges)
    ensures EntryOk(g, s, NewLabel(g, ns, n, d, i), v, e, edges)
  {
  }

  lemma TightStays(g: Graph, s: int, ns: seq<Label>, n: int, d: int, i: int, u: int, k: int)
    requires IsGraph(g) && k <= NUM_NODES == |ns| && Edge(g, n, i) && !Final(g, s, ns, i)
    requires IsNode(u) && u != i && TightDone(g, s, ns, u, k)
    ensures TightDone(g, s, NewLabel(g, ns, n, d, i), u, k)
  {
    forall w | 0 <= w < k ensures TightTo(g, s, NewLabel(g, ns, n, d, i), u, w) {
      assert TightTo(g, s, ns, u, w);
    }
  }

  lemma LabelsStay(g: Graph, s: int, w: Work, n: int, d: int, i: int, edges: nat)
    requires IsGraph(g) && |w.ns| == NUM_NODES && NoneFree(g, s) && LabelsOk(g, s, w, n, d)
    requires EntryOk(g, s, w.ns, n, d, edges) && Improvable(g, w.ns, n, d, i)
    ensures LabelsOk(g, s, RelaxEdge(g, w, n, d, i), n, d)
  {
    var w' := RelaxEdge(g, w, n, d, i);
    NotFinalYet(g, s, w.ns, n, d, i, edges);
    forall v | IsNode(v) ensures Sound(g, s, w'.ns, v) {
      assert Sound(g, s, w.ns, v);
    }
    forall v | IsNode(v) ensures Handled(g, s, w'.ns, w'.q, n, d, v) {
      assert Handled(g, s, w.ns, w.q, n, d, v);
      if v == i {
        assert w'.q[|w.q|].iNode == v;
      } else if Final(g, s, w.ns, v) {
        if Pending(w.ns, w.q, v) {
          var j :| 0 <= j < |w.q| && w.q[j].iNode == v && w.q[j].iDist == w.ns[v].iDist;
          assert w'.q[j] == w.q[j];
        } else if TightDone(g, s, w.ns, v, NUM_NODES) {
          TightStays(g, s, w.ns, n, d, i, v, NUM_NODES);
        }
      }
    }
  }

  lemma EntriesStay(g: Graph, s: int, w: Work, lv: Level, n: int, d: int, i: int)
    requires IsGraph(g) && |w.ns| == NUM_NODES && NoneFree(g, s) && EntriesOk(g, s, w, lv)
    requires BaseOk(g, s, w.ns, lv.base)
    requires EntryOk(g, s, w.ns, n, d, lv.edges) && Improvable(g, w.ns, n, d, i)
    ensures EntriesOk(g, s, RelaxEdge(g, w, n, d, i), lv)
  {
    var w' := RelaxEdge(g, w, n, d, i);
    NotFinalYet(g, s, w.ns, n, d, i, lv.edges);
    forall k | 0 <= k < |w'.q| ensures EntryAt(g, s, w', lv, k) {
      if k < |w.q| {
        assert EntryAt(g, s, w, lv, k) && w'.q[k] == w.q[k];
        EntryStays(g, s, w.ns, n, d, i, w.q[k].iNode, w.q[k].iDist, if k < lv.left then lv.edges else lv.edges + 1);
      }
    }
  }

  lemma BaseStays(g: Graph, s: int, ns: seq<Label>, base: set<int>, n: int, d: int, i: int)
    requires IsGraph(g) && |ns| == NUM_NODES && Edge(g, n, i) && !Final(g, s, ns, i) && BaseOk(g, s, ns, base)
    ensures BaseOk(g, s, NewLabel(g, ns, n, d, i), base)
  {
  }

  lemma HungStays(g: Graph, ns: seq<Label>, order: seq<int>, n: int, d: int, i: int, j: int)
    requires IsGraph(g) && |ns| == NUM_NODES && Edge(g, n, i) && i !in order
    requires 0 <= j < |order| && Hung(g, ns, order, j)
    requires forall v {:trigger v in order} :: v in order ==> IsNode(v)
    ensures Hung(g, NewLabel(g, ns, n, d, i), order, j) && Hung(g, NewLabel(g, ns, n, d, i), order + [i], j)
  {
    var v := order[j];
    assert v in order && (order + [i])[..j] == order[..j];
    if j > 0 {
      var u := ns[v].iPrev;
      var m :| 0 <= m < j && order[..j][m] == u;
      assert order[m] == u && u in order;
    }
  }

  /** A label that becomes final hangs below a node that was final already. */
  lemma OrderGrows(g: Graph, s: int, ns: seq<Label>, order: seq<int>, n: int, d: int, i: int, edges: nat)
    returns (order': seq<int>)
    requires IsGraph(g) && |ns| == NUM_NODES && NoneFree(g, s) && Ordered(g, s, ns, order)
    requires EntryOk(g, s, ns, n, d, edges) && Improvable(g, ns, n, d, i)
    ensures Ordered(g, s, NewLabel(g, ns, n, d, i), order')
  {
    var ns' := NewLabel(g, ns, n, d, i);
    NotFinalYet(g, s, ns, n, d, i, edges);
    order' := if Final(g, s, ns', i) then order + [i] else order;
    forall j | 0 <= j < |order'| ensures Hung(g, ns', order', j) {
      if j < |order| {
        assert Hung(g, ns, order, j);
        HungStays(g, ns, order, n, d, i, j);
      } else {
        WalkHasCost(g, s, n, d, edges);
        ShortestBefore(g, s, n, i, d);
        assert Final(g, s, ns, n) && n in order;
        assert order'[..j] == order;
      }
    }
    forall v | IsNode(v) && Final(g, s, ns', v) ensures v in order' {
      assert v != i ==> Final(g, s, ns, v);
    }
    forall v | v in order' ensures IsNode(v) && Final(g, s, ns', v) {
      assert v != i ==> v in order;
    }
  }

  lemma BusyGoesOn(g: Graph, s: int, ns: seq<Label>, n: int, d: int, edges: nat, i: int)
    requires IsGraph(g) && |ns| == NUM_NODES && NoneFree(g, s) && IsNode(i)
    requires Busy(g, s, ns, n, d, edges, i) && Improvable(g, ns, n, d, i)
    ensures Busy(g, s, NewLabel(g, ns, n, d, i), n, d, edges, i + 1)
  {
    var ns' := NewLabel(g, ns, n, d, i);
    NotFinalYet(g, s, ns, n, d, i, edges);
    EntryStays(g, s, ns, n, d, i, n, d, edges);
    if Final(g, s, ns', n) && ns'[n].iDist == d {
      assert n != i;
      TightStays(g, s, ns, n, d, i, n, i);
      forall w | 0 <= w < i + 1 ensures TightTo(g, s, ns', n, w) {
        assert w < i ==> TightTo(g, s, ns', n, w);
      }
    }
  }

  lemma BusyUnchanged(g: Graph, s: int, ns: seq<Label>, n: int, d: int, edges: nat, i: int)
    requires IsGraph(g) && |ns| == NUM_NODES && IsNode(i) && Sound(g, s, ns, i)
    requires Busy(g, s, ns, n, d, edges, i) && !Improvable(g, ns, n, d, i)
    ensures Busy(g, s, ns, n, d, edges, i + 1)
  {
    if Final(g, s, ns, n) && ns[n].iDist == d {
      forall w | 0 <= w < i + 1 ensures TightTo(g, s, ns, n, w) {
        if w < i {
          assert TightTo(g, s, ns, n, w);
        } else if Edge(g, n, i) && ShortestDistance(g, s, i, d + g[n][i]) {
          LeastCost(g, s, i, d + g[n][i], ns[i].iDist);
        }
      }
    }
  }

  /** One look at an edge keeps the invariant of the rounds. */
  lemma EdgeKeepsRound(g: Graph, s: int, w: Work, lv: Level, n: int, d: int, i: int) returns (lv': Level)
    requires NoneFree(g, s) && Round(g, s, w, lv, n, d) && IsNode(i) && Busy(g, s, w.ns, n, d, lv.edges, i)
    ensures var w' := RelaxEdge(g, w, n, d, i);
      Round(g, s, w', lv', n, d) && Busy(g, s, w'.ns, n, d, lv'.edges, i + 1)
    ensures lv'.edges == lv.edges && lv'.left == lv.left
  {
    lv' := lv;
    if Improvable(g, w.ns, n, d, i) {
      NotFinalYet(g, s, w.ns, n, d, i, lv.edges);
      var order := OrderGrows(g, s, w.ns, lv.order, n, d, i, lv.edges);
      lv' := lv.(order := order);
      LabelsStay(g, s, w, n, d, i, lv.edges);
      EntriesStay(g, s, w, lv, n, d, i);
      BaseStays(g, s, w.ns, lv.base, n, d, i);
      BusyGoesOn(g, s, w.ns, n, d, lv.edges, i);
      SameEntries(g, s, RelaxEdge(g, w, n, d, i), lv, lv');
    } else {
      assert Sound(g, s, w.ns, i);
      BusyUnchanged(g, s, w.ns, n, d, lv.edges, i);
    }
  }

  lemma SameEntries(g: Graph, s: int, w: Work, lv: Level, lv': Level)
    requires IsGraph(g) && |w.ns| == NUM_NODES && EntriesOk(g, s, w, lv)
    requires lv'.edges == lv.edges && lv'.left == lv.left && lv'.base == lv.base
    ensures EntriesOk(g, s, w, lv')
  {
    forall k | 0 <= k < |w.q| ensures EntryAt(g, s, w, lv', k) {
      assert EntryAt(g, s, w, lv, k);
    }
  }

  lemma {:induction false} EdgesKeepRound(g: Graph, s: int, w: Work, lv: Level, n: int, d: int, i: nat)
    returns (lv': Level)
    requires NoneFree(g, s) && Round(g, s, w, lv, n, d) && Busy(g, s, w.ns, n, d, lv.edges, 0) && i <= NUM_NODES
    ensures var w' := RelaxBelow(g, w, n, d, i);
      Round(g, s, w', lv', n, d) && Busy(g, s, w'.ns, n, d, lv'.edges, i)
    ensures lv'.edges == lv.edges && lv'.left == lv.left
  {
    if i == 0 {
      lv' := lv;
    } else {
      var lv1 := EdgesKeepRound(g, s, w, lv, n, d, i - 1);
      lv' := EdgeKeepsRound(g, s, RelaxBelow(g, w, n, d, i - 1), lv1, n, d, i - 1);
    }
  }

  /** Nobody is being expanded. */
  const NOBODY := -1

  /** The entry at the front is expanded. */
  lemma RoundOpens(g: Graph, s: int, w: Work, lv: Level) returns (lv': Level)
    requires Round(g, s, w, lv, NOBODY, 0) && lv.left > 0
    ensures var e := w.q[0];
      Round(g, s, Work(w.ns, w.q[1..]), lv', e.iNode, e.iDist) && Busy(g, s, w.ns, e.iNode, e.iDist, lv'.edges, 0)
    ensures lv' == lv.(left := lv.left - 1)
  {
    lv' := lv.(left := lv.left - 1);
    var w' := Work(w.ns, w.q[1..]);
    assert EntryAt(g, s, w, lv, 0);
    forall k | 0 <= k < |w'.q| ensures EntryAt(g, s, w', lv', k) {
      assert EntryAt(g, s, w, lv, k + 1) && w'.q[k] == w.q[k + 1];
    }
    forall v | IsNode(v) ensures Handled(g, s, w'.ns, w'.q, w.q[0].iNode, w.q[0].iDist, v) {
      assert Handled(g, s, w.ns, w.q, NOBODY, 0, v);
      if Pending(w.ns, w.q, v) {
        var j :| 0 <= j < |w.q| && w.q[j].iNode == v && w.q[j].iDist == w.ns[v].iDist;
        if j > 0 {
          assert w'.q[j - 1] == w.q[j];
        }
      }
    }
  }

  lemma RoundCloses(g: Graph, s: int, w: Work, lv: Level, n: int, d: int)
    requires Round(g, s, w, lv, n, d) && Busy(g, s, w.ns, n, d, lv.edges, NUM_NODES)
    ensures Round(g, s, w, lv, NOBODY, 0)
  {
    forall v | IsNode(v) ensures Handled(g, s, w.ns, w.q, NOBODY, 0, v) {
      assert Handled(g, s, w.ns, w.q, n, d, v);
    }
  }

  /** When a round is over, every node one edge further on a shortest walk has its final label. */
  lemma NextReached(g: Graph, s: int, w: Work, lv: Level, p: seq<int>)
    requires Round(g, s, w, lv, NOBODY, 0) && lv.left == 0
    requires Walk(g, p) && p[0] == s && |p| <= lv.edges + 2 && ShortestDistance(g, s, p[|p| - 1], Cost(g, p))
    ensures Final(g, s, w.ns, p[|p| - 1])
  {
    var v := p[|p| - 1];
    if |p| <= lv.edges + 1 {
      assert v in lv.base;
    } else {
      var p', u := p[..|p| - 1], p[|p| - 2];
      assert WalkFromTo(g, p', s, u);
      ShortestBefore(g, s, u, v, Cost(g, p'));
      assert u in lv.base;
      SameDistance(g, s, u, w.ns[u].iDist, Cost(g, p'));
      assert Handled(g, s, w.ns, w.q, NOBODY, 0, u);
      NotPending(g, s, w, lv, u);
      assert TightTo(g, s, w.ns, u, v);
    }
  }

  lemma NotPending(g: Graph, s: int, w: Work, lv: Level, u: int)
    requires IsGraph(g) && |w.ns| == NUM_NODES && EntriesOk(g, s, w, lv) && lv.left == 0 && u in lv.base && IsNode(u)
    ensures !Pending(w.ns, w.q, u)
  {
    forall k | 0 <= k < |w.q| ensures w.q[k].iNode != u {
      assert EntryAt(g, s, w, lv, k);
    }
  }

  /** After as many rounds as there are nodes the queue is empty. */
  lemma LastRound(g: Graph, s: int, w: Work, lv: Level)
    requires Proper(g, s) && Round(g, s, w, lv, NOBODY, 0) && lv.left == 0 && lv.edges == NUM_NODES - 1
    ensures w.q == []
  {
    if w.q != [] {
      assert EntryAt(g, s, w, lv, 0);
      var v := w.q[0].iNode;
      var p :| WalkFromTo(g, p, s, v) && Cost(g, p) == w.q[0].iDist;
      var r := ShortWalk(g, s, v);
    }
  }

  lemma NextRound(g: Graph, s: int, w: Work, lv: Level) returns (lv': Level)
    requires Proper(g, s) && Round(g, s, w, lv, NOBODY, 0) && w.q != [] && lv.left == 0
    ensures Round(g, s, w, lv', NOBODY, 0) && lv'.edges == lv.edges + 1 && lv'.left == |w.q|
  {
    if lv.edges == NUM_NODES - 1 {
      LastRound(g, s, w, lv);
    }
    lv' := Level(lv.edges + 1, |w.q|, (set v | v in lv.order), lv.order);
    forall p | Walk(g, p) && p[0] == s && |p| <= lv'.edges + 1 && ShortestDistance(g, s, p[|p| - 1], Cost(g, p))
      ensures p[|p| - 1] in lv'.base
    {
      NextReached(g, s, w, lv, p);
    }
    forall k | 0 <= k < |w.q| ensures EntryAt(g, s, w, lv', k) {
      assert EntryAt(g, s, w, lv, k);
    }
  }

  /** One turn keeps the invariant and makes progress: it uses up an entry of its round, of
      which there are as many as nodes. */
  lemma TurnKeepsRound(g: Graph, s: int, w: Work, lv: Level) returns (lv': Level)
    requires Proper(g, s) && NoneFree(g, s) && Round(g, s, w, lv, NOBODY, 0) && w.q != []
    ensures Round(g, s, Turn(g, w), lv', NOBODY, 0)
    ensures lv'.edges > lv.edges || (lv'.edges == lv.edges && lv'.left < lv.left)
    ensures EntryOk(g, s, w.ns, w.q[0].iNode, w.q[0].iDist, lv'.edges)
  {
    var lv0 := lv;
    if lv.left == 0 {
      lv0 := NextRound(g, s, w, lv);
    }
    var e := w.q[0];
    var lv1 := RoundOpens(g, s, w, lv0);
    lv' := EdgesKeepRound(g, s, Work(w.ns, w.q[1..]), lv1, e.iNode, e.iDist, NUM_NODES);
    RoundCloses(g, s, Turn(g, w), lv', e.iNode, e.iDist);
  }

  lemma StartRound(g: Graph, s: int) returns (lv: Level)
    requires Proper(g, s) && NoneFree(g, s)
    ensures Round(g, s, Start(s), lv, NOBODY, 0)
  {
    var w := Start(s);
    lv := Level(0, 1, {s}, [s]);
    StartDistance(g, s);
    assert WalkOf(g, s, s, 0, 0);
    assert EntryAt(g, s, w, lv, 0);
    assert Final(g, s, w.ns, s) && w.q[0].iNode == s;
    assert Hung(g, w.ns, [s], 0);
    forall v | IsNode(v) ensures Final(g, s, w.ns, v) ==> v in [s] {
      assert v != s ==> w.ns[v].iDist == NONE && !ShortestDistance(g, s, v, NONE);
    }
  }

  /** Every state of the run is in some round. */
  lemma {:induction false} RunKeepsRound(g: Graph, s: int, k: nat) returns (lv: Level)
    requires Proper(g, s) && NoneFree(g, s)
    ensures Round(g, s, Run(g, s, k), lv, NOBODY, 0)
  {
    if k == 0 {
      lv := StartRound(g, s);
    } else {
      lv := RunKeepsRound(g, s, k - 1);
      if Run(g, s, k - 1).q != [] {
        lv := TurnKeepsRound(g, s, Run(g, s, k - 1), lv);
      }
    }
  }

  /** From every state of the run the queue empties. */
  lemma {:induction false} RunDrains(g: Graph, s: int, k: nat, lv: Level) returns (k': nat)
    requires Proper(g, s) && NoneFree(g, s) && Round(g, s, Run(g, s, k), lv, NOBODY, 0)
    ensures k' >= k && Run(g, s, k').q == []
    decreases NUM_NODES - lv.edges, lv.left
  {
    if Run(g, s, k).q == [] {
      k' := k;
    } else {
      var lv' := TurnKeepsRound(g, s, Run(g, s, k), lv);
      k' := RunDrains(g, s, k + 1, lv');
    }
  }

  // ---------- What a drained queue means ----------

  ghost predicate RightLabel(g: Graph, s: int, ns: seq<Label>, v: int)
    requires IsGraph(g) && IsNode(v) && |ns| == NUM_NODES
  {
    && (ns[v].iDist == NONE <==> Unreachable(g, s, v))
    && (ns[v].iDist != NONE ==> ShortestDistance(g, s, v, ns[v].iDist))
  }

  /** Every label is the distance of its node, or the sentinel exactly when there is none. */
  ghost predicate RightLabels(g: Graph, s: int, ns: seq<Label>)
    requires IsGraph(g)
  {
    |ns| == NUM_NODES && forall v {:trigger RightLabel(g, s, ns, v)} :: IsNode(v) ==> RightLabel(g, s, ns, v)
  }

  /** With the queue empty every shortest walk has been followed to its end. */
  lemma {:induction false} DrainedFinal(g: Graph, s: int, w: Work, lv: Level, p: seq<int>)
    requires Round(g, s, w, lv, NOBODY, 0) && w.q == []
    requires Walk(g, p) && p[0] == s && ShortestDistance(g, s, p[|p| - 1], Cost(g, p))
    ensures Final(g, s, w.ns, p[|p| - 1])
  {
    var v := p[|p| - 1];
    if |p| == 1 {
      assert s in lv.order;
    } else {
      var p', u := p[..|p| - 1], p[|p| - 2];
      assert WalkFromTo(g, p', s, u);
      ShortestBefore(g, s, u, v, Cost(g, p'));
      DrainedFinal(g, s, w, lv, p');
      SameDistance(g, s, u, w.ns[u].iDist, Cost(g, p'));
      assert Handled(g, s, w.ns, w.q, NOBODY, 0, u);
      assert TightTo(g, s, w.ns, u, v);
    }
  }

  lemma DrainedIsRight(g: Graph, s: int, w: Work, lv: Level)
    requires Proper(g, s) && NoneFree(g, s) && Round(g, s, w, lv, NOBODY, 0) && w.q == []
    ensures RightLabels(g, s, w.ns)
  {
    forall v | IsNode(v) ensures RightLabel(g, s, w.ns, v) {
      assert Sound(g, s, w.ns, v);
      if !Unreachable(g, s, v) {
        var r := ShortWalk(g, s, v);
        DrainedFinal(g, s, w, lv, r);
      }
    }
  }

  /** With the queue drained, every label is the true shortest distance, and it is
      the sentinel exactly at the nodes no walk reaches. */
  lemma FinalLabelsAreShortest(g: Graph, s: int, k: nat, v: int)
    requires Proper(g, s) && NoneFree(g, s) && Run(g, s, k).q == [] && IsNode(v)
    ensures Run(g, s, k).ns[v].iDist == NONE <==> Unreachable(g, s, v)
    ensures Run(g, s, k).ns[v].iDist != NONE ==> ShortestDistance(g, s, v, Run(g, s, k).ns[v].iDist)
  {
    var lv := RunKeepsRound(g, s, k);
    DrainedIsRight(g, s, Run(g, s, k), lv);
    assert RightLabel(g, s, Run(g, s, k).ns, v);
  }

  /** The search ends with the right labels exactly when no node lies at the distance that
      stands for "not reached". */
  lemma RightExactlyWhenNoneFree(g: Graph, s: int)
    requires Proper(g, s)
    ensures (exists k: nat :: Run(g, s, k).q == [] && RightLabels(g, s, Run(g, s, k).ns)) <==> NoneFree(g, s)
  {
    if NoneFree(g, s) {
      var lv := StartRound(g, s);
      var k := RunDrains(g, s, 0, lv);
      var lv' := RunKeepsRound(g, s, k);
      DrainedIsRight(g, s, Run(g, s, k), lv');
    } else {
      var v :| IsNode(v) && ShortestDistance(g, s, v, NONE);
      forall k: nat ensures !RightLabels(g, s, Run(g, s, k).ns) {
        NoRightLabel(g, s, Run(g, s, k).ns, v);
      }
    }
  }

  lemma NoRightLabel(g: Graph, s: int, ns: seq<Label>, v: int)
    requires IsGraph(g) && |ns| == NUM_NODES && IsNode(v) && ShortestDistance(g, s, v, NONE)
    ensures !RightLabels(g, s, ns)
  {
    if RightLabel(g, s, ns, v) && ns[v].iDist != NONE {
      SameDistance(g, s, v, NONE, ns[v].iDist);
    }
  }

  ghost predicate AllSettled(g: Graph, s: int, ns: seq<Label>)
    requires IsGraph(g)
  {
    && |ns| == NUM_NODES && Reached(ns, s) && ns[s].iDist == 0
    && forall u :: Reached(ns, u) ==> Settled(g, ns, u, ns[u].iDist, NUM_NODES)
  }

  lemma RightIsSettled(g: Graph, s: int, ns: seq<Label>)
    requires Proper(g, s) && RightLabels(g, s, ns) && ns[s].iDist == 0
    ensures AllSettled(g, s, ns)
  {
    forall u, w | Reached(ns, u) && IsNode(w) && Edge(g, u, w)
      ensures Reached(ns, w) && ns[w].iDist <= ns[u].iDist + g[u][w]
    {
      assert RightLabel(g, s, ns, u) && RightLabel(g, s, ns, w);
      var p :| WalkFromTo(g, p, s, u) && Cost(g, p) == ns[u].iDist;
      ExtendWalk(g, p, w);
      assert WalkFromTo(g, p + [w], s, w);
    }
  }

  /** A chain of links from a final node goes back in the order in which labels became final. */
  lemma {:induction false} ChainGoesBack(g: Graph, ns: seq<Label>, order: seq<int>, p: seq<int>, j: nat)
    requires IsGraph(g) && PrevChain(ns, p) && |p| >= 2 && j < |order| && p[0] == order[j]
    requires forall k {:trigger Hung(g, ns, order, k)} :: 0 <= k < |order| ==> Hung(g, ns, order, k)
    ensures p[|p| - 1] in order[..j]
  {
    assert Hung(g, ns, order, j) && PrevChain(ns, p[1..]);
    var m :| 0 <= m < j && order[..j][m] == p[1];
    if |p| > 2 {
      ChainGoesBack(g, ns, order, p[1..], m);
      var i :| 0 <= i < m && order[..m][i] == p[|p| - 1];
      assert order[..j][i] == p[|p| - 1];
    }
  }

  /** In the end every link is tight and the links form no cycle. */
  lemma DrainedIsLinked(g: Graph, s: int, w: Work, lv: Level)
    requires Proper(g, s) && NoneFree(g, s) && Round(g, s, w, lv, NOBODY, 0) && w.q == []
    ensures PrevOk(g, s, w.ns) && NoPrevCycle(w.ns) && AllSettled(g, s, w.ns)
  {
    var ns := w.ns;
    DrainedIsRight(g, s, w, lv);
    assert Hung(g, ns, lv.order, 0);
    RightIsSettled(g, s, ns);
    forall v | IsNode(v) ensures LinkOk(g, s, ns, v) && (ns[v].iPrev != NONE ==> v in lv.order) {
      DrainedLink(g, s, w, lv, v);
    }
    forall p | PrevChain(ns, p) && |p| >= 2 ensures p[0] != p[|p| - 1] {
      assert IsNode(p[1]) && p[0] in lv.order by {
        assert PrevChain(ns, p[1..]);
      }
      var j :| 0 <= j < |lv.order| && lv.order[j] == p[0];
      ChainGoesBack(g, ns, lv.order, p, j);
      assert Hung(g, ns, lv.order, j);
    }
  }

  lemma DrainedLink(g: Graph, s: int, w: Work, lv: Level, v: int)
    requires Proper(g, s) && NoneFree(g, s) && Round(g, s, w, lv, NOBODY, 0) && RightLabels(g, s, w.ns) && IsNode(v)
    ensures LinkOk(g, s, w.ns, v) && (w.ns[v].iPrev != NONE ==> v in lv.order)
  {
    var ns := w.ns;
    assert RightLabel(g, s, ns, v) && Sound(g, s, ns, v);
    assert Hung(g, ns, lv.order, 0);
    if ns[v].iDist != NONE {
      assert Final(g, s, ns, v);
      var j :| 0 <= j < |lv.order| && lv.order[j] == v;
      assert Hung(g, ns, lv.order, j);
      if j > 0 {
        var u := ns[v].iPrev;
        var m :| 0 <= m < j && lv.order[..j][m] == u;
        assert lv.order[m] == u && u in lv.order;
      }
    }
  }

  // ---------- Sums that fit an int ----------

  /** Walks of at most as many edges as there are nodes fit an int. */
  ghost predicate WalksFit(g: Graph, s: int)
    requires IsGraph(g)
  {
    forall p {:trigger Walk(g, p)} :: Walk(g, p) && p[0] == s && |p| <= NUM_NODES + 1 ==> Cost(g, p) <= INT_MAX
  }

  /** Either test on the graph keeps the sums of the search from overflowing. */
  ghost predicate SumsFit(g: Graph, s: int)
    requires IsGraph(g)
  {
    WalksFit(g, s) || Admissible(g, s)
  }

  /** The sums formed while expanding a dequeued entry, stale or not, fit an int. */
  lemma EntryFits(g: Graph, s: int, k: nat)
    requires Proper(g, s) && NoneFree(g, s) && SumsFit(g, s) && Run(g, s, k).q != []
    ensures var e := Run(g, s, k).q[0]; IsNode(e.iNode) && e.iDist >= 0 && StepsFit(g, e.iNode, e.iDist)
  {
    var w := Run(g, s, k);
    var e := w.q[0];
    var lv := RunKeepsRound(g, s, k);
    var lv' := TurnKeepsRound(g, s, w, lv);
    var p :| WalkFromTo(g, p, s, e.iNode) && Cost(g, p) == e.iDist && |p| == lv'.edges + 1;
    CostNonNegative(g, s, p);
    if Admissible(g, s) {
      var st := RunKeeps(g, s, k);
      assert Witness(g, s, w.ns, st.qw[0], e.iNode, e.iDist);
      assert PathFits(g, s, st.qw[0]);
    } else {
      forall v | Edge(g, e.iNode, v) ensures e.iDist + g[e.iNode][v] <= INT_MAX {
        ExtendWalk(g, p, v);
        assert Walk(g, p + [v]);
      }
    }
  }

  /** What a turn of the outer loop needs and keeps. */
  lemma NextTurn(g: Graph, s: int, k: nat, w: Work, lv: Level) returns (lv': Level)
    requires Proper(g, s) && NoneFree(g, s) && SumsFit(g, s)
    requires w == Run(g, s, k) && Round(g, s, w, lv, NOBODY, 0) && w.q != []
    ensures Run(g, s, k + 1) == Turn(g, w) && Round(g, s, Turn(g, w), lv', NOBODY, 0)
    ensures lv'.edges > lv.edges || (lv'.edges == lv.edges && lv'.left < lv.left)
    ensures IsNode(w.q[0].iNode) && w.q[0].iDist >= 0 && StepsFit(g, w.q[0].iNode, w.q[0].iDist)
  {
    lv' := TurnKeepsRound(g, s, w, lv);
    EntryFits(g, s, k);
  }

  lemma AdmissibleIsNoneFree(g: Graph, s: int)
    requires Admissible(g, s)
    ensures NoneFree(g, s)
  {
    forall v | IsNode(v) ensures !ShortestDistance(g, s, v, NONE) {
      if ShortestDistance(g, s, v, NONE) {
        var p :| WalkFromTo(g, p, s, v) && Cost(g, p) == NONE;
        var r := SimplerWalk(g, s, p);
        assert PathFits(g, s, r);
        assert WalkFromTo(g, r, s, v);
      }
    }
  }

  // ---------- A search that never ends ----------

  /** Two nodes at distance 9999 with edges of cost zero between them. */
  function LoopCost(u: int, v: int): int {
    if u == 0 && v == 1 then 5000
    else if u == 1 && v == 2 then 4999
    else if (u == 2 && v == 3) || (u == 3 && v == 2) then 0
    else NONE
  }

  function LoopGraph(): (g: Graph)
    ensures IsGraph(g) && forall u, v :: IsNode(u) && IsNode(v) ==> g[u][v] == LoopCost(u, v)
  {
    seq(NUM_NODES, u => seq(NUM_NODES, v => LoopCost(u, v)))
  }

  lemma {:induction false} OnlyEdge(g: Graph, w: Work, n: int, d: int, t: int, i: nat)
    requires IsGraph(g) && |w.ns| == NUM_NODES && IsNode(t) && i <= NUM_NODES
    requires forall v :: Edge(g, n, v) ==> v == t
    ensures RelaxBelow(g, w, n, d, i) == if i > t then RelaxEdge(g, w, n, d, t) else w
  {
    if i > 0 {
      OnlyEdge(g, w, n, d, t, i - 1);
    }
  }

  /** Either node of the loop is about to put the other back into the queue. */
  ghost predicate InLoop(w: Work) {
    && |w.ns| == NUM_NODES && w.ns[2].iDist == NONE && w.ns[3].iDist == NONE
    && |w.q| == 1 && (w.q[0].iNode == 2 || w.q[0].iNode == 3) && w.q[0].iDist == NONE
  }

  lemma LoopTurns(w: Work)
    requires InLoop(w)
    ensures InLoop(Turn(LoopGraph(), w))
  {
    var n := w.q[0].iNode;
    OnlyEdge(LoopGraph(), Work(w.ns, w.q[1..]), n, NONE, 5 - n, NUM_NODES);
  }

  lemma LoopFirstTurn(w: Work)
    requires w == Start(0)
    ensures var w' := Turn(LoopGraph(), w);
      w'.q == [Entry(1, 5000, 0)] && w'.ns[2].iDist == NONE && w'.ns[3].iDist == NONE
  {
    OnlyEdge(LoopGraph(), Work(w.ns, w.q[1..]), 0, 0, 1, NUM_NODES);
  }

  lemma LoopSecondTurn(w: Work)
    requires |w.ns| == NUM_NODES && w.q == [Entry(1, 5000, 0)]
    requires w.ns[2].iDist == NONE && w.ns[3].iDist == NONE
    ensures InLoop(Turn(LoopGraph(), w))
  {
    OnlyEdge(LoopGraph(), Work(w.ns, w.q[1..]), 1, 5000, 2, NUM_NODES);
  }

  lemma {:induction false} LoopGoesOn(k: nat)
    ensures k == 1 ==> var w := Run(LoopGraph(), 0, k);
      w.q == [Entry(1, 5000, 0)] && w.ns[2].iDist == NONE && w.ns[3].iDist == NONE
    ensures k >= 2 ==> InLoop(Run(LoopGraph(), 0, k))
    ensures Run(LoopGraph(), 0, k).q != []
  {
    if k > 0 {
      var w := Run(LoopGraph(), 0, k - 1);
      LoopGoesOn(k - 1);
      if k == 1 {
        LoopFirstTurn(w);
      } else if k == 2 {
        LoopSecondTurn(w);
      } else {
        LoopTurns(w);
      }
    }
  }

  /** On a legal input the outer loop goes on for ever: non-negative costs and small sums, but
      nodes at distance 9999 that look unreached however often they are labelled. */
  lemma SearchNeverEnds()
    ensures Proper(LoopGraph(), 0) && WalksFit(LoopGraph(), 0) && !NoneFree(LoopGraph(), 0)
    ensures forall k: nat :: Run(LoopGraph(), 0, k).q != []
  {
    forall k: nat ensures Run(LoopGraph(), 0, k).q != [] {
      LoopGoesOn(k);
    }
    ModestCostsFit(LoopGraph(), 0);
    if NoneFree(LoopGraph(), 0) {
      var lv := StartRound(LoopGraph(), 0);
      var k := RunDrains(LoopGraph(), 0, 0, lv);
    }
  }


  // ---------- The linked queue ----------

  class QItem {
    var iNode: int
    var iDist: int
    var iPrev: int
    var qNext: QItem?

    constructor (iNode: int, iDist: int, iPrev: int)
      ensures this.iNode == iNode && this.iDist == iDist && this.iPrev == iPrev && qNext == null
    {
      this.iNode, this.iDist, this.iPrev, qNext := iNode, iDist, iPrev, null;
    }
  }

  class Queue {
    var qHead: QItem?
    var g_qCount: int
    ghost var spine: seq<QItem>
    ghost var Repr: set<QItem>
    ghost var Contents: seq<Entry>

    ghost predicate Valid()
      reads this, Repr
    {
      && (forall x :: x in spine ==> x in Repr)
      && g_qCount == |spine| == |Contents|
      && qHead == (if spine == [] then null else spine[0])
      && (forall j, k :: 0 <= j < k < |spine| ==> spine[j] != spine[k])
      && (forall k {:trigger spine[k].qNext} :: 0 <= k < |spine| - 1 ==> spine[k].qNext == spine[k + 1])
      && (spine != [] ==> spine[|spine| - 1].qNext == null)
      && (forall k :: 0 <= k < |spine| ==>
            Contents[k] == Entry(spine[k].iNode, spine[k].iDist, spine[k].iPrev))
    }

    constructor ()
      ensures Valid() && Contents == [] && Repr == {}
    {
      qHead, g_qCount, spine, Contents, Repr := null, 0, [], [], {};
    }

    method Enqueue(iNode: int, iDist: int, iPrev: int)
      requires Valid()
      modifies this, Repr
      ensures Valid() && Contents == old(Contents) + [Entry(iNode, iDist, iPrev)]
      ensures fresh(Repr - old(Repr))
    {
      var qNew := new QItem(iNode, iDist, iPrev);
      var qLast := qHead;
      if qLast == null {
        qHead := qNew;
      } else {
        ghost var k := 0;
        while qLast.qNext != null
          invariant Valid() && 0 <= k < |spine| && qLast == spine[k]
          decreases |spine| - k
        {
          assert spine[k].qNext == qLast.qNext;
          qLast := qLast.qNext;
          k := k + 1;
        }
        qLast.qNext := qNew;
      }
      g_qCount := g_qCount + 1;
      spine, Repr := spine + [qNew], Repr + {qNew};
      Contents := Contents + [Entry(iNode, iDist, iPrev)];
    }

    /** The first entry; with an empty queue the variables keep their values. */
    method Dequeue(node: int, dist: int, prev: int) returns (iNode: int, iDist: int, iPrev: int)
      requires Valid()
      modifies this
      ensures Valid() && Repr == old(Repr)
      ensures Contents == if old(Contents) == [] then [] else old(Contents)[1..]
      ensures Entry(iNode, iDist, iPrev) == if old(Contents) == [] then Entry(node, dist, prev) else old(Contents)[0]
    {
      iNode, iDist, iPrev := node, dist, prev;
      if qHead != null {
        iNode, iDist, iPrev := qHead.iNode, qHead.iDist, qHead.iPrev;
        qHead := qHead.qNext;
        g_qCount := g_qCount - 1;
        spine := spine[1..];
        Contents := Contents[1..];
      }
    }
  }

  // ---------- Reading a path off the iPrev links ----------

  lemma {:induction false} ChainEnd(ns: seq<Label>, p: seq<int>, v: int)
    requires PrevChain(ns, p) && IsNode(v) && IsNode(p[|p| - 1]) && ns[p[|p| - 1]].iPrev == v
    ensures PrevChain(ns, p + [v])
  {
    if |p| > 1 {
      ChainEnd(ns, p[1..], v);
      assert (p + [v])[1..] == p[1..] + [v];
    } else {
      assert (p + [v])[1..] == [v];
    }
  }

  lemma {:induction false} ChainPart(ns: seq<Label>, p: seq<int>, j: int, k: int)
    requires PrevChain(ns, p) && 0 <= j <= k < |p|
    ensures PrevChain(ns, p[j..k + 1]) && IsNode(p[k])
  {
    if j > 0 {
      ChainPart(ns, p[1..], j - 1, k - 1);
      assert p[1..][j - 1..k] == p[j..k + 1];
    } else if k > 0 {
      ChainPart(ns, p[1..], 0, k - 1);
      assert p[0..k + 1][1..] == p[1..][0..k];
    }
  }

  lemma {:induction false} SimpleIsShort(p: seq<int>, bound: nat)
    requires Simple(p) && forall v :: v in p ==> 0 <= v < bound
    requires p == [] || bound > 0
    ensures |p| <= bound
  {
    if bound > 0 && bound - 1 in p {
      var k :| 0 <= k < |p| && p[k] == bound - 1;
      var t := p[..k] + p[k + 1..];
      assert forall j :: 0 <= j < |t| ==> t[j] == p[if j < k then j else j + 1];
      forall v | v in t ensures 0 <= v < bound - 1 {
        var j :| 0 <= j < |t| && t[j] == v;
        var j' := if j < k then j else j + 1;
        assert v == p[j'] && p[j'] in p && j' != k;
      }
      assert t != [] ==> t[0] in t;
      SimpleIsShort(t, bound - 1);
    } else if bound > 0 {
      assert p != [] ==> p[0] in p;
      SimpleIsShort(p, bound - 1);
    }
  }

  /** Without iPrev cycles no chain is longer than the number of nodes. */
  lemma ChainIsShort(ns: seq<Label>, p: seq<int>)
    requires PrevChain(ns, p) && NoPrevCycle(ns)
    ensures Simple(p) && |p| <= NUM_NODES
  {
    forall j, k | 0 <= j < k < |p| ensures p[j] != p[k] {
      ChainPart(ns, p, j, k);
      var c := p[j..k + 1];
      assert c[0] == p[j] && c[|c| - 1] == p[k];
    }
    forall v | v in p ensures 0 <= v < NUM_NODES {
      var k :| 0 <= k < |p| && p[k] == v;
      ChainPart(ns, p, k, k);
    }
    SimpleIsShort(p, NUM_NODES);
  }

  /** A test on the single edges that makes every graph admissible: a simple path
      has at most 99 edges, and 99 times 100 stays below the sentinel. */
  lemma SmallCostsAreAdmissible(g: Graph, s: int)
    requires IsGraph(g) && IsNode(s) && EdgesAtMost(g, 100)
    ensures Admissible(g, s)
  {
    forall p ensures PathFits(g, s, p) {
      if Walk(g, p) && Simple(p) {
        WalkAtMost(g, p, 100);
        SimpleWalkIsShort(g, p);
      }
    }
  }

  /** A test on the single edges that keeps the sums of every search from overflowing. */
  lemma ModestCostsFit(g: Graph, s: int)
    requires IsGraph(g) && IsNode(s) && EdgesAtMost(g, INT_MAX / NUM_NODES)
    ensures WalksFit(g, s)
  {
    forall p | Walk(g, p) && p[0] == s && |p| <= NUM_NODES + 1 ensures Cost(g, p) <= INT_MAX {
      WalkAtMost(g, p, INT_MAX / NUM_NODES);
    }
  }

  ghost predicate EdgesAtMost(g: Graph, bound: nat)
    requires IsGraph(g)
  {
    forall u, v :: IsNode(u) && IsNode(v) ==> 0 <= g[u][v] <= bound || g[u][v] == NONE
  }

  lemma {:induction false} WalkAtMost(g: Graph, p: seq<int>, bound: nat)
    requires IsGraph(g) && Walk(g, p) && EdgesAtMost(g, bound)
    ensures Cost(g, p) <= bound * (|p| - 1)
  {
    if |p| > 1 {
      WalkAtMost(g, p[..|p| - 1], bound);
      assert bound * (|p| - 2) + bound == bound * (|p| - 1);
    }
  }

  /** Prints the nodes from the start to `chNode`; the printed list is returned. */
  method PrintPath(g: Graph, rgnNodes: array<Label>, chNode: int, ghost s: int, ghost below: seq<int>)
    returns (printed: seq<int>)
    requires rgnNodes.Length == NUM_NODES && IsNode(s) && IsNode(chNode)
    requires IsGraph(g) && AllSettled(g, s, rgnNodes[..]) && PrevOk(g, s, rgnNodes[..]) && NoPrevCycle(rgnNodes[..])
    requires PrevChain(rgnNodes[..], below + [chNode])
    ensures rgnNodes[chNode].iDist == NONE ==> printed == [chNode]
    ensures rgnNodes[chNode].iDist != NONE ==>
      WalkFromTo(g, printed, s, chNode) && Cost(g, printed) == rgnNodes[chNode].iDist
    decreases NUM_NODES - |below|
  {
    printed := [];
    ghost var ns := rgnNodes[..];
    assert LinkOk(g, s, ns, chNode);
    ChainIsShort(ns, below + [chNode]);
    if rgnNodes[chNode].iPrev != NONE {
      ghost var u := ns[chNode].iPrev;
      assert Edge(g, u, chNode) && Settled(g, ns, u, ns[u].iDist, NUM_NODES);
      ChainEnd(ns, below + [chNode], u);
      printed := PrintPath(g, rgnNodes, rgnNodes[chNode].iPrev, s, below + [chNode]);
      ExtendWalk(g, printed, chNode);
    }
    printed := printed + [chNode];
  }

  // ---------- The search ----------

  datatype Report = StayWhereYouAre | PathFound(cost: int, path: seq<int>)

  class Search {
    const AdjMatrix: Graph
    const rgnNodes: array<Label>
    const queue: Queue

    ghost predicate Ready()
      reads queue, queue.Repr
    {
      IsGraph(AdjMatrix) && rgnNodes.Length == NUM_NODES && queue.Valid() && queue.Contents == []
    }

    constructor (adj: Graph)
      requires IsGraph(adj)
      ensures Ready() && AdjMatrix == adj
    {
      AdjMatrix := adj;
      rgnNodes := new Label[NUM_NODES](_ => Label(NONE, NONE));
      var q := new Queue();
      queue := q;
    }

    ghost function Now(): Work
      reads rgnNodes, queue
    {
      Work(rgnNodes[..], queue.Contents)
    }

    /** Gives node `i` a better label and puts it in the queue. */
    method Relabel(i: int, iDist: int, iPrev: int)
      requires IsNode(i) && rgnNodes.Length == NUM_NODES && queue.Valid()
      modifies rgnNodes, queue, queue.Repr
      ensures queue.Valid() && fresh(queue.Repr - old(queue.Repr))
      ensures Now() == Work(old(rgnNodes[..])[i := Label(iDist, iPrev)], old(queue.Contents) + [Entry(i, iDist, iPrev)])
    {
      queue.Enqueue(i, iDist, iPrev);
      rgnNodes[i] := Label(iDist, iPrev);
    }

    /** Relaxes every edge out of one dequeued entry. */
    method Expand(iNode: int, iDist: int)
      requires IsGraph(AdjMatrix) && rgnNodes.Length == NUM_NODES && queue.Valid()
      requires IsNode(iNode) && iDist >= 0 && StepsFit(AdjMatrix, iNode, iDist)
      modifies rgnNodes, queue, queue.Repr
      ensures queue.Valid() && fresh(queue.Repr - old(queue.Repr))
      ensures Now() == RelaxBelow(AdjMatrix, old(Now()), iNode, iDist, NUM_NODES)
    {
      for i := 0 to NUM_NODES
        invariant queue.Valid() && fresh(queue.Repr - old(queue.Repr))
        invariant Now() == RelaxBelow(AdjMatrix, old(Now()), iNode, iDist, i)
      {
        var iCost := AdjMatrix[iNode][i];
        if iCost != NONE {
          assert Edge(AdjMatrix, iNode, i);
          assert iDist + iCost <= INT_MAX;
          if NONE == rgnNodes[i].iDist || rgnNodes[i].iDist > iCost + iDist {
            Relabel(i, iDist + iCost, iNode);
          }
        }
      }
    }

    /** Dequeues and expands until the queue is empty. */
    method Drain(chStart: int) returns (ghost k: nat, ghost lv: Level)
      requires IsGraph(AdjMatrix) && Proper(AdjMatrix, chStart)
      requires NoneFree(AdjMatrix, chStart) && SumsFit(AdjMatrix, chStart)
      requires rgnNodes.Length == NUM_NODES && queue.Valid() && Now() == Run(AdjMatrix, chStart, 0)
      modifies rgnNodes, queue, queue.Repr
      ensures queue.Valid() && queue.Contents == []
      ensures Now() == Run(AdjMatrix, chStart, k) && Round(AdjMatrix, chStart, Now(), lv, NOBODY, 0)
    {
      k := 0;
      lv := StartRound(AdjMatrix, chStart);
      var iNode, iDist, iPrev := 0, 0, 0;
      while queue.g_qCount > 0
        invariant queue.Valid() && fresh(queue.Repr - old(queue.Repr))
        invariant Now() == Run(AdjMatrix, chStart, k) && Round(AdjMatrix, chStart, Now(), lv, NOBODY, 0)
        decreases NUM_NODES - lv.edges, lv.left
      {
        lv := NextTurn(AdjMatrix, chStart, k, Now(), lv);
        iNode, iDist, iPrev := queue.Dequeue(iNode, iDist, iPrev);
        Expand(iNode, iDist);
        k := k + 1;
      }
    }

    method Dijkstra(chStart: int, chEnd: int) returns (r: Report)
      requires Ready() && IsNode(chStart) && IsNode(chEnd)
      requires chStart != chEnd ==>
        Proper(AdjMatrix, chStart) && NoneFree(AdjMatrix, chStart) && SumsFit(AdjMatrix, chStart)
      modifies rgnNodes, queue, queue.Repr
      ensures Ready()
      ensures chStart == chEnd ==> r == StayWhereYouAre
      ensures chStart == chEnd ==> forall v :: 0 <= v < 100 ==> rgnNodes[v] == Label(9999, 9999)
      ensures chStart != chEnd ==> forall v :: 0 <= v < 100 ==>
        && (rgnNodes[v].iDist == 9999 <==> Unreachable(AdjMatrix, chStart, v))
        && (rgnNodes[v].iDist != 9999 ==> ShortestDistance(AdjMatrix, chStart, v, rgnNodes[v].iDist))
      ensures chStart != chEnd ==> PrevOk(AdjMatrix, chStart, rgnNodes[..]) && NoPrevCycle(rgnNodes[..])
      ensures chStart != chEnd ==>
        && r.PathFound? && r.cost == rgnNodes[chEnd].iDist
        && (if r.cost == 9999 then r.path == [chEnd]
            else WalkFromTo(AdjMatrix, r.path, chStart, chEnd) && Cost(AdjMatrix, r.path) == r.cost)
    {
      for ch := 0 to NUM_NODES
        modifies rgnNodes
        invariant forall v :: 0 <= v < ch ==> rgnNodes[v] == Label(NONE, NONE)
      {
        rgnNodes[ch] := Label(NONE, NONE);
      }
      if chStart == chEnd {
        return StayWhereYouAre;
      }
      Relabel(chStart, 0, NONE);
      assert Now() == Start(chStart);
      ghost var k, lv := Drain(chStart);
      forall v | IsNode(v)
        ensures rgnNodes[v].iDist == NONE <==> Unreachable(AdjMatrix, chStart, v)
        ensures rgnNodes[v].iDist != NONE ==> ShortestDistance(AdjMatrix, chStart, v, rgnNodes[v].iDist)
      {
        FinalLabelsAreShortest(AdjMatrix, chStart, k, v);
      }
      DrainedIsLinked(AdjMatrix, chStart, Now(), lv);
      var path := PrintPath(AdjMatrix, rgnNodes, chEnd, chStart, []);
      r := PathFound(rgnNodes[chEnd].iDist, path);
    }
  }
}
