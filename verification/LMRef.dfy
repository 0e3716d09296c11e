/** Assigning scratchpad reference indices to functions, src/LMStoreLLVM.cpp: a first-fit
    colouring of the symmetric call graph with a fixed number of colours. */
module LMRef {

  const NUM_ENTRIES := 64

  /** A node of the graph; index 0 means none assigned. */
  datatype Block = Block(edges: set<string>, numberOfEdges: nat, lmrefIndex: int)

  type Graph = map<string, Block>

  const NEW_BLOCK: Block := Block({}, 0, 0)

  function Node(g: Graph, a: string): Block {
    if a in g then g[a] else NEW_BLOCK
  }

  function Index(g: Graph, a: string): int {
    Node(g, a).lmrefIndex
  }

  // ---------- Building the graph ----------

  /** graphGen: `edge` becomes a neighbour of `id`. */
  function WithEdge(g: Graph, id: string, edge: string): Graph {
    var b := Node(g, id);
    g[id := b.(edges := b.edges + {edge}, numberOfEdges := b.numberOfEdges + 1)]
  }

  /** The functions that one function calls, each once. */
  datatype Calls = Calls(caller: string, callees: seq<string>)

  type Pairs = set<(string, string)>

  function PairsOf(caller: string, callees: seq<string>): Pairs {
    set v | v in callees :: (caller, v)
  }

  /** Caller and callee of every call. */
  function AllPairs(cs: seq<Calls>): Pairs {
    if cs == [] then {}
    else AllPairs(cs[..|cs| - 1]) + PairsOf(cs[|cs| - 1].caller, cs[|cs| - 1].callees)
  }

  /** Two nodes are neighbours exactly when one calls the other. */
  ghost predicate EdgesAre(g: Graph, r: Pairs) {
    forall a, b {:trigger b in Node(g, a).edges} :: b in Node(g, a).edges <==> (a, b) in r || (b, a) in r
  }

  ghost predicate NoIndices(g: Graph) {
    forall a {:trigger Index(g, a)} :: Index(g, a) == 0
  }

  function CalleesOf(r: Pairs, a: string): set<string> {
    set p | p in r && p.0 == a :: p.1
  }

  function CallersOf(r: Pairs, a: string): set<string> {
    set p | p in r && p.1 == a :: p.0
  }

  /** Every insertion is counted: one for each callee and one for each caller. */
  ghost predicate CountsAre(g: Graph, r: Pairs) {
    forall a {:trigger Node(g, a)} :: Node(g, a).numberOfEdges == |CalleesOf(r, a)| + |CallersOf(r, a)|
  }

  /** The calls of one function, each callee once. */
  predicate OnceEach(callees: seq<string>) {
    forall i, j :: 0 <= i < j < |callees| ==> callees[i] != callees[j]
  }

  /** Every function is visited once, and its callees once each. */
  predicate Distinct(cs: seq<Calls>) {
    && (forall i, j :: 0 <= i < j < |cs| ==> cs[i].caller != cs[j].caller)
    && (forall i :: 0 <= i < |cs| ==> OnceEach(cs[i].callees))
  }

  ghost predicate Symmetric(g: Graph) {
    forall a, b {:trigger b in Node(g, a).edges} :: b in Node(g, a).edges ==> a in Node(g, b).edges
  }

  lemma EdgeAt(g: Graph, id: string, edge: string, a: string)
    ensures Node(WithEdge(g, id, edge), a).edges == Node(g, a).edges + if a == id then {edge} else {}
    ensures Index(WithEdge(g, id, edge), a) == Index(g, a)
    ensures Node(WithEdge(g, id, edge), a).numberOfEdges == Node(g, a).numberOfEdges + if a == id then 1 else 0
  {
  }

  /** A call puts each of the two functions among the other's neighbours. */
  lemma CallAdds(g: Graph, r: Pairs, f: string, v: string)
    requires EdgesAre(g, r)
    ensures EdgesAre(WithEdge(WithEdge(g, f, v), v, f), r + {(f, v)})
  {
    var g1 := WithEdge(g, f, v);
    var g2 := WithEdge(g1, v, f);
    forall a, b ensures b in Node(g2, a).edges <==> (a, b) in r + {(f, v)} || (b, a) in r + {(f, v)} {
      EdgeAt(g, f, v, a);
      EdgeAt(g1, v, f, a);
    }
  }

  lemma EdgeKeeps(g: Graph, id: string, edge: string)
    requires NoIndices(g)
    ensures NoIndices(WithEdge(g, id, edge))
  {
    var t := WithEdge(g, id, edge);
    forall a ensures Index(t, a) == 0 {
      EdgeAt(g, id, edge, a);
      assert Index(g, a) == 0;
    }
  }

  lemma Related(r: Pairs, a: string, v: string)
    ensures v in CalleesOf(r, a) <==> (a, v) in r
    ensures v in CallersOf(r, a) <==> (v, a) in r
  {
    assert (a, v) in r ==> (a, v).0 == a && (a, v).1 == v;
    assert (v, a) in r ==> (v, a).0 == v && (v, a).1 == a;
  }

  lemma OneMoreCallee(r: Pairs, f: string, v: string, a: string)
    requires (f, v) !in r
    ensures |CalleesOf(r + {(f, v)}, a)| == |CalleesOf(r, a)| + if a == f then 1 else 0
  {
    var before, after := CalleesOf(r, a), CalleesOf(r + {(f, v)}, a);
    forall u ensures u in after <==> u in before || (a == f && u == v) {
      Related(r, a, u);
      Related(r + {(f, v)}, a, u);
    }
    Related(r, f, v);
    assert after == if a == f then before + {v} else before;
  }

  lemma OneMoreCaller(r: Pairs, f: string, v: string, a: string)
    requires (f, v) !in r
    ensures |CallersOf(r + {(f, v)}, a)| == |CallersOf(r, a)| + if a == v then 1 else 0
  {
    var before, after := CallersOf(r, a), CallersOf(r + {(f, v)}, a);
    forall u ensures u in after <==> u in before || (a == v && u == f) {
      Related(r, a, u);
      Related(r + {(f, v)}, a, u);
    }
    Related(r, v, f);
    assert after == if a == v then before + {f} else before;
  }

  /** A new call adds one to the counts of both functions. */
  lemma CallCounts(g: Graph, r: Pairs, f: string, v: string)
    requires CountsAre(g, r) && (f, v) !in r
    ensures CountsAre(WithEdge(WithEdge(g, f, v), v, f), r + {(f, v)})
  {
    var g1 := WithEdge(g, f, v);
    var g2, r' := WithEdge(g1, v, f), r + {(f, v)};
    forall a ensures Node(g2, a).numberOfEdges == |CalleesOf(r', a)| + |CallersOf(r', a)| {
      EdgeAt(g, f, v, a);
      EdgeAt(g1, v, f, a);
      OneMoreCallee(r, f, v, a);
      OneMoreCaller(r, f, v, a);
    }
  }

  lemma SizeOfUnion(x: set<string>, y: set<string>)
    ensures |x| + |y| == |x + y| + |x * y|
  {
    assert x + y == x + (y - x) && y == (y - x) + x * y;
  }

  /** The count is that of the neighbours, plus one for each that both calls the function and
      is called by it. */
  lemma CountExceedsNeighbours(g: Graph, r: Pairs, a: string)
    requires EdgesAre(g, r) && CountsAre(g, r)
    ensures Node(g, a).numberOfEdges == |Node(g, a).edges| + |CalleesOf(r, a) * CallersOf(r, a)|
  {
    forall b ensures b in Node(g, a).edges <==> b in CalleesOf(r, a) + CallersOf(r, a) {
      Related(r, a, b);
    }
    assert Node(g, a).edges == CalleesOf(r, a) + CallersOf(r, a);
    SizeOfUnion(CalleesOf(r, a), CallersOf(r, a));
  }

  lemma RelationSymmetric(g: Graph, r: Pairs)
    requires EdgesAre(g, r)
    ensures Symmetric(g)
  {
  }

  // ---------- First fit ----------

  /** Some neighbour other than the node itself has the index. */
  ghost predicate Used(g: Graph, a: string, i: int) {
    exists e {:trigger Index(g, e)} :: e in Node(g, a).edges && e != a && Index(g, e) == i
  }

  ghost predicate AllUsed(g: Graph, a: string, i: int) {
    forall j {:trigger Used(g, a, j)} :: 1 <= j < i ==> Used(g, a, j)
  }

  /** The node has the least index that no neighbour has, or 0 when there is none. */
  ghost predicate Fits(g: Graph, a: string) {
    var i := Index(g, a);
    if i == 0 then AllUsed(g, a, NUM_ENTRIES)
    else 1 <= i < NUM_ENTRIES && !Used(g, a, i) && AllUsed(g, a, i)
  }

  function Assign(g: Graph, a: string, i: int): Graph {
    g[a := Node(g, a).(lmrefIndex := i)]
  }

  ghost predicate NoneHas(g: Graph, edges: set<string>, i: int) {
    forall e {:trigger Index(g, e)} :: e in edges ==> Index(g, e) != i
  }

  /** What holds while the pass runs: nodes already visited fit, the others have no index. */
  ghost predicate Progress(g: Graph, visited: set<string>) {
    && Symmetric(g)
    && (forall a {:trigger Fits(g, a)} :: a in visited ==> Fits(g, a))
    && (forall a {:trigger Index(g, a)} :: a !in visited ==> Index(g, a) == 0)
  }

  lemma AssignSame(g: Graph, a: string, i: int, b: string)
    ensures Node(Assign(g, a, i), b).edges == Node(g, b).edges
    ensures Index(Assign(g, a, i), b) == if b == a then i else Index(g, b)
  {
  }

  /** A safe index for an unvisited node leaves every visited one fitting. */
  lemma AssignKeeps(g: Graph, visited: set<string>, a: string, i: int, b: string)
    requires Progress(g, visited) && a !in visited && b in visited
    requires i == 0 || (1 <= i < NUM_ENTRIES && !Used(g, a, i))
    ensures Fits(Assign(g, a, i), b)
  {
    var t := Assign(g, a, i);
    assert Fits(g, b);
    AssignSame(g, a, i, b);
    forall j | 1 <= j < NUM_ENTRIES && Used(g, b, j) ensures Used(t, b, j) {
      var e :| e in Node(g, b).edges && e != b && Index(g, e) == j;
      AssignSame(g, a, i, e);
      assert Index(g, a) == 0;
    }
    forall e | e in Node(t, b).edges && e != b && Index(g, b) != 0 ensures Index(t, e) != Index(g, b) {
      AssignSame(g, a, i, e);
      assert b in Node(g, e).edges;
      if e == a {
        assert i == 0 || Index(g, b) != i;
      }
    }
  }

  /** The node just given its least safe index fits. */
  lemma AssignFits(g: Graph, visited: set<string>, a: string, i: int)
    requires Progress(g, visited) && a !in visited
    requires if i == 0 then AllUsed(g, a, NUM_ENTRIES) else 1 <= i < NUM_ENTRIES && !Used(g, a, i) && AllUsed(g, a, i)
    ensures Fits(Assign(g, a, i), a)
  {
    var t := Assign(g, a, i);
    AssignSame(g, a, i, a);
    forall j ensures Used(t, a, j) <==> Used(g, a, j) {
      if Used(g, a, j) {
        var e :| e in Node(g, a).edges && e != a && Index(g, e) == j;
        AssignSame(g, a, i, e);
      }
      if Used(t, a, j) {
        var e :| e in Node(t, a).edges && e != a && Index(t, e) == j;
        AssignSame(g, a, i, e);
      }
    }
  }

  lemma AssignProgress(g: Graph, visited: set<string>, a: string, i: int)
    requires Progress(g, visited) && a !in visited
    requires if i == 0 then AllUsed(g, a, NUM_ENTRIES) else 1 <= i < NUM_ENTRIES && !Used(g, a, i) && AllUsed(g, a, i)
    ensures Progress(Assign(g, a, i), visited + {a})
  {
    var t := Assign(g, a, i);
    forall b | b in visited + {a} ensures Fits(t, b) {
      if b == a {
        AssignFits(g, visited, a, i);
      } else {
        AssignKeeps(g, visited, a, i, b);
      }
    }
    forall b ensures Node(t, b).edges == Node(g, b).edges && (b !in visited + {a} ==> Index(t, b) == 0) {
      AssignSame(g, a, i, b);
    }
  }

  // ---------- What a finished pass means ----------

  ghost predicate Coloured(g: Graph) {
    Symmetric(g) && forall a {:trigger Fits(g, a)} :: a in g ==> Fits(g, a)
  }

  /** Different adjacent functions never share an index. */
  lemma AdjacentDiffer(g: Graph, a: string, b: string)
    requires Coloured(g) && a in g && b in Node(g, a).edges && a != b
    requires Index(g, a) != 0
    ensures Index(g, a) != Index(g, b)
  {
    assert Fits(g, a);
  }

  ghost predicate Has(g: Graph, s: set<string>, i: int) {
    exists e {:trigger Index(g, e)} :: e in s && Index(g, e) == i
  }

  /** Indices 1 to `n` used by some of the nodes `s` need at least `n` nodes. */
  lemma {:induction false} Pigeonhole(g: Graph, s: set<string>, n: nat)
    requires forall i {:trigger Has(g, s, i)} :: 1 <= i <= n ==> Has(g, s, i)
    ensures n <= |s|
  {
    if n > 0 {
      assert Has(g, s, n);
      var e :| e in s && Index(g, e) == n;
      forall i | 1 <= i <= n - 1 ensures Has(g, s - {e}, i) {
        assert Has(g, s, i);
        var d :| d in s && Index(g, d) == i;
        assert d in s - {e} && Index(g, d) == i;
      }
      Pigeonhole(g, s - {e}, n - 1);
    }
  }

  function Neighbours(g: Graph, a: string): set<string> {
    Node(g, a).edges - {a}
  }

  lemma UsedBound(g: Graph, a: string, n: nat)
    requires AllUsed(g, a, n + 1)
    ensures n <= |Neighbours(g, a)|
  {
    forall i | 1 <= i <= n ensures Has(g, Neighbours(g, a), i) {
      assert Used(g, a, i);
      var e :| e in Node(g, a).edges && e != a && Index(g, e) == i;
      assert e in Neighbours(g, a) && Index(g, e) == i;
    }
    Pigeonhole(g, Neighbours(g, a), n);
  }

  /** An index is at most one more than the number of neighbours. */
  lemma IndexBound(g: Graph, a: string)
    requires Coloured(g) && a in g
    ensures 0 <= Index(g, a) < 64 && Index(g, a) <= |Neighbours(g, a)| + 1
  {
    assert Fits(g, a);
    if Index(g, a) > 0 {
      UsedBound(g, a, Index(g, a) - 1);
    }
  }

  /** With at most 62 neighbours there is an index. */
  lemma FewNeighbours(g: Graph, a: string)
    requires Coloured(g) && a in g && |Neighbours(g, a)| <= 62
    ensures 1 <= Index(g, a) <= 63
  {
    assert Fits(g, a);
    IndexBound(g, a);
    if Index(g, a) == 0 {
      UsedBound(g, a, NUM_ENTRIES - 1);
    }
  }

  /** A node without neighbours gets index 1, also the one that stands for the module and
      was given index 0 before. */
  lemma IsolatedGetsOne(g: Graph, a: string)
    requires Coloured(g) && a in g && Neighbours(g, a) == {}
    ensures Index(g, a) == 1
  {
    FewNeighbours(g, a);
    IndexBound(g, a);
  }

  /** A function is left without an index exactly when its neighbours use all 63. */
  lemma NoIndexIff(g: Graph, a: string)
    requires Coloured(g) && a in g
    ensures Index(g, a) == 0 <==> forall i {:trigger Used(g, a, i)} :: 1 <= i <= 63 ==> Used(g, a, i)
  {
    assert Fits(g, a);
  }

  /** When no node has more than 62 neighbours, different adjacent functions always differ. */
  lemma AllDiffer(g: Graph, a: string, b: string)
    requires Coloured(g) && a in g && b in Node(g, a).edges && a != b
    requires |Neighbours(g, a)| <= 62
    ensures Index(g, a) != Index(g, b)
  {
    FewNeighbours(g, a);
    AdjacentDiffer(g, a, b);
  }

  lemma {:induction false} CallsListed(cs: seq<Calls>, a: string)
    requires forall i :: 0 <= i < |cs| ==> cs[i].caller != a
    ensures CalleesOf(AllPairs(cs), a) == {}
  {
    if cs != [] {
      var r := AllPairs(cs[..|cs| - 1]);
      CallsListed(cs[..|cs| - 1], a);
      forall v ensures v !in CalleesOf(AllPairs(cs), a) {
        Related(r, a, v);
        Related(AllPairs(cs), a, v);
      }
    }
  }

  /** No call has the name on either side. */
  predicate Unnamed(cs: seq<Calls>, a: string) {
    forall i :: 0 <= i < |cs| ==> cs[i].caller != a && a !in cs[i].callees
  }

  lemma {:induction false} NoPairNames(cs: seq<Calls>, a: string, b: string)
    requires Unnamed(cs, a)
    ensures (a, b) !in AllPairs(cs) && (b, a) !in AllPairs(cs)
  {
    if cs != [] {
      NoPairNames(cs[..|cs| - 1], a, b);
    }
  }

  /** The node of a name that no call has stands alone, and gets index 1. */
  lemma UnnamedGetsOne(g: Graph, cs: seq<Calls>, a: string)
    requires Coloured(g) && EdgesAre(g, AllPairs(cs)) && a in g && Unnamed(cs, a)
    ensures Index(g, a) == 1
  {
    forall b ensures b !in Node(g, a).edges {
      NoPairNames(cs, a, b);
    }
    IsolatedGetsOne(g, a);
  }

  /** A function that is visited once has no calls listed before. */
  lemma NoCallsYet(cs: seq<Calls>, i: nat)
    requires Distinct(cs) && i < |cs|
    ensures CalleesOf(AllPairs(cs[..i]), cs[i].caller) == {} && OnceEach(cs[i].callees)
  {
    CallsListed(cs[..i], cs[i].caller);
  }

  // ---------- The pass ----------

  class Pass {
    var big: Graph

    method GraphGen(id: string, edge: string)
      modifies this
      ensures big == WithEdge(old(big), id, edge)
    {
      var b := if id in big then big[id] else NEW_BLOCK;
      big := big[id := b.(edges := b.edges + {edge}, numberOfEdges := b.numberOfEdges + 1)];
    }

    /** One call: an edge in each direction. */
    method AddCall(f: string, v: string, ghost r: Pairs)
      requires EdgesAre(big, r) && NoIndices(big)
      modifies this
      ensures EdgesAre(big, r + {(f, v)}) && NoIndices(big) && old(big).Keys <= big.Keys
      ensures CountsAre(old(big), r) && (f, v) !in r ==> CountsAre(big, r + {(f, v)})
    {
      CallAdds(big, r, f, v);
      EdgeKeeps(big, f, v);
      EdgeKeeps(WithEdge(big, f, v), v, f);
      if CountsAre(big, r) && (f, v) !in r {
        CallCounts(big, r, f, v);
      }
      GraphGen(f, v);
      GraphGen(v, f);
    }

    /** The edges of one function's calls, in both directions. */
    method AddCalls(c: Calls, ghost r: Pairs)
      requires EdgesAre(big, r) && NoIndices(big)
      modifies this
      ensures EdgesAre(big, r + PairsOf(c.caller, c.callees)) && NoIndices(big)
      ensures CountsAre(old(big), r) && OnceEach(c.callees) && CalleesOf(r, c.caller) == {} ==>
        CountsAre(big, r + PairsOf(c.caller, c.callees))
      ensures old(big).Keys <= big.Keys
    {
      var i := 0;
      ghost var counts := CountsAre(big, r) && OnceEach(c.callees) && CalleesOf(r, c.caller) == {};
      assert r + PairsOf(c.caller, c.callees[..0]) == r;
      while i < |c.callees|
        invariant i <= |c.callees|
        invariant EdgesAre(big, r + PairsOf(c.caller, c.callees[..i])) && NoIndices(big)
        invariant counts ==> CountsAre(big, r + PairsOf(c.caller, c.callees[..i]))
        invariant old(big).Keys <= big.Keys
      {
        if counts {
          NewCall(r, c, i);
        }
        AddCall(c.caller, c.callees[i], r + PairsOf(c.caller, c.callees[..i]));
        PairsNext(c.caller, c.callees, i, r);
        i := i + 1;
      }
      assert c.callees[..i] == c.callees;
    }

    lemma NewCall(r: Pairs, c: Calls, i: nat)
      requires i < |c.callees| && OnceEach(c.callees) && CalleesOf(r, c.caller) == {}
      ensures (c.caller, c.callees[i]) !in r + PairsOf(c.caller, c.callees[..i])
    {
      var v := c.callees[i];
      Related(r, c.caller, v);
    }

    lemma PairsNext(caller: string, callees: seq<string>, i: nat, r: Pairs)
      requires i < |callees|
      ensures r + PairsOf(caller, callees[..i + 1]) == r + PairsOf(caller, callees[..i]) + {(caller, callees[i])}
    {
      forall v ensures v in callees[..i + 1] <==> v in callees[..i] || v == callees[i] {
        assert callees[..i + 1] == callees[..i] + [callees[i]];
      }
    }

    /** isSafe: no neighbour has the index. */
    method IsSafe(edges: set<string>, i: int) returns (safe: bool)
      requires forall e :: e in edges ==> e in big
      ensures safe <==> NoneHas(big, edges, i)
    {
      var rest := edges;
      while rest != {}
        invariant rest <= edges
        invariant forall e {:trigger Index(big, e)} :: e in edges && e !in rest ==> Index(big, e) != i
      {
        var e :| e in rest;
        rest := rest - {e};
        if big[e].lmrefIndex == i {
          assert Index(big, e) == i;
          return false;
        }
      }
      return true;
    }

    /** The search for an index of one node. */
    method LeastSafe(a: string) returns (i: int)
      requires a in big && (forall e :: e in big[a].edges ==> e in big) && Index(big, a) == 0
      ensures if i == 0 then AllUsed(big, a, NUM_ENTRIES)
        else 1 <= i < NUM_ENTRIES && !Used(big, a, i) && AllUsed(big, a, i)
    {
      var edges := big[a].edges;
      i := 1;
      while i < NUM_ENTRIES
        invariant 1 <= i <= NUM_ENTRIES
        invariant AllUsed(big, a, i)
      {
        var safe := IsSafe(edges, i);
        SafeIsUnused(big, a, i);
        if safe {
          return;
        }
        i := i + 1;
      }
      i := 0;
    }

    /** LMRefMappingEntry: each node in turn gets its least safe index. */
    method LMRefMappingEntry()
      requires Symmetric(big) && NoIndices(big) && Closed(big)
      modifies this
      ensures Coloured(big) && big.Keys == old(big).Keys
      ensures forall a :: Node(big, a).edges == Node(old(big), a).edges
      ensures forall a :: Node(big, a).numberOfEdges == Node(old(big), a).numberOfEdges
    {
      var rest := big.Keys;
      ghost var visited: set<string> := {};
      while rest != {}
        invariant rest + visited == big.Keys && rest !! visited
        invariant Progress(big, visited) && Closed(big)
        invariant big.Keys == old(big).Keys
        invariant forall a :: Node(big, a).edges == Node(old(big), a).edges
        invariant forall a :: Node(big, a).numberOfEdges == Node(old(big), a).numberOfEdges
      {
        var a :| a in rest;
        rest := rest - {a};
        assert Index(big, a) == 0;
        var i := LeastSafe(a);
        AssignProgress(big, visited, a, i);
        forall b
          ensures Node(Assign(big, a, i), b).edges == Node(big, b).edges
          ensures Node(Assign(big, a, i), b).numberOfEdges == Node(big, b).numberOfEdges
        {
          AssignSame(big, a, i, b);
        }
        if i != 0 {
          big := big[a := big[a].(lmrefIndex := i)];
        } else {
          assert Assign(big, a, 0) == big;
        }
        visited := visited + {a};
      }
    }

    /** The part of runOnModule that concerns the graph. */
    method Run(cs: seq<Calls>)
      modifies this
      ensures Coloured(big) && EdgesAre(big, AllPairs(cs)) && "M" in big
      ensures Distinct(cs) ==> CountsAre(big, AllPairs(cs))
      ensures Unnamed(cs, "M") ==> Index(big, "M") == 1
    {
      big := map["M" := NEW_BLOCK];
      var i := 0;
      while i < |cs|
        invariant i <= |cs|
        invariant EdgesAre(big, AllPairs(cs[..i])) && NoIndices(big) && "M" in big
        invariant Distinct(cs) ==> CountsAre(big, AllPairs(cs[..i]))
      {
        if Distinct(cs) {
          NoCallsYet(cs, i);
        }
        AddCalls(cs[i], AllPairs(cs[..i]));
        assert cs[..i + 1][..i] == cs[..i];
        i := i + 1;
      }
      assert cs[..i] == cs;
      RelationSymmetric(big, AllPairs(cs));
      ClosedBySymmetry(big);
      ghost var g := big;
      LMRefMappingEntry();
      forall a, b ensures b in Node(big, a).edges <==> b in Node(g, a).edges {
        assert Node(big, a).edges == Node(g, a).edges;
      }
      if Distinct(cs) {
        forall a ensures Node(big, a).numberOfEdges == |CalleesOf(AllPairs(cs), a)| + |CallersOf(AllPairs(cs), a)| {
          assert Node(big, a).numberOfEdges == Node(g, a).numberOfEdges;
        }
      }
      if Unnamed(cs, "M") {
        UnnamedGetsOne(big, cs, "M");
      }
    }
  }

  /** Every neighbour is a node of the graph itself. */
  ghost predicate Closed(g: Graph) {
    forall a, e {:trigger e in Node(g, a).edges} :: e in Node(g, a).edges ==> e in g
  }

  lemma ClosedBySymmetry(g: Graph)
    requires Symmetric(g)
    ensures Closed(g)
  {
    forall a, e | e in Node(g, a).edges ensures e in g {
      assert a in Node(g, e).edges;
    }
  }

  lemma SafeIsUnused(g: Graph, a: string, i: int)
    requires Index(g, a) == 0 && 1 <= i
    ensures NoneHas(g, Node(g, a).edges, i) <==> !Used(g, a, i)
  {
  }
}
