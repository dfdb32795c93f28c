/** Graph traversal over the IPC client (client.go, lines 640-762): a depth-bounded search that marks
    nodes when it takes them off the frontier, so that the frontier may hold duplicates. */
module Traverse {
  import opened Lists

  datatype GraphNode = GraphNode(id: string, nodeType: string, properties: map<string, string>)

  datatype GraphEdge = GraphEdge(fromID: string, edgeType: string, toID: string, properties: map<string, string>)

  /** What the store answers while a traversal runs: the record of a node, if there is one, and the
      outgoing edges that a scan of the node's edge prefix yields. */
  datatype Graph = Graph(nodes: map<string, GraphNode>, edges: map<string, seq<GraphEdge>>)

  function Out(g: Graph, u: string): seq<GraphEdge> {
    if u in g.edges then g.edges[u] else []
  }

  // ---------------------------------------------------------------- distance

  ghost predicate Adjacent(g: Graph, u: string, v: string) {
    u in g.edges && exists i :: 0 <= i < |g.edges[u]| && g.edges[u][i].toID == v
  }

  ghost predicate IsWalk(g: Graph, p: seq<string>) {
    p != [] && forall i :: 0 <= i < |p| - 1 ==> Adjacent(g, p[i], p[i + 1])
  }

  /** Some walk of exactly `n` edges leads from `s` to `v`. */
  ghost predicate Reaches(g: Graph, s: string, v: string, n: int) {
    exists p :: |p| == n + 1 && IsWalk(g, p) && p[0] == s && p[n] == v
  }

  ghost predicate Within(g: Graph, s: string, v: string, d: int) {
    exists n :: 0 <= n <= d && Reaches(g, s, v, n)
  }

  ghost predicate Reachable(g: Graph, s: string, v: string) {
    exists n :: 0 <= n && Reaches(g, s, v, n)
  }

  ghost predicate IsDistance(g: Graph, s: string, v: string, n: int) {
    n >= 0 && Reaches(g, s, v, n) && forall m :: 0 <= m < n ==> !Reaches(g, s, v, m)
  }

  lemma ReachesSelf(g: Graph, s: string)
    ensures Reaches(g, s, s, 0)
  {
    assert IsWalk(g, [s]) && [s][0] == s;
  }

  lemma ReachesNext(g: Graph, s: string, u: string, v: string, n: nat)
    requires Reaches(g, s, u, n) && Adjacent(g, u, v)
    ensures Reaches(g, s, v, n + 1)
  {
    var p :| |p| == n + 1 && IsWalk(g, p) && p[0] == s && p[n] == u;
    var q := p + [v];
    assert |q| == n + 2 && IsWalk(g, q) && q[0] == s && q[n + 1] == v;
  }

  lemma ReachesPrevious(g: Graph, s: string, v: string, n: int) returns (u: string)
    requires n > 0 && Reaches(g, s, v, n)
    ensures Reaches(g, s, u, n - 1) && Adjacent(g, u, v)
  {
    var p :| |p| == n + 1 && IsWalk(g, p) && p[0] == s && p[n] == v;
    u := p[n - 1];
    var q := p[..n];
    assert |q| == n && IsWalk(g, q) && q[0] == s && q[n - 1] == u;
    assert Adjacent(g, p[n - 1], p[n - 1 + 1]);
  }

  // ---------------------------------------------------------------- the node universe

  /** Every identifier a traversal from `s` could meet. */
  ghost function Ids(g: Graph, s: string): set<string> {
    {s} + set u, i | u in g.edges && 0 <= i < |g.edges[u]| :: g.edges[u][i].toID
  }

  predicate Distinct(xs: seq<string>) {
    forall i, j :: 0 <= i < j < |xs| ==> xs[i] != xs[j]
  }

  lemma {:induction false} DistinctFits(xs: seq<string>, ids: set<string>)
    requires Distinct(xs) && forall i :: 0 <= i < |xs| ==> xs[i] in ids
    ensures |xs| <= |ids|
  {
    if xs != [] {
      var n := |xs| - 1;
      DistinctFits(xs[..n], ids - {xs[n]});
    }
  }

  // ---------------------------------------------------------------- the two orders, in their simple forms

  datatype Item = Item(nodeID: string, depth: int)

  ghost predicate Took(taken: seq<Item>, u: string) {
    exists i :: 0 <= i < |taken| && taken[i].nodeID == u
  }

  function Left(maxDepth: int, depth: int): nat {
    if depth > maxDepth then 0 else maxDepth - depth + 1
  }

  /** Depth first, recursively: take the node, then deal with its targets from the last to the first. */
  ghost function Descend(g: Graph, maxDepth: int, u: string, depth: int, taken: seq<Item>): seq<Item>
    decreases Left(maxDepth, depth), 0
  {
    if depth > maxDepth || Took(taken, u) then taken
    else DescendAll(g, maxDepth, Out(g, u), depth + 1, taken + [Item(u, depth)])
  }

  ghost function DescendAll(g: Graph, maxDepth: int, es: seq<GraphEdge>, depth: int, taken: seq<Item>): seq<Item>
    decreases Left(maxDepth, depth), |es|
  {
    if es == [] then taken else
      var n := |es| - 1;
      DescendAll(g, maxDepth, es[..n], depth, Descend(g, maxDepth, es[n].toID, depth, taken))
  }

  /** Takes the nodes of a level that have not been taken before, from the first to the last. */
  ghost function TakeLevel(level: seq<string>, depth: int, taken: seq<Item>): (r: seq<Item>)
    ensures taken <= r
    decreases |level|
  {
    if level == [] then taken
    else TakeLevel(level[1..], depth, if Took(taken, level[0]) then taken else taken + [Item(level[0], depth)])
  }

  ghost function Targets(es: seq<GraphEdge>): seq<string> {
    seq(|es|, i requires 0 <= i < |es| => es[i].toID)
  }

  /** The targets of all items, item after item. */
  ghost function Below(g: Graph, items: seq<Item>): seq<string> {
    if items == [] then [] else Targets(Out(g, items[0].nodeID)) + Below(g, items[1..])
  }

  /** Breadth first, level by level: the next level is everything below what this level took. */
  ghost function Levels(g: Graph, maxDepth: int, level: seq<string>, depth: int, taken: seq<Item>): seq<Item>
    decreases Left(maxDepth, depth)
  {
    if depth > maxDepth then taken else
      var taken' := TakeLevel(level, depth, taken);
      Levels(g, maxDepth, Below(g, taken'[|taken|..]), depth + 1, taken')
  }

  /** The nodes that a search takes, in order, with the depths at which it takes them. */
  ghost function Search(g: Graph, s: string, maxDepth: int, bfs: bool): seq<Item> {
    if bfs then Levels(g, maxDepth, [s], 0, []) else Descend(g, maxDepth, s, 0, [])
  }

  ghost function Names(items: seq<Item>): seq<string> {
    seq(|items|, i requires 0 <= i < |items| => items[i].nodeID)
  }

  ghost function Depths(items: seq<Item>): seq<int> {
    seq(|items|, i requires 0 <= i < |items| => items[i].depth)
  }

  ghost function Visits(g: Graph, s: string, maxDepth: int, bfs: bool): seq<string> {
    Names(Search(g, s, maxDepth, bfs))
  }

  // ---------------------------------------------------------------- the state of the search

  function RecordOf(g: Graph, u: string): seq<GraphNode> {
    if u in g.nodes then [g.nodes[u]] else []
  }

  /** The records found for the visited nodes, in order. */
  ghost function NodesOf(g: Graph, visits: seq<string>): seq<GraphNode> {
    if visits == [] then [] else NodesOf(g, visits[..|visits| - 1]) + RecordOf(g, visits[|visits| - 1])
  }

  /** The outgoing edges of the visited nodes, node after node. */
  ghost function EdgesOf(g: Graph, visits: seq<string>): seq<GraphEdge> {
    if visits == [] then [] else EdgesOf(g, visits[..|visits| - 1]) + Out(g, visits[|visits| - 1])
  }

  ghost predicate BigEnough(g: Graph, s: string, maxDepth: int) {
    maxDepth >= |Ids(g, s)| - 1
  }

  ghost predicate Stands<T>(whole: seq<T>, from: int, to: int, piece: seq<T>) {
    0 <= from <= to <= |whole| && whole[from..to] == piece
  }

  ghost function Start(ends: seq<int>, i: nat): int
    requires i <= |ends|
  {
    if i == 0 then 0 else ends[i - 1]
  }

  /** `whole` consists of the pieces, one after the other; the i-th ends at `ends[i]`. */
  ghost predicate Joins<T>(whole: seq<T>, pieces: seq<seq<T>>, ends: seq<int>) {
    && |ends| == |pieces| && |whole| == Start(ends, |ends|)
    && forall i :: 0 <= i < |ends| ==> Stands(whole, Start(ends, i), ends[i], pieces[i])
  }

  lemma JoinOne<T>(whole: seq<T>, pieces: seq<seq<T>>, ends: seq<int>, piece: seq<T>)
    requires Joins(whole, pieces, ends)
    ensures Joins(whole + piece, pieces + [piece], ends + [|whole + piece|])
  {
    hide Stands;
    var ends' := ends + [|whole + piece|];
    forall i | 0 <= i < |ends'|
      ensures Stands(whole + piece, Start(ends', i), ends'[i], (pieces + [piece])[i])
    {
      assert Start(ends', i) == Start(ends, i);
      if i < |ends| {
        StandsStill(whole, Start(ends, i), ends[i], pieces[i], piece);
      } else {
        StandsLast(whole, piece);
      }
    }
  }

  lemma StandsStill<T>(whole: seq<T>, from: int, to: int, piece: seq<T>, more: seq<T>)
    requires Stands(whole, from, to, piece)
    ensures Stands(whole + more, from, to, piece)
  {
    assert (whole + more)[from..to] == whole[from..to];
  }

  lemma StandsLast<T>(whole: seq<T>, piece: seq<T>)
    ensures Stands(whole + piece, |whole|, |whole + piece|, piece)
  {
  }

  /** The records of the visited nodes that have one, visit after visit. */
  ghost predicate AreRecords(g: Graph, visits: seq<string>, pieces: seq<seq<GraphNode>>) {
    && |pieces| == |visits|
    && forall i :: 0 <= i < |visits| ==> pieces[i] == if visits[i] in g.nodes then [g.nodes[visits[i]]] else []
  }

  ghost predicate RecordsInOrder(g: Graph, visits: seq<string>, nodes: seq<GraphNode>) {
    exists pieces, ends :: AreRecords(g, visits, pieces) && Joins(nodes, pieces, ends)
  }

  /** The edges of the visited nodes, visit after visit, as the scans list them. */
  ghost predicate AreEdges(g: Graph, visits: seq<string>, pieces: seq<seq<GraphEdge>>) {
    && |pieces| == |visits|
    && forall i :: 0 <= i < |visits| ==> pieces[i] == if visits[i] in g.edges then g.edges[visits[i]] else []
  }

  ghost predicate EdgesInOrder(g: Graph, visits: seq<string>, edges: seq<GraphEdge>) {
    exists pieces, ends :: AreEdges(g, visits, pieces) && Joins(edges, pieces, ends)
  }

  lemma OneMoreShare(g: Graph, visits: seq<string>, u: string, nodes: seq<GraphNode>, edges: seq<GraphEdge>)
    requires RecordsInOrder(g, visits, nodes) && EdgesInOrder(g, visits, edges)
    ensures RecordsInOrder(g, visits + [u], nodes + RecordOf(g, u)) && EdgesInOrder(g, visits + [u], edges + Out(g, u))
  {
    hide Joins;
    var records, ends :| AreRecords(g, visits, records) && Joins(nodes, records, ends);
    var lists, ends' :| AreEdges(g, visits, lists) && Joins(edges, lists, ends');
    JoinOne(nodes, records, ends, RecordOf(g, u));
    JoinOne(edges, lists, ends', Out(g, u));
    assert AreRecords(g, visits + [u], records + [RecordOf(g, u)]) && AreEdges(g, visits + [u], lists + [Out(g, u)]);
  }

  lemma NothingInOrder(g: Graph)
    ensures RecordsInOrder(g, [], []) && EdgesInOrder(g, [], [])
  {
    assert AreRecords(g, [], []) && Joins<GraphNode>([], [], []);
    assert AreEdges(g, [], []) && Joins<GraphEdge>([], [], []);
  }

  lemma {:induction false} AnswerInOrder(g: Graph, visits: seq<string>)
    ensures RecordsInOrder(g, visits, NodesOf(g, visits)) && EdgesInOrder(g, visits, EdgesOf(g, visits))
  {
    hide *;
    if visits == [] {
      NothingVisited(g);
      NothingInOrder(g);
    } else {
      var front, u := visits[..|visits| - 1], visits[|visits| - 1];
      AnswerInOrder(g, front);
      OneMoreShare(g, front, u, NodesOf(g, front), EdgesOf(g, front));
      OneMoreVisit(g, front, u);
      assert visits == front + [u];
    }
  }

  lemma {:induction false} AnswerMembers(g: Graph, visits: seq<string>)
    ensures forall r :: r in NodesOf(g, visits) <==> exists v :: v in visits && v in g.nodes && g.nodes[v] == r
    ensures forall e :: e in EdgesOf(g, visits) <==> exists v :: v in visits && v in g.edges && e in g.edges[v]
  {
    if visits != [] {
      var n := |visits| - 1;
      AnswerMembers(g, visits[..n]);
      assert forall v :: v in visits <==> v in visits[..n] || v == visits[n];
    }
  }

  /** Is `v`, found one step beyond depth `d - 1`, still going to be dealt with? */
  ghost predicate Pending(g: Graph, s: string, maxDepth: int, frontier: seq<Item>, v: string, d: int) {
    Item(v, d) in frontier || (d > maxDepth && !BigEnough(g, s, maxDepth))
  }

  /** Visits are distinct and within the bound; `depths[i]` is the depth at which `visits[i]` was taken. */
  ghost predicate Sound(g: Graph, s: string, maxDepth: int, visits: seq<string>, depths: seq<int>) {
    && |depths| == |visits| && Distinct(visits)
    && forall i :: 0 <= i < |visits| ==>
         visits[i] in Ids(g, s) && 0 <= depths[i] <= maxDepth && Reaches(g, s, visits[i], depths[i])
  }

  /** The frontier can be reached; it is at most one deeper than there are visits. */
  ghost predicate Waiting(g: Graph, s: string, frontier: seq<Item>, visits: seq<string>) {
    forall f :: f in frontier ==> f.nodeID in Ids(g, s) && 0 <= f.depth <= |visits| && Reaches(g, s, f.nodeID, f.depth)
  }

  /** Nothing that must still be visited is lost. */
  ghost predicate Covered(g: Graph, s: string, maxDepth: int, frontier: seq<Item>, visits: seq<string>, depths: seq<int>) {
    && |depths| == |visits|
    && (s in visits || Pending(g, s, maxDepth, frontier, s, 0))
    && (forall i, v :: 0 <= i < |visits| && Adjacent(g, visits[i], v) ==>
          v in visits || Pending(g, s, maxDepth, frontier, v, depths[i] + 1))
  }

  /** Kept by both search orders. */
  ghost predicate SearchInv(g: Graph, s: string, maxDepth: int, frontier: seq<Item>, visits: seq<string>, depths: seq<int>) {
    && Sound(g, s, maxDepth, visits, depths)
    && Waiting(g, s, frontier, visits)
    && Covered(g, s, maxDepth, frontier, visits, depths)
  }

  /** Kept by breadth-first order: depths only grow, and they are distances. */
  ghost predicate BfsInv(g: Graph, s: string, frontier: seq<Item>, visits: seq<string>, depths: seq<int>) {
    && |depths| == |visits|
    && (forall i :: 0 <= i < |visits| ==> IsDistance(g, s, visits[i], depths[i]))
    && (forall i, j :: 0 <= i < j < |depths| ==> depths[i] <= depths[j])
    && (forall i, f :: 0 <= i < |depths| && f in frontier ==> depths[i] <= f.depth)
    && (forall i, j :: 0 <= i < j < |frontier| ==> frontier[i].depth <= frontier[j].depth <= frontier[i].depth + 1)
  }

  /** The start node comes first. */
  ghost predicate Begun(s: string, frontier: seq<Item>, visits: seq<string>, depths: seq<int>) {
    && |depths| == |visits|
    && (if visits == [] then forall f :: f in frontier ==> f == Item(s, 0) else visits[0] == s && depths[0] == 0)
  }

  lemma SearchStarts(g: Graph, s: string, maxDepth: int)
    ensures SearchInv(g, s, maxDepth, [Item(s, 0)], [], [])
    ensures BfsInv(g, s, [Item(s, 0)], [], [])
  {
    ReachesSelf(g, s);
  }

  /** An item may be dropped when its node was visited or it lies too deep. A node that is still
      unvisited is never too deep for a bound of all nodes but one. */
  lemma Drop(g: Graph, s: string, maxDepth: int, frontier: seq<Item>, rest: seq<Item>, x: Item,
             visits: seq<string>, depths: seq<int>)
    requires SearchInv(g, s, maxDepth, frontier, visits, depths)
    requires forall f :: f in frontier <==> f in rest || f == x
    requires x.depth > maxDepth || x.nodeID in visits
    ensures SearchInv(g, s, maxDepth, rest, visits, depths)
  {
    if x.nodeID !in visits {
      DistinctFits(visits + [x.nodeID], Ids(g, s));
    }
    forall v, d | Pending(g, s, maxDepth, frontier, v, d) && v !in visits
      ensures Pending(g, s, maxDepth, rest, v, d)
    {
    }
  }

  /** What one visit pushes: a child for every edge whose target is not yet visited. */
  ghost function Children(es: seq<GraphEdge>, visited: set<string>, depth: int): seq<Item> {
    if es == [] then [] else
      var e := es[|es| - 1];
      Children(es[..|es| - 1], visited, depth) + if e.toID !in visited then [Item(e.toID, depth)] else []
  }

  lemma {:induction false} ChildrenAre(es: seq<GraphEdge>, visited: set<string>, depth: int)
    ensures forall f :: f in Children(es, visited, depth) <==>
              f.depth == depth && f.nodeID !in visited && exists i :: 0 <= i < |es| && es[i].toID == f.nodeID
  {
    if es != [] {
      var n := |es| - 1;
      ChildrenAre(es[..n], visited, depth);
      forall f ensures f in Children(es, visited, depth) <==>
                 f.depth == depth && f.nodeID !in visited && exists i :: 0 <= i < |es| && es[i].toID == f.nodeID
      {
        if exists i :: 0 <= i < |es| && es[i].toID == f.nodeID {
          var i :| 0 <= i < |es| && es[i].toID == f.nodeID;
          assert i < n ==> es[..n][i].toID == f.nodeID;
        }
        if f in Children(es[..n], visited, depth) {
          var i :| 0 <= i < n && es[..n][i].toID == f.nodeID;
          assert es[i].toID == f.nodeID;
        }
      }
    }
  }

  /** The items that a visit of `x`, which makes the visits `visits'`, has to push. */
  ghost predicate ChildrenOf(g: Graph, x: Item, visits': seq<string>, children: seq<Item>) {
    forall f :: f in children <==> f.depth == x.depth + 1 && f.nodeID !in visits' && Adjacent(g, x.nodeID, f.nodeID)
  }

  lemma ChildrenAreUnvisited(g: Graph, x: Item, visited: set<string>, visits': seq<string>)
    requires forall v :: v in visited <==> v in visits'
    ensures ChildrenOf(g, x, visits', Children(Out(g, x.nodeID), visited, x.depth + 1))
  {
    hide Children;
    ChildrenAre(Out(g, x.nodeID), visited, x.depth + 1);
  }

  lemma ChildReached(g: Graph, s: string, x: Item, f: Item)
    requires x.depth >= 0 && Reaches(g, s, x.nodeID, x.depth) && Adjacent(g, x.nodeID, f.nodeID) && f.depth == x.depth + 1
    ensures f.nodeID in Ids(g, s) && Reaches(g, s, f.nodeID, f.depth)
  {
    ReachesNext(g, s, x.nodeID, f.nodeID, x.depth);
    var i :| 0 <= i < |Out(g, x.nodeID)| && Out(g, x.nodeID)[i].toID == f.nodeID;
  }

  lemma VisitSound(g: Graph, s: string, maxDepth: int, x: Item, visits: seq<string>, depths: seq<int>)
    requires Sound(g, s, maxDepth, visits, depths) && x.nodeID !in visits
    requires x.nodeID in Ids(g, s) && 0 <= x.depth <= maxDepth && Reaches(g, s, x.nodeID, x.depth)
    ensures Sound(g, s, maxDepth, visits + [x.nodeID], depths + [x.depth])
  {
    hide Reaches;
    hide Ids;
  }

  lemma VisitWaiting(g: Graph, s: string, rest: seq<Item>, x: Item, visits: seq<string>, children: seq<Item>)
    requires Waiting(g, s, rest + [x], visits)
    requires ChildrenOf(g, x, visits + [x.nodeID], children)
    ensures Waiting(g, s, rest + children, visits + [x.nodeID])
  {
    assert x in rest + [x];
    forall f | f in children ensures f.nodeID in Ids(g, s) && Reaches(g, s, f.nodeID, f.depth) {
      ChildReached(g, s, x, f);
    }
    hide Reaches;
    hide Ids;
    hide Adjacent;
  }

  lemma VisitCovered(g: Graph, s: string, maxDepth: int, frontier: seq<Item>, rest: seq<Item>, x: Item,
                     visits: seq<string>, depths: seq<int>, children: seq<Item>)
    requires Covered(g, s, maxDepth, frontier, visits, depths)
    requires forall f :: f in frontier <==> f in rest || f == x
    requires ChildrenOf(g, x, visits + [x.nodeID], children)
    ensures Covered(g, s, maxDepth, rest + children, visits + [x.nodeID], depths + [x.depth])
  {
    hide Adjacent;
    hide BigEnough;
    var visits', depths', frontier' := visits + [x.nodeID], depths + [x.depth], rest + children;
    forall v, d | Pending(g, s, maxDepth, frontier, v, d) && v !in visits'
      ensures Pending(g, s, maxDepth, frontier', v, d)
    {
    }
    forall i, v | 0 <= i < |visits'| && Adjacent(g, visits'[i], v) && v !in visits'
      ensures Pending(g, s, maxDepth, frontier', v, depths'[i] + 1)
    {
      if i == |visits| {
        assert Item(v, x.depth + 1) in children;
      }
    }
  }

  /** Visiting an unvisited item keeps the common invariant. */
  lemma Visit(g: Graph, s: string, maxDepth: int, frontier: seq<Item>, rest: seq<Item>, x: Item,
              visits: seq<string>, depths: seq<int>, children: seq<Item>)
    requires SearchInv(g, s, maxDepth, frontier, visits, depths)
    requires forall f :: f in frontier <==> f in rest || f == x
    requires x.depth <= maxDepth && x.nodeID !in visits
    requires ChildrenOf(g, x, visits + [x.nodeID], children)
    ensures SearchInv(g, s, maxDepth, rest + children, visits + [x.nodeID], depths + [x.depth])
  {
    hide Sound;
    hide Covered;
    hide ChildrenOf;
    hide Reaches;
    hide Ids;
    assert x in frontier;
    assert Waiting(g, s, rest + [x], visits);
    VisitSound(g, s, maxDepth, x, visits, depths);
    VisitWaiting(g, s, rest, x, visits, children);
    VisitCovered(g, s, maxDepth, frontier, rest, x, visits, depths, children);
  }

  /** Everything nearer than every frontier item has been visited. */
  lemma {:induction false} NearerIsVisited(g: Graph, s: string, maxDepth: int, frontier: seq<Item>,
                                           visits: seq<string>, depths: seq<int>, d: int, v: string, n: int)
    requires SearchInv(g, s, maxDepth, frontier, visits, depths)
    requires BfsInv(g, s, frontier, visits, depths)
    requires forall f :: f in frontier ==> f.depth >= d
    requires 0 <= n < d <= maxDepth + 1 && Reaches(g, s, v, n)
    ensures v in visits
    decreases n
  {
    if n == 0 {
      assert v == s;
    } else {
      var u := ReachesPrevious(g, s, v, n);
      NearerIsVisited(g, s, maxDepth, frontier, visits, depths, d, u, n - 1);
      var i :| 0 <= i < |visits| && visits[i] == u;
      assert depths[i] <= n - 1;
    }
  }

  /** Taking the head of a breadth-first frontier finds its node's distance. */
  lemma BfsVisit(g: Graph, s: string, maxDepth: int, frontier: seq<Item>, visits: seq<string>,
                 depths: seq<int>, children: seq<Item>)
    requires SearchInv(g, s, maxDepth, frontier, visits, depths)
    requires BfsInv(g, s, frontier, visits, depths)
    requires frontier != [] && frontier[0].depth <= maxDepth && frontier[0].nodeID !in visits
    requires ChildrenOf(g, frontier[0], visits + [frontier[0].nodeID], children)
    ensures BfsInv(g, s, frontier[1..] + children, visits + [frontier[0].nodeID], depths + [frontier[0].depth])
  {
    var x := frontier[0];
    assert x in frontier;
    forall f | f in frontier ensures f.depth >= x.depth {
      var i :| 0 <= i < |frontier| && frontier[i] == f;
    }
    forall m | 0 <= m < x.depth ensures !Reaches(g, s, x.nodeID, m) {
      if Reaches(g, s, x.nodeID, m) {
        NearerIsVisited(g, s, maxDepth, frontier, visits, depths, x.depth, x.nodeID, m);
      }
    }
    hide Reaches;
    hide Adjacent;
    hide Covered;
    assert IsDistance(g, s, x.nodeID, x.depth);
    hide IsDistance;
    LevelsStay(frontier, children);
    forall i, f | 0 <= i < |depths| + 1 && f in frontier[1..] + children ensures (depths + [x.depth])[i] <= f.depth {
      if f in frontier[1..] { assert f in frontier; }
    }
  }

  /** A frontier of two neighbouring levels stays one when the head gives way to its children. */
  lemma LevelsStay(frontier: seq<Item>, children: seq<Item>)
    requires frontier != [] && forall f :: f in children ==> f.depth == frontier[0].depth + 1
    requires forall i, j :: 0 <= i < j < |frontier| ==> frontier[i].depth <= frontier[j].depth <= frontier[i].depth + 1
    ensures var frontier' := frontier[1..] + children;
            forall i, j :: 0 <= i < j < |frontier'| ==> frontier'[i].depth <= frontier'[j].depth <= frontier'[i].depth + 1
  {
    var frontier' := frontier[1..] + children;
    forall i, j | 0 <= i < j < |frontier'| ensures frontier'[i].depth <= frontier'[j].depth <= frontier'[i].depth + 1 {
      var n := |frontier| - 1;
      assert i < n ==> frontier'[i] == frontier[i + 1];
      assert j < n ==> frontier'[j] == frontier[j + 1];
      assert i >= n ==> frontier'[i] in children;
      assert j >= n ==> frontier'[j] in children;
    }
  }

  /** With nothing left on a breadth-first frontier, everything within the bound was visited. */
  lemma BfsIsComplete(g: Graph, s: string, maxDepth: int, visits: seq<string>, depths: seq<int>)
    requires SearchInv(g, s, maxDepth, [], visits, depths) && BfsInv(g, s, [], visits, depths)
    ensures forall v :: v in visits <==> Within(g, s, v, maxDepth)
  {
    forall v ensures v in visits <==> Within(g, s, v, maxDepth) {
      if Within(g, s, v, maxDepth) {
        var n :| 0 <= n <= maxDepth && Reaches(g, s, v, n);
        NearerIsVisited(g, s, maxDepth, [], visits, depths, maxDepth + 1, v, n);
      }
    }
  }

  lemma {:induction false} ReachedIsVisited(g: Graph, s: string, maxDepth: int, visits: seq<string>,
                                            depths: seq<int>, v: string, n: int)
    requires SearchInv(g, s, maxDepth, [], visits, depths) && BigEnough(g, s, maxDepth)
    requires 0 <= n && Reaches(g, s, v, n)
    ensures v in visits
    decreases n
  {
    if n > 0 {
      var u := ReachesPrevious(g, s, v, n);
      ReachedIsVisited(g, s, maxDepth, visits, depths, u, n - 1);
    }
  }

  /** With a bound of all nodes but one, either order visits every reachable node. */
  lemma DeepSearchIsComplete(g: Graph, s: string, maxDepth: int, visits: seq<string>, depths: seq<int>)
    requires SearchInv(g, s, maxDepth, [], visits, depths) && BigEnough(g, s, maxDepth)
    ensures forall v :: v in visits <==> Reachable(g, s, v)
  {
    forall v ensures v in visits <==> Reachable(g, s, v) {
      if Reachable(g, s, v) {
        var n :| 0 <= n && Reaches(g, s, v, n);
        ReachedIsVisited(g, s, maxDepth, visits, depths, v, n);
      }
    }
  }

  /** Breadth-first order: depths are distances and never go down. */
  ghost predicate NearestFirst(g: Graph, s: string, visits: seq<string>, depths: seq<int>) {
    && |depths| == |visits|
    && (forall i :: 0 <= i < |visits| ==> IsDistance(g, s, visits[i], depths[i]))
    && (forall i, j :: 0 <= i < j < |depths| ==> depths[i] <= depths[j])
  }

  lemma SearchIsSound(g: Graph, s: string, maxDepth: int, frontier: seq<Item>, visits: seq<string>, depths: seq<int>)
    requires SearchInv(g, s, maxDepth, frontier, visits, depths)
    ensures Distinct(visits) && |visits| <= |Ids(g, s)|
    ensures forall v :: v in visits ==> Within(g, s, v, maxDepth)
  {
    DistinctFits(visits, Ids(g, s));
  }

  /** The inner loop of a visit: report every outgoing edge, push the targets not yet visited. */
  method Expand(out: seq<GraphEdge>, visited: set<string>, depth: int, frontier: seq<Item>, edges: seq<GraphEdge>)
    returns (frontier': seq<Item>, edges': seq<GraphEdge>)
    ensures frontier' == frontier + Children(out, visited, depth)
    ensures edges' == edges + out
  {
    frontier', edges' := frontier, edges;
    for i := 0 to |out|
      invariant edges' == edges + out[..i]
      invariant frontier' == frontier + Children(out[..i], visited, depth)
    {
      assert out[..i + 1][..i] == out[..i];
      edges' := edges' + [out[i]];
      if out[i].toID !in visited {
        frontier' := frontier' + [Item(out[i].toID, depth)];
      }
    }
    assert out[..|out|] == out;
  }

  lemma BfsDrop(g: Graph, s: string, frontier: seq<Item>, visits: seq<string>, depths: seq<int>)
    requires frontier != [] && BfsInv(g, s, frontier, visits, depths)
    ensures BfsInv(g, s, frontier[1..], visits, depths)
  {
  }

  // ---------------------------------------------------------------- the stack computes the recursion

  lemma {:induction false} DescentGrows(g: Graph, maxDepth: int, u: string, depth: int, taken: seq<Item>)
    ensures taken <= Descend(g, maxDepth, u, depth, taken)
    decreases Left(maxDepth, depth), 0
  {
    if !(depth > maxDepth || Took(taken, u)) {
      DescentsGrow(g, maxDepth, Out(g, u), depth + 1, taken + [Item(u, depth)]);
    }
  }

  lemma {:induction false} DescentsGrow(g: Graph, maxDepth: int, es: seq<GraphEdge>, depth: int, taken: seq<Item>)
    ensures taken <= DescendAll(g, maxDepth, es, depth, taken)
    decreases Left(maxDepth, depth), |es|
  {
    if es != [] {
      var n := |es| - 1;
      DescentGrows(g, maxDepth, es[n].toID, depth, taken);
      DescentsGrow(g, maxDepth, es[..n], depth, Descend(g, maxDepth, es[n].toID, depth, taken));
    }
  }

  /** What is left to do for a stack: a descent from every item, the top first. */
  ghost function Unwind(g: Graph, maxDepth: int, stack: seq<Item>, taken: seq<Item>): seq<Item>
    decreases |stack|
  {
    if stack == [] then taken else
      var n := |stack| - 1;
      Unwind(g, maxDepth, stack[..n], Descend(g, maxDepth, stack[n].nodeID, stack[n].depth, taken))
  }

  lemma {:induction false} UnwindGrows(g: Graph, maxDepth: int, stack: seq<Item>, taken: seq<Item>)
    ensures taken <= Unwind(g, maxDepth, stack, taken)
    decreases |stack|
  {
    if stack != [] {
      var n := |stack| - 1;
      DescentGrows(g, maxDepth, stack[n].nodeID, stack[n].depth, taken);
      UnwindGrows(g, maxDepth, stack[..n], Descend(g, maxDepth, stack[n].nodeID, stack[n].depth, taken));
    }
  }

  /** Pushing only the targets not yet visited, and all of them at once, is as good as the recursion. */
  lemma {:induction false} PushedChildren(g: Graph, maxDepth: int, rest: seq<Item>, es: seq<GraphEdge>, visited: set<string>,
                                          depth: int, taken: seq<Item>)
    requires forall v :: v in visited ==> Took(taken, v)
    ensures Unwind(g, maxDepth, rest + Children(es, visited, depth), taken)
         == Unwind(g, maxDepth, rest, DescendAll(g, maxDepth, es, depth, taken))
    decreases |es|
  {
    if es == [] {
      assert rest + Children(es, visited, depth) == rest;
    } else {
      hide Unwind;
      hide Descend;
      hide Took;
      var n := |es| - 1;
      var e, below := es[n], Children(es[..n], visited, depth);
      var taken' := Descend(g, maxDepth, e.toID, depth, taken);
      assert DescendAll(g, maxDepth, es, depth, taken) == DescendAll(g, maxDepth, es[..n], depth, taken');
      hide DescendAll;
      DescentGrows(g, maxDepth, e.toID, depth, taken);
      StillTook(taken, taken');
      PushedChildren(g, maxDepth, rest, es[..n], visited, depth, taken');
      if e.toID in visited {
        DescentSkips(g, maxDepth, e.toID, depth, taken);
        assert rest + Children(es, visited, depth) == rest + below;
      } else {
        assert rest + Children(es, visited, depth) == (rest + below) + [Item(e.toID, depth)];
        UnwindTop(g, maxDepth, rest + below, Item(e.toID, depth), taken);
      }
    }
  }

  lemma DescentSkips(g: Graph, maxDepth: int, u: string, depth: int, taken: seq<Item>)
    requires Took(taken, u)
    ensures Descend(g, maxDepth, u, depth, taken) == taken
  {
  }

  lemma UnwindTop(g: Graph, maxDepth: int, rest: seq<Item>, x: Item, taken: seq<Item>)
    ensures Unwind(g, maxDepth, rest + [x], taken) == Unwind(g, maxDepth, rest, Descend(g, maxDepth, x.nodeID, x.depth, taken))
  {
    assert (rest + [x])[..|rest|] == rest;
  }

  lemma StillTook(taken: seq<Item>, taken': seq<Item>)
    requires taken <= taken'
    ensures forall v :: Took(taken, v) ==> Took(taken', v)
  {
    forall v | Took(taken, v) ensures Took(taken', v) {
      var i :| 0 <= i < |taken| && taken[i].nodeID == v;
      assert taken'[i].nodeID == v;
    }
  }

  /** One turn of the loop in depth-first order. */
  lemma StackStep(g: Graph, maxDepth: int, stack: seq<Item>, taken: seq<Item>, visited: set<string>)
    requires stack != []
    ensures var n := |stack| - 1;
            var x := stack[n];
            && (x.depth > maxDepth || Took(taken, x.nodeID) ==>
                 Unwind(g, maxDepth, stack, taken) == Unwind(g, maxDepth, stack[..n], taken))
            && (x.depth <= maxDepth && !Took(taken, x.nodeID) && (forall v :: v in visited ==> Took(taken + [x], v)) ==>
                 Unwind(g, maxDepth, stack, taken)
                   == Unwind(g, maxDepth, stack[..n] + Children(Out(g, x.nodeID), visited, x.depth + 1), taken + [x]))
  {
    var n := |stack| - 1;
    var x := stack[n];
    assert Item(x.nodeID, x.depth) == x;
    if forall v :: v in visited ==> Took(taken + [x], v) {
      PushedChildren(g, maxDepth, stack[..n], Out(g, x.nodeID), visited, x.depth + 1, taken + [x]);
    }
  }

  // ---------------------------------------------------------------- the queue computes the levels

  /** A queue holds the rest of one level, then what the level has found so far. */
  datatype Queue = Queue(level: seq<string>, next: seq<string>, depth: int)

  ghost function At(level: seq<string>, depth: int): seq<Item> {
    seq(|level|, i requires 0 <= i < |level| => Item(level[i], depth))
  }

  ghost predicate Holds(q: Queue, frontier: seq<Item>) {
    frontier == At(q.level, q.depth) + At(q.next, q.depth + 1)
  }

  /** What is left to do for a queue. */
  ghost function Drain(g: Graph, maxDepth: int, q: Queue, taken: seq<Item>): seq<Item> {
    if q.depth > maxDepth then taken else
      var taken' := TakeLevel(q.level, q.depth, taken);
      Levels(g, maxDepth, q.next + Below(g, taken'[|taken|..]), q.depth + 1, taken')
  }

  lemma {:induction false} LevelsGrow(g: Graph, maxDepth: int, level: seq<string>, depth: int, taken: seq<Item>)
    ensures taken <= Levels(g, maxDepth, level, depth, taken)
    decreases Left(maxDepth, depth)
  {
    if depth <= maxDepth {
      var taken' := TakeLevel(level, depth, taken);
      LevelsGrow(g, maxDepth, Below(g, taken'[|taken|..]), depth + 1, taken');
    }
  }

  lemma DrainUnfolds(g: Graph, maxDepth: int, q: Queue, taken: seq<Item>)
    requires q.depth <= maxDepth
    ensures var taken' := TakeLevel(q.level, q.depth, taken);
            && taken <= taken'
            && Drain(g, maxDepth, q, taken)
                 == Levels(g, maxDepth, q.next + Below(g, taken'[|taken|..]), q.depth + 1, taken')
  {
    hide TakeLevel;
    hide Levels;
    hide Below;
  }

  lemma DrainGrows(g: Graph, maxDepth: int, q: Queue, taken: seq<Item>)
    ensures taken <= Drain(g, maxDepth, q, taken)
  {
    if q.depth <= maxDepth {
      hide *;
      var taken' := TakeLevel(q.level, q.depth, taken);
      DrainUnfolds(g, maxDepth, q, taken);
      LevelsGrow(g, maxDepth, q.next + Below(g, taken'[|taken|..]), q.depth + 1, taken');
      PrefixOfPrefix(taken, taken', Drain(g, maxDepth, q, taken));
    }
  }

  lemma PrefixOfPrefix(a: seq<Item>, b: seq<Item>, c: seq<Item>)
    requires a <= b <= c
    ensures a <= c
  {
  }

  lemma {:induction false} EmptyLevels(g: Graph, maxDepth: int, depth: int, taken: seq<Item>)
    ensures Levels(g, maxDepth, [], depth, taken) == taken
    decreases Left(maxDepth, depth)
  {
    if depth <= maxDepth {
      assert taken[|taken|..] == [];
      EmptyLevels(g, maxDepth, depth + 1, taken);
    }
  }

  lemma EmptyDrain(g: Graph, maxDepth: int, q: Queue, taken: seq<Item>)
    requires q.level == q.next == []
    ensures Drain(g, maxDepth, q, taken) == taken
  {
    assert taken[|taken|..] == [];
    assert q.next + [] == [];
    EmptyLevels(g, maxDepth, q.depth + 1, taken);
  }

  lemma {:induction false} TakeConcat(a: seq<string>, b: seq<string>, depth: int, taken: seq<Item>)
    ensures TakeLevel(a + b, depth, taken) == TakeLevel(b, depth, TakeLevel(a, depth, taken))
    decreases |a|
  {
    if a == [] {
      assert a + b == b;
    } else {
      assert (a + b)[1..] == a[1..] + b;
      TakeConcat(a[1..], b, depth, if Took(taken, a[0]) then taken else taken + [Item(a[0], depth)]);
    }
  }

  lemma TakeLast(level: seq<string>, u: string, depth: int, taken: seq<Item>)
    ensures var t := TakeLevel(level, depth, taken);
            TakeLevel(level + [u], depth, taken) == if Took(t, u) then t else t + [Item(u, depth)]
  {
    TakeConcat(level, [u], depth, taken);
  }

  lemma LastTarget(es: seq<GraphEdge>, visited: set<string>, depth: int)
    requires es != []
    ensures var n := |es| - 1;
            var below := Names(Children(es[..n], visited, depth));
            && Targets(es) == Targets(es[..n]) + [es[n].toID]
            && Names(Children(es, visited, depth)) == if es[n].toID in visited then below else below + [es[n].toID]
  {
    var n := |es| - 1;
    assert Targets(es) == Targets(es[..n]) + [es[n].toID];
    var below := Children(es[..n], visited, depth);
    assert Children(es, visited, depth) == below + if es[n].toID !in visited then [Item(es[n].toID, depth)] else [];
    hide *;
    if es[n].toID in visited {
      assert below + [] == below;
    } else {
      NamesAfter(below, Item(es[n].toID, depth));
    }
  }

  /** Leaving out visited targets changes nothing in what a level takes. */
  lemma {:induction false} TakeUnvisited(es: seq<GraphEdge>, visited: set<string>, depth: int, taken: seq<Item>)
    requires forall v :: v in visited ==> Took(taken, v)
    ensures TakeLevel(Targets(es), depth, taken) == TakeLevel(Names(Children(es, visited, depth)), depth, taken)
    decreases |es|
  {
    if es == [] {
      assert Targets(es) == [] == Names(Children(es, visited, depth));
    } else {
      hide TakeLevel;
      hide Took;
      hide Targets;
      hide Names;
      hide Children;
      var n := |es| - 1;
      var all, below := Targets(es[..n]), Names(Children(es[..n], visited, depth));
      TakeUnvisited(es[..n], visited, depth, taken);
      LastTarget(es, visited, depth);
      TakeLast(all, es[n].toID, depth, taken);
      TakeLast(below, es[n].toID, depth, taken);
      StillTook(taken, TakeLevel(all, depth, taken));
    }
  }

  /** The same in the middle of a level. */
  lemma LevelsUnvisited(g: Graph, maxDepth: int, a: seq<string>, es: seq<GraphEdge>, b: seq<string>, visited: set<string>,
                        depth: int, taken: seq<Item>)
    requires forall v :: v in visited ==> Took(taken, v)
    ensures Levels(g, maxDepth, a + Targets(es) + b, depth, taken)
         == Levels(g, maxDepth, a + Names(Children(es, visited, depth)) + b, depth, taken)
  {
    var t := TakeLevel(a, depth, taken);
    StillTook(taken, t);
    TakeUnvisited(es, visited, depth, t);
    var names := Names(Children(es, visited, depth));
    TakeConcat(a, Targets(es), depth, taken);
    TakeConcat(a, names, depth, taken);
    TakeConcat(a + Targets(es), b, depth, taken);
    TakeConcat(a + names, b, depth, taken);
  }

  lemma WholeLevel(g: Graph, maxDepth: int, level: seq<string>, depth: int, taken: seq<Item>)
    ensures Drain(g, maxDepth, Queue(level, [], depth), taken) == Levels(g, maxDepth, level, depth, taken)
  {
    if depth <= maxDepth {
      var below := Below(g, TakeLevel(level, depth, taken)[|taken|..]);
      assert [] + below == below;
    }
  }

  lemma NoLevel(g: Graph, depth: int, taken: seq<Item>)
    ensures TakeLevel([], depth, taken) == taken && Below(g, taken[|taken|..]) == []
  {
  }

  /** An exhausted level gives way to the next. */
  lemma NextLevel(g: Graph, maxDepth: int, q: Queue, taken: seq<Item>)
    requires q.level == []
    ensures Drain(g, maxDepth, q, taken) == Drain(g, maxDepth, Queue(q.next, [], q.depth + 1), taken)
  {
    NoLevel(g, q.depth, taken);
    WholeLevel(g, maxDepth, q.next, q.depth + 1, taken);
    hide TakeLevel;
    hide Below;
    hide Levels;
    assert q.next + [] == q.next;
  }

  lemma SkippedHead(g: Graph, maxDepth: int, q: Queue, taken: seq<Item>)
    requires q.level != [] && (q.depth > maxDepth || Took(taken, q.level[0]))
    ensures Drain(g, maxDepth, q, taken) == Drain(g, maxDepth, q.(level := q.level[1..]), taken)
  {
  }

  lemma TakenHead(g: Graph, maxDepth: int, q: Queue, taken: seq<Item>, visited: set<string>)
    requires q.level != [] && q.depth <= maxDepth && !Took(taken, q.level[0])
    requires forall v :: v in visited ==> Took(taken + [Item(q.level[0], q.depth)], v)
    ensures var children := Children(Out(g, q.level[0]), visited, q.depth + 1);
            Drain(g, maxDepth, q, taken)
              == Drain(g, maxDepth, Queue(q.level[1..], q.next + Names(children), q.depth), taken + [Item(q.level[0], q.depth)])
  {
    hide TakeLevel;
    hide Levels;
    hide Took;
    hide Targets;
    hide Children;
    hide Names;
    hide Out;
    hide Below;
    var x := Item(q.level[0], q.depth);
    var taken1 := taken + [x];
    LevelHead(q.level, q.depth, taken);
    var taken' := TakeLevel(q.level, q.depth, taken);
    var rest := taken'[|taken1|..];
    BelowFirst(g, x, rest);
    var es := Out(g, x.nodeID);
    assert q.next + (Targets(es) + Below(g, rest)) == q.next + Targets(es) + Below(g, rest);
    StillTook(taken1, taken');
    LevelsUnvisited(g, maxDepth, q.next, es, Below(g, rest), visited, q.depth + 1, taken');
  }

  lemma LevelHead(level: seq<string>, depth: int, taken: seq<Item>)
    requires level != [] && !Took(taken, level[0])
    ensures var x := Item(level[0], depth);
            var taken' := TakeLevel(level, depth, taken);
            && taken' == TakeLevel(level[1..], depth, taken + [x]) && taken + [x] <= taken'
            && taken'[|taken|..] == [x] + taken'[|taken + [x]|..]
  {
    hide Took;
    PrefixTail(taken, Item(level[0], depth), TakeLevel(level[1..], depth, taken + [Item(level[0], depth)]));
  }

  lemma PrefixTail(taken: seq<Item>, x: Item, taken': seq<Item>)
    requires taken + [x] <= taken'
    ensures taken'[|taken|..] == [x] + taken'[|taken + [x]|..]
  {
    assert taken'[|taken|] == (taken + [x])[|taken|];
  }

  lemma BelowFirst(g: Graph, x: Item, rest: seq<Item>)
    ensures Below(g, [x] + rest) == Targets(Out(g, x.nodeID)) + Below(g, rest)
  {
    assert ([x] + rest)[1..] == rest;
  }

  /** The queue with its front level in place: the head of the frontier is the head of the level. */
  lemma Advance(g: Graph, maxDepth: int, q: Queue, frontier: seq<Item>, taken: seq<Item>) returns (q': Queue)
    requires Holds(q, frontier) && frontier != []
    ensures Holds(q', frontier) && q'.level != [] && frontier[0] == Item(q'.level[0], q'.depth)
    ensures Drain(g, maxDepth, q', taken) == Drain(g, maxDepth, q, taken)
  {
    q' := q;
    if q.level == [] {
      q' := Queue(q.next, [], q.depth + 1);
      NextLevel(g, maxDepth, q, taken);
      assert At(q.level, q.depth) + At(q.next, q.depth + 1) == At(q'.level, q'.depth) + At(q'.next, q'.depth + 1);
    }
    assert frontier[0] == At(q'.level, q'.depth)[0];
  }

  lemma HoldsTail(q: Queue, frontier: seq<Item>, children: seq<Item>)
    requires Holds(q, frontier) && q.level != []
    requires forall f :: f in children ==> f.depth == q.depth + 1
    ensures Holds(q.(level := q.level[1..]), frontier[1..])
    ensures Holds(Queue(q.level[1..], q.next + Names(children), q.depth), frontier[1..] + children)
  {
    assert At(q.level, q.depth)[1..] == At(q.level[1..], q.depth);
    assert forall i :: 0 <= i < |children| ==> children[i] in children;
    assert At(q.next + Names(children), q.depth + 1) == At(q.next, q.depth + 1) + children;
  }

  // ---------------------------------------------------------------- one turn of the loop

  /** What the loop computes: carrying on from here completes the search. */
  ghost predicate OnTrack(g: Graph, s: string, maxDepth: int, bfs: bool, frontier: seq<Item>, q: Queue, taken: seq<Item>) {
    if bfs then Holds(q, frontier) && Drain(g, maxDepth, q, taken) == Search(g, s, maxDepth, bfs)
    else Unwind(g, maxDepth, frontier, taken) == Search(g, s, maxDepth, bfs)
  }

  function Head(bfs: bool, frontier: seq<Item>): Item
    requires frontier != []
  {
    if bfs then frontier[0] else frontier[|frontier| - 1]
  }

  function Tail(bfs: bool, frontier: seq<Item>): seq<Item>
    requires frontier != []
  {
    if bfs then frontier[1..] else frontier[..|frontier| - 1]
  }

  lemma StartOnTrack(g: Graph, s: string, maxDepth: int, bfs: bool)
    ensures OnTrack(g, s, maxDepth, bfs, [Item(s, 0)], Queue([s], [], 0), [])
  {
    if bfs {
      StartHolds(s);
      WholeLevel(g, maxDepth, [s], 0, []);
    } else {
      assert [] + [Item(s, 0)] == [Item(s, 0)];
      UnwindTop(g, maxDepth, [], Item(s, 0), []);
    }
    hide Drain;
    hide Levels;
    hide Descend;
    hide Holds;
  }

  lemma StartHolds(s: string)
    ensures Holds(Queue([s], [], 0), [Item(s, 0)])
  {
    assert At([s], 0) + At([], 1) == [Item(s, 0)];
  }

  lemma TakenIsPrefix(g: Graph, s: string, maxDepth: int, bfs: bool, frontier: seq<Item>, q: Queue, taken: seq<Item>)
    requires OnTrack(g, s, maxDepth, bfs, frontier, q, taken)
    ensures taken <= Search(g, s, maxDepth, bfs)
    ensures frontier == [] ==> taken == Search(g, s, maxDepth, bfs)
  {
    if bfs {
      DrainGrows(g, maxDepth, q, taken);
      if frontier == [] {
        assert |At(q.level, q.depth)| == |q.level| && |At(q.next, q.depth + 1)| == |q.next|;
        EmptyDrain(g, maxDepth, q, taken);
      }
    } else {
      UnwindGrows(g, maxDepth, frontier, taken);
    }
  }

  lemma SkipStaysOnTrack(g: Graph, s: string, maxDepth: int, bfs: bool, frontier: seq<Item>, q: Queue, taken: seq<Item>)
    returns (q': Queue)
    requires OnTrack(g, s, maxDepth, bfs, frontier, q, taken) && frontier != []
    requires Head(bfs, frontier).depth > maxDepth || Took(taken, Head(bfs, frontier).nodeID)
    ensures OnTrack(g, s, maxDepth, bfs, Tail(bfs, frontier), q', taken)
  {
    hide Drain;
    hide Unwind;
    hide Holds;
    q' := q;
    if bfs {
      q' := Advance(g, maxDepth, q, frontier, taken);
      SkippedHead(g, maxDepth, q', taken);
      HoldsTail(q', frontier, []);
      q' := q'.(level := q'.level[1..]);
    } else {
      StackStep(g, maxDepth, frontier, taken, {});
    }
  }

  lemma VisitStaysOnTrack(g: Graph, s: string, maxDepth: int, bfs: bool, frontier: seq<Item>, q: Queue, taken: seq<Item>,
                          visited: set<string>) returns (q': Queue)
    requires OnTrack(g, s, maxDepth, bfs, frontier, q, taken) && frontier != []
    requires Head(bfs, frontier).depth <= maxDepth && !Took(taken, Head(bfs, frontier).nodeID)
    requires forall v :: v in visited ==> Took(taken + [Head(bfs, frontier)], v)
    ensures var x := Head(bfs, frontier);
            OnTrack(g, s, maxDepth, bfs, Tail(bfs, frontier) + Children(Out(g, x.nodeID), visited, x.depth + 1), q', taken + [x])
  {
    hide Drain;
    hide Unwind;
    hide Holds;
    hide Took;
    q' := q;
    if bfs {
      var p := Advance(g, maxDepth, q, frontier, taken);
      var children := Children(Out(g, p.level[0]), visited, p.depth + 1);
      TakenHead(g, maxDepth, p, taken, visited);
      ChildrenAre(Out(g, p.level[0]), visited, p.depth + 1);
      HoldsTail(p, frontier, children);
      q' := Queue(p.level[1..], p.next + Names(children), p.depth);
    } else {
      StackStep(g, maxDepth, frontier, taken, visited);
    }
  }

  lemma NamesAre(taken: seq<Item>)
    ensures forall v :: v in Names(taken) <==> Took(taken, v)
  {
    forall v ensures v in Names(taken) <==> Took(taken, v) {
      if Took(taken, v) {
        var i :| 0 <= i < |taken| && taken[i].nodeID == v;
        assert Names(taken)[i] == v;
      }
    }
  }

  lemma NamesAfter(taken: seq<Item>, x: Item)
    ensures Names(taken + [x]) == Names(taken) + [x.nodeID]
    ensures Depths(taken + [x]) == Depths(taken) + [x.depth]
  {
  }

  /** Returns exactly the records and the outgoing edges of the nodes that the search takes, in the
      order in which it takes them: level by level for "bfs", and by recursive descent for any other
      order. Marking nodes when they leave the frontier, and duplicates on it, make no difference. The
      loop ends on every graph, cycles included. */
  method Traverse(g: Graph, startNode: string, maxDepth: int, order: string)
    returns (nodes: seq<GraphNode>, edges: seq<GraphEdge>)
    ensures var visits := Visits(g, startNode, maxDepth, order == "bfs");
            && nodes == NodesOf(g, visits) && edges == EdgesOf(g, visits)
            && RecordsInOrder(g, visits, nodes) && EdgesInOrder(g, visits, edges)
            && (forall r :: r in nodes <==> exists v :: v in visits && v in g.nodes && g.nodes[v] == r)
            && (forall e :: e in edges <==> exists v :: v in visits && v in g.edges && e in g.edges[v])
    ensures order == "bfs" ==>
              && (forall r :: r in nodes <==> exists v :: Within(g, startNode, v, maxDepth) && v in g.nodes && g.nodes[v] == r)
              && (forall e :: e in edges <==> exists v :: Within(g, startNode, v, maxDepth) && v in g.edges && e in g.edges[v])
  {
    hide OnTrack;
    hide Children;
    hide Out;
    hide Names;
    hide Took;
    hide NodesOf;
    hide EdgesOf;
    hide Within;
    hide RecordsInOrder;
    hide EdgesInOrder;
    var visited: set<string> := {};
    nodes, edges := [], [];
    ghost var taken: seq<Item> := [];
    var frontier := [Item(startNode, 0)];
    ghost var q := Queue([startNode], [], 0);
    ghost var search := Search(g, startNode, maxDepth, order == "bfs");
    StartOnTrack(g, startNode, maxDepth, order == "bfs");
    NothingVisited(g);
    while frontier != []
      invariant OnTrack(g, startNode, maxDepth, order == "bfs", frontier, q, taken)
      invariant visited == (set v | v in Names(taken)) && |taken| <= |search|
      invariant nodes == NodesOf(g, Names(taken)) && edges == EdgesOf(g, Names(taken))
      decreases |search| - |taken|, |frontier|
    {
      NamesAre(taken);
      ghost var before := frontier;
      var current;
      if order == "bfs" {
        current := frontier[0];
        frontier := frontier[1..];
      } else {
        current := frontier[|frontier| - 1];
        frontier := frontier[..|frontier| - 1];
      }
      if current.depth > maxDepth || current.nodeID in visited {
        q := SkipStaysOnTrack(g, startNode, maxDepth, order == "bfs", before, q, taken);
        continue;
      }
      visited := visited + {current.nodeID};
      if current.nodeID in g.nodes {
        nodes := nodes + [g.nodes[current.nodeID]];
      }
      frontier, edges := Expand(Out(g, current.nodeID), visited, current.depth + 1, frontier, edges);
      NamesAfter(taken, current);
      NamesAre(taken + [current]);
      q := VisitStaysOnTrack(g, startNode, maxDepth, order == "bfs", before, q, taken, visited);
      OneMoreVisit(g, Names(taken), current.nodeID);
      taken := taken + [current];
      TakenIsPrefix(g, startNode, maxDepth, order == "bfs", frontier, q, taken);
    }
    TakenIsPrefix(g, startNode, maxDepth, order == "bfs", frontier, q, taken);
    AnswerInOrder(g, Names(taken));
    AnswerMembers(g, Names(taken));
    if order == "bfs" {
      BfsAnswer(g, startNode, maxDepth);
    }
  }

  /** Breadth-first order answers for the nodes within the bound, and for no others. */
  lemma BfsAnswer(g: Graph, s: string, maxDepth: int)
    ensures forall v :: v in Visits(g, s, maxDepth, true) <==> Within(g, s, v, maxDepth)
  {
    SearchIsRight(g, s, maxDepth, true);
  }

  lemma NothingVisited(g: Graph)
    ensures Names([]) == [] && NodesOf(g, []) == [] && EdgesOf(g, []) == []
  {
  }

  lemma OneMoreVisit(g: Graph, visits: seq<string>, u: string)
    ensures NodesOf(g, visits + [u]) == NodesOf(g, visits) + RecordOf(g, u)
    ensures EdgesOf(g, visits + [u]) == EdgesOf(g, visits) + Out(g, u)
  {
    assert (visits + [u])[..|visits|] == visits;
  }

  // ---------------------------------------------------------------- what a search finds

  /** The invariant of a search in either order. */
  ghost predicate LoopInv(g: Graph, s: string, maxDepth: int, bfs: bool, frontier: seq<Item>, visits: seq<string>,
                          depths: seq<int>)
  {
    && SearchInv(g, s, maxDepth, frontier, visits, depths) && Begun(s, frontier, visits, depths)
    && (bfs ==> BfsInv(g, s, frontier, visits, depths))
  }

  lemma HeadAndTail(bfs: bool, frontier: seq<Item>)
    requires frontier != []
    ensures forall f :: f in frontier <==> f in Tail(bfs, frontier) || f == Head(bfs, frontier)
  {
    assert bfs ==> frontier == [Head(bfs, frontier)] + Tail(bfs, frontier);
    assert !bfs ==> frontier == Tail(bfs, frontier) + [Head(bfs, frontier)];
  }

  lemma BegunStays(s: string, bfs: bool, frontier: seq<Item>, visits: seq<string>, depths: seq<int>, children: seq<Item>)
    requires frontier != [] && Begun(s, frontier, visits, depths)
    ensures Begun(s, Tail(bfs, frontier), visits, depths)
    ensures var x := Head(bfs, frontier);
            Begun(s, Tail(bfs, frontier) + children, visits + [x.nodeID], depths + [x.depth])
  {
    HeadAndTail(bfs, frontier);
    assert Head(bfs, frontier) in frontier;
    assert visits != [] ==> (depths + [Head(bfs, frontier).depth])[0] == depths[0];
  }

  lemma DropStep(g: Graph, s: string, maxDepth: int, bfs: bool, frontier: seq<Item>, visits: seq<string>, depths: seq<int>)
    requires LoopInv(g, s, maxDepth, bfs, frontier, visits, depths) && frontier != []
    requires Head(bfs, frontier).depth > maxDepth || Head(bfs, frontier).nodeID in visits
    ensures LoopInv(g, s, maxDepth, bfs, Tail(bfs, frontier), visits, depths)
  {
    hide SearchInv;
    hide BfsInv;
    hide Begun;
    BegunStays(s, bfs, frontier, visits, depths, []);
    HeadAndTail(bfs, frontier);
    Drop(g, s, maxDepth, frontier, Tail(bfs, frontier), Head(bfs, frontier), visits, depths);
    if bfs {
      BfsDrop(g, s, frontier, visits, depths);
    }
  }

  /** The effect of one visit on all the invariants. */
  lemma VisitStep(g: Graph, s: string, maxDepth: int, bfs: bool, frontier: seq<Item>, visits: seq<string>, depths: seq<int>,
                  visited: set<string>)
    requires LoopInv(g, s, maxDepth, bfs, frontier, visits, depths) && frontier != []
    requires Head(bfs, frontier).depth <= maxDepth && Head(bfs, frontier).nodeID !in visits
    requires forall v :: v in visited <==> v in visits + [Head(bfs, frontier).nodeID]
    ensures var x := Head(bfs, frontier);
            var children := Children(Out(g, x.nodeID), visited, x.depth + 1);
            LoopInv(g, s, maxDepth, bfs, Tail(bfs, frontier) + children, visits + [x.nodeID], depths + [x.depth])
    ensures |visits| < |Ids(g, s)|
  {
    hide SearchInv;
    hide BfsInv;
    hide Begun;
    hide ChildrenOf;
    hide Children;
    hide Adjacent;
    hide Out;
    hide Ids;
    var x := Head(bfs, frontier);
    var children := Children(Out(g, x.nodeID), visited, x.depth + 1);
    HeadAndTail(bfs, frontier);
    ChildrenAreUnvisited(g, x, visited, visits + [x.nodeID]);
    BegunStays(s, bfs, frontier, visits, depths, children);
    Visit(g, s, maxDepth, frontier, Tail(bfs, frontier), x, visits, depths, children);
    SearchIsSound(g, s, maxDepth, Tail(bfs, frontier) + children, visits + [x.nodeID], depths + [x.depth]);
    if bfs {
      BfsVisit(g, s, maxDepth, frontier, visits, depths, children);
    }
  }

  /** What a finished search has done: `visits` lists the visited nodes in order, `depths` the depths at
      which they were taken. The start comes first; nodes are visited once and within the bound only;
      every target of a node above the bound is visited. Breadth-first order visits all nodes within the
      bound, nearest first. Either order visits exactly the reachable nodes when the bound is at least
      the number of nodes less one. */
  ghost predicate IsSearch(g: Graph, s: string, maxDepth: int, bfs: bool, visits: seq<string>, depths: seq<int>) {
    && Distinct(visits) && |depths| == |visits|
    && (if maxDepth < 0 then visits == [] else visits != [] && visits[0] == s && depths[0] == 0)
    && (forall i :: 0 <= i < |visits| ==> 0 <= depths[i] <= maxDepth && Reaches(g, s, visits[i], depths[i]))
    && (forall i, v :: 0 <= i < |visits| && depths[i] < maxDepth && Adjacent(g, visits[i], v) ==> v in visits)
    && (bfs ==> NearestFirst(g, s, visits, depths) && forall v :: v in visits <==> Within(g, s, v, maxDepth))
    && (BigEnough(g, s, maxDepth) ==> forall v :: v in visits <==> Reachable(g, s, v))
  }

  lemma LoopEnds(g: Graph, s: string, maxDepth: int, bfs: bool, visits: seq<string>, depths: seq<int>)
    requires LoopInv(g, s, maxDepth, bfs, [], visits, depths)
    ensures IsSearch(g, s, maxDepth, bfs, visits, depths)
  {
    if bfs {
      BfsIsComplete(g, s, maxDepth, visits, depths);
    }
    if BigEnough(g, s, maxDepth) {
      DeepSearchIsComplete(g, s, maxDepth, visits, depths);
    }
  }

  /** The invariant carries every search to its end. */
  lemma {:induction false} Finish(g: Graph, s: string, maxDepth: int, bfs: bool, frontier: seq<Item>, q: Queue, taken: seq<Item>)
    requires LoopInv(g, s, maxDepth, bfs, frontier, Names(taken), Depths(taken))
    requires OnTrack(g, s, maxDepth, bfs, frontier, q, taken) && |taken| <= |Ids(g, s)|
    ensures IsSearch(g, s, maxDepth, bfs, Visits(g, s, maxDepth, bfs), Depths(Search(g, s, maxDepth, bfs)))
    decreases |Ids(g, s)| - |taken|, |frontier|
  {
    hide LoopInv;
    hide OnTrack;
    hide IsSearch;
    hide Search;
    hide Children;
    hide Out;
    hide Took;
    hide Ids;
    NamesAre(taken);
    if frontier == [] {
      TakenIsPrefix(g, s, maxDepth, bfs, frontier, q, taken);
      LoopEnds(g, s, maxDepth, bfs, Names(taken), Depths(taken));
    } else {
      var x := Head(bfs, frontier);
      if x.depth > maxDepth || x.nodeID in Names(taken) {
        DropStep(g, s, maxDepth, bfs, frontier, Names(taken), Depths(taken));
        var q' := SkipStaysOnTrack(g, s, maxDepth, bfs, frontier, q, taken);
        Finish(g, s, maxDepth, bfs, Tail(bfs, frontier), q', taken);
      } else {
        NamesAfter(taken, x);
        NamesAre(taken + [x]);
        var visited := set v | v in Names(taken + [x]);
        VisitStep(g, s, maxDepth, bfs, frontier, Names(taken), Depths(taken), visited);
        var q' := VisitStaysOnTrack(g, s, maxDepth, bfs, frontier, q, taken, visited);
        Finish(g, s, maxDepth, bfs, Tail(bfs, frontier) + Children(Out(g, x.nodeID), visited, x.depth + 1), q', taken + [x]);
      }
    }
  }

  /** Every search of either order is as IsSearch says. */
  lemma SearchIsRight(g: Graph, s: string, maxDepth: int, bfs: bool)
    ensures IsSearch(g, s, maxDepth, bfs, Visits(g, s, maxDepth, bfs), Depths(Search(g, s, maxDepth, bfs)))
  {
    StartOnTrack(g, s, maxDepth, bfs);
    SearchStarts(g, s, maxDepth);
    Finish(g, s, maxDepth, bfs, [Item(s, 0)], Queue([s], [], 0), []);
  }

  // ---------------------------------------------------------------- what the answer depends on

  lemma LastShare(g: Graph, visits: seq<string>)
    requires visits != []
    ensures var n := |visits| - 1;
            && multiset(NodesOf(g, visits)) == multiset(NodesOf(g, visits[..n])) + multiset(RecordOf(g, visits[n]))
            && multiset(EdgesOf(g, visits)) == multiset(EdgesOf(g, visits[..n])) + multiset(Out(g, visits[n]))
  {
  }

  /** A node's share of the answer does not depend on when it was visited. */
  lemma {:induction false} ShareOf(g: Graph, visits: seq<string>, j: nat)
    requires j < |visits|
    ensures multiset(NodesOf(g, visits)) == multiset(NodesOf(g, Without(visits, j))) + multiset(RecordOf(g, visits[j]))
    ensures multiset(EdgesOf(g, visits)) == multiset(EdgesOf(g, Without(visits, j))) + multiset(Out(g, visits[j]))
    decreases |visits|
  {
    hide NodesOf;
    hide EdgesOf;
    hide RecordOf;
    hide Out;
    var n := |visits| - 1;
    LastShare(g, visits);
    if j < n {
      ShareOf(g, visits[..n], j);
      var rest := Without(visits, j);
      LastShare(g, rest);
      assert rest[..|rest| - 1] == Without(visits[..n], j) && rest[|rest| - 1] == visits[n];
    } else {
      assert Without(visits, j) == visits[..n];
    }
  }

  lemma {:induction false} PermutedVisits(g: Graph, xs: seq<string>, ys: seq<string>)
    requires multiset(xs) == multiset(ys)
    ensures multiset(NodesOf(g, xs)) == multiset(NodesOf(g, ys))
    ensures multiset(EdgesOf(g, xs)) == multiset(EdgesOf(g, ys))
    decreases |xs|
  {
    SameSize(xs, ys);
    if xs != [] {
      assert xs[0] in multiset(ys);
      var j :| 0 <= j < |ys| && ys[j] == xs[0];
      WithoutOne(xs, 0);
      WithoutOne(ys, j);
      CancelOne(multiset(Without(xs, 0)), multiset(Without(ys, j)), xs[0]);
      PermutedVisits(g, Without(xs, 0), Without(ys, j));
      ShareOf(g, xs, 0);
      ShareOf(g, ys, j);
    }
  }

  lemma {:induction false} DistinctCounts(xs: seq<string>, v: string)
    requires Distinct(xs)
    ensures multiset(xs)[v] == if v in xs then 1 else 0
  {
    if xs != [] {
      var n := |xs| - 1;
      DistinctCounts(xs[..n], v);
      assert xs == xs[..n] + [xs[n]];
    }
  }

  /** Where depth-first order finds everything within the bound, the two orders return the same records
      and the same edges, each as often, in different order. */
  lemma AnswersArePermutations(g: Graph, s: string, maxDepth: int)
    requires FindsAll(g, s, maxDepth)
    ensures multiset(NodesOf(g, Visits(g, s, maxDepth, true))) == multiset(NodesOf(g, Visits(g, s, maxDepth, false)))
    ensures multiset(EdgesOf(g, Visits(g, s, maxDepth, true))) == multiset(EdgesOf(g, Visits(g, s, maxDepth, false)))
  {
    hide NodesOf;
    hide EdgesOf;
    hide Visits;
    var xs, ys := Visits(g, s, maxDepth, true), Visits(g, s, maxDepth, false);
    SearchIsRight(g, s, maxDepth, true);
    SearchIsRight(g, s, maxDepth, false);
    assert forall v :: v in xs <==> v in ys;
    assert Distinct(xs) && Distinct(ys);
    hide IsSearch;
    forall v ensures multiset(xs)[v] == multiset(ys)[v] {
      DistinctCounts(xs, v);
      DistinctCounts(ys, v);
    }
    PermutedVisits(g, xs, ys);
  }

  // ---------------------------------------------------------------- depth first goes deeper first

  /** The `j`-th edge of `u` is the last one whose target is not among the visits. */
  ghost predicate LastNew(g: Graph, u: string, visits: seq<string>, j: int) {
    && u in g.edges && 0 <= j < |g.edges[u]| && g.edges[u][j].toID !in visits
    && forall l :: j < l < |g.edges[u]| ==> g.edges[u][l].toID in visits
  }

  /** What comes after `x`, the last of the visits, begins with the last target that it leaves to visit. */
  ghost predicate GoesOn(g: Graph, maxDepth: int, visits: seq<string>, x: Item, after: seq<Item>) {
    forall j :: x.depth < maxDepth && LastNew(g, x.nodeID, visits, j) ==>
      after != [] && after[0] == Item(g.edges[x.nodeID][j].toID, x.depth + 1)
  }

  ghost predicate LeadsOn(g: Graph, maxDepth: int, items: seq<Item>, i: nat)
    requires i < |items|
  {
    GoesOn(g, maxDepth, Names(items[..i + 1]), items[i], items[i + 1..])
  }

  lemma GoesOnLonger(g: Graph, maxDepth: int, visits: seq<string>, x: Item, after: seq<Item>, after': seq<Item>)
    requires GoesOn(g, maxDepth, visits, x, after) && after <= after'
    ensures GoesOn(g, maxDepth, visits, x, after')
  {
  }

  lemma LeadsOnLonger(g: Graph, maxDepth: int, items: seq<Item>, items': seq<Item>, i: nat)
    requires i < |items| && items <= items' && LeadsOn(g, maxDepth, items, i)
    ensures LeadsOn(g, maxDepth, items', i)
  {
    hide GoesOn;
    hide Names;
    assert items'[..i + 1] == items[..i + 1] && items'[i] == items[i];
    assert items[i + 1..] <= items'[i + 1..];
    GoesOnLonger(g, maxDepth, Names(items[..i + 1]), items[i], items[i + 1..], items'[i + 1..]);
  }

  lemma {:induction false} FirstOfDescents(g: Graph, maxDepth: int, es: seq<GraphEdge>, depth: int, taken: seq<Item>, j: nat)
    requires depth <= maxDepth && j < |es| && !Took(taken, es[j].toID)
    requires forall l :: j < l < |es| ==> Took(taken, es[l].toID)
    ensures taken + [Item(es[j].toID, depth)] <= DescendAll(g, maxDepth, es, depth, taken)
    decreases |es|
  {
    hide Took;
    var n := |es| - 1;
    var taken' := Descend(g, maxDepth, es[n].toID, depth, taken);
    if j == n {
      DescentsGrow(g, maxDepth, Out(g, es[n].toID), depth + 1, taken + [Item(es[n].toID, depth)]);
      DescentsGrow(g, maxDepth, es[..n], depth, taken');
    } else {
      FirstOfDescents(g, maxDepth, es[..n], depth, taken, j);
    }
  }

  /** The item just taken leads on. */
  lemma NewItemLeads(g: Graph, maxDepth: int, x: Item, taken: seq<Item>)
    ensures var r := DescendAll(g, maxDepth, Out(g, x.nodeID), x.depth + 1, taken + [x]);
            |taken| < |r| && LeadsOn(g, maxDepth, r, |taken|)
  {
    hide Took;
    var taken1, es := taken + [x], Out(g, x.nodeID);
    var r := DescendAll(g, maxDepth, es, x.depth + 1, taken1);
    DescentsGrow(g, maxDepth, es, x.depth + 1, taken1);
    NamesAre(taken1);
    forall j | x.depth < maxDepth && LastNew(g, x.nodeID, Names(taken1), j) ensures taken1 + [Item(es[j].toID, x.depth + 1)] <= r {
      FirstOfDescents(g, maxDepth, es, x.depth + 1, taken1, j);
    }
    assert r[..|taken| + 1] == taken1 && r[|taken|] == x;
  }

  lemma {:induction false} DescentLeads(g: Graph, maxDepth: int, u: string, depth: int, taken: seq<Item>, i: nat)
    requires |taken| <= i < |Descend(g, maxDepth, u, depth, taken)|
    ensures LeadsOn(g, maxDepth, Descend(g, maxDepth, u, depth, taken), i)
    decreases Left(maxDepth, depth), 0
  {
    hide LeadsOn;
    var x := Item(u, depth);
    if i == |taken| {
      NewItemLeads(g, maxDepth, x, taken);
    } else {
      DescentsLead(g, maxDepth, Out(g, u), depth + 1, taken + [x], i);
    }
  }

  lemma {:induction false} DescentsLead(g: Graph, maxDepth: int, es: seq<GraphEdge>, depth: int, taken: seq<Item>, i: nat)
    requires |taken| <= i < |DescendAll(g, maxDepth, es, depth, taken)|
    ensures LeadsOn(g, maxDepth, DescendAll(g, maxDepth, es, depth, taken), i)
    decreases Left(maxDepth, depth), |es|
  {
    hide LeadsOn;
    var n := |es| - 1;
    var taken' := Descend(g, maxDepth, es[n].toID, depth, taken);
    if i < |taken'| {
      DescentLeads(g, maxDepth, es[n].toID, depth, taken, i);
      DescentsGrow(g, maxDepth, es[..n], depth, taken');
      LeadsOnLonger(g, maxDepth, taken', DescendAll(g, maxDepth, es[..n], depth, taken'), i);
    } else {
      DescentsLead(g, maxDepth, es[..n], depth, taken', i);
    }
  }

  /** Depth first in the literal sense: within the bound, a visited node with targets not yet visited is
      followed by the last of them, one deeper. */
  lemma DeeperFirst(g: Graph, s: string, maxDepth: int, i: nat, j: int)
    requires var visits, depths := Visits(g, s, maxDepth, false), Depths(Search(g, s, maxDepth, false));
             i < |visits| && depths[i] < maxDepth && LastNew(g, visits[i], visits[..i + 1], j)
    ensures var visits, depths := Visits(g, s, maxDepth, false), Depths(Search(g, s, maxDepth, false));
            && i + 1 < |visits| && visits[i + 1] == g.edges[visits[i]][j].toID && depths[i + 1] == depths[i] + 1
  {
    var items := Descend(g, maxDepth, s, 0, []);
    DescentLeads(g, maxDepth, s, 0, [], i);
    assert Names(items)[..i + 1] == Names(items[..i + 1]);
  }

  // ---------------------------------------------------------------- depth first with a smaller bound

  /** Does depth-first order visit every node within the bound? */
  ghost predicate FindsAll(g: Graph, s: string, maxDepth: int) {
    forall v :: Within(g, s, v, maxDepth) <==> v in Visits(g, s, maxDepth, false)
  }

  predicate Precedes(a: string, b: string) {
    b != "" && (a == "" || a[0] < b[0] || (a[0] == b[0] && Precedes(a[1..], b[1..])))
  }

  /** What follows the scanned prefix in the key under which an edge is stored. */
  function EdgeKey(e: GraphEdge): string { e.edgeType + "/" + e.toID }

  /** Graphs as the store yields them: identifiers are non-empty and free of slashes, and a scan lists
      the edges of their node in ascending order of their keys. */
  ghost predicate FromStore(g: Graph) {
    && (forall u :: u in g.edges ==> u != "" && '/' !in u)
    && (forall u, i :: u in g.edges && 0 <= i < |g.edges[u]| ==>
          var e := g.edges[u][i]; e.fromID == u && e.toID != "" && '/' !in e.toID)
    && (forall u, i, j :: u in g.edges && 0 <= i < j < |g.edges[u]| ==>
          Precedes(EdgeKey(g.edges[u][i]), EdgeKey(g.edges[u][j])))
  }

  /** The bound is enough for every stored graph and start with `n` identifiers. */
  ghost predicate Suffices(n: nat, maxDepth: int) {
    forall g, s :: FromStore(g) && |Ids(g, s)| == n ==> FindsAll(g, s, maxDepth)
  }

  /** A bound of at most one, or of all nodes but one, is enough. */
  lemma BoundIsEnough(g: Graph, s: string, maxDepth: int)
    requires maxDepth <= 1 || BigEnough(g, s, maxDepth)
    ensures FindsAll(g, s, maxDepth)
  {
    var visits := Visits(g, s, maxDepth, false);
    SearchIsRight(g, s, maxDepth, false);
    hide Visits;
    hide Search;
    forall v ensures Within(g, s, v, maxDepth) <==> v in visits {
      if Within(g, s, v, maxDepth) && !BigEnough(g, s, maxDepth) {
        var n :| 0 <= n <= maxDepth && Reaches(g, s, v, n);
        if n == 1 {
          var u := ReachesPrevious(g, s, v, n);
          assert visits[0] == u;
        }
      }
    }
  }

  // The graph of the other bounds: a chain of n nodes, 0 to 1 to 2 and so on, with a short cut from 0 to 2.

  function Node(i: nat): (u: string)
    ensures |u| == i + 1 && '/' !in u
  {
    seq(i + 1, _ => 'x')
  }

  function Link(i: nat, j: nat): GraphEdge {
    GraphEdge(Node(i), if j == i + 1 then "next" else "cut", Node(j), map[])
  }

  ghost function Nodes(n: nat): set<string> {
    set i | 0 <= i < n :: Node(i)
  }

  function LinksFrom(i: nat): seq<GraphEdge> {
    if i == 0 then [Link(0, 2), Link(0, 1)] else [Link(i, i + 1)]
  }

  ghost function Chain(n: nat): Graph
    requires n >= 3
  {
    Graph(map[], map u | u in Nodes(n - 1) && u != "" :: LinksFrom(|u| - 1))
  }

  lemma NodesApart(i: nat, n: nat)
    ensures Node(i) in Nodes(n) <==> i < n
  {
    if Node(i) in Nodes(n) {
      var j :| 0 <= j < n && Node(j) == Node(i);
      assert |Node(j)| == |Node(i)|;
    }
  }

  lemma ChainEdges(n: nat, i: nat)
    requires n >= 3
    ensures Node(i) in Chain(n).edges <==> i < n - 1
    ensures i < n - 1 ==> Chain(n).edges[Node(i)] == LinksFrom(i)
  {
    NodesApart(i, n - 1);
  }

  lemma ChainSource(n: nat, u: string) returns (i: nat)
    requires n >= 3 && u in Chain(n).edges
    ensures i < n - 1 && u == Node(i) && Chain(n).edges[u] == LinksFrom(i)
  {
    i :| i < n - 1 && Node(i) == u;
    hide Nodes;
    ChainEdges(n, i);
  }

  lemma ChainLinks(n: nat, i: nat)
    requires n >= 3 && i < n
    ensures Out(Chain(n), Node(i)) == if i < n - 1 then LinksFrom(i) else []
  {
    hide Chain;
    ChainEdges(n, i);
  }

  lemma CutPrecedesNext()
    ensures Precedes(EdgeKey(Link(0, 2)), EdgeKey(Link(0, 1)))
  {
    assert EdgeKey(Link(0, 2))[0] == 'c' && EdgeKey(Link(0, 1))[0] == 'n';
  }

  ghost predicate IsLinks(u: string, es: seq<GraphEdge>) {
    exists i: nat :: u == Node(i) && es == LinksFrom(i)
  }

  lemma ChainIsStored(n: nat)
    requires n >= 3
    ensures FromStore(Chain(n))
  {
    hide Chain;
    hide Precedes;
    hide EdgeKey;
    var g := Chain(n);
    CutPrecedesNext();
    forall u | u in g.edges ensures u != "" && '/' !in u && IsLinks(u, g.edges[u]) {
      var i := ChainSource(n, u);
    }
  }

  lemma {:induction false} NodesCount(n: nat)
    ensures |Nodes(n)| == n
  {
    if n > 0 {
      NodesCount(n - 1);
      forall u ensures u in Nodes(n) <==> u in Nodes(n - 1) || u == Node(n - 1) {}
      assert Nodes(n) == Nodes(n - 1) + {Node(n - 1)};
      assert forall i :: 0 <= i < n - 1 ==> |Node(i)| < n;
      assert Node(n - 1) !in Nodes(n - 1);
    }
  }

  lemma ChainId(n: nat, k: nat)
    requires n >= 3 && k < n
    ensures Node(k) in Ids(Chain(n), Node(0))
  {
    hide Chain;
    var g := Chain(n);
    var from, i := if k <= 2 then 0 else k - 1, if k == 1 then 1 else 0;
    ChainEdges(n, from);
    assert k > 0 ==> g.edges[Node(from)][i].toID == Node(k);
  }

  lemma ChainTarget(n: nat, u: string, i: nat)
    requires n >= 3 && u in Chain(n).edges && i < |Chain(n).edges[u]|
    ensures Chain(n).edges[u][i].toID in Nodes(n)
  {
    hide Chain;
    hide Nodes;
    var k := ChainSource(n, u);
    NodesApart(k + 1, n);
    NodesApart(2, n);
  }

  lemma ChainIds(n: nat)
    requires n >= 3
    ensures |Ids(Chain(n), Node(0))| == n
  {
    hide Chain;
    hide Node;
    var g := Chain(n);
    var ids := Ids(g, Node(0));
    NodesApart(0, n);
    forall v | v in ids ensures v in Nodes(n) {
      if v != Node(0) {
        var u, i :| u in g.edges && 0 <= i < |g.edges[u]| && g.edges[u][i].toID == v;
        ChainTarget(n, u, i);
      }
    }
    hide Ids;
    forall v | v in Nodes(n) ensures v in ids {
      var k: nat :| k < n && Node(k) == v;
      ChainId(n, k);
    }
    assert ids == Nodes(n);
    NodesCount(n);
  }

  /** The first nodes of the chain, each as deep as the chain is long so far. */
  ghost function Line(n: nat): seq<Item> {
    seq(n, i requires 0 <= i < n => Item(Node(i), i))
  }

  lemma LineTook(n: nat, i: nat)
    ensures Took(Line(n), Node(i)) <==> i < n
  {
    if i < n {
      assert Line(n)[i].nodeID == Node(i);
    }
  }

  lemma DescendIn(g: Graph, maxDepth: int, u: string, depth: int, taken: seq<Item>)
    requires depth <= maxDepth && !Took(taken, u)
    ensures Descend(g, maxDepth, u, depth, taken) == DescendAll(g, maxDepth, Out(g, u), depth + 1, taken + [Item(u, depth)])
  {
  }

  lemma DescendOne(g: Graph, maxDepth: int, e: GraphEdge, depth: int, taken: seq<Item>)
    ensures DescendAll(g, maxDepth, [e], depth, taken) == Descend(g, maxDepth, e.toID, depth, taken)
  {
    assert [e][..0] == [];
  }

  lemma DescendTwo(g: Graph, maxDepth: int, e: GraphEdge, f: GraphEdge, depth: int, taken: seq<Item>)
    ensures DescendAll(g, maxDepth, [e, f], depth, taken)
         == Descend(g, maxDepth, e.toID, depth, Descend(g, maxDepth, f.toID, depth, taken))
  {
    assert [e, f][..1] == [e];
    DescendOne(g, maxDepth, e, depth, Descend(g, maxDepth, f.toID, depth, taken));
  }

  lemma LineNext(i: nat)
    ensures Line(i) + [Item(Node(i), i)] == Line(i + 1)
  {
  }

  lemma {:induction false} ChainDescent(n: nat, maxDepth: nat, i: nat)
    requires 2 <= maxDepth <= n - 2 && 1 <= i <= maxDepth + 1
    ensures Descend(Chain(n), maxDepth, Node(i), i, Line(i)) == Line(maxDepth + 1)
    decreases maxDepth + 1 - i
  {
    if i <= maxDepth {
      var g := Chain(n);
      hide DescendAll;
      hide Took;
      hide Line;
      hide Chain;
      hide Out;
      LineTook(i, i);
      ChainLinks(n, i);
      LineNext(i);
      DescendIn(g, maxDepth, Node(i), i, Line(i));
      DescendOne(g, maxDepth, Link(i, i + 1), i + 1, Line(i + 1));
      ChainDescent(n, maxDepth, i + 1);
    }
  }

  /** The node past the short cut is taken along the chain, one step too deep. */
  lemma ChainSearch(n: nat, maxDepth: nat)
    requires 2 <= maxDepth <= n - 2
    ensures Search(Chain(n), Node(0), maxDepth, false) == Line(maxDepth + 1)
  {
    var g := Chain(n);
    hide DescendAll;
    hide Took;
    hide Line;
    hide Chain;
    hide Out;
    LineEmpty();
    LineTook(0, 0);
    LineTook(maxDepth + 1, 2);
    ChainLinks(n, 0);
    LineNext(0);
    DescendIn(g, maxDepth, Node(0), 0, Line(0));
    DescendTwo(g, maxDepth, Link(0, 2), Link(0, 1), 1, Line(1));
    ChainDescent(n, maxDepth, 1);
  }

  lemma LineEmpty()
    ensures Line(0) == []
  {
  }

  lemma {:induction false} ChainReaches(n: nat, k: nat)
    requires 2 <= k < n
    ensures Reaches(Chain(n), Node(0), Node(k), k - 1)
  {
    var g := Chain(n);
    if k == 2 {
      ReachesSelf(g, Node(0));
      ChainLinks(n, 0);
      assert Out(g, Node(0))[0].toID == Node(2);
      ReachesNext(g, Node(0), Node(0), Node(2), 0);
    } else {
      ChainReaches(n, k - 1);
      ChainLinks(n, k - 1);
      assert Out(g, Node(k - 1))[0].toID == Node(k);
      ReachesNext(g, Node(0), Node(k - 1), Node(k), k - 2);
    }
  }

  /** For every bound in between there is a stored graph of `n` identifiers in which depth-first order misses a
      node within the bound: it takes the detour first and then does not go back. */
  lemma DepthFirstCanMiss(n: nat, maxDepth: nat)
    requires 2 <= maxDepth <= n - 2
    ensures FromStore(Chain(n)) && |Ids(Chain(n), Node(0))| == n
    ensures Within(Chain(n), Node(0), Node(maxDepth + 1), maxDepth)
    ensures Node(maxDepth + 1) !in Visits(Chain(n), Node(0), maxDepth, false)
  {
    hide Chain;
    hide Search;
    hide Ids;
    hide Reaches;
    hide Line;
    hide Names;
    hide Took;
    hide Node;
    ChainIds(n);
    ChainIsStored(n);
    ChainReaches(n, maxDepth + 1);
    ChainSearch(n, maxDepth);
    LineTook(maxDepth + 1, maxDepth + 1);
    NamesAre(Line(maxDepth + 1));
  }

  /** Exactly which bounds are enough for depth-first order on every stored graph with `n` identifiers. */
  lemma SufficesExactly(n: nat, maxDepth: int)
    ensures Suffices(n, maxDepth) <==> maxDepth <= 1 || maxDepth >= n - 1
  {
    if maxDepth <= 1 || maxDepth >= n - 1 {
      forall g, s | FromStore(g) && |Ids(g, s)| == n ensures FindsAll(g, s, maxDepth) {
        BoundIsEnough(g, s, maxDepth);
      }
    } else {
      DepthFirstCanMiss(n, maxDepth);
      assert !FindsAll(Chain(n), Node(0), maxDepth);
    }
  }
}
