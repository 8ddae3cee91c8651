/**
 * Shortest paths from one airport by Dijkstra's algorithm over the undirected multigraph, in the
 * two integer-weighted modes: 1 weighs an edge by its distance, 3 by one hop.
 *
 * The search state (distTo, edgeTo and the set of vertices in the priority queue) is modelled
 * as a value, Search, and each step of the algorithm as a function on it; the class runs the
 * same steps on its arrays. The invariant Searching says that every vertex with a finite
 * distance is either still in the queue or has all its edges relaxed, and that every tree edge
 * leads from a vertex whose distance plus the edge's weight is at most the distance of the
 * vertex it reaches. Ghost stamps, the time at which each distance was last lowered, order the
 * tree edges of equal weight so that following edgeTo always ends at the source.
 */
module ShortestPaths {
  import opened Wrappers
  import opened Edges
  import opened WeightedGraph

  datatype SpError = NegativeDistance | NegativePrice | ArrayIndexOutOfBounds

  /** A distance: Double.POSITIVE_INFINITY or a whole number. */
  datatype Dist = Inf | Fin(n: int)

  /** The weight of an edge in a mode: its distance in mode 1, one hop in mode 3. */
  function Weight(e: Edge, mode: int): int {
    if mode == 1 then e.dist else 1
  }

  predicate IntMode(mode: int) {
    mode == 1 || mode == 3
  }

  /** d + w, where infinity absorbs every weight. */
  function Plus(d: Dist, w: int): Dist {
    if d.Inf? then Inf else Fin(d.n + w)
  }

  /** x < y, where infinity is above every number and not below itself. */
  predicate Below(x: Dist, y: Dist) {
    x.Fin? && (y.Inf? || x.n < y.n)
  }

  predicate AtMost(x: Dist, y: Dist) {
    !Below(y, x)
  }

  /** The vertex at the other end of an edge incident on x. */
  function OtherEnd(e: Edge, x: int): int {
    if x == e.v then e.w else e.v
  }

  /** The state of the search: distTo, edgeTo and the vertices in the priority queue. */
  datatype Search = Search(dist: seq<Dist>, edgeTo: seq<Edge?>, pq: set<int>)

  /** The graph the search runs on: the shape of its lists and no negative distance. */
  ghost predicate Graph(g: seq<seq<Edge>>) {
    && Shaped(g)
    && forall x, i :: 0 <= x < |g| && 0 <= i < |g[x]| ==> g[x][i].dist >= 0
  }

  /** Every edge of a vertex's list has both ends in range, that vertex as one, and no negative distance. */
  ghost predicate Ends(g: seq<seq<Edge>>) {
    forall x, i :: 0 <= x < |g| && 0 <= i < |g[x]| ==> Incident(g[x][i], x, |g|) && g[x][i].dist >= 0
  }

  lemma GraphEnds(g: seq<seq<Edge>>)
    requires Graph(g)
    ensures Ends(g) && AllIncident(g)
  {
  }

  lemma EndsIncident(g: seq<seq<Edge>>)
    requires Ends(g)
    ensures AllIncident(g)
  {
    forall x, i | 0 <= x < |g| && 0 <= i < |g[x]| ensures g[x][i].v == x || g[x][i].w == x {
      assert Incident(g[x][i], x, |g|);
    }
  }

  /**
   * relax(e, v): lower distTo[w] through v when that is shorter, and queue w. Afterwards e is
   * relaxed from v, w's distance has not grown, and no other vertex's entry has changed.
   */
  function RelaxStep(st: Search, e: Edge, v: int, mode: int): (r: Search)
    requires 0 <= v < |st.dist| && 0 <= OtherEnd(e, v) < |st.dist| == |st.edgeTo|
    ensures |r.dist| == |st.dist| && |r.edgeTo| == |st.edgeTo|
    ensures AtMost(r.dist[OtherEnd(e, v)], Plus(st.dist[v], Weight(e, mode)))
    ensures AtMost(r.dist[OtherEnd(e, v)], st.dist[OtherEnd(e, v)])
    ensures r.dist[OtherEnd(e, v)] != st.dist[OtherEnd(e, v)] ==> r.edgeTo[OtherEnd(e, v)] == e
    ensures forall x :: 0 <= x < |st.dist| && x != OtherEnd(e, v) ==>
      r.dist[x] == st.dist[x] && r.edgeTo[x] == st.edgeTo[x]
    ensures st.pq <= r.pq && r.pq - st.pq <= {OtherEnd(e, v)}
  {
    var w := OtherEnd(e, v);
    var nd := Plus(st.dist[v], Weight(e, mode));
    if Below(nd, st.dist[w]) then Search(st.dist[w := nd], st.edgeTo[w := e], st.pq + {w}) else st
  }

  /** Edge e of vertex x is relaxed: it cannot bring its other end closer. */
  ghost predicate EdgeRelaxed(mode: int, dist: seq<Dist>, x: int, e: Edge) {
    var w := OtherEnd(e, x);
    0 <= x < |dist| && 0 <= w < |dist| && AtMost(dist[w], Plus(dist[x], Weight(e, mode)))
  }

  /** The first j edges of vertex x are relaxed. */
  ghost predicate RelaxedUpTo(g: seq<seq<Edge>>, mode: int, dist: seq<Dist>, x: int, j: int)
    requires 0 <= x < |g|
  {
    forall i :: 0 <= i < j && i < |g[x]| ==> EdgeRelaxed(mode, dist, x, g[x][i])
  }

  /**
   * edgeTo[x] = e is a tree edge: it is a non-loop edge in the list of its other end p, p's
   * distance plus its weight is at most x's, and when they are equal p's distance was set
   * before x's.
   */
  ghost predicate TreeEdge(g: seq<seq<Edge>>, mode: int, dist: seq<Dist>, stamp: seq<nat>, x: int, e: Edge)
    requires 0 <= x < |g| == |dist| == |stamp|
  {
    var p := OtherEnd(e, x);
    && (e.v == x || e.w == x) && !IsLoop(e) && 0 <= p < |g| && e in g[p]
    && dist[p].Fin? && dist[x].Fin? && dist[x].n >= dist[p].n + Weight(e, mode)
    && (dist[x].n == dist[p].n + Weight(e, mode) ==> stamp[p] < stamp[x])
  }

  /** What the invariant says of vertex x while vertex cur has had its first j edges relaxed. */
  ghost predicate VertexOk(g: seq<seq<Edge>>, s: int, mode: int, st: Search, stamp: seq<nat>, clock: nat,
                           cur: int, j: int, x: int)
    requires 0 <= x < |g| == |st.dist| == |st.edgeTo| == |stamp|
  {
    && (st.dist[x].Fin? ==> st.dist[x].n >= 0)
    && (x != s ==> (st.edgeTo[x] == null <==> st.dist[x].Inf?))
    && (st.edgeTo[x] != null ==> TreeEdge(g, mode, st.dist, stamp, x, st.edgeTo[x]))
    && stamp[x] < clock
    && (st.dist[x].Fin? && x !in st.pq ==> RelaxedUpTo(g, mode, st.dist, x, if x == cur then j else |g[x]|))
  }

  /** The invariant of the search while vertex cur (or none, -1) has its first j edges relaxed. */
  ghost predicate Searching(g: seq<seq<Edge>>, s: int, mode: int, st: Search, stamp: seq<nat>, clock: nat,
                            cur: int, j: int)
  {
    && Ends(g) && IntMode(mode)
    && |st.dist| == |g| && |st.edgeTo| == |g| && |stamp| == |g|
    && 0 <= s < |g| && st.dist[s] == Fin(0) && st.edgeTo[s] == null
    && (forall x :: x in st.pq ==> 0 <= x < |g| && st.dist[x].Fin?)
    && (cur != -1 ==> 0 <= cur < |g| && st.dist[cur].Fin? && cur !in st.pq && 0 <= j <= |g[cur]|)
    && (forall x :: 0 <= x < |g| ==> VertexOk(g, s, mode, st, stamp, clock, cur, j, x))
  }

  lemma EdgeEnds(g: seq<seq<Edge>>, x: int, i: int)
    requires Ends(g) && 0 <= x < |g| && 0 <= i < |g[x]|
    ensures Incident(g[x][i], x, |g|) && 0 <= OtherEnd(g[x][i], x) < |g|
    ensures g[x][i].dist >= 0
  {
  }

  /** Where relax(e, cur) for the j-th edge e of cur leads, and whether it lowers the distance. */
  function Improves(g: seq<seq<Edge>>, mode: int, st: Search, cur: int, j: int): bool
    requires 0 <= cur < |g| == |st.dist| && 0 <= j < |g[cur]|
    requires 0 <= OtherEnd(g[cur][j], cur) < |g|
  {
    Below(Plus(st.dist[cur], Weight(g[cur][j], mode)), st.dist[OtherEnd(g[cur][j], cur)])
  }

  /** A relaxation never lowers the distance of the source or of the vertex it starts from. */
  lemma ImproveTarget(g: seq<seq<Edge>>, s: int, mode: int, st: Search, stamp: seq<nat>, clock: nat, cur: int, j: int)
    requires Searching(g, s, mode, st, stamp, clock, cur, j) && cur != -1 && j < |g[cur]|
    ensures 0 <= OtherEnd(g[cur][j], cur) < |g|
    ensures Improves(g, mode, st, cur, j) ==>
      var e := g[cur][j]; var w := OtherEnd(e, cur);
      w != s && w != cur && !IsLoop(e) && OtherEnd(e, w) == cur && Weight(e, mode) >= 0
  {
    EdgeEnds(g, cur, j);
    assert VertexOk(g, s, mode, st, stamp, clock, cur, j, cur);
  }

  /** The stamps after relaxing the j-th edge of cur: the target gets the current time when it improves. */
  function Restamp(stamp: seq<nat>, clock: nat, w: int, improved: bool): seq<nat>
    requires 0 <= w < |stamp|
  {
    if improved then stamp[w := clock] else stamp
  }

  /** Lowering the distance of one vertex w keeps every other vertex's relaxed edges relaxed. */
  lemma RelaxedLower(g: seq<seq<Edge>>, mode: int, d: seq<Dist>, w: int, nd: Dist, y: int, k: int)
    requires 0 <= y < |g| && 0 <= w < |d| && y != w && AtMost(nd, d[w])
    requires RelaxedUpTo(g, mode, d, y, k)
    ensures RelaxedUpTo(g, mode, d[w := nd], y, k)
  {
    var d' := d[w := nd];
    forall i | 0 <= i < k && i < |g[y]| ensures EdgeRelaxed(mode, d', y, g[y][i]) {
      assert EdgeRelaxed(mode, d, y, g[y][i]);
    }
  }

  /** What relaxing the j-th edge of cur needs to know, beyond VertexOk of the two ends. */
  ghost predicate RelaxContext(g: seq<seq<Edge>>, s: int, mode: int, st: Search, stamp: seq<nat>, cur: int, j: int)
  {
    && |st.dist| == |g| && |st.edgeTo| == |g| && |stamp| == |g|
    && 0 <= cur < |g| && 0 <= j < |g[cur]| && st.dist[cur].Fin? && cur !in st.pq
    && var e := g[cur][j]; var w := OtherEnd(e, cur);
       && (e.v == cur || e.w == cur) && 0 <= w < |g|
       && (Improves(g, mode, st, cur, j) ==>
             w != s && w != cur && !IsLoop(e) && OtherEnd(e, w) == cur && Weight(e, mode) >= 0)
  }

  /** The state after relaxing the j-th edge of cur, stamps and clock included. */
  function RelaxAt(g: seq<seq<Edge>>, mode: int, st: Search, stamp: seq<nat>, clock: nat, cur: int, j: int)
    : (Search, seq<nat>, nat)
    requires 0 <= cur < |g| == |st.dist| == |st.edgeTo| == |stamp| && 0 <= j < |g[cur]|
    requires 0 <= OtherEnd(g[cur][j], cur) < |g|
  {
    var e := g[cur][j];
    var improved := Improves(g, mode, st, cur, j);
    (RelaxStep(st, e, cur, mode), Restamp(stamp, clock, OtherEnd(e, cur), improved),
     if improved then clock + 1 else clock)
  }

  /** A relaxation that changes nothing completes the j-th edge of cur. */
  lemma RelaxSame(g: seq<seq<Edge>>, s: int, mode: int, st: Search, stamp: seq<nat>, clock: nat,
                  cur: int, j: int, y: int)
    requires RelaxContext(g, s, mode, st, stamp, cur, j) && !Improves(g, mode, st, cur, j)
    requires 0 <= y < |g| && VertexOk(g, s, mode, st, stamp, clock, cur, j, y)
    ensures VertexOk(g, s, mode, st, stamp, clock, cur, j + 1, y)
  {
    if y == cur && st.dist[y].Fin? && y !in st.pq {
      assert EdgeRelaxed(mode, st.dist, cur, g[cur][j]);
    }
  }

  /** The vertex whose distance the relaxation lowers gets a tree edge from cur. */
  lemma RelaxTarget(g: seq<seq<Edge>>, s: int, mode: int, st: Search, stamp: seq<nat>, clock: nat,
                    cur: int, j: int)
    requires RelaxContext(g, s, mode, st, stamp, cur, j) && Improves(g, mode, st, cur, j)
    requires VertexOk(g, s, mode, st, stamp, clock, cur, j, cur)
    ensures var r := RelaxAt(g, mode, st, stamp, clock, cur, j);
      VertexOk(g, s, mode, r.0, r.1, r.2, cur, j + 1, OtherEnd(g[cur][j], cur))
  {
    var e := g[cur][j];
    var w := OtherEnd(e, cur);
    var r := RelaxAt(g, mode, st, stamp, clock, cur, j);
    assert e in g[cur];
    assert TreeEdge(g, mode, r.0.dist, r.1, w, e);
  }

  /** Every other vertex keeps its tree edge and its relaxed edges when the target is lowered. */
  lemma RelaxOther(g: seq<seq<Edge>>, s: int, mode: int, st: Search, stamp: seq<nat>, clock: nat,
                   cur: int, j: int, y: int)
    requires RelaxContext(g, s, mode, st, stamp, cur, j) && Improves(g, mode, st, cur, j)
    requires 0 <= y < |g| && y != OtherEnd(g[cur][j], cur)
    requires VertexOk(g, s, mode, st, stamp, clock, cur, j, y)
    ensures var r := RelaxAt(g, mode, st, stamp, clock, cur, j);
      VertexOk(g, s, mode, r.0, r.1, r.2, cur, j + 1, y)
  {
    var e := g[cur][j];
    var w := OtherEnd(e, cur);
    var r := RelaxAt(g, mode, st, stamp, clock, cur, j);
    var nd := Plus(st.dist[cur], Weight(e, mode));
    assert r.0.dist == st.dist[w := nd];
    if st.edgeTo[y] != null {
      assert TreeEdge(g, mode, st.dist, stamp, y, st.edgeTo[y]);
      assert TreeEdge(g, mode, r.0.dist, r.1, y, r.0.edgeTo[y]);
    }
    if st.dist[y].Fin? && y !in r.0.pq {
      var k := if y == cur then j else |g[y]|;
      RelaxedLower(g, mode, st.dist, w, nd, y, k);
      if y == cur {
        assert EdgeRelaxed(mode, r.0.dist, cur, e);
      }
    }
  }

  /** Relaxing the j-th edge of cur keeps what the invariant says of every vertex. */
  lemma RelaxAll(g: seq<seq<Edge>>, s: int, mode: int, st: Search, stamp: seq<nat>, clock: nat,
                 cur: int, j: int, next: int)
    requires RelaxContext(g, s, mode, st, stamp, cur, j) && next == j + 1
    requires forall x :: 0 <= x < |g| ==> VertexOk(g, s, mode, st, stamp, clock, cur, j, x)
    ensures var r := RelaxAt(g, mode, st, stamp, clock, cur, j);
      forall x :: 0 <= x < |g| ==> VertexOk(g, s, mode, r.0, r.1, r.2, cur, next, x)
  {
    var w := OtherEnd(g[cur][j], cur);
    var r := RelaxAt(g, mode, st, stamp, clock, cur, j);
    forall y | 0 <= y < |g| ensures VertexOk(g, s, mode, r.0, r.1, r.2, cur, next, y) {
      if !Improves(g, mode, st, cur, j) {
        RelaxSame(g, s, mode, st, stamp, clock, cur, j, y);
      } else if y == w {
        RelaxTarget(g, s, mode, st, stamp, clock, cur, j);
      } else {
        RelaxOther(g, s, mode, st, stamp, clock, cur, j, y);
      }
    }
  }

  /** Relaxing the j-th edge of cur keeps the invariant, with j + 1 edges of cur done. */
  lemma RelaxKeeps(g: seq<seq<Edge>>, s: int, mode: int, st: Search, stamp: seq<nat>, clock: nat, cur: int, j: int)
    requires Searching(g, s, mode, st, stamp, clock, cur, j) && cur != -1 && j < |g[cur]|
    ensures 0 <= OtherEnd(g[cur][j], cur) < |g|
    ensures var r := RelaxAt(g, mode, st, stamp, clock, cur, j);
      Searching(g, s, mode, r.0, r.1, r.2, cur, j + 1)
  {
    ImproveTarget(g, s, mode, st, stamp, clock, cur, j);
    assert RelaxContext(g, s, mode, st, stamp, cur, j);
    RelaxAll(g, s, mode, st, stamp, clock, cur, j, j + 1);
  }

  /** The state before the main loop: the source at distance 0 and queued, every other vertex at infinity. */
  function Start(n: nat, s: int): (st: Search)
    ensures |st.dist| == n && |st.edgeTo| == n
  {
    Search(seq(n, x => if x == s then Fin(0) else Inf), seq(n, _ => null), {s})
  }

  lemma StartKeeps(g: seq<seq<Edge>>, s: int, mode: int)
    requires Ends(g) && IntMode(mode) && 0 <= s < |g|
    ensures Searching(g, s, mode, Start(|g|, s), seq(|g|, _ => 0), 1, -1, 0)
  {
  }

  /** Taking v off the queue starts the relaxation of its edges. */
  lemma PopKeeps(g: seq<seq<Edge>>, s: int, mode: int, st: Search, stamp: seq<nat>, clock: nat, v: int)
    requires Searching(g, s, mode, st, stamp, clock, -1, 0) && v in st.pq
    ensures Searching(g, s, mode, st.(pq := st.pq - {v}), stamp, clock, v, 0)
  {
    var st' := st.(pq := st.pq - {v});
    forall x | 0 <= x < |g| ensures VertexOk(g, s, mode, st', stamp, clock, v, 0, x) {
      assert VertexOk(g, s, mode, st, stamp, clock, -1, 0, x);
    }
  }

  /** Once every edge of cur is relaxed, no vertex is being worked on. */
  lemma FinishKeeps(g: seq<seq<Edge>>, s: int, mode: int, st: Search, stamp: seq<nat>, clock: nat, cur: int)
    requires 0 <= cur < |g| && Searching(g, s, mode, st, stamp, clock, cur, |g[cur]|)
    ensures Searching(g, s, mode, st, stamp, clock, -1, 0)
  {
    var n := |g[cur]|;
    forall x | 0 <= x < |g| ensures VertexOk(g, s, mode, st, stamp, clock, -1, 0, x) {
      assert VertexOk(g, s, mode, st, stamp, clock, cur, n, x);
    }
  }

  /** delMin: a queued vertex whose distance is least among the queued ones. */
  lemma MinExists(q: set<int>, dist: seq<Dist>) returns (v: int)
    requires q != {} && forall x :: x in q ==> 0 <= x < |dist| && dist[x].Fin?
    ensures v in q && forall u :: u in q ==> dist[v].n <= dist[u].n
  {
    assert (forall y :: y !in q) ==> q == {};
    var x :| x in q;
    if q == {x} {
      v := x;
    } else {
      var m := MinExists(q - {x}, dist);
      v := if dist[x].n <= dist[m].n then x else m;
    }
  }

  /** The number of vertices at infinity. */
  function InfCount(d: seq<Dist>): nat {
    if d == [] then 0 else (if d[0].Inf? then 1 else 0) + InfCount(d[1..])
  }

  /** The sum of the finite distances. */
  function FinSum(d: seq<Dist>): int {
    if d == [] then 0 else (if d[0].Fin? then d[0].n else 0) + FinSum(d[1..])
  }

  lemma {:induction false} MeasureUpdate(d: seq<Dist>, w: int, x: Dist)
    requires 0 <= w < |d|
    ensures InfCount(d[w := x]) + (if d[w].Inf? then 1 else 0) == InfCount(d) + (if x.Inf? then 1 else 0)
    ensures FinSum(d[w := x]) + (if d[w].Fin? then d[w].n else 0) == FinSum(d) + (if x.Fin? then x.n else 0)
  {
    if w > 0 {
      assert d[w := x][1..] == d[1..][w - 1 := x];
      MeasureUpdate(d[1..], w - 1, x);
    }
  }

  lemma {:induction false} FinSumNonneg(d: seq<Dist>)
    requires forall i :: 0 <= i < |d| && d[i].Fin? ==> d[i].n >= 0
    ensures FinSum(d) >= 0
  {
    if d != [] {
      FinSumNonneg(d[1..]);
    }
  }

  lemma SearchingNonneg(g: seq<seq<Edge>>, s: int, mode: int, st: Search, stamp: seq<nat>, clock: nat, cur: int, j: int)
    requires Searching(g, s, mode, st, stamp, clock, cur, j)
    ensures FinSum(st.dist) >= 0
  {
    forall x | 0 <= x < |st.dist| && st.dist[x].Fin? ensures st.dist[x].n >= 0 {
      assert VertexOk(g, s, mode, st, stamp, clock, cur, j, x);
    }
    FinSumNonneg(st.dist);
  }

  /** Lowering a distance takes a vertex off infinity or lowers the sum of the finite ones. */
  lemma Lowered(d: seq<Dist>, w: int, x: Dist)
    requires 0 <= w < |d| && Below(x, d[w])
    ensures InfCount(d[w := x]) < InfCount(d)
      || (InfCount(d[w := x]) == InfCount(d) && FinSum(d[w := x]) < FinSum(d))
  {
    MeasureUpdate(d, w, x);
  }

  /** From (d0, q0) to (d, q) the measure strictly lowers, or nothing changes. */
  predicate Progress(d0: seq<Dist>, q0: set<int>, d: seq<Dist>, q: set<int>) {
    || InfCount(d) < InfCount(d0) || (InfCount(d) == InfCount(d0) && FinSum(d) < FinSum(d0))
    || (d == d0 && q == q0)
  }

  lemma ProgressTrans(d0: seq<Dist>, q0: set<int>, d1: seq<Dist>, q1: set<int>, d2: seq<Dist>, q2: set<int>)
    requires Progress(d0, q0, d1, q1) && Progress(d1, q1, d2, q2)
    ensures Progress(d0, q0, d2, q2)
  {
  }

  /** The search has ended: no vertex queued and none being worked on. */
  ghost predicate Done(g: seq<seq<Edge>>, s: int, mode: int, st: Search, stamp: seq<nat>, clock: nat) {
    Searching(g, s, mode, st, stamp, clock, -1, 0) && st.pq == {}
  }

  /** At the end every edge is relaxed: distTo[w] <= distTo[v] + weight for each edge of each v. */
  lemma DoneRelaxed(g: seq<seq<Edge>>, s: int, mode: int, st: Search, stamp: seq<nat>, clock: nat, x: int, i: int)
    requires Done(g, s, mode, st, stamp, clock) && 0 <= x < |g| && 0 <= i < |g[x]|
    ensures EdgeRelaxed(mode, st.dist, x, g[x][i])
  {
    EdgeEnds(g, x, i);
    assert VertexOk(g, s, mode, st, stamp, clock, -1, 0, x);
  }

  /** At the end every tree edge is tight: distTo[x] == distTo[p] + weight for p its other end. */
  lemma DoneTight(g: seq<seq<Edge>>, s: int, mode: int, st: Search, stamp: seq<nat>, clock: nat, x: int)
    requires Done(g, s, mode, st, stamp, clock) && 0 <= x < |g| && st.edgeTo[x] != null
    ensures var e := st.edgeTo[x]; var p := OtherEnd(e, x);
      && TreeEdge(g, mode, st.dist, stamp, x, e) && OtherEnd(e, p) == x
      && st.dist[x] == Plus(st.dist[p], Weight(e, mode))
  {
    assert VertexOk(g, s, mode, st, stamp, clock, -1, 0, x);
    var e := st.edgeTo[x];
    var p := OtherEnd(e, x);
    var i := IndexOf(g[p], e);
    DoneRelaxed(g, s, mode, st, stamp, clock, p, i);
  }

  /** p is a walk from a to b: each edge is in the list of the vertex reached so far. */
  ghost predicate Walk(g: seq<seq<Edge>>, p: seq<Edge>, a: int, b: int)
    decreases |p|
  {
    0 <= a < |g| && 0 <= b < |g| && if p == [] then a == b else p[0] in g[a] && Walk(g, p[1..], OtherEnd(p[0], a), b)
  }

  /** The total weight of a walk. */
  function WalkWeight(p: seq<Edge>, mode: int): int {
    if p == [] then 0 else Weight(p[0], mode) + WalkWeight(p[1..], mode)
  }

  /** Extending a walk by an edge of the vertex it reaches. */
  lemma {:induction false} WalkSnoc(g: seq<seq<Edge>>, p: seq<Edge>, a: int, b: int, e: Edge, mode: int)
    requires Walk(g, p, a, b) && e in g[b] && 0 <= OtherEnd(e, b) < |g|
    ensures Walk(g, p + [e], a, OtherEnd(e, b))
    ensures WalkWeight(p + [e], mode) == WalkWeight(p, mode) + Weight(e, mode)
    decreases |p|
  {
    if p == [] {
      assert p + [e] == [e];
      assert [e][1..] == [];
    } else {
      assert (p + [e])[1..] == p[1..] + [e];
      WalkSnoc(g, p[1..], OtherEnd(p[0], a), b, e, mode);
    }
  }

  /** At the end, distTo[b] is at most distTo[a] plus the weight of any walk from a to b. */
  lemma {:induction false} WalkBound(g: seq<seq<Edge>>, s: int, mode: int, st: Search, stamp: seq<nat>, clock: nat,
                                     p: seq<Edge>, a: int, b: int)
    requires Done(g, s, mode, st, stamp, clock) && Walk(g, p, a, b)
    ensures 0 <= b < |g| && AtMost(st.dist[b], Plus(st.dist[a], WalkWeight(p, mode)))
    decreases |p|
  {
    if p != [] {
      var a' := OtherEnd(p[0], a);
      DoneRelaxed(g, s, mode, st, stamp, clock, a, IndexOf(g[a], p[0]));
      WalkBound(g, s, mode, st, stamp, clock, p[1..], a', b);
    }
  }

  /** At the end, distTo[x] is finite and at most the weight of any walk from the source to x. */
  lemma Shortest(g: seq<seq<Edge>>, s: int, mode: int, st: Search, stamp: seq<nat>, clock: nat, p: seq<Edge>, x: int)
    requires Done(g, s, mode, st, stamp, clock) && Walk(g, p, s, x)
    ensures st.dist[x].Fin? && st.dist[x].n <= WalkWeight(p, mode)
  {
    WalkBound(g, s, mode, st, stamp, clock, p, s, x);
  }

  /** Following edgeTo back from x reaches a vertex nearer to the source, or as near and stamped earlier. */
  lemma Parent(g: seq<seq<Edge>>, s: int, mode: int, st: Search, stamp: seq<nat>, clock: nat, x: int)
    requires Done(g, s, mode, st, stamp, clock) && 0 <= x < |g| && st.edgeTo[x] != null
    ensures var e := st.edgeTo[x]; var p := OtherEnd(e, x);
      && 0 <= p < |g| && e in g[p] && OtherEnd(e, p) == x && (e.v == x || e.w == x)
      && st.dist[p].Fin? && st.dist[x].Fin? && 0 <= st.dist[p].n <= st.dist[x].n
      && (st.dist[p].n == st.dist[x].n ==> stamp[p] < stamp[x])
      && st.dist[x] == Plus(st.dist[p], Weight(e, mode))
  {
    DoneTight(g, s, mode, st, stamp, clock, x);
    var e := st.edgeTo[x];
    var p := OtherEnd(e, x);
    assert VertexOk(g, s, mode, st, stamp, clock, -1, 0, p);
    EdgeEnds(g, p, IndexOf(g[p], e));
  }

  /** The path pathTo returns: the edgeTo edges from the source to x, in order. */
  ghost function TreePath(g: seq<seq<Edge>>, s: int, mode: int, st: Search, stamp: seq<nat>, clock: nat, x: int)
    : seq<Edge>
    requires Done(g, s, mode, st, stamp, clock) && 0 <= x < |g| && st.dist[x].Fin?
    decreases st.dist[x].n, stamp[x]
  {
    if st.edgeTo[x] == null then []
    else
      Parent(g, s, mode, st, stamp, clock, x);
      TreePath(g, s, mode, st, stamp, clock, OtherEnd(st.edgeTo[x], x)) + [st.edgeTo[x]]
  }

  /** The tree path is a walk from the source and its weight is distTo[x]. */
  lemma {:induction false} TreePathWalk(g: seq<seq<Edge>>, s: int, mode: int, st: Search, stamp: seq<nat>, clock: nat,
                                        x: int)
    requires Done(g, s, mode, st, stamp, clock) && 0 <= x < |g| && st.dist[x].Fin?
    ensures var p := TreePath(g, s, mode, st, stamp, clock, x);
      Walk(g, p, s, x) && st.dist[x] == Fin(WalkWeight(p, mode))
    decreases st.dist[x].n, stamp[x]
  {
    if st.edgeTo[x] == null {
      assert VertexOk(g, s, mode, st, stamp, clock, -1, 0, x);
    } else {
      Parent(g, s, mode, st, stamp, clock, x);
      var e := st.edgeTo[x];
      var p := OtherEnd(e, x);
      TreePathWalk(g, s, mode, st, stamp, clock, p);
      WalkSnoc(g, TreePath(g, s, mode, st, stamp, clock, p), s, p, e, mode);
    }
  }

  /** hasPathTo: at the end a vertex has a finite distance exactly when some walk reaches it from the source. */
  lemma Reachable(g: seq<seq<Edge>>, s: int, mode: int, st: Search, stamp: seq<nat>, clock: nat, x: int)
    requires Done(g, s, mode, st, stamp, clock) && 0 <= x < |g|
    ensures st.dist[x].Fin? ==> exists p :: Walk(g, p, s, x)
    ensures forall p :: Walk(g, p, s, x) ==> st.dist[x].Fin?
  {
    if st.dist[x].Fin? {
      TreePathWalk(g, s, mode, st, stamp, clock, x);
      assert Walk(g, TreePath(g, s, mode, st, stamp, clock, x), s, x);
    }
    forall p | Walk(g, p, s, x) ensures st.dist[x].Fin? {
      Shortest(g, s, mode, st, stamp, clock, p, x);
    }
  }

  /**
   * check(G, s), as written: no negative distance among G.edges() in mode 1, distTo and edgeTo
   * consistent, every edge of v relaxed towards e.either(), and every tree edge edgeTo[w]
   * tight with w == e.other(e.either()).
   */
  ghost predicate CheckAsWritten(g: seq<seq<Edge>>, s: int, mode: int, st: Search)
    requires AllIncident(g) && |st.dist| == |g| == |st.edgeTo| && 0 <= s < |g|
  {
    var listed := ListedFrom(g, 0);
    && (mode == 1 ==> forall k :: 0 <= k < |listed| ==> listed[k].dist >= 0)
    && st.dist[s] == Fin(0) && st.edgeTo[s] == null
    && (forall v :: 0 <= v < |g| && v != s && st.edgeTo[v] == null ==> st.dist[v].Inf?)
    && (forall v, i :: 0 <= v < |g| && 0 <= i < |g[v]| ==>
          var e := g[v][i]; var w := e.Either();
          0 <= w < |g| && !Below(Plus(st.dist[v], Weight(e, mode)), st.dist[w]))
    && (forall w :: 0 <= w < |g| && st.edgeTo[w] != null ==>
          var e := st.edgeTo[w]; var v := e.Either();
          && e.Other(v) == Success(w)
          && 0 <= v < |g| && Plus(st.dist[v], Weight(e, mode)) == st.dist[w])
  }

  /**
   * The optimality conditions check evidently means: every edge of v relaxed towards its other
   * end e.other(v), and every tree edge edgeTo[w] tight from its other end e.other(w).
   */
  ghost predicate CheckCorrected(g: seq<seq<Edge>>, s: int, mode: int, st: Search)
    requires AllIncident(g) && |st.dist| == |g| == |st.edgeTo| && 0 <= s < |g|
  {
    var listed := ListedFrom(g, 0);
    && (mode == 1 ==> forall k :: 0 <= k < |listed| ==> listed[k].dist >= 0)
    && st.dist[s] == Fin(0) && st.edgeTo[s] == null
    && (forall v :: 0 <= v < |g| && v != s && st.edgeTo[v] == null ==> st.dist[v].Inf?)
    && (forall v, i :: 0 <= v < |g| && 0 <= i < |g[v]| ==>
          var e := g[v][i]; var w := e.Other(v);
          w.Success? && 0 <= w.value < |g| && !Below(Plus(st.dist[v], Weight(e, mode)), st.dist[w.value]))
    && (forall w :: 0 <= w < |g| && st.edgeTo[w] != null ==>
          var e := st.edgeTo[w]; var v := e.Other(w);
          && v.Success?
          && 0 <= v.value < |g| && Plus(st.dist[v.value], Weight(e, mode)) == st.dist[w])
  }

  /** Every listed edge is an edge of some vertex, so none has a negative distance. */
  lemma ListedNonneg(g: seq<seq<Edge>>)
    requires Graph(g)
    ensures forall k :: 0 <= k < |ListedFrom(g, 0)| ==> ListedFrom(g, 0)[k].dist >= 0
  {
    var listed := ListedFrom(g, 0);
    forall k | 0 <= k < |listed| ensures listed[k].dist >= 0 {
      ListedEdges(g, listed[k]);
      assert multiset(listed)[listed[k]] > 0;
    }
  }

  /** At the end of the search the corrected conditions hold. */
  lemma CheckCorrectedHolds(g: seq<seq<Edge>>, s: int, mode: int, st: Search, stamp: seq<nat>, clock: nat)
    requires Graph(g) && Done(g, s, mode, st, stamp, clock)
    ensures AllIncident(g) && CheckCorrected(g, s, mode, st)
  {
    ShapedIncident(g);
    ListedNonneg(g);
    forall v | 0 <= v < |g| && v != s && st.edgeTo[v] == null ensures st.dist[v].Inf? {
      assert VertexOk(g, s, mode, st, stamp, clock, -1, 0, v);
    }
    forall v, i | 0 <= v < |g| && 0 <= i < |g[v]|
      ensures var e := g[v][i]; var w := e.Other(v);
        w.Success? && 0 <= w.value < |g| && !Below(Plus(st.dist[v], Weight(e, mode)), st.dist[w.value])
    {
      DoneRelaxed(g, s, mode, st, stamp, clock, v, i);
    }
    forall w | 0 <= w < |g| && st.edgeTo[w] != null
      ensures var e := st.edgeTo[w]; var v := e.Other(w);
        v.Success? && 0 <= v.value < |g| && Plus(st.dist[v.value], Weight(e, mode)) == st.dist[w]
    {
      Parent(g, s, mode, st, stamp, clock, w);
    }
  }

  /**
   * On the two-vertex graph with one edge e = (1, 0) of distance 5, every end state of the search
   * from 0 has edgeTo[1] == e, and check as written rejects it: e.other(e.either()) is 0, not 1.
   */
  lemma CheckAsWrittenFails(g: seq<seq<Edge>>, e: Edge, mode: int, st: Search, stamp: seq<nat>, clock: nat)
    requires e.v == 1 && e.w == 0 && e.dist == 5 && g == [[e], [e]]
    requires Done(g, 0, mode, st, stamp, clock)
    ensures st.edgeTo[1] == e
    ensures AllIncident(g) && !CheckAsWritten(g, 0, mode, st)
  {
    EndsIncident(g);
    DoneRelaxed(g, 0, mode, st, stamp, clock, 0, 0);
    assert VertexOk(g, 0, mode, st, stamp, clock, -1, 0, 1);
    Parent(g, 0, mode, st, stamp, clock, 1);
  }

  /** That graph is the one EdgeWeightedGraph(2) holds after addEdge(e), and a search may run on it. */
  lemma CheckAsWrittenGraph(e: Edge)
    requires e.v == 1 && e.w == 0 && e.dist == 5
    ensures AddTo(AddTo([[], []], e.v, e), e.w, e) == [[e], [e]]
    ensures Graph([[e], [e]])
  {
    var g := [[e], [e]];
    assert [] + [e] == [e];
    assert [e][1..] == [] && !IsLoop(e);
    assert Loops([e], 0) == [] + Loops([], 0) == [];
    assert Loops([e], 1) == [] + Loops([], 1) == [];
    assert BalancedAt(g, e);
  }

  /** The weight check of the constructor: the first edge with a negative distance or price. */
  function WeightCheck(l: seq<Edge>): (r: Outcome<SpError>)
    ensures r.Pass? <==> forall k :: 0 <= k < |l| ==> l[k].dist >= 0 && l[k].pri >= 0.0
    ensures r.Fail? ==> r.error == NegativeDistance || r.error == NegativePrice
  {
    if l == [] then Pass
    else if l[0].dist < 0 then Fail(NegativeDistance)
    else if l[0].pri < 0.0 then Fail(NegativePrice)
    else
      assert forall k :: 1 <= k < |l| ==> l[k] == l[1..][k - 1];
      WeightCheck(l[1..])
  }

  /** Every edge of every vertex is listed, so a graph whose listing passes has no negative distance. */
  lemma WeightCheckGraph(g: seq<seq<Edge>>)
    requires Shaped(g)
    ensures AllIncident(g)
    ensures WeightCheck(ListedFrom(g, 0)).Pass? ==> Graph(g)
  {
    ShapedIncident(g);
    if WeightCheck(ListedFrom(g, 0)).Pass? {
      forall x, i | 0 <= x < |g| && 0 <= i < |g[x]| ensures g[x][i].dist >= 0 {
        ListedCovers(g, x, i);
      }
    }
  }

  class DijkstraSP {
    const distTo: array<Dist>
    const edgeTo: array<Edge?>
    /** The vertices in the indexed priority queue; delMin takes one of least distance. */
    var pq: set<int>
    const mode: int
    ghost const graph: seq<seq<Edge>>
    ghost const source: int
    ghost var stamp: seq<nat>
    ghost var clock: nat

    ghost function State(): Search
      reads this, distTo, edgeTo
    {
      Search(distTo[..], edgeTo[..], pq)
    }

    ghost predicate Valid()
      reads this, distTo, edgeTo
    {
      Done(graph, source, mode, State(), stamp, clock)
    }

    /**
     * relax(e, v): when distTo[v] plus e's weight is below distTo[w], w = e.other(v), lower
     * distTo[w], make e its edge and queue w (decreaseKey if it is queued, insert otherwise).
     */
    method Relax(e: Edge, v: int)
      requires 0 <= v < distTo.Length == edgeTo.Length == |stamp| && (e.v == v || e.w == v)
      requires 0 <= OtherEnd(e, v) < distTo.Length && IntMode(mode)
      modifies this`pq, this`stamp, this`clock, distTo, edgeTo
      ensures var w := OtherEnd(e, v);
        var improved := Below(Plus(old(distTo[v]), Weight(e, mode)), old(distTo[w]));
        && State() == RelaxStep(old(State()), e, v, mode)
        && stamp == Restamp(old(stamp), old(clock), w, improved)
        && clock == if improved then old(clock) + 1 else old(clock)
    {
      var w := e.Other(v).value;
      var weight;
      if mode == 1 {
        weight := e.dist;
      } else {
        weight := 1;
      }
      var nd := Plus(distTo[v], weight);
      if Below(nd, distTo[w]) {
        distTo[w] := nd;
        edgeTo[w] := e;
        if w !in pq {
          pq := pq + {w};
        }
        stamp := stamp[w := clock];
        clock := clock + 1;
      }
    }

    /** relax(e, u) for the j-th edge e of u, within the search. */
    method RelaxNext(e: Edge, u: int, j: int)
      requires Searching(graph, source, mode, State(), stamp, clock, u, j)
      requires u != -1 && 0 <= j < |graph[u]| && e == graph[u][j]
      modifies this`pq, this`stamp, this`clock, distTo, edgeTo
      ensures Searching(graph, source, mode, State(), stamp, clock, u, j + 1)
      ensures Progress(old(distTo[..]), old(pq), distTo[..], pq)
    {
      ghost var st, stamp0, clock0 := State(), stamp, clock;
      RelaxKeeps(graph, source, mode, st, stamp0, clock0, u, j);
      ghost var r := RelaxAt(graph, mode, st, stamp0, clock0, u, j);
      Relax(e, u);
      assert State() == r.0 && stamp == r.1 && clock == r.2;
      if st.dist != distTo[..] {
        Lowered(st.dist, OtherEnd(e, u), distTo[OtherEnd(e, u)]);
      }
    }

    /** for (Edge e : G.adj(u)) relax(e, u): lowers some distance, or changes nothing. */
    method RelaxEdges(g: EdgeWeightedGraph, u: int)
      requires graph == g.adj[..] && 0 <= u < g.adj.Length
      requires Searching(graph, source, mode, State(), stamp, clock, u, 0)
      modifies this`pq, this`stamp, this`clock, distTo, edgeTo
      ensures Searching(graph, source, mode, State(), stamp, clock, -1, 0)
      ensures Progress(old(distTo[..]), old(pq), distTo[..], pq)
    {
      var list := g.adj[u];
      var j := 0;
      while j < |list|
        invariant 0 <= j <= |list| && list == graph[u]
        invariant Searching(graph, source, mode, State(), stamp, clock, u, j)
        invariant Progress(old(distTo[..]), old(pq), distTo[..], pq)
      {
        ghost var d1, q1 := distTo[..], pq;
        RelaxNext(list[j], u, j);
        ProgressTrans(old(distTo[..]), old(pq), d1, q1, distTo[..], pq);
        j := j + 1;
      }
      FinishKeeps(graph, source, mode, State(), stamp, clock, u);
    }

    /** pq.delMin(): take a queued vertex of least distance off the queue. */
    method DelMin() returns (u: int)
      requires pq != {} && forall x :: x in pq ==> 0 <= x < distTo.Length && distTo[x].Fin?
      modifies this`pq
      ensures u in old(pq) && pq == old(pq) - {u}
      ensures forall x :: x in old(pq) ==> distTo[u].n <= distTo[x].n
    {
      ghost var m := MinExists(pq, distTo[..]);
      u :| u in pq && forall x :: x in pq ==> distTo[u].n <= distTo[x].n;
      pq := pq - {u};
    }

    /** while (!pq.isEmpty()): take a vertex of least distance off the queue and relax its edges. */
    method Run(g: EdgeWeightedGraph)
      requires graph == g.adj[..] && Searching(graph, source, mode, State(), stamp, clock, -1, 0)
      modifies this`pq, this`stamp, this`clock, distTo, edgeTo
      ensures Done(graph, source, mode, State(), stamp, clock)
    {
      while pq != {}
        invariant Searching(graph, source, mode, State(), stamp, clock, -1, 0)
        decreases InfCount(distTo[..]), FinSum(distTo[..]), |pq|
      {
        SearchingNonneg(graph, source, mode, State(), stamp, clock, -1, 0);
        ghost var st0 := State();
        var u := DelMin();
        PopKeeps(graph, source, mode, st0, stamp, clock, u);
        assert State() == st0.(pq := st0.pq - {u});
        RelaxEdges(g, u);
        SearchingNonneg(graph, source, mode, State(), stamp, clock, -1, 0);
      }
    }

    /**
     * The shortest-paths tree from s: distTo and edgeTo start at infinity and null but for the
     * source, and each vertex taken off the queue by least distance has its edges relaxed.
     */
    constructor (g: EdgeWeightedGraph, s: int, mode: int)
      requires g.Valid() && Graph(g.adj[..]) && 0 <= s < g.V && IntMode(mode)
      ensures Valid() && graph == g.adj[..] && source == s && this.mode == mode
      ensures fresh(distTo) && fresh(edgeTo)
    {
      this.mode := mode;
      graph := g.adj[..];
      source := s;
      var d := new Dist[g.V];
      var v := 0;
      while v < g.V
        invariant 0 <= v <= g.V
        invariant forall x :: 0 <= x < v ==> d[x] == Inf
      {
        d[v] := Inf;
        v := v + 1;
      }
      d[s] := Fin(0);
      distTo := d;
      edgeTo := new Edge?[g.V](_ => null);
      pq := {s};
      stamp := seq(g.V, _ => 0);
      clock := 1;
      new;
      assert State() == Start(g.V, s);
      GraphEnds(graph);
      StartKeeps(graph, s, mode);
      Run(g);
    }

    /**
     * new DijkstraSP(G, s, mode): the first edge of G.edges() with a negative distance or price
     * is refused; a source outside the graph fails when distTo[s] is set.
     */
    static method Create(g: EdgeWeightedGraph, s: int, mode: int) returns (r: Result<DijkstraSP, SpError>)
      requires g.Valid() && IntMode(mode)
      ensures AllIncident(g.adj[..])
      ensures var check := WeightCheck(ListedFrom(g.adj[..], 0));
        && (r.Success? <==> check.Pass? && 0 <= s < g.V)
        && (r.Failure? ==> r.error == if check.Fail? then check.error else ArrayIndexOutOfBounds)
      ensures r.Success? ==> var sp := r.value;
        && sp.Valid() && sp.graph == g.adj[..] && sp.source == s && sp.mode == mode
        && fresh(sp.distTo) && fresh(sp.edgeTo)
    {
      WeightCheckGraph(g.adj[..]);
      var list := g.Edges();
      var k := 0;
      while k < |list|
        invariant 0 <= k <= |list|
        invariant WeightCheck(list) == WeightCheck(list[k..])
      {
        assert list[k..][1..] == list[k + 1..];
        if list[k].dist < 0 {
          return Failure(NegativeDistance);
        } else if list[k].pri < 0.0 {
          return Failure(NegativePrice);
        }
        k := k + 1;
      }
      if !(0 <= s < g.V) {
        return Failure(ArrayIndexOutOfBounds);
      }
      var sp := new DijkstraSP(g, s, mode);
      return Success(sp);
    }

    /** distTo(v): the distance found for v; a vertex outside the graph is out of bounds. */
    function DistTo(v: int): (r: Result<Dist, SpError>)
      reads this, distTo
      ensures r.Success? <==> 0 <= v < distTo.Length
      ensures r.Failure? ==> r.error == ArrayIndexOutOfBounds
      ensures r.Success? ==> r.value == distTo[v]
    {
      if 0 <= v < distTo.Length then Success(distTo[v]) else Failure(ArrayIndexOutOfBounds)
    }

    /** hasPathTo(v): whether v's distance is finite. */
    function HasPathTo(v: int): (r: Result<bool, SpError>)
      reads this, distTo
      ensures r.Success? <==> 0 <= v < distTo.Length
      ensures r.Failure? ==> r.error == ArrayIndexOutOfBounds
      ensures r.Success? ==> (r.value <==> distTo[v].Fin?)
    {
      match DistTo(v)
      case Success(d) => Success(d.Fin?)
      case Failure(err) => Failure(err)
    }

    /**
     * pathTo(v): null (None) when v is unreachable, otherwise the edgeTo edges from the source
     * to v, collected from v backwards onto a stack so that they come out source first.
     */
    method PathTo(v: int) returns (r: Result<Option<seq<Edge>>, SpError>)
      requires Valid()
      ensures r.Success? <==> 0 <= v < distTo.Length
      ensures r.Failure? ==> r.error == ArrayIndexOutOfBounds
      ensures r.Success? ==> (r.value.None? <==> distTo[v].Inf?)
      ensures r.Success? && r.value.Some? ==> var p := r.value.value;
        && p == TreePath(graph, source, mode, State(), stamp, clock, v)
        && Walk(graph, p, source, v) && distTo[v] == Fin(WalkWeight(p, mode))
    {
      var has := HasPathTo(v);
      if has.Failure? {
        return Failure(ArrayIndexOutOfBounds);
      }
      if !has.value {
        return Success(None);
      }
      ghost var st := State();
      var path: seq<Edge> := [];
      var e := edgeTo[v];
      var prev := v;
      while e != null
        invariant 0 <= prev < distTo.Length && distTo[prev].Fin? && e == edgeTo[prev]
        invariant TreePath(graph, source, mode, st, stamp, clock, v)
          == TreePath(graph, source, mode, st, stamp, clock, prev) + path
        decreases distTo[prev].n, stamp[prev]
      {
        Parent(graph, source, mode, st, stamp, clock, prev);
        path := [e] + path;
        var next := e.Other(prev).value;
        prev := next;
        e := edgeTo[next];
      }
      TreePathWalk(graph, source, mode, st, stamp, clock, v);
      return Success(Some(path));
    }
  }
}
