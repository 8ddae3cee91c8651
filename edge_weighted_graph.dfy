/**
 * The undirected multigraph of the airline: V vertices, one adjacency list per vertex, parallel
 * edges and self-loops allowed. An edge is stored in the lists of both its endpoints, and a
 * self-loop twice, one copy after the other, in the list of its one endpoint.
 *
 * The lists are values of type seq<Edge> held in an array, the way the Java class holds one
 * ArrayList per vertex; the structural facts about them are stated on those values (Shaped) and
 * carried by the class invariant.
 */
module WeightedGraph {
  import opened Wrappers
  import opened Edges

  datatype GraphError = IllegalArgument | IndexOutOfBounds

  /** ArrayList.add: e appended to list x. */
  function AddTo(a: seq<seq<Edge>>, x: nat, e: Edge): seq<seq<Edge>>
    requires x < |a|
  {
    a[x := a[x] + [e]]
  }

  /** ArrayList.remove(Object): the first reference-equal occurrence of e is dropped, if any. */
  function RemoveFirst(s: seq<Edge>, e: Edge): (r: seq<Edge>)
    ensures e !in s ==> r == s
    ensures e in s ==> |r| == |s| - 1
  {
    if s == [] then []
    else if s[0] == e then s[1..]
    else [s[0]] + RemoveFirst(s[1..], e)
  }

  /** RemoveFirst takes exactly one e out of the multiset of the list, if there is one. */
  lemma {:induction false} RemoveFirstCount(s: seq<Edge>, e: Edge)
    ensures multiset(RemoveFirst(s, e)) == multiset(s) - multiset{e}
  {
    if s != [] {
      assert s == [s[0]] + s[1..];
      RemoveFirstCount(s[1..], e);
    }
  }

  /** The position of the first occurrence of e in s. */
  function IndexOf(s: seq<Edge>, e: Edge): (i: nat)
    requires e in s
    ensures i < |s| && s[i] == e && e !in s[..i]
  {
    if s[0] == e then 0
    else
      var i := IndexOf(s[1..], e);
      assert s[..i + 1] == [s[0]] + s[1..][..i];
      i + 1
  }

  /** RemoveFirst keeps the order of what remains: it cuts s at the first occurrence of e. */
  lemma {:induction false} RemoveFirstCuts(s: seq<Edge>, e: Edge)
    requires e in s
    ensures RemoveFirst(s, e) == s[..IndexOf(s, e)] + s[IndexOf(s, e) + 1..]
  {
    if s[0] != e {
      RemoveFirstCuts(s[1..], e);
      var i := IndexOf(s[1..], e);
      assert s[..i + 1] == [s[0]] + s[1..][..i];
      assert s[i + 2..] == s[1..][i + 1..];
    }
  }

  function RemoveAt(a: seq<seq<Edge>>, x: nat, e: Edge): seq<seq<Edge>>
    requires x < |a|
  {
    a[x := RemoveFirst(a[x], e)]
  }

  predicate IsLoop(e: Edge) {
    e.v == e.w
  }

  /** e has x as an endpoint and both its endpoints are vertices of a graph with V vertices. */
  predicate Incident(e: Edge, x: int, V: nat) {
    0 <= e.v < V && 0 <= e.w < V && (e.v == x || e.w == x)
  }

  /** The self-loops at x in list s, in order. */
  function Loops(s: seq<Edge>, x: int): seq<Edge> {
    if s == [] then []
    else (if IsLoop(s[0]) && s[0].v == x then [s[0]] else []) + Loops(s[1..], x)
  }

  /** A list made of adjacent equal pairs. */
  predicate Paired(l: seq<Edge>) {
    l == [] || (|l| >= 2 && l[0] == l[1] && Paired(l[2..]))
  }

  /** The shape every list of the graph keeps. */
  ghost predicate Shaped(a: seq<seq<Edge>>) {
    && (forall x, i :: 0 <= x < |a| && 0 <= i < |a[x]| ==> Incident(a[x][i], x, |a|))
    && (forall x :: 0 <= x < |a| ==> Paired(Loops(a[x], x)))
    && Balanced(a)
  }

  /** A non-loop edge occurs as often in the list of one endpoint as in the list of the other. */
  ghost predicate Balanced(a: seq<seq<Edge>>) {
    forall x, i :: 0 <= x < |a| && 0 <= i < |a[x]| ==> BalancedAt(a, a[x][i])
  }

  ghost predicate BalancedAt(a: seq<seq<Edge>>, e: Edge) {
    !IsLoop(e) && 0 <= e.v < |a| && 0 <= e.w < |a| ==> multiset(a[e.v])[e] == multiset(a[e.w])[e]
  }

  /** The sum of the degrees. */
  function Degrees(a: seq<seq<Edge>>): nat {
    if a == [] then 0 else |a[0]| + Degrees(a[1..])
  }

  lemma {:induction false} DegreesUpdate(a: seq<seq<Edge>>, x: nat, s: seq<Edge>)
    requires x < |a|
    ensures Degrees(a[x := s]) == Degrees(a) - |a[x]| + |s|
  {
    if x > 0 {
      assert a[x := s][1..] == a[1..][x - 1 := s];
      DegreesUpdate(a[1..], x - 1, s);
    } else {
      assert a[x := s][1..] == a[1..];
    }
  }

  lemma {:induction false} PairedConcat(l: seq<Edge>, m: seq<Edge>)
    requires Paired(l) && Paired(m)
    ensures Paired(l + m)
    decreases |l|
  {
    if l != [] {
      assert (l + m)[0] == l[0] && (l + m)[1] == l[1];
      assert (l + m)[2..] == l[2..] + m;
      PairedConcat(l[2..], m);
      assert Paired((l + m)[2..]);
    } else {
      assert l + m == m;
    }
  }

  lemma {:induction false} PairedRemove(l: seq<Edge>, e: Edge)
    requires Paired(l) && e in l
    ensures e in RemoveFirst(l, e) && Paired(RemoveFirst(RemoveFirst(l, e), e))
    decreases |l|
  {
    if l[0] != e {
      assert l[2..] == l[1..][1..];
      PairedRemove(l[2..], e);
      assert RemoveFirst(l, e) == [l[0]] + RemoveFirst(l[1..], e);
      assert RemoveFirst(l[1..], e) == [l[1]] + RemoveFirst(l[2..], e);
      var r := RemoveFirst(RemoveFirst(l[2..], e), e);
      assert RemoveFirst(RemoveFirst(l, e), e) == [l[0], l[1]] + r;
    }
  }

  /** Loops keeps every loop at x as often as it occurs, and nothing else. */
  lemma {:induction false} LoopsCount(s: seq<Edge>, x: int, e: Edge)
    ensures multiset(Loops(s, x))[e] == if IsLoop(e) && e.v == x then multiset(s)[e] else 0
  {
    if s != [] {
      assert s == [s[0]] + s[1..];
      LoopsCount(s[1..], x, e);
    }
  }

  lemma {:induction false} LoopsAppend(s: seq<Edge>, t: seq<Edge>, x: int)
    ensures Loops(s + t, x) == Loops(s, x) + Loops(t, x)
  {
    if s != [] {
      assert (s + t)[0] == s[0];
      assert (s + t)[1..] == s[1..] + t;
      LoopsAppend(s[1..], t, x);
    } else {
      assert s + t == t;
    }
  }

  /** Removing e from a list whose first part does not hold it only touches the second part. */
  lemma {:induction false} RemoveFirstConcat(p: seq<Edge>, q: seq<Edge>, e: Edge)
    requires e !in p
    ensures RemoveFirst(p + q, e) == p + RemoveFirst(q, e)
  {
    if p != [] {
      assert (p + q)[0] == p[0] && (p + q)[1..] == p[1..] + q;
      RemoveFirstConcat(p[1..], q, e);
      assert p + RemoveFirst(q, e) == [p[0]] + (p[1..] + RemoveFirst(q, e));
    } else {
      assert p + q == q;
    }
  }

  /** An element left by RemoveFirst was in the list before. */
  lemma RemoveFirstIn(s: seq<Edge>, e: Edge, f: Edge)
    requires f in RemoveFirst(s, e)
    ensures f in s
  {
    RemoveFirstCount(s, e);
    assert f in multiset(RemoveFirst(s, e));
  }

  lemma {:induction false} LoopsRemove(s: seq<Edge>, e: Edge, x: int)
    ensures Loops(RemoveFirst(s, e), x) == if IsLoop(e) && e.v == x then RemoveFirst(Loops(s, x), e) else Loops(s, x)
  {
    if s != [] {
      var head := Loops([s[0]], x);
      assert s == [s[0]] + s[1..];
      LoopsAppend([s[0]], s[1..], x);
      assert Loops([s[0]], x) == (if IsLoop(s[0]) && s[0].v == x then [s[0]] else []) + Loops([], x);
      if s[0] == e {
        if IsLoop(e) && e.v == x {
          assert Loops(s, x) == [e] + Loops(s[1..], x);
        }
      } else {
        var t := RemoveFirst(s[1..], e);
        assert RemoveFirst(s, e) == [s[0]] + t;
        LoopsAppend([s[0]], t, x);
        LoopsRemove(s[1..], e, x);
        if IsLoop(e) && e.v == x {
          RemoveFirstConcat(head, Loops(s[1..], x), e);
        }
      }
    }
  }

  /** The loops of a list once e is appended to it, once (a non-loop) or twice (a loop). */
  lemma AddLoops(s: seq<Edge>, e: Edge, x: int)
    requires Paired(Loops(s, x))
    ensures !(IsLoop(e) && e.v == x) ==> Paired(Loops(s + [e], x))
    ensures Paired(Loops(s + [e] + [e], x))
  {
    LoopsAppend(s, [e], x);
    LoopsAppend(s + [e], [e], x);
    assert Loops([e], x) == (if IsLoop(e) && e.v == x then [e] else []) + Loops([], x);
    if IsLoop(e) && e.v == x {
      assert Loops(s + [e] + [e], x) == Loops(s, x) + [e, e];
      assert Paired([e, e]) by {
        assert [e, e][2..] == [];
      }
      PairedConcat(Loops(s, x), [e, e]);
    } else {
      assert Loops([e], x) == [];
      assert Loops(s + [e], x) == Loops(s, x) + [] == Loops(s, x);
      assert Loops(s + [e] + [e], x) == Loops(s, x) + [] == Loops(s, x);
    }
  }

  /** Loops of the lists after addEdge. */
  lemma AddPaired(a: seq<seq<Edge>>, e: Edge, x: nat)
    requires 0 <= e.v < |a| && 0 <= e.w < |a| && x < |a| && Paired(Loops(a[x], x))
    ensures Paired(Loops(AddTo(AddTo(a, e.v, e), e.w, e)[x], x))
  {
    var b := AddTo(AddTo(a, e.v, e), e.w, e);
    if x == e.v && x == e.w {
      assert b[x] == a[x] + [e] + [e];
      AddLoops(a[x], e, x);
    } else if x == e.v || x == e.w {
      assert b[x] == a[x] + [e];
      AddLoops(a[x], e, x);
    }
  }

  /** How often f occurs in list y after addEdge(e). */
  lemma AddCount(a: seq<seq<Edge>>, e: Edge, y: nat, f: Edge)
    requires 0 <= e.v < |a| && 0 <= e.w < |a| && y < |a|
    ensures multiset(AddTo(AddTo(a, e.v, e), e.w, e)[y])[f] ==
      multiset(a[y])[f] + if f == e && (y == e.v || y == e.w) then (if IsLoop(e) then 2 else 1) else 0
  {
    var b := AddTo(AddTo(a, e.v, e), e.w, e);
    if y == e.v && y == e.w {
      assert b[y] == a[y] + [e] + [e];
    } else if y == e.v || y == e.w {
      assert b[y] == a[y] + [e];
    }
  }

  /** Balance of a non-loop edge not listed anywhere: it occurs nowhere. */
  lemma BalancedEverywhere(a: seq<seq<Edge>>, f: Edge)
    requires Balanced(a)
    ensures BalancedAt(a, f)
  {
    if !IsLoop(f) && 0 <= f.v < |a| && 0 <= f.w < |a| {
      if f in a[f.v] || f in a[f.w] {
        var y := if f in a[f.v] then f.v else f.w;
        var i :| 0 <= i < |a[y]| && a[y][i] == f;
        assert BalancedAt(a, a[y][i]);
      }
    }
  }

  lemma AddBalanced(a: seq<seq<Edge>>, e: Edge, f: Edge)
    requires 0 <= e.v < |a| && 0 <= e.w < |a| && Balanced(a)
    ensures BalancedAt(AddTo(AddTo(a, e.v, e), e.w, e), f)
  {
    BalancedEverywhere(a, f);
    if !IsLoop(f) && 0 <= f.v < |a| && 0 <= f.w < |a| {
      AddCount(a, e, f.v, f);
      AddCount(a, e, f.w, f);
    }
  }

  lemma AddIncident(a: seq<seq<Edge>>, e: Edge, x: nat, i: nat)
    requires 0 <= e.v < |a| && 0 <= e.w < |a| && x < |a|
    requires forall j :: 0 <= j < |a[x]| ==> Incident(a[x][j], x, |a|)
    requires i < |AddTo(AddTo(a, e.v, e), e.w, e)[x]|
    ensures Incident(AddTo(AddTo(a, e.v, e), e.w, e)[x][i], x, |a|)
  {
    var b := AddTo(AddTo(a, e.v, e), e.w, e);
    if x == e.v && x == e.w {
      assert b[x] == a[x] + [e] + [e];
    } else if x == e.v || x == e.w {
      assert b[x] == a[x] + [e];
    }
  }

  /** addEdge keeps the shape: e goes into the lists of both its endpoints. */
  lemma AddKeepsShape(a: seq<seq<Edge>>, e: Edge)
    requires Shaped(a) && 0 <= e.v < |a| && 0 <= e.w < |a|
    ensures Shaped(AddTo(AddTo(a, e.v, e), e.w, e))
  {
    var b := AddTo(AddTo(a, e.v, e), e.w, e);
    forall x | 0 <= x < |b| ensures Paired(Loops(b[x], x)) {
      AddPaired(a, e, x);
    }
    forall x, i | 0 <= x < |b| && 0 <= i < |b[x]| ensures Incident(b[x][i], x, |b|) && BalancedAt(b, b[x][i]) {
      AddBalanced(a, e, b[x][i]);
      AddIncident(a, e, x, i);
    }
  }

  /** Loops of the lists after removeEdge. */
  lemma RemovePaired(a: seq<seq<Edge>>, e: Edge, x: nat)
    requires 0 <= e.v < |a| && 0 <= e.w < |a| && x < |a| && Paired(Loops(a[x], x))
    ensures Paired(Loops(RemoveAt(RemoveAt(a, e.v, e), e.w, e)[x], x))
  {
    var b := RemoveAt(RemoveAt(a, e.v, e), e.w, e);
    if x == e.v && x == e.w {
      assert b[x] == RemoveFirst(RemoveFirst(a[x], e), e);
      LoopsRemove(a[x], e, x);
      LoopsRemove(RemoveFirst(a[x], e), e, x);
      if e in Loops(a[x], x) {
        PairedRemove(Loops(a[x], x), e);
      }
    } else if x == e.v || x == e.w {
      assert b[x] == RemoveFirst(a[x], e);
      LoopsRemove(a[x], e, x);
    }
  }

  /** How often f occurs in list y after removeEdge(e), for a non-loop e. */
  lemma RemoveCount(a: seq<seq<Edge>>, e: Edge, y: nat, f: Edge)
    requires 0 <= e.v < |a| && 0 <= e.w < |a| && y < |a| && !IsLoop(e)
    ensures var n := multiset(a[y])[f];
      multiset(RemoveAt(RemoveAt(a, e.v, e), e.w, e)[y])[f] ==
      if f == e && (y == e.v || y == e.w) && n > 0 then n - 1 else n
  {
    var b := RemoveAt(RemoveAt(a, e.v, e), e.w, e);
    if y == e.v || y == e.w {
      assert b[y] == RemoveFirst(a[y], e);
      RemoveFirstCount(a[y], e);
    }
  }

  /** The same for a self-loop e: it leaves its list twice, and no other edge is touched. */
  lemma RemoveLoopCount(a: seq<seq<Edge>>, e: Edge, y: nat, f: Edge)
    requires 0 <= e.v < |a| && y < |a| && IsLoop(e) && f != e
    ensures multiset(RemoveAt(RemoveAt(a, e.v, e), e.w, e)[y])[f] == multiset(a[y])[f]
  {
    var b := RemoveAt(RemoveAt(a, e.v, e), e.w, e);
    if y == e.v {
      assert b[y] == RemoveFirst(RemoveFirst(a[y], e), e);
      RemoveFirstCount(a[y], e);
      RemoveFirstCount(RemoveFirst(a[y], e), e);
    }
  }

  lemma RemoveBalanced(a: seq<seq<Edge>>, e: Edge, f: Edge)
    requires 0 <= e.v < |a| && 0 <= e.w < |a| && Balanced(a)
    ensures BalancedAt(RemoveAt(RemoveAt(a, e.v, e), e.w, e), f)
  {
    BalancedEverywhere(a, f);
    if !IsLoop(f) && 0 <= f.v < |a| && 0 <= f.w < |a| {
      if IsLoop(e) {
        RemoveLoopCount(a, e, f.v, f);
        RemoveLoopCount(a, e, f.w, f);
      } else {
        RemoveCount(a, e, f.v, f);
        RemoveCount(a, e, f.w, f);
      }
    }
  }

  /** removeEdge keeps the shape: one occurrence of e leaves each endpoint list. */
  lemma RemoveKeepsShape(a: seq<seq<Edge>>, e: Edge)
    requires Shaped(a) && 0 <= e.v < |a| && 0 <= e.w < |a|
    ensures Shaped(RemoveAt(RemoveAt(a, e.v, e), e.w, e))
  {
    var b := RemoveAt(RemoveAt(a, e.v, e), e.w, e);
    forall x | 0 <= x < |b| ensures Paired(Loops(b[x], x)) {
      RemovePaired(a, e, x);
    }
    forall x, i | 0 <= x < |b| && 0 <= i < |b[x]| ensures Incident(b[x][i], x, |b|) && BalancedAt(b, b[x][i]) {
      RemoveBalanced(a, e, b[x][i]);
      var f := b[x][i];
      assert f in b[x];
      if x == e.v || x == e.w {
        var m := RemoveAt(a, e.v, e);
        if x == e.w {
          RemoveFirstIn(m[x], e, f);
        }
        if x == e.v {
          if x == e.w {
            assert f in m[x];
          }
          RemoveFirstIn(a[x], e, f);
        }
      }
      assert f in a[x];
    }
  }

  /** The removal changes the degree sum by two when e is present, and by nothing otherwise. */
  lemma RemoveDegrees(a: seq<seq<Edge>>, e: Edge)
    requires Shaped(a) && 0 <= e.v < |a| && 0 <= e.w < |a|
    ensures Degrees(RemoveAt(RemoveAt(a, e.v, e), e.w, e)) == Degrees(a) - if e in a[e.v] then 2 else 0
  {
    var m := RemoveAt(a, e.v, e);
    DegreesUpdate(a, e.v, RemoveFirst(a[e.v], e));
    DegreesUpdate(m, e.w, RemoveFirst(m[e.w], e));
    if IsLoop(e) {
      if e in a[e.v] {
        LoopsCount(a[e.v], e.v, e);
        AlternatePaired(Loops(a[e.v], e.v), e);
        RemoveFirstCount(a[e.v], e);
        assert e in multiset(a[e.v]);
        var c := multiset(a[e.v])[e];
        assert c > 0;
        assert c == 2 * multiset(Alternate(Loops(a[e.v], e.v), true))[e];
        assert m[e.w] == RemoveFirst(a[e.v], e);
        assert multiset(m[e.w])[e] == c - 1;
      }
    } else {
      BalancedEverywhere(a, e);
      assert e in a[e.v] <==> e in multiset(a[e.v]);
      assert e in a[e.w] <==> e in multiset(a[e.w]);
    }
  }

  /**
   * The handshake count 2E = sum of degrees survives a removal that decrements E exactly when
   * it is in the graph, and only then.
   */
  lemma RemovalCount(a: seq<seq<Edge>>, E: int, e: Edge)
    requires Shaped(a) && 0 <= e.v < |a| && 0 <= e.w < |a| && 2 * E == Degrees(a)
    ensures 2 * (E - 1) == Degrees(RemoveAt(RemoveAt(a, e.v, e), e.w, e)) <==> e in a[e.v]
    ensures 2 * E == Degrees(RemoveAt(RemoveAt(a, e.v, e), e.w, e)) <==> e !in a[e.v]
  {
    RemoveDegrees(a, e);
  }

  lemma {:induction false} DegreesEmpty(a: seq<seq<Edge>>)
    requires forall x :: 0 <= x < |a| ==> a[x] == []
    ensures Degrees(a) == 0
  {
    if a != [] {
      DegreesEmpty(a[1..]);
    }
  }

  /** Every list incident to its vertex: what the listing of all edges needs. */
  ghost predicate AllIncident(a: seq<seq<Edge>>) {
    forall x, i :: 0 <= x < |a| && 0 <= i < |a[x]| ==> a[x][i].v == x || a[x][i].w == x
  }

  lemma ShapedIncident(a: seq<seq<Edge>>)
    requires Shaped(a)
    ensures AllIncident(a)
  {
    forall x, i | 0 <= x < |a| && 0 <= i < |a[x]| ensures a[x][i].v == x || a[x][i].w == x {
      assert Incident(a[x][i], x, |a|);
    }
  }

  /**
   * What the inner loop of edges() adds for list s of vertex x: every edge whose other end is
   * above x, and every other self-loop, starting with the first when `even` holds.
   */
  function Picks(s: seq<Edge>, x: int, even: bool): seq<Edge>
    requires forall i :: 0 <= i < |s| ==> s[i].v == x || s[i].w == x
  {
    if s == [] then []
    else
      var o := s[0].Other(x).value;
      if o > x then [s[0]] + Picks(s[1..], x, even)
      else if o == x then (if even then [s[0]] else []) + Picks(s[1..], x, !even)
      else Picks(s[1..], x, even)
  }

  /** edges() from vertex v onward. */
  function ListedFrom(a: seq<seq<Edge>>, v: nat): seq<Edge>
    requires AllIncident(a)
    decreases |a| - v
  {
    if v >= |a| then [] else Picks(a[v], v, true) + ListedFrom(a, v + 1)
  }

  function Min(x: int, y: int): int {
    if x <= y then x else y
  }

  /** Every other element of l, starting with the first when `even` holds. */
  function Alternate(l: seq<Edge>, even: bool): seq<Edge> {
    if l == [] then [] else (if even then [l[0]] else []) + Alternate(l[1..], !even)
  }

  lemma {:induction false} AlternatePaired(l: seq<Edge>, e: Edge)
    requires Paired(l)
    ensures 2 * multiset(Alternate(l, true))[e] == multiset(l)[e]
    decreases |l|
  {
    if l != [] {
      var t := l[2..];
      assert l == [l[0], l[1]] + t;
      assert l[1..][1..] == t;
      assert Alternate(l[1..], false) == Alternate(t, true);
      assert Alternate(l, true) == [l[0]] + Alternate(t, true);
      AlternatePaired(t, e);
    }
  }

  /** A non-loop edge is picked, each time it occurs, at its lower endpoint and nowhere else. */
  lemma {:induction false} PicksNonLoop(s: seq<Edge>, x: int, even: bool, e: Edge)
    requires forall i :: 0 <= i < |s| ==> s[i].v == x || s[i].w == x
    requires !IsLoop(e)
    ensures multiset(Picks(s, x, even))[e] == if x == Min(e.v, e.w) then multiset(s)[e] else 0
  {
    if s != [] {
      assert s == [s[0]] + s[1..];
      var o := s[0].Other(x).value;
      PicksNonLoop(s[1..], x, if o == x then !even else even, e);
    }
  }

  /** The self-loops at x are picked every other time, in the order in which they occur. */
  lemma {:induction false} PicksLoop(s: seq<Edge>, x: int, even: bool, e: Edge)
    requires forall i :: 0 <= i < |s| ==> s[i].v == x || s[i].w == x
    requires IsLoop(e)
    ensures multiset(Picks(s, x, even))[e] == if e.v == x then multiset(Alternate(Loops(s, x), even))[e] else 0
  {
    if s != [] {
      var h := s[0];
      var o := h.Other(x).value;
      var odd := if o == x then !even else even;
      PicksLoop(s[1..], x, odd, e);
      var rest: seq<Edge> := Picks(s[1..], x, odd);
      if o == x {
        var l := Loops(s[1..], x);
        assert Loops(s, x) == [h] + l;
        assert ([h] + l)[0] == h && ([h] + l)[1..] == l;
        assert Alternate(Loops(s, x), even) == (if even then [h] else []) + Alternate(l, !even);
        assert Picks(s, x, even) == (if even then [h] else []) + rest;
      } else {
        assert h != e;
        assert Loops(s, x) == [] + Loops(s[1..], x) == Loops(s[1..], x);
        if o > x {
          assert Picks(s, x, even) == [h] + rest;
          var hr: seq<Edge> := [h] + rest;
          assert multiset(hr)[e] == multiset(rest)[e];
        }
      }
    }
  }

  lemma {:induction false} ListedNonLoop(a: seq<seq<Edge>>, v: nat, e: Edge)
    requires AllIncident(a) && !IsLoop(e)
    ensures multiset(ListedFrom(a, v))[e] ==
      if v <= Min(e.v, e.w) < |a| then multiset(a[Min(e.v, e.w)])[e] else 0
    decreases |a| - v
  {
    if v < |a| {
      PicksNonLoop(a[v], v, true, e);
      ListedNonLoop(a, v + 1, e);
    }
  }

  lemma {:induction false} ListedLoop(a: seq<seq<Edge>>, v: nat, e: Edge)
    requires AllIncident(a) && IsLoop(e) && 0 <= e.v < |a| && Paired(Loops(a[e.v], e.v))
    ensures 2 * multiset(ListedFrom(a, v))[e] == if v <= e.v then multiset(a[e.v])[e] else 0
    decreases |a| - v
  {
    if v < |a| {
      var here: seq<Edge>, more: seq<Edge> := Picks(a[v], v, true), ListedFrom(a, v + 1);
      assert multiset(ListedFrom(a, v))[e] == multiset(here)[e] + multiset(more)[e] by {
        assert ListedFrom(a, v) == here + more;
      }
      PicksLoop(a[v], v, true, e);
      ListedLoop(a, v + 1, e);
      if v == e.v {
        AlternatePaired(Loops(a[v], v), e);
        LoopsCount(a[v], v, e);
      }
    }
  }

  /**
   * edges() lists each non-loop edge as often as it occurs in the list of its lower endpoint,
   * and each self-loop half as often as it occurs in the list of its vertex (where it is stored
   * twice); nothing else is listed.
   */
  lemma ListedEdges(a: seq<seq<Edge>>, e: Edge)
    requires Shaped(a)
    ensures AllIncident(a)
    ensures !IsLoop(e) && 0 <= e.v < |a| && 0 <= e.w < |a| ==>
      multiset(ListedFrom(a, 0))[e] == multiset(a[e.v])[e] == multiset(a[e.w])[e]
    ensures IsLoop(e) && 0 <= e.v < |a| ==> 2 * multiset(ListedFrom(a, 0))[e] == multiset(a[e.v])[e]
    ensures !(0 <= e.v < |a| && 0 <= e.w < |a|) ==> multiset(ListedFrom(a, 0))[e] == 0
  {
    ShapedIncident(a);
    if IsLoop(e) && 0 <= e.v < |a| {
      ListedLoop(a, 0, e);
      LoopsCount(a[e.v], e.v, e);
      AlternatePaired(Loops(a[e.v], e.v), e);
    } else if !IsLoop(e) {
      ListedNonLoop(a, 0, e);
      if 0 <= e.v < |a| && 0 <= e.w < |a| {
        BalancedEverywhere(a, e);
      } else if 0 <= Min(e.v, e.w) < |a| {
        var y := Min(e.v, e.w);
        forall i | 0 <= i < |a[y]| ensures a[y][i] != e {
          assert Incident(a[y][i], y, |a|);
        }
        assert e !in multiset(a[y]);
      }
    } else {
      ListedLoop0(a, 0, e);
    }
  }

  /** A self-loop at a vertex outside the graph is listed nowhere. */
  lemma {:induction false} ListedLoop0(a: seq<seq<Edge>>, v: nat, e: Edge)
    requires Shaped(a) && AllIncident(a) && IsLoop(e) && !(0 <= e.v < |a|)
    ensures multiset(ListedFrom(a, v))[e] == 0
    decreases |a| - v
  {
    if v < |a| {
      PicksLoop(a[v], v, true, e);
      ListedLoop0(a, v + 1, e);
    }
  }

  /** Every edge stored in the graph is listed by edges(). */
  lemma ListedCovers(a: seq<seq<Edge>>, x: nat, i: nat)
    requires Shaped(a) && x < |a| && i < |a[x]|
    ensures AllIncident(a) && a[x][i] in ListedFrom(a, 0)
  {
    var e := a[x][i];
    assert Incident(e, x, |a|);
    ListedEdges(a, e);
    assert e in multiset(a[x]);
    if IsLoop(e) {
      LoopsCount(a[x], x, e);
      AlternatePaired(Loops(a[x], x), e);
    } else {
      BalancedEverywhere(a, e);
    }
    assert e in multiset(ListedFrom(a, 0));
  }

  class EdgeWeightedGraph {
    const V: nat
    var E: int
    const adj: array<seq<Edge>>

    ghost predicate Valid()
      reads this, adj
    {
      adj.Length == V && Shaped(adj[..])
    }

    /** The handshake count: twice the number of edges is the sum of the degrees. */
    ghost predicate Counted()
      reads this, adj
    {
      2 * E == Degrees(adj[..])
    }

    /** An empty graph on V vertices. */
    constructor (V: nat)
      ensures Valid() && Counted()
      ensures this.V == V && E == 0 && fresh(adj)
      ensures forall x :: 0 <= x < V ==> adj[x] == []
    {
      var lists := new seq<Edge>[V];
      var v := 0;
      while v < V
        invariant 0 <= v <= V
        invariant forall x :: 0 <= x < v ==> lists[x] == []
      {
        lists[v] := [];
        v := v + 1;
      }
      this.V := V;
      E := 0;
      adj := lists;
      new;
      DegreesEmpty(adj[..]);
    }

    /** The constructor's check: a negative number of vertices is an illegal argument. */
    static method Create(V: int) returns (r: Result<EdgeWeightedGraph, GraphError>)
      ensures r.Failure? <==> V < 0
      ensures r.Failure? ==> r.error == IllegalArgument
      ensures r.Success? ==> var g := r.value;
        && fresh(g) && fresh(g.adj) && g.Valid() && g.Counted() && g.V == V && g.E == 0
        && forall x :: 0 <= x < V ==> g.adj[x] == []
    {
      if V < 0 {
        return Failure(IllegalArgument);
      }
      var g := new EdgeWeightedGraph(V);
      return Success(g);
    }

    function ValidateVertex(v: int): (r: Outcome<GraphError>)
      ensures r.Pass? <==> 0 <= v < V
      ensures r.Fail? ==> r.error == IndexOutOfBounds
    {
      if v < 0 || v >= V then Fail(IndexOutOfBounds) else Pass
    }

    /** Adds e to the lists of both its endpoints (a self-loop twice to one list). */
    method AddEdge(e: Edge) returns (r: Outcome<GraphError>)
      requires Valid()
      modifies this, adj
      ensures Valid()
      ensures r.Pass? <==> 0 <= e.v < V && 0 <= e.w < V
      ensures r.Fail? ==> r.error == IndexOutOfBounds && E == old(E) && adj[..] == old(adj[..])
      ensures r.Pass? ==> E == old(E) + 1 && adj[..] == AddTo(AddTo(old(adj[..]), e.v, e), e.w, e)
      ensures old(Counted()) ==> Counted()
    {
      var v := e.Either();
      var w := e.Other(v).value;
      r := ValidateVertex(v);
      if r.Fail? {
        return;
      }
      r := ValidateVertex(w);
      if r.Fail? {
        return;
      }
      ghost var a := adj[..];
      AddKeepsShape(a, e);
      adj[v] := adj[v] + [e];
      assert adj[..] == AddTo(a, v, e);
      adj[w] := adj[w] + [e];
      assert adj[..] == AddTo(AddTo(a, v, e), w, e);
      E := E + 1;
      DegreesUpdate(a, v, a[v] + [e]);
      DegreesUpdate(AddTo(a, v, e), w, AddTo(a, v, e)[w] + [e]);
    }

    /**
     * Removes the first occurrence of e from the lists of both its endpoints and decrements E,
     * as written: also when e was not in the graph, which breaks the handshake count.
     */
    method RemoveEdge(e: Edge) returns (r: Outcome<GraphError>)
      requires Valid()
      modifies this, adj
      ensures Valid()
      ensures r.Pass? <==> 0 <= e.v < V && 0 <= e.w < V
      ensures r.Fail? ==> r.error == IndexOutOfBounds && E == old(E) && adj[..] == old(adj[..])
      ensures r.Pass? ==> E == old(E) - 1 && adj[..] == RemoveAt(RemoveAt(old(adj[..]), e.v, e), e.w, e)
      ensures r.Pass? && old(Counted()) ==> (Counted() <==> e in old(adj[e.v]))
    {
      var v := e.Either();
      var w := e.Other(v).value;
      r := ValidateVertex(v);
      if r.Fail? {
        return;
      }
      r := ValidateVertex(w);
      if r.Fail? {
        return;
      }
      ghost var a := adj[..];
      RemoveKeepsShape(a, e);
      adj[v] := RemoveFirst(adj[v], e);
      assert adj[..] == RemoveAt(a, v, e);
      adj[w] := RemoveFirst(adj[w], e);
      assert adj[..] == RemoveAt(RemoveAt(a, v, e), w, e);
      E := E - 1;
      if old(Counted()) {
        RemovalCount(a, old(E), e);
      }
    }

    /** The removal with E decremented only when e was in the graph. */
    method RemoveEdgeCorrected(e: Edge) returns (r: Outcome<GraphError>)
      requires Valid()
      modifies this, adj
      ensures Valid()
      ensures r.Pass? <==> 0 <= e.v < V && 0 <= e.w < V
      ensures r.Fail? ==> r.error == IndexOutOfBounds && E == old(E) && adj[..] == old(adj[..])
      ensures r.Pass? ==> adj[..] == RemoveAt(RemoveAt(old(adj[..]), e.v, e), e.w, e)
      ensures r.Pass? ==> E == old(E) - if e in old(adj[e.v]) then 1 else 0
      ensures old(Counted()) ==> Counted()
    {
      var v := e.Either();
      var w := e.Other(v).value;
      r := ValidateVertex(v);
      if r.Fail? {
        return;
      }
      r := ValidateVertex(w);
      if r.Fail? {
        return;
      }
      ghost var a := adj[..];
      RemoveKeepsShape(a, e);
      var present := e in adj[v];
      adj[v] := RemoveFirst(adj[v], e);
      assert adj[..] == RemoveAt(a, v, e);
      adj[w] := RemoveFirst(adj[w], e);
      assert adj[..] == RemoveAt(RemoveAt(a, v, e), w, e);
      if present {
        E := E - 1;
      }
      if old(Counted()) {
        RemovalCount(a, old(E), e);
      }
    }

    /** The edges incident on v, each of which has v as an endpoint. */
    function Adj(v: int): (r: Result<seq<Edge>, GraphError>)
      requires Valid()
      reads this, adj
      ensures r.Success? <==> 0 <= v < V
      ensures r.Failure? ==> r.error == IndexOutOfBounds
      ensures r.Success? ==> r.value == adj[v] && forall i :: 0 <= i < |r.value| ==> Incident(r.value[i], v, V)
    {
      if ValidateVertex(v).Fail? then Failure(IndexOutOfBounds) else Success(adj[v])
    }

    function Degree(v: int): (r: Result<nat, GraphError>)
      requires Valid()
      reads this, adj
      ensures r.Success? <==> 0 <= v < V
      ensures r.Failure? ==> r.error == IndexOutOfBounds
      ensures r.Success? ==> r.value == |adj[v]|
    {
      if ValidateVertex(v).Fail? then Failure(IndexOutOfBounds) else Success(|adj[v]|)
    }

    /** All edges, each non-loop edge from its lower endpoint, each self-loop once. */
    method Edges() returns (list: seq<Edge>)
      requires Valid()
      ensures AllIncident(adj[..]) && list == ListedFrom(adj[..], 0)
    {
      ghost var a := adj[..];
      ShapedIncident(a);
      list := [];
      var v := 0;
      while v < V
        invariant 0 <= v <= V
        invariant list + ListedFrom(a, v) == ListedFrom(a, 0)
      {
        assert adj[v] == a[v];
        var picked := PickEdges(adj[v], v);
        assert ListedFrom(a, v) == picked + ListedFrom(a, v + 1);
        assert (list + picked) + ListedFrom(a, v + 1) == list + (picked + ListedFrom(a, v + 1));
        list := list + picked;
        v := v + 1;
      }
    }
  }

  /** The inner loop of edges() over the list s of vertex v. */
  method PickEdges(s: seq<Edge>, v: int) returns (list: seq<Edge>)
    requires forall i :: 0 <= i < |s| ==> s[i].v == v || s[i].w == v
    ensures list == Picks(s, v, true)
  {
    list := [];
    var selfLoops := 0;
    ghost var even := true;
    var j := 0;
    while j < |s|
      invariant 0 <= j <= |s|
      invariant even == (selfLoops % 2 == 0)
      invariant list + Picks(s[j..], v, even) == Picks(s, v, true)
    {
      var e := s[j];
      PicksStep(s, v, j, even);
      ghost var before := list;
      var o := e.Other(v).value;
      if o > v {
        list := list + [e];
      } else if o == v {
        if selfLoops % 2 == 0 {
          list := list + [e];
          assert Picks(s[j..], v, even) == [e] + Picks(s[j + 1..], v, !even);
        } else {
          assert Picks(s[j..], v, even) == [] + Picks(s[j + 1..], v, !even);
        }
        selfLoops := selfLoops + 1;
        even := !even;
      }
      j := j + 1;
    }
    assert s[j..] == [];
  }

  lemma PicksStep(s: seq<Edge>, x: int, j: nat, even: bool)
    requires forall i :: 0 <= i < |s| ==> s[i].v == x || s[i].w == x
    requires j < |s|
    ensures var o := s[j].Other(x).value;
      Picks(s[j..], x, even) ==
        (if o > x || (o == x && even) then [s[j]] else []) + Picks(s[j + 1..], x, if o == x then !even else even)
  {
    assert s[j..][0] == s[j] && s[j..][1..] == s[j + 1..];
  }
}
