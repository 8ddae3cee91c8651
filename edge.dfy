/**
 * An undirected edge of the airline graph: two city vertices and two weights, a distance and a
 * price. Its fields are final, so the model is a class of constants; edges are compared by
 * reference, as Java's inherited equals does.
 */
module Edges {
  import opened Wrappers

  datatype EdgeError = IllegalEndpoint

  class Edge {
    const v: int
    const w: int
    const dist: int
    /** The price; only its sign is used here (the price-weighted shortest paths are not modelled). */
    const pri: real

    constructor (v: int, w: int, dist: int, pri: real)
      ensures this.v == v && this.w == w && this.dist == dist && this.pri == pri
    {
      this.v := v;
      this.w := w;
      this.dist := dist;
      this.pri := pri;
    }

    /** Either endpoint: the first vertex given to the constructor, whose other end is w. */
    function Either(): (r: int)
      ensures Other(r) == Success(w)
    {
      v
    }

    /**
     * The endpoint other than `vertex`; for a self-loop that is `vertex` itself. Any vertex that
     * is not an endpoint is an error.
     */
    function Other(vertex: int): (r: Result<int, EdgeError>)
      ensures r.Success? <==> vertex == v || vertex == w
      ensures r.Success? ==> {vertex, r.value} == {v, w}
      ensures vertex == v ==> r == Success(w)
    {
      if vertex == v then Success(w)
      else if vertex == w then Success(v)
      else Failure(IllegalEndpoint)
    }

    /**
     * The comparison as written: 1 when this edge is longer, otherwise 0. The second test
     * repeats the first, so -1 is never returned.
     */
    function CompareTo(that: Edge): (r: int)
      ensures r == 1 <==> dist > that.dist
      ensures r == 0 <==> dist <= that.dist
    {
      if dist > that.dist then 1
      else if dist > that.dist then -1
      else 0
    }

    /** The comparison the documentation describes: the sign of the difference of distances. */
    function CompareToCorrected(that: Edge): (r: int)
      ensures r == -1 <==> dist < that.dist
      ensures r == 0 <==> dist == that.dist
      ensures r == 1 <==> dist > that.dist
    {
      if dist > that.dist then 1
      else if dist < that.dist then -1
      else 0
    }
  }

  /** Going to the other end and back returns to where one started; either() is an endpoint. */
  lemma OtherTwice(e: Edge, x: int)
    requires x == e.v || x == e.w
    ensures e.Other(x).Success? && e.Other(e.Other(x).value) == Success(x)
    ensures e.Other(e.Other(e.Either()).value) == Success(e.Either())
  {
  }

  /**
   * The comparison as written is not antisymmetric: for edges of different lengths, the shorter
   * compares as equal to the longer while the longer compares as greater.
   */
  lemma CompareToNotAntisymmetric(a: Edge, b: Edge)
    requires a.dist < b.dist
    ensures a.CompareTo(b) == 0 && b.CompareTo(a) == 1
    ensures a.CompareTo(b) != -b.CompareTo(a)
  {
  }

  /** The corrected comparison is antisymmetric, as Comparable requires. */
  lemma CompareToCorrectedAntisymmetric(a: Edge, b: Edge)
    ensures a.CompareToCorrected(b) == -b.CompareToCorrected(a)
  {
  }
}
