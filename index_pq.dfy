/**
 * The indexed priority queues of apartments. indexMinPQ keeps the apartment with the lowest
 * price at the root; indexMaxPQ keeps the one with the largest square footage there. Their code
 * is the same but for that comparison, so both are one class here, `IndexPQ`, whose `order`
 * says which comparison it uses.
 *
 * The heap lives in three arrays: `pq` maps heap positions 1..n to indices, `qp` maps indices
 * back to positions (-1 for an index not in the queue) and `apts` maps indices to apartments.
 * The ghost sequence `keys` records each queued index's priority, so that the heap order is
 * stated over integers rather than over the apartment objects.
 */
module IndexedHeaps {
  import opened Wrappers
  import opened Apartments
  import opened HeapOrder

  datatype PqError = IllegalArgument | NoSuchElement | ArrayIndexOutOfBounds

  /** indexMinPQ orders by price, lowest first; indexMaxPQ by square footage, largest first. */
  datatype Order = LowestPrice | LargestArea

  /** The apartment's heap key: the smaller the key, the nearer the root. */
  function Key(order: Order, a: APT): int
    reads a
  {
    if order == LowestPrice then a.price else -a.sf
  }

  /** `a` may stand above `b` in the heap: it is no dearer, or no smaller. */
  predicate Precedes(order: Order, a: APT, b: APT)
    reads a, b
  {
    if order == LowestPrice then a.price <= b.price else a.sf >= b.sf
  }

  /** An index has a heap position (not -1) exactly when it has an apartment. */
  ghost predicate NullsV(inv: seq<int>, slots: seq<APT?>) {
    |inv| == |slots| && forall x :: 0 <= x < |inv| ==> (inv[x] == -1 <==> slots[x] == null)
  }

  /** Setting index i's position to w and its apartment to v together keeps the two in step. */
  lemma NullsAfter(inv: seq<int>, slots: seq<APT?>, i: int, w: int, v: APT?, inv': seq<int>)
    requires NullsV(inv, slots) && 0 <= i < |inv| && (w == -1 <==> v == null) && SameStatus(inv[i := w], inv')
    ensures NullsV(inv', slots[i := v])
  {
  }

  // ----- The queue.

  class IndexPQ {
    const order: Order
    const maxN: nat
    /** N: the number of queued apartments. */
    var n: int
    /** pq[1..n]: the heap of indices. */
    const pq: array<int>
    /** qp[i]: the heap position of index i, or -1. */
    const qp: array<int>
    /** apts[i]: the apartment at index i, or null. */
    const apts: array<APT?>
    /** keys[i]: the key apartment i had when it was last placed in the heap. */
    ghost var keys: seq<int>

    ghost function Apts(): set<APT>
      reads apts
    {
      set x | 0 <= x < apts.Length && apts[x] != null :: apts[x]
    }

    /** The queue's contents: index to apartment. */
    ghost function Contents(): map<int, APT>
      reads apts
    {
      map x | 0 <= x < apts.Length && apts[x] != null :: apts[x]
    }

    ghost predicate Shape()
      reads this, pq, qp, apts
    {
      && pq.Length == maxN + 1 && qp.Length == maxN + 1 && apts.Length == maxN + 1
      && |keys| == maxN + 1 && pq != qp && 0 <= n <= maxN
    }

    /** An index has a heap position exactly when it has an apartment. */
    ghost predicate Nulls()
      reads qp, apts
    {
      NullsV(qp[..], apts[..])
    }

    /** The recorded keys are the apartments' current keys, except perhaps at `skip`. */
    ghost predicate KeysMatch(skip: int)
      reads this, apts, Apts()
    {
      |keys| == apts.Length &&
      forall x :: 0 <= x < apts.Length && x != skip && apts[x] != null ==> keys[x] == Key(order, apts[x])
    }

    /** Everything but the link between recorded keys and apartments. */
    ghost predicate Core()
      reads this, pq, qp, apts
    {
      Shape() && HeapState(pq[..], qp[..], keys, n) && Nulls()
    }

    ghost predicate Valid()
      reads this, pq, qp, apts, Apts()
    {
      Core() && KeysMatch(-1)
    }

    /** new indexMinPQ(maxN) / new indexMaxPQ(maxN): an empty queue for indices 0..maxN. */
    constructor (order: Order, maxN: nat)
      ensures Valid() && Contents() == map[] && n == 0
      ensures this.order == order && this.maxN == maxN
    {
      this.order := order;
      this.maxN := maxN;
      n := 0;
      var inv := new int[maxN + 1];
      for i := 0 to maxN + 1
        invariant forall x :: 0 <= x < i ==> inv[x] == -1
      {
        inv[i] := -1;
      }
      qp := inv;
      apts := new APT?[maxN + 1](_ => null);
      pq := new int[maxN + 1](_ => 0);
      keys := seq(maxN + 1, _ => 0);
      new;
      assert Contents() == map[];
    }

    /** The constructor's check: a negative maxN is refused. */
    static method Create(order: Order, maxN: int) returns (r: Result<IndexPQ, PqError>)
      ensures r.Failure? <==> maxN < 0
      ensures r.Failure? ==> r.error == IllegalArgument
      ensures r.Success? ==> fresh(r.value) && r.value.Valid() && r.value.Contents() == map[]
      ensures r.Success? ==> r.value.order == order && r.value.maxN == maxN && r.value.n == 0
    {
      if maxN < 0 {
        return Failure(IllegalArgument);
      }
      var q := new IndexPQ(order, maxN);
      return Success(q);
    }

    /** isEmpty */
    function IsEmpty(): (r: bool)
      requires Valid()
      reads this, pq, qp, apts, Apts()
      ensures r <==> Contents() == map[]
    {
      EmptyIff();
      n == 0
    }

    lemma EmptyIff()
      requires Valid()
      ensures n == 0 <==> Contents() == map[]
    {
      if n == 0 {
        forall x | 0 <= x < apts.Length
          ensures apts[x] == null
        {
          assert qp[..][x] == qp[x];
        }
        assert Contents() == map[];
      } else {
        assert pq[..][1] == pq[1];
        assert pq[1] in Contents();
      }
    }

    /** contains(i): an index outside 0..maxN is out of the arrays' bounds. */
    function Contains(i: int): (r: Result<bool, PqError>)
      requires Core()
      reads this, pq, qp, apts
      ensures r.Failure? <==> !(0 <= i <= maxN)
      ensures r.Failure? ==> r.error == ArrayIndexOutOfBounds
      ensures r.Success? ==> (r.value <==> i in Contents())
    {
      if 0 <= i < qp.Length then Success(qp[i] != -1) else Failure(ArrayIndexOutOfBounds)
    }

    /** size: the number of queued apartments. */
    function Size(): (r: int)
      requires Valid()
      reads this, pq, qp, apts, Apts()
      ensures r == |Contents()|
    {
      SizeIsCount();
      n
    }

    lemma SizeIsCount()
      requires Valid()
      ensures n == |Contents()|
    {
      LinkCount(pq[..], qp[..], n, n);
      var s := set x | 0 <= x < |qp[..]| && qp[..][x] != -1 && qp[..][x] <= n;
      forall x
        ensures x in s <==> x in Contents()
      {
        if 0 <= x < qp.Length {
          assert qp[..][x] == qp[x];
        }
      }
      assert s == Contents().Keys;
    }

    /** The apartment at the root precedes every queued apartment. */
    lemma RootFirst()
      requires Valid() && n > 0
      ensures pq[1] in Contents()
      ensures forall x :: x in Contents() ==> Precedes(order, apts[pq[1]], Contents()[x])
    {
      var h := pq[..];
      LinkWf(h, qp[..], keys, n);
      assert h[1] == pq[1] && qp[..][pq[1]] == qp[pq[1]];
      forall x | x in Contents()
        ensures Precedes(order, apts[pq[1]], Contents()[x])
      {
        assert qp[..][x] == qp[x];
        RootLeast(h, keys, n, qp[x]);
      }
    }

    /** minIndex / maxIndex: the index at the root, refused on an empty queue. */
    function TopIndex(): (r: Result<int, PqError>)
      requires Valid()
      reads this, pq, qp, apts, Apts()
      ensures r.Failure? <==> Contents() == map[]
      ensures r.Failure? ==> r.error == NoSuchElement
      ensures r.Success? ==> r.value in Contents()
      ensures r.Success? ==> forall x :: x in Contents() ==> Precedes(order, Contents()[r.value], Contents()[x])
    {
      EmptyIff();
      if n == 0 then Failure(NoSuchElement)
      else
        RootFirst();
        Success(pq[1])
    }

    /** minApt / maxApt: the apartment at the root, refused on an empty queue. */
    function TopApt(): (r: Result<APT, PqError>)
      requires Valid()
      reads this, pq, qp, apts, Apts()
      ensures r.Failure? <==> Contents() == map[]
      ensures r.Failure? ==> r.error == NoSuchElement
      ensures r.Success? ==> r.value in Contents().Values
      ensures r.Success? ==> forall x :: x in Contents() ==> Precedes(order, r.value, Contents()[x])
    {
      EmptyIff();
      if n == 0 then Failure(NoSuchElement)
      else
        RootFirst();
        assert apts[pq[1]] == Contents()[pq[1]];
        Success(apts[pq[1]])
    }

    /** aptOf(i): the apartment at a queued index; an index not queued is refused. */
    function AptOf(i: int): (r: Result<APT, PqError>)
      requires Valid()
      reads this, pq, qp, apts, Apts()
      ensures !(0 <= i <= maxN) ==> r == Failure(ArrayIndexOutOfBounds)
      ensures 0 <= i <= maxN ==> (r.Success? <==> i in Contents())
      ensures 0 <= i <= maxN && r.Failure? ==> r.error == NoSuchElement
      ensures r.Success? ==> r.value == Contents()[i]
    {
      var c := Contains(i);
      if c.Failure? then Failure(c.error)
      else if !c.value then Failure(NoSuchElement)
      else Success(apts[i])
    }

    /**
     * greater (by price) / less (by square footage): the item at position i belongs below the
     * one at j. The apartments' current prices or areas are compared; they are the recorded keys.
     */
    function Worse(i: int, j: int): (r: bool)
      requires 0 <= i < pq.Length && 0 <= j < pq.Length
      requires 0 <= pq[i] < apts.Length && 0 <= pq[j] < apts.Length
      requires apts[pq[i]] != null && apts[pq[j]] != null
      requires KeysMatch(-1)
      reads this, pq, apts, Apts()
      ensures r <==> Greater(pq[..], keys, i, j)
    {
      if order == LowestPrice then apts[pq[i]].GetPrice() > apts[pq[j]].GetPrice()
      else apts[pq[i]].GetSf() < apts[pq[j]].GetSf()
    }

    /** exch(i, j): swap two heap positions and record their new positions. */
    method Exch(i: int, j: int, ghost m: int)
      requires Shape() && 1 <= i <= m && 1 <= j <= m && Occupied(m)
      requires 0 <= pq[i] < qp.Length && 0 <= pq[j] < qp.Length
      modifies pq, qp
      ensures (pq[..], qp[..]) == Exchanged(old(pq[..]), old(qp[..]), i, j)
      ensures Occupied(m)
    {
      var swap := pq[i];
      pq[i] := pq[j];
      pq[j] := swap;
      qp[pq[i]] := i;
      qp[pq[j]] := j;
    }

    /** Positions 1..m hold apartments. */
    ghost predicate Occupied(m: int)
      reads pq, apts
    {
      m < pq.Length && forall p :: 1 <= p <= m ==> 0 <= pq[p] < apts.Length && apts[pq[p]] != null
    }

    lemma OccupiedFrom(m: int)
      requires Shape() && LinkP(pq[..], qp[..], m) && Nulls()
      ensures Occupied(m)
    {
      forall p | 1 <= p <= m
        ensures 0 <= pq[p] < apts.Length && apts[pq[p]] != null
      {
        assert pq[..][p] == pq[p] && qp[..][pq[p]] == qp[pq[p]];
      }
    }

    /** swim(k): move the item at position k up while its parent is larger. */
    method Swim(k0: int, ghost m: int)
      requires Shape() && 1 <= k0 <= m && Occupied(m) && KeysMatch(-1)
      modifies pq, qp
      ensures (pq[..], qp[..]) == Swum(old(pq[..]), old(qp[..]), keys, k0)
      ensures Occupied(m)
    {
      var k := k0;
      while k > 1 && Worse(k / 2, k)
        invariant 1 <= k <= k0 && Occupied(m)
        invariant Swum(pq[..], qp[..], keys, k) == Swum(old(pq[..]), old(qp[..]), keys, k0)
        decreases k
      {
        Exch(k, k / 2, m);
        k := k / 2;
      }
    }

    /** sink(k): move the item at position k down while it is larger than its smaller child. */
    method Sink(k0: int, ghost m: int)
      requires Shape() && 1 <= k0 && n <= m && Occupied(m) && KeysMatch(-1)
      modifies pq, qp
      ensures (pq[..], qp[..]) == Sunk(old(pq[..]), old(qp[..]), keys, n, k0)
      ensures Occupied(m)
    {
      ghost var r := Sunk(pq[..], qp[..], keys, n, k0);
      var k := k0;
      while 2 * k <= n
        invariant k0 <= k && Occupied(m)
        invariant Sunk(pq[..], qp[..], keys, n, k) == r
        decreases n - k
      {
        var j := SmallerChild(k, m);
        if !Worse(k, j) {
          break;
        }
        Exch(k, j, m);
        k := j;
      }
    }

    /** The child of k that sink compares it with: the right one if it exists and is smaller. */
    method SmallerChild(k: int, ghost m: int) returns (j: int)
      requires Shape() && 1 <= k && 2 * k <= n <= m && Occupied(m) && KeysMatch(-1)
      ensures j == Child(pq[..], keys, n, k) && (j == 2 * k || j == 2 * k + 1) && j <= n
    {
      j := 2 * k;
      if j < n && Worse(j, j + 1) {
        j := j + 1;
      }
    }
  
    /** insert(i, apt): the index must be in 0..maxN and not queued, and the queue must have room. */
    method Insert(i: int, apt: APT) returns (r: Outcome<PqError>)
      requires Valid()
      modifies this`n, this`keys, pq, qp, apts
      ensures Valid()
      ensures r == (if !(0 <= i <= maxN) then Fail(ArrayIndexOutOfBounds)
                    else if i in old(Contents()) then Fail(IllegalArgument)
                    else if old(n) == maxN then Fail(ArrayIndexOutOfBounds)
                    else Pass)
      ensures r.Pass? ==> Contents() == old(Contents())[i := apt] && n == old(n) + 1
      ensures r.Fail? ==> Contents() == old(Contents()) && n == old(n)
    {
      var c := Contains(i);
      if c.Failure? {
        return Fail(c.error);
      }
      if c.value {
        return Fail(IllegalArgument);
      }
      if n == maxN {
        return Fail(ArrayIndexOutOfBounds);
      }
      ghost var inv, slots := qp[..], apts[..];
      InsertAt(i, apt);
      NullsAfter(inv, slots, i, n, apt, qp[..]);
      return Pass;
    }

    /**
     * The steps of insert once its checks pass: index i takes the new last position and swims.
     * The heap is again in order, i now has a position and every other index keeps its status.
     */
    method InsertAt(i: int, apt: APT)
      requires Shape() && KeysMatch(-1) && Nulls() && HeapState(pq[..], qp[..], keys, n)
      requires 0 <= i <= maxN && n < maxN && qp[i] == -1
      modifies this`n, this`keys, pq, qp, apts
      ensures n == old(n) + 1 && keys == old(keys)[i := Key(order, apt)]
      ensures HeapState(pq[..], qp[..], keys, n) && SameStatus(old(qp[..])[i := n], qp[..])
      ensures apts[..] == old(apts[..])[i := apt]
      ensures Shape() && KeysMatch(-1) && Contents() == old(Contents())[i := apt]
    {
      ghost var h, inv, ks := pq[..], qp[..], keys;
      InsertState(h, inv, keys, n, i, Key(order, apt));
      OccupiedFrom(n);
      Place(i, apt);
      assert (pq[..], qp[..], keys) == (h[n := i], inv[i := n], ks[i := Key(order, apt)]);
      ghost var r := Inserted(h, inv, ks, n - 1, i, Key(order, apt));
      Swim(n, n);
      assert (pq[..], qp[..]) == r;
    }

    /** The writes of insert before it swims: index i takes the new last position. */
    method Place(i: int, apt: APT)
      requires Shape() && KeysMatch(-1) && 0 <= i <= maxN && n < maxN
      requires Occupied(n) && forall p :: 1 <= p <= n ==> pq[p] != i
      modifies this`n, this`keys, pq, qp, apts
      ensures n == old(n) + 1 && keys == old(keys)[i := Key(order, apt)]
      ensures pq[..] == old(pq[..])[n := i] && qp[..] == old(qp[..])[i := n] && apts[..] == old(apts[..])[i := apt]
      ensures Shape() && KeysMatch(-1) && Occupied(n) && Contents() == old(Contents())[i := apt]
    {
      n := n + 1;
      qp[i] := n;
      pq[n] := i;
      apts[i] := apt;
      keys := keys[i := Key(order, apt)];
      assert Contents() == old(Contents())[i := apt];
    }

    /**
     * update(i, apt): the apartment at a queued index is replaced and the heap restored. Only
     * index i's key needs to be current beforehand, so the apartment there may have been changed
     * in place.
     */
    method Update(i: int, apt: APT) returns (r: Outcome<PqError>)
      requires Core() && KeysMatch(i)
      modifies this`keys, pq, qp, apts
      ensures Valid()
      ensures r == (if !(0 <= i <= maxN) then Fail(ArrayIndexOutOfBounds)
                    else if i !in old(Contents()) then Fail(NoSuchElement)
                    else Pass)
      ensures r.Pass? ==> Contents() == old(Contents())[i := apt]
      ensures r.Fail? ==> Contents() == old(Contents())
      ensures n == old(n)
    {
      var c := Contains(i);
      if c.Failure? {
        return Fail(c.error);
      }
      if !c.value {
        return Fail(NoSuchElement);
      }
      ghost var inv, slots := qp[..], apts[..];
      UpdateAt(i, apt);
      NullsAfter(inv, slots, i, inv[i], apt, qp[..]);
      return Pass;
    }

    /**
     * The steps of update once its checks pass: the apartment is replaced, then swims and
     * sinks. The heap is again in order and every index keeps its status.
     */
    method UpdateAt(i: int, apt: APT)
      requires Shape() && KeysMatch(i) && Nulls() && HeapState(pq[..], qp[..], keys, n)
      requires 0 <= i <= maxN && qp[i] != -1
      modifies this`keys, pq, qp, apts
      ensures keys == old(keys)[i := Key(order, apt)]
      ensures HeapState(pq[..], qp[..], keys, n) && SameStatus(old(qp[..]), qp[..])
      ensures apts[..] == old(apts[..])[i := apt]
      ensures Shape() && KeysMatch(-1) && Contents() == old(Contents())[i := apt]
    {
      ghost var h, inv := pq[..], qp[..];
      assert inv[i] == qp[i];
      UpdateState(h, inv, keys, n, i, Key(order, apt));
      OccupiedFrom(n);
      Reprice(i, apt);
      Swim(qp[i], n);
      ghost var s0, s1 := pq[..], qp[..];
      assert (s0, s1) == Swum(h, inv, keys, inv[i]) && s1[i] == qp[i];
      Sink(qp[i], n);
      assert (pq[..], qp[..]) == Sunk(s0, s1, keys, n, s1[i]);
    }

    /** The writes of update before it swims: index i holds the new apartment and key. */
    method Reprice(i: int, apt: APT)
      requires Shape() && KeysMatch(i) && 0 <= i <= maxN && 1 <= qp[i] <= n && Occupied(n)
      modifies this`keys, apts
      ensures keys == old(keys)[i := Key(order, apt)] && apts[..] == old(apts[..])[i := apt]
      ensures Shape() && KeysMatch(-1) && Occupied(n) && Contents() == old(Contents())[i := apt]
    {
      apts[i] := apt;
      keys := keys[i := Key(order, apt)];
      assert Contents() == old(Contents())[i := apt];
    }

    /** delete(i): a queued index leaves the queue and the heap is restored. */
    method Delete(i: int) returns (r: Outcome<PqError>)
      requires Valid()
      modifies this`n, pq, qp, apts
      ensures Valid()
      ensures r == (if !(0 <= i <= maxN) then Fail(ArrayIndexOutOfBounds)
                    else if i !in old(Contents()) then Fail(NoSuchElement)
                    else Pass)
      ensures r.Pass? ==> Contents() == old(Contents()) - {i} && n == old(n) - 1
      ensures r.Fail? ==> Contents() == old(Contents()) && n == old(n)
    {
      var c := Contains(i);
      if c.Failure? {
        return Fail(c.error);
      }
      if !c.value {
        return Fail(NoSuchElement);
      }
      ghost var inv, slots := qp[..], apts[..];
      DeleteAt(i);
      NullsAfter(inv, slots, i, -1, null, qp[..]);
      return Pass;
    }

    /**
     * The steps of delete once its checks pass: the item at qp[i] trades places with the last
     * one, the heap shrinks, the item now at that position swims and sinks, and index i is
     * cleared. The heap is again in order and every other index keeps its status.
     */
    method DeleteAt(i: int)
      requires Shape() && KeysMatch(-1) && Nulls() && HeapState(pq[..], qp[..], keys, n)
      requires 0 <= i <= maxN && qp[i] != -1
      modifies this`n, pq, qp, apts
      ensures n == old(n) - 1
      ensures HeapState(pq[..], qp[..], keys, n) && SameStatus(old(qp[..])[i := -1], qp[..])
      ensures apts[..] == old(apts[..])[i := null]
      ensures Shape() && KeysMatch(-1) && Contents() == old(Contents()) - {i}
    {
      var index := qp[i];
      ghost var h, inv := pq[..], qp[..];
      assert inv[i] == index;
      DeleteState(h, inv, keys, n, i);
      OccupiedFrom(n);
      Shrink(index);
      Remove(i);
    }

    /** exch(index, N--), swim(index), sink(index): the heap closes over the position `index` left. */
    method Shrink(index: int)
      requires Shape() && KeysMatch(-1) && 1 <= index <= n && Occupied(n)
      requires pq[index] < qp.Length && pq[n] < qp.Length
      modifies this`n, pq, qp
      ensures n == old(n) - 1
      ensures (pq[..], qp[..]) == Deleted(old(pq[..]), old(qp[..]), keys, old(n), index)
      ensures Shape()
    {
      ghost var h, inv := pq[..], qp[..];
      Exch(index, n, n);
      n := n - 1;
      ghost var e0, e1 := pq[..], qp[..];
      assert (e0, e1) == Exchanged(h, inv, index, n + 1);
      ghost var s := Swum(e0, e1, keys, index);
      assert Deleted(h, inv, keys, n + 1, index) == Sunk(s.0, s.1, keys, n, index);
      Resettle(index, n + 1);
    }

    /** swim(k) then sink(k), as delete does for the position it emptied. */
    method Resettle(k: int, ghost m: int)
      requires Shape() && KeysMatch(-1) && 1 <= k <= m && n <= m && Occupied(m)
      modifies pq, qp
      ensures var s := Swum(old(pq[..]), old(qp[..]), keys, k);
        (pq[..], qp[..]) == Sunk(s.0, s.1, keys, n, k)
    {
      Swim(k, m);
      ghost var s0, s1 := pq[..], qp[..];
      Sink(k, m);
      assert (pq[..], qp[..]) == Sunk(s0, s1, keys, n, k);
    }

    /** The last writes of delete: index i loses its apartment and its position. */
    method Remove(i: int)
      requires Shape() && KeysMatch(-1) && 0 <= i <= maxN
      modifies qp, apts
      ensures qp[..] == old(qp[..])[i := -1] && apts[..] == old(apts[..])[i := null]
      ensures Shape() && KeysMatch(-1) && Contents() == old(Contents()) - {i}
    {
      apts[i] := null;
      qp[i] := -1;
      assert Contents() == old(Contents()) - {i};
    }
  }
}
