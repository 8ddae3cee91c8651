/**
 * The binary-heap arithmetic shared by indexMinPQ and indexMaxPQ, on values: `h` is the array pq
 * (heap position to index), `inv` the array qp (index to position, -1 when absent) and `keys`
 * each index's priority. swim, sink, insert, update and delete are functions here, and the
 * lemmas show that each leaves the two arrays inverse and positions 1..n in heap order.
 */
module HeapOrder {
  // ----- The heap order, on the position-to-index sequence `h` and the index-to-key sequence `keys`.

  /** Positions a and b hold indices with keys, and the key at a is at most the key at b. */
  predicate Le(h: seq<int>, keys: seq<int>, a: int, b: int) {
    0 <= a < |h| && 0 <= b < |h| && 0 <= h[a] < |keys| && 0 <= h[b] < |keys| && keys[h[a]] <= keys[h[b]]
  }

  /** Position c is in order with its parent c / 2. */
  predicate ParentOk(h: seq<int>, keys: seq<int>, c: int) {
    Le(h, keys, c / 2, c)
  }

  /** Positions 1..m hold indices with keys. */
  predicate Wf(h: seq<int>, keys: seq<int>, m: int) {
    m < |h| && forall p :: 1 <= p <= m ==> 0 <= h[p] < |keys|
  }

  /** Positions 1..n form a heap: no child has a smaller key than its parent. */
  predicate HeapOk(h: seq<int>, keys: seq<int>, n: int) {
    forall c :: 2 <= c <= n ==> ParentOk(h, keys, c)
  }

  /** Every parent-child pair within 1..n that does not involve position k is in order. */
  predicate Away(h: seq<int>, keys: seq<int>, n: int, k: int) {
    forall c :: 2 <= c <= n && c != k && c / 2 != k ==> ParentOk(h, keys, c)
  }

  /** The parent of k is in order with the children of k. */
  predicate Bridge(h: seq<int>, keys: seq<int>, n: int, k: int) {
    k > 1 ==>
      (2 * k <= n ==> Le(h, keys, k / 2, 2 * k)) && (2 * k + 1 <= n ==> Le(h, keys, k / 2, 2 * k + 1))
  }

  /** Position k is in order with its children. */
  predicate DownOk(h: seq<int>, keys: seq<int>, n: int, k: int) {
    (2 * k <= n ==> Le(h, keys, k, 2 * k)) && (2 * k + 1 <= n ==> Le(h, keys, k, 2 * k + 1))
  }

  /** Position k is in order with its parent. */
  predicate UpOk(h: seq<int>, keys: seq<int>, k: int) {
    k > 1 ==> ParentOk(h, keys, k)
  }

  function Swap(h: seq<int>, i: int, j: int): (r: seq<int>)
    requires 0 <= i < |h| && 0 <= j < |h|
    ensures |r| == |h| && r[i] == h[j] && r[j] == h[i]
    ensures forall p :: 0 <= p < |h| && p != i && p != j ==> r[p] == h[p]
  {
    h[i := h[j]][j := h[i]]
  }

  lemma SwapWf(h: seq<int>, keys: seq<int>, m: int, i: int, j: int)
    requires Wf(h, keys, m) && 1 <= i <= m && 1 <= j <= m
    ensures Wf(Swap(h, i, j), keys, m)
  {
  }

  /** A heap is in order around every one of its positions. */
  lemma HeapParts(h: seq<int>, keys: seq<int>, n: int, k: int)
    requires Wf(h, keys, n) && HeapOk(h, keys, n) && 1 <= k <= n
    ensures Away(h, keys, n, k) && Bridge(h, keys, n, k) && DownOk(h, keys, n, k) && UpOk(h, keys, k)
  {
    if k > 1 && 2 * k <= n {
      assert ParentOk(h, keys, k) && ParentOk(h, keys, 2 * k);
    }
    if k > 1 && 2 * k + 1 <= n {
      assert ParentOk(h, keys, k) && ParentOk(h, keys, 2 * k + 1);
    }
    if 2 * k <= n {
      assert ParentOk(h, keys, 2 * k);
    }
    if 2 * k + 1 <= n {
      assert ParentOk(h, keys, 2 * k + 1);
    }
  }

  /** In order around k and away from k is in order everywhere. */
  lemma HeapWhole(h: seq<int>, keys: seq<int>, n: int, k: int)
    requires 1 <= k && Away(h, keys, n, k) && DownOk(h, keys, n, k) && UpOk(h, keys, k)
    ensures HeapOk(h, keys, n)
  {
    forall c | 2 <= c <= n
      ensures ParentOk(h, keys, c)
    {
      if c / 2 == k {
        assert c == 2 * k || c == 2 * k + 1;
      }
    }
  }

  /** One step of swim: the item at k is smaller than its parent, so the two trade places. */
  lemma SwimStep(h: seq<int>, keys: seq<int>, n: int, k: int)
    requires Wf(h, keys, n) && 2 <= k <= n
    requires Away(h, keys, n, k) && Bridge(h, keys, n, k) && DownOk(h, keys, n, k)
    requires !Le(h, keys, k / 2, k)
    ensures Away(Swap(h, k, k / 2), keys, n, k / 2)
    ensures Bridge(Swap(h, k, k / 2), keys, n, k / 2)
    ensures DownOk(Swap(h, k, k / 2), keys, n, k / 2)
  {
    var p := k / 2;
    var g := Swap(h, k, p);
    forall c | 2 <= c <= n && c != p && c / 2 != p
      ensures ParentOk(g, keys, c)
    {
      if c / 2 == k {
        assert Le(h, keys, p, c);
      } else {
        assert ParentOk(h, keys, c);
      }
    }
    var s := if k == 2 * p then 2 * p + 1 else 2 * p;
    assert s / 2 == p && s != k;
    if s <= n {
      assert ParentOk(h, keys, s);
    }
    if p > 1 {
      assert ParentOk(h, keys, p);
    }
  }

  /** One step of sink: the item at k is larger than its smaller child j, so the two trade places. */
  lemma SinkStep(h: seq<int>, keys: seq<int>, n: int, k: int, j: int)
    requires Wf(h, keys, n) && 1 <= k && 2 * k <= n
    requires Away(h, keys, n, k) && Bridge(h, keys, n, k) && UpOk(h, keys, k)
    requires (j == 2 * k || j == 2 * k + 1) && j <= n
    requires Le(h, keys, j, 2 * k) && (2 * k + 1 <= n ==> Le(h, keys, j, 2 * k + 1))
    requires !Le(h, keys, k, j)
    ensures Away(Swap(h, k, j), keys, n, j)
    ensures Bridge(Swap(h, k, j), keys, n, j)
    ensures UpOk(Swap(h, k, j), keys, j)
  {
    var g := Swap(h, k, j);
    assert j / 2 == k;
    forall c | 2 <= c <= n && c != j && c / 2 != j
      ensures ParentOk(g, keys, c)
    {
      if c == k {
        assert Le(h, keys, k / 2, j);
      } else if c / 2 == k {
        assert c == 2 * k || c == 2 * k + 1;
        assert Le(h, keys, j, c);
      } else {
        assert ParentOk(h, keys, c);
      }
    }
    if 2 * j <= n {
      assert ParentOk(h, keys, 2 * j);
    }
    if 2 * j + 1 <= n {
      assert ParentOk(h, keys, 2 * j + 1);
    }
  }

  /** Sink stops when the item at k is no larger than its smaller child j. */
  lemma SinkStop(h: seq<int>, keys: seq<int>, n: int, k: int, j: int)
    requires Wf(h, keys, n) && 1 <= k && 2 * k <= n
    requires Away(h, keys, n, k) && UpOk(h, keys, k)
    requires (j == 2 * k || j == 2 * k + 1) && j <= n
    requires Le(h, keys, j, 2 * k) && (2 * k + 1 <= n ==> Le(h, keys, j, 2 * k + 1))
    requires Le(h, keys, k, j)
    ensures HeapOk(h, keys, n)
  {
    HeapWhole(h, keys, n, k);
  }

  /**
   * Deleting the item at position `index` of a heap of size n moves the last item there. The
   * heap of size n - 1 is then in order away from `index`, and the item there is either in order
   * with its parent or with its children.
   */
  lemma DeleteHeap(h: seq<int>, keys: seq<int>, n: int, index: int)
    requires Wf(h, keys, n) && HeapOk(h, keys, n) && 1 <= index <= n
    ensures Away(Swap(h, index, n), keys, n - 1, index)
    ensures Bridge(Swap(h, index, n), keys, n - 1, index)
    ensures DownOk(Swap(h, index, n), keys, n - 1, index) || UpOk(Swap(h, index, n), keys, index)
    ensures index == n ==> UpOk(Swap(h, index, n), keys, index)
  {
    var g := Swap(h, index, n);
    forall c | 2 <= c <= n - 1 && c != index && c / 2 != index
      ensures ParentOk(g, keys, c)
    {
      assert ParentOk(h, keys, c);
    }
    if index > 1 {
      assert ParentOk(h, keys, index);
      assert 1 <= index / 2 < index;
    }
    if 2 * index <= n - 1 {
      assert ParentOk(h, keys, 2 * index);
    }
    if 2 * index + 1 <= n - 1 {
      assert ParentOk(h, keys, 2 * index + 1);
    }
  }

  /** Appending an index at position n of a heap of size n - 1 leaves it in order away from n. */
  lemma InsertHeap(h: seq<int>, keys: seq<int>, n: int, i: int, key: int)
    requires Wf(h, keys, n - 1) && HeapOk(h, keys, n - 1) && 1 <= n < |h| && 0 <= i < |keys|
    requires forall p :: 1 <= p < n ==> h[p] != i
    ensures Away(h[n := i], keys[i := key], n, n)
    ensures Bridge(h[n := i], keys[i := key], n, n) && DownOk(h[n := i], keys[i := key], n, n)
  {
    var g := h[n := i];
    var ks := keys[i := key];
    forall c | 2 <= c <= n && c != n && c / 2 != n
      ensures ParentOk(g, ks, c)
    {
      assert ParentOk(h, keys, c);
    }
  }

  /** Changing the key of the index at position k leaves the heap in order away from k. */
  lemma UpdateHeap(h: seq<int>, keys: seq<int>, n: int, k: int, key: int)
    requires Wf(h, keys, n) && HeapOk(h, keys, n) && 1 <= k <= n
    requires forall p :: 1 <= p <= n && p != k ==> h[p] != h[k]
    ensures Away(h, keys[h[k] := key], n, k) && Bridge(h, keys[h[k] := key], n, k)
    ensures DownOk(h, keys[h[k] := key], n, k) || UpOk(h, keys[h[k] := key], k)
  {
    var ks := keys[h[k] := key];
    forall c | 2 <= c <= n && c != k && c / 2 != k
      ensures ParentOk(h, ks, c)
    {
      assert ParentOk(h, keys, c);
    }
    HeapParts(h, keys, n, k);
    if k > 1 {
      assert 1 <= k / 2 < k;
    }
  }

  /** The root of a heap has the least key. */
  lemma {:induction false} RootLeast(h: seq<int>, keys: seq<int>, n: int, p: int)
    requires Wf(h, keys, n) && HeapOk(h, keys, n) && 1 <= p <= n
    ensures Le(h, keys, 1, p)
    decreases p
  {
    if p > 1 {
      RootLeast(h, keys, n, p / 2);
      assert ParentOk(h, keys, p);
    }
  }

  // ----- The two arrays pq and qp (here h and inv) are inverse to each other.

  /** Each of positions 1..m holds an index whose recorded position is that position. */
  predicate LinkP(h: seq<int>, inv: seq<int>, m: int) {
    0 <= m < |h| && forall p :: 1 <= p <= m ==> 0 <= h[p] < |inv| && inv[h[p]] == p
  }

  /** Each index with a position (not -1) has one in 1..m, and that position holds it. */
  predicate LinkI(h: seq<int>, inv: seq<int>, m: int) {
    forall x :: 0 <= x < |inv| && inv[x] != -1 ==> 1 <= inv[x] <= m && inv[x] < |h| && h[inv[x]] == x
  }

  lemma LinkWf(h: seq<int>, inv: seq<int>, keys: seq<int>, m: int)
    requires LinkP(h, inv, m) && |keys| == |inv|
    ensures Wf(h, keys, m)
  {
  }

  /** Positions other than p hold indices other than the one at p. */
  lemma LinkDistinct(h: seq<int>, inv: seq<int>, m: int, p: int)
    requires LinkP(h, inv, m) && 1 <= p <= m
    ensures forall q :: 1 <= q <= m && q != p ==> h[q] != h[p]
  {
  }

  /** exch(i, j): swapping two positions and re-recording both keeps the arrays inverse. */
  lemma ExchLinks(h: seq<int>, inv: seq<int>, m: int, i: int, j: int)
    requires LinkP(h, inv, m) && LinkI(h, inv, m) && 1 <= i <= m && 1 <= j <= m
    ensures LinkP(Swap(h, i, j), inv[h[j] := i][h[i] := j], m)
    ensures LinkI(Swap(h, i, j), inv[h[j] := i][h[i] := j], m)
    ensures forall x :: 0 <= x < |inv| ==> (inv[h[j] := i][h[i] := j][x] == -1 <==> inv[x] == -1)
  {
  }

  /** insert: an index without a position placed at the new last position n. */
  lemma InsertLinks(h: seq<int>, inv: seq<int>, n: int, i: int)
    requires LinkP(h, inv, n - 1) && LinkI(h, inv, n - 1) && 1 <= n < |h|
    requires 0 <= i < |inv| && inv[i] == -1
    ensures LinkP(h[n := i], inv[i := n], n) && LinkI(h[n := i], inv[i := n], n)
    ensures forall p :: 1 <= p < n ==> h[p] != i
  {
  }

  /** delete: once the index at position n + 1 loses its position, 1..n are linked. */
  lemma DeleteLinks(h: seq<int>, inv: seq<int>, n: int, i: int)
    requires 0 <= n && LinkP(h, inv, n + 1) && LinkI(h, inv, n + 1) && 0 <= i < |inv| && h[n + 1] == i
    ensures LinkP(h, inv[i := -1], n) && LinkI(h, inv[i := -1], n)
  {
  }

  /** The number of indices with a position is the heap size. */
  lemma {:induction false} LinkCount(h: seq<int>, inv: seq<int>, n: int, m: int)
    requires LinkP(h, inv, n) && LinkI(h, inv, n) && 0 <= m <= n
    ensures |set x | 0 <= x < |inv| && inv[x] != -1 && inv[x] <= m| == m
    decreases m
  {
    var s := set x | 0 <= x < |inv| && inv[x] != -1 && inv[x] <= m;
    if m == 0 {
      assert s == {};
    } else {
      LinkCount(h, inv, n, m - 1);
      var t := set x | 0 <= x < |inv| && inv[x] != -1 && inv[x] <= m - 1;
      assert s == t + {h[m]};
      assert h[m] !in t;
    }
  }

  // ----- swim and sink on the values of pq (h) and qp (inv).

  /** Position a holds a larger key than position b. */
  predicate Greater(h: seq<int>, keys: seq<int>, a: int, b: int) {
    0 <= a < |h| && 0 <= b < |h| && 0 <= h[a] < |keys| && 0 <= h[b] < |keys| && keys[h[a]] > keys[h[b]]
  }

  /** exch(i, j): positions i and j trade indices, and both indices record their new positions. */
  function Exchanged(h: seq<int>, inv: seq<int>, i: int, j: int): (r: (seq<int>, seq<int>))
    requires 0 <= i < |h| && 0 <= j < |h| && 0 <= h[i] < |inv| && 0 <= h[j] < |inv|
    ensures |r.0| == |h| && |r.1| == |inv|
  {
    (Swap(h, i, j), inv[h[j] := i][h[i] := j])
  }

  /** swim(k): while the item at k has a larger parent, exch(k, k / 2) and go up. */
  function Swum(h: seq<int>, inv: seq<int>, keys: seq<int>, k: int): (r: (seq<int>, seq<int>))
    ensures |r.0| == |h| && |r.1| == |inv|
    decreases k
  {
    if 1 < k < |h| && Greater(h, keys, k / 2, k) && h[k] < |inv| && h[k / 2] < |inv| then
      var e := Exchanged(h, inv, k, k / 2);
      Swum(e.0, e.1, keys, k / 2)
    else
      (h, inv)
  }

  /** The child sink(k) compares k with: the right child if it exists and is smaller, else the left. */
  function Child(h: seq<int>, keys: seq<int>, n: int, k: int): int {
    if 2 * k < n && Greater(h, keys, 2 * k, 2 * k + 1) then 2 * k + 1 else 2 * k
  }

  /** sink(k) in a heap of size n: while the item at k is larger than its smaller child, trade places. */
  function Sunk(h: seq<int>, inv: seq<int>, keys: seq<int>, n: int, k: int): (r: (seq<int>, seq<int>))
    ensures |r.0| == |h| && |r.1| == |inv|
    decreases n - k
  {
    if 1 <= k && 2 * k <= n && n < |h| then
      var j := Child(h, keys, n, k);
      if Greater(h, keys, k, j) && h[k] < |inv| && h[j] < |inv| then
        var e := Exchanged(h, inv, k, j);
        Sunk(e.0, e.1, keys, n, j)
      else
        (h, inv)
    else
      (h, inv)
  }

  /** Indices without a position (-1) are the same in inv and inv'. */
  predicate SameStatus(inv: seq<int>, inv': seq<int>) {
    |inv'| == |inv| && forall x :: 0 <= x < |inv| ==> (inv'[x] == -1 <==> inv[x] == -1)
  }

  /** swim keeps pq and qp inverse, keeps which indices are queued and moves nothing below k. */
  lemma {:induction false} SwumLinks(h: seq<int>, inv: seq<int>, keys: seq<int>, m: int, k: int)
    requires LinkP(h, inv, m) && LinkI(h, inv, m) && 1 <= k <= m
    ensures LinkP(Swum(h, inv, keys, k).0, Swum(h, inv, keys, k).1, m)
    ensures LinkI(Swum(h, inv, keys, k).0, Swum(h, inv, keys, k).1, m)
    ensures SameStatus(inv, Swum(h, inv, keys, k).1)
    ensures |Swum(h, inv, keys, k).0| == |h| && forall p :: k < p < |h| ==> Swum(h, inv, keys, k).0[p] == h[p]
    decreases k
  {
    if 1 < k < |h| && Greater(h, keys, k / 2, k) && h[k] < |inv| && h[k / 2] < |inv| {
      var e := Exchanged(h, inv, k, k / 2);
      ExchLinks(h, inv, m, k, k / 2);
      SwumLinks(e.0, e.1, keys, m, k / 2);
    }
  }

  /**
   * swim puts in order an item that is out of order only with its parent: afterwards the heap is
   * in order, or nothing moved and the item was in order with its parent.
   */
  lemma {:induction false} SwumOrder(h: seq<int>, inv: seq<int>, keys: seq<int>, n: int, k: int)
    requires Wf(h, keys, n) && |inv| == |keys| && 1 <= k <= n + 1
    requires Away(h, keys, n, k) && Bridge(h, keys, n, k)
    requires DownOk(h, keys, n, k) || UpOk(h, keys, k)
    requires k == n + 1 ==> UpOk(h, keys, k)
    ensures HeapOk(Swum(h, inv, keys, k).0, keys, n) || (Swum(h, inv, keys, k) == (h, inv) && UpOk(h, keys, k))
    ensures UpOk(h, keys, k) ==> Swum(h, inv, keys, k) == (h, inv)
    decreases k
  {
    if 1 < k < |h| && Greater(h, keys, k / 2, k) && h[k] < |inv| && h[k / 2] < |inv| {
      var e := Exchanged(h, inv, k, k / 2);
      SwimStep(h, keys, n, k);
      SwapWf(h, keys, n, k, k / 2);
      SwumOrder(e.0, e.1, keys, n, k / 2);
      if !HeapOk(Swum(e.0, e.1, keys, k / 2).0, keys, n) {
        HeapWhole(e.0, keys, n, k / 2);
      }
    }
  }

  /** sink keeps pq and qp inverse, keeps which indices are queued and moves nothing past n. */
  lemma {:induction false} SunkLinks(h: seq<int>, inv: seq<int>, keys: seq<int>, n: int, m: int, k: int)
    requires LinkP(h, inv, m) && LinkI(h, inv, m) && 0 <= n <= m && 1 <= k
    ensures LinkP(Sunk(h, inv, keys, n, k).0, Sunk(h, inv, keys, n, k).1, m)
    ensures LinkI(Sunk(h, inv, keys, n, k).0, Sunk(h, inv, keys, n, k).1, m)
    ensures SameStatus(inv, Sunk(h, inv, keys, n, k).1)
    ensures |Sunk(h, inv, keys, n, k).0| == |h| && forall p :: n < p < |h| ==> Sunk(h, inv, keys, n, k).0[p] == h[p]
    decreases n - k
  {
    if 1 <= k && 2 * k <= n && n < |h| {
      var j := Child(h, keys, n, k);
      if Greater(h, keys, k, j) && h[k] < |inv| && h[j] < |inv| {
        var e := Exchanged(h, inv, k, j);
        ExchLinks(h, inv, m, k, j);
        SunkLinks(e.0, e.1, keys, n, m, j);
      }
    }
  }

  /** sink puts in order an item that is out of order only with its children. */
  lemma {:induction false} SunkOrder(h: seq<int>, inv: seq<int>, keys: seq<int>, n: int, k: int)
    requires Wf(h, keys, n) && |inv| == |keys| && 1 <= k <= n + 1
    requires Away(h, keys, n, k) && Bridge(h, keys, n, k) && UpOk(h, keys, k)
    ensures HeapOk(Sunk(h, inv, keys, n, k).0, keys, n)
    decreases n - k
  {
    if 2 * k <= n {
      var j := Child(h, keys, n, k);
      assert Le(h, keys, j, 2 * k) && (2 * k + 1 <= n ==> Le(h, keys, j, 2 * k + 1));
      if Greater(h, keys, k, j) {
        var e := Exchanged(h, inv, k, j);
        SinkStep(h, keys, n, k, j);
        SwapWf(h, keys, n, k, j);
        SunkOrder(e.0, e.1, keys, n, j);
      } else {
        SinkStop(h, keys, n, k, j);
      }
    } else {
      HeapWhole(h, keys, n, k);
    }
  }

  // ----- The queue's arrays as values.

  /** pq (h) and qp (inv) are inverse on positions 1..n, and positions 1..n form a heap under keys. */
  ghost predicate HeapState(h: seq<int>, inv: seq<int>, keys: seq<int>, n: int) {
    && 0 <= n < |h| && |keys| == |inv|
    && LinkP(h, inv, n) && LinkI(h, inv, n) && HeapOk(h, keys, n)
  }

  /** The values insert(i, apt) leaves in pq and qp: i takes the new last position and swims. */
  function Inserted(h: seq<int>, inv: seq<int>, keys: seq<int>, n: int, i: int, key: int): (r: (seq<int>, seq<int>))
    requires 0 <= n + 1 < |h| && 0 <= i < |inv| && |keys| == |inv|
  {
    Swum(h[n + 1 := i], inv[i := n + 1], keys[i := key], n + 1)
  }

  /**
   * insert(i, apt) on the values: the result is a heap of size n + 1 in which exactly i has
   * been added.
   */
  lemma InsertState(h: seq<int>, inv: seq<int>, keys: seq<int>, n: int, i: int, key: int)
    requires HeapState(h, inv, keys, n) && n + 1 < |h| && 0 <= i < |inv| && inv[i] == -1
    ensures forall p :: 1 <= p <= n ==> h[p] != i
    ensures HeapState(Inserted(h, inv, keys, n, i, key).0, Inserted(h, inv, keys, n, i, key).1, keys[i := key], n + 1)
    ensures SameStatus(inv[i := n + 1], Inserted(h, inv, keys, n, i, key).1)
  {
    var h1, inv1, ks := h[n + 1 := i], inv[i := n + 1], keys[i := key];
    LinkWf(h, inv, keys, n);
    InsertLinks(h, inv, n + 1, i);
    InsertHeap(h, keys, n + 1, i, key);
    LinkWf(h1, inv1, ks, n + 1);
    SwumLinks(h1, inv1, ks, n + 1, n + 1);
    SwumOrder(h1, inv1, ks, n + 1, n + 1);
    if !HeapOk(Swum(h1, inv1, ks, n + 1).0, ks, n + 1) {
      HeapWhole(h1, ks, n + 1, n + 1);
    }
  }

  /** The values update(i, apt) leaves in pq and qp: i swims from its position and sinks from its new one. */
  function Updated(h: seq<int>, inv: seq<int>, keys: seq<int>, n: int, i: int, key: int): (r: (seq<int>, seq<int>))
    requires 0 <= i < |inv| && |keys| == |inv|
  {
    var ks := keys[i := key];
    var s1 := Swum(h, inv, ks, inv[i]);
    Sunk(s1.0, s1.1, ks, n, s1.1[i])
  }

  /**
   * update(i, apt) on the values: once i's key changes and i swims and sinks, the result is a
   * heap of the same indices.
   */
  lemma UpdateState(h: seq<int>, inv: seq<int>, keys: seq<int>, n: int, i: int, key: int)
    requires HeapState(h, inv, keys, n) && 0 <= i < |inv| && inv[i] != -1
    ensures 1 <= inv[i] <= n && 1 <= Swum(h, inv, keys[i := key], inv[i]).1[i] <= n
    ensures HeapState(Updated(h, inv, keys, n, i, key).0, Updated(h, inv, keys, n, i, key).1, keys[i := key], n)
    ensures SameStatus(inv, Updated(h, inv, keys, n, i, key).1)
  {
    var ks := keys[i := key];
    var k := inv[i];
    LinkWf(h, inv, keys, n);
    LinkDistinct(h, inv, n, k);
    UpdateHeap(h, keys, n, k, key);
    LinkWf(h, inv, ks, n);
    SwumLinks(h, inv, ks, n, k);
    SwumOrder(h, inv, ks, n, k);
    var s1 := Swum(h, inv, ks, k);
    LinkWf(s1.0, s1.1, ks, n);
    if HeapOk(s1.0, ks, n) {
      HeapParts(s1.0, ks, n, s1.1[i]);
    }
    SunkLinks(s1.0, s1.1, ks, n, n, s1.1[i]);
    SunkOrder(s1.0, s1.1, ks, n, s1.1[i]);
  }

  /** The values delete(i) leaves in pq and qp, before i's own position is cleared. */
  function Deleted(h: seq<int>, inv: seq<int>, keys: seq<int>, n: int, index: int): (r: (seq<int>, seq<int>))
    requires 1 <= index <= n < |h| && 0 <= h[index] < |inv| && 0 <= h[n] < |inv|
  {
    var e := Exchanged(h, inv, index, n);
    var s1 := Swum(e.0, e.1, keys, index);
    Sunk(s1.0, s1.1, keys, n - 1, index)
  }

  /**
   * The first half of delete(i) on the values: the item at `index` trades places with the last
   * one, and swims in the heap one smaller. Afterwards the deleted index is still at position n,
   * and the heap of size n - 1 is ready to sink from `index`.
   */
  lemma DeleteSwim(h: seq<int>, inv: seq<int>, keys: seq<int>, n: int, index: int)
    requires HeapState(h, inv, keys, n) && 1 <= index <= n
    ensures 0 <= h[index] < |inv| && 0 <= h[n] < |inv|
    ensures var e := Exchanged(h, inv, index, n);
            var s1 := Swum(e.0, e.1, keys, index);
            && s1.0[n] == h[index]
            && LinkP(s1.0, s1.1, n) && LinkI(s1.0, s1.1, n) && SameStatus(inv, s1.1)
            && Wf(s1.0, keys, n - 1) && |s1.1| == |keys|
            && Away(s1.0, keys, n - 1, index) && Bridge(s1.0, keys, n - 1, index) && UpOk(s1.0, keys, index)
  {
    LinkWf(h, inv, keys, n);
    DeleteHeap(h, keys, n, index);
    ExchLinks(h, inv, n, index, n);
    SwapWf(h, keys, n, index, n);
    var e := Exchanged(h, inv, index, n);
    SwumLinks(e.0, e.1, keys, n, index);
    SwumOrder(e.0, e.1, keys, n - 1, index);
    var s1 := Swum(e.0, e.1, keys, index);
    LinkWf(s1.0, s1.1, keys, n);
    if HeapOk(s1.0, keys, n - 1) && index <= n - 1 {
      HeapParts(s1.0, keys, n - 1, index);
    }
  }

  /**
   * The second half of delete(i) on the values, for the links: sinking in the heap of size n - 1
   * leaves the deleted index at position n, where it then loses its position.
   */
  lemma DeleteSinkLinks(h: seq<int>, inv: seq<int>, keys: seq<int>, n: int, index: int, i: int)
    requires 1 <= index <= n && 0 <= i < |inv| && LinkP(h, inv, n) && LinkI(h, inv, n) && h[n] == i
    ensures Sunk(h, inv, keys, n - 1, index).0[n] == i
    ensures LinkP(Sunk(h, inv, keys, n - 1, index).0, Sunk(h, inv, keys, n - 1, index).1[i := -1], n - 1)
    ensures LinkI(Sunk(h, inv, keys, n - 1, index).0, Sunk(h, inv, keys, n - 1, index).1[i := -1], n - 1)
    ensures SameStatus(inv, Sunk(h, inv, keys, n - 1, index).1)
  {
    SunkLinks(h, inv, keys, n - 1, n, index);
    var s2 := Sunk(h, inv, keys, n - 1, index);
    DeleteLinks(s2.0, s2.1, n - 1, i);
  }

  /**
   * delete(i) on the values: the last item moves to i's position, which swims and then sinks in
   * a heap one smaller; i ends at position n and then has no position.
   */
  lemma DeleteState(h: seq<int>, inv: seq<int>, keys: seq<int>, n: int, i: int)
    requires HeapState(h, inv, keys, n) && 0 <= i < |inv| && inv[i] != -1
    ensures 1 <= inv[i] <= n && 0 <= h[inv[i]] < |inv| && 0 <= h[n] < |inv|
    ensures Deleted(h, inv, keys, n, inv[i]).0[n] == i
    ensures HeapState(Deleted(h, inv, keys, n, inv[i]).0, Deleted(h, inv, keys, n, inv[i]).1[i := -1], keys, n - 1)
    ensures SameStatus(inv[i := -1], Deleted(h, inv, keys, n, inv[i]).1[i := -1])
  {
    var index := inv[i];
    DeleteSwim(h, inv, keys, n, index);
    var e := Exchanged(h, inv, index, n);
    var s1 := Swum(e.0, e.1, keys, index);
    DeleteSinkLinks(s1.0, s1.1, keys, n, index, i);
    SunkOrder(s1.0, s1.1, keys, n - 1, index);
  }
}
