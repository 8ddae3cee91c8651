/**
 * The R-way trie symbol table of the password checker: string keys over the 42-character
 * alphabet, values of any type. A node holds an optional value and one child per alphabet
 * character; the children of a node are indexed by toIndex. Nodes are private to the table and
 * never shared, so they are modelled as values: a recursive put or delete that updates nodes in
 * place and returns the subtrie root is a function (or method) returning the new subtrie.
 */
module RWayTries {
  import opened Wrappers
  import opened Alphabets

  /** A subtrie: Java's null, or a node with a value (None is null) and R children. */
  datatype Trie<V> = Nil | Node(val: Option<V>, next: seq<Trie<V>>)

  datatype TrieError = IndexOutOfBounds

  /** Every node has exactly one child slot per alphabet character. */
  ghost predicate WellFormed<V>(x: Trie<V>) {
    x.Node? ==> |x.next| == R && forall i :: 0 <= i < R ==> WellFormed(x.next[i])
  }

  /** Every node leads to a value: an empty subtrie is pruned to null. */
  ghost predicate Lean<V>(x: Trie<V>)
    requires WellFormed(x)
  {
    x.Node? ==>
      (x.val.Some? || exists i :: 0 <= i < R && x.next[i].Node?) &&
      forall i :: 0 <= i < R ==> Lean(x.next[i])
  }

  /** A node with no value and no children. */
  predicate Bare<V>(x: Trie<V>)
    requires WellFormed(x)
  {
    x.Node? && x.val.None? && forall i :: 0 <= i < R ==> x.next[i].Nil?
  }

  /** new Node(): no value and R null children. */
  function Fresh<V>(): (r: Trie<V>)
    ensures WellFormed(r) && Bare(r)
  {
    Node(None, seq(R, _ => Nil))
  }

  /** A map lookup with Java's null for a missing key. */
  function Find<V>(m: map<string, V>, k: string): Option<V> {
    if k in m then Some(m[k]) else None
  }

  /** get(x, key, d): the node reached from `x` by the characters of `key` from position `d` on. */
  function GetNode<V>(x: Trie<V>, key: string, d: nat): (r: Trie<V>)
    requires WellFormed(x) && ValidKey(key) && d <= |key|
    ensures WellFormed(r)
    decreases |key| - d
  {
    if x.Nil? then Nil
    else if d == |key| then x
    else GetNode(x.next[ToIndex(key[d])], key, d + 1)
  }

  /** The value stored under `key[d..]` below `x` (the tail of get(key)). */
  function Lookup<V>(x: Trie<V>, key: string, d: nat): Option<V>
    requires WellFormed(x) && ValidKey(key) && d <= |key|
  {
    var y := GetNode(x, key, d);
    if y.Nil? then None else y.val
  }

  /**
   * put(x, key, val, d): the subtrie with `val` stored under `key[d..]`, and whether the key had
   * no value before (when put increments n).
   */
  function PutNode<V>(x: Trie<V>, key: string, val: V, d: nat): (r: (Trie<V>, bool))
    requires WellFormed(x) && ValidKey(key) && d <= |key|
    ensures WellFormed(r.0) && r.0.Node?
    ensures r.1 <==> Lookup(x, key, d).None?
    ensures Lean(x) ==> Lean(r.0)
    decreases |key| - d
  {
    var y := if x.Nil? then Fresh() else x;
    LeanChildren(x, y);
    if d == |key| then
      SetValLean(y, val);
      (y.(val := Some(val)), y.val.None?)
    else
      var index := ToIndex(key[d]);
      var (child, grew) := PutNode(y.next[index], key, val, d + 1);
      SetChildLean(y, index, child);
      (y.(next := y.next[index := child]), grew)
  }

  /** The children of a lean node, or of a fresh node standing in for null, are lean. */
  lemma LeanChildren<V>(x: Trie<V>, y: Trie<V>)
    requires WellFormed(x) && WellFormed(y) && y.Node? && (x == y || (x.Nil? && Bare(y)))
    ensures Lean(x) ==> forall i :: 0 <= i < R ==> Lean(y.next[i])
  {
  }

  /** A node with a value whose children are lean is lean. */
  lemma SetValLean<V>(y: Trie<V>, v: V)
    requires WellFormed(y) && y.Node?
    ensures (forall i :: 0 <= i < R ==> Lean(y.next[i])) ==> Lean(y.(val := Some(v)))
  {
  }

  /** Installing a lean non-null child in a node whose other children are lean gives a lean node. */
  lemma SetChildLean<V>(y: Trie<V>, index: nat, child: Trie<V>)
    requires WellFormed(y) && y.Node? && index < R && WellFormed(child) && child.Node?
    ensures (forall i :: 0 <= i < R ==> Lean(y.next[i])) && Lean(child) ==>
      Lean(y.(next := y.next[index := child]))
  {
    var z := y.(next := y.next[index := child]);
    assert z.next[index].Node?;
  }

  /** Nothing is stored below a bare node. */
  lemma BareLookup<V>(y: Trie<V>, k: string, d: nat)
    requires WellFormed(y) && Bare(y) && ValidKey(k) && d <= |k|
    ensures Lookup(y, k, d) == None
  {
    if d < |k| {
      assert y.next[ToIndex(k[d])].Nil?;
      assert GetNode(y, k, d) == GetNode(y.next[ToIndex(k[d])], k, d + 1) == Nil;
    }
  }

  /** Replacing a node's value changes the lookup of the key ending at that node only. */
  lemma SetValLookup<V>(x: Trie<V>, v: Option<V>, k: string, d: nat)
    requires WellFormed(x) && x.Node? && ValidKey(k) && d <= |k|
    ensures Lookup(x.(val := v), k, d) == if d == |k| then v else Lookup(x, k, d)
  {
  }

  lemma SetChildWellFormed<V>(x: Trie<V>, index: nat, child: Trie<V>)
    requires WellFormed(x) && x.Node? && index < R && WellFormed(child)
    ensures WellFormed(x.(next := x.next[index := child]))
  {
  }

  /** Replacing child `index` changes only the lookups that go through that child. */
  lemma SetChildLookup<V>(x: Trie<V>, index: nat, child: Trie<V>, k: string, d: nat)
    requires WellFormed(x) && x.Node? && index < R && WellFormed(child) && ValidKey(k) && d <= |k|
    ensures Lookup(x.(next := x.next[index := child]), k, d) ==
      if d < |k| && ToIndex(k[d]) == index then Lookup(child, k, d + 1) else Lookup(x, k, d)
  {
  }

  /** Two suffixes from `d` agree iff their first characters and the remaining suffixes agree. */
  lemma SuffixStep(k: string, key: string, d: nat)
    requires d < |k| && d < |key|
    ensures k[d..] == key[d..] <==> k[d] == key[d] && k[d + 1..] == key[d + 1..]
  {
    if k[d] == key[d] && k[d + 1..] == key[d + 1..] {
      assert k[d..] == [k[d]] + k[d + 1..];
      assert key[d..] == [key[d]] + key[d + 1..];
    }
    if k[d..] == key[d..] {
      assert k[d] == k[d..][0] && key[d] == key[d..][0];
      assert k[d + 1..] == k[d..][1..] && key[d + 1..] == key[d..][1..];
    }
  }

  /** After put, `key` maps to `val` and every other key keeps its value. */
  lemma {:induction false} PutThenLookup<V>(x: Trie<V>, key: string, val: V, d: nat, k: string)
    requires WellFormed(x) && ValidKey(key) && d <= |key| && ValidKey(k) && d <= |k|
    ensures Lookup(PutNode(x, key, val, d).0, k, d) ==
      if k[d..] == key[d..] then Some(val) else Lookup(x, k, d)
    decreases |key| - d
  {
    var y := if x.Nil? then Fresh() else x;
    assert Lookup(y, k, d) == Lookup(x, k, d) by {
      if x.Nil? {
        BareLookup(y, k, d);
      }
    }
    if d == |key| {
      SetValLookup(y, Some(val), k, d);
      assert d == |k| <==> k[d..] == key[d..];
    } else {
      var index := ToIndex(key[d]);
      var (child, grew) := PutNode(y.next[index], key, val, d + 1);
      SetChildLookup(y, index, child, k, d);
      if d < |k| {
        SuffixStep(k, key, d);
        if ToIndex(k[d]) == index {
          ToIndexInjective(k[d], key[d]);
          PutThenLookup(y.next[index], key, val, d + 1, k);
        } else {
          assert k[d] != key[d];
        }
      } else {
        assert k[d..] != key[d..] by {
          assert |k[d..]| == 0 < |key[d..]|;
        }
      }
    }
  }

  /**
   * The pruning loop at the end of delete: a node without value and without a child is
   * replaced by null.
   */
  method Prune<V>(y: Trie<V>) returns (r: Trie<V>)
    requires WellFormed(y) && y.Node?
    ensures r == if Bare(y) then Nil else y
  {
    if y.val.Some? {
      return y;
    }
    for c := 0 to R
      invariant forall i :: 0 <= i < c ==> y.next[i].Nil?
    {
      if y.next[c].Node? {
        return y;
      }
    }
    return Nil;
  }

  /**
   * delete(x, key, d), with the child selected by the character's alphabet index: the subtrie
   * without a value under `key[d..]`, every other key unchanged, emptied nodes pruned; and
   * whether a value was removed (when delete decrements n).
   */
  method DeleteNode<V>(x: Trie<V>, key: string, d: nat) returns (r: Trie<V>, shrank: bool)
    requires WellFormed(x) && ValidKey(key) && d <= |key|
    ensures WellFormed(r) && (Lean(x) ==> Lean(r))
    ensures shrank <==> Lookup(x, key, d).Some?
    ensures Cleared(r, x, key, d)
    decreases |key| - d
  {
    if x.Nil? {
      return Nil, false;
    }
    var y;
    if d == |key| {
      shrank := x.val.Some?;
      y := x.(val := None);
      ClearValLookups(x, key, d);
    } else {
      var index := ToIndex(key[d]);
      var child;
      child, shrank := DeleteNode(x.next[index], key, d + 1);
      y := x.(next := x.next[index := child]);
      SetChildWellFormed(x, index, child);
      ClearChildLookups(x, key, d, child, y);
    }
    LeanChildren(x, x);
    r := Prune(y);
    NotBareLean(y);
    if r.Nil? {
      PrunedLookups(y, x, key, d);
    }
  }

  /** Below `r`, `key[d..]` has no value and every other key has its value below `x`. */
  ghost predicate Cleared<V>(r: Trie<V>, x: Trie<V>, key: string, d: nat)
    requires WellFormed(r) && WellFormed(x) && ValidKey(key) && d <= |key|
  {
    forall k :: ValidKey(k) && d <= |k| ==>
      Lookup(r, k, d) == if k[d..] == key[d..] then None else Lookup(x, k, d)
  }

  lemma ClearValLookups<V>(x: Trie<V>, key: string, d: nat)
    requires WellFormed(x) && x.Node? && ValidKey(key) && d == |key|
    ensures Cleared(x.(val := None), x, key, d)
  {
    forall k | ValidKey(k) && d <= |k|
      ensures Lookup(x.(val := None), k, d) == if k[d..] == key[d..] then None else Lookup(x, k, d)
    {
      SetValLookup(x, None, k, d);
      assert d == |k| <==> k[d..] == key[d..];
    }
  }

  lemma ClearChildLookups<V>(x: Trie<V>, key: string, d: nat, child: Trie<V>, y: Trie<V>)
    requires WellFormed(x) && x.Node? && ValidKey(key) && d < |key| && WellFormed(child)
    requires y == x.(next := x.next[ToIndex(key[d]) := child]) && WellFormed(y)
    requires Cleared(child, x.next[ToIndex(key[d])], key, d + 1)
    ensures Cleared(y, x, key, d)
  {
    forall k | ValidKey(k) && d <= |k|
      ensures Lookup(y, k, d) == if k[d..] == key[d..] then None else Lookup(x, k, d)
    {
      ClearChildLookup(x, key, d, child, y, k);
    }
  }

  lemma ClearChildLookup<V>(x: Trie<V>, key: string, d: nat, child: Trie<V>, y: Trie<V>, k: string)
    requires WellFormed(x) && x.Node? && ValidKey(key) && d < |key| && WellFormed(child)
    requires y == x.(next := x.next[ToIndex(key[d]) := child]) && WellFormed(y)
    requires ValidKey(k) && d <= |k|
    requires d < |k| ==>
      Lookup(child, k, d + 1) ==
        if k[d + 1..] == key[d + 1..] then None else Lookup(x.next[ToIndex(key[d])], k, d + 1)
    ensures Lookup(y, k, d) == if k[d..] == key[d..] then None else Lookup(x, k, d)
  {
    var index := ToIndex(key[d]);
    SetChildLookup(x, index, child, k, d);
    if d < |k| {
      SuffixStep(k, key, d);
      if ToIndex(k[d]) == index {
        ToIndexInjective(k[d], key[d]);
      } else {
        assert k[d] != key[d];
      }
    } else {
      assert k[d..] != key[d..] by {
        assert |k[d..]| == 0 < |key[d..]|;
      }
    }
  }

  lemma PrunedLookups<V>(y: Trie<V>, x: Trie<V>, key: string, d: nat)
    requires WellFormed(y) && WellFormed(x) && ValidKey(key) && d <= |key|
    requires Cleared(y, x, key, d) && Bare(y)
    ensures Cleared(Nil, x, key, d)
  {
    forall k | ValidKey(k) && d <= |k| ensures Lookup(y, k, d) == None {
      BareLookup(y, k, d);
    }
  }

  /** A node that is not bare and whose children are lean is lean. */
  lemma NotBareLean<V>(y: Trie<V>)
    requires WellFormed(y) && y.Node?
    ensures !Bare(y) && (forall i :: 0 <= i < R ==> Lean(y.next[i])) ==> Lean(y)
  {
  }

  /**
   * delete(x, key, d) as written: the child is selected by the character's code rather than
   * its alphabet index, so a character whose code is R or more indexes past the end of `next`.
   */
  function DeleteAsWritten<V>(x: Trie<V>, key: string, d: nat): (r: Result<(Trie<V>, bool), TrieError>)
    requires WellFormed(x) && d <= |key|
    ensures r.Success? ==> WellFormed(r.value.0)
    decreases |key| - d
  {
    if x.Nil? then Success((Nil, false))
    else if d == |key| then
      var y := x.(val := None);
      Success((if Bare(y) then Nil else y, x.val.Some?))
    else
      var c := key[d] as int;
      if c >= R then Failure(IndexOutOfBounds)
      else
        match DeleteAsWritten(x.next[c], key, d + 1)
        case Failure(e) => Failure(e)
        case Success((child, shrank)) =>
          var y := x.(next := x.next[c := child]);
          Success((if Bare(y) then Nil else y, shrank))
  }

  /** Deleting, as written, a key that begins with a letter from a non-empty trie fails. */
  lemma DeleteAsWrittenFails<V>(x: Trie<V>, key: string)
    requires WellFormed(x) && x.Node? && |key| > 0 && 'a' <= key[0] <= 'z'
    ensures DeleteAsWritten(x, key, 0) == Failure(IndexOutOfBounds)
  {
  }

  /**
   * Deleting, as written, the absent key "!" from the table holding only "7" removes "7": the
   * code of '!' is 33, the alphabet index of '7'.
   */
  lemma DeleteAsWrittenWrongSlot<V>(v: V)
    ensures var x := PutNode(Nil, "7", v, 0).0;
      Lookup(x, "!", 0) == None && Lookup(x, "7", 0) == Some(v) &&
      DeleteAsWritten(x, "!", 0) == Success((Nil, true))
  {
    var x := PutNode(Nil, "7", v, 0).0;
    assert ToIndex('7') == 33 && '!' as int == 33 && ToIndex('!') == 36;
    var seven := x.next[33];
    assert seven == Fresh().(val := Some(v));
    assert Lookup(x, "7", 0) == Some(v);
    assert x.next[36] == Nil;
    assert Lookup(x, "!", 0) == None;
    var y0 := seven.(val := None);
    assert Bare(y0);
    assert DeleteAsWritten(seven, "!", 1) == Success((Nil, true));
    var y := x.(next := x.next[33 := Nil]);
    assert forall i :: 0 <= i < R ==> y.next[i].Nil?;
    assert Bare(y);
  }

  /**
   * collect(x, prefix, results) as a value: the keys below `x`, each prefixed by `prefix`, a node's
   * own key first and then its children's keys in alphabet-index order.
   */
  ghost function Collected<V>(x: Trie<V>, prefix: string): seq<string>
    requires WellFormed(x)
    decreases x, 1, 0
  {
    if x.Nil? then []
    else (if x.val.Some? then [prefix] else []) + CollectedFrom(x, 0, prefix)
  }

  /** The keys below children `c`, `c` + 1, ..., R - 1 of `x`. */
  ghost function CollectedFrom<V>(x: Trie<V>, c: nat, prefix: string): seq<string>
    requires WellFormed(x) && x.Node? && c <= R
    decreases x, 0, R - c
  {
    if c == R then []
    else Collected(x.next[c], prefix + [ToChar(c)]) + CollectedFrom(x, c + 1, prefix)
  }

  /**
   * collect(x, prefix, results): appends the keys below `x` to `results`. The shared
   * StringBuilder that collect appends a character to and removes it from again is the value
   * `prefix + [ToChar(c)]` passed down.
   */
  method CollectInto<V>(x: Trie<V>, prefix: string, results: seq<string>) returns (out: seq<string>)
    requires WellFormed(x)
    ensures out == results + Collected(x, prefix)
    decreases x
  {
    if x.Nil? {
      return results;
    }
    var here: seq<string> := if x.val.Some? then [prefix] else [];
    out := results + here;
    assert out + CollectedFrom(x, 0, prefix) == results + Collected(x, prefix) by {
      assert Collected(x, prefix) == here + CollectedFrom(x, 0, prefix);
    }
    for c := 0 to R
      invariant out + CollectedFrom(x, c, prefix) == results + Collected(x, prefix)
    {
      ghost var rest := CollectedFrom(x, c + 1, prefix);
      ghost var before := out;
      out := CollectInto(x.next[c], prefix + [ToChar(c)], out);
      assert out + rest == before + CollectedFrom(x, c, prefix) by {
        assert CollectedFrom(x, c, prefix) == Collected(x.next[c], prefix + [ToChar(c)]) + rest;
      }
    }
  }

  /**
   * The order of keys produced by collect: a proper prefix comes first, otherwise the first
   * differing characters are ordered by alphabet index.
   */
  predicate Below(a: string, b: string)
    decreases |a|
  {
    |b| > 0 &&
    (|a| == 0 ||
     (InAlphabet(a[0]) && InAlphabet(b[0]) && ToIndex(a[0]) < ToIndex(b[0])) ||
     (a[0] == b[0] && Below(a[1..], b[1..])))
  }

  predicate Sorted(s: seq<string>) {
    forall i, j :: 0 <= i < j < |s| ==> Below(s[i], s[j])
  }

  /** No string is below itself, so a sorted sequence holds no key twice. */
  lemma {:induction false} BelowIrreflexive(a: string)
    ensures !Below(a, a)
    decreases |a|
  {
    if |a| > 0 {
      BelowIrreflexive(a[1..]);
    }
  }

  lemma SortedDistinct(s: seq<string>, i: nat, j: nat)
    requires Sorted(s) && i < j < |s|
    ensures s[i] != s[j]
  {
    BelowIrreflexive(s[i]);
  }

  /** A proper prefix is below its extensions. */
  lemma {:induction false} BelowExtension(a: string, b: string)
    requires |a| < |b| && b[..|a|] == a
    ensures Below(a, b)
    decreases |a|
  {
    if |a| > 0 {
      assert b[1..][..|a| - 1] == a[1..];
      BelowExtension(a[1..], b[1..]);
    }
  }

  /** Strings that agree before position `m` and differ there are ordered by that character. */
  lemma {:induction false} BelowAt(a: string, b: string, m: nat)
    requires m < |a| && m < |b| && a[..m] == b[..m]
    requires InAlphabet(a[m]) && InAlphabet(b[m]) && ToIndex(a[m]) < ToIndex(b[m])
    ensures Below(a, b)
    decreases m
  {
    if m > 0 {
      assert a[0] == a[..m][0] && b[0] == b[..m][0];
      assert a[1..][..m - 1] == a[..m][1..] && b[1..][..m - 1] == b[..m][1..];
      BelowAt(a[1..], b[1..], m - 1);
    }
  }

  lemma SortedConcat(a: seq<string>, b: seq<string>)
    requires Sorted(a) && Sorted(b)
    requires forall s, t :: s in a && t in b ==> Below(s, t)
    ensures Sorted(a + b)
  {
    forall i, j | 0 <= i < j < |a + b| ensures Below((a + b)[i], (a + b)[j]) {
      if j < |a| {
      } else if i >= |a| {
        assert (a + b)[i] == b[i - |a|] && (a + b)[j] == b[j - |a|];
      } else {
        assert (a + b)[i] in a && (a + b)[j] in b;
      }
    }
  }

  lemma ValidExtend(p: string, c: nat)
    requires ValidKey(p) && c < R
    ensures ValidKey(p + [ToChar(c)])
  {
  }

  /**
   * The keys collect lists below `x` for `prefix` are exactly the strings extending `prefix` whose
   * remaining characters lead to a value.
   */
  lemma {:induction false} CollectedMembers<V>(x: Trie<V>, p: string, k: string)
    requires WellFormed(x) && ValidKey(p)
    ensures k in Collected(x, p) <==>
      |p| <= |k| && k[..|p|] == p && ValidKey(k) && Lookup(x, k, |p|).Some?
    decreases x, 1, 0
  {
    if x.Node? {
      CollectedFromMembers(x, 0, p, k);
      if k == p {
        assert k[..|p|] == p;
      }
      if |p| == |k| && k[..|p|] == p {
        assert k == p;
      }
    }
  }

  lemma {:induction false} CollectedFromMembers<V>(x: Trie<V>, c: nat, p: string, k: string)
    requires WellFormed(x) && x.Node? && c <= R && ValidKey(p)
    ensures k in CollectedFrom(x, c, p) <==>
      |p| < |k| && k[..|p|] == p && ValidKey(k) && ToIndex(k[|p|]) >= c && Lookup(x, k, |p|).Some?
    decreases x, 0, R - c
  {
    if c < R {
      var q := p + [ToChar(c)];
      ValidExtend(p, c);
      CollectedMembers(x.next[c], q, k);
      CollectedFromMembers(x, c + 1, p, k);
      if |p| < |k| && ValidKey(k) {
        PrefixSplit(k, p, ToChar(c));
        if ToIndex(k[|p|]) == c {
          ToIndexInjective(k[|p|], ToChar(c));
        }
        if k[|p|] == ToChar(c) {
          assert Lookup(x, k, |p|) == Lookup(x.next[c], k, |p| + 1);
        }
      }
    }
  }

  lemma PrefixSplit(k: string, p: string, ch: char)
    requires |p| < |k|
    ensures k[..|p| + 1] == p + [ch] <==> k[..|p|] == p && k[|p|] == ch
  {
    assert k[..|p| + 1] == k[..|p|] + [k[|p|]];
    if k[..|p| + 1] == p + [ch] {
      assert k[..|p|] == (p + [ch])[..|p|];
    }
  }

  /** collect lists the keys below a node in order. */
  lemma {:induction false} CollectedSorted<V>(x: Trie<V>, p: string)
    requires WellFormed(x) && ValidKey(p)
    ensures Sorted(Collected(x, p))
    decreases x, 1, 0
  {
    if x.Node? {
      CollectedFromSorted(x, 0, p);
      var here: seq<string> := if x.val.Some? then [p] else [];
      forall s, t | s in here && t in CollectedFrom(x, 0, p) ensures Below(s, t) {
        CollectedFromMembers(x, 0, p, t);
        BelowExtension(s, t);
      }
      SortedConcat(here, CollectedFrom(x, 0, p));
    }
  }

  lemma {:induction false} CollectedFromSorted<V>(x: Trie<V>, c: nat, p: string)
    requires WellFormed(x) && x.Node? && c <= R && ValidKey(p)
    ensures Sorted(CollectedFrom(x, c, p))
    decreases x, 0, R - c
  {
    if c < R {
      var q := p + [ToChar(c)];
      ValidExtend(p, c);
      CollectedSorted(x.next[c], q);
      CollectedFromSorted(x, c + 1, p);
      forall s, t | s in Collected(x.next[c], q) && t in CollectedFrom(x, c + 1, p)
        ensures Below(s, t)
      {
        CollectedMembers(x.next[c], q, s);
        CollectedFromMembers(x, c + 1, p, t);
        assert s[..|p|] == s[..|q|][..|p|];
        assert s[|p|] == s[..|q|][|p|];
        BelowAt(s, t, |p|);
      }
      SortedConcat(Collected(x.next[c], q), CollectedFrom(x, c + 1, p));
    }
  }

  /** Going down `p` and then on along `k` from `|p|` is going down `k`, when `p` begins `k`. */
  lemma {:induction false} GetNodeCompose<V>(x: Trie<V>, p: string, k: string, d: nat)
    requires WellFormed(x) && ValidKey(p) && ValidKey(k) && d <= |p| <= |k| && k[..|p|] == p
    ensures GetNode(GetNode(x, p, d), k, |p|) == GetNode(x, k, d)
    decreases |p| - d
  {
    if x.Node? && d < |p| {
      assert k[d] == k[..|p|][d];
      GetNodeCompose(x.next[ToIndex(p[d])], p, k, d + 1);
    }
  }

  /**
   * longestPrefixOf(x, query, d, length) with the test the documentation describes: the length
   * of the longest prefix of `query` stored below `x`, or `length` if there is none.
   */
  function LongestPrefix<V>(x: Trie<V>, query: string, d: nat, length: int): int
    requires WellFormed(x) && ValidKey(query) && d <= |query|
    decreases |query| - d
  {
    if x.Nil? then length
    else
      var length := if x.val.Some? then d else length;
      if d == |query| then length
      else LongestPrefix(x.next[ToIndex(query[d])], query, d + 1, length)
  }

  lemma PrefixValid(s: string, j: nat)
    requires ValidKey(s) && j <= |s|
    ensures ValidKey(s[..j])
  {
  }

  /** The value stored under the first `j` characters of `query`, looked up from position `d`. */
  ghost function PrefixLookup<V>(x: Trie<V>, query: string, j: nat, d: nat): Option<V>
    requires WellFormed(x) && ValidKey(query) && d <= j <= |query|
  {
    PrefixValid(query, j);
    Lookup(x, query[..j], d)
  }

  /**
   * The corrected longestPrefixOf returns the largest `j` from `d` on for which `query[..j]` leads
   * to a value, or `length` when there is none.
   */
  lemma {:induction false} LongestPrefixIsLongest<V>(x: Trie<V>, query: string, d: nat, length: int)
    requires WellFormed(x) && ValidKey(query) && d <= |query| && -1 <= length <= d
    ensures var r := LongestPrefix(x, query, d, length);
      (r == length || (d <= r <= |query| && PrefixLookup(x, query, r, d).Some?)) &&
      length <= r <= |query| &&
      forall j :: d <= j <= |query| && PrefixLookup(x, query, j, d).Some? ==> j <= r
    decreases |query| - d
  {
    if x.Node? {
      var length' := if x.val.Some? then d else length;
      PrefixValid(query, d);
      assert GetNode(x, query[..d], d) == x;
      if d < |query| {
        var child := x.next[ToIndex(query[d])];
        LongestPrefixIsLongest(child, query, d + 1, length');
        forall j | d < j <= |query|
          ensures PrefixLookup(x, query, j, d) == PrefixLookup(child, query, j, d + 1)
        {
          PrefixValid(query, j);
          assert query[..j][d] == query[d];
        }
      }
    }
  }

  /** longestPrefixOf(x, query, d, length) as written: the test at the node is `val == null`. */
  function LongestPrefixAsWritten<V>(x: Trie<V>, query: string, d: nat, length: int): (r: int)
    requires WellFormed(x) && ValidKey(query) && d <= |query|
    ensures r == length || d <= r <= |query|
    decreases |query| - d
  {
    if x.Nil? then length
    else
      var length := if x.val.None? then d else length;
      if d == |query| then length
      else LongestPrefixAsWritten(x.next[ToIndex(query[d])], query, d + 1, length)
  }

  /**
   * As written, longestPrefixOf returns the deepest point of the query's path whose node holds
   * no value: with only "ab" stored, the answer for "ab" is "a", which is not a key, where the
   * corrected version answers "ab".
   */
  lemma LongestPrefixAsWrittenExample<V>(v: V)
    ensures var x := PutNode(Nil, "ab", v, 0).0;
      Lookup(x, "a", 0) == None && Lookup(x, "ab", 0) == Some(v) &&
      LongestPrefixAsWritten(x, "ab", 0, -1) == 1 && LongestPrefix(x, "ab", 0, -1) == 2
  {
    var x := PutNode(Nil, "ab", v, 0).0;
    assert ToIndex('a') == 0 && ToIndex('b') == 1;
    var a := x.next[0];
    var b := a.next[1];
    assert b == Fresh().(val := Some(v));
    assert a.val == None && x.val == None;
    assert Lookup(x, "a", 0) == None;
    assert Lookup(x, "ab", 0) == Some(v);
    assert LongestPrefixAsWritten(b, "ab", 2, 1) == 1;
    assert LongestPrefix(b, "ab", 2, -1) == 2;
  }

  /** Whether the first `j` characters of `query`, followed from position `d`, end at a node with no value. */
  ghost predicate EmptyNodeAt<V>(x: Trie<V>, query: string, j: nat, d: nat)
    requires WellFormed(x) && ValidKey(query) && d <= j <= |query|
  {
    PrefixValid(query, j);
    var y := GetNode(x, query[..j], d);
    y.Node? && y.val.None?
  }

  /**
   * As written, longestPrefixOf returns the largest `j` from `d` on for which `query[..j]` leads
   * to a node that holds no value, or `length` when there is none.
   */
  lemma {:induction false} LongestPrefixAsWrittenIsDeepestEmpty<V>(x: Trie<V>, query: string, d: nat, length: int)
    requires WellFormed(x) && ValidKey(query) && d <= |query| && -1 <= length <= d
    ensures var r := LongestPrefixAsWritten(x, query, d, length);
      (r == length || (d <= r <= |query| && EmptyNodeAt(x, query, r, d))) &&
      length <= r <= |query| &&
      forall j :: d <= j <= |query| && EmptyNodeAt(x, query, j, d) ==> j <= r
    decreases |query| - d
  {
    if x.Node? {
      var length' := if x.val.None? then d else length;
      PrefixValid(query, d);
      assert GetNode(x, query[..d], d) == x;
      if d < |query| {
        var child := x.next[ToIndex(query[d])];
        LongestPrefixAsWrittenIsDeepestEmpty(child, query, d + 1, length');
        forall j | d < j <= |query|
          ensures EmptyNodeAt(x, query, j, d) == EmptyNodeAt(child, query, j, d + 1)
        {
          PrefixValid(query, j);
          assert query[..j][d] == query[d];
        }
      }
    }
  }

  /** Values stored below a lean node: collect finds at least one key. */
  lemma {:induction false} LeanHoldsKey<V>(x: Trie<V>, p: string)
    requires WellFormed(x) && Lean(x) && x.Node?
    ensures |Collected(x, p)| > 0
    decreases x, 1
  {
    if x.val.None? {
      var i :| 0 <= i < R && x.next[i].Node?;
      LeanHoldsKey(x.next[i], p + [ToChar(i)]);
      CollectedFromIncludes(x, 0, p, i);
    }
  }

  lemma {:induction false} CollectedFromIncludes<V>(x: Trie<V>, c: nat, p: string, i: nat)
    requires WellFormed(x) && x.Node? && c <= i < R
    ensures |CollectedFrom(x, c, p)| >= |Collected(x.next[i], p + [ToChar(i)])|
    decreases R - c
  {
    if c < i {
      CollectedFromIncludes(x, c + 1, p, i);
    }
  }

  /** The trie `x` stores exactly the pairs of `m`. */
  ghost predicate Represents<V>(x: Trie<V>, m: map<string, V>)
    requires WellFormed(x)
  {
    forall k :: ValidKey(k) ==> Lookup(x, k, 0) == Find(m, k)
  }

  lemma PutRepresents<V>(x: Trie<V>, m: map<string, V>, key: string, val: V)
    requires WellFormed(x) && ValidKey(key) && Represents(x, m)
    ensures Represents(PutNode(x, key, val, 0).0, m[key := val])
  {
    forall k | ValidKey(k) ensures Lookup(PutNode(x, key, val, 0).0, k, 0) == Find(m[key := val], k) {
      PutThenLookup(x, key, val, 0, k);
      assert k[0..] == k && key[0..] == key;
    }
  }

  lemma DeleteRepresents<V>(x: Trie<V>, r: Trie<V>, m: map<string, V>, key: string)
    requires WellFormed(x) && WellFormed(r) && ValidKey(key) && Represents(x, m) && Cleared(r, x, key, 0)
    ensures Represents(r, m - {key})
  {
    forall k | ValidKey(k) ensures Lookup(r, k, 0) == Find(m - {key}, k) {
      assert k[0..] == k && key[0..] == key;
    }
  }

  lemma RemoveSize<V>(m: map<string, V>, key: string)
    ensures |m - {key}| == |m| - if key in m then 1 else 0
  {
    assert (m - {key}).Keys == m.Keys - {key};
  }

  /**
   * The symbol table. `contents` is the map from keys to values the trie represents; `n` is
   * its size.
   */
  class RWay<V> {
    var root: Trie<V>
    var n: int
    ghost var contents: map<string, V>

    ghost predicate Valid()
      reads this
    {
      WellFormed(root) && Lean(root) &&
      (forall k :: k in contents ==> ValidKey(k)) &&
      Represents(root, contents) && n == |contents|
    }

    /** new RWay(): the empty table. */
    constructor ()
      ensures Valid() && contents == map[]
    {
      root := Nil;
      n := 0;
      contents := map[];
    }

    /** get(key): the value stored under `key`, or null. */
    function Get(key: string): (r: Option<V>)
      reads this
      requires Valid() && ValidKey(key)
      ensures r.Some? <==> key in contents
      ensures r.Some? ==> r.value == contents[key]
    {
      Lookup(root, key, 0)
    }

    /** contains(key): whether get(key) is not null. */
    function Contains(key: string): (r: bool)
      reads this
      requires Valid() && ValidKey(key)
      ensures r <==> key in contents
      ensures r <==> Get(key).Some?
    {
      Get(key).Some?
    }

    /** size(): the number of keys. */
    function Size(): (r: int)
      reads this
      requires Valid()
      ensures r == |contents|
    {
      n
    }

    /** isEmpty(): whether the table holds no key; an empty table has a null root. */
    function IsEmpty(): (r: bool)
      reads this
      requires Valid()
      ensures r <==> contents == map[]
      ensures r ==> root == Nil
    {
      EmptyRoot();
      Size() == 0
    }

    lemma EmptyRoot()
      requires Valid()
      ensures contents == map[] <==> n == 0
      ensures n == 0 ==> root == Nil
    {
      if n == 0 {
        assert contents == map[] by {
          assert |contents.Keys| == 0;
        }
        if root.Node? {
          LeanHoldsKey(root, "");
          CollectedMembers(root, "", Collected(root, "")[0]);
          assert false;
        }
      }
    }

    /**
     * put(key, val): a null value deletes the key; otherwise `val` is stored under `key`, the
     * other keys keep their values, and the size grows exactly when the key was absent.
     */
    method Put(key: string, val: Option<V>)
      requires Valid() && ValidKey(key)
      modifies this
      ensures Valid()
      ensures val.Some? ==> contents == old(contents)[key := val.value]
      ensures val.None? ==> contents == old(contents) - {key}
      ensures n == old(n) + if val.Some? && key !in old(contents) then 1
                            else if val.None? && key in old(contents) then -1 else 0
    {
      match val {
        case None => Delete(key);
        case Some(v) =>
          var r := PutNode(root, key, v, 0);
          PutRepresents(root, contents, key, v);
          root := r.0;
          if r.1 {
            n := n + 1;
          }
          contents := contents[key := v];
      }
    }

    /**
     * delete(key) with the child selected by alphabet index: `key` is removed, the others keep
     * their values, and the size shrinks exactly when the key was present.
     */
    method Delete(key: string)
      requires Valid() && ValidKey(key)
      modifies this
      ensures Valid() && contents == old(contents) - {key}
      ensures n == old(n) - if key in old(contents) then 1 else 0
    {
      var r, shrank := DeleteNode(root, key, 0);
      DeleteRepresents(root, r, contents, key);
      RemoveSize(contents, key);
      root := r;
      if shrank {
        n := n - 1;
      }
      contents := contents - {key};
    }

    /**
     * keysWithPrefix(prefix): every key that begins with `prefix`, each once, in alphabet-index
     * order.
     */
    method KeysWithPrefix(prefix: string) returns (r: seq<string>)
      requires Valid() && ValidKey(prefix)
      ensures forall k :: k in r <==> k in contents && |prefix| <= |k| && k[..|prefix|] == prefix
      ensures Sorted(r)
    {
      var x := GetNode(root, prefix, 0);
      r := CollectInto(x, prefix, []);
      CollectedSorted(x, prefix);
      forall k ensures k in r <==> k in contents && |prefix| <= |k| && k[..|prefix|] == prefix {
        CollectedMembers(x, prefix, k);
        if |prefix| <= |k| && k[..|prefix|] == prefix && ValidKey(k) {
          GetNodeCompose(root, prefix, k, 0);
        }
      }
    }

    /** keys(): every key, each once, in alphabet-index order. */
    method Keys() returns (r: seq<string>)
      requires Valid()
      ensures forall k :: k in r <==> k in contents
      ensures Sorted(r)
    {
      r := KeysWithPrefix("");
      forall k | k in contents ensures k in r {
        assert k[..0] == "";
      }
    }

    /**
     * longestPrefixOf(query) with the test the documentation describes: the longest prefix of
     * `query` that is a key, or null if none is.
     */
    function LongestPrefixOf(query: string): (r: Option<string>)
      reads this
      requires Valid() && ValidKey(query)
      ensures r.None? <==> forall j :: 0 <= j <= |query| ==> query[..j] !in contents
      ensures r.Some? ==>
        |r.value| <= |query| && r.value == query[..|r.value|] && r.value in contents &&
        forall j :: |r.value| < j <= |query| ==> query[..j] !in contents
    {
      var length := LongestPrefix(root, query, 0, -1);
      LongestPrefixIsLongest(root, query, 0, -1);
      PrefixesAgree(query);
      if length == -1 then None else Some(query[..length])
    }

    lemma PrefixesAgree(query: string)
      requires Valid() && ValidKey(query)
      ensures forall j :: 0 <= j <= |query| ==> PrefixLookup(root, query, j, 0) == Find(contents, query[..j])
    {
      forall j | 0 <= j <= |query|
        ensures PrefixLookup(root, query, j, 0) == Find(contents, query[..j])
      {
        PrefixValid(query, j);
      }
    }
  }
}
