/**
 * The De la Briandais trie of the password checker's dictionary. Each node holds a character,
 * a link to its first child and a link to its next sibling; a key is stored when the path of
 * its characters is followed by a child holding the terminator '#'.
 *
 * The nodes live in an arena: node `q` is entry `q` of the sequences `value`, `sibling` and
 * `child`, null is -1, a new node is appended at the end and links are updated in place. Node
 * 0 is the root. Because nodes are only ever appended, a node's index records when it was
 * created. Ghost state names every node: `parent[q]` is the node whose child chain holds `q`,
 * `path[q]` the characters from the root to `q`, and `node` maps each path back to its node.
 */
module DlbTries {

  /** The character that marks the end of a stored key. */
  const Terminator: char := '#'

  /** The node an add step reached, and whether it had to be created. */
  datatype NodeAdded = NodeAdded(node: int, added: bool)

  /** The prefixes of `u`, the empty one and `u` included. */
  ghost function Prefixes(u: string): set<string>
    decreases |u|
  {
    if u == [] then {[]} else Prefixes(u[..|u| - 1]) + {u}
  }

  lemma {:induction false} PrefixesAre(u: string, w: string)
    ensures w in Prefixes(u) <==> |w| <= |u| && w == u[..|w|]
    decreases |u|
  {
    assert u[..|u|] == u;
    if u != [] {
      PrefixesAre(u[..|u| - 1], w);
      if |w| < |u| {
        assert u[..|u| - 1][..|w|] == u[..|w|];
      }
    }
  }

  /** One more prefix; it is longer than the ones before it. */
  lemma PrefixesStep(t: string, i: nat)
    requires i < |t|
    ensures t[..i] + [t[i]] == t[..i + 1]
    ensures Prefixes(t[..i + 1]) == Prefixes(t[..i]) + {t[..i + 1]}
    ensures t[..i + 1] !in Prefixes(t[..i])
  {
    assert t[..i + 1][..i] == t[..i];
    PrefixesAre(t[..i], t[..i + 1]);
  }

  /** Adding the next prefix of `t` to a set holding `known` and the first prefixes. */
  lemma KeysStep(known: set<string>, before: set<string>, after: set<string>, t: string, i: nat)
    requires i < |t| && before == known + Prefixes(t[..i]) && after == before + {t[..i + 1]}
    ensures after == known + Prefixes(t[..i + 1])
  {
    PrefixesStep(t, i);
  }

  /** All of `t` is its last prefix, and a prefix of itself. */
  lemma WholePrefix(t: string)
    ensures t[..|t|] == t && t in Prefixes(t)
  {
    assert t[..|t|] == t;
    PrefixesAre(t, t);
  }

  /** The node arrays and the ghost naming of the nodes, as one value. */
  datatype Arena = Arena(value: seq<char>, sibling: seq<int>, child: seq<int>,
                         parent: seq<int>, path: seq<string>, node: map<string, int>)

  /** Node count and link ranges; each node's path extends its parent's by its character. */
  ghost predicate Shape(a: Arena) {
    |a.value| >= 1 && |a.sibling| == |a.value| && |a.child| == |a.value| &&
    |a.parent| == |a.value| && |a.path| == |a.value| &&
    a.parent[0] == -1 && a.sibling[0] == -1 && a.path[0] == [] &&
    (forall q :: 1 <= q < |a.value| ==> 0 <= a.parent[q] < q && a.path[q] == a.path[a.parent[q]] + [a.value[q]]) &&
    (forall q :: 0 <= q < |a.value| ==> -1 <= a.child[q] < |a.value| && -1 <= a.sibling[q] < |a.value|)
  }

  /** child[p] is the earliest node whose parent is p, or -1 when there is none. */
  ghost predicate FirstChild(a: Arena, p: int)
    requires Shape(a) && 0 <= p < |a.value|
  {
    if a.child[p] == -1 then forall q :: 1 <= q < |a.value| ==> a.parent[q] != p
    else (a.parent[a.child[p]] == p && forall q :: 1 <= q < a.child[p] ==> a.parent[q] != p)
  }

  /** sibling[q] is the next node after q with the same parent, or -1 when there is none. */
  ghost predicate NextSibling(a: Arena, q: int)
    requires Shape(a) && 1 <= q < |a.value|
  {
    if a.sibling[q] == -1 then forall r :: q < r < |a.value| ==> a.parent[r] != a.parent[q]
    else (q < a.sibling[q] && a.parent[a.sibling[q]] == a.parent[q] &&
          forall r :: q < r < a.sibling[q] ==> a.parent[r] != a.parent[q])
  }

  /**
   * The invariant: the child chain of every node lists its children in creation order, and
   * `node` is the inverse of `path` (so no chain holds a character twice).
   */
  ghost predicate Linked(a: Arena) {
    Shape(a) &&
    (forall p :: 0 <= p < |a.value| ==> FirstChild(a, p)) &&
    (forall q :: 1 <= q < |a.value| ==> NextSibling(a, q)) &&
    (forall q :: 0 <= q < |a.value| ==> a.path[q] in a.node && a.node[a.path[q]] == q) &&
    (forall s :: s in a.node ==> 0 <= a.node[s] < |a.value| && a.path[a.node[s]] == s)
  }

  /** A child of `p` holds `c` exactly when the path of `p` followed by `c` is a node's path. */
  lemma ChildByPath(a: Arena, p: int, c: char)
    requires Linked(a) && 0 <= p < |a.value|
    ensures a.path[p] + [c] in a.node <==>
              exists q :: 1 <= q < |a.value| && a.parent[q] == p && a.value[q] == c
    ensures forall q :: 1 <= q < |a.value| && a.parent[q] == p && a.value[q] == c ==>
              a.node[a.path[p] + [c]] == q
  {
    var s := a.path[p] + [c];
    if s in a.node {
      var q := a.node[s];
      assert q != 0 by {
        assert |a.path[q]| == |s| > 0 == |a.path[0]|;
      }
      assert a.path[a.parent[q]] == s[..|s| - 1] == a.path[p];
      assert a.parent[q] == p && a.value[q] == c;
    }
  }

  /** Paths are closed under prefixes. */
  lemma {:induction false} PrefixClosed(a: Arena, s: string, j: nat)
    requires Linked(a) && s in a.node && j <= |s|
    ensures s[..j] in a.node
    decreases |s| - j
  {
    if j < |s| {
      var q := a.node[s];
      assert q != 0 by {
        assert |a.path[q]| == |s| > 0 == |a.path[0]|;
      }
      var t := a.path[a.parent[q]];
      assert t == s[..|s| - 1];
      assert s[..j] == t[..j];
      PrefixClosed(a, t, j);
    } else {
      assert s[..j] == s;
    }
  }

  /** The path without its last character is stored with it. */
  lemma ExtensionStored(a: Arena, key: string, c: char)
    requires Linked(a) && key + [c] in a.node
    ensures key in a.node
  {
    PrefixClosed(a, key + [c], |key|);
    assert (key + [c])[..|key|] == key;
  }

  /** The arena with a node holding `c` appended under `p`, linked from child[link] or sibling[link]. */
  ghost function Appended(a: Arena, p: int, c: char, link: int, asChild: bool): Arena
    requires Shape(a) && 0 <= p < |a.value| && 0 <= link < |a.value|
  {
    var q := |a.value|;
    Arena(a.value + [c],
          if asChild then a.sibling + [-1] else a.sibling[link := q] + [-1],
          if asChild then a.child[link := q] + [-1] else a.child + [-1],
          a.parent + [p], a.path + [a.path[p] + [c]], a.node[a.path[p] + [c] := q])
  }

  /** Where an append may link the new node: from p itself when p has no child, else from p's last child. */
  ghost predicate LinkPoint(a: Arena, p: int, link: int, asChild: bool)
    requires Shape(a)
  {
    0 <= p < |a.value| &&
    (asChild ==> link == p && a.child[p] == -1) &&
    (!asChild ==> 1 <= link < |a.value| && a.parent[link] == p && a.sibling[link] == -1)
  }

  lemma AppendShape(a: Arena, p: int, c: char, link: int, asChild: bool)
    requires Shape(a) && LinkPoint(a, p, link, asChild)
    ensures Shape(Appended(a, p, c, link, asChild))
  {
    var b := Appended(a, p, c, link, asChild);
    forall r | 1 <= r < |b.value|
      ensures 0 <= b.parent[r] < r && b.path[r] == b.path[b.parent[r]] + [b.value[r]]
    {
      if r < |a.value| {
        assert b.path[b.parent[r]] == a.path[a.parent[r]];
      }
    }
  }

  lemma AppendFirstChild(a: Arena, p: int, c: char, link: int, asChild: bool, r: int)
    requires Shape(a) && LinkPoint(a, p, link, asChild) && Shape(Appended(a, p, c, link, asChild))
    requires 0 <= r <= |a.value| && (r < |a.value| ==> FirstChild(a, r))
    ensures FirstChild(Appended(a, p, c, link, asChild), r)
  {
  }

  lemma AppendNextSibling(a: Arena, p: int, c: char, link: int, asChild: bool, r: int)
    requires Shape(a) && LinkPoint(a, p, link, asChild) && Shape(Appended(a, p, c, link, asChild))
    requires 1 <= r <= |a.value| && (r < |a.value| ==> NextSibling(a, r))
    requires !asChild ==> NextSibling(a, link)
    requires r < |a.value| && a.parent[r] == p && a.sibling[r] == -1 ==> !asChild && r == link
    ensures NextSibling(Appended(a, p, c, link, asChild), r)
  {
  }

  /** p's only child without a next sibling is its last child, `link`. */
  lemma LastChild(a: Arena, p: int, link: int, asChild: bool, r: int)
    requires Linked(a) && LinkPoint(a, p, link, asChild) && 1 <= r < |a.value|
    ensures a.parent[r] == p && a.sibling[r] == -1 ==> !asChild && r == link
  {
    if a.parent[r] == p && a.sibling[r] == -1 {
      assert FirstChild(a, p);
      if !asChild {
        assert NextSibling(a, r) && NextSibling(a, link);
      }
    }
  }

  /**
   * Appending a new path as the last child of `p` keeps the invariant: as p's first child
   * when p has none, otherwise after p's last child.
   */
  lemma AppendLinked(a: Arena, p: int, c: char, link: int, asChild: bool)
    requires Linked(a) && LinkPoint(a, p, link, asChild) && a.path[p] + [c] !in a.node
    ensures Linked(Appended(a, p, c, link, asChild))
  {
    var b := Appended(a, p, c, link, asChild);
    AppendShape(a, p, c, link, asChild);
    forall r | 0 <= r < |b.value|
      ensures FirstChild(b, r)
    {
      AppendFirstChild(a, p, c, link, asChild, r);
    }
    forall r | 1 <= r < |b.value|
      ensures NextSibling(b, r)
    {
      if r < |a.value| {
        LastChild(a, p, link, asChild, r);
      }
      AppendNextSibling(a, p, c, link, asChild, r);
    }
    forall r | 0 <= r < |b.value|
      ensures b.path[r] in b.node && b.node[b.path[r]] == r
    {
      if r < |a.value| {
        assert b.path[r] == a.path[r] != a.path[p] + [c];
      }
    }
  }

  /** The terminator node of a stored `key` is a child of `key`'s node. */
  lemma TerminatorChild(a: Arena, key: string, t: int)
    requires Linked(a) && key in a.node
    requires key + [Terminator] in a.node && t == a.node[key + [Terminator]]
    ensures 1 <= t < |a.value| && a.parent[t] == a.node[key] && a.value[t] == Terminator
  {
    var current := a.node[key];
    assert a.path[current] == key;
    assert t != 0 by {
      assert |a.path[t]| > 0 == |a.path[0]|;
    }
    ChildByPath(a, current, Terminator);
  }

  /** Some child of `key`'s node was created after the terminator node under it. */
  ghost predicate LaterChild(a: Arena, key: string)
    requires key + [Terminator] in a.node
  {
    exists c :: key + [c] in a.node && a.node[key + [c]] > a.node[key + [Terminator]]
  }

  /** Some child of `key`'s node holds a character other than the terminator. */
  ghost predicate OtherChild(a: Arena, key: string) {
    exists c :: c != Terminator && key + [c] in a.node
  }

  /** The terminator node has a next sibling exactly when a child was created after it. */
  lemma SiblingIsLaterChild(a: Arena, key: string, t: int)
    requires Linked(a) && key in a.node
    requires key + [Terminator] in a.node && t == a.node[key + [Terminator]]
    ensures 1 <= t < |a.value| && (a.sibling[t] != -1 <==> LaterChild(a, key))
  {
    var current := a.node[key];
    TerminatorChild(a, key, t);
    assert a.path[current] == key;
    assert NextSibling(a, t);
    if a.sibling[t] != -1 {
      var s := a.sibling[t];
      ChildByPath(a, current, a.value[s]);
      assert a.node[key + [a.value[s]]] == s;
    }
    if LaterChild(a, key) {
      var c :| key + [c] in a.node && a.node[key + [c]] > a.node[key + [Terminator]];
      ChildByPath(a, current, c);
      assert a.parent[a.node[key + [c]]] == current;
    }
  }

  /**
   * The terminator node is the only child of `key`'s node exactly when it is the first child
   * and has no next sibling.
   */
  lemma OnlyChild(a: Arena, key: string, t: int)
    requires Linked(a) && key in a.node
    requires key + [Terminator] in a.node && t == a.node[key + [Terminator]]
    ensures 1 <= t < |a.value|
    ensures a.child[a.node[key]] == t && a.sibling[t] == -1 <==> !OtherChild(a, key)
  {
    var current := a.node[key];
    TerminatorChild(a, key, t);
    assert a.path[current] == key;
    assert FirstChild(a, current) && NextSibling(a, t);
    if OtherChild(a, key) {
      var c :| c != Terminator && key + [c] in a.node;
      ChildByPath(a, current, c);
      var q := a.node[key + [c]];
      assert a.parent[q] == current && a.value[q] == c;
    }
    if a.child[current] != t {
      var f := a.child[current];
      ChildByPath(a, current, a.value[f]);
      assert a.value[f] != Terminator;
      assert key + [a.value[f]] in a.node;
    } else if a.sibling[t] != -1 {
      var s := a.sibling[t];
      ChildByPath(a, current, a.value[s]);
      assert a.value[s] != Terminator;
      assert key + [a.value[s]] in a.node;
    }
  }

  class DLB {
    var value: seq<char>
    var sibling: seq<int>
    var child: seq<int>
    ghost var parent: seq<int>
    ghost var path: seq<string>
    ghost var node: map<string, int>

    ghost function State(): Arena
      reads this
    {
      Arena(value, sibling, child, parent, path, node)
    }

    ghost predicate Valid()
      reads this
    {
      Linked(State())
    }

    /** new DLB(): the root alone, holding the default character. */
    constructor ()
      ensures Valid() && node == map[[] := 0] && node.Keys == {[]} && |value| == 1
    {
      value := ['\0'];
      sibling := [-1];
      child := [-1];
      parent := [-1];
      path := [[]];
      node := map[[] := 0];
    }

    /**
     * getSibling(siblingStart, c): walks the chain that starts at `start`, the first child of
     * `p`, to the node holding `c`, or to null when no child of `p` holds it.
     */
    method GetSibling(start: int, c: char, ghost p: int) returns (r: int)
      requires Valid() && 0 <= p < |value| && start == child[p]
      ensures r == -1 || (1 <= r < |value| && parent[r] == p && value[r] == c)
      ensures r == -1 ==> forall q :: 1 <= q < |value| && parent[q] == p ==> value[q] != c
    {
      var nextSibling := start;
      assert FirstChild(State(), p);
      while nextSibling != -1
        invariant nextSibling == -1 || (1 <= nextSibling < |value| && parent[nextSibling] == p)
        invariant forall q :: 1 <= q < |value| && parent[q] == p && (nextSibling == -1 || q < nextSibling) ==>
                    value[q] != c
        decreases if nextSibling == -1 then 0 else |value| - nextSibling
      {
        if value[nextSibling] == c {
          break;
        }
        assert NextSibling(State(), nextSibling);
        nextSibling := sibling[nextSibling];
      }
      r := nextSibling;
    }

    /** getChild(parentNode, c): the child of `p` holding `c`, that is the node of path(p) + c. */
    method GetChild(p: int, c: char) returns (r: int)
      requires Valid() && 0 <= p < |value|
      ensures r != -1 <==> path[p] + [c] in node
      ensures r != -1 ==> r == node[path[p] + [c]]
    {
      r := GetSibling(child[p], c, p);
      ChildByPath(State(), p, c);
    }

    /** The walk of search: the node of `key`'s path, or -1 when some prefix has no node. */
    method Walk(key: string) returns (current: int)
      requires Valid()
      ensures current != -1 <==> key in node
      ensures current != -1 ==> current == node[key]
    {
      current := 0;
      assert key[..0] == [];
      for i := 0 to |key|
        invariant key[..i] in node && current == node[key[..i]]
      {
        assert key[..i] + [key[i]] == key[..i + 1];
        current := GetChild(current, key[i]);
        if current == -1 {
          if key in node {
            PrefixClosed(State(), key, i + 1);
          }
          return -1;
        }
      }
      assert key[..|key|] == key;
    }

    /**
     * search(key) as written: 0 when `key` is not a path, 1 when it is a path without a
     * terminator, 2 or 3 when it is stored; 3 exactly when the terminator node has a next
     * sibling, which is a child created after it.
     */
    method Search(key: string) returns (r: int)
      requires Valid()
      ensures r == 0 <==> key !in node
      ensures r == 1 <==> key in node && key + [Terminator] !in node
      ensures r == 2 || r == 3 <==> key + [Terminator] in node
      ensures r == 3 <==> key + [Terminator] in node && LaterChild(State(), key)
    {
      var current := Walk(key);
      if current == -1 {
        if key + [Terminator] in node {
          ExtensionStored(State(), key, Terminator);
        }
        return 0;
      }
      var terminatorNode := GetChild(current, Terminator);
      if terminatorNode == -1 {
        return 1;
      }
      SiblingIsLaterChild(State(), key, terminatorNode);
      if sibling[terminatorNode] == -1 {
        return 2;
      } else {
        return 3;
      }
    }

    /**
     * search(key) as its documentation describes it: 3 exactly when `key` is stored and is also
     * a proper prefix of a path, that is when its node has a child other than the terminator.
     */
    method SearchCorrected(key: string) returns (r: int)
      requires Valid()
      ensures r == 0 <==> key !in node
      ensures r == 1 <==> key in node && key + [Terminator] !in node
      ensures r == 2 || r == 3 <==> key + [Terminator] in node
      ensures r == 3 <==> key + [Terminator] in node && OtherChild(State(), key)
    {
      var current := Walk(key);
      if current == -1 {
        if key + [Terminator] in node {
          ExtensionStored(State(), key, Terminator);
        }
        return 0;
      }
      var terminatorNode := GetChild(current, Terminator);
      if terminatorNode == -1 {
        return 1;
      }
      OnlyChild(State(), key, terminatorNode);
      if child[current] == terminatorNode && sibling[terminatorNode] == -1 {
        return 2;
      } else {
        return 3;
      }
    }

    /**
     * Appends a node holding `c` as the last child of `p`: as p's first child, linked from
     * child[link] with link == p, when `asChild`; otherwise as the next sibling of p's last
     * child, `link`.
     */
    method AppendChild(ghost p: int, c: char, link: int, asChild: bool) returns (q: int)
      requires Valid() && LinkPoint(State(), p, link, asChild) && path[p] + [c] !in node
      modifies this
      ensures Valid() && q == old(|value|)
      ensures State() == Appended(old(State()), p, c, link, asChild)
    {
      AppendLinked(State(), p, c, link, asChild);
      ghost var b := Appended(State(), p, c, link, asChild);
      q := |value|;
      value := value + [c];
      parent := parent + [p];
      path := path + [path[p] + [c]];
      node := node[path[p] + [c] := q];
      if asChild {
        child := child[link := q] + [-1];
        sibling := sibling + [-1];
      } else {
        child := child + [-1];
        sibling := sibling[link := q] + [-1];
      }
      assert State() == b;
    }

    /**
     * addSibling(siblingStart, c): from `start`, the first child of `p`, the child holding `c`,
     * created at the end of the chain when there is none.
     */
    method AddSibling(start: int, c: char, ghost p: int) returns (result: NodeAdded)
      requires Valid() && 0 <= p < |value| && start == child[p] && start != -1
      modifies this
      ensures Valid()
      ensures result.added <==> old(path[p]) + [c] !in old(node)
      ensures !result.added ==> unchanged(this)
      ensures result.added ==>
                result.node == old(|value|) && path == old(path) + [old(path[p]) + [c]] &&
                node == old(node)[old(path[p]) + [c] := result.node]
      ensures result.node == node[old(path[p]) + [c]]
    {
      var nextSibling := start;
      assert FirstChild(State(), p);
      while sibling[nextSibling] != -1
        invariant 1 <= nextSibling < |value| && parent[nextSibling] == p
        invariant forall q :: 1 <= q < nextSibling && parent[q] == p ==> value[q] != c
        decreases |value| - nextSibling
      {
        if value[nextSibling] == c {
          break;
        }
        assert NextSibling(State(), nextSibling);
        nextSibling := sibling[nextSibling];
      }
      ChildByPath(State(), p, c);
      if value[nextSibling] == c {
        return NodeAdded(nextSibling, false);
      } else {
        assert NextSibling(State(), nextSibling);
        var q := AppendChild(p, c, nextSibling, false);
        return NodeAdded(q, true);
      }
    }

    /**
     * addChild(parentNode, c): the child of `p` holding `c`, created as the first child when
     * `p` has none and through addSibling otherwise. `key` names the path of `p`.
     */
    method AddChild(p: int, c: char, ghost key: string) returns (result: NodeAdded)
      requires Valid() && 0 <= p < |value| && path[p] == key
      modifies this
      ensures Valid()
      ensures result.added <==> key + [c] !in old(node)
      ensures node.Keys == old(node.Keys) + {key + [c]}
      ensures key + [c] in node && result.node == node[key + [c]]
      ensures result.added ==> result.node == |value| - 1
      ensures !result.added ==> unchanged(this)
    {
      if child[p] == -1 {
        assert FirstChild(State(), p);
        ChildByPath(State(), p, c);
        var q := AppendChild(p, c, p, true);
        return NodeAdded(q, true);
      } else {
        result := AddSibling(child[p], c, p);
      }
    }

    /**
     * add(s): stores `s` by adding the path of s + '#'. The result is true exactly when that
     * key was not already stored; the stored paths grow by the prefixes of s + '#', the new
     * terminator node is the newest node, and nothing changes when the key was stored.
     */
    method Add(s: string) returns (added: bool)
      requires Valid()
      modifies this
      ensures Valid()
      ensures added <==> s + [Terminator] !in old(node)
      ensures node.Keys == old(node.Keys) + Prefixes(s + [Terminator])
      ensures s + [Terminator] in node
      ensures added ==> node[s + [Terminator]] == |value| - 1
      ensures !added ==> unchanged(this)
    {
      var t := s + [Terminator];
      ghost var stored := t in node;
      var current := 0;
      added := false;
      assert t[..0] == [];
      assert Prefixes(t[..0]) == {[]};
      for i := 0 to |t|
        invariant Valid()
        invariant t[..i] in node && current == node[t[..i]]
        invariant node.Keys == old(node.Keys) + Prefixes(t[..i])
        invariant i > 0 ==> (added <==> t[..i] !in old(node))
        invariant i > 0 && added ==> current == |value| - 1
        invariant stored ==> unchanged(this) && (i > 0 ==> !added)
      {
        ghost var before := node.Keys;
        if stored {
          PrefixClosed(State(), t, i + 1);
        }
        PrefixesStep(t, i);
        var result := AddChild(current, t[i], t[..i]);
        KeysStep(old(node.Keys), before, node.Keys, t, i);
        current := result.node;
        added := result.added;
      }
      WholePrefix(t);
    }
  }

  /**
   * After add("ab") and add("a"), search("a") answers 2, "a stored and a prefix of no other
   * key", although "a" is a prefix of the stored "ab": its terminator node was created after
   * the 'b' node and so has no next sibling. The documented answer, 3, is what the corrected
   * search gives.
   */
  method SearchAfterLongerKey() returns (asWritten: int, corrected: int)
    ensures asWritten == 2 && corrected == 3
  {
    var d := new DLB();
    var added := d.Add("ab");
    AfterAb(d.node.Keys);
    added := d.Add("a");
    NewestHasNoLaterChild(d.State(), "a");
    asWritten := d.Search("a");
    ExtendedByB(d.State());
    corrected := d.SearchCorrected("a");
  }

  lemma AfterAb(keys: set<string>)
    requires keys == {[]} + Prefixes("ab" + [Terminator])
    ensures "a" + [Terminator] !in keys && "ab" in keys
  {
    assert "ab" + [Terminator] == "ab#" && "a" + [Terminator] == "a#";
    PrefixesAre("ab#", "a#");
    PrefixesAre("ab#", "ab");
    assert "ab#"[..2] == "ab";
  }

  /** No child of `key` was created after its terminator node when that is the newest node. */
  lemma NewestHasNoLaterChild(a: Arena, key: string)
    requires Linked(a) && key + [Terminator] in a.node && a.node[key + [Terminator]] == |a.value| - 1
    ensures !LaterChild(a, key)
  {
  }

  lemma ExtendedByB(a: Arena)
    requires "ab" in a.node
    ensures OtherChild(a, "a")
  {
    assert "a" + ['b'] == "ab";
  }
}
