/**
 The node store of the prefix tree.

 The JavaScript trie is a tree of `TrieNode` objects linked by references. Here the
 nodes of one trie live in a sequence owned by the trie, and a reference to a node is
 its index in that sequence: `new TrieNode()` appends a node, and following
 `node.children[char]` reads an index. The root is the node at index 0.
 */
module TrieStore {

  datatype Option<T> = None | Some(value: T)

  /** One trie node. `children` is the object keyed by character; `keys` lists those
      characters in the order they were added, which is the order `for...in` visits
      them; `endOfWord` says that an inserted word ends here. */
  datatype TrieNode = TrieNode(children: map<char, nat>, keys: seq<char>, endOfWord: bool)

  /** The node `new TrieNode()` builds: no children, not the end of a word. */
  const EmptyNode := TrieNode(map[], [], false)

  /** Index of the root node, created by the trie's constructor. */
  const Root: nat := 0

  /** Node `k` lists each of its child characters once, in `keys`, and every child has a
      larger index than its parent (a child is always created after its parent). */
  ghost predicate NodeOk(nodes: seq<TrieNode>, k: nat)
    requires k < |nodes|
  {
    var n := nodes[k];
    && (forall i, j :: 0 <= i < j < |n.keys| ==> n.keys[i] != n.keys[j])
    && (forall c :: c in n.children <==> c in n.keys)
    && (forall c :: c in n.children ==> k < n.children[c] < |nodes|)
  }

  /** No node is the child of two parents, or of one parent under two characters:
      the store is a tree. */
  ghost predicate SingleParent(nodes: seq<TrieNode>)
  {
    forall k1, c1, k2, c2 ::
      0 <= k1 < |nodes| && 0 <= k2 < |nodes| &&
      c1 in nodes[k1].children && c2 in nodes[k2].children &&
      nodes[k1].children[c1] == nodes[k2].children[c2]
      ==> k1 == k2 && c1 == c2
  }

  /** The shape every reachable state of a trie has. */
  ghost predicate WellFormed(nodes: seq<TrieNode>)
  {
    && |nodes| > 0
    && (forall k :: 0 <= k < |nodes| ==> NodeOk(nodes, k))
    && SingleParent(nodes)
  }

  /** The node reached from node `k` by following the characters of `s` one at a time,
      or None as soon as a character has no child. Each step moves to a larger index. */
  function Walk(nodes: seq<TrieNode>, k: nat, s: string): (r: Option<nat>)
    requires WellFormed(nodes) && k < |nodes|
    ensures r.Some? ==> k + |s| <= r.value < |nodes|
    decreases |s|
  {
    assert NodeOk(nodes, k);
    if s == [] then Some(k)
    else if s[0] in nodes[k].children then Walk(nodes, nodes[k].children[s[0]], s[1..])
    else None
  }

  /** Following `s` from node `k` ends on a node marked as the end of a word. */
  ghost predicate EndsWord(nodes: seq<TrieNode>, k: nat, s: string)
    requires WellFormed(nodes) && k < |nodes|
  {
    var r := Walk(nodes, k, s);
    r.Some? && nodes[r.value].endOfWord
  }

  /** Node `b` keeps every child of node `a` under the same character, and the key
      order of `a` as a prefix of its own. */
  ghost predicate Grows(a: TrieNode, b: TrieNode)
  {
    && a.keys <= b.keys
    && (forall c :: c in a.children ==> c in b.children && b.children[c] == a.children[c])
  }

  /** `after` holds every node of `before`, each with all its old children. */
  ghost predicate Extends(before: seq<TrieNode>, after: seq<TrieNode>)
  {
    && |before| <= |after|
    && (forall k :: 0 <= k < |before| ==> Grows(before[k], after[k]))
  }

  /** `after` extends `before`, and every child it added to an old node is a new node:
      no old node gained a second way in. */
  ghost predicate OnlyNewTargets(before: seq<TrieNode>, after: seq<TrieNode>)
  {
    && Extends(before, after)
    && forall k, c :: 0 <= k < |before| && c in after[k].children && c !in before[k].children ==>
         after[k].children[c] >= |before|
  }

  /** A fresh trie holds only the root. */
  lemma FreshStoreWellFormed()
    ensures WellFormed([EmptyNode])
    ensures forall s :: !EndsWord([EmptyNode], Root, s)
  {
  }

  /** Walking `s + t` is walking `s`, then `t` from where `s` ended. */
  lemma {:induction false} WalkAppend(nodes: seq<TrieNode>, k: nat, s: string, t: string)
    requires WellFormed(nodes) && k < |nodes|
    ensures Walk(nodes, k, s + t) ==
            match Walk(nodes, k, s)
            case None => None
            case Some(m) => Walk(nodes, m, t)
    decreases |s|
  {
    if s == [] {
      assert s + t == t;
    } else {
      assert (s + t)[0] == s[0];
      assert (s + t)[1..] == s[1..] + t;
      if s[0] in nodes[k].children {
        assert NodeOk(nodes, k);
        WalkAppend(nodes, nodes[k].children[s[0]], s[1..], t);
      }
    }
  }

  /** The last step of a walk along a non-empty string. */
  lemma LastStep(nodes: seq<TrieNode>, k: nat, s: string)
    requires WellFormed(nodes) && k < |nodes| && s != []
    requires Walk(nodes, k, s).Some?
    ensures var p := Walk(nodes, k, s[..|s| - 1]);
            && p.Some?
            && s[|s| - 1] in nodes[p.value].children
            && Walk(nodes, k, s) == Some(nodes[p.value].children[s[|s| - 1]])
  {
    var a := s[|s| - 1];
    assert s == s[..|s| - 1] + [a];
    WalkAppend(nodes, k, s[..|s| - 1], [a]);
  }

  /** In a tree, two strings that lead from one node to the same node are equal. */
  lemma {:induction false} WalkInjective(nodes: seq<TrieNode>, k: nat, s: string, t: string)
    requires WellFormed(nodes) && k < |nodes|
    requires Walk(nodes, k, s).Some? && Walk(nodes, k, s) == Walk(nodes, k, t)
    ensures s == t
    decreases |s| + |t|
  {
    if s == [] || t == [] {
      // A walk along a non-empty string ends on a larger index than it starts from.
    } else {
      LastStep(nodes, k, s);
      LastStep(nodes, k, t);
      WalkInjective(nodes, k, s[..|s| - 1], t[..|t| - 1]);
      assert s == s[..|s| - 1] + [s[|s| - 1]];
      assert t == t[..|t| - 1] + [t[|t| - 1]];
    }
  }

  /** A store that only gained nodes and children keeps every walk that existed. */
  lemma {:induction false} ExtendsWalk(before: seq<TrieNode>, after: seq<TrieNode>, k: nat, s: string)
    requires WellFormed(before) && WellFormed(after) && Extends(before, after)
    requires k < |before| && Walk(before, k, s).Some?
    ensures Walk(after, k, s) == Walk(before, k, s)
    decreases |s|
  {
    if s != [] {
      assert Grows(before[k], after[k]) && NodeOk(before, k);
      ExtendsWalk(before, after, before[k].children[s[0]], s[1..]);
    }
  }

  /** When the only edges added lead to new nodes, a walk that ends on an old node
      already existed, along the same string, before the edges were added. */
  lemma {:induction false} WalkBack(before: seq<TrieNode>, after: seq<TrieNode>, k: nat, s: string)
    requires WellFormed(before) && WellFormed(after) && OnlyNewTargets(before, after)
    requires k < |before| && Walk(after, k, s).Some? && Walk(after, k, s).value < |before|
    ensures Walk(before, k, s) == Walk(after, k, s)
    decreases |s|
  {
    if s != [] {
      assert NodeOk(after, k) && NodeOk(before, k) && Grows(before[k], after[k]);
      var z := after[k].children[s[0]];
      assert z <= Walk(after, z, s[1..]).value;
      assert s[0] in before[k].children;
      WalkBack(before, after, z, s[1..]);
    }
  }
}
