/**
 `Trie.insert` as a function on the node store, and what it does to the set of words.

 `InsertFrom(nodes, k, w)` is the store after the insert loop, standing on node `k`,
 has still to consume `w`: it follows an existing child, or creates the missing one,
 character by character, and finally marks the node it stands on as the end of a word.
 */
module TrieInsert {
  import opened TrieStore

  /** `node.children[char] = new TrieNode()`: a fresh empty node is appended to the
      store and linked under node `k` by `c`, and `c` becomes the last key of `k`. */
  function Attach(nodes: seq<TrieNode>, k: nat, c: char): (r: seq<TrieNode>)
    requires WellFormed(nodes) && k < |nodes| && c !in nodes[k].children
    ensures WellFormed(r) && Extends(nodes, r) && |r| == |nodes| + 1
    ensures c in r[k].children && r[k].children[c] == |nodes| && r[|nodes|] == EmptyNode
    ensures forall x :: 0 <= x < |nodes| ==> r[x].endOfWord == nodes[x].endOfWord
    ensures r[k].keys == nodes[k].keys + [c]
    ensures forall x :: 0 <= x < |nodes| && x != k ==> r[x] == nodes[x]
  {
    var n := nodes[k];
    var r := nodes[k := TrieNode(n.children[c := |nodes|], n.keys + [c], n.endOfWord)] + [EmptyNode];
    AttachWellFormed(nodes, k, c, r);
    r
  }

  lemma AttachWellFormed(nodes: seq<TrieNode>, k: nat, c: char, r: seq<TrieNode>)
    requires WellFormed(nodes) && k < |nodes| && c !in nodes[k].children
    requires r == nodes[k := TrieNode(nodes[k].children[c := |nodes|], nodes[k].keys + [c], nodes[k].endOfWord)] + [EmptyNode]
    ensures WellFormed(r) && Extends(nodes, r)
  {
    forall x | 0 <= x < |r|
      ensures NodeOk(r, x)
    {
      if x < |nodes| {
        assert NodeOk(nodes, x);
        if x == k {
          var keys := r[x].keys;
          forall i, j | 0 <= i < j < |keys| ensures keys[i] != keys[j] {
            if j == |keys| - 1 {
              assert keys[i] == nodes[k].keys[i];
              assert keys[i] in nodes[k].keys;
            }
          }
        }
      }
    }
    forall k1, c1, k2, c2 |
      0 <= k1 < |r| && 0 <= k2 < |r| &&
      c1 in r[k1].children && c2 in r[k2].children &&
      r[k1].children[c1] == r[k2].children[c2]
      ensures k1 == k2 && c1 == c2
    {
      assert k1 < |nodes| && k2 < |nodes|;
      assert NodeOk(nodes, k1) && NodeOk(nodes, k2);
      assert !(k1 == k && c1 == c) ==> c1 in nodes[k1].children && r[k1].children[c1] == nodes[k1].children[c1];
      assert !(k2 == k && c2 == c) ==> c2 in nodes[k2].children && r[k2].children[c2] == nodes[k2].children[c2];
    }
    forall x | 0 <= x < |nodes| ensures Grows(nodes[x], r[x]) {
    }
  }

  /** `node.endOfWord = true` on node `k`. */
  function Mark(nodes: seq<TrieNode>, k: nat): (r: seq<TrieNode>)
    requires WellFormed(nodes) && k < |nodes|
    ensures WellFormed(r) && Extends(nodes, r) && |r| == |nodes|
    ensures forall x :: 0 <= x < |r| ==> r[x].children == nodes[x].children
    ensures forall x :: 0 <= x < |r| ==> (r[x].endOfWord <==> nodes[x].endOfWord || x == k)
  {
    var r := nodes[k := nodes[k].(endOfWord := true)];
    assert forall x :: 0 <= x < |r| ==> r[x].children == nodes[x].children && r[x].keys == nodes[x].keys;
    assert forall x :: 0 <= x < |r| ==> NodeOk(nodes, x) ==> NodeOk(r, x);
    r
  }

  /** Marking a node changes no walk. */
  lemma {:induction false} MarkWalk(nodes: seq<TrieNode>, k: nat, x: nat, s: string)
    requires WellFormed(nodes) && k < |nodes| && x < |nodes|
    ensures Walk(Mark(nodes, k), x, s) == Walk(nodes, x, s)
    decreases |s|
  {
    if s != [] && s[0] in nodes[x].children {
      assert NodeOk(nodes, x);
      MarkWalk(nodes, k, nodes[x].children[s[0]], s[1..]);
    }
  }

  /** Marking the node spelled by `u` adds the word `u` and no other. */
  lemma MarkWords(nodes: seq<TrieNode>, k: nat, u: string)
    requires WellFormed(nodes) && k < |nodes| && Walk(nodes, Root, u) == Some(k)
    ensures forall s :: EndsWord(Mark(nodes, k), Root, s) <==> EndsWord(nodes, Root, s) || s == u
  {
    forall s ensures EndsWord(Mark(nodes, k), Root, s) <==> EndsWord(nodes, Root, s) || s == u {
      MarkWalk(nodes, k, Root, s);
      if Walk(nodes, Root, s) == Some(k) {
        WalkInjective(nodes, Root, s, u);
      }
    }
  }

  /** Walks in the store after `Attach` are the old walks, except that a walk which
      used to fail may now end on the new node. */
  lemma {:induction false} AttachWalk(nodes: seq<TrieNode>, k: nat, c: char, x: nat, s: string)
    requires WellFormed(nodes) && k < |nodes| && c !in nodes[k].children && x < |nodes|
    ensures var after := Walk(Attach(nodes, k, c), x, s);
            || after == Walk(nodes, x, s)
            || (Walk(nodes, x, s).None? && after == Some(|nodes|))
    decreases |s|
  {
    var r := Attach(nodes, k, c);
    if s != [] {
      assert NodeOk(nodes, x) && NodeOk(r, x);
      if x == k && s[0] == c {
        assert Walk(r, x, s) == Walk(r, |nodes|, s[1..]);
      } else if s[0] in nodes[x].children {
        AttachWalk(nodes, k, c, nodes[x].children[s[0]], s[1..]);
      }
    }
  }

  /** `Attach` adds no word: the new node is not the end of one. */
  lemma AttachWords(nodes: seq<TrieNode>, k: nat, c: char)
    requires WellFormed(nodes) && k < |nodes| && c !in nodes[k].children
    ensures forall s :: EndsWord(Attach(nodes, k, c), Root, s) <==> EndsWord(nodes, Root, s)
  {
    forall s ensures EndsWord(Attach(nodes, k, c), Root, s) <==> EndsWord(nodes, Root, s) {
      AttachWalk(nodes, k, c, Root, s);
    }
  }

  /** One step down from the node spelled by `u`, along an existing child or the one
      `Attach` creates. */
  lemma StepDown(nodes: seq<TrieNode>, k: nat, u: string, c: char)
    requires WellFormed(nodes) && k < |nodes| && Walk(nodes, Root, u) == Some(k)
    ensures c in nodes[k].children ==> Walk(nodes, Root, u + [c]) == Some(nodes[k].children[c])
    ensures c !in nodes[k].children ==> Walk(Attach(nodes, k, c), Root, u + [c]) == Some(|nodes|)
  {
    WalkAppend(nodes, Root, u, [c]);
    if c !in nodes[k].children {
      var a := Attach(nodes, k, c);
      ExtendsWalk(nodes, a, Root, u);
      WalkAppend(a, Root, u, [c]);
    }
  }

  /** The store after inserting `w`, starting from node `k`: the body of `Trie.insert`. */
  function InsertFrom(nodes: seq<TrieNode>, k: nat, w: string): (r: seq<TrieNode>)
    requires WellFormed(nodes) && k < |nodes|
    ensures WellFormed(r) && Extends(nodes, r) && |r| <= |nodes| + |w|
    decreases |w|
  {
    assert NodeOk(nodes, k);
    if w == [] then Mark(nodes, k)
    else if w[0] in nodes[k].children then InsertFrom(nodes, nodes[k].children[w[0]], w[1..])
    else InsertFrom(Attach(nodes, k, w[0]), |nodes|, w[1..])
  }

  /** The store after `trie.insert(w)`. */
  function Inserted(nodes: seq<TrieNode>, w: string): (r: seq<TrieNode>)
    requires WellFormed(nodes)
    ensures WellFormed(r) && Extends(nodes, r) && EndsWord(r, Root, w)
  {
    InsertFromFlags(nodes, Root, [], w);
    assert [] + w == w;
    InsertFrom(nodes, Root, w)
  }

  /** Inserting `w` from the node spelled by `u` adds exactly the word `u + w`. */
  lemma {:induction false} InsertFromWords(nodes: seq<TrieNode>, k: nat, u: string, w: string)
    requires WellFormed(nodes) && k < |nodes| && Walk(nodes, Root, u) == Some(k)
    ensures forall s :: EndsWord(InsertFrom(nodes, k, w), Root, s) <==> EndsWord(nodes, Root, s) || s == u + w
    decreases |w|
  {
    assert NodeOk(nodes, k);
    if w == [] {
      assert u + w == u;
      MarkWords(nodes, k, u);
    } else {
      var c := w[0];
      assert u + w == (u + [c]) + w[1..];
      StepDown(nodes, k, u, c);
      if c in nodes[k].children {
        InsertFromWords(nodes, nodes[k].children[c], u + [c], w[1..]);
      } else {
        InsertFromWords(Attach(nodes, k, c), |nodes|, u + [c], w[1..]);
        AttachWords(nodes, k, c);
      }
    }
  }

  /** After `insert(w)` the trie holds exactly the words it held before, and `w`. */
  lemma InsertedWords(nodes: seq<TrieNode>, w: string)
    requires WellFormed(nodes)
    ensures forall s :: EndsWord(Inserted(nodes, w), Root, s) <==> EndsWord(nodes, Root, s) || s == w
  {
    assert [] + w == w;
    InsertFromWords(nodes, Root, [], w);
  }

  /** Inserting a word that is already present changes nothing: no node is created and
      no flag is set. */
  lemma {:induction false} InsertFromPresent(nodes: seq<TrieNode>, k: nat, w: string)
    requires WellFormed(nodes) && k < |nodes| && EndsWord(nodes, k, w)
    ensures InsertFrom(nodes, k, w) == nodes
    decreases |w|
  {
    if w == [] {
      assert nodes[k].(endOfWord := true) == nodes[k];
    } else {
      assert NodeOk(nodes, k);
      InsertFromPresent(nodes, nodes[k].children[w[0]], w[1..]);
    }
  }

  /** Inserting a word already present returns the store unchanged. */
  lemma InsertedPresent(nodes: seq<TrieNode>, w: string)
    requires WellFormed(nodes) && EndsWord(nodes, Root, w)
    ensures Inserted(nodes, w) == nodes
  {
    InsertFromPresent(nodes, Root, w);
  }

  /** Idempotence: inserting a word twice leaves the same store as inserting it once. */
  lemma InsertTwice(nodes: seq<TrieNode>, w: string)
    requires WellFormed(nodes)
    ensures Inserted(Inserted(nodes, w), w) == Inserted(nodes, w)
  {
    InsertedWords(nodes, w);
    InsertFromPresent(Inserted(nodes, w), Root, w);
  }

  /** In `r`, which grew from `before`, the node spelled by `v` exists, and a node is
      the end of a word iff it was one in `before` or it is that node. */
  ghost predicate FlagsAfter(before: seq<TrieNode>, r: seq<TrieNode>, v: string)
    requires WellFormed(r)
  {
    && Walk(r, Root, v).Some?
    && forall x :: 0 <= x < |r| ==>
         (r[x].endOfWord <==> (x < |before| && before[x].endOfWord) || Walk(r, Root, v) == Some(x))
  }

  /** Marking the node spelled by `u` sets the flag of that node and of no other. */
  lemma MarkFlags(nodes: seq<TrieNode>, k: nat, u: string)
    requires WellFormed(nodes) && k < |nodes| && Walk(nodes, Root, u) == Some(k)
    ensures FlagsAfter(nodes, Mark(nodes, k), u)
  {
    MarkWalk(nodes, k, Root, u);
  }

  /** The node `Attach` creates is not the end of a word, so flags measured against
      the attached store are flags measured against the store before it. */
  lemma AttachFlags(nodes: seq<TrieNode>, k: nat, c: char, r: seq<TrieNode>, v: string)
    requires WellFormed(nodes) && k < |nodes| && c !in nodes[k].children
    requires WellFormed(r) && FlagsAfter(Attach(nodes, k, c), r, v)
    ensures FlagsAfter(nodes, r, v)
  {
    // The flag clauses of `Attach` and `EmptyNode` settle it.
  }

  /** Flags after inserting from the node spelled by `u`: a node is the end of a word
      iff it was before or it is the node that spells `u + w`. */
  lemma {:induction false} InsertFromFlags(nodes: seq<TrieNode>, k: nat, u: string, w: string)
    requires WellFormed(nodes) && k < |nodes| && Walk(nodes, Root, u) == Some(k)
    ensures FlagsAfter(nodes, InsertFrom(nodes, k, w), u + w)
    decreases |w|
  {
    assert NodeOk(nodes, k);
    if w == [] {
      assert u + w == u;
      MarkFlags(nodes, k, u);
    } else {
      var c := w[0];
      assert u + w == (u + [c]) + w[1..];
      StepDown(nodes, k, u, c);
      if c in nodes[k].children {
        InsertFromFlags(nodes, nodes[k].children[c], u + [c], w[1..]);
      } else {
        InsertFromFlags(Attach(nodes, k, c), |nodes|, u + [c], w[1..]);
        AttachFlags(nodes, k, c, InsertFrom(nodes, k, w), u + w);
      }
    }
  }

  /** Frame of `insert(w)`: every old child stays under the same character, with the
      old key order kept in front; the node that spells `w` exists afterwards, and a
      flag changes only on it. */
  lemma InsertedFrame(nodes: seq<TrieNode>, w: string)
    requires WellFormed(nodes)
    ensures var r := Inserted(nodes, w);
            && Extends(nodes, r)
            && Walk(r, Root, w).Some?
            && forall x :: 0 <= x < |r| ==>
                 (r[x].endOfWord <==> (x < |nodes| && nodes[x].endOfWord) || Walk(r, Root, w) == Some(x))
  {
    assert [] + w == w;
    InsertFromFlags(nodes, Root, [], w);
  }

  /** Node `x` of `r` is the node of a prefix of `u + w` longer than `u`. */
  ghost predicate OnPath(r: seq<TrieNode>, u: string, w: string, x: nat)
    requires WellFormed(r)
  {
    exists j :: 0 < j <= |w| && Walk(r, Root, u + w[..j]) == Some(x)
  }

  /** Every node of `r` from index `n` on is on the path of `w` below `u`. */
  ghost predicate AllOnPath(r: seq<TrieNode>, n: nat, u: string, w: string)
    requires WellFormed(r)
  {
    forall x: nat :: n <= x < |r| ==> OnPath(r, u, w, x)
  }

  /** A node on the path of `w[1..]` below `u + [w[0]]` is on the path of `w` below `u`. */
  lemma ShiftOnPath(r: seq<TrieNode>, u: string, w: string, x: nat)
    requires WellFormed(r) && w != [] && OnPath(r, u + [w[0]], w[1..], x)
    ensures OnPath(r, u, w, x)
  {
    var j :| 0 < j <= |w[1..]| && Walk(r, Root, (u + [w[0]]) + w[1..][..j]) == Some(x);
    assert (u + [w[0]]) + w[1..][..j] == u + w[..j + 1];
  }

  /** `ShiftOnPath` for every node from index `n` on; node `n - 1`, when it is the node
      of `u + [w[0]]`, is on the path too. */
  lemma ShiftAllOnPath(r: seq<TrieNode>, n: nat, u: string, w: string)
    requires WellFormed(r) && w != [] && AllOnPath(r, n, u + [w[0]], w[1..])
    ensures AllOnPath(r, n, u, w)
    ensures 0 < n <= |r| && Walk(r, Root, u + [w[0]]) == Some(n - 1) ==> AllOnPath(r, n - 1, u, w)
  {
    forall x: nat | n <= x < |r| ensures OnPath(r, u, w, x) {
      ShiftOnPath(r, u, w, x);
    }
    if 0 < n <= |r| && Walk(r, Root, u + [w[0]]) == Some(n - 1) {
      assert u + w[..1] == u + [w[0]];
      assert OnPath(r, u, w, n - 1);
    }
  }

  /** The nodes created while inserting from the node spelled by `u` are nodes of
      prefixes of `u + w` longer than `u`. */
  lemma {:induction false} InsertFromNewNodes(nodes: seq<TrieNode>, k: nat, u: string, w: string)
    requires WellFormed(nodes) && k < |nodes| && Walk(nodes, Root, u) == Some(k)
    ensures AllOnPath(InsertFrom(nodes, k, w), |nodes|, u, w)
    decreases |w|
  {
    assert NodeOk(nodes, k);
    if w == [] {
      assert |InsertFrom(nodes, k, w)| == |Mark(nodes, k)| == |nodes|;
    } else {
      var c := w[0];
      var r := InsertFrom(nodes, k, w);
      StepDown(nodes, k, u, c);
      if c in nodes[k].children {
        var child := nodes[k].children[c];
        InsertFromNewNodes(nodes, child, u + [c], w[1..]);
        assert r == InsertFrom(nodes, child, w[1..]);
        ShiftAllOnPath(r, |nodes|, u, w);
      } else {
        var a := Attach(nodes, k, c);
        InsertFromNewNodes(a, |nodes|, u + [c], w[1..]);
        assert r == InsertFrom(a, |nodes|, w[1..]);
        ExtendsWalk(a, r, Root, u + [c]);
        ShiftAllOnPath(r, |nodes| + 1, u, w);
      }
    }
  }

  /** `insert(w)` creates at most one node per character of `w`, and each node it
      creates is the node of a non-empty prefix of `w`. */
  lemma InsertedNewNodes(nodes: seq<TrieNode>, w: string)
    requires WellFormed(nodes)
    ensures var r := Inserted(nodes, w);
            && |r| <= |nodes| + |w|
            && forall x: nat :: |nodes| <= x < |r| ==> OnPath(r, [], w, x)
  {
    assert Walk(nodes, Root, []) == Some(Root);
    InsertFromNewNodes(nodes, Root, [], w);
  }

  /** Adding only edges to new nodes, twice, adds only edges to new nodes. */
  lemma OnlyNewTargetsTrans(a: seq<TrieNode>, b: seq<TrieNode>, c: seq<TrieNode>)
    requires OnlyNewTargets(a, b) && OnlyNewTargets(b, c)
    ensures OnlyNewTargets(a, c)
  {
    // Both halves follow pointwise from the two `Extends` and the growth of `b`.
  }

  /** The one edge `Attach` adds leads to the node it appends. */
  lemma AttachOnlyNew(nodes: seq<TrieNode>, k: nat, c: char)
    requires WellFormed(nodes) && k < |nodes| && c !in nodes[k].children
    ensures OnlyNewTargets(nodes, Attach(nodes, k, c))
  {
    // `Attach` changes only node `k`, whose keys gain exactly `c`.
  }

  /** The insert loop adds edges only to the nodes it creates. */
  lemma {:induction false} InsertFromOnlyNew(nodes: seq<TrieNode>, k: nat, w: string)
    requires WellFormed(nodes) && k < |nodes|
    ensures OnlyNewTargets(nodes, InsertFrom(nodes, k, w))
    decreases |w|
  {
    assert NodeOk(nodes, k);
    if w != [] {
      if w[0] in nodes[k].children {
        InsertFromOnlyNew(nodes, nodes[k].children[w[0]], w[1..]);
      } else {
        var a := Attach(nodes, k, w[0]);
        AttachOnlyNew(nodes, k, w[0]);
        InsertFromOnlyNew(a, |nodes|, w[1..]);
        OnlyNewTargetsTrans(nodes, a, InsertFrom(a, |nodes|, w[1..]));
      }
    }
  }

  /** After `insert(w)` the walk along `p` succeeds exactly when it did before or `p`
      is a prefix of `w`: the insert opens the path of `w` and no other. */
  lemma InsertedWalk(nodes: seq<TrieNode>, w: string, p: string)
    requires WellFormed(nodes)
    ensures Walk(Inserted(nodes, w), Root, p).Some? <==> Walk(nodes, Root, p).Some? || p <= w
  {
    var r := Inserted(nodes, w);
    InsertedFrame(nodes, w);
    if Walk(nodes, Root, p).Some? {
      ExtendsWalk(nodes, r, Root, p);
    }
    if p <= w {
      assert w == p + w[|p|..];
      WalkAppend(r, Root, p, w[|p|..]);
    }
    if Walk(r, Root, p).Some? {
      var x := Walk(r, Root, p).value;
      if x < |nodes| {
        InsertFromOnlyNew(nodes, Root, w);
        WalkBack(nodes, r, Root, p);
      } else {
        InsertedNewNodes(nodes, w);
        assert OnPath(r, [], w, x);
        var j :| 0 < j <= |w| && Walk(r, Root, [] + w[..j]) == Some(x);
        assert [] + w[..j] == w[..j];
        WalkInjective(r, Root, p, w[..j]);
      }
    }
  }
}
