/**
 The `Trie` object: a node store it updates in place, the set of words inserted so
 far as its abstract value, and the `insert`, `search` and `_findAllWords` methods.
 */
module Autocomplete {
  import opened TrieStore
  import opened TrieInsert
  import opened TrieSearch

  /** Completeness and soundness of `search` after `insert(w)`: the result holds `w`
      for every prefix `p` of `w`, and otherwise only words that were already there. */
  lemma SearchAfterInsert(nodes: seq<TrieNode>, w: string, p: string)
    requires WellFormed(nodes)
    ensures forall v :: v in Completions(Inserted(nodes, w), p) <==> p <= v && (EndsWord(nodes, Root, v) || v == w)
    ensures p <= w ==> w in Completions(Inserted(nodes, w), p)
  {
    InsertedWords(nodes, w);
    CompletionsExact(Inserted(nodes, w), p);
  }

  /** One turn of the insert loop: follow the existing child, or create it. */
  lemma InsertStep(nodes: seq<TrieNode>, k: nat, w: string)
    requires WellFormed(nodes) && k < |nodes| && w != []
    ensures w[0] in nodes[k].children ==>
              && nodes[k].children[w[0]] < |nodes|
              && InsertFrom(nodes, k, w) == InsertFrom(nodes, nodes[k].children[w[0]], w[1..])
    ensures w[0] !in nodes[k].children ==>
              InsertFrom(nodes, k, w) == InsertFrom(Attach(nodes, k, w[0]), |nodes|, w[1..])
  {
    assert NodeOk(nodes, k);
  }

  /** Appending the new node and then relinking its parent in place builds `Attach`. */
  lemma AttachInPlace(nodes: seq<TrieNode>, k: nat, c: char)
    requires WellFormed(nodes) && k < |nodes| && c !in nodes[k].children
    ensures var n := nodes[k];
            (nodes + [EmptyNode])[k := TrieNode(n.children[c := |nodes|], n.keys + [c], n.endOfWord)] == Attach(nodes, k, c)
  {
  }

  /** A word set that matches the store before `insert(w)` matches it afterwards once
      `w` is added; when `w` was already in it, the store does not change. */
  lemma InsertedWordSet(nodes: seq<TrieNode>, w: string, ws: set<string>)
    requires WellFormed(nodes) && forall s :: s in ws <==> EndsWord(nodes, Root, s)
    ensures forall s :: s in ws + {w} <==> EndsWord(Inserted(nodes, w), Root, s)
    ensures w in ws ==> Inserted(nodes, w) == nodes
  {
    InsertedWords(nodes, w);
    if w in ws {
      InsertedPresent(nodes, w);
    }
  }

  /** The store of a fresh trie after inserting the words of `ws` in order. */
  function Built(ws: seq<string>): (r: seq<TrieNode>)
    ensures WellFormed(r)
    decreases |ws|
  {
    if ws == [] then
      FreshStoreWellFormed();
      [EmptyNode]
    else
      Inserted(Built(ws[..|ws| - 1]), ws[|ws| - 1])
  }

  /** The words of a trie built from `ws` are exactly the strings of `ws`. */
  lemma {:induction false} BuiltWords(ws: seq<string>)
    ensures forall s :: EndsWord(Built(ws), Root, s) <==> s in ws
    decreases |ws|
  {
    if ws == [] {
      FreshStoreWellFormed();
    } else {
      var init := ws[..|ws| - 1];
      BuiltWords(init);
      InsertedWords(Built(init), ws[|ws| - 1]);
      assert ws == init + [ws[|ws| - 1]];
    }
  }

  /** Every path in a trie built from `ws` leads towards a word: the walk along `p`
      succeeds exactly when `p` is empty or a prefix of a string of `ws`. So when no
      inserted word starts with a non-empty `p`, the walk of `search(p)` hits a missing
      child, and no node below the root is a leaf that ends no word. */
  lemma {:induction false} BuiltWalk(ws: seq<string>, p: string)
    ensures Walk(Built(ws), Root, p).Some? <==> p == [] || exists w :: w in ws && p <= w
    decreases |ws|
  {
    if ws == [] {
      FreshTrieSearch(p);
    } else {
      var init, last := ws[..|ws| - 1], ws[|ws| - 1];
      assert ws == init + [last];
      BuiltWalk(init, p);
      InsertedWalk(Built(init), last, p);
      if exists w :: w in ws && p <= w {
        var w :| w in ws && p <= w;
        if w != last {
          assert w in init;
        }
      }
      if p <= last {
        assert last in ws;
      }
      if exists w :: w in init && p <= w {
        var w :| w in init && p <= w;
        assert w in ws;
      }
    }
  }

  /** `search(p)` on a trie built from `ws` returns each string of `ws` that starts
      with `p`, once, and nothing else. */
  lemma BuiltSearch(ws: seq<string>, p: string)
    ensures forall v :: v in Completions(Built(ws), p) <==> v in ws && p <= v
    ensures Distinct(Completions(Built(ws), p))
  {
    BuiltWords(ws);
    CompletionsExact(Built(ws), p);
  }

  class Trie {
    /** The trie's nodes; `nodes[Root]` is `this.root`. */
    var nodes: seq<TrieNode>
    /** The words inserted so far. */
    ghost var words: set<string>

    /** The store is a tree, and the words in it are the words inserted so far. */
    ghost predicate Valid()
      reads this
    {
      && WellFormed(nodes)
      && forall s :: s in words <==> EndsWord(nodes, Root, s)
    }

    /** `new Trie()`: a root node and no word. */
    constructor ()
      ensures Valid() && words == {} && nodes == [EmptyNode]
    {
      nodes := [EmptyNode];
      words := {};
      FreshStoreWellFormed();
    }

    /** `insert(word)`: walk down from the root, creating each missing child, then mark
        the last node as the end of a word. */
    method Insert(word: string)
      requires Valid()
      modifies this
      ensures Valid()
      ensures nodes == Inserted(old(nodes), word)
      ensures words == old(words) + {word}
      ensures word in old(words) ==> nodes == old(nodes)
    {
      var node: nat := Root;
      ghost var target := Inserted(nodes, word);
      for i := 0 to |word|
        invariant WellFormed(nodes) && node < |nodes| && words == old(words)
        invariant InsertFrom(nodes, node, word[i..]) == target
      {
        var c := word[i];
        assert word[i..][0] == c && word[i..][1..] == word[i + 1..];
        InsertStep(nodes, node, word[i..]);
        if c !in nodes[node].children {
          AttachInPlace(nodes, node, c);
          var n := nodes[node];
          var child := |nodes|;
          nodes := nodes + [EmptyNode];
          nodes := nodes[node := TrieNode(n.children[c := child], n.keys + [c], n.endOfWord)];
        }
        node := nodes[node].children[c];
      }
      assert word[|word|..] == [];
      nodes := nodes[node := nodes[node].(endOfWord := true)];
      words := words + {word};
      assert nodes == target;
      InsertedWordSet(old(nodes), word, old(words));
    }

    /** `search(prefix)`: walk down along the prefix, returning no result as soon as a
        character has no child, then collect every word under the node reached. */
    method Search(prefix: string) returns (r: seq<string>)
      requires Valid()
      ensures r == Completions(nodes, prefix)
      ensures forall w :: w in r <==> w in words && prefix <= w
      ensures Distinct(r)
    {
      CompletionsExact(nodes, prefix);
      var node: nat := Root;
      for i := 0 to |prefix|
        invariant node < |nodes| && Walk(nodes, Root, prefix[..i]) == Some(node)
      {
        var c := prefix[i];
        assert prefix[..i + 1] == prefix[..i] + [c];
        WalkAppend(nodes, Root, prefix[..i], [c]);
        if c in nodes[node].children {
          node := nodes[node].children[c];
        } else {
          assert prefix == prefix[..i] + prefix[i..];
          WalkAppend(nodes, Root, prefix[..i], prefix[i..]);
          return [];
        }
      }
      assert prefix[..|prefix|] == prefix;
      r := FindAllWords(node, prefix);
    }

    /** `_findAllWords(node, prefix)`: `prefix` if the node ends a word, followed by
        the words under each child in key order, found recursively. */
    method FindAllWords(node: nat, prefix: string) returns (results: seq<string>)
      requires WellFormed(nodes) && node < |nodes|
      ensures results == FindAll(nodes, node, prefix)
      decreases |nodes| - node
    {
      results := [];
      if nodes[node].endOfWord {
        results := results + [prefix];
      }
      var keys := nodes[node].keys;
      ghost var all := FindAll(nodes, node, prefix);
      for i := 0 to |keys|
        invariant results + FindAllUnder(nodes, node, i, prefix) == all
      {
        FindAllUnderStep(nodes, node, i, prefix);
        var c := keys[i];
        var found := FindAllWords(nodes[node].children[c], prefix + [c]);
        results := results + found;
      }
    }
  }
}
