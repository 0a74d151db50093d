/**
 `Trie.search` and `Trie._findAllWords` as functions on the node store, and what they
 return: every word under the prefix, each once.
 */
module TrieSearch {
  import opened TrieStore

  /** No string occurs twice in `s`. */
  predicate Distinct(s: seq<string>)
  {
    forall i, j :: 0 <= i < j < |s| ==> s[i] != s[j]
  }

  /** `_findAllWords(node, prefix)`: `prefix` itself when node `k` ends a word, then
      the words under each child, visiting the children in key order. */
  function FindAll(nodes: seq<TrieNode>, k: nat, prefix: string): (r: seq<string>)
    requires WellFormed(nodes) && k < |nodes|
    ensures nodes[k].endOfWord ==> prefix in r
    ensures forall w :: w in r ==> prefix <= w
    decreases |nodes| - k, 1
  {
    (if nodes[k].endOfWord then [prefix] else []) + FindAllUnder(nodes, k, 0, prefix)
  }

  /** The `for...in` loop of `_findAllWords` from the `i`-th key of node `k` on: the
      words found under each remaining child, concatenated in key order. */
  function FindAllUnder(nodes: seq<TrieNode>, k: nat, i: nat, prefix: string): (r: seq<string>)
    requires WellFormed(nodes) && k < |nodes| && i <= |nodes[k].keys|
    ensures forall w :: w in r ==> |prefix| < |w| && prefix <= w
    decreases |nodes| - k, 0, |nodes[k].keys| - i
  {
    assert NodeOk(nodes, k);
    var keys := nodes[k].keys;
    if i == |keys| then []
    else
      assert keys[i] in keys;
      FindAll(nodes, nodes[k].children[keys[i]], prefix + [keys[i]]) + FindAllUnder(nodes, k, i + 1, prefix)
  }

  /** Soundness of `_findAllWords`: every string it returns is `prefix` followed by a
      path from node `k` to the end of a word. */
  lemma {:induction false} FindAllSound(nodes: seq<TrieNode>, k: nat, prefix: string)
    requires WellFormed(nodes) && k < |nodes|
    ensures forall w :: w in FindAll(nodes, k, prefix) ==> prefix <= w && EndsWord(nodes, k, w[|prefix|..])
    decreases |nodes| - k, 1
  {
    FindAllUnderSound(nodes, k, 0, prefix);
  }

  /** Every string the loop of `_findAllWords` returns from the `i`-th key on extends
      `prefix` by one of those keys and then a path to the end of a word. */
  lemma {:induction false} FindAllUnderSound(nodes: seq<TrieNode>, k: nat, i: nat, prefix: string)
    requires WellFormed(nodes) && k < |nodes| && i <= |nodes[k].keys|
    ensures forall w :: w in FindAllUnder(nodes, k, i, prefix) ==>
              && |prefix| < |w| && prefix <= w
              && w[|prefix|] in nodes[k].keys[i..]
              && EndsWord(nodes, k, w[|prefix|..])
    decreases |nodes| - k, 0, |nodes[k].keys| - i
  {
    assert NodeOk(nodes, k);
    var keys := nodes[k].keys;
    if i < |keys| {
      var c := keys[i];
      assert c in keys;
      var child := nodes[k].children[c];
      FindAllSound(nodes, child, prefix + [c]);
      FindAllUnderSound(nodes, k, i + 1, prefix);
      forall w | w in FindAll(nodes, child, prefix + [c])
        ensures w[|prefix|] == c && EndsWord(nodes, k, w[|prefix|..])
      {
        assert w[|prefix|..] == [c] + w[|prefix| + 1..];
      }
      forall w | w in FindAllUnder(nodes, k, i + 1, prefix) ensures w[|prefix|] in keys[i..] {
      }
    }
  }

  /** One turn of the loop of `_findAllWords`: the words under the `i`-th child come
      first, then those under the later ones. */
  lemma FindAllUnderStep(nodes: seq<TrieNode>, k: nat, i: nat, prefix: string)
    requires WellFormed(nodes) && k < |nodes| && i < |nodes[k].keys|
    ensures var c := nodes[k].keys[i];
            && c in nodes[k].children && k < nodes[k].children[c] < |nodes|
            && FindAllUnder(nodes, k, i, prefix)
               == FindAll(nodes, nodes[k].children[c], prefix + [c]) + FindAllUnder(nodes, k, i + 1, prefix)
  {
    assert NodeOk(nodes, k);
    assert nodes[k].keys[i] in nodes[k].keys;
  }

  /** `search(prefix)`: follow the prefix from the root; no result as soon as a
      character has no child, otherwise every word under the node reached. */
  function Completions(nodes: seq<TrieNode>, prefix: string): (r: seq<string>)
    requires WellFormed(nodes)
    ensures forall w :: w in r ==> prefix <= w
    ensures Distinct(r)
  {
    match Walk(nodes, Root, prefix)
    case None => []
    case Some(k) =>
      FindAllDistinct(nodes, k, prefix);
      FindAll(nodes, k, prefix)
  }

  /** Completeness of `_findAllWords`: every word under node `k` is found. */
  lemma {:induction false} FindAllComplete(nodes: seq<TrieNode>, k: nat, prefix: string, s: string)
    requires WellFormed(nodes) && k < |nodes| && EndsWord(nodes, k, s)
    ensures prefix + s in FindAll(nodes, k, prefix)
    decreases |s|
  {
    if s == [] {
      assert prefix + s == prefix;
    } else {
      assert NodeOk(nodes, k);
      var c := s[0];
      var child := nodes[k].children[c];
      FindAllComplete(nodes, child, prefix + [c], s[1..]);
      assert (prefix + [c]) + s[1..] == prefix + s;
      FindAllUnderComplete(nodes, k, 0, prefix, c, prefix + s);
      var head := if nodes[k].endOfWord then [prefix] else [];
      assert FindAll(nodes, k, prefix) == head + FindAllUnder(nodes, k, 0, prefix);
    }
  }

  /** The loop of `_findAllWords` keeps every word found under each remaining child. */
  lemma {:induction false} FindAllUnderComplete(nodes: seq<TrieNode>, k: nat, i: nat, prefix: string, c: char, w: string)
    requires WellFormed(nodes) && k < |nodes| && i <= |nodes[k].keys|
    requires c in nodes[k].keys[i..] && c in nodes[k].children
    requires nodes[k].children[c] < |nodes| && w in FindAll(nodes, nodes[k].children[c], prefix + [c])
    ensures w in FindAllUnder(nodes, k, i, prefix)
    decreases |nodes[k].keys| - i
  {
    assert NodeOk(nodes, k);
    if nodes[k].keys[i] != c {
      assert c in nodes[k].keys[i + 1..];
      FindAllUnderComplete(nodes, k, i + 1, prefix, c, w);
    }
  }

  /** Two sequences without repeats and without common element concatenate into one
      without repeats. */
  lemma DistinctConcat(a: seq<string>, b: seq<string>)
    requires Distinct(a) && Distinct(b)
    requires forall w :: w in a ==> w !in b
    ensures Distinct(a + b)
  {
    forall i, j | 0 <= i < j < |a + b| ensures (a + b)[i] != (a + b)[j] {
      if i < |a| && j >= |a| {
        assert (a + b)[i] in a && (a + b)[j] == b[j - |a|];
      }
    }
  }

  /** No duplicates: `_findAllWords` reports each word once. */
  lemma {:induction false} FindAllDistinct(nodes: seq<TrieNode>, k: nat, prefix: string)
    requires WellFormed(nodes) && k < |nodes|
    ensures Distinct(FindAll(nodes, k, prefix))
    decreases |nodes| - k, 1
  {
    FindAllUnderDistinct(nodes, k, 0, prefix);
    FindAllUnderSound(nodes, k, 0, prefix);
    DistinctConcat(if nodes[k].endOfWord then [prefix] else [], FindAllUnder(nodes, k, 0, prefix));
  }

  /** The words found under distinct children differ in the character after the
      prefix, so the loop of `_findAllWords` repeats none. */
  lemma {:induction false} FindAllUnderDistinct(nodes: seq<TrieNode>, k: nat, i: nat, prefix: string)
    requires WellFormed(nodes) && k < |nodes| && i <= |nodes[k].keys|
    ensures Distinct(FindAllUnder(nodes, k, i, prefix))
    decreases |nodes| - k, 0, |nodes[k].keys| - i
  {
    assert NodeOk(nodes, k);
    var keys := nodes[k].keys;
    if i < |keys| {
      var c := keys[i];
      assert c in keys;
      var below := FindAll(nodes, nodes[k].children[c], prefix + [c]);
      var rest := FindAllUnder(nodes, k, i + 1, prefix);
      FindAllDistinct(nodes, nodes[k].children[c], prefix + [c]);
      FindAllUnderDistinct(nodes, k, i + 1, prefix);
      FindAllSound(nodes, nodes[k].children[c], prefix + [c]);
      FindAllUnderSound(nodes, k, i + 1, prefix);
      ghost var later := keys[i + 1..];
      assert c !in later by {
        forall m | 0 <= m < |later| ensures later[m] != c {
          assert later[m] == keys[i + 1 + m];
        }
      }
      forall w | w in below ensures w !in rest {
        assert w[|prefix|] == c;
      }
      DistinctConcat(below, rest);
    }
  }

  /** `search(prefix)` returns exactly the words that start with `prefix`, each once. */
  lemma CompletionsExact(nodes: seq<TrieNode>, prefix: string)
    requires WellFormed(nodes)
    ensures forall w :: w in Completions(nodes, prefix) <==> prefix <= w && EndsWord(nodes, Root, w)
    ensures Distinct(Completions(nodes, prefix))
  {
    match Walk(nodes, Root, prefix)
    case None =>
      forall w | prefix <= w ensures !EndsWord(nodes, Root, w) {
        assert w == prefix + w[|prefix|..];
        WalkAppend(nodes, Root, prefix, w[|prefix|..]);
      }
    case Some(k) =>
      FindAllDistinct(nodes, k, prefix);
      FindAllSound(nodes, k, prefix);
      forall w ensures w in FindAll(nodes, k, prefix) <==> prefix <= w && EndsWord(nodes, Root, w) {
        if prefix <= w {
          assert w == prefix + w[|prefix|..];
          WalkAppend(nodes, Root, prefix, w[|prefix|..]);
          if EndsWord(nodes, Root, w) {
            FindAllComplete(nodes, k, prefix, w[|prefix|..]);
          }
        }
      }
  }

  /** Miss: `search(prefix)` is empty exactly when no word of the trie starts with
      `prefix`. */
  lemma CompletionsEmpty(nodes: seq<TrieNode>, prefix: string)
    requires WellFormed(nodes)
    ensures Completions(nodes, prefix) == [] <==> forall w :: EndsWord(nodes, Root, w) ==> !(prefix <= w)
  {
    CompletionsExact(nodes, prefix);
    var r := Completions(nodes, prefix);
    if r != [] {
      assert r[0] in r;
    }
  }

  /** `search("")` lists every word of the trie, and lists `""` exactly when the
      root ends a word (which `BuiltWords` ties to inserting the empty word). */
  lemma EmptyPrefixListsAll(nodes: seq<TrieNode>)
    requires WellFormed(nodes)
    ensures forall w :: w in Completions(nodes, []) <==> EndsWord(nodes, Root, w)
    ensures [] in Completions(nodes, []) <==> nodes[Root].endOfWord
  {
    CompletionsExact(nodes, []);
  }

  /** On a fresh trie the walk along a non-empty prefix fails at its first character,
      and every search is empty. */
  lemma FreshTrieSearch(prefix: string)
    ensures WellFormed([EmptyNode])
    ensures prefix != [] ==> Walk([EmptyNode], Root, prefix).None?
    ensures Completions([EmptyNode], prefix) == []
  {
    FreshStoreWellFormed();
    CompletionsEmpty([EmptyNode], prefix);
  }
}
