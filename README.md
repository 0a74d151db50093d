# Prefix-tree autocomplete, modelled in Dafny

The country-autocomplete script keeps every country name in a prefix tree (a trie).
Each `TrieNode` holds a `children` object that maps one character to a child node,
and an `endOfWord` flag. A `Trie` has the methods below:

- `insert(word)` walks down from the root. It creates each missing child on the way
  and marks the last node as the end of a word.
- `search(prefix)` walks down along the prefix. It returns `[]` at the first
  character that has no child. Otherwise it returns `_findAllWords(node, prefix)`.
- `_findAllWords` collects the words under a node depth-first.
  - It emits `prefix` when the node ends a word.
  - It then recurses into each child with `prefix + char`, in the order `for...in`
    lists the keys.

This project models that trie and proves what it promises. Search finds exactly the
inserted words that start with the prefix, each once. Inserting adds exactly one word
and changes nothing else. Inserting a word that is already present changes nothing.

## How the model is organised

- `trie_store.dfy` (module `TrieStore`) holds the node store.
  - The nodes of one trie live in a sequence. A node reference is an index into that
    sequence, and the root is index 0.
  - `new TrieNode()` appends `EmptyNode`, which has no children and `endOfWord`
    false.
  - A `TrieNode` value holds `children` (character to index), `keys`, and
    `endOfWord`. `keys` lists the child characters in the order they were added.
    That is the order `for...in` visits them, except that it visits the digits
    `"0"`–`"9"` (the only integer-like single-character keys) first.
  - `WellFormed` states the shape every reachable trie has:
    - each node's keys are distinct and match its children;
    - every child has a larger index than its parent;
    - no node has two parents (the store is a tree).

    `WellFormed` also admits stores that no sequence of inserts builds, such as an
    unmarked leaf. What holds for the stores inserts do build is stated by
    `BuiltWalk`.
  - `Walk` follows a string from a node. `EndsWord` says that the walk ends on a
    marked node.
- `trie_insert.dfy` (module `TrieInsert`) models `insert` as functions on the store.
  - `Attach` creates a child.
  - `Mark` sets `endOfWord`.
  - `InsertFrom` and `Inserted` are the whole loop.
  - The lemmas beside them relate the words of the store before and after.
- `trie_search.dfy` (module `TrieSearch`) models the search side.
  - `FindAll` and `FindAllUnder` model `_findAllWords`; `FindAllUnder` is its
    `for...in` loop from the `i`-th key on.
  - `Completions` models `search`.
  - The lemmas prove soundness, completeness and the absence of duplicates.
- `trie.dfy` (module `Autocomplete`) holds the `Trie` class.
  - It owns the node store (`nodes`) and updates it in place.
  - The words inserted so far are kept as a ghost set `words`.
  - `Valid()` ties that set to the store.
  - `Insert`, `Search` and `FindAllWords` are methods with the source's loops. Each
    is proved equal to the function above that models it. `Insert` and `Search`
    also state their effect on, or their result in terms of, `words`.
  - `Search` and `FindAllWords` have no `modifies` clause, so they cannot change the
    trie.

The keys of `children` are single characters (one code point each, as `for...of`
yields them). No such key can be an inherited `Object.prototype` name, so
`!node.children[char]` is exactly "no child under `char`". The model says it as
`char !in children`.

## Model

| member | source | states |
|---|---|---|
| TrieStore.Walk | script.js:30-37 | a successful walk ends on an existing node whose index is larger than the start's by at least the number of characters followed (the body returns `None` at the first missing child) |
| TrieStore.FreshStoreWellFormed | script.js:12-14 | the trie a constructor builds (one root node, no children, `endOfWord` false) is well formed and holds no word |
| TrieStore.WalkInjective | script.js:20-23 | each child is created once, under one parent and one character, so two strings that lead to the same node are equal |
| TrieStore.ExtendsWalk | script.js:20-23 | once a node is reached by a string, it is still reached by that string after later children are added |
| TrieStore.WalkBack | script.js:20-23 | when every added child is a new node, a walk that ends on an old node already existed, along the same string, before |
| TrieInsert.Attach | script.js:20-22 | creating a missing child appends one empty node linked under the character, adds the character as the node's last key, leaves every other node as it was, keeps every old child and flag, and keeps the store a tree |
| TrieInsert.Mark | script.js:25 | `node.endOfWord = true` sets that node's flag and no other, and changes no child |
| TrieInsert.MarkWords | script.js:25 | marking the node spelled by `u` adds the word `u` and no other word |
| TrieInsert.AttachWords | script.js:21 | a freshly created node is not the end of a word, so creating it adds no word |
| TrieInsert.InsertFrom | script.js:17-26 | the insert loop keeps the store a tree, only adds nodes and children, and creates at most one node per remaining character |
| TrieInsert.Inserted | script.js:17-26 | the store after `insert(w)` is well formed, keeps every old node's children and key order, and has `w` as a word; `InsertedWords` gives its whole word set |
| TrieInsert.InsertedWords | script.js:17-26 | after `insert(w)` the trie holds exactly the words it held before plus `w` (so earlier words are kept) |
| TrieInsert.InsertedPresent | script.js:20-25 | inserting a word already present creates no node and sets no flag: the store is unchanged |
| TrieInsert.InsertTwice | script.js:17-26 | inserting the same word twice gives the same store as inserting it once |
| TrieInsert.InsertedFrame | script.js:19-25 | `insert(w)` keeps every old child under the same character and the old key order in front; the node spelled by `w` exists afterwards, and it is the only node whose flag can change |
| TrieInsert.InsertedNewNodes | script.js:19-24 | `insert(w)` creates at most one node per character of `w`, and each created node is the node of a non-empty prefix of `w` |
| TrieInsert.InsertFromOnlyNew | script.js:19-24 | every child the insert loop adds to an existing node is a node it created: no existing node gains a second way in |
| TrieInsert.InsertedWalk | script.js:19-24 | after `insert(w)` the walk along `p` succeeds exactly when it did before or `p` is a prefix of `w` |
| TrieSearch.FindAll | script.js:42-53 | `_findAllWords(node, prefix)` returns only strings that start with `prefix`, and returns `prefix` itself when the node ends a word; `FindAllSound`, `FindAllComplete` and `FindAllDistinct` give the rest of its meaning |
| TrieSearch.FindAllUnder | script.js:47-51 | the `for...in` loop from the `i`-th key on returns only strings that extend `prefix` by at least one character; `FindAllUnderSound` says by which key |
| TrieSearch.FindAllSound | script.js:42-53 | every string `_findAllWords(node, prefix)` returns is `prefix` followed by a path from the node to the end of a word |
| TrieSearch.FindAllComplete | script.js:42-53 | every path from the node to the end of a word is returned, prefixed by `prefix` |
| TrieSearch.FindAllDistinct | script.js:42-52 | `_findAllWords` returns no string twice |
| TrieSearch.Completions | script.js:29-39 | `search(prefix)` returns only strings that start with `prefix`, none twice; `CompletionsExact` says which |
| TrieSearch.CompletionsExact | script.js:29-39 | `search(prefix)` returns exactly the words of the trie that start with `prefix`, each once |
| TrieSearch.CompletionsEmpty | script.js:31-36 | `search(prefix)` is `[]` if and only if no word of the trie starts with `prefix` |
| TrieSearch.EmptyPrefixListsAll | script.js:38-46 | `search("")` lists every word, and lists `""` exactly when the root ends a word (that the root is marked only by inserting `""` is `InsertedFrame` and `BuiltWords`) |
| TrieSearch.FreshTrieSearch | script.js:12-36 | on a fresh trie a non-empty prefix fails at its first character, and every search returns `[]` |
| Autocomplete.SearchAfterInsert | script.js:17-39 | after `insert(w)`, `search(p)` returns exactly the old words starting with `p` plus `w` when `p` is a prefix of `w`; in particular `w` is found from each of its prefixes |
| Autocomplete.InsertedWordSet | script.js:17-26 | a word set that is exactly the words of the store before `insert(w)` is, with `w` added, exactly the words after it; when `w` was already in the set the store is unchanged |
| Autocomplete.Built | script.js:12-26 | a fresh trie after any sequence of inserts is well formed |
| Autocomplete.BuiltWords | script.js:12-26 | the words of a trie built from a list of inserts are exactly the strings of that list |
| Autocomplete.BuiltWalk | script.js:12-36 | in a trie built from a list, the walk along `p` succeeds exactly when `p` is empty or a prefix of a listed string: a prefix that starts no inserted word hits a missing child, and no node below the root is a leaf that ends no word |
| Autocomplete.BuiltSearch | script.js:12-53 | on a trie built from a list, `search(p)` returns each listed string that starts with `p` once, and nothing else |
| Autocomplete.Trie.constructor | script.js:12-14 | a new trie is the root node alone and holds no word |
| Autocomplete.Trie.Insert | script.js:17-26 | `insert(word)` updates the store in place to the state `Inserted` describes, adds exactly `word` to the word set, and leaves the store unchanged when `word` was already present |
| Autocomplete.Trie.Search | script.js:29-39 | `search(prefix)` returns the words of the trie that start with `prefix`, each once, and changes nothing |
| Autocomplete.Trie.FindAllWords | script.js:42-53 | `_findAllWords(node, prefix)` returns the list `FindAll` describes, and so each word under the node, prefixed and once |

## Left out

- Fetching country names and details, wiring the input and click listeners,
  rendering details and dismissing the list (script.js:57-187). These are network
  I/O, DOM glue and HTML templating, not trie logic.
- The module-level singleton `trie` (script.js:57). The model constructs its own
  instances; `Built` stands for a trie filled from a list of names.
- `trim` on the typed input (script.js:141). The trie receives the trimmed string.
- `for...in` visits integer-like keys first; among single characters these are
  the digits `"0"`–`"9"`, in ascending order. The model visits every child in
  insertion order, which is what `for...in` does for all other keys.
  - `Trie.Search` and `Trie.FindAllWords` ensure equality with `Completions` and
    `FindAll`, so the order they fix is insertion order. The JavaScript order
    differs from it when a node has a digit child that was added after another
    child.
  - The other contracts of `Search`, and the lemmas about `Completions` and
    `FindAll`, are about which strings are returned and about duplicates. They
    do not depend on the order in which children are visited.
- Node identity is an index into the trie's own store, not a heap reference. Nodes
  of two different tries are never shared.
- Strings holding a lone surrogate cannot be represented: a Dafny `char` is a Unicode
  scalar value, which is what `for...of` yields for well-formed strings.
- Call-stack exhaustion: `_findAllWords` recurses once per tree level
  (script.js:48-50), so a long enough inserted word makes `search` throw a
  `RangeError` in JavaScript. `FindAll` and `Trie.FindAllWords` have no depth limit.
