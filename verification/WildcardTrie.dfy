/** The wildcard trie of base/trie.hpp: 128-way heap nodes, an iterative insert and
    search, and a recursive deletion that prunes dead branches.

    Ownership is described by one ghost map `at` from paths to nodes: `at[p]` is the node
    reached from the root by reading `p`. The set of keys is the set of leaf paths. */
module WildcardTrie {

  const CHAR_SIZE: nat := 128

  type Letter = c: int | 0 <= c < 128
  type Key = seq<Letter>

  /** The code of the character '*'. */
  const STAR: Letter := 42

  // ---------- The shape a set of keys determines ----------

  /** The nodes on the way to `key`: its prefixes. */
  ghost function PathsTo(key: Key): set<Key> {
    if key == [] then {[]} else PathsTo(key[..|key| - 1]) + {key}
  }

  lemma {:induction false} PathsToArePrefixes(key: Key)
    ensures forall p :: p in PathsTo(key) <==> p <= key
  {
    if key != [] {
      var front := key[..|key| - 1];
      PathsToArePrefixes(front);
      forall p ensures p in PathsTo(key) <==> p <= key {
        if p <= key && p != key { assert p <= front; }
      }
    }
  }

  ghost predicate HasExtension(K: set<Key>, p: Key) {
    exists k :: k in K && p <= k
  }

  /** The paths of a pruned trie: the root and the prefixes of the keys. */
  ghost predicate IsNode(K: set<Key>, p: Key) {
    p == [] || HasExtension(K, p)
  }

  /** What `search` answers, as a function of the key set alone. */
  ghost predicate Match(K: set<Key>, q: Key) {
    if IsNode(K, q) then q in K
    else exists i :: LeavesAt(K, q, i) && IsNode(K, q[..i] + [STAR])
  }

  /** `q` leaves the trie after `i` letters: the longest prefix of `q` that is a node. */
  ghost predicate LeavesAt(K: set<Key>, q: Key, i: int) {
    0 <= i < |q| && IsNode(K, q[..i]) && !IsNode(K, q[..i + 1])
  }

  lemma NothingMatches(K: set<Key>, q: Key)
    requires K == {}
    ensures !Match(K, q)
  {}

  lemma NodeClosed(K: set<Key>, q: Key, i: nat, j: nat)
    requires i <= j <= |q| && IsNode(K, q[..j])
    ensures IsNode(K, q[..i])
  {
    if i > 0 {
      var k :| k in K && q[..j] <= k;
      assert q[..i] <= k;
    }
  }

  /** There is only one place to leave the trie, and the whole of `q` is then not a node. */
  lemma NoNodeBeyond(K: set<Key>, q: Key, i: nat)
    requires LeavesAt(K, q, i)
    ensures !IsNode(K, q)
    ensures forall j :: LeavesAt(K, q, j) ==> j == i
  {
    assert q[..|q|] == q;
    if IsNode(K, q) { NodeClosed(K, q, i + 1, |q|); }
    forall j | LeavesAt(K, q, j) ensures j == i {
      if j < i { NodeClosed(K, q, j + 1, i); }
      if i < j { NodeClosed(K, q, i + 1, j); }
    }
  }

  // ---------- Ownership ----------

  /** The node at path `p` links to exactly the owned nodes one letter below it. */
  ghost predicate Linked(at: map<Key, Trie>, p: Key)
    requires p in at
    reads at[p].character
  {
    && at[p].character.Length == CHAR_SIZE
    && forall c: Letter :: at[p].character[c] == if p + [c] in at then at[p + [c]] else null
  }

  /** `at` is a tree: it has a root, is closed under prefixes and shares no array. */
  ghost predicate Owned(at: map<Key, Trie>) {
    && [] in at
    && (forall p: Key, c: Letter :: p + [c] in at ==> p in at)
    && (forall p, q {:trigger Apart(at, p, q)} :: p in at && q in at ==> Apart(at, p, q))
  }

  ghost predicate Apart(at: map<Key, Trie>, p: Key, q: Key)
    requires p in at && q in at
  {
    p == q || at[p].character != at[q].character
  }

  lemma Unshared(at: map<Key, Trie>, path: Key)
    requires Owned(at) && path in at
    ensures forall p :: p in at && p != path ==> at[p] != at[path] && at[p].character != at[path].character
  {
    forall p | p in at && p != path ensures at[p].character != at[path].character {
      assert Apart(at, p, path);
    }
  }

  ghost predicate Tree(at: map<Key, Trie>)
    reads set p | p in at :: at[p].character
  {
    Owned(at) && forall p {:trigger Linked(at, p)} :: p in at ==> Linked(at, p)
  }

  ghost function Keys(at: map<Key, Trie>): set<Key>
    reads at.Values
  {
    set p | p in at && at[p].isLeaf
  }

  ghost predicate Marked(at: map<Key, Trie>, K: set<Key>)
    reads at.Values
  {
    forall p :: p in at ==> (at[p].isLeaf <==> p in K)
  }

  /** No dead branch: every node but the root is on the way to a key. */
  ghost predicate Pruned(at: map<Key, Trie>)
    reads at.Values
  {
    forall p :: p in at ==> IsNode(Keys(at), p)
  }

  /** `mod` has every object on the way from `path` down to `full`: all that an update
      may touch. The caller may take it as small as that. */
  ghost predicate Covers(mod: set<object>, at: map<Key, Trie>, path: Key, full: Key) {
    forall p :: p in at && path <= p && p <= full ==> at[p] in mod && at[p].character in mod
  }

  /** `at'` is what is left of `at` after deleting nodes below `path` only. */
  ghost predicate Within(at: map<Key, Trie>, path: Key, at': map<Key, Trie>) {
    && (forall p :: p in at' ==> p in at && at'[p] == at[p])
    && (forall p :: p in at && !(path <= p) ==> p in at')
  }

  /** Below `path` exactly the nodes on the way to a key other than `full` are left. */
  ghost predicate Remains(K: set<Key>, at: map<Key, Trie>, path: Key, full: Key, at': map<Key, Trie>) {
    forall p :: p in at && path <= p ==> (p in at' <==> HasExtension(K - {full}, p))
  }

  lemma SplitKey(path: Key, key: Key)
    requires |key| > 0
    ensures path + [key[0]] + key[1..] == path + key && path + [key[0]] <= path + key
  {}

  lemma OnTheWay(path: Key, key: Key)
    requires |key| > 0
    ensures path + [key[0]] <= path + key && path != path + key
  {}

  lemma CoversChild(mod: set<object>, at: map<Key, Trie>, path: Key, c: Letter, full: Key)
    requires Owned(at) && path in at && path + [c] <= full && Covers(mod, at, path, full)
    ensures at[path] in mod && at[path].character in mod
    ensures Covers(mod - {at[path], at[path].character}, at, path + [c], full)
  {
    Unshared(at, path);
  }

  ghost predicate Childless(at: map<Key, Trie>, path: Key) {
    forall d: Letter :: path + [d] !in at
  }

  /** The keys `K` account for every node of `at`. */
  ghost predicate Spans(K: set<Key>, at: map<Key, Trie>) {
    Owned(at) && K <= at.Keys && forall p :: p in at ==> IsNode(K, p)
  }

  lemma {:induction false} OwnedPrefix(at: map<Key, Trie>, q: Key, i: nat)
    requires Owned(at) && q in at && i <= |q|
    ensures q[..i] in at
    decreases |q| - i
  {
    if i < |q| {
      OwnedPrefix(at, q, i + 1);
      assert q[..i + 1] == q[..i] + [q[i]];
    } else {
      assert q[..i] == q;
    }
  }

  lemma ExtensionChild(K: set<Key>, at: map<Key, Trie>, path: Key, k: Key)
    requires Spans(K, at) && k in K && path <= k && path != k
    ensures path + [k[|path|]] in at && path + [k[|path|]] <= k
  {
    OwnedPrefix(at, k, |path| + 1);
    assert k[..|path| + 1] == path + [k[|path|]];
  }

  /** A node below `path` but off the branch of `full` is kept by another key. */
  lemma OtherBranch(K: set<Key>, at: map<Key, Trie>, path: Key, c: Letter, full: Key, p: Key)
    requires Spans(K, at) && path + [c] <= full
    requires p in at && path <= p && path != p && !(path + [c] <= p)
    ensures HasExtension(K - {full}, p)
  {
    var k :| k in K && p <= k;
    assert full[|path|] == c && p[|path|] == k[|path|];
    assert k in K - {full};
  }

  lemma BelowKey(K: set<Key>, at: map<Key, Trie>, full: Key, p: Key)
    requires Spans(K, at) && p in at && full <= p && p != full
    ensures HasExtension(K - {full}, p)
  {
    var k :| k in K && p <= k;
    assert k in K - {full};
  }

  lemma RemainsMarked(K: set<Key>, at: map<Key, Trie>, full: Key)
    requires Spans(K, at) && !Childless(at, full)
    ensures Remains(K, at, full, full, at)
  {
    var d: Letter :| full + [d] in at;
    BelowKey(K, at, full, full + [d]);
    ParentExtension(K - {full}, full, d);
    forall p | p in at && full <= p ensures HasExtension(K - {full}, p) {
      if p != full { BelowKey(K, at, full, p); }
    }
  }

  lemma RemainsGone(K: set<Key>, at: map<Key, Trie>, full: Key)
    requires Spans(K, at) && Childless(at, full)
    ensures Remains(K, at, full, full, at - {full})
  {
    forall k | k in K && full <= k ensures k == full {
      if k != full { ExtensionChild(K, at, full, k); }
    }
    forall p | p in at && full <= p ensures p == full {
      if p != full { BelowKey(K, at, full, p); }
    }
  }

  lemma ParentExtension(K: set<Key>, path: Key, d: Letter)
    requires HasExtension(K, path + [d])
    ensures HasExtension(K, path)
  {
    var k :| k in K && path + [d] <= k;
    assert path <= k;
  }

  lemma SiblingsDiffer(path: Key, c: Letter, d: Letter)
    requires c != d
    ensures !(path + [c] <= path + [d])
  {
    assert (path + [d])[|path|] == d && (path + [c])[|path|] == c;
  }

  lemma WithinUp(at: map<Key, Trie>, path: Key, c: Letter, at1: map<Key, Trie>)
    requires Within(at, path + [c], at1)
    ensures Within(at, path, at1) && Within(at, path, at1 - {path})
  {}

  lemma RemainsKept(K: set<Key>, at: map<Key, Trie>, path: Key, full: Key, c: Letter, at1: map<Key, Trie>)
    requires Spans(K, at) && path + [c] <= full
    requires Within(at, path + [c], at1) && Remains(K, at, path + [c], full, at1)
    requires path in K || !Childless(at1, path)
    ensures Remains(K, at, path, full, at1)
  {
    if path in K {
      assert path in K - {full};
    } else {
      var d: Letter :| path + [d] in at1;
      if d != c {
        SiblingsDiffer(path, c, d);
        OtherBranch(K, at, path, c, full, path + [d]);
      }
      ParentExtension(K - {full}, path, d);
    }
    forall p | p in at && path <= p ensures p in at1 <==> HasExtension(K - {full}, p) {
      if p != path && !(path + [c] <= p) { OtherBranch(K, at, path, c, full, p); }
    }
  }

  lemma NoOtherKey(K: set<Key>, at: map<Key, Trie>, path: Key, full: Key, c: Letter, at1: map<Key, Trie>)
    requires Spans(K, at) && path + [c] <= full
    requires Within(at, path + [c], at1) && Remains(K, at, path + [c], full, at1)
    requires path !in K && Childless(at1, path)
    ensures forall k :: k in K - {full} ==> !(path <= k)
  {
    forall k | k in K - {full} && path <= k ensures false {
      ExtensionChild(K, at, path, k);
    }
  }

  lemma RemainsDropped(K: set<Key>, at: map<Key, Trie>, path: Key, full: Key, c: Letter, at1: map<Key, Trie>)
    requires Spans(K, at) && path + [c] <= full
    requires Within(at, path + [c], at1) && Remains(K, at, path + [c], full, at1)
    requires path !in K && Childless(at1, path)
    ensures Remains(K, at, path, full, at1 - {path})
    ensures forall p :: p in at1 && path <= p ==> p == path
  {
    NoOtherKey(K, at, path, full, c, at1);
    forall p | p in at && path <= p ensures !HasExtension(K - {full}, p) {}
    forall p | p in at1 && path <= p ensures p == path {
      if p != path && !(path + [c] <= p) { OtherBranch(K, at, path, c, full, p); }
    }
  }

  lemma OtherLinks(at: map<Key, Trie>, path: Key, c: Letter, at1: map<Key, Trie>)
    requires Within(at, path + [c], at1)
    ensures forall d: Letter :: d != c ==> (path + [d] in at1 <==> path + [d] in at)
  {
    forall d: Letter | d != c ensures path + [d] in at1 <==> path + [d] in at {
      SnocInjective(path, d, path, c);
    }
  }

  /** While the slot for `c` is being updated the other slots of the node are right already. */
  ghost predicate LinkedBut(at: map<Key, Trie>, p: Key, c: Letter)
    requires p in at
    reads at[p].character
  {
    && at[p].character.Length == CHAR_SIZE
    && forall d: Letter :: d != c ==> at[p].character[d] == if p + [d] in at then at[p + [d]] else null
  }

  /** All nodes are linked but for the slot for `c` of the node at `path`. */
  ghost predicate TreeBut(at: map<Key, Trie>, path: Key, c: Letter)
    requires path in at
    reads set p | p in at :: at[p].character
  {
    && LinkedBut(at, path, c)
    && forall p {:trigger Linked(at, p)} :: p in at && p != path ==> Linked(at, p)
  }

  lemma BeforeSlot(at: map<Key, Trie>, path: Key, c: Letter, at1: map<Key, Trie>)
    requires path in at && Linked(at, path) && path in at1 && Within(at, path + [c], at1)
    requires forall p :: p in at1 && !Above(p, path + [c]) ==> Linked(at1, p)
    ensures TreeBut(at1, path, c)
  {
    OtherLinks(at, path, c, at1);
  }

  ghost predicate Above(p: Key, path: Key) {
    path != [] && p == path[..|path| - 1]
  }

  /** Only the parent of a node has a link to it. */
  lemma NoParent(p: Key, path: Key)
    requires !Above(p, path)
    ensures forall d: Letter :: p + [d] != path
  {
    forall d: Letter ensures p + [d] != path {
      assert (p + [d])[..|p|] == p;
    }
  }

  /** Deleting a node leaves every link but that of its parent. */
  lemma Unlinked(at: map<Key, Trie>, path: Key)
    requires forall p {:trigger Linked(at, p)} :: p in at ==> Linked(at, p)
    ensures forall p :: p in at - {path} && !Above(p, path) ==> Linked(at - {path}, p)
  {
    forall p | p in at - {path} && !Above(p, path) ensures Linked(at - {path}, p) {
      assert Linked(at, p);
      NoParent(p, path);
    }
  }

  lemma NodesArePaths(at: map<Key, Trie>)
    requires Owned(at) && Pruned(at)
    ensures forall p :: p in at <==> IsNode(Keys(at), p)
  {
    forall p | IsNode(Keys(at), p) ensures p in at {
      if p != [] {
        var k :| k in Keys(at) && p <= k;
        OwnedPrefix(at, k, |p|);
        assert k[..|p|] == p;
      }
    }
  }

  lemma PathsToSnoc(key: Key, i: nat)
    requires i < |key|
    ensures PathsTo(key[..i + 1]) == PathsTo(key[..i]) + {key[..i + 1]}
    ensures key[..i + 1] == key[..i] + [key[i]]
  {
    assert key[..i + 1][..i] == key[..i];
  }

  lemma SnocInjective(p: Key, c: Letter, q: Key, d: Letter)
    ensures p + [c] == q + [d] <==> p == q && c == d
  {
    assert (p + [c])[..|p|] == p && (p + [c])[|p|] == c;
    assert (q + [d])[..|q|] == q && (q + [d])[|q|] == d;
  }

  lemma GrowOwned(at: map<Key, Trie>, here: Key, c: Letter, child: Trie)
    requires Owned(at) && here in at && here + [c] !in at
    requires forall p :: p in at ==> at[p].character != child.character
    ensures Owned(at[here + [c] := child])
  {
    var at' := at[here + [c] := child];
    forall p: Key, d: Letter ensures p + [d] == here + [c] ==> p == here {
      SnocInjective(p, d, here, c);
    }
    forall p, q | p in at' && q in at' ensures Apart(at', p, q) {
      if p in at && q in at { assert Apart(at, p, q); }
    }
  }

  /** A new node below `here` has no children and is the child of no other node. */
  lemma NoNewLink(at: map<Key, Trie>, here: Key, c: Letter, p: Key)
    requires Owned(at) && here + [c] !in at && (p in at || p == here + [c])
    ensures forall d: Letter :: p + [d] == here + [c] <==> p == here && d == c
    ensures p == here + [c] ==> forall d: Letter :: p + [d] !in at
  {
    forall d: Letter ensures p + [d] == here + [c] <==> p == here && d == c {
      SnocInjective(p, d, here, c);
    }
  }

  /** `root` owns the pruned trie `at` of the keys `K`. */
  ghost predicate Represents(root: Trie?, at: map<Key, Trie>, K: set<Key>)
    reads at.Values, set p | p in at :: at[p].character
  {
    && K == Keys(at)
    && (root == null ==> at == map[])
    && (root != null ==> Tree(at) && Pruned(at) && at[[]] == root)
  }

  /** The keys determine the nodes: two pruned tries of the same keys have the same paths. */
  lemma KeysDetermineShape(root: Trie?, at: map<Key, Trie>, K: set<Key>)
    requires Represents(root, at, K) && root != null
    ensures forall p :: p in at <==> IsNode(K, p)
  {
    NodesArePaths(at);
  }

  lemma StillPruned(at: map<Key, Trie>, K: set<Key>, key: Key, at': map<Key, Trie>)
    requires forall p :: p in at ==> IsNode(K, p)
    requires at'.Keys == at.Keys + PathsTo(key) && Keys(at') == K + {key}
    ensures Pruned(at')
  {
    PathsToArePrefixes(key);
    forall p | p in at' ensures IsNode(K + {key}, p) {
      NodeAfterInsert(K, key, p);
    }
  }

  lemma DeletedKeys(at: map<Key, Trie>, K: set<Key>, key: Key, at': map<Key, Trie>)
    requires Spans(K, at) && Marked(at', K - {key}) && Within(at, [], at')
    requires key in K && Remains(K, at, [], key, at')
    ensures Keys(at') == K - {key}
  {
    forall k | k in K - {key} ensures k in at' {
      assert HasExtension(K - {key}, k);
    }
  }

  lemma DeletedShape(at: map<Key, Trie>, K: set<Key>, key: Key, at': map<Key, Trie>)
    requires Spans(K, at) && Within(at, [], at')
    requires key in K && Remains(K, at, [], key, at')
    ensures forall p :: p in at' ==> HasExtension(K - {key}, p)
    ensures forall p: Key, c: Letter :: p + [c] in at' ==> p in at'
    ensures at' == map[] <==> K == {key}
    ensures at' != map[] ==> [] in at'
  {
    forall p: Key, c: Letter | p + [c] in at' ensures p in at' {
      var k :| k in K - {key} && p + [c] <= k;
      assert p <= k;
    }
    if k :| k in K - {key} {
      assert HasExtension(K - {key}, []);
    } else {
      assert K - {key} == {};
      assert K == {key};
    }
  }

  lemma DeletedTree(at: map<Key, Trie>, K: set<Key>, key: Key, at': map<Key, Trie>)
    requires Spans(K, at) && Marked(at', K - {key}) && Within(at, [], at')
    requires key in K && Remains(K, at, [], key, at')
    requires forall p :: p in at' ==> Linked(at', p)
    ensures Keys(at') == K - {key} && (at' == map[] <==> K == {key})
    ensures at' != map[] ==> Tree(at') && Pruned(at')
  {
    DeletedKeys(at, K, key, at');
    DeletedShape(at, K, key, at');
    forall p, q | p in at' && q in at' ensures Apart(at', p, q) {
      assert Apart(at, p, q);
    }
  }

  lemma SameTree(at: map<Key, Trie>, K: set<Key>)
    requires Spans(K, at) && Marked(at, K)
    requires forall p :: p in at ==> Linked(at, p)
    ensures Keys(at) == K && Tree(at) && Pruned(at)
  {
    assert Keys(at) == K;
  }

  /** What `Deletion` promises at the root, put together. */
  lemma DeletedAtRoot(at: map<Key, Trie>, K: set<Key>, key: Key, at': map<Key, Trie>)
    requires Spans(K, at) && Within(at, [], at') && Marked(at', K - {[] + key})
    requires [] + key !in K ==> at' == at
    requires [] + key in K ==> Remains(K, at, [], [] + key, at')
    requires forall p :: p in at' && !Above(p, []) ==> Linked(at', p)
    ensures Keys(at') == K - {key} && ([] !in at' <==> K == {key})
    ensures if [] in at' then Tree(at') && Pruned(at') else at' == map[]
  {
    assert [] + key == key;
    forall p | p in at' ensures Linked(at', p) { assert !Above(p, []); }
    if key in K {
      DeletedTree(at, K, key, at');
    } else {
      assert K - {key} == K;
      SameTree(at, K);
    }
  }

  lemma Restored(at: map<Key, Trie>, K: set<Key>, key: Key, grown: map<Key, Trie>, next: Trie?, at': map<Key, Trie>)
    requires [] in at && (forall p :: p in at <==> IsNode(K, p)) && Represents(next, at', K - {key})
    requires forall p :: p in at ==> p in grown && grown[p] == at[p]
    requires forall p :: p in at' ==> p in grown && at'[p] == grown[p]
    requires next == null <==> K + {key} == {key}
    ensures at' == at && K - {key} == K <==> key !in K && K != {}
  {
    if key !in K && K != {} {
      assert K - {key} == K && K + {key} != {key};
      KeysDetermineShape(next, at', K);
    } else if key !in K {
      assert K + {key} == {key};
    }
  }

  // ---------- Heap nodes ----------

  class Trie {
    var isLeaf: bool
    const character: array<Trie?>

    constructor ()
      ensures !isLeaf && fresh(character) && character.Length == CHAR_SIZE
      ensures forall c: Letter :: character[c] == null
    {
      isLeaf := false;
      character := new Trie?[CHAR_SIZE];
      new;
      for i := 0 to CHAR_SIZE
        invariant forall c :: 0 <= c < i ==> character[c] == null
        invariant !isLeaf
      {
        character[i] := null;
      }
    }

    /** The step of the insertion loop: the child for letter `c`, allocated if it is missing. */
    method Grow(c: Letter, ghost at: map<Key, Trie>, ghost here: Key)
      returns (child: Trie, ghost at': map<Key, Trie>)
      requires Tree(at) && here in at && at[here] == this
      modifies character
      ensures Tree(at') && at'.Keys == at.Keys + {here + [c]} && child == at'[here + [c]]
      ensures forall p :: p in at ==> at'[p] == at[p]
      ensures here + [c] !in at ==> fresh(child) && fresh(child.character)
      ensures Keys(at') == old(Keys(at))
    {
      assert Linked(at, here);
      Unshared(at, here);
      if character[c] != null {
        return character[c], at;
      }
      child := new Trie();
      at' := at[here + [c] := child];
      character[c] := child;
      GrowOwned(at, here, c, child);
      forall p | p in at' ensures Linked(at', p) {
        NoNewLink(at, here, c, p);
        if p in at { assert old(Linked(at, p)); }
      }
    }

    /** Iterative insertion, starting from the root `this`. */
    method Insert(key: Key, ghost at: map<Key, Trie>, ghost mod: set<object>)
      returns (ghost at': map<Key, Trie>, ghost added: set<object>)
      requires Tree(at) && at[[]] == this && Covers(mod, at, [], key)
      modifies mod
      ensures Tree(at') && at'.Keys == at.Keys + PathsTo(key)
      ensures forall p :: p in at ==> at'[p] == at[p]
      ensures fresh(added) && forall p :: p in at' && p !in at ==> at'[p] in added && at'[p].character in added
      ensures Keys(at') == old(Keys(at)) + {key}
    {
      var curr := this;
      at', added := at, {};
      var i := 0;
      while i < |key|
        invariant 0 <= i <= |key|
        invariant Tree(at') && at'.Keys == at.Keys + PathsTo(key[..i])
        invariant key[..i] in at' && curr == at'[key[..i]]
        invariant forall p :: p in at ==> at'[p] == at[p]
        invariant forall p :: p in at' && p !in at ==> at'[p] in added && at'[p].character in added
        invariant fresh(added) && Keys(at') == old(Keys(at))
      {
        ghost var here := key[..i];
        PathsToSnoc(key, i);
        assert here in at ==> curr.character in mod;
        curr, at' := curr.Grow(key[i], at', here);
        if key[..i + 1] !in at { added := added + {curr, curr.character}; }
        i := i + 1;
      }
      assert key[..i] == key;
      assert key in at ==> curr in mod;
      curr.Mark(at', key);
    }

    /** `Insert` called on the root of a pruned trie keeps it pruned. */
    method InsertFromRoot(key: Key, ghost at: map<Key, Trie>, ghost K: set<Key>, ghost mod: set<object>)
      returns (ghost at': map<Key, Trie>, ghost added: set<object>)
      requires Represents(this, at, K) && Covers(mod, at, [], key)
      modifies mod
      ensures Represents(this, at', K + {key})
      ensures forall p :: p in at ==> p in at' && at'[p] == at[p]
      ensures fresh(added) && forall p :: p in at' && p !in at ==> at'[p] in added && at'[p].character in added
    {
      at', added := Insert(key, at, mod);
      StillPruned(at, K, key, at');
    }

    /** The last step of the insertion: the node reached becomes a leaf. */
    method Mark(ghost at: map<Key, Trie>, ghost key: Key)
      requires Tree(at) && key in at && at[key] == this
      modifies this`isLeaf
      ensures Tree(at) && Keys(at) == old(Keys(at)) + {key}
    {
      Unshared(at, key);
      isLeaf := true;
      forall p | p in at ensures Linked(at, p) {
        assert old(Linked(at, p));
      }
    }

    /** Iterative search from `root`: falls back to the '*' child of the last node reached. */
    static method Search(root: Trie?, key: Key, ghost at: map<Key, Trie>, ghost K: set<Key>)
      returns (found: bool)
      requires Represents(root, at, K)
      ensures found <==> Match(K, key)
    {
      if root == null {
        NothingMatches(K, key);
        return false;
      }
      NodesArePaths(at);
      var curr: Trie := root;
      var i := 0;
      while i < |key|
        invariant 0 <= i <= |key|
        invariant key[..i] in at && curr == at[key[..i]]
      {
        ghost var here := key[..i];
        assert key[..i + 1] == here + [key[i]];
        assert Linked(at, here);
        var next := curr.character[key[i]];
        if next == null {
          assert LeavesAt(K, key, i);
          NoNodeBeyond(K, key, i);
          return curr.character[STAR] != null;
        }
        curr := next;
        i := i + 1;
      }
      assert key[..i] == key;
      return curr.isLeaf;
    }

    method HaveChildren(ghost at: map<Key, Trie>, ghost path: Key) returns (some: bool)
      requires path in at && at[path] == this && Linked(at, path)
      ensures some <==> !Childless(at, path)
    {
      for i := 0 to CHAR_SIZE
        invariant forall c: Letter :: c < i ==> character[c] == null
      {
        if character[i] != null {
          assert path + [i] in at;
          return true;
        }
      }
      return false;
    }

    /** Recursive deletion of `key` below the node `curr` at `path`, in a trie with keys `K`.
        `next` and the result `removed` stand for the update of the pointer `curr` passed by
        reference; a deleted node leaves `at'`. */
    static method Deletion(curr: Trie?, key: Key, ghost path: Key, ghost at: map<Key, Trie>, ghost K: set<Key>,
        ghost mod: set<object>)
      returns (next: Trie?, removed: bool, ghost at': map<Key, Trie>)
      requires curr == null ==> at == map[] && K == {}
      requires curr != null ==> Tree(at) && Marked(at, K) && Spans(K, at) && path in at && at[path] == curr
      requires Covers(mod, at, path, path + key)
      modifies mod
      ensures path + key !in K ==> at' == at && next == curr && !removed
      ensures Within(at, path, at')
      ensures path + key in K ==> Remains(K, at, path, path + key, at')
      ensures curr != null ==> (removed <==> path !in at') && next == if removed then null else curr
      ensures Marked(at', K - {path + key})
      ensures forall p :: p in at' && !Above(p, path) ==> Linked(at', p)
      decreases |key|, 3
    {
      if curr == null {
        return curr, false, at;
      }
      assert Linked(at, path);
      assert |key| == 0 ==> path + key == path;
      if |key| > 0 && curr.character[key[0]] != null {
        next, removed, at' := curr.DeleteBelow(key, path, at, K, mod);
      } else if |key| == 0 && curr.isLeaf {
        next, removed, at' := curr.DeleteHere(path, at, K);
      } else {
        next, removed, at' := curr, false, at;
        if |key| > 0 && path + key in K {
          ExtensionChild(K, at, path, path + key);
        }
      }
    }

    /** `Deletion` called on a root pointer. */
    static method DeleteFromRoot(root: Trie?, key: Key, ghost at: map<Key, Trie>, ghost K: set<Key>,
        ghost mod: set<object>)
      returns (next: Trie?, removed: bool, ghost at': map<Key, Trie>)
      requires Represents(root, at, K) && Covers(mod, at, [], key)
      modifies mod
      ensures Represents(next, at', K - {key})
      ensures (removed <==> K == {key}) && next == if removed then null else root
      ensures forall p :: p in at' ==> p in at && at'[p] == at[p]
      ensures key !in K ==> at' == at
    {
      assert [] + key == key;
      if root != null { NodesArePaths(at); }
      next, removed, at' := Deletion(root, key, [], at, K, mod);
      if root != null { DeletedAtRoot(at, K, key, at'); }
    }

    /** Inserting a key and deleting it again gives back the very same nodes exactly when the
        key was absent and the trie was not empty. */
    method InsertThenDelete(key: Key, ghost at: map<Key, Trie>, ghost K: set<Key>, ghost mod: set<object>)
      returns (next: Trie?, removed: bool, ghost at': map<Key, Trie>)
      requires Represents(this, at, K) && Covers(mod, at, [], key)
      modifies mod
      ensures Represents(next, at', K - {key})
      ensures at' == at && K - {key} == K <==> key !in K && K != {}
    {
      KeysDetermineShape(this, at, K);
      ghost var grown, added := InsertFromRoot(key, at, K, mod);
      next, removed, at' := DeleteFromRoot(this, key, grown, K + {key}, mod + added);
      assert K + {key} - {key} == K - {key};
      Restored(at, K, key, grown, next, at');
    }

    /** The end of the key is reached at a leaf: unmark the node, or delete it if it is childless. */
    method DeleteHere(ghost path: Key, ghost at: map<Key, Trie>, ghost K: set<Key>)
      returns (next: Trie?, removed: bool, ghost at': map<Key, Trie>)
      requires Tree(at) && Marked(at, K) && Spans(K, at) && path in at && at[path] == this && isLeaf
      modifies this
      ensures Within(at, path, at') && Remains(K, at, path, path, at') && Marked(at', K - {path})
      ensures (removed <==> path !in at') && next == if removed then null else this
      ensures forall p :: p in at' && !Above(p, path) ==> Linked(at', p)
    {
      assert Linked(at, path);
      var some := HaveChildren(at, path);
      if !some {
        RemainsGone(K, at, path);
        Unlinked(at, path);
        return null, true, at - {path};
      }
      RemainsMarked(K, at, path);
      Unmark(path, at, K);
      return this, false, at;
    }

    method Unmark(ghost path: Key, ghost at: map<Key, Trie>, ghost K: set<Key>)
      requires Tree(at) && Marked(at, K) && path in at && at[path] == this
      modifies this`isLeaf
      ensures Marked(at, K - {path}) && forall p :: p in at ==> Linked(at, p)
    {
      Unshared(at, path);
      isLeaf := false;
      forall p | p in at ensures Linked(at, p) {
        assert old(Linked(at, p));
      }
    }

    /** The end of the key is not reached: recur, then delete this node too if it became a dead end. */
    method DeleteBelow(key: Key, ghost path: Key, ghost at: map<Key, Trie>, ghost K: set<Key>,
        ghost mod: set<object>)
      returns (next: Trie?, removed: bool, ghost at': map<Key, Trie>)
      requires Tree(at) && Marked(at, K) && Spans(K, at) && path in at && at[path] == this
      requires |key| > 0 && path + [key[0]] in at
      requires Covers(mod, at, path, path + key)
      modifies mod
      ensures path + key !in K ==> at' == at
      ensures Within(at, path, at')
      ensures path + key in K ==> Remains(K, at, path, path + key, at')
      ensures (removed <==> path !in at') && next == if removed then null else this
      ensures Marked(at', K - {path + key})
      ensures forall p :: p in at' && !Above(p, path) ==> Linked(at', p)
      decreases |key|, 2
    {
      var childRemoved;
      childRemoved, at' := DeleteChild(key, path, at, K, mod);
      WithinUp(at, path, key[0], at');
      OnTheWay(path, key);
      assert at'[path] == this && (isLeaf <==> path in K);
      assert childRemoved ==> path + key in K;
      if childRemoved && !isLeaf {
        var some := HaveChildren(at', path);
        if !some {
          RemainsDropped(K, at, path, path + key, key[0], at');
          Unlinked(at', path);
          return null, true, at' - {path};
        }
      }
      if path + key in K {
        assert !childRemoved ==> path + [key[0]] in at';
        RemainsKept(K, at, path, path + key, key[0], at');
      }
      return this, false, at';
    }

    /** The recursive call on the child for the first letter, whose slot it updates. */
    method DeleteChild(key: Key, ghost path: Key, ghost at: map<Key, Trie>, ghost K: set<Key>,
        ghost mod: set<object>)
      returns (childRemoved: bool, ghost at': map<Key, Trie>)
      requires Tree(at) && Marked(at, K) && Spans(K, at) && path in at && at[path] == this
      requires |key| > 0 && path + [key[0]] in at
      requires Covers(mod, at, path, path + key)
      modifies mod
      ensures path + key !in K ==> at' == at
      ensures Within(at, path + [key[0]], at') && path in at'
      ensures path + key in K ==> Remains(K, at, path + [key[0]], path + key, at')
      ensures childRemoved <==> path + [key[0]] !in at'
      ensures Marked(at', K - {path + key})
      ensures forall p :: p in at' ==> Linked(at', p)
      decreases |key|, 1
    {
      var child;
      child, childRemoved, at' := DeleteBranch(key, path, at, K, mod);
      SetChild(key[0], child, at', path, K - {path + key});
    }

    /** The recursive call itself: what it returns is still to be written into the slot. */
    method DeleteBranch(key: Key, ghost path: Key, ghost at: map<Key, Trie>, ghost K: set<Key>,
        ghost mod: set<object>)
      returns (child: Trie?, childRemoved: bool, ghost at': map<Key, Trie>)
      requires Tree(at) && Marked(at, K) && Spans(K, at) && path in at && at[path] == this
      requires |key| > 0 && path + [key[0]] in at
      requires Covers(mod, at, path, path + key)
      modifies mod - {this, character}
      ensures path + key !in K ==> at' == at
      ensures Within(at, path + [key[0]], at') && path in at'
      ensures path + key in K ==> Remains(K, at, path + [key[0]], path + key, at')
      ensures childRemoved <==> path + [key[0]] !in at'
      ensures Marked(at', K - {path + key}) && TreeBut(at', path, key[0])
      ensures character in mod && forall p :: p in at' && p != path ==> at'[p].character != character
      ensures child == if path + [key[0]] in at' then at'[path + [key[0]]] else null
      decreases |key|, 0
    {
      SplitKey(path, key);
      assert Linked(at, path);
      CoversChild(mod, at, path, key[0], path + key);
      child, childRemoved, at' := Deletion(character[key[0]], key[1..], path + [key[0]], at, K,
        mod - {this, character});
      BeforeSlot(at, path, key[0], at');
      Unshared(at, path);
    }

    /** Writes one slot, completing the links of the node at `path`. */
    method SetChild(c: Letter, child: Trie?, ghost at: map<Key, Trie>, ghost path: Key, ghost K: set<Key>)
      requires Marked(at, K) && path in at && at[path] == this && TreeBut(at, path, c)
      requires forall p :: p in at && p != path ==> at[p].character != character
      requires child == if path + [c] in at then at[path + [c]] else null
      modifies character
      ensures Marked(at, K) && forall p :: p in at ==> Linked(at, p)
    {
      character[c] := child;
      forall p | p in at && p != path ensures Linked(at, p) {
        assert old(Linked(at, p));
      }
    }
  }

  // ---------- Whole histories ----------

  datatype Op = Insert(key: Key) | Delete(key: Key) | Search(key: Key)

  ghost function KeysAfterOp(K: set<Key>, op: Op): set<Key> {
    match op
    case Insert(k) => K + {k}
    case Delete(k) => K - {k}
    case Search(_) => K
  }

  /** What an operation answers when the keys present are `K`; an insertion answers nothing. */
  ghost function Answer(K: set<Key>, op: Op): bool {
    match op
    case Insert(_) => false
    case Delete(k) => K == {k}
    case Search(q) => Match(K, q)
  }

  /** The keys present after a history. */
  ghost function KeysAfter(ops: seq<Op>): set<Key> {
    if ops == [] then {} else KeysAfterOp(KeysAfter(ops[..|ops| - 1]), ops[|ops| - 1])
  }

  ghost function Answers(ops: seq<Op>): seq<bool> {
    if ops == [] then []
    else
      var past := ops[..|ops| - 1];
      Answers(past) + [Answer(KeysAfter(past), ops[|ops| - 1])]
  }

  /** Every answer depends on the keys present at that moment alone, whatever shapes the trie
      went through. */
  lemma {:induction false} AnswersFromKeys(ops: seq<Op>, i: nat)
    requires i < |ops|
    ensures |Answers(ops)| == |ops| && Answers(ops)[i] == Answer(KeysAfter(ops[..i]), ops[i])
  {
    var past := ops[..|ops| - 1];
    if i < |past| {
      AnswersFromKeys(past, i);
      assert past[..i] == ops[..i];
    } else if i > 0 {
      AnswersFromKeys(past, 0);
    }
  }

  /** `mod` has every object of the trie. */
  ghost predicate HasAll(mod: set<object>, at: map<Key, Trie>) {
    forall p :: p in at ==> at[p] in mod && at[p].character in mod
  }

  /** A new, empty trie: its root and the objects it owns. */
  method NewRoot() returns (root: Trie, ghost at: map<Key, Trie>, ghost mod: set<object>)
    ensures Represents(root, at, {}) && fresh(mod) && HasAll(mod, at)
  {
    root := new Trie();
    at, mod := map[[] := root], {root, root.character};
    assert Linked(at, []);
  }

  /** One operation; a caller whose root became null starts a new one to insert. */
  method Apply(root: Trie?, op: Op, ghost at: map<Key, Trie>, ghost K: set<Key>, ghost mod: set<object>)
    returns (next: Trie?, answer: bool, ghost at': map<Key, Trie>, ghost mod': set<object>)
    requires Represents(root, at, K) && HasAll(mod, at)
    modifies mod
    ensures Represents(next, at', KeysAfterOp(K, op)) && answer == Answer(K, op)
    ensures HasAll(mod', at') && fresh(mod' - mod)
  {
    next, answer, at', mod' := root, false, at, mod;
    match op {
      case Insert(key) =>
        if next == null {
          next, at', mod' := NewRoot();
        }
        ghost var added;
        at', added := next.InsertFromRoot(key, at', K, mod');
        mod' := mod' + added;
      case Delete(key) =>
        next, answer, at' := Trie.DeleteFromRoot(root, key, at, K, mod);
      case Search(key) =>
        answer := Trie.Search(root, key, at, K);
    }
  }

  /** Runs a whole history on one trie. */
  method Run(ops: seq<Op>) returns (answers: seq<bool>)
    ensures answers == Answers(ops)
  {
    var root: Trie?;
    ghost var at, mod;
    root, at, mod := NewRoot();
    answers := [];
    for n := 0 to |ops|
      invariant Represents(root, at, KeysAfter(ops[..n])) && answers == Answers(ops[..n])
      invariant HasAll(mod, at) && fresh(mod)
    {
      assert ops[..n + 1][..n] == ops[..n];
      var answer;
      root, answer, at, mod := Apply(root, ops[n], at, KeysAfter(ops[..n]), mod);
      answers := answers + [answer];
    }
    assert ops[..|ops|] == ops;
  }

  // ---------- What the '*' fallback means ----------

  /** Some key goes on with a '*' (code 42) where no key goes on with the next letter of `q`. */
  ghost predicate StarAt(K: set<Key>, q: Key, i: nat) {
    && i < |q| && (exists k :: k in K && q[..i] + [42] <= k)
    && forall k :: k in K ==> !(q[..i + 1] <= k)
  }

  /** What the fallback amounts to on the keys alone: a word is found exactly if it is a key, or there
      is such a place, wherever in the word that is and whatever follows the '*' in that key. */
  lemma MatchMeaning(K: set<Key>, q: Key)
    ensures Match(K, q) <==> q in K || exists i: nat :: StarAt(K, q, i)
  {
    forall i: nat ensures StarAt(K, q, i) <==> LeavesAt(K, q, i) && IsNode(K, q[..i] + [STAR]) {
      if StarAt(K, q, i) {
        var k :| k in K && q[..i] + [42] <= k;
        assert q[..i] <= q[..i] + [42];
      }
    }
    assert q in K ==> q <= q && IsNode(K, q);
    forall i: nat | StarAt(K, q, i) ensures !IsNode(K, q) {
      NoNodeBeyond(K, q, i);
    }
  }

  /** A '*' inside a key, and a word that leaves the trie there long before its end. */
  lemma StarInside()
    ensures Match({[97, 42, 98]}, [97, 99, 100, 101])
  {
    var K: set<Key>, q: Key := {[97, 42, 98]}, [97, 99, 100, 101];
    var k: Key := [97, 42, 98];
    assert q[..1] == [97] && q[..2] == [97, 99];
    assert q[..1] + [42] == k[..2];
    assert q[..2][1] != k[1];
    assert StarAt(K, q, 1);
    MatchMeaning(K, q);
  }

  // ---------- Histories, by their operations alone ----------

  /** Operation `i` inserted `k`, and none of the next ones up to the `n`-th deleted it. */
  ghost predicate InsertedAt(ops: seq<Op>, n: nat, k: Key, i: nat) {
    i < n <= |ops| && ops[i] == Insert(k) && forall j :: i < j < n ==> ops[j] != Delete(k)
  }

  ghost predicate Present(ops: seq<Op>, n: nat, k: Key) {
    exists i: nat :: InsertedAt(ops, n, k, i)
  }

  lemma PresentStep(ops: seq<Op>, n: nat, k: Key)
    requires n < |ops|
    ensures Present(ops, n + 1, k) <==> ops[n] == Insert(k) || (Present(ops, n, k) && ops[n] != Delete(k))
  {
    var m := n + 1;
    if Present(ops, n, k) {
      var i: nat :| InsertedAt(ops, n, k, i);
      assert ops[n] != Delete(k) ==> InsertedAt(ops, m, k, i);
    }
    if Present(ops, m, k) {
      var i: nat :| InsertedAt(ops, m, k, i);
      assert i < n ==> InsertedAt(ops, n, k, i);
    }
    if ops[n] == Insert(k) { assert InsertedAt(ops, m, k, n); }
  }

  /** A key is there exactly if it was inserted and not deleted since. */
  lemma {:induction false} KeyIsPresent(ops: seq<Op>, n: nat, k: Key)
    requires n <= |ops|
    ensures k in KeysAfter(ops[..n]) <==> Present(ops, n, k)
  {
    if n > 0 {
      KeyIsPresent(ops, n - 1, k);
      PresentStep(ops, n - 1, k);
      assert ops[..n][..n - 1] == ops[..n - 1];
    }
  }

  /** What each operation of a history answers: a deletion that the key was the only one, a search that
      the word is there or has its place with a '*' among the keys that are. */
  lemma AnswersMeaning(ops: seq<Op>, n: nat)
    requires n < |ops| == |Answers(ops)|
    ensures ops[n].Delete? ==> (Answers(ops)[n] <==> forall m :: Present(ops, n, m) <==> m == ops[n].key)
    ensures ops[n].Search? ==> (Answers(ops)[n] <==>
      Present(ops, n, ops[n].key) || exists i: nat :: StarAt(KeysAfter(ops[..n]), ops[n].key, i))
  {
    var K := KeysAfter(ops[..n]);
    AnswersFromKeys(ops, n);
    forall m ensures m in K <==> Present(ops, n, m) { KeyIsPresent(ops, n, m); }
    if ops[n].Search? { MatchMeaning(K, ops[n].key); }
  }

  // ---------- When an insertion hides a word ----------

  /** How many letters `k` and `q` share at the front. */
  function Common(k: Key, q: Key): (n: nat)
    ensures n <= |k| && n <= |q| && k[..n] == q[..n]
    ensures n < |k| && n < |q| ==> k[n] != q[n]
  {
    if k == [] || q == [] || k[0] != q[0] then 0
    else
      var n := Common(k[1..], q[1..]);
      assert k[..n + 1] == [k[0]] + k[1..][..n] && q[..n + 1] == [q[0]] + q[1..][..n];
      n + 1
  }

  lemma CommonIsLongest(k: Key, q: Key, i: nat)
    requires i <= |q|
    ensures q[..i] <= k <==> i <= Common(k, q)
  {
    var n := Common(k, q);
    if i <= n {
      assert q[..i] == q[..n][..i] == k[..n][..i] == k[..i];
    } else if n < |k| {
      assert q[..i][n] == q[n];
    }
  }

  lemma NodeAfterInsert(K: set<Key>, k: Key, p: Key)
    ensures IsNode(K + {k}, p) <==> IsNode(K, p) || p <= k
  {
    if p <= k { assert k in K + {k}; }
    if HasExtension(K, p) { var m :| m in K && p <= m; assert m in K + {k}; }
  }

  /** A search that succeeds through '*' is lost by inserting `k` exactly when `k` follows the
      searched word beyond the point where it left the trie, is not that word, and does not
      itself continue with '*' where it departs from it. */
  lemma InsertShadows(K: set<Key>, k: Key, q: Key, i: nat)
    requires LeavesAt(K, q, i) && Match(K, q)
    ensures var n := Common(k, q);
      Match(K + {k}, q) <==> n <= i || k == q || (n < |q| && n < |k| && k[n] == STAR)
  {
    var n := Common(k, q);
    NoNodeBeyond(K, q, i);
    forall j: nat | j <= |q|
      ensures IsNode(K + {k}, q[..j]) <==> j <= i || j <= n
    {
      NodeAfterInsert(K, k, q[..j]);
      CommonIsLongest(k, q, j);
      if j <= i { NodeClosed(K, q, j, i); } else if IsNode(K, q[..j]) { NodeClosed(K, q, i + 1, j); }
    }
    assert q[..|q|] == q;
    var m := if n <= i then i else n;
    if m == |q| {
      assert q !in K;
      if q == k {} else { assert q !in K + {k}; }
    } else {
      assert LeavesAt(K + {k}, q, m);
      NoNodeBeyond(K + {k}, q, m);
      NodeAfterInsert(K, k, q[..m] + [STAR]);
      StarBeyond(K, k, q, i);
    }
  }

  /** Where `k` departs from `q` after the word had left the trie, only `k` can offer a '*'. */
  lemma {:induction false} StarBeyond(K: set<Key>, k: Key, q: Key, i: nat)
    requires LeavesAt(K, q, i)
    ensures var n := Common(k, q);
      n < |q| && i < n ==>
        !IsNode(K, q[..n] + [STAR]) && (q[..n] + [STAR] <= k <==> n < |k| && k[n] == STAR)
  {
    var n := Common(k, q);
    if n < |q| && i < n {
      var s := q[..n] + [STAR];
      assert s[..i + 1] == q[..i + 1] && s[..|s|] == s;
      if IsNode(K, s) { NodeClosed(K, s, i + 1, |s|); }
      if n < |k| && k[n] == STAR { assert k[..n + 1] == s; }
    }
  }

  /** A node that has a '*' child and lacks another one. */
  ghost predicate Wild(K: set<Key>, p: Key, c: Letter) {
    IsNode(K, p + [STAR]) && !IsNode(K, p + [c])
  }

  lemma WildMatches(K: set<Key>, p: Key, c: Letter)
    requires Wild(K, p, c)
    ensures Match(K, p + [c]) && p + [c] !in K
  {
    var q := p + [c];
    assert q[..|p|] == p && q[..|p| + 1] == q <= q;
    assert (p + [STAR])[..|p|] == p && (p + [STAR])[..|p| + 1] == p + [STAR];
    NodeClosed(K, p + [STAR], |p|, |p| + 1);
    assert LeavesAt(K, q, |p|);
  }

  /** A word found without being a key has left the trie at such a node. */
  lemma MatchIsWild(K: set<Key>, q: Key) returns (i: nat)
    ensures q in K ==> Match(K, q)
    ensures Match(K, q) && q !in K ==> i < |q| && Wild(K, q[..i], q[i])
  {
    i := 0;
    assert q <= q;
    if !IsNode(K, q) && Match(K, q) {
      i :| LeavesAt(K, q, i) && IsNode(K, q[..i] + [STAR]);
      assert q[..i + 1] == q[..i] + [q[i]];
    }
  }

  /** Searching is membership, as the comment of the source says, exactly when there is no such node. */
  lemma SearchIsMembership(K: set<Key>)
    ensures (forall q :: Match(K, q) <==> q in K) <==>
      forall p: Key, c: Letter {:trigger Wild(K, p, c)} :: !Wild(K, p, c)
  {
    if p: Key, c: Letter :| Wild(K, p, c) {
      WildMatches(K, p, c);
    } else {
      forall q ensures Match(K, q) <==> q in K {
        var i := MatchIsWild(K, q);
      }
    }
  }

  /** In particular when no key contains a '*'. */
  lemma NoStarNoWildcard(K: set<Key>)
    requires forall k :: k in K ==> STAR !in k
    ensures forall q :: Match(K, q) <==> q in K
  {
    forall p: Key, c: Letter ensures !Wild(K, p, c) {
      assert (p + [STAR])[|p|] == STAR;
      assert forall k :: k in K && p + [STAR] <= k ==> k[|p|] == STAR;
    }
    SearchIsMembership(K);
  }

  /** A key ending in '*' covers every longer word that leaves the trie right at the '*'. */
  lemma WildcardCovers(K: set<Key>, w: Key, q: Key)
    requires w + [STAR] in K && w <= q && |w| < |q|
    ensures !IsNode(K, q[..|w| + 1]) ==> Match(K, q)
  {
    if !IsNode(K, q[..|w| + 1]) {
      assert q[..|w|] == w && w <= w + [STAR];
      assert LeavesAt(K, q, |w|);
      NoNodeBeyond(K, q, |w|);
      assert w + [STAR] <= w + [STAR];
    }
  }

  /** It does not cover them all: with the rules "*" and "ab", the word "a" is not found. */
  lemma WildcardShadowed()
    ensures !Match({[STAR], [97, 98]}, [97]) && Match({[STAR]}, [97])
  {
    var K: set<Key> := {[STAR]};
    var q: Key := [97];
    assert q[..0] == [] && q[..1] == q && [] + [STAR] == [STAR];
    assert !(q <= [STAR]) by { assert [STAR][0] != q[0]; }
    assert LeavesAt(K, q, 0) && [STAR] <= [STAR];
    WildcardCovers(K, [], q);
    assert [97] <= [97, 98];
    assert IsNode({[STAR], [97, 98]}, q);
  }
}
