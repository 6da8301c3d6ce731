/** Whole runs over a trie: the root depends on the resulting map alone, and is
    the one the batch construction computes from that map. */
module TrieRun {
  import opened Bytes
  import opened TrieCommon
  import opened Trie
  import opened TrieEdit
  import opened TrieNode
  import opened TrieHash
  import opened TrieDb
  import opened TrieSize
  import opened TrieRemove
  import opened MemoryDb

  datatype Op = Insert(key: Bytes, value: Bytes) | Remove(key: Bytes)

  type Contents = map<Nibbles, Bytes>

  /** The map that a run of operations leaves. */
  ghost function After(ops: seq<Op>): Contents {
    if ops == [] then map[] else Update(After(ops[..|ops| - 1]), ops[|ops| - 1])
  }

  ghost function Update(m: Contents, op: Op): Contents {
    if op.Insert? then m[NibblesOf(op.key) := op.value] else m - {NibblesOf(op.key)}
  }

  ghost predicate Represents(t: Tree, m: Contents) {
    Canonical(t) && forall k :: At(t, k) == if k in m then m[k] else []
  }

  /** No operation's key is a proper prefix of another's. */
  ghost predicate KeysApart(ops: seq<Op>) {
    forall i, j | 0 <= i < |ops| && 0 <= j < |ops| ::
      NibblesOf(ops[i].key) <= NibblesOf(ops[j].key) ==> NibblesOf(ops[i].key) == NibblesOf(ops[j].key)
  }

  /** Values are never empty; any keys may be inserted and removed. */
  predicate Legal(ops: seq<Op>) { forall i | 0 <= i < |ops| :: ops[i].Insert? ==> ops[i].value != [] }

  function Look(m: Contents, k: Nibbles): Bytes { if k in m then m[k] else [] }

  /** Removing k from this map goes well: no stored key is the longest that
      begins k, and no prefix of another; no two stored keys part right behind
      a k that is not stored; and a value that comes to stand alone at a branch
      is no reference. */
  ghost predicate Smooth(m: Contents, k: Nibbles, main: Table) {
    && (forall x :: x < k && Look(m, x) != [] ==> exists y :: x < y && Look(m, y) != [])
    && (Look(m, k) == [] ==>
          forall y, z :: k < y && k < z && Look(m, y) != [] && Look(m, z) != [] ==> y[|k|] == z[|k|])
    && (forall x :: x < k && LastAbove(m, k, x) ==> NoReference(Look(m, x), main))
  }

  /** x and k are stored, and k is the only stored key that x begins. */
  ghost predicate LastAbove(m: Contents, k: Nibbles, x: Nibbles) {
    Look(m, x) != [] && Look(m, k) != [] && forall y :: x < y && Look(m, y) != [] ==> y == k
  }

  /** The map's condition is the tree's. */
  lemma SmoothMeans(t: Tree, m: Contents, k: Nibbles, main: Table)
    requires Represents(t, m) && Smooth(m, k, main)
    ensures Shape(t) && !GoesAstray(t, k) && NoReference(Exposed(t, k), main)
  {
    assert forall x :: At(t, x) == Look(m, x);
    CanonicalShape(t);
    ExposedIs(t, k, []);
    if Exposed(t, k) != [] {
      var x :| LaysBare(t, k, x);
      ExposedIs(t, k, x);
    }
  }

  /** Every removal of the run goes well. */
  ghost predicate RunsSmoothly(ops: seq<Op>, main: Table) {
    forall n | 0 <= n < |ops| && ops[n].Remove? :: Smooth(After(ops[..n]), NibblesOf(ops[n].key), main)
  }

  /** It does when no key is a proper prefix of another. */
  lemma ApartRunsSmoothly(ops: seq<Op>, main: Table)
    requires KeysApart(ops)
    ensures RunsSmoothly(ops, main)
  {
    forall n | 0 <= n < |ops| && ops[n].Remove?
      ensures Smooth(After(ops[..n]), NibblesOf(ops[n].key), main)
    {
      var m, k := After(ops[..n]), NibblesOf(ops[n].key);
      forall x | Look(m, x) != []
        ensures !(x < k) && !(k < x)
      {
        KeysFromOps(ops[..n], x);
      }
    }
  }

  /** Keys of one length, as the hashed and the typed tries use, are apart. */
  lemma OneLengthApart(ops: seq<Op>, n: nat)
    requires forall i | 0 <= i < |ops| :: |ops[i].key| == n
    ensures KeysApart(ops)
  {
  }

  /** Every key of the map is some operation's. */
  lemma {:induction false} KeysFromOps(ops: seq<Op>, k: Nibbles)
    requires k in After(ops)
    ensures exists i | 0 <= i < |ops| :: k == NibblesOf(ops[i].key)
  {
    var op := ops[|ops| - 1];
    if k != NibblesOf(op.key) { KeysFromOps(ops[..|ops| - 1], k); }
  }

  /** Keys and values of sane sizes. */
  predicate ShortOp(op: Op) {
    |NibblesOf(op.key)| <= 0x1_0000_0000_0000 && (op.Insert? ==> |op.value| <= 0x1_0000_0000_0000)
  }

  predicate ShortOps(ops: seq<Op>) { forall i | 0 <= i < |ops| :: ShortOp(ops[i]) }

  /** More references than the operations can ever add. */
  function Demand(ops: seq<Op>): nat {
    if ops == [] then 0 else Demand(ops[..|ops| - 1]) + 2 * |NibblesOf(ops[|ops| - 1].key)| + 2
  }

  lemma {:induction false} DemandGrows(ops: seq<Op>, n: nat)
    requires n < |ops|
    ensures Demand(ops[..n]) + 2 * |NibblesOf(ops[n].key)| + 2 <= Demand(ops)
    decreases |ops|
  {
    if n < |ops| - 1 {
      DemandGrows(ops[..|ops| - 1], n);
      assert ops[..|ops| - 1][..n] == ops[..n];
    }
  }

  lemma {:induction false} RunModest(ops: seq<Op>, k: Nibbles)
    requires ShortOps(ops) && k in After(ops)
    ensures |k| <= SHORT && |After(ops)[k]| <= SHORT
  {
    var op := ops[|ops| - 1];
    if k != NibblesOf(op.key) {
      RunModest(ops[..|ops| - 1], k);
    } else {
      assert ShortOp(ops[|ops| - 1]);
    }
  }

  lemma TrieModest(t: Tree, ops: seq<Op>, n: nat)
    requires n <= |ops| && Represents(t, After(ops[..n]))
    ensures ShortOps(ops) ==> Modest(t)
  {
    if ShortOps(ops) {
      forall k | At(t, k) != []
        ensures |k| <= SHORT && |At(t, k)| <= SHORT
      {
        RunModest(ops[..n], k);
      }
    }
  }

  /** Any legal run over an empty trie leaves the canonical tree of its map,
      with every reference count equal to the number of positions that hold
      the hash (TrieDB.Valid).  It succeeds unless two of the strings the store
      was given hash alike, a key or value is absurdly long, a counter could
      overflow, or a removal does not go well. */
  method Replay(trie: TrieDB, ops: seq<Op>) returns (r: Outcome<()>)
    requires trie.Valid() && trie.tree == Nil && Legal(ops)
    modifies trie`root, trie`tree, trie.db`main, trie.db`live, trie.db`met
    ensures var room := |old(trie.db.live)| + Demand(ops) < REFS_LIMIT;
      NoCollision(trie.db.met) && ShortOps(ops) && room && RunsSmoothly(ops, trie.db.main) ==> r.Done?
    ensures r.Done? ==> trie.Valid() && trie.others == old(trie.others)
    ensures r.Done? ==> Represents(trie.tree, After(ops))
  {
    assert Represents(trie.tree, After(ops[..0]));
    hide Represents, NoCollision, Modest, At, NibblesOf, Smooth, TrieDB.Valid;
    for n := 0 to |ops|
      invariant trie.Valid() && trie.others == old(trie.others)
      invariant Represents(trie.tree, After(ops[..n]))
      invariant |trie.db.live| <= |old(trie.db.live)| + Demand(ops[..n])
    {
      assert ops[..n + 1][..n] == ops[..n];
      TrieModest(trie.tree, ops, n);
      DemandGrows(ops, n);
      var _ :- Step(trie, ops[n], After(ops[..n]));
    }
    assert ops[..|ops|] == ops;
    return Done(());
  }

  method Step(trie: TrieDB, op: Op, ghost m: Contents) returns (r: Outcome<()>)
    requires trie.Valid() && Represents(trie.tree, m)
    requires op.Insert? ==> op.value != []
    modifies trie`root, trie`tree, trie.db`main, trie.db`live, trie.db`met
    ensures var room := |old(trie.db.live)| + 2 * |NibblesOf(op.key)| + 2 < REFS_LIMIT;
      var smooth := op.Remove? ==> Smooth(m, NibblesOf(op.key), trie.db.main);
      NoCollision(trie.db.met) && Modest(old(trie.tree)) && ShortOp(op) && room && smooth ==> r.Done?
    ensures r.Done? ==> trie.Valid() && trie.others == old(trie.others)
    ensures r.Done? ==> Represents(trie.tree, Update(m, op))
    ensures r.Done? ==> |trie.db.live| <= |old(trie.db.live)| + 2 * |NibblesOf(op.key)| + 2
  {
    ghost var t := trie.tree;
    hide Represents, NoCollision, Put, Modest, NibblesOf, Canonical, Shape, TrieDB.Valid;
    hide Smooth, GoesAstray, Exposed, NoReference;
    match op
    case Insert(key, value) =>
      r := trie.Insert(key, value);
      if r.Done? { Updated(t, trie.tree, m, op, trie); }
    case Remove(key) =>
      r := trie.Remove(key);
      if Smooth(m, NibblesOf(key), trie.db.main) { SmoothMeans(t, m, NibblesOf(key), trie.db.main); }
      if r.Done? { Updated(t, trie.tree, m, op, trie); }
  }

  lemma Updated(t: Tree, u: Tree, m: Contents, op: Op, trie: TrieDB)
    requires trie.Valid() && u == trie.tree
    requires Represents(t, m) && (op.Insert? ==> op.value != [])
    requires var v := if op.Insert? then op.value else [];
      forall x :: At(u, x) == if x == NibblesOf(op.key) then v else At(t, x)
    ensures Represents(u, Update(m, op))
  {
  }

  /** Two tries with the same map have the same root, however they got there. */
  lemma SameMapSameRoot(a: TrieDB, b: TrieDB, m: Contents)
    requires a.Valid() && b.Valid() && Represents(a.tree, m) && Represents(b.tree, m)
    ensures a.root == b.root && a.tree == b.tree
  {
    SameMapSameTree(a.tree, b.tree, m);
  }

  lemma SameMapSameTree(t: Tree, u: Tree, m: Contents)
    requires Represents(t, m) && Represents(u, m)
    ensures t == u
  {
    Unique(t, u);
  }

  /** s lists the pairs of m. */
  ghost predicate Lists(s: seq<Pair>, m: Contents) {
    && (forall i | 0 <= i < |s| :: s[i].key in m && m[s[i].key] == s[i].value)
    && (forall k | k in m :: exists i | 0 <= i < |s| :: s[i].key == k)
  }

  /** What the batch construction covers is the tree of the map. */
  lemma BatchIsTrie(t: Tree, u: Tree, s: seq<Pair>, m: Contents)
    requires Represents(t, m) && Sorted(s) && Lists(s, m)
    requires Canonical(u) && Covers(u, s, 0, |s|, 0)
    ensures t == u
  {
    forall i | 0 <= i < |s| ensures At(t, s[i].key[0..]) == s[i].value { assert s[i].key[0..] == s[i].key; }
    forall k | At(t, k) != [] ensures Has(s, 0, |s|, 0, k) {
      var i :| 0 <= i < |s| && s[i].key == k;
      assert s[i].key[0..] == k;
    }
    CoversUnique(t, u, s, 0, |s|, 0);
  }

  /** The batch hash of the trie's map is the trie's root. */
  method HashOfContents(trie: TrieDB, s: seq<Pair>, ghost m: Contents) returns (h: Digest)
    requires trie.Valid() && Represents(trie.tree, m) && Sorted(s) && Lists(s, m)
    ensures h == trie.root
  {
    ghost var u;
    h, u := Hash256(s);
    BatchIsTrie(trie.tree, u, s, m);
  }

  /** Inserting a new key and removing it again restores the root exactly, and
      the number of references to every hash.  Only the value of a key that the
      new one extends could be in the way. */
  method InsertThenRemove(trie: TrieDB, key: Bytes, value: Bytes) returns (r: Outcome<()>)
    requires trie.Valid() && value != [] && At(trie.tree, NibblesOf(key)) == []
    modifies trie`root, trie`tree, trie.db`main, trie.db`live, trie.db`met
    ensures var room := |old(trie.db.live)| + 3 * |NibblesOf(key)| + 2 < REFS_LIMIT;
      var free := forall x :: x < NibblesOf(key) ==> NoReference(At(old(trie.tree), x), trie.db.main);
      NoCollision(trie.db.met) && Slim(old(trie.tree), NibblesOf(key), value) && room && free ==> r.Done?
    ensures r.Done? ==> trie.Valid() && trie.root == old(trie.root) && trie.db.live == old(trie.db.live)
  {
    hide Modest, NoCollision, GoesAstray, Exposed, NoReference, Canonical, Shape, At, Put, NibblesOf, TrieDB.Valid;
    ghost var t, k := trie.tree, NibblesOf(key);
    Usual(trie);
    r := trie.Insert(key, value);
    if r.Failed? { return; }
    ghost var u := trie.tree;
    Usual(trie);
    ModestPut(t, k, value);
    StoredIsNotAstray(u, k);
    ExposedFree(t, u, k, value);
    EmptyIsNoReference();
    r := trie.Remove(key);
    if r.Done? {
      Usual(trie);
      Restored(t, trie);
    }
  }

  lemma Usual(trie: TrieDB)
    requires trie.Valid()
    ensures Canonical(trie.tree) && Shape(trie.tree) && trie.root == Sha3(Node(trie.tree))
    ensures trie.db.live == trie.others + Inner(trie.tree) + multiset{trie.root}
  {
    CanonicalShape(trie.tree);
  }

  lemma EmptyIsNoReference()
    ensures forall main: Table :: NoReference([], main)
  {
  }

  lemma Restored(t: Tree, trie: TrieDB)
    requires Canonical(t) && trie.Valid() && SameContents(t, trie.tree)
    ensures t == trie.tree
  {
    Unique(t, trie.tree);
  }

  /** A key that is stored is always found. */
  lemma StoredIsNotAstray(t: Tree, k: Nibbles)
    requires Canonical(t) && At(t, k) != []
    ensures Shape(t) && !GoesAstray(t, k)
  {
    StrayIs(t, k);
    DelCanonical(t, k);
  }

  /** What comes to lie bare was stored before. */
  lemma ExposedFree(t: Tree, u: Tree, k: Nibbles, v: Bytes)
    requires Canonical(u) && Shape(u) && forall z :: At(u, z) == if z == k then v else At(t, z)
    ensures Exposed(u, k) == [] || exists x :: x < k && Exposed(u, k) == At(t, x)
  {
    ExposedIs(u, k, []);
    if Exposed(u, k) != [] {
      var x :| LaysBare(u, k, x);
      ExposedIs(u, k, x);
      assert x < k && Exposed(u, k) == At(t, x);
    }
  }
}
