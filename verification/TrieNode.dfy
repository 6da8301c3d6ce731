/** Trie nodes as RLP items: inlined when short, else referred to by hash. */
module TrieNode {
  import opened Bytes
  import opened Rlp
  import opened TrieCommon
  import opened Trie
  import opened MemoryDb

  /** Nodes of this many encoded bytes or more are stored by hash. */
  const HASHED_FROM: int := 32

  ghost function ItemOf(t: Tree): Item
    decreases t, 0
  {
    match t
    case Nil => Data([])
    case Leaf(key, value) => List([Data(HexPrefix(key, true)), Data(value)])
    case Ext(key, child) => List([Data(HexPrefix(key, false)), RefOf(child)])
    case Branch(children, value) =>
      List(seq(|children|, i requires 0 <= i < |children| => RefOf(children[i])) + [Data(value)])
  }

  ghost function Node(t: Tree): Bytes { Encode(ItemOf(t)) }

  /** How a parent refers to t. */
  ghost function RefOf(t: Tree): Item
    decreases t, 1
  {
    var it := ItemOf(t);
    if |Encode(it)| < HASHED_FROM then it else Data(Sha3(Encode(it)))
  }

  ghost predicate Hashed(t: Tree) { |Node(t)| >= HASHED_FROM }

  /** Appendix D: a node of less than 32 bytes stands in its parent as it is, a
      longer one by its hash; so no reference takes more than 33 bytes, and the
      empty trie's node is the one byte 0x80. */
  lemma InlineOrHash(t: Tree)
    ensures |Node(t)| <= 31 ==> RefOf(t) == ItemOf(t) && Encode(RefOf(t)) == Node(t)
    ensures |Node(t)| >= 32 ==> RefOf(t) == Data(Sha3(Node(t))) && Encode(RefOf(t)) == [160] + Sha3(Node(t))
    ensures |Encode(RefOf(t))| <= 33
    ensures t == Nil ==> Node(t) == [128]
  {
    if t == Nil { assert ItemOf(t) == Data([]); }
    hide ItemOf;
  }

  /** A parent's item for t is empty only when t is. */
  lemma RefEmpty(t: Tree)
    ensures RefOf(t).IsEmpty() <==> t == Nil
    ensures ItemOf(t).IsEmpty() <==> t == Nil
    ensures t == Nil ==> !Hashed(t)
  {
  }

  lemma BranchItems(t: Tree)
    requires t.Branch? && |t.children| == 16
    ensures ItemOf(t).List? && |ItemOf(t).items| == 17 && ItemOf(t).items[16] == Data(t.value)
    ensures forall i | 0 <= i < 16 :: ItemOf(t).items[i] == RefOf(t.children[i])
    ensures forall i | 0 <= i < 17 :: ItemOf(t).items[i].IsEmpty() <==> !InUse(t.children, t.value, i)
  {
    forall i | 0 <= i < 16 ensures ItemOf(t).items[i].IsEmpty() <==> !InUse(t.children, t.value, i) {
      RefEmpty(t.children[i]);
    }
  }

  lemma ItemsMakeBranch(t: Tree, items: seq<Item>)
    requires t.Branch? && |t.children| == 16 && |items| == 17 && items[16] == Data(t.value)
    requires forall i | 0 <= i < 16 :: items[i] == RefOf(t.children[i])
    ensures List(items) == ItemOf(t)
  {
    BranchItems(t);
    assert items == ItemOf(t).items;
  }

  lemma PairItems(t: Tree)
    requires t.TwoItem()
    ensures ItemOf(t).List? && |ItemOf(t).items| == 2
    ensures ItemOf(t).items[0].Data? && ItemOf(t).items[0].bytes != []
    ensures KeyOf(ItemOf(t).items[0].bytes) == t.key
    ensures LeafBit(ItemOf(t).items[0].bytes) <==> t.Leaf?
    ensures ItemOf(t).items[1] == if t.Ext? then RefOf(t.child) else Data(t.value)
  {
    KeyOfHexPrefix(t.key, t.Leaf?);
  }

  // ----- Lone branches -----

  /** A branch with a single entry: insertion passes through it, never stores it. */
  ghost predicate LoneItem(it: Item) {
    it.List? && |it.items| == 17 && exists i :: OnlyEntry(it.items, i)
  }

  ghost predicate OnlyEntry(items: seq<Item>, i: nat) {
    i < |items| && forall j | 0 <= j < |items| && j != i :: items[j].IsEmpty()
  }

  ghost predicate LoneBytes(b: Bytes) {
    exists it :: LoneItem(it) && Encode(it) == b
  }

  /** Nothing that is referred to is a lone branch. */
  ghost predicate NoLone(main: Table) {
    forall h | h in main && main[h].refs > 0 :: !LoneBytes(main[h].value)
  }

  lemma CanonicalNotLone(t: Tree)
    requires Canonical(t) || t.TwoItem()
    ensures !LoneItem(ItemOf(t))
  {
    if t.Branch? {
      BranchItems(t);
      var i, j :| 0 <= i < j <= 16 && InUse(t.children, t.value, i) && InUse(t.children, t.value, j);
      assert !ItemOf(t).items[i].IsEmpty() && !ItemOf(t).items[j].IsEmpty();
    }
  }

  lemma EncodedNotLone(it: Item)
    requires !LoneItem(it) && |Encode(it)| < LENGTH_LIMIT
    ensures !LoneBytes(Encode(it))
  {
    forall other | Encode(other) == Encode(it) ensures !LoneItem(other) {
      EncodeInjective(it, other);
    }
  }

  // ----- Which hashes a tree refers to -----

  ghost function Self(t: Tree): multiset<Digest> {
    if Hashed(t) then multiset{Sha3(Node(t))} else multiset{}
  }

  /** The hashed nodes strictly inside t, one for each position. */
  ghost function Inner(t: Tree): multiset<Digest>
    decreases t, 0
  {
    match t
    case Nil => multiset{}
    case Leaf(_, _) => multiset{}
    case Ext(_, child) => Owned(child)
    case Branch(children, _) => OwnedAll(children)
  }

  ghost function Owned(t: Tree): multiset<Digest>
    decreases t, 1
  {
    Inner(t) + Self(t)
  }

  ghost function OwnedEach(ts: seq<Tree>): (ms: seq<multiset<Digest>>)
    ensures |ms| == |ts|
    decreases ts, 0
  {
    seq(|ts|, i requires 0 <= i < |ts| => Owned(ts[i]))
  }

  ghost function OwnedAll(ts: seq<Tree>): multiset<Digest>
    decreases ts, 1
  {
    Sum(OwnedEach(ts))
  }

  ghost function Sum(ms: seq<multiset<Digest>>): multiset<Digest> {
    if ms == [] then multiset{} else ms[0] + Sum(ms[1..])
  }

  lemma {:induction false} SumElement(ms: seq<multiset<Digest>>, i: nat)
    requires i < |ms|
    ensures ms[i] <= Sum(ms)
  {
    if i > 0 { SumElement(ms[1..], i - 1); }
  }

  lemma {:induction false} SumUpdate(ms: seq<multiset<Digest>>, i: nat, m: multiset<Digest>)
    requires i < |ms|
    ensures Sum(ms[i := m]) + ms[i] == Sum(ms) + m
  {
    var after, rest := ms[i := m], ms[1..];
    assert Sum(after) == after[0] + Sum(after[1..]);
    if i > 0 {
      SumUpdate(rest, i - 1, m);
      assert after[1..] == rest[i - 1 := m];
      assert ms[0] + Sum(rest[i - 1 := m]) + ms[i] == ms[0] + (Sum(rest[i - 1 := m]) + rest[i - 1]);
      assert ms[0] + (Sum(rest) + m) == ms[0] + Sum(rest) + m;
    } else {
      assert after[1..] == rest;
    }
  }

  lemma {:induction false} SumEmpty(ms: seq<multiset<Digest>>)
    requires forall i | 0 <= i < |ms| :: ms[i] == multiset{}
    ensures Sum(ms) == multiset{}
  {
    if ms != [] { SumEmpty(ms[1..]); }
  }

  lemma OwnedAllElement(ts: seq<Tree>, i: nat)
    requires i < |ts|
    ensures Owned(ts[i]) <= OwnedAll(ts)
  {
    SumElement(OwnedEach(ts), i);
  }

  lemma OwnedAllUpdate(ts: seq<Tree>, i: nat, u: Tree)
    requires i < |ts|
    ensures OwnedAll(ts[i := u]) + Owned(ts[i]) == OwnedAll(ts) + Owned(u)
  {
    SumUpdate(OwnedEach(ts), i, Owned(u));
    assert OwnedEach(ts[i := u]) == OwnedEach(ts)[i := Owned(u)];
  }

  lemma OwnedNil()
    ensures Owned(Nil) == multiset{}
  {
    RefEmpty(Nil);
  }

  lemma OwnedAllNil(ts: seq<Tree>)
    requires forall i | 0 <= i < |ts| :: ts[i] == Nil
    ensures OwnedAll(ts) == multiset{}
  {
    OwnedNil();
    SumEmpty(OwnedEach(ts));
  }

  // ----- Which nodes can be looked up -----

  ghost predicate Holds(main: Table, b: Bytes) {
    Sha3(b) in main && main[Sha3(b)].value == b
  }

  /** Every hashed node strictly inside t is in the table. */
  ghost predicate Stored(main: Table, t: Tree)
    decreases t, 0
  {
    match t
    case Nil => true
    case Leaf(_, _) => true
    case Ext(_, child) => StoredRef(main, child)
    case Branch(children, _) => forall i | 0 <= i < |children| :: StoredRef(main, children[i])
  }

  ghost predicate StoredRef(main: Table, t: Tree)
    decreases t, 1
  {
    Stored(main, t) && (Hashed(t) ==> Holds(main, Node(t)))
  }

  lemma {:induction false} StoredExtends(a: Table, b: Table, t: Tree)
    requires Extends(a, b) && Stored(a, t)
    ensures Stored(b, t)
  {
    match t
    case Nil =>
    case Leaf(_, _) =>
    case Ext(_, child) => StoredExtends(a, b, child);
    case Branch(children, _) =>
      forall i | 0 <= i < |children| ensures StoredRef(b, children[i]) {
        assert StoredRef(a, children[i]);
        StoredExtends(a, b, children[i]);
      }
  }

  /** The same when only entries without references were dropped. */
  lemma {:induction false} StoredPurged(a: Table, b: Table, t: Tree, live: multiset<Digest>)
    requires Stored(a, t) && Inner(t) <= live
    requires forall h | h in a && h in live :: h in b && b[h] == a[h]
    ensures Stored(b, t)
    decreases t, 0
  {
    match t
    case Nil =>
    case Leaf(_, _) =>
    case Ext(_, child) =>
      StoredRefPurged(a, b, child, live);
    case Branch(children, _) =>
      forall i | 0 <= i < |children| ensures StoredRef(b, children[i]) {
        assert StoredRef(a, children[i]);
        OwnedAllElement(children, i);
        StoredRefPurged(a, b, children[i], live);
      }
  }

  lemma {:induction false} StoredRefPurged(a: Table, b: Table, t: Tree, live: multiset<Digest>)
    requires StoredRef(a, t) && Owned(t) <= live
    requires forall h | h in a && h in live :: h in b && b[h] == a[h]
    ensures StoredRef(b, t)
    decreases t, 1
  {
    StoredPurged(a, b, t, live);
    if Hashed(t) { assert Sha3(Node(t)) in Owned(t); }
  }
}
