/** How long nodes get: with keys and values of sane sizes, no node comes near
    the length that RLP's 64-bit sizes cannot express. */
module TrieSize {
  import opened Bytes
  import opened Rlp
  import opened TrieCommon
  import opened Trie
  import opened TrieEdit
  import opened TrieNode
  import opened TrieFacts

  /** Far more than any key or value, far less than 64-bit sizes. */
  const SHORT: nat := 0x1_0000_0000_0000

  /** Keys, in nibbles, and values are short. */
  ghost predicate Modest(t: Tree) {
    forall k :: At(t, k) != [] ==> |k| <= SHORT && |At(t, k)| <= SHORT
  }

  lemma ModestExt(t: Tree)
    requires t.Ext? && Modest(t)
    ensures Modest(t.child)
  {
    forall k | At(t.child, k) != []
      ensures |k| <= SHORT && |At(t.child, k)| <= SHORT
    {
      AtExt(t.key, t.child, k);
    }
  }

  lemma ModestEntry(t: Tree, i: Nibble)
    requires t.Branch? && |t.children| == 16 && Modest(t)
    ensures Modest(t.children[i])
  {
    forall k | At(t.children[i], k) != []
      ensures |k| <= SHORT && |At(t.children[i], k)| <= SHORT
    {
      AtBranch(t, i, k);
    }
  }

  lemma ModestPut(t: Tree, k: Nibbles, v: Bytes)
    requires Shape(t)
    ensures Modest(t) && |k| <= SHORT && |v| <= SHORT ==> Modest(Put(t, k, v))
  {
    forall x
      ensures At(Put(t, k, v), x) == if x == k then v else At(t, x)
    {
      PutAt(t, k, v, x);
    }
  }

  lemma ModestDel(t: Tree, k: Nibbles)
    requires Canonical(t) && Shape(t) && Del(t, k).Removed?
    ensures Modest(t) ==> Modest(Del(t, k).tree)
  {
    forall x
      ensures At(Del(t, k).tree, x) == if x == k then [] else At(t, x)
    {
      DelAt(t, k, x);
    }
  }

  lemma HeaderShort(n: nat, base: Byte)
    requires base == DATA_START || base == LIST_START
    requires n < 0x1_0000_0000_0000_0000
    ensures |Header(n, base)| <= 9
  {
    Pow256Of8();
    BigEndianLength(n, 8);
  }

  lemma {:induction false} PayloadShort(xs: seq<Item>, b: nat)
    requires forall i | 0 <= i < |xs| :: |Encode(xs[i])| <= b
    ensures |EncodeAll(xs)| <= |xs| * b
  {
    if xs != [] {
      PayloadShort(xs[1..], b);
      assert |xs| * b == (|xs| - 1) * b + b;
    }
  }

  /** A node of at most 17 short items is short. */
  lemma ListShort(xs: seq<Item>)
    requires |xs| <= 17 && forall i | 0 <= i < |xs| :: |Encode(xs[i])| <= SHORT + 10
    ensures |Encode(List(xs))| < LENGTH_LIMIT
  {
    PayloadShort(xs, SHORT + 10);
    assert |xs| * (SHORT + 10) <= 17 * (SHORT + 10);
    HeaderShort(|EncodeAll(xs)|, LIST_START);
  }

  lemma DataShort(d: Bytes)
    requires |d| <= SHORT + 1
    ensures |Encode(Data(d))| <= SHORT + 10
  {
    HeaderShort(|d|, DATA_START);
  }

  lemma RefShort(t: Tree)
    ensures |Encode(RefOf(t))| <= SHORT + 10
  {
    if Hashed(t) { DataShort(Sha3(Node(t))); }
  }

  lemma {:induction false} PackShort(s: Nibbles)
    ensures 2 * |Pack(s)| <= |s| + 1
    decreases |s|
  {
    if |s| >= 2 { PackShort(s[2..]); }
  }

  /** The hex prefix of a key takes half its length and one byte more. */
  lemma PrefixShort(k: Nibbles, leaf: bool)
    requires |k| <= SHORT
    ensures |HexPrefix(k, leaf)| <= SHORT + 1
  {
    PackShort(Lead(leaf, !Even(k)) + k);
  }

  /** The nodes of a trie with short keys and values are short. */
  lemma NodeShort(t: Tree)
    requires Canonical(t) && Modest(t)
    ensures |Node(t)| < LENGTH_LIMIT
  {
    match t
    case Nil => assert Node(t) == Header(0, DATA_START);
    case Leaf(key, value) =>
      assert At(t, key) == value;
      PrefixShort(key, true);
      DataShort(HexPrefix(key, true));
      DataShort(value);
      ListShort([Data(HexPrefix(key, true)), Data(value)]);
    case Ext(key, child) =>
      var k := SomeKey(child);
      AtExt(key, child, k);
      PrefixShort(key, false);
      DataShort(HexPrefix(key, false));
      RefShort(child);
      ListShort([Data(HexPrefix(key, false)), RefOf(child)]);
    case Branch(children, value) =>
      BranchItems(t);
      assert At(t, []) == value;
      DataShort(value);
      forall i | 0 <= i < 17
        ensures |Encode(ItemOf(t).items[i])| <= SHORT + 10
      {
        if i < 16 { RefShort(children[i]); }
      }
      ListShort(ItemOf(t).items);
  }

  /** What is left of a pair after its first n nibbles is short too. */
  lemma RestShort(t: Tree, n: nat)
    requires Canonical(t) && t.TwoItem() && n <= |t.key| && (t.Ext? ==> n < |t.key|)
    ensures Modest(t) ==> |Node(Rest(t, n))| < LENGTH_LIMIT
  {
    if Modest(t) {
      var u := Rest(t, n);
      forall k | At(u, k) != []
        ensures |k| <= SHORT && |At(u, k)| <= SHORT
      {
        assert t.key == t.key[..n] + t.key[n..];
        assert At(t, t.key[..n] + k) == At(u, k) by {
          if t.Leaf? {
            assert k == t.key[n..];
          } else {
            assert t.key[n..] <= k;
            assert (t.key[..n] + k)[|t.key|..] == k[|t.key[n..]|..];
          }
        }
      }
      NodeShort(u);
    }
  }

  /** The trie, the key and the value of an insertion are of sane sizes. */
  ghost predicate Slim(t: Tree, k: Nibbles, v: Bytes) {
    Modest(t) && |k| <= SHORT && |v| <= SHORT
  }

  /** The references an insertion takes at most before it gives any back: two
      for each nibble it goes down, and one to make room at this node. */
  function Takes(t: Tree, k: Nibbles): nat {
    2 * |k| + if t.TwoItem() && !Meets(t, k) then 1 else 0
  }

  /** A branch made of the pair stores what is left of the pair. */
  predicate BranchesOff(t: Tree)
    requires t.TwoItem()
  {
    t.key != [] && (t.Leaf? || |t.key| > 1)
  }

  ghost predicate BranchesShort(t: Tree)
    requires t.TwoItem()
  {
    BranchesOff(t) ==> |Node(Rest(t, 1))| < LENGTH_LIMIT
  }

  /** Neither step of a retry changes what the node says. */
  lemma CleveSlim(t: Tree, n: nat, k: Nibbles, v: Bytes)
    requires Canonical(t) && t.TwoItem() && 0 < n <= |t.key| && (t.Ext? ==> n < |t.key|)
    ensures Slim(t, k, v) ==> Slim(Cleve(t, n), k, v) && |Node(Rest(t, n))| < LENGTH_LIMIT
  {
    RestShort(t, n);
    forall x
      ensures At(Cleve(t, n), x) == At(t, x)
    {
      CleveAt(t, n, x);
    }
  }

  lemma BranchesSlim(t: Tree, k: Nibbles, v: Bytes)
    requires Canonical(t) && t.TwoItem()
    ensures Slim(t, k, v) ==> BranchesShort(t)
  {
    if BranchesOff(t) { RestShort(t, 1); }
  }

  lemma BranchSlim(t: Tree, k: Nibbles, v: Bytes)
    requires t.TwoItem() && (t.Ext? ==> t.key != [])
    ensures Slim(t, k, v) ==> Slim(BranchOf(t), k, v)
  {
    forall x
      ensures At(BranchOf(t), x) == At(t, x)
    {
      BranchOfAt(t, x);
    }
  }

  /** Going down takes two references less. */
  lemma TakesBelow(t: Tree, k: Nibbles, v: Bytes)
    requires t.Ext? && t.key != [] && t.key <= k
    ensures 2 * |k[|t.key|..]| + 2 <= Takes(t, k)
    ensures Slim(t, k, v) ==> Slim(t.child, k[|t.key|..], v)
  {
    if Modest(t) { ModestExt(t); }
  }

  lemma TakesEntry(t: Tree, k: Nibbles, v: Bytes)
    requires t.Branch? && |t.children| == 16 && k != []
    ensures 2 * |k[1..]| + 2 <= Takes(t, k)
    ensures Slim(t, k, v) ==> Slim(t.children[k[0]], k[1..], v)
  {
    if Modest(t) { ModestEntry(t, k[0]); }
  }

  /** A retry takes one reference and then no other of its kind. */
  lemma TakesRetry(t: Tree, k: Nibbles, n: nat)
    requires t.TwoItem() && !Meets(t, k)
    ensures 0 < n <= |t.key| && Meets(Cleve(t, n), k) ==> Takes(Cleve(t, n), k) + 1 <= Takes(t, k)
    ensures (t.Ext? ==> t.key != []) ==> Takes(BranchOf(t), k) + 1 <= Takes(t, k)
  {
  }

  /** Inserting into the pair, once it is divided, is inserting into it. */
  lemma DividedReady(t: Tree, k: Nibbles, v: Bytes, n: nat)
    requires Canonical(t) && t.TwoItem() && !Meets(t, k) && n == Shared(k, t.key) && (t.Ext? ==> n < |t.key|)
    ensures var u := if n > 0 then Cleve(t, n) else BranchOf(t);
      && Shape(t) && Sound(u) && (u.TwoItem() ==> Meets(u, k)) && InFlight(u, k)
      && Put(t, k, v) == Put(u, k, v)
      && (Slim(t, k, v) ==> Slim(u, k, v))
  {
    CanonicalShape(t);
    if n > 0 {
      CleveSlim(t, n, k, v);
      CleveReady(t, k, n);
    } else {
      BranchSlim(t, k, v);
      BranchReady(t);
    }
  }

  /** The node that an insertion leaves is short. */
  lemma PutShort(t: Tree, k: Nibbles, v: Bytes)
    requires Canonical(t) && v != [] && Shape(t)
    ensures Slim(t, k, v) ==> Modest(Put(t, k, v)) && |Node(Put(t, k, v))| < LENGTH_LIMIT
  {
    PutCanonical(t, k, v);
    ModestPut(t, k, v);
    if Slim(t, k, v) { NodeShort(Put(t, k, v)); }
  }

  lemma DelShort(t: Tree, k: Nibbles)
    requires Canonical(t) && Shape(t) && Del(t, k).Removed?
    ensures Modest(t) ==> Modest(Del(t, k).tree) && |Node(Del(t, k).tree)| < LENGTH_LIMIT
  {
    DelCanonical(t, k);
    ModestDel(t, k);
    if Modest(t) { NodeShort(Del(t, k).tree); }
  }
}
