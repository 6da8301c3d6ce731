/** The trie over the node store: lookup, insertion and removal, and what they
    do to the reference counts (libdevcore/TrieDB.h). */
module TrieDb {
  import opened Bytes
  import opened Rlp
  import opened TrieCommon
  import opened Trie
  import opened TrieEdit
  import opened TrieNode
  import opened MemoryDb
  import opened Balance
  import opened TrieFacts
  import opened TrieSize
  import opened TrieRemove
  import V = RlpView

  class TrieDB {
    const db: MemoryDB
    var root: Digest
    /** The tree the root stands for. */
    ghost var tree: Tree
    /** References held by other tries over the same store. */
    ghost var others: multiset<Digest>

    ghost predicate Working()
      reads this, db
    {
      db.Valid() && NoLone(db.main)
    }

    ghost predicate Valid()
      reads this, db
    {
      && Working()
      && Canonical(tree)
      && root == Sha3(Node(tree))
      && Holds(db.main, Node(tree))
      && Stored(db.main, tree)
      && db.live == others + Inner(tree) + multiset{root}
    }

    constructor (db: MemoryDB)
      ensures this.db == db
    {
      this.db := db;
    }

    /** init: an empty trie, its root node stored. */
    method Init() returns (r: Outcome<()>)
      requires Working()
      modifies this, db`main, db`live, db`met
      ensures r.Failed? ==> db.Explains(r.fault, true, |old(db.live)|)
      ensures |old(db.live)| < REFS_LIMIT && NoCollision(db.met) ==> r.Done?
      ensures r.Done? ==> |db.live| == |old(db.live)| + 1
      ensures r.Done? ==> Valid() && tree == Nil && others == old(db.live)
    {
      others := db.live;
      tree := Nil;
      root :- ForceInsert(Data([]), Nil);
      return Done(());
    }

    // ----- Reading nodes -----

    /** node: the item a referred-to hash stands for. */
    method NodeAt(h: Digest, ghost t: Tree) returns (it: Item)
      requires db.Valid() && h == Sha3(Node(t)) && Holds(db.main, Node(t)) && h in db.live
      ensures it == ItemOf(t)
    {
      var bytes := db.Lookup(h);
      FitsWhole(ItemOf(t));
      DecodeEncode(ItemOf(t));
      it := Decode(bytes).value;
    }

    /** The node behind a parent's item: the item itself, or what it hashes. */
    method Deref(ref: Item, ghost t: Tree) returns (it: Item)
      requires db.Valid() && t != Nil && ref == RefOf(t) && StoredRef(db.main, t) && Owned(t) <= db.live
      ensures it == ItemOf(t)
    {
      if ref.List? { return ref; }
      RefIsHash(t);
      it := NodeAt(ref.bytes, t);
    }

    // ----- Writing nodes -----

    /** killNode: drops one reference, unless the node is too short to have any. */
    method KillNode(d: Item, ghost t: Tree) returns (r: Outcome<()>)
      requires Working() && d == ItemOf(t)
      modifies db`main, db`live, db`met
      ensures r.Failed? ==> db.Explains(r.fault, true, 0)
      ensures r.Done? ==> |db.live| <= |old(db.live)|
      ensures r.Done? ==> Working() && Extends(old(db.main), db.main)
      ensures r.Done? ==> db.live == old(db.live) - Self(t)
      ensures r.Done? && LoneItem(d) ==> db.live == old(db.live)
    {
      if |Encode(d)| >= HASHED_FROM {
        ghost var main0 := db.main;
        assert LoneItem(d) ==> LoneBytes(Encode(d));
        var _ :- db.Kill(Sha3(Encode(d)), Encode(d));
        NoLoneAfter(main0, db.main, old(db.live), db.live);
      }
      return Done(());
    }

    /** forceKillNode of a node that is stored. */
    method ForceKill(h: Digest, ghost t: Tree, d: Item) returns (r: Outcome<()>)
      requires Working() && d == ItemOf(t) && h == Sha3(Node(t)) && h in db.live
      modifies db`main, db`live, db`met
      ensures r.Failed? ==> db.Explains(r.fault, true, 0)
      ensures r.Done? ==> |db.live| <= |old(db.live)|
      ensures r.Done? ==> Working() && Extends(old(db.main), db.main)
      ensures r.Done? ==> db.live == old(db.live) - multiset{h}
    {
      ghost var main0 := db.main;
      var _ :- db.Kill(h, Encode(d));
      NoLoneAfter(main0, db.main, old(db.live), db.live);
      return Done(());
    }

    /** forceInsertNode. */
    method ForceInsert(d: Item, ghost t: Tree) returns (r: Outcome<Digest>)
      requires Working() && d == ItemOf(t) && !LoneItem(d)
      modifies db`main, db`live, db`met
      ensures r.Failed? ==> db.Explains(r.fault, |Node(t)| < LENGTH_LIMIT, |old(db.live)|)
      ensures r.Done? ==> |db.live| <= |old(db.live)| + 1
      ensures r.Done? ==> Working() && Extends(old(db.main), db.main)
      ensures r.Done? ==> r.value == Sha3(Node(t)) && Holds(db.main, Node(t))
      ensures r.Done? ==> db.live == old(db.live) + multiset{r.value}
    {
      var v := Encode(d);
      var _ :- db.Insert(Sha3(v), v);
      EncodedNotLone(d);
      forall h | h in db.main && db.main[h].refs > 0 ensures !LoneBytes(db.main[h].value) {
        if h != Sha3(v) { assert old(db.live)[h] == db.live[h]; }
      }
      return Done(Sha3(v));
    }

    /** streamNode: the item by which a parent refers to b, stored if it is long. */
    method StreamNode(b: Item, ghost t: Tree) returns (r: Outcome<Item>)
      requires Working() && b == ItemOf(t) && !LoneItem(b) && Stored(db.main, t)
      modifies db`main, db`live, db`met
      ensures r.Failed? ==> db.Explains(r.fault, |Node(t)| < LENGTH_LIMIT, |old(db.live)|)
      ensures r.Done? ==> |db.live| <= |old(db.live)| + 1
      ensures r.Done? ==> Working() && Extends(old(db.main), db.main)
      ensures r.Done? ==> r.value == RefOf(t) && StoredRef(db.main, t)
      ensures r.Done? ==> db.live == old(db.live) + Self(t)
    {
      if |Encode(b)| < HASHED_FROM { return Done(b); }
      ghost var main0 := db.main;
      var h :- ForceInsert(b, t);
      StoredExtends(main0, db.main, t);
      return Done(Data(h));
    }

    // ----- Inserting -----

    /** place: v at the node itself. */
    method Place(orig: Item, k: Nibbles, v: Bytes, ghost t: Tree) returns (r: Outcome<Item>)
      requires Working() && orig == ItemOf(t) && Shape(t)
      requires t.Nil? || (t.Leaf? && t.key == k) || (t.Branch? && k == [])
      modifies db`main, db`live, db`met
      ensures r.Failed? ==> db.Explains(r.fault, true, 0)
      ensures r.Done? ==> |db.live| <= |old(db.live)|
      ensures r.Done? ==> Working() && Extends(old(db.main), db.main) && r.value == ItemOf(Put(t, k, v))
      ensures r.Done? ==> db.live == old(db.live) - Self(t)
      ensures r.Done? && LoneItem(orig) ==> db.live == old(db.live)
    {
      var _ :- KillNode(orig, t);
      RefEmpty(t);
      if orig.IsEmpty() { return Done(List([Data(HexPrefix(k, true)), Data(v)])); }
      if |orig.items| == 2 { return Done(List([orig.items[0], Data(v)])); }
      BranchItems(t);
      ItemsMakeBranch(Branch(t.children, v), orig.items[..16] + [Data(v)]);
      return Done(List(orig.items[..16] + [Data(v)]));
    }

    /** cleve: the first s nibbles over the rest. */
    method CleveNode(orig: Item, s: nat, ghost t: Tree) returns (r: Outcome<Item>)
      requires Working() && orig == ItemOf(t) && Sound(t) && Stored(db.main, t)
      requires t.TwoItem() && 0 < s <= |t.key| && (t.Ext? ==> s < |t.key|)
      modifies db`main, db`live, db`met
      ensures r.Failed? ==> db.Explains(r.fault, |Node(Rest(t, s))| < LENGTH_LIMIT, |old(db.live)|)
      ensures r.Done? ==> |db.live| <= |old(db.live)| + 1
      ensures r.Done? ==> Working() && Extends(old(db.main), db.main)
      ensures r.Done? ==> r.value == ItemOf(Cleve(t, s)) && Stored(db.main, Cleve(t, s))
      ensures r.Done? ==> db.live == old(db.live) - Self(t) + Self(Rest(t, s))
    {
      ghost var main0 := db.main;
      var _ :- KillNode(orig, t);
      StoredExtends(main0, db.main, t);
      PairItems(t);
      var k, leaf := KeyOf(orig.items[0].bytes), LeafBit(orig.items[0].bytes);
      var bottom := List([Data(HexPrefix(k[s..], leaf)), orig.items[1]]);
      CanonicalNotLone(Rest(t, s));
      var x :- StreamNode(bottom, Rest(t, s));
      return Done(List([Data(HexPrefix(k[..s], false)), x]));
    }

    /** branch: the pair as the only entry of a branch. */
    method BranchNode(orig: Item, ghost t: Tree) returns (r: Outcome<Item>)
      requires Working() && orig == ItemOf(t) && Sound(t) && Stored(db.main, t) && t.TwoItem()
      modifies db`main, db`live, db`met
      ensures r.Failed? ==> db.Explains(r.fault, BranchesShort(t), |old(db.live)|)
      ensures r.Done? ==> |db.live| <= |old(db.live)| + 1
      ensures r.Done? ==> Working() && Extends(old(db.main), db.main)
      ensures r.Done? ==> r.value == ItemOf(BranchOf(t)) && Stored(db.main, BranchOf(t))
      ensures r.Done? ==> db.live == old(db.live) - Self(t) + Fresh(t)
    {
      ghost var main0 := db.main;
      var _ :- KillNode(orig, t);
      StoredExtends(main0, db.main, t);
      PairItems(t);
      RefEmpty(Nil);
      var k, leaf := KeyOf(orig.items[0].bytes), LeafBit(orig.items[0].bytes);
      var none := seq(16, _ => Data([]));
      BranchOfItem(t);
      if |k| == 0 {
        BranchOfStored(db.main, t);
        return Done(List(none + [orig.items[1]]));
      }
      var x := orig.items[1];
      if leaf || |k| > 1 {
        CanonicalNotLone(Rest(t, 1));
        x :- StreamNode(List([Data(HexPrefix(k[1..], leaf)), orig.items[1]]), Rest(t, 1));
      }
      BranchOfStored(db.main, t);
      return Done(List(none[k[0] as int := x] + [Data([])]));
    }

    /** mergeAt: the node for t with v under k.  Releases what the caller gave
        and holds what is inside the result; the result is the caller's to store. */
    method MergeAt(orig: Item, k: Nibbles, v: Bytes, inLine: bool, ghost t: Tree) returns (r: Outcome<Item>)
      requires Working() && orig == ItemOf(t) && v != []
      requires Sound(t) && (t.TwoItem() && !Meets(t, k) ==> Canonical(t)) && Stored(db.main, t)
      requires inLine && Hashed(t) ==> InFlight(t, k)
      requires Given(t, inLine) <= db.live
      modifies db`main, db`live, db`met
      ensures r.Failed? ==> db.Explains(r.fault, Slim(t, k, v), |old(db.live)| + Takes(t, k))
      ensures r.Done? ==> |db.live| <= |old(db.live)| + Takes(t, k)
      ensures r.Done? ==> Working() && Extends(old(db.main), db.main)
      ensures r.Done? ==> r.value == ItemOf(Put(t, k, v)) && Stored(db.main, Put(t, k, v))
      ensures r.Done? ==> db.live + Given(t, inLine) == old(db.live) + Inner(Put(t, k, v))
      decreases |k|, if t.TwoItem() && !Meets(t, k) then 1 else 0, 1
    {
      ghost var main0, live0 := db.main, db.live;
      RefEmpty(t);
      if orig.IsEmpty() {
        r := Place(orig, k, v, t);
      } else if |orig.items| == 2 {
        PairItems(t);
        var key, leaf := KeyOf(orig.items[0].bytes), LeafBit(orig.items[0].bytes);
        if key == k && leaf {
          r := Place(orig, k, v, t);
          Placed(t, inLine, live0);
        } else if key <= k && !leaf {
          r := MergeBelow(orig, key, k, v, inLine, t);
        } else {
          NotMeeting(t, k, inLine);
          r := MergeRetry(orig, key, k, v, t);
        }
      } else if |k| == 0 {
        BranchItems(t);
        r := Place(orig, k, v, t);
        StoredExtendsIf(r.Done?, main0, db.main, t);
        Placed(t, inLine, live0);
      } else {
        r := MergeEntry(orig, k, v, inLine, t);
      }
    }

    /** The part of mergeAt where an extension's key starts k. */
    method MergeBelow(orig: Item, key: Nibbles, k: Nibbles, v: Bytes, inLine: bool, ghost t: Tree)
      returns (r: Outcome<Item>)
      requires Working() && orig == ItemOf(t) && v != []
      requires Sound(t) && t.Ext? && t.key == key && key <= k && Stored(db.main, t)
      requires Given(t, inLine) <= db.live
      modifies db`main, db`live, db`met
      ensures r.Failed? ==> db.Explains(r.fault, Slim(t, k, v), |old(db.live)| + Takes(t, k))
      ensures r.Done? ==> |db.live| <= |old(db.live)| + Takes(t, k)
      ensures r.Done? ==> Working() && Extends(old(db.main), db.main)
      ensures r.Done? ==> r.value == ItemOf(Put(t, k, v)) && Stored(db.main, Put(t, k, v))
      ensures r.Done? ==> db.live + Given(t, inLine) == old(db.live) + Inner(Put(t, k, v))
      decreases |k|, 0, 0
    {
      ghost var main0, live0 := db.main, db.live;
      if !inLine { var _ :- KillNode(orig, t); }
      Killed(t, inLine, live0);
      TakesBelow(t, k, v);
      StoredExtends(main0, db.main, t);
      assert StoredRef(db.main, t.child) && Inner(t) == Owned(t.child) && Sound(t) && Canonical(t.child);
      assert orig.List? && |orig.items| == 2 && orig.items[1] == RefOf(t.child);
      hide Slim, Takes, Node, Put, Inner, Stored, ItemOf, Sound, Canonical, MemoryDB.Valid;
      ghost var live1 := db.live;
      var x :- MergeAtAux(orig.items[1], k[|key|..], v, t.child);
      BelowPut(t, k, v, orig.items, x, db.main);
      Chain(live0, live1, db.live, Given(t, inLine), Inner(t), Inner(Put(t, k, v)));
      return Done(List([orig.items[0], x]));
    }

    /** The part of mergeAt where k leaves a pair's key: cleave or branch, then
        try again. */
    method MergeRetry(orig: Item, key: Nibbles, k: Nibbles, v: Bytes, ghost t: Tree) returns (r: Outcome<Item>)
      requires Working() && orig == ItemOf(t) && v != []
      requires Canonical(t) && t.TwoItem() && t.key == key && !Meets(t, k) && Stored(db.main, t)
      requires t.Ext? ==> Shared(k, key) < |key|
      requires Owned(t) <= db.live
      modifies db`main, db`live, db`met
      ensures r.Failed? ==> db.Explains(r.fault, Slim(t, k, v), |old(db.live)| + Takes(t, k))
      ensures r.Done? ==> |db.live| <= |old(db.live)| + Takes(t, k)
      ensures Shape(t)
      ensures r.Done? ==> Working() && Extends(old(db.main), db.main)
      ensures r.Done? ==> r.value == ItemOf(Put(t, k, v)) && Stored(db.main, Put(t, k, v))
      ensures r.Done? ==> db.live + Owned(t) == old(db.live) + Inner(Put(t, k, v))
      decreases |k|, 1, 0
    {
      var sh := Shared(k, key);
      ghost var mid, live0 := if sh > 0 then Cleve(t, sh) else BranchOf(t), db.live;
      DividedReady(t, k, v, sh);
      hide Slim, Takes, Put, Cleve, BranchOf, Canonical, Shape, Sound, Node, ItemOf, Stored, Inner, MemoryDB.Valid;
      var node :- Divide(orig, k, v, sh, t, mid);
      ghost var live1 := db.live;
      r := MergeAt(node, k, v, true, mid);
      if r.Done? { Chain(live0, live1, db.live, Owned(t), Inner(mid), Inner(Put(t, k, v))); }
    }

    /** The pair cleft where k leaves its key, or made the entry of a branch. */
    method Divide(orig: Item, k: Nibbles, v: Bytes, sh: nat, ghost t: Tree, ghost mid: Tree) returns (r: Outcome<Item>)
      requires Working() && orig == ItemOf(t)
      requires Canonical(t) && t.TwoItem() && !Meets(t, k) && Stored(db.main, t) && Owned(t) <= db.live
      requires sh == Shared(k, t.key) && (t.Ext? ==> sh < |t.key|)
      requires mid == if sh > 0 then Cleve(t, sh) else BranchOf(t)
      modifies db`main, db`live, db`met
      ensures r.Failed? ==> db.Explains(r.fault, Slim(t, k, v), |old(db.live)| + Takes(t, k))
      ensures r.Done? ==> |db.live| + Takes(mid, k) <= |old(db.live)| + Takes(t, k)
      ensures r.Done? ==> Working() && Extends(old(db.main), db.main)
      ensures r.Done? ==> r.value == ItemOf(mid) && Stored(db.main, mid)
      ensures r.Done? ==> Inner(mid) <= db.live && db.live + Owned(t) == old(db.live) + Inner(mid)
    {
      ghost var live0 := db.live;
      CanonicalSound(t);
      TakesRetry(t, k, sh);
      if sh > 0 {
        CleveSlim(t, sh, k, v);
        CleveReady(t, k, sh);
        r := CleveNode(orig, sh, t);
        Swap(live0, Inner(t), Self(t), Self(Rest(t, sh)));
      } else {
        BranchesSlim(t, k, v);
        BranchReady(t);
        r := BranchNode(orig, t);
        Swap(live0, Inner(t), Self(t), Fresh(t));
      }
    }

    /** The part of mergeAt that goes down one entry of a branch. */
    method MergeEntry(orig: Item, k: Nibbles, v: Bytes, inLine: bool, ghost t: Tree) returns (r: Outcome<Item>)
      requires Working() && orig == ItemOf(t) && v != [] && k != []
      requires Sound(t) && t.Branch? && Stored(db.main, t)
      requires Given(t, inLine) <= db.live
      modifies db`main, db`live, db`met
      ensures r.Failed? ==> db.Explains(r.fault, Slim(t, k, v), |old(db.live)| + Takes(t, k))
      ensures r.Done? ==> |db.live| <= |old(db.live)| + Takes(t, k)
      ensures r.Done? ==> Working() && Extends(old(db.main), db.main)
      ensures r.Done? ==> r.value == ItemOf(Put(t, k, v)) && Stored(db.main, Put(t, k, v))
      ensures r.Done? ==> db.live + Given(t, inLine) == old(db.live) + Inner(Put(t, k, v))
      decreases |k|, 0, 0
    {
      ghost var main0, live0 := db.main, db.live;
      BranchItems(t);
      TakesEntry(t, k, v);
      hide Slim, Takes;
      if !inLine { var _ :- KillNode(orig, t); }
      Killed(t, inLine, live0);
      StoredExtends(main0, db.main, t);
      var n := k[0] as int;
      OwnedAllElement(t.children, n);
      ghost var main1, live1 := db.main, db.live;
      var x :- MergeAtAux(orig.items[n], k[1..], v, t.children[n]);
      ghost var c := Put(t.children[n], k[1..], v);
      EntryChanged(t, n, c, Given(t, inLine), live0, live1, db.live);
      StoredSetChild(main1, db.main, t, n, c);
      EntryItem(t, orig.items, n, x, c);
      return Done(List(orig.items[n := x]));
    }

    /** mergeAtAux: the item for what replaces the node that orig refers to. */
    method MergeAtAux(orig: Item, k: Nibbles, v: Bytes, ghost t: Tree) returns (r: Outcome<Item>)
      requires Working() && orig == RefOf(t) && v != []
      requires Canonical(t) && StoredRef(db.main, t) && Owned(t) <= db.live
      modifies db`main, db`live, db`met
      ensures r.Failed? ==> db.Explains(r.fault, Slim(t, k, v), |old(db.live)| + 2 * |k| + 2)
      ensures r.Done? ==> |db.live| <= |old(db.live)| + 2 * |k| + 2
      ensures r.Done? ==> Working() && Extends(old(db.main), db.main)
      ensures Sound(t)
      ensures r.Done? ==> r.value == RefOf(Put(t, k, v)) && StoredRef(db.main, Put(t, k, v))
      ensures r.Done? ==> db.live + Owned(t) == old(db.live) + Owned(Put(t, k, v))
      decreases |k|, 2
    {
      CanonicalSound(t);
      RefEmpty(t);
      var node, isRemovable := orig, false;
      if !orig.List? && !orig.IsEmpty() {
        RefIsHash(t);
        node := NodeAt(orig.bytes, t);
        isRemovable := true;
      }
      assert Given(t, !isRemovable) == Owned(t);
      ghost var live0 := db.live;
      var b :- MergeAt(node, k, v, !isRemovable, t);
      Both(live0, db.live, Owned(t), Inner(Put(t, k, v)), Self(Put(t, k, v)));
      PutCanonical(t, k, v);
      CanonicalNotLone(Put(t, k, v));
      PutShort(t, k, v);
      r := StreamNode(b, Put(t, k, v));
    }

    /** insert. */
    method Insert(key: Bytes, value: Bytes) returns (r: Outcome<()>)
      requires Valid() && value != []
      modifies this`root, this`tree, db`main, db`live, db`met
      ensures NoCollision(db.met) && RoomToInsert(old(tree), |old(db.live)|, key, value) ==> r.Done?
      ensures r.Done? ==> |db.live| <= |old(db.live)| + 2 * |NibblesOf(key)| + 2
      ensures r.Done? ==> Valid() && others == old(others)
      ensures Shape(old(tree))
      ensures r.Done? ==> tree == Put(old(tree), NibblesOf(key), value)
      ensures r.Done? ==> forall x :: At(tree, x) == if x == NibblesOf(key) then value else At(old(tree), x)
    {
      ghost var t, k, refs := tree, NibblesOf(key), |db.live| + Takes(tree, NibblesOf(key));
      PutFacts(t, k, value);
      hide NoCollision, Put, At, Slim, Takes, Canonical, MemoryDB.Valid, MemoryDB.Explains, NoLone;
      r := MergeRoot(key, value, Put(t, k, value), refs);
      if r.Failed? { db.NoCause(r.fault, Slim(t, k, value), refs); }
    }

    /** The root's item. */
    method RootItem() returns (it: Item)
      requires Valid()
      ensures it == ItemOf(tree)
    {
      RootGiven(tree, root, others, db.live);
      it := NodeAt(root, tree);
    }

    /** The rest of insert, u being what the trie is to become. */
    method MergeRoot(key: Bytes, value: Bytes, ghost u: Tree, ghost refs: nat) returns (r: Outcome<()>)
      requires Valid() && value != [] && Puts(tree, NibblesOf(key), value, u) && Canonical(u)
      requires Slim(tree, NibblesOf(key), value) ==> |Node(u)| < LENGTH_LIMIT
      requires refs == |db.live| + Takes(tree, NibblesOf(key))
      modifies this`root, this`tree, db`main, db`live, db`met
      ensures r.Failed? ==> db.Explains(r.fault, Slim(old(tree), NibblesOf(key), value), refs)
      ensures r.Done? ==> |db.live| <= refs + 1
      ensures r.Done? ==> Valid() && others == old(others) && tree == u
    {
      hide Slim, Takes, Puts, Canonical, MemoryDB.Explains, Valid, Working;
      hide Stored, Inner, Hashed, Node, ItemOf, Balanced, NibblesOf;
      ghost var short := Slim(tree, NibblesOf(key), value);
      var rootNode := RootItem();
      var b :- MergeAtRoot(rootNode, key, value, u, refs);
      r := ReplaceRoot(rootNode, b, u, short, refs);
    }

    /** mergeAt at the root: its reference is left to be given up if the old
        root was short. */
    method MergeAtRoot(rootNode: Item, key: Bytes, value: Bytes, ghost u: Tree, ghost refs: nat)
      returns (r: Outcome<Item>)
      requires Valid() && value != [] && rootNode == ItemOf(tree) && Puts(tree, NibblesOf(key), value, u)
      requires refs == |db.live| + Takes(tree, NibblesOf(key))
      modifies db`main, db`live, db`met
      ensures r.Failed? ==> db.Explains(r.fault, Slim(tree, NibblesOf(key), value), refs)
      ensures r.Done? ==> |db.live| <= refs && Working() && root == Sha3(Node(tree))
      ensures r.Done? ==> r.value == ItemOf(u) && Stored(db.main, u) && Balanced(db.live, others, tree, u, root)
    {
      ghost var k, t, live0 := NibblesOf(key), tree, db.live;
      CanonicalSound(t);
      RootGiven(t, root, others, db.live);
      hide Slim, Takes, Put, At, Shape, Sound, Canonical, MemoryDB.Explains, MemoryDB.Valid, NoLone;
      hide Stored, Inner, Hashed, Node;
      r := MergeAt(rootNode, NibblesOf(key), value, false, tree);
      if r.Done? { RootReleased(t, u, root, others, live0, db.live); }
    }

    /** The new root; the old one is stored by hash even when it is short, and
        then has its reference dropped here. */
    method ReplaceRoot(rootNode: Item, b: Item, ghost u: Tree, ghost short: bool, ghost refs: nat)
      returns (r: Outcome<()>)
      requires Working() && rootNode == ItemOf(tree) && root == Sha3(Node(tree))
      requires b == ItemOf(u) && Canonical(u) && Stored(db.main, u)
      requires Balanced(db.live, others, tree, u, root)
      requires (short ==> |Node(u)| < LENGTH_LIMIT) && |db.live| <= refs
      modifies this`root, this`tree, db`main, db`live, db`met
      ensures r.Failed? ==> db.Explains(r.fault, short, refs)
      ensures r.Done? ==> |db.live| <= refs + 1
      ensures r.Done? ==> Valid() && others == old(others) && tree == u
    {
      hide Canonical, Stored, Inner, Hashed, Node, ItemOf, MemoryDB.Explains, MemoryDB.Valid, NoLone;
      var _ :- DropShortRoot(rootNode, u, short, refs);
      var h :- StoreRoot(b, u, short, refs);
      root, tree := h, u;
      return Done(());
    }

    method StoreRoot(b: Item, ghost u: Tree, ghost short: bool, ghost refs: nat) returns (r: Outcome<Digest>)
      requires Working() && b == ItemOf(u) && Canonical(u) && Stored(db.main, u)
      requires (short ==> |Node(u)| < LENGTH_LIMIT) && |db.live| <= refs
      modifies db`main, db`live, db`met
      ensures r.Failed? ==> db.Explains(r.fault, short, refs)
      ensures r.Done? ==> |db.live| <= refs + 1 && Working() && Stored(db.main, u)
      ensures r.Done? ==> r.value == Sha3(Node(u)) && Holds(db.main, Node(u))
      ensures r.Done? ==> db.live == old(db.live) + multiset{r.value}
    {
      CanonicalNotLone(u);
      hide Canonical, Stored, Node, ItemOf, LoneItem, MemoryDB.Valid, NoLone;
      ghost var main0 := db.main;
      r := ForceInsert(b, u);
      if r.Done? { StoredExtends(main0, db.main, u); }
    }

    method DropShortRoot(rootNode: Item, ghost u: Tree, ghost short: bool, ghost refs: nat) returns (r: Outcome<()>)
      requires Working() && rootNode == ItemOf(tree) && root == Sha3(Node(tree)) && Stored(db.main, u)
      requires Balanced(db.live, others, tree, u, root)
      modifies db`main, db`live, db`met
      ensures r.Failed? ==> db.Explains(r.fault, short, refs)
      ensures r.Done? ==> |db.live| <= |old(db.live)|
      ensures r.Done? ==> Working() && Stored(db.main, u) && db.live == others + Inner(u)
    {
      if |Encode(rootNode)| >= HASHED_FROM { return Done(()); }
      ghost var main0, live0 := db.main, db.live;
      var _ :- ForceKill(root, tree, rootNode);
      StoredExtends(main0, db.main, u);
      DropLast(others + Inner(u), root);
      return Done(());
    }

    // ----- Looking up -----

    method Get(key: Bytes) returns (v: Bytes)
      requires Valid()
      ensures v == At(tree, NibblesOf(key))
    {
      CanonicalShape(tree);
      var rootNode := NodeAt(root, tree);
      v := AtAux(rootNode, NibblesOf(key), tree);
    }

    method AtAux(here: Item, key: Nibbles, ghost t: Tree) returns (v: Bytes)
      requires db.Valid() && here == ItemOf(t) && Canonical(t) && Stored(db.main, t) && Inner(t) <= db.live
      ensures v == At(t, key)
      decreases t
    {
      RefEmpty(t);
      if here.IsEmpty() { return []; }
      if |here.items| == 2 {
        PairItems(t);
        var k, leaf := KeyOf(here.items[0].bytes), LeafBit(here.items[0].bytes);
        if key == k && leaf {
          v := here.items[1].bytes;
        } else if k <= key && !leaf {
          var n := Deref(here.items[1], t.child);
          v := AtAux(n, key[|k|..], t.child);
        } else {
          v := [];
        }
      } else {
        BranchItems(t);
        if |key| == 0 { return here.items[16].bytes; }
        var n := here.items[key[0]];
        RefEmpty(t.children[key[0]]);
        if n.IsEmpty() { return []; }
        OwnedAllElement(t.children, key[0] as int);
        var below := Deref(n, t.children[key[0]]);
        v := AtAux(below, key[1..], t.children[key[0]]);
      }
    }

    // ----- Removing -----

    /** isTwoItemNode: a pair, inlined or behind a hash. */
    method IsTwoItemNode(n: Item, ghost c: Tree) returns (b: bool)
      requires db.Valid() && c != Nil && Canonical(c) && n == RefOf(c) && StoredRef(db.main, c) && Owned(c) <= db.live
      ensures b <==> c.TwoItem()
    {
      var node := Deref(n, c);
      b := node.List? && |node.items| == 2;
      if c.Branch? { BranchItems(c); } else { PairItems(c); }
    }

    /** graft: the pair (key, ref) and the pair it leads to, as one. */
    method GraftNode(key: Nibbles, ref: Item, ghost c: Tree) returns (r: Outcome<Item>)
      requires Working() && c.TwoItem() && ref == RefOf(c) && StoredRef(db.main, c) && Owned(c) <= db.live
      modifies db`main, db`live, db`met
      ensures r.Failed? ==> db.Explains(r.fault, true, 0)
      ensures r.Done? ==> |db.live| <= |old(db.live)|
      ensures r.Done? ==> Working() && Extends(old(db.main), db.main)
      ensures r.Done? ==> r.value == ItemOf(Graft(key, c)) && Stored(db.main, Graft(key, c))
      ensures r.Done? ==> db.live == old(db.live) - Self(c)
    {
      ghost var main0 := db.main;
      PairItems(c);
      var n := ref;
      if !ref.List? {
        RefIsHash(c);
        n := NodeAt(ref.bytes, c);
        var _ :- ForceKill(ref.bytes, c, n);
      }
      StoredExtends(main0, db.main, c);
      return Done(List([Data(HexPrefix(key + KeyOf(n.items[0].bytes), LeafBit(n.items[0].bytes))), n.items[1]]));
    }

    /** The pair (key, ref), grafted if what it leads to is a pair. */
    method HangNode(key: Nibbles, ref: Item, ghost c: Tree) returns (r: Outcome<Item>)
      requires Working() && c != Nil && Canonical(c) && ref == RefOf(c) && StoredRef(db.main, c) && Owned(c) <= db.live
      modifies db`main, db`live, db`met
      ensures r.Failed? ==> db.Explains(r.fault, true, 0)
      ensures r.Done? ==> |db.live| <= |old(db.live)|
      ensures r.Done? ==> Working() && Extends(old(db.main), db.main)
      ensures r.Done? ==> r.value == ItemOf(Hang(key, c)) && Stored(db.main, Hang(key, c))
      ensures r.Done? ==> db.live + Owned(c) == old(db.live) + Inner(Hang(key, c))
    {
      var two := IsTwoItemNode(ref, c);
      if two {
        ghost var live0 := db.live;
        r := GraftNode(key, ref, c);
        Room(live0, Inner(c), Self(c));
      } else {
        r := Done(List([Data(HexPrefix(key, false)), ref]));
      }
    }

    /** What a failed removal reports: that it went astray, a fault of the
        store, or a value taken for a reference. */
    ghost predicate Reports(f: Fault, t: Tree, k: Nibbles, short: bool, refs: nat)
      requires Shape(t)
      reads this, db
    {
      || (f.Astray? && Del(t, k).Stray?)
      || db.Explains(f, short, refs)
      || db.Misread(f, Exposed(t, k))
    }

    /** deleteAt on k in t, begun with this table and these references: it goes
        astray exactly where Del does, and has then changed nothing; it says
        that k is absent and has then changed nothing; or it has removed k. */
    ghost predicate Deletes(r: Outcome<Deletion>, t: Tree, k: Nibbles, main0: Table, live0: Refs, refs: nat)
      requires Shape(t)
      reads this, db
    {
      && (Del(t, k).Stray? ==> r == Failed(Astray) && Working() && db.main == main0 && db.live == live0)
      && (r.Failed? ==> Reports(r.fault, t, k, Modest(t), refs))
      && (r.Done? ==> |db.live| <= refs && Working() && Extends(main0, db.main) && |Exposed(t, k)| <= 32)
      && (r.Done? ==> if r.value.Replaced? then Del(t, k).Removed?
                      else Del(t, k).Absent? && db.main == main0 && db.live == live0)
    }

    /** The node that is left, for its parent to store: its own reference is
        not counted, those inside it are. */
    ghost predicate YieldsNode(r: Outcome<Deletion>, t: Tree, k: Nibbles, live0: Refs)
      requires Shape(t)
      reads this, db
    {
      r.Done? && r.value.Replaced? && Del(t, k).Removed? ==>
        var u := Del(t, k).tree;
        r.value.item == ItemOf(u) && Stored(db.main, u) && db.live + Owned(t) == live0 + Inner(u)
    }

    /** A reference to it, once it is stored. */
    ghost predicate YieldsRef(r: Outcome<Deletion>, t: Tree, k: Nibbles, live0: Refs)
      requires Shape(t)
      reads this, db
    {
      r.Done? && r.value.Replaced? && Del(t, k).Removed? ==>
        var u := Del(t, k).tree;
        r.value.item == RefOf(u) && StoredRef(db.main, u) && db.live + Owned(t) == live0 + Owned(u)
    }

    /** What did not replace the subtree c below t is the result for t too. */
    lemma NotReplaced(r: Outcome<Deletion>, c: Tree, q: Nibbles, t: Tree, k: Nibbles,
                      main0: Table, live0: Refs, less: nat, refs: nat)
      requires Inherits(c, q, t, k) && less <= refs
      requires Deletes(r, c, q, main0, live0, less) && !(r.Done? && r.value.Replaced?)
      ensures Deletes(r, t, k, main0, live0, refs) && YieldsNode(r, t, k, live0) && YieldsRef(r, t, k, live0)
    {
    }

    lemma NodeReplaced(r: Outcome<Deletion>, t: Tree, k: Nibbles, main0: Table, live0: Refs, refs: nat)
      requires Shape(t) && Deletes(r, t, k, main0, live0, refs) && YieldsNode(r, t, k, live0)
      requires r.Done? && r.value.Replaced?
      ensures Del(t, k).Removed? && Working() && |db.live| <= refs && Extends(main0, db.main) && |Exposed(t, k)| <= 32
      ensures var u := Del(t, k).tree;
        r.value.item == ItemOf(u) && Stored(db.main, u) && db.live + Owned(t) == live0 + Inner(u)
    {
    }

    lemma RefReplaced(r: Outcome<Deletion>, c: Tree, q: Nibbles, main0: Table, live0: Refs, refs: nat)
      requires Shape(c) && Deletes(r, c, q, main0, live0, refs) && YieldsRef(r, c, q, live0)
      requires r.Done? && r.value.Replaced?
      ensures Del(c, q).Removed? && Working() && |db.live| <= refs && Extends(main0, db.main) && |Exposed(c, q)| <= 32
      ensures var u := Del(c, q).tree;
        r.value.item == RefOf(u) && StoredRef(db.main, u) && db.live + Owned(c) == live0 + Owned(u)
    {
    }

    lemma FailedHere(f: Fault, bare: Bytes, t: Tree, k: Nibbles, main0: Table, live0: Refs, refs: nat)
      requires Shape(t) && Del(t, k).Removed?
      requires db.Explains(f, Modest(t), refs) || db.Explains(f, true, 0) || db.Misread(f, bare)
      requires bare != [] ==> Exposed(t, k) == bare
      ensures Deletes(Failed(f), t, k, main0, live0, refs)
    {
    }

    lemma ReplacedHere(it: Item, t: Tree, k: Nibbles, main0: Table, live0: Refs, refs: nat)
      requires Shape(t) && Del(t, k).Removed? && |Exposed(t, k)| <= 32
      requires Working() && Extends(main0, db.main) && |db.live| <= refs
      ensures Deletes(Done(Replaced(it)), t, k, main0, live0, refs)
    {
    }

    lemma FoundNothing(t: Tree, k: Nibbles, refs: nat)
      requires Shape(t) && Del(t, k).Absent? && Exposed(t, k) == [] && Working() && |db.live| <= refs
      ensures Deletes(Done(Unchanged), t, k, db.main, db.live, refs)
      ensures YieldsRef(Done(Unchanged), t, k, db.live)
    {
    }

    lemma WentAstray(t: Tree, k: Nibbles, refs: nat)
      requires Shape(t) && Del(t, k).Stray? && Working()
      ensures Deletes(Failed(Astray), t, k, db.main, db.live, refs)
    {
    }

    /** deleteAt: the node for t without k, or nothing if k is not there. */
    method DeleteAt(orig: Item, k: Nibbles, ghost t: Tree) returns (r: Outcome<Deletion>)
      requires Working() && orig == ItemOf(t) && Canonical(t) && Stored(db.main, t) && Owned(t) <= db.live
      requires Shape(t)
      modifies db`main, db`live, db`met
      ensures Deletes(r, t, k, old(db.main), old(db.live), |old(db.live)| + |k|)
      ensures YieldsNode(r, t, k, old(db.live))
      decreases |k|, 0, 2
    {
      CanonicalShape(t);
      RefEmpty(t);
      ghost var refs := |db.live| + |k|;
      hide Deletes;
      if orig.IsEmpty() {
        FoundNothing(t, k, refs);
        return Done(Unchanged);
      }
      if t.Branch? { BranchItems(t); } else { PairItems(t); }
      hide Del, Exposed, Canonical, Stored, Inner, Owned, YieldsNode, MemoryDB.Valid, NoLone;
      if |orig.items| == 2 { r := DeletePair(orig, k, t); } else { r := DeleteBranch(orig, k, t); }
    }

    method DeletePair(orig: Item, k: Nibbles, ghost t: Tree) returns (r: Outcome<Deletion>)
      requires Working() && orig == ItemOf(t) && Canonical(t) && Stored(db.main, t) && Owned(t) <= db.live
      requires t.TwoItem() && Shape(t)
      modifies db`main, db`live, db`met
      ensures Deletes(r, t, k, old(db.main), old(db.live), |old(db.live)| + |k|)
      ensures YieldsNode(r, t, k, old(db.live))
      decreases |k|, 0, 1
    {
      PairItems(t);
      var key, leaf := KeyOf(orig.items[0].bytes), LeafBit(orig.items[0].bytes);
      hide Deletes, Canonical, Stored, Inner, Owned, ItemOf, MemoryDB.Valid, NoLone;
      if key == k && leaf {
        r := DeleteLeaf(orig, k, t);
      } else if !(key <= k) {
        FoundNothing(t, k, |db.live| + |k|);
        return Done(Unchanged);
      } else if leaf {
        WentAstray(t, k, |db.live| + |k|);
        return Failed(Astray);  // the value would be taken for a node
      } else {
        r := DeleteBelow(orig, key, k, t);
      }
    }

    method DeleteBranch(orig: Item, k: Nibbles, ghost t: Tree) returns (r: Outcome<Deletion>)
      requires Working() && orig == ItemOf(t) && Canonical(t) && Stored(db.main, t) && Owned(t) <= db.live
      requires t.Branch? && Shape(t)
      modifies db`main, db`live, db`met
      ensures Deletes(r, t, k, old(db.main), old(db.live), |old(db.live)| + |k|)
      ensures YieldsNode(r, t, k, old(db.live))
      decreases |k|, 0, 1
    {
      BranchItems(t);
      hide Deletes, Canonical, Stored, Inner, Owned, ItemOf, MemoryDB.Valid, NoLone;
      if |k| > 0 {
        r := DeleteEntry(orig, k, t);
      } else if orig.items[16].IsEmpty() {
        WentAstray(t, k, |db.live|);
        return Failed(Astray);  // the key has no nibble left to go down by
      } else {
        r := DeleteValue(orig, t);
      }
    }

    /** The part of deleteAt at the leaf itself. */
    method DeleteLeaf(orig: Item, k: Nibbles, ghost t: Tree) returns (r: Outcome<Deletion>)
      requires Working() && orig == ItemOf(t) && t.Leaf? && t.key == k && Owned(t) <= db.live
      modifies db`main, db`live, db`met
      ensures Deletes(r, t, k, old(db.main), old(db.live), |old(db.live)| + |k|)
      ensures YieldsNode(r, t, k, old(db.live))
    {
      ghost var live0, main0, refs := db.live, db.main, |db.live| + |k|;
      hide Deletes;
      var z := KillNode(orig, t);
      if z.Failed? {
        FailedHere(z.fault, [], t, k, main0, live0, refs);
        return Failed(z.fault);
      }
      Room(live0, Inner(t), Self(t));
      ReplacedHere(Data([]), t, k, main0, live0, refs);
      return Done(Replaced(Data([])));
    }

    /** The part of deleteAt below an extension. */
    method DeleteBelow(orig: Item, key: Nibbles, k: Nibbles, ghost t: Tree) returns (r: Outcome<Deletion>)
      requires Working() && orig == ItemOf(t) && Canonical(t) && Stored(db.main, t) && Owned(t) <= db.live
      requires t.Ext? && t.key == key && key <= k
      requires Shape(t)
      modifies db`main, db`live, db`met
      ensures Deletes(r, t, k, old(db.main), old(db.live), |old(db.live)| + |k|)
      ensures YieldsNode(r, t, k, old(db.live))
      decreases |k|, 0, 0
    {
      hide Del, Exposed, Modest, Canonical, Shape, Stored, StoredRef, Inner, Owned, ItemOf, Hang;
      hide Deletes, YieldsRef, YieldsNode, Inherits, Working, MemoryDB.Valid, MemoryDB.Explains, MemoryDB.Misread;
      ghost var main0, live0, refs := db.main, db.live, |db.live| + |k|;
      ExtToDelete(t, k);
      ExtInherits(t, k);
      PairItems(t);
      ghost var child, q := t.child, k[|t.key|..];
      StoredBelow(db.main, t, child);
      r := DeleteAtAux(orig.items[1], k[|key|..], child);
      if r.Done? && r.value.Replaced? {
        r := FinishBelow(orig, key, k, r.value.item, r, t, main0, live0);
      } else {
        NotReplaced(r, child, q, t, k, main0, live0, |live0| + |q| + 1, refs);
      }
    }

    /** The rest of it, x being what came back for the child. */
    method FinishBelow(orig: Item, key: Nibbles, ghost k: Nibbles, x: Item, ghost r0: Outcome<Deletion>, ghost t: Tree,
                       ghost main0: Table, ghost live0: Refs)
      returns (r: Outcome<Deletion>)
      requires orig == ItemOf(t) && Canonical(t) && t.Ext? && t.key == key && key <= k && Owned(t) <= live0
      requires Shape(t) && Shape(t.child) && r0 == Done(Replaced(x))
      requires Deletes(r0, t.child, k[|key|..], main0, live0, |live0| + |k[|key|..]| + 1)
      requires YieldsRef(r0, t.child, k[|key|..], live0)
      modifies db`main, db`live, db`met
      ensures Deletes(r, t, k, main0, live0, |live0| + |k|) && YieldsNode(r, t, k, live0)
    {
      ghost var q := k[|key|..];
      ExtToDelete(t, k);
      RefReplaced(r0, t.child, q, main0, live0, |live0| + |q| + 1);
      ghost var c, refs := Del(t.child, q).tree, |live0| + |k|;
      hide Del, Exposed, Modest, Canonical, Shape, Stored, StoredRef, Inner, Owned, ItemOf, Hang, Deletes, YieldsRef;
      hide MemoryDB.Valid, NoLone, MemoryDB.Explains, MemoryDB.Misread;
      var it := RehangChild(orig, key, x, t, c, live0);
      if it.Failed? {
        FailedHere(it.fault, [], t, k, main0, live0, refs);
        return Failed(it.fault);
      }
      ReplacedHere(it.value, t, k, main0, live0, refs);
      return Done(Replaced(it.value));
    }

    /** The end of deleteAt at an extension whose child has become c. */
    method RehangChild(orig: Item, key: Nibbles, x: Item, ghost t: Tree, ghost c: Tree, ghost live0: Refs)
      returns (r: Outcome<Item>)
      requires Working() && orig == ItemOf(t) && t.Ext? && t.key == key
      requires Canonical(c) && c != Nil && x == RefOf(c) && StoredRef(db.main, c)
      requires Owned(t) <= live0 && db.live + Owned(t.child) == live0 + Owned(c)
      modifies db`main, db`live, db`met
      ensures r.Failed? ==> db.Explains(r.fault, true, 0)
      ensures r.Done? ==> |db.live| <= |old(db.live)|
      ensures r.Done? ==> Working() && Extends(old(db.main), db.main)
      ensures r.Done? ==> r.value == ItemOf(Hang(key, c)) && Stored(db.main, Hang(key, c))
      ensures r.Done? ==> db.live + Owned(t) == live0 + Inner(Hang(key, c))
    {
      ghost var main1, live1 := db.main, db.live;
      RoomAfter(live0, live1, Inner(t), Self(t), Owned(c));
      var _ :- KillNode(orig, t);
      StoredRefExtends(main1, db.main, c);
      ghost var live2 := db.live;
      r := HangNode(key, x, c);
      if r.Done? { Chain(live0, live2, db.live, Owned(t), Owned(c), Inner(Hang(key, c))); }
    }

    /** The part of deleteAt below an entry of a branch. */
    method DeleteEntry(orig: Item, k: Nibbles, ghost t: Tree) returns (r: Outcome<Deletion>)
      requires Working() && orig == ItemOf(t) && Canonical(t) && Stored(db.main, t) && Owned(t) <= db.live
      requires t.Branch? && k != []
      requires Shape(t)
      modifies db`main, db`live, db`met
      ensures Deletes(r, t, k, old(db.main), old(db.live), |old(db.live)| + |k|)
      ensures YieldsNode(r, t, k, old(db.live))
      decreases |k|, 0, 0
    {
      hide Del, Exposed, Modest, Canonical, Shape, Stored, StoredRef, Inner, Owned, ItemOf, Collapse, Bare, RefOf;
      hide Deletes, YieldsRef, YieldsNode, Inherits, Working, MemoryDB.Valid, MemoryDB.Explains, MemoryDB.Misread;
      ghost var main0, live0, refs := db.main, db.live, |db.live| + |k|;
      CanonicalBranch(t);
      BranchItems(t);
      EntryToDelete(t, k);
      EntryInherits(t, k);
      var n := k[0] as int;
      ghost var child, q := t.children[n], k[1..];
      StoredBelow(db.main, t, child);
      r := DeleteAtAux(orig.items[n], k[1..], child);
      if r.Done? && r.value.Replaced? {
        r := FinishEntry(orig, k, r.value.item, r, t, main0, live0);
      } else {
        NotReplaced(r, child, q, t, k, main0, live0, refs, refs);
      }
    }

    /** The rest of it, x being what came back for the entry. */
    method FinishEntry(orig: Item, k: Nibbles, x: Item, ghost r0: Outcome<Deletion>, ghost t: Tree,
                       ghost main0: Table, ghost live0: Refs)
      returns (r: Outcome<Deletion>)
      requires orig == ItemOf(t) && Canonical(t) && t.Branch? && k != [] && Owned(t) <= live0 && Stored(main0, t)
      requires Shape(t) && r0 == Done(Replaced(x))
      requires Deletes(r0, t.children[k[0]], k[1..], main0, live0, |live0| + |k|)
      requires YieldsRef(r0, t.children[k[0]], k[1..], live0)
      modifies db`main, db`live, db`met
      ensures Deletes(r, t, k, main0, live0, |live0| + |k|) && YieldsNode(r, t, k, live0)
    {
      hide Del, Exposed, Modest, Canonical, Shape, Stored, StoredRef, Inner, Owned, ItemOf, RefOf, Collapse, Bare;
      hide Deletes, YieldsRef, YieldsNode, Working;
      var n := k[0] as int;
      CanonicalBranch(t);
      EntryToDelete(t, k);
      EntryExposes(t, k);
      RefReplaced(r0, t.children[n], k[1..], main0, live0, |live0| + |k|);
      ghost var c := Del(t.children[n], k[1..]).tree;
      ghost var b := Branch(t.children[n := c], t.value);
      r := ReplaceEntry(orig, k, n, x, t, c, b, main0, live0, |live0| + |k|);
    }

    /** The part of deleteAt at the branch that holds the value. */
    method DeleteValue(orig: Item, ghost t: Tree) returns (r: Outcome<Deletion>)
      requires Working() && orig == ItemOf(t) && Canonical(t) && Stored(db.main, t) && Owned(t) <= db.live
      requires t.Branch? && t.value != []
      requires Shape(t)
      modifies db`main, db`live, db`met
      ensures Deletes(r, t, [], old(db.main), old(db.live), |old(db.live)|)
      ensures YieldsNode(r, t, [], old(db.live))
    {
      ghost var main0, live0, b := db.main, db.live, Branch(t.children, []);
      CanonicalShape(t);
      BranchItems(t);
      ItemsMakeBranch(b, orig.items[16 := Data([])]);
      BareWithout(b);
      assert Del(t, []) == Removed(Collapse(b.children, b.value)) && Exposed(t, []) == [];
      hide Del, Exposed, Modest, Shape, Deletes, Collapse, Bare;
      hide NoLone, MemoryDB.Explains, MemoryDB.Misread, MemoryDB.Valid;
      var it := CutValue(orig, t, b, live0);
      if it.Failed? {
        FailedHere(it.fault, [], t, [], main0, live0, |live0|);
        return Failed(it.fault);
      }
      ReplacedHere(it.value, t, [], main0, live0, |live0|);
      return Done(Replaced(it.value));
    }

    method CutValue(orig: Item, ghost t: Tree, ghost b: Tree, ghost live0: Refs) returns (r: Outcome<Item>)
      requires Working() && orig == ItemOf(t) && Canonical(t) && Stored(db.main, t) && Owned(t) <= db.live == live0
      requires t.Branch? && b == Branch(t.children, []) && orig.List? && |orig.items| == 17
      requires List(orig.items[16 := Data([])]) == ItemOf(b) && Bare(b) == []
      modifies db`main, db`live, db`met
      ensures r.Failed? ==> db.Explains(r.fault, true, 0) || db.Misread(r.fault, [])
      ensures r.Done? ==> |db.live| <= |live0| && Working() && Extends(old(db.main), db.main)
      ensures r.Done? ==>
        var u := Collapse(b.children, b.value);
        r.value == ItemOf(u) && Stored(db.main, u) && db.live + Owned(t) == live0 + Inner(u)
    {
      ghost var main0 := db.main;
      var _ :- KillNode(orig, t);
      StoredExtends(main0, db.main, t);
      Room(live0, Inner(t), Self(t));
      r := CollapseNode(orig.items, 16, b, Owned(t), live0);
    }

    /** The end of deleteAt at a branch whose entry n was replaced, b being the
        branch with the new entry. */
    method ReplaceEntry(orig: Item, ghost k: Nibbles, n: nat, x: Item, ghost t: Tree, ghost c: Tree, ghost b: Tree,
                        ghost main0: Table, ghost live0: Refs, ghost refs: nat)
      returns (r: Outcome<Deletion>)
      requires Working() && orig == ItemOf(t) && Canonical(t) && t.Branch? && n < 16 && Stored(main0, t)
      requires Canonical(c) && x == RefOf(c) && StoredRef(db.main, c) && b == Branch(t.children[n := c], t.value)
      requires Owned(t) <= live0 && db.live + Owned(t.children[n]) == live0 + Owned(c)
      requires Shape(t) && Del(t, k) == Removed(Collapse(b.children, b.value)) && Extends(main0, db.main)
      requires (Bare(b) != [] ==> Exposed(t, k) == Bare(b)) && (Bare(b) == [] ==> |Exposed(t, k)| <= 32)
      requires |db.live| <= refs
      modifies db`main, db`live, db`met
      ensures Deletes(r, t, k, main0, live0, refs)
      ensures YieldsNode(r, t, k, live0)
    {
      StoredSetChild(main0, db.main, t, n, c);
      hide Del, Exposed, Modest, Canonical, Shape, Stored, StoredRef, Inner, Owned, ItemOf, Collapse, Bare, Deletes;
      hide MemoryDB.Valid, NoLone, MemoryDB.Explains, MemoryDB.Misread;
      var it := SwapEntry(orig, n, x, t, c, b, live0);
      if it.Failed? {
        FailedHere(it.fault, Bare(b), t, k, main0, live0, refs);
        return Failed(it.fault);
      }
      ReplacedHere(it.value, t, k, main0, live0, refs);
      return Done(Replaced(it.value));
    }

    method SwapEntry(orig: Item, n: nat, x: Item, ghost t: Tree, ghost c: Tree, ghost b: Tree, ghost live0: Refs)
      returns (r: Outcome<Item>)
      requires Working() && orig == ItemOf(t) && Canonical(t) && t.Branch? && n < 16
      requires Canonical(c) && x == RefOf(c) && b == Branch(t.children[n := c], t.value) && Stored(db.main, b)
      requires Owned(t) <= live0 && db.live + Owned(t.children[n]) == live0 + Owned(c)
      modifies db`main, db`live, db`met
      ensures r.Failed? ==> db.Explains(r.fault, true, 0) || db.Misread(r.fault, Bare(b))
      ensures r.Done? ==> |db.live| <= |old(db.live)|
      ensures r.Done? ==> Working() && Extends(old(db.main), db.main) && |Bare(b)| <= 32
      ensures r.Done? ==>
        r.value == ItemOf(Collapse(b.children, b.value)) && Stored(db.main, Collapse(b.children, b.value))
      ensures r.Done? ==> db.live + Owned(t) == live0 + Inner(Collapse(b.children, b.value))
    {
      BranchItems(t);
      CanonicalEntry(t, n, c);
      hide CanonicalChildren, Stored, Inner, Owned, Canonical, RefOf, Collapse, Node, Bare;
      hide MemoryDB.Explains, MemoryDB.Misread, MemoryDB.Valid;
      var _ :- KillEntered(orig, n, t, c, live0);
      EntryItem(t, orig.items, n, x, c);
      r := CollapseNode(orig.items[n := x], 255, b, Owned(t), live0);
    }

    /** The branch's own reference is given up once an entry was replaced. */
    method KillEntered(orig: Item, n: nat, ghost t: Tree, ghost c: Tree, ghost live0: Refs) returns (r: Outcome<()>)
      requires Working() && orig == ItemOf(t) && t.Branch? && n < |t.children|
      requires Stored(db.main, Branch(t.children[n := c], t.value))
      requires Owned(t) <= live0 && db.live + Owned(t.children[n]) == live0 + Owned(c)
      modifies db`main, db`live, db`met
      ensures r.Failed? ==> db.Explains(r.fault, true, 0)
      ensures r.Done? ==> |db.live| <= |old(db.live)|
      ensures r.Done? ==> Working() && Extends(old(db.main), db.main)
      ensures r.Done? ==> Stored(db.main, Branch(t.children[n := c], t.value))
      ensures r.Done? ==> Inner(Branch(t.children[n := c], t.value)) <= db.live
      ensures r.Done? ==> db.live + Owned(t) == live0 + Inner(Branch(t.children[n := c], t.value))
    {
      ghost var main1 := db.main;
      EntryRemoved(t, n, c, live0, db.live);
      var _ :- KillNode(orig, t);
      StoredExtends(main1, db.main, Branch(t.children[n := c], t.value));
      return Done(());
    }

    /** The end of deleteAt at a branch that is to become b: merged away if one
        entry is left.  With except 16 the value is still among the items. */
    method CollapseNode(items: seq<Item>, except: nat, ghost b: Tree, ghost given: Refs, ghost live0: Refs)
      returns (r: Outcome<Item>)
      requires Working() && b.Branch? && CanonicalChildren(b) && |items| == 17
      requires except == 16 || except == 255
      requires List(if except == 16 then items[16 := Data([])] else items) == ItemOf(b)
      requires Stored(db.main, b) && Inner(b) <= db.live && db.live + given == live0 + Inner(b)
      modifies db`main, db`live, db`met
      ensures r.Failed? ==> db.Explains(r.fault, true, 0) || db.Misread(r.fault, Bare(b))
      ensures r.Done? ==> |db.live| <= |old(db.live)|
      ensures r.Done? ==> Working() && Extends(old(db.main), db.main) && |Bare(b)| <= 32
      ensures r.Done? ==>
        r.value == ItemOf(Collapse(b.children, b.value)) && Stored(db.main, Collapse(b.children, b.value))
      ensures r.Done? ==> db.live + given == live0 + Inner(Collapse(b.children, b.value))
    {
      BranchItems(b);
      var rest := if except == 16 then items[16 := Data([])] else items;
      var used := UniqueInUse(items, except);
      UniqueWithout(items, rest, except, used);
      SoleIsUnique(b, rest, used);
      if used == 255 { return Done(List(rest)); }
      if used == 16 {
        OwnsNothing(b);
        var _ :- CheckValue(items[16].bytes);
        return Done(List([Data(HexPrefix([], true)), items[16]]));
      }
      r := MergeChild(items[used], used, b, given, live0);
    }

    /** merge at a child, and graft if that is a pair. */
    method MergeChild(x: Item, used: nat, ghost b: Tree, ghost given: Refs, ghost live0: Refs)
      returns (r: Outcome<Item>)
      requires Working() && b.Branch? && CanonicalChildren(b) && used < 16 && b.children[used] != Nil
      requires x == RefOf(b.children[used]) && forall j | 0 <= j < 16 && j != used :: b.children[j] == Nil
      requires Stored(db.main, b) && Inner(b) <= db.live && db.live + given == live0 + Inner(b)
      modifies db`main, db`live, db`met
      ensures r.Failed? ==> db.Explains(r.fault, true, 0)
      ensures r.Done? ==> |db.live| <= |old(db.live)|
      ensures r.Done? ==> Working() && Extends(old(db.main), db.main)
      ensures var u := Hang([used as Nibble], b.children[used]);
        r.Done? ==> r.value == ItemOf(u) && Stored(db.main, u) && db.live + given == live0 + Inner(u)
    {
      ghost var live1 := db.live;
      OwnedAllSole(b.children, used);
      assert StoredRef(db.main, b.children[used]);
      r := HangNode([used as Nibble], x, b.children[used]);
      ghost var u := Hang([used as Nibble], b.children[used]);
      if r.Done? { Chain(live0, live1, db.live, given, Inner(b), Inner(u)); }
    }

    /** isTwoItemNode of a branch's value: it is taken for a reference. */
    method CheckValue(v: Bytes) returns (r: Outcome<()>)
      ensures r.Failed? ==> db.Misread(r.fault, v)
      ensures r.Done? ==> |v| <= 32
      ensures v == [] || (|v| <= 32 && AsHash(v) !in db.main) ==> v == [] || r.Done?
      ensures |v| > 32 ==> r == Failed(TooWide(v))
    {
      if |v| > 32 { return Failed(TooWide(v)); }
      var node := db.Lookup(AsHash(v));
      if node == [] { return Done(()); }
      if MaybeTwoItems(node) && v != [] { return Failed(Mistaken(v)); }
      return Done(());
    }

    /** deleteAtAux: the item for what replaces the node that orig refers to. */
    method DeleteAtAux(orig: Item, k: Nibbles, ghost t: Tree) returns (r: Outcome<Deletion>)
      requires Working() && orig == RefOf(t) && Canonical(t) && StoredRef(db.main, t) && Owned(t) <= db.live
      requires Shape(t)
      modifies db`main, db`live, db`met
      ensures Deletes(r, t, k, old(db.main), old(db.live), |old(db.live)| + |k| + 1)
      ensures YieldsRef(r, t, k, old(db.live))
      decreases |k|, 1
    {
      hide Del, Exposed, Stored, Inner, Owned, Canonical, Modest, Shape, ItemOf, RefOf, Node;
      hide Deletes, YieldsNode, YieldsRef, Inherits, MemoryDB.Valid, MemoryDB.Explains, MemoryDB.Misread;
      ghost var main0, live0, refs := db.main, db.live, |db.live| + |k|;
      RefEmpty(t);
      if orig.IsEmpty() {
        NilHasNothing(k);
        FoundNothing(t, k, refs + 1);
        return Done(Unchanged);
      }
      SameInherits(t, k);
      var node := Deref(orig, t);
      r := DeleteAt(node, k, t);
      if r.Done? && r.value.Replaced? {
        r := FinishAux(r.value.item, r, k, t, main0, live0);
      } else {
        NotReplaced(r, t, k, t, k, main0, live0, refs, refs + 1);
      }
    }

    method FinishAux(d: Item, ghost r0: Outcome<Deletion>, ghost k: Nibbles, ghost t: Tree,
                     ghost main0: Table, ghost live0: Refs)
      returns (r: Outcome<Deletion>)
      requires Canonical(t) && Shape(t) && r0 == Done(Replaced(d))
      requires Deletes(r0, t, k, main0, live0, |live0| + |k|) && YieldsNode(r0, t, k, live0)
      modifies db`main, db`live, db`met
      ensures Deletes(r, t, k, main0, live0, |live0| + |k| + 1) && YieldsRef(r, t, k, live0)
    {
      hide Del, Exposed, Modest, Canonical, Shape, Stored, StoredRef, Inner, Owned, ItemOf, RefOf, Node;
      hide Deletes, YieldsRef, YieldsNode, Working;
      NodeReplaced(r0, t, k, main0, live0, |live0| + |k|);
      DelCanonical(t, k);
      DelShort(t, k);
      r := StreamDeleted(d, k, t, Del(t, k).tree, main0, live0, |live0| + |k| + 1);
    }

    /** streamNode of what t has become. */
    method StreamDeleted(d: Item, ghost k: Nibbles, ghost t: Tree, ghost u: Tree,
                         ghost main0: Table, ghost live0: Refs, ghost refs: nat)
      returns (r: Outcome<Deletion>)
      requires Working() && d == ItemOf(u) && Canonical(u) && Stored(db.main, u)
      requires Shape(t) && Del(t, k) == Removed(u) && |Exposed(t, k)| <= 32 && Extends(main0, db.main)
      requires Modest(t) ==> |Node(u)| < LENGTH_LIMIT
      requires |db.live| < refs && db.live + Owned(t) == live0 + Inner(u)
      modifies db`main, db`live, db`met
      ensures Deletes(r, t, k, main0, live0, refs)
      ensures YieldsRef(r, t, k, live0)
    {
      CanonicalNotLone(u);
      Both(live0, db.live, Owned(t), Inner(u), Self(u));
      hide Del, Exposed, Deletes, Modest, Shape, Canonical, Stored, ItemOf, RefOf, Node, Inner;
      hide MemoryDB.Valid, NoLone, MemoryDB.Misread;
      var it := StreamNode(d, u);
      if it.Failed? {
        FailedHere(it.fault, [], t, k, main0, live0, refs);
        return Failed(it.fault);
      }
      ReplacedHere(it.value, t, k, main0, live0, refs);
      return Done(Replaced(it.value));
    }

    /** remove.  It goes astray exactly on some keys that are not stored, and
        then nothing has changed.  When it lays bare a branch's value it takes
        that for a reference, which fails if it is longer than 32 bytes. */
    method Remove(key: Bytes) returns (r: Outcome<()>)
      requires Valid()
      modifies this`root, this`tree, db`main, db`live, db`met
      ensures Canonical(old(tree)) && Shape(old(tree))
      ensures r == Failed(Astray) <==> GoesAstray(old(tree), NibblesOf(key))
      ensures r == Failed(Astray) ==> Valid() && root == old(root) && tree == old(tree)
      ensures r == Failed(Astray) ==> db.main == old(db.main) && db.live == old(db.live) && others == old(others)
      ensures |Exposed(old(tree), NibblesOf(key))| > 32 ==> r.Failed?
      ensures var t, k := old(tree), NibblesOf(key);
        var smooth := !GoesAstray(t, k) && NoReference(Exposed(t, k), db.main);
        NoCollision(db.met) && RoomToRemove(t, |old(db.live)|, key) && smooth ==> r.Done?
      ensures r.Done? ==> |db.live| <= |old(db.live)| + |NibblesOf(key)| + 1
      ensures r.Done? ==> Valid() && others == old(others)
      ensures r.Done? && At(old(tree), NibblesOf(key)) == [] ==>
        root == old(root) && tree == old(tree) && db.main == old(db.main)
      ensures r.Done? ==> forall x :: At(tree, x) == if x == NibblesOf(key) then [] else At(old(tree), x)
    {
      ghost var t, k, refs := tree, NibblesOf(key), |db.live| + |NibblesOf(key)|;
      DelFacts(t, k);
      StrayIs(t, k);
      ghost var u := if Del(t, k).Removed? then Del(t, k).tree else t;
      if Modest(t) { NodeShort(t); }
      hide NoCollision, At, Modest, Canonical, MemoryDB.Valid, MemoryDB.Explains, MemoryDB.Misread, NoLone;
      hide GoesAstray, Del, Exposed, NoReference;
      r := DeleteRoot(key, u, refs);
      if r.Failed? { NothingReported(r.fault, t, k, Modest(t), refs); }
    }

    /** When nothing can be reported, nothing has failed. */
    lemma NothingReported(f: Fault, t: Tree, k: Nibbles, short: bool, refs: nat)
      requires Shape(t) && Reports(f, t, k, short, refs)
      ensures f.Astray? ==> Del(t, k).Stray?
      ensures NoCollision(db.met) && short && refs < REFS_LIMIT && !Del(t, k).Stray? ==>
        !NoReference(Exposed(t, k), db.main)
    {
    }

    /** The rest of remove, u being what the trie is to become. */
    method DeleteRoot(key: Bytes, ghost u: Tree, ghost refs: nat) returns (r: Outcome<()>)
      requires Valid() && Shape(tree)
      requires Removes(tree, NibblesOf(key), u) && Canonical(u) && (Modest(tree) ==> |Node(u)| < LENGTH_LIMIT)
      requires refs == |db.live| + |NibblesOf(key)|
      modifies this`root, this`tree, db`main, db`live, db`met
      ensures r.Failed? ==> Reports(r.fault, old(tree), NibblesOf(key), Modest(old(tree)), refs)
      ensures Strays(old(tree), NibblesOf(key)) ==>
        && r == Failed(Astray) && Valid() && root == old(root) && tree == old(tree) && others == old(others)
        && db.main == old(db.main) && db.live == old(db.live)
      ensures r.Done? ==> |db.live| <= refs + 1 && |Exposed(old(tree), NibblesOf(key))| <= 32
      ensures r.Done? ==> Valid() && others == old(others) && tree == u
      ensures r.Done? && Lacks(old(tree), NibblesOf(key)) ==> root == old(root) && db.main == old(db.main)
    {
      hide Modest, Canonical, Removes, Lacks, MemoryDB.Explains, MemoryDB.Misread, Valid, Working;
      hide Stored, Inner, Hashed, Node, ItemOf, Balanced, NibblesOf, Exposed, Strays;
      ghost var short, t := Modest(tree), tree;
      var rootNode := RootItem();
      var b :- DeleteAtRoot(rootNode, key, u, refs);
      if b.Unchanged? { return Done(()); }
      r := ReplaceRoot(rootNode, b.item, u, short, refs);
    }

    /** deleteAt at the root, with its reference treated as mergeAt's is. */
    method DeleteAtRoot(rootNode: Item, key: Bytes, ghost u: Tree, ghost refs: nat) returns (r: Outcome<Deletion>)
      requires Valid() && Shape(tree) && rootNode == ItemOf(tree)
      requires Removes(tree, NibblesOf(key), u) && refs == |db.live| + |NibblesOf(key)|
      modifies db`main, db`live, db`met
      ensures r.Failed? ==> Reports(r.fault, tree, NibblesOf(key), Modest(tree), refs)
      ensures Strays(tree, NibblesOf(key)) ==>
        r == Failed(Astray) && Valid() && db.main == old(db.main) && db.live == old(db.live)
      ensures r.Done? ==> |db.live| <= refs && |Exposed(tree, NibblesOf(key))| <= 32
      ensures r.Done? && r.value.Unchanged? ==> Valid() && tree == u && db.main == old(db.main)
      ensures r.Done? && r.value.Replaced? ==>
        && !Lacks(tree, NibblesOf(key)) && Working() && root == Sha3(Node(tree))
        && r.value.item == ItemOf(u) && Stored(db.main, u) && Balanced(db.live, others, tree, u, root)
    {
      hide Sets, At, Modest, Canonical, Del, Shape, Exposed, NoLone;
      hide MemoryDB.Explains, MemoryDB.Misread, MemoryDB.Valid;
      hide Stored, Inner, Hashed, Node, Reports;
      ghost var k, t, live0 := NibblesOf(key), tree, db.live;
      DelFacts(t, k);
      RootGiven(t, root, others, db.live);
      r := DeleteAt(rootNode, NibblesOf(key), tree);
      if r.Done? && r.value.Replaced? { RootReleased(t, u, root, others, live0, db.live); }
    }

    // ----- Scanning -----

    /** descendKey: strikes h and every hash below it off the mask.  At a root
        with the empty trie's hash it goes no further. */
    method DescendKey(h: Digest, mask: set<Digest>, wasExt: bool, ghost t: Tree) returns (r: set<Digest>)
      requires db.Valid() && Canonical(t) && h == Sha3(Node(t)) && Holds(db.main, Node(t)) && h in db.live
      requires h != root ==> t != Nil && root != Sha3(Node(Nil))
      requires Stored(db.main, t) && Inner(t) <= db.live && (wasExt ==> t.Branch?)
      ensures Without(r, mask, multiset{h} + if h == root == Sha3(Node(Nil)) then multiset{} else Inner(t))
      decreases t, 1
    {
      var keyMask := mask - {h};
      if h == root && h == Sha3(Encode(Data([]))) { return keyMask; }
      RefEmpty(t);
      var item := NodeAt(h, t);
      r := DescendList(item, keyMask, wasExt, t);
    }

    /** descendList: the same for the hashes inside a node. */
    method DescendList(item: Item, mask: set<Digest>, wasExt: bool, ghost t: Tree) returns (r: set<Digest>)
      requires db.Valid() && Canonical(t) && t != Nil && item == ItemOf(t) && root != Sha3(Node(Nil))
      requires Stored(db.main, t) && Inner(t) <= db.live && (wasExt ==> t.Branch?)
      ensures Without(r, mask, Inner(t))
      decreases t, 0, 1
    {
      if |item.items| == 2 {
        PairItems(t);
        // an extension below an extension is refused; there is none
        assert !wasExt;
        if LeafBit(item.items[0].bytes) { return mask; }
        r := DescendEntry(item.items[1], mask, true, t.child);
      } else {
        BranchItems(t);
        r := DescendBranch(item.items, mask, t);
      }
    }

    method DescendBranch(items: seq<Item>, mask: set<Digest>, ghost t: Tree) returns (r: set<Digest>)
      requires db.Valid() && Canonical(t) && t.Branch? && |items| == 17 && root != Sha3(Node(Nil))
      requires forall i | 0 <= i < 16 :: items[i] == RefOf(t.children[i])
      requires Stored(db.main, t) && Inner(t) <= db.live
      ensures Without(r, mask, Inner(t))
      decreases t, 0, 0
    {
      hide Stored, StoredRef, Inner, RefOf, Node, Sum, Owned, Canonical, OwnedEach, Without, MemoryDB.Valid;
      ghost var each := OwnedEach(t.children);
      CanonicalBranch(t);
      ChildrenHeld(db.main, db.live, t);
      r := mask;
      assert each[..0] == [];
      NothingStruck(mask);
      for i := 0 to 16
        invariant Without(r, mask, Sum(each[..i]))
      {
        assert Held(db.main, db.live, t.children[i]);
        ghost var before := r;
        r := DescendChild(items[i], r, t.children[i]);
        WithoutBoth(r, before, mask, Sum(each[..i]), each[i]);
        SumTake(each, i);
      }
      assert each[..16] == each;
    }

    method DescendChild(ref: Item, mask: set<Digest>, ghost t: Tree) returns (r: set<Digest>)
      requires db.Valid() && Canonical(t) && ref == RefOf(t) && root != Sha3(Node(Nil))
      requires StoredRef(db.main, t) && Owned(t) <= db.live
      ensures Without(r, mask, Owned(t))
      decreases t, 3
    {
      RefEmpty(t);
      if ref.IsEmpty() {
        OwnedNil();
        return mask;
      }
      r := DescendEntry(ref, mask, false, t);
    }

    /** descendEntry: a hash or an inlined node. */
    method DescendEntry(ref: Item, mask: set<Digest>, wasExt: bool, ghost t: Tree) returns (r: set<Digest>)
      requires db.Valid() && Canonical(t) && t != Nil && ref == RefOf(t) && root != Sha3(Node(Nil))
      requires StoredRef(db.main, t) && Owned(t) <= db.live && (wasExt ==> t.Branch?)
      ensures Without(r, mask, Owned(t))
      decreases t, 2
    {
      if ref.Data? {
        RefIsHash(t);
        r := DescendKey(ref.bytes, mask, wasExt, t);
      } else {
        RefIsList(t);
        r := DescendList(ref, mask, wasExt, t);
      }
    }

    /** The hashes that the scan reaches: all that the trie holds, unless its
        root has the hash of the empty trie. */
    ghost function Reached(): Refs
      reads this
    {
      multiset{root} + if root == Sha3(Node(Nil)) then multiset{} else Inner(tree)
    }

    /** leftOvers: the hashes somebody refers to that the scan does not reach. */
    method LeftOvers() returns (r: set<Digest>)
      requires Valid()
      ensures forall x :: x in r <==> x in db.live && x !in Reached()
      ensures others == multiset{} && (tree == Nil || root != Sha3(Node(Nil))) ==> r == {}
    {
      var k := db.Keys();
      RootGiven(tree, root, others, db.live);
      r := DescendKey(root, k, false, tree);
    }

    /** check: no hash is referred to for nothing, if that is asked for. */
    method Check(requireNoLeftOvers: bool) returns (ok: bool)
      requires Valid()
      ensures ok <==> !requireNoLeftOvers || forall x :: x in db.live ==> x in Reached()
      ensures others == multiset{} && (tree == Nil || root != Sha3(Node(Nil))) ==> ok
    {
      var left := LeftOvers();
      assert left == {} <==> forall x :: x in db.live ==> x in Reached();
      return left == {} || !requireNoLeftOvers;
    }

    /** purge of the store keeps the trie whole. */
    method Purge()
      requires Valid()
      modifies db`main
      ensures Valid() && forall h :: h in db.main <==> h in db.live
    {
      RootGiven(tree, root, others, db.live);
      ghost var main0 := db.main;
      db.Purge();
      StoredPurged(main0, db.main, tree, db.live);
      assert forall h | h in db.main && db.main[h].refs > 0 :: !LoneBytes(main0[h].value);
    }
  }

  /** The references while the root is being replaced: those of the new node's
      inside, and the old root's own if a short node still has it. */
  ghost predicate Balanced(live: Refs, others: Refs, t: Tree, u: Tree, root: Digest) {
    live == others + Inner(u) + (if Hashed(t) then multiset{} else multiset{root})
  }

  /** u says of k what v is, and of every other key what t says. */
  ghost predicate Sets(t: Tree, u: Tree, k: Nibbles, v: Bytes) {
    forall x :: At(u, x) == if x == k then v else At(t, x)
  }

  /** u is t with v under k. */
  ghost predicate Puts(t: Tree, k: Nibbles, v: Bytes, u: Tree) {
    Shape(t) && u == Put(t, k, v)
  }

  ghost predicate Lacks(t: Tree, k: Nibbles) { Shape(t) && Del(t, k).Absent? }

  /** What removing q from c says about removing k from t, if c is below t or
      is t, and c was not replaced. */
  ghost predicate Inherits(c: Tree, q: Nibbles, t: Tree, k: Nibbles) {
    && Shape(c) && Shape(t) && (Modest(t) ==> Modest(c))
    && (if Del(c, q).Removed? then Del(t, k).Removed? else Del(t, k) == Del(c, q) && Exposed(t, k) == [])
    && (Exposed(c, q) != [] ==> Exposed(t, k) == Exposed(c, q))
  }

  lemma ExtInherits(t: Tree, k: Nibbles)
    requires Canonical(t) && t.Ext? && t.key <= k
    ensures Inherits(t.child, k[|t.key|..], t, k)
  {
    ExtToDelete(t, k);
    if Modest(t) { ModestExt(t); }
    OnlyRemovalsExpose(t, k);
  }

  lemma EntryInherits(t: Tree, k: Nibbles)
    requires Canonical(t) && t.Branch? && k != []
    ensures Inherits(t.children[k[0]], k[1..], t, k)
  {
    EntryToDelete(t, k);
    EntryExposes(t, k);
    if Modest(t) { ModestEntry(t, k[0]); }
  }

  lemma SameInherits(t: Tree, k: Nibbles)
    requires Canonical(t)
    ensures Inherits(t, k, t, k)
  {
    CanonicalShape(t);
    OnlyRemovalsExpose(t, k);
  }

  lemma OnlyRemovalsExpose(t: Tree, k: Nibbles)
    requires Shape(t)
    ensures !Del(t, k).Removed? ==> Exposed(t, k) == []
  {
    if Exposed(t, k) != [] { ExposedStays(t, k); }
  }

  ghost predicate Strays(t: Tree, k: Nibbles) { Shape(t) && Del(t, k).Stray? }

  /** u is t without k. */
  ghost predicate Removes(t: Tree, k: Nibbles, u: Tree) {
    Shape(t) && if Del(t, k).Removed? then u == Del(t, k).tree else u == t
  }

  /** The value, if there is one, is no longer than a hash and not the hash of
      a stored string. */
  ghost predicate NoReference(v: Bytes, main: Table) { v == [] || (|v| <= 32 && AsHash(v) !in main) }

  /** Whether reading a string as a node finds two items, or no node at all. */
  predicate MaybeTwoItems(node: Bytes)
    requires node != []
  {
    if ActualSize(node) != Ok(|node|) then true
    else if !IsList(node) then false
    else
      match V.Payload(node)
      case Err(_) => true
      case Ok(payload) =>
        match V.Pieces(payload)
        case Err(_) => true
        case Ok(ps) => |ps| == 2
  }

  /** A stored item is told apart rightly: it has two items or it has not. */
  lemma TwoItemsFound(it: Item)
    requires Fits(it)
    ensures MaybeTwoItems(Encode(it)) <==> it.List? && |it.items| == 2
  {
    hide Encode, EncodeAll, Header, V.Pieces, V.Payload, ActualSize, Length, PayloadOffset;
    SizeOfEncoded(it, []);
    assert Encode(it) + [] == Encode(it);
    if it.List? { V.WrittenListsAreWhole(it.items); } else { StringNotList(it.bytes); }
  }

  lemma StringNotList(b: Bytes)
    requires Fits(Data(b))
    ensures !IsList(Encode(Data(b)))
  {
    V.StringPayload(Encode(Data(b)), b);
  }

  /** What an insertion makes of a canonical tree. */
  lemma PutFacts(t: Tree, k: Nibbles, v: Bytes)
    requires Canonical(t) && v != []
    ensures Shape(t) && Sound(t) && Canonical(Put(t, k, v)) && Sets(t, Put(t, k, v), k, v)
    ensures Takes(t, k) <= 2 * |k| + 1
    ensures Slim(t, k, v) ==> |Node(Put(t, k, v))| < LENGTH_LIMIT
  {
    CanonicalSound(t);
    PutCanonical(t, k, v);
    PutShort(t, k, v);
    forall x
      ensures At(Put(t, k, v), x) == if x == k then v else At(t, x)
    {
      PutAt(t, k, v, x);
    }
  }

  /** What a removal makes of a canonical tree. */
  lemma DelFacts(t: Tree, k: Nibbles)
    requires Canonical(t)
    ensures Shape(t) && (Del(t, k).Removed? <==> At(t, k) != [])
    ensures !Del(t, k).Removed? ==> Sets(t, t, k, [])
    ensures Del(t, k).Removed? ==>
      && Canonical(Del(t, k).tree) && Sets(t, Del(t, k).tree, k, [])
      && (Modest(t) ==> |Node(Del(t, k).tree)| < LENGTH_LIMIT)
  {
    DelCanonical(t, k);
    if Del(t, k).Removed? {
      DelShort(t, k);
      forall x
        ensures At(Del(t, k).tree, x) == if x == k then [] else At(t, x)
      {
        DelAt(t, k, x);
      }
    }
  }

  /** Sizes and reference counts stay far from their limits during an insertion. */
  ghost predicate RoomToInsert(t: Tree, refs: nat, key: Bytes, value: Bytes) {
    Slim(t, NibblesOf(key), value) && refs + 2 * |NibblesOf(key)| + 1 < REFS_LIMIT
  }

  ghost predicate RoomToRemove(t: Tree, refs: nat, key: Bytes) {
    Modest(t) && refs + |NibblesOf(key)| < REFS_LIMIT
  }

  /** What deleteAt reports: no such key, or the node to put there instead. */
  datatype Deletion = Unchanged | Replaced(item: Item)

  /** uniqueInUse: the one entry in use besides except, or 255. */
  method UniqueInUse(items: seq<Item>, except: nat) returns (used: nat)
    requires |items| == 17
    ensures used == 255 || used < 17
    ensures used < 17 ==> used != except && !items[used].IsEmpty()
    ensures used < 17 ==> forall j | 0 <= j < 17 && j != except && j != used :: items[j].IsEmpty()
    ensures used == 255 ==>
      (forall j | 0 <= j < 17 && j != except :: items[j].IsEmpty())
      || (exists i, j :: 0 <= i < j < 17 && i != except && j != except && !items[i].IsEmpty() && !items[j].IsEmpty())
  {
    used := 255;
    for i := 0 to 17
      invariant used == 255 || used < i
      invariant used == 255 ==> forall j | 0 <= j < i && j != except :: items[j].IsEmpty()
      invariant used < 17 ==> used != except && !items[used].IsEmpty()
      invariant used < 17 ==> forall j | 0 <= j < i && j != except && j != used :: items[j].IsEmpty()
    {
      if i != except && !items[i].IsEmpty() {
        if used == 255 { used := i; } else { return 255; }
      }
    }
  }
}
