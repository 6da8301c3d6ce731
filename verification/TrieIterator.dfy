/** The trie iterator: an explicit stack instead of recursion
    (libdevcore/TrieDB.h, iterator::next, lower_bound and at). */
module TrieIterator {
  import opened Bytes
  import opened Rlp
  import opened TrieCommon
  import opened Trie
  import opened TrieNode
  import opened TrieFacts
  import opened TrieHash
  import opened TrieOrder
  import opened TrieDb
  import opened MemoryDb

  const ENTERING: nat := 255
  const EXITING: nat := 17

  /** child: 255 entering, 16 at the node, 0 to 15 in that child, 17 exiting. */
  datatype Frame = Frame(rlp: Item, key: Bytes, child: nat)

  /** What a frame stands for: a tree and the path to it. */
  datatype Spot = Spot(tree: Tree, path: Nibbles)

  ghost predicate FrameOk(main: Table, live: multiset<Digest>, f: Frame, s: Spot) {
    && f.rlp == ItemOf(s.tree) && f.key == HexPrefix(s.path, false)
    && Canonical(s.tree) && Stored(main, s.tree) && Inner(s.tree) <= live
    && (f.child == ENTERING || (s.tree.Leaf? && f.child == 0) || (s.tree.Branch? && f.child <= 16))
  }

  /** What the frame of a branch shows of it. */
  lemma BranchFrame(main: Table, live: multiset<Digest>, f: Frame, s: Spot)
    requires FrameOk(main, live, f, s) && s.tree.Branch?
    ensures f.rlp.List? && |f.rlp.items| == 17 && |s.tree.children| == 16
    ensures forall i | 0 <= i <= 16 :: !f.rlp.items[i].IsEmpty() ==> InUse(s.tree.children, s.tree.value, i)
    ensures forall i: nat | i <= 16 :: FrameOk(main, live, f.(child := i), s)
  {
    BranchItems(s.tree);
  }

  ghost predicate FramesOk(main: Table, live: multiset<Digest>, trail: seq<Frame>, spots: seq<Spot>) {
    |trail| == |spots| && forall i | 0 <= i < |trail| :: FrameOk(main, live, trail[i], spots[i])
  }

  /** The entries under a frame that are still to be visited. */
  ghost function Pending(f: Frame, s: Spot): seq<Pair> {
    if f.child == ENTERING then Entries(s.tree, s.path)
    else if s.tree.Branch? then ChildrenFrom(s.tree, s.path, if f.child == 16 then 0 else f.child + 1)
    else []
  }

  /** The same over the whole stack, its top first. */
  ghost function PendingAll(trail: seq<Frame>, spots: seq<Spot>): seq<Pair>
    requires |trail| == |spots|
  {
    if trail == [] then []
    else Pending(trail[|trail| - 1], spots[|spots| - 1]) + PendingAll(trail[..|trail| - 1], spots[..|spots| - 1])
  }

  /** A frame that is at an entry, and that entry. */
  ghost predicate EntryTop(f: Frame, s: Spot) {
    (s.tree.Leaf? && f.child == 0) || (s.tree.Branch? && f.child == 16 && s.tree.value != [])
  }

  /** The stack is at the first of the entries es, the others pending. */
  ghost predicate Stops(trail: seq<Frame>, spots: seq<Spot>, es: seq<Pair>) {
    && |trail| == |spots| > 0
    && EntryTop(trail[|trail| - 1], spots[|spots| - 1])
    && es == [Pair(spots[|spots| - 1].path, spots[|spots| - 1].tree.value)] + PendingAll(trail, spots)
  }

  /** A turn that does not stop keeps the entries and leaves less to do. */
  ghost predicate GoesOn(trail: seq<Frame>, spots: seq<Spot>, es: seq<Pair>, work: nat) {
    |trail| == |spots| && PendingAll(trail, spots) == es && WorkAll(trail, spots) < work
  }

  // ----- Why the loops end -----

  ghost function Work(t: Tree): nat
    decreases t, 17
  {
    match t
    case Nil => 1
    case Leaf(_, _) => 2
    case Ext(_, child) => 1 + Work(child)
    case Branch(_, _) => 2 + WorkFrom(t, 0)
  }

  ghost function WorkFrom(t: Tree, j: nat): nat
    requires t.Branch?
    decreases t, if j < 16 then 16 - j else 0
  {
    if j >= 16 || j >= |t.children| then 0 else 1 + Work(t.children[j]) + WorkFrom(t, j + 1)
  }

  ghost function FrameWork(f: Frame, s: Spot): nat {
    if f.child == ENTERING then Work(s.tree)
    else if s.tree.Branch? then 1 + WorkFrom(s.tree, if f.child == 16 then 0 else f.child + 1)
    else 1
  }

  ghost function WorkAll(trail: seq<Frame>, spots: seq<Spot>): nat
    requires |trail| == |spots|
  {
    if trail == [] then 0
    else FrameWork(trail[|trail| - 1], spots[|spots| - 1]) + WorkAll(trail[..|trail| - 1], spots[..|spots| - 1])
  }

  // ----- One branch -----

  function Increment(child: nat): nat {
    if child == 16 then 0 else if child == 15 then EXITING else child + 1
  }

  /** The scan over a branch's entries: the first from child on that is in use. */
  method Scan(items: seq<Item>, child: nat) returns (c: nat)
    requires |items| == 17 && child <= EXITING
    ensures c <= EXITING && (c != EXITING ==> !items[c].IsEmpty())
    ensures Skipped(items, child, c)
  {
    c := child;
    while c != EXITING && items[c].IsEmpty()
      invariant c <= EXITING
      invariant forall x :: Skipped(items, c, x) ==> Skipped(items, child, x)
      decreases if c == 16 then 17 else 16 - c
    {
      c := Increment(c);
    }
  }

  /** Nothing is in use from child on before c. */
  ghost predicate Skipped(items: seq<Item>, child: nat, c: nat)
    requires |items| == 17 && child <= EXITING
    decreases if child == 16 then 18 else 17 - child
  {
    child == c || (child != EXITING && items[child].IsEmpty() && Skipped(items, Increment(child), c))
  }

  /** The entries of a branch from child on, child in the iterator's order. */
  ghost function From(t: Tree, p: Nibbles, child: nat): seq<Pair>
    requires t.Branch?
  {
    if child == 16 then Entries(t, p) else ChildrenFrom(t, p, child)
  }

  ghost function WorkAt(t: Tree, child: nat): nat
    requires t.Branch?
  {
    if child == 16 then WorkFrom(t, 0) else WorkFrom(t, child)
  }

  lemma SkipOne(t: Tree, p: Nibbles, child: nat)
    requires t.Branch? && |t.children| == 16 && child <= 16 && !InUse(t.children, t.value, child)
    ensures From(t, p, child) == From(t, p, Increment(child)) && WorkAt(t, Increment(child)) <= WorkAt(t, child)
  {
    if child == 16 {
      assert Entries(t, p) == ValueEntry(t.value, p) + ChildrenFrom(t, p, 0);
    } else {
      assert t.children[child] == Nil;
      assert ChildrenFrom(t, p, child) == [] + ChildrenFrom(t, p, child + 1);
      assert Increment(child) >= 16 || Increment(child) == child + 1;
    }
  }

  /** Skipping empty entries loses nothing. */
  lemma {:induction false} SkipLosesNothing(t: Tree, p: Nibbles, items: seq<Item>, child: nat, c: nat)
    requires Canonical(t) && t.Branch? && ItemOf(t) == List(items) && |items| == 17 && child <= EXITING
    requires Skipped(items, child, c)
    ensures From(t, p, child) == From(t, p, c)
    ensures WorkAt(t, c) <= WorkAt(t, child)
    decreases if child == 16 then 18 else 17 - child
  {
    BranchItems(t);
    if child != c {
      assert !InUse(t.children, t.value, child);
      SkipOne(t, p, child);
      SkipLosesNothing(t, p, items, Increment(child), c);
    }
  }

  /** Entering child c of a branch: its entries, then those of the later ones. */
  lemma EnterChild(t: Tree, p: Nibbles, c: nat)
    requires Canonical(t) && t.Branch? && c < 16
    ensures From(t, p, c) == Entries(t.children[c], p + [c as Nibble]) + ChildrenFrom(t, p, c + 1)
    ensures WorkAt(t, c) == 1 + Work(t.children[c]) + WorkFrom(t, c + 1)
  {
  }

  // ----- The stack -----

  lemma FramesPush(main: Table, live: multiset<Digest>, trail: seq<Frame>, spots: seq<Spot>, f: Frame, s: Spot)
    requires FramesOk(main, live, trail, spots) && FrameOk(main, live, f, s)
    ensures FramesOk(main, live, trail + [f], spots + [s])
  {
  }

  lemma FramesPop(main: Table, live: multiset<Digest>, trail: seq<Frame>, spots: seq<Spot>)
    requires FramesOk(main, live, trail, spots) && trail != []
    ensures FramesOk(main, live, trail[..|trail| - 1], spots[..|spots| - 1])
    ensures FrameOk(main, live, trail[|trail| - 1], spots[|spots| - 1])
  {
  }

  lemma PendingPush(trail: seq<Frame>, spots: seq<Spot>, f: Frame, s: Spot)
    requires |trail| == |spots|
    ensures PendingAll(trail + [f], spots + [s]) == Pending(f, s) + PendingAll(trail, spots)
    ensures WorkAll(trail + [f], spots + [s]) == FrameWork(f, s) + WorkAll(trail, spots)
  {
    assert (trail + [f])[..|trail|] == trail && (spots + [s])[..|spots|] == spots;
  }

  class Iterator {
    var that: TrieDB?
    var trail: seq<Frame>
    ghost var spots: seq<Spot>

    /** Every frame reads off the store what it stands for. */
    ghost predicate Sound()
      reads this, that, if that == null then {} else {that.db}
    {
      && |trail| == |spots|
      && (that == null ==> trail == [])
      && (that != null ==> that.db.Valid() && FramesOk(that.db.main, that.db.live, trail, spots))
    }

    /** The top frame is at an entry. */
    ghost predicate AtEntry()
      reads this
      requires |trail| == |spots| > 0
    {
      EntryTop(trail[|trail| - 1], spots[|spots| - 1])
    }

    /** Ended, or at an entry. */
    ghost predicate Valid()
      reads this, that, if that == null then {} else {that.db}
    {
      Sound() && (trail != [] ==> AtEntry())
    }

    /** The entry the iterator is at. */
    ghost function Current(): Pair
      reads this
      requires |trail| == |spots| > 0 && AtEntry()
    {
      Pair(spots[|spots| - 1].path, spots[|spots| - 1].tree.value)
    }

    /** The entries after it. */
    ghost function Todo(): seq<Pair>
      reads this
      requires |trail| == |spots|
    {
      PendingAll(trail, spots)
    }

    // ----- One turn of the loop -----

    /** Takes the top frame off. */
    method Pop()
      requires Sound() && trail != []
      modifies this`trail, this`spots
      ensures Sound() && trail == old(trail)[..|old(trail)| - 1] && spots == old(spots)[..|old(spots)| - 1]
    {
      FramesPop(that.db.main, that.db.live, trail, spots);
      trail, spots := trail[..|trail| - 1], spots[..|spots| - 1];
    }

    method Push(f: Frame, ghost s: Spot)
      requires Sound() && that != null && FrameOk(that.db.main, that.db.live, f, s)
      modifies this`trail, this`spots
      ensures Sound() && trail == old(trail) + [f] && spots == old(spots) + [s]
    {
      FramesPush(that.db.main, that.db.live, trail, spots, f, s);
      trail, spots := trail + [f], spots + [s];
    }

    /** The frame for child c of the branch f. */
    method ChildFrame(f: Frame, c: nat, ghost s: Spot) returns (g: Frame)
      requires that != null && that.db.Valid() && FrameOk(that.db.main, that.db.live, f, s)
      requires s.tree.Branch? && c < 16 && s.tree.children[c] != Nil
      ensures g == Frame(ItemOf(s.tree.children[c]), HexPrefix(s.path + [c as Nibble], false), ENTERING)
      ensures FrameOk(that.db.main, that.db.live, g, Spot(s.tree.children[c], s.path + [c as Nibble]))
    {
      ghost var t := s.tree.children[c];
      BranchItems(s.tree);
      KeyOfHexPrefix(s.path, false);
      assert StoredRef(that.db.main, t);
      OwnedAllElement(s.tree.children, c);
      var below := that.Deref(f.rlp.items[c], t);
      g := Frame(below, HexPrefix(KeyOf(f.key) + [c as Nibble], false), ENTERING);
    }

    /** The scan at the branch f just taken off, from child0: leaves it, stops
        at its value, or enters a child. */
    method TurnBranch(f: Frame, child0: nat, ghost s: Spot) returns (c: nat)
      requires Sound() && that != null && child0 <= EXITING && s.tree.Branch?
      requires FrameOk(that.db.main, that.db.live, f, s)
      modifies this`trail, this`spots
      ensures Sound() && f.rlp.List? && |f.rlp.items| == 17
      ensures Skipped(f.rlp.items, child0, c) && c <= EXITING
      ensures c < 16 ==> s.tree.children[c] != Nil
      ensures c == 16 ==> s.tree.value != []
      ensures trail == old(trail) + Scanned(f, s, c) && spots == old(spots) + ScannedSpots(s, c)
    {
      hide FrameOk, FramesOk, Skipped, HexPrefix, ItemOf, MemoryDB.Valid;
      BranchFrame(that.db.main, that.db.live, f, s);
      c := Scan(f.rlp.items, child0);
      if c == 16 {
        Push(f.(child := 16), s);
      } else if c < 16 {
        PushChild(f, c, s);
      }
    }

    /** Back on the stack at child c, and the child's frame on top. */
    method PushChild(f: Frame, c: nat, ghost s: Spot)
      requires Sound() && that != null && FrameOk(that.db.main, that.db.live, f, s)
      requires s.tree.Branch? && |s.tree.children| == 16 && c < 16 && s.tree.children[c] != Nil
      modifies this`trail, this`spots
      ensures Sound() && trail == old(trail) + Scanned(f, s, c) && spots == old(spots) + ScannedSpots(s, c)
    {
      hide FrameOk, FramesOk, HexPrefix, ItemOf, MemoryDB.Valid;
      BranchFrame(that.db.main, that.db.live, f, s);
      var g := ChildFrame(f, c, s);
      Push(f.(child := c), s);
      Push(g, Spot(s.tree.children[c], s.path + [c as Nibble]));
    }

    /** One turn of next(): stops at an entry, or leaves less to do. */
    method Turn() returns (done: bool)
      requires Sound() && trail != []
      modifies this`trail, this`spots
      ensures Sound()
      ensures done ==> Stops(trail, spots, PendingAll(old(trail), old(spots)))
      ensures !done ==> GoesOn(trail, spots, PendingAll(old(trail), old(spots)), WorkAll(old(trail), old(spots)))
    {
      var f := trail[|trail| - 1];
      ghost var s := spots[|spots| - 1];
      RefEmpty(s.tree);
      if s.tree.Branch? { BranchItems(s.tree); }
      Pop();
      if f.child == ENTERING && f.rlp.IsEmpty() {
        NothingPending(f, s, trail, spots);
        return false;
      }
      if f.child == ENTERING && |f.rlp.items| == 2 {
        done := TurnPair(f, s);
      } else if |f.rlp.items| != 17 {
        NothingPending(f, s, trail, spots);
        done := false;
      } else {
        done := TurnFrom(f, if f.child == ENTERING then 16 else Increment(f.child), s);
      }
    }

    /** The turn at a branch. */
    method TurnFrom(f: Frame, child0: nat, ghost s: Spot) returns (done: bool)
      requires Sound() && that != null && s.tree.Branch? && FrameOk(that.db.main, that.db.live, f, s)
      requires child0 == if f.child == ENTERING then 16 else Increment(f.child)
      modifies this`trail, this`spots
      ensures Sound()
      ensures done ==> Stops(trail, spots, Pending(f, s) + PendingAll(old(trail), old(spots)))
      ensures !done ==>
        GoesOn(trail, spots, Pending(f, s) + PendingAll(old(trail), old(spots)),
               FrameWork(f, s) + WorkAll(old(trail), old(spots)))
    {
      ghost var rest, below := trail, spots;
      var c := TurnBranch(f, child0, s);
      BranchTurned(rest, below, f, s, child0, c);
      PendingFrom(f, s);
      done := c == 16;
      if done { assert trail[|trail| - 1] == f.(child := 16) && spots[|spots| - 1] == s; }
    }

    /** The turn at a pair just entered: a leaf is an entry, an extension leads on. */
    method TurnPair(f: Frame, ghost s: Spot) returns (done: bool)
      requires Sound() && that != null && f.child == ENTERING && s.tree.TwoItem()
      requires FrameOk(that.db.main, that.db.live, f, s)
      modifies this`trail, this`spots
      ensures Sound()
      ensures done ==> Stops(trail, spots, Pending(f, s) + PendingAll(old(trail), old(spots)))
      ensures !done ==>
        GoesOn(trail, spots, Pending(f, s) + PendingAll(old(trail), old(spots)),
               FrameWork(f, s) + WorkAll(old(trail), old(spots)))
      ensures s.tree.Ext? ==> !done && spots == old(spots) + [Spot(s.tree.child, s.path + s.tree.key)]
      ensures s.tree.Ext? ==> exists g: Frame :: g.child == ENTERING && trail == old(trail) + [g]
      ensures s.tree.Leaf? ==> done
    {
      PairItems(s.tree);
      KeyOfHexPrefix(s.path, false);
      var key := HexPrefix(KeyOf(f.key) + KeyOf(f.rlp.items[0].bytes), false);
      if LeafBit(f.rlp.items[0].bytes) {
        LeafStops(trail, spots, Frame(f.rlp, key, 0), s);
        Push(Frame(f.rlp, key, 0), Spot(s.tree, s.path + s.tree.key));
        return true;
      }
      var node := that.Deref(f.rlp.items[1], s.tree.child);
      PendingPush(trail, spots, Frame(node, key, ENTERING), Spot(s.tree.child, s.path + s.tree.key));
      Push(Frame(node, key, ENTERING), Spot(s.tree.child, s.path + s.tree.key));
      return false;
    }

    /** The loop of next(). */
    method Advance()
      requires Sound()
      modifies this`trail, this`spots, this`that
      ensures Valid() && (that == old(that) || that == null)
      ensures if trail == [] then PendingAll(old(trail), old(spots)) == []
              else that == old(that) && Ahead(PendingAll(old(trail), old(spots)))
    {
      var done := false;
      while !done
        invariant Sound() && that == old(that)
        invariant done ==> Stops(trail, spots, PendingAll(old(trail), old(spots)))
        invariant !done ==> PendingAll(trail, spots) == PendingAll(old(trail), old(spots))
        decreases !done, WorkAll(trail, spots)
      {
        if trail == [] {
          that := null;
          return;
        }
        done := Turn();
      }
    }

    /** begin: at the first entry, if there is one. */
    constructor Begin(trie: TrieDB)
      requires trie.Valid()
      ensures Valid() && |trail| == |spots|
      ensures if trail == [] then Entries(trie.tree, []) == [] else that == trie && Ahead(Entries(trie.tree, []))
    {
      that, trail, spots := trie, [], [];
      new;
      Enter(trie);
      Advance();
    }

    /** The root node on the stack, about to be entered. */
    method Enter(trie: TrieDB)
      requires trie.Valid() && that == trie && trail == [] && spots == []
      modifies this`trail, this`spots
      ensures Sound() && spots == [Spot(trie.tree, [])]
      ensures trail == [Frame(ItemOf(trie.tree), HexPrefix([], false), ENTERING)]
      ensures PendingAll(trail, spots) == Entries(trie.tree, [])
    {
      RootGiven(trie.tree, trie.root, trie.others, trie.db.live);
      var node := trie.NodeAt(trie.root, trie.tree);
      var f := Frame(node, HexPrefix([], false), ENTERING);
      PendingPush([], [], f, Spot(trie.tree, []));
      assert [] + [f] == [f] && [] + [Spot(trie.tree, [])] == [Spot(trie.tree, [])];
      Push(f, Spot(trie.tree, []));
    }

    /** next, the increment: to the entry after this one, or past the end. */
    method Next()
      requires Valid()
      modifies this`trail, this`spots, this`that
      ensures Valid() && (that == old(that) || that == null)
      ensures if trail == [] then old(Todo()) == [] else that == old(that) && Ahead(old(Todo()))
    {
      Advance();
    }

    /** at: key and value where the iterator is, for keys of whole bytes. */
    method At() returns (key: Bytes, value: Bytes)
      requires Valid() && trail != [] && Even(Current().key)
      ensures NibblesOf(key) == Current().key && value == Current().value
    {
      var b := trail[|trail| - 1];
      ghost var s := spots[|spots| - 1];
      EvenPath(s.path);
      key := b.key[1..];
      if s.tree.Branch? { BranchItems(s.tree); }
      value := b.rlp.items[if |b.rlp.items| == 2 then 1 else 16].bytes;
    }

    /** The entries from the current one on. */
    ghost predicate Ahead(es: seq<Pair>)
      reads this
    {
      Stops(trail, spots, es)
    }

    lemma Room(es: seq<Pair>)
      requires Valid() && trail != [] && Ahead(es)
      ensures es != []
    {
    }

    /** Reads the current pair and moves on. */
    method Take(ghost es: seq<Pair>) returns (key: Bytes, value: Bytes)
      requires Valid() && trail != [] && Ahead(es) && Even(es[0].key)
      modifies this`trail, this`spots, this`that
      ensures Valid() && (that == old(that) || that == null)
      ensures NibblesOf(key) == es[0].key && value == es[0].value
      ensures if trail == [] then |es| == 1 else that == old(that) && Ahead(es[1..])
    {
      assert es[1..] == Todo();
      key, value := At();
      Advance();
    }

    // ----- lower_bound -----

    /** One turn of next(key): k is what is left of the key below the top frame. */
    method SeekTurn(k: Nibbles) returns (done: bool, k': Nibbles)
      requires Sound() && trail != [] && (trail[|trail| - 1].child != ENTERING ==> k == [])
      modifies this`trail, this`spots
      ensures Sound()
      ensures done ==> Stops(trail, spots, SoughtAll(old(trail), old(spots), k))
      ensures !done ==> SoughtAll(trail, spots, k') == SoughtAll(old(trail), old(spots), k)
      ensures !done ==> WorkAll(trail, spots) < WorkAll(old(trail), old(spots))
      ensures trail != [] && trail[|trail| - 1].child != ENTERING ==> k' == []
    {
      if k == [] {
        done := SeekDone();
        k' := [];
      } else {
        var f := trail[|trail| - 1];
        ghost var s := spots[|spots| - 1];
        Pop();
        done, k' := SeekFrame(f, k, s);
      }
    }

    /** The turn when nothing is left of the key. */
    method SeekDone() returns (done: bool)
      requires Sound() && trail != []
      modifies this`trail, this`spots
      ensures Sound()
      ensures done ==> Stops(trail, spots, SoughtAll(old(trail), old(spots), []))
      ensures !done ==> SoughtAll(trail, spots, []) == SoughtAll(old(trail), old(spots), [])
      ensures !done ==> WorkAll(trail, spots) < WorkAll(old(trail), old(spots))
    {
      SoughtNothing(trail, spots);
      done := Turn();
      SoughtNothing(trail, spots);
    }

    /** The turn when k is left of it, at the frame f just taken off. */
    method SeekFrame(f: Frame, k: Nibbles, ghost s: Spot) returns (done: bool, k': Nibbles)
      requires Sound() && that != null && f.child == ENTERING && k != []
      requires FrameOk(that.db.main, that.db.live, f, s)
      modifies this`trail, this`spots
      ensures Sound()
      ensures done ==>
        Stops(trail, spots, NotBefore(Entries(s.tree, s.path), s.path + k) + PendingAll(old(trail), old(spots)))
      ensures !done ==>
        SoughtAll(trail, spots, k')
          == NotBefore(Entries(s.tree, s.path), s.path + k) + PendingAll(old(trail), old(spots))
      ensures !done ==> WorkAll(trail, spots) < FrameWork(f, s) + WorkAll(old(trail), old(spots))
      ensures trail != [] && trail[|trail| - 1].child != ENTERING ==> k' == []
    {
      RefEmpty(s.tree);
      if f.rlp.IsEmpty() {
        done, k' := false, [];
        SoughtNothing(trail, spots);
        return;
      }
      hide MemoryDB.Valid, NoLone, RefOf, Owned, Inner, Entries, NotBefore, SoughtAll, PendingAll, WorkAll, FrameWork;
      if |f.rlp.items| == 2 {
        done, k' := SeekPair(f, k, s);
      } else {
        k' := SeekBranch(f, k, s);
        done := false;
      }
    }

    /** The turn of next(key) at a branch: straight to the child the key names. */
    method SeekBranch(f: Frame, k: Nibbles, ghost s: Spot) returns (k': Nibbles)
      requires Sound() && that != null && s.tree.Branch? && f.child == ENTERING && k != []
      requires FrameOk(that.db.main, that.db.live, f, s)
      modifies this`trail, this`spots
      ensures Sound()
      ensures SoughtAll(trail, spots, k')
           == NotBefore(Entries(s.tree, s.path), s.path + k) + PendingAll(old(trail), old(spots))
      ensures WorkAll(trail, spots) < FrameWork(f, s) + WorkAll(old(trail), old(spots))
      ensures trail != [] && trail[|trail| - 1].child != ENTERING ==> k' == []
    {
      ghost var rest, below := trail, spots;
      var c := TurnBranch(f, k[0] as nat, s);
      k' := if c == k[0] as nat then k[1..] else [];
      BranchSought(rest, below, f, s, k, c);
    }

    /** The turn of next(key) at a pair: on with it, around it, or past it. */
    method SeekPair(f: Frame, k: Nibbles, ghost s: Spot) returns (done: bool, k': Nibbles)
      requires Sound() && that != null && f.child == ENTERING && s.tree.TwoItem()
      requires FrameOk(that.db.main, that.db.live, f, s)
      modifies this`trail, this`spots
      ensures Sound()
      ensures done ==>
        Stops(trail, spots, NotBefore(Entries(s.tree, s.path), s.path + k) + PendingAll(old(trail), old(spots)))
      ensures !done ==>
        SoughtAll(trail, spots, k')
          == NotBefore(Entries(s.tree, s.path), s.path + k) + PendingAll(old(trail), old(spots))
      ensures !done ==> WorkAll(trail, spots) < FrameWork(f, s) + WorkAll(old(trail), old(spots))
      ensures trail != [] && trail[|trail| - 1].child != ENTERING ==> k' == []
    {
      var skip;
      skip, k' := PairKey(f, k, s);
      if skip {
        SoughtNothing(trail, spots);
        return false, [];
      }
      done := TurnPair(f, s);
      if s.tree.Ext? { PairEntered(old(trail), old(spots), trail, spots, s, k'); }
    }

    /** Where a pair stands to the key: skipped if all below it comes before. */
    method PairKey(f: Frame, k: Nibbles, ghost s: Spot) returns (skip: bool, k': Nibbles)
      requires f.rlp == ItemOf(s.tree) && Canonical(s.tree) && s.tree.TwoItem()
      ensures skip ==> NotBefore(Entries(s.tree, s.path), s.path + k) == []
      ensures !skip && s.tree.Leaf? ==>
                k' == [] && NotBefore(Entries(s.tree, s.path), s.path + k) == Entries(s.tree, s.path)
      ensures !skip && s.tree.Ext? ==>
        NotBefore(Entries(s.tree, s.path), s.path + k)
          == NotBefore(Entries(s.tree.child, s.path + s.tree.key), (s.path + s.tree.key) + k')
    {
      PairItems(s.tree);
      var q, leaf := KeyOf(f.rlp.items[0].bytes), LeafBit(f.rlp.items[0].bytes);
      k' := k;
      PairSought(s, k);
      if !(q <= k) {
        var earlier := IsEarlierThan(k, q);
        if !earlier { return true, []; }
        k' := [];
        if s.tree.Ext? { NotBeforeStart(s.tree.child, s.path + q); }
      }
      k' := k'[if |k'| < |q| then |k'| else |q|..];
      // a leaf whose key ends before the key looked for is skipped
      skip := leaf && k' != [];
    }

    /** lower_bound: at the first entry that is not before the key. */
    constructor LowerBound(trie: TrieDB, key: Nibbles)
      requires trie.Valid()
      ensures Valid() && |trail| == |spots|
      ensures if trail == [] then NotBefore(Entries(trie.tree, []), key) == []
              else that == trie && Ahead(NotBefore(Entries(trie.tree, []), key))
    {
      that, trail, spots := trie, [], [];
      new;
      Enter(trie);
      ghost var want := NotBefore(Entries(trie.tree, []), key);
      assert [] + key == key && want + PendingAll([], []) == want;
      var k, done := key, false;
      while !done
        invariant Sound() && that == trie
        invariant done ==> Stops(trail, spots, want)
        invariant !done ==> SoughtAll(trail, spots, k) == want
        invariant trail != [] && trail[|trail| - 1].child != ENTERING ==> k == []
        decreases !done, WorkAll(trail, spots)
      {
        if trail == [] {
          that := null;
          return;
        }
        done, k := SeekTurn(k);
      }
    }
  }

  lemma PairEntered(trail0: seq<Frame>, spots0: seq<Spot>, trail: seq<Frame>, spots: seq<Spot>, s: Spot, k: Nibbles)
    requires |trail0| == |spots0| && |trail| == |spots| && s.tree.Ext?
    requires exists f: Frame :: f.child == ENTERING && trail == trail0 + [f]
    requires spots == spots0 + [Spot(s.tree.child, s.path + s.tree.key)]
    ensures SoughtAll(trail, spots, k)
      == NotBefore(Entries(s.tree.child, s.path + s.tree.key), (s.path + s.tree.key) + k) + PendingAll(trail0, spots0)
  {
    assert trail[..|trail| - 1] == trail0 && spots[..|spots| - 1] == spots0;
  }

  /** The entries from what is left of the key on. */
  ghost function SoughtAll(trail: seq<Frame>, spots: seq<Spot>, k: Nibbles): seq<Pair>
    requires |trail| == |spots|
  {
    if trail == [] then []
    else
      var f, s := trail[|trail| - 1], spots[|spots| - 1];
      if f.child == ENTERING then
        NotBefore(Entries(s.tree, s.path), s.path + k) + PendingAll(trail[..|trail| - 1], spots[..|spots| - 1])
      else PendingAll(trail, spots)
  }

  /** With nothing left of the key, all that is pending is sought. */
  lemma SoughtNothing(trail: seq<Frame>, spots: seq<Spot>)
    requires |trail| == |spots|
    ensures SoughtAll(trail, spots, []) == PendingAll(trail, spots)
  {
    if trail != [] { NotBeforeStart(spots[|spots| - 1].tree, spots[|spots| - 1].path); }
  }

  lemma EvenPath(path: Nibbles)
    requires Even(path)
    ensures NibblesOf(HexPrefix(path, false)[1..]) == path
  {
    assert Lead(false, false) + path == [0, 0] + path;
    assert ([0 as Nibble, 0] + path)[2..] == path;
    NibblesOfPack(path);
  }

  /** At a pair the entries sought are below it, all of them, or none. */
  lemma PairSought(s: Spot, k: Nibbles)
    requires Canonical(s.tree) && s.tree.TwoItem()
    ensures var t, p, q := s.tree, s.path, s.tree.key;
            var sought := NotBefore(Entries(t, p), p + k);
            && (!(q <= k) ==> sought == if Less(k, q) then Entries(t, p) else [])
            && (q <= k && t.Ext? ==> sought == NotBefore(Entries(t.child, p + q), (p + q) + k[|q|..]))
            && (q <= k && t.Leaf? ==> sought == if |q| == |k| then Entries(t, p) else [])
  {
    var t, p, q := s.tree, s.path, s.tree.key;
    if !(q <= k) {
      NotBeforePair(if t.Leaf? then Leaf([], t.value) else t.child, p, q, k);
      assert t.Leaf? ==> Entries(Leaf([], t.value), p + q) == [Pair(p + q + [], t.value)] && p + q + [] == p + q;
    } else {
      assert p + k == (p + q) + k[|q|..];
      if t.Leaf? {
        PrefixNotLess(p + q, k[|q|..]);
        if |q| == |k| { NotBeforeAll(Entries(t, p), p + k); } else { NotBeforeNone(Entries(t, p), p + k); }
      }
    }
  }

  /** The scan for the child the key names leaves what is sought. */
  lemma BranchSought(rest: seq<Frame>, below: seq<Spot>, f: Frame, s: Spot, k: Nibbles, c: nat)
    requires |rest| == |below| && Canonical(s.tree) && s.tree.Branch? && f.rlp == ItemOf(s.tree) && |f.rlp.items| == 17
    requires f.child == ENTERING && k != [] && c <= EXITING && Skipped(f.rlp.items, k[0] as nat, c)
    ensures c != 16
    ensures var trail, spots := rest + Scanned(f, s, c), below + ScannedSpots(s, c);
            |trail| == |spots|
            && SoughtAll(trail, spots, if c == k[0] as nat then k[1..] else [])
                 == NotBefore(Entries(s.tree, s.path), s.path + k) + PendingAll(rest, below)
            && WorkAll(trail, spots) < FrameWork(f, s) + WorkAll(rest, below)
  {
    NeverBack(f.rlp.items, k[0] as nat, c);
    var t, p, c0 := s.tree, s.path, k[0] as nat;
    NotBeforeBranch(t, p, k);
    BranchTurned(rest, below, f, s, c0, c);
    WorkFromLess(t, 0, c0);
    if c == c0 {
      ChildSought(rest, below, f, s, k);
    } else {
      SoughtNothing(rest + Scanned(f, s, c), below + ScannedSpots(s, c));
      EmptyChildSought(t, p, f.rlp.items, k);
    }
  }

  /** When the child the key names is empty, the later ones are what is sought. */
  lemma EmptyChildSought(t: Tree, p: Nibbles, items: seq<Item>, k: Nibbles)
    requires Canonical(t) && t.Branch? && ItemOf(t) == List(items) && |items| == 17 && k != []
    requires items[k[0]].IsEmpty()
    ensures NotBefore(Entries(t, p), p + k) == From(t, p, k[0] as nat)
  {
    var c0 := k[0] as nat;
    BranchItems(t);
    assert !InUse(t.children, t.value, c0) && t.children[c0] == Nil;
    NotBeforeBranch(t, p, k);
    assert From(t, p, c0) == [] + ChildrenFrom(t, p, c0 + 1);
    assert NotBefore(Entries(Nil, p + [k[0]]), (p + [k[0]]) + k[1..]) == [];
  }

  lemma ChildSought(rest: seq<Frame>, below: seq<Spot>, f: Frame, s: Spot, k: Nibbles)
    requires |rest| == |below| && Canonical(s.tree) && s.tree.Branch? && k != []
    ensures var c := k[0] as nat;
            var trail, spots := rest + Scanned(f, s, c), below + ScannedSpots(s, c);
            |trail| == |spots| && SoughtAll(trail, spots, k[1..])
              == NotBefore(Entries(s.tree.children[c], s.path + [k[0]]), (s.path + [k[0]]) + k[1..])
                 + ChildrenFrom(s.tree, s.path, c + 1) + PendingAll(rest, below)
  {
    var c := k[0] as nat;
    var h, u := Scanned(f, s, c)[1], ScannedSpots(s, c)[1];
    SoughtTwo(rest, below, f.(child := c), s, h, u, k[1..]);
    Assoc(NotBefore(Entries(u.tree, u.path), u.path + k[1..]), ChildrenFrom(s.tree, s.path, c + 1),
          PendingAll(rest, below));
  }

  lemma SoughtTwo(rest: seq<Frame>, below: seq<Spot>, g: Frame, s: Spot, h: Frame, u: Spot, k: Nibbles)
    requires |rest| == |below| && h.child == ENTERING
    ensures SoughtAll(rest + [g, h], below + [s, u], k)
      == NotBefore(Entries(u.tree, u.path), u.path + k) + (Pending(g, s) + PendingAll(rest, below))
  {
    PendingPush(rest, below, g, s);
    SoughtPush(rest + [g], below + [s], h, u, k);
    hide SoughtAll, PendingAll, Pending, Entries, NotBefore;
    assert rest + [g] + [h] == rest + [g, h] && below + [s] + [u] == below + [s, u];
  }

  lemma SoughtPush(trail: seq<Frame>, spots: seq<Spot>, h: Frame, u: Spot, k: Nibbles)
    requires |trail| == |spots| && h.child == ENTERING
    ensures SoughtAll(trail + [h], spots + [u], k)
      == NotBefore(Entries(u.tree, u.path), u.path + k) + PendingAll(trail, spots)
  {
    assert (trail + [h])[..|trail|] == trail && (spots + [u])[..|spots|] == spots;
    assert (trail + [h])[|trail|] == h && (spots + [u])[|spots|] == u;
  }

  lemma {:induction false} NeverBack(items: seq<Item>, child: nat, c: nat)
    requires |items| == 17 && child <= EXITING && child != 16 && Skipped(items, child, c)
    ensures c != 16
    decreases EXITING - child
  {
    if child != c { NeverBack(items, Increment(child), c); }
  }

  lemma {:induction false} WorkFromLess(t: Tree, i: nat, j: nat)
    requires t.Branch? && i <= j
    ensures WorkFrom(t, j) <= WorkFrom(t, i)
    decreases j - i
  {
    if i < j && i < 16 && i < |t.children| { WorkFromLess(t, i + 1, j); }
  }

  lemma NothingPending(f: Frame, s: Spot, rest: seq<Frame>, below: seq<Spot>)
    requires |rest| == |below| && !s.tree.Branch? && (f.child == ENTERING ==> s.tree == Nil)
    ensures GoesOn(rest, below, Pending(f, s) + PendingAll(rest, below), FrameWork(f, s) + WorkAll(rest, below))
  {
  }

  lemma LeafStops(rest: seq<Frame>, below: seq<Spot>, g: Frame, s: Spot)
    requires |rest| == |below| && s.tree.Leaf? && g.child == 0
    ensures Stops(rest + [g], below + [Spot(s.tree, s.path + s.tree.key)],
                  Entries(s.tree, s.path) + PendingAll(rest, below))
  {
    var u := Spot(s.tree, s.path + s.tree.key);
    PendingPush(rest, below, g, u);
    assert (rest + [g])[|rest|] == g && (below + [u])[|below|] == u;
    assert PendingAll(rest + [g], below + [u]) == PendingAll(rest, below);
  }

  /** What is pending at a branch is what its scan starts from. */
  lemma PendingFrom(f: Frame, s: Spot)
    requires s.tree.Branch? && |s.tree.children| == 16 && (f.child == ENTERING || f.child <= 16)
    ensures var child0 := if f.child == ENTERING then 16 else Increment(f.child);
            Pending(f, s) == From(s.tree, s.path, child0) && WorkAt(s.tree, child0) < FrameWork(f, s)
  {
  }

  ghost function Scanned(f: Frame, s: Spot, c: nat): seq<Frame>
    requires s.tree.Branch? && (c < 16 ==> c < |s.tree.children|)
  {
    if c == EXITING then []
    else if c >= 16 then [f.(child := 16)]
    else [f.(child := c), Frame(ItemOf(s.tree.children[c]), HexPrefix(s.path + [c as Nibble], false), ENTERING)]
  }

  ghost function ScannedSpots(s: Spot, c: nat): seq<Spot>
    requires s.tree.Branch? && (c < 16 ==> c < |s.tree.children|)
  {
    if c == EXITING then [] else if c >= 16 then [s] else [s, Spot(s.tree.children[c], s.path + [c as Nibble])]
  }

  /** What the scan leaves on the stack is what was pending from child0 on. */
  lemma BranchTurned(rest: seq<Frame>, below: seq<Spot>, f: Frame, s: Spot, child0: nat, c: nat)
    requires |rest| == |below| && Canonical(s.tree) && s.tree.Branch? && f.rlp == ItemOf(s.tree) && |f.rlp.items| == 17
    requires child0 <= EXITING && c <= EXITING && Skipped(f.rlp.items, child0, c) && (c == 16 ==> s.tree.value != [])
    ensures var trail, spots := rest + Scanned(f, s, c), below + ScannedSpots(s, c);
            |trail| == |spots|
            && (if c == 16 then [Pair(s.path, s.tree.value)] else []) + PendingAll(trail, spots)
                 == From(s.tree, s.path, child0) + PendingAll(rest, below)
            && (c != 16 ==> WorkAll(trail, spots) <= WorkAt(s.tree, child0) + WorkAll(rest, below))
  {
    SkipLosesNothing(s.tree, s.path, f.rlp.items, child0, c);
    ScannedPending(rest, below, f, s, c);
    if c == 16 { assert Entries(s.tree, s.path) == [Pair(s.path, s.tree.value)] + ChildrenFrom(s.tree, s.path, 0); }
    Assoc(if c == 16 then [Pair(s.path, s.tree.value)] else [], ScannedEntries(s, c), PendingAll(rest, below));
  }

  /** What is pending on the frames that a scan leaves. */
  ghost function ScannedEntries(s: Spot, c: nat): seq<Pair>
    requires s.tree.Branch?
  {
    if c == 16 then ChildrenFrom(s.tree, s.path, 0) else ChildrenFrom(s.tree, s.path, c)
  }

  lemma Assoc<T>(a: seq<T>, b: seq<T>, c: seq<T>)
    ensures a + (b + c) == a + b + c
  {
  }

  lemma ScannedPending(rest: seq<Frame>, below: seq<Spot>, f: Frame, s: Spot, c: nat)
    requires |rest| == |below| && Canonical(s.tree) && s.tree.Branch? && c <= EXITING
    ensures var trail, spots := rest + Scanned(f, s, c), below + ScannedSpots(s, c);
            |trail| == |spots|
            && PendingAll(trail, spots) == ScannedEntries(s, c) + PendingAll(rest, below)
            && (c != 16 ==> WorkAll(trail, spots) <= WorkAt(s.tree, c) + WorkAll(rest, below))
  {
    if c == EXITING {
      assert rest + [] == rest && below + [] == below;
    } else if c == 16 {
      PendingPush(rest, below, f.(child := 16), s);
    } else {
      var h, u := Scanned(f, s, c)[1], ScannedSpots(s, c)[1];
      PushTwo(rest, below, f.(child := c), s, h, u);
      EnterChild(s.tree, s.path, c);
      Assoc(Pending(h, u), ChildrenFrom(s.tree, s.path, c + 1), PendingAll(rest, below));
    }
  }

  lemma PushTwo(rest: seq<Frame>, below: seq<Spot>, g: Frame, s: Spot, h: Frame, u: Spot)
    requires |rest| == |below|
    ensures PendingAll(rest + [g, h], below + [s, u]) == Pending(h, u) + (Pending(g, s) + PendingAll(rest, below))
    ensures WorkAll(rest + [g, h], below + [s, u]) == FrameWork(h, u) + FrameWork(g, s) + WorkAll(rest, below)
  {
    PendingPush(rest, below, g, s);
    PendingPush(rest + [g], below + [s], h, u);
    assert rest + [g] + [h] == rest + [g, h] && below + [s] + [u] == below + [s, u];
  }

  // ----- What iteration amounts to -----

  /** The pairs read are the first entries, their keys as bytes. */
  ghost predicate AreEntries(s: seq<(Bytes, Bytes)>, es: seq<Pair>) {
    |s| <= |es| && forall i | 0 <= i < |s| :: NibblesOf(s[i].0) == es[i].key && s[i].1 == es[i].value
  }

  lemma Tail(es: seq<Pair>, n: nat)
    requires n < |es|
    ensures es[n..][0] == es[n] && es[n..][1..] == es[n + 1..] && |es[n..]| == |es| - n
  {
  }

  lemma OneMore(s: seq<(Bytes, Bytes)>, es: seq<Pair>, k: Bytes, v: Bytes)
    requires AreEntries(s, es) && |s| < |es| && NibblesOf(k) == es[|s|].key && v == es[|s|].value
    ensures AreEntries(s + [(k, v)], es)
  {
  }

  /** From begin to end: every stored pair, each once, in order of keys. */
  method Collect(trie: TrieDB) returns (s: seq<(Bytes, Bytes)>)
    requires trie.Valid() && forall k :: At(trie.tree, k) != [] ==> Even(k)
    ensures |s| == |Entries(trie.tree, [])| && AreEntries(s, Entries(trie.tree, []))
  {
    EntriesEven(trie.tree);
    hide Entries, At, MemoryDB.Valid, Stops;
    var it := new Iterator.Begin(trie);
    s := TakeAll(it, Entries(trie.tree, []));
  }

  /** Reads on until the iterator ends. */
  method TakeAll(it: Iterator, ghost all: seq<Pair>) returns (s: seq<(Bytes, Bytes)>)
    requires it.Valid() && (if it.trail == [] then all == [] else it.Ahead(all))
    requires forall i | 0 <= i < |all| :: Even(all[i].key)
    modifies it
    ensures |s| == |all| && AreEntries(s, all)
  {
    hide Stops, AreEntries, FramesOk, MemoryDB.Valid, Even;
    s := [];
    assert all[0..] == all && AreEntries(s, all) by { NoneYet(all); }
    while it.trail != []
      invariant it.Valid() && |s| <= |all| && AreEntries(s, all)
      invariant if it.trail == [] then |s| == |all| else it.Ahead(all[|s|..])
      decreases |all| - |s|, it.trail != []
    {
      it.Room(all[|s|..]);
      Tail(all, |s|);
      var k, v := it.Take(all[|s|..]);
      OneMore(s, all, k, v);
      s := s + [(k, v)];
    }
  }

  lemma NoneYet(es: seq<Pair>)
    ensures AreEntries([], es) && es[0..] == es
  {
  }

  lemma EntriesEven(t: Tree)
    requires Canonical(t) && forall k :: At(t, k) != [] ==> Even(k)
    ensures forall i | 0 <= i < |Entries(t, [])| :: Even(Entries(t, [])[i].key)
  {
    var all := Entries(t, []);
    forall i | 0 <= i < |all| ensures Even(all[i].key) {
      EntriesHaveValues(t, []);
      EntriesComplete(t, [], all[i].key, all[i].value);
      assert [] + all[i].key == all[i].key;
    }
  }

  lemma {:induction false} EntriesHaveValues(t: Tree, p: Nibbles)
    requires Canonical(t)
    ensures forall i | 0 <= i < |Entries(t, p)| :: Entries(t, p)[i].value != []
    decreases t, 17
  {
    match t
    case Nil =>
    case Leaf(_, _) =>
    case Ext(key, child) => EntriesHaveValues(child, p + key);
    case Branch(_, _) => ChildrenHaveValues(t, p, 0);
  }

  lemma {:induction false} ChildrenHaveValues(t: Tree, p: Nibbles, j: nat)
    requires Canonical(t) && t.Branch?
    ensures forall i | 0 <= i < |ChildrenFrom(t, p, j)| :: ChildrenFrom(t, p, j)[i].value != []
    decreases t, if j < 16 then 16 - j else 0
  {
    if j < 16 {
      EntriesHaveValues(t.children[j], p + [j as Nibble]);
      ChildrenHaveValues(t, p, j + 1);
    }
  }

  /** The order is the order on keys, so no pair comes twice, and the pairs are
      the stored ones. */
  lemma VisitsTheContents(t: Tree)
    requires Canonical(t)
    ensures Ascending(Entries(t, []))
    ensures forall k, v | v != [] :: Pair(k, v) in Entries(t, []) <==> At(t, k) == v
  {
    EntriesAscend(t, []);
    forall k, v | v != [] ensures Pair(k, v) in Entries(t, []) <==> At(t, k) == v {
      EntriesComplete(t, [], k, v);
      assert [] + k == k;
    }
  }

  /** What lower_bound visits: the stored pairs whose key is not before the key
      asked for, the least of them first. */
  lemma LowerBoundIsLeast(t: Tree, key: Nibbles)
    requires Canonical(t)
    ensures var s := NotBefore(Entries(t, []), key);
            Ascending(s) && forall k, v | v != [] :: Pair(k, v) in s <==> At(t, k) == v && !Less(k, key)
  {
    VisitsTheContents(t);
    NotBeforeLeast(Entries(t, []), key);
  }
}
