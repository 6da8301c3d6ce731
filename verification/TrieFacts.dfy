/** The accounting behind insertion and removal: which references a step gives
    up, which it takes, and that every node stays where it can be found. */
module TrieFacts {
  import opened Bytes
  import opened Rlp
  import opened TrieCommon
  import opened Trie
  import opened TrieEdit
  import opened TrieNode
  import opened MemoryDb
  import opened Balance

  /** Nodes that mergeAt meets: the parts below them are canonical, they
      themselves may be a cleaved pair or a lone branch. */
  ghost predicate Sound(t: Tree) {
    Shape(t)
    && (t.Leaf? ==> t.value != [])
    && (t.Ext? ==> Canonical(t.child) && t.child != Nil)
    && (t.Branch? ==> forall i | 0 <= i < 16 :: Canonical(t.children[i]))
  }

  lemma CanonicalSound(t: Tree)
    requires Canonical(t)
    ensures Sound(t)
  {
    CanonicalShape(t);
  }

  /** A node that a retry step hands on without storing it. */
  ghost predicate InFlight(t: Tree, k: Nibbles) {
    (t.Ext? && Meets(t, k)) || LoneItem(ItemOf(t))
  }

  /** What the caller of mergeAt owns: a stored node its own reference too. */
  ghost function Given(t: Tree, inLine: bool): multiset<Digest> {
    if inLine then Inner(t) else Owned(t)
  }

  /** An extension with the new child in place of the old one. */
  lemma BelowPut(t: Tree, k: Nibbles, v: Bytes, items: seq<Item>, x: Item, main: Table)
    requires Shape(t) && t.Ext? && t.key != [] && t.key <= k && Shape(t.child)
    requires ItemOf(t) == List(items) && |items| == 2
    requires var c := Put(t.child, k[|t.key|..], v);
      x == RefOf(c) && StoredRef(main, c)
    ensures var u := Put(t, k, v);
      && List([items[0], x]) == ItemOf(u) && Stored(main, u)
      && Inner(u) == Owned(Put(t.child, k[|t.key|..], v))
  {
  }

  lemma RootGiven(t: Tree, root: Digest, others: Refs, live: Refs)
    requires root == Sha3(Node(t)) && live == others + Inner(t) + multiset{root}
    ensures Owned(t) <= live && Inner(t) <= live && root in live
  {
  }

  /** mergeAt and deleteAt release the old root if it was long; if it was short,
      its reference is still there to be released. */
  lemma RootReleased(t: Tree, u: Tree, root: Digest, others: Refs, live0: Refs, live1: Refs)
    requires root == Sha3(Node(t)) && live0 == others + Inner(t) + multiset{root}
    requires live1 + Owned(t) == live0 + Inner(u)
    ensures live1 == others + Inner(u) + (if Hashed(t) then multiset{} else multiset{root})
  {
    var extra := if Hashed(t) then multiset{} else multiset{root};
    forall h ensures live1[h] == (others + Inner(u) + extra)[h] {
      assert (live1 + Owned(t))[h] == (live0 + Inner(u))[h];
    }
    assert live1 == others + Inner(u) + extra;
  }

  lemma StoredExtendsIf(done: bool, a: Table, b: Table, t: Tree)
    requires Stored(a, t) && (done ==> Extends(a, b))
    ensures done ==> Stored(b, t)
  {
    if done { StoredExtends(a, b, t); }
  }

  lemma EntryItem(t: Tree, items: seq<Item>, n: nat, x: Item, c: Tree)
    requires t.Branch? && |t.children| == 16 && n < 16 && ItemOf(t) == List(items) && |items| == 17 && x == RefOf(c)
    ensures List(items[n := x]) == ItemOf(Branch(t.children[n := c], t.value))
  {
    BranchItems(t);
    ItemsMakeBranch(Branch(t.children[n := c], t.value), items[n := x]);
  }

  /** A branch about to be collapsed. */
  ghost predicate CanonicalChildren(b: Tree)
    requires b.Branch?
  {
    && |b.children| == 16
    && forall i | 0 <= i < 16 :: Canonical(b.children[i])
  }

  lemma CanonicalEntry(t: Tree, n: nat, c: Tree)
    requires Canonical(t) && t.Branch? && n < 16 && Canonical(c)
    ensures |t.children| == 16 && CanonicalChildren(Branch(t.children[n := c], t.value))
  {
  }

  lemma EntryChanged(t: Tree, n: nat, c: Tree, given: Refs, live0: Refs, live1: Refs, live2: Refs)
    requires t.Branch? && n < |t.children|
    requires live1 + given == live0 + Inner(t)
    requires live2 + Owned(t.children[n]) == live1 + Owned(c)
    ensures live2 + given == live0 + Inner(Branch(t.children[n := c], t.value))
  {
    var u := Branch(t.children[n := c], t.value);
    OwnedAllUpdate(t.children, n, c);
    Part(live1, live2, Inner(t), Inner(u), Owned(t.children[n]), Owned(c));
    Chain(live0, live1, live2, given, Inner(t), Inner(u));
  }

  /** The node's own reference is given up before the descent. */
  lemma Killed(t: Tree, inLine: bool, live: multiset<Digest>)
    requires Given(t, inLine) <= live
    ensures var after := if inLine then live else live - Self(t);
            Inner(t) <= after && after + Given(t, inLine) == live + Inner(t)
  {
    if !inLine { Room(live, Inner(t), Self(t)); }
  }

  /** place gives up the node's own reference, or had none to give up. */
  lemma Placed(t: Tree, inLine: bool, live: multiset<Digest>)
    requires Given(t, inLine) <= live
    ensures !inLine ==> (live - Self(t)) + Given(t, inLine) == live + Inner(t)
    ensures inLine && !Hashed(t) ==> (live - Self(t)) + Given(t, inLine) == live + Inner(t)
    ensures inLine ==> live + Given(t, inLine) == live + Inner(t)
  {
    Killed(t, inLine, live);
  }

  lemma NotMeeting(t: Tree, k: Nibbles, inLine: bool)
    requires Sound(t) && t.TwoItem() && !Meets(t, k) && Canonical(t)
    requires inLine && Hashed(t) ==> InFlight(t, k)
    ensures Owned(t) == Given(t, inLine)
    ensures t.Ext? ==> Shared(k, t.key) < |t.key|
  {
    PairItems(t);
    assert t.key[..|t.key|] == t.key;
  }

  /** Cleaving leaves a pair that insertion goes on below. */
  lemma CleveReady(t: Tree, k: Nibbles, n: nat)
    requires Canonical(t) && t.TwoItem() && n == Shared(k, t.key) && 0 < n && (t.Ext? ==> n < |t.key|)
    ensures Shape(t) && Sound(Cleve(t, n)) && Meets(Cleve(t, n), k)
    ensures Inner(Cleve(t, n)) == Inner(t) + Self(Rest(t, n))
  {
    CanonicalShape(t);
    CleveShape(t, n);
    assert Inner(Rest(t, n)) == Inner(t);
    assert Inner(Cleve(t, n)) == Owned(Rest(t, n));
  }

  /** Branching leaves a lone branch. */
  lemma BranchReady(t: Tree)
    requires Canonical(t) && t.TwoItem()
    ensures Shape(t) && Sound(BranchOf(t)) && LoneItem(ItemOf(BranchOf(t)))
    ensures Inner(BranchOf(t)) == Inner(t) + Fresh(t)
  {
    CanonicalShape(t);
    BranchOfShape(t);
    BranchOfLone(t);
    BranchOfRefs(t);
  }

  lemma BranchOfRefs(t: Tree)
    requires t.TwoItem() && (t.Ext? ==> t.key != [])
    ensures Inner(BranchOf(t)) == Inner(t) + Fresh(t)
  {
    var none := NoChildren();
    if t.key != [] {
      var n := t.key[0] as int;
      OwnedAllOne(none, n, Below(t));
      BelowRefs(t);
      InnerOfBranch(none[n := Below(t)], []);
    } else {
      OwnedAllNil(none);
      InnerOfBranch(none, t.value);
    }
    hide Owned, OwnedAll, Hashed, ItemOf;
  }

  lemma InnerOfBranch(ts: seq<Tree>, v: Bytes)
    ensures Inner(Branch(ts, v)) == OwnedAll(ts)
  {
  }

  lemma OwnedAllOne(ts: seq<Tree>, n: nat, u: Tree)
    requires n < |ts| && forall i | 0 <= i < |ts| :: ts[i] == Nil
    ensures OwnedAll(ts[n := u]) == Owned(u)
  {
    OwnedAllNil(ts);
    OwnedNil();
    OwnedAllUpdate(ts, n, u);
    var a, b := OwnedAll(ts[n := u]), Owned(u);
    assert Owned(ts[n]) == multiset{};
    assert a == a + multiset{} && b == multiset{} + b;
  }

  lemma BelowRefs(t: Tree)
    requires t.TwoItem() && t.key != []
    ensures Owned(Below(t)) == Inner(t) + Fresh(t)
  {
  }

  lemma BranchOfStored(main: Table, t: Tree)
    requires t.TwoItem() && (t.Ext? ==> t.key != [])
    requires t.key != [] ==> StoredRef(main, Below(t))
    ensures Stored(main, BranchOf(t))
  {
    assert !Hashed(Nil) by { RefEmpty(Nil); }
  }

  lemma BranchOfLone(t: Tree)
    requires t.TwoItem() && (t.Ext? ==> t.key != [])
    ensures LoneItem(ItemOf(BranchOf(t)))
  {
    var b := BranchOf(t);
    BranchItems(b);
    assert OnlyEntry(ItemOf(b).items, if t.key == [] then 16 else t.key[0] as int);
  }

  lemma BranchOfItem(t: Tree)
    requires t.TwoItem() && (t.Ext? ==> t.key != [])
    ensures t.key == [] ==> ItemOf(BranchOf(t)) == List(seq(16, _ => Data([])) + [Data(t.value)])
    ensures t.key != [] ==>
      ItemOf(BranchOf(t)) == List(seq(16, _ => Data([]))[t.key[0] as int := RefOf(Below(t))] + [Data([])])
  {
    RefEmpty(Nil);
    var none := seq(16, _ => Data([]));
    if t.key == [] { ItemsMakeBranch(BranchOf(t), none + [Data(t.value)]); }
    else { ItemsMakeBranch(BranchOf(t), none[t.key[0] as int := RefOf(Below(t))] + [Data([])]); }
  }

  lemma StoredSetChild(a: Table, b: Table, t: Tree, n: nat, c: Tree)
    requires t.Branch? && n < |t.children| && Stored(a, t) && Extends(a, b) && StoredRef(b, c)
    ensures Stored(b, Branch(t.children[n := c], t.value))
  {
    StoredExtends(a, b, t);
    assert forall i | 0 <= i < |t.children| :: StoredRef(b, t.children[i]);
  }

  /** The reference that branch adds: to what is left of the pair, unless that
      is the extension's own child, which keeps the one it has. */
  ghost function Fresh(t: Tree): multiset<Digest>
    requires t.TwoItem()
  {
    if t.key != [] && (t.Leaf? || |t.key| > 1) then Self(Rest(t, 1)) else multiset{}
  }

  // ----- Facts about items and tables -----

  lemma FitsWhole(it: Item)
    requires |Encode(it)| < LENGTH_LIMIT
    ensures Fits(it)
  {
  }

  lemma RefIsHash(t: Tree)
    requires t != Nil && RefOf(t).Data?
    ensures Hashed(t) && RefOf(t).bytes == Sha3(Node(t)) && Sha3(Node(t)) in Owned(t)
  {
  }

  lemma NoLoneAfter(a: Table, b: Table, liveA: multiset<Digest>, liveB: multiset<Digest>)
    requires NoLone(a) && Extends(a, b) && b.Keys == a.Keys && liveB <= liveA
    requires forall h :: liveA[h] == if h in a then a[h].refs else 0
    requires forall h :: liveB[h] == if h in b then b[h].refs else 0
    ensures NoLone(b)
  {
    forall h | h in b && b[h].refs > 0 ensures !LoneBytes(b[h].value) {
      assert liveB[h] <= liveA[h];
    }
  }

  // ----- Removing -----

  lemma StoredRefExtends(a: Table, b: Table, t: Tree)
    requires Extends(a, b) && StoredRef(a, t)
    ensures StoredRef(b, t)
  {
    StoredExtends(a, b, t);
  }

  /** The node's own reference is still there after the exchange below it. */
  lemma RoomAfter(l0: Refs, l1: Refs, inner: Refs, self: Refs, inner': Refs)
    requires inner + self <= l0 && l1 + inner == l0 + inner'
    ensures inner' <= l1 - self
    ensures (l1 - self) + (inner + self) == l0 + inner'
  {
    forall h ensures self[h] + inner'[h] <= l1[h] { assert (l1 + inner)[h] == (l0 + inner')[h]; }
    forall h ensures ((l1 - self) + (inner + self))[h] == (l0 + inner')[h] {
      assert (l1 + inner)[h] == (l0 + inner')[h];
    }
  }

  /** The value that lies bare if all of a branch's children are gone. */
  ghost function Bare(b: Tree): Bytes
    requires b.Branch? && |b.children| == 16
  {
    if Sole(b.children, b.value, 16) then b.value else []
  }

  lemma StoredBelow(main: Table, t: Tree, child: Tree)
    requires Stored(main, t) && (if t.Ext? then child == t.child else t.Branch? && child in t.children)
    ensures StoredRef(main, child)
  {
  }

  lemma CanonicalBranch(t: Tree)
    requires Canonical(t) && t.Branch?
    ensures |t.children| == 16 && forall i | 0 <= i < 16 :: Canonical(t.children[i])
  {
  }

  lemma NilHasNothing(k: Nibbles)
    ensures Shape(Nil) && Del(Nil, k).Absent? && Exposed(Nil, k) == []
  {
  }

  /** What deleteAt does below an extension. */
  lemma ExtToDelete(t: Tree, k: Nibbles)
    requires Canonical(t) && t.Ext? && t.key <= k
    ensures Shape(t) && Shape(t.child) && Canonical(t.child)
    ensures Inner(t) == Owned(t.child) <= Owned(t) && Exposed(t, k) == Exposed(t.child, k[|t.key|..])
    ensures var d := Del(t.child, k[|t.key|..]);
      && (!d.Removed? ==> Del(t, k) == d)
      && (d.Removed? ==> Del(t, k) == Removed(Hang(t.key, d.tree)) && Canonical(d.tree) && d.tree != Nil)
  {
    CanonicalShape(t);
    DelCanonical(t.child, k[|t.key|..]);
  }

  /** What deleteAt does below an entry of a branch, and what that means for
      the branch. */
  lemma EntryToDelete(t: Tree, k: Nibbles)
    requires Canonical(t) && t.Branch? && k != []
    ensures Shape(t) && Shape(t.children[k[0]]) && Owned(t.children[k[0]]) <= Owned(t)
    ensures var d := Del(t.children[k[0]], k[1..]);
      && (!d.Removed? ==> Del(t, k) == d)
      && (d.Removed? ==> Canonical(d.tree))
      && (d.Removed? ==> Del(t, k) == Removed(Collapse(t.children[k[0] as int := d.tree], t.value)))
  {
    CanonicalShape(t);
    DelCanonical(t.children[k[0]], k[1..]);
    OwnedAllElement(t.children, k[0] as int);
    hide Collapse, Canonical;
  }

  lemma EntryExposes(t: Tree, k: Nibbles)
    requires Shape(t) && t.Branch? && k != []
    ensures var e, d := Exposed(t.children[k[0]], k[1..]), Del(t.children[k[0]], k[1..]);
      && (e != [] ==> Exposed(t, k) == e) && (!d.Removed? ==> Exposed(t, k) == [])
      && (d.Removed? ==>
            var b := Branch(t.children[k[0] as int := d.tree], t.value);
            Exposed(t, k) == if Bare(b) != [] then Bare(b) else e)
  {
    var e := Exposed(t.children[k[0]], k[1..]);
    if e != [] { NothingBareTwice(t, k); }
    hide Del;
  }

  /** A child that vanishes had nothing to lay bare. */
  lemma NothingBareTwice(t: Tree, k: Nibbles)
    requires Shape(t) && t.Branch? && k != [] && Exposed(t.children[k[0]], k[1..]) != []
    ensures Del(t.children[k[0]], k[1..]).Removed? && Exposed(t, k) == Exposed(t.children[k[0]], k[1..])
  {
    var child, r := t.children[k[0]], k[1..];
    ExposedStays(child, r);
    var after := t.children[k[0] as int := Del(child, r).tree];
    assert InUse(after, t.value, k[0] as int);
  }

  lemma {:induction false} ExposedStays(t: Tree, k: Nibbles)
    requires Shape(t) && Exposed(t, k) != []
    ensures Del(t, k).Removed? && Del(t, k).tree != Nil
  {
    match t
    case Ext(key, child) => ExposedStays(child, k[|key|..]);
    case Branch(children, value) =>
      var c := Del(children[k[0]], k[1..]).tree;
      if !Sole(children[k[0] as int := c], value, 16) { ExposedStays(children[k[0]], k[1..]); }
  }

  lemma EntryRemoved(t: Tree, n: nat, c: Tree, live0: Refs, live1: Refs)
    requires t.Branch? && n < |t.children| && Owned(t) <= live0
    requires live1 + Owned(t.children[n]) == live0 + Owned(c)
    ensures Inner(Branch(t.children[n := c], t.value)) <= live1 - Self(t)
    ensures (live1 - Self(t)) + Owned(t) == live0 + Inner(Branch(t.children[n := c], t.value))
  {
    var u := Branch(t.children[n := c], t.value);
    OwnedAllUpdate(t.children, n, c);
    Part(live0, live1, Inner(t), Inner(u), Owned(t.children[n]), Owned(c));
    RoomAfter(live0, live1, Inner(t), Self(t), Inner(u));
  }

  /** Leaving the value out of the search is searching without it. */
  lemma UniqueWithout(items: seq<Item>, rest: seq<Item>, except: nat, used: nat)
    requires |items| == 17 && (except == 16 || except == 255) && (used == 255 || used < 17)
    requires rest == if except == 16 then items[16 := Data([])] else items
    requires used < 17 ==> used != except && !items[used].IsEmpty()
    requires used < 17 ==> forall j | 0 <= j < 17 && j != except && j != used :: items[j].IsEmpty()
    requires used == 255 ==>
      (forall j | 0 <= j < 17 && j != except :: items[j].IsEmpty())
      || (exists i, j :: 0 <= i < j < 17 && i != except && j != except && !items[i].IsEmpty() && !items[j].IsEmpty())
    ensures used < 17 ==> !rest[used].IsEmpty() && forall j | 0 <= j < 17 && j != used :: rest[j].IsEmpty()
    ensures used == 255 ==>
      (forall j | 0 <= j < 17 :: rest[j].IsEmpty())
      || (exists i, j :: 0 <= i < j < 17 && !rest[i].IsEmpty() && !rest[j].IsEmpty())
  {
    if used == 255 && !(forall j | 0 <= j < 17 && j != except :: items[j].IsEmpty()) {
      var i, j :| 0 <= i < j < 17 && i != except && j != except && !items[i].IsEmpty() && !items[j].IsEmpty();
      assert !rest[i].IsEmpty() && !rest[j].IsEmpty();
    }
  }

  /** uniqueInUse finds the sole entry, if there is one. */
  lemma SoleIsUnique(b: Tree, items: seq<Item>, used: nat)
    requires b.Branch? && |b.children| == 16 && List(items) == ItemOf(b) && |items| == 17
    requires used == 255 || used < 17
    requires used < 17 ==> !items[used].IsEmpty() && forall j | 0 <= j < 17 && j != used :: items[j].IsEmpty()
    requires used == 255 ==>
      (forall j | 0 <= j < 17 :: items[j].IsEmpty())
      || (exists i, j :: 0 <= i < j < 17 && !items[i].IsEmpty() && !items[j].IsEmpty())
    ensures used == 255 ==> Collapse(b.children, b.value) == b && Bare(b) == []
    ensures used == 16 ==> Collapse(b.children, b.value) == Leaf([], b.value) && Bare(b) == b.value != []
    ensures used < 16 ==> b.children[used] != Nil && Bare(b) == []
    ensures used < 16 ==> Collapse(b.children, b.value) == Hang([used as Nibble], b.children[used])
    ensures used < 17 ==> forall j | 0 <= j < 16 && j != used :: b.children[j] == Nil
  {
    BranchItems(b);
    if used < 17 {
      assert InUse(b.children, b.value, used);
      assert Sole(b.children, b.value, used);
      forall i: nat | i <= 16 && Sole(b.children, b.value, i) ensures i == used { }
      forall j | 0 <= j < 16 && j != used ensures b.children[j] == Nil { assert !InUse(b.children, b.value, j); }
    } else {
      forall i: nat | i <= 16 ensures !Sole(b.children, b.value, i) {
        if exists p, q :: 0 <= p < q < 17 && !items[p].IsEmpty() && !items[q].IsEmpty() {
          var p, q :| 0 <= p < q < 17 && !items[p].IsEmpty() && !items[q].IsEmpty();
          assert InUse(b.children, b.value, p) && InUse(b.children, b.value, q);
        }
      }
    }
  }

  /** Without its value a branch lays nothing bare. */
  lemma BareWithout(b: Tree)
    requires b.Branch? && |b.children| == 16 && b.value == []
    ensures Bare(b) == []
  {
  }

  /** Nothing below a branch whose children are all gone. */
  lemma OwnsNothing(b: Tree)
    requires b.Branch? && forall j | 0 <= j < |b.children| :: b.children[j] == Nil
    ensures Inner(b) == multiset{}
  {
    OwnedAllNil(b.children);
  }

  lemma OwnedAllSole(ts: seq<Tree>, n: nat)
    requires n < |ts| && forall i | 0 <= i < |ts| && i != n :: ts[i] == Nil
    ensures OwnedAll(ts) == Owned(ts[n])
  {
    var none := ts[n := Nil];
    OwnedAllOne(none, n, ts[n]);
    assert none[n := ts[n]] == ts;
  }

  // ----- Scanning -----

  lemma RefIsList(t: Tree)
    requires t != Nil && RefOf(t).List?
    ensures !Hashed(t) && RefOf(t) == ItemOf(t) && Owned(t) == Inner(t)
  {
  }

  lemma {:induction false} SumTake(ms: seq<Refs>, i: nat)
    requires i < |ms|
    ensures Sum(ms[..i + 1]) == Sum(ms[..i]) + ms[i]
  {
    if i == 0 {
      assert ms[..1][1..] == [] && ms[..0] == [];
    } else {
      SumTake(ms[1..], i - 1);
      assert ms[..i + 1][1..] == ms[1..][..i] && ms[..i][1..] == ms[1..][..i - 1];
      assert Sum(ms[..i + 1]) == ms[0] + Sum(ms[1..][..i]);
    }
  }

  /** m is mask without what is in gone. */
  ghost predicate Without(m: set<Digest>, mask: set<Digest>, gone: Refs) {
    forall x :: x in m <==> x in mask && x !in gone
  }

  lemma WithoutBoth(m: set<Digest>, before: set<Digest>, mask: set<Digest>, gone: Refs, more: Refs)
    requires Without(before, mask, gone) && Without(m, before, more)
    ensures Without(m, mask, gone + more)
  {
  }

  lemma NothingStruck(mask: set<Digest>)
    ensures Without(mask, mask, Sum([]))
  {
  }

  /** A subtree that is stored and referred to. */
  ghost predicate Held(main: Table, live: Refs, c: Tree) {
    Canonical(c) && StoredRef(main, c) && Owned(c) <= live
  }

  lemma ChildrenHeld(main: Table, live: Refs, t: Tree)
    requires t.Branch? && |t.children| == 16 && Canonical(t) && Stored(main, t) && Inner(t) <= live
    ensures forall i | 0 <= i < 16 :: Held(main, live, t.children[i])
    ensures forall i | 0 <= i < 16 :: OwnedEach(t.children)[i] == Owned(t.children[i])
    ensures OwnedAll(t.children) == Inner(t) == Sum(OwnedEach(t.children))
  {
    forall i | 0 <= i < 16
      ensures Held(main, live, t.children[i])
    {
      OwnedAllElement(t.children, i);
      assert StoredRef(main, t.children[i]);
    }
  }
}
