/** The Merkle Patricia trie as a tree, before hashing: what its nodes say, the
    canonical form and why it is unique (Yellow Paper, Appendix D). */
module Trie {
  import opened Bytes
  import opened TrieCommon

  /** An empty slot, a leaf pair, an extension pair, or a branch of 16 slots and a value. */
  datatype Tree =
    | Nil
    | Leaf(key: Nibbles, value: Bytes)
    | Ext(key: Nibbles, child: Tree)
    | Branch(children: seq<Tree>, value: Bytes)
  {
    predicate TwoItem() { Leaf? || Ext? }
  }

  /** The value stored under k; empty when there is none. */
  function At(t: Tree, k: Nibbles): Bytes {
    match t
    case Nil => []
    case Leaf(key, value) => if k == key then value else []
    case Ext(key, child) => if key <= k then At(child, k[|key|..]) else []
    case Branch(children, value) =>
      if k == [] then value
      else if |children| == 16 then At(children[k[0]], k[1..])
      else []
  }

  /** Entry i of a branch holds something; entry 16 is the value. */
  predicate InUse(children: seq<Tree>, value: Bytes, i: nat)
    requires |children| == 16
  {
    if i < 16 then children[i] != Nil else i == 16 && value != []
  }

  ghost predicate TwoInUse(children: seq<Tree>, value: Bytes)
    requires |children| == 16
  {
    exists i, j :: 0 <= i < j <= 16 && InUse(children, value, i) && InUse(children, value, j)
  }

  /** Leaves and branches hold what they must, an extension leads to a branch. */
  ghost predicate Canonical(t: Tree) {
    match t
    case Nil => true
    case Leaf(_, value) => value != []
    case Ext(key, child) => key != [] && child.Branch? && Canonical(child)
    case Branch(children, value) =>
      |children| == 16 && TwoInUse(children, value)
      && forall i | 0 <= i < 16 :: Canonical(children[i])
  }

  ghost predicate SameContents(t: Tree, u: Tree) {
    forall k :: At(t, k) == At(u, k)
  }

  // ----- One tree for one set of entries -----

  /** Two keys part at their first nibble, or one of them has none. */
  predicate Parted(a: Nibbles, b: Nibbles) {
    (a == [] && b != []) || (a != [] && b == []) || (a != [] && b != [] && a[0] != b[0])
  }

  lemma {:induction false} SomeKey(t: Tree) returns (k: Nibbles)
    requires Canonical(t) && t != Nil
    ensures At(t, k) != []
    decreases t, 1
  {
    match t
    case Leaf(key, _) => k := key;
    case Ext(key, child) =>
      var rest := SomeKey(child);
      k := key + rest;
      assert k[|key|..] == rest;
    case Branch(children, value) =>
      var a, b := TwoKeys(t);
      k := a;
  }

  lemma {:induction false} TwoKeys(t: Tree) returns (a: Nibbles, b: Nibbles)
    requires Canonical(t) && t.Branch?
    ensures At(t, a) != [] && At(t, b) != [] && Parted(a, b)
    decreases t, 0
  {
    var i, j :| 0 <= i < j <= 16 && InUse(t.children, t.value, i) && InUse(t.children, t.value, j);
    a := KeyOfEntry(t, i);
    b := KeyOfEntry(t, j);
  }

  lemma {:induction false} KeyOfEntry(t: Tree, i: nat) returns (k: Nibbles)
    requires Canonical(t) && t.Branch? && i <= 16 && InUse(t.children, t.value, i)
    ensures At(t, k) != []
    ensures if i == 16 then k == [] else k != [] && k[0] as int == i
    decreases t, 0, 0
  {
    if i == 16 {
      k := [];
    } else {
      var rest := SomeKey(t.children[i]);
      k := [i as Nibble] + rest;
      assert k[1..] == rest;
    }
  }

  lemma ExtKey(t: Tree, k: Nibbles)
    requires t.Ext? && At(t, k) != []
    ensures t.key <= k
  {
  }

  lemma AtExt(key: Nibbles, child: Tree, k: Nibbles)
    ensures At(Ext(key, child), key + k) == At(child, k)
  {
    assert (key + k)[|key|..] == k;
  }

  lemma AtBranch(t: Tree, i: Nibble, k: Nibbles)
    requires t.Branch? && |t.children| == 16
    ensures At(t, [i] + k) == At(t.children[i], k)
  {
    assert ([i] + k)[1..] == k;
  }

  /** The key of an extension is the longest prefix its entries share. */
  lemma ExtKeyLongest(t: Tree, u: Tree)
    requires Canonical(t) && Canonical(u) && t.Ext? && u.Ext? && SameContents(t, u)
    ensures |u.key| <= |t.key|
  {
    var a, b := TwoKeys(t.child);
    AtExt(t.key, t.child, a);
    AtExt(t.key, t.child, b);
    ExtKey(u, t.key + a);
    ExtKey(u, t.key + b);
    SharedPrefix(u.key, t.key, a, b);
  }

  lemma SharedPrefix(p: Nibbles, x: Nibbles, a: Nibbles, b: Nibbles)
    requires p <= x + a && p <= x + b
    ensures |p| > |x| ==> !Parted(a, b)
  {
    if |p| > |x| { assert p[|x|] == (x + a)[|x|] == (x + b)[|x|]; }
  }

  lemma TwoEntries(t: Tree) returns (a: Nibbles, b: Nibbles)
    requires Canonical(t) && (t.Ext? || t.Branch?)
    ensures At(t, a) != [] && At(t, b) != [] && a != b
  {
    a, b := TwoKeys(if t.Ext? then t.child else t);
    if t.Ext? {
      AtExt(t.key, t.child, a);
      AtExt(t.key, t.child, b);
      assert (t.key + a)[|t.key|..] == a && (t.key + b)[|t.key|..] == b;
      a, b := t.key + a, t.key + b;
    }
  }

  /** A canonical tree with two parted keys is a branch. */
  lemma PartedIsBranch(t: Tree, a: Nibbles, b: Nibbles)
    requires Canonical(t) && At(t, a) != [] && At(t, b) != [] && Parted(a, b)
    ensures t.Branch?
  {
  }

  /** Canonical trees with the same entries are the same tree. */
  lemma {:induction false} Unique(t: Tree, u: Tree)
    requires Canonical(t) && Canonical(u) && SameContents(t, u)
    ensures t == u
  {
    match t
    case Nil =>
      if u != Nil { var k := SomeKey(u); assert false; }
    case Leaf(key, value) =>
      assert At(u, key) == At(t, key);
      if u.Ext? || u.Branch? {
        var a, b := TwoEntries(u);
        assert false;
      }
    case Ext(key, child) =>
      var a, b := TwoKeys(child);
      AtExt(key, child, a);
      AtExt(key, child, b);
      assert At(u, key + a) != [] && At(u, key + b) != [];
      assert (key + a)[|key|..] == a && (key + b)[|key|..] == b;
      if u.Branch? {
        var c, d := TwoKeys(u);
        PartedIsBranch(t, c, d);
        assert false;
      }
      ExtKeyLongest(t, u);
      ExtKeyLongest(u, t);
      ExtKey(u, key + a);
      assert u.key == (key + a)[..|key|] == key;
      forall k ensures At(child, k) == At(u.child, k) {
        AtExt(key, child, k);
        AtExt(key, u.child, k);
      }
      Unique(child, u.child);
    case Branch(children, value) =>
      var a, b := TwoKeys(t);
      assert At(u, a) != [] && At(u, b) != [];
      PartedIsBranch(u, a, b);
      assert At(t, []) == At(u, []);
      forall i | 0 <= i < 16 ensures children[i] == u.children[i] {
        forall k ensures At(children[i], k) == At(u.children[i], k) {
          AtBranch(t, i as Nibble, k);
          AtBranch(u, i as Nibble, k);
        }
        Unique(children[i], u.children[i]);
      }
      assert children == u.children;
  }
}
