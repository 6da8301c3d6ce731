/** When removal goes wrong, told by the map alone: which keys deleteAt loses
    its way on, and whose value it lays bare at a branch
    (libdevcore/TrieDB.h:947-1048). */
module TrieRemove {
  import opened Bytes
  import opened TrieCommon
  import opened Trie
  import opened TrieEdit

  /** The longest stored prefix of k is no prefix of another stored key: its
      leaf is in the way. */
  ghost predicate LeafInTheWay(t: Tree, k: Nibbles) {
    exists x :: x < k && At(t, x) != [] && forall y :: x < y ==> At(t, y) == []
  }

  /** k is not stored, and two stored keys part right behind it. */
  ghost predicate KeysPartAt(t: Tree, k: Nibbles) {
    At(t, k) == []
    && exists y, z :: k < y && k < z && At(t, y) != [] && At(t, z) != [] && y[|k|] != z[|k|]
  }

  ghost predicate GoesAstray(t: Tree, k: Nibbles) { LeafInTheWay(t, k) || KeysPartAt(t, k) }

  /** x and k are stored, and k is the only stored key that x begins. */
  ghost predicate LaysBare(t: Tree, k: Nibbles, x: Nibbles) {
    x < k && At(t, x) != [] && At(t, k) != [] && forall y :: x < y && At(t, y) != [] ==> y == k
  }

  // Through an extension.

  lemma ExtPrefix(key: Nibbles, x: Nibbles, y: Nibbles)
    ensures key + x < key + y <==> x < y
    ensures x < y ==> (key + y)[|key + x|] == y[|x|]
  {
    if x < y { assert (key + y)[..|key + x|] == key + y[..|x|]; }
    if key + x < key + y { assert y[..|x|] == (key + y)[|key|..][..|x|] == (key + x)[|key|..]; }
  }

  lemma Prefixes(a: Nibbles, b: Nibbles, c: Nibbles)
    ensures a <= b && b <= c ==> a <= c
    ensures a <= c && b <= c && |a| <= |b| ==> a <= b
  {
    if a <= c && b <= c && |a| <= |b| { assert c[..|b|][..|a|] == c[..|a|]; }
  }

  lemma ExtStored(t: Tree, x: Nibbles)
    requires t.Ext?
    ensures At(t, x) != [] ==> t.key <= x && x == t.key + x[|t.key|..] && At(t.child, x[|t.key|..]) == At(t, x)
    ensures At(t, t.key + x) == At(t.child, x)
  {
    AtExt(t.key, t.child, x);
  }

  lemma LeafBelowExt(t: Tree, r: Nibbles)
    requires t.Ext?
    ensures LeafInTheWay(t, t.key + r) <==> LeafInTheWay(t.child, r)
  {
    var key, k := t.key, t.key + r;
    if LeafInTheWay(t.child, r) {
      var x :| x < r && At(t.child, x) != [] && forall y :: x < y ==> At(t.child, y) == [];
      ExtStored(t, x);
      ExtPrefix(key, x, r);
      forall y | key + x < y ensures At(t, y) == [] {
        ExtStored(t, y);
        if At(t, y) != [] { ExtPrefix(key, x, y[|key|..]); }
      }
    }
    if LeafInTheWay(t, k) {
      var x :| x < k && At(t, x) != [] && forall y :: x < y ==> At(t, y) == [];
      ExtStored(t, x);
      var x' := x[|key|..];
      ExtPrefix(key, x', r);
      forall y | x' < y ensures At(t.child, y) == [] {
        ExtStored(t, y);
        ExtPrefix(key, x', y);
      }
      assert x' < r && At(t.child, x') != [];
    }
  }

  lemma PartBelowExt(t: Tree, r: Nibbles)
    requires t.Ext?
    ensures KeysPartAt(t, t.key + r) <==> KeysPartAt(t.child, r)
  {
    var key, k := t.key, t.key + r;
    ExtStored(t, r);
    if KeysPartAt(t.child, r) {
      var y, z :| r < y && r < z && At(t.child, y) != [] && At(t.child, z) != [] && y[|r|] != z[|r|];
      ExtStored(t, y);
      ExtStored(t, z);
      ExtPrefix(key, r, y);
      ExtPrefix(key, r, z);
      assert k < key + y && k < key + z && (key + y)[|k|] != (key + z)[|k|];
    }
    if KeysPartAt(t, k) {
      var y, z :| k < y && k < z && At(t, y) != [] && At(t, z) != [] && y[|k|] != z[|k|];
      BelowExt(t, r, y);
      BelowExt(t, r, z);
      hide At;
      assert r < y[|key|..] && r < z[|key|..];
    }
  }

  lemma BelowExt(t: Tree, r: Nibbles, y: Nibbles)
    requires t.Ext? && t.key + r < y
    ensures var y' := y[|t.key|..];
      r < y' && At(t.child, y') == At(t, y) && y[|t.key| + |r|] == y'[|r|]
  {
    var y' := y[|t.key|..];
    assert t.key == (t.key + r)[..|t.key|] == y[..|t.key|];
    assert y == t.key + y';
    ExtStored(t, y');
    hide At;
    ExtPrefix(t.key, r, y');
  }

  /** A key that leaves the extension's path is plainly absent. */
  lemma BesideExt(t: Tree, k: Nibbles)
    requires t.Ext? && !(t.key <= k)
    ensures !GoesAstray(t, k)
  {
    forall x | At(t, x) != []
      ensures t.key <= x && !(x < k)
    {
      ExtStored(t, x);
      Prefixes(t.key, x, k);
    }
    forall y, z | k < y && k < z && At(t, y) != [] && At(t, z) != []
      ensures y[|k|] == z[|k|]
    {
      assert t.key <= y && t.key <= z;
      Prefixes(t.key, k, y);
      assert y[|k|] == t.key[|k|] == z[|k|];
    }
  }

  // Through a branch.

  lemma BranchStored(t: Tree, i: Nibble, x: Nibbles)
    requires t.Branch? && |t.children| == 16
    ensures At(t, [i] + x) == At(t.children[i], x)
    ensures x != [] ==> x == [x[0]] + x[1..] && At(t, x) == At(t.children[x[0]], x[1..])
  {
    AtBranch(t, i, x);
    if x != [] { AtBranch(t, x[0], x[1..]); }
  }

  lemma LeafBelowBranch(t: Tree, i: Nibble, r: Nibbles)
    requires Canonical(t) && t.Branch?
    ensures LeafInTheWay(t, [i] + r) <==> LeafInTheWay(t.children[i], r)
  {
    var k, c := [i] + r, t.children[i];
    if LeafInTheWay(c, r) {
      var x :| x < r && At(c, x) != [] && forall y :: x < y ==> At(c, y) == [];
      BranchStored(t, i, x);
      ExtPrefix([i], x, r);
      forall y | [i] + x < y ensures At(t, y) == [] {
        BranchStored(t, i, y);
        assert y[0] == i;
        ExtPrefix([i], x, y[1..]);
      }
    }
    if LeafInTheWay(t, k) {
      var x :| x < k && At(t, x) != [] && forall y :: x < y ==> At(t, y) == [];
      BranchHasMore(t);
      assert x != [];
      BranchStored(t, i, x);
      assert x[0] == k[0] == i;
      ExtPrefix([i], x[1..], r);
      forall y | x[1..] < y ensures At(c, y) == [] {
        BranchStored(t, i, y);
        ExtPrefix([i], x[1..], y);
      }
      assert x[1..] < r && At(c, x[1..]) != [];
    }
  }

  lemma PartBelowBranch(t: Tree, i: Nibble, r: Nibbles)
    requires t.Branch? && |t.children| == 16
    ensures KeysPartAt(t, [i] + r) <==> KeysPartAt(t.children[i], r)
  {
    var k, c := [i] + r, t.children[i];
    BranchStored(t, i, r);
    if KeysPartAt(c, r) {
      var y, z :| r < y && r < z && At(c, y) != [] && At(c, z) != [] && y[|r|] != z[|r|];
      BranchStored(t, i, y);
      BranchStored(t, i, z);
      hide At;
      ExtPrefix([i], r, y);
      ExtPrefix([i], r, z);
      assert k < [i] + y && k < [i] + z && ([i] + y)[|k|] != ([i] + z)[|k|];
    }
    if KeysPartAt(t, k) {
      var y, z :| k < y && k < z && At(t, y) != [] && At(t, z) != [] && y[|k|] != z[|k|];
      BelowBranch(t, i, r, y);
      BelowBranch(t, i, r, z);
      hide At;
      assert r < y[1..] && r < z[1..] && At(c, y[1..]) != [] && At(c, z[1..]) != [];
    }
  }

  lemma BelowBranch(t: Tree, i: Nibble, r: Nibbles, y: Nibbles)
    requires t.Branch? && |t.children| == 16 && [i] + r < y
    ensures r < y[1..] && At(t.children[i], y[1..]) == At(t, y) && y[|r| + 1] == y[1..][|r|]
  {
    BranchStored(t, i, y);
    assert y[0] == ([i] + r)[0];
    hide At;
    ExtPrefix([i], r, y[1..]);
  }

  /** Below a branch there is more than the empty key. */
  lemma BranchHasMore(t: Tree)
    requires Canonical(t) && t.Branch?
    ensures exists y :: [] < y && At(t, y) != []
  {
    var a, b := TwoKeys(t);
    assert [] < a || [] < b;
  }

  lemma PartAtBranch(t: Tree)
    requires Canonical(t) && t.Branch?
    ensures !LeafInTheWay(t, []) && (KeysPartAt(t, []) <==> t.value == [])
  {
    var a, b := TwoKeys(t);
    if t.value == [] { assert [] < a && [] < b && a[0] != b[0]; }
  }

  /** deleteAt loses its way exactly on these keys. */
  lemma {:induction false} StrayIs(t: Tree, k: Nibbles)
    requires Canonical(t)
    ensures Shape(t) && (Del(t, k).Stray? <==> GoesAstray(t, k))
  {
    CanonicalShape(t);
    match t
    case Nil =>
    case Leaf(key, _) =>
      if key < k { assert At(t, key) != []; }
    case Ext(key, child) =>
      if key <= k {
        var r := k[|key|..];
        assert k == key + r;
        StrayIs(child, r);
        LeafBelowExt(t, r);
        PartBelowExt(t, r);
      } else {
        BesideExt(t, k);
      }
    case Branch(children, value) =>
      if k == [] {
        PartAtBranch(t);
      } else {
        assert k == [k[0]] + k[1..];
        StrayIs(children[k[0]], k[1..]);
        LeafBelowBranch(t, k[0], k[1..]);
        PartBelowBranch(t, k[0], k[1..]);
      }
  }

  // The value laid bare.

  lemma BareBelowExt(t: Tree, r: Nibbles, x: Nibbles)
    requires t.Ext?
    ensures LaysBare(t, t.key + r, t.key + x) <==> LaysBare(t.child, r, x)
    ensures At(t, t.key + x) == At(t.child, x)
  {
    var key, k := t.key, t.key + r;
    ExtStored(t, x);
    ExtStored(t, r);
    ExtPrefix(key, x, r);
    if LaysBare(t.child, r, x) {
      forall y | key + x < y && At(t, y) != [] ensures y == k {
        ExtStored(t, y);
        ExtPrefix(key, x, y[|key|..]);
      }
    }
    if LaysBare(t, k, key + x) {
      forall y | x < y && At(t.child, y) != [] ensures y == r {
        ExtStored(t, y);
        ExtPrefix(key, x, y);
        assert (key + y)[|key|..] == y && k[|key|..] == r;
      }
    }
  }

  lemma BareBelowBranch(t: Tree, i: Nibble, r: Nibbles, x: Nibbles)
    requires t.Branch? && |t.children| == 16
    ensures LaysBare(t, [i] + r, [i] + x) <==> LaysBare(t.children[i], r, x)
    ensures At(t, [i] + x) == At(t.children[i], x)
  {
    var k, c := [i] + r, t.children[i];
    BranchStored(t, i, x);
    BranchStored(t, i, r);
    ExtPrefix([i], x, r);
    if LaysBare(c, r, x) {
      forall y | [i] + x < y && At(t, y) != [] ensures y == k {
        BelowBranch(t, i, x, y);
        assert y == [y[0]] + y[1..] && y[0] == ([i] + x)[0];
      }
    }
    if LaysBare(t, k, [i] + x) {
      forall y | x < y && At(c, y) != [] ensures y == r {
        BranchStored(t, i, y);
        ExtPrefix([i], x, y);
        assert ([i] + y)[1..] == y && k[1..] == r;
      }
    }
  }

  /** At a branch, the value comes to lie bare exactly when the child that
      loses k was the only one and k the only key below it. */
  lemma BareHere(t: Tree, k: Nibbles)
    requires Canonical(t) && t.Branch? && k != [] && Shape(t.children[k[0]])
    requires Del(t.children[k[0]], k[1..]).Removed?
    ensures Sole(t.children[k[0] as int := Del(t.children[k[0]], k[1..]).tree], t.value, 16) <==> LaysBare(t, k, [])
  {
    var i, r, child := k[0], k[1..], t.children[k[0]];
    assert k == [i] + r;
    DelCanonical(child, r);
    BranchStored(t, i, r);
    var c := Del(child, r).tree;
    var after := t.children[i as int := c];
    if Sole(after, t.value, 16) {
      assert !InUse(after, t.value, i as int) && c == Nil;
      assert child.Leaf?;
      forall y | [] < y && At(t, y) != [] ensures y == k {
        BranchStored(t, i, y);
        var n := y[0] as int;
        assert n == i as int || !InUse(after, t.value, n);
        assert y == [y[0]] + y[1..];
      }
    }
    if LaysBare(t, k, []) {
      forall j | 0 <= j < 16 ensures !InUse(after, t.value, j) {
        if j == i as int { EmptiedIsNil(t, k); } else { OthersAreNil(t, k, j); }
      }
      assert At(t, []) == t.value;
    }
  }

  lemma EmptiedIsNil(t: Tree, k: Nibbles)
    requires Canonical(t) && t.Branch? && k != [] && LaysBare(t, k, [])
    requires Shape(t.children[k[0]]) && Del(t.children[k[0]], k[1..]).Removed?
    ensures Del(t.children[k[0]], k[1..]).tree == Nil
  {
    var child := t.children[k[0]];
    DelCanonical(child, k[1..]);
    var c := Del(child, k[1..]).tree;
    if c != Nil {
      var y := SomeKey(c);
      DelAt(child, k[1..], y);
      BranchStored(t, k[0], y);
    }
  }

  lemma OthersAreNil(t: Tree, k: Nibbles, j: nat)
    requires Canonical(t) && t.Branch? && k != [] && LaysBare(t, k, []) && j < 16 && j != k[0] as int
    ensures t.children[j] == Nil
  {
    if t.children[j] != Nil {
      var y := SomeKey(t.children[j]);
      BranchStored(t, j as Nibble, y);
    }
  }

  /** The exposed value is that of the key whose only longer stored key is k. */
  lemma {:induction false} ExposedIs(t: Tree, k: Nibbles, x: Nibbles)
    requires Canonical(t)
    ensures Shape(t)
    ensures LaysBare(t, k, x) ==> Exposed(t, k) == At(t, x)
    ensures Exposed(t, k) != [] ==> exists z :: LaysBare(t, k, z)
  {
    CanonicalShape(t);
    match t
    case Nil =>
    case Leaf(_, _) =>
    case Ext(key, child) =>
      if key <= k {
        var r := k[|key|..];
        assert k == key + r;
        ExtStored(t, x);
        ExposedIs(child, r, if key <= x then x[|key|..] else []);
        if key <= x { BareBelowExt(t, r, x[|key|..]); }
        if z :| LaysBare(child, r, z) { BareBelowExt(t, r, z); }
      } else {
        ExtStored(t, k);
      }
    case Branch(children, value) =>
      if k != [] {
        var i, r := k[0], k[1..];
        assert k == [i] + r;
        DelCanonical(children[i], r);
        BranchStored(t, i, r);
        if Del(children[i], r).Removed? {
          BareHere(t, k);
          ExposedIs(children[i], r, if x != [] then x[1..] else []);
          if x != [] && x[0] == i { BareBelowBranch(t, i, r, x[1..]); assert x == [i] + x[1..]; }
          if z :| LaysBare(children[i], r, z) { BareBelowBranch(t, i, r, z); }
          if Sole(children[i as int := Del(children[i], r).tree], value, 16) { assert At(t, []) == value; }
          if LaysBare(t, k, []) && LaysBare(t, k, x) { OneBare(t, k, [], x); }
        }
      }
  }

  lemma OneBare(t: Tree, k: Nibbles, x: Nibbles, y: Nibbles)
    requires LaysBare(t, k, x) && LaysBare(t, k, y)
    ensures x == y
  {
    Prefixes(x, y, k);
    Prefixes(y, x, k);
  }

  /** Removals that fail: a key below a leaf, a key at which others part, and
      one that leaves a long value alone at its branch. */
  lemma FailingRemovals(v: Bytes, w: Bytes)
    requires v != [] && w != []
    ensures GoesAstray(Leaf([1], v), [1, 2])
    ensures var t := Branch(NoChildren()[1 := Leaf([], v)][2 := Leaf([], w)], []); Canonical(t) && GoesAstray(t, [])
    ensures var t := Branch(NoChildren()[1 := Leaf([], w)], v);
      Canonical(t) && Shape(t) && !GoesAstray(t, [1]) && Exposed(t, [1]) == v
  {
    assert At(Leaf([1], v), [1]) != [];
    var fork := Branch(NoChildren()[1 := Leaf([], v)][2 := Leaf([], w)], []);
    assert InUse(fork.children, [], 1) && InUse(fork.children, [], 2);
    PartAtBranch(fork);
    var t := Branch(NoChildren()[1 := Leaf([], w)], v);
    assert InUse(t.children, v, 1) && InUse(t.children, v, 16);
    StrayIs(t, [1]);
    var after := t.children[1 := Nil];
    assert Sole(after, v, 16);
  }
}
