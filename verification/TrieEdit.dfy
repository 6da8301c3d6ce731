/** What inserting and removing make of the tree (libdevcore/TrieDB.h: mergeAt,
    place, cleve, branch; deleteAt, merge, graft). */
module TrieEdit {
  import opened Bytes
  import opened TrieCommon
  import opened Trie

  /** What the retry steps rely on; weaker than canonical, since a cleaved pair
      and a one-entry branch are not canonical. */
  ghost predicate Shape(t: Tree) {
    match t
    case Nil => true
    case Leaf(_, _) => true
    case Ext(key, child) => key != [] && Shape(child)
    case Branch(children, _) => |children| == 16 && forall i | 0 <= i < 16 :: Shape(children[i])
  }

  lemma {:induction false} CanonicalShape(t: Tree)
    requires Canonical(t)
    ensures Shape(t)
  {
    match t
    case Nil =>
    case Leaf(_, _) =>
    case Ext(_, child) => CanonicalShape(child);
    case Branch(children, _) => forall i | 0 <= i < 16 ensures Shape(children[i]) { CanonicalShape(children[i]); }
  }

  function NoChildren(): (ns: seq<Tree>)
    ensures |ns| == 16 && forall i | 0 <= i < 16 :: ns[i] == Nil
  {
    seq(16, _ => Nil)
  }

  /** A pair with its first n nibbles dropped. */
  function Rest(t: Tree, n: nat): Tree
    requires t.TwoItem() && n <= |t.key|
  {
    if t.Leaf? then Leaf(t.key[n..], t.value) else Ext(t.key[n..], t.child)
  }

  /** cleve: a pair cut into an extension over the rest of it. */
  function Cleve(t: Tree, n: nat): Tree
    requires t.TwoItem() && 0 < n <= |t.key|
  {
    Ext(t.key[..n], Rest(t, n))
  }

  /** What is left of a pair below its first nibble. */
  function Below(t: Tree): Tree
    requires t.TwoItem() && t.key != []
  {
    if t.Leaf? || |t.key| > 1 then Rest(t, 1) else t.child
  }

  /** branch: a pair as a branch with that one entry. */
  function BranchOf(t: Tree): Tree
    requires t.TwoItem() && (t.Ext? ==> t.key != [])
  {
    if t.key == [] then Branch(NoChildren(), t.value)
    else Branch(NoChildren()[t.key[0] as int := Below(t)], [])
  }

  /** Inserting meets the pair's own key, or goes on below it. */
  predicate Meets(t: Tree, k: Nibbles)
    requires t.TwoItem()
  {
    if t.Leaf? then t.key == k else t.key <= k
  }

  /** mergeAt, as a function on trees. */
  ghost function Put(t: Tree, k: Nibbles, v: Bytes): Tree
    requires Shape(t)
    decreases |k|, if t.TwoItem() && !Meets(t, k) then 1 else 0
  {
    if t.Nil? then Leaf(k, v)
    else if t.Branch? then
      if k == [] then Branch(t.children, v)
      else Branch(t.children[k[0] as int := Put(t.children[k[0]], k[1..], v)], t.value)
    else if Meets(t, k) then
      if t.Leaf? then Leaf(k, v) else Ext(t.key, Put(t.child, k[|t.key|..], v))
    else
      var n := Shared(k, t.key);
      if n > 0 then
        CleveShape(t, n);
        Put(Cleve(t, n), k, v)
      else
        BranchOfShape(t);
        Put(BranchOf(t), k, v)
  }

  lemma CleveShape(t: Tree, n: nat)
    requires Shape(t) && t.TwoItem() && 0 < n <= |t.key| && (t.Ext? ==> n < |t.key|)
    ensures Shape(Cleve(t, n))
  {
  }

  lemma BranchOfShape(t: Tree)
    requires Shape(t) && t.TwoItem()
    ensures Shape(BranchOf(t))
  {
  }

  // ----- Neither retry step changes what is stored -----

  lemma CleveAt(t: Tree, n: nat, k: Nibbles)
    requires t.TwoItem() && 0 < n <= |t.key|
    ensures At(Cleve(t, n), k) == At(t, k)
  {
    var a, b := t.key[..n], t.key[n..];
    assert t.key == a + b;
    assert t.key <= k ==> a <= k by { if t.key <= k { assert k[..n] == a; } }
    if a <= k {
      var r := k[n..];
      assert k == a + r;
      assert t.key <= k <==> b <= r by {
        if b <= r { assert k == a + b + r[|b|..]; }
        if t.key <= k { assert r[..|b|] == k[..|t.key|][n..]; }
      }
      assert t.key == k <==> b == r;
      assert t.key <= k ==> k[|t.key|..] == r[|b|..];
    }
  }

  lemma BranchOfAt(t: Tree, k: Nibbles)
    requires t.TwoItem() && (t.Ext? ==> t.key != [])
    ensures At(BranchOf(t), k) == At(t, k)
  {
    if t.key != [] && k != [] && k[0] == t.key[0] {
      var b, r := t.key[1..], k[1..];
      assert t.key == [k[0]] + b && k == [k[0]] + r;
      assert t.key <= k <==> b <= r;
      assert t.key <= k ==> k[|t.key|..] == r[|b|..];
      if |t.key| == 1 { assert r[0..] == r; }
    }
  }

  /** After inserting, k holds v and every other key what it held. */
  lemma {:induction false} PutAt(t: Tree, k: Nibbles, v: Bytes, x: Nibbles)
    requires Shape(t)
    ensures At(Put(t, k, v), x) == if x == k then v else At(t, x)
    decreases |k|, if t.TwoItem() && !Meets(t, k) then 1 else 0
  {
    if t.Branch? {
      if k != [] && x != [] && x[0] == k[0] {
        PutAt(t.children[k[0]], k[1..], v, x[1..]);
        assert x == [x[0]] + x[1..] && k == [k[0]] + k[1..];
      }
    } else if t.TwoItem() {
      if Meets(t, k) {
        if t.Ext? && t.key <= x {
          PutAt(t.child, k[|t.key|..], v, x[|t.key|..]);
          assert x == t.key + x[|t.key|..] && k == t.key + k[|t.key|..];
        }
      } else {
        var n := Shared(k, t.key);
        if n > 0 {
          CleveShape(t, n);
          CleveAt(t, n, x);
          PutAt(Cleve(t, n), k, v, x);
        } else {
          BranchOfShape(t);
          BranchOfAt(t, x);
          PutAt(BranchOf(t), k, v, x);
        }
      }
    }
  }

  // ----- The retry steps end in a canonical tree -----

  lemma TwoInUseAt(children: seq<Tree>, value: Bytes, i: nat, j: nat)
    requires |children| == 16 && i < j <= 16 && InUse(children, value, i) && InUse(children, value, j)
    ensures TwoInUse(children, value)
  {
  }

  /** Filling a slot that nothing else occupies keeps what else is in use. */
  lemma SetChild(children: seq<Tree>, value: Bytes, n: nat, t: Tree)
    requires |children| == 16 && n < 16 && t != Nil && TwoInUse(children, value)
    ensures TwoInUse(children[n := t], value)
  {
    var i, j :| 0 <= i < j <= 16 && InUse(children, value, i) && InUse(children, value, j);
    TwoInUseAt(children[n := t], value, i, j);
  }

  lemma SetValue(children: seq<Tree>, value: Bytes, v: Bytes)
    requires |children| == 16 && v != [] && TwoInUse(children, value)
    ensures TwoInUse(children, v)
  {
    var i, j :| 0 <= i < j <= 16 && InUse(children, value, i) && InUse(children, value, j);
    TwoInUseAt(children, v, i, j);
  }

  /** A pair that shares nothing with k parts from it in a branch of two entries. */
  lemma Split(t: Tree, k: Nibbles, v: Bytes)
    requires Canonical(t) && t.TwoItem() && v != []
    requires Shared(k, t.key) == 0 && k != t.key
    ensures Shape(t) && !Meets(t, k) && Canonical(Put(t, k, v)) && Put(t, k, v).Branch?
  {
    CanonicalShape(t);
    BranchOfShape(t);
    var b := BranchOf(t);
    var p := Put(b, k, v);
    assert Put(t, k, v) == p;
    if k == [] {
      TwoInUseAt(p.children, p.value, t.key[0] as int, 16);
    } else {
      assert b.children[k[0]] == Nil;
      assert Put(Nil, k[1..], v) == Leaf(k[1..], v);
      if t.key == [] { TwoInUseAt(p.children, p.value, k[0] as int, 16); }
      else if k[0] < t.key[0] { TwoInUseAt(p.children, p.value, k[0] as int, t.key[0] as int); }
      else { TwoInUseAt(p.children, p.value, t.key[0] as int, k[0] as int); }
    }
  }

  lemma {:induction false} PutCanonical(t: Tree, k: Nibbles, v: Bytes)
    requires Canonical(t) && v != []
    ensures Shape(t) && Canonical(Put(t, k, v)) && Put(t, k, v) != Nil
    ensures t.Branch? ==> Put(t, k, v).Branch?
    decreases |k|
  {
    CanonicalShape(t);
    if t.Branch? {
      if k == [] {
        SetValue(t.children, t.value, v);
      } else {
        PutCanonical(t.children[k[0]], k[1..], v);
        SetChild(t.children, t.value, k[0] as int, Put(t.children[k[0]], k[1..], v));
      }
    } else if t.TwoItem() {
      if Meets(t, k) {
        if t.Ext? { PutCanonical(t.child, k[|t.key|..], v); }
      } else {
        var n := Shared(k, t.key);
        if n > 0 { CleveCanonical(t, k, v, n); } else { Split(t, k, v); }
      }
    }
  }

  lemma CleveCanonical(t: Tree, k: Nibbles, v: Bytes, n: nat)
    requires Canonical(t) && v != [] && t.TwoItem() && !Meets(t, k) && n == Shared(k, t.key) && n > 0
    ensures Shape(t) && Canonical(Put(t, k, v)) && Put(t, k, v) != Nil
  {
    CanonicalShape(t);
    CleveShape(t, n);
    var c := Cleve(t, n);
    assert k[..n] == t.key[..n];
    assert k == t.key[..n] + k[n..] && t.key == t.key[..n] + t.key[n..];
    assert Shared(k[n..], t.key[n..]) == 0;
    Split(Rest(t, n), k[n..], v);
    assert Put(t, k, v) == Put(c, k, v) == Ext(t.key[..n], Put(Rest(t, n), k[n..], v));
  }

  // ----- Removing -----

  /** Stray: deleteAt has lost its way.  It went on below a leaf, or it asked
      for the first nibble of an empty key. */
  datatype Removal = Absent | Removed(tree: Tree) | Stray

  /** graft: two pairs on one path become one. */
  function Graft(key: Nibbles, c: Tree): Tree
    requires c.TwoItem()
  {
    if c.Leaf? then Leaf(key + c.key, c.value) else Ext(key + c.key, c.child)
  }

  /** What is left below a path: grafted when it is a pair. */
  function Hang(key: Nibbles, c: Tree): Tree {
    if c.TwoItem() then Graft(key, c) else Ext(key, c)
  }

  /** Entry i and no other is in use. */
  ghost predicate Sole(children: seq<Tree>, value: Bytes, i: nat)
    requires |children| == 16
  {
    i <= 16 && InUse(children, value, i)
    && forall j | 0 <= j <= 16 && j != i :: !InUse(children, value, j)
  }

  /** A branch after an entry went: the only entry left takes its place. */
  ghost function Collapse(children: seq<Tree>, value: Bytes): Tree
    requires |children| == 16
  {
    if Sole(children, value, 16) then Leaf([], value)
    else if i: nat :| i < 16 && Sole(children, value, i) then Hang([i as Nibble], children[i])
    else Branch(children, value)
  }

  /** deleteAt, as a function on trees. */
  ghost function Del(t: Tree, k: Nibbles): Removal
    requires Shape(t)
  {
    match t
    case Nil => Absent
    case Leaf(key, _) => if key == k then Removed(Nil) else if key <= k then Stray else Absent
    case Ext(key, child) =>
      if !(key <= k) then Absent
      else
        (match Del(child, k[|key|..])
         case Removed(c) => Removed(Hang(key, c))
         case other => other)
    case Branch(children, value) =>
      if k == [] then (if value != [] then Removed(Collapse(children, [])) else Stray)
      else
        (match Del(children[k[0]], k[1..])
         case Removed(c) => Removed(Collapse(children[k[0] as int := c], value))
         case other => other)
  }

  /** The value of a branch that loses its last child; empty if none does. */
  ghost function Exposed(t: Tree, k: Nibbles): Bytes
    requires Shape(t)
  {
    match t
    case Nil => []
    case Leaf(_, _) => []
    case Ext(key, child) => if key <= k then Exposed(child, k[|key|..]) else []
    case Branch(children, value) =>
      if k == [] || !Del(children[k[0]], k[1..]).Removed? then []
      else if Sole(children[k[0] as int := Del(children[k[0]], k[1..]).tree], value, 16) then value
      else Exposed(children[k[0]], k[1..])
  }

  lemma HangCanonical(key: Nibbles, c: Tree)
    requires Canonical(c) && c != Nil && key != []
    ensures Canonical(Hang(key, c)) && Hang(key, c) != Nil
  {
  }

  lemma HangAt(key: Nibbles, c: Tree, x: Nibbles)
    ensures At(Hang(key, c), x) == At(Ext(key, c), x)
  {
    if c.TwoItem() {
      var whole := key + c.key;
      assert whole <= x ==> key <= x by { if whole <= x { assert x[..|key|] == whole[..|key|] == key; } }
      if key <= x {
        var r := x[|key|..];
        assert x == key + r;
        assert whole <= x <==> c.key <= r by {
          if c.key <= r { assert x == whole + r[|c.key|..]; }
          if whole <= x { assert r[..|c.key|] == whole[|key|..]; }
        }
        assert whole == x <==> c.key == r;
        assert whole <= x ==> x[|whole|..] == r[|c.key|..];
      }
    }
  }

  /** A branch that lost an entry is canonical again after collapsing. */
  lemma CollapseCanonical(children: seq<Tree>, value: Bytes, i: nat)
    requires |children| == 16 && i <= 16 && InUse(children, value, i)
    requires forall j | 0 <= j < 16 :: Canonical(children[j])
    ensures Canonical(Collapse(children, value)) && Collapse(children, value) != Nil
  {
    if Sole(children, value, 16) {
    } else if u: nat :| u < 16 && Sole(children, value, u) {
      HangCanonical([u as Nibble], children[u]);
    } else {
      assert !Sole(children, value, i);
      var z :| 0 <= z <= 16 && z != i && InUse(children, value, z);
      TwoInUseAt(children, value, if z < i then z else i, if z < i then i else z);
    }
  }

  lemma CollapseAt(children: seq<Tree>, value: Bytes, x: Nibbles)
    requires |children| == 16
    ensures At(Collapse(children, value), x) == At(Branch(children, value), x)
  {
    if Sole(children, value, 16) {
      if x != [] { assert !InUse(children, value, x[0] as int); }
    } else if u: nat :| u < 16 && Sole(children, value, u) {
      HangAt([u as Nibble], children[u], x);
      assert !InUse(children, value, 16);
      if x != [] && x[0] as int != u { assert !InUse(children, value, x[0] as int); }
    }
  }

  /** Something else is in use besides entry n. */
  lemma AnotherInUse(children: seq<Tree>, value: Bytes, n: nat) returns (i: nat)
    requires |children| == 16 && n <= 16 && TwoInUse(children, value)
    ensures i <= 16 && i != n && InUse(children, value, i)
  {
    var a, b :| 0 <= a < b <= 16 && InUse(children, value, a) && InUse(children, value, b);
    i := if a == n then b else a;
  }

  /** Removing finds exactly the stored keys and leaves a canonical tree; a
      branch never vanishes. */
  lemma {:induction false} DelCanonical(t: Tree, k: Nibbles)
    requires Canonical(t)
    ensures Shape(t) && (Del(t, k).Removed? <==> At(t, k) != [])
    ensures Del(t, k).Removed? ==> Canonical(Del(t, k).tree) && (t.Branch? || t.Ext? ==> Del(t, k).tree != Nil)
  {
    CanonicalShape(t);
    match t
    case Nil =>
    case Leaf(_, _) =>
    case Ext(key, child) =>
      if key <= k {
        DelCanonical(child, k[|key|..]);
        var d := Del(child, k[|key|..]);
        if d.Removed? { HangCanonical(key, d.tree); }
      }
    case Branch(children, value) =>
      if k == [] {
        var i := AnotherInUse(children, value, 16);
        if value != [] { CollapseCanonical(children, [], i); }
      } else {
        DelCanonical(children[k[0]], k[1..]);
        var d := Del(children[k[0]], k[1..]);
        var i := AnotherInUse(children, value, k[0] as int);
        if d.Removed? { CollapseCanonical(children[k[0] as int := d.tree], value, i); }
      }
  }

  /** After removing, k is gone and every other key holds what it held. */
  lemma {:induction false} DelAt(t: Tree, k: Nibbles, x: Nibbles)
    requires Canonical(t) && Shape(t) && Del(t, k).Removed?
    ensures At(Del(t, k).tree, x) == if x == k then [] else At(t, x)
  {
    match t
    case Leaf(_, _) =>
    case Ext(key, child) =>
      var c := Del(child, k[|key|..]).tree;
      HangAt(key, c, x);
      if key <= x {
        DelAt(child, k[|key|..], x[|key|..]);
        assert x == key + x[|key|..] && k == key + k[|key|..];
      }
    case Branch(children, value) =>
      if k == [] {
        CollapseAt(children, [], x);
      } else {
        var c := Del(children[k[0]], k[1..]).tree;
        CollapseAt(children[k[0] as int := c], value, x);
        if x != [] && x[0] == k[0] {
          DelAt(children[k[0]], k[1..], x[1..]);
          assert x == [x[0]] + x[1..] && k == [k[0]] + k[1..];
        }
      }
  }
}
