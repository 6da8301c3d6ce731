/** The entries of a trie in the order an iterator visits them. */
module TrieOrder {
  import opened Bytes
  import opened TrieCommon
  import opened Trie
  import opened TrieHash

  // ----- The order on keys -----

  lemma Prepend(p: Nibbles, x: Nibbles, y: Nibbles)
    ensures p + x <= p + y <==> x <= y
    ensures p + y <= p + x <==> y <= x
  {
    assert p + x <= p + y ==> (p + y)[|p|..][..|x|] == (p + x)[|p|..];
    assert p + y <= p + x ==> (p + x)[|p|..][..|y|] == (p + y)[|p|..];
  }

  lemma {:induction false} SharedBelow(p: Nibbles, a: Nibbles, b: Nibbles)
    ensures Shared(p + a, p + b) == |p| + Shared(a, b)
  {
    var n := Shared(a, b);
    assert (p + a)[..|p| + n] == p + a[..n] && (p + b)[..|p| + n] == p + b[..n];
    SharedIs(p + a, p + b, |p| + n);
  }

  lemma LessBelow(p: Nibbles, a: Nibbles, b: Nibbles)
    ensures Less(p + a, p + b) <==> Less(a, b)
  {
    SharedBelow(p, a, b);
  }

  /** Below a prefix that a key passes, every key compares with it alike. */
  lemma LessExtends(a: Nibbles, b: Nibbles, r: Nibbles)
    requires Shared(a, b) < |a| && Shared(a, b) < |b|
    ensures Less(a + r, b) <==> Less(a, b)
    ensures Less(b, a + r) <==> Less(b, a)
  {
    var n := Shared(a, b);
    assert (a + r)[..n] == a[..n];
    SharedIs(a + r, b, n);
    SharedIs(b, a, n);
    SharedIs(b, a + r, n);
  }

  lemma PrefixNotLess(p: Nibbles, r: Nibbles)
    ensures !Less(p + r, p)
    ensures Less(p, p + r) <==> r != []
  {
    assert (p + r)[..|p|] == p;
    SharedIs(p + r, p, |p|);
    SharedIs(p, p + r, |p|);
  }

  // ----- The entries -----

  /** The pairs of t, their keys under the path p. */
  ghost function Entries(t: Tree, p: Nibbles): seq<Pair>
    decreases t, 17
  {
    match t
    case Nil => []
    case Leaf(key, value) => [Pair(p + key, value)]
    case Ext(key, child) => Entries(child, p + key)
    case Branch(_, value) => ValueEntry(value, p) + ChildrenFrom(t, p, 0)
  }

  ghost function ValueEntry(value: Bytes, p: Nibbles): seq<Pair> {
    if value == [] then [] else [Pair(p, value)]
  }

  ghost function ChildrenFrom(t: Tree, p: Nibbles, j: nat): seq<Pair>
    requires t.Branch?
    decreases t, if j < 16 then 16 - j else 0
  {
    if j >= 16 || j >= |t.children| then [] else Entries(t.children[j], p + [j as Nibble]) + ChildrenFrom(t, p, j + 1)
  }

  /** Every key is strictly below the next. */
  ghost predicate Ascending(s: seq<Pair>) {
    forall i, j | 0 <= i < j < |s| :: Less(s[i].key, s[j].key)
  }

  ghost predicate AllUnder(s: seq<Pair>, p: Nibbles) {
    forall i | 0 <= i < |s| :: p <= s[i].key
  }

  /** Keys under p whose next nibble is j or more. */
  ghost predicate AllFrom(s: seq<Pair>, p: Nibbles, j: nat) {
    forall i | 0 <= i < |s| :: p <= s[i].key && |s[i].key| > |p| && s[i].key[|p|] as int >= j
  }

  lemma {:induction false} EntriesUnder(t: Tree, p: Nibbles)
    ensures AllUnder(Entries(t, p), p)
    decreases t, 17
  {
    match t
    case Nil =>
    case Leaf(_, _) =>
    case Ext(key, child) => EntriesUnder(child, p + key);
    case Branch(_, _) => ChildrenFromFrom(t, p, 0);
  }

  lemma {:induction false} ChildrenFromFrom(t: Tree, p: Nibbles, j: nat)
    requires t.Branch?
    ensures AllFrom(ChildrenFrom(t, p, j), p, j)
    decreases t, if j < 16 then 16 - j else 0
  {
    if j < 16 && j < |t.children| {
      EntriesUnder(t.children[j], p + [j as Nibble]);
      ChildrenFromFrom(t, p, j + 1);
      UnderFrom(Entries(t.children[j], p + [j as Nibble]), p, j);
    }
  }

  lemma UnderFrom(s: seq<Pair>, p: Nibbles, j: nat)
    requires j < 16 && AllUnder(s, p + [j as Nibble])
    ensures forall i | 0 <= i < |s| :: p <= s[i].key && |s[i].key| > |p| && s[i].key[|p|] as int == j
  {
    forall i | 0 <= i < |s| ensures p <= s[i].key && |s[i].key| > |p| && s[i].key[|p|] as int == j {
      assert s[i].key[..|p| + 1] == p + [j as Nibble];
      assert s[i].key[..|p|] == s[i].key[..|p| + 1][..|p|];
    }
  }

  lemma LessByNibble(p: Nibbles, a: Nibbles, b: Nibbles)
    requires p <= a && p <= b && |a| > |p| && |b| > |p| && a[|p|] < b[|p|]
    ensures Less(a, b)
  {
    SharedIs(a, b, |p|);
  }

  /** The order of visiting is the order on keys. */
  lemma {:induction false} EntriesAscend(t: Tree, p: Nibbles)
    ensures Ascending(Entries(t, p))
    decreases t, 17
  {
    match t
    case Nil =>
    case Leaf(_, _) =>
    case Ext(key, child) => EntriesAscend(child, p + key);
    case Branch(_, value) =>
      ChildrenFromAscend(t, p, 0);
      ChildrenFromFrom(t, p, 0);
      var es := ChildrenFrom(t, p, 0);
      forall j | 0 <= j < |es| ensures Less(p, es[j].key) {
        assert es[j].key == p + es[j].key[|p|..];
        PrefixNotLess(p, es[j].key[|p|..]);
      }
  }

  lemma {:induction false} ChildrenFromAscend(t: Tree, p: Nibbles, j: nat)
    requires t.Branch?
    ensures Ascending(ChildrenFrom(t, p, j))
    decreases t, if j < 16 then 16 - j else 0
  {
    if j < 16 && j < |t.children| {
      var a, b := Entries(t.children[j], p + [j as Nibble]), ChildrenFrom(t, p, j + 1);
      EntriesAscend(t.children[j], p + [j as Nibble]);
      ChildrenFromAscend(t, p, j + 1);
      EntriesUnder(t.children[j], p + [j as Nibble]);
      UnderFrom(a, p, j);
      ChildrenFromFrom(t, p, j + 1);
      forall x, y | 0 <= x < |a| && 0 <= y < |b| ensures Less(a[x].key, b[y].key) {
        LessByNibble(p, a[x].key, b[y].key);
      }
    }
  }

  // ----- They are the contents -----

  /** Exactly the stored pairs are visited. */
  lemma {:induction false} EntriesComplete(t: Tree, p: Nibbles, k: Nibbles, v: Bytes)
    requires Canonical(t) && v != []
    ensures Pair(p + k, v) in Entries(t, p) <==> At(t, k) == v
    decreases t, 17
  {
    match t
    case Nil =>
    case Leaf(key, value) =>
      assert p + k == p + key <==> k == key by {
        assert (p + k)[|p|..] == k && (p + key)[|p|..] == key;
      }
    case Ext(key, child) =>
      if key <= k {
        assert p + k == p + key + k[|key|..];
        EntriesComplete(child, p + key, k[|key|..], v);
      } else {
        EntriesUnder(child, p + key);
        Prepend(p, key, k);
        assert Pair(p + k, v) !in Entries(child, p + key);
      }
    case Branch(children, value) =>
      ChildrenFromFrom(t, p, 0);
      if k == [] {
        assert p + k == p;
        assert Pair(p, v) !in ChildrenFrom(t, p, 0);
      } else {
        ChildrenFromComplete(t, p, 0, k, v);
        assert |p + k| > |p|;
      }
  }

  lemma {:induction false} ChildrenFromComplete(t: Tree, p: Nibbles, j: nat, k: Nibbles, v: Bytes)
    requires Canonical(t) && t.Branch? && v != [] && k != [] && j <= 16
    ensures Pair(p + k, v) in ChildrenFrom(t, p, j) <==> k[0] as int >= j && At(t, k) == v
    decreases t, 16 - j
  {
    if j < 16 {
      var a := Entries(t.children[j], p + [j as Nibble]);
      ChildrenFromComplete(t, p, j + 1, k, v);
      if k[0] as int == j {
        assert p + k == p + [k[0]] + k[1..];
        EntriesComplete(t.children[j], p + [j as Nibble], k[1..], v);
      } else {
        EntriesUnder(t.children[j], p + [j as Nibble]);
        UnderFrom(a, p, j);
        assert (p + k)[|p|] == k[0];
        assert Pair(p + k, v) !in a;
      }
    }
  }

  // ----- The entries from a key on -----

  ghost function NotBefore(s: seq<Pair>, key: Nibbles): seq<Pair> {
    Filter(s, (e: Pair) => !Less(e.key, key))
  }

  ghost function Filter(s: seq<Pair>, f: Pair -> bool): seq<Pair> {
    if s == [] then [] else (if f(s[0]) then [s[0]] else []) + Filter(s[1..], f)
  }

  lemma {:induction false} FilterConcat(a: seq<Pair>, b: seq<Pair>, f: Pair -> bool)
    ensures Filter(a + b, f) == Filter(a, f) + Filter(b, f)
  {
    if a == [] {
      assert a + b == b;
    } else {
      FilterConcat(a[1..], b, f);
      assert (a + b)[1..] == a[1..] + b && (a + b)[0] == a[0];
    }
  }

  lemma NotBeforeConcat(a: seq<Pair>, b: seq<Pair>, key: Nibbles)
    ensures NotBefore(a + b, key) == NotBefore(a, key) + NotBefore(b, key)
  {
    FilterConcat(a, b, (e: Pair) => !Less(e.key, key));
  }

  lemma {:induction false} NotBeforeAll(s: seq<Pair>, key: Nibbles)
    requires forall i | 0 <= i < |s| :: !Less(s[i].key, key)
    ensures NotBefore(s, key) == s
  {
    if s != [] { NotBeforeAll(s[1..], key); }
  }

  lemma {:induction false} NotBeforeNone(s: seq<Pair>, key: Nibbles)
    requires forall i | 0 <= i < |s| :: Less(s[i].key, key)
    ensures NotBefore(s, key) == []
  {
    if s != [] { NotBeforeNone(s[1..], key); }
  }

  /** Of ascending entries, those from a key on: the first is the least that is
      not before the key, and none is left out. */
  lemma {:induction false} NotBeforeLeast(s: seq<Pair>, key: Nibbles)
    requires Ascending(s)
    ensures forall e :: e in NotBefore(s, key) <==> e in s && !Less(e.key, key)
    ensures Ascending(NotBefore(s, key))
  {
    if s != [] {
      NotBeforeLeast(s[1..], key);
      assert s == [s[0]] + s[1..];
      var rest := NotBefore(s[1..], key);
      forall j | 0 <= j < |rest| ensures Less(s[0].key, rest[j].key) {
        assert rest[j] in s[1..];
      }
    }
  }

  /** Looking for p itself under p leaves everything. */
  lemma NotBeforeStart(t: Tree, p: Nibbles)
    ensures NotBefore(Entries(t, p), p + []) == Entries(t, p)
  {
    EntriesUnder(t, p);
    var s := Entries(t, p);
    forall i | 0 <= i < |s| ensures !Less(s[i].key, p + []) {
      assert s[i].key == p + s[i].key[|p|..] && p + [] == p;
      PrefixNotLess(p, s[i].key[|p|..]);
    }
    NotBeforeAll(s, p + []);
  }

  /** A pair's key q against the key k looked for, when k does not go through q:
      all of the pair is before k, or none. */
  lemma NotBeforePair(c: Tree, p: Nibbles, q: Nibbles, k: Nibbles)
    requires !(q <= k)
    ensures NotBefore(Entries(c, p + q), p + k) == if Less(k, q) then Entries(c, p + q) else []
  {
    EntriesUnder(c, p + q);
    var s := Entries(c, p + q);
    forall i | 0 <= i < |s| ensures Less(s[i].key, p + k) <==> !Less(k, q) { BeforePair(s[i].key, p, q, k); }
    if Less(k, q) { NotBeforeAll(s, p + k); } else { NotBeforeNone(s, p + k); }
  }

  lemma BeforePair(key: Nibbles, p: Nibbles, q: Nibbles, k: Nibbles)
    requires !(q <= k) && p + q <= key
    ensures Less(key, p + k) <==> !Less(k, q)
  {
    var r := key[|p + q|..];
    assert key == p + (q + r);
    LessBelow(p, q + r, k);
    var n := Shared(q, k);
    SharedIs(k, q, n);
    assert k[..|k|] == k && q[..|q|] == q;
    if n < |k| {
      LessExtends(q, k, r);
    } else {
      assert q == k + q[n..];
      assert q + r == k + (q[n..] + r);
      PrefixNotLess(k, q[n..] + r);
      PrefixNotLess(k, q[n..]);
    }
  }

  /** A branch against a key that goes on: from the child the key names, then on. */
  lemma NotBeforeBranch(t: Tree, p: Nibbles, k: Nibbles)
    requires t.Branch? && |t.children| == 16 && k != []
    ensures var c := k[0] as int;
            NotBefore(Entries(t, p), p + k)
              == NotBefore(Entries(t.children[c], p + [k[0]]), (p + [k[0]]) + k[1..]) + ChildrenFrom(t, p, c + 1)
  {
    var c, key := k[0] as int, p + k;
    assert (p + [k[0]]) + k[1..] == key;
    var e, later := Entries(t.children[c], p + [k[0]]), ChildrenFrom(t, p, c + 1);
    BranchFromChild(t, p, k);
    assert ChildrenFrom(t, p, c) == e + later;
    NotBeforeConcat(e, later, key);
    LaterChildren(t, p, k);
  }

  lemma BranchFromChild(t: Tree, p: Nibbles, k: Nibbles)
    requires t.Branch? && |t.children| == 16 && k != []
    ensures NotBefore(Entries(t, p), p + k) == NotBefore(ChildrenFrom(t, p, k[0] as int), p + k)
  {
    var v, key := ValueEntry(t.value, p), p + k;
    PrefixNotLess(p, k);
    NotBeforeNone(v, key);
    NotBeforeConcat(v, ChildrenFrom(t, p, 0), key);
    SkipChildren(t, p, k, 0);
    assert Entries(t, p) == v + ChildrenFrom(t, p, 0);
  }

  lemma LaterChildren(t: Tree, p: Nibbles, k: Nibbles)
    requires t.Branch? && |t.children| == 16 && k != []
    ensures var s := ChildrenFrom(t, p, k[0] as int + 1); NotBefore(s, p + k) == s
  {
    var s := ChildrenFrom(t, p, k[0] as int + 1);
    ChildrenFromFrom(t, p, k[0] as int + 1);
    forall i | 0 <= i < |s| ensures !Less(s[i].key, p + k) {
      LessByNibble(p, p + k, s[i].key);
      SharedIs(s[i].key, p + k, |p|);
    }
    NotBeforeAll(s, p + k);
  }

  lemma {:induction false} SkipChildren(t: Tree, p: Nibbles, k: Nibbles, j: nat)
    requires t.Branch? && |t.children| == 16 && k != [] && j <= k[0] as int
    ensures NotBefore(ChildrenFrom(t, p, j), p + k) == NotBefore(ChildrenFrom(t, p, k[0] as int), p + k)
    decreases k[0] as int - j
  {
    if j < k[0] as int {
      var a := Entries(t.children[j], p + [j as Nibble]);
      EntriesUnder(t.children[j], p + [j as Nibble]);
      UnderFrom(a, p, j);
      forall i | 0 <= i < |a| ensures Less(a[i].key, p + k) { LessByNibble(p, a[i].key, p + k); }
      NotBeforeNone(a, p + k);
      NotBeforeConcat(a, ChildrenFrom(t, p, j + 1), p + k);
      SkipChildren(t, p, k, j + 1);
    }
  }
}
