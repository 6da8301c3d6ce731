/** The batch construction: a whole sorted map hashed at once
    (libdevcore/TrieHash.cpp), which the incremental trie must match. */
module TrieHash {
  import opened Bytes
  import opened Rlp
  import opened TrieCommon
  import opened Trie
  import opened TrieEdit
  import opened TrieNode

  datatype Pair = Pair(key: Nibbles, value: Bytes)

  /** A map in its iteration order: keys strictly ascending, and short enough
      for the 32-bit counters of the construction. */
  ghost predicate Sorted(s: seq<Pair>) {
    && (forall i, j | 0 <= i < j < |s| :: Less(s[i].key, s[j].key))
    && (forall i | 0 <= i < |s| :: |s[i].key| < 0xffff_ffff && s[i].value != [])
  }

  /** The pairs from begin to end have their first pre nibbles in common. */
  ghost predicate Common(s: seq<Pair>, begin: nat, end: nat, pre: nat) {
    && begin <= end <= |s|
    && (begin < end ==> pre <= |s[begin].key|)
    && forall i | begin <= i < end :: pre <= |s[i].key| && s[i].key[..pre] == s[begin].key[..pre]
  }

  /** Some pair from begin to end has key k, without its first pre nibbles. */
  ghost predicate Has(s: seq<Pair>, begin: nat, end: nat, pre: nat, k: Nibbles) {
    exists i | begin <= i < end <= |s| :: pre <= |s[i].key| && s[i].key[pre..] == k
  }

  /** t holds exactly the pairs from begin to end, without their first pre nibbles. */
  ghost predicate Covers(t: Tree, s: seq<Pair>, begin: nat, end: nat, pre: nat) {
    && (forall i | begin <= i < end <= |s| :: pre <= |s[i].key| ==> At(t, s[i].key[pre..]) == s[i].value)
    && (forall k :: At(t, k) != [] ==> Has(s, begin, end, pre, k))
  }

  /** Two trees for the same pairs are one. */
  lemma CoversUnique(t: Tree, u: Tree, s: seq<Pair>, begin: nat, end: nat, pre: nat)
    requires Canonical(t) && Canonical(u)
    requires Covers(t, s, begin, end, pre) && Covers(u, s, begin, end, pre)
    ensures t == u
  {
    forall k ensures At(t, k) == At(u, k) {
      if Has(s, begin, end, pre, k) {
        var i :| begin <= i < end <= |s| && pre <= |s[i].key| && s[i].key[pre..] == k;
      }
    }
    Unique(t, u);
  }

  /** Pair w leaves the first pair right after n nibbles. */
  ghost predicate LeavesAt(s: seq<Pair>, begin: nat, end: nat, w: nat, n: nat) {
    begin < w < end <= |s| && n <= |s[w].key| && n <= |s[begin].key|
    && Parted(s[begin].key[n..], s[w].key[n..])
  }

  /** The number of leading nibbles that all pairs share. */
  method SharedPre(s: seq<Pair>, begin: nat, end: nat, pre: nat) returns (sharedPre: nat, ghost w: nat)
    requires Sorted(s) && Common(s, begin, end, pre) && begin + 1 < end
    ensures pre <= sharedPre && Common(s, begin, end, sharedPre) && LeavesAt(s, begin, end, w, sharedPre)
  {
    sharedPre, w := 0xffff_ffff, begin + 1;
    var i := begin + 1;
    while i < end && sharedPre != 0
      invariant begin < i <= end && pre <= sharedPre
      invariant i == begin + 1 ==> sharedPre == 0xffff_ffff
      invariant i > begin + 1 ==> LeavesAt(s, begin, end, w, sharedPre) && Common(s, begin, i, sharedPre)
    {
      var shared := SharedFrom(s[begin].key, s[i].key, pre, Min(sharedPre, Min(|s[begin].key|, |s[i].key|)));
      SharedStep(s, begin, i, shared, sharedPre);
      if shared < sharedPre { w := i; }
      sharedPre := Min(shared, sharedPre);
      i := i + 1;
    }
    if sharedPre == 0 { assert forall j | begin <= j < end :: s[j].key[..0] == []; }
  }

  /** Counts on from pre while the two keys agree, at most up to x. */
  method SharedFrom(first: Nibbles, key: Nibbles, pre: nat, x: nat) returns (shared: nat)
    requires pre <= x <= |first| && x <= |key| && first[..pre] == key[..pre]
    ensures pre <= shared <= x && first[..shared] == key[..shared]
    ensures shared < x ==> first[shared] != key[shared]
  {
    shared := pre;
    while shared < x && first[shared] == key[shared]
      invariant pre <= shared <= x && first[..shared] == key[..shared]
    {
      assert first[..shared + 1] == first[..shared] + [first[shared]];
      assert key[..shared + 1] == key[..shared] + [key[shared]];
      shared := shared + 1;
    }
  }

  lemma SharedStep(s: seq<Pair>, begin: nat, i: nat, shared: nat, bound: nat)
    requires Sorted(s) && begin < i < |s|
    requires i > begin + 1 ==> Common(s, begin, i, bound)
    requires i == begin + 1 ==> bound == 0xffff_ffff
    requires shared <= Min(bound, Min(|s[begin].key|, |s[i].key|))
    requires s[begin].key[..shared] == s[i].key[..shared]
    requires shared < Min(bound, Min(|s[begin].key|, |s[i].key|)) ==> s[begin].key[shared] != s[i].key[shared]
    ensures Common(s, begin, i + 1, Min(shared, bound))
    ensures shared < bound ==> Parted(s[begin].key[shared..], s[i].key[shared..])
    ensures i == begin + 1 ==> shared < bound
  {
    var first := s[begin].key;
    forall j | begin <= j < i + 1 ensures shared <= |s[j].key| && s[j].key[..shared] == first[..shared] {
      if begin < j < i { assert s[j].key[..bound][..shared] == first[..bound][..shared]; }
    }
    if shared < bound { SharedStop(first, s[i].key, shared, bound); }
  }

  function Min(a: nat, b: nat): nat { if a < b then a else b }

  /** Where the comparison of two keys stops short, they part. */
  lemma SharedStop(a: Nibbles, b: Nibbles, shared: nat, bound: nat)
    requires Less(a, b) && shared <= |a| && shared <= |b| && shared < bound
    requires a[..shared] == b[..shared]
    requires shared < Min(bound, Min(|a|, |b|)) ==> a[shared] != b[shared]
    ensures Parted(a[shared..], b[shared..])
  {
    LessDistinct(a, b);
    assert a == a[..shared] + a[shared..] && b == b[..shared] + b[shared..];
  }

  lemma LessDistinct(a: Nibbles, b: Nibbles)
    requires Less(a, b)
    ensures a != b
  {
  }

  /** hash256rlp: the node for the pairs from begin to end. */
  method Hash256Rlp(s: seq<Pair>, begin: nat, end: nat, pre: nat) returns (it: Item, ghost t: Tree)
    requires Sorted(s) && Common(s, begin, end, pre)
    ensures it == ItemOf(t) && Canonical(t) && Covers(t, s, begin, end, pre)
    decreases end - begin, if begin < end then |s[begin].key| - pre else 0, 0
  {
    if begin == end {
      return Data([]), Nil;
    }
    var key := s[begin].key;
    if begin + 1 == end {
      return List([Data(HexPrefix(key[pre..], true)), Data(s[begin].value)]), Leaf(key[pre..], s[begin].value);
    }
    ghost var w: nat;
    var sharedPre;
    sharedPre, w := SharedPre(s, begin, end, pre);
    if sharedPre > pre {
      var ref;
      ghost var c: Tree;
      ref, c := Hash256Aux(s, begin, end, sharedPre);
      PartedIsBranch(c, key[sharedPre..], s[w].key[sharedPre..]);
      t := Ext(key[pre..sharedPre], c);
      CoversExt(t, s, begin, end, pre, sharedPre);
      it := List([Data(HexPrefix(key[pre..sharedPre], false)), ref]);
    } else {
      it, t := BranchRlp(s, begin, end, pre, w);
    }
  }

  lemma CoversExt(t: Tree, s: seq<Pair>, begin: nat, end: nat, pre: nat, n: nat)
    requires Common(s, begin, end, pre) && Common(s, begin, end, n) && begin < end && pre <= n
    requires t.Ext? && t.key == s[begin].key[pre..n] && Covers(t.child, s, begin, end, n)
    ensures Covers(t, s, begin, end, pre)
  {
    forall i | begin <= i < end ensures At(t, s[i].key[pre..]) == s[i].value {
      var k := s[i].key;
      assert k[pre..n] == k[..n][pre..] == s[begin].key[..n][pre..] == t.key;
      assert k[pre..] == t.key + k[n..];
      AtExt(t.key, t.child, k[n..]);
    }
    forall k | At(t, k) != [] ensures Has(s, begin, end, pre, k) {
      assert At(t.child, k[|t.key|..]) != [];
      var i :| begin <= i < end && s[i].key[n..] == k[|t.key|..];
      assert s[i].key[pre..n] == s[i].key[..n][pre..] == s[begin].key[..n][pre..] == t.key;
      assert s[i].key[pre..] == t.key + s[i].key[n..] == k;
    }
  }

  /** The pairs after the one that ends here, told apart by their next nibble:
      from bounds[j] to bounds[j + 1] it is j. */
  ghost predicate Runs(s: seq<Pair>, children: seq<Tree>, bounds: seq<nat>, pre: nat) {
    && |bounds| == |children| + 1
    && forall j | 0 <= j < |children| :: Run(s, children[j], bounds[j], bounds[j + 1], pre, j)
  }

  ghost predicate Run(s: seq<Pair>, t: Tree, b: nat, n: nat, pre: nat, j: nat) {
    && Common(s, b, n, pre + 1) && Covers(t, s, b, n, pre + 1) && Canonical(t)
    && forall i | b <= i < n :: s[i].key[pre] as int == j
  }

  /** The part of hash256rlp that enumerates all 16 + 1 entries. */
  method BranchRlp(s: seq<Pair>, begin: nat, end: nat, pre: nat, ghost w: nat) returns (it: Item, ghost t: Tree)
    requires Sorted(s) && Common(s, begin, end, pre) && LeavesAt(s, begin, end, w, pre)
    ensures it == ItemOf(t) && Canonical(t) && Covers(t, s, begin, end, pre)
    decreases end - begin, |s[begin].key| - pre, -1
  {
    assert RefOf(Nil) == Data([]);
    hide Canonical, Covers, Runs, RefOf, ItemOf, Sorted, LeavesAt, NibblesFrom;
    var b := if pre == |s[begin].key| then begin + 1 else begin;
    ghost var start := b;
    NextNibbles(s, begin, end, pre);
    var items: seq<Item> := [];
    ghost var children: seq<Tree> := [];
    ghost var bounds: seq<nat> := [b];
    var i := 0;
    while i < 16
      invariant 0 <= i <= 16 && |items| == |children| == i
      invariant start <= b <= end && |bounds| == i + 1 && bounds[0] == start && bounds[i] == b
      invariant NibblesFrom(s, b, end, pre, i)
      invariant Runs(s, children, bounds, pre)
      invariant forall j | 0 <= j < i :: items[j] == RefOf(children[j])
    {
      var n := RunEnd(s, begin, b, end, pre, i);
      var ref := Data([]);
      ghost var c := Nil;
      if b != n { ref, c := Hash256Aux(s, b, n, pre + 1); }
      RunAdded(s, children, bounds, c, n, pre);
      items, children, bounds := items + [ref], children + [c], bounds + [n];
      b := n;
      i := i + 1;
    }
    var value := if pre == |s[begin].key| then s[begin].value else [];
    t := Branch(children, value);
    CoversBranch(t, s, begin, end, pre, bounds);
    BranchTwoInUse(t, s, begin, end, pre, w);
    RunsCanonical(s, children, bounds, pre);
    it := List(items + [Data(value)]);
    ItemsMakeBranch(t, items + [Data(value)]);
  }

  lemma RunsCanonical(s: seq<Pair>, children: seq<Tree>, bounds: seq<nat>, pre: nat)
    requires Runs(s, children, bounds, pre)
    ensures forall j | 0 <= j < |children| :: Canonical(children[j])
  {
    forall j | 0 <= j < |children| ensures Canonical(children[j]) {
      assert Run(s, children[j], bounds[j], bounds[j + 1], pre, j);
    }
  }

  /** From b on, the next nibble is i or more. */
  ghost predicate NibblesFrom(s: seq<Pair>, b: nat, end: nat, pre: nat, i: nat) {
    forall j | b <= j < end <= |s| :: |s[j].key| > pre && s[j].key[pre] as int >= i
  }

  /** Where the run of pairs with next nibble i ends. */
  method RunEnd(s: seq<Pair>, ghost begin: nat, b: nat, end: nat, pre: nat, i: nat) returns (n: nat)
    requires Sorted(s) && Common(s, begin, end, pre) && begin <= b <= end && i < 16 && NibblesFrom(s, b, end, pre, i)
    ensures b <= n <= end && NibblesFrom(s, n, end, pre, i + 1) && (i == 15 ==> n == end)
    ensures Common(s, b, n, pre + 1) && forall j | b <= j < n :: s[j].key[pre] as int == i
  {
    n := b;
    while n < end && s[n].key[pre] as int == i
      invariant b <= n <= end
      invariant forall j | b <= j < n :: s[j].key[pre] as int == i
    {
      n := n + 1;
    }
    RunCommon(s, begin, end, pre, b, n);
    forall j | n <= j < end ensures s[j].key[pre] as int >= i + 1 {
      if j > n { NibblesAscend(s, begin, end, pre, n, j); }
    }
  }

  lemma RunAdded(s: seq<Pair>, children: seq<Tree>, bounds: seq<nat>, c: Tree, n: nat, pre: nat)
    requires Runs(s, children, bounds, pre)
    requires Run(s, c, bounds[|children|], n, pre, |children|)
    ensures Runs(s, children + [c], bounds + [n], pre)
  {
  }

  /** Only the first pair can end at the common prefix. */
  lemma NextNibbles(s: seq<Pair>, begin: nat, end: nat, pre: nat)
    requires Sorted(s) && Common(s, begin, end, pre)
    ensures forall i | begin < i < end :: |s[i].key| > pre
    ensures begin < end && |s[begin].key| > pre ==> forall i | begin <= i < end :: |s[i].key| > pre
  {
    forall i | begin < i < end ensures |s[i].key| > pre {
      var a, b := s[begin].key, s[i].key;
      assert Less(a, b);
      if |b| == pre { assert a[..pre] == b; SharedIs(a, b, pre); assert false; }
    }
  }

  lemma NibblesAscend(s: seq<Pair>, begin: nat, end: nat, pre: nat, i: nat, j: nat)
    requires Sorted(s) && Common(s, begin, end, pre) && begin <= i < j < end
    requires |s[i].key| > pre && |s[j].key| > pre
    ensures s[i].key[pre] <= s[j].key[pre]
  {
    var a, b := s[i].key, s[j].key;
    assert Less(a, b);
    if a[pre] != b[pre] { SharedIs(a, b, pre); }
  }

  lemma RunCommon(s: seq<Pair>, begin: nat, end: nat, pre: nat, b: nat, n: nat)
    requires Common(s, begin, end, pre) && begin <= b <= n <= end
    requires b < n ==> |s[b].key| > pre
    requires forall j | b <= j < n :: |s[j].key| > pre && s[j].key[pre] == s[b].key[pre]
    ensures Common(s, b, n, pre + 1)
  {
    forall j | b <= j < n ensures s[j].key[..pre + 1] == s[b].key[..pre + 1] {
      assert s[j].key[..pre + 1] == s[j].key[..pre] + [s[j].key[pre]];
      assert s[b].key[..pre + 1] == s[b].key[..pre] + [s[b].key[pre]];
    }
  }

  /** Every index between the first and the last bound lies in one run. */
  lemma {:induction false} FindRun(bounds: seq<nat>, i: nat) returns (j: nat)
    requires |bounds| > 0 && forall j | 0 <= j < |bounds| - 1 :: bounds[j] <= bounds[j + 1]
    requires bounds[0] <= i < bounds[|bounds| - 1]
    ensures j < |bounds| - 1 && bounds[j] <= i < bounds[j + 1]
  {
    var last := |bounds| - 2;
    if bounds[last] <= i { j := last; } else { j := FindRun(bounds[..last + 1], i); }
  }

  ghost predicate InRuns(t: Tree, s: seq<Pair>, begin: nat, end: nat, pre: nat, bounds: seq<nat>) {
    && begin < end <= |s| && t.Branch? && |t.children| == 16
    && Runs(s, t.children, bounds, pre) && bounds[16] == end && pre <= |s[begin].key|
    && bounds[0] == (if pre == |s[begin].key| then begin + 1 else begin)
    && t.value == if pre == |s[begin].key| then s[begin].value else []
  }

  lemma CoversBranch(t: Tree, s: seq<Pair>, begin: nat, end: nat, pre: nat, bounds: seq<nat>)
    requires InRuns(t, s, begin, end, pre, bounds)
    ensures Covers(t, s, begin, end, pre)
  {
    forall i | begin <= i < end && pre <= |s[i].key| ensures At(t, s[i].key[pre..]) == s[i].value {
      PairFound(t, s, begin, end, pre, bounds, i);
    }
    forall k | At(t, k) != [] ensures Has(s, begin, end, pre, k) {
      KeyFound(t, s, begin, end, pre, bounds, k);
    }
  }

  lemma PairFound(t: Tree, s: seq<Pair>, begin: nat, end: nat, pre: nat, bounds: seq<nat>, i: nat)
    requires InRuns(t, s, begin, end, pre, bounds) && begin <= i < end && pre <= |s[i].key|
    ensures At(t, s[i].key[pre..]) == s[i].value
  {
    if i >= bounds[0] {
      forall j | 0 <= j < 16 ensures bounds[j] <= bounds[j + 1] {
        assert Run(s, t.children[j], bounds[j], bounds[j + 1], pre, j);
      }
      var j := FindRun(bounds, i);
      assert Run(s, t.children[j], bounds[j], bounds[j + 1], pre, j);
      var k := s[i].key;
      assert k[pre..] == [k[pre]] + k[pre + 1..];
      AtBranch(t, k[pre], k[pre + 1..]);
    }
  }

  lemma KeyFound(t: Tree, s: seq<Pair>, begin: nat, end: nat, pre: nat, bounds: seq<nat>, k: Nibbles)
    requires InRuns(t, s, begin, end, pre, bounds) && At(t, k) != []
    ensures Has(s, begin, end, pre, k)
  {
    if k == [] {
      assert s[begin].key[pre..] == [];
    } else {
      var j := k[0] as int;
      forall j | 0 <= j < 16 ensures bounds[j] <= bounds[j + 1] {
        assert Run(s, t.children[j], bounds[j], bounds[j + 1], pre, j);
      }
      BoundsInside(bounds, j);
      assert Run(s, t.children[j], bounds[j], bounds[j + 1], pre, j);
      assert Has(s, bounds[j], bounds[j + 1], pre + 1, k[1..]);
      var i :| bounds[j] <= i < bounds[j + 1] && pre + 1 <= |s[i].key| && s[i].key[pre + 1..] == k[1..];
      assert s[i].key[pre..] == [s[i].key[pre]] + s[i].key[pre + 1..] == k;
    }
  }

  lemma {:induction false} BoundsInside(bounds: seq<nat>, j: nat)
    requires |bounds| > 0 && j < |bounds| - 1 && forall j | 0 <= j < |bounds| - 1 :: bounds[j] <= bounds[j + 1]
    ensures bounds[0] <= bounds[j] && bounds[j + 1] <= bounds[|bounds| - 1]
  {
    if |bounds| > 2 {
      if j > 0 { BoundsInside(bounds[1..], j - 1); } else { BoundsInside(bounds[..|bounds| - 1], 0); }
    }
  }

  lemma BranchTwoInUse(t: Tree, s: seq<Pair>, begin: nat, end: nat, pre: nat, w: nat)
    requires Sorted(s) && Common(s, begin, end, pre) && LeavesAt(s, begin, end, w, pre)
    requires t.Branch? && |t.children| == 16 && Covers(t, s, begin, end, pre)
    ensures TwoInUse(t.children, t.value)
  {
    var a, b := s[begin].key[pre..], s[w].key[pre..];
    assert At(t, a) != [] && At(t, b) != [];
    var i := if a == [] then 16 else a[0] as int;
    var j := if b == [] then 16 else b[0] as int;
    assert InUse(t.children, t.value, i) && InUse(t.children, t.value, j);
    if i < j { TwoInUseAt(t.children, t.value, i, j); } else { TwoInUseAt(t.children, t.value, j, i); }
  }

  /** hash256aux: the item by which a parent refers to that node. */
  method Hash256Aux(s: seq<Pair>, begin: nat, end: nat, pre: nat) returns (ref: Item, ghost t: Tree)
    requires Sorted(s) && Common(s, begin, end, pre)
    ensures ref == RefOf(t) && Canonical(t) && Covers(t, s, begin, end, pre)
    decreases end - begin, if begin < end then |s[begin].key| - pre else 0, 1
  {
    var it;
    it, t := Hash256Rlp(s, begin, end, pre);
    var out := Encode(it);
    ref := if |out| < HASHED_FROM then it else Data(Sha3(out));
  }

  /** rlp256: the root node's bytes for a whole map. */
  method Rlp256(s: seq<Pair>) returns (b: Bytes, ghost t: Tree)
    requires Sorted(s)
    ensures b == Node(t) && Canonical(t) && Common(s, 0, |s|, 0) && Covers(t, s, 0, |s|, 0)
    ensures forall u | Canonical(u) && Covers(u, s, 0, |s|, 0) :: b == Node(u)
  {
    assert Common(s, 0, |s|, 0);
    if |s| == 0 {
      b, t := Encode(Data([])), Nil;
    } else {
      var it;
      it, t := Hash256Rlp(s, 0, |s|, 0);
      b := Encode(it);
    }
    OnlyTree(t, s);
  }

  /** No other tree holds the whole map. */
  lemma OnlyTree(t: Tree, s: seq<Pair>)
    requires Canonical(t) && Covers(t, s, 0, |s|, 0)
    ensures forall u | Canonical(u) && Covers(u, s, 0, |s|, 0) :: u == t
  {
    forall u | Canonical(u) && Covers(u, s, 0, |s|, 0)
      ensures u == t
    {
      CoversUnique(u, t, s, 0, |s|, 0);
    }
  }

  /** hash256: the root hash for a whole map. */
  method Hash256(s: seq<Pair>) returns (h: Digest, ghost t: Tree)
    requires Sorted(s)
    ensures h == Sha3(Node(t)) && Canonical(t) && Common(s, 0, |s|, 0) && Covers(t, s, 0, |s|, 0)
    ensures forall u | Canonical(u) && Covers(u, s, 0, |s|, 0) :: h == Sha3(Node(u))
  {
    var b;
    b, t := Rlp256(s);
    h := Sha3(b);
  }
}
