/** Sums of references given and taken. */
module Balance {
  import opened Bytes

  type Refs = multiset<Digest>

  /** Giving up self leaves room for the rest. */
  lemma Room(l0: Refs, inner: Refs, self: Refs)
    requires inner + self <= l0
    ensures inner <= l0 - self
    ensures (l0 - self) + (inner + self) == l0 + inner
  {
  }

  /** Two exchanges in a row. */
  lemma Chain(l0: Refs, l1: Refs, l2: Refs, a: Refs, b: Refs, c: Refs)
    requires l1 + a == l0 + b && l2 + b == l1 + c
    ensures l2 + a == l0 + c
  {
    forall h ensures (l2 + a)[h] == (l0 + c)[h] {
      assert (l1 + a)[h] == (l0 + b)[h] && (l2 + b)[h] == (l1 + c)[h];
    }
  }

  /** One part exchanged, inside a whole that changed by just that part. */
  lemma Part(l1: Refs, l2: Refs, inner: Refs, inner': Refs, part: Refs, part': Refs)
    requires l2 + part == l1 + part' && inner' + part == inner + part'
    ensures l2 + inner == l1 + inner'
  {
    forall h ensures (l2 + inner)[h] == (l1 + inner')[h] {
      assert (l2 + part)[h] == (l1 + part')[h] && (inner' + part)[h] == (inner + part')[h];
    }
  }

  /** A reference added on both sides. */
  lemma Both(l0: Refs, l1: Refs, a: Refs, b: Refs, s: Refs)
    requires l1 + a == l0 + b
    ensures (l1 + s) + a == l0 + (b + s)
  {
    forall h ensures ((l1 + s) + a)[h] == (l0 + (b + s))[h] {
      assert (l1 + a)[h] == (l0 + b)[h];
    }
  }

  /** self given up, then added taken. */
  lemma Swap(l0: Refs, inner: Refs, self: Refs, added: Refs)
    requires inner + self <= l0
    ensures (l0 - self + added) + (inner + self) == l0 + (inner + added)
    ensures inner + added <= l0 - self + added
  {
  }

  lemma DropLast(rest: Refs, h: Digest)
    ensures rest + multiset{h} - multiset{h} == rest
  {
  }
}
