/** The reference-counted store of hashed nodes (libdevcore/MemoryDB.h, .cpp). */
module MemoryDb {
  import opened Bytes
  import opened Rlp

  /** What can go wrong.  In the store: two strings with one hash, a node too
      long for 64-bit sizes, a reference count past its 32-bit counter.  And
      in removal: it loses its way, or takes a value for a reference, which is
      too long for one or happens to be the hash of a stored string. */
  datatype Fault =
    | Collision(first: Bytes, second: Bytes)
    | TooLong(node: Bytes)
    | RefOverflow(hash: Digest)
    | Astray
    | TooWide(value: Bytes)
    | Mistaken(value: Bytes)

  const REFS_LIMIT: nat := 0xffff_ffff
  const COUNTER: nat := 0x1_0000_0000

  datatype Outcome<+T> = Done(value: T) | Failed(fault: Fault) {
    predicate IsFailure() { Failed? }
    function PropagateFailure<U>(): Outcome<U> requires Failed? { Failed(fault) }
    function Extract(): T requires Done? { value }
  }

  datatype Entry = Entry(value: Bytes, refs: nat)
  type Table = map<Digest, Entry>

  /** toHash: a string of up to 32 bytes, zeros in front. */
  function AsHash(v: Bytes): (h: Digest)
    requires |v| <= 32
    ensures forall i | 0 <= i < 32 :: h[i] == if i < 32 - |v| then 0 else v[i - 32 + |v|]
  {
    Zeros(32 - |v|) + v
  }

  /** Every entry stays, with its value; only counts and new entries differ. */
  ghost predicate Extends(before: Table, after: Table) {
    forall h | h in before :: h in after && after[h].value == before[h].value
  }

  /** The hash tells all these strings apart. */
  ghost predicate NoCollision(strings: set<Bytes>) {
    forall a, b | a in strings && b in strings :: Sha3(a) == Sha3(b) ==> a == b
  }

  lemma CountBelow(m: multiset<Digest>, h: Digest)
    ensures m[h] <= |m|
  {
    assert |m[h := 0]| == |m| - m[h];
  }

  lemma NoMore(a: multiset<Digest>, b: multiset<Digest>)
    ensures |a - b| <= |a|
  {
    assert a == (a - b) + a * b;
  }

  /** The counts are those of live, and every entry is under its hash. */
  ghost predicate Consistent(main: Table, live: multiset<Digest>, met: set<Bytes>) {
    && (forall h :: live[h] == if h in main then main[h].refs else 0)
    && (forall h | h in main :: Sha3(main[h].value) == h && |main[h].value| < LENGTH_LIMIT)
    && (forall h | h in main :: main[h].value in met)
  }

  /** Whether putting v in, where the store held `was`, is sound. */
  function Verdict(was: Table, h: Digest, v: Bytes): Outcome<()> {
    if |v| >= LENGTH_LIMIT then Failed(TooLong(v))
    else if h in was && was[h].value != v then Failed(Collision(v, was[h].value))
    else if h in was && was[h].refs >= REFS_LIMIT then Failed(RefOverflow(h))
    else Done(())
  }

  /** v put in once more, the count cut to 32 bits. */
  function More(main: Table, h: Digest, v: Bytes): Table {
    main[h := Entry(v, if h in main then (main[h].refs + 1) % COUNTER else 1)]
  }

  /** A reference dropped, if there is one. */
  function Fewer(main: Table, h: Digest): Table {
    if h in main && main[h].refs > 0 then main[h := Entry(main[h].value, main[h].refs - 1)] else main
  }

  lemma PutIn(main: Table, live: multiset<Digest>, met: set<Bytes>, h: Digest, v: Bytes)
    requires Consistent(main, live, met) && h == Sha3(v) && Verdict(main, h, v).Done?
    ensures Consistent(More(main, h, v), live + multiset{h}, met + {v}) && Extends(main, More(main, h, v))
  {
    var more := More(main, h, v);
    assert more[h].refs == live[h] + 1;
    forall x
      ensures (live + multiset{h})[x] == if x in more then more[x].refs else 0
    {
    }
  }

  lemma TakenOut(main: Table, live: multiset<Digest>, met: set<Bytes>, h: Digest, v: Bytes)
    requires Consistent(main, live, met) && (h in main ==> main[h].value == v)
    ensures Consistent(Fewer(main, h), live - multiset{h}, met + {v}) && Extends(main, Fewer(main, h))
    ensures Fewer(main, h).Keys == main.Keys
    ensures live[h] > 0 <==> h in main && main[h].refs > 0
  {
    var fewer := Fewer(main, h);
    forall x
      ensures (live - multiset{h})[x] == if x in fewer then fewer[x].refs else 0
    {
    }
  }

  class MemoryDB {
    var main: Table
    var enforceRefs: bool
    /** The counts as a multiset. */
    ghost var live: multiset<Digest>
    /** Every string the store was ever given. */
    ghost var met: set<Bytes>

    ghost predicate Valid()
      reads this
    {
      Consistent(main, live, met)
    }

    /** A fault has a cause: two strings the store was given have one hash; or
        some node was not short; or there were at least that many references. */
    ghost predicate Explains(f: Fault, short: bool, refs: nat)
      reads this
    {
      match f
      case Collision(a, b) => a in met && b in met && a != b && Sha3(a) == Sha3(b)
      case TooLong(_) => !short
      case RefOverflow(_) => refs >= REFS_LIMIT
      case _ => false
    }

    /** The fault is that this value was taken for a reference. */
    ghost predicate Misread(f: Fault, value: Bytes)
      reads this
    {
      match f
      case TooWide(v) => v == value && |v| > 32
      case Mistaken(v) => v == value && 0 < |v| <= 32 && AsHash(v) in main
      case _ => false
    }

    /** Nothing explains a fault when no strings collide and there is room. */
    lemma NoCause(f: Fault, short: bool, refs: nat)
      requires Explains(f, short, refs)
      ensures NoCollision(met) && short ==> refs >= REFS_LIMIT
    {
    }

    constructor ()
      ensures Valid() && main == map[] && live == multiset{} && met == {} && !enforceRefs
    {
      main, live, met, enforceRefs := map[], multiset{}, {}, false;
    }

    method Lookup(h: Digest) returns (v: Bytes)
      ensures v == if h in main && (enforceRefs ==> main[h].refs > 0) then main[h].value else []
    {
      if h in main && (!enforceRefs || main[h].refs > 0) { return main[h].value; }
      return [];
    }

    method Exists(h: Digest) returns (b: bool)
      ensures b <==> h in main && (enforceRefs ==> main[h].refs > 0)
    {
      b := h in main && (!enforceRefs || main[h].refs > 0);
    }

    /** insert: one more reference to v.  The string and the count are always
        put in; the outcome says whether that was sound. */
    method Insert(h: Digest, v: Bytes) returns (r: Outcome<()>)
      requires Valid() && h == Sha3(v)
      modifies this`main, this`live, this`met
      ensures main == More(old(main), h, v)
      ensures h in main && main[h].refs == if h in old(main) then (old(main)[h].refs + 1) % 0x1_0000_0000 else 1
      ensures met == old(met) + {v}
      ensures r.Done? <==>
        && |v| < 0xffff_ffff_ffff_feff
        && (h in old(main) ==> old(main)[h].value == v && old(main)[h].refs < 0xffff_ffff)
      ensures r.Failed? ==> Explains(r.fault, |v| < LENGTH_LIMIT, |old(live)|)
      ensures r.Done? ==> Valid() && Extends(old(main), main)
      ensures r.Done? ==> live == old(live) + multiset{h} && h in main && main[h].value == v && |v| < LENGTH_LIMIT
      ensures r.Done? ==> main.Keys == old(main).Keys + {h}
    {
      CountBelow(live, h);
      r := Verdict(main, h, v);
      if r.Done? { PutIn(main, live, met, h, v); }
      hide Consistent;
      met := met + {v};
      main := main[h := Entry(v, if h in main then (main[h].refs + 1) % COUNTER else 1)];
      if r.Done? { live := live + multiset{h}; }
    }

    method Drop(h: Digest) returns (held: bool)
      modifies this`main
      ensures main == Fewer(old(main), h)
      ensures held <==> h in old(main) && old(main)[h].refs > 0
    {
      held := false;
      if h in main {
        if main[h].refs > 0 {
          main := main[h := Entry(main[h].value, main[h].refs - 1)];
          held := true;
        }
      }
    }

    /** kill: one reference less, if there is one.  The string that h was
        computed from is only compared. */
    method Kill(h: Digest, v: Bytes) returns (r: Outcome<bool>)
      requires Valid() && h == Sha3(v)
      modifies this`main, this`live, this`met
      ensures main == Fewer(old(main), h)
      ensures met == old(met) + {v}
      ensures r.Failed? <==> h in old(main) && old(main)[h].value != v
      ensures r.Failed? ==> Explains(r.fault, true, 0)
      ensures r.Done? ==> Valid() && Extends(old(main), main) && main.Keys == old(main).Keys
      ensures r.Done? ==> (r.value <==> old(live)[h] > 0) && live == old(live) - multiset{h}
      ensures r.Done? ==> |live| <= |old(live)|
    {
      NoMore(live, multiset{h});
      var clash := h in main && main[h].value != v;
      if clash { r := Failed(Collision(v, main[h].value)); } else { TakenOut(main, live, met, h, v); }
      hide Consistent, Extends, Fewer;
      met := met + {v};
      var held := Drop(h);
      if !clash {
        live := live - multiset{h};
        r := Done(held);
      }
    }

    /** keys: the hashes somebody refers to. */
    method Keys() returns (ret: set<Digest>)
      requires Valid()
      ensures forall h :: h in ret <==> h in live
    {
      ret := set h | h in main && main[h].refs > 0;
    }

    /** purge: drops the entries nobody refers to, and no others. */
    method Purge()
      requires Valid()
      modifies this`main
      ensures Valid()
      ensures forall h :: h in main <==> h in live
      ensures forall h | h in main :: h in old(main) && main[h] == old(main)[h]
    {
      main := map h | h in main && main[h].refs > 0 :: main[h];
    }
  }
}
