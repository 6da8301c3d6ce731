/** Nibble keys and their hex-prefix form (libdevcore/TrieCommon.h, .cpp;
    Yellow Paper, Appendix C). */
module TrieCommon {
  import opened Bytes

  // ----- Nibble views -----

  function High(b: Byte): Nibble { (b as int / 16) as Nibble }

  function Low(b: Byte): Nibble { (b as int % 16) as Nibble }

  function NibbleAt(data: Bytes, i: nat): Nibble
    requires i < 2 * |data|
  {
    if i % 2 == 1 then Low(data[i / 2]) else High(data[i / 2])
  }

  function NibblesOf(b: Bytes): (ns: Nibbles)
    ensures |ns| == 2 * |b|
  {
    if b == [] then [] else [High(b[0]), Low(b[0])] + NibblesOf(b[1..])
  }

  lemma {:induction false} NibblesOfAt(b: Bytes, i: nat)
    requires i < 2 * |b|
    ensures NibblesOf(b)[i] == NibbleAt(b, i)
  {
    if i >= 2 { NibblesOfAt(b[1..], i - 2); }
  }

  function Join(high: Nibble, low: Nibble): Byte { (high as int * 16 + low as int) as Byte }

  lemma JoinParts(x: Nibble, y: Nibble)
    ensures High(Join(x, y)) == x && Low(Join(x, y)) == y
  {
  }

  predicate Even(ns: Nibbles) {
    ns == [] || (|ns| > 1 && Even(ns[2..]))
  }

  lemma {:induction false} EvenLength(ns: Nibbles)
    ensures Even(ns) <==> |ns| % 2 == 0
  {
    if |ns| > 1 { EvenLength(ns[2..]); }
  }

  /** Nibbles as bytes, two to a byte; an odd last one gets a zero low half. */
  function Pack(ns: Nibbles): (b: Bytes)
    ensures ns != [] ==> b != []
  {
    if ns == [] then []
    else if |ns| == 1 then [Join(ns[0], 0)]
    else [Join(ns[0], ns[1])] + Pack(ns[2..])
  }

  lemma {:induction false} NibblesOfPack(ns: Nibbles)
    requires Even(ns)
    ensures NibblesOf(Pack(ns)) == ns
  {
    if ns != [] {
      NibblesOfPack(ns[2..]);
      JoinParts(ns[0], ns[1]);
      assert Pack(ns)[1..] == Pack(ns[2..]);
      assert ns == [ns[0], ns[1]] + ns[2..];
    }
  }

  /** Adds one nibble: into the low half of the last byte, or as a new high half. */
  function PushNibble(ret: Bytes, low: bool, n: Nibble): Bytes
    requires low ==> ret != []
  {
    if low then ret[..|ret| - 1] + [Join(High(ret[|ret| - 1]), n)] else ret + [Join(n, 0)]
  }

  lemma {:induction false} PackAppend(ns: Nibbles, n: Nibble)
    ensures !Even(ns) ==> Pack(ns) != []
    ensures Pack(ns + [n]) == PushNibble(Pack(ns), !Even(ns), n)
    ensures Even(ns + [n]) <==> !Even(ns)
  {
    if ns == [] {
      assert ns + [n] == [n];
    } else if |ns| == 1 {
      JoinParts(ns[0], 0);
      assert (ns + [n])[2..] == [];
    } else {
      PackAppend(ns[2..], n);
      assert (ns + [n])[2..] == ns[2..] + [n];
      PushAfter(Join(ns[0], ns[1]), Pack(ns[2..]), !Even(ns[2..]), n);
    }
  }

  lemma PushAfter(b: Byte, ret: Bytes, low: bool, n: Nibble)
    requires low ==> ret != []
    ensures PushNibble([b] + ret, low, n) == [b] + PushNibble(ret, low, n)
  {
  }

  // ----- Hex prefix -----

  function Flag(leaf: bool, odd: bool): Nibble {
    (if leaf then 2 else 0) + (if odd then 1 else 0)
  }

  /** The flag nibble, and the padding nibble of an even key. */
  function Lead(leaf: bool, odd: bool): (ns: Nibbles) {
    if odd then [Flag(leaf, true)] else [Flag(leaf, false), 0]
  }

  function HexPrefix(key: Nibbles, leaf: bool): (hp: Bytes)
    ensures hp != []
  {
    Pack(Lead(leaf, !Even(key)) + key)
  }

  /** Bit 0x10 of the first byte. */
  predicate OddBit(first: Byte) { (first / 16) % 2 == 1 }

  /** keyOf: skips the flag nibble, and the padding unless the odd bit is set. */
  function KeyOf(hp: Bytes): Nibbles {
    if hp == [] then [] else if OddBit(hp[0]) then NibblesOf(hp)[1..] else NibblesOf(hp)[2..]
  }

  /** isLeaf: bit 0x20 of the first byte. */
  predicate LeafBit(hp: Bytes)
    requires hp != []
  {
    (hp[0] / 32) % 2 == 1
  }

  lemma LeadEven(key: Nibbles, leaf: bool)
    ensures Even(Lead(leaf, !Even(key)) + key)
  {
    var lead := Lead(leaf, !Even(key));
    EvenLength(key);
    EvenLength(lead + key);
  }

  lemma KeyOfHexPrefix(key: Nibbles, leaf: bool)
    ensures KeyOf(HexPrefix(key, leaf)) == key
    ensures LeafBit(HexPrefix(key, leaf)) <==> leaf
  {
    var lead := Lead(leaf, !Even(key));
    LeadEven(key, leaf);
    NibblesOfPack(lead + key);
    FlagBits(leaf, !Even(key), HexPrefix(key, leaf)[0]);
    assert (lead + key)[|lead|..] == key;
  }

  lemma FlagBits(leaf: bool, odd: bool, first: Byte)
    requires High(first) == Flag(leaf, odd)
    ensures OddBit(first) <==> odd
    ensures (first / 32) % 2 == 1 <==> leaf
  {
  }

  lemma HexPrefixInjective(a: Nibbles, la: bool, b: Nibbles, lb: bool)
    requires HexPrefix(a, la) == HexPrefix(b, lb)
    ensures a == b && la == lb
  {
    KeyOfHexPrefix(a, la);
    KeyOfHexPrefix(b, lb);
  }

  /** Appendix C, nibble by nibble: flag 0 or 1 for an extension, 2 or 3 for a
      leaf, and a zero nibble behind the flag of an even key. */
  lemma HexPrefixNibbles(key: Nibbles, leaf: bool)
    ensures NibblesOf(HexPrefix(key, leaf)) ==
      (if |key| % 2 == 1 then [if leaf then 3 else 1] else [if leaf then 2 else 0, 0]) + key
  {
    EvenLength(key);
    LeadEven(key, leaf);
    NibblesOfPack(Lead(leaf, !Even(key)) + key);
  }

  lemma {:induction false} HalvesOf(b: Bytes, i: nat)
    requires i < |b|
    ensures NibblesOf(b)[2 * i] as int == b[i] as int / 16 && NibblesOf(b)[2 * i + 1] as int == b[i] as int % 16
  {
    NibblesOfAt(b, 2 * i);
    NibblesOfAt(b, 2 * i + 1);
  }

  /** And byte by byte: each byte's high half is the earlier nibble. */
  lemma HexPrefixBytes(key: Nibbles, leaf: bool)
    ensures var hp, odd := HexPrefix(key, leaf), |key| % 2;
      && |hp| == |key| / 2 + 1
      && hp[0] as int == (if leaf then 32 else 0) + (if odd == 1 then 16 + key[0] as int else 0)
      && forall i | 1 <= i < |hp| ::
           hp[i] as int == 16 * key[2 * i - 2 + odd] as int + key[2 * i - 1 + odd] as int
  {
    HexPrefixNibbles(key, leaf);
    var hp := HexPrefix(key, leaf);
    forall i | 0 <= i < |hp|
      ensures hp[i] as int == 16 * NibblesOf(hp)[2 * i] as int + NibblesOf(hp)[2 * i + 1] as int
    {
      HalvesOf(hp, i);
    }
  }

  // ----- The three encoders -----

  /** hexPrefixEncode over a vector that holds one nibble a byte.  A negative
      end counts back from one past the last nibble. */
  method EncodeVector(hexVector: Nibbles, leaf: bool, begin: nat, end: int) returns (ret: Bytes)
    requires begin <= (if end < 0 then |hexVector| + 1 + end else end) <= |hexVector|
    ensures end >= 0 ==> ret == HexPrefix(hexVector[begin..end], leaf)
    ensures end < 0 ==> ret == HexPrefix(hexVector[begin..|hexVector| + 1 + end], leaf)
  {
    var e := if end < 0 then |hexVector| + 1 + end else end;
    ghost var key := hexVector[begin..e];
    var odd := (e - begin) % 2 != 0;
    EvenLength(key);
    FlagByte(leaf, odd);
    ghost var done := Lead(leaf, odd);
    ret := [Join(Flag(leaf, odd), 0)];
    var b := begin;
    if odd {
      // the low nibble is zero, so or-ing is putting the nibble there
      PackAppend(done, hexVector[b]);
      ret := PushNibble(ret, true, hexVector[b]);
      done := done + [hexVector[b]];
      b := b + 1;
    }
    LeadEven(key, leaf);
    assert done + hexVector[b..e] == Lead(leaf, odd) + key;
    ret := EncodePairs(ret, hexVector, b, e, done);
  }

  /** The loop of EncodeVector: two nibbles a step. */
  method EncodePairs(ret0: Bytes, hexVector: Nibbles, b: nat, e: nat, ghost done0: Nibbles) returns (ret: Bytes)
    requires b <= e <= |hexVector| && Even(done0) && Even(done0 + hexVector[b..e])
    requires ret0 == Pack(done0)
    ensures ret == Pack(done0 + hexVector[b..e])
  {
    ret := ret0;
    ghost var done := done0;
    var i := b;
    while i < e
      invariant b <= i <= e && done + hexVector[i..e] == done0 + hexVector[b..e]
      invariant Even(done) && ret == Pack(done)
    {
      NextPair(done, hexVector, i, e);
      ret := ret + [Join(hexVector[i], hexVector[i + 1])];
      done := done + hexVector[i..i + 2];
      i := i + 2;
    }
    assert done + hexVector[i..e] == done;
  }

  lemma NextPair(done: Nibbles, v: Nibbles, i: nat, e: nat)
    requires i < e <= |v| && Even(done) && Even(done + v[i..e])
    ensures i + 2 <= e && Even(done + v[i..i + 2])
    ensures Pack(done + v[i..i + 2]) == Pack(done) + [Join(v[i], v[i + 1])]
    ensures done + v[i..i + 2] + v[i + 2..e] == done + v[i..e]
  {
    EvenLength(done);
    EvenLength(done + v[i..e]);
    PackTwo(done, v[i], v[i + 1]);
    hide Pack;
    assert v[i..i + 2] == [v[i], v[i + 1]];
  }

  lemma PackTwo(ns: Nibbles, x: Nibble, y: Nibble)
    requires Even(ns)
    ensures Pack(ns + [x, y]) == Pack(ns) + [Join(x, y)]
    ensures Even(ns + [x, y])
  {
    PackAppend(ns, x);
    PackAppend(ns + [x], y);
    JoinParts(x, 0);
    assert ns + [x, y] == ns + [x] + [y];
  }

  /** The loop the two byte-slice encoders share: nibbles begin..end of data. */
  method PushNibbles(ret0: Bytes, d0: nat, data: Bytes, begin: nat, end: nat, ghost ns: Nibbles)
    returns (ret: Bytes, d: nat)
    requires begin <= end <= 2 * |data|
    requires d0 == |ns| && ret0 == Pack(ns)
    ensures d == |ns| + end - begin
    ensures ret == Pack(ns + NibblesOf(data)[begin..end])
  {
    ret, d := ret0, d0;
    ghost var all := NibblesOf(data);
    ghost var done := ns;
    for i := begin to end
      invariant done == ns + all[begin..i]
      invariant d == |done| && ret == Pack(done)
    {
      NibblesOfAt(data, i);
      NextNibble(done, all[i]);
      Extend(ns, all, begin, i);
      ret := PushNibble(ret, d % 2 == 1, NibbleAt(data, i));
      done, d := ns + all[begin..i + 1], d + 1;
    }
  }

  lemma NextNibble(done: Nibbles, n: Nibble)
    ensures |done| % 2 == 1 ==> Pack(done) != []
    ensures Pack(done + [n]) == PushNibble(Pack(done), |done| % 2 == 1, n)
  {
    EvenLength(done);
    PackAppend(done, n);
  }

  lemma Extend(ns: Nibbles, all: Nibbles, begin: nat, i: nat)
    requires begin <= i < |all|
    ensures ns + all[begin..i] + [all[i]] == ns + all[begin..i + 1]
  {
  }

  /** The first byte alone: the flag nibble, low half still zero. */
  lemma FlagByte(leaf: bool, odd: bool)
    ensures Pack(Lead(leaf, odd)) == [Join(Flag(leaf, odd), 0)]
    ensures Even(Lead(leaf, odd)) <==> !odd
  {
    assert Lead(leaf, false)[2..] == [];
  }

  /** hexPrefixEncode over a byte slice that starts offset nibbles in, with the
      same meaning of a negative end. */
  method EncodeSlice(data: Bytes, leaf: bool, beginNibble: nat, endNibble: int, offset: nat) returns (ret: Bytes)
    requires offset <= 2 * |data|
    requires var size := 2 * |data| - offset;
      beginNibble <= (if endNibble < 0 then size + 1 + endNibble else endNibble) <= size
    ensures endNibble >= 0 ==> ret == HexPrefix(NibblesOf(data)[offset..][beginNibble..endNibble], leaf)
    ensures endNibble < 0 ==>
      ret == HexPrefix(NibblesOf(data)[offset..][beginNibble..2 * |data| - offset + 1 + endNibble], leaf)
  {
    var last := if endNibble < 0 then 2 * |data| - offset + 1 + endNibble else endNibble;
    var begin, end := beginNibble + offset, last + offset;
    var odd := (end - begin) % 2 == 1;
    ghost var key := NibblesOf(data)[offset..][beginNibble..last];
    assert key == NibblesOf(data)[begin..end];
    EvenLength(key);
    FlagByte(leaf, odd);
    var d;
    ret, d := PushNibbles([Join(Flag(leaf, odd), 0)], if odd then 1 else 2, data, begin, end, Lead(leaf, odd));
  }

  /** hexPrefixEncode over two byte slices: encodes their concatenation. */
  method EncodeTwoSlices(d1: Bytes, o1: nat, d2: Bytes, o2: nat, leaf: bool) returns (ret: Bytes)
    requires o1 <= 2 * |d1| && o2 <= 2 * |d2|
    ensures ret == HexPrefix(NibblesOf(d1)[o1..] + NibblesOf(d2)[o2..], leaf)
  {
    var n1, n2 := 2 * |d1|, 2 * |d2|;
    var odd := (n1 - o1 + n2 - o2) % 2 == 1;
    ghost var first, second := NibblesOf(d1)[o1..], NibblesOf(d2)[o2..];
    assert |first + second| == n1 - o1 + n2 - o2;
    EvenLength(first + second);
    FlagByte(leaf, odd);
    ghost var lead := Lead(leaf, odd);
    var d;
    ret, d := PushNibbles([Join(Flag(leaf, odd), 0)], if odd then 1 else 2, d1, o1, n1, lead);
    assert NibblesOf(d1)[o1..n1] == first && NibblesOf(d2)[o2..n2] == second;
    ret, d := PushNibbles(ret, d, d2, o2, n2, lead + first);
    assert lead + first + second == lead + (first + second);
  }

  // ----- Comparing keys -----

  /** How many leading nibbles two keys share. */
  function Shared(a: Nibbles, b: Nibbles): (n: nat)
    ensures n <= |a| && n <= |b| && a[..n] == b[..n]
    ensures n < |a| && n < |b| ==> a[n] != b[n]
  {
    if a == [] || b == [] || a[0] != b[0] then 0 else 1 + Shared(a[1..], b[1..])
  }

  /** sharedNibbles. */
  method SharedNibbles(first: Bytes, beginFirst: nat, endFirst: nat, second: Bytes, beginSecond: nat, endSecond: nat)
    returns (ret: nat)
    requires beginFirst <= endFirst <= 2 * |first| && beginSecond <= endSecond <= 2 * |second|
    ensures ret == Shared(NibblesOf(first)[beginFirst..endFirst], NibblesOf(second)[beginSecond..endSecond])
  {
    ghost var a, b := NibblesOf(first)[beginFirst..endFirst], NibblesOf(second)[beginSecond..endSecond];
    var i, j := beginFirst, beginSecond;
    ret := 0;
    while i < endFirst && j < endSecond && NibbleAt(first, i) == NibbleAt(second, j)
      invariant i == beginFirst + ret && j == beginSecond + ret && i <= endFirst && j <= endSecond
      invariant a[..ret] == b[..ret]
    {
      NibblesOfAt(first, i);
      NibblesOfAt(second, j);
      assert a[..ret + 1] == a[..ret] + [a[ret]] && b[..ret + 1] == b[..ret] + [b[ret]];
      i, j, ret := i + 1, j + 1, ret + 1;
    }
    if i < endFirst && j < endSecond {
      NibblesOfAt(first, i);
      NibblesOfAt(second, j);
    }
    SharedIs(a, b, ret);
  }

  /** Shared is the only number with its two properties. */
  lemma {:induction false} SharedIs(a: Nibbles, b: Nibbles, n: nat)
    requires n <= |a| && n <= |b| && a[..n] == b[..n]
    requires n < |a| && n < |b| ==> a[n] != b[n]
    ensures Shared(a, b) == n
  {
    if n > 0 {
      assert a[0] == a[..n][0] == b[..n][0] == b[0];
      assert a[1..][..n - 1] == a[..n][1..] == b[..n][1..] == b[1..][..n - 1];
      SharedIs(a[1..], b[1..], n - 1);
    }
  }

  /** Lexicographic order, a proper prefix first. */
  predicate Less(a: Nibbles, b: Nibbles) {
    var n := Shared(a, b);
    n < |b| && (n < |a| ==> a[n] < b[n])
  }

  /** isEarlierThan: key comes before every key that starts with prefix. */
  method IsEarlierThan(key: Nibbles, prefix: Nibbles) returns (earlier: bool)
    ensures earlier <==> Less(key, prefix)
  {
    var i := 0;
    while i < |prefix| && i < |key|
      invariant 0 <= i <= |prefix| && i <= |key|
      invariant key[..i] == prefix[..i]
    {
      if key[i] != prefix[i] { SharedIs(key, prefix, i); }
      if key[i] < prefix[i] { return true; }
      else if key[i] > prefix[i] { return false; }
      assert key[..i + 1] == key[..i] + [key[i]] && prefix[..i + 1] == prefix[..i] + [prefix[i]];
      i := i + 1;
    }
    SharedIs(key, prefix, i);
    earlier := i < |prefix|;
  }
}
