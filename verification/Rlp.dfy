/** Recursive length prefix: the encoding a writer produces and the checks a
    reader makes (libdevcore/RLP.cpp, RLP.h; Yellow Paper, Appendix B). */
module Rlp {
  import opened Bytes

  datatype Item = Data(bytes: Bytes) | List(items: seq<Item>) {
    /** A zero-length string or a zero-length list. */
    predicate IsEmpty() { this == Data([]) || this == List([]) }
  }

  const DATA_START: Byte := 0x80
  const LIST_START: Byte := 0xc0
  const DATA_IND_LEN_ZERO: Byte := 0xb7
  const LIST_IND_LEN_ZERO: Byte := 0xf7
  /** Longest payload plus one whose header fits one byte. */
  const IMM_LEN_COUNT: int := 56
  /** Lengths from here on are refused by the reader (size_t max - 0x100). */
  const LENGTH_LIMIT: int := 0xffff_ffff_ffff_feff

  // ----- Writing -----

  /** The type byte and the length: base is DATA_START or LIST_START. */
  function Header(n: nat, base: Byte): (h: Bytes)
    requires base == DATA_START || base == LIST_START
    ensures |h| >= 1
  {
    if n < IMM_LEN_COUNT then [(base as int + n) as Byte]
    else [((base as int + 55 + |BigEndian(n)|) % 256) as Byte] + BigEndian(n)
  }

  function Encode(it: Item): (b: Bytes)
    ensures |b| >= 1
  {
    match it
    case Data(d) => if |d| == 1 && d[0] < DATA_START then d else Header(|d|, DATA_START) + d
    case List(xs) => var p := EncodeAll(xs); Header(|p|, LIST_START) + p
  }

  function EncodeAll(xs: seq<Item>): Bytes {
    if xs == [] then [] else Encode(xs[0]) + EncodeAll(xs[1..])
  }

  /** The payload is short enough for a reader with 64-bit sizes. */
  predicate Fits(it: Item) {
    match it
    case Data(d) => |d| < LENGTH_LIMIT
    case List(xs) => |EncodeAll(xs)| < LENGTH_LIMIT
  }

  /** What stands in front of a payload: up to 55 bytes, one byte that announces
      its size; before a longer one, the number of bytes of its size and then
      the size itself, most significant byte first. */
  ghost predicate Announces(h: Bytes, size: nat, base: int) {
    if size <= 55 then |h| == 1 && h[0] as int == base + size
    else 2 <= |h| <= 9 && h[0] as int == base + 55 + (|h| - 1) && Spells(h[1..], size)
  }

  /** The digits of n to the base 256, without leading zeros. */
  ghost predicate Spells(b: Bytes, n: nat) {
    && |b| > 0 && Pow256(|b| - 1) <= n < Pow256(|b|)
    && forall i | 0 <= i < |b| :: b[i] as nat == Digit(n, |b| - 1 - i)
  }

  lemma BigEndianSpells(n: nat)
    requires n > 0
    ensures Spells(BigEndian(n), n)
  {
    var b := BigEndian(n);
    BigEndianLength(n, |b|);
    BigEndianLength(n, |b| - 1);
    forall i | 0 <= i < |b|
      ensures b[i] as nat == Digit(n, |b| - 1 - i)
    {
      BigEndianAt(n, i);
    }
  }

  lemma HeaderAnnounces(n: nat, base: Byte)
    requires base as int == 128 || base as int == 192
    requires n < Pow256(8)
    ensures Announces(Header(n, base), n, base as int)
  {
    hide Pow256, BigEndian, Spells;
    if n >= 56 {
      BigEndianSpells(n);
      BigEndianLength(n, 8);
      assert Header(n, base)[1..] == BigEndian(n);
    }
  }

  /** Appendix B: a byte below 128 is its own encoding, and everything else is
      a payload announced from 128 on for strings and from 192 on for lists. */
  lemma AppendixB(it: Item)
    ensures it.Data? && |it.bytes| == 1 && it.bytes[0] < 128 ==> Encode(it) == it.bytes
    ensures
      var e, p := Encode(it), if it.Data? then it.bytes else EncodeAll(it.items);
      !(it.Data? && |p| == 1 && p[0] < 128) && |p| < Pow256(8) ==>
        |p| < |e| && e[|e| - |p|..] == p && Announces(e[..|e| - |p|], |p|, if it.Data? then 128 else 192)
  {
    hide EncodeAll, Header, Announces, Pow256;
    var p := if it.Data? then it.bytes else EncodeAll(it.items);
    var base := if it.Data? then DATA_START else LIST_START;
    if |p| < Pow256(8) { HeaderAnnounces(|p|, base); }
    assert (Header(|p|, base) + p)[..|Header(|p|, base)|] == Header(|p|, base);
  }

  // ----- Reading -----

  datatype Error = BadRlp | UndersizeRlp | OversizeRlp

  datatype Result<+T> = Ok(value: T) | Err(error: Error) {
    predicate IsFailure() { Err? }
    function PropagateFailure<U>(): Result<U> requires Err? { Err(error) }
    function Extract(): T requires Ok? { value }
  }

  predicate IsList(d: Bytes) { d != [] && d[0] >= LIST_START }

  /** requireGood: no single byte written in two. */
  function RequireGood(d: Bytes): Result<()> {
    if d == [] then Err(BadRlp)
    else if d[0] != DATA_START + 1 then Ok(())
    else if |d| < 2 || d[1] < DATA_START then Err(BadRlp)
    else Ok(())
  }

  /** The number of bytes that hold the length. */
  function LengthSize(d: Bytes): (n: nat)
    requires d != []
    ensures n <= 8
  {
    if d[0] > LIST_IND_LEN_ZERO then (d[0] - LIST_IND_LEN_ZERO) as nat
    else if DATA_IND_LEN_ZERO < d[0] < LIST_START then (d[0] - DATA_IND_LEN_ZERO) as nat
    else 0
  }

  function PayloadOffset(d: Bytes): nat
    requires d != []
  {
    if d[0] < DATA_START then 0 else 1 + LengthSize(d)
  }

  /** length(): the payload size that the header announces. */
  function Length(d: Bytes): Result<nat>
    requires d != []
  {
    var _ :- RequireGood(d);
    var n := d[0];
    if n < DATA_START then Ok(1)
    else if n <= DATA_IND_LEN_ZERO then Ok((n - DATA_START) as nat)
    else if LIST_START <= n <= LIST_IND_LEN_ZERO then Ok((n - LIST_START) as nat)
    else if |d| <= LengthSize(d) then Err(BadRlp)
    else if d[1] == 0 then Err(BadRlp)
    else
      var len := FromBigEndian(d[1..1 + LengthSize(d)]);
      if len < IMM_LEN_COUNT then Err(BadRlp)
      else if len >= LENGTH_LIMIT then Err(UndersizeRlp)
      else Ok(len)
  }

  function ActualSize(d: Bytes): (r: Result<nat>)
    ensures r.Ok? && d != [] ==> r.value >= 1
  {
    if d == [] then Ok(0)
    else if d[0] < DATA_START then Ok(1)
    else
      var len :- Length(d);
      Ok(PayloadOffset(d) + len)
  }

  /** sizeAsEncoded: the size of the first item of d, all of which must be there. */
  function SizeAsEncoded(d: Bytes): (r: Result<nat>)
    ensures r.Ok? ==> r.value <= |d| && (d != [] ==> r.value >= 1)
  {
    var n :- ActualSize(d);
    if n > |d| then Err(UndersizeRlp) else Ok(n)
  }

  /** Reads d as one item of exactly |d| bytes, checking every level. */
  function Decode(d: Bytes): Result<Item>
    decreases |d|, 0
  {
    var n :- ActualSize(d);
    if n < |d| then Err(OversizeRlp)
    else if n > |d| then Err(UndersizeRlp)
    else if d == [] then Err(BadRlp)
    else
      var len :- Length(d);
      var payload := d[PayloadOffset(d)..];
      if IsList(d) then
        var xs :- DecodeAll(payload);
        Ok(List(xs))
      else Ok(Data(payload))
  }

  function DecodeAll(p: Bytes): Result<seq<Item>>
    decreases |p|, 1
  {
    if p == [] then Ok([])
    else
      var n :- SizeAsEncoded(p);
      var x :- Decode(p[..n]);
      var xs :- DecodeAll(p[n..]);
      Ok([x] + xs)
  }

  // ----- The two agree -----

  lemma ShortHeaderReads(n: nat, base: Byte, rest: Bytes)
    requires (base == DATA_START || base == LIST_START) && n < IMM_LEN_COUNT
    requires base == DATA_START && n == 1 ==> rest != [] && rest[0] >= DATA_START
    ensures var d := Header(n, base) + rest;
            d[0] >= DATA_START && (IsList(d) <==> base == LIST_START)
            && PayloadOffset(d) == |Header(n, base)| && Length(d) == Ok(n)
  {
    var d := Header(n, base) + rest;
    if base == DATA_START && n == 1 { assert d[1] == rest[0]; }
  }

  /** The length of a long header is read back from the bytes after the first. */
  lemma LongLength(d: Bytes, n: nat)
    requires IMM_LEN_COUNT <= n < LENGTH_LIMIT && d != []
    requires d[0] > LIST_IND_LEN_ZERO || DATA_IND_LEN_ZERO < d[0] < LIST_START
    requires LengthSize(d) == |BigEndian(n)| < |d| && d[1..1 + LengthSize(d)] == BigEndian(n)
    ensures Length(d) == Ok(n)
  {
    FromBigEndianInverts(n);
    hide FromBigEndian;
    assert d[1] == BigEndian(n)[0];
  }

  lemma LongHeaderReads(n: nat, base: Byte, rest: Bytes)
    requires (base == DATA_START || base == LIST_START) && IMM_LEN_COUNT <= n < LENGTH_LIMIT
    ensures var d := Header(n, base) + rest;
            d[0] >= DATA_START && (IsList(d) <==> base == LIST_START)
            && PayloadOffset(d) == |Header(n, base)| && Length(d) == Ok(n)
  {
    hide BigEndian, FromBigEndian, Length;
    Pow256Of8();
    BigEndianLength(n, 8);
    var be := BigEndian(n);
    var d := Header(n, base) + rest;
    assert d[0] as int == base as int + 55 + |be|;
    assert d[1..1 + |be|] == be;
    LongLength(d, n);
  }

  lemma HeaderReads(n: nat, base: Byte, rest: Bytes)
    requires base == DATA_START || base == LIST_START
    requires n < LENGTH_LIMIT
    requires base == DATA_START && n == 1 ==> rest != [] && rest[0] >= DATA_START
    ensures var d := Header(n, base) + rest;
            d[0] >= DATA_START && (IsList(d) <==> base == LIST_START)
            && PayloadOffset(d) == |Header(n, base)| && Length(d) == Ok(n)
  {
    if n < IMM_LEN_COUNT { ShortHeaderReads(n, base, rest); } else { LongHeaderReads(n, base, rest); }
  }

  /** Where an encoded item ends can be read off its head, whatever follows. */
  lemma SizeOfEncoded(it: Item, rest: Bytes)
    requires Fits(it)
    ensures ActualSize(Encode(it) + rest) == Ok(|Encode(it)|)
  {
    match it
    case Data(d) =>
      if !(|d| == 1 && d[0] < DATA_START) {
        HeaderReads(|d|, DATA_START, d + rest);
        assert Encode(it) + rest == Header(|d|, DATA_START) + (d + rest);
      }
    case List(xs) =>
      var p := EncodeAll(xs);
      HeaderReads(|p|, LIST_START, p + rest);
      assert Encode(it) + rest == Header(|p|, LIST_START) + (p + rest);
  }

  lemma {:induction false} PartsFit(xs: seq<Item>)
    requires xs != [] && |EncodeAll(xs)| < LENGTH_LIMIT
    ensures Fits(xs[0])
    ensures |EncodeAll(xs[1..])| < LENGTH_LIMIT
  {
  }

  /** Reading back what was written gives the item. */
  lemma {:induction false} DecodeEncode(it: Item)
    requires Fits(it)
    ensures Decode(Encode(it)) == Ok(it)
    decreases it, 0
  {
    var d := Encode(it);
    SizeOfEncoded(it, []);
    assert d + [] == d;
    match it
    case Data(b) =>
      if !(|b| == 1 && b[0] < DATA_START) { HeaderReads(|b|, DATA_START, b); }
      assert d[PayloadOffset(d)..] == b;
    case List(xs) =>
      var p := EncodeAll(xs);
      HeaderReads(|p|, LIST_START, p);
      assert d[PayloadOffset(d)..] == p;
      DecodeAllEncodeAll(xs);
  }

  lemma {:induction false} DecodeAllEncodeAll(xs: seq<Item>)
    requires |EncodeAll(xs)| < LENGTH_LIMIT
    ensures DecodeAll(EncodeAll(xs)) == Ok(xs)
    decreases xs, 1
  {
    if xs != [] {
      var rest := EncodeAll(xs[1..]);
      var p := EncodeAll(xs);
      PartsFit(xs);
      SizeOfEncoded(xs[0], rest);
      assert p[..|Encode(xs[0])|] == Encode(xs[0]);
      assert p[|Encode(xs[0])|..] == rest;
      DecodeEncode(xs[0]);
      DecodeAllEncodeAll(xs[1..]);
      assert [xs[0]] + xs[1..] == xs;
    }
  }

  /** The header of anything the reader accepts is the one the writer writes. */
  lemma HeaderUnique(d: Bytes)
    requires d != [] && d[0] >= DATA_START
    requires Length(d).Ok? && PayloadOffset(d) <= |d|
    ensures Length(d).value < LENGTH_LIMIT
    ensures d[..PayloadOffset(d)] == Header(Length(d).value, if IsList(d) then LIST_START else DATA_START)
  {
    var n := LengthSize(d);
    if n > 0 {
      var be := d[1..1 + n];
      assert be[0] == d[1];
      var len := FromBigEndian(be);
      assert Length(d) == Ok(len) && len >= IMM_LEN_COUNT;
      BigEndianInverts(be);
      LongHeader(len, if IsList(d) then LIST_START else DATA_START, d[0], be);
      assert d[..1 + n] == [d[0]] + be;
    } else {
      assert d[..1] == [d[0]];
    }
  }

  lemma LongHeader(len: nat, base: Byte, first: Byte, be: Bytes)
    requires base == DATA_START || base == LIST_START
    requires len >= IMM_LEN_COUNT && BigEndian(len) == be && |be| <= 8
    requires first as int == base as int + 55 + |be|
    ensures Header(len, base) == [first] + be
  {
  }

  /** Whatever the reader accepts is the encoding of what it read: every item
      has one encoding, so no second form of it gets through. */
  lemma {:induction false} EncodeDecode(d: Bytes)
    requires Decode(d).Ok?
    ensures Fits(Decode(d).value) && Encode(Decode(d).value) == d
    decreases |d|, 0
  {
    var it := Decode(d).value;
    if d[0] < DATA_START {
      assert it == Data(d);
    } else {
      HeaderUnique(d);
      var payload := d[PayloadOffset(d)..];
      assert d == d[..PayloadOffset(d)] + payload;
      if IsList(d) { EncodeAllDecodeAll(payload); }
    }
  }

  lemma {:induction false} EncodeAllDecodeAll(p: Bytes)
    requires DecodeAll(p).Ok?
    ensures EncodeAll(DecodeAll(p).value) == p
    decreases |p|, 1
  {
    hide Decode, DecodeAll, Encode, EncodeAll, SizeAsEncoded;
    if p == [] {
      NoItems();
    } else {
      var n, x, xs := FirstItem(p);
      EncodeDecode(p[..n]);
      EncodeAllDecodeAll(p[n..]);
      EncodeAllCons(x, xs);
      assert p == p[..n] + p[n..];
    }
  }

  lemma NoItems()
    ensures DecodeAll([]) == Ok([]) && EncodeAll([]) == []
  {
  }

  lemma FirstItem(p: Bytes) returns (n: nat, x: Item, xs: seq<Item>)
    requires p != [] && DecodeAll(p).Ok?
    ensures 1 <= n <= |p| && Decode(p[..n]) == Ok(x) && DecodeAll(p[n..]) == Ok(xs)
    ensures DecodeAll(p) == Ok([x] + xs)
  {
    n := SizeAsEncoded(p).value;
    x, xs := Decode(p[..n]).value, DecodeAll(p[n..]).value;
  }

  lemma EncodeAllCons(x: Item, xs: seq<Item>)
    ensures EncodeAll([x] + xs) == Encode(x) + EncodeAll(xs)
  {
    assert ([x] + xs)[1..] == xs;
  }

  /** What is wrong with an encoding that is too long, or that was cut behind
      its header. */
  lemma CutOrExtended(it: Item, p: Bytes, rest: Bytes, k: nat)
    requires Fits(it) && p == (if it.Data? then it.bytes else EncodeAll(it.items))
    requires |Encode(it)| - |p| <= k < |Encode(it)|
    ensures rest != [] ==> Decode(Encode(it) + rest) == Err(OversizeRlp)
    ensures k > 0 ==>
      var cut, wrong := Encode(it)[..k], if it == Data(p) && |p| == 1 then BadRlp else UndersizeRlp;
      Decode(cut) == Err(wrong) && SizeAsEncoded(cut) == Err(wrong)
  {
    SizeOfEncoded(it, rest);
    if k > 0 {
      var base := if it.Data? then DATA_START else LIST_START;
      var h := Header(|p|, base);
      assert Encode(it) == h + p && Encode(it)[..k] == h + p[..k - |h|];
      if !(it.Data? && |p| == 1) { HeaderReads(|p|, base, p[..k - |h|]); }
    }
  }

  /** The reader accepts a string exactly when it is an item's encoding, and
      the item's payload is no longer than 64-bit sizes allow. */
  lemma ReaderAcceptsExactlyEncodings(d: Bytes, it: Item)
    ensures Decode(d) == Ok(it) <==>
      && Encode(it) == d
      && (match it case Data(b) => |b| case List(xs) => |EncodeAll(xs)|) < 0xffff_ffff_ffff_feff
  {
    if Decode(d) == Ok(it) { EncodeDecode(d); }
    if Fits(it) && Encode(it) == d { DecodeEncode(it); }
  }

  lemma EncodeInjective(a: Item, b: Item)
    requires Fits(a) && Fits(b) && Encode(a) == Encode(b)
    ensures a == b
  {
    DecodeEncode(a);
    DecodeEncode(b);
  }
}
