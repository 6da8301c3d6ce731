/** Reading a list item by item (libdevcore/RLP.cpp:48-91, 217-228; RLP.h:166-190,
    274-295): integers, the item count, the caching index operator and the
    iterator. */
module RlpView {
  import opened Bytes
  import opened Rlp

  datatype CastError = BadCast | Malformed(error: Error)
  datatype Cast<T> = Value(value: T) | Throws(error: CastError)

  // ----- Integers -----

  /** isInt: a string without a leading zero; reading past the data throws. */
  function IsInt(d: Bytes): Result<bool> {
    if d == [] then Ok(false)
    else
      var _ :- RequireGood(d);
      var n := d[0];
      if n < DATA_START then Ok(n != 0)
      else if n == DATA_START then Ok(true)
      else if n <= DATA_IND_LEN_ZERO then
        if |d| <= 1 then Err(BadRlp) else Ok(d[1] != 0)
      else if n < LIST_START then
        if |d| <= 1 + (n - DATA_IND_LEN_ZERO) as nat then Err(BadRlp)
        else Ok(d[1 + (n - DATA_IND_LEN_ZERO) as nat] != 0)
      else Ok(false)
  }

  function Payload(d: Bytes): (r: Result<Bytes>)
    requires d != []
  {
    var len :- Length(d);
    if len > |d| then Err(BadRlp)
    else if PayloadOffset(d) + len <= |d| then Ok(d[PayloadOffset(d)..PayloadOffset(d) + len])
    else Ok([])
  }

  /** Strict toInt for an unsigned type of `size` bytes. */
  function ToInt(d: Bytes, size: nat): Cast<nat> {
    if RequireGood(d).Err? then Throws(Malformed(RequireGood(d).error))
    else if IsInt(d).Err? then Throws(Malformed(IsInt(d).error))
    else if !IsInt(d).value || IsList(d) then Throws(BadCast)
    else if Payload(d).Err? then Throws(Malformed(Payload(d).error))
    else if |Payload(d).value| > size then Throws(BadCast)
    else Value(FromBigEndian(Payload(d).value))
  }

  lemma StringPayload(d: Bytes, b: Bytes)
    requires Fits(Data(b)) && d == Encode(Data(b))
    ensures RequireGood(d).Ok? && !IsList(d) && Payload(d) == Ok(b)
    ensures IsInt(d) == Ok(b == [] || b[0] != 0)
  {
    hide BigEndian, FromBigEndian, Decode;
    if |b| == 1 && b[0] < DATA_START {
      assert d[0..1] == b;
    } else {
      var h := Header(|b|, DATA_START);
      HeaderReads(|b|, DATA_START, b);
      HeaderPayload(d, h, b);
    }
  }

  lemma HeaderPayload(d: Bytes, h: Bytes, b: Bytes)
    requires h != [] && d == h + b && DATA_START <= d[0] < LIST_START
    requires PayloadOffset(d) == |h| && Length(d) == Ok(|b|)
    ensures RequireGood(d).Ok? && Payload(d) == Ok(b) && IsInt(d) == Ok(b == [] || b[0] != 0)
  {
    hide FromBigEndian;
    assert d[|h|..|h| + |b|] == b;
    assert b != [] ==> d[|h|] == b[0];
  }

  /** The same with bytes behind it. */
  lemma StringBefore(b: Bytes, rest: Bytes)
    requires Fits(Data(b))
    ensures var d := Encode(Data(b)) + rest;
      d != [] && !IsList(d) && Payload(d) == Ok(b) && SizeAsEncoded(d).Ok?
  {
    hide BigEndian, FromBigEndian;
    var d := Encode(Data(b)) + rest;
    SizeOfEncoded(Data(b), rest);
    if |b| == 1 && b[0] < DATA_START {
      assert d[0..1] == b;
    } else {
      var h := Header(|b|, DATA_START);
      HeaderReads(|b|, DATA_START, b + rest);
      assert d == h + (b + rest) && d[|h|..|h| + |b|] == b;
    }
  }

  /** What toInt makes of a well-formed string. */
  lemma ToIntOfString(d: Bytes, b: Bytes, size: nat)
    requires Fits(Data(b)) && d == Encode(Data(b))
    ensures ToInt(d, size) ==
      if (b != [] && b[0] == 0) || |b| > size then Throws(BadCast) else Value(FromBigEndian(b))
  {
    DecodeEncode(Data(b));
    StringPayload(d, b);
    hide Encode, Decode, RequireGood, IsInt, Payload, IsList;
  }

  lemma ToIntOfList(d: Bytes, size: nat)
    requires Decode(d).Ok? && Decode(d).value.List?
    ensures ToInt(d, size).Throws?
  {
    assert IsList(d);
  }

  lemma TooLongSize(e: Bytes, b: Bytes)
    requires e == Encode(Data(b)) && |b| >= LENGTH_LIMIT
    ensures |e| >= 9 + LENGTH_LIMIT
  {
    Pow256Of8();
    assert Pow256(8) == 256 * Pow256(7);
    BigEndianLength(|b|, 7);
  }

  /** A string too long for 64-bit sizes is not well-formed. */
  lemma TooLongToRead(d: Bytes, b: Bytes)
    requires d == Encode(Data(b)) && |b| >= LENGTH_LIMIT
    ensures Decode(d).Err?
  {
    TooLongSize(d, b);
    hide Encode, Header, BigEndian;
    assert ActualSize(d).Ok? ==> ActualSize(d).value < 9 + LENGTH_LIMIT;
  }

  lemma DecodedInteger(d: Bytes, size: nat, n: nat)
    requires Decode(d).Ok?
    ensures ToInt(d, size) == Value(n) <==> d == Encode(Data(BigEndian(n))) && n < Pow256(size)
  {
    var it, w := Decode(d).value, Data(BigEndian(n));
    EncodeDecode(d);
    BigEndianLength(n, size);
    FromBigEndianInverts(n);
    if d == Encode(w) {
      if !Fits(w) { TooLongToRead(d, BigEndian(n)); }
      DecodeEncode(w);
      ToIntOfString(d, BigEndian(n), size);
    } else if it.List? {
      ToIntOfList(d, size);
    } else {
      ToIntOfString(d, it.bytes, size);
      if it.bytes == [] || it.bytes[0] != 0 { BigEndianInverts(it.bytes); }
    }
  }

  /** What is read of a string is read of its own bytes alone. */
  lemma SameWithoutRest(d: Bytes)
    requires d != [] && !IsList(d) && SizeAsEncoded(d).Ok?
    ensures var e := d[..SizeAsEncoded(d).value];
      && e != [] && !IsList(e) && RequireGood(e) == RequireGood(d) && Length(e) == Length(d)
      && PayloadOffset(e) == PayloadOffset(d) && ActualSize(e) == Ok(|e|) && Payload(e) == Payload(d)
  {
    var m := SizeAsEncoded(d).value;
    var e := d[..m];
    assert e[0] == d[0];
    if d[0] >= DATA_START {
      assert m == PayloadOffset(d) + Length(d).value;
      assert m >= 2 ==> e[1] == d[1];
      if |e| > LengthSize(d) { assert e[1..1 + LengthSize(d)] == d[1..1 + LengthSize(d)]; }
      assert e[PayloadOffset(d)..m] == d[PayloadOffset(d)..m];
    } else {
      assert e[0..1] == d[0..1];
    }
  }

  lemma SameInteger(d: Bytes, size: nat)
    requires d != [] && !IsList(d) && SizeAsEncoded(d).Ok?
    ensures ToInt(d[..SizeAsEncoded(d).value], size) == ToInt(d, size)
    ensures Decode(d[..SizeAsEncoded(d).value]).Ok?
  {
    var e := d[..SizeAsEncoded(d).value];
    SameWithoutRest(d);
    assert |e| > 1 ==> e[1] == d[1];
    hide RequireGood, Length, Payload, PayloadOffset;
  }

  /** Of everything that can be read as an item, bytes behind it or not, strict
      toInt yields n exactly from the one string that append writes for n, and
      only if n fits. */
  lemma IntegersRoundTrip(d: Bytes, size: nat, n: nat)
    requires SizeAsEncoded(d).Ok?
    ensures ToInt(d, size) == Value(n)
       <==> d[..SizeAsEncoded(d).value] == Encode(Data(BigEndian(n))) && n < Pow256(size)
  {
    if d == [] || IsList(d) {
      NoInteger(d, size, BigEndian(n));
    } else {
      hide ToInt, Encode, Decode, SizeAsEncoded, BigEndian;
      SameInteger(d, size);
      DecodedInteger(d[..SizeAsEncoded(d).value], size, n);
    }
  }

  lemma NoInteger(d: Bytes, size: nat, b: Bytes)
    requires (d == [] || IsList(d)) && SizeAsEncoded(d).Ok?
    ensures ToInt(d, size).Throws? && d[..SizeAsEncoded(d).value] != Encode(Data(b))
  {
    var e := d[..SizeAsEncoded(d).value];
    if d != [] { assert e[0] == d[0]; }
    StringOrHuge(b);
    if d != [] && e == Encode(Data(b)) { HugeIsLong(d, b); }
  }

  lemma StringOrHuge(b: Bytes)
    ensures Encode(Data(b)) != []
    ensures |b| < LENGTH_LIMIT ==> !IsList(Encode(Data(b)))
  {
    if |b| < LENGTH_LIMIT && !(|b| == 1 && b[0] < DATA_START) { HeaderReads(|b|, DATA_START, b); }
  }

  /** No item's size reaches that of a string with a length past 64 bits. */
  lemma HugeIsLong(d: Bytes, b: Bytes)
    requires d != [] && SizeAsEncoded(d).Ok? && d[..SizeAsEncoded(d).value] == Encode(Data(b))
    ensures |b| < LENGTH_LIMIT
  {
    if |b| >= LENGTH_LIMIT {
      var e := d[..SizeAsEncoded(d).value];
      TooLongSize(e, b);
    }
  }

  /** d is what is left of an integer's encoding that has lost at most as many
      bytes as its header has; only a payload of two bytes or more can. */
  ghost predicate CutShort(d: Bytes, b: Bytes) {
    var e := Encode(Data(b));
    2 <= |b| < LENGTH_LIMIT && b[0] != 0 && |b| <= |d| < |e| && d == e[..|d|]
  }

  /** A string that is not all there reads as zero if it has been cut short by
      so little, and cannot be read at all otherwise. */
  lemma CutShortReadsZero(d: Bytes, size: nat, n: nat)
    requires SizeAsEncoded(d).Err?
    ensures ToInt(d, size) == Value(n) <==> n == 0 && exists b :: CutShort(d, b)
  {
    if b :| CutShort(d, b) { CutReads(d, b, size); }
    if ToInt(d, size) == Value(n) { ReadsCut(d, size, n); }
  }

  lemma CutReads(d: Bytes, b: Bytes, size: nat)
    requires CutShort(d, b)
    ensures ToInt(d, size) == Value(0)
  {
    hide BigEndian, Decode;
    var h := Header(|b|, DATA_START);
    ShortHeader(|b|);
    var rest := d[|h|..];
    assert d == h + rest && rest[0] == b[0];
    HeaderReads(|b|, DATA_START, rest);
    hide Header;
    assert IsInt(d) == Ok(true);
    assert Payload(d) == Ok([]);
  }

  /** A header is shorter than what it announces. */
  lemma ShortHeader(n: nat)
    requires 2 <= n < LENGTH_LIMIT
    ensures |Header(n, DATA_START)| < n
  {
    Pow256Of8();
    BigEndianLength(n, 8);
  }

  lemma ReadsCut(d: Bytes, size: nat, n: nat)
    requires SizeAsEncoded(d).Err? && ToInt(d, size) == Value(n)
    ensures n == 0 && exists b :: CutShort(d, b)
  {
    hide BigEndian, Decode;
    assert d[0] >= DATA_START && Length(d).Ok? && !IsList(d);
    var off, len := PayloadOffset(d), Length(d).value;
    assert off < |d| < off + len && len <= |d| && d[off] != 0 && Payload(d) == Ok([]);
    HeaderUnique(d);
    var b := d[off..] + Zeros(off + len - |d|);
    assert d[..off] + b == d + Zeros(off + len - |d|);
    assert Encode(Data(b)) == Header(len, DATA_START) + b;
    assert CutShort(d, b);
  }

  /** Five hundred cut after its first byte. */
  lemma CutShortInput()
    ensures SizeAsEncoded([0x82, 0x01]).Err? && ToInt([0x82, 0x01], 4) == Value(0)
  {
  }

  // ----- The items of a list -----

  /** The payload cut into the encodings of its items. */
  function Pieces(p: Bytes): (r: Result<seq<Bytes>>)
    ensures r.Ok? ==> |r.value| <= |p|
    decreases |p|
  {
    if p == [] then Ok([])
    else
      var n :- SizeAsEncoded(p);
      var rest :- Pieces(p[n..]);
      Ok([p[..n]] + rest)
  }

  /** Where the k-th piece starts. */
  function Start(ps: seq<Bytes>, k: nat): nat
    requires k <= |ps|
  {
    if k == 0 then 0 else Start(ps, k - 1) + |ps[k - 1]|
  }

  /** The k-th piece; empty past the end. */
  function Piece(ps: seq<Bytes>, k: nat): Bytes { if k < |ps| then ps[k] else [] }

  /** The first piece, and the pieces after it. */
  lemma FirstPiece(q: Bytes)
    requires Pieces(q).Ok? && Pieces(q).value != []
    ensures var ps := Pieces(q).value;
      && SizeAsEncoded(q) == Ok(|ps[0]|) && 0 < |ps[0]| <= |q| && q[..|ps[0]|] == ps[0]
      && Pieces(q[|ps[0]|..]) == Ok(ps[1..])
  {
  }

  lemma Suffix(d: Bytes, a: nat, b: nat)
    requires a + b <= |d|
    ensures d[a..][b..] == d[a + b..] == d[a + b..|d|]
  {
  }

  /** Cutting the payload at the start of the k-th piece leaves the pieces from
      there on. */
  lemma {:induction false} PiecesFrom(p: Bytes, k: nat)
    requires Pieces(p).Ok? && k <= |Pieces(p).value|
    ensures var ps := Pieces(p).value;
      && Start(ps, k) <= |p|
      && Pieces(p[Start(ps, k)..]) == Ok(ps[k..])
  {
    var ps := Pieces(p).value;
    hide Pieces;
    if k == 0 {
      assert p[0..] == p;
    } else {
      PiecesFrom(p, k - 1);
      PieceStep(p, Start(ps, k - 1), ps, k - 1);
    }
  }

  lemma PieceStep(p: Bytes, start: nat, ps: seq<Bytes>, k: nat)
    requires start <= |p| && k < |ps| && Pieces(p[start..]) == Ok(ps[k..])
    ensures start + |ps[k]| <= |p| && Pieces(p[start + |ps[k]|..]) == Ok(ps[k + 1..])
  {
    hide Pieces, SizeAsEncoded;
    FirstPiece(p[start..]);
    Suffix(p, start, |ps[k]|);
    assert ps[k..][0] == ps[k] && ps[k..][1..] == ps[k + 1..];
  }

  /** An item read at the start of the k-th piece has that piece's size; after
      the last piece nothing is left. */
  lemma PieceSize(p: Bytes, k: nat)
    requires Pieces(p).Ok? && k <= |Pieces(p).value|
    ensures var ps := Pieces(p).value;
      && Start(ps, k) + |Piece(ps, k)| <= |p|
      && SizeAsEncoded(p[Start(ps, k)..]) == Ok(|Piece(ps, k)|)
      && (k < |ps| ==> |Piece(ps, k)| > 0 && Start(ps, k + 1) == Start(ps, k) + |Piece(ps, k)|)
      && (k == |ps| ==> Start(ps, k) == |p|)
  {
    PiecesFrom(p, k);
    var ps := Pieces(p).value;
    var rest := p[Start(ps, k)..];
    if k < |ps| {
      FirstPiece(rest);
      assert ps[k..][0] == ps[k];
    } else {
      assert Pieces(rest) == Ok([]);
    }
  }

  /** Its bytes are that piece. */
  lemma PieceRead(p: Bytes, k: nat)
    requires Pieces(p).Ok? && k <= |Pieces(p).value|
    ensures var ps := Pieces(p).value;
      && Start(ps, k) + |Piece(ps, k)| <= |p|
      && p[Start(ps, k)..][..|Piece(ps, k)|] == Piece(ps, k)
  {
    PiecesFrom(p, k);
    PieceSize(p, k);
    var ps := Pieces(p).value;
    if k < |ps| {
      FirstPiece(p[Start(ps, k)..]);
      assert ps[k..][0] == ps[k];
    }
  }

  /** The pieces of a list the reader accepts are the encodings of its items. */
  lemma {:induction false} PiecesAreItems(p: Bytes)
    requires DecodeAll(p).Ok?
    ensures var xs := DecodeAll(p).value;
      && Pieces(p).Ok? && |Pieces(p).value| == |xs|
      && forall i | 0 <= i < |xs| :: Decode(Pieces(p).value[i]) == Ok(xs[i])
    decreases |p|
  {
    if p != [] {
      var n := SizeAsEncoded(p).value;
      PiecesAreItems(p[n..]);
    }
  }

  const NO_INDEX: nat := 0xffff_ffff_ffff_ffff

  /** A list whose data ends where its payload ends, all of whose items can be
      sized. */
  predicate IsWholeList(d: Bytes) {
    && IsList(d) && Payload(d).Ok?
    && Length(d).Ok? && PayloadOffset(d) + Length(d).value == |d|
    && Pieces(Payload(d).value).Ok?
  }

  function PiecesOf(d: Bytes): (ps: seq<Bytes>)
    requires IsWholeList(d)
    ensures |ps| < NO_INDEX
  {
    Pieces(Payload(d).value).value
  }

  lemma PiecesNotEmpty(d: Bytes)
    requires IsWholeList(d)
    ensures forall k: nat | k < |PiecesOf(d)| :: |PiecesOf(d)[k]| > 0
  {
    forall k: nat | k < |PiecesOf(d)|
      ensures |PiecesOf(d)[k]| > 0
    {
      PieceSize(Payload(d).value, k);
    }
  }

  lemma WholeList(d: Bytes)
    requires IsWholeList(d)
    ensures d != [] && PayloadOffset(d) <= |d| && Payload(d) == Ok(d[PayloadOffset(d)..])
    ensures Pieces(Payload(d).value) == Ok(PiecesOf(d))
  {
    var k := PayloadOffset(d);
    assert d[k..k + Length(d).value] == d[k..];
  }

  /** The piece behind the k-th, read off the rest of the payload. */
  lemma NextPiece(d: Bytes, k: nat)
    requires IsWholeList(d) && k < |PiecesOf(d)|
    ensures var ps, p := PiecesOf(d), Payload(d).value;
      var from := Start(ps, k + 1);
      && from <= |p|
      && SizeAsEncoded(p[from..]) == Ok(|Piece(ps, k + 1)|)
      && p[from..][..|Piece(ps, k + 1)|] == Piece(ps, k + 1)
      && Start(ps, if k + 1 < |ps| then k + 2 else k + 1) == from + |Piece(ps, k + 1)|
  {
    var p := Payload(d).value;
    PieceSize(p, k + 1);
    PieceRead(p, k + 1);
  }

  class RLP {
    const data: Bytes
    var lastIndex: nat
    var lastEnd: nat
    var lastItem: Bytes

    /** The cache is untouched, or describes the item at lastIndex. */
    ghost predicate Valid()
      reads this
    {
      && IsWholeList(data)
      && var ps := PiecesOf(data);
      if lastIndex == NO_INDEX then lastItem == []
      else
        && lastIndex <= |ps| && lastItem == Piece(ps, lastIndex)
        && lastEnd == Start(ps, if lastIndex < |ps| then lastIndex + 1 else lastIndex)
    }

    constructor (d: Bytes)
      requires IsWholeList(d)
      ensures Valid() && data == d
    {
      data := d;
      lastIndex, lastEnd, lastItem := NO_INDEX, 0, [];
    }

    /** Back to the first item. */
    method Rewind()
      requires Valid()
      modifies this
      ensures Valid() && lastIndex == 0
    {
      WholeList(data);
      hide SizeAsEncoded, Pieces, IsList, Length, PayloadOffset;
      var payload := Payload(data).value;
      hide Payload;
      PieceSize(payload, 0);
      PieceRead(payload, 0);
      assert payload[0..] == payload;
      lastEnd := SizeAsEncoded(payload).value;
      lastItem := payload[..lastEnd];
      lastIndex := 0;
    }

    /** On to the next item, or past the last one. */
    method Advance()
      requires Valid() && lastIndex < |PiecesOf(data)|
      modifies this
      ensures Valid() && lastIndex == old(lastIndex) + 1
    {
      NextPiece(data, lastIndex);
      hide Pieces, SizeAsEncoded, Payload, IsWholeList, PiecesOf, Start;
      var payload := Payload(data).value;
      lastItem := payload[lastEnd..];
      var size := SizeAsEncoded(lastItem).value;
      lastItem := lastItem[..size];
      lastEnd := lastEnd + size;
      lastIndex := lastIndex + 1;
    }

    /** operator[]: whatever was asked before, the i-th item, or an empty one
        past the end. */
    method Index(i: nat) returns (r: Bytes)
      requires Valid() && i <= NO_INDEX
      modifies this
      ensures Valid() && r == Piece(PiecesOf(data), i)
    {
      ghost var ps := PiecesOf(data);
      PiecesNotEmpty(data);
      hide Pieces, Payload, PiecesOf, IsWholeList;
      if i < lastIndex { Rewind(); }
      while lastIndex < i && |lastItem| > 0
        invariant Valid() && lastIndex <= i
        decreases |ps| - lastIndex
      {
        Advance();
      }
      return lastItem;
    }

    /** items(): counts the pieces, or fails where one cannot be sized. */
    method Items() returns (r: Result<nat>)
      requires IsList(data) && Payload(data).Ok?
      ensures var ps := Pieces(Payload(data).value);
        r == match ps case Ok(v) => Ok(|v|) case Err(e) => Err(e)
    {
      var d := Payload(data).value;
      var i := 0;
      while d != []
        invariant match Pieces(d) {
            case Ok(v) => Pieces(Payload(data).value).Ok? && |Pieces(Payload(data).value).value| == i + |v|
            case Err(e) => Pieces(Payload(data).value) == Err(e)
          }
        decreases |d|
      {
        var n :- SizeAsEncoded(d);
        d := d[n..];
        i := i + 1;
      }
      return Ok(i);
    }
  }

  /** An iterator standing on the k-th item: the position in the data, the
      item's size and how much of the payload follows it.  Behind the last
      item the size is zero. */
  ghost predicate Stands(d: Bytes, pos: nat, size: nat, remaining: nat, k: nat) {
    && IsWholeList(d) && k <= |PiecesOf(d)|
    && var ps, off := PiecesOf(d), PayloadOffset(d);
    && pos == off + Start(ps, k)
    && size == |Piece(ps, k)|
    && remaining == |d| - off - Start(ps, k) - size
  }

  /** It shows the k-th item, and equals end() exactly behind the last one. */
  lemma StandsOn(d: Bytes, pos: nat, size: nat, remaining: nat, k: nat)
    requires Stands(d, pos, size, remaining, k)
    ensures IsWholeList(d) && k <= |PiecesOf(d)|
    ensures pos + size + remaining == |d|
    ensures d[pos..pos + size] == Piece(PiecesOf(d), k)
    ensures pos == |d| && size == 0 <==> k == |PiecesOf(d)|
  {
    hide IsWholeList, Payload, Pieces, PiecesOf, PayloadOffset, Start;
    WholeList(d);
    Shown(d, PayloadOffset(d), PiecesOf(d), k);
  }

  /** The k-th piece of a payload that starts at `off`. */
  lemma Shown(d: Bytes, off: nat, ps: seq<Bytes>, k: nat)
    requires off <= |d| && Pieces(d[off..]) == Ok(ps) && k <= |ps|
    ensures var from, n := off + Start(ps, k), |Piece(ps, k)|;
      && from + n <= |d| && d[from..from + n] == Piece(ps, k)
      && (from == |d| && n == 0 <==> k == |ps|)
  {
    hide Pieces, SizeAsEncoded, Start;
    PieceSize(d[off..], k);
    PieceRead(d[off..], k);
    Suffix(d, off, Start(ps, k));
    var from, n := off + Start(ps, k), |Piece(ps, k)|;
    assert d[from..from + n] == d[from..][..n];
  }

  /** The item behind the k-th is read off the rest of the payload, which
      starts at `off`. */
  lemma StepSize(d: Bytes, off: nat, ps: seq<Bytes>, k: nat)
    requires off <= |d| && Pieces(d[off..]) == Ok(ps) && k < |ps|
    ensures var from := off + Start(ps, k) + |ps[k]|;
      && from == off + Start(ps, k + 1) <= |d|
      && SizeAsEncoded(d[from..]) == Ok(|Piece(ps, k + 1)|)
      && from + |Piece(ps, k + 1)| <= |d|
  {
    hide Pieces, SizeAsEncoded;
    PieceSize(d[off..], k);
    PieceSize(d[off..], k + 1);
    Suffix(d, off, Start(ps, k + 1));
  }

  /** Where the next item is and what size it has. */
  lemma StandsNext(d: Bytes, pos: nat, size: nat, remaining: nat, k: nat) returns (n: nat)
    requires Stands(d, pos, size, remaining, k) && !(pos == |d| && size == 0)
    ensures pos + size + remaining == |d| && n <= remaining
    ensures SizeAsEncoded(d[pos + size..pos + size + remaining]) == Ok(n)
    ensures remaining == 0 ==> n == 0
    ensures Stands(d, pos + size, n, remaining - n, k + 1)
  {
    hide IsWholeList, Payload, Pieces, PiecesOf, SizeAsEncoded, PayloadOffset, Start;
    StandsOn(d, pos, size, remaining, k);
    WholeList(d);
    StepSize(d, PayloadOffset(d), PiecesOf(d), k);
    n := |Piece(PiecesOf(d), k + 1)|;
    assert d[pos + size..|d|] == d[pos + size..];
  }

  /** The iterator. */
  class Cursor {
    const data: Bytes
    var pos: nat
    var size: nat
    var remaining: nat
    /** How many items have been passed. */
    ghost var passed: nat

    ghost predicate Valid()
      reads this
    {
      Stands(data, pos, size, remaining, passed)
    }

    /** begin(). */
    constructor (d: Bytes)
      requires IsWholeList(d)
      ensures Valid() && data == d && passed == 0
    {
      var pl := Payload(d).value;
      PieceSize(pl, 0);
      assert pl[0..] == pl;
      data, passed := d, 0;
      pos := PayloadOffset(d);
      var n := SizeAsEncoded(pl).value;
      size := n;
      remaining := |pl| - n;
    }

    /** operator*: the current item's bytes. */
    function Current(): Bytes
      requires pos + size <= |data|
      reads this
    {
      data[pos..pos + size]
    }

    /** Differs from end(), which points behind the data. */
    predicate More()
      reads this
    {
      !(pos == |data| && size == 0)
    }

    /** Where the iterator stands tells which item it shows; it equals end()
        exactly when all items have been passed. */
    lemma Shows()
      requires Valid()
      ensures IsWholeList(data) && passed <= |PiecesOf(data)|
      ensures pos + size <= |data| && Current() == Piece(PiecesOf(data), passed)
      ensures More() <==> passed < |PiecesOf(data)|
    {
      StandsOn(data, pos, size, remaining, passed);
    }

    /** operator++. */
    method Next()
      requires Valid() && More()
      modifies this
      ensures Valid() && passed == old(passed) + 1
    {
      hide Stands, IsWholeList, PiecesOf, SizeAsEncoded;
      ghost var next := StandsNext(data, pos, size, remaining, passed);
      passed := passed + 1;
      pos := pos + size;
      if remaining > 0 {
        size := SizeAsEncoded(data[pos..pos + remaining]).value;
        assert size == next;
        remaining := remaining - (if remaining < size then remaining else size);
      } else {
        size := 0;
      }
    }
  }

  /** Iterating from begin() to end() sees every item once, in order. */
  method Collect(d: Bytes) returns (items: seq<Bytes>)
    requires IsWholeList(d)
    ensures items == PiecesOf(d)
  {
    hide Stands, IsWholeList, PiecesOf;
    items := [];
    var it := new Cursor(d);
    it.Shows();
    while it.More()
      invariant it.Valid() && it.data == d && it.passed <= |PiecesOf(d)|
      invariant items == PiecesOf(d)[..it.passed]
      invariant it.More() <==> it.passed < |PiecesOf(d)|
      decreases |PiecesOf(d)| - it.passed
    {
      it.Shows();
      items := items + [it.Current()];
      it.Next();
      it.Shows();
    }
  }

  lemma ListPayload(p: Bytes, rest: Bytes)
    requires |p| < LENGTH_LIMIT
    ensures var d := Header(|p|, LIST_START) + p + rest;
      IsList(d) && Length(d) == Ok(|p|) && PayloadOffset(d) + |p| + |rest| == |d| && Payload(d) == Ok(p)
  {
    var h := Header(|p|, LIST_START);
    HeaderReads(|p|, LIST_START, p + rest);
    hide Header, Length;
    assert h + p + rest == h + (p + rest);
    assert (h + p + rest)[|h|..|h| + |p|] == p;
  }

  /** Encodings put one behind the other are cut at the same places. */
  lemma PiecesOfItems(xs: seq<Item>)
    requires |EncodeAll(xs)| < LENGTH_LIMIT
    ensures var ps := Pieces(EncodeAll(xs));
      ps.Ok? && |ps.value| == |xs| && forall i | 0 <= i < |xs| :: ps.value[i] == Encode(xs[i])
  {
    var p := EncodeAll(xs);
    DecodeAllEncodeAll(xs);
    PiecesAreItems(p);
    hide Header, EncodeAll, Pieces, DecodeAll, Decode;
    forall i | 0 <= i < |xs|
      ensures Pieces(p).value[i] == Encode(xs[i])
    {
      EncodeDecode(Pieces(p).value[i]);
    }
  }

  /** What a list read item by item yields, for every list a writer writes. */
  lemma WrittenListsAreWhole(xs: seq<Item>)
    requires Fits(List(xs))
    ensures var d := Encode(List(xs));
      && IsWholeList(d) && |PiecesOf(d)| == |xs|
      && forall i | 0 <= i < |xs| :: PiecesOf(d)[i] == Encode(xs[i])
  {
    var p := EncodeAll(xs);
    ListPayload(p, []);
    PiecesOfItems(xs);
    hide Header, EncodeAll, Pieces, Length, PayloadOffset, Payload;
    assert Header(|p|, LIST_START) + p + [] == Encode(List(xs));
  }
}
