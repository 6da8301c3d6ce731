/** The writer (libdevcore/RLP.cpp:230-349, RLP.h:408-480).  A list is opened
    with the number of its items and no header; when the last item arrives its
    payload is moved up and the header written in front of it. */
module RlpStream {
  import opened Bytes
  import opened Rlp


  /** Why a stream throws: more items than a list was opened for, or a size
      that its header cannot express. */
  datatype Refusal = TooManyItems | TooLong

  datatype Report = Fine | Refused(why: Refusal) {
    predicate IsFailure() { Refused? }
    function PropagateFailure(): Report requires Refused? { this }
  }

  /** A list being written: how many items are still to come, and those that
      have arrived. */
  datatype Open = Open(left: nat, items: seq<Item>)

  /** What has been streamed: complete items, then the open lists, outermost
      first. */
  datatype Written = Written(done: seq<Item>, open: seq<Open>)

  predicate Countable(n: nat) { |BigEndian(n)| <= 8 }

  /** The abstract effect of complete items arriving at the innermost list. */
  function Arrive(w: Written, xs: seq<Item>): (Report, Written)
    decreases |w.open|
  {
    if xs == [] then (Fine, w)
    else if w.open == [] then (Fine, Written(w.done + xs, []))
    else
      var last := |w.open| - 1;
      var top := w.open[last];
      if top.left < |xs| then (Refused(TooManyItems), w)
      else if top.left > |xs| then
        (Fine, Written(w.done, w.open[..last] + [Open(top.left - |xs|, top.items + xs)]))
      else if !Countable(|EncodeAll(top.items + xs)|) then (Refused(TooLong), w)
      else Arrive(Written(w.done, w.open[..last]), [List(top.items + xs)])
  }

  /** The bytes in the buffer: payloads only, for the lists still open. */
  function Layout(done: seq<Item>, open: seq<Open>): Bytes {
    if open == [] then EncodeAll(done)
    else Layout(done, open[..|open| - 1]) + EncodeAll(open[|open| - 1].items)
  }

  lemma EncodeAllHead(xs: seq<Item>)
    requires xs != []
    ensures EncodeAll(xs) == Encode(xs[0]) + EncodeAll(xs[1..])
  {
  }

  lemma {:induction false} EncodeAllAppend(a: seq<Item>, b: seq<Item>)
    ensures EncodeAll(a + b) == EncodeAll(a) + EncodeAll(b)
  {
    if a == [] {
      assert a + b == b;
    } else {
      hide Encode, Header, EncodeAll;
      EncodeAllHead(a);
      EncodeAllHead(a + b);
      EncodeAllAppend(a[1..], b);
      assert (a + b)[1..] == a[1..] + b;
      Associates(Encode(a[0]), EncodeAll(a[1..]), EncodeAll(b));
    }
  }

  lemma Associates(x: Bytes, y: Bytes, z: Bytes)
    ensures x + (y + z) == x + y + z
  {
  }

  lemma EncodeAllOne(x: Item)
    ensures EncodeAll([x]) == Encode(x)
  {
    assert [x][1..] == [];
  }

  /** Pending items belong to the payload of the innermost open list. */
  lemma LayoutTop(w: Written, xs: seq<Item>)
    requires w.open != []
    ensures var last := |w.open| - 1;
      Layout(w.done, w.open) + EncodeAll(xs)
      == Layout(w.done, w.open[..last]) + EncodeAll(w.open[last].items + xs)
  {
    var last := |w.open| - 1;
    EncodeAllAppend(w.open[last].items, xs);
  }

  /** The list stack holds, for every open list, the number of items still to
      come and the place where its payload starts. */
  ghost predicate Mirrored(stack: seq<(nat, nat)>, w: Written) {
    && |stack| == |w.open|
    && (forall i | 0 <= i < |stack| ::
          stack[i].0 == w.open[i].left > 0 && stack[i].1 == |Layout(w.done, w.open[..i])|)
  }

  lemma MirroredPop(stack: seq<(nat, nat)>, w: Written)
    requires Mirrored(stack, w) && stack != []
    ensures var last := |stack| - 1;
      && |w.open| == |stack|
      && stack[last].0 == w.open[last].left > 0 && stack[last].1 == |Layout(w.done, w.open[..last])|
      && Mirrored(stack[..last], Written(w.done, w.open[..last]))
  {
    var last := |stack| - 1;
    forall i | 0 <= i < last
      ensures w.open[..last][..i] == w.open[..i]
    {
    }
  }

  /** What arriving items do to the innermost open list. */
  lemma ArriveTop(w: Written, xs: seq<Item>)
    requires w.open != [] && xs != []
    ensures var last := |w.open| - 1;
      var outer, top := Written(w.done, w.open[..last]), w.open[last];
      var items := top.items + xs;
      Arrive(w, xs) ==
      if top.left < |xs| then (Refused(TooManyItems), w)
      else if top.left > |xs| then (Fine, Written(outer.done, outer.open + [Open(top.left - |xs|, items)]))
      else if !Countable(|EncodeAll(items)|) then (Refused(TooLong), w)
      else Arrive(outer, [List(items)])
  {
  }

  /** What encloses the innermost open list, and that list with the pending
      items added. */
  function Enclosing(w: Written): Written
    requires w.open != []
  {
    Written(w.done, w.open[..|w.open| - 1])
  }

  function Filled(w: Written, pending: seq<Item>): seq<Item>
    requires w.open != []
  {
    w.open[|w.open| - 1].items + pending
  }

  lemma Innermost(stack: seq<(nat, nat)>, w: Written, pending: seq<Item>)
    requires Mirrored(stack, w) && stack != [] && pending != []
    ensures w.open != []
    ensures var outer, items, last := Enclosing(w), Filled(w, pending), |stack| - 1;
      && stack[last].1 == |Layout(outer.done, outer.open)|
      && Mirrored(stack[..last], outer)
      && Layout(w.done, w.open) + EncodeAll(pending) == Layout(outer.done, outer.open) + EncodeAll(items)
      && var left := stack[last].0;
      Arrive(w, pending) ==
      if left < |pending| then (Refused(TooManyItems), w)
      else if left > |pending| then (Fine, Written(outer.done, outer.open + [Open(left - |pending|, items)]))
      else if !Countable(|EncodeAll(items)|) then (Refused(TooLong), w)
      else Arrive(outer, [List(items)])
  {
    MirroredPop(stack, w);
    hide Arrive, Layout, Mirrored, EncodeAll, Countable;
    ArriveTop(w, pending);
    LayoutTop(w, pending);
  }

  lemma MirroredPush(stack: seq<(nat, nat)>, w: Written, left: nat, items: seq<Item>)
    requires Mirrored(stack, w) && left > 0
    ensures var v := Written(w.done, w.open + [Open(left, items)]);
      && Mirrored(stack + [(left, |Layout(w.done, w.open)|)], v)
      && Layout(v.done, v.open) == Layout(w.done, w.open) + EncodeAll(items)
  {
    var open := w.open + [Open(left, items)];
    forall i | 0 <= i <= |w.open|
      ensures open[..i] == w.open[..i]
    {
    }
    assert w.open[..|w.open|] == w.open;
  }

  /** bytesRequired. */
  method BytesRequired(n: nat) returns (i: nat)
    ensures i == |BigEndian(n)|
  {
    i := 0;
    var rest := n;
    while rest != 0
      invariant i + |BigEndian(rest)| == |BigEndian(n)|
    {
      i, rest := i + 1, rest / 256;
    }
  }

  /** One item more of a list of which i have arrived. */
  lemma OneMore(before: Written, xs: seq<Item>, i: nat)
    requires i < |xs| && Countable(|EncodeAll(xs)|)
    ensures var w := Written(before.done, before.open + [Open(|xs| - i, xs[..i])]);
      Arrive(w, [xs[i]]) ==
      if i < |xs| - 1 then (Fine, Written(before.done, before.open + [Open(|xs| - (i + 1), xs[..i + 1])]))
      else Arrive(before, [List(xs)])
  {
    var w := Written(before.done, before.open + [Open(|xs| - i, xs[..i])]);
    ArriveTop(w, [xs[i]]);
    assert w.open[..|w.open| - 1] == before.open;
    assert xs[..i] + [xs[i]] == xs[..i + 1];
    assert i + 1 == |xs| ==> xs[..i + 1] == xs;
  }

  lemma SmallCount(n: nat)
    ensures n < 256 ==> |BigEndian(n)| <= 1
  {
    if n < 256 { assert BigEndian(n / 256) == []; }
  }

  /** The three forms of an encoded number. */
  lemma IntForm(n: nat)
    ensures var b := BigEndian(n);
      && Encode(Data(b)) ==
         (if n == 0 then [DATA_START] else if n < DATA_START as nat then [n as Byte] else Header(|b|, DATA_START) + b)
      && (|b| < IMM_LEN_COUNT ==> |BigEndian(|b|)| <= 1)
      && (n < DATA_START as nat ==> |b| <= 1)
  {
    SmallCount(|BigEndian(n)|);
    SmallCount(n);
    OneByte(n);
    if 0 < n < DATA_START as nat { assert BigEndian(n / 256) == []; }
  }

  lemma OneByte(n: nat)
    ensures |BigEndian(n)| == 1 ==> n == BigEndian(n)[0] as nat
  {
    if |BigEndian(n)| == 1 {
      FromBigEndianInverts(n);
      assert BigEndian(n)[..0] == [];
    }
  }

  /** Leading zeros dropped, as append's compact form does. */
  function Compact(d: Bytes): (c: Bytes)
    ensures c == [] || c[0] != 0
    ensures |c| <= |d| && c == d[|d| - |c|..] && forall i | 0 <= i < |d| - |c| :: d[i] == 0
  {
    if d != [] && d[0] == 0 then Compact(d[1..]) else d
  }

  /** Every list in the item has a payload whose size eight bytes can hold, and
      every string a size the type byte can announce. */
  predicate Writable(it: Item) {
    match it
    case Data(d) => |BigEndian(|d|)| <= 72
    case List(xs) => Countable(|EncodeAll(xs)|) && forall i | 0 <= i < |xs| :: Writable(xs[i])
  }

  lemma PutBefore(was: Bytes, b: nat, rest: Bytes, x: Byte)
    requires 0 < b <= |was|
    ensures (was[..b] + rest)[b - 1 := x] == was[..b - 1] + ([x] + rest)
  {
  }

  class RLPStream {
    var out: Bytes
    /** Items still to come and where the payload starts. */
    var listStack: seq<(nat, nat)>
    ghost var written: Written

    ghost predicate Valid()
      reads this
    {
      out == Layout(written.done, written.open) && Mirrored(listStack, written)
    }

    constructor ()
      ensures Valid() && written == Written([], [])
    {
      out, listStack, written := [], [], Written([], []);
    }

    /** pushInt: n, least significant byte last, in the br bytes it needs. */
    method PushInt(n: nat, br: nat)
      requires br == |BigEndian(n)|
      modifies this`out
      ensures out == old(out) + BigEndian(n)
    {
      out := out + seq(br, _ => 0);
      WriteBackwards(n, |out|);
    }

    /** Writes the bytes of n so that the last one is just before `end`. */
    method WriteBackwards(n: nat, end: nat)
      requires |BigEndian(n)| <= end <= |out|
      modifies this`out
      ensures out == old(out[..end - |BigEndian(n)|]) + BigEndian(n) + old(out[end..])
    {
      ghost var was, done: Bytes, tail := out, [], out[end..];
      var s, b := n, end;
      while s != 0
        invariant |BigEndian(s)| <= b <= end && out == was[..b] + done + tail
        invariant BigEndian(n) == BigEndian(s) + done && b == end - |done|
      {
        ghost var d := (s % 256) as Byte;
        PutBefore(was, b, done + tail, d);
        b := b - 1;
        out := out[b := (s % 256) as Byte];
        assert BigEndian(s) == BigEndian(s / 256) + [d];
        s, done := s / 256, [d] + done;
      }
    }

    method PushCount(count: nat, base: Byte) returns (r: Report)
      requires base == DATA_IND_LEN_ZERO || base == LIST_IND_LEN_ZERO
      modifies this`out
      ensures base == LIST_IND_LEN_ZERO ==> r == if Countable(count) then Fine else Refused(TooLong)
      ensures base == DATA_IND_LEN_ZERO ==> r == if |BigEndian(count)| <= 72 then Fine else Refused(TooLong)
      ensures r.Fine? ==> out == old(out) + [(base as int + |BigEndian(count)|) as Byte] + BigEndian(count)
    {
      var br := BytesRequired(count);
      if br + base as nat > 0xff { return Refused(TooLong); }
      out := out + [(br + base as nat) as Byte];
      PushInt(count, br);
      return Fine;
    }

    /** Moves everything from p on up by n bytes. */
    method MakeRoom(p: nat, n: nat)
      requires p <= |out|
      modifies this`out
      ensures |out| == old(|out|) + n
      ensures out[..p] == old(out[..p]) && out[p + n..] == old(out[p..])
    {
      var os := |out|;
      out := out + seq(n, _ => 0);
      out := out[..p + n] + out[p..os];
    }

    /** The innermost list is complete: its payload starts at p.  Makes room
        for the header in front of the payload and writes it. */
    method WriteListHeader(p: nat) returns (r: Report)
      requires p <= |out|
      modifies this`out
      ensures r == if Countable(old(|out| - p)) then Fine else Refused(TooLong)
      ensures r.Fine? ==> out == old(out[..p]) + Header(old(|out| - p), LIST_START) + old(out[p..])
    {
      ghost var head, payload := out[..p], out[p..];
      var s := |out| - p;
      var brs := BytesRequired(s);
      if s < IMM_LEN_COUNT {
        assert BigEndian(s / 256) == [];
        MakeRoom(p, 1);
        out := out[p := LIST_START + s as Byte];
        assert out == head + Header(s, LIST_START) + payload;
        return Fine;
      }
      MakeRoom(p, 1 + brs);
      if LIST_IND_LEN_ZERO as nat + brs > 0xff { return Refused(TooLong); }
      WriteLongHeader(p, s, brs);
      return Fine;
    }

    /** The type byte and the size of a long list, into the room made for them. */
    method WriteLongHeader(p: nat, s: nat, brs: nat)
      requires brs == |BigEndian(s)| <= 8 && s >= IMM_LEN_COUNT && p + 1 + brs <= |out|
      modifies this`out
      ensures out == old(out[..p]) + Header(s, LIST_START) + old(out[p + 1 + brs..])
    {
      ghost var head, tail := out[..p], out[p + 1 + brs..];
      var first := (LIST_IND_LEN_ZERO as nat + brs) as Byte;
      assert Header(s, LIST_START) == [first] + BigEndian(s);
      hide Header, BigEndian;
      out := out[p := first];
      assert out[..p + 1] == head + [first] && out[p + 1 + brs..] == tail;
      WriteBackwards(s, p + 1 + brs);
      assert out == head + ([first] + BigEndian(s)) + tail;
    }

    /** One round of noteAppended's loop: counts the pending items off the
        innermost list, and if that completes it, makes one item of it. */
    method CountOff(n: nat, ghost pending: seq<Item>)
      returns (r: Report, closed: bool, ghost next: seq<Item>)
      requires n == |pending| > 0 && Mirrored(listStack, written) && |listStack| > 0
      requires out == Layout(written.done, written.open) + EncodeAll(pending)
      modifies this
      ensures r.Refused? ==> r == Arrive(old(written), pending).0
      ensures r.Fine? && !closed ==> Valid() && Arrive(old(written), pending) == (Fine, written)
      ensures r.Fine? && closed ==> Mirrored(listStack, written) && |listStack| < old(|listStack|) && |next| == 1
      ensures r.Fine? && closed ==> out == Layout(written.done, written.open) + EncodeAll(next)
      ensures r.Fine? && closed ==> Arrive(written, next) == Arrive(old(written), pending)
    {
      var last := |listStack| - 1;
      var left, p := listStack[last].0, listStack[last].1;
      Innermost(listStack, written, pending);
      ghost var outer, items := Enclosing(written), Filled(written, pending);
      hide Arrive, Layout, Mirrored, Countable, EncodeAll;
      closed, next := false, [];
      if left < n {
        r := Refused(TooManyItems);
      } else if left > n {
        listStack, written := listStack[..last], outer;
        KeepOpen(left - n, p, items);
        r := Fine;
      } else {
        listStack, written := listStack[..last], outer;
        r := CloseList(p, items);
        closed, next := true, [List(items)];
      }
    }

    /** noteAppended, the encodings of xs having just been put at the end of the
        buffer: counts them off the innermost list, and closes every list that
        this completes. */
    method NoteAppended(itemCount: nat, ghost xs: seq<Item>) returns (r: Report)
      requires itemCount == |xs| && Mirrored(listStack, written)
      requires out == Layout(written.done, written.open) + EncodeAll(xs)
      modifies this
      ensures r == Arrive(old(written), xs).0
      ensures r.Fine? ==> Valid() && written == Arrive(old(written), xs).1
    {
      if itemCount == 0 { return Fine; }
      hide Arrive, Layout, Mirrored, EncodeAll;
      var n := itemCount;
      ghost var pending := xs;
      while |listStack| > 0
        invariant n == |pending| > 0 && Mirrored(listStack, written)
        invariant out == Layout(written.done, written.open) + EncodeAll(pending)
        invariant Arrive(written, pending) == Arrive(old(written), xs)
        decreases |listStack|
      {
        var closed;
        closed, pending :- CountOff(n, pending);
        if !closed { return Fine; }
        n := 1;
      }
      Complete(pending);
      return Fine;
    }

    /** The innermost list still waits for items. */
    method KeepOpen(left: nat, p: nat, ghost items: seq<Item>)
      requires left > 0 && Mirrored(listStack, written) && p == |Layout(written.done, written.open)|
      requires out == Layout(written.done, written.open) + EncodeAll(items)
      modifies this`listStack, this`written
      ensures Valid()
      ensures written == Written(old(written).done, old(written).open + [Open(left, items)])
    {
      MirroredPush(listStack, written, left, items);
      listStack := listStack + [(left, p)];
      written := Written(written.done, written.open + [Open(left, items)]);
    }

    /** No list is open: the items are complete. */
    ghost method Complete(items: seq<Item>)
      requires Mirrored(listStack, written) && listStack == [] && items != []
      requires out == Layout(written.done, written.open) + EncodeAll(items)
      modifies this`written
      ensures Valid()
      ensures (Fine, written) == Arrive(old(written), items)
    {
      EncodeAllAppend(written.done, items);
      written := Written(written.done + items, []);
    }

    /** A list whose items are all there becomes one encoded item. */
    method CloseList(p: nat, ghost items: seq<Item>) returns (r: Report)
      requires p == |Layout(written.done, written.open)|
      requires out == Layout(written.done, written.open) + EncodeAll(items)
      modifies this`out
      ensures r == if Countable(|EncodeAll(items)|) then Fine else Refused(TooLong)
      ensures r.Fine? ==> out == Layout(written.done, written.open) + EncodeAll([List(items)])
    {
      EncodeAllOne(List(items));
      assert out[..p] == Layout(written.done, written.open) && out[p..] == EncodeAll(items);
      r := WriteListHeader(p);
    }

    /** appendRaw: already encoded items. */
    method AppendRaw(raw: Bytes, itemCount: nat, ghost xs: seq<Item>) returns (r: Report)
      requires Valid() && raw == EncodeAll(xs) && itemCount == |xs|
      modifies this
      ensures r == Arrive(old(written), xs).0
      ensures r.Fine? ==> Valid() && written == Arrive(old(written), xs).1
    {
      out := out + raw;
      r := NoteAppended(itemCount, xs);
    }

    /** The header and the bytes of a string. */
    method PutString(d: Bytes) returns (r: Report)
      modifies this`out
      ensures r == if Writable(Data(d)) then Fine else Refused(TooLong)
      ensures r.Fine? ==> out == old(out) + Encode(Data(d))
    {
      ghost var was := out;
      SmallCount(|d|);
      if |d| == 1 && d[0] < DATA_START {
        out := out + [d[0]];
        return Fine;
      }
      if |d| < IMM_LEN_COUNT {
        out := out + [(|d| + DATA_START as nat) as Byte];
      } else {
        :- PushCount(|d|, DATA_IND_LEN_ZERO);
      }
      assert out == was + Header(|d|, DATA_START);
      hide Header;
      out := out + d;
      return Fine;
    }

    /** append(bytes): one string; the compact form drops leading zeros. */
    method Append(data: Bytes, compact: bool) returns (r: Report)
      requires Valid()
      modifies this
      ensures var it := Data(if compact then Compact(data) else data);
        && r == (if Writable(it) then Arrive(old(written), [it]).0 else Refused(TooLong))
        && (r.Fine? ==> Valid() && written == Arrive(old(written), [it]).1)
    {
      var d := data;
      if compact {
        while d != [] && d[0] == 0
          invariant Compact(d) == Compact(data)
        {
          d := d[1..];
        }
      }
      EncodeAllOne(Data(d));
      hide Encode, EncodeAll, Writable, Arrive, Layout, Mirrored;
      :- PutString(d);
      r := NoteAppended(1, [Data(d)]);
    }

    /** The type byte, and the size if it needs bytes of its own, of a string of
        br bytes. */
    method PutIntHeader(br: nat) returns (r: Report)
      modifies this`out
      ensures r == if br < IMM_LEN_COUNT || |BigEndian(br)| <= 72 then Fine else Refused(TooLong)
      ensures r.Fine? ==> out == old(out) + Header(br, DATA_START)
    {
      if br < IMM_LEN_COUNT {
        out := out + [(br + DATA_START as nat) as Byte];
        return Fine;
      }
      var brbr := BytesRequired(br);
      if DATA_IND_LEN_ZERO as nat + brbr > 0xff { return Refused(TooLong); }
      out := out + [(DATA_IND_LEN_ZERO as nat + brbr) as Byte];
      PushInt(br, brbr);
      return Fine;
    }

    /** The bytes append(bigint) writes. */
    method PutInt(n: nat) returns (r: Report)
      modifies this`out
      ensures r == if Writable(Data(BigEndian(n))) then Fine else Refused(TooLong)
      ensures r.Fine? ==> out == old(out) + Encode(Data(BigEndian(n)))
    {
      IntForm(n);
      hide Header, Encode, BigEndian;
      if n == 0 {
        out := out + [DATA_START];
        return Fine;
      }
      if n < DATA_START as nat {
        out := out + [n as Byte];
        return Fine;
      }
      var br := BytesRequired(n);
      :- PutIntHeader(br);
      PushInt(n, br);
      return Fine;
    }

    /** append(bigint): the number's shortest big-endian form, as a string. */
    method AppendInt(n: nat) returns (r: Report)
      requires Valid()
      modifies this
      ensures var it := Data(BigEndian(n));
        && r == (if Writable(it) then Arrive(old(written), [it]).0 else Refused(TooLong))
        && (r.Fine? ==> Valid() && written == Arrive(old(written), [it]).1)
    {
      EncodeAllOne(Data(BigEndian(n)));
      hide Encode, EncodeAll, Writable, Arrive, Layout, Mirrored, BigEndian;
      :- PutInt(n);
      r := NoteAppended(1, [Data(BigEndian(n))]);
    }

    /** appendList(bytes): a list whose payload is already encoded. */
    method AppendListOf(payload: Bytes, ghost xs: seq<Item>) returns (r: Report)
      requires Valid() && payload == EncodeAll(xs)
      modifies this
      ensures r == if Countable(|payload|) then Arrive(old(written), [List(xs)]).0 else Refused(TooLong)
      ensures r.Fine? ==> Valid() && written == Arrive(old(written), [List(xs)]).1
    {
      ghost var was := out;
      EncodeAllOne(List(xs));
      SmallCount(|payload|);
      if |payload| < IMM_LEN_COUNT {
        out := out + [(|payload| + LIST_START as nat) as Byte];
      } else {
        :- PushCount(|payload|, LIST_IND_LEN_ZERO);
      }
      assert out == was + Header(|payload|, LIST_START);
      hide Header, Arrive, Layout, Mirrored;
      out := out + payload;
      assert out == was + Encode(List(xs));
      r := NoteAppended(1, [List(xs)]);
    }

    /** appendList(size_t): opens a list for that many items. */
    method AppendList(items: nat) returns (r: Report)
      requires Valid()
      modifies this
      ensures items > 0 ==>
        r == Fine && Valid() && written == Written(old(written).done, old(written).open + [Open(items, [])])
      ensures items == 0 ==> r == Arrive(old(written), [List([])]).0
      ensures items == 0 && r.Fine? ==> Valid() && written == Arrive(old(written), [List([])]).1
    {
      if items > 0 {
        MirroredPush(listStack, written, items, []);
        hide Arrive, Layout, Mirrored;
        listStack := listStack + [(items, |out|)];
        written := Written(written.done, written.open + [Open(items, [])]);
        return Fine;
      }
      hide Arrive, Layout, Mirrored;
      r := AppendListOf([], []);
    }

    /** out(): the encodings of what was streamed, once every list has all its
        items, and only then. */
    method Out() returns (r: Option<Bytes>)
      requires Valid()
      ensures r.Some? <==> written.open == []
      ensures r.Some? ==> r.value == EncodeAll(written.done)
    {
      if listStack != [] { return None; }
      return Some(out);
    }

    method Clear()
      modifies this
      ensures Valid() && written == Written([], [])
    {
      out, listStack, written := [], [], Written([], []);
    }

    /** Streams an item the way its users do: a list is announced with its
        length, then its items follow one by one. */
    method Stream(it: Item) returns (r: Report)
      requires Valid() && Writable(it)
      modifies this
      ensures r == Arrive(old(written), [it]).0
      ensures r.Fine? ==> Valid() && written == Arrive(old(written), [it]).1
      decreases it, 1
    {
      match it
      case Data(d) => r := Append(d, false);
      case List(xs) =>
        ghost var before := written;
        r := AppendList(|xs|);
        if |xs| > 0 { r := StreamItems(it, before); }
    }

    method StreamItems(it: Item, ghost before: Written) returns (r: Report)
      requires Valid() && Writable(it) && it.List? && it.items != []
      requires written == Written(before.done, before.open + [Open(|it.items|, [])])
      modifies this
      ensures r == Arrive(before, [it]).0
      ensures r.Fine? ==> Valid() && written == Arrive(before, [it]).1
      decreases it, 0
    {
      var xs := it.items;
      var i := 0;
      while i < |xs| - 1
        invariant 0 <= i < |xs| && Valid()
        invariant written == Written(before.done, before.open + [Open(|xs| - i, xs[..i])])
      {
        OneMore(before, xs, i);
        var fine := Stream(xs[i]);
        i := i + 1;
      }
      OneMore(before, xs, i);
      r := Stream(xs[i]);
    }
  }

  /** For every nested item: streaming it into a new stream succeeds, leaves no
      list open, and what comes out is its recursive encoding. */
  method EncodeByStream(it: Item) returns (b: Bytes)
    requires Writable(it)
    ensures b == Encode(it)
  {
    var s := new RLPStream();
    var r := s.Stream(it);
    EncodeAllOne(it);
    assert s.written == Written([it], []);
    var o := s.Out();
    b := o.value;
  }
}
