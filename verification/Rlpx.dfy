/** The encrypted channel between two peers: frame coders on both ends
    (libp2p/RLPXFrameCoder.cpp), the write queue and the read loop
    (libp2p/Session.cpp:217-267, 330-405).  Ciphers and key agreement are
    uninterpreted; the stream cipher is an exclusive or with a key stream. */
module Rlpx {
  import opened Bytes
  import R = Rlp
  import V = RlpView


  /** A 16-byte block or tag. */
  type Block = b: Bytes | |b| == 16 witness seq(16, _ => 0)

  /** AES in counter mode with a zero IV: the key stream of a key. */
  const KeyStream: (Digest, nat) -> Byte
  /** AES on a single block. */
  const EncryptBlock: (Digest, Block) -> Block
  /** Elliptic-curve key agreement; fails on an invalid public key. */
  const Agree: (Digest, Bytes) -> Option<Digest>
  const PublicOf: Digest -> Bytes

  // ----- Exclusive or -----

  function XorBits(a: nat, b: nat, k: nat): nat {
    if k == 0 then 0 else (a % 2 + b % 2) % 2 + 2 * XorBits(a / 2, b / 2, k - 1)
  }

  ghost function Pow2(k: nat): nat { if k == 0 then 1 else 2 * Pow2(k - 1) }

  lemma {:induction false} XorBound(a: nat, b: nat, k: nat)
    ensures XorBits(a, b, k) < Pow2(k)
  {
    if k > 0 { XorBound(a / 2, b / 2, k - 1); }
  }

  lemma BitAndHalf(bit: nat, x: nat)
    requires bit < 2
    ensures (bit + 2 * x) / 2 == x && (bit + 2 * x) % 2 == bit
  {
  }

  lemma {:induction false} XorTwice(a: nat, b: nat, k: nat)
    requires a < Pow2(k)
    ensures XorBits(XorBits(a, b, k), b, k) == a
  {
    if k > 0 {
      var low, high := (a % 2 + b % 2) % 2, XorBits(a / 2, b / 2, k - 1);
      XorTwice(a / 2, b / 2, k - 1);
      BitAndHalf(low, high);
      assert XorBits(low + 2 * high, b, k) == (low + b % 2) % 2 + 2 * XorBits(high, b / 2, k - 1);
      XorBitTwice(a % 2, b % 2);
    }
  }

  lemma XorBitTwice(a: nat, b: nat)
    requires a < 2 && b < 2
    ensures ((a + b) % 2 + b) % 2 == a
  {
  }

  lemma Pow2Of8()
    ensures Pow2(8) == 256
  {
    assert Pow2(4) == 16;
    assert Pow2(6) == 64;
  }

  function XorByte(a: Byte, b: Byte): Byte {
    XorBound(a as nat, b as nat, 8);
    Pow2Of8();
    XorBits(a as nat, b as nat, 8) as Byte
  }

  lemma XorByteTwice(a: Byte, b: Byte)
    ensures XorByte(XorByte(a, b), b) == a
  {
    Pow2Of8();
    XorTwice(a as nat, b as nat, 8);
  }

  /** Bit k of n, bit 0 being the lowest. */
  predicate Bit(n: nat, k: nat) { if k == 0 then n % 2 == 1 else Bit(n / 2, k - 1) }

  lemma {:induction false} XorBitsAt(a: nat, b: nat, n: nat, k: nat)
    requires k < n
    ensures Bit(XorBits(a, b, n), k) <==> Bit(a, k) != Bit(b, k)
  {
    var low, high := (a % 2 + b % 2) % 2, XorBits(a / 2, b / 2, n - 1);
    BitAndHalf(low, high);
    if k > 0 { XorBitsAt(a / 2, b / 2, n - 1, k - 1); }
  }

  /** Each bit of the result is set exactly if the operands differ in it. */
  lemma XorByteAt(a: Byte, b: Byte, k: nat)
    requires k < 8
    ensures Bit(XorByte(a, b) as nat, k) <==> Bit(a as nat, k) != Bit(b as nat, k)
  {
    XorBitsAt(a as nat, b as nat, 8, k);
  }

  function Xor(a: Bytes, b: Bytes): (c: Bytes)
    requires |a| == |b|
    ensures |c| == |a|
  {
    seq(|a|, i requires 0 <= i < |a| => XorByte(a[i], b[i]))
  }

  lemma XorCancels(a: Bytes, b: Bytes)
    requires |a| == |b|
    ensures Xor(Xor(a, b), b) == a
  {
    forall i | 0 <= i < |a|
      ensures Xor(Xor(a, b), b)[i] == a[i]
    {
      XorByteTwice(a[i], b[i]);
    }
  }

  // ----- The channel's state -----

  /** The key stream from a position on, applied to data; its own inverse. */
  function Crypt(key: Digest, pos: nat, data: Bytes): (c: Bytes)
    ensures |c| == |data|
  {
    seq(|data|, i requires 0 <= i < |data| => XorByte(data[i], KeyStream(key, pos + i)))
  }

  lemma CryptTwice(key: Digest, pos: nat, data: Bytes)
    ensures Crypt(key, pos, Crypt(key, pos, data)) == data
  {
    forall i | 0 <= i < |data|
      ensures Crypt(key, pos, Crypt(key, pos, data))[i] == data[i]
    {
      XorByteTwice(data[i], KeyStream(key, pos + i));
    }
  }

  lemma CryptSplits(key: Digest, pos: nat, a: Bytes, b: Bytes)
    ensures Crypt(key, pos, a + b) == Crypt(key, pos, a) + Crypt(key, pos + |a|, b)
  {
  }

  /** The first 16 bytes of the digest of what a MAC has absorbed. */
  function Tag(mac: Bytes): Block { Sha3(mac)[..16] }

  /** updateMAC: absorb the encrypted tag, mixed with a seed or with itself. */
  function UpdateMac(key: Digest, mac: Bytes, seed: Block): Bytes {
    mac + Xor(EncryptBlock(key, Tag(mac)), seed)
  }

  /** One direction of a channel: the keys, the position in the key stream, and
      what the MAC has absorbed. */
  datatype Lane = Lane(key: Digest, macKey: Digest, pos: nat, mac: Bytes)

  const FRAME_LIMIT := 0x100_0000

  function Padding(n: nat): nat { (16 - n % 16) % 16 }


  /** Frame size in three bytes, then the list of protocol and sequence id. */
  function HeaderOf(n: nat): Block {
    [(n / 65536 % 256) as Byte, (n / 256 % 256) as Byte, (n % 256) as Byte, 0xc2, 0x80, 0x80] + Zeros(10)
  }

  function SizeIn(header: Bytes): nat
    requires |header| >= 3
  {
    (header[0] as nat * 256 + header[1] as nat) * 256 + header[2] as nat
  }

  /** The size is carried faithfully exactly when three bytes can hold it. */
  lemma SizeSurvives(n: nat)
    ensures SizeIn(HeaderOf(n)) == n <==> n < FRAME_LIMIT
  {
    assert SizeIn(HeaderOf(n)) == n % 65536 + n / 65536 % 256 * 65536;
  }

  function AfterHeader(l: Lane, cipher: Block): Lane {
    l.(pos := l.pos + 16, mac := UpdateMac(l.macKey, l.mac, cipher))
  }

  function AfterBody(l: Lane, cipher: Bytes): Lane {
    var absorbed := l.mac + cipher;
    l.(pos := l.pos + |cipher|, mac := UpdateMac(l.macKey, absorbed, Tag(absorbed)))
  }

  /** A frame as it goes over the wire, and the lane behind it. */
  function Frame(l: Lane, packet: Bytes): (Bytes, Lane) {
    var head := Crypt(l.key, l.pos, HeaderOf(|packet|));
    var l1 := AfterHeader(l, head);
    var body := Crypt(l1.key, l1.pos, packet + Zeros(Padding(|packet|)));
    var l2 := AfterBody(l1, body);
    ((head + Tag(l1.mac)) + (body + Tag(l2.mac)), l2)
  }

  /** What RLPx asks of a frame and of the state it leaves. */
  ghost predicate Specified(l: Lane, packet: Bytes, out: Bytes, after: Lane) {
    && |out| % 16 == 0 && |packet| + 48 <= |out| < |packet| + 64
    && Encrypted(l, packet, out) && Authentic(l, out, after)
  }

  /** Sixteen bytes of header and the packet, filled up with zeros to whole
      blocks, are encrypted by the key stream. */
  ghost predicate Encrypted(l: Lane, packet: Bytes, out: Bytes)
    requires |out| >= 48
  {
    && (forall i | 0 <= i < 16 :: out[i] == XorByte(Plain(packet, i), KeyStream(l.key, l.pos + i)))
    && (forall i | 32 <= i < |out| - 16 ::
          out[i] == XorByte(if i - 32 < |packet| then packet[i - 32] else 0, KeyStream(l.key, l.pos + i - 16)))
  }

  /** Behind each of the two stand sixteen bytes of the digest of all that the
      MAC has absorbed: the encrypted tag mixed with the header, then the
      frame, and then the encrypted tag mixed with itself. */
  ghost predicate Authentic(l: Lane, out: Bytes, after: Lane)
    requires |out| >= 48
  {
    var head := l.mac + Xor(EncryptBlock(l.macKey, Sha3(l.mac)[..16]), out[..16]);
    var body := head + out[32..|out| - 16];
    var tag := Sha3(body)[..16];
    var end := body + Xor(EncryptBlock(l.macKey, tag), tag);
    && out[16..32] == Sha3(head)[..16] && out[|out| - 16..] == Sha3(end)[..16]
    && after == Lane(l.key, l.macKey, l.pos + |out| - 32, end)
  }

  /** Byte i of a frame's header: the low three bytes of the size, the highest
      first, then a list of two empty strings, then zeros. */
  function Plain(packet: Bytes, i: nat): Byte {
    if i == 0 then (|packet| / 65536 % 256) as Byte
    else if i == 1 then (|packet| / 256 % 256) as Byte
    else if i == 2 then (|packet| % 256) as Byte
    else if i == 3 then 0xc2
    else if i == 4 || i == 5 then 0x80
    else 0
  }

  lemma FrameSpecified(l: Lane, packet: Bytes)
    ensures Specified(l, packet, Frame(l, packet).0, Frame(l, packet).1)
  {
    hide Crypt, HeaderOf, Encrypted, Authentic, Tag, UpdateMac;
    var head := Crypt(l.key, l.pos, HeaderOf(|packet|));
    var l1 := AfterHeader(l, head);
    var body := Crypt(l1.key, l1.pos, packet + Zeros(Padding(|packet|)));
    var l2 := AfterBody(l1, body);
    var out := Frame(l, packet).0;
    assert out == (head + Tag(l1.mac)) + (body + Tag(l2.mac));
    FourParts(head, Tag(l1.mac), body, Tag(l2.mac));
    FrameEncrypted(l, packet, out);
    FrameAuthentic(l, out, head, body);
  }

  lemma FourParts(a: Block, b: Block, c: Bytes, d: Block)
    ensures var out := (a + b) + (c + d);
      out[..16] == a && out[16..32] == b && out[32..|out| - 16] == c && out[|out| - 16..] == d
  {
  }

  lemma CryptAt(key: Digest, pos: nat, data: Bytes, i: nat)
    requires i < |data|
    ensures Crypt(key, pos, data)[i] == XorByte(data[i], KeyStream(key, pos + i))
  {
  }

  lemma FrameEncrypted(l: Lane, packet: Bytes, out: Bytes)
    requires |out| == |packet| + Padding(|packet|) + 48
    requires out[..16] == Crypt(l.key, l.pos, HeaderOf(|packet|))
    requires out[32..|out| - 16] == Crypt(l.key, l.pos + 16, packet + Zeros(Padding(|packet|)))
    ensures Encrypted(l, packet, out)
  {
    hide XorByte, Padding, Crypt;
    forall i | 0 <= i < 16
      ensures out[i] == XorByte(Plain(packet, i), KeyStream(l.key, l.pos + i))
    {
      assert out[i] == out[..16][i];
      CryptAt(l.key, l.pos, HeaderOf(|packet|), i);
    }
    var data := packet + Zeros(Padding(|packet|));
    forall i | 32 <= i < |out| - 16
      ensures out[i] == XorByte(if i - 32 < |packet| then packet[i - 32] else 0, KeyStream(l.key, l.pos + i - 16))
    {
      assert out[i] == out[32..|out| - 16][i - 32];
      CryptAt(l.key, l.pos + 16, data, i - 32);
    }
  }

  lemma FrameAuthentic(l: Lane, out: Bytes, head: Block, body: Bytes)
    requires |out| == |body| + 48 && out[..16] == head && out[32..|out| - 16] == body
    requires var l1 := AfterHeader(l, head);
      out[16..32] == Tag(l1.mac) && out[|out| - 16..] == Tag(AfterBody(l1, body).mac)
    ensures Authentic(l, out, AfterBody(AfterHeader(l, head), body))
  {
    hide Xor;
  }

  function Wire(l: Lane, packets: seq<Bytes>): (Bytes, Lane)
    decreases packets
  {
    if packets == [] then ([], l)
    else
      var (first, l1) := Frame(l, packets[0]);
      var (rest, l2) := Wire(l1, packets[1..]);
      (first + rest, l2)
  }

  lemma {:induction false} WireAppends(l: Lane, ps: seq<Bytes>, p: Bytes)
    ensures var (w, l1) := Wire(l, ps);
      Wire(l, ps + [p]) == (w + Frame(l1, p).0, Frame(l1, p).1)
    decreases ps
  {
    hide Frame;
    if ps == [] {
      assert [p][1..] == [] && [] + [p] == [p];
      assert [] + Frame(l, p).0 == Frame(l, p).0 + [] == Frame(l, p).0;
    } else {
      WireAppends(Frame(l, ps[0]).1, ps[1..], p);
      assert (ps + [p])[1..] == ps[1..] + [p];
      var rest := Wire(Frame(l, ps[0]).1, ps[1..]);
      assert Frame(l, ps[0]).0 + (rest.0 + Frame(rest.1, p).0) == Frame(l, ps[0]).0 + rest.0 + Frame(rest.1, p).0;
    }
  }

  // ----- Set-up -----

  /** The keys both ends derive from the agreed secret and the two nonces,
      recipient's first: cipher key, then MAC key. */
  function DeriveKeys(shared: Digest, left: Digest, right: Digest): (Digest, Digest) {
    var secret := Sha3(shared + Sha3(left + right));
    var aes := Sha3(shared + secret);
    (aes, Sha3(shared + aes))
  }

  class FrameCoder {
    var frameEncKey: Digest
    var frameDecKey: Digest
    var macEncKey: Digest
    /** Positions in the two key streams. */
    var encPos: nat
    var decPos: nat
    /** What the two MACs have absorbed. */
    var egressMac: Bytes
    var ingressMac: Bytes

    function Egress(): Lane
      reads this
    {
      Lane(frameEncKey, macEncKey, encPos, egressMac)
    }

    function Ingress(): Lane
      reads this
    {
      Lane(frameDecKey, macEncKey, decPos, ingressMac)
    }

    constructor ()
    {
      var none: Digest := seq(32, _ => 0);
      frameEncKey, frameDecKey, macEncKey := none, none, none;
      encPos, decPos, egressMac, ingressMac := 0, 0, [], [];
    }

    /** setup: false when the remote's ephemeral key is not usable. */
    method Setup(originated: bool, remoteEphemeral: Bytes, remoteNonce: Digest, secret: Digest, nonce: Digest,
                 ackCipher: Bytes, authCipher: Bytes)
      returns (ok: bool)
      modifies this
      ensures ok <==> Agree(secret, remoteEphemeral).Some?
      ensures ok ==>
        var (aes, mac) := DeriveKeys(Agree(secret, remoteEphemeral).value,
                                     if originated then remoteNonce else nonce,
                                     if originated then nonce else remoteNonce);
        && Egress() == Lane(aes, mac, 0, Xor(mac, remoteNonce) + if originated then authCipher else ackCipher)
        && Ingress() == Lane(aes, mac, 0, Xor(mac, nonce) + if originated then ackCipher else authCipher)
    {
      var agreed := Agree(secret, remoteEphemeral);
      if agreed.None? { return false; }
      var keyMaterial := agreed.value + Zeros(32);
      var leftNonce := if originated then remoteNonce else nonce;
      var rightNonce := if originated then nonce else remoteNonce;
      keyMaterial := agreed.value + Sha3(leftNonce + rightNonce);
      keyMaterial := agreed.value + Sha3(keyMaterial);
      keyMaterial := agreed.value + Sha3(keyMaterial);
      var aes: Digest := keyMaterial[32..];
      frameEncKey, frameDecKey := aes, aes;
      encPos, decPos := 0, 0;
      keyMaterial := agreed.value + Sha3(keyMaterial);
      macEncKey := keyMaterial[32..];
      keyMaterial := Xor(keyMaterial[32..], remoteNonce) + keyMaterial[32..];
      keyMaterial := keyMaterial[..32] + if originated then authCipher else ackCipher;
      egressMac := keyMaterial;
      XorCancels(macEncKey, remoteNonce);
      assert keyMaterial[..32] == Xor(macEncKey, remoteNonce);
      keyMaterial := Xor(Xor(keyMaterial[..32], remoteNonce), nonce) + keyMaterial[32..];
      keyMaterial := keyMaterial[..32] + if originated then ackCipher else authCipher;
      assert keyMaterial[..32] == Xor(macEncKey, nonce);
      ingressMac := keyMaterial;
      return true;
    }

    /** The cipher's ProcessData on the way out. */
    method Encrypt(data: Bytes) returns (c: Bytes)
      modifies this`encPos
      ensures c == Crypt(frameEncKey, old(encPos), data) && encPos == old(encPos) + |data|
    {
      c := Crypt(frameEncKey, encPos, data);
      encPos := encPos + |data|;
    }

    method WriteHeader(header: Bytes) returns (out: Bytes)
      requires |header| <= 16
      modifies this`encPos, this`egressMac
      ensures var head := Crypt(frameEncKey, old(encPos), header + Zeros(16 - |header|));
        && Egress() == AfterHeader(old(Egress()), head)
        && out == head + Tag(egressMac)
    {
      out := header + Zeros(32 - |header|);
      assert out[..16] == header + Zeros(16 - |header|);
      var head := Encrypt(out[..16]);
      egressMac := UpdateMac(macEncKey, egressMac, head);
      out := head + Tag(egressMac);
    }

    method WriteBody(payload: Bytes) returns (out: Bytes)
      modifies this`encPos, this`egressMac
      ensures var body := Crypt(frameEncKey, old(encPos), payload + Zeros(Padding(|payload|)));
        && Egress() == AfterBody(old(Egress()), body)
        && out == body + Tag(egressMac)
    {
      var padding := Padding(|payload|);
      CryptSplits(frameEncKey, encPos, payload, Zeros(padding));
      hide Crypt, UpdateMac, Tag, Zeros;
      var body := Encrypt(payload);
      if padding > 0 {
        var pad := Encrypt(Zeros(padding));
        body := body + pad;
      } else {
        assert payload + Zeros(padding) == payload;
      }
      egressMac := egressMac + body;
      egressMac := UpdateMac(macEncKey, egressMac, Tag(egressMac));
      out := body + Tag(egressMac);
    }

    method WriteSingleFramePacket(packet: Bytes) returns (out: Bytes)
      modifies this`encPos, this`egressMac
      ensures (out, Egress()) == Frame(old(Egress()), packet)
      ensures Specified(old(Egress()), packet, out, Egress())
    {
      FrameSpecified(Egress(), packet);
      hide Specified;
      var len := |packet|;
      var header := [(len / 65536 % 256) as Byte, (len / 256 % 256) as Byte, (len % 256) as Byte];
      header := header + [0xc2, 0x80, 0x80];
      assert header + Zeros(10) == HeaderOf(len);
      out := WriteHeader(header);
      var body := WriteBody(packet);
      out := out + body;
    }

    /** Checks the tag of a header and decrypts it in place. */
    method AuthAndDecryptHeader(io: Bytes) returns (ok: bool, plain: Bytes)
      requires |io| == 32
      modifies this`decPos, this`ingressMac
      ensures var l := AfterHeader(old(Ingress()), io[..16]);
        && ok == (io[16..] == Tag(l.mac))
        && |plain| == 32
        && (ok ==> Ingress() == l && plain[16..] == io[16..])
        && (ok ==> plain[..16] == Crypt(frameDecKey, old(decPos), io[..16]))
    {
      ingressMac := UpdateMac(macEncKey, ingressMac, io[..16]);
      if io[16..32] != Tag(ingressMac) { return false, io; }
      var head := Crypt(frameDecKey, decPos, io[..16]);
      decPos := decPos + 16;
      return true, head + io[16..];
    }

    /** Checks the tag behind a frame and decrypts the frame in place. */
    method AuthAndDecryptFrame(io: Bytes) returns (ok: bool, plain: Bytes)
      requires |io| >= 16
      modifies this`decPos, this`ingressMac
      ensures var cipher := io[..|io| - 16];
        var l := AfterBody(old(Ingress()), cipher);
        && ok == (io[|io| - 16..] == Tag(l.mac))
        && |plain| == |io|
        && (ok ==> Ingress() == l && plain[..|io| - 16] == Crypt(frameDecKey, old(decPos), cipher))
    {
      var n := |io| - 16;
      var cipher := io[..n];
      ingressMac := ingressMac + cipher;
      ingressMac := UpdateMac(macEncKey, ingressMac, Tag(ingressMac));
      if io[n..] != Tag(ingressMac) { return false, io; }
      var body := Crypt(frameDecKey, decPos, cipher);
      decPos := decPos + n;
      return true, body + io[n..];
    }
  }

  /** Two coders set up from the two ends of one handshake face each other:
      each one's outgoing lane is the other's incoming lane. */
  method Pair(initiator: Digest, recipient: Digest, initNonce: Digest, recNonce: Digest, ack: Bytes, auth: Bytes)
    returns (a: FrameCoder, b: FrameCoder, ok: bool)
    requires Agree(initiator, PublicOf(recipient)) == Agree(recipient, PublicOf(initiator))
    ensures ok <==> Agree(initiator, PublicOf(recipient)).Some?
    ensures a != b && fresh(a) && fresh(b)
    ensures ok ==> a.Egress() == b.Ingress() && b.Egress() == a.Ingress()
    ensures ok ==> a.Egress().key == a.Ingress().key
  {
    a := new FrameCoder();
    b := new FrameCoder();
    ok := a.Setup(true, PublicOf(recipient), recNonce, initiator, initNonce, ack, auth);
    var other := b.Setup(false, PublicOf(initiator), initNonce, recipient, recNonce, ack, auth);
  }

  // ----- Reading -----

  datatype FrameInfo = FrameInfo(
    length: nat, padding: nat, protocolId: nat, multiFrame: bool, sequenceId: nat, totalLength: nat)

  /** toInt, None where it throws. */
  function Number(d: Bytes, size: nat): Option<nat> {
    match V.ToInt(d, size)
    case Value(v) => Some(v)
    case Throws(_) => None
  }

  /** header[0]: the first item of the payload, of a list or not. */
  function FirstOf(payload: Bytes): Option<Bytes> {
    match R.SizeAsEncoded(payload)
    case Ok(n) => Some(payload[..n])
    case Err(_) => None
  }

  /** The items of a list, none of anything else. */
  function ItemsOf(d: Bytes, payload: Bytes): Option<seq<Bytes>> {
    if !R.IsList(d) then Some([])
    else
      match V.Pieces(payload)
      case Ok(ps) => Some(ps)
      case Err(_) => None
  }

  /** RLPXFrameInfo: None where its constructor throws. */
  function Info(header: Bytes): Option<FrameInfo>
    requires |header| >= 4
  {
    var d, n := header[3..], SizeIn(header);
    if R.SizeAsEncoded(d).Err? || V.Payload(d).Err? then None
    else
      var payload := V.Payload(d).value;
      match (FirstOf(payload), ItemsOf(d, payload))
      case (Some(first), Some(items)) =>
        var sequenceId := if |items| > 1 then Number(items[1], 2) else Some(0);
        var totalLength := if |items| == 3 then Number(items[2], 4) else Some(0);
        (match (Number(first, 2), sequenceId, totalLength)
         case (Some(p), Some(s), Some(t)) => Some(FrameInfo(n, Padding(n), p, |items| > 1, s, t))
         case _ => None)
      case _ => None
  }

  lemma TwoZeros()
    ensures FirstOf([0x80, 0x80]) == Some([0x80]) && Number([0x80], 2) == Some(0)
    ensures V.Pieces([0x80, 0x80]) == R.Ok([[0x80], [0x80]])
  {
    var p: Bytes := [0x80, 0x80];
    assert p[..1] == [0x80] && p[1..] == [0x80];
    assert [0x80 as Byte][..1] == [0x80] && [0x80 as Byte][1..] == [] && [0x80 as Byte][1..1] == [];
    assert R.SizeAsEncoded([0x80]) == R.Ok(1) && V.Pieces([]) == R.Ok([]);
    assert [[0x80 as Byte]] + [] == [[0x80 as Byte]];
    assert V.Pieces([0x80]) == R.Ok([[0x80]]);
    assert [[0x80 as Byte]] + [[0x80 as Byte]] == [[0x80 as Byte], [0x80 as Byte]];
  }

  /** A header this side writes is understood by the other side. */
  lemma InfoOfHeader(n: nat, tail: Bytes)
    requires n < FRAME_LIMIT
    ensures Info(HeaderOf(n) + tail) == Some(FrameInfo(n, Padding(n), 0, true, 0, 0))
  {
    var h := HeaderOf(n) + tail;
    var d := h[3..];
    SizeSurvives(n);
    assert d[0] == 0xc2 && d[1] == 0x80 && d[2] == 0x80;
    assert d[1..3] == [0x80, 0x80];
    TwoZeros();
    hide V.Pieces, Number, FirstOf;
  }

  /** The item is the number n, of so many bytes at most. */
  ghost predicate Says(it: R.Item, size: nat, n: nat) {
    it == R.Data(BigEndian(n)) && |BigEndian(n)| <= size
  }

  /** What a header that lists these items says: a protocol id of two bytes, a
      sequence id of two bytes if there is a second item, a total size of four
      bytes if there are just three, and as much padding as fills a block. */
  ghost predicate Announced(size: Bytes, xs: seq<R.Item>, f: FrameInfo)
    requires |size| == 3
  {
    && f.length == 65536 * size[0] as nat + 256 * size[1] as nat + size[2] as nat
    && f.padding < 16 && (f.length + f.padding) % 16 == 0
    && |xs| > 0 && Says(xs[0], 2, f.protocolId)
    && (f.multiFrame <==> |xs| > 1)
    && (if |xs| > 1 then Says(xs[1], 2, f.sequenceId) else f.sequenceId == 0)
    && (if |xs| == 3 then Says(xs[2], 4, f.totalLength) else f.totalLength == 0)
  }

  lemma NumberSays(it: R.Item, size: nat, n: nat)
    requires R.Fits(it)
    ensures Number(R.Encode(it), size) == Some(n) <==> Says(it, size, n)
  {
    hide R.Encode, R.SizeAsEncoded, R.ActualSize, BigEndian, V.ToInt, R.Decode;
    R.SizeOfEncoded(it, []);
    assert R.Encode(it) + [] == R.Encode(it);
    SizeOfWhole(R.Encode(it));
    V.IntegersRoundTrip(R.Encode(it), size, n);
    BigEndianLength(n, size);
    if R.Encode(it) == R.Encode(R.Data(BigEndian(n))) { SameItem(it, n); }
  }

  lemma SizeOfWhole(d: Bytes)
    requires R.ActualSize(d) == R.Ok(|d|)
    ensures R.SizeAsEncoded(d) == R.Ok(|d|) && d[..|d|] == d
  {
  }

  lemma SameItem(it: R.Item, n: nat)
    requires R.Fits(it) && R.Encode(it) == R.Encode(R.Data(BigEndian(n)))
    ensures it == R.Data(BigEndian(n))
  {
    hide R.Encode, R.Decode, BigEndian;
    R.DecodeEncode(it);
    if |BigEndian(n)| >= R.LENGTH_LIMIT { V.TooLongToRead(R.Encode(it), BigEndian(n)); }
    R.EncodeInjective(it, R.Data(BigEndian(n)));
  }

  /** The constructor's reading of a list, field by field. */
  lemma InfoOfPieces(h: Bytes, p: Bytes, first: Bytes, items: seq<Bytes>, f: FrameInfo)
    requires |h| >= 4 && R.SizeAsEncoded(h[3..]).Ok? && R.IsList(h[3..]) && V.Payload(h[3..]) == R.Ok(p)
    requires FirstOf(p) == Some(first) && V.Pieces(p) == R.Ok(items)
    ensures Info(h) == Some(f) <==>
      && f.length == SizeIn(h) && f.padding == Padding(f.length)
      && Number(first, 2) == Some(f.protocolId) && (f.multiFrame <==> |items| > 1)
      && (if |items| > 1 then Number(items[1], 2) == Some(f.sequenceId) else f.sequenceId == 0)
      && (if |items| == 3 then Number(items[2], 4) == Some(f.totalLength) else f.totalLength == 0)
  {
    hide R.SizeAsEncoded, R.IsList, V.Payload, V.Pieces, FirstOf, Number, SizeIn, Padding;
  }

  /** The first of some encodings, and none of none. */
  lemma FirstOfItems(xs: seq<R.Item>)
    requires |R.EncodeAll(xs)| < R.LENGTH_LIMIT
    ensures FirstOf(R.EncodeAll(xs)) == Some(if xs == [] then [] else R.Encode(xs[0]))
  {
    if xs != [] {
      hide R.Encode, R.ActualSize;
      var e, rest := R.Encode(xs[0]), R.EncodeAll(xs[1..]);
      R.PartsFit(xs);
      R.SizeOfEncoded(xs[0], rest);
      assert R.EncodeAll(xs) == e + rest && (e + rest)[..|e|] == e;
    } else {
      assert R.EncodeAll(xs) == [];
    }
  }

  lemma {:induction false} AllFit(xs: seq<R.Item>)
    requires |R.EncodeAll(xs)| < R.LENGTH_LIMIT
    ensures forall i | 0 <= i < |xs| :: R.Fits(xs[i])
  {
    if xs != [] {
      R.PartsFit(xs);
      AllFit(xs[1..]);
      assert forall i | 0 < i < |xs| :: xs[i] == xs[1..][i - 1];
    }
  }

  lemma ListHeader(size: Bytes, p: Bytes, tail: Bytes)
    requires |size| == 3 && |p| < R.LENGTH_LIMIT
    ensures var h := size + (R.Header(|p|, R.LIST_START) + p) + tail;
      && |h| >= 4 && R.SizeAsEncoded(h[3..]).Ok? && R.IsList(h[3..]) && V.Payload(h[3..]) == R.Ok(p)
      && SizeIn(h) == 65536 * size[0] as nat + 256 * size[1] as nat + size[2] as nat
  {
    var head := R.Header(|p|, R.LIST_START);
    var h := size + (head + p) + tail;
    V.ListPayload(p, tail);
    hide R.Header, R.IsList, V.Payload, R.Length, R.PayloadOffset;
    assert h[3..] == head + p + tail;
    assert h[0] == size[0] && h[1] == size[1] && h[2] == size[2];
  }

  /** Whatever items a header lists, it is read as saying exactly what they
      announce, and is refused if they announce nothing. */
  lemma InfoOfItems(size: Bytes, xs: seq<R.Item>, tail: Bytes, f: FrameInfo)
    requires |size| == 3 && R.Fits(R.List(xs))
    ensures Info(size + R.Encode(R.List(xs)) + tail) == Some(f) <==> Announced(size, xs, f)
  {
    hide R.EncodeAll, V.Pieces, V.Payload, R.Header, R.SizeAsEncoded, Number, FirstOf, Says, Info, R.IsList;
    hide SizeIn, Padding;
    var p := R.EncodeAll(xs);
    assert R.Encode(R.List(xs)) == R.Header(|p|, R.LIST_START) + p;
    hide R.Encode;
    ListHeader(size, p, tail);
    V.PiecesOfItems(xs);
    FirstOfItems(xs);
    AllFit(xs);
    PaddingIs(f.length, f.padding);
    InfoOfPieces(size + R.Encode(R.List(xs)) + tail, p, if xs == [] then [] else R.Encode(xs[0]), V.Pieces(p).value, f);
    if xs == [] { NoNumber(2); }
    if |xs| > 0 { NumberSays(xs[0], 2, f.protocolId); }
    if |xs| > 1 { NumberSays(xs[1], 2, f.sequenceId); }
    if |xs| == 3 { NumberSays(xs[2], 4, f.totalLength); }
  }

  /** A header that holds a string is read as if the string's first item stood
      alone: as a protocol id and nothing else. */
  lemma InfoOfString(size: Bytes, b: Bytes, tail: Bytes, f: FrameInfo)
    requires |size| == 3 && R.Fits(R.Data(b))
    ensures Info(size + R.Encode(R.Data(b)) + tail) == Some(f) <==>
      && f.length == 65536 * size[0] as nat + 256 * size[1] as nat + size[2] as nat
      && f.padding < 16 && (f.length + f.padding) % 16 == 0
      && !f.multiFrame && f.sequenceId == 0 && f.totalLength == 0
      && f.protocolId < 65536 && R.Encode(R.Data(BigEndian(f.protocolId))) <= b
  {
    hide R.Encode, V.Payload, R.SizeAsEncoded, Number, FirstOf, R.IsList, SizeIn, Padding, V.Pieces;
    StringHeader(size, b, tail);
    FirstNumber(b, f.protocolId);
    PaddingIs(f.length, f.padding);
  }

  lemma StringHeader(size: Bytes, b: Bytes, tail: Bytes)
    requires |size| == 3 && R.Fits(R.Data(b))
    ensures var h := size + R.Encode(R.Data(b)) + tail;
      && |h| >= 4 && R.SizeAsEncoded(h[3..]).Ok? && !R.IsList(h[3..]) && V.Payload(h[3..]) == R.Ok(b)
      && SizeIn(h) == 65536 * size[0] as nat + 256 * size[1] as nat + size[2] as nat
  {
    hide R.Encode, R.IsList, V.Payload, R.SizeAsEncoded;
    var h := size + R.Encode(R.Data(b)) + tail;
    V.StringBefore(b, tail);
    assert h[3..] == R.Encode(R.Data(b)) + tail;
    assert h[0] == size[0] && h[1] == size[1] && h[2] == size[2];
  }

  /** The first item of b is the number n exactly if b starts with its one
      encoding. */
  lemma FirstNumber(b: Bytes, n: nat)
    ensures FirstOf(b).Some? && Number(FirstOf(b).value, 2) == Some(n)
       <==> n < 65536 && R.Encode(R.Data(BigEndian(n))) <= b
  {
    hide R.Encode, R.SizeAsEncoded, R.ActualSize, BigEndian, V.ToInt;
    var e := R.Encode(R.Data(BigEndian(n)));
    assert Pow256(2) == 65536;
    if R.SizeAsEncoded(b).Ok? {
      var m := R.SizeAsEncoded(b).value;
      WholeSize(b);
      SizeOfWhole(b[..m]);
      V.IntegersRoundTrip(b[..m], 2, n);
      if n < 65536 && e <= b { FirstIsInteger(b, n); }
    } else if n < 65536 && e <= b {
      FirstIsInteger(b, n);
    }
  }

  /** An item alone has the size it had with bytes behind it. */
  lemma WholeSize(b: Bytes)
    requires R.SizeAsEncoded(b).Ok?
    ensures R.ActualSize(b[..R.SizeAsEncoded(b).value]) == R.Ok(R.SizeAsEncoded(b).value)
  {
    var m := R.SizeAsEncoded(b).value;
    var e := b[..m];
    if b != [] && b[0] >= R.DATA_START {
      var n := R.LengthSize(b);
      assert m == 1 + n + R.Length(b).value;
      assert e[0] == b[0] && (m >= 2 ==> e[1] == b[1]);
      if m > n { assert e[1..1 + n] == b[1..1 + n]; }
    }
  }

  lemma FirstIsInteger(b: Bytes, n: nat)
    requires n < 65536 && R.Encode(R.Data(BigEndian(n))) <= b
    ensures R.SizeAsEncoded(b) == R.Ok(|R.Encode(R.Data(BigEndian(n)))|)
  {
    hide R.Encode, R.ActualSize, BigEndian;
    var e := R.Encode(R.Data(BigEndian(n)));
    assert Pow256(2) == 65536;
    BigEndianLength(n, 2);
    R.SizeOfEncoded(R.Data(BigEndian(n)), b[|e|..]);
    assert b == e + b[|e|..];
  }

  lemma PaddingIs(n: nat, p: nat)
    ensures p == Padding(n) <==> p < 16 && (n + p) % 16 == 0
  {
  }

  lemma NoNumber(size: nat)
    ensures Number([], size) == None
  {
  }

  /** checkPacket: a one-byte packet id below 0x80 and one whole item. */
  predicate CheckPacket(msg: Bytes) {
    |msg| >= 2 && msg[0] <= 0x7f && R.ActualSize(msg[1..]) == R.Ok(|msg| - 1)
  }

  /** A packet id and an item pass if the id is below 128 and nothing follows. */
  lemma PacketPasses(id: Byte, it: R.Item, rest: Bytes)
    requires R.Fits(it)
    ensures CheckPacket([id] + R.Encode(it) + rest) <==> id < 128 && rest == []
  {
    hide R.Encode, R.ActualSize;
    var msg := [id] + R.Encode(it) + rest;
    assert msg[1..] == R.Encode(it) + rest;
    R.SizeOfEncoded(it, rest);
  }

  datatype ReadResult = Packet(protocolId: nat, bytes: Bytes) | Dropped

  /** The bytes of a frame, taken apart the way the reader takes them. */
  lemma FrameParts(l: Lane, packet: Bytes, more: Bytes)
    ensures var w := Frame(l, packet).0 + more;
      var n := |packet| + Padding(|packet|);
      var head := Crypt(l.key, l.pos, HeaderOf(|packet|));
      var l1 := AfterHeader(l, head);
      var body := Crypt(l1.key, l1.pos, packet + Zeros(Padding(|packet|)));
      && |w| >= 32 + n + 16
      && w[..32][..16] == head && w[..32][16..] == Tag(l1.mac)
      && w[32..32 + n + 16][..n] == body && w[32..32 + n + 16][n..] == Tag(AfterBody(l1, body).mac)
      && w[32 + n + 16..] == more
      && Frame(l, packet).1 == AfterBody(l1, body)
  {
    var n := |packet| + Padding(|packet|);
    var head := Crypt(l.key, l.pos, HeaderOf(|packet|));
    var l1 := AfterHeader(l, head);
    var body := Crypt(l1.key, l1.pos, packet + Zeros(Padding(|packet|)));
    var l2 := AfterBody(l1, body);
    hide Crypt, AfterHeader, AfterBody, HeaderOf, Padding;
    var w := head + Tag(l1.mac) + (body + Tag(l2.mac)) + more;
    assert w == Frame(l, packet).0 + more;
  }

  /** `tail` starts with the encrypted body of this packet and its tag. */
  ghost predicate StartsWithBody(l: Lane, packet: Bytes, tail: Bytes) {
    var n := |packet| + Padding(|packet|);
    var body := Crypt(l.key, l.pos, packet + Zeros(Padding(|packet|)));
    |tail| >= n + 16 && tail[..n + 16][..n] == body && tail[..n + 16][n..] == Tag(AfterBody(l, body).mac)
  }

  /** The padded frame has arrived, its tag is right and it holds a packet. */
  ghost predicate BodyGood(l: Lane, wire: Bytes, info: FrameInfo) {
    var n := info.length + info.padding;
    && |wire| >= n + 16
    && var cipher := wire[..n + 16][..n];
    && wire[..n + 16][n..] == Tag(AfterBody(l, cipher).mac)
    && CheckPacket(Crypt(l.key, l.pos, cipher)[..info.length])
  }

  /** All that a frame must satisfy to be delivered. */
  ghost predicate Accepts(l: Lane, wire: Bytes) {
    && |wire| >= 32
    && var io := wire[..32];
    var l1 := AfterHeader(l, io[..16]);
    && io[16..] == Tag(l1.mac)
    && var info := Info(Crypt(l.key, l.pos, io[..16]) + io[16..]);
    info.Some? && BodyGood(l1, wire[32..], info.value)
  }

  /** The second read of doRead: the padded frame and its tag. */
  method ReadBody(coder: FrameCoder, wire: Bytes, info: FrameInfo, ghost packet: Bytes)
    returns (r: ReadResult, rest: Bytes)
    modifies coder`decPos, coder`ingressMac
    ensures var l := old(coder.Ingress());
      var n := |packet| + Padding(|packet|);
      var body := Crypt(l.key, l.pos, packet + Zeros(Padding(|packet|)));
      && StartsWithBody(l, packet, wire) && CheckPacket(packet)
      && info.length == |packet| && info.padding == Padding(|packet|) ==>
        r == Packet(info.protocolId, packet) && rest == wire[n + 16..] && coder.Ingress() == AfterBody(l, body)
    ensures r.Packet? <==> BodyGood(old(coder.Ingress()), wire, info)
    ensures r.Packet? ==> |rest| < |wire|
  {
    ghost var l := coder.Ingress();
    CryptTwice(l.key, l.pos, packet + Zeros(Padding(|packet|)));
    hide AfterBody, Tag, UpdateMac, Crypt, CheckPacket, Padding;
    r, rest := Dropped, wire;
    var tlen := info.length + info.padding + 16;
    if |wire| < tlen { return; }
    var ok, plain := coder.AuthAndDecryptFrame(wire[..tlen]);
    if !ok { return; }
    var frame := plain[..info.length];
    assert frame == plain[..tlen - 16][..info.length];
    assert (packet + Zeros(Padding(|packet|)))[..|packet|] == packet;
    if !CheckPacket(frame) { return; }
    return Packet(info.protocolId, frame), wire[tlen..];
  }

  /** What the reader meets when an intact frame arrives. */
  lemma Arrived(l: Lane, packet: Bytes, more: Bytes)
    ensures var wire := Frame(l, packet).0 + more;
      && |wire| >= 32
      && var io := wire[..32];
      var l1 := AfterHeader(l, io[..16]);
      var n := |packet| + Padding(|packet|);
      && io[16..] == Tag(l1.mac) && Crypt(l.key, l.pos, io[..16]) == HeaderOf(|packet|)
      && StartsWithBody(l1, packet, wire[32..]) && wire[32..][n + 16..] == more
      && Frame(l, packet).1 == AfterBody(l1, Crypt(l1.key, l1.pos, packet + Zeros(Padding(|packet|))))
  {
    FrameParts(l, packet, more);
    CryptTwice(l.key, l.pos, HeaderOf(|packet|));
    hide Frame, Crypt, AfterHeader, AfterBody, HeaderOf;
    var wire, n := Frame(l, packet).0 + more, |packet| + Padding(|packet|);
    assert wire[32..][..n + 16] == wire[32..32 + n + 16] && wire[32..][n + 16..] == wire[32 + n + 16..];
  }

  /** One round of doRead on the bytes that have arrived; rest is what stays
      unread.  Dropped stands for every way of ending the session, a short read
      included.  An intact frame yields its packet and keeps the lanes in step;
      anything that fails one of the checks ends the session. */
  method ReadFrame(coder: FrameCoder, wire: Bytes, ghost packet: Bytes, ghost more: Bytes)
    returns (r: ReadResult, rest: Bytes)
    modifies coder`decPos, coder`ingressMac
    ensures var l := old(coder.Ingress());
      wire == Frame(l, packet).0 + more && |packet| < FRAME_LIMIT && CheckPacket(packet) ==>
        r == Packet(0, packet) && rest == more && coder.Ingress() == Frame(l, packet).1
    ensures r.Packet? ==> |rest| < |wire|
    ensures r.Packet? <==> Accepts(old(coder.Ingress()), wire)
  {
    ghost var l := coder.Ingress();
    ghost var intact := wire == Frame(l, packet).0 + more && |packet| < FRAME_LIMIT && CheckPacket(packet);
    Arrived(l, packet, more);
    hide Frame, Info, CheckPacket, HeaderOf, Tag, UpdateMac, StartsWithBody, Crypt, AfterBody, Padding, SizeIn;
    r, rest := Dropped, wire;
    if |wire| < 32 { return; }
    var ok, plain := coder.AuthAndDecryptHeader(wire[..32]);
    if !ok { return; }
    assert plain == Crypt(l.key, l.pos, wire[..32][..16]) + wire[..32][16..];
    if intact {
      assert plain == HeaderOf(|packet|) + plain[16..];
      InfoOfHeader(|packet|, plain[16..]);
    }
    var info := Info(plain);
    if info.None? { return; }
    r, rest := ReadBody(coder, wire[32..], info.value, packet);
  }

  /** A packet that the other side can read back. */
  predicate Sendable(packet: Bytes) { |packet| < FRAME_LIMIT && CheckPacket(packet) }

  /** The bytes are what a sender in this state writes for the packets, and
      leave its lane as `after`. */
  ghost predicate OnWire(l: Lane, wire: Bytes, packets: seq<Bytes>, after: Lane) {
    && Wire(l, packets) == (wire, after)
    && forall i | 0 <= i < |packets| :: Sendable(packets[i])
  }

  /** One round of the read loop: the first of the packets, if there are any. */
  method ReadNext(coder: FrameCoder, wire: Bytes, ghost packets: seq<Bytes>, ghost after: Lane)
    returns (r: ReadResult, rest: Bytes)
    modifies coder`decPos, coder`ingressMac
    ensures wire != [] && OnWire(old(coder.Ingress()), wire, packets, after) ==>
      && packets != [] && r == Packet(0, packets[0])
      && OnWire(coder.Ingress(), rest, packets[1..], after)
    ensures r.Packet? ==> |rest| < |wire|
  {
    WireHead(coder.Ingress(), packets);
    ghost var packet, more := First(packets), Behind(coder.Ingress(), packets);
    hide Frame, Wire;
    r, rest := ReadFrame(coder, wire, packet, more);
  }

  /** The read loop: packets until the bytes run out or the session ends. */
  method ReadAll(coder: FrameCoder, wire: Bytes, ghost packets: seq<Bytes>, ghost after: Lane)
    returns (got: seq<Bytes>)
    modifies coder`decPos, coder`ingressMac
    ensures OnWire(old(coder.Ingress()), wire, packets, after) ==> got == packets && coder.Ingress() == after
  {
    hide OnWire, Wire, Frame;
    ghost var intact, left := OnWire(coder.Ingress(), wire, packets, after), packets;
    WireEmpty(coder.Ingress(), packets, wire, after);
    got := [];
    var unread := wire;
    while unread != []
      invariant intact ==> got + left == packets && OnWire(coder.Ingress(), unread, left, after)
      invariant intact && unread == [] ==> left == [] && coder.Ingress() == after
      decreases |unread|
    {
      var r, rest := ReadNext(coder, unread, left, after);
      if r.Dropped? { return; }
      got, unread := got + [r.bytes], rest;
      left := if left == [] then [] else left[1..];
      WireEmpty(coder.Ingress(), left, unread, after);
    }
  }

  lemma WireEmpty(l: Lane, packets: seq<Bytes>, wire: Bytes, after: Lane)
    ensures OnWire(l, wire, packets, after) && wire == [] ==> packets == [] && l == after
  {
    if packets != [] { FrameNotEmpty(l, packets); }
  }

  /** The first packet of what is on the wire, and the bytes behind it. */
  function First(ps: seq<Bytes>): Bytes { if ps == [] then [] else ps[0] }

  function Behind(l: Lane, ps: seq<Bytes>): Bytes { if ps == [] then [] else Wire(Frame(l, ps[0]).1, ps[1..]).0 }

  lemma WireHead(l: Lane, ps: seq<Bytes>)
    ensures ps == [] ==> Wire(l, ps).0 == []
    ensures ps != [] ==>
      && Wire(l, ps).0 == Frame(l, First(ps)).0 + Behind(l, ps)
      && Behind(l, ps) == Wire(Frame(l, First(ps)).1, ps[1..]).0
      && Wire(l, ps).1 == Wire(Frame(l, First(ps)).1, ps[1..]).1
  {
  }

  lemma FrameNotEmpty(l: Lane, ps: seq<Bytes>)
    requires ps != []
    ensures Wire(l, ps).0 != []
  {
    FrameParts(l, ps[0], []);
    assert Frame(l, ps[0]).0 + [] == Frame(l, ps[0]).0;
    assert |Frame(l, ps[0]).0| > 0;
  }

  // ----- Writing -----

  /** The session's write queue.  Its front is the frame being written, framed
      in place; the packets behind it wait to be framed. */
  class Outbox {
    const io: FrameCoder
    var writeQueue: seq<Bytes>
    /** The lane when the session began, and every packet sent since. */
    ghost const start: Lane
    ghost var sent: seq<Bytes>
    /** How many of them have been framed. */
    ghost var framed: nat
    /** The bytes whose writing has completed: what the socket has carried. */
    var flushed: Bytes

    ghost predicate Valid()
      reads this, io
    {
      && framed <= |sent|
      && io.Egress() == Wire(start, sent[..framed]).1
      && (if writeQueue == [] then framed == |sent| && flushed == Wire(start, sent).0
          else
            && framed > 0 && flushed == Wire(start, sent[..framed - 1]).0
            && writeQueue[1..] == sent[framed..]
            && flushed + writeQueue[0] == Wire(start, sent[..framed]).0)
    }

    constructor (coder: FrameCoder)
      ensures Valid() && io == coder && start == coder.Egress() && sent == []
    {
      io, writeQueue := coder, [];
      start, sent, framed, flushed := coder.Egress(), [], 0, [];
    }

    /** write(): frames the front of the queue in place and starts writing it. */
    method Write()
      requires writeQueue != [] && framed < |sent| && writeQueue == sent[framed..]
      requires io.Egress() == Wire(start, sent[..framed]).1 && flushed == Wire(start, sent[..framed]).0
      modifies this`writeQueue, this`framed, io`encPos, io`egressMac
      ensures Valid() && framed == old(framed) + 1 && |writeQueue| == old(|writeQueue|)
    {
      WireAppends(start, sent[..framed], sent[framed]);
      hide Frame, Wire;
      assert sent[..framed] + [sent[framed]] == sent[..framed + 1];
      var out := io.WriteSingleFramePacket(writeQueue[0]);
      writeQueue := [out] + writeQueue[1..];
      framed := framed + 1;
    }

    /** send(): a packet joins the queue; an idle session starts writing. */
    method Send(msg: Bytes)
      requires Valid()
      modifies this`writeQueue, this`sent, this`framed, io`encPos, io`egressMac
      ensures Valid() && sent == old(sent) + [msg]
    {
      hide Wire;
      assert (sent + [msg])[..framed] == sent[..framed];
      if framed > 0 { assert (sent + [msg])[..framed - 1] == sent[..framed - 1]; }
      assert sent[..|sent|] == sent;
      writeQueue := writeQueue + [msg];
      sent := sent + [msg];
      if |writeQueue| == 1 { Write(); }
    }

    /** The completion of a write: the front leaves the queue, and the next
        packet, if any, is framed. */
    method Written()
      requires Valid() && writeQueue != []
      modifies this`writeQueue, this`framed, this`flushed, io`encPos, io`egressMac
      ensures Valid() && |writeQueue| == old(|writeQueue|) - 1
    {
      hide Wire;
      flushed := flushed + writeQueue[0];
      writeQueue := writeQueue[1..];
      if writeQueue == [] {
        assert sent[..framed] == sent;
        return;
      }
      Write();
    }

    /** At any time the bytes written are those of a prefix of what was sent. */
    lemma FlushedIsPrefix()
      requires Valid()
      ensures exists n: nat :: n <= |sent| && flushed == Wire(start, sent[..n]).0
    {
      var n := if writeQueue == [] then |sent| else framed - 1;
      assert sent[..|sent|] == sent;
      assert flushed == Wire(start, sent[..n]).0;
    }
  }

  /** Whatever was sent, in whatever order sends and completed writes followed
      each other: once the queue is empty, the peer reads exactly the packets
      sent, and both lanes are again in step. */
  method Deliver(out: Outbox, peer: FrameCoder) returns (got: seq<Bytes>)
    requires out.Valid() && out.writeQueue == [] && peer != out.io && peer.Ingress() == out.start
    requires forall i | 0 <= i < |out.sent| :: Sendable(out.sent[i])
    modifies peer`decPos, peer`ingressMac
    ensures got == out.sent && peer.Ingress() == out.io.Egress()
  {
    assert out.sent[..|out.sent|] == out.sent;
    got := ReadAll(peer, out.flushed, out.sent, out.io.Egress());
  }
}
