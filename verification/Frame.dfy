/**
 The frame builder of src/protocol.cc: an Ethernet, IPv4 (RFC 791, section 3.1) and UDP (RFC 768)
 frame written field by field into a buffer.
 */
module Frames {
  import opened Checksums

  const ETH_P_IP := 0x0800
  const IP4_HDRLEN := 20
  const UDP_HDRLEN := 8
  const IPPROTO_UDP: Byte := 17
  const IP_MAXPACKET := 65535
  const IP_AT := 14
  const UDP_AT := 34
  const MESSAGE_AT := 42

  /** `htons` on a little-endian host: truncation to 16 bits, then the bytes exchanged. */
  function Htons(x: int): Word {
    Swap(x % 0x1_0000)
  }

  datatype Addressing = Addressing(
    srcMac: seq<Byte>, dstMac: seq<Byte>, srcIp: Word32, dstIp: Word32, srcPort: int, dstPort: int)
  {
    ghost predicate Valid() {
      |srcMac| == 6 && |dstMac| == 6
    }

    function UdpHeaders(datalen: int): Headers {
      Headers(srcIp, dstIp, IPPROTO_UDP, Htons(srcPort), Htons(dstPort), Htons(UDP_HDRLEN + datalen))
    }
  }

  // ---------- The frame as a value ----------

  function IpBeforeSum(datalen: int): (b: seq<Byte>)
    ensures |b| == 10
  {
    [0x45, 0] + Image16(Htons(IP4_HDRLEN + UDP_HDRLEN + datalen)) + [0, 0, 0, 0, 255, IPPROTO_UDP]
  }

  function IpAfterSum(a: Addressing): (b: seq<Byte>)
    ensures |b| == 8
  {
    Image32(a.srcIp) + Image32(a.dstIp)
  }

  function IpHeader(a: Addressing, datalen: int, sum: Word): (b: seq<Byte>)
    ensures |b| == IP4_HDRLEN
  {
    IpBeforeSum(datalen) + Image16(sum) + IpAfterSum(a)
  }

  function EthernetHeader(a: Addressing): (b: seq<Byte>)
    ensures a.Valid() ==> |b| == IP_AT
  {
    a.dstMac + a.srcMac + [ETH_P_IP / 256, ETH_P_IP % 256]
  }

  /** The frame carrying `message`, of which the first `checksumLength` bytes are checksummed. */
  function FrameOf(a: Addressing, message: seq<Byte>, checksummed: seq<Byte>): seq<Byte> {
    var datalen := |message|;
    EthernetHeader(a)
    + IpHeader(a, datalen, ChecksumOf(IpHeader(a, datalen, 0)))
    + UdpHeader(a.UdpHeaders(datalen), UdpChecksumOf(a.UdpHeaders(datalen), checksummed))
    + message
  }

  // ---------- Building it in place ----------

  /** What is stored at `at`, with everything else as before. */
  function Splice(b: seq<Byte>, at: nat, bytes: seq<Byte>): (r: seq<Byte>)
    requires at + |bytes| <= |b|
    ensures |r| == |b|
  {
    b[..at] + bytes + b[at + |bytes|..]
  }

  lemma SpliceNext(b: seq<Byte>, at: nat, x: seq<Byte>, y: seq<Byte>)
    requires at + |x| + |y| <= |b|
    ensures Splice(Splice(b, at, x), at + |x|, y) == Splice(b, at, x + y)
  {
  }

  /** `memcpy` into the frame. */
  method Copy(frame: array<Byte>, at: nat, bytes: seq<Byte>)
    requires at + |bytes| <= frame.Length
    modifies frame
    ensures frame[..] == Splice(old(frame[..]), at, bytes)
  {
    var i := 0;
    while i < |bytes|
      invariant 0 <= i <= |bytes|
      invariant frame[..] == Splice(old(frame[..]), at, bytes[..i])
    {
      frame[at + i] := bytes[i];
      i := i + 1;
    }
  }

  method StoreWord(frame: array<Byte>, at: nat, w: Word)
    requires at + 2 <= frame.Length
    modifies frame
    ensures frame[..] == Splice(old(frame[..]), at, Image16(w))
  {
    frame[at], frame[at + 1] := w % 256, w / 256;
  }

  method StoreWord32(frame: array<Byte>, at: nat, w: Word32)
    requires at + 4 <= frame.Length
    modifies frame
    ensures frame[..] == Splice(old(frame[..]), at, Image32(w))
  {
    frame[at], frame[at + 1] := w % 0x1_0000 % 256, w % 0x1_0000 / 256;
    frame[at + 2], frame[at + 3] := w / 0x1_0000 % 256, w / 0x1_0000 / 256;
  }

  /** The IP header, field by field, with its checksum computed last over a zero sum field. */
  method FillIpHeader(frame: array<Byte>, a: Addressing, datalen: nat)
    requires frame.Length >= UDP_AT
    modifies frame
    ensures frame[..] == Splice(old(frame[..]), IP_AT, IpHeader(a, datalen, ChecksumOf(IpHeader(a, datalen, 0))))
  {
    ghost var before := frame[..];
    FillIpFields(frame, a, datalen);
    ghost var unsummed := frame[..];
    assert frame[IP_AT..UDP_AT] == IpHeader(a, datalen, 0);
    var sum := Checksum(frame, IP_AT, IP4_HDRLEN);
    StoreWord(frame, 24, sum);
    FillSum(before, unsummed, a, datalen, sum);
  }

  method FillIpFields(frame: array<Byte>, a: Addressing, datalen: nat)
    requires frame.Length >= UDP_AT
    modifies frame
    ensures frame[..] == Splice(old(frame[..]), IP_AT, IpHeader(a, datalen, 0))
  {
    ghost var b := frame[..];
    Copy(frame, IP_AT, [IP4_HDRLEN / 4 + 16 * 4, 0]);
    ghost var x1: seq<Byte> := [0x45, 0];
    StoreWord(frame, 16, Htons(IP4_HDRLEN + UDP_HDRLEN + datalen));
    ghost var x2 := Image16(Htons(IP4_HDRLEN + UDP_HDRLEN + datalen));
    SpliceNext(b, IP_AT, x1, x2);
    Copy(frame, 18, [0, 0, 0, 0, 255, IPPROTO_UDP]);
    SpliceNext(b, IP_AT, x1 + x2, [0, 0, 0, 0, 255, IPPROTO_UDP]);
    assert frame[..] == Splice(b, IP_AT, IpBeforeSum(datalen));
    StoreWord(frame, 24, 0);
    SpliceNext(b, IP_AT, IpBeforeSum(datalen), Image16(0));
    StoreWord32(frame, 26, a.srcIp);
    StoreWord32(frame, 30, a.dstIp);
    ghost var x3 := IpBeforeSum(datalen) + Image16(0);
    SpliceNext(b, IP_AT, x3, Image32(a.srcIp));
    SpliceNext(b, IP_AT, x3 + Image32(a.srcIp), Image32(a.dstIp));
    assert x3 + Image32(a.srcIp) + Image32(a.dstIp) == IpHeader(a, datalen, 0);
  }

  lemma FillSum(before: seq<Byte>, unsummed: seq<Byte>, a: Addressing, datalen: nat, sum: Word)
    requires |before| == |unsummed| >= UDP_AT
    requires unsummed == Splice(before, IP_AT, IpHeader(a, datalen, 0))
    ensures Splice(unsummed, 24, Image16(sum)) == Splice(before, IP_AT, IpHeader(a, datalen, sum))
  {
  }

  method FillEthernet(frame: array<Byte>, a: Addressing)
    requires a.Valid() && frame.Length >= IP_AT
    modifies frame
    ensures frame[..] == Splice(old(frame[..]), 0, EthernetHeader(a))
  {
    ghost var b := frame[..];
    Copy(frame, 0, a.dstMac);
    Copy(frame, 6, a.srcMac);
    Copy(frame, 12, [ETH_P_IP / 256, ETH_P_IP % 256]);
    SpliceNext(b, 0, a.dstMac, a.srcMac);
    SpliceNext(b, 0, a.dstMac + a.srcMac, [ETH_P_IP / 256, ETH_P_IP % 256]);
  }

  method FillUdpHeader(frame: array<Byte>, h: Headers, message: array<Byte>, checksumLength: int)
    requires frame.Length >= MESSAGE_AT && frame != message && checksumLength <= message.Length
    modifies frame
    ensures var checksummed := message[..if checksumLength < 0 then 0 else checksumLength];
            frame[..] == Splice(old(frame[..]), UDP_AT, UdpHeader(h, UdpChecksumOf(h, checksummed)))
  {
    ghost var b := frame[..];
    StoreWord(frame, 34, h.source);
    StoreWord(frame, 36, h.dest);
    StoreWord(frame, 38, h.len);
    ghost var x1 := Image16(h.source) + Image16(h.dest);
    SpliceNext(b, UDP_AT, Image16(h.source), Image16(h.dest));
    SpliceNext(b, UDP_AT, x1, Image16(h.len));
    ghost var unsummed := frame[..];
    StoreWord(frame, 40, 0);
    var udpcs := Udp4Checksum2(h, message, checksumLength);
    StoreWord(frame, 40, udpcs);
    assert frame[..] == Splice(unsummed, 40, Image16(udpcs));
    SpliceNext(b, UDP_AT, x1 + Image16(h.len), Image16(udpcs));
  }

  method BuildFrame(frame: array<Byte>, a: Addressing, message: array<Byte>, datalen: int, checksumLength: int)
    returns (frameLength: int)
    requires a.Valid() && frame.Length == MESSAGE_AT + IP_MAXPACKET && frame != message
    requires 0 <= datalen <= IP_MAXPACKET && datalen <= message.Length && checksumLength <= message.Length
    modifies frame
    ensures frameLength == MESSAGE_AT + datalen
    ensures frame[..] == Splice(old(frame[..]), 0,
                                FrameOf(a, message[..datalen], message[..ChecksumLength(datalen, checksumLength)]))
  {
    ghost var b := frame[..];
    var summed := if checksumLength == 0 then datalen else checksumLength;
    frameLength := 6 + 6 + 2 + IP4_HDRLEN + UDP_HDRLEN + datalen;
    FillEthernet(frame, a);
    ghost var x1 := EthernetHeader(a);
    FillIpHeader(frame, a, datalen);
    ghost var ip := IpHeader(a, datalen, ChecksumOf(IpHeader(a, datalen, 0)));
    SpliceNext(b, 0, x1, ip);
    var h := a.UdpHeaders(datalen);
    FillUdpHeader(frame, h, message, summed);
    ghost var udp := UdpHeader(h, UdpChecksumOf(h, message[..ChecksumLength(datalen, checksumLength)]));
    SpliceNext(b, 0, x1 + ip, udp);
    Copy(frame, MESSAGE_AT, message[..datalen]);
    SpliceNext(b, 0, x1 + ip + udp, message[..datalen]);
  }

  /** How much of the message is checksummed: 0 stands for all of it. */
  function ChecksumLength(datalen: nat, checksumLength: int): nat {
    if checksumLength == 0 then datalen else if checksumLength < 0 then 0 else checksumLength
  }

  // ---------- What a receiver finds ----------

  /** Re-running `checksum` over the 20-byte IP header of any frame gives 0. */
  lemma IpHeaderVerifies(a: Addressing, message: seq<Byte>, checksummed: seq<Byte>)
    requires a.Valid()
    ensures ChecksumOf(FrameOf(a, message, checksummed)[IP_AT..UDP_AT]) == 0
  {
    var datalen := |message|;
    var front, back := IpBeforeSum(datalen), IpAfterSum(a);
    assert FrameOf(a, message, checksummed)[IP_AT..UDP_AT]
           == IpHeader(a, datalen, ChecksumOf(IpHeader(a, datalen, 0)));
    FirstWordPositive(front);
    ChecksumVerifies(front, back);
  }

  lemma {:induction false} FirstWordPositive(b: seq<Byte>)
    requires |b| >= 2 && |b| % 2 == 0 && WordAt(b, 0) > 0
    ensures Total(b) > 0
  {
    WordSumPrefix(b[..2], b[2..], 1);
    assert b[..2] + b[2..] == b;
    assert WordSum(b, 1) == WordSum(b, 0) + WordAt(b, 0);
    WordSumMonotone(b, 1, |b| / 2);
  }

  lemma {:induction false} WordSumMonotone(b: seq<Byte>, m: nat, n: nat)
    requires m <= n && 2 * n <= |b|
    ensures WordSum(b, m) <= WordSum(b, n)
    decreases n
  {
    if m < n { WordSumMonotone(b, m, n - 1); }
  }

  /** What a receiver reads in a frame: the Ethernet header, the IP header of section 3.1 of RFC 791, without
      options, and the UDP header of RFC 768. */
  datatype Received = Received(
    dstMac: seq<Byte>, srcMac: seq<Byte>, etherType: Word,
    version: int, headerWords: int, service: Byte, totalLength: Word, identification: Word, fragment: Word,
    timeToLive: Byte, protocol: Byte, srcIp: Word32, dstIp: Word32,
    srcPort: Word, dstPort: Word, udpLength: Word, payload: seq<Byte>)

  /** A 16-bit field: the more significant byte comes first. */
  function Field16(b: seq<Byte>, at: nat): Word
    requires at + 2 <= |b|
  {
    256 * (b[at] as int) + b[at + 1]
  }

  /** An `in_addr`, as it lies in memory. */
  function Address(b: seq<Byte>, at: nat): Word32
    requires at + 4 <= |b|
  {
    b[at] + 0x100 * (b[at + 1] as int) + 0x1_0000 * (b[at + 2] as int) + 0x100_0000 * (b[at + 3] as int)
  }

  function Receive(frame: seq<Byte>): Received
    requires |frame| >= MESSAGE_AT
  {
    Received(
      frame[0..6], frame[6..12], Field16(frame, 12),
      frame[14] / 16, frame[14] % 16, frame[15], Field16(frame, 16), Field16(frame, 18), Field16(frame, 20),
      frame[22], frame[23], Address(frame, 26), Address(frame, 30),
      Field16(frame, 34), Field16(frame, 36), Field16(frame, 38), frame[42..])
  }

  /** A receiver reads what was sent: IPv4 with a header of 5 words, no fragment, UDP, the addresses and
      ports, the lengths of the IP packet and the datagram, and the message. */
  lemma ReceivedAsSent(a: Addressing, message: seq<Byte>, checksummed: seq<Byte>)
    requires a.Valid()
    ensures |FrameOf(a, message, checksummed)| == MESSAGE_AT + |message|
    ensures Receive(FrameOf(a, message, checksummed))
            == Received(a.dstMac, a.srcMac, 0x0800, 4, 5, 0, (28 + |message|) % 0x1_0000, 0, 0, 255, 17,
                        a.srcIp, a.dstIp, a.srcPort % 0x1_0000, a.dstPort % 0x1_0000, (8 + |message|) % 0x1_0000,
                        message)
  {
    var frame := FrameOf(a, message, checksummed);
    FrameParts(a, message, checksummed);
    EthernetReads(a);
    IpReads(a, |message|, ChecksumOf(IpHeader(a, |message|, 0)));
    UdpReads(a, |message|, UdpChecksumOf(a.UdpHeaders(|message|), checksummed));
    assert frame[0..6] == frame[..IP_AT][0..6] && frame[6..12] == frame[..IP_AT][6..12];
    FieldOf(frame, 0, IP_AT, 12);
    FieldOf(frame, IP_AT, UDP_AT, 2);
    FieldOf(frame, IP_AT, UDP_AT, 4);
    FieldOf(frame, IP_AT, UDP_AT, 6);
    AddressOf(frame, IP_AT, UDP_AT, 12);
    AddressOf(frame, IP_AT, UDP_AT, 16);
    FieldOf(frame, UDP_AT, MESSAGE_AT, 0);
    FieldOf(frame, UDP_AT, MESSAGE_AT, 2);
    FieldOf(frame, UDP_AT, MESSAGE_AT, 4);
    assert frame[14] == frame[IP_AT..UDP_AT][0] && frame[15] == frame[IP_AT..UDP_AT][1];
    assert frame[22] == frame[IP_AT..UDP_AT][8] && frame[23] == frame[IP_AT..UDP_AT][9];
  }

  lemma FrameParts(a: Addressing, message: seq<Byte>, checksummed: seq<Byte>)
    requires a.Valid()
    ensures var frame, h := FrameOf(a, message, checksummed), a.UdpHeaders(|message|);
            && |frame| == MESSAGE_AT + |message|
            && frame[..IP_AT] == EthernetHeader(a)
            && frame[IP_AT..UDP_AT] == IpHeader(a, |message|, ChecksumOf(IpHeader(a, |message|, 0)))
            && frame[UDP_AT..MESSAGE_AT] == UdpHeader(h, UdpChecksumOf(h, checksummed))
            && frame[MESSAGE_AT..] == message
  {
    var h := a.UdpHeaders(|message|);
    FourParts(EthernetHeader(a), IpHeader(a, |message|, ChecksumOf(IpHeader(a, |message|, 0))),
              UdpHeader(h, UdpChecksumOf(h, checksummed)), message);
  }

  lemma FourParts(x: seq<Byte>, y: seq<Byte>, z: seq<Byte>, w: seq<Byte>)
    ensures var b := x + y + z + w;
            && b[..|x|] == x && b[|x|..|x| + |y|] == y
            && b[|x| + |y|..|x| + |y| + |z|] == z && b[|x| + |y| + |z|..] == w
  {
  }

  lemma FieldOf(b: seq<Byte>, from: nat, to: nat, at: nat)
    requires from + at + 2 <= to <= |b|
    ensures Field16(b, from + at) == Field16(b[from..to], at)
  {
  }

  lemma AddressOf(b: seq<Byte>, from: nat, to: nat, at: nat)
    requires from + at + 4 <= to <= |b|
    ensures Address(b, from + at) == Address(b[from..to], at)
  {
  }

  lemma HtonsReads(x: int)
    ensures Field16(Image16(Htons(x)), 0) == x % 0x1_0000
  {
  }

  lemma ImageReads(w: Word32)
    ensures Address(Image32(w), 0) == w
  {
  }

  lemma EthernetReads(a: Addressing)
    requires a.Valid()
    ensures var b := EthernetHeader(a); b[0..6] == a.dstMac && b[6..12] == a.srcMac && Field16(b, 12) == 0x0800
  {
  }

  lemma IpReads(a: Addressing, datalen: nat, sum: Word)
    ensures var b := IpHeader(a, datalen, sum);
            && b[0] == 0x45 && b[1] == 0 && Field16(b, 2) == (28 + datalen) % 0x1_0000
            && Field16(b, 4) == 0 && Field16(b, 6) == 0 && b[8] == 255 && b[9] == 17
            && Address(b, 12) == a.srcIp && Address(b, 16) == a.dstIp
  {
    HtonsReads(IP4_HDRLEN + UDP_HDRLEN + datalen);
    ImageReads(a.srcIp);
    ImageReads(a.dstIp);
    var b := IpHeader(a, datalen, sum);
    assert b[2..4] == Image16(Htons(IP4_HDRLEN + UDP_HDRLEN + datalen));
    assert b[12..16] == Image32(a.srcIp) && b[16..20] == Image32(a.dstIp);
    FieldOf(b, 2, 4, 0);
    AddressOf(b, 12, 16, 0);
    AddressOf(b, 16, 20, 0);
  }

  lemma UdpReads(a: Addressing, datalen: nat, check: Word)
    ensures var b := UdpHeader(a.UdpHeaders(datalen), check);
            && Field16(b, 0) == a.srcPort % 0x1_0000 && Field16(b, 2) == a.dstPort % 0x1_0000
            && Field16(b, 4) == (8 + datalen) % 0x1_0000
  {
    HtonsReads(a.srcPort);
    HtonsReads(a.dstPort);
    HtonsReads(UDP_HDRLEN + datalen);
    var b := UdpHeader(a.UdpHeaders(datalen), check);
    assert b[0..2] == Image16(Htons(a.srcPort)) && b[2..4] == Image16(Htons(a.dstPort));
    assert b[4..6] == Image16(Htons(UDP_HDRLEN + datalen));
    FieldOf(b, 0, 2, 0);
    FieldOf(b, 2, 4, 0);
    FieldOf(b, 4, 6, 0);
  }

  /** The pseudo-header of RFC 768, read off the frame: both addresses, a zero byte, the protocol, and the
      length of the datagram. */
  function PseudoHeaderIn(frame: seq<Byte>): seq<Byte>
    requires |frame| >= MESSAGE_AT
  {
    frame[26..34] + [0, frame[23]] + frame[38..40]
  }

  lemma PseudoHeaderRead(a: Addressing, message: seq<Byte>, checksummed: seq<Byte>)
    requires a.Valid()
    ensures |FrameOf(a, message, checksummed)| >= MESSAGE_AT
    ensures PseudoHeaderIn(FrameOf(a, message, checksummed)) == PseudoHeader(a.UdpHeaders(|message|))
  {
    var frame, h := FrameOf(a, message, checksummed), a.UdpHeaders(|message|);
    FrameParts(a, message, checksummed);
    var ip, udp := frame[IP_AT..UDP_AT], frame[UDP_AT..MESSAGE_AT];
    assert frame[26..34] == ip[12..20] == Image32(a.srcIp) + Image32(a.dstIp);
    assert frame[38..40] == udp[4..6] == Image16(h.len);
    assert frame[23] == ip[9] == IPPROTO_UDP;
  }

  /** The receiver's sum over pseudo-header, UDP header and whole payload folds to 0xffff, provided the
      whole message is checksummed and its length is even, or it is zero beyond an even checksummed prefix. */
  lemma UdpVerifies(a: Addressing, message: seq<Byte>, checksumLength: nat)
    requires a.Valid() && checksumLength <= |message| <= IP_MAXPACKET
    requires if checksumLength == 0 then |message| % 2 == 0
             else checksumLength % 2 == 0 && ZeroFrom(message, checksumLength)
    ensures var n := ChecksumLength(|message|, checksumLength);
            n <= |message| &&
            var frame := FrameOf(a, message, message[..n]);
            |frame| >= MESSAGE_AT && Fold(Total(PseudoHeaderIn(frame) + frame[UDP_AT..])) == 0xFFFF
  {
    var n := ChecksumLength(|message|, checksumLength);
    PseudoHeaderRead(a, message, message[..n]);
    UdpPart(a, message, message[..n]);
    DatagramVerifies(a.UdpHeaders(|message|), message, n);
  }

  /** What the receiver sums is the datagram. */
  lemma UdpPart(a: Addressing, message: seq<Byte>, checksummed: seq<Byte>)
    requires a.Valid()
    ensures var h := a.UdpHeaders(|message|);
            PseudoHeader(h) + FrameOf(a, message, checksummed)[UDP_AT..]
            == Datagram(h, UdpChecksumOf(h, checksummed), message)
  {
    var datalen := |message|;
    var x := EthernetHeader(a) + IpHeader(a, datalen, ChecksumOf(IpHeader(a, datalen, 0)));
    var h := a.UdpHeaders(datalen);
    var y := UdpHeader(h, UdpChecksumOf(h, checksummed));
    DropFirst(x, y, message, PseudoHeader(h));
  }

  lemma DropFirst(x: seq<Byte>, y: seq<Byte>, z: seq<Byte>, w: seq<Byte>)
    ensures w + (x + y + z)[|x|..] == w + y + z
  {
    assert (x + y + z)[|x|..] == y + z;
  }
}
