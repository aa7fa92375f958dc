/** Ethernet, IPv4 and UDP frames of common.c: built in place, parsed, and checked. */
module Frames {
  import opened Machine
  import opened Checksum
  import opened RecordFormat

  const ETH_HDR_LEN := 14
  const IPV4_HDR_LEN := 20
  const UDP_HDR_LEN := 8

  datatype Packet = Packet(
    dstMac: seq<Byte>, srcMac: seq<Byte>, srcIp: seq<Byte>, dstIp: seq<Byte>,
    srcPort: nat, dstPort: nat, withSeq: bool, seq_: nat, payload: seq<Byte>, hwChecksum: bool)

  /** The C types of the arguments. */
  predicate PacketOk(k: Packet)
  {
    && |k.dstMac| == |k.srcMac| == 6 && |k.srcIp| == |k.dstIp| == 4
    && k.srcPort < U16 && k.dstPort < U16 && k.seq_ < U64
    && |k.payload| < U32
  }

  function SeqLen(withSeq: bool): nat { if withSeq then 8 else 0 }

  function HdrLen(withSeq: bool): nat
  {
    ETH_HDR_LEN + IPV4_HDR_LEN + UDP_HDR_LEN + SeqLen(withSeq)
  }

  /** put_be16(), after the conversion to uint16_t. */
  function Bytes16(v: nat): (b: seq<Byte>)
    ensures |b| == 2 && Be16(b, 0) == v % U16
  {
    [v / 256 % 256, v % 256]
  }

  function Zeros(n: nat): (b: seq<Byte>)
    ensures |b| == n && forall i :: 0 <= i < n ==> b[i] == 0
  {
    seq(n, _ => 0)
  }

  // ---- The frame ----

  function Ethernet(k: Packet): seq<Byte>
  {
    k.dstMac + k.srcMac + Bytes16(0x0800)
  }

  function IpStart(total: nat): (b: seq<Byte>)
    requires total >= ETH_HDR_LEN
    ensures |b| == 10
  {
    [0x45, 0] + Bytes16(total - ETH_HDR_LEN) + [0, 0, 0, 0, 64, 17]
  }

  function IpHeader(k: Packet, total: nat, check: nat): seq<Byte>
    requires total >= ETH_HDR_LEN
  {
    IpStart(total) + Bytes16(check) + (k.srcIp + k.dstIp)
  }

  function UdpStart(k: Packet, total: nat): (b: seq<Byte>)
    requires total >= ETH_HDR_LEN + IPV4_HDR_LEN
    ensures |b| == 6
  {
    Bytes16(k.srcPort) + Bytes16(k.dstPort) + Bytes16(total - ETH_HDR_LEN - IPV4_HDR_LEN)
  }

  /** The optional sequence number, the payload, and zeros to the end of the frame. */
  function Content(k: Packet, total: nat): (b: seq<Byte>)
    requires total >= HdrLen(k.withSeq) + |k.payload|
    ensures |b| == total - ETH_HDR_LEN - IPV4_HDR_LEN - UDP_HDR_LEN
  {
    (if k.withSeq then BeBytes(k.seq_, 8) else []) + k.payload + Zeros(total - HdrLen(k.withSeq) - |k.payload|)
  }

  function Segment(k: Packet, total: nat, check: nat): seq<Byte>
    requires total >= HdrLen(k.withSeq) + |k.payload|
  {
    UdpStart(k, total) + Bytes16(check) + Content(k, total)
  }

  function IpCheck(k: Packet, total: nat): nat
    requires total >= HdrLen(k.withSeq) + |k.payload|
  {
    if k.hwChecksum then 0 else Complement(Words(IpHeader(k, total, 0)) % U32)
  }

  function UdpCheck(k: Packet, total: nat): nat
    requires total >= HdrLen(k.withSeq) + |k.payload|
  {
    if k.hwChecksum then 0 else
      var len := total - ETH_HDR_LEN - IPV4_HDR_LEN;
      NonZero(Complement((PseudoSum(k.srcIp, k.dstIp, len) + Words(Segment(k, total, 0))) % U32))
  }

  function Frame(k: Packet, total: nat): (b: seq<Byte>)
    requires PacketOk(k) && total >= HdrLen(k.withSeq) + |k.payload|
    ensures |b| == total
  {
    Ethernet(k) + IpHeader(k, total, IpCheck(k, total)) + Segment(k, total, UdpCheck(k, total))
  }

  // ---- Built in place ----

  function Patch(s: seq<Byte>, at: nat, b: seq<Byte>): (r: seq<Byte>)
    requires at + |b| <= |s|
    ensures |r| == |s|
  {
    s[..at] + b + s[at + |b|..]
  }

  lemma PatchNext(s: seq<Byte>, at: nat, a: seq<Byte>, b: seq<Byte>)
    requires at + |a| + |b| <= |s|
    ensures Patch(Patch(s, at, a), at + |a|, b) == Patch(s, at, a + b)
  {
  }

  lemma PatchInside(s: seq<Byte>, at: nat, a: seq<Byte>, b: seq<Byte>, b': seq<Byte>, c: seq<Byte>)
    requires at + |a + b + c| <= |s| && |b'| == |b|
    ensures Patch(Patch(s, at, a + b + c), at + |a|, b') == Patch(s, at, a + b' + c)
  {
  }

  /** memcpy(), and with zeros memset(). */
  method Put(buf: array<Byte>, at: nat, b: seq<Byte>)
    requires at + |b| <= buf.Length
    modifies buf
    ensures buf[..] == Patch(old(buf[..]), at, b)
  {
    for i := 0 to |b|
      invariant forall j :: 0 <= j < buf.Length ==> buf[j] == if at <= j < at + i then b[j - at] else old(buf[j])
    {
      buf[at + i] := b[i];
    }
  }

  method PutEthernet(buf: array<Byte>, k: Packet)
    requires PacketOk(k) && 14 <= buf.Length
    modifies buf
    ensures buf[..] == Patch(old(buf[..]), 0, Ethernet(k))
  {
    hide Patch;
    ghost var s := buf[..];
    Put(buf, 0, k.dstMac);
    Put(buf, 6, k.srcMac);
    PatchNext(s, 0, k.dstMac, k.srcMac);
    Put(buf, 12, Bytes16(0x0800));
    PatchNext(s, 0, k.dstMac + k.srcMac, Bytes16(0x0800));
  }

  /** The IPv4 header, with its checksum still zero. */
  method PutIp(buf: array<Byte>, k: Packet, total: nat)
    requires PacketOk(k) && 14 <= total && 34 <= buf.Length
    modifies buf
    ensures buf[..] == Patch(old(buf[..]), 14, IpHeader(k, total, 0))
  {
    hide Patch, Bytes16;
    ghost var s := buf[..];
    Put(buf, 14, [0x45, 0]);
    Put(buf, 16, Bytes16(total - ETH_HDR_LEN));
    PatchNext(s, 14, [0x45, 0], Bytes16(total - ETH_HDR_LEN));
    Put(buf, 18, [0, 0, 0, 0, 64, 17]);
    PatchNext(s, 14, [0x45, 0] + Bytes16(total - ETH_HDR_LEN), [0, 0, 0, 0, 64, 17]);
    Put(buf, 24, Bytes16(0));
    PatchNext(s, 14, IpStart(total), Bytes16(0));
    Put(buf, 26, k.srcIp);
    PatchNext(s, 14, IpStart(total) + Bytes16(0), k.srcIp);
    Put(buf, 30, k.dstIp);
    PatchNext(s, 14, IpStart(total) + Bytes16(0) + k.srcIp, k.dstIp);
    assert IpStart(total) + Bytes16(0) + k.srcIp + k.dstIp == IpHeader(k, total, 0);
  }

  /** The UDP segment, with its checksum still zero. */
  method PutSegment(buf: array<Byte>, k: Packet, total: nat)
    requires PacketOk(k) && HdrLen(k.withSeq) + |k.payload| <= total <= buf.Length
    modifies buf
    ensures buf[..] == Patch(old(buf[..]), 34, Segment(k, total, 0))
  {
    hide Patch, Bytes16, BeBytes;
    ghost var s := buf[..];
    var len := total - ETH_HDR_LEN - IPV4_HDR_LEN;
    Put(buf, 34, Bytes16(k.srcPort));
    Put(buf, 36, Bytes16(k.dstPort));
    PatchNext(s, 34, Bytes16(k.srcPort), Bytes16(k.dstPort));
    Put(buf, 38, Bytes16(len));
    PatchNext(s, 34, Bytes16(k.srcPort) + Bytes16(k.dstPort), Bytes16(len));
    Put(buf, 40, Bytes16(0));
    PatchNext(s, 34, UdpStart(k, total), Bytes16(0));
    PutContent(buf, k, total);
    PatchNext(s, 34, UdpStart(k, total) + Bytes16(0), Content(k, total));
  }

  method PutContent(buf: array<Byte>, k: Packet, total: nat)
    requires PacketOk(k) && HdrLen(k.withSeq) + |k.payload| <= total <= buf.Length
    modifies buf
    ensures buf[..] == Patch(old(buf[..]), 42, Content(k, total))
  {
    hide Patch, BeBytes;
    ghost var s := buf[..];
    ghost var head: seq<Byte> := if k.withSeq then BeBytes(k.seq_, 8) else [];
    if k.withSeq {
      Put(buf, 42, BeBytes(k.seq_, 8));
    } else {
      Put(buf, 42, []);
    }
    Put(buf, HdrLen(k.withSeq), k.payload);
    PatchNext(s, 42, head, k.payload);
    var used := HdrLen(k.withSeq) + |k.payload|;
    Put(buf, used, Zeros(total - used));
    PatchNext(s, 42, head + k.payload, Zeros(total - used));
  }

  /** app_build_packet(): -1 exactly when the frame is too small for its content, as summed in 32
      bits, or too large for the buffer, and then nothing is written. A sum that wraps into the
      accepted range would be a write past the buffer: it is the caller's to rule out. */
  method AppBuildPacket(buf: array<Byte>, capacity: nat, total: nat, k: Packet) returns (r: int)
    requires PacketOk(k) && capacity <= buf.Length && total < U32
    requires (HdrLen(k.withSeq) + |k.payload|) % U32 <= total <= capacity ==> HdrLen(k.withSeq) + |k.payload| <= total
    modifies buf
    ensures r == 0 || r == -1
    ensures r == 0 <==> (HdrLen(k.withSeq) + |k.payload|) % U32 <= total <= capacity
    ensures r == 0 ==> buf[..] == Frame(k, total) + old(buf[total..])
    ensures r == -1 ==> buf[..] == old(buf[..])
  {
    hide Patch, Ethernet, IpStart, UdpStart, Bytes16, Content, Words, Complement, NonZero, PseudoSum;
    if total < (HdrLen(k.withSeq) + |k.payload|) % U32 || total > capacity {
      return -1;
    }
    ghost var s := buf[..];
    ghost var e, h0, h := Ethernet(k), IpHeader(k, total, 0), IpHeader(k, total, IpCheck(k, total));
    PartLengths(k, total);
    PutEthernet(buf, k);
    PutIp(buf, k, total);
    PatchNext(s, 0, e, h0);
    if !k.hwChecksum {
      PatchedSlice(s, e, h0, []);
      var check := IpChecksum(buf, 14, 20);
      Put(buf, 24, Bytes16(check));
    }
    IpPatched(s, k, total);
    PutSegment(buf, k, total);
    PatchNext(s, 0, e + h, Segment(k, total, 0));
    if !k.hwChecksum {
      PatchedSlice(s, e + h, Segment(k, total, 0), []);
      var check := UdpChecksum(k.srcIp, k.dstIp, buf, 34, total - 34);
      Put(buf, 40, Bytes16(check));
    }
    SegmentPatched(s, k, total);
    PatchedWhole(s, Frame(k, total));
    r := 0;
  }

  lemma PartLengths(k: Packet, total: nat)
    requires PacketOk(k) && HdrLen(k.withSeq) + |k.payload| <= total
    ensures |Ethernet(k)| == 14 && forall c: nat :: |IpHeader(k, total, c)| == 20
    ensures forall c: nat :: |Segment(k, total, c)| == total - 34
  {
  }

  lemma PatchedSlice(s: seq<Byte>, a: seq<Byte>, b: seq<Byte>, c: seq<Byte>)
    requires |a + b| <= |s|
    ensures Patch(s, 0, a + b)[|a|..|a| + |b|] == b
  {
  }

  lemma PatchedWhole(s: seq<Byte>, b: seq<Byte>)
    requires |b| <= |s|
    ensures Patch(s, 0, b) == b + s[|b|..]
  {
  }

  lemma IpPatched(s: seq<Byte>, k: Packet, total: nat)
    requires PacketOk(k) && HdrLen(k.withSeq) + |k.payload| <= total <= |s|
    ensures var e := Ethernet(k);
      var h0, h := IpHeader(k, total, 0), IpHeader(k, total, IpCheck(k, total));
      && |e| == 14 && |h0| == |h| == 20
      && (k.hwChecksum ==> h == h0)
      && Patch(Patch(s, 0, e + h0), 24, Bytes16(IpCheck(k, total))) == Patch(s, 0, e + h)
  {
    hide Patch, IpCheck, Bytes16, IpStart;
    var e, addresses := Ethernet(k), k.srcIp + k.dstIp;
    var check := IpCheck(k, total);
    assert k.hwChecksum ==> check == 0 by { IpCheckIs(k, total); }
    PatchInside(s, 0, e + IpStart(total), Bytes16(0), Bytes16(check), addresses);
    assert (e + IpStart(total)) + Bytes16(0) + addresses == e + IpHeader(k, total, 0);
    assert (e + IpStart(total)) + Bytes16(check) + addresses == e + IpHeader(k, total, check);
  }

  lemma IpCheckIs(k: Packet, total: nat)
    requires HdrLen(k.withSeq) + |k.payload| <= total
    ensures k.hwChecksum ==> IpCheck(k, total) == 0 && UdpCheck(k, total) == 0
  {
  }

  lemma SegmentPatched(s: seq<Byte>, k: Packet, total: nat)
    requires PacketOk(k) && HdrLen(k.withSeq) + |k.payload| <= total <= |s|
    ensures var e := Ethernet(k) + IpHeader(k, total, IpCheck(k, total));
      var g0, g := Segment(k, total, 0), Segment(k, total, UdpCheck(k, total));
      && |e| == 34 && |g0| == |g| == total - 34 && Frame(k, total) == e + g
      && (k.hwChecksum ==> g == g0)
      && Patch(Patch(s, 0, e + g0), 40, Bytes16(UdpCheck(k, total))) == Patch(s, 0, e + g)
  {
    hide Patch, IpCheck, UdpCheck, Bytes16, UdpStart, Content;
    var e := Ethernet(k) + IpHeader(k, total, IpCheck(k, total));
    var check, content := UdpCheck(k, total), Content(k, total);
    assert k.hwChecksum ==> check == 0 by { IpCheckIs(k, total); }
    PatchInside(s, 0, e + UdpStart(k, total), Bytes16(0), Bytes16(check), content);
    assert (e + UdpStart(k, total)) + Bytes16(0) + content == e + Segment(k, total, 0);
    assert (e + UdpStart(k, total)) + Bytes16(check) + content == e + Segment(k, total, check);
  }
}
