/** What a receiver finds in the frames that common.c builds. */
module FrameChecks {
  import opened Machine
  import opened Options
  import opened Checksum
  import opened Frames
  import opened RecordFormat

  /** A parsed frame; the payload stays in the buffer, from position at. */
  datatype Parsed = Parsed(dstPort: nat, seq_: nat, at: nat, len: nat)

  function HighNibble(b: Byte): nat { b / 16 }
  function LowNibble(b: Byte): nat { b % 16 }

  /** app_parse_packet(). */
  function AppParsePacket(b: seq<Byte>, withSeq: bool): (r: Option<Parsed>)
    ensures r.Some? ==> r.value.at + r.value.len <= |b|
  {
    if |b| < ETH_HDR_LEN + IPV4_HDR_LEN then None
    else if Be16(b, 12) != 0x0800 || HighNibble(b[ETH_HDR_LEN]) != 4 then None
    else
      var ipHdrLen := LowNibble(b[ETH_HDR_LEN]) * 4;
      if ipHdrLen < IPV4_HDR_LEN || |b| < ETH_HDR_LEN + ipHdrLen + UDP_HDR_LEN then None
      else if b[ETH_HDR_LEN + 9] != 17 then None
      else ParseUdp(b, ETH_HDR_LEN + ipHdrLen, withSeq)
  }

  function ParseUdp(b: seq<Byte>, udp: nat, withSeq: bool): (r: Option<Parsed>)
    requires udp + UDP_HDR_LEN <= |b|
    ensures r.Some? ==> r.value.at + r.value.len <= |b|
  {
    var udpLen := Be16(b, udp + 4);
    if udpLen < UDP_HDR_LEN + SeqLen(withSeq) || udp + udpLen > |b| then None
    else
      var body := udp + UDP_HDR_LEN;
      var n := if withSeq then Be(b[body..body + 8]) else 0;
      Some(Parsed(Be16(b, udp + 2), n, body + SeqLen(withSeq), udpLen - UDP_HDR_LEN - SeqLen(withSeq)))
  }

  // ---- Which frames are accepted ----

  /** The frame in its parts: 12 bytes of addresses, the type, an IPv4 header of the length that it
      declares, a UDP segment of the length that it declares, and whatever follows. */
  ghost predicate IsUdpFrame(b: seq<Byte>, macs: seq<Byte>, ip: seq<Byte>, udp: seq<Byte>, rest: seq<Byte>, withSeq: bool)
  {
    && b == macs + [0x08, 0x00] + ip + udp + rest && |macs| == 12
    && |ip| >= IPV4_HDR_LEN && HighNibble(ip[0]) == 4 && |ip| == 4 * LowNibble(ip[0]) && ip[9] == 17
    && |udp| >= UDP_HDR_LEN + SeqLen(withSeq) && Be16(udp, 4) == |udp|
  }

  lemma PartsOf(b: seq<Byte>, withSeq: bool)
    returns (macs: seq<Byte>, ip: seq<Byte>, udp: seq<Byte>, rest: seq<Byte>)
    requires AppParsePacket(b, withSeq).Some?
    ensures IsUdpFrame(b, macs, ip, udp, rest, withSeq)
  {
    hide Be;
    var at := ETH_HDR_LEN + 4 * LowNibble(b[ETH_HDR_LEN]);
    var end := at + Be16(b, at + 4);
    macs, ip, udp, rest := b[..12], b[14..at], b[at..end], b[end..];
    assert b[12..14] == [0x08, 0x00];
    assert b == b[..12] + b[12..14] + b[14..at] + b[at..end] + b[end..];
    Be16Within(b, at, udp, 4);
  }

  /** Exactly these frames are accepted, whatever their options, */
  lemma ParsesExactly(b: seq<Byte>, withSeq: bool)
    ensures AppParsePacket(b, withSeq).Some? <==>
      exists macs, ip, udp, rest :: IsUdpFrame(b, macs, ip, udp, rest, withSeq)
  {
    hide IsUdpFrame, AppParsePacket;
    if AppParsePacket(b, withSeq).Some? {
      var macs, ip, udp, rest := PartsOf(b, withSeq);
    }
    forall macs, ip, udp, rest | IsUdpFrame(b, macs, ip, udp, rest, withSeq)
      ensures AppParsePacket(b, withSeq).Some?
    {
      ParsedParts(b, macs, ip, udp, rest, withSeq);
    }
  }

  /** and what is reported are the segment's port, its sequence number if it has one, and the rest
      of it as payload. */
  lemma ParsedParts(b: seq<Byte>, macs: seq<Byte>, ip: seq<Byte>, udp: seq<Byte>, rest: seq<Byte>, withSeq: bool)
    requires IsUdpFrame(b, macs, ip, udp, rest, withSeq)
    ensures var r := AppParsePacket(b, withSeq);
      && r.Some? && r.value.dstPort == Be16(udp, 2) && r.value.seq_ == (if withSeq then Be(udp[8..16]) else 0)
      && b[r.value.at..r.value.at + r.value.len] == udp[8 + SeqLen(withSeq)..]
  {
    hide Be16, Be;
    var at := 14 + |ip|;
    assert b[14..at] == ip && b[at..at + |udp|] == udp;
    assert b[14] == ip[0] && b[14 + 9] == ip[9];
    assert Be16(b, 12) == 0x0800 by {
      assert b[12] == 0x08 && b[13] == 0x00;
      TypeField(b);
    }
    Be16Within(b, at, udp, 2);
    Be16Within(b, at, udp, 4);
    if withSeq {
      assert b[at + 8..at + 16] == udp[8..16];
    }
    assert b[at + 8 + SeqLen(withSeq)..at + |udp|] == udp[8 + SeqLen(withSeq)..];
  }

  lemma TypeField(b: seq<Byte>)
    requires |b| > 13 && b[12] == 0x08 && b[13] == 0x00
    ensures Be16(b, 12) == 0x0800
  {
  }

  // ---- Packet round trip ----

  lemma Be16Within(b: seq<Byte>, at: nat, part: seq<Byte>, i: nat)
    requires at + |part| <= |b| && b[at..at + |part|] == part && i + 1 < |part|
    ensures Be16(b, at + i) == Be16(part, i)
  {
    assert b[at + i] == b[at..at + |part|][i] && b[at + i + 1] == b[at..at + |part|][i + 1];
  }

  /** Where the parts of a frame lie. */
  ghost predicate LaidOut(b: seq<Byte>, k: Packet, total: nat)
    requires PacketOk(k) && total >= HdrLen(k.withSeq) + |k.payload|
  {
    && total <= |b|
    && b[12..14] == Bytes16(0x0800) && b[14] == 0x45 && b[23] == 17
    && b[36..38] == Bytes16(k.dstPort) && b[38..40] == Bytes16(total - 34)
    && b[42..total] == Content(k, total)
  }

  lemma FrameLayout(k: Packet, total: nat, rest: seq<Byte>)
    requires PacketOk(k) && total >= HdrLen(k.withSeq) + |k.payload|
    ensures LaidOut(Frame(k, total) + rest, k, total)
  {
    hide IpCheck, UdpCheck, Bytes16, Content;
    var e, h, g := Ethernet(k), IpHeader(k, total, IpCheck(k, total)), Segment(k, total, UdpCheck(k, total));
    var b := e + h + g + rest;
    assert b[12..14] == e[12..14];
    assert b[14] == h[0] && b[23] == h[9] && h[0] == IpStart(total)[0] && h[9] == IpStart(total)[9];
    assert b[36..38] == g[2..4] && b[38..40] == g[4..6];
    assert b[42..total] == g[8..];
  }

  /** Every field lies where the format puts it: addresses, types, lifetime and source port. */
  lemma FrameFields(k: Packet, total: nat)
    requires PacketOk(k) && total >= HdrLen(k.withSeq) + |k.payload|
    ensures var b := Frame(k, total);
      && b[0..6] == k.dstMac && b[6..12] == k.srcMac && b[12..14] == [0x08, 0x00]
      && b[14..16] == [0x45, 0] && b[18..24] == [0, 0, 0, 0, 64, 17]
      && b[26..30] == k.srcIp && b[30..34] == k.dstIp
      && b[34..36] == Bytes16(k.srcPort) && b[36..38] == Bytes16(k.dstPort)
      && (k.hwChecksum ==> b[40..42] == [0, 0])
  {
    ZeroBytes();
    hide IpCheck, UdpCheck, Content, Words;
    var e, h, g := Ethernet(k), IpHeader(k, total, IpCheck(k, total)), Segment(k, total, UdpCheck(k, total));
    var b := e + h + g;
    assert b[0..6] == e[0..6] && b[6..12] == e[6..12] && b[12..14] == e[12..14];
    assert b[14..16] == h[0..2] == IpStart(total)[0..2] && b[18..24] == h[4..10] == IpStart(total)[4..10];
    assert b[26..30] == h[12..16] && b[30..34] == h[16..20];
    assert b[34..36] == g[0..2] && b[36..38] == g[2..4];
    IpCheckIs(k, total);
    assert b[40..42] == g[6..8] == Bytes16(UdpCheck(k, total));
  }

  lemma ReachesUdp(b: seq<Byte>, k: Packet, total: nat)
    requires PacketOk(k) && total >= HdrLen(k.withSeq) + |k.payload| && LaidOut(b, k, total)
    ensures AppParsePacket(b, k.withSeq) == ParseUdp(b, 34, k.withSeq)
    ensures b[42..total] == Content(k, total)
  {
    hide ParseUdp, Content, Bytes16, Be16;
    Be16Within(b, 12, Bytes16(0x0800), 0);
    assert HighNibble(0x45) == 4 && LowNibble(0x45) == 5;
  }

  lemma ReadsUdp(b: seq<Byte>, k: Packet, total: nat)
    requires PacketOk(k) && total >= HdrLen(k.withSeq) + |k.payload| && LaidOut(b, k, total)
    ensures var at := HdrLen(k.withSeq);
      var built := Parsed(k.dstPort, if k.withSeq then Be(b[42..50]) else 0, at, total - at);
      ParseUdp(b, 34, k.withSeq) == Some(built) <==> total - 34 < U16
  {
    hide Content, Bytes16, Be16, Be;
    Be16Within(b, 36, Bytes16(k.dstPort), 0);
    Be16Within(b, 38, Bytes16(total - 34), 0);
  }

  /** Whatever follows a frame on the wire, parsing gives back its destination port, sequence
      number, and a payload that ends with the frame, as long as the 16-bit UDP length field
      can say so; otherwise it gives something else or nothing. */
  lemma PacketRoundTrip(k: Packet, total: nat, rest: seq<Byte>)
    requires PacketOk(k) && total >= HdrLen(k.withSeq) + |k.payload|
    ensures var b := Frame(k, total) + rest;
      var at := HdrLen(k.withSeq);
      var built := Parsed(k.dstPort, if k.withSeq then k.seq_ else 0, at, total - at);
      && (AppParsePacket(b, k.withSeq) == Some(built) <==> total - 34 < U16)
      && b[at..at + |k.payload|] == k.payload
      && b[at + |k.payload|..total] == Zeros(total - at - |k.payload|)
  {
    hide Frame, LaidOut, AppParsePacket, ParseUdp, Content, Zeros;
    var b := Frame(k, total) + rest;
    FrameLayout(k, total, rest);
    ReachesUdp(b, k, total);
    ReadsUdp(b, k, total);
    ContentLayout(b, k, total);
  }

  lemma SliceWithin(b: seq<Byte>, lo: nat, hi: nat, c: seq<Byte>, i: nat, j: nat)
    requires lo <= hi <= |b| && b[lo..hi] == c && i <= j <= |c|
    ensures b[lo + i..lo + j] == c[i..j]
  {
    forall x | 0 <= x < j - i ensures b[lo + i..lo + j][x] == c[i..j][x] {
      assert b[lo + i + x] == b[lo..hi][i + x];
    }
  }

  lemma ContentLayout(b: seq<Byte>, k: Packet, total: nat)
    requires PacketOk(k) && total >= HdrLen(k.withSeq) + |k.payload|
    requires total <= |b| && b[42..total] == Content(k, total)
    ensures var at := HdrLen(k.withSeq);
      && (k.withSeq ==> Be(b[42..50]) == k.seq_)
      && b[at..at + |k.payload|] == k.payload
      && b[at + |k.payload|..total] == Zeros(total - at - |k.payload|)
  {
    hide Be, BeBytes;
    var at, n, c := HdrLen(k.withSeq), |k.payload|, Content(k, total);
    SliceWithin(b, 42, total, c, at - 42, at - 42 + n);
    SliceWithin(b, 42, total, c, at - 42 + n, total - 42);
    if k.withSeq {
      SliceWithin(b, 42, total, c, 0, 8);
      assert c[..8] == c[0..8] == BeBytes(k.seq_, 8);
      Widths();
      BeInverse(k.seq_, 8);
    }
  }

  /** The IPv4 total length field is right exactly up to 65535 bytes. */
  lemma IpLengthRight(k: Packet, total: nat)
    requires PacketOk(k) && total >= HdrLen(k.withSeq) + |k.payload|
    ensures Be16(Frame(k, total), 16) == total - 14 <==> total - 14 < U16
  {
    hide IpCheck, UdpCheck, Bytes16, Content, Be16;
    var e, h, g := Ethernet(k), IpHeader(k, total, IpCheck(k, total)), Segment(k, total, UdpCheck(k, total));
    var b := e + h + g;
    assert b[16..18] == h[2..4] == IpStart(total)[2..4] == Bytes16(total - 14);
    Be16Within(b, 16, Bytes16(total - 14), 0);
  }

  // ---- Checksums verify ----

  lemma WordsOf16(v: nat)
    requires v < U16
    ensures Words(Bytes16(v)) == v
  {
    assert Bytes16(v)[2..] == [];
  }

  lemma BeTwoMore(front: seq<Byte>, x: Byte, y: Byte)
    ensures Be(front + [x, y]) == 65536 * Be(front) + (256 * (x as nat) + y)
  {
    var p := front + [x, y];
    assert p[..|p| - 1] == front + [x] && (front + [x])[..|front|] == front;
  }

  lemma WordsTwoMore(front: seq<Byte>, x: Byte, y: Byte)
    requires |front| % 2 == 0
    ensures Words(front + [x, y]) == Words(front) + (256 * (x as nat) + y)
  {
    WordsJoin(front, [x, y]);
    assert [x, y][2..] == [];
  }

  lemma NumberStep(w: nat, n: nat, z: nat)
    requires w % 0xFFFF == n % 0xFFFF
    ensures (w + z) % 0xFFFF == (65536 * n + z) % 0xFFFF
  {
    SumMod(w, n, z);
    MultipleMod(n + z, n);
  }

  lemma {:induction false} EvenWords(b: seq<Byte>)
    requires |b| % 2 == 0
    ensures Words(b) % 0xFFFF == Be(b) % 0xFFFF
    decreases |b|
  {
    hide Words, Be;
    var n := |b| - 2;
    if b == [] {
      NoWords();
    } else {
      EvenWords(b[..n]);
      assert b == b[..n] + [b[n], b[n + 1]];
      BeTwoMore(b[..n], b[n], b[n + 1]);
      WordsTwoMore(b[..n], b[n], b[n + 1]);
      NumberStep(Words(b[..n]), Be(b[..n]), 256 * (b[n] as nat) + b[n + 1]);
    }
  }

  lemma NoWords()
    ensures Words([]) == Be([]) == 0
  {
  }

  /** Modulo 0xFFFF, the words of a stretch, padded to an even length, are its bytes read as one
      big-endian number. */
  lemma WordsAreTheNumber(b: seq<Byte>)
    ensures Words(b) % 0xFFFF == Be(Padded(b)) % 0xFFFF
  {
    hide *;
    PaddedWords(b);
    EvenWords(Padded(b));
  }

  function Padded(b: seq<Byte>): (p: seq<Byte>)
    ensures |p| % 2 == 0
  {
    if |b| % 2 == 0 then b else b + [0]
  }

  lemma PaddedWords(b: seq<Byte>)
    ensures Words(Padded(b)) == Words(b)
  {
    if |b| % 2 == 1 {
      var n, p := |b| - 1, Padded(b);
      assert b == b[..n] + b[n..] && p == b[..n] + (b[n..] + [0]);
      WordsJoin(b[..n], b[n..]);
      WordsJoin(b[..n], b[n..] + [0]);
      assert Words(b[n..]) == 256 * (b[n] as nat);
      assert (b[n..] + [0])[2..] == [];
    }
  }

  lemma SumMod(x: nat, y: nat, z: nat)
    requires x % 0xFFFF == y % 0xFFFF
    ensures (x + z) % 0xFFFF == (y + z) % 0xFFFF
  {
  }

  /** The pseudo-header of RFC 768, byte by byte: addresses, zero, protocol 17, and the length. */
  lemma PseudoHeaderIs(src: seq<Byte>, dst: seq<Byte>, len: nat)
    requires |src| == |dst| == 4 && len < U16
    ensures PseudoSum(src, dst, len) == Words(src + dst + [0, 17] + Bytes16(len))
  {
    hide Words, Bytes16;
    WordsJoin(src, dst);
    WordsJoin(src + dst, [0, 17]);
    WordsJoin(src + dst + [0, 17], Bytes16(len));
    WordsOf16(len);
    ProtocolWord();
  }

  lemma ProtocolWord()
    ensures Words([0, 17]) == 17
  {
    assert [0, 17][2..] == [];
  }

  /** A 16-bit field at an even place adds its value to the sum. */
  lemma FieldAdds(a: seq<Byte>, v: nat, c: seq<Byte>)
    requires |a| % 2 == 0 && v < U16
    ensures Words(a + Bytes16(v) + c) == Words(a + Bytes16(0) + c) + v
  {
    hide Bytes16, Words;
    WordsJoin(a + Bytes16(v), c);
    WordsJoin(a + Bytes16(0), c);
    WordsJoin(a, Bytes16(v));
    WordsJoin(a, Bytes16(0));
    WordsOf16(v);
    WordsOf16(0);
  }

  /** Section 3.1 of RFC 791: the one's-complement sum of the header is all ones. */
  lemma IpChecksumVerifies(k: Packet, total: nat)
    requires PacketOk(k) && total >= HdrLen(k.withSeq) + |k.payload|
    ensures !k.hwChecksum ==> Fold(Words(Frame(k, total)[14..34])) == 0xFFFF
    ensures k.hwChecksum ==> Frame(k, total)[24..26] == [0, 0]
  {
    hide *;
    var check := IpCheck(k, total);
    IpHeaderOf(k, total, check);
    IpHeaderSum(k, total, check);
    ComplementVerifies(Words(IpHeader(k, total, 0)));
    ZeroBytes();
  }

  lemma IpHeaderOf(k: Packet, total: nat, check: nat)
    requires PacketOk(k) && total >= HdrLen(k.withSeq) + |k.payload| && check == IpCheck(k, total)
    ensures total >= ETH_HDR_LEN && check < U16 && Frame(k, total)[14..34] == IpHeader(k, total, check)
    ensures Frame(k, total)[24..26] == Bytes16(check)
    ensures k.hwChecksum ==> check == 0
    ensures !k.hwChecksum ==> check == Complement(Words(IpHeader(k, total, 0)) % U32)
  {
    hide Words, Fold, Complement, UdpCheck, Content, IpStart, Bytes16;
    var h := IpHeader(k, total, check);
    assert Frame(k, total)[14..34] == h;
    assert Frame(k, total)[24..26] == h[10..12] == Bytes16(check);
  }

  lemma IpHeaderSum(k: Packet, total: nat, check: nat)
    requires PacketOk(k) && total >= ETH_HDR_LEN && check < U16
    ensures Words(IpHeader(k, total, check)) == Words(IpHeader(k, total, 0)) + check
    ensures Words(IpHeader(k, total, 0)) % U32 == Words(IpHeader(k, total, 0))
  {
    hide Words, IpStart, Bytes16;
    FieldAdds(IpStart(total), check, k.srcIp + k.dstIp);
    assert Words(IpHeader(k, total, 0)) <= 0xFFFF * 10;
  }

  lemma ZeroBytes()
    ensures Bytes16(0) == [0, 0]
  {
  }

  /** A fold is all ones exactly for the positive multiples of 0xFFFF. */
  lemma AllOnes(sum: nat)
    requires sum > 0
    ensures Fold(sum) == 0xFFFF <==> sum % 0xFFFF == 0
  {
    if sum % 0xFFFF == 0 {
      OnesComplementUnique(sum, Fold(sum), 0xFFFF);
    }
  }

  /** Every wrap of a 32-bit sum, and every wrap of a 16-bit length, counts one. */
  lemma WrapsCount(x: nat, w: nat)
    ensures (x + U32 * w) % 0xFFFF == (x + w) % 0xFFFF
    ensures (x + U16 * w) % 0xFFFF == (x + w) % 0xFFFF
  {
    MultipleMod(x + w, 0x10001 * w);
    MultipleMod(x + w, w);
  }

  /** The sum that udp_checksum() forms, before any wrap. */
  function UdpSum(k: Packet, total: nat): nat
    requires total >= HdrLen(k.withSeq) + |k.payload|
  {
    PseudoSum(k.srcIp, k.dstIp, total - 34) + Words(Segment(k, total, 0))
  }

  /** RFC 768, for every frame length. Pseudo-header and segment sum to all ones with the
      segment's true length exactly when the 32-bit sum did not wrap, and with the length that
      the 16-bit field declares exactly when the two wrap alike; both hold when the length fits
      its field. The checksum is never 0, which would mean that none was computed. */
  lemma UdpChecksumVerifies(k: Packet, total: nat)
    requires PacketOk(k) && HdrLen(k.withSeq) + |k.payload| <= total < U32 && !k.hwChecksum
    ensures var g, sum := Frame(k, total)[34..], UdpSum(k, total);
      && |g| == total - 34
      && (Fold(PseudoSum(k.srcIp, k.dstIp, |g|) + Words(g)) == 0xFFFF <==> sum < U32)
      && (Fold(PseudoSum(k.srcIp, k.dstIp, Be16(g, 4)) + Words(g)) == 0xFFFF <==>
            sum / U32 % 0xFFFF == |g| / U16 % 0xFFFF)
      && (|g| < U16 ==> sum < U32 && Be16(g, 4) == |g|)
      && Be16(g, 6) != 0
  {
    hide Words, Fold, Complement, NonZero, PseudoSum, Segment, UdpSum, UdpCheck, Frame, Be16, HdrLen, PacketOk;
    var check := UdpCheck(k, total);
    UdpSumIs(k, total);
    SegmentVerifies(k, total, Segment(k, total, check), check);
    UdpSumBound(k, total);
    SmallQuotient(UdpSum(k, total));
  }

  lemma SegmentVerifies(k: Packet, total: nat, g: seq<Byte>, check: nat)
    requires PacketOk(k) && HdrLen(k.withSeq) + |k.payload| <= total
    requires check == NonZero(Complement(UdpSum(k, total) % U32)) && g == Segment(k, total, check)
    ensures |g| == total - 34 && Be16(g, 4) == |g| % U16 && Be16(g, 6) != 0
    ensures Fold(PseudoSum(k.srcIp, k.dstIp, |g|) + Words(g)) == 0xFFFF <==> UdpSum(k, total) / U32 % 0xFFFF == 0
    ensures Fold(PseudoSum(k.srcIp, k.dstIp, Be16(g, 4)) + Words(g)) == 0xFFFF <==>
      UdpSum(k, total) / U32 % 0xFFFF == |g| / U16 % 0xFFFF
  {
    hide Words, Fold, Complement, NonZero, PseudoSum, Segment, UdpSum, Be16;
    var sum := UdpSum(k, total);
    ComplementVerifies(sum % U32);
    CheckFits(sum % U32);
    SegmentFields(k, total, check);
    UdpSums(k, total, g, check);
    TrueSum(sum, check);
    DeclaredSum(sum, check, PseudoSum(k.srcIp, k.dstIp, Be16(g, 4)) + Words(g), |g| / U16);
  }

  lemma SmallQuotient(sum: nat)
    ensures sum / U32 < 0xFFFF ==> (sum / U32 % 0xFFFF == 0 <==> sum < U32)
  {
  }

  lemma UdpSumIs(k: Packet, total: nat)
    requires PacketOk(k) && HdrLen(k.withSeq) + |k.payload| <= total && !k.hwChecksum
    ensures UdpCheck(k, total) == NonZero(Complement(UdpSum(k, total) % U32))
    ensures Frame(k, total)[34..] == Segment(k, total, UdpCheck(k, total))
  {
    hide Words, Fold, Complement, NonZero, IpCheck, Content, UdpStart, PseudoSum;
  }

  /** A receiver's sums over the segment, with its true length and with its declared one. */
  lemma UdpSums(k: Packet, total: nat, g: seq<Byte>, check: nat)
    requires PacketOk(k) && HdrLen(k.withSeq) + |k.payload| <= total && check < U16
    requires g == Segment(k, total, check) && |g| == total - 34 && Be16(g, 4) == |g| % U16
    ensures PseudoSum(k.srcIp, k.dstIp, |g|) + Words(g) == UdpSum(k, total) + check
    ensures PseudoSum(k.srcIp, k.dstIp, Be16(g, 4)) + Words(g) + U16 * (|g| / U16) == UdpSum(k, total) + check
    ensures PseudoSum(k.srcIp, k.dstIp, |g|) >= 17 && PseudoSum(k.srcIp, k.dstIp, Be16(g, 4)) >= 17
  {
    hide Words, Content, UdpStart, Be16;
    FieldAdds(UdpStart(k, total), check, Content(k, total));
  }

  lemma TrueSum(sum: nat, check: nat)
    requires Fold(sum % U32 + check) == 0xFFFF && sum + check > 0
    ensures Fold(sum + check) == 0xFFFF <==> sum / U32 % 0xFFFF == 0
  {
    hide Fold;
    var x, w := sum % U32 + check, sum / U32;
    assert sum + check == x + U32 * w;
    WrapsCount(x, w);
    if x > 0 {
      AllOnes(x);
    }
    AllOnes(sum + check);
    Cancels(x, w);
  }

  lemma DeclaredSum(sum: nat, check: nat, t: nat, q: nat)
    requires Fold(sum % U32 + check) == 0xFFFF && t > 0 && t + U16 * q == sum + check
    ensures Fold(t) == 0xFFFF <==> sum / U32 % 0xFFFF == q % 0xFFFF
  {
    hide Fold;
    var x, w := sum % U32 + check, sum / U32;
    assert sum + check == x + U32 * w;
    WrapsCount(x, w);
    WrapsCount(t, q);
    if x > 0 {
      AllOnes(x);
    }
    AllOnes(t);
    Cancels(x, w);
    SameRest(t, q, w);
  }

  lemma Cancels(x: nat, w: nat)
    ensures x % 0xFFFF == 0 ==> (x + w) % 0xFFFF == w % 0xFFFF
  {
  }

  lemma SameRest(t: nat, q: nat, w: nat)
    requires (t + q) % 0xFFFF == w % 0xFFFF
    ensures t % 0xFFFF == 0 <==> w % 0xFFFF == q % 0xFFFF
  {
  }

  lemma UdpSumBound(k: Packet, total: nat)
    requires PacketOk(k) && HdrLen(k.withSeq) + |k.payload| <= total < U32
    ensures UdpSum(k, total) / U32 < 0xFFFF
    ensures total - 34 < U16 ==> UdpSum(k, total) < U32
  {
    hide Words, Content, UdpStart, Bytes16;
    var g := Segment(k, total, 0);
    assert |g| == total - 34;
    assert Words(k.srcIp) <= 0xFFFF * 2 && Words(k.dstIp) <= 0xFFFF * 2;
    assert Words(g) <= 0xFFFF * ((|g| + 1) / 2);
  }

  lemma CheckFits(sum: nat)
    ensures NonZero(Complement(sum)) < U16
  {
  }

  lemma SegmentFields(k: Packet, total: nat, check: nat)
    requires PacketOk(k) && total >= HdrLen(k.withSeq) + |k.payload| && check < U16
    ensures var g := Segment(k, total, check);
      |g| == total - 34 && Be16(g, 4) == |g| % U16 && Be16(g, 6) == check
  {
    hide Bytes16, Be16, Content;
    var g := Segment(k, total, check);
    assert g[4..6] == UdpStart(k, total)[4..6] == Bytes16(total - 34);
    assert g[6..8] == Bytes16(check);
    Be16Within(g, 4, Bytes16(total - 34), 0);
    Be16Within(g, 6, Bytes16(check), 0);
  }
}
