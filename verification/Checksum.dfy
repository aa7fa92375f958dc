/** The Internet checksum of common.c, against section 1 of RFC 1071 and RFC 768. */
module Checksum {
  import opened Machine

  /** The sum of the big-endian 16-bit words; an odd last byte is padded with zero. */
  function Words(b: seq<Byte>): (r: nat)
    ensures r <= 0xFFFF * ((|b| + 1) / 2)
  {
    if |b| == 0 then 0
    else if |b| == 1 then 256 * b[0]
    else 256 * b[0] + b[1] + Words(b[2..])
  }

  /** The one's-complement sum that section 1 of RFC 1071 defines: addition with end-around
      carry gives the one value up to 0xFFFF that is congruent modulo 0xFFFF, and gives 0 for
      nothing but zeros. */
  ghost predicate OnesComplement(sum: nat, r: nat)
  {
    r <= 0xFFFF && r % 0xFFFF == sum % 0xFFFF && (r == 0 <==> sum == 0)
  }

  lemma OnesComplementUnique(sum: nat, r: nat, r': nat)
    requires OnesComplement(sum, r) && OnesComplement(sum, r')
    ensures r == r'
  {
  }

  /** The end-around carries that the code adds at the end. */
  function Fold(sum: nat): (r: nat)
    ensures OnesComplement(sum, r)
  {
    if sum / U16 == 0 then sum else
      CarryKeeps(sum / U16, sum % U16);
      Fold(sum % U16 + sum / U16)
  }

  lemma CarryKeeps(hi: nat, lo: nat)
    ensures (lo + hi) % 0xFFFF == (U16 * hi + lo) % 0xFFFF
  {
    MultipleMod(lo + hi, hi);
  }

  lemma {:induction false} MultipleMod(x: nat, q: nat)
    ensures (x + 0xFFFF * q) % 0xFFFF == x % 0xFFFF
    decreases q
  {
    if q > 0 {
      MultipleMod(x, q - 1);
      assert x + 0xFFFF * q == (x + 0xFFFF * (q - 1)) + 0xFFFF;
    }
  }

  /** get_be16(). */
  function Be16(b: seq<Byte>, i: nat): nat
    requires i + 1 < |b|
  {
    var hi: nat, lo: nat := b[i], b[i + 1];
    256 * hi + lo
  }

  /** while (sum >> 16) sum = (sum & 0xFFFF) + (sum >> 16): the loop ends, and folds. */
  method FoldCarries(start: nat) returns (sum: nat)
    ensures OnesComplement(start, sum)
  {
    sum := start;
    while sum / U16 != 0
      invariant Fold(sum) == Fold(start)
      decreases sum
    {
      sum := sum % U16 + sum / U16;
    }
  }

  /** What a uint32_t keeps. */
  function Wrap(x: nat): nat { x % U32 }

  /** The loop over the words of buf[at..at + len], added to a 32-bit sum. */
  method AddWords(start: nat, buf: array<Byte>, at: nat, len: nat) returns (sum: nat)
    requires at + len <= buf.Length
    ensures sum == (start + Words(buf[at..at + len])) % U32
  {
    hide Words, Congruent, Be16, Wrap;
    ghost var all, total := buf[at..at + len], start + Words(buf[at..at + len]);
    sum := Wrap(start);
    var i := 0;
    assert all[0..] == all;
    AddFirst(start, Words(all));
    while i + 1 < len
      invariant i <= len && i % 2 == 0
      invariant Congruent(sum, Words(all[i..]), total)
    {
      WordsStep(all, i);
      AddWord(sum, Be16(all, i), Words(all[i + 2..]), total);
      sum := Wrap(sum + Be16(buf[at..at + len], i));
      i := i + 2;
    }
    WordsEnd(all[i..]);
    Parity(i, len);
    if len % 2 == 1 {
      var last: nat := buf[at + len - 1];
      AddWord(sum, 256 * last, 0, total);
      sum := Wrap(sum + 256 * last);
    }
    AddedAll(sum, total);
  }

  /** A sum kept to 32 bits that still lacks rest of the total. */
  ghost predicate Congruent(sum: nat, rest: nat, total: nat)
  {
    sum < U32 && (sum + rest) % U32 == total % U32
  }

  lemma AddFirst(start: nat, rest: nat)
    ensures Congruent(Wrap(start), rest, start + rest)
  {
  }

  lemma AddWord(sum: nat, w: nat, rest: nat, total: nat)
    requires Congruent(sum, w + rest, total)
    ensures Congruent(Wrap(sum + w), rest, total)
  {
  }

  lemma AddedAll(sum: nat, total: nat)
    requires Congruent(sum, 0, total)
    ensures sum == total % U32
  {
  }

  lemma Parity(i: nat, len: nat)
    requires i % 2 == 0 && i <= len <= i + 1
    ensures len % 2 == len - i
  {
  }

  lemma WordsStep(b: seq<Byte>, i: nat)
    requires i + 1 < |b|
    ensures Words(b[i..]) == Be16(b, i) + Words(b[i + 2..])
  {
    assert b[i..][2..] == b[i + 2..];
  }

  lemma WordsEnd(b: seq<Byte>)
    requires |b| <= 1
    ensures Words(b) == if |b| == 1 then 256 * (b[0] as nat) else 0
  {
  }

  lemma FourBytes(b: seq<Byte>)
    requires |b| == 4
    ensures Words(b) == Be16(b, 0) + Be16(b, 2)
  {
    WordsStep(b, 0);
    WordsStep(b, 2);
    assert b[0..] == b;
    WordsEnd(b[4..]);
  }

  /** What ip_checksum() and udp_checksum() send: the complement of the sum. */
  function Complement(sum: nat): (c: nat)
    ensures c <= 0xFFFF
  {
    0xFFFF - Fold(sum)
  }

  /** For UDP, 0xFFFF instead of 0, which RFC 768 keeps for "not computed". */
  function NonZero(c: nat): nat
  {
    if c == 0 then 0xFFFF else c
  }

  method IpChecksum(buf: array<Byte>, at: nat, len: nat) returns (c: nat)
    requires at + len <= buf.Length
    ensures c == Complement(Words(buf[at..at + len]) % U32)
  {
    var sum := AddWords(0, buf, at, len);
    var folded := FoldCarries(sum);
    OnesComplementUnique(sum, folded, Fold(sum));
    c := 0xFFFF - folded;
  }

  /** The pseudo-header of RFC 768, summed: addresses, protocol and segment length. */
  function PseudoSum(src: seq<Byte>, dst: seq<Byte>, len: nat): nat
  {
    Words(src) + Words(dst) + 17 + len
  }

  method UdpChecksum(src: seq<Byte>, dst: seq<Byte>, buf: array<Byte>, at: nat, len: nat) returns (c: nat)
    requires |src| == 4 && |dst| == 4 && at + len <= buf.Length
    ensures c == NonZero(Complement((PseudoSum(src, dst, len) + Words(buf[at..at + len])) % U32))
  {
    hide Words, Fold;
    var pseudo := Be16(src, 0) + Be16(src, 2) + Be16(dst, 0) + Be16(dst, 2) + 17 + len;
    FourBytes(src);
    FourBytes(dst);
    var sum := AddWords(pseudo, buf, at, len);
    var folded := FoldCarries(sum);
    OnesComplementUnique(sum, folded, Fold(sum));
    c := NonZero(0xFFFF - folded);
  }

  // ---- A receiver's check succeeds ----

  lemma {:induction false} WordsJoin(a: seq<Byte>, b: seq<Byte>)
    requires |a| % 2 == 0
    ensures Words(a + b) == Words(a) + Words(b)
    decreases |a|
  {
    if a == [] {
      assert a + b == b;
    } else {
      assert (a + b)[2..] == a[2..] + b;
      WordsJoin(a[2..], b);
    }
  }

  /** Storing the complement of a sum, or 0xFFFF when that is zero, makes the sum all ones. */
  lemma ComplementVerifies(sum: nat)
    ensures Fold(sum + Complement(sum)) == 0xFFFF
    ensures Fold(sum + NonZero(Complement(sum))) == 0xFFFF
    ensures NonZero(Complement(sum)) != 0
  {
    SumsToZero(sum, Fold(sum));
    OnesComplementUnique(sum + Complement(sum), Fold(sum + Complement(sum)), 0xFFFF);
    if Complement(sum) == 0 {
      assert (sum + 0xFFFF) % 0xFFFF == sum % 0xFFFF == 0;
      OnesComplementUnique(sum + 0xFFFF, Fold(sum + 0xFFFF), 0xFFFF);
    }
  }

  lemma SumsToZero(sum: nat, f: nat)
    requires OnesComplement(sum, f)
    ensures (sum + (0xFFFF - f)) % 0xFFFF == 0
  {
  }
}
