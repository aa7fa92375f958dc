/** The record stages: validate, byte_match, extract, convert, and the record that ring_output
    makes of its input. Each process() call writes the buffer it is given for its output, whose
    flags start at zero. */
module Stages {
  import opened Machine
  import opened Options
  import opened GraphSpec
  import opened PipelineSpec
  import opened PipelineRun
  import opened RecordFormat
  import JsonText

  const NO_FLAGS: bv32 := 0
  const INTEGRITY_FAILED: bv32 := 1

  function Flags(bad: bool): bv32 { if bad then INTEGRITY_FAILED else NO_FLAGS }

  lemma FlagsMean(bad: bool)
    ensures IntegrityFailed(Flags(bad)) <==> bad
  {
  }

  /** A record passed through whole, as validate, byte_match and extract do. */
  function Pass(r: Record, bad: bool): (out: Record)
    ensures out.bytes == r.bytes && out.tsc == r.tsc
  {
    Record(RawRecord, r.bytes, r.tsc, Flags(bad))
  }

  method PassThrough(cur: StageRecord, outData: array<Byte>, bad: bool, ghost input: Record) returns (next: StageRecord)
    requires Holds(cur, input) && cur.data != outData && cur.len <= outData.Length
    modifies outData
    ensures next.data == outData && Holds(next, Pass(input, bad)) && Holds(cur, input)
  {
    CopyBytes(cur.data[..cur.len], outData);
    next := StageRecord(RawRecord, outData, cur.len, cur.tsc, Flags(bad));
  }

  // ---- validate ----

  class Validate {
    const requireMagic: bool
    var checked: nat
    var flagged: nat

    constructor (requireMagic: bool)
      ensures this.requireMagic == requireMagic && checked == flagged == 0
    {
      this.requireMagic, checked, flagged := requireMagic, 0, 0;
    }

    /** Passes exactly the framed records on, unchanged, and flags those with a wrong magic. */
    method Process(cur: StageRecord, outData: array<Byte>, ghost input: Record) returns (ok: bool, next: StageRecord)
      requires Holds(cur, input) && cur.data != outData && cur.len <= outData.Length
      modifies this, outData
      ensures Holds(cur, input) && (ok <==> Framed(input.bytes))
      ensures ok ==> next.data == outData && Holds(next, Pass(input, requireMagic && input.bytes[..8] != MAGIC))
      ensures checked == if ok then Inc(old(checked)) else old(checked)
      ensures flagged == if ok && requireMagic && input.bytes[..8] != MAGIC then Inc(old(flagged)) else old(flagged)
    {
      next := cur;
      if cur.len < HDR {
        return false, next;
      }
      if HDR + LenField(cur.data[..cur.len]) != cur.len {
        return false, next;
      }
      var bad := requireMagic && cur.data[..8] != MAGIC;
      assert cur.data[..8] == cur.data[..cur.len][..8];
      checked := Inc(checked);
      if bad {
        flagged := Inc(flagged);
      }
      next := PassThrough(cur, outData, bad, input);
      return true, next;
    }
  }

  // ---- byte_match ----

  /** The bits that both numbers have. */
  function And(a: nat, b: nat): nat
  {
    if a == 0 || b == 0 then 0 else 2 * And(a / 2, b / 2) + if a % 2 == 1 && b % 2 == 1 then 1 else 0
  }

  function Masked(b: Byte, mask: Byte): nat { And(b, mask) }

  /** An even, positive number of hex digits, for at most cap bytes. */
  predicate HexOk(hex: string, cap: nat)
  {
    hex != "" && |hex| % 2 == 0 && |hex| / 2 <= cap && forall i :: 0 <= i < |hex| ==> JsonText.IsHex(hex[i])
  }

  function HexByte(hi: char, lo: char): Byte
    requires JsonText.IsHex(hi) && JsonText.IsHex(lo)
  {
    16 * JsonText.HexValue(hi) + JsonText.HexValue(lo)
  }

  function HexBytes(hex: string): (b: seq<Byte>)
    requires |hex| % 2 == 0 && forall i :: 0 <= i < |hex| ==> JsonText.IsHex(hex[i])
    ensures |b| == |hex| / 2
  {
    seq(|hex| / 2, i requires 0 <= i < |hex| / 2 => HexByte(hex[2 * i], hex[2 * i + 1]))
  }

  /** hex_decode(): None where the source returns -1. */
  method HexDecode(hex: string, cap: nat) returns (r: Option<seq<Byte>>)
    ensures r.Some? <==> HexOk(hex, cap)
    ensures r.Some? ==> r.value == HexBytes(hex)
  {
    if hex == "" || |hex| % 2 != 0 || |hex| / 2 > cap {
      return None;
    }
    var out: seq<Byte> := [];
    for i := 0 to |hex| / 2
      invariant |out| == i && forall j :: 0 <= j < 2 * i ==> JsonText.IsHex(hex[j])
      invariant forall j :: 0 <= j < i ==> out[j] == HexByte(hex[2 * j], hex[2 * j + 1])
    {
      if !JsonText.IsHex(hex[2 * i]) || !JsonText.IsHex(hex[2 * i + 1]) {
        return None;
      }
      out := out + [HexByte(hex[2 * i], hex[2 * i + 1])];
    }
    return Some(out);
  }

  function SpellHex(b: seq<Byte>): (hex: string)
    ensures |hex| == 2 * |b|
    ensures forall i :: 0 <= i < |b| ==> hex[2 * i] == JsonText.HexDigit(b[i] / 16) && hex[2 * i + 1] == JsonText.HexDigit(b[i] % 16)
    ensures forall i :: 0 <= i < |hex| ==> JsonText.IsHex(hex[i])
  {
    if b == [] then "" else SpellHex(b[..|b| - 1]) + [JsonText.HexDigit(b[|b| - 1] / 16), JsonText.HexDigit(b[|b| - 1] % 16)]
  }

  lemma HexByteInverse(b: Byte)
    ensures HexByte(JsonText.HexDigit(b / 16), JsonText.HexDigit(b % 16)) == b
  {
  }

  /** Every sequence of bytes has a spelling, and decoding gives it back; the spelling is taken if
      there are any bytes and they fit. */
  lemma HexInverse(b: seq<Byte>, cap: nat)
    ensures HexBytes(SpellHex(b)) == b
    ensures HexOk(SpellHex(b), cap) <==> 0 < |b| <= cap
  {
    hide SpellHex, HexByte, JsonText.HexDigit, JsonText.HexValue, JsonText.IsHex, HexOk;
    var hex := SpellHex(b);
    forall i | 0 <= i < |b| ensures HexByte(hex[2 * i], hex[2 * i + 1]) == b[i] {
      HexByteInverse(b[i]);
    }
    SpellingTaken(hex, |b|, cap);
  }

  lemma SpellingTaken(hex: string, n: nat, cap: nat)
    requires |hex| == 2 * n && forall i :: 0 <= i < |hex| ==> JsonText.IsHex(hex[i])
    ensures HexOk(hex, cap) <==> 0 < n <= cap
  {
    hide JsonText.IsHex;
  }

  lemma HexBytesMore(hex: string, n: nat)
    requires |hex| == n + 2 && n % 2 == 0 && forall i :: 0 <= i < |hex| ==> JsonText.IsHex(hex[i])
    ensures HexBytes(hex) == HexBytes(hex[..n]) + [HexByte(hex[n], hex[n + 1])]
  {
    hide JsonText.IsHex, HexByte;
  }

  lemma HexNumberMore(hex: string, n: nat)
    requires |hex| == n + 2 && forall i :: 0 <= i < |hex| ==> JsonText.IsHex(hex[i])
    ensures JsonText.HexNumber(hex) == 256 * JsonText.HexNumber(hex[..n]) + HexByte(hex[n], hex[n + 1])
  {
    hide JsonText.IsHex, JsonText.HexValue;
    assert hex[..n + 1][..n] == hex[..n];
  }

  /** Decoding reads the digits as one big-endian number. */
  lemma {:induction false} HexIsBigEndian(hex: string)
    requires |hex| % 2 == 0 && forall i :: 0 <= i < |hex| ==> JsonText.IsHex(hex[i])
    ensures Be(HexBytes(hex)) == JsonText.HexNumber(hex)
    decreases |hex|
  {
    hide HexBytes, JsonText.HexNumber, JsonText.IsHex, HexByte;
    if hex == "" {
      NoHex();
    } else {
      var n := |hex| - 2;
      HexIsBigEndian(hex[..n]);
      HexBytesMore(hex, n);
      HexNumberMore(hex, n);
      var b := HexBytes(hex[..n]);
      assert (b + [HexByte(hex[n], hex[n + 1])])[..|b|] == b;
    }
  }

  lemma NoHex()
    ensures HexBytes("") == [] && JsonText.HexNumber("") == 0
  {
  }

  datatype MatchConfig = MatchConfig(offset: nat, magic: seq<Byte>, mask: seq<Byte>)

  const BYTE_MATCH_MAX_LEN: nat := 64

  predicate MatchConfigOk(c: MatchConfig)
  {
    c.offset < U32 && 0 < |c.magic| == |c.mask| <= BYTE_MATCH_MAX_LEN
  }

  /** byte_match_stage_init(), from the configured strings: a missing mask looks at every bit. */
  method ByteMatchInit(magicHex: Option<string>, maskHex: Option<string>, offset: nat) returns (r: Option<MatchConfig>)
    requires offset < U32
    ensures r.Some? <==>
      && magicHex.Some? && HexOk(magicHex.value, BYTE_MATCH_MAX_LEN)
      && (maskHex.Some? ==> HexOk(maskHex.value, BYTE_MATCH_MAX_LEN) && |maskHex.value| == |magicHex.value|)
    ensures r.Some? ==> MatchConfigOk(r.value) && r.value.offset == offset
    ensures r.Some? ==> r.value.magic == HexBytes(magicHex.value)
    ensures r.Some? && maskHex.Some? ==> r.value.mask == HexBytes(maskHex.value)
    ensures r.Some? && maskHex.None? ==> forall b :: b in r.value.mask ==> b == 0xFF
  {
    if magicHex.None? {
      return None;
    }
    var magic := HexDecode(magicHex.value, BYTE_MATCH_MAX_LEN);
    if magic.None? {
      return None;
    }
    if maskHex.None? {
      return Some(MatchConfig(offset, magic.value, seq(|magic.value|, _ => 0xFF)));
    }
    var mask := HexDecode(maskHex.value, BYTE_MATCH_MAX_LEN);
    if mask.None? || |mask.value| != |magic.value| {
      return None;
    }
    return Some(MatchConfig(offset, magic.value, mask.value));
  }

  predicate Matches(c: MatchConfig, b: seq<Byte>)
    requires |c.magic| == |c.mask| && c.offset + |c.magic| <= |b|
  {
    forall i :: 0 <= i < |c.magic| ==> Masked(b[c.offset + i], c.mask[i]) == Masked(c.magic[i], c.mask[i])
  }

  /** Bit j of a number, the lowest first. */
  function Bit(n: nat, j: nat): nat
  {
    if j == 0 then n % 2 else Bit(n / 2, j - 1)
  }

  lemma {:induction false} AndBit(a: nat, b: nat, j: nat)
    ensures Bit(And(a, b), j) == 1 <==> Bit(a, j) == 1 && Bit(b, j) == 1
    ensures Bit(a, j) <= 1
    decreases j
  {
    NoBits(j);
    if j > 0 {
      AndBit(a / 2, b / 2, j - 1);
    }
  }

  lemma {:induction false} NoBits(j: nat)
    ensures Bit(0, j) == 0
  {
    if j > 0 {
      NoBits(j - 1);
    }
  }

  lemma {:induction false} SameBits(a: nat, b: nat)
    requires forall j: nat :: Bit(a, j) == Bit(b, j)
    ensures a == b
    decreases a + b
  {
    assert Bit(a, 0) == Bit(b, 0);
    if a + b > 0 {
      forall j: nat ensures Bit(a / 2, j) == Bit(b / 2, j) {
        assert Bit(a, j + 1) == Bit(b, j + 1);
      }
      SameBits(a / 2, b / 2);
    }
  }

  /** The two have the same value in every bit that the mask sets. */
  ghost predicate BitsAgree(a: nat, b: nat, mask: nat)
  {
    forall j: nat :: Bit(mask, j) == 1 ==> Bit(a, j) == Bit(b, j)
  }

  lemma MaskedBit(a: nat, b: nat, mask: nat, j: nat)
    ensures Bit(And(a, mask), j) == Bit(And(b, mask), j) <==> (Bit(mask, j) == 1 ==> Bit(a, j) == Bit(b, j))
  {
    AndBit(a, mask, j);
    AndBit(b, mask, j);
    AndBit(And(a, mask), 0, j);
    AndBit(And(b, mask), 0, j);
  }

  lemma MaskedAgree(a: Byte, b: Byte, mask: Byte)
    ensures Masked(a, mask) == Masked(b, mask) <==> BitsAgree(a, b, mask)
  {
    hide And, Bit;
    forall j: nat
      ensures Bit(And(a, mask), j) == Bit(And(b, mask), j) <==> (Bit(mask, j) == 1 ==> Bit(a, j) == Bit(b, j))
      ensures Masked(a, mask) == Masked(b, mask) && Bit(mask, j) == 1 ==> Bit(a, j) == Bit(b, j)
    {
      MaskedBit(a, b, mask, j);
    }
    if BitsAgree(a, b, mask) {
      SameBits(And(a, mask), And(b, mask));
    }
  }

  /** A record matches exactly if it has the magic's value in every bit that the mask sets, at the
      configured place; no other bit counts. */
  lemma MatchesBitwise(c: MatchConfig, b: seq<Byte>)
    requires MatchConfigOk(c) && c.offset + |c.magic| <= |b|
    ensures Matches(c, b) <==>
      forall i :: 0 <= i < |c.magic| ==> BitsAgree(b[c.offset + i], c.magic[i], c.mask[i])
  {
    hide Masked, BitsAgree;
    forall i | 0 <= i < |c.magic|
      ensures Masked(b[c.offset + i], c.mask[i]) == Masked(c.magic[i], c.mask[i]) <==>
        BitsAgree(b[c.offset + i], c.magic[i], c.mask[i])
    {
      MaskedAgree(b[c.offset + i], c.magic[i], c.mask[i]);
    }
  }

  /** Without a mask, a match is equality. */
  lemma FullMaskIsEquality(c: MatchConfig, b: seq<Byte>)
    requires MatchConfigOk(c) && c.offset + |c.magic| <= |b| && forall x :: x in c.mask ==> x == 0xFF
    ensures Matches(c, b) <==> b[c.offset..c.offset + |c.magic|] == c.magic
  {
    forall i | 0 <= i < |c.magic|
      ensures Masked(b[c.offset + i], c.mask[i]) == Masked(c.magic[i], c.mask[i]) <==> b[c.offset + i] == c.magic[i]
    {
      assert c.mask[i] in c.mask;
      AllBits(b[c.offset + i]);
      AllBits(c.magic[i]);
    }
    var slice := b[c.offset..c.offset + |c.magic|];
    assert forall i :: 0 <= i < |c.magic| ==> slice[i] == b[c.offset + i];
    if Matches(c, b) {
      assert slice == c.magic;
    }
  }

  predicate AllOnes(n: nat)
  {
    n == 0 || (n % 2 == 1 && AllOnes(n / 2))
  }

  lemma {:induction false} AndAllOnes(b: nat, ones: nat)
    requires AllOnes(ones) && b <= ones
    ensures And(b, ones) == b
    decreases b
  {
    if b > 0 {
      AndAllOnes(b / 2, ones / 2);
    }
  }

  lemma AllBits(b: Byte)
    ensures Masked(b, 0xFF) == b
  {
    assert AllOnes(7) && AllOnes(63) && AllOnes(0xFF);
    AndAllOnes(b, 0xFF);
  }

  class ByteMatch {
    const config: MatchConfig
    var checked: nat
    var matched: nat
    var unmatched: nat

    constructor (config: MatchConfig)
      ensures this.config == config && checked == matched == unmatched == 0
    {
      this.config, checked, matched, unmatched := config, 0, 0, 0;
    }

    /** Passes on, unchanged, every record long enough to hold the magic, flagged unless it
        matches; counts each once. */
    method Process(cur: StageRecord, outData: array<Byte>, ghost input: Record) returns (ok: bool, next: StageRecord)
      requires MatchConfigOk(config) && Holds(cur, input) && cur.data != outData && cur.len <= outData.Length
      modifies this, outData
      ensures Holds(cur, input) && (ok <==> config.offset + |config.magic| <= |input.bytes|)
      ensures ok ==> next.data == outData && Holds(next, Pass(input, !Matches(config, input.bytes)))
      ensures checked == if ok then Inc(old(checked)) else old(checked)
      ensures matched == if ok && Matches(config, input.bytes) then Inc(old(matched)) else old(matched)
      ensures unmatched == if ok && !Matches(config, input.bytes) then Inc(old(unmatched)) else old(unmatched)
    {
      next := cur;
      if config.offset + |config.magic| > cur.len {
        return false, next;
      }
      var found := Find(cur.data, cur.len);
      checked := Inc(checked);
      if found {
        matched := Inc(matched);
      } else {
        unmatched := Inc(unmatched);
      }
      next := PassThrough(cur, outData, !found, input);
      return true, next;
    }

    method Find(data: array<Byte>, len: nat) returns (found: bool)
      requires MatchConfigOk(config) && config.offset + |config.magic| <= len <= data.Length
      ensures found <==> Matches(config, data[..len])
    {
      var p := data[..len];
      for i := 0 to |config.magic|
        invariant forall j :: 0 <= j < i ==>
          Masked(p[config.offset + j], config.mask[j]) == Masked(config.magic[j], config.mask[j])
      {
        if Masked(data[config.offset + i], config.mask[i]) != Masked(config.magic[i], config.mask[i]) {
          assert p[config.offset + i] == data[config.offset + i];
          return false;
        }
      }
      return true;
    }
  }

  // ---- extract ----

  datatype ExtractConfig = Numeric(offset: nat, width: nat) | Bytes(offset: nat, length: nat)

  /** What extract_stage_init() lets through. */
  predicate ExtractConfigOk(c: ExtractConfig)
  {
    && c.offset < U32
    && (c.Numeric? ==> c.width == 2 || c.width == 4 || c.width == 8)
    && (c.Bytes? ==> 1 <= c.length <= STAGE_SCRATCH_BYTES)
  }

  /** extract_stage_init(), from the configured values: an unknown mode or a size out of range is
      a startup error, never a fallback. */
  method ExtractInit(mode: string, offset: nat, width: nat, length: nat) returns (r: Option<ExtractConfig>)
    requires offset < U32
    ensures r.Some? ==> ExtractConfigOk(r.value)
    ensures r == Some(Numeric(offset, width)) <==> mode == "numeric" && (width == 2 || width == 4 || width == 8)
    ensures r == Some(Bytes(offset, length)) <==> mode == "bytes" && 1 <= length <= STAGE_SCRATCH_BYTES
    ensures r.Some? ==> r.value == Numeric(offset, width) || r.value == Bytes(offset, length)
  {
    if mode == "numeric" {
      if width != 2 && width != 4 && width != 8 {
        return None;
      }
      return Some(Numeric(offset, width));
    } else if mode == "bytes" {
      if length < 1 || length > STAGE_SCRATCH_BYTES {
        return None;
      }
      return Some(Bytes(offset, length));
    }
    return None;
  }

  function Size(c: ExtractConfig): nat { if c.Numeric? then c.width else c.length }

  /** The stage's own test, against the length that the header declares. */
  predicate InRange(c: ExtractConfig, b: seq<Byte>)
    requires |b| >= HDR
  {
    c.offset + Size(c) <= LenField(b)
  }

  /** It reads inside every record whatever its configuration exactly when the header does not
      declare more payload than there is. */
  lemma ReadsInsideIff(b: seq<Byte>)
    requires |b| >= HDR
    ensures HeaderFits(b) <==>
      forall c :: ExtractConfigOk(c) && InRange(c, b) ==> HDR + c.offset + Size(c) <= |b|
  {
    if |b| < HDR + LenField(b) {
      LenFits(b);
      var c := Bytes(LenField(b) - 1, 1);
      assert ExtractConfigOk(c) && InRange(c, b);
    }
  }

  lemma LenFits(b: seq<Byte>)
    requires |b| >= HDR
    ensures LenField(b) < U32
  {
    LeBound(b[24..28]);
    Widths();
  }

  /** get_be(): a 64-bit value, shifted by eight bits a byte. */
  method GetBe(data: array<Byte>, at: nat, width: nat) returns (v: nat)
    requires at + width <= data.Length && width <= 8
    ensures v == Be(data[at..at + width])
  {
    v := 0;
    ghost var field := data[at..at + width];
    for i := 0 to width
      invariant v == Be(field[..i])
    {
      BeBound(field[..i + 1]);
      Pow256Grows(i + 1, 8);
      Widths();
      assert field[..i + 1][..i] == field[..i];
      v := (v * 256 + data[at + i]) % U64;
    }
    assert field[..width] == field;
  }

  lemma {:induction false} Pow256Grows(m: nat, n: nat)
    requires m <= n
    ensures Pow256(m) <= Pow256(n)
    decreases n
  {
    if m < n {
      Pow256Grows(m, n - 1);
    }
  }

  /** put_be64(): from the last byte to the first. */
  method PutBe64(data: array<Byte>, value: nat)
    requires 8 <= data.Length && value < U64
    modifies data
    ensures data[..8] == BeBytes(value, 8)
  {
    var v, i := value, 8;
    assert data[8..8] == [];
    while i > 0
      invariant 0 <= i <= 8
      invariant BeBytes(value, 8) == BeBytes(v, i) + data[i..8]
    {
      i := i - 1;
      data[i] := v % 256;
      v := v / 256;
    }
  }

  /** What extract makes of a record whose header it can read: the field's value as eight
      big-endian bytes, or the slice, or the whole record, flagged. */
  function Extracted(c: ExtractConfig, r: Record): (out: Record)
    requires HeaderFits(r.bytes)
    ensures out.portType == RawRecord && out.tsc == r.tsc
  {
    if !InRange(c, r.bytes) then Pass(r, true) else
      var field := Payload(r.bytes)[c.offset..c.offset + Size(c)];
      Record(RawRecord, if c.Numeric? then BeBytes(Be(field), 8) else field, r.tsc, NO_FLAGS)
  }

  method ExtractProcess(c: ExtractConfig, cur: StageRecord, outData: array<Byte>, ghost input: Record)
    returns (next: StageRecord)
    requires ExtractConfigOk(c) && Holds(cur, input) && cur.data != outData
    requires HeaderFits(input.bytes) && cur.len <= STAGE_SCRATCH_BYTES == outData.Length
    modifies outData
    ensures next.data == outData && Holds(next, Extracted(c, input)) && Holds(cur, input)
  {
    var declared := LenField(cur.data[..cur.len]);
    if c.offset + Size(c) > declared {
      next := PassThrough(cur, outData, true, input);
      return;
    }
    ghost var field := Payload(input.bytes)[c.offset..c.offset + Size(c)];
    FieldAt(cur.data[..], cur.len, c);
    assert cur.data[..][..cur.len] == input.bytes;
    assert cur.data[HDR + c.offset..HDR + c.offset + Size(c)] == field;
    hide LenField, Be, BeBytes, Framed;
    var len := 8;
    if c.Numeric? {
      var raw := GetBe(cur.data, HDR + c.offset, c.width);
      FieldFits(field);
      PutBe64(outData, raw);
    } else {
      CopyBytes(cur.data[HDR + c.offset..HDR + c.offset + c.length], outData);
      len := c.length;
    }
    next := StageRecord(RawRecord, outData, len, cur.tsc, NO_FLAGS);
  }

  lemma FieldAt(data: seq<Byte>, len: nat, c: ExtractConfig)
    requires HDR + c.offset + Size(c) <= len <= |data|
    ensures data[HDR + c.offset..HDR + c.offset + Size(c)] == Payload(data[..len])[c.offset..c.offset + Size(c)]
  {
    var lo, n := HDR + c.offset, Size(c);
    var a, b := data[lo..lo + n], Payload(data[..len])[c.offset..c.offset + n];
    forall x | 0 <= x < n ensures a[x] == b[x] {
      assert a[x] == data[lo + x] == data[..len][HDR + (c.offset + x)];
    }
  }

  lemma FieldFits(field: seq<Byte>)
    requires |field| <= 8
    ensures Be(field) < Pow256(|field|) <= U64
  {
    BeBound(field);
    Pow256Grows(|field|, 8);
    Widths();
  }

  // ---- convert ----

  /** convert_stage_process(): anything but eight bytes is dropped. The calibration, whose result
      is a double of eight bytes, is left open. */
  method ConvertProcess(calibrate: nat -> seq<Byte>, cur: StageRecord, outData: array<Byte>, ghost input: Record)
    returns (ok: bool, ghost raw: nat, next: StageRecord)
    requires Holds(cur, input) && cur.data != outData && outData.Length == STAGE_SCRATCH_BYTES
    requires forall n :: |calibrate(n)| == 8
    modifies outData
    ensures ok <==> |input.bytes| == 8
    ensures ok ==> raw == Be(input.bytes) && next.data == outData
    ensures ok ==> Holds(next, Record(Engineering, calibrate(raw), input.tsc, NO_FLAGS))
  {
    raw, next := 0, cur;
    if cur.len != 8 {
      return false, raw, next;
    }
    var v := GetBe(cur.data, 0, 8);
    raw := v;
    assert cur.data[0..8] == input.bytes;
    CopyBytes(calibrate(v), outData);
    next := StageRecord(Engineering, outData, 8, cur.tsc, NO_FLAGS);
    return true, raw, next;
  }
}
