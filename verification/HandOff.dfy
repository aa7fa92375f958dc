/** What one record stage may rely on from the stages before it. */
module HandOff {
  import opened Machine
  import opened PipelineSpec
  import opened GraphSpec
  import opened RecordFormat
  import opened Stages

  /** The record that ring_output puts on its ring: the input as payload under a fresh header. */
  function RingRecord(n: nat, r: Record): seq<Byte>
  {
    Header(MAGIC, n, r.tsc, |r.bytes|) + r.bytes
  }

  /** Re-framing by ring_output makes what validate passes and never flags, whichever way it is
      configured: a framed record whose payload is the input and whose header holds the sequence
      number and the input's timestamp. It stays one when byte_match passes it on, matching or
      not. */
  lemma RingRecordIsValid(n: nat, r: Record, tsc: nat, requireMagic: bool, matches: bool)
    requires |r.bytes| < U32 && n < U64 && r.tsc < U64
    ensures var b := RingRecord(n, r);
      && Framed(b) && Payload(b) == r.bytes && Le(b[8..16]) == n && Le(b[16..24]) == r.tsc
      && var passed := Pass(Record(RawRecord, b, tsc, NO_FLAGS), requireMagic && b[..8] != MAGIC);
         && !IntegrityFailed(passed.flags) && passed == Record(RawRecord, b, tsc, NO_FLAGS)
         && Framed(Pass(passed, !matches).bytes) && Payload(Pass(passed, !matches).bytes) == r.bytes
  {
    HeaderFrames(n, r.tsc, r.bytes);
    FlagsMean(false);
  }

  /** On a framed record extract never reads outside it, and it flags exactly the records that
      do not hold the field, which it passes on whole. */
  lemma ExtractOnFramed(c: ExtractConfig, r: Record)
    requires ExtractConfigOk(c) && Framed(r.bytes)
    ensures InRange(c, r.bytes) <==> c.offset + Size(c) <= |Payload(r.bytes)|
    ensures InRange(c, r.bytes) <==> !IntegrityFailed(Extracted(c, r).flags)
    ensures !InRange(c, r.bytes) ==> Extracted(c, r).bytes == r.bytes
  {
    FlagsMean(true);
    FlagsMean(false);
  }

  /** Numeric mode, then convert: the raw value is the field's big-endian value, below 256 to the
      power of its width; and convert takes no record that extract flagged. */
  lemma NumericReachesConvert(c: ExtractConfig, r: Record)
    requires ExtractConfigOk(c) && c.Numeric? && Framed(r.bytes)
    ensures |Extracted(c, r).bytes| == 8 <==> InRange(c, r.bytes)
    ensures InRange(c, r.bytes) ==>
      var field := Payload(r.bytes)[c.offset..c.offset + c.width];
      Be(Extracted(c, r).bytes) == Be(field) < Pow256(c.width)
  {
    if InRange(c, r.bytes) {
      var field := Payload(r.bytes)[c.offset..c.offset + c.width];
      BeBound(field);
      FieldFits(field);
      Widths();
      BeInverse(Be(field), 8);
    }
  }

  /** Convert cannot tell a slice of eight bytes from a number, and takes no other slice. */
  lemma BytesReachConvert(c: ExtractConfig, r: Record)
    requires ExtractConfigOk(c) && c.Bytes? && Framed(r.bytes)
    ensures |Extracted(c, r).bytes| == 8 <==> InRange(c, r.bytes) && c.length == 8
  {
  }

  /** Over a ring and back: bytes mode on the re-framed record returns any slice of the original
      record, and all of it with offset zero, when the two fit a scratch buffer together. */
  lemma RingRoundTrip(n: nat, r: Record, tsc: nat, offset: nat, length: nat)
    requires HDR + |r.bytes| <= STAGE_SCRATCH_BYTES && 1 <= length && offset + length <= |r.bytes|
    ensures var hop := Record(RawRecord, RingRecord(n, r), tsc, NO_FLAGS);
      && ExtractConfigOk(Bytes(offset, length)) && Framed(hop.bytes)
      && Extracted(Bytes(offset, length), hop).bytes == r.bytes[offset..offset + length]
      && !IntegrityFailed(Extracted(Bytes(offset, length), hop).flags)
      && (offset == 0 && length == |r.bytes| ==> Extracted(Bytes(offset, length), hop).bytes == r.bytes)
  {
    HeaderFrames(n, r.tsc, r.bytes);
    FlagsMean(false);
  }
}
