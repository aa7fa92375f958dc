/** struct chrono_record_hdr as it lies in memory: 32 bytes, little-endian. */
module RecordFormat {
  import opened Machine

  const HDR: nat := 32

  /** The bytes of CHRONO_RECORD_MAGIC. */
  const MAGIC: seq<Byte> := [67, 72, 82, 82, 69, 67, 49, 32]

  function Le(b: seq<Byte>): nat
  {
    if b == [] then 0 else b[0] + 256 * Le(b[1..])
  }

  function LeBytes(v: nat, n: nat): (b: seq<Byte>)
    ensures |b| == n
  {
    if n == 0 then [] else [v % 256] + LeBytes(v / 256, n - 1)
  }

  function Be(b: seq<Byte>): nat
  {
    if b == [] then 0 else 256 * Be(b[..|b| - 1]) + b[|b| - 1]
  }

  function BeBytes(v: nat, n: nat): (b: seq<Byte>)
    ensures |b| == n
  {
    if n == 0 then [] else BeBytes(v / 256, n - 1) + [v % 256]
  }

  /** How many values n bytes have. */
  function Pow256(n: nat): (p: nat)
    ensures p > 0
  {
    if n == 0 then 1 else 256 * Pow256(n - 1)
  }

  lemma {:induction false} LeInverse(v: nat, n: nat)
    requires v < Pow256(n)
    ensures Le(LeBytes(v, n)) == v
  {
    if n > 0 {
      LeInverse(v / 256, n - 1);
      assert LeBytes(v, n)[1..] == LeBytes(v / 256, n - 1);
    }
  }

  lemma {:induction false} BeInverse(v: nat, n: nat)
    requires v < Pow256(n)
    ensures Be(BeBytes(v, n)) == v
  {
    if n > 0 {
      BeInverse(v / 256, n - 1);
      assert BeBytes(v, n)[..n - 1] == BeBytes(v / 256, n - 1);
    }
  }

  /** Big-endian: the first byte counts most. */
  lemma {:induction false} BeFirst(x: Byte, b: seq<Byte>)
    ensures Be([x] + b) == x * Pow256(|b|) + Be(b)
    decreases |b|
  {
    var n := |b| - 1;
    if b == [] {
      assert [x] + b == [x];
    } else {
      assert ([x] + b)[..n + 1] == [x] + b[..n];
      BeFirst(x, b[..n]);
    }
  }

  /** Little-endian: the last byte counts most. */
  lemma {:induction false} LeLast(b: seq<Byte>, x: Byte)
    ensures Le(b + [x]) == Le(b) + x * Pow256(|b|)
    decreases |b|
  {
    if b == [] {
      assert b + [x] == [x];
    } else {
      assert (b + [x])[1..] == b[1..] + [x];
      LeLast(b[1..], x);
    }
  }

  lemma {:induction false} BeBound(b: seq<Byte>)
    ensures Be(b) < Pow256(|b|)
  {
    if b != [] {
      BeBound(b[..|b| - 1]);
    }
  }

  lemma {:induction false} LeBound(b: seq<Byte>)
    ensures Le(b) < Pow256(|b|)
  {
    if b != [] {
      LeBound(b[1..]);
    }
  }

  lemma Widths()
    ensures Pow256(4) == U32 && Pow256(8) == U64
  {
    assert Pow256(4) == 256 * Pow256(3) == 256 * (256 * Pow256(2)) == 0x1_0000_0000;
    assert Pow256(6) == 256 * Pow256(5) == 256 * (256 * Pow256(4));
    assert Pow256(8) == 256 * Pow256(7) == 256 * (256 * Pow256(6));
  }

  /** hdr->len. */
  function LenField(b: seq<Byte>): nat
    requires |b| >= HDR
  {
    Le(b[24..28])
  }

  /** The record is exactly its header and the payload that the header declares. */
  ghost predicate Framed(b: seq<Byte>)
  {
    |b| >= HDR && |b| == HDR + LenField(b)
  }

  /** There is a header and it declares no more payload than there is. */
  predicate HeaderFits(b: seq<Byte>)
  {
    |b| >= HDR && HDR + LenField(b) <= |b|
  }

  function Payload(b: seq<Byte>): seq<Byte>
    requires |b| >= HDR
  {
    b[HDR..]
  }

  function Header(magic: seq<Byte>, n: nat, tsc: nat, len: nat): (b: seq<Byte>)
    requires |magic| == 8
    ensures |b| == HDR
  {
    magic + LeBytes(n, 8) + LeBytes(tsc, 8) + LeBytes(len, 4) + LeBytes(0, 4)
  }

  /** A header made for a payload declares exactly that payload, and its fields read back. */
  lemma HeaderFrames(n: nat, tsc: nat, payload: seq<Byte>)
    requires |payload| < U32
    ensures var b := Header(MAGIC, n, tsc, |payload|) + payload;
      && Framed(b) && Payload(b) == payload && b[..8] == MAGIC
      && Le(b[24..28]) == |payload| && b[28..32] == LeBytes(0, 4) && b[32..] == payload
      && (n < U64 ==> Le(b[8..16]) == n) && (tsc < U64 ==> Le(b[16..24]) == tsc)
  {
    hide LeBytes, Le;
    var b := Header(MAGIC, n, tsc, |payload|) + payload;
    assert b[8..16] == LeBytes(n, 8) && b[16..24] == LeBytes(tsc, 8) && b[24..28] == LeBytes(|payload|, 4);
    assert b[28..32] == LeBytes(0, 4);
    Widths();
    LeInverse(|payload|, 4);
    if n < U64 {
      LeInverse(n, 8);
    }
    if tsc < U64 {
      LeInverse(tsc, 8);
    }
  }
}
