/** Bytes and the host-order (little-endian) integers kept in them. */
module Bytes {

  /** The size of a netlink message header. */
  const NLMSG_HDRLEN := 16

  type byte = x: int | 0 <= x < 0x100

  /** A C store into a 16-bit field keeps the low 16 bits. */
  function Trunc16(x: nat): nat {
    x % 0x1_0000
  }

  function Le16(x: nat): (b: seq<byte>)
    requires x < 0x1_0000
    ensures |b| == 2
  {
    [x % 0x100, x / 0x100]
  }

  function Un16(b: seq<byte>, i: nat): (x: nat)
    requires i + 2 <= |b|
    ensures x < 0x1_0000
  {
    var lo: int := b[i];
    var hi: int := b[i + 1];
    lo + 0x100 * hi
  }

  function Un32(b: seq<byte>, i: nat): (x: nat)
    requires i + 4 <= |b|
    ensures x < 0x1_0000_0000
  {
    Un16(b, i) + 0x1_0000 * Un16(b, i + 2)
  }

  function Zeros(n: nat): (b: seq<byte>)
    ensures |b| == n
  {
    seq(n, _ => 0)
  }

  /** `NLMSG_ALIGN` and `NLA_ALIGN`: round up to a multiple of four. */
  function Align4(n: nat): (m: nat)
    ensures n <= m < n + 4 && m % 4 == 0
  {
    (n + 3) / 4 * 4
  }

  /** The zero bytes that bring `n` bytes to a multiple of four. */
  function Pad(n: nat): seq<byte> {
    Zeros(Align4(n) - n)
  }

  /** `x & ~k`, bit by bit. */
  function AndNot(x: nat, k: nat): nat {
    if x == 0 then 0 else 2 * AndNot(x / 2, k / 2) + if k % 2 == 1 then 0 else x % 2
  }

  /** The rounding of `nlmsg_reserve`; it rounds up to a multiple only for powers of two. */
  function RoundTo(len: nat, pad: nat): nat {
    if pad == 0 then len else AndNot(len + (pad - 1), pad - 1)
  }

  lemma {:induction false} AndNotBounds(x: nat, k: nat)
    ensures x - k <= AndNot(x, k) <= x
    ensures k == 0 ==> AndNot(x, k) == x
  {
    if x > 0 {
      AndNotBounds(x / 2, k / 2);
    }
  }

  function Pow2(e: nat): (p: nat)
    ensures p > 0
  {
    if e == 0 then 1 else 2 * Pow2(e - 1)
  }

  /** For a power of two it is the least multiple, `q` times that power, that is large enough. */
  lemma {:induction false} RoundToPow2(len: nat, e: nat) returns (q: nat)
    ensures RoundTo(len, Pow2(e)) == Pow2(e) * q && len <= RoundTo(len, Pow2(e)) < len + Pow2(e)
  {
    hide AndNot;
    var p := Pow2(e);
    q := MaskIsMultiple(len + (p - 1), e);
    AndNotBounds(len + (p - 1), p - 1);
  }

  /** Clearing the low `e` bits leaves a multiple of 2^e. */
  lemma {:induction false} MaskIsMultiple(x: nat, e: nat) returns (q: nat)
    ensures AndNot(x, Pow2(e) - 1) == Pow2(e) * q
  {
    if e == 0 {
      AndNotBounds(x, 0);
      q := x;
    } else {
      var h := Pow2(e - 1);
      q := MaskIsMultiple(x / 2, e - 1);
      AndNotUnfolds(x, 2 * h - 1);
      hide AndNot;
      assert (2 * h - 1) / 2 == h - 1 && (2 * h - 1) % 2 == 1;
      Twice(h, q);
    }
  }

  lemma Twice(h: nat, q: nat)
    ensures 2 * (h * q) == (2 * h) * q
  {
  }

  /** Nothing asked for is cut off, whatever the alignment; alignment to four is `NLMSG_ALIGN`. */
  lemma {:induction false} RoundToFits(len: nat, pad: nat)
    ensures len <= RoundTo(len, pad) <= len + pad
    ensures RoundTo(len, 4) == Align4(len)
  {
    if pad > 0 {
      AndNotBounds(len + (pad - 1), pad - 1);
    }
    hide AndNot;
    AndNotThree(len + 3);
  }

  lemma {:induction false} AndNotThree(x: nat)
    ensures AndNot(x, 3) == x / 4 * 4
  {
    AndNotBounds(x / 2 / 2, 0);
    AndNotUnfolds(x, 3);
    AndNotUnfolds(x / 2, 1);
    hide AndNot;
    assert x / 2 / 2 == x / 4;
  }

  lemma {:induction false} AndNotUnfolds(x: nat, k: nat)
    ensures AndNot(x, k) == 2 * AndNot(x / 2, k / 2) + if k % 2 == 1 then 0 else x % 2
  {
  }

  lemma AlignFacts(p: nat, l: nat, n: nat)
    requires 4 <= l <= n && p <= Align4(l - 4)
    ensures Align4(4 + p) <= Align4(l) <= Align4(n)
    ensures Align4(l) <= n ==> Align4(l) + Align4(n - Align4(l)) == Align4(n)
  {
  }
}
