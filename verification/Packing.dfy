/** Packing bits into bytes, most significant bit first, and reading them back. */
module Packing {
  import opened Images
  import opened GoArith

  /** `v << n` on a byte. */
  function Shl(v: byte, n: nat): byte
    decreases n
  {
    if n == 0 then v else Shl((2 * v) % 256, n - 1)
  }

  /** `v >> n` on a byte. */
  function Shr(v: byte, n: nat): byte
    decreases n
  {
    if n == 0 then v else Shr(v / 2, n - 1)
  }

  function Bit(b: bool): byte {
    if b then 1 else 0
  }

  /** The number a bit string denotes, first bit most significant. */
  ghost function Val(bits: seq<bool>): nat {
    if bits == [] then 0 else 2 * Val(bits[..|bits| - 1]) + Bit(bits[|bits| - 1])
  }

  ghost function Zeros(n: nat): (z: seq<bool>)
    ensures |z| == n && forall i | 0 <= i < n :: !z[i]
  {
    if n == 0 then [] else [false] + Zeros(n - 1)
  }

  lemma {:induction false} ValBound(bits: seq<bool>)
    ensures Val(bits) < Pow2(|bits|)
  {
    if bits != [] {
      ValBound(bits[..|bits| - 1]);
    }
  }

  lemma ValFits(bits: seq<bool>)
    ensures |bits| <= 8 ==> Val(bits) < 256
    ensures |bits| <= 7 ==> Val(bits) < 128
  {
    ValBound(bits);
    PowMono(|bits|);
  }

  lemma {:induction false} PowMono(n: nat)
    ensures n <= 8 ==> Pow2(n) <= 256
    ensures n <= 7 ==> Pow2(n) <= 128
  {
    assert Pow2(3) == 8 && Pow2(6) == 64;
    if n == 7 {
      assert Pow2(7) == 2 * Pow2(6);
    } else if n == 8 {
      assert Pow2(8) == 2 * Pow2(7) && Pow2(7) == 2 * Pow2(6);
    } else if n < 7 {
      PowStep(n, 6);
    }
  }

  lemma {:induction false} PowStep(m: nat, n: nat)
    requires m <= n
    ensures Pow2(m) <= Pow2(n)
    decreases n
  {
    if m < n {
      PowStep(m, n - 1);
    }
  }

  lemma ValZero(bits: seq<bool>)
    ensures Val(bits + [false]) == 2 * Val(bits)
  {
    assert (bits + [false])[..|bits|] == bits;
  }

  lemma ShlStep(bits: seq<bool>, n: nat)
    requires |bits| + n <= 8 && n > 0
    ensures Val(bits) < 256 && Val(bits + [false]) < 256 && Shl(Val(bits), n) == Shl(Val(bits + [false]), n - 1)
  {
    ValFits(bits);
    ValZero(bits);
    Doubled(Val(bits));
  }

  lemma Doubled(v: nat)
    ensures v < 128 ==> (2 * v) % 256 == 2 * v
  {
  }

  /** Shifting a partial byte left pads it with zero bits. */
  lemma {:induction false} ShlPads(bits: seq<bool>, n: nat)
    requires |bits| + n <= 8
    ensures Val(bits) < 256 && Shl(Val(bits), n) == Val(bits + Zeros(n))
    decreases n
  {
    if n == 0 {
      ValFits(bits);
      assert bits + Zeros(0) == bits;
    } else {
      ShlStep(bits, n);
      ShlPads(bits + [false], n - 1);
      assert (bits + [false]) + Zeros(n - 1) == bits + Zeros(n);
    }
  }

  /** Shifting right and masking recovers each bit. */
  lemma {:induction false} ShrReads(bits: seq<bool>, j: nat)
    requires j < |bits| <= 8
    ensures Val(bits) < 256 && Shr(Val(bits), |bits| - 1 - j) % 2 == Bit(bits[j])
  {
    ValFits(bits);
    if j < |bits| - 1 {
      var front := bits[..|bits| - 1];
      ShrReads(front, j);
      assert Val(bits) / 2 == Val(front);
    }
  }

  /** The eight bits of byte i, with zeros past the end. */
  ghost function Octet(bits: seq<bool>, i: nat): (o: seq<bool>)
    ensures |o| == 8
    ensures forall j | 0 <= j < 8 :: o[j] == (8 * i + j < |bits| && bits[8 * i + j])
  {
    seq(8, j requires 0 <= j < 8 => 8 * i + j < |bits| && bits[8 * i + j])
  }

  ghost function ByteAt(bits: seq<bool>, i: nat): byte {
    ValFits(Octet(bits, i));
    Val(Octet(bits, i))
  }

  /** The packed form of a bit string. */
  ghost function PackBits(bits: seq<bool>): (bytes: seq<byte>)
    ensures |bytes| == (|bits| + 7) / 8
  {
    seq((|bits| + 7) / 8, i requires 0 <= i < (|bits| + 7) / 8 => ByteAt(bits, i))
  }

  /** `(bytes[i/8] >> (7-i%8)) & 1 == 1`, false past the end, as the decoder reads bit i. */
  predicate ReadBit(bytes: seq<byte>, i: nat) {
    i / 8 < |bytes| && Shr(bytes[i / 8], 7 - i % 8) % 2 == 1
  }

  /** Reading bit i of a packed string gives bit i back; past the end, up to the last byte, it gives 0. */
  lemma PackThenRead(bits: seq<bool>, i: nat)
    ensures i < |bits| ==> i / 8 < |PackBits(bits)|
    ensures ReadBit(PackBits(bits), i) == (i < |bits| && bits[i])
  {
    if i / 8 < |PackBits(bits)| {
      ShrReads(Octet(bits, i / 8), i % 8);
      assert 8 * (i / 8) + i % 8 == i;
    }
  }

  /** The bit at a place, 0 past the end. */
  function Placed(bits: seq<bool>, i: nat): nat {
    if i < |bits| && bits[i] then 1 else 0
  }

  /** Most significant bit first: byte i is the sum of its eight bits with weights 128 down to 1, zeros past the end. */
  lemma PackedMsbFirst(bits: seq<bool>, i: nat)
    requires 8 * i < |bits|
    ensures i < |PackBits(bits)|
    ensures PackBits(bits)[i]
         == 128 * Placed(bits, 8 * i) + 64 * Placed(bits, 8 * i + 1) + 32 * Placed(bits, 8 * i + 2)
            + 16 * Placed(bits, 8 * i + 3) + 8 * Placed(bits, 8 * i + 4) + 4 * Placed(bits, 8 * i + 5)
            + 2 * Placed(bits, 8 * i + 6) + Placed(bits, 8 * i + 7)
  {
    OctetSum(Octet(bits, i));
  }

  lemma ValPrefix(o: seq<bool>, k: nat)
    requires k < |o|
    ensures Val(o[..k + 1]) == 2 * Val(o[..k]) + Bit(o[k])
  {
    assert o[..k + 1][..k] == o[..k];
  }

  lemma OctetSum(o: seq<bool>)
    requires |o| == 8
    ensures Val(o) == 128 * Bit(o[0]) + 64 * Bit(o[1]) + 32 * Bit(o[2]) + 16 * Bit(o[3])
                      + 8 * Bit(o[4]) + 4 * Bit(o[5]) + 2 * Bit(o[6]) + Bit(o[7])
  {
    FourBits(o, 0);
    FourBits(o, 4);
    assert o[..8] == o && Val(o[..0]) == 0;
  }

  lemma FourBits(o: seq<bool>, k: nat)
    requires k + 4 <= |o|
    ensures Val(o[..k + 4])
         == 16 * Val(o[..k]) + 8 * Bit(o[k]) + 4 * Bit(o[k + 1]) + 2 * Bit(o[k + 2]) + Bit(o[k + 3])
  {
    ValPrefix(o, k);
    ValPrefix(o, k + 1);
    ValPrefix(o, k + 2);
    ValPrefix(o, k + 3);
  }

  /** The decoder reads the same weights: bit i of the stream is the bit of weight 128, 64, ..., 1 of its byte. */
  lemma ReadsMsbFirst(bytes: seq<byte>, i: nat)
    ensures ReadBit(bytes, i)
       <==> i / 8 < |bytes| && (bytes[i / 8] / [128, 64, 32, 16, 8, 4, 2, 1][i % 8]) % 2 == 1
  {
    if i / 8 < |bytes| {
      Shifted(bytes[i / 8], 7 - i % 8);
    }
  }

  lemma Shifted(v: byte, n: nat)
    requires n < 8
    ensures Shr(v, n) == v / [1, 2, 4, 8, 16, 32, 64, 128][n]
  {
    assert v / 2 / 2 == v / 4 && v / 4 / 2 == v / 8 && v / 8 / 2 == v / 16;
    assert v / 16 / 2 == v / 32 && v / 32 / 2 == v / 64 && v / 64 / 2 == v / 128;
    ShrOnce(v, n);
  }

  lemma {:induction false} ShrOnce(v: byte, n: nat)
    ensures n > 0 ==> Shr(v, n) == Shr(v, n - 1) / 2
    decreases n
  {
    if n > 1 {
      ShrOnce(v / 2, n - 1);
    }
  }

  lemma {:induction false} SameByte(a: nat, b: nat, n: nat)
    requires a < Pow2(n) && b < Pow2(n) && a < 256 && b < 256
    requires forall k | 0 <= k < n :: Shr(a, k) % 2 == Shr(b, k) % 2
    ensures a == b
    decreases n
  {
    if n > 0 {
      assert Shr(a, 0) == a && Shr(b, 0) == b;
      forall k | 0 <= k < n - 1
        ensures Shr(a / 2, k) % 2 == Shr(b / 2, k) % 2
      {
        assert Shr(a, k + 1) == Shr(a / 2, k) && Shr(b, k + 1) == Shr(b / 2, k);
      }
      SameByte(a / 2, b / 2, n - 1);
    }
  }

  lemma BitPlace(j: nat, k: nat)
    requires k < 8
    ensures (8 * j + (7 - k)) / 8 == j && (8 * j + (7 - k)) % 8 == 7 - k
  {
  }

  /** Byte strings of one length are determined by the bits read from them. */
  lemma SameReads(a: seq<byte>, b: seq<byte>)
    requires |a| == |b|
    requires forall i: nat | i < 8 * |a| :: ReadBit(a, i) == ReadBit(b, i)
    ensures a == b
  {
    assert Pow2(8) == 256 by {
      assert Pow2(4) == 16 && Pow2(6) == 4 * Pow2(4) && Pow2(8) == 4 * Pow2(6);
    }
    forall j | 0 <= j < |a|
      ensures a[j] == b[j]
    {
      forall k | 0 <= k < 8
        ensures Shr(a[j], k) % 2 == Shr(b[j], k) % 2
      {
        var i := 8 * j + (7 - k);
        assert ReadBit(a, i) == ReadBit(b, i);
        BitPlace(j, k);
      }
      SameByte(a[j], b[j], 8);
    }
  }

  /** The writer's state: whole bytes, and the bits of the byte being filled. */
  ghost predicate Written(out: seq<byte>, b: byte, nbits: nat, bits: seq<bool>) {
    && nbits < 8
    && |bits| == 8 * |out| + nbits
    && (forall i | 0 <= i < |out| :: out[i] == ByteAt(bits, i))
    && b == Val(bits[8 * |out|..])
  }

  lemma EarlierBytes(bits: seq<bool>, white: bool, i: nat)
    requires 8 * i + 8 <= |bits|
    ensures ByteAt(bits + [white], i) == ByteAt(bits, i)
  {
    assert Octet(bits + [white], i) == Octet(bits, i);
  }

  lemma NextPart(out: seq<byte>, b: byte, nbits: nat, bits: seq<bool>, white: bool)
    requires Written(out, b, nbits, bits)
    ensures b < 128 && Val((bits + [white])[8 * |out|..]) == 2 * b + Bit(white)
  {
    var part := bits[8 * |out|..];
    var part' := (bits + [white])[8 * |out|..];
    ValFits(part);
    assert part' == part + [white] && part'[..|part'| - 1] == part;
  }

  lemma OneMoreBit(out: seq<byte>, b: byte, nbits: nat, bits: seq<bool>, white: bool)
    requires Written(out, b, nbits, bits)
    ensures b < 128
    ensures var b' := 2 * b + Bit(white);
            if nbits == 7 then Written(out + [b'], 0, 0, bits + [white])
            else Written(out, b', nbits + 1, bits + [white])
  {
    var bits' := bits + [white];
    NextPart(out, b, nbits, bits, white);
    forall i | 0 <= i < |out|
      ensures out[i] == ByteAt(bits', i)
    {
      EarlierBytes(bits, white, i);
    }
    if nbits == 7 {
      assert Octet(bits', |out|) == bits'[8 * |out|..];
      assert bits'[8 * (|out| + 1)..] == [];
    }
  }

  /** The encoders' `emit` closure with the variables it captures. */
  class BitWriter {
    var out: seq<byte>
    var b: byte
    var nbits: nat
    ghost var bits: seq<bool>  // everything emitted so far

    ghost predicate Valid()
      reads this
    {
      Written(out, b, nbits, bits)
    }

    constructor ()
      ensures Valid() && bits == []
    {
      out, b, nbits, bits := [], 0, 0, [];
    }

    method Emit(white: bool)
      requires Valid()
      modifies this
      ensures Valid() && bits == old(bits) + [white]
    {
      OneMoreBit(out, b, nbits, bits, white);
      bits := bits + [white];
      b := (2 * b) % 256;
      if white {
        b := b + 1;  // b is even here, so this is `b |= 1`
      }
      nbits := nbits + 1;
      if nbits == 8 {
        out := out + [b];
        b, nbits := 0, 0;
      }
    }

    /** The bytes written, the last one padded. */
    method Flush() returns (r: seq<byte>)
      requires Valid()
      ensures r == PackBits(bits)
    {
      r := out;
      if nbits > 0 {
        ghost var part := bits[8 * |out|..];
        ShlPads(part, 8 - nbits);
        assert part + Zeros(8 - nbits) == Octet(bits, |out|);
        r := r + [Shl(b, 8 - nbits)];
      }
    }
  }
}
