/**
 Base 128 varints of the Protocol Buffers encoding ("Base 128 Varints"): seven bits a byte, least
 significant group first, the high bit set on every byte but the last.
 */
module Varint {

  import opened Basics
  import opened ByteSeq
  import opened Division

  function Encode(v: nat): (e: seq<Byte>)
    ensures 0 < |e|
  {
    if v < 128 then [v] else [v % 128 + 128] + Encode(v / 128)
  }

  const MAX_BYTES := 10

  /**
   Reads a varint whose first `count` bytes are already behind; None at the end of the input or when
   ten bytes pass without a last one.  The value is not yet cut to a width.
   */
  function DecodeFrom(b: seq<Byte>, p: nat, count: nat): (r: Option<(nat, nat)>)
    ensures r.Some? ==> p < r.value.1 <= |b|
    decreases MAX_BYTES - count
  {
    if |b| <= p || MAX_BYTES <= count then None
    else if b[p] < 128 then Some((b[p], p + 1))
    else
      match DecodeFrom(b, p + 1, count + 1)
      case None => None
      case Some(r) => Some((b[p] - 128 + 128 * r.0, r.1))
  }

  const TWO_32 := 0x1_0000_0000
  const TWO_64 := 0x1_0000_0000_0000_0000

  /** ReadVarint32 keeps the low 32 bits of what it reads. */
  function ReadVarint32(b: seq<Byte>, p: nat): (r: Option<(nat, nat)>)
    ensures r.Some? ==> p < r.value.1 <= |b| && r.value.0 < TWO_32
  {
    match DecodeFrom(b, p, 0)
    case None => None
    case Some(r) => Some((r.0 % TWO_32, r.1))
  }

  function ReadVarint64(b: seq<Byte>, p: nat): (r: Option<(nat, nat)>)
    ensures r.Some? ==> p < r.value.1 <= |b| && r.value.0 < TWO_64
  {
    match DecodeFrom(b, p, 0)
    case None => None
    case Some(r) => Some((r.0 % TWO_64, r.1))
  }

  /** Decoding undoes encoding, wherever the bytes stand. */
  lemma {:induction false} DecodeEncoded(b: seq<Byte>, p: nat, count: nat, v: nat)
    requires IsAt(b, p, Encode(v)) && count + |Encode(v)| <= MAX_BYTES
    ensures DecodeFrom(b, p, count) == Some((v, p + |Encode(v)|))
    decreases v
  {
    IsAtByte(b, p, Encode(v), 0);
    if 128 <= v {
      IsAtSplit(b, p, [v % 128 + 128], Encode(v / 128));
      DecodeEncoded(b, p + 1, count + 1, v / 128);
    }
  }

  function Pow128(n: nat): nat
  {
    if n == 0 then 1 else 128 * Pow128(n - 1)
  }

  /** The length of an encoding is the number of base-128 digits. */
  lemma {:induction false} EncodedLength(v: nat, n: nat)
    ensures v < Pow128(n + 1) <==> |Encode(v)| <= n + 1
    decreases n
  {
    if n == 0 {
      assert Pow128(1) == 128 * Pow128(0);
    } else if 128 <= v {
      EncodedLength(v / 128, n - 1);
      assert v / 128 < Pow128(n) <==> v < 128 * Pow128(n);
    } else {
      PowPositive(n);
    }
  }

  lemma {:induction false} PowPositive(n: nat)
    ensures 1 <= Pow128(n)
  {
    if n > 0 {
      PowPositive(n - 1);
    }
  }

  lemma Powers()
    ensures Pow128(1) == 0x80 && Pow128(2) == 0x4000 && Pow128(3) == 0x20_0000 && Pow128(4) == 0x1000_0000
    ensures Pow128(5) == 0x8_0000_0000 && Pow128(9) == 0x8000_0000_0000_0000 && Pow128(10) == 0x40_0000_0000_0000_0000
  {
    assert Pow128(0) == 1;
    assert Pow128(1) == 128 * Pow128(0);
    assert Pow128(2) == 128 * Pow128(1);
    assert Pow128(3) == 128 * Pow128(2);
    assert Pow128(4) == 128 * Pow128(3);
    assert Pow128(5) == 128 * Pow128(4);
    assert Pow128(6) == 128 * Pow128(5);
    assert Pow128(7) == 128 * Pow128(6);
    assert Pow128(8) == 128 * Pow128(7);
    assert Pow128(9) == 128 * Pow128(8);
    assert Pow128(10) == 128 * Pow128(9);
  }

  /** Base-128 digit i, the least significant first. */
  function Digit(v: nat, i: nat): nat
  {
    PowPositive(i);
    v / Pow128(i) % 128
  }

  /** Byte i of an encoding holds digit i; the high bit says that another byte follows. */
  lemma {:induction false} EncodedDigits(v: nat, i: nat)
    requires i < |Encode(v)|
    ensures Encode(v)[i] % 128 == Digit(v, i)
    ensures 128 <= Encode(v)[i] <==> i + 1 < |Encode(v)|
    decreases v
  {
    hide Digit;
    if 0 < i {
      EncodedDigits(v / 128, i - 1);
      DigitStep(v % 128, v / 128, i);
    } else {
      DigitStep(v % 128, v / 128, 0);
    }
  }

  lemma DivDiv(v: nat, d: nat)
    requires 0 < d
    ensures v / 128 / d == v / (128 * d)
  {
    var q := v / 128 / d;
    DivBounds(v / 128, d);
    assert 128 * (d * q) == (128 * d) * q;
    DivIs(v, 128 * d, q);
  }

  /** A varint can be read exactly when one of its first ten bytes has a clear high bit and is in the input. */
  lemma {:induction false} DecodesIff(b: seq<Byte>, p: nat, count: nat)
    requires count <= 10
    ensures DecodeFrom(b, p, count).Some? <==> exists n | p <= n < |b| && n < p + 10 - count :: b[n] < 128
    decreases 10 - count
  {
    if p < |b| && count < 10 && 128 <= b[p] {
      DecodesIff(b, p + 1, count + 1);
    }
  }

  /** What is read ends with the first such byte. */
  lemma {:induction false} DecodeEnds(b: seq<Byte>, p: nat, count: nat)
    requires DecodeFrom(b, p, count).Some?
    ensures var next := DecodeFrom(b, p, count).value.1;
            p < next <= |b| && b[next - 1] < 128 && forall n | p <= n < next - 1 :: 128 <= b[n]
    decreases 10 - count
  {
    if 128 <= b[p] {
      DecodeEnds(b, p + 1, count + 1);
    }
  }

  /** Its digits are the low seven bits of the bytes read. */
  lemma {:induction false} DecodedDigits(b: seq<Byte>, p: nat, count: nat, i: nat)
    requires DecodeFrom(b, p, count).Some?
    ensures var (v, next) := DecodeFrom(b, p, count).value;
            Digit(v, i) == if p + i < next then b[p + i] % 128 else 0
    decreases 10 - count
  {
    hide Digit;
    if 128 <= b[p] {
      var u := DecodeFrom(b, p + 1, count + 1).value.0;
      DigitStep(b[p] - 128, u, i);
      if 0 < i {
        DecodedDigits(b, p + 1, count + 1, i - 1);
      }
    } else {
      DigitStep(b[p], 0, i);
      NoDigit(if i == 0 then 0 else i - 1);
    }
  }

  lemma NoDigit(i: nat)
    ensures Digit(0, i) == 0
  {
    PowPositive(i);
    DivIs(0, Pow128(i), 0);
  }

  /** A number's digits: its remainder, then those of its quotient. */
  lemma DigitStep(c: nat, u: nat, i: nat)
    requires c < 128
    ensures Digit(c + 128 * u, i) == if i == 0 then c else Digit(u, i - 1)
  {
    PowPositive(i);
    if 0 < i {
      PowPositive(i - 1);
      DivIs(c + 128 * u, 128, u);
      DivDiv(c + 128 * u, Pow128(i - 1));
    }
  }

  /** VarintSize32: the thresholds the size pass compares with. */
  function VarintSize32(v: nat): nat
    requires v < TWO_32
  {
    if v < 0x80 then 1
    else if v < 0x4000 then 2
    else if v < 0x20_0000 then 3
    else if v < 0x1000_0000 then 4
    else 5
  }

  lemma {:induction false} VarintSize32Exact(v: nat)
    requires v < TWO_32
    ensures |Encode(v)| == VarintSize32(v)
  {
    Powers();
    EncodedLength(v, 0);
    EncodedLength(v, 1);
    EncodedLength(v, 2);
    EncodedLength(v, 3);
    EncodedLength(v, 4);
  }

  lemma Encode64Fits(v: nat)
    requires v < TWO_64
    ensures |Encode(v)| <= MAX_BYTES
    ensures 0x8000_0000_0000_0000 <= v ==> |Encode(v)| == 10
  {
    Powers();
    EncodedLength(v, 8);
    EncodedLength(v, 9);
  }

  /** What a reader of either width gets back from an encoded value of that width. */
  lemma ReadEncoded(b: seq<Byte>, p: nat, v: nat)
    requires IsAt(b, p, Encode(v)) && v < TWO_64
    ensures ReadVarint64(b, p) == Some((v, p + |Encode(v)|))
    ensures ReadVarint32(b, p) == Some((v % TWO_32, p + |Encode(v)|))
  {
    hide Encode, DecodeFrom, IsAt;
    Encode64Fits(v);
    DecodeEncoded(b, p, 0, v);
  }

  type Int32 = x: int | -0x8000_0000 <= x < 0x8000_0000

  /** An int32 goes out sign-extended to 64 bits. */
  function Int32Wire(x: Int32): nat
  {
    if x < 0 then x + TWO_64 else x
  }

  /** And comes back as the low 32 bits, read as two's complement. */
  function Int32FromWire(w: nat): Int32
    requires w < TWO_32
  {
    if w < 0x8000_0000 then w else w - TWO_32
  }

  lemma Int32RoundTrip(x: Int32)
    ensures Int32Wire(x) < 0x1_0000_0000_0000_0000 && (Int32Wire(x) - x) % 0x1_0000_0000_0000_0000 == 0
    ensures Int32FromWire(Int32Wire(x) % TWO_32) == x
  {
  }

  /** Int32Size: ten bytes for every negative value. */
  function Int32Size(x: Int32): nat
  {
    if x < 0 then 10 else VarintSize32(x)
  }

  lemma Int32SizeExact(x: Int32)
    ensures |Encode(Int32Wire(x))| == Int32Size(x)
  {
    if x < 0 {
      Encode64Fits(Int32Wire(x));
    } else {
      VarintSize32Exact(x);
    }
  }

  lemma EncodeUnfolds(v: nat)
    ensures Encode(v) == if v < 128 then [v] else [v % 128 + 128] + Encode(v / 128)
  {
  }

  /** The writers' loop: a varint put into a buffer in place. */
  method WriteVarintToArray(value: nat, target: array<Byte>, at: nat) returns (next: nat)
    requires at + |Encode(value)| <= target.Length
    modifies target
    ensures next == at + |Encode(value)|
    ensures IsAt(target[..], at, Encode(value))
    ensures forall k | 0 <= k < target.Length && !(at <= k < next) :: target[k] == old(target[k])
  {
    hide Encode;
    var rest := value;
    next := at;
    while rest >= 128
      invariant at <= next && next + |Encode(rest)| == at + |Encode(value)|
      invariant Encode(value) == target[at..next] + Encode(rest)
      invariant forall k | 0 <= k < target.Length && !(at <= k < next) :: target[k] == old(target[k])
    {
      ghost var written := target[at..next];
      EncodeUnfolds(rest);
      Regroup(written, [rest % 128 + 128], Encode(rest / 128));
      target[next] := rest % 128 + 128;
      assert target[at..next + 1] == written + [rest % 128 + 128];
      rest := rest / 128;
      next := next + 1;
    }
    EncodeUnfolds(rest);
    ghost var written := target[at..next];
    target[next] := rest;
    next := next + 1;
    assert target[at..next] == written + [rest];
    assert target[..][at..next] == target[at..next];
  }
}
