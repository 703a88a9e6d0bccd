/**
 The 41 fields of the GroupConfig message, in the order of their has-bits: kind, number, default,
 and the tag constants that the parser's fast path compares with.
 */
module GroupConfFields {
  import opened Basics
  import opened ByteSeq
  import opened Varint

  const FIELDS := 41

  /** A field by its has-bit. */
  type FieldIndex = k: nat | k < FIELDS

  datatype Kind = Int32Kind | BoolKind | StringKind

  datatype Value = I(i: Int32) | B(b: bool) | S(s: seq<Byte>)

  function KindOf(k: FieldIndex): Kind
  {
    if 7 <= k < 14 then StringKind
    else if k == 6 || k == 16 || k == 17 || k == 37 || k == 40 then BoolKind
    else Int32Kind
  }

  /** Numbers 1 to 7, 11 to 17 and 31 to 57 are in use. */
  function NumberOf(k: FieldIndex): nat
  {
    if k < 7 then k + 1 else if k < 14 then k + 4 else k + 17
  }

  /** The wire types of "Message Structure". */
  const VARINT := 0
  const FIXED64 := 1
  const LENGTH_DELIMITED := 2
  const START_GROUP := 3
  const END_GROUP := 4
  const FIXED32 := 5

  function WireType(kind: Kind): nat
  {
    if kind == StringKind then LENGTH_DELIMITED else VARINT
  }

  function MakeTag(number: nat, wireType: nat): nat
  {
    8 * number + wireType
  }

  function TagOf(k: FieldIndex): nat
  {
    MakeTag(NumberOf(k), WireType(KindOf(k)))
  }

  /** The arguments of the ExpectTag calls: entry k - 1 is tried after field k - 1 to go on with field k. */
  const EXPECT_TAGS: seq<nat> := [
    16, 24, 32, 40, 48, 56, 90,
    98, 106, 114, 122, 130, 138, 248,
    256, 264, 272, 280, 288, 296, 304, 312, 320, 328,
    336, 344, 352, 360, 368, 376, 384, 392, 400, 408,
    416, 424, 432, 440, 448, 456]

  /** The tag bytes that the size pass adds by hand. */
  function TagSize(k: FieldIndex): nat
  {
    if k < 12 then 1 else 2
  }

  /** The parser's switch: the field a tag belongs to, or -1 for an unknown number or a wrong wire type. */
  function FieldOf(tag: nat): (k: int)
    ensures -1 <= k < FIELDS
  {
    var n := tag / 8;
    var k := if 1 <= n <= 7 then n - 1 else if 11 <= n <= 17 then n - 4 else if 31 <= n <= 57 then n - 17 else -1;
    if 0 <= k && tag % 8 == WireType(KindOf(k)) then k else -1
  }

  function DefaultInt(k: nat): Int32
  {
    match k
    case 0 => -1
    case 1 => 100
    case 2 => 100
    case 3 => 8000
    case 4 => 3600
    case 5 => 10
    case 14 => 50
    case 15 => 25
    case 18 => 1800
    case 19 => 1
    case 20 => 20
    case 21 => 1500
    case 22 => 2000
    case 23 => 20
    case 24 => 3
    case 25 => 128
    case 26 => 300
    case 27 => 32
    case 28 => 32
    case 29 => 500
    case 30 => 10
    case 31 => 1024
    case 32 => 2048
    case 33 => 2048
    case 34 => 32000
    case 35 => 32000
    case 36 => 32000
    case 38 => 18000
    case 39 => 3
    case _ => 0
  }

  function DefaultText(k: nat): string
  {
    match k
    case 8 => "/bbts-group-data"
    case 9 => "bbts-group.log"
    case 10 => "bbts-group.resume"
    case 11 => "bbts-group.lock"
    case 12 => "bbts-group.sock"
    case 13 => "bbts-group.peer"
    case _ => ""
  }

  function Bytes(t: string): (s: seq<Byte>)
    ensures |s| == |t|
  {
    seq(|t|, i requires 0 <= i < |t| => (t[i] as int) % 256)
  }

  function DefaultOf(k: FieldIndex): Value
  {
    match KindOf(k)
    case Int32Kind => I(DefaultInt(k))
    case BoolKind => B(k == 16 || k == 17 || k == 37)
    case StringKind => S(Bytes(DefaultText(k)))
  }

  /** The value has the kind, and a string is no longer than a length can say. */
  predicate OfKind(v: Value, kind: Kind)
  {
    match kind
    case Int32Kind => v.I?
    case BoolKind => v.B?
    case StringKind => v.S? && |v.s| < 0x8000_0000
  }

  predicate Fits(k: FieldIndex, v: Value)
  {
    OfKind(v, KindOf(k))
  }

  lemma DefaultFits(k: FieldIndex)
    ensures Fits(k, DefaultOf(k))
  {
    assert |DefaultText(k)| <= 100;
  }

  /** The switch finds every field by its own tag, and the size pass adds the right number of tag bytes. */
  lemma TagTable(k: FieldIndex)
    ensures FieldOf(TagOf(k)) == k
    ensures 8 <= TagOf(k) < 0x4000 && |Encode(TagOf(k))| == TagSize(k)
  {
    hide Encode;
    assert TagOf(k) / 8 == NumberOf(k) && TagOf(k) % 8 == WireType(KindOf(k));
    VarintSize32Exact(TagOf(k));
  }

  /** The literals of the fast path are the tags of the fields they lead to. */
  lemma ExpectTagTable(k: FieldIndex)
    requires 0 < k
    ensures EXPECT_TAGS[k - 1] == TagOf(k)
  {
  }
}
