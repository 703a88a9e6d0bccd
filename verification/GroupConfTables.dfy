/**
 The tables that the generated code of GroupConfig spells out one by one: the schema it was made from, the
 parser's cases, the two serializers, the size pass, and the defaults in the constructor, in Clear and in the
 clear_x members.  They agree with each other, field by field.
 */
module GroupConfTables {
  import opened ByteSeq
  import opened GroupConfFields
  import opened Varint

  /** A default as written: a number, a flag or a text. */
  datatype Literal = N(n: Int32) | F(b: bool) | T(t: string)

  function LiteralValue(l: Literal): Value
  {
    match l
    case N(n) => I(n)
    case F(b) => B(b)
    case T(t) => S(Bytes(t))
  }

  /** A field of the schema. */
  datatype Entry = Entry(number: nat, kind: Kind, default: Literal)

  const SCHEMA: seq<Entry> := [
    Entry(1, Int32Kind, N(-1)), Entry(2, Int32Kind, N(100)), Entry(3, Int32Kind, N(100)),
    Entry(4, Int32Kind, N(8000)), Entry(5, Int32Kind, N(3600)), Entry(6, Int32Kind, N(10)),
    Entry(7, BoolKind, F(false)), Entry(11, StringKind, T("")), Entry(12, StringKind, T("/bbts-group-data")),
    Entry(13, StringKind, T("bbts-group.log")), Entry(14, StringKind, T("bbts-group.resume")),
    Entry(15, StringKind, T("bbts-group.lock")), Entry(16, StringKind, T("bbts-group.sock")),
    Entry(17, StringKind, T("bbts-group.peer")), Entry(31, Int32Kind, N(50)), Entry(32, Int32Kind, N(25)),
    Entry(33, BoolKind, F(true)), Entry(34, BoolKind, F(true)), Entry(35, Int32Kind, N(1800)),
    Entry(36, Int32Kind, N(1)), Entry(37, Int32Kind, N(20)), Entry(38, Int32Kind, N(1500)),
    Entry(39, Int32Kind, N(2000)), Entry(40, Int32Kind, N(20)), Entry(41, Int32Kind, N(3)),
    Entry(42, Int32Kind, N(128)), Entry(43, Int32Kind, N(300)), Entry(44, Int32Kind, N(32)),
    Entry(45, Int32Kind, N(32)), Entry(46, Int32Kind, N(500)), Entry(47, Int32Kind, N(10)),
    Entry(48, Int32Kind, N(1024)), Entry(49, Int32Kind, N(2048)), Entry(50, Int32Kind, N(2048)),
    Entry(51, Int32Kind, N(32000)), Entry(52, Int32Kind, N(32000)), Entry(53, Int32Kind, N(32000)),
    Entry(54, BoolKind, F(true)), Entry(55, Int32Kind, N(18000)), Entry(56, Int32Kind, N(3)),
    Entry(57, BoolKind, F(false))]

  /** A case of the parser's switch: the number it stands under, the wire type it tests, and what it reads. */
  datatype Case = Case(number: nat, wireType: nat, kind: Kind)

  const CASES: seq<Case> := [
    Case(1, 0, Int32Kind), Case(2, 0, Int32Kind), Case(3, 0, Int32Kind), Case(4, 0, Int32Kind),
    Case(5, 0, Int32Kind), Case(6, 0, Int32Kind), Case(7, 0, BoolKind), Case(11, 2, StringKind),
    Case(12, 2, StringKind), Case(13, 2, StringKind), Case(14, 2, StringKind), Case(15, 2, StringKind),
    Case(16, 2, StringKind), Case(17, 2, StringKind), Case(31, 0, Int32Kind), Case(32, 0, Int32Kind),
    Case(33, 0, BoolKind), Case(34, 0, BoolKind), Case(35, 0, Int32Kind), Case(36, 0, Int32Kind),
    Case(37, 0, Int32Kind), Case(38, 0, Int32Kind), Case(39, 0, Int32Kind), Case(40, 0, Int32Kind),
    Case(41, 0, Int32Kind), Case(42, 0, Int32Kind), Case(43, 0, Int32Kind), Case(44, 0, Int32Kind),
    Case(45, 0, Int32Kind), Case(46, 0, Int32Kind), Case(47, 0, Int32Kind), Case(48, 0, Int32Kind),
    Case(49, 0, Int32Kind), Case(50, 0, Int32Kind), Case(51, 0, Int32Kind), Case(52, 0, Int32Kind),
    Case(53, 0, Int32Kind), Case(54, 0, BoolKind), Case(55, 0, Int32Kind), Case(56, 0, Int32Kind),
    Case(57, 0, BoolKind)]

  /** A call of a WireFormatLite writer. */
  datatype Write = Write(number: nat, kind: Kind)

  const STREAM_WRITES: seq<Write> := [
    Write(1, Int32Kind), Write(2, Int32Kind), Write(3, Int32Kind), Write(4, Int32Kind), Write(5, Int32Kind),
    Write(6, Int32Kind), Write(7, BoolKind), Write(11, StringKind), Write(12, StringKind),
    Write(13, StringKind), Write(14, StringKind), Write(15, StringKind), Write(16, StringKind),
    Write(17, StringKind), Write(31, Int32Kind), Write(32, Int32Kind), Write(33, BoolKind),
    Write(34, BoolKind), Write(35, Int32Kind), Write(36, Int32Kind), Write(37, Int32Kind),
    Write(38, Int32Kind), Write(39, Int32Kind), Write(40, Int32Kind), Write(41, Int32Kind),
    Write(42, Int32Kind), Write(43, Int32Kind), Write(44, Int32Kind), Write(45, Int32Kind),
    Write(46, Int32Kind), Write(47, Int32Kind), Write(48, Int32Kind), Write(49, Int32Kind),
    Write(50, Int32Kind), Write(51, Int32Kind), Write(52, Int32Kind), Write(53, Int32Kind),
    Write(54, BoolKind), Write(55, Int32Kind), Write(56, Int32Kind), Write(57, BoolKind)]

  const ARRAY_WRITES: seq<Write> := [
    Write(1, Int32Kind), Write(2, Int32Kind), Write(3, Int32Kind), Write(4, Int32Kind), Write(5, Int32Kind),
    Write(6, Int32Kind), Write(7, BoolKind), Write(11, StringKind), Write(12, StringKind),
    Write(13, StringKind), Write(14, StringKind), Write(15, StringKind), Write(16, StringKind),
    Write(17, StringKind), Write(31, Int32Kind), Write(32, Int32Kind), Write(33, BoolKind),
    Write(34, BoolKind), Write(35, Int32Kind), Write(36, Int32Kind), Write(37, Int32Kind),
    Write(38, Int32Kind), Write(39, Int32Kind), Write(40, Int32Kind), Write(41, Int32Kind),
    Write(42, Int32Kind), Write(43, Int32Kind), Write(44, Int32Kind), Write(45, Int32Kind),
    Write(46, Int32Kind), Write(47, Int32Kind), Write(48, Int32Kind), Write(49, Int32Kind),
    Write(50, Int32Kind), Write(51, Int32Kind), Write(52, Int32Kind), Write(53, Int32Kind),
    Write(54, BoolKind), Write(55, Int32Kind), Write(56, Int32Kind), Write(57, BoolKind)]

  /** A summand of ByteSize: the tag bytes added by hand, and which payload size. */
  datatype Size = Size(tagBytes: nat, kind: Kind)

  const SIZES: seq<Size> := [
    Size(1, Int32Kind), Size(1, Int32Kind), Size(1, Int32Kind), Size(1, Int32Kind), Size(1, Int32Kind),
    Size(1, Int32Kind), Size(1, BoolKind), Size(1, StringKind), Size(1, StringKind), Size(1, StringKind),
    Size(1, StringKind), Size(1, StringKind), Size(2, StringKind), Size(2, StringKind), Size(2, Int32Kind),
    Size(2, Int32Kind), Size(2, BoolKind), Size(2, BoolKind), Size(2, Int32Kind), Size(2, Int32Kind),
    Size(2, Int32Kind), Size(2, Int32Kind), Size(2, Int32Kind), Size(2, Int32Kind), Size(2, Int32Kind),
    Size(2, Int32Kind), Size(2, Int32Kind), Size(2, Int32Kind), Size(2, Int32Kind), Size(2, Int32Kind),
    Size(2, Int32Kind), Size(2, Int32Kind), Size(2, Int32Kind), Size(2, Int32Kind), Size(2, Int32Kind),
    Size(2, Int32Kind), Size(2, Int32Kind), Size(2, BoolKind), Size(2, Int32Kind), Size(2, Int32Kind),
    Size(2, BoolKind)]

  /** The shared default texts that string fields point to. */
  const EMPTY: string := ""
  const GROUP_DATA_PATH := "/bbts-group-data"
  const LOG_FILE := "bbts-group.log"
  const RESUME_DIR := "bbts-group.resume"
  const LOCK_FILE := "bbts-group.lock"
  const UNIX_SOCKET := "bbts-group.sock"
  const PEER_STAT_LOG_FILE := "bbts-group.peer"

  const CONSTRUCTED: seq<Literal> := [
    N(-1), N(100), N(100), N(8000), N(3600), N(10), F(false), T(EMPTY), T(GROUP_DATA_PATH),
    T(LOG_FILE), T(RESUME_DIR), T(LOCK_FILE), T(UNIX_SOCKET),
    T(PEER_STAT_LOG_FILE), N(50), N(25), F(true), F(true), N(1800), N(1), N(20), N(1500), N(2000), N(20), N(3),
    N(128), N(300), N(32), N(32), N(500), N(10), N(1024), N(2048), N(2048), N(32000), N(32000), N(32000),
    F(true), N(18000), N(3), F(false)]

  const CLEARED: seq<Literal> := [
    N(-1), N(100), N(100), N(8000), N(3600), N(10), F(false), T(EMPTY), T(GROUP_DATA_PATH),
    T(LOG_FILE), T(RESUME_DIR), T(LOCK_FILE), T(UNIX_SOCKET),
    T(PEER_STAT_LOG_FILE), N(50), N(25), F(true), F(true), N(1800), N(1), N(20), N(1500), N(2000), N(20), N(3),
    N(128), N(300), N(32), N(32), N(500), N(10), N(1024), N(2048), N(2048), N(32000), N(32000), N(32000),
    F(true), N(18000), N(3), F(false)]

  const UNSET: seq<Literal> := [
    N(-1), N(100), N(100), N(8000), N(3600), N(10), F(false), T(EMPTY), T(GROUP_DATA_PATH),
    T(LOG_FILE), T(RESUME_DIR), T(LOCK_FILE), T(UNIX_SOCKET),
    T(PEER_STAT_LOG_FILE), N(50), N(25), F(true), F(true), N(1800), N(1), N(20), N(1500), N(2000), N(20), N(3),
    N(128), N(300), N(32), N(32), N(500), N(10), N(1024), N(2048), N(2048), N(32000), N(32000), N(32000),
    F(true), N(18000), N(3), F(false)]

  // ------------------------------------------------------- they agree

  lemma SchemaTable()
    ensures |SCHEMA| == 41
    ensures forall k: FieldIndex :: SCHEMA[k].number == NumberOf(k) && SCHEMA[k].kind == KindOf(k)
  {
  }

  lemma SchemaDefaults()
    ensures |SCHEMA| == 41 && forall k: FieldIndex :: LiteralValue(SCHEMA[k].default) == DefaultOf(k)
  {
  }

  lemma CasesTable()
    ensures |CASES| == 41
    ensures forall k: FieldIndex :: CASES[k] == Case(NumberOf(k), WireType(KindOf(k)), KindOf(k))
  {
  }

  /** The switch goes to case k exactly on the case's number with the wire type it tests. */
  lemma SwitchIff(k: FieldIndex, tag: nat)
    ensures FieldOf(tag) == k <==> tag == 8 * NumberOf(k) + WireType(KindOf(k))
  {
  }

  lemma StreamWritesTable()
    ensures |STREAM_WRITES| == 41 && forall k: FieldIndex :: STREAM_WRITES[k] == Write(NumberOf(k), KindOf(k))
  {
  }

  lemma ArrayWritesTable()
    ensures |ARRAY_WRITES| == 41 && forall k: FieldIndex :: ARRAY_WRITES[k] == Write(NumberOf(k), KindOf(k))
  {
  }

  lemma SizesTable()
    ensures |SIZES| == 41 && forall k: FieldIndex :: SIZES[k] == Size(TagSize(k), KindOf(k))
  {
  }

  lemma ConstructedTable()
    ensures |CONSTRUCTED| == |SCHEMA| == 41 && forall k: FieldIndex :: CONSTRUCTED[k] == SCHEMA[k].default
    ensures forall k: FieldIndex :: LiteralValue(CONSTRUCTED[k]) == DefaultOf(k)
  {
    hide LiteralValue, DefaultOf;
    SchemaDefaults();
  }

  lemma ClearedTable()
    ensures |CLEARED| == |SCHEMA| == 41 && forall k: FieldIndex :: CLEARED[k] == SCHEMA[k].default
    ensures forall k: FieldIndex :: LiteralValue(CLEARED[k]) == DefaultOf(k)
  {
    hide LiteralValue, DefaultOf;
    SchemaDefaults();
  }

  lemma UnsetTable()
    ensures |UNSET| == |SCHEMA| == 41 && forall k: FieldIndex :: UNSET[k] == SCHEMA[k].default
    ensures forall k: FieldIndex :: LiteralValue(UNSET[k]) == DefaultOf(k)
  {
    hide LiteralValue, DefaultOf;
    SchemaDefaults();
  }
}
