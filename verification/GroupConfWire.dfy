/**
 What GroupConfig messages mean on the wire: the serialized bytes, the plain tag loop of the parser,
 unknown fields (kept, groups included), merging, and the theorem that parsing undoes serializing.
 */
module GroupConfWire {
  import opened Basics
  import opened ByteSeq
  import opened Varint
  import opened GroupConfFields

  /** A field the message does not know, as the parser keeps it. */
  datatype Unknown =
    | UVarint(number: nat, v: nat)
    | UFixed32(number: nat, w: seq<Byte>)
    | UFixed64(number: nat, w: seq<Byte>)
    | UBytes(number: nat, s: seq<Byte>)
    | UGroup(number: nat, fields: seq<Unknown>)

  /** A message as its accessors show it. */
  datatype Msg = Msg(values: seq<Value>, has: seq<bool>, unknown: seq<Unknown>)

  function WithField(m: Msg, k: nat, v: Value): (m': Msg)
    requires k < |m.values| == |m.has|
    ensures |m'.values| == |m'.has| == |m.values|
  {
    m.(values := m.values[k := v], has := m.has[k := true])
  }

  function WithUnknown(m: Msg, u: Unknown): Msg
  {
    m.(unknown := m.unknown + [u])
  }

  predicate Sized(m: Msg)
  {
    |m.values| == |m.has| == FIELDS
  }

  // ---------------------------------------------------------------- writing

  function Payload(v: Value): seq<Byte>
  {
    match v
    case I(i) => Encode(Int32Wire(i))
    case B(b) => [if b then 1 else 0]
    case S(s) => Encode(|s|) + s
  }

  /** Tag and payload of a field. */
  function FieldBytes(k: FieldIndex, v: Value): seq<Byte>
  {
    Encode(TagOf(k)) + Payload(v)
  }

  function UnknownWireType(u: Unknown): nat
  {
    match u
    case UVarint(_, _) => VARINT
    case UFixed32(_, _) => FIXED32
    case UFixed64(_, _) => FIXED64
    case UBytes(_, _) => LENGTH_DELIMITED
    case UGroup(_, _) => START_GROUP
  }

  function UnknownTag(u: Unknown): nat
  {
    MakeTag(u.number, UnknownWireType(u))
  }

  function UnknownPayload(u: Unknown): seq<Byte>
    decreases u, 0
  {
    match u
    case UVarint(_, v) => Encode(v)
    case UFixed32(_, w) => w
    case UFixed64(_, w) => w
    case UBytes(_, s) => Encode(|s|) + s
    case UGroup(n, fields) => UnknownBytes(fields) + Encode(MakeTag(n, END_GROUP))
  }

  function UnknownBytes(us: seq<Unknown>): seq<Byte>
    decreases us, 1
  {
    if us == [] then []
    else Encode(UnknownTag(us[0])) + (UnknownPayload(us[0]) + UnknownBytes(us[1..]))
  }

  /** The fields from k on that are set, in order, then the unknown fields. */
  function BytesFrom(m: Msg, k: nat): seq<Byte>
    requires Sized(m) && k <= FIELDS
    decreases FIELDS - k
  {
    if k == FIELDS then UnknownBytes(m.unknown)
    else if m.has[k] then FieldBytes(k, m.values[k]) + BytesFrom(m, k + 1)
    else BytesFrom(m, k + 1)
  }

  function Serialized(m: Msg): seq<Byte>
    requires Sized(m)
  {
    BytesFrom(m, 0)
  }

  // ---------------------------------------------------------------- parsing

  /** ReadTag: no tag at the end of the input, and none (but not at the end) on a malformed or zero tag. */
  datatype TagRead = NoTag(atEnd: bool) | Tag(tag: nat, next: nat)

  function ReadTag(b: seq<Byte>, p: nat): (r: TagRead)
    requires p <= |b|
    ensures r.Tag? ==> p < r.next <= |b| && 0 < r.tag < TWO_32
  {
    if p == |b| then NoTag(true)
    else
      match ReadVarint32(b, p)
      case None => NoTag(false)
      case Some(r) => if r.0 == 0 then NoTag(false) else Tag(r.0, r.1)
  }

  /** A length and that many bytes; a length of 2^31 or more is negative as an int and refused. */
  function ReadBytes(b: seq<Byte>, p: nat): (r: Option<(seq<Byte>, nat)>)
    ensures r.Some? ==> p < r.value.1 <= |b| && |r.value.0| < 0x8000_0000
  {
    match ReadVarint32(b, p)
    case None => None
    case Some(r) =>
      if 0x8000_0000 <= r.0 || |b| < r.1 + r.0 then None
      else Some((b[r.1..r.1 + r.0], r.1 + r.0))
  }

  /** The value of a known field, once its tag is behind. */
  function ReadField(b: seq<Byte>, p: nat, k: FieldIndex): (r: Option<(Value, nat)>)
    ensures r.Some? ==> p < r.value.1 <= |b| && Fits(k, r.value.0)
  {
    ReadValue(b, p, KindOf(k))
  }

  /** ReadPrimitive for an int32 or a bool, ReadString for a string. */
  function ReadValue(b: seq<Byte>, p: nat, kind: Kind): (r: Option<(Value, nat)>)
    ensures r.Some? ==> p < r.value.1 <= |b|
  {
    match kind
    case Int32Kind => (match ReadVarint32(b, p) case None => None case Some(r) => Some((I(Int32FromWire(r.0)), r.1)))
    case BoolKind => (match ReadVarint32(b, p) case None => None case Some(r) => Some((B(r.0 != 0), r.1)))
    case StringKind => (match ReadBytes(b, p) case None => None case Some(r) => Some((S(r.0), r.1)))
  }

  /** Skips a field and returns it; `depth` is how many more groups may be nested. */
  function SkipField(b: seq<Byte>, p: nat, tag: nat, depth: nat): (r: Option<(Unknown, nat)>)
    requires p <= |b|
    ensures r.Some? ==> p <= r.value.1 <= |b|
    decreases |b| - p, 1
  {
    var n, wt := tag / 8, tag % 8;
    if wt == VARINT then
      match ReadVarint64(b, p)
      case None => None
      case Some(r) => Some((UVarint(n, r.0), r.1))
    else if wt == FIXED64 then
      if p + 8 <= |b| then Some((UFixed64(n, b[p..p + 8]), p + 8)) else None
    else if wt == LENGTH_DELIMITED then
      match ReadBytes(b, p)
      case None => None
      case Some(r) => Some((UBytes(n, r.0), r.1))
    else if wt == START_GROUP then
      if depth == 0 then None
      else
        match SkipMessage(b, p, depth - 1)
        case None => None
        case Some(r) => if r.1 == MakeTag(n, END_GROUP) then Some((UGroup(n, r.0), r.2)) else None
    else if wt == FIXED32 then
      if p + 4 <= |b| then Some((UFixed32(n, b[p..p + 4]), p + 4)) else None
    else None
  }

  /** The fields of a group, the tag that ended them (0 for none), and where. */
  function SkipMessage(b: seq<Byte>, p: nat, depth: nat): (r: Option<(seq<Unknown>, nat, nat)>)
    requires p <= |b|
    ensures r.Some? ==> p <= r.value.2 <= |b|
    decreases |b| - p, 0
  {
    match ReadTag(b, p)
    case NoTag(_) => Some(([], 0, p))
    case Tag(tag, q) =>
      if tag % 8 == END_GROUP then Some(([], tag, q))
      else
        match SkipField(b, q, tag, depth)
        case None => None
        case Some(f) =>
          match SkipMessage(b, f.1, depth)
          case None => None
          case Some(r) => Some(([f.0] + r.0, r.1, r.2))
  }

  /** A successful parse: the message, where reading stopped, and whether that was the input's end. */
  datatype Parsed = Parsed(m: Msg, pos: nat, atEnd: bool)

  /** The plain tag loop: read a tag, dispatch on it, repeat.  None when a field cannot be read. */
  function ParseLoop(b: seq<Byte>, p: nat, m: Msg, limit: nat): (r: Option<Parsed>)
    requires p <= |b| && Sized(m)
    ensures r.Some? ==> p <= r.value.pos <= |b| && Sized(r.value.m)
    decreases |b| - p, 1
  {
    match ReadTag(b, p)
    case NoTag(atEnd) => Some(Parsed(m, p, atEnd))
    case Tag(tag, q) =>
      var k := FieldOf(tag);
      if 0 <= k then ParseField(b, q, k, m, limit)
      else if tag % 8 == END_GROUP then Some(Parsed(m, q, false))
      else
        match SkipField(b, q, tag, limit)
        case None => None
        case Some(f) => ParseLoop(b, f.1, WithUnknown(m, f.0), limit)
  }

  /** The body of a case: read the field's value, set it, go on with the loop. */
  function ParseField(b: seq<Byte>, p: nat, k: FieldIndex, m: Msg, limit: nat): (r: Option<Parsed>)
    requires p <= |b| && Sized(m)
    ensures r.Some? ==> p <= r.value.pos <= |b| && Sized(r.value.m)
    decreases |b| - p, 0
  {
    match ReadField(b, p, k)
    case None => None
    case Some(f) => ParseLoop(b, f.1, WithField(m, k, f.0), limit)
  }

  // ------------------------------------------------------- parse undoes write

  /** An unknown field that can stand inside a group, with `depth` more levels of nesting allowed. */
  predicate InnerOk(u: Unknown, depth: nat)
    decreases u, 0
  {
    && u.number < 0x2000_0000
    && match u
       case UVarint(n, v) => 0 < n && v < TWO_64
       case UFixed32(_, w) => |w| == 4
       case UFixed64(_, w) => |w| == 8
       case UBytes(_, s) => |s| < 0x8000_0000
       case UGroup(_, fields) => 0 < depth && AllInnerOk(fields, depth - 1)
  }

  predicate AllInnerOk(us: seq<Unknown>, depth: nat)
    decreases us, 1
  {
    us == [] || (InnerOk(us[0], depth) && AllInnerOk(us[1..], depth))
  }

  /** At the top level, a field the switch sends to handle_uninterpreted. */
  predicate OuterOk(u: Unknown, depth: nat)
  {
    InnerOk(u, depth) && FieldOf(UnknownTag(u)) == -1
  }

  predicate AllOuterOk(us: seq<Unknown>, depth: nat)
  {
    forall i | 0 <= i < |us| :: OuterOk(us[i], depth)
  }

  /** A message that memory can hold and the parser can build. */
  predicate Valid(m: Msg, limit: nat)
  {
    && Sized(m)
    && (forall k | 0 <= k < FIELDS :: Fits(k, m.values[k]))
    && (forall k | 0 <= k < FIELDS && !m.has[k] :: m.values[k] == DefaultOf(k))
    && AllOuterOk(m.unknown, limit)
  }

  function Fresh(): (m: Msg)
    ensures Sized(m)
  {
    Msg(seq(FIELDS, k requires 0 <= k < FIELDS => DefaultOf(k)), seq(FIELDS, _ => false), [])
  }

  /** The fields of `from` that are set, from number k on, overwrite those of m; unknown fields are appended. */
  function MergedFrom(m: Msg, from: Msg, k: nat): (r: Msg)
    requires Sized(m) && Sized(from) && k <= FIELDS
    ensures Sized(r)
    decreases FIELDS - k
  {
    if k == FIELDS then m.(unknown := m.unknown + from.unknown)
    else MergedFrom(if from.has[k] then WithField(m, k, from.values[k]) else m, from, k + 1)
  }

  /** "Last One Wins": a set field of the second message replaces the first's, the others stay. */
  function Merged(m: Msg, from: Msg): (r: Msg)
    requires Sized(m) && Sized(from)
    ensures Sized(r)
  {
    Msg(seq(FIELDS, k requires 0 <= k < FIELDS => if from.has[k] then from.values[k] else m.values[k]),
        seq(FIELDS, k requires 0 <= k < FIELDS => m.has[k] || from.has[k]),
        m.unknown + from.unknown)
  }

  lemma {:induction false} MergedFromIs(m: Msg, from: Msg, k: nat)
    requires Sized(m) && Sized(from) && k <= FIELDS
    ensures var r := MergedFrom(m, from, k);
            && r.unknown == m.unknown + from.unknown
            && forall j | 0 <= j < FIELDS ::
                 && r.values[j] == (if k <= j && from.has[j] then from.values[j] else m.values[j])
                 && r.has[j] == (m.has[j] || (k <= j && from.has[j]))
    decreases FIELDS - k
  {
    if k < FIELDS {
      MergedFromIs(if from.has[k] then WithField(m, k, from.values[k]) else m, from, k + 1);
    }
  }

  lemma MergedIsMergedFrom(m: Msg, from: Msg)
    requires Sized(m) && Sized(from)
    ensures MergedFrom(m, from, 0) == Merged(m, from)
  {
    MergedFromIs(m, from, 0);
  }

  lemma ReadBytesAt(b: seq<Byte>, p: nat, q: nat, s: seq<Byte>)
    requires ReadVarint32(b, p) == Some((|s|, q)) && IsAt(b, q, s) && |s| < 0x8000_0000
    ensures ReadBytes(b, p) == Some((s, q + |s|))
  {
  }

  lemma ReadBytesWritten(b: seq<Byte>, p: nat, s: seq<Byte>)
    requires IsAt(b, p, Encode(|s|) + s) && |s| < 0x8000_0000
    ensures ReadBytes(b, p) == Some((s, p + |Encode(|s|) + s|))
  {
    hide Encode, ReadVarint32, IsAt, ReadBytes;
    var length := Encode(|s|);
    IsAtSplit(b, p, length, s);
    ReadEncoded(b, p, |s|);
    ReadBytesAt(b, p, p + |length|, s);
  }

  lemma ReadTagWritten(b: seq<Byte>, p: nat, tag: nat)
    requires IsAt(b, p, Encode(tag)) && 0 < tag < TWO_32 && p <= |b|
    ensures ReadTag(b, p) == Tag(tag, p + |Encode(tag)|)
  {
    hide Encode, IsAt, ReadVarint32;
    ReadEncoded(b, p, tag);
  }

  lemma ReadFieldWritten(b: seq<Byte>, p: nat, k: FieldIndex, v: Value)
    requires Fits(k, v) && IsAt(b, p, Payload(v))
    ensures ReadField(b, p, k) == Some((v, p + |Payload(v)|))
  {
    match v
    case I(i) =>
      Int32RoundTrip(i);
      ReadEncoded(b, p, Int32Wire(i));
    case B(x) =>
      assert Encode(1) == [1] && Encode(0) == [0];
      ReadEncoded(b, p, if x then 1 else 0);
    case S(s) =>
      ReadBytesWritten(b, p, s);
  }

  lemma {:induction false} SkipFieldWritten(b: seq<Byte>, p: nat, u: Unknown, depth: nat)
    requires InnerOk(u, depth) && p <= |b| && IsAt(b, p, UnknownPayload(u))
    ensures SkipField(b, p, UnknownTag(u), depth) == Some((u, p + |UnknownPayload(u)|))
    decreases u, 0
  {
    hide Encode, UnknownBytes, SkipMessage, DecodeFrom;
    assert UnknownTag(u) / 8 == u.number && UnknownTag(u) % 8 == UnknownWireType(u);
    match u
    case UVarint(_, v) => ReadEncoded(b, p, v);
    case UFixed32(_, w) =>
    case UFixed64(_, w) =>
    case UBytes(_, s) => ReadBytesWritten(b, p, s);
    case UGroup(n, fields) =>
      SkipMessageWritten(b, p, fields, MakeTag(n, END_GROUP), depth - 1);
  }

  lemma TagPositive(u: Unknown, depth: nat)
    requires InnerOk(u, depth)
    ensures 0 < UnknownTag(u) < TWO_32 && UnknownTag(u) % 8 != END_GROUP
  {
  }

  lemma SkipMessageEnds(b: seq<Byte>, p: nat, depth: nat, tag: nat, q: nat)
    requires p <= |b| && ReadTag(b, p) == Tag(tag, q) && tag % 8 == END_GROUP
    ensures SkipMessage(b, p, depth) == Some(([], tag, q))
  {
  }

  lemma SkipMessageStep(b: seq<Byte>, p: nat, depth: nat, tag: nat, q: nat, u: Unknown, r: nat,
                        us: seq<Unknown>, end: nat, e: nat)
    requires p <= |b| && q <= |b| && r <= |b|
    requires ReadTag(b, p) == Tag(tag, q) && tag % 8 != END_GROUP
    requires SkipField(b, q, tag, depth) == Some((u, r))
    requires SkipMessage(b, r, depth) == Some((us, end, e))
    ensures SkipMessage(b, p, depth) == Some(([u] + us, end, e))
  {
  }

  lemma {:induction false} SkipMessageWritten(b: seq<Byte>, p: nat, us: seq<Unknown>, end: nat, depth: nat)
    requires AllInnerOk(us, depth) && p <= |b| && IsAt(b, p, UnknownBytes(us) + Encode(end))
    requires end % 8 == END_GROUP && end < TWO_32
    ensures SkipMessage(b, p, depth) == Some((us, end, p + |UnknownBytes(us) + Encode(end)|))
    decreases us, 1
  {
    hide IsAt, Encode, SkipField, SkipMessage, ReadTag, UnknownPayload, InnerOk;
    IsAtSplit(b, p, UnknownBytes(us), Encode(end));
    if us == [] {
      ReadTagWritten(b, p, end);
      SkipMessageEnds(b, p, depth, end, p + |Encode(end)|);
    } else {
      var u := us[0];
      UnknownHeadAt(b, p, us);
      var q := p + |Encode(UnknownTag(u))|;
      var r := q + |UnknownPayload(u)|;
      TagPositive(u, depth);
      ReadTagWritten(b, p, UnknownTag(u));
      SkipFieldWritten(b, q, u, depth);
      IsAtSplit(b, r, UnknownBytes(us[1..]), Encode(end));
      SkipMessageWritten(b, r, us[1..], end, depth);
      SkipMessageStep(b, p, depth, UnknownTag(u), q, u, r, us[1..], end, r + |UnknownBytes(us[1..])| + |Encode(end)|);
      assert [u] + us[1..] == us;
    }
  }

  /** Where the parts of a list of unknown fields stand. */
  lemma UnknownHeadAt(b: seq<Byte>, p: nat, us: seq<Unknown>)
    requires us != [] && IsAt(b, p, UnknownBytes(us))
    ensures var tag, payload := Encode(UnknownTag(us[0])), UnknownPayload(us[0]);
            && |UnknownBytes(us)| == |tag| + |payload| + |UnknownBytes(us[1..])|
            && IsAt(b, p, tag) && IsAt(b, p + |tag|, payload)
            && IsAt(b, p + |tag| + |payload|, UnknownBytes(us[1..]))
  {
    hide IsAt, Encode, UnknownPayload;
    var tag, payload, rest := Encode(UnknownTag(us[0])), UnknownPayload(us[0]), UnknownBytes(us[1..]);
    IsAtSplit(b, p, tag, payload + rest);
    IsAtSplit(b, p + |tag|, payload, rest);
  }

  lemma ParseUnknownStep(b: seq<Byte>, p: nat, m: Msg, limit: nat, tag: nat, q: nat, u: Unknown, r: nat)
    requires p <= |b| && q <= |b| && Sized(m)
    requires ReadTag(b, p) == Tag(tag, q) && tag % 8 != END_GROUP && FieldOf(tag) == -1
    requires SkipField(b, q, tag, limit) == Some((u, r))
    ensures ParseLoop(b, p, m, limit) == ParseLoop(b, r, WithUnknown(m, u), limit)
  {
  }

  lemma UnknownTagOk(u: Unknown, limit: nat)
    requires OuterOk(u, limit)
    ensures InnerOk(u, limit) && 0 < UnknownTag(u) < TWO_32
    ensures UnknownTag(u) % 8 != END_GROUP && FieldOf(UnknownTag(u)) == -1
  {
    TagPositive(u, limit);
  }

  /** Serialized unknown fields are read back in order. */
  lemma {:induction false} ParseUnknownWritten(b: seq<Byte>, p: nat, m: Msg, us: seq<Unknown>, limit: nat)
    requires Sized(m) && p <= |b| && IsAt(b, p, UnknownBytes(us))
    requires AllOuterOk(us, limit)
    ensures ParseLoop(b, p, m, limit)
         == ParseLoop(b, p + |UnknownBytes(us)|, m.(unknown := m.unknown + us), limit)
    decreases |us|
  {
    hide IsAt, Encode, SkipField, ParseLoop, ReadTag, UnknownPayload, InnerOk, UnknownTag, FieldOf;
    if us == [] {
      assert m.unknown + us == m.unknown;
    } else {
      var u := us[0];
      UnknownHeadAt(b, p, us);
      var q := p + |Encode(UnknownTag(u))|;
      var r := q + |UnknownPayload(u)|;
      UnknownTagOk(u, limit);
      ReadTagWritten(b, p, UnknownTag(u));
      SkipFieldWritten(b, q, u, limit);
      ParseUnknownStep(b, p, m, limit, UnknownTag(u), q, u, r);
      ParseUnknownWritten(b, r, WithUnknown(m, u), us[1..], limit);
      assert m.unknown + [u] + us[1..] == m.unknown + us;
    }
  }

  /** One serialized field is read back as one turn of the loop. */
  lemma ParseFieldWritten(b: seq<Byte>, p: nat, m: Msg, k: FieldIndex, v: Value, limit: nat)
    requires Sized(m) && p <= |b| && Fits(k, v) && IsAt(b, p, FieldBytes(k, v))
    ensures ParseLoop(b, p, m, limit) == ParseLoop(b, p + |FieldBytes(k, v)|, WithField(m, k, v), limit)
  {
    hide Encode, IsAt, ReadTag, ReadField, Payload, TagOf;
    TagTable(k);
    IsAtSplit(b, p, Encode(TagOf(k)), Payload(v));
    IsAtBound(b, p, Encode(TagOf(k)));
    ReadTagWritten(b, p, TagOf(k));
    ReadFieldWritten(b, p + |Encode(TagOf(k))|, k, v);
  }

  /** Parsing over a serialized message merges it into what was there. */
  lemma {:induction false} ParseWritten(b: seq<Byte>, p: nat, m: Msg, from: Msg, k: nat, limit: nat)
    requires Sized(m) && Valid(from, limit) && k <= FIELDS
    requires p <= |b| && IsAt(b, p, BytesFrom(from, k))
    ensures ParseLoop(b, p, m, limit)
         == ParseLoop(b, p + |BytesFrom(from, k)|, MergedFrom(m, from, k), limit)
    decreases FIELDS - k
  {
    hide IsAt, ParseLoop, FieldBytes, Fits, OuterOk, UnknownBytes, DefaultOf;
    if k == FIELDS {
      ParseUnknownWritten(b, p, m, from.unknown, limit);
    } else if from.has[k] {
      var bytes := FieldBytes(k, from.values[k]);
      IsAtSplit(b, p, bytes, BytesFrom(from, k + 1));
      IsAtBound(b, p, bytes);
      assert Fits(k, from.values[k]);
      ParseFieldWritten(b, p, m, k, from.values[k], limit);
      ParseWritten(b, p + |bytes|, WithField(m, k, from.values[k]), from, k + 1, limit);
    } else {
      ParseWritten(b, p, m, from, k + 1, limit);
    }
  }

  /** The message that a parse of `from`'s bytes turns m into, with more bytes to follow. */
  lemma ParseMerges(b: seq<Byte>, p: nat, m: Msg, from: Msg, limit: nat)
    requires Sized(m) && Valid(from, limit)
    requires p <= |b| && IsAt(b, p, Serialized(from))
    ensures ParseLoop(b, p, m, limit) == ParseLoop(b, p + |Serialized(from)|, Merged(m, from), limit)
  {
    hide ParseLoop, IsAt, BytesFrom, MergedFrom;
    ParseWritten(b, p, m, from, 0, limit);
    MergedIsMergedFrom(m, from);
  }

  /** Merging into a fresh message copies. */
  lemma MergedFresh(m: Msg, limit: nat)
    requires Valid(m, limit)
    ensures Merged(Fresh(), m) == m
  {
    var r := Merged(Fresh(), m);
    assert r.values == m.values && r.has == m.has && r.unknown == m.unknown;
  }

  lemma ParseEnds(b: seq<Byte>, m: Msg, limit: nat)
    requires Sized(m)
    ensures ParseLoop(b, |b|, m, limit) == Some(Parsed(m, |b|, true))
  {
  }

  /** Parse undoes serialize. */
  lemma ParseSerialized(m: Msg, limit: nat)
    requires Valid(m, limit)
    ensures ParseLoop(Serialized(m), 0, Fresh(), limit) == Some(Parsed(m, |Serialized(m)|, true))
  {
    assert Sized(m);
    hide ParseLoop, Serialized, Merged, Valid, IsAt;
    var b := Serialized(m);
    IsAtWhole(b);
    ParseMerges(b, 0, Fresh(), m, limit);
    MergedFresh(m, limit);
    ParseEnds(b, m, limit);
  }

  lemma ValidSized(m: Msg, limit: nat)
    requires Valid(m, limit)
    ensures Sized(m)
  {
  }

  /** A message at the front of the input has been read into the fresh one. */
  lemma ParseFirst(m: Msg, rest: seq<Byte>, limit: nat)
    requires Valid(m, limit)
    ensures var b := Serialized(m) + rest;
            ParseLoop(b, 0, Fresh(), limit) == ParseLoop(b, |Serialized(m)|, m, limit)
  {
    hide ParseLoop, Serialized, Merged, Valid, IsAt, Fresh, Sized;
    ValidSized(m, limit);
    var b := Serialized(m) + rest;
    IsAtWhole(b);
    IsAtSplit(b, 0, Serialized(m), rest);
    ParseMerges(b, 0, Fresh(), m, limit);
    MergedFresh(m, limit);
  }

  /** Parsing two serialized messages one after the other gives the first merged with the second. */
  lemma ParseConcatenation(m1: Msg, m2: Msg, limit: nat)
    requires Valid(m1, limit) && Valid(m2, limit)
    ensures var b := Serialized(m1) + Serialized(m2);
            ParseLoop(b, 0, Fresh(), limit) == Some(Parsed(Merged(m1, m2), |b|, true))
  {
    hide ParseLoop, Serialized, Merged, Valid, IsAt, Fresh, Sized;
    ValidSized(m1, limit);
    ValidSized(m2, limit);
    var s1, s2 := Serialized(m1), Serialized(m2);
    var b := s1 + s2;
    IsAtWhole(b);
    IsAtSplit(b, 0, s1, s2);
    ParseFirst(m1, s2, limit);
    ParseMerges(b, |s1|, m1, m2, limit);
    ParseEnds(b, Merged(m1, m2), limit);
  }

  // ---------------------------------------------- what a parse can produce

  lemma {:induction false} SkipFieldOk(b: seq<Byte>, p: nat, tag: nat, depth: nat)
    requires p <= |b| && 0 < tag < TWO_32 && SkipField(b, p, tag, depth).Some?
    ensures var u := SkipField(b, p, tag, depth).value.0; InnerOk(u, depth) && UnknownTag(u) == tag
    decreases |b| - p, 1
  {
    hide ReadVarint64, ReadBytes;
    if tag % 8 == START_GROUP {
      SkipMessageOk(b, p, depth - 1);
    }
  }

  lemma {:induction false} SkipMessageOk(b: seq<Byte>, p: nat, depth: nat)
    requires p <= |b| && SkipMessage(b, p, depth).Some?
    ensures AllInnerOk(SkipMessage(b, p, depth).value.0, depth)
    decreases |b| - p, 0
  {
    hide ReadTag, SkipField, InnerOk;
    match ReadTag(b, p)
    case NoTag(_) =>
    case Tag(tag, q) =>
      if tag % 8 != END_GROUP {
        SkipFieldOk(b, q, tag, depth);
        var f := SkipField(b, q, tag, depth).value;
        SkipMessageOk(b, f.1, depth);
        var rest := SkipMessage(b, f.1, depth).value.0;
        assert ([f.0] + rest)[1..] == rest;
      }
  }

  lemma WithUnknownValid(m: Msg, u: Unknown, limit: nat)
    requires Valid(m, limit) && OuterOk(u, limit)
    ensures Valid(WithUnknown(m, u), limit)
  {
    hide OuterOk;
  }

  /** A parser fed any bytes builds only valid messages. */
  lemma {:induction false} ParseKeepsValid(b: seq<Byte>, p: nat, m: Msg, limit: nat)
    requires p <= |b| && Valid(m, limit) && ParseLoop(b, p, m, limit).Some?
    ensures Valid(ParseLoop(b, p, m, limit).value.m, limit)
    decreases |b| - p
  {
    hide ReadTag, FieldOf, ReadField, SkipField, Fits, OuterOk, DefaultOf;
    match ReadTag(b, p)
    case NoTag(_) =>
    case Tag(tag, q) =>
      var k := FieldOf(tag);
      if 0 <= k {
        var f := ReadField(b, q, k).value;
        ParseKeepsValid(b, f.1, WithField(m, k, f.0), limit);
      } else if tag % 8 != END_GROUP {
        var f := SkipField(b, q, tag, limit).value;
        SkipFieldOk(b, q, tag, limit);
        UnknownIsOuter(f.0, tag, limit);
        WithUnknownValid(m, f.0, limit);
        ParseKeepsValid(b, f.1, WithUnknown(m, f.0), limit);
      }
  }

  lemma UnknownIsOuter(u: Unknown, tag: nat, limit: nat)
    requires InnerOk(u, limit) && UnknownTag(u) == tag && FieldOf(tag) == -1
    ensures OuterOk(u, limit)
  {
  }

  /** So whatever was parsed, unknown fields included, survives being written and parsed again. */
  lemma ReparseIsStable(b: seq<Byte>, limit: nat)
    requires ParseLoop(b, 0, Fresh(), limit).Some?
    ensures var m := ParseLoop(b, 0, Fresh(), limit).value.m;
            ParseLoop(Serialized(m), 0, Fresh(), limit) == Some(Parsed(m, |Serialized(m)|, true))
  {
    FreshValid(limit);
    ParseKeepsValid(b, 0, Fresh(), limit);
    ParseSerialized(ParseLoop(b, 0, Fresh(), limit).value.m, limit);
  }

  lemma FreshValid(limit: nat)
    ensures Valid(Fresh(), limit)
  {
    forall k | 0 <= k < FIELDS ensures Fits(k, Fresh().values[k]) {
      DefaultFits(k);
    }
  }
}
