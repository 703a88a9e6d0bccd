/** What single fields look like as bytes, with every number and default written out. */
module GroupConfBytes {
  import opened Basics
  import opened ByteSeq
  import opened Varint
  import opened GroupConfFields
  import opened GroupConfTables
  import opened GroupConfWire
  import opened GroupConf

  /** A message in which one field is set. */
  function Only(k: FieldIndex, v: Value): (m: Msg)
    ensures Sized(m)
  {
    Msg(Fresh().values[k := v], Fresh().has[k := true], [])
  }

  lemma OnlyItsBytes(k: FieldIndex, v: Value)
    ensures Serialized(Only(k, v)) == FieldBytes(k, v)
  {
    hide FieldBytes, DefaultOf;
    UnsetContributeNothing(Only(k, v), 0, k);
    UnsetContributeNothing(Only(k, v), k + 1, FIELDS);
  }

  /** Such a message goes out as the schema's number, the wire type and the value, and nothing else. */
  lemma FieldOnWire(k: FieldIndex, v: Value)
    requires OfKind(v, SCHEMA[k].kind)
    ensures var number, out := SCHEMA[k].number, Serialized(Only(k, v));
            && (v.I? ==> out == Encode(8 * number) + Encode(if v.i < 0 then v.i + 0x1_0000_0000_0000_0000 else v.i))
            && (v.B? ==> out == Encode(8 * number) + [if v.b then 1 else 0])
            && (v.S? ==> out == Encode(8 * number + 2) + (Encode(|v.s|) + v.s))
  {
    hide Encode, Serialized, Only;
    SchemaTable();
    OnlyItsBytes(k, v);
  }

  /** And is read back from these bytes as itself. */
  lemma OnlyReadsBack(k: FieldIndex, v: Value, limit: nat)
    requires OfKind(v, SCHEMA[k].kind)
    ensures ParseLoop(Serialized(Only(k, v)), 0, Fresh(), limit)
         == Some(Parsed(Only(k, v), |Serialized(Only(k, v))|, true))
  {
    hide Serialized, ParseLoop, DefaultOf;
    SchemaTable();
    FreshValid(limit);
    ParseSerialized(Only(k, v), limit);
  }

  lemma OneByte(v: nat)
    requires v < 128
    ensures Encode(v) == [v]
  {
  }

  /** Field 6, the number of cluster threads: 48, then the number. */
  lemma ThreadNumberOnWire(x: nat, limit: nat)
    requires x < 128
    ensures var m := Msg(Fresh().values[5 := I(x)], Fresh().has[5 := true], []);
            && Serialized(m) == [48, x]
            && ParseLoop([48, x], 0, Fresh(), limit) == Some(Parsed(m, 2, true))
    ensures Fresh().values[5] == I(10)
  {
    hide ParseLoop, Serialized, Encode;
    SchemaTable();
    FieldOnWire(5, I(x));
    OnlyReadsBack(5, I(x), limit);
    OneByte(48);
    OneByte(x);
  }

  /** Field 7, whether everybody may add: 56, then any varint; only zero in its low 32 bits is false. */
  lemma AllowAllOnWire(b: seq<Byte>, w: nat, limit: nat)
    requires b != [] && b[0] == 56 && ReadVarint32(b, 1) == Some((w, |b|))
    ensures ParseLoop(b, 0, Fresh(), limit)
         == Some(Parsed(Msg(Fresh().values[6 := B(w != 0)], Fresh().has[6 := true], []), |b|, true))
    ensures Fresh().values[6] == B(false)
  {
    hide ParseLoop, ParseField, ReadVarint32, ReadTag;
    SchemaTable();
    TagAt(b, 0, 56);
    ParseLoopUnfolds(b, 0, Fresh(), limit);
    ParseFieldUnfolds(b, 1, 6, Fresh(), limit);
    ParseEnds(b, WithField(Fresh(), 6, B(w != 0)), limit);
  }

  /** A one-byte tag. */
  lemma TagAt(b: seq<Byte>, p: nat, tag: nat)
    requires p < |b| && b[p] == tag && 0 < tag < 128
    ensures ReadTag(b, p) == Tag(tag, p + 1)
  {
    OneByte(tag);
    assert b[p..p + 1] == [tag];
    ReadTagWritten(b, p, tag);
  }

  /** An unknown field goes out under its number and the wire type of "Message Structure" it came with. */
  lemma UnknownOnWire(n: nat, v: nat, w: seq<Byte>, fields: seq<Unknown>)
    ensures UnknownBytes([UVarint(n, v)]) == Encode(8 * n) + Encode(v)
    ensures UnknownBytes([UFixed64(n, w)]) == Encode(8 * n + 1) + w
    ensures UnknownBytes([UBytes(n, w)]) == Encode(8 * n + 2) + (Encode(|w|) + w)
    ensures UnknownBytes([UGroup(n, fields)]) == Encode(8 * n + 3) + (UnknownBytes(fields) + Encode(8 * n + 4))
    ensures UnknownBytes([UFixed32(n, w)]) == Encode(8 * n + 5) + w
  {
    hide Encode;
    UnknownAlone(UVarint(n, v));
    UnknownAlone(UFixed64(n, w));
    UnknownAlone(UBytes(n, w));
    UnknownAlone(UGroup(n, fields));
    UnknownAlone(UFixed32(n, w));
  }

  lemma UnknownAlone(u: Unknown)
    ensures UnknownBytes([u]) == Encode(UnknownTag(u)) + UnknownPayload(u)
  {
    hide Encode, UnknownPayload;
    assert [u][1..] == [];
  }

  lemma TwoFieldsBytes(m: Msg)
    requires Sized(m) && forall k | 0 <= k < FIELDS :: m.has[k] <==> k == 5 || k == 6
    ensures Serialized(m) == FieldBytes(5, m.values[5]) + (FieldBytes(6, m.values[6]) + UnknownBytes(m.unknown))
  {
    hide FieldBytes, UnknownBytes;
    UnsetContributeNothing(m, 0, 5);
    UnsetContributeNothing(m, 7, FIELDS);
  }

  /** Set fields go out by number, then the unknown ones: 6 and 7, then the unknown 8. */
  lemma FieldsInOrder()
    ensures var m := Msg(Fresh().values[5 := I(25)][6 := B(true)], Fresh().has[5 := true][6 := true], [UVarint(8, 5)]);
            Serialized(m) == [48, 25, 56, 1, 64, 5]
  {
    hide DefaultOf, Serialized, UnknownBytes;
    TwoFieldsBytes(Msg(Fresh().values[5 := I(25)][6 := B(true)], Fresh().has[5 := true][6 := true], [UVarint(8, 5)]));
    UnknownOnWire(8, 5, [], []);
  }

  /** How the loop ends: at the end of the input, at a zero or cut-off tag, at a lone end-group tag. */
  lemma LoopEnds(m: Msg, limit: nat)
    requires Sized(m)
    ensures ParseLoop([], 0, m, limit) == Some(Parsed(m, 0, true))
    ensures ParseLoop([0, 48], 0, m, limit) == Some(Parsed(m, 0, false))
    ensures ParseLoop([200], 0, m, limit) == Some(Parsed(m, 0, false))
    ensures ParseLoop([12, 48], 0, m, limit) == Some(Parsed(m, 1, false))
  {
    TagAt([12, 48], 0, 12);
  }

  lemma FieldFails(b: seq<Byte>, tag: nat, k: nat, m: Msg, limit: nat)
    requires Sized(m) && b != [] && b[0] == tag && 0 < tag < 128 && FieldOf(tag) == k && ReadField(b, 1, k).None?
    ensures ParseLoop(b, 0, m, limit) == None
  {
    hide ParseLoop, ParseField, ReadField, FieldOf, ReadTag;
    TagAt(b, 0, tag);
    ParseLoopUnfolds(b, 0, m, limit);
    ParseFieldUnfolds(b, 1, k, m, limit);
  }

  lemma UnknownFails(b: seq<Byte>, tag: nat, m: Msg, limit: nat)
    requires Sized(m) && b != [] && b[0] == tag && 0 < tag < 128 && FieldOf(tag) < 0 && tag % 8 != END_GROUP
    requires SkipField(b, 1, tag, limit).None?
    ensures ParseLoop(b, 0, m, limit) == None
  {
    hide ParseLoop, ParseField, SkipField, FieldOf, ReadTag;
    TagAt(b, 0, tag);
    ParseLoopUnfolds(b, 0, m, limit);
  }

  /** And what makes it fail: a value that is cut off. */
  lemma CutOffFails(m: Msg, limit: nat)
    requires Sized(m)
    ensures ParseLoop([48], 0, m, limit) == None
    ensures ParseLoop([98, 3, 97, 98], 0, m, limit) == None
  {
    hide ParseLoop;
    FieldFails([48], 48, 5, m, limit);
    FieldFails([98, 3, 97, 98], 98, 8, m, limit);
  }

  /** A group that is closed under another number or not at all, one that is nested too deep, and wire type 6. */
  lemma BadUnknownFails(m: Msg, limit: nat)
    requires Sized(m)
    ensures ParseLoop([67, 76], 0, m, limit) == None
    ensures ParseLoop([67], 0, m, limit) == None
    ensures ParseLoop([67, 68], 0, m, 0) == None
    ensures ParseLoop([70], 0, m, limit) == None
  {
    hide ParseLoop;
    TagAt([67, 76], 1, 76);
    UnknownFails([67, 76], 67, m, limit);
    UnknownFails([67], 67, m, limit);
    UnknownFails([67, 68], 67, m, 0);
    UnknownFails([70], 70, m, limit);
  }

  /** What a new message shows. */
  lemma FreshShowsDefaults(k: FieldIndex)
    ensures Fresh().values[k] == LiteralValue(SCHEMA[k].default) && !Fresh().has[k] && Fresh().unknown == []
  {
    SchemaDefaults();
  }
}
