/**
 The generated GroupConfig class: fields and has-bits changed in place by setters, parser, merge and
 clear; written out by two serializers and measured by the size pass.
 */
module GroupConf {
  import opened Basics
  import opened ByteSeq
  import opened Varint
  import opened GroupConfFields
  import opened GroupConfTables
  import opened GroupConfWire

  /** A field as stored.  A string is either the pointer to its shared default or an owned string. */
  datatype Cell = Num(i: Int32) | Flag(b: bool) | Shared | Owned(s: seq<Byte>)

  function CellValue(k: FieldIndex, c: Cell): Value
  {
    match c
    case Num(i) => I(i)
    case Flag(b) => B(b)
    case Shared => DefaultOf(k)
    case Owned(s) => S(s)
  }

  /** A field that holds a default as written; a string points to the shared text. */
  function LiteralCell(l: Literal): Cell
  {
    match l
    case N(n) => Num(n)
    case F(b) => Flag(b)
    case T(_) => Shared
  }

  lemma LiteralCellShows(k: FieldIndex, l: Literal)
    requires LiteralValue(l) == DefaultOf(k)
    ensures CellValue(k, LiteralCell(l)) == CellValue(k, StoredCell(LiteralValue(l))) == DefaultOf(k)
    ensures l.T? <==> KindOf(k) == StringKind
  {
  }

  /** What a setter leaves behind: strings become owned. */
  function StoredCell(v: Value): Cell
  {
    match v
    case I(i) => Num(i)
    case B(b) => Flag(b)
    case S(s) => Owned(s)
  }

  /** The field as if never set. */
  function WithoutField(m: Msg, k: nat): (m': Msg)
    requires k < |m.values| == |m.has| == FIELDS
    ensures Sized(m')
  {
    m.(values := m.values[k := DefaultOf(k)], has := m.has[k := false])
  }

  /** Fields k of group k / 8 share one guard in Clear, MergeFrom and ByteSize. */
  predicate GroupSet(has: seq<bool>, g: nat)
    requires |has| == FIELDS && g < 6
  {
    exists k | 8 * g <= k < GroupEnd(g) :: has[k]
  }

  function GroupEnd(g: nat): (e: nat)
    requires g < 6
    ensures 8 * g < e <= FIELDS && (g < 5 ==> e == 8 * (g + 1)) && (g == 5 ==> e == FIELDS)
  {
    if g < 5 then 8 * g + 8 else FIELDS
  }

  // ------------------------------------------------------------ sizes

  /** A summand of the size pass. */
  function SizeOf(s: Size, v: Value): nat
    requires OfKind(v, s.kind)
  {
    s.tagBytes + match s.kind
      case Int32Kind => Int32Size(v.i)
      case BoolKind => 1
      case StringKind => VarintSize32(|v.s|) + |v.s|
  }

  /** The summand that the size pass spells out for a field is the number of bytes the field takes. */
  lemma FieldSizeExact(k: FieldIndex, v: Value)
    requires Fits(k, v)
    ensures |SIZES| == 41 && OfKind(v, SIZES[k].kind) && |FieldBytes(k, v)| == SizeOf(SIZES[k], v)
  {
    hide Encode, TagOf, TagSize;
    SizesTable();
    TagTable(k);
    match v
    case I(i) => Int32SizeExact(i);
    case B(_) =>
    case S(s) => VarintSize32Exact(|s|);
  }

  /** Fields that are not set contribute no bytes. */
  lemma {:induction false} UnsetContributeNothing(m: Msg, k: nat, e: nat)
    requires Sized(m) && k <= e <= FIELDS
    requires forall j | k <= j < e :: !m.has[j]
    ensures BytesFrom(m, k) == BytesFrom(m, e)
    decreases e - k
  {
    hide FieldBytes;
    if k < e {
      UnsetContributeNothing(m, k + 1, e);
    }
  }

  // --------------------------------------------------------- fast path

  /** ExpectTag: true only if the next bytes are exactly this tag; `whole` says whether the buffer shows them all. */
  method ExpectTag(b: seq<Byte>, p: nat, tag: nat, whole: bool) returns (ok: bool, next: nat)
    requires tag < 0x4000
    ensures ok ==> IsAt(b, p, Encode(tag)) && next == p + |Encode(tag)|
    ensures !ok ==> next == p
    ensures whole ==> (ok <==> IsAt(b, p, Encode(tag)))
  {
    ok, next := false, p;
    if tag < 0x80 {
      ok := whole && p < |b| && b[p] == tag;
      next := if ok then p + 1 else p;
    } else {
      ok := whole && p + 1 < |b| && b[p] == tag % 0x80 + 0x80 && b[p + 1] == tag / 0x80;
      next := if ok then p + 2 else p;
      assert Encode(tag) == [tag % 128 + 128] + [tag / 128];
    }
    if ok {
      assert b[p..next] == Encode(tag);
    } else if IsAt(b, p, Encode(tag)) {
      IsAtByte(b, p, Encode(tag), 0);
      IsAtByte(b, p, Encode(tag), |Encode(tag)| - 1);
    }
  }

  /** Going on with field k because its tag was expected is what the loop would have done. */
  lemma ExpectedTagIsLoopTag(b: seq<Byte>, p: nat, m: Msg, k: FieldIndex, limit: nat)
    requires Sized(m) && p <= |b| && IsAt(b, p, Encode(TagOf(k)))
    ensures p + |Encode(TagOf(k))| <= |b|
    ensures ParseLoop(b, p, m, limit) == ParseField(b, p + |Encode(TagOf(k))|, k, m, limit)
  {
    hide Encode, IsAt, ReadTag, TagOf, ParseField;
    TagTable(k);
    IsAtBound(b, p, Encode(TagOf(k)));
    ReadTagWritten(b, p, TagOf(k));
  }

  /** What is left to do: the case of a pending field, or the tag loop from its top. */
  function Pending(b: seq<Byte>, p: nat, pending: int, m: Msg, limit: nat): Option<Parsed>
    requires p <= |b| && pending < FIELDS && Sized(m)
  {
    if pending < 0 then ParseLoop(b, p, m, limit) else ParseField(b, p, pending, m, limit)
  }

  // --------------------------------------------------------- the class

  class GroupConfig {
    const limit: nat  // how deep groups may nest when unknown fields are read
    var cells: seq<Cell>
    var hasBits: seq<bool>
    var unknownFields: seq<Unknown>

    predicate Shaped()
      reads this
    {
      |cells| == |hasBits| == FIELDS
    }

    /** The message as the accessors show it. */
    function View(): (m: Msg)
      requires Shaped()
      reads this
      ensures Sized(m) && m.has == hasBits && m.unknown == unknownFields
    {
      Msg(seq(FIELDS, k requires 0 <= k < FIELDS reads this requires |cells| == FIELDS => CellValue(k, cells[k])),
          hasBits, unknownFields)
    }

    /** Every field has its kind, and a field whose has-bit is clear shows its default. */
    ghost predicate Ok()
      reads this
    {
      Shaped() && Valid(View(), limit)
    }

    constructor (limit: nat)
      ensures this.limit == limit && Ok() && View() == Fresh()
    {
      this.limit := limit;
      cells := seq(|CONSTRUCTED|, k requires 0 <= k < |CONSTRUCTED| => LiteralCell(CONSTRUCTED[k]));
      hasBits := seq(FIELDS, _ => false);
      unknownFields := [];
      new;
      hide DefaultOf;
      ConstructedTable();
      forall k | 0 <= k < FIELDS ensures CellValue(k, cells[k]) == DefaultOf(k) {
        ConstructedTable();
        LiteralCellShows(k, CONSTRUCTED[k]);
      }
      AllDefaultIsFresh();
    }

    /** The store behind every mutator: one cell, one has-bit. */
    method Put(k: FieldIndex, c: Cell, has: bool)
      requires Ok()
      modifies this
      ensures Shaped() && cells == old(cells)[k := c] && hasBits == old(hasBits)[k := has]
      ensures unknownFields == old(unknownFields)
      ensures View() == old(View()).(values := old(View()).values[k := CellValue(k, c)], has := old(hasBits)[k := has])
      ensures Fits(k, CellValue(k, c)) && (!has ==> CellValue(k, c) == DefaultOf(k)) ==> Ok()
    {
      ghost var before := View();
      cells, hasBits := cells[k := c], hasBits[k := has];
      assert View().values == before.values[k := CellValue(k, c)];
      hide Fits, AllOuterOk, DefaultOf;
    }

    /** set_x for every field. */
    method SetField(k: FieldIndex, v: Value)
      requires Ok() && Fits(k, v)
      modifies this
      ensures Ok() && View() == WithField(old(View()), k, v)
      ensures View() == old(View()).(values := old(View()).values[k := v], has := old(hasBits)[k := true])
    {
      Put(k, StoredCell(v), true);
    }

    /** clear_x: an owned string is kept and reset to the default text. */
    method ClearField(k: FieldIndex)
      requires Ok()
      modifies this
      ensures Ok() && View() == WithoutField(old(View()), k)
      ensures View() == old(View()).(values := old(View()).values[k := DefaultOf(k)], has := old(hasBits)[k := false])
    {
      DefaultFits(k);
      UnsetTable();
      LiteralCellShows(k, UNSET[k]);
      var c := LiteralCell(UNSET[k]);
      if UNSET[k].T? && !cells[k].Shared? {
        c := StoredCell(LiteralValue(UNSET[k]));
      }
      Put(k, c, false);
    }

    /** mutable_x: the field counts as set from now on and keeps its value, which becomes owned. */
    method MutableField(k: FieldIndex)
      requires Ok() && KindOf(k) == StringKind
      modifies this
      ensures Ok() && cells[k].Owned? && View() == WithField(old(View()), k, old(View()).values[k])
      ensures View() == old(View()).(has := old(hasBits)[k := true])
    {
      assert Fits(k, View().values[k]);
      Put(k, StoredCell(CellValue(k, cells[k])), true);
    }

    /** release_x: hands out the owned string, if there is one, and goes back to the shared default. */
    method ReleaseField(k: FieldIndex) returns (r: Option<seq<Byte>>)
      requires Ok() && KindOf(k) == StringKind
      modifies this
      ensures Ok() && View() == WithoutField(old(View()), k)
      ensures View() == old(View()).(values := old(View()).values[k := DefaultOf(k)], has := old(hasBits)[k := false])
      ensures r == if old(cells[k]).Shared? then None else Some(old(View()).values[k].s)
    {
      DefaultFits(k);
      assert Fits(k, View().values[k]);
      r := if cells[k].Shared? then None else Some(cells[k].s);
      Put(k, Shared, false);
    }

    /** Clear: whole groups of eight without a has-bit are passed over; in the others only set strings are touched. */
    method Clear()
      requires Ok()
      modifies this
      ensures Ok() && View() == Fresh()
    {
      hide Valid, View, AllOuterOk, DefaultOf, Fits;
      ghost var before := View();
      CellsShow(before);
      for g := 0 to 6
        invariant Shaped() && hasBits == old(hasBits)
        invariant forall j | 0 <= j < FIELDS ::
                    if j < 8 * g then CellValue(j, cells[j]) == DefaultOf(j) else cells[j] == old(cells)[j]
      {
        if GroupSet(hasBits, g) {
          for k := 8 * g to GroupEnd(g)
            invariant Shaped() && hasBits == old(hasBits)
            invariant forall j | 0 <= j < FIELDS ::
                        if j < k then CellValue(j, cells[j]) == DefaultOf(j) else cells[j] == old(cells)[j]
          {
            ClearedOrDefault(k);
            ClearedTable();
            LiteralCellShows(k, CLEARED[k]);
            if CLEARED[k].T? {
              if hasBits[k] && !cells[k].Shared? {
                cells := cells[k := StoredCell(LiteralValue(CLEARED[k]))];
              }
            } else {
              cells := cells[k := LiteralCell(CLEARED[k])];
            }
          }
        } else {
          forall j | 8 * g <= j < GroupEnd(g) ensures CellValue(j, cells[j]) == DefaultOf(j) {
            assert !hasBits[j];
            ClearedOrDefault(j);
          }
        }
      }
      hasBits := seq(FIELDS, _ => false);
      unknownFields := [];
      AllDefaultIsFresh();
    }

    /** What the view says about single cells. */
    lemma CellsShow(m: Msg)
      requires Shaped() && m == View()
      ensures forall j | 0 <= j < FIELDS :: m.values[j] == CellValue(j, cells[j])
    {
    }

    lemma AllDefaultIsFresh()
      requires Shaped() && unknownFields == [] && hasBits == seq(FIELDS, _ => false)
      requires forall j | 0 <= j < FIELDS :: CellValue(j, cells[j]) == DefaultOf(j)
      ensures View() == Fresh() && Ok()
    {
      assert View().values == Fresh().values;
      FreshValid(limit);
    }

    twostate lemma ClearedOrDefault(k: FieldIndex)
      requires old(Ok()) && Shaped() && cells[k] == old(cells)[k]
      ensures !old(hasBits)[k] ==> CellValue(k, cells[k]) == DefaultOf(k)
      ensures cells[k].Shared? ==> CellValue(k, cells[k]) == DefaultOf(k)
    {
      assert old(View()).values[k] == CellValue(k, old(cells)[k]);
    }

    /** MergeFrom: guarded group by group, a set field of the source is set here; unknown fields are appended. */
    method MergeFrom(from: GroupConfig)
      requires from != this && Ok() && from.Ok() && from.limit == limit
      modifies this
      ensures Ok() && View() == Merged(old(View()), from.View())
    {
      hide Valid, View, Fits, AllOuterOk, DefaultOf, WithField;
      ghost var before := View();
      var source := from.View();
      MergedEnds(before, source);
      for g := 0 to 6
        invariant Ok() && View() == PartMerged(before, source, if g < 6 then 8 * g else FIELDS)
        invariant from.Shaped() && from.View() == source
      {
        if GroupSet(from.hasBits, g) {
          for k := 8 * g to GroupEnd(g)
            invariant Ok() && View() == PartMerged(before, source, k)
            invariant from.Shaped() && from.View() == source
          {
            PartMergedStep(before, source, k);
            if from.hasBits[k] {
              ValueFits(source, k, limit);
              SetField(k, source.values[k]);
            }
          }
        } else {
          PartMergedSkip(before, source, 8 * g, GroupEnd(g));
        }
      }
      label merged:
      unknownFields := unknownFields + from.unknownFields;
      UnknownAppended@merged(from);
    }

    twostate lemma UnknownAppended(from: GroupConfig)
      requires old(Ok()) && from.Ok() && from.limit == limit && Shaped()
      requires cells == old(cells) && hasBits == old(hasBits)
      requires unknownFields == old(unknownFields) + from.unknownFields
      ensures Ok() && View() == old(View()).(unknown := unknownFields)
    {
      hide OuterOk, Fits, DefaultOf;
      assert View().values == old(View()).values;
      assert AllOuterOk(unknownFields, limit) by {
        assert AllOuterOk(old(unknownFields), limit) && AllOuterOk(from.unknownFields, limit);
      }
    }

    /** CopyFrom: whatever was here before, the source's message is here now; copying from itself does nothing. */
    method CopyFrom(from: GroupConfig)
      requires Ok() && from.Ok() && from.limit == limit
      modifies this
      ensures Ok() && View() == old(from.View())
    {
      if from == this {
        return;
      }
      Clear();
      MergeFrom(from);
      MergedFresh(from.View(), limit);
    }

    method Swap(other: GroupConfig)
      requires Ok() && other.Ok() && other.limit == limit
      modifies this, other
      ensures Ok() && other.Ok() && View() == old(other.View()) && other.View() == old(View())
    {
      if other != this {
        cells, other.cells := other.cells, cells;
        hasBits, other.hasBits := other.hasBits, hasBits;
        unknownFields, other.unknownFields := other.unknownFields, unknownFields;
        assert View().values == old(other.View()).values && other.View().values == old(View()).values;
      }
    }

    /** The size pass: the sum over the guarded groups is the number of bytes the serializers emit. */
    method ByteSize() returns (total: nat)
      requires Ok()
      ensures total == |Serialized(View())|
    {
      hide View, Fits, OfKind, SizeOf, FieldBytes, UnknownBytes;
      ghost var m := View();
      CellsShow(m);
      total := 0;
      for g := 0 to 6
        invariant total + |BytesFrom(m, if g < 6 then 8 * g else FIELDS)| == |Serialized(m)|
      {
        if GroupSet(hasBits, g) {
          for k := 8 * g to GroupEnd(g)
            invariant total + |BytesFrom(m, k)| == |Serialized(m)|
          {
            if hasBits[k] {
              ValueFits(m, k, limit);
              FieldSizeExact(k, m.values[k]);
              total := total + SizeOf(SIZES[k], CellValue(k, cells[k]));
            }
          }
        } else {
          UnsetContributeNothing(m, 8 * g, GroupEnd(g));
        }
      }
      total := total + |UnknownBytes(unknownFields)|;
    }

    /** The stream serializer. */
    method SerializeWithCachedSizes(output: seq<Byte>) returns (r: seq<Byte>)
      requires Ok()
      ensures r == output + Serialized(View())
    {
      hide View, FieldBytes, UnknownBytes, WriteBytes, Fits, OfKind;
      ghost var m := View();
      CellsShow(m);
      r := output;
      ghost var written := [];
      for k := 0 to FIELDS
        invariant r == output + written && Serialized(m) == written + BytesFrom(m, k)
      {
        if hasBits[k] {
          ValueFits(m, k, limit);
          WritesAre(k, m.values[k]);
          var bytes := WriteBytes(STREAM_WRITES[k], CellValue(k, cells[k]));
          Regroup(written, bytes, BytesFrom(m, k + 1));
          Regroup(output, written, bytes);
          r := r + bytes;
          written := written + bytes;
        }
      }
      Regroup(output, written, UnknownBytes(unknownFields));
      r := r + UnknownBytes(unknownFields);
    }

    /** The array serializer, writing in place from `at` on: the same bytes. */
    method SerializeWithCachedSizesToArray(target: array<Byte>, at: nat) returns (next: nat)
      requires Ok() && at + |Serialized(View())| <= target.Length
      modifies target
      ensures next == at + |Serialized(View())|
      ensures IsAt(target[..], at, Serialized(View()))
      ensures forall k | 0 <= k < target.Length && !(at <= k < next) :: target[k] == old(target[k])
    {
      hide View, FieldBytes, UnknownBytes, BytesFrom, IsAt, CellValue, EmittedTo, Serialized, Fits, WriteBytes, OfKind;
      ghost var m := View();
      CellsShow(m);
      next := at;
      NothingEmitted(target, at, Serialized(m));
      BytesFromEnds(m);
      for k := 0 to FIELDS
        invariant EmittedTo(target, at, next, Serialized(m), BytesFrom(m, k))
        invariant forall j | 0 <= j < target.Length && !(at <= j < next) :: target[j] == old(target[j])
      {
        EmittedBounds(target, at, next, Serialized(m), BytesFrom(m, k));
        if hasBits[k] {
          ValueFits(m, k, limit);
          WritesAre(k, m.values[k]);
          BytesFromStep(m, k);
          next := EmitField(ARRAY_WRITES[k], CellValue(k, cells[k]), target, at, next,
                            Serialized(m), BytesFrom(m, k + 1));
        } else {
          BytesFromStep(m, k);
        }
      }
      EmittedBounds(target, at, next, Serialized(m), UnknownBytes(m.unknown));
      ghost var written := target[at..next];
      var start := next;
      next := WriteBytesToArray(UnknownBytes(unknownFields), target, start);
      WrittenTwice(target, at, start, written, UnknownBytes(m.unknown));
    }

    /** The top of the tag loop: a tag is read and dispatched on.  `pending` is the field whose case it is, or -1. */
    method TagTurn(b: seq<Byte>, pos: nat)
      returns (done: bool, ok: bool, next: nat, atEnd: bool, pending: int)
      requires Ok() && pos <= |b|
      modifies this
      ensures Ok() && pos <= next <= |b| && -1 <= pending < FIELDS
      ensures done ==> (ok <==> ParseLoop(b, pos, old(View()), limit).Some?)
      ensures done && ok ==> ParseLoop(b, pos, old(View()), limit) == Some(Parsed(View(), next, atEnd))
      ensures !done ==> pos < next && ParseLoop(b, pos, old(View()), limit) == Pending(b, next, pending, View(), limit)
    {
      hide Valid, View, ReadTag, ReadField, SkipField, FieldOf, OuterOk, WithUnknown, ParseField, ParseLoop;
      done, ok, next, atEnd, pending := true, true, pos, false, -1;
      ParseLoopUnfolds(b, pos, View(), limit);
      match ReadTag(b, pos)
      case NoTag(end) =>
        atEnd := end;
      case Tag(tag, behind) =>
        var k := FieldOf(tag);
        next := behind;
        if 0 <= k {
          done, pending := false, k;
        } else if tag % 8 != END_GROUP {
          var f := SkipField(b, behind, tag, limit);
          if f.None? {
            ok := false;
          } else {
            SkipFieldOk(b, behind, tag, limit);
            UnknownIsOuter(f.value.0, tag, limit);
            KeepUnknown(f.value.0);
            done, next := false, f.value.1;
          }
        }
    }

    /**
     The case of field k: its value is read and set, and the next field's tag is tried; `shown` says whether
     the buffer holds it.
     */
    method FieldTurn(b: seq<Byte>, pos: nat, k: FieldIndex, shown: bool)
      returns (done: bool, ok: bool, next: nat, atEnd: bool, pending: int)
      requires Ok() && pos <= |b|
      modifies this
      ensures Ok() && pos <= next <= |b| && -1 <= pending < FIELDS
      ensures done ==> (ok <==> ParseField(b, pos, k, old(View()), limit).Some?)
      ensures done && ok ==> ParseField(b, pos, k, old(View()), limit) == Some(Parsed(View(), next, atEnd))
      ensures !done ==>
                pos < next && ParseField(b, pos, k, old(View()), limit) == Pending(b, next, pending, View(), limit)
    {
      hide Valid, View, ReadValue, Fits, WithField, IsAt, Encode, TagOf, ParseField, ParseLoop;
      done, ok, next, atEnd, pending := true, true, pos, false, -1;
      CaseReads(b, pos, k);
      var f := ReadValue(b, pos, CASES[k].kind);
      ParseFieldUnfolds(b, pos, k, View(), limit);
      if f.None? {
        if CASES[k].kind == StringKind {
          MutableField(k);
        }
        ok := false;
        return;
      }
      SetField(k, f.value.0);
      done, next := false, f.value.1;
      if k + 1 < FIELDS {
        ExpectTagTable(k + 1);
        TagTable(k + 1);
        var expected, behind := ExpectTag(b, next, EXPECT_TAGS[k], shown);
        if expected {
          ExpectedTagIsLoopTag(b, next, View(), k + 1, limit);
          pending, next := k + 1, behind;
        }
      } else if next == |b| && shown {
        ParseEnds(b, View(), limit);
        done, atEnd := true, true;
      }
    }

    /**
     MergePartialFromCodedStream.  `pending` is the field whose parse label a goto leads to, or -1 at
     the top of the tag loop; `shown(i)` says whether the ExpectTag of the i-th case finds the whole tag in its
     buffer.  The outcome never depends on that: it is the plain tag loop's.
     */
    method MergePartialFromCodedStream(b: seq<Byte>, shown: nat -> bool) returns (ok: bool, pos: nat, atEnd: bool)
      requires Ok()
      modifies this
      ensures Ok()
      ensures ok <==> ParseLoop(b, 0, old(View()), limit).Some?
      ensures ok ==> ParseLoop(b, 0, old(View()), limit) == Some(Parsed(View(), pos, atEnd))
    {
      hide Valid, View, ParseField, ParseLoop;
      ghost var start := View();
      var pending, turns, done := -1, 0, false;
      ok, pos, atEnd := true, 0, false;
      while !done
        invariant Ok() && 0 <= pos <= |b| && -1 <= pending < FIELDS
        invariant !done ==> ParseLoop(b, 0, start, limit) == Pending(b, pos, pending, View(), limit)
        invariant done ==> (ok <==> ParseLoop(b, 0, start, limit).Some?)
        invariant done && ok ==> ParseLoop(b, 0, start, limit) == Some(Parsed(View(), pos, atEnd))
        decreases !done, |b| - pos
      {
        if pending < 0 {
          done, ok, pos, atEnd, pending := TagTurn(b, pos);
        } else {
          done, ok, pos, atEnd, pending := FieldTurn(b, pos, pending, shown(turns));
          turns := turns + 1;
        }
      }
    }

    /** SkipField's effect on the message. */
    method KeepUnknown(u: Unknown)
      requires Ok() && OuterOk(u, limit)
      modifies this`unknownFields
      ensures Ok() && View() == WithUnknown(old(View()), u)
    {
      unknownFields := unknownFields + [u];
      assert View().values == old(View()).values;
      WithUnknownValid(old(View()), u, limit);
    }
  }

  /** What the parser's case for a field reads is the field's kind of value. */
  lemma CaseReads(b: seq<Byte>, p: nat, k: FieldIndex)
    ensures |CASES| == 41 && ReadValue(b, p, CASES[k].kind) == ReadField(b, p, k)
    ensures CASES[k].kind == StringKind <==> KindOf(k) == StringKind
  {
    hide ReadValue;
    CasesTable();
  }

  lemma ParseLoopUnfolds(b: seq<Byte>, p: nat, m: Msg, limit: nat)
    requires p <= |b| && Sized(m)
    ensures var t, r := ReadTag(b, p), ParseLoop(b, p, m, limit);
            && (t.NoTag? ==> r == Some(Parsed(m, p, t.atEnd)))
            && (t.Tag? && 0 <= FieldOf(t.tag) ==> r == ParseField(b, t.next, FieldOf(t.tag), m, limit))
            && (t.Tag? && FieldOf(t.tag) < 0 && t.tag % 8 == END_GROUP ==> r == Some(Parsed(m, t.next, false)))
            && (t.Tag? && FieldOf(t.tag) < 0 && t.tag % 8 != END_GROUP ==>
                  var f := SkipField(b, t.next, t.tag, limit);
                  r == if f.None? then None else ParseLoop(b, f.value.1, WithUnknown(m, f.value.0), limit))
  {
  }

  lemma ParseFieldUnfolds(b: seq<Byte>, p: nat, k: FieldIndex, m: Msg, limit: nat)
    requires p <= |b| && Sized(m)
    ensures ParseField(b, p, k, m, limit)
         == match ReadField(b, p, k)
            case None => None
            case Some(f) => ParseLoop(b, f.1, WithField(m, k, f.0), limit)
  {
  }

  lemma BytesFromStep(m: Msg, k: FieldIndex)
    requires Sized(m)
    ensures BytesFrom(m, k)
         == (if m.has[k] then FieldBytes(k, m.values[k]) + BytesFrom(m, k + 1) else BytesFrom(m, k + 1))
  {
  }

  /** Of the bytes `all` those before `rest` stand from `at` to `next`, and there is room for the others. */
  ghost predicate EmittedTo(target: array<Byte>, at: nat, next: nat, all: seq<Byte>, rest: seq<Byte>)
    reads target
  {
    at <= next && next + |rest| == at + |all| <= target.Length && all == target[at..next] + rest
  }

  lemma NothingEmitted(target: array<Byte>, at: nat, all: seq<Byte>)
    requires at + |all| <= target.Length
    ensures EmittedTo(target, at, at, all, all)
  {
    assert target[at..at] + all == all;
  }

  lemma EmittedBounds(target: array<Byte>, at: nat, next: nat, all: seq<Byte>, rest: seq<Byte>)
    requires EmittedTo(target, at, next, all, rest)
    ensures at <= next <= target.Length && next + |rest| == at + |all| <= target.Length
    ensures all == target[at..next] + rest
  {
  }

  /** A field that is set goes out behind those before it. */
  method EmitField(w: Write, v: Value, target: array<Byte>, at: nat, start: nat, ghost all: seq<Byte>,
                   ghost rest: seq<Byte>)
    returns (next: nat)
    requires OfKind(v, w.kind) && EmittedTo(target, at, start, all, WriteBytes(w, v) + rest)
    modifies target
    ensures EmittedTo(target, at, next, all, rest) && start <= next
    ensures forall j | 0 <= j < target.Length && !(start <= j < next) :: target[j] == old(target[j])
  {
    hide WriteBytes, OfKind, IsAt;
    ghost var written, bytes := target[at..start], WriteBytes(w, v);
    Regroup(written, bytes, rest);
    next := WriteFieldToArray(w, v, target, start);
    Appended(target, at, start, written, bytes);
  }

  lemma BytesFromEnds(m: Msg)
    requires Sized(m)
    ensures Serialized(m) == BytesFrom(m, 0) && BytesFrom(m, FIELDS) == UnknownBytes(m.unknown)
  {
  }

  lemma ValueFits(m: Msg, k: FieldIndex, limit: nat)
    requires Valid(m, limit)
    ensures Fits(k, m.values[k])
  {
  }

  // ------------------------------------------------------ runs of mutators

  /** A public mutator with its arguments; Unset stands for clear_x and release_x, Parse for a successful parse. */
  datatype Mutation =
    | Set(k: nat, v: Value)
    | Unset(k: nat)
    | Mutable(k: nat)
    | Reset
    | Merge(from: Msg)
    | Copy(from: Msg)
    | Parse(b: seq<Byte>)

  predicate Applicable(m: Msg, op: Mutation, limit: nat)
    requires Sized(m)
  {
    match op
    case Set(k, v) => k < FIELDS && Fits(k, v)
    case Unset(k) => k < FIELDS
    case Mutable(k) => k < FIELDS && KindOf(k) == StringKind
    case Reset => true
    case Merge(from) => Valid(from, limit)
    case Copy(from) => Valid(from, limit)
    case Parse(b) => ParseLoop(b, 0, m, limit).Some?
  }

  /** The effect the class's methods are proved to have. */
  function Mutated(m: Msg, op: Mutation, limit: nat): (m': Msg)
    requires Sized(m) && Applicable(m, op, limit)
    ensures Sized(m')
  {
    match op
    case Set(k, v) => WithField(m, k, v)
    case Unset(k) => WithoutField(m, k)
    case Mutable(k) => WithField(m, k, m.values[k])
    case Reset => Fresh()
    case Merge(from) => Merged(m, from)
    case Copy(from) => from
    case Parse(b) => ParseLoop(b, 0, m, limit).value.m
  }

  ghost predicate BuiltBy(ops: seq<Mutation>, m: Msg, limit: nat)
    decreases |ops|
  {
    Sized(m)
    && if ops == [] then m == Fresh()
       else
         var front, last := ops[..|ops| - 1], ops[|ops| - 1];
         exists p :: BuiltBy(front, p, limit) && Yields(p, last, m, limit)
  }

  predicate Yields(p: Msg, op: Mutation, m: Msg, limit: nat)
  {
    Sized(p) && Applicable(p, op, limit) && Mutated(p, op, limit) == m
  }

  lemma MutatedValid(m: Msg, op: Mutation, limit: nat)
    requires Valid(m, limit) && Applicable(m, op, limit)
    ensures Valid(Mutated(m, op, limit), limit)
  {
    hide Fits, OuterOk, DefaultOf, ParseLoop;
    match op
    case Set(k, v) =>
    case Unset(k) => DefaultFits(k);
    case Mutable(k) =>
    case Reset => FreshValid(limit);
    case Merge(from) =>
      assert AllOuterOk(m.unknown + from.unknown, limit) by {
        assert AllOuterOk(m.unknown, limit) && AllOuterOk(from.unknown, limit);
      }
    case Copy(from) =>
    case Parse(b) => ParseKeepsValid(b, 0, m, limit);
  }

  /**
   Whatever mutators built it, a message keeps "has-bit clear, then default value", writes out to
   bytes that parse back to itself, and its has-bits and unknown fields alone make it fresh.
   */
  lemma {:induction false} MutatorsKeepDefaults(ops: seq<Mutation>, m: Msg, limit: nat)
    requires BuiltBy(ops, m, limit)
    ensures Valid(m, limit)
    ensures forall k | 0 <= k < FIELDS && !m.has[k] :: m.values[k] == DefaultOf(k)
    ensures ParseLoop(Serialized(m), 0, Fresh(), limit) == Some(Parsed(m, |Serialized(m)|, true))
    ensures (forall k | 0 <= k < FIELDS :: !m.has[k]) && m.unknown == [] ==> m == Fresh()
    decreases |ops|
  {
    hide ParseLoop, Serialized, Mutated, Applicable, Fits;
    if ops == [] {
      FreshValid(limit);
    } else {
      var front, last := ops[..|ops| - 1], ops[|ops| - 1];
      var p :| BuiltBy(front, p, limit) && Yields(p, last, m, limit);
      MutatorsKeepDefaults(front, p, limit);
      MutatedValid(p, last, limit);
    }
    ParseSerialized(m, limit);
    if (forall k | 0 <= k < FIELDS :: !m.has[k]) && m.unknown == [] {
      assert m.values == Fresh().values && m.has == Fresh().has;
    }
  }

  // --------------------------------------------------- merging, field by field

  /** m with the source's set fields below e. */
  function PartMerged(m: Msg, from: Msg, e: nat): (r: Msg)
    requires Sized(m) && Sized(from) && e <= FIELDS
    ensures Sized(r)
  {
    Msg(seq(FIELDS, k requires 0 <= k < FIELDS => if k < e && from.has[k] then from.values[k] else m.values[k]),
        seq(FIELDS, k requires 0 <= k < FIELDS => m.has[k] || (k < e && from.has[k])),
        m.unknown)
  }

  lemma PartMergedStep(m: Msg, from: Msg, k: FieldIndex)
    requires Sized(m) && Sized(from)
    ensures PartMerged(m, from, k + 1)
         == if from.has[k] then WithField(PartMerged(m, from, k), k, from.values[k]) else PartMerged(m, from, k)
  {
    var r, s := PartMerged(m, from, k + 1), PartMerged(m, from, k);
    if from.has[k] {
      assert r.values == s.values[k := from.values[k]] && r.has == s.has[k := true];
    } else {
      assert r.values == s.values && r.has == s.has;
    }
  }

  lemma PartMergedSkip(m: Msg, from: Msg, k: nat, e: nat)
    requires Sized(m) && Sized(from) && k <= e <= FIELDS
    requires forall j | k <= j < e :: !from.has[j]
    ensures PartMerged(m, from, k) == PartMerged(m, from, e)
  {
    var r, s := PartMerged(m, from, k), PartMerged(m, from, e);
    assert r.values == s.values && r.has == s.has;
  }

  lemma MergedEnds(m: Msg, from: Msg)
    requires Sized(m) && Sized(from)
    ensures PartMerged(m, from, 0) == m
    ensures PartMerged(m, from, FIELDS).(unknown := m.unknown + from.unknown) == Merged(m, from)
  {
    var none, all, r := PartMerged(m, from, 0), PartMerged(m, from, FIELDS), Merged(m, from);
    assert none.values == m.values && none.has == m.has;
    assert all.values == r.values && all.has == r.has;
  }

  // --------------------------------------------------------- writing in place

  lemma Appended(target: array<Byte>, at: nat, mid: nat, s: seq<Byte>, t: seq<Byte>)
    requires at <= mid && mid + |t| <= target.Length && target[at..mid] == s
    requires IsAt(target[..], mid, t)
    ensures target[at..mid + |t|] == s + t
  {
    assert target[..][mid..mid + |t|] == target[mid..mid + |t|];
    assert target[at..mid + |t|] == target[at..mid] + target[mid..mid + |t|];
  }

  method WriteBytesToArray(s: seq<Byte>, target: array<Byte>, at: nat) returns (next: nat)
    requires at + |s| <= target.Length
    modifies target
    ensures next == at + |s| && IsAt(target[..], at, s)
    ensures forall k | 0 <= k < target.Length && !(at <= k < next) :: target[k] == old(target[k])
  {
    for i := 0 to |s|
      invariant forall k | 0 <= k < target.Length ::
                  target[k] == if at <= k < at + i then s[k - at] else old(target[k])
    {
      target[at + i] := s[i];
    }
    next := at + |s|;
    assert target[..][at..next] == s;
  }

  /** A length and the bytes it counts, in place. */
  method WriteTextToArray(s: seq<Byte>, target: array<Byte>, at: nat) returns (next: nat)
    requires at + |Encode(|s|) + s| <= target.Length
    modifies target
    ensures next == at + |Encode(|s|) + s| && IsAt(target[..], at, Encode(|s|) + s)
    ensures forall j | 0 <= j < target.Length && !(at <= j < next) :: target[j] == old(target[j])
  {
    hide Encode;
    var text := WriteVarintToArray(|s|, target, at);
    next := WriteBytesToArray(s, target, text);
    WrittenTwice(target, at, text, Encode(|s|), s);
  }

  /** Two runs of bytes written one behind the other. */
  lemma WrittenTwice(target: array<Byte>, at: nat, mid: nat, s: seq<Byte>, t: seq<Byte>)
    requires mid == at + |s| && mid + |t| <= target.Length
    requires forall k | at <= k < mid :: target[k] == s[k - at]
    requires IsAt(target[..], mid, t)
    ensures IsAt(target[..], at, s + t)
  {
    assert target[at..mid] == s;
    Appended(target, at, mid, s, t);
    assert target[..][at..mid + |t|] == target[at..mid + |t|];
  }

  method WritePayloadToArray(v: Value, target: array<Byte>, at: nat) returns (next: nat)
    requires at + |Payload(v)| <= target.Length
    modifies target
    ensures next == at + |Payload(v)| && IsAt(target[..], at, Payload(v))
    ensures forall j | 0 <= j < target.Length && !(at <= j < next) :: target[j] == old(target[j])
  {
    hide Encode;
    match v {
      case I(i) =>
        next := WriteVarintToArray(Int32Wire(i), target, at);
      case B(b) =>
        target[at] := if b then 1 else 0;
        next := at + 1;
        assert target[..][at..next] == Payload(v);
      case S(s) =>
        next := WriteTextToArray(s, target, at);
    }
  }

  /** What a writer call for a field of a number and kind puts out. */
  function WriteBytes(w: Write, v: Value): seq<Byte>
    requires OfKind(v, w.kind)
  {
    Encode(MakeTag(w.number, WireType(w.kind))) + Payload(v)
  }

  /** The writer calls of both serializers put out the field's bytes. */
  lemma WritesAre(k: FieldIndex, v: Value)
    requires Fits(k, v)
    ensures |STREAM_WRITES| == |ARRAY_WRITES| == 41
    ensures OfKind(v, STREAM_WRITES[k].kind) && WriteBytes(STREAM_WRITES[k], v) == FieldBytes(k, v)
    ensures OfKind(v, ARRAY_WRITES[k].kind) && WriteBytes(ARRAY_WRITES[k], v) == FieldBytes(k, v)
  {
    hide Encode, Payload;
    StreamWritesTable();
    ArrayWritesTable();
  }

  /** Tag, then payload, each in place. */
  method WriteFieldToArray(w: Write, v: Value, target: array<Byte>, at: nat) returns (next: nat)
    requires OfKind(v, w.kind) && at + |WriteBytes(w, v)| <= target.Length
    modifies target
    ensures next == at + |WriteBytes(w, v)| && IsAt(target[..], at, WriteBytes(w, v))
    ensures forall j | 0 <= j < target.Length && !(at <= j < next) :: target[j] == old(target[j])
  {
    hide Encode, MakeTag, Payload, OfKind;
    var tag := MakeTag(w.number, WireType(w.kind));
    var start := WriteVarintToArray(tag, target, at);
    next := WritePayloadToArray(v, target, start);
    WrittenTwice(target, at, start, Encode(tag), Payload(v));
  }
}
