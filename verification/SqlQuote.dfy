/**
 The shell's quote-doubling writers: appendText, output_quoted_string and set_table_name.  All three
 emit the text with every quote doubled; the two that allocate fill their buffer exactly.
 */
module SqlQuote {
  import opened Basics
  import opened ByteSeq

  /** s with every q doubled. */
  function Doubled(s: seq<Byte>, q: Byte): seq<Byte>
  {
    if s == [] then [] else (if s[0] == q then [q, q] else [s[0]]) + Doubled(s[1..], q)
  }

  /** s as a literal between quotes q. */
  function Quoted(s: seq<Byte>, q: Byte): seq<Byte>
  {
    [q] + Doubled(s, q) + [q]
  }

  function Count(s: seq<Byte>, q: Byte): nat
  {
    if s == [] then 0 else (if s[0] == q then 1 else 0) + Count(s[1..], q)
  }

  lemma {:induction false} DoubledLength(s: seq<Byte>, q: Byte)
    ensures |Doubled(s, q)| == |s| + Count(s, q)
  {
    if s != [] {
      DoubledLength(s[1..], q);
    }
  }

  lemma {:induction false} DoubledSplit(s: seq<Byte>, t: seq<Byte>, q: Byte)
    ensures Doubled(s + t, q) == Doubled(s, q) + Doubled(t, q)
  {
    if s == [] {
      assert s + t == t;
    } else {
      assert (s + t)[1..] == s[1..] + t;
      DoubledSplit(s[1..], t, q);
      Regroup(if s[0] == q then [q, q] else [s[0]], Doubled(s[1..], q), Doubled(t, q));
    }
  }

  lemma {:induction false} CountSplit(s: seq<Byte>, t: seq<Byte>, q: Byte)
    ensures Count(s + t, q) == Count(s, q) + Count(t, q)
  {
    if s == [] {
      assert s + t == t;
    } else {
      assert (s + t)[1..] == s[1..] + t;
      CountSplit(s[1..], t, q);
    }
  }

  lemma DoubledSnoc(s: seq<Byte>, k: nat, q: Byte)
    requires k < |s|
    ensures Doubled(s[..k + 1], q) == Doubled(s[..k], q) + (if s[k] == q then [q, q] else [s[k]])
    ensures Count(s[..k + 1], q) == Count(s[..k], q) + (if s[k] == q then 1 else 0)
  {
    assert s[..k + 1] == s[..k] + [s[k]];
    DoubledSplit(s[..k], [s[k]], q);
    CountSplit(s[..k], [s[k]], q);
    assert [s[k]][1..] == [] && Doubled([s[k]], q) == (if s[k] == q then [q, q] else [s[k]]) + [];
  }

  lemma {:induction false} DoubledPlain(s: seq<Byte>, q: Byte)
    requires Count(s, q) == 0
    ensures Doubled(s, q) == s
  {
    if s != [] {
      DoubledPlain(s[1..], q);
      assert s == [s[0]] + s[1..];
    }
  }

  lemma {:induction false} CountZero(s: seq<Byte>, q: Byte)
    ensures Count(s, q) == 0 <==> q !in s
  {
    if s != [] {
      CountZero(s[1..], q);
      assert s == [s[0]] + s[1..];
    }
  }

  // --------------------------------------------------------- reading back

  /**
   Reads a literal whose opening quote is behind: a doubled quote stands for one, a single one ends
   the literal.  None when it never ends.
   */
  function ReadLiteral(b: seq<Byte>, p: nat, q: Byte): (r: Option<(seq<Byte>, nat)>)
    ensures r.Some? ==> p < r.value.1 <= |b|
    decreases |b| - p
  {
    if |b| <= p then None
    else if b[p] != q then
      match ReadLiteral(b, p + 1, q)
      case None => None
      case Some(r) => Some(([b[p]] + r.0, r.1))
    else if p + 1 < |b| && b[p + 1] == q then
      match ReadLiteral(b, p + 2, q)
      case None => None
      case Some(r) => Some(([q] + r.0, r.1))
    else Some(([], p + 1))
  }

  /** Undoubling recovers the text, wherever the literal stands, unless a further quote follows it. */
  lemma {:induction false} ReadBack(b: seq<Byte>, p: nat, s: seq<Byte>, q: Byte)
    requires IsAt(b, p, Doubled(s, q) + [q])
    requires p + |Doubled(s, q)| + 1 == |b| || b[p + |Doubled(s, q)| + 1] != q
    ensures ReadLiteral(b, p, q) == Some((s, p + |Doubled(s, q)| + 1))
    decreases |s|
  {
    hide IsAt;
    IsAtSplit(b, p, Doubled(s, q), [q]);
    if s == [] {
      IsAtByte(b, p, [q], 0);
    } else {
      var head, rest := if s[0] == q then [q, q] else [s[0]], Doubled(s[1..], q);
      IsAtSplit(b, p, head, rest);
      IsAtByte(b, p, head, 0);
      IsAtByte(b, p, head, |head| - 1);
      IsAtSplit(b, p + |head|, rest, [q]);
      IsAtBound(b, p + |head| + |rest|, [q]);
      ReadBack(b, p + |head|, s[1..], q);
      assert s == [s[0]] + s[1..];
    }
  }

  /** A literal byte for byte. */
  lemma DoubledExample(q: Byte, c: Byte)
    requires c != q
    ensures Quoted([c, q, c, q], q) == [q, c, q, q, c, q, q, q] && Quoted([], q) == [q, q]
  {
    var s := [c, q, c, q];
    assert s[1..] == [q, c, q] && s[1..][1..] == [c, q] && [c, q][1..] == [q] && [q][1..] == [];
    assert Doubled([q], q) == [q, q] + [];
    assert Doubled([c, q], q) == [c] + [q, q];
    assert Doubled([q, c, q], q) == [q, q] + [c, q, q];
  }

  /** A quoted text by itself reads back as the text. */
  lemma QuotedReadsBack(s: seq<Byte>, q: Byte)
    ensures ReadLiteral(Quoted(s, q), 1, q) == Some((s, |Quoted(s, q)|))
  {
    var b := Quoted(s, q);
    Regroup([q], Doubled(s, q), [q]);
    IsAtWhole(b);
    IsAtSplit(b, 0, [q], Doubled(s, q) + [q]);
    ReadBack(b, 1, s, q);
  }

  /** dump_callback's two levels: a name in double quotes, inside a literal in single quotes. */
  lemma NestedReadsBack(name: seq<Byte>)
    ensures var outer := Quoted(Quoted(name, DOUBLE), SINGLE);
            && ReadLiteral(outer, 1, SINGLE) == Some((Quoted(name, DOUBLE), |outer|))
            && ReadLiteral(ReadLiteral(outer, 1, SINGLE).value.0, 1, DOUBLE) == Some((name, |Quoted(name, DOUBLE)|))
  {
    QuotedReadsBack(Quoted(name, DOUBLE), SINGLE);
    QuotedReadsBack(name, DOUBLE);
  }

  // ------------------------------------------------------------- writers

  /** What appendText appends. */
  function Appendix(s: seq<Byte>, quote: Byte): seq<Byte>
  {
    if quote != 0 then Quoted(s, quote) else s
  }

  /** The length computation of appendText, terminator included. */
  method AppendedLength(nIn: nat, zAppend: seq<Byte>, quote: Byte) returns (len: nat)
    ensures len == nIn + |Appendix(zAppend, quote)| + 1
  {
    var nAppend := |zAppend|;
    len := nAppend + nIn + 1;
    if quote != 0 {
      len := len + 2;
      for i := 0 to nAppend
        invariant len == nAppend + nIn + 3 + Count(zAppend[..i], quote)
      {
        DoubledSnoc(zAppend, i, quote);
        if zAppend[i] == quote {
          len := len + 1;
        }
      }
      assert zAppend[..nAppend] == zAppend;
      DoubledLength(zAppend, quote);
    }
  }

  /**
   appendText: zIn grows by zAppend, quoted if a quote is given, in a new buffer of the computed
   length; the text and its terminator fill the buffer to the last byte.
   */
  method AppendText(zIn: Option<seq<Byte>>, zAppend: seq<Byte>, quote: Byte) returns (z: array<Byte>)
    ensures fresh(z)
    ensures z[..] == (if zIn.Some? then zIn.value else []) + Appendix(zAppend, quote) + [0]
    ensures Appendix(zAppend, quote) == if quote == 0 then zAppend else [quote] + Doubled(zAppend, quote) + [quote]
  {
    hide Doubled;
    var prefix := if zIn.Some? then zIn.value else [];
    var nIn := |prefix|;
    var len := AppendedLength(nIn, zAppend, quote);
    z := new Byte[len];
    var csr := CopyBytes(prefix, z, 0);
    if quote != 0 {
      csr := WriteQuoted(zAppend, quote, z, csr);
    } else {
      csr := CopyBytes(zAppend, z, csr);
    }
    z[csr] := 0;
    csr := csr + 1;
    assert csr == len;
    ThreeParts(z, prefix, Appendix(zAppend, quote));
  }

  /** A buffer that holds s, then t, then the terminator, and nothing more. */
  lemma ThreeParts(z: array<Byte>, s: seq<Byte>, t: seq<Byte>)
    requires z.Length == |s| + |t| + 1
    requires z[0..|s|] == s && z[|s|..|s| + |t|] == t && z[|s| + |t|] == 0
    ensures z[..] == s + t + [0]
  {
    assert z[..] == z[0..|s|] + z[|s|..|s| + |t|] + [0];
  }

  method CopyBytes(s: seq<Byte>, z: array<Byte>, at: nat) returns (next: nat)
    requires at + |s| <= z.Length
    modifies z
    ensures next == at + |s| && z[at..next] == s
    ensures forall k | 0 <= k < z.Length && !(at <= k < next) :: z[k] == old(z[k])
  {
    for i := 0 to |s|
      invariant forall k | 0 <= k < z.Length :: z[k] == if at <= k < at + i then s[k - at] else old(z[k])
    {
      z[at + i] := s[i];
    }
    next := at + |s|;
  }

  /** A quote, the doubled text, a quote. */
  method WriteQuoted(s: seq<Byte>, q: Byte, z: array<Byte>, at: nat) returns (next: nat)
    requires at + |Quoted(s, q)| <= z.Length
    modifies z
    ensures next == at + |Quoted(s, q)| && z[at..next] == Quoted(s, q)
    ensures forall k | 0 <= k < z.Length && !(at <= k < next) :: z[k] == old(z[k])
  {
    hide Doubled;
    z[at] := q;
    next := CopyDoubled(s, q, z, at + 1);
    z[next] := q;
    next := next + 1;
    assert z[at + 1..next - 1] == Doubled(s, q);
    assert z[at..next] == [z[at]] + z[at + 1..next - 1] + [z[next - 1]];
  }

  /** The doubling loop that appendText and set_table_name share, from position `at` of z. */
  method CopyDoubled(s: seq<Byte>, q: Byte, z: array<Byte>, at: nat) returns (next: nat)
    requires at + |Doubled(s, q)| <= z.Length
    modifies z
    ensures next == at + |Doubled(s, q)| && z[at..next] == Doubled(s, q)
    ensures forall k | 0 <= k < z.Length && !(at <= k < next) :: z[k] == old(z[k])
  {
    next := at;
    for i := 0 to |s|
      invariant next == at + |Doubled(s[..i], q)| && |Doubled(s[..i], q)| <= |Doubled(s, q)|
      invariant z[at..next] == Doubled(s[..i], q)
      invariant forall k | 0 <= k < z.Length && !(at <= k < next) :: z[k] == old(z[k])
    {
      DoubledSnoc(s, i, q);
      assert s == s[..i + 1] + s[i + 1..];
      DoubledSplit(s[..i + 1], s[i + 1..], q);
      ghost var done := z[at..next];
      z[next] := s[i];
      next := next + 1;
      assert z[at..next] == done + [s[i]];
      if s[i] == q {
        z[next] := q;
        next := next + 1;
        assert z[at..next] == done + [q, q];
      }
    }
    assert s[..|s|] == s;
  }

  /** output_quoted_string: spans between quotes are copied whole, every quote goes out twice. */
  method OutputQuotedString(output: seq<Byte>, z: seq<Byte>) returns (r: seq<Byte>)
    ensures r == output + Quoted(z, SINGLE) == output + ([39] + Doubled(z, 39) + [39])
  {
    var nSingle := 0;
    for i := 0 to |z|
      invariant nSingle == Count(z[..i], SINGLE)
    {
      DoubledSnoc(z, i, SINGLE);
      if z[i] == SINGLE {
        nSingle := nSingle + 1;
      }
    }
    assert z[..|z|] == z;
    hide Doubled, Count;
    if nSingle == 0 {
      DoubledPlain(z, SINGLE);
      r := output + ([SINGLE] + z + [SINGLE]);
    } else {
      var body := [];
      var p := 0;
      assert z[0..] == z;
      while p < |z|
        invariant p <= |z| && Doubled(z, SINGLE) == body + Doubled(z[p..], SINGLE)
        decreases |z| - p
      {
        var i := SpanLength(z, p);
        var span := z[p..p + i];
        SpanDoubled(z, p, i);
        var piece;
        if i == 0 {
          piece, p := [SINGLE, SINGLE], p + 1;
          assert span + piece == piece;
        } else if p + i < |z| {
          piece, p := span + [SINGLE, SINGLE], p + i + 1;
        } else {
          piece, p := span, |z|;
          assert z[p..] == [];
        }
        Regroup(body, piece, Doubled(z[p..], SINGLE));
        body := body + piece;
      }
      DoubledNothing(z[p..], SINGLE);
      r := output + ([SINGLE] + body + [SINGLE]);
    }
  }

  lemma DoubledNothing(s: seq<Byte>, q: Byte)
    requires s == []
    ensures Doubled(s, q) == []
  {
  }

  method SpanLength(z: seq<Byte>, p: nat) returns (i: nat)
    requires p < |z|
    ensures p + i <= |z| && SINGLE !in z[p..p + i]
    ensures p + i < |z| ==> z[p + i] == SINGLE
  {
    i := 0;
    while p + i < |z| && z[p + i] != SINGLE
      invariant p + i <= |z| && SINGLE !in z[p..p + i]
    {
      i := i + 1;
    }
  }

  /** A span without quotes, the quote that ends it if there is one, and the rest. */
  lemma SpanDoubled(z: seq<Byte>, p: nat, i: nat)
    requires p + i <= |z| && p < |z| && SINGLE !in z[p..p + i] && (p + i < |z| ==> z[p + i] == SINGLE)
    ensures p + i < |z| ==>
              Doubled(z[p..], SINGLE) == (z[p..p + i] + [SINGLE, SINGLE]) + Doubled(z[p + i + 1..], SINGLE)
    ensures p + i == |z| ==> Doubled(z[p..], SINGLE) == z[p..p + i] + Doubled([], SINGLE)
  {
    var span := z[p..p + i];
    CountZero(span, SINGLE);
    DoubledPlain(span, SINGLE);
    assert z[p..] == span + z[p + i..];
    DoubledSplit(span, z[p + i..], SINGLE);
    if p + i < |z| {
      assert z[p + i..][1..] == z[p + i + 1..];
      Regroup(span, [SINGLE, SINGLE], Doubled(z[p + i + 1..], SINGLE));
    } else {
      assert z[p + i..] == [];
    }
  }

  predicate IsAlpha(c: Byte)
  {
    65 <= c <= 90 || 97 <= c <= 122
  }

  predicate IsAlnum(c: Byte)
  {
    IsAlpha(c) || 48 <= c <= 57
  }

  /** A name that is not an identifier. */
  predicate NameNeedsQuote(name: seq<Byte>)
  {
    name == [] || (!IsAlpha(name[0]) && name[0] != UNDERSCORE)
    || exists i :: 0 <= i < |name| && !IsAlnum(name[i]) && name[i] != UNDERSCORE
  }

  /** A letter or an underscore, then letters, digits and underscores, in ASCII. */
  predicate Identifier(name: seq<Byte>)
  {
    && name != [] && !(48 <= name[0] <= 57)
    && forall i | 0 <= i < |name| ::
         65 <= name[i] <= 90 || 97 <= name[i] <= 122 || 48 <= name[i] <= 57 || name[i] == 95
  }

  /** set_table_name: identifiers as they are, other names quoted; the buffer has the size computed first. */
  method SetTableName(name: seq<Byte>) returns (z: array<Byte>)
    ensures fresh(z)
    ensures z[..] == (if NameNeedsQuote(name) then Quoted(name, SINGLE) else name) + [0]
    ensures NameNeedsQuote(name) <==> !Identifier(name)
  {
    var needQuote := name == [] || (!IsAlpha(name[0]) && name[0] != UNDERSCORE);
    var n := 0;
    for i := 0 to |name|
      invariant n == i + Count(name[..i], SINGLE)
      invariant needQuote <==> name == [] || (!IsAlpha(name[0]) && name[0] != UNDERSCORE)
                               || exists k :: 0 <= k < i && !IsAlnum(name[k]) && name[k] != UNDERSCORE
    {
      DoubledSnoc(name, i, SINGLE);
      if !IsAlnum(name[i]) && name[i] != UNDERSCORE {
        needQuote := true;
        if name[i] == SINGLE {
          n := n + 1;
        }
      }
      n := n + 1;
    }
    assert name[..|name|] == name;
    DoubledLength(name, SINGLE);
    CountZero(name, SINGLE);
    if needQuote {
      n := n + 2;
    } else {
      DoubledPlain(name, SINGLE);
    }
    z := new Byte[n + 1];
    hide Doubled;
    if needQuote {
      n := WriteQuoted(name, SINGLE, z, 0);
    } else {
      n := CopyDoubled(name, SINGLE, z, 0);
    }
    z[n] := 0;
    assert n + 1 == z.Length;
    assert z[..] == z[0..n] + [0];
  }
}
