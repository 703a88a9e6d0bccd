/**
 The shell's C-string printer (output_c_string), what its unescaper makes of a text, and the tokens of a
 dot-command: what the printer shows can be typed back.
 */
module ShellArgs {
  import opened Basics
  import opened ByteSeq

  // ------------------------------------------------------------ printing

  predicate IsPrint(c: Byte)
  {
    32 <= c < 127
  }

  /** The text for one byte; a byte that does not print becomes three octal digits. */
  function EscapedByte(c: Byte): (e: seq<Byte>)
    ensures 1 <= |e| <= 4
  {
    if c == BACKSLASH then [BACKSLASH, BACKSLASH]
    else if c == TAB then [BACKSLASH, LOWER_T]
    else if c == NEWLINE then [BACKSLASH, LOWER_N]
    else if c == RETURN then [BACKSLASH, LOWER_R]
    else if !IsPrint(c) then [BACKSLASH, ZERO + c / 64, ZERO + c / 8 % 8, ZERO + c % 8]
    else [c]
  }

  predicate OctalDigit(c: Byte)
  {
    48 <= c <= 55
  }

  /** The value of three octal digits. */
  function OctalValue(a: int, b: int, c: int): int
  {
    64 * (a - 48) + 8 * (b - 48) + (c - 48)
  }

  /** The printer's table: \t, \n, \r and \\ by name, printable ASCII as it is, the rest by three octal digits. */
  lemma EscapedByteIs(c: Byte)
    ensures var e := EscapedByte(c);
            if c == 9 then e == [92, 116]
            else if c == 10 then e == [92, 110]
            else if c == 13 then e == [92, 114]
            else if c == 92 then e == [92, 92]
            else if 32 <= c <= 126 then e == [c]
            else
              && |e| == 4 && e[0] == 92 && OctalDigit(e[1]) && OctalDigit(e[2]) && OctalDigit(e[3])
              && c == OctalValue(e[1], e[2], e[3])
  {
    OctalDigits(c);
  }

  function Escaped(z: seq<Byte>): seq<Byte>
  {
    if z == [] then [] else EscapedByte(z[0]) + Escaped(z[1..])
  }

  function CText(z: seq<Byte>): seq<Byte>
  {
    [DOUBLE] + Escaped(z) + [DOUBLE]
  }

  lemma {:induction false} EscapedSplit(s: seq<Byte>, t: seq<Byte>)
    ensures Escaped(s + t) == Escaped(s) + Escaped(t)
  {
    hide EscapedByte;
    if s == [] {
      assert s + t == t;
    } else {
      assert (s + t)[1..] == s[1..] + t;
      EscapedSplit(s[1..], t);
      Regroup(EscapedByte(s[0]), Escaped(s[1..]), Escaped(t));
    }
  }

  lemma EscapedSnoc(z: seq<Byte>, k: nat)
    requires k < |z|
    ensures Escaped(z[..k + 1]) == Escaped(z[..k]) + EscapedByte(z[k])
  {
    hide EscapedByte;
    assert z[..k + 1] == z[..k] + [z[k]];
    EscapedSplit(z[..k], [z[k]]);
    assert [z[k]][1..] == [] && Escaped([z[k]]) == EscapedByte(z[k]) + [];
  }

  /** The printing loop, one branch a kind of byte. */
  method OutputCString(output: seq<Byte>, z: seq<Byte>) returns (r: seq<Byte>)
    ensures r == output + CText(z)
  {
    hide Escaped;
    var body := [];
    assert z[..0] == [];
    EscapedNothing();
    for i := 0 to |z|
      invariant body == Escaped(z[..i])
    {
      EscapedSnoc(z, i);
      var c := z[i];
      if c == BACKSLASH {
        body := body + [c, c];
      } else if c == TAB {
        body := body + [BACKSLASH, LOWER_T];
      } else if c == NEWLINE {
        body := body + [BACKSLASH, LOWER_N];
      } else if c == RETURN {
        body := body + [BACKSLASH, LOWER_R];
      } else if !IsPrint(c) {
        body := body + [BACKSLASH, ZERO + c / 64, ZERO + c / 8 % 8, ZERO + c % 8];
      } else {
        body := body + [c];
      }
    }
    assert z[..|z|] == z;
    r := output + ([DOUBLE] + body + [DOUBLE]);
  }

  lemma EscapedNothing()
    ensures Escaped([]) == []
  {
  }

  // ---------------------------------------------------------- unescaping

  predicate IsOctal(s: seq<Byte>, i: nat)
  {
    i < |s| && 48 <= s[i] <= 55
  }

  /** How many bytes of s the unescaper consumes at i. */
  function UnitLength(s: seq<Byte>, i: nat): (n: nat)
    requires i < |s|
    ensures 1 <= n <= 4
  {
    if s[i] != BACKSLASH then 1
    else if !IsOctal(s, i + 1) then 2
    else if !IsOctal(s, i + 2) then 2
    else if !IsOctal(s, i + 3) then 3
    else 4
  }

  /** The byte they stand for; octal values are cut to eight bits. */
  function UnitByte(s: seq<Byte>, i: nat): Byte
    requires i < |s| && i + UnitLength(s, i) <= |s|
  {
    if s[i] != BACKSLASH then s[i]
    else if IsOctal(s, i + 1) then
      var d1 := s[i + 1] - 48;
      if !IsOctal(s, i + 2) then d1
      else
        var d2 := d1 * 8 + s[i + 2] - 48;
        if !IsOctal(s, i + 3) then d2 else (d2 * 8 + s[i + 3] - 48) % 256
    else if s[i + 1] == LOWER_N then NEWLINE
    else if s[i + 1] == LOWER_T then TAB
    else if s[i + 1] == LOWER_R then RETURN
    else s[i + 1]
  }

  /** The unescaper's table: no backslash, or behind one n, t, r, up to three octal digits, or any other byte. */
  lemma UnitIs(s: seq<Byte>, i: nat)
    requires i < |s| && i + UnitLength(s, i) <= |s|
    ensures s[i] != 92 ==> UnitLength(s, i) == 1 && UnitByte(s, i) == s[i]
    ensures s[i] == 92 ==>
            i + 1 < |s| &&
            var c, n, b := s[i + 1], UnitLength(s, i), UnitByte(s, i);
            && (!OctalDigit(c) ==>
                  n == 2 && b == if c == 110 then 10 else if c == 116 then 9 else if c == 114 then 13 else c)
            && (OctalDigit(c) && !(i + 2 < |s| && OctalDigit(s[i + 2])) ==> n == 2 && b == c - 48)
            && (OctalDigit(c) && i + 2 < |s| && OctalDigit(s[i + 2]) && !(i + 3 < |s| && OctalDigit(s[i + 3])) ==>
                  n == 3 && b == OctalValue(48, c, s[i + 2]))
            && (OctalDigit(c) && i + 3 < |s| && OctalDigit(s[i + 2]) && OctalDigit(s[i + 3]) ==>
                  n == 4 && b == OctalValue(c, s[i + 2], s[i + 3]) % 256)
  {
  }

  /** From i on, no backslash is left alone at the end. */
  predicate WellEscaped(s: seq<Byte>, i: nat)
    requires i <= |s|
    decreases |s| - i
  {
    i == |s| || (i + UnitLength(s, i) <= |s| && WellEscaped(s, i + UnitLength(s, i)))
  }

  function Resolved(s: seq<Byte>, i: nat): (r: seq<Byte>)
    requires i <= |s| && WellEscaped(s, i)
    ensures |r| <= |s| - i
    decreases |s| - i
  {
    if i == |s| then [] else [UnitByte(s, i)] + Resolved(s, i + UnitLength(s, i))
  }

  /** How many backslashes stand right before position e, not looking before i. */
  function EndRun(s: seq<Byte>, i: nat, e: nat): (n: nat)
    requires i <= e <= |s|
    ensures n <= e - i
    decreases e - i
  {
    if i < e && s[e - 1] == BACKSLASH then 1 + EndRun(s, i, e - 1) else 0
  }

  /** A text ends in an even number of backslashes. */
  predicate EvenTail(s: seq<Byte>)
  {
    EndRun(s, 0, |s|) % 2 == 0
  }

  /** The run does not reach across another byte. */
  lemma {:induction false} RunStops(s: seq<Byte>, i: nat, k: nat, e: nat)
    requires i < k <= e <= |s| && s[k - 1] != BACKSLASH
    ensures EndRun(s, i, e) == EndRun(s, k, e)
    decreases e - k
  {
    if k < e && s[e - 1] == BACKSLASH {
      RunStops(s, i, k, e - 1);
    }
  }

  lemma {:induction false} RunPair(s: seq<Byte>, i: nat, e: nat)
    requires i + 2 <= e <= |s| && s[i] == BACKSLASH && s[i + 1] == BACKSLASH
    ensures EndRun(s, i, e) % 2 == EndRun(s, i + 2, e) % 2
    decreases e - i
  {
    if i + 2 == e {
      assert EndRun(s, i, i + 1) == 1 + EndRun(s, i, i);
    } else if s[e - 1] == BACKSLASH {
      RunPair(s, i, e - 1);
    }
  }

  /** From i on nothing is left alone exactly when the closing run of backslashes is even. */
  lemma {:induction false} WellEscapedRun(s: seq<Byte>, i: nat)
    requires i <= |s|
    ensures WellEscaped(s, i) <==> EndRun(s, i, |s|) % 2 == 0
    decreases |s| - i
  {
    if i < |s| {
      var n := UnitLength(s, i);
      if s[i] != BACKSLASH {
        RunStops(s, i, i + 1, |s|);
        WellEscapedRun(s, i + 1);
      } else if |s| < i + n {
        assert EndRun(s, i, i + 1) == 1 + EndRun(s, i, i);
      } else {
        WellEscapedRun(s, i + n);
        if s[i + 1] == BACKSLASH {
          RunPair(s, i, |s|);
        } else {
          RunStops(s, i, i + n, |s|);
        }
      }
    }
  }

  lemma WellEscapedIff(s: seq<Byte>)
    ensures WellEscaped(s, 0) <==> EvenTail(s)
  {
    WellEscapedRun(s, 0);
  }

  lemma OctalDigits(c: Byte)
    ensures c / 64 < 4 && c / 8 % 8 < 8 && c % 8 < 8
    ensures (c / 64 * 8 + c / 8 % 8) * 8 + c % 8 == c
  {
  }

  /** One printed byte is one unit, whatever follows it. */
  lemma UnitOfEscapedByte(s: seq<Byte>, i: nat, c: Byte)
    requires IsAt(s, i, EscapedByte(c))
    ensures i + |EscapedByte(c)| <= |s| && UnitLength(s, i) == |EscapedByte(c)| && UnitByte(s, i) == c
  {
    hide IsAt;
    var e := EscapedByte(c);
    IsAtBound(s, i, e);
    IsAtByte(s, i, e, 0);
    if c != BACKSLASH && c != TAB && c != NEWLINE && c != RETURN && !IsPrint(c) {
      OctalUnit(s, i, c);
    } else if |e| == 2 {
      IsAtByte(s, i, e, 1);
    }
  }

  lemma OctalUnit(s: seq<Byte>, i: nat, c: Byte)
    requires var e := [BACKSLASH, ZERO + c / 64, ZERO + c / 8 % 8, ZERO + c % 8]; IsAt(s, i, e)
    ensures i + 4 <= |s| && UnitLength(s, i) == 4 && UnitByte(s, i) == c
  {
    hide IsAt;
    var d1, d2, d3 := c / 64, c / 8 % 8, c % 8;
    OctalDigits(c);
    var e := [BACKSLASH, ZERO + d1, ZERO + d2, ZERO + d3];
    IsAtBound(s, i, e);
    IsAtByte(s, i, e, 0);
    IsAtByte(s, i, e, 1);
    IsAtByte(s, i, e, 2);
    IsAtByte(s, i, e, 3);
  }

  /** Unescaping undoes printing. */
  lemma {:induction false} ResolveEscaped(s: seq<Byte>, i: nat, z: seq<Byte>)
    requires IsAt(s, i, Escaped(z)) && i + |Escaped(z)| == |s|
    ensures WellEscaped(s, i) && Resolved(s, i) == z
    decreases |z|
  {
    hide EscapedByte, UnitLength, UnitByte, IsAt;
    if z != [] {
      IsAtSplit(s, i, EscapedByte(z[0]), Escaped(z[1..]));
      UnitOfEscapedByte(s, i, z[0]);
      ResolveEscaped(s, i + |EscapedByte(z[0])|, z[1..]);
      assert z == [z[0]] + z[1..];
    }
  }

  lemma ResolveUndoesPrint(z: seq<Byte>)
    ensures WellEscaped(Escaped(z), 0) && Resolved(Escaped(z), 0) == z
  {
    IsAtWhole(Escaped(z));
    ResolveEscaped(Escaped(z), 0, z);
  }

  // ----------------------------------------------------------- tokenizing

  const MAX_ARGS := 50

  predicate IsSpace(c: Byte)
  {
    c == SPACE || 9 <= c <= 13
  }

  /** The first position from i on that is not white space. */
  function SkipSpaces(line: seq<Byte>, i: nat): (j: nat)
    requires i <= |line|
    ensures i <= j <= |line| && (j < |line| ==> !IsSpace(line[j]))
    decreases |line| - i
  {
    if i < |line| && IsSpace(line[i]) then SkipSpaces(line, i + 1) else i
  }

  predicate IsStop(c: Byte, delim: Byte)
  {
    if delim == 0 then IsSpace(c) else c == delim
  }

  /** The end of a token: the closing delimiter, or the next white space for a bare word (delim 0). */
  function TokenEnd(line: seq<Byte>, i: nat, delim: Byte): (j: nat)
    requires i <= |line|
    ensures i <= j <= |line|
    decreases |line| - i
  {
    if i == |line| || IsStop(line[i], delim) then i
    else TokenEnd(line, i + 1, delim)
  }

  datatype Token = Token(start: nat, end: nat, delim: Byte)

  /** The token that starts at a byte that is not white space; a quote delimits it by itself. */
  function NextToken(line: seq<Byte>, first: nat): (t: Token)
    requires first < |line|
    ensures first <= t.start <= t.end <= |line|
  {
    var delim := if line[first] == SINGLE || line[first] == DOUBLE then line[first] else 0;
    var start := if delim == 0 then first else first + 1;
    Token(start, TokenEnd(line, start, delim), delim)
  }

  function After(line: seq<Byte>, t: Token): nat
  {
    if t.end < |line| then t.end + 1 else t.end
  }

  /** The tokens from i on, at most `room` of them. */
  function Tokens(line: seq<Byte>, i: nat, room: nat): (ts: seq<Token>)
    requires i <= |line|
    ensures |ts| <= room
    ensures forall k | 0 <= k < |ts| :: i <= ts[k].start <= ts[k].end <= |line|
    decreases room
  {
    var first := SkipSpaces(line, i);
    if room == 0 || first == |line| then []
    else
      var t := NextToken(line, first);
      [t] + Tokens(line, After(line, t), room - 1)
  }

  function RawText(line: seq<Byte>, t: Token): (r: seq<Byte>)
    requires t.start <= t.end <= |line|
    ensures |r| == t.end - t.start
  {
    line[t.start..t.end]
  }

  /** Everything but single-quoted text is unescaped. */
  predicate TokenOk(line: seq<Byte>, t: Token)
  {
    t.start <= t.end <= |line| && (t.delim != SINGLE ==> WellEscaped(RawText(line, t), 0))
  }

  function TokenText(line: seq<Byte>, t: Token): seq<Byte>
    requires TokenOk(line, t)
  {
    if t.delim == SINGLE then RawText(line, t) else Resolved(RawText(line, t), 0)
  }

  predicate WhiteSpace(c: Byte)
  {
    9 <= c <= 13 || c == 32
  }

  /** A token, without its definition: white space before it; in quotes up to the next one, bare up to white space. */
  lemma TokenIs(line: seq<Byte>, i: nat)
    requires i <= |line|
    ensures var first := SkipSpaces(line, i);
            && (forall k | i <= k < first :: WhiteSpace(line[k]))
            && (first < |line| ==>
                  var t := NextToken(line, first);
                  && !WhiteSpace(line[first])
                  && (line[first] == 34 || line[first] == 39 ==>
                        && t.delim == line[first] && t.start == first + 1
                        && (forall k | t.start <= k < t.end :: line[k] != line[first])
                        && (t.end < |line| ==> line[t.end] == line[first]))
                  && (line[first] != 34 && line[first] != 39 ==>
                        && t.delim == 0 && t.start == first
                        && (forall k | t.start <= k < t.end :: !WhiteSpace(line[k]))
                        && (t.end < |line| ==> WhiteSpace(line[t.end]))))
  {
    hide SkipSpaces, TokenEnd;
    SpacesBefore(line, i);
    var first := SkipSpaces(line, i);
    if first < |line| {
      var t := NextToken(line, first);
      NoStopBefore(line, t.start, t.delim);
    }
  }

  lemma {:induction false} SpacesBefore(line: seq<Byte>, i: nat)
    requires i <= |line|
    ensures forall k | i <= k < SkipSpaces(line, i) :: IsSpace(line[k])
    decreases |line| - i
  {
    if i < |line| && IsSpace(line[i]) {
      SpacesBefore(line, i + 1);
    }
  }

  lemma {:induction false} NoStopBefore(line: seq<Byte>, i: nat, delim: Byte)
    requires i <= |line|
    ensures forall k | i <= k < TokenEnd(line, i, delim) :: !IsStop(line[k], delim)
    ensures TokenEnd(line, i, delim) < |line| ==> IsStop(line[TokenEnd(line, i, delim)], delim)
    decreases |line| - i
  {
    if i < |line| && !IsStop(line[i], delim) {
      NoStopBefore(line, i + 1, delim);
    }
  }

  /** What the command gets: single-quoted text as it stands, other text unescaped. */
  lemma TokenTextIs(line: seq<Byte>, t: Token)
    requires t.start <= t.end <= |line|
    ensures t.delim == 39 ==> TokenOk(line, t) && TokenText(line, t) == line[t.start..t.end]
    ensures t.delim != 39 && EvenTail(line[t.start..t.end]) ==>
              && TokenOk(line, t) && WellEscaped(line[t.start..t.end], 0)
              && TokenText(line, t) == Resolved(line[t.start..t.end], 0)
  {
    WellEscapedIff(line[t.start..t.end]);
  }

  lemma {:induction false} TokenEndAt(line: seq<Byte>, i: nat, j: nat, delim: Byte)
    requires i <= j <= |line| && (forall k | i <= k < j :: !IsStop(line[k], delim))
    requires j < |line| ==> IsStop(line[j], delim)
    ensures TokenEnd(line, i, delim) == j
    decreases j - i
  {
    if i < j {
      TokenEndAt(line, i + 1, j, delim);
    }
  }

  /** What the tokenizer does next at i. */
  lemma TokensStep(line: seq<Byte>, i: nat, room: nat, done: seq<Token>)
    requires i <= |line|
    ensures var first := SkipSpaces(line, i);
            if room == 0 || first == |line| then Tokens(line, i, room) == []
            else
              var t := NextToken(line, first);
              done + Tokens(line, i, room) == (done + [t]) + Tokens(line, After(line, t), room - 1)
  {
    hide SkipSpaces, TokenEnd;
    var first := SkipSpaces(line, i);
    if room != 0 && first < |line| {
      var t := NextToken(line, first);
      Regroup(done, [t], Tokens(line, After(line, t), room - 1));
    }
  }

  lemma {:induction false} SkipSpacesAgain(line: seq<Byte>, i: nat, j: nat)
    requires i <= j <= |line| && (forall k | i <= k < j :: IsSpace(line[k])) && (j < |line| ==> !IsSpace(line[j]))
    ensures SkipSpaces(line, i) == j
    decreases j - i
  {
    if i < j {
      SkipSpacesAgain(line, i + 1, j);
    }
  }

  // ----------------------------------------------- what .show prints, typed back

  const SEPARATOR: seq<Byte> := [115, 101, 112, 97, 114, 97, 116, 111, 114]
  const SEPARATOR_SIZE := 20

  lemma {:induction false} EscapedQuoteFree(z: seq<Byte>)
    requires DOUBLE !in z
    ensures DOUBLE !in Escaped(z)
  {
    if z != [] {
      EscapedQuoteFree(z[1..]);
    }
  }

  /** A command word: nothing in it that the tokenizer or the unescaper treats specially. */
  predicate PlainWord(word: seq<Byte>)
  {
    word != [] && word[0] != SINGLE && word[0] != DOUBLE && BACKSLASH !in word
    && forall k | 0 <= k < |word| :: !IsSpace(word[k])
  }

  /** The line `.word "..."`, its argument printed as a C string. */
  function Command(word: seq<Byte>, z: seq<Byte>): seq<Byte>
  {
    [DOT] + word + [SPACE] + CText(z)
  }

  lemma {:induction false} ResolvePlain(s: seq<Byte>, i: nat)
    requires i <= |s| && BACKSLASH !in s
    ensures WellEscaped(s, i) && Resolved(s, i) == s[i..]
    decreases |s| - i
  {
    if i < |s| {
      ResolvePlain(s, i + 1);
      assert s[i..] == [s[i]] + s[i + 1..];
    }
  }

  /** A line `.word "e"...`. */
  ghost predicate ArgumentLine(line: seq<Byte>, word: seq<Byte>, e: seq<Byte>)
  {
    var w := |word|;
    && IsAt(line, 1, word) && IsAt(line, 3 + w, e) && 3 + w + |e| < |line|
    && line[1 + w] == SPACE && line[2 + w] == DOUBLE && line[3 + w + |e|] == DOUBLE
  }

  lemma FirstToken(line: seq<Byte>, word: seq<Byte>)
    requires IsAt(line, 1, word) && 1 + |word| < |line| && line[1 + |word|] == SPACE && PlainWord(word)
    ensures SkipSpaces(line, 1) == 1 && NextToken(line, 1) == Token(1, 1 + |word|, 0)
  {
    hide SkipSpaces, TokenEnd, IsAt;
    forall k | 1 <= k < 1 + |word|
      ensures line[k] == word[k - 1]
    {
      IsAtByte(line, 1, word, k - 1);
    }
    SkipSpacesAgain(line, 1, 1);
    TokenEndAt(line, 1, 1 + |word|, 0);
  }

  lemma SecondToken(line: seq<Byte>, i: nat, e: seq<Byte>)
    requires i + 1 + |e| < |line| && line[i] == DOUBLE && IsAt(line, i + 1, e) && line[i + 1 + |e|] == DOUBLE
    requires DOUBLE !in e
    ensures SkipSpaces(line, i) == i && NextToken(line, i) == Token(i + 1, i + 1 + |e|, DOUBLE)
  {
    hide SkipSpaces, TokenEnd, IsAt;
    forall k | i + 1 <= k < i + 1 + |e|
      ensures line[k] == e[k - i - 1]
    {
      IsAtByte(line, i + 1, e, k - i - 1);
    }
    SkipSpacesAgain(line, i, i);
    TokenEndAt(line, i + 1, i + 1 + |e|, DOUBLE);
  }

  /** Its first two tokens. */
  lemma ArgumentTokens(line: seq<Byte>, word: seq<Byte>, e: seq<Byte>)
    requires ArgumentLine(line, word, e) && PlainWord(word) && DOUBLE !in e
    ensures var t1, t2 := Token(1, 1 + |word|, 0), Token(3 + |word|, 3 + |word| + |e|, DOUBLE);
            && Tokens(line, 1, MAX_ARGS) == [t1, t2] + Tokens(line, t2.end + 1, MAX_ARGS - 2)
            && RawText(line, t1) == word && RawText(line, t2) == e
  {
    hide Tokens, SkipSpaces, NextToken;
    var t1, t2 := Token(1, 1 + |word|, 0), Token(3 + |word|, 3 + |word| + |e|, DOUBLE);
    FirstToken(line, word);
    TokensStep(line, 1, MAX_ARGS, []);
    SecondToken(line, 2 + |word|, e);
    TokensStep(line, 2 + |word|, MAX_ARGS - 1, [t1]);
    assert [] + [t1] == [t1] && [t1] + [t2] == [t1, t2];
    assert [] + Tokens(line, 1, MAX_ARGS) == Tokens(line, 1, MAX_ARGS);
  }

  /** A printed string is the printed text before its first quote, and a quote; nothing more if it holds none. */
  lemma PrintedToQuote(z: seq<Byte>)
    ensures var e := Escaped(UpTo(z, DOUBLE));
            && DOUBLE !in e && e + [DOUBLE] <= Escaped(z) + [DOUBLE]
            && (|e| == |Escaped(z)| <==> DOUBLE !in z)
  {
    hide Escaped;
    UpToSplit(z, DOUBLE);
    var pre := UpTo(z, DOUBLE);
    EscapedQuoteFree(pre);
    if |pre| == |z| {
      assert pre == z;
    } else {
      var post := z[|pre| + 1..];
      assert z == pre + ([DOUBLE] + post);
      EscapedSplit(pre, [DOUBLE] + post);
      QuoteUnescaped(post);
    }
  }

  lemma QuoteUnescaped(post: seq<Byte>)
    ensures Escaped([DOUBLE] + post) == [DOUBLE] + Escaped(post)
  {
    assert ([DOUBLE] + post)[1..] == post;
  }

  lemma CommandShape(word: seq<Byte>, z: seq<Byte>)
    ensures var line, e := Command(word, z), Escaped(UpTo(z, DOUBLE));
            && ArgumentLine(line, word, e) && DOUBLE !in e
            && (4 + |word| + |e| == |line| <==> DOUBLE !in z)
  {
    hide Escaped;
    PrintedToQuote(z);
    var line, body, e := Command(word, z), Escaped(z) + [DOUBLE], Escaped(UpTo(z, DOUBLE));
    assert line == [DOT] + word + [SPACE, DOUBLE] + body;
    assert body[..|e|] == (e + [DOUBLE])[..|e|] == e;
    assert line[3 + |word|..3 + |word| + |e|] == body[..|e|];
    assert body[|e|] == (e + [DOUBLE])[|e|];
  }

  /**
   Tokenizing and unescaping undo printing exactly for strings without a double quote: the printer leaves
   a quote as it is, so the tokenizer ends the argument there.
   */
  lemma TypedBack(word: seq<Byte>, z: seq<Byte>)
    requires PlainWord(word)
    ensures var line := Command(word, z);
            var ts := Tokens(line, 1, MAX_ARGS);
            && 2 <= |ts| && TokenOk(line, ts[0]) && TokenText(line, ts[0]) == word
            && TokenOk(line, ts[1]) && TokenText(line, ts[1]) == UpTo(z, DOUBLE)
            && (|ts| == 2 && TokenText(line, ts[1]) == z <==> DOUBLE !in z)
  {
    hide Tokens, Resolved, WellEscaped, Escaped, Command, ArgumentLine, RawText, UpTo, PlainWord;
    PlainWordHasNoEscape(word);
    CommandShape(word, z);
    var line, e := Command(word, z), Escaped(UpTo(z, DOUBLE));
    ArgumentTokens(line, word, e);
    ResolvePlain(word, 0);
    ResolveUndoesPrint(UpTo(z, DOUBLE));
    UpToWhole(z, DOUBLE);
    if DOUBLE !in z {
      TokensStep(line, |line|, MAX_ARGS - 2, []);
    }
  }

  lemma PlainWordHasNoEscape(word: seq<Byte>)
    requires PlainWord(word)
    ensures BACKSLASH !in word && word[0..] == word
  {
  }

  /** The .separator command: with exactly two arguments, the second is stored, cut to the field's size. */
  function SeparatorAfter(line: seq<Byte>, current: seq<Byte>): seq<Byte>
    requires line != []
    requires forall k | 0 <= k < |Tokens(line, 1, MAX_ARGS)| && k < 2 :: TokenOk(line, Tokens(line, 1, MAX_ARGS)[k])
  {
    var ts := Tokens(line, 1, MAX_ARGS);
    if |ts| != 2 then current
    else
      var arg := UpTo(TokenText(line, ts[1]), 0);
      if |arg| < SEPARATOR_SIZE then arg else arg[..SEPARATOR_SIZE - 1]
  }

  /** Without exactly one argument nothing changes; an argument of twenty bytes or more keeps its first nineteen. */
  lemma SeparatorIs(line: seq<Byte>, current: seq<Byte>)
    requires line != []
    requires forall k | 0 <= k < |Tokens(line, 1, MAX_ARGS)| && k < 2 :: TokenOk(line, Tokens(line, 1, MAX_ARGS)[k])
    ensures var ts, r := Tokens(line, 1, 50), SeparatorAfter(line, current);
            && (|ts| != 2 ==> r == current)
            && (|ts| == 2 ==>
                  var arg := TokenText(line, ts[1]);
                  && r <= arg && |r| <= 19 && 0 !in r
                  && (|r| < |arg| ==> |r| == 19 || arg[|r|] == 0))
  {
    hide Tokens, TokenOk, TokenText, UpTo;
    var ts := Tokens(line, 1, MAX_ARGS);
    if |ts| == 2 {
      UpToSplit(TokenText(line, ts[1]), 0);
    }
  }

  /** What .show prints for the separator sets it again, exactly when it holds no double quote. */
  lemma SeparatorRestored(separator: seq<Byte>, current: seq<Byte>)
    requires |separator| < 20 && 0 !in separator && current != separator
    ensures var line := Command(SEPARATOR, separator);
            && line != []
            && (forall k | 0 <= k < |Tokens(line, 1, MAX_ARGS)| && k < 2 :: TokenOk(line, Tokens(line, 1, MAX_ARGS)[k]))
            && (SeparatorAfter(line, current) == separator <==> DOUBLE !in separator)
  {
    hide Tokens, TokenOk, TokenText, Command;
    TypedBack(SEPARATOR, separator);
    UpToSplit(separator, DOUBLE);
    var pre := UpTo(separator, DOUBLE);
    assert 0 !in pre;
    UpToWhole(pre, 0);
    UpToWhole(separator, DOUBLE);
  }
}
