/**
 resolve_backslashes and the token loop of do_meta_command on the line's own buffer, with no promise about
 the text: which bytes end up where, which texts let the read cursor run past their terminator, and what
 that does to a line.
 */
module ShellInPlace {
  import opened Basics
  import opened ByteSeq
  import opened ShellArgs

  // ---------------------------------------------------------- the unescaper

  /** b with t in place of the bytes from p on. */
  function Written(b: seq<Byte>, p: nat, t: seq<Byte>): (r: seq<Byte>)
    requires p + |t| <= |b|
    ensures |r| == |b|
    ensures forall k | 0 <= k < |b| :: r[k] == if p <= k < p + |t| then t[k - p] else b[k]
  {
    b[..p] + t + b[p + |t|..]
  }

  /** Where the read cursor that starts at i finds a zero in the loop's test, or gets beyond the buffer. */
  function ReadEnd(b: seq<Byte>, i: nat): (e: nat)
    ensures i <= e
    ensures e < |b| ==> b[e] == 0
    decreases |b| - i
  {
    if |b| <= i || b[i] == 0 then i else ReadEnd(b, i + UnitLength(b, i))
  }

  /** The bytes written on the way. */
  function Unescaped(b: seq<Byte>, i: nat): (r: seq<Byte>)
    ensures |r| <= ReadEnd(b, i) - i
    decreases |b| - i
  {
    if |b| <= i || b[i] == 0 || |b| < i + UnitLength(b, i) then []
    else [UnitByte(b, i)] + Unescaped(b, i + UnitLength(b, i))
  }

  lemma UnescapedStep(b: seq<Byte>, i: nat, done: seq<Byte>)
    requires i < |b| && b[i] != 0
    ensures ReadEnd(b, i) == ReadEnd(b, i + UnitLength(b, i))
    ensures i + UnitLength(b, i) <= |b| ==>
              done + Unescaped(b, i) == (done + [UnitByte(b, i)]) + Unescaped(b, i + UnitLength(b, i))
  {
    hide UnitLength, UnitByte;
    if i + UnitLength(b, i) <= |b| {
      Regroup(done, [UnitByte(b, i)], Unescaped(b, i + UnitLength(b, i)));
    }
  }

  lemma UnescapedEnd(b: seq<Byte>, i: nat)
    requires i < |b| ==> b[i] == 0
    ensures ReadEnd(b, i) == i && Unescaped(b, i) == []
  {
  }

  /** The buffer from i on is still what it was. */
  ghost predicate Unread(z: array<Byte>, b: seq<Byte>, i: nat)
    reads z
  {
    z.Length == |b| && forall k | i <= k < |b| :: z[k] == b[k]
  }

  /** The loop body's reads at i: one unit, unless they leave the buffer. */
  method ReadUnit(z: array<Byte>, i: nat, ghost b: seq<Byte>) returns (inside: bool, c: Byte, used: nat)
    requires Unread(z, b, i) && i < |b| && b[i] != 0
    ensures inside ==> used == UnitLength(b, i) && i + used <= |b| && c == UnitByte(b, i)
    ensures !inside ==> |b| <= i + UnitLength(b, i)
  {
    inside, c, used := true, z[i], 1;
    if c == BACKSLASH {
      if i + 1 == z.Length {
        return false, c, used;
      }
      c, used := z[i + 1], 2;
      if c == LOWER_N {
        c := NEWLINE;
      } else if c == LOWER_T {
        c := TAB;
      } else if c == LOWER_R {
        c := RETURN;
      } else if 48 <= c <= 55 {
        c := c - 48;
        if i + 2 == z.Length {
          return false, c, used;
        }
        if 48 <= z[i + 2] <= 55 {
          c, used := c * 8 + z[i + 2] - 48, 3;
          if i + 3 == z.Length {
            return false, c, used;
          }
          if 48 <= z[i + 3] <= 55 {
            c, used := (c * 8 + z[i + 3] - 48) % 256, 4;
          }
        }
      }
    }
  }

  /**
   resolve_backslashes on whatever the buffer holds: two cursors, the write cursor never ahead of the read
   cursor.  `inside` is false when a read would leave the buffer, after which C says nothing more.
   */
  method ResolveBackslashes(z: array<Byte>, p: nat) returns (inside: bool)
    requires p < z.Length
    modifies z
    ensures inside <==> ReadEnd(old(z[..]), p) < z.Length
    ensures inside ==> z[..] == Written(old(z[..]), p, Unescaped(old(z[..]), p) + [0])
    ensures forall k | 0 <= k < p :: z[k] == old(z[k])
  {
    hide UnitLength, UnitByte, ReadEnd, Unescaped, Written;
    ghost var b := z[..];
    var i, j := p, p;
    ghost var done: seq<Byte> := [];
    while i < z.Length && z[i] != 0
      invariant p <= j <= i <= |b| && Unread(z, b, j) && |done| == j - p
      invariant ReadEnd(b, p) == ReadEnd(b, i) && Unescaped(b, p) == done + Unescaped(b, i)
      invariant forall k | 0 <= k < p :: z[k] == b[k]
      invariant forall k | p <= k < j :: z[k] == done[k - p]
      decreases z.Length - i
    {
      var c, used;
      inside, c, used := ReadUnit(z, i, b);
      UnescapedStep(b, i, done);
      if !inside {
        return;
      }
      z[j] := c;
      done := done + [c];
      i, j := i + used, j + 1;
    }
    UnescapedEnd(b, i);
    inside := i < z.Length;
    if inside {
      assert done + [] == done;
      z[j] := 0;
      WrittenIs(b, p, done + [0], z[..]);
    }
  }

  lemma WrittenIs(b: seq<Byte>, p: nat, t: seq<Byte>, r: seq<Byte>)
    requires |r| == |b| && p + |t| <= |b|
    requires forall k | 0 <= k < |b| :: r[k] == if p <= k < p + |t| then t[k - p] else b[k]
    ensures r == Written(b, p, t)
  {
  }

  // ---------------------------------------------- texts and their terminators

  /** Inside a text the buffer's units are the text's. */
  lemma UnitOfText(b: seq<Byte>, p: nat, s: seq<Byte>, i: nat)
    requires TextAt(b, p, s) && 0 !in s && i < |s|
    ensures b[p + i] == s[i] && b[p + i] != 0 && UnitLength(b, p + i) == UnitLength(s, i)
    ensures i + UnitLength(s, i) <= |s| ==> UnitByte(b, p + i) == UnitByte(s, i)
  {
    hide TextAt;
    TextByte(b, p, s, i);
    TextByte(b, p, s, i + 1);
    TextByte(b, p, s, i + 2);
    TextByte(b, p, s, i + 3);
  }

  lemma TextByte(b: seq<Byte>, p: nat, s: seq<Byte>, i: nat)
    requires TextAt(b, p, s) && 0 !in s
    ensures p + |s| < |b|
    ensures i < |s| ==> b[p + i] == s[i] != 0
    ensures i == |s| ==> b[p + i] == 0
  {
    if i < |s| {
      assert b[p..p + |s|][i] == b[p + i];
    }
  }

  /** A text whose closing run of backslashes is even is resolved as a text; the read cursor ends at its terminator. */
  lemma {:induction false} EvenStaysInside(b: seq<Byte>, p: nat, s: seq<Byte>, i: nat)
    requires TextAt(b, p, s) && 0 !in s && i <= |s| && WellEscaped(s, i)
    ensures ReadEnd(b, p + i) == p + |s| && Unescaped(b, p + i) == Resolved(s, i)
    decreases |s| - i
  {
    hide TextAt, UnitLength, UnitByte;
    if i == |s| {
      TextByte(b, p, s, i);
    } else {
      UnitOfText(b, p, s, i);
      TextByte(b, p, s, |s|);
      EvenStaysInside(b, p, s, i + UnitLength(s, i));
    }
  }

  /** Otherwise the read cursor steps over it. */
  lemma {:induction false} OddRunsOver(b: seq<Byte>, p: nat, s: seq<Byte>, i: nat)
    requires TextAt(b, p, s) && 0 !in s && i <= |s| && !WellEscaped(s, i)
    ensures p + |s| < ReadEnd(b, p + i)
    decreases |s| - i
  {
    hide TextAt, UnitByte;
    UnitOfText(b, p, s, i);
    TextByte(b, p, s, |s|);
    if i + UnitLength(s, i) <= |s| {
      OddRunsOver(b, p, s, i + UnitLength(s, i));
    }
  }

  /** The read cursor stays within text and terminator exactly when the text ends in an even number of backslashes. */
  lemma StaysInsideIff(b: seq<Byte>, p: nat, s: seq<Byte>)
    requires TextAt(b, p, s) && 0 !in s
    ensures ReadEnd(b, p) == p + |s| <==> EvenTail(s)
    ensures p + |s| < ReadEnd(b, p) <==> !EvenTail(s)
    ensures EvenTail(s) ==> WellEscaped(s, 0) && Unescaped(b, p) == Resolved(s, 0)
  {
    WellEscapedIff(s);
    if EvenTail(s) {
      EvenStaysInside(b, p, s, 0);
    } else {
      OddRunsOver(b, p, s, 0);
    }
  }

  // ---------------------------------------------------------- the token loop

  /** The end of the scan for a token's end: a stop, a zero, or the end of the buffer. */
  function TokenStop(b: seq<Byte>, i: nat, delim: Byte): (j: nat)
    requires i <= |b|
    ensures i <= j <= |b|
    decreases |b| - i
  {
    if i == |b| || b[i] == 0 || IsStop(b[i], delim) then i else TokenStop(b, i + 1, delim)
  }

  function DelimOf(c: Byte): Byte
  {
    if c == SINGLE || c == DOUBLE then c else 0
  }

  /**
   What the token loop makes of a buffer: its new bytes, the arguments' starts, whether some read cursor
   ran over its argument's terminator, and whether all reads stayed inside the buffer.
   */
  datatype Outcome = Outcome(b: seq<Byte>, starts: seq<nat>, overran: bool, inside: bool)

  /** An argument that starts at `start`, after its end at e has been found and made a zero. */
  function Resolve(b: seq<Byte>, start: nat, e: nat, delim: Byte): (r: Outcome)
    requires start <= e < |b|
    ensures |r.b| == |b|
  {
    var ended := b[e := 0];
    if delim == SINGLE then Outcome(ended, [start], false, true)
    else
      var end := ReadEnd(ended, start);
      if |b| <= end then Outcome(ended, [start], true, false)
      else Outcome(Written(ended, start, Unescaped(ended, start) + [0]), [start], end != e, true)
  }

  /** The loop from cursor i on, with room for so many arguments. */
  function SplitFrom(b: seq<Byte>, i: nat, room: nat): (r: Outcome)
    requires i <= |b|
    ensures |r.b| == |b| && |r.starts| <= room
    decreases room
  {
    if i == |b| then Outcome(b, [], false, false)
    else if b[i] == 0 || room == 0 then Outcome(b, [], false, true)
    else
      var first := SkipSpaces(b, i);
      if first == |b| then Outcome(b, [], false, false)
      else if b[first] == 0 then Outcome(b, [], false, true)
      else
        var delim := DelimOf(b[first]);
        var start := if delim == 0 then first else first + 1;
        var e := TokenStop(b, start, delim);
        if e == |b| then Outcome(b, [start], false, false)
        else
          var one := Resolve(b, start, e, delim);
          if !one.inside then one
          else
            var rest := SplitFrom(one.b, if b[e] == 0 then e else e + 1, room - 1);
            Outcome(rest.b, [start] + rest.starts, one.overran || rest.overran, rest.inside)
  }

  lemma {:induction false} TokenStopAt(b: seq<Byte>, i: nat, j: nat, delim: Byte)
    requires i <= j <= |b| && (forall k | i <= k < j :: b[k] != 0 && !IsStop(b[k], delim))
    requires j < |b| ==> b[j] == 0 || IsStop(b[j], delim)
    ensures TokenStop(b, i, delim) == j
    decreases j - i
  {
    if i < j {
      TokenStopAt(b, i + 1, j, delim);
    }
  }

  method SkipBlanks(z: array<Byte>, i: nat) returns (j: nat)
    requires i <= z.Length
    ensures j == SkipSpaces(z[..], i)
  {
    hide SkipSpaces;
    j := i;
    while j < z.Length && IsSpace(z[j])
      invariant i <= j <= z.Length && forall k | i <= k < j :: IsSpace(z[k])
    {
      j := j + 1;
    }
    SkipSpacesAgain(z[..], i, j);
  }

  method FindTokenEnd(z: array<Byte>, i: nat, delim: Byte) returns (j: nat)
    requires i <= z.Length
    ensures j == TokenStop(z[..], i, delim)
  {
    hide TokenStop;
    j := i;
    while j < z.Length && z[j] != 0 && !IsStop(z[j], delim)
      invariant i <= j <= z.Length && forall k | i <= k < j :: z[k] != 0 && !IsStop(z[k], delim)
    {
      j := j + 1;
    }
    TokenStopAt(z[..], i, j, delim);
  }

  /** The end of an argument becomes a terminator, and the argument is unescaped unless it stood in single quotes. */
  method EndArg(z: array<Byte>, start: nat, e: nat, delim: Byte) returns (inside: bool)
    requires start <= e < z.Length
    modifies z
    ensures var one := Resolve(old(z[..]), start, e, delim); inside == one.inside && (inside ==> z[..] == one.b)
  {
    hide ReadEnd, Unescaped, Written;
    ghost var b := z[..];
    z[e] := 0;
    assert z[..] == b[e := 0];
    inside := true;
    if delim != SINGLE {
      inside := ResolveBackslashes(z, start);
    }
  }

  /**
   The first part of do_meta_command, on any buffer: the tokens become terminated strings in the buffer
   itself.  `inside` is false when a read would leave the buffer.
   */
  method SplitArgs(z: array<Byte>) returns (nArg: nat, azArg: array<nat>, inside: bool)
    requires 0 < z.Length
    modifies z
    ensures fresh(azArg) && azArg.Length == MAX_ARGS == 50 && nArg <= 50
    ensures var r := SplitFrom(old(z[..]), 1, MAX_ARGS);
            inside == r.inside && (inside ==> z[..] == r.b && azArg[..nArg] == r.starts)
  {
    hide SplitFrom, SkipSpaces, TokenStop, Resolve;
    azArg := new nat[MAX_ARGS];
    nArg, inside := 0, true;
    var i := 1;
    ghost var b := z[..];
    assert [] + SplitFrom(b, 1, MAX_ARGS).starts == SplitFrom(b, 1, MAX_ARGS).starts;
    while true
      invariant i <= z.Length && nArg <= MAX_ARGS && inside
      invariant var r, rest := SplitFrom(b, 1, MAX_ARGS), SplitFrom(z[..], i, MAX_ARGS - nArg);
                r.b == rest.b && r.inside == rest.inside && r.starts == azArg[..nArg] + rest.starts
      decreases MAX_ARGS - nArg
    {
      SplitStep(z[..], i, MAX_ARGS - nArg);
      if i == z.Length {
        inside := false;
        return;
      }
      if z[i] == 0 || nArg == MAX_ARGS {
        break;
      }
      i := SkipBlanks(z, i);
      if i == z.Length {
        inside := false;
        return;
      }
      if z[i] == 0 {
        break;
      }
      var delim := DelimOf(z[i]);
      var start := if delim == 0 then i else i + 1;
      ghost var starts := azArg[..nArg];
      i := FindTokenEnd(z, start, delim);
      if i == z.Length {
        inside := false;
        return;
      }
      var last := z[i] == 0;
      ghost var was := z[..];
      inside := EndArg(z, start, i, delim);
      if !inside {
        return;
      }
      i := if last then i else i + 1;
      Regroup(starts, [start], SplitFrom(z[..], i, MAX_ARGS - nArg - 1).starts);
      azArg[nArg] := start;
      nArg := nArg + 1;
      assert azArg[..nArg] == starts + [start];
    }
    assert azArg[..nArg] + [] == azArg[..nArg];
  }

  lemma SplitStep(b: seq<Byte>, i: nat, room: nat)
    requires i <= |b|
    ensures i == |b| ==> !SplitFrom(b, i, room).inside
    ensures i < |b| && (b[i] == 0 || room == 0) ==> SplitFrom(b, i, room) == Outcome(b, [], false, true)
    ensures i < |b| && b[i] != 0 && room != 0 ==>
              var first, r := SkipSpaces(b, i), SplitFrom(b, i, room);
              && (first == |b| ==> !r.inside)
              && (first < |b| && b[first] == 0 ==> r == Outcome(b, [], false, true))
              && (first < |b| && b[first] != 0 ==>
                    var delim := DelimOf(b[first]);
                    var start := if delim == 0 then first else first + 1;
                    var e := TokenStop(b, start, delim);
                    && (e == |b| ==> !r.inside)
                    && (e < |b| ==>
                          var one := Resolve(b, start, e, delim);
                          && (!one.inside ==> r == one)
                          && (one.inside ==>
                                var rest := SplitFrom(one.b, if b[e] == 0 then e else e + 1, room - 1);
                                r == Outcome(rest.b, [start] + rest.starts, one.overran || rest.overran, rest.inside))))
  {
    hide SkipSpaces, TokenStop, Resolve;
  }

  // ------------------------------------------------------- lines without NUL

  /** The buffer holds the line from i on, with its terminator. */
  ghost predicate RestAt(b: seq<Byte>, i: nat, line: seq<Byte>)
  {
    i <= |line| < |b| && b[|line|] == 0 && forall k | i <= k < |line| :: b[k] == line[k]
  }

  /** An argument that the unescaper leaves alone or that ends in an even number of backslashes. */
  predicate EvenArg(line: seq<Byte>, t: Token)
    requires t.start <= t.end <= |line|
  {
    t.delim == SINGLE || EvenTail(RawText(line, t))
  }

  predicate AllEven(line: seq<Byte>, ts: seq<Token>)
  {
    forall k | 0 <= k < |ts| :: ts[k].start <= ts[k].end <= |line| && EvenArg(line, ts[k])
  }

  lemma EvenArgOk(line: seq<Byte>, t: Token)
    requires t.start <= t.end <= |line|
    ensures EvenArg(line, t) <==> TokenOk(line, t)
  {
    WellEscapedIff(RawText(line, t));
  }

  /** The arguments stand as strings at the noted starts. */
  ghost predicate ArgsAt(b: seq<Byte>, starts: seq<nat>, line: seq<Byte>, ts: seq<Token>)
  {
    |starts| == |ts| && forall k | 0 <= k < |ts| :: ArgAt(b, starts[k], line, ts[k])
  }

  ghost predicate ArgAt(b: seq<Byte>, start: nat, line: seq<Byte>, t: Token)
  {
    start == t.start && TokenOk(line, t) && TextAt(b, start, TokenText(line, t))
  }

  /** White space and the ends of tokens are where the line has them. */
  lemma SameScans(b: seq<Byte>, line: seq<Byte>, i: nat)
    requires RestAt(b, i, line) && 0 !in line
    ensures SkipSpaces(b, i) == SkipSpaces(line, i)
    ensures b[SkipSpaces(line, i)] != 0 <==> SkipSpaces(line, i) < |line|
    ensures SkipSpaces(line, i) < |line| ==> b[SkipSpaces(line, i)] == line[SkipSpaces(line, i)]
  {
    hide SkipSpaces;
    SpacesBefore(line, i);
    SkipSpacesAgain(b, i, SkipSpaces(line, i));
  }

  lemma SameStop(b: seq<Byte>, line: seq<Byte>, i: nat, delim: Byte)
    requires RestAt(b, i, line) && 0 !in line
    ensures TokenStop(b, i, delim) == TokenEnd(line, i, delim)
  {
    hide TokenEnd, TokenStop;
    NoStopBefore(line, i, delim);
    TokenStopAt(b, i, TokenEnd(line, i, delim), delim);
  }

  /** The argument's bytes with the terminator in place. */
  lemma EndedArg(b: seq<Byte>, line: seq<Byte>, t: Token)
    requires t.start <= t.end <= |line| && RestAt(b, t.start, line) && 0 !in line
    ensures TextAt(b[t.end := 0], t.start, RawText(line, t)) && 0 !in RawText(line, t)
  {
    assert b[t.end := 0][t.start..t.end] == RawText(line, t);
    assert forall c | c in RawText(line, t) :: c in line;
  }

  /** Where an argument's writes stay, and what they leave. */
  ghost predicate ArgDone(b: seq<Byte>, r: seq<Byte>, line: seq<Byte>, t: Token)
  {
    && |r| == |b| && ArgAt(r, t.start, line, t) && |TokenText(line, t)| <= t.end - t.start <= |line|
    && forall k | 0 <= k < |b| && !(t.start <= k <= t.end) :: r[k] == b[k]
  }

  lemma ArgWritten(b: seq<Byte>, line: seq<Byte>, t: Token)
    requires t.start <= t.end <= |line| < |b| && TokenOk(line, t) && t.delim != SINGLE
    ensures |TokenText(line, t)| <= t.end - t.start
    ensures ArgDone(b, Written(b[t.end := 0], t.start, TokenText(line, t) + [0]), line, t)
  {
    hide Resolved, WellEscaped;
    TextWritten(b[t.end := 0], t.start, TokenText(line, t));
  }

  /** One argument: it overruns exactly if it is odd, and otherwise stands resolved, with no byte outside it changed. */
  lemma OneArg(b: seq<Byte>, line: seq<Byte>, t: Token)
    requires t.start <= t.end <= |line| && RestAt(b, t.start, line) && 0 !in line
    ensures var one := Resolve(b, t.start, t.end, t.delim);
            (one.overran <==> !EvenArg(line, t)) && (EvenArg(line, t) ==> one.inside && ArgDone(b, one.b, line, t))
  {
    hide ReadEnd, Unescaped, Resolved, WellEscaped, EvenTail, Written, TextAt, RawText, ArgDone;
    var ended, raw := b[t.end := 0], RawText(line, t);
    EndedArg(b, line, t);
    EvenArgOk(line, t);
    if t.delim == SINGLE {
      SingleQuoted(b, line, t);
    } else {
      StaysInsideIff(ended, t.start, raw);
      if EvenTail(raw) {
        ArgWritten(b, line, t);
      }
    }
  }

  lemma SingleQuoted(b: seq<Byte>, line: seq<Byte>, t: Token)
    requires t.start <= t.end <= |line| < |b| && t.delim == SINGLE
    requires TextAt(b[t.end := 0], t.start, RawText(line, t))
    ensures ArgDone(b, b[t.end := 0], line, t)
  {
    hide TextAt;
  }

  /** What follows a finished argument is still the line. */
  lemma RestAfter(b: seq<Byte>, r: seq<Byte>, line: seq<Byte>, t: Token)
    requires t.start <= t.end <= |line| && RestAt(b, t.start, line) && ArgDone(b, r, line, t) && r[|line|] == 0
    ensures RestAt(r, After(line, t), line)
  {
    hide ArgAt, TokenText;
  }

  /** The line's terminator stays one. */
  lemma LineStillEnds(b: seq<Byte>, line: seq<Byte>, t: Token)
    requires t.start <= t.end <= |line| < |b| && b[|line|] == 0
    requires Resolve(b, t.start, t.end, t.delim).inside && !Resolve(b, t.start, t.end, t.delim).overran
    ensures Resolve(b, t.start, t.end, t.delim).b[|line|] == 0
  {
    hide ReadEnd, Unescaped;
  }

  lemma TextWritten(b: seq<Byte>, p: nat, t: seq<Byte>)
    requires p + |t| < |b|
    ensures TextAt(Written(b, p, t + [0]), p, t)
  {
    var r := Written(b, p, t + [0]);
    assert r[p..p + |t|] == t;
  }

  /**
   On a line without NUL bytes some read cursor runs over its argument's terminator exactly when some
   argument outside single quotes ends in an odd number of backslashes; otherwise every token stands
   terminated and unescaped at its start.
   */
  lemma {:induction false} SplitLine(b: seq<Byte>, line: seq<Byte>, i: nat, room: nat)
    requires RestAt(b, i, line) && 0 !in line
    ensures var r, ts := SplitFrom(b, i, room), Tokens(line, i, room);
            && (r.overran <==> !AllEven(line, ts))
            && (AllEven(line, ts) ==> SplitWell(b, r, line, i, ts))
    decreases room
  {
    hide SplitFrom, SkipSpaces, TokenStop, TokenEnd, Resolve, EvenArg, AllEven, SplitWell, Tokens, ArgDone, NextToken;
    RestBounds(b, i, line);
    SplitStep(b, i, room);
    SameScans(b, line, i);
    TokensStep(line, i, room, []);
    assert [] + Tokens(line, i, room) == Tokens(line, i, room);
    var first := SkipSpaces(line, i);
    if room == 0 || first == |line| {
      NothingSplit(b, line, i);
    } else {
      var t := NextToken(line, first);
      TokenAt(b, line, first, t);
      OneArg(b, line, t);
      var one, next := Resolve(b, t.start, t.end, t.delim), After(line, t);
      var more := Tokens(line, next, room - 1);
      assert [] + [t] == [t];
      AllEvenPrepend(line, t, more);
      if EvenArg(line, t) {
        LineStillEnds(b, line, t);
        RestAfter(b, one.b, line, t);
        SplitLine(one.b, line, next, room - 1);
        if AllEven(line, more) {
          SplitOneMore(b, one.b, SplitFrom(one.b, next, room - 1), line, i, t, more);
        }
      }
    }
  }

  lemma RestBounds(b: seq<Byte>, i: nat, line: seq<Byte>)
    requires RestAt(b, i, line) && 0 !in line
    ensures i <= |line| < |b| && b[|line|] == 0
    ensures i < |line| ==> b[i] == line[i] && b[i] != 0
  {
  }

  /** All arguments stand, and nothing before i has changed. */
  ghost predicate SplitWell(b: seq<Byte>, r: Outcome, line: seq<Byte>, i: nat, ts: seq<Token>)
  {
    && r.inside && |r.b| == |b| && ArgsAt(r.b, r.starts, line, ts)
    && (forall k | 0 <= k < i && k < |b| :: r.b[k] == b[k]) && (i == |line| ==> r.b == b)
  }

  lemma NothingSplit(b: seq<Byte>, line: seq<Byte>, i: nat)
    ensures AllEven(line, []) && SplitWell(b, Outcome(b, [], false, true), line, i, [])
  {
  }

  /** How the loop finds the token that starts at `first`. */
  lemma TokenAt(b: seq<Byte>, line: seq<Byte>, first: nat, t: Token)
    requires RestAt(b, first, line) && 0 !in line && first < |line| && t == NextToken(line, first)
    ensures first <= t.start <= t.end <= |line| < |b| && RestAt(b, t.start, line) && b[first] != 0
    ensures t.delim == DelimOf(b[first]) && t.start == (if t.delim == 0 then first else first + 1)
    ensures TokenStop(b, t.start, t.delim) == t.end
    ensures After(line, t) == if b[t.end] == 0 then t.end else t.end + 1
  {
    hide TokenEnd, TokenStop;
    SameStop(b, line, t.start, t.delim);
  }

  lemma SplitOneMore(b: seq<Byte>, one: seq<Byte>, rest: Outcome, line: seq<Byte>, i: nat, t: Token, more: seq<Token>)
    requires i <= t.start <= t.end <= |line| < |b| && i < |line| && ArgDone(b, one, line, t)
    requires SplitWell(one, rest, line, After(line, t), more)
    ensures rest.inside
    ensures SplitWell(b, Outcome(rest.b, [t.start] + rest.starts, false, true), line, i, [t] + more)
  {
    hide ArgAt, TokenText, ArgsAt;
    ArgKept(one, rest.b, line, t);
    ArgsPrepend(rest.b, t, rest.starts, line, more);
  }

  lemma AllEvenPrepend(line: seq<Byte>, t: Token, ts: seq<Token>)
    requires t.start <= t.end <= |line|
    ensures AllEven(line, [t] + ts) <==> EvenArg(line, t) && AllEven(line, ts)
  {
    hide EvenArg;
    var all := [t] + ts;
    assert all[0] == t;
    assert forall k | 0 <= k < |ts| :: all[k + 1] == ts[k];
    if EvenArg(line, t) && AllEven(line, ts) {
      assert forall k | 1 <= k < |all| :: all[k] == ts[k - 1];
    }
  }

  lemma ArgKept(was: seq<Byte>, b: seq<Byte>, line: seq<Byte>, t: Token)
    requires ArgAt(was, t.start, line, t) && |b| == |was| && |TokenText(line, t)| <= t.end - t.start
    requires forall k | 0 <= k < |b| && k <= t.end :: b[k] == was[k]
    ensures ArgAt(b, t.start, line, t)
  {
    hide TokenOk, TokenText;
    var n := |TokenText(line, t)|;
    assert b[t.start..t.start + n] == was[t.start..t.start + n];
  }

  lemma ArgsPrepend(b: seq<Byte>, t: Token, starts: seq<nat>, line: seq<Byte>, ts: seq<Token>)
    requires ArgAt(b, t.start, line, t) && ArgsAt(b, starts, line, ts)
    ensures ArgsAt(b, [t.start] + starts, line, [t] + ts)
  {
    hide ArgAt;
  }

  /** No argument of the line makes the unescaper leave it: a caller can tell by the backslashes at their ends. */
  predicate SafeLine(line: seq<Byte>)
  {
    line == [] || AllEven(line, Tokens(line, 1, MAX_ARGS))
  }

  /** The whole split: no read cursor leaves its argument exactly for safe lines, and those are split as tokens. */
  lemma SplitSafeIff(b: seq<Byte>, line: seq<Byte>)
    requires TextAt(b, 0, line) && 0 !in line && line != []
    ensures var r, ts := SplitFrom(b, 1, MAX_ARGS), Tokens(line, 1, MAX_ARGS);
            && (!r.overran <==> SafeLine(line))
            && (SafeLine(line) ==> r.inside && ArgsAt(r.b, r.starts, line, ts))
  {
    hide SplitFrom, Tokens, AllEven, ArgsAt;
    assert b[0..|line|] == line;
    SplitLine(b, line, 1, MAX_ARGS);
  }

  /** What .show printed for z, typed as an argument, stands in the buffer as z again, if z holds no double quote. */
  lemma TypedBackInPlace(b: seq<Byte>, word: seq<Byte>, z: seq<Byte>)
    requires PlainWord(word) && 0 !in word && 0 !in z && DOUBLE !in z && TextAt(b, 0, Command(word, z))
    ensures var r := SplitFrom(b, 1, MAX_ARGS);
            r.inside && !r.overran && |r.starts| == 2 && TextAt(r.b, r.starts[0], word) && TextAt(r.b, r.starts[1], z)
  {
    hide SplitFrom, Tokens, Command, PlainWord, TokenOk, TokenText, EvenArg;
    var line := Command(word, z);
    CommandNulFree(word, z);
    var ts := Tokens(line, 1, MAX_ARGS);
    TypedBack(word, z);
    UpToWhole(z, DOUBLE);
    EvenArgOk(line, ts[0]);
    EvenArgOk(line, ts[1]);
    assert AllEven(line, ts) by {
      assert forall k | 0 <= k < |ts| :: ts[k] == ts[0] || ts[k] == ts[1];
    }
    SplitSafeIff(b, line);
    var r := SplitFrom(b, 1, MAX_ARGS);
    assert ArgAt(r.b, r.starts[0], line, ts[0]) && ArgAt(r.b, r.starts[1], line, ts[1]);
  }

  lemma {:induction false} EscapedNulFree(z: seq<Byte>)
    requires 0 !in z
    ensures 0 !in Escaped(z)
  {
    if z != [] {
      EscapedNulFree(z[1..]);
    }
  }

  lemma CommandNulFree(word: seq<Byte>, z: seq<Byte>)
    requires 0 !in word && 0 !in z
    ensures 0 !in Command(word, z) && Command(word, z) != []
  {
    EscapedNulFree(z);
  }

  // --------------------------------------------------------- unsafe lines

  /** `.x a\ b`: the cursor steps over the end of the second argument into the third. */
  const LONE_BACKSLASH: seq<Byte> := [DOT, 120, SPACE, 97, BACKSLASH, SPACE, 98, 0]

  /** `.x a\`, in a buffer of its own size, as the line reader leaves it. */
  const LAST_BACKSLASH: seq<Byte> := [DOT, 120, SPACE, 97, BACKSLASH, 0]

  /** The word `x` of either line. */
  lemma FirstWord(b: seq<Byte>)
    requires 6 <= |b| && b[1] == 120 && b[2] == SPACE
    ensures var rest := SplitFrom(b[2 := 0], 3, MAX_ARGS - 1);
            SplitFrom(b, 1, MAX_ARGS) == Outcome(rest.b, [1] + rest.starts, rest.overran, rest.inside)
  {
    hide SplitFrom, SkipSpaces, TokenStop, Resolve;
    SplitStep(b, 1, MAX_ARGS);
    SkipSpacesAgain(b, 1, 1);
    TokenStopAt(b, 1, 2, 0);
    PlainWordResolves(b);
  }

  lemma PlainWordResolves(b: seq<Byte>)
    requires 6 <= |b| && b[1] == 120
    ensures Resolve(b, 1, 2, 0) == Outcome(b[2 := 0], [1], false, true)
  {
    hide Unescaped, ReadEnd, Written;
    var ended := b[2 := 0];
    UnescapedEnd(ended, 2);
    UnescapedStep(ended, 1, []);
    assert Unescaped(ended, 1) == [120] by {
      assert [] + Unescaped(ended, 1) == Unescaped(ended, 1);
    }
    WrittenIs(ended, 1, [120, 0], ended);
  }

  /** The line has three tokens, but the third is gone: its byte has moved behind the second argument's end. */
  lemma LoneBackslashLosesArgument()
    ensures var r := SplitFrom(LONE_BACKSLASH, 1, MAX_ARGS);
            r.overran && r.inside && r.starts == [1, 3] && TextAt(r.b, 3, [97])
  {
    hide SplitFrom, SkipSpaces, TokenStop, Unescaped, ReadEnd, Written;
    FirstWord(LONE_BACKSLASH);
    var b: seq<Byte> := [DOT, 120, 0, 97, BACKSLASH, SPACE, 98, 0];
    assert LONE_BACKSLASH[2 := 0] == b;
    SplitStep(b, 3, MAX_ARGS - 1);
    SkipSpacesAgain(b, 3, 3);
    TokenStopAt(b, 3, 5, 0);
    var ended: seq<Byte> := [DOT, 120, 0, 97, BACKSLASH, 0, 98, 0];
    assert b[5 := 0] == ended;
    LoneBackslashUnescaped(ended);
    var after: seq<Byte> := [DOT, 120, 0, 97, 0, 98, 0, 0];
    WrittenIs(ended, 3, [97, 0, 98, 0], after);
    assert Resolve(b, 3, 5, 0) == Outcome(after, [3], true, true);
    SplitStep(after, 6, MAX_ARGS - 2);
    assert [1] + ([3] + []) == [1, 3] && after[3..4] == [97];
  }

  lemma LoneBackslashUnescaped(b: seq<Byte>)
    requires b == [DOT, 120, 0, 97, BACKSLASH, 0, 98, 0]
    ensures ReadEnd(b, 3) == 7 && Unescaped(b, 3) == [97, 0, 98]
  {
    assert UnitLength(b, 4) == 2 && UnitByte(b, 4) == 0;
    assert ReadEnd(b, 7) == 7 && ReadEnd(b, 6) == 7 && ReadEnd(b, 4) == 7;
    assert Unescaped(b, 7) == [] && Unescaped(b, 6) == [98] && Unescaped(b, 4) == [0] + Unescaped(b, 6);
  }

  /** When the argument is the last of the line, the cursor leaves the buffer. */
  lemma LastBackslashLeavesBuffer()
    ensures var r := SplitFrom(LAST_BACKSLASH, 1, MAX_ARGS); r.overran && !r.inside
  {
    hide SplitFrom, SkipSpaces, TokenStop;
    FirstWord(LAST_BACKSLASH);
    var b: seq<Byte> := [DOT, 120, 0, 97, BACKSLASH, 0];
    assert LAST_BACKSLASH[2 := 0] == b;
    SplitStep(b, 3, MAX_ARGS - 1);
    SkipSpacesAgain(b, 3, 3);
    TokenStopAt(b, 3, 5, 0);
    assert b[5 := 0] == b;
    assert UnitLength(b, 4) == 2;
    assert ReadEnd(b, 6) == 6 && ReadEnd(b, 4) == 6 && ReadEnd(b, 3) == 6;
  }
}
