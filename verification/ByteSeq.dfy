/** Byte strings, and what it means for one to stand at a position inside another. */
module ByteSeq {

  type Byte = x: int | 0 <= x < 256

  const TAB: Byte := 9
  const NEWLINE: Byte := 10
  const RETURN: Byte := 13
  const SPACE: Byte := 32
  const DOUBLE: Byte := 34
  const SINGLE: Byte := 39
  const DOT: Byte := 46
  const ZERO: Byte := 48
  const BACKSLASH: Byte := 92
  const UNDERSCORE: Byte := 95
  const LOWER_N: Byte := 110
  const LOWER_R: Byte := 114
  const LOWER_T: Byte := 116

  /** The characters these bytes stand for. */
  lemma Characters()
    ensures TAB == '\t' as int && NEWLINE == '\n' as int && RETURN == '\r' as int && SPACE == ' ' as int
    ensures DOUBLE == '"' as int && SINGLE == '\'' as int && DOT == '.' as int && ZERO == '0' as int
    ensures BACKSLASH == '\\' as int && UNDERSCORE == '_' as int
    ensures LOWER_N == 'n' as int && LOWER_R == 'r' as int && LOWER_T == 't' as int
  {
  }

  /** The bytes at position p of b are exactly s. */
  ghost predicate IsAt(b: seq<Byte>, p: nat, s: seq<Byte>)
  {
    p + |s| <= |b| && b[p..p + |s|] == s
  }

  lemma IsAtSplit(b: seq<Byte>, p: nat, s: seq<Byte>, t: seq<Byte>)
    ensures IsAt(b, p, s + t) <==> IsAt(b, p, s) && IsAt(b, p + |s|, t)
  {
    if p + |s| + |t| <= |b| {
      var w := b[p..p + |s + t|];
      assert w[..|s|] == b[p..p + |s|] && w[|s|..] == b[p + |s|..p + |s| + |t|];
      assert (s + t)[..|s|] == s && (s + t)[|s|..] == t;
      assert w == w[..|s|] + w[|s|..];
    }
  }

  lemma IsAtByte(b: seq<Byte>, p: nat, s: seq<Byte>, i: nat)
    requires IsAt(b, p, s) && i < |s|
    ensures p + i < |b| && b[p + i] == s[i]
  {
    assert b[p..p + |s|][i] == b[p + i];
  }

  lemma IsAtBound(b: seq<Byte>, p: nat, s: seq<Byte>)
    requires IsAt(b, p, s)
    ensures p + |s| <= |b|
  {
  }

  lemma IsAtWhole(s: seq<Byte>)
    ensures IsAt(s, 0, s)
  {
  }

  /** The C string s at p: its bytes, then a terminator. */
  ghost predicate TextAt(b: seq<Byte>, p: nat, s: seq<Byte>)
  {
    p + |s| < |b| && b[p..p + |s|] == s && b[p + |s|] == 0
  }

  ghost predicate HoldsText(z: array<Byte>, p: nat, s: seq<Byte>)
    reads z
  {
    p + |s| < z.Length && z[p..p + |s|] == s && z[p + |s|] == 0
  }

  lemma TextHeld(z: array<Byte>, p: nat, s: seq<Byte>)
    ensures HoldsText(z, p, s) <==> TextAt(z[..], p, s)
  {
    if p + |s| < z.Length {
      assert z[..][p..p + |s|] == z[p..p + |s|];
    }
  }

  /** From position i on, the buffer still holds what s had there, and the terminator. */
  ghost predicate HoldsRest(z: array<Byte>, p: nat, i: nat, s: seq<Byte>)
    reads z
  {
    p <= i <= p + |s| < z.Length && z[p + |s|] == 0 && forall k | i <= k < p + |s| :: z[k] == s[k - p]
  }

  lemma TextIsRest(z: array<Byte>, p: nat, s: seq<Byte>)
    requires HoldsText(z, p, s)
    ensures HoldsRest(z, p, p, s)
  {
    assert forall k | p <= k < p + |s| :: z[p..p + |s|][k - p] == z[k];
  }

  /** z up to its first q. */
  function UpTo(z: seq<Byte>, q: Byte): seq<Byte>
  {
    if z == [] || z[0] == q then [] else [z[0]] + UpTo(z[1..], q)
  }

  lemma {:induction false} UpToSplit(z: seq<Byte>, q: Byte)
    ensures var n := |UpTo(z, q)|;
            n <= |z| && UpTo(z, q) == z[..n] && q !in UpTo(z, q) && (n < |z| ==> z[n] == q)
  {
    if z != [] && z[0] != q {
      UpToSplit(z[1..], q);
      var n := |UpTo(z[1..], q)|;
      assert z[..n + 1] == [z[0]] + z[1..][..n];
    }
  }

  lemma UpToWhole(z: seq<Byte>, q: Byte)
    ensures UpTo(z, q) == z <==> q !in z
  {
    UpToSplit(z, q);
  }
}
