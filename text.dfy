/** The PHP string operations the commands rely on: converting an integer to
    its decimal text, `explode(' ', ...)`, `implode(' ', ...)` and `str_contains`. */
module Text {

  predicate IsDigit(c: char) {
    '0' <= c <= '9'
  }

  predicate AllDigits(s: string) {
    forall i :: 0 <= i < |s| ==> IsDigit(s[i])
  }

  predicate NoSpace(s: string) {
    forall i :: 0 <= i < |s| ==> s[i] != ' '
  }

  function DigitChar(d: nat): (c: char)
    requires d < 10
    ensures IsDigit(c)
  {
    ('0' as int + d) as char
  }

  function DigitValue(c: char): (d: nat)
    requires IsDigit(c)
    ensures d < 10
  {
    c as int - '0' as int
  }

  /** The decimal text PHP produces for a non-negative integer: digits only,
      no leading zero. */
  function NatToString(n: nat): (s: string)
    ensures s != [] && AllDigits(s)
    ensures s[0] == '0' ==> n == 0
  {
    if n < 10 then [DigitChar(n)] else NatToString(n / 10) + [DigitChar(n % 10)]
  }

  /** The decimal text PHP produces for any integer: a minus sign before the
      digits of a negative value. */
  function IntToString(i: int): (s: string)
    ensures s != [] && NoSpace(s)
  {
    if i < 0 then "-" + NatToString(-i) else NatToString(i)
  }

  /** Reads back a string of decimal digits. */
  function ParseNat(s: string): nat
    requires AllDigits(s)
  {
    if s == [] then 0 else ParseNat(s[..|s| - 1]) * 10 + DigitValue(s[|s| - 1])
  }

  lemma {:induction false} ParseNatToString(n: nat)
    ensures ParseNat(NatToString(n)) == n
  {
    if n >= 10 {
      var s := NatToString(n);
      assert s[..|s| - 1] == NatToString(n / 10);
      ParseNatToString(n / 10);
    }
  }

  /** Index of the first space, or the length when there is none. */
  function SpaceIndex(s: string): (i: nat)
    ensures i <= |s| && NoSpace(s[..i]) && (i < |s| ==> s[i] == ' ')
  {
    if s == [] || s[0] == ' ' then 0 else 1 + SpaceIndex(s[1..])
  }

  /** `explode(' ', $s)`: the pieces between single spaces, in order; a string
      without a space is one piece, the empty string one empty piece. */
  function Explode(s: string): (parts: seq<string>)
    ensures |parts| >= 1
    ensures forall k :: 0 <= k < |parts| ==> NoSpace(parts[k])
    decreases |s|
  {
    var i := SpaceIndex(s);
    if i == |s| then [s] else [s[..i]] + Explode(s[i + 1..])
  }

  /** `implode(' ', $parts)`: the pieces joined by single spaces. */
  function Implode(parts: seq<string>): string {
    if parts == [] then ""
    else if |parts| == 1 then parts[0]
    else parts[0] + " " + Implode(parts[1..])
  }

  lemma ImplodeCons(a: string, e: seq<string>)
    requires |e| >= 1
    ensures Implode([a] + e) == a + " " + Implode(e)
  {
    assert ([a] + e)[0] == a && ([a] + e)[1..] == e;
  }

  lemma {:induction false} ImplodeExplode(s: string)
    ensures Implode(Explode(s)) == s
    decreases |s|
  {
    var i := SpaceIndex(s);
    if i < |s| {
      var a, tail := s[..i], s[i + 1..];
      assert s == a + " " + tail;
      ImplodeExplode(tail);
      ImplodeExplodeSplit(a, tail);
    }
  }

  lemma ImplodeExplodeSplit(a: string, tail: string)
    requires NoSpace(a) && Implode(Explode(tail)) == tail
    ensures Implode(Explode(a + " " + tail)) == a + " " + tail
  {
    var s := a + " " + tail;
    SpaceIndexOfWord(a, tail);
    assert s[..|a|] == a && s[|a| + 1..] == tail;
    assert Explode(s) == [a] + Explode(tail);
    ImplodeCons(a, Explode(tail));
  }

  lemma SpaceIndexOfWord(a: string, rest: string)
    requires NoSpace(a)
    ensures SpaceIndex(a) == |a|
    ensures SpaceIndex(a + " " + rest) == |a|
  {
    if a != [] {
      assert (a + " " + rest)[1..] == a[1..] + " " + rest;
      SpaceIndexOfWord(a[1..], rest);
    }
  }

  lemma {:induction false} ExplodeImplode(parts: seq<string>)
    requires |parts| >= 1
    requires forall k :: 0 <= k < |parts| ==> NoSpace(parts[k])
    ensures Explode(Implode(parts)) == parts
  {
    if |parts| == 1 {
      SpaceIndexOfWord(parts[0], "");
    } else {
      var a, rest := parts[0], Implode(parts[1..]);
      SpaceIndexOfWord(a, rest);
      var s := a + " " + rest;
      assert s[..|a|] == a && s[|a| + 1..] == rest;
      ExplodeImplode(parts[1..]);
      assert parts == [a] + parts[1..];
    }
  }

  /** The first piece `explode(' ', $s)[0]`: everything before the first space. */
  lemma FirstPieceBeforeSpace(a: string, rest: string)
    requires NoSpace(a)
    ensures Explode(a + " " + rest)[0] == a
    ensures Explode(a)[0] == a
  {
    SpaceIndexOfWord(a, rest);
    var s := a + " " + rest;
    assert s[..|a|] == a;
  }

  predicate OccursAt(hay: string, needle: string, i: nat) {
    i + |needle| <= |hay| && hay[i..i + |needle|] == needle
  }

  /** `str_contains($hay, $needle)`; an empty needle is contained in every string. */
  predicate Contains(hay: string, needle: string)
    decreases |hay|
  {
    (|needle| <= |hay| && hay[..|needle|] == needle) || (hay != [] && Contains(hay[1..], needle))
  }

  lemma {:induction false} ContainsOccurs(hay: string, needle: string)
    requires Contains(hay, needle)
    ensures exists i: nat :: OccursAt(hay, needle, i)
    decreases |hay|
  {
    if |needle| <= |hay| && hay[..|needle|] == needle {
      assert OccursAt(hay, needle, 0);
    } else {
      ContainsOccurs(hay[1..], needle);
      var i: nat :| OccursAt(hay[1..], needle, i);
      assert hay[1..][i..i + |needle|] == hay[i + 1..i + 1 + |needle|];
      assert OccursAt(hay, needle, i + 1);
    }
  }

  lemma {:induction false} OccursContains(hay: string, needle: string, i: nat)
    requires OccursAt(hay, needle, i)
    ensures Contains(hay, needle)
  {
    if i > 0 {
      assert hay[1..][i - 1..i - 1 + |needle|] == hay[i..i + |needle|];
      OccursContains(hay[1..], needle, i - 1);
    }
  }

  /** `str_contains` holds exactly when the needle occurs at some position. */
  lemma ContainsIffOccurs(hay: string, needle: string)
    ensures Contains(hay, needle) <==> exists i: nat :: OccursAt(hay, needle, i)
  {
    if Contains(hay, needle) {
      ContainsOccurs(hay, needle);
    }
    forall i: nat | OccursAt(hay, needle, i) ensures Contains(hay, needle) {
      OccursContains(hay, needle, i);
    }
  }

}
