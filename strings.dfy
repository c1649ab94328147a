/** String helpers shared by the models: Python's whitespace and `str.strip`, line splitting
    as done by iterating over a text file, substring search and decimal formatting. */
module Strings {

  /** Python's `str.isspace()` for one character. */
  predicate IsSpace(c: char) {
    c == ' ' || '\t' <= c <= '\r' || '\U{1c}' <= c <= '\U{1f}' || c == '\U{85}' || c == '\U{a0}'
    || c == '\U{1680}' || '\U{2000}' <= c <= '\U{200a}' || c == '\U{2028}' || c == '\U{2029}'
    || c == '\U{202f}' || c == '\U{205f}' || c == '\U{3000}'
  }

  function StripLeft(s: string): (r: string)
    ensures |r| <= |s| && r == s[|s| - |r|..]
    ensures forall k :: 0 <= k < |s| - |r| ==> IsSpace(s[k])
    ensures r == [] || !IsSpace(r[0])
  {
    if |s| > 0 && IsSpace(s[0]) then StripLeft(s[1..]) else s
  }

  function StripRight(s: string): (r: string)
    ensures |r| <= |s| && r == s[..|r|]
    ensures forall k :: |r| <= k < |s| ==> IsSpace(s[k])
    ensures r == [] || !IsSpace(r[|r| - 1])
  {
    if |s| > 0 && IsSpace(s[|s| - 1]) then StripRight(s[..|s| - 1]) else s
  }

  /** `r` is the slice of `s` starting at `i`, and everything of `s` outside it is whitespace. */
  predicate StrippedAt(s: string, r: string, i: int) {
    && 0 <= i <= |s| - |r| && r == s[i..i + |r|]
    && (forall k :: 0 <= k < i ==> IsSpace(s[k]))
    && (forall k :: i + |r| <= k < |s| ==> IsSpace(s[k]))
  }

  /** Python's `s.strip()`: the result is a slice of `s`, everything cut off is whitespace,
      and the result neither starts nor ends with whitespace. */
  function Strip(s: string): (r: string)
    ensures exists i :: StrippedAt(s, r, i)
    ensures r == [] || (!IsSpace(r[0]) && !IsSpace(r[|r| - 1]))
  {
    StripBoth(s);
    StripRight(StripLeft(s))
  }

  lemma StripBoth(s: string)
    ensures StrippedAt(s, StripRight(StripLeft(s)), |s| - |StripLeft(s)|)
  {
    var l := StripLeft(s);
    var r := StripRight(l);
    StripAround(s, l, r);
  }

  lemma StripAround(s: string, l: string, r: string)
    requires |l| <= |s| && l == s[|s| - |l|..] && forall k :: 0 <= k < |s| - |l| ==> IsSpace(s[k])
    requires |r| <= |l| && r == l[..|r|] && forall k :: |r| <= k < |l| ==> IsSpace(l[k])
    ensures StrippedAt(s, r, |s| - |l|)
  {
    var i := |s| - |l|;
    StripSlice(s, l, r, i);
    StripTail(s, l, r, i);
  }

  lemma StripSlice(s: string, l: string, r: string, i: int)
    requires |l| <= |s| && i == |s| - |l| && l == s[i..]
    requires |r| <= |l| && r == l[..|r|]
    ensures 0 <= i <= |s| - |r| && r == s[i..i + |r|]
  {
  }

  lemma StripTail(s: string, l: string, r: string, i: int)
    requires |l| <= |s| && i == |s| - |l| && l == s[i..]
    requires |r| <= |l| && forall k :: |r| <= k < |l| ==> IsSpace(l[k])
    ensures forall k :: i + |r| <= k < |s| ==> IsSpace(s[k])
  {
    forall k | i + |r| <= k < |s| ensures IsSpace(s[k]) {
      assert s[k] == l[k - i];
    }
  }

  /** Text made only of whitespace strips to nothing. */
  lemma StripBlank(s: string)
    requires forall k :: 0 <= k < |s| ==> IsSpace(s[k])
    ensures Strip(s) == []
  {
  }

  /** A character that is not whitespace survives stripping. */
  lemma StripKeeps(s: string, c: char)
    requires c in s && !IsSpace(c)
    ensures c in Strip(s)
  {
    var r := Strip(s);
    StripBoth(s);
    var i := |s| - |StripLeft(s)|;
    var k :| 0 <= k < |s| && s[k] == c;
    KeptInside(s, r, i, k);
  }

  /** A character of the stripped slice is a character of `s`. */
  lemma SliceMember(s: string, r: string, i: int, c: char)
    requires StrippedAt(s, r, i) && c in r
    ensures c in s
  {
    var k :| 0 <= k < |r| && r[k] == c;
    assert s[i + k] == c;
  }

  /** A character of `s` that is not whitespace lies inside the stripped slice. */
  lemma KeptInside(s: string, r: string, i: int, k: int)
    requires StrippedAt(s, r, i) && 0 <= k < |s| && !IsSpace(s[k])
    ensures s[k] in r
  {
    assert i <= k < i + |r|;
    assert r[k - i] == s[k];
  }

  /** Stripping a line whose text has no whitespace at either end removes exactly its line end. */
  lemma StripLine(x: string)
    requires x != [] && !IsSpace(x[0]) && !IsSpace(x[|x| - 1])
    ensures Strip(x + "\n") == x
  {
    assert StripLeft(x + "\n") == x + "\n";
    assert (x + "\n")[..|x + "\n"| - 1] == x;
    assert StripRight(x + "\n") == StripRight(x);
  }

  /** Leading whitespace is dropped up to the first other character. */
  lemma {:induction false} StripLeftPadded(pad: string, y: string)
    requires forall k :: 0 <= k < |pad| ==> IsSpace(pad[k])
    requires y != [] && !IsSpace(y[0])
    ensures StripLeft(pad + y) == y
  {
    if pad != [] {
      assert (pad + y)[1..] == pad[1..] + y;
      StripLeftPadded(pad[1..], y);
    }
  }

  /** Stripping an indented line removes its indentation and its line end. */
  lemma StripIndentedLine(pad: string, x: string)
    requires forall k :: 0 <= k < |pad| ==> IsSpace(pad[k])
    requires x != [] && !IsSpace(x[0]) && !IsSpace(x[|x| - 1])
    ensures Strip(pad + x + "\n") == x
  {
    assert pad + x + "\n" == pad + (x + "\n");
    StripLeftPadded(pad, x + "\n");
    assert (x + "\n")[..|x + "\n"| - 1] == x;
    assert StripRight(x + "\n") == StripRight(x);
  }

  /** Index of the first `c` in `s`, or `|s|` when there is none. */
  function IndexOf(s: string, c: char): (n: nat)
    ensures n <= |s|
    ensures n < |s| ==> s[n] == c
    ensures forall k :: 0 <= k < n ==> s[k] != c
  {
    if s == [] then 0 else if s[0] == c then 0 else 1 + IndexOf(s[1..], c)
  }

  function Concat(ls: seq<string>): string {
    if ls == [] then [] else ls[0] + Concat(ls[1..])
  }

  /** A line as Python's file iteration yields it: non-empty, and a newline can only be its
      last character. */
  predicate IsLine(l: string) {
    l != [] && forall k :: 0 <= k < |l| - 1 ==> l[k] != '\n'
  }

  /** The lines of a text, each keeping its `\n`, as `for line in f` yields them. */
  function Lines(s: string): (ls: seq<string>)
    ensures Concat(ls) == s
    ensures forall i :: 0 <= i < |ls| ==> IsLine(ls[i]) && (i < |ls| - 1 ==> ls[i][|ls[i]| - 1] == '\n')
    decreases |s|
  {
    if s == [] then []
    else
      var n := IndexOf(s, '\n');
      if n == |s| then [s]
      else
        var rest := Lines(s[n + 1..]);
        assert s[..n + 1] + s[n + 1..] == s;
        [s[..n + 1]] + rest
  }

  /** Splitting the concatenation of complete lines gives those lines back. */
  lemma {:induction false} LinesOfConcat(ls: seq<string>)
    requires forall i :: 0 <= i < |ls| ==> IsLine(ls[i]) && ls[i][|ls[i]| - 1] == '\n'
    ensures Lines(Concat(ls)) == ls
  {
    if ls != [] {
      var l := ls[0];
      var s := Concat(ls);
      assert s == l + Concat(ls[1..]);
      assert s[..|l|] == l;
      assert IndexOf(s, '\n') == |l| - 1 by {
        assert s[|l| - 1] == '\n';
        forall k | 0 <= k < |l| - 1 ensures s[k] != '\n' { assert s[k] == l[k]; }
        IndexOfFirst(s, '\n', |l| - 1);
      }
      assert s[|l|..] == Concat(ls[1..]);
      LinesOfConcat(ls[1..]);
    }
  }

  lemma IndexOfFirst(s: string, c: char, n: nat)
    requires n < |s| && s[n] == c && forall k :: 0 <= k < n ==> s[k] != c
    ensures IndexOf(s, c) == n
  {
  }

  predicate OccursAt(s: string, p: string, i: int) {
    0 <= i <= |s| - |p| && s[i..i + |p|] == p
  }

  /** Does `p` occur in `s` (JavaScript's `s.includes(p)`)? */
  predicate Contains(s: string, p: string)
    decreases |s|
  {
    (|p| <= |s| && s[..|p|] == p) || (|s| > 0 && Contains(s[1..], p))
  }

  /** `Contains` finds exactly the positions at which `p` occurs. */
  lemma {:induction false} ContainsAt(s: string, p: string)
    ensures Contains(s, p) <==> exists i :: OccursAt(s, p, i)
    decreases |s|
  {
    if |p| <= |s| && s[..|p|] == p {
      assert OccursAt(s, p, 0);
    } else if |s| > 0 {
      ContainsAt(s[1..], p);
      if Contains(s[1..], p) {
        var i :| OccursAt(s[1..], p, i);
        assert s[i + 1..i + 1 + |p|] == s[1..][i..i + |p|];
        assert OccursAt(s, p, i + 1);
      }
      if exists i :: OccursAt(s, p, i) {
        var i :| OccursAt(s, p, i);
        assert i != 0;
        assert s[1..][i - 1..i - 1 + |p|] == s[i..i + |p|];
        assert OccursAt(s[1..], p, i - 1);
      }
    }
  }

  predicate IsDigit(c: char) { '0' <= c <= '9' }

  function DigitChar(d: int): (c: char)
    requires 0 <= d < 10
    ensures IsDigit(c)
  {
    (48 + d) as char
  }

  /** A natural number in decimal, as JavaScript's template literals and Python's `str` print it. */
  function NatToString(n: nat): (s: string)
    ensures s != [] && forall i :: 0 <= i < |s| ==> IsDigit(s[i])
  {
    if n < 10 then [DigitChar(n)] else NatToString(n / 10) + [DigitChar(n % 10)]
  }

  function DecimalValue(s: string): nat
    requires forall i :: 0 <= i < |s| ==> IsDigit(s[i])
  {
    if s == [] then 0
    else
      assert IsDigit(s[|s| - 1]);
      10 * DecimalValue(s[..|s| - 1]) + (s[|s| - 1] as int - 48)
  }

  /** Reading the digits back gives the number: decimal formatting loses nothing. */
  lemma {:induction false} NatToStringRoundTrip(n: nat)
    ensures DecimalValue(NatToString(n)) == n
  {
    if n >= 10 {
      var s := NatToString(n);
      assert s[..|s| - 1] == NatToString(n / 10);
      NatToStringRoundTrip(n / 10);
    }
  }

  lemma NatToStringInjective(m: nat, n: nat)
    requires NatToString(m) == NatToString(n)
    ensures m == n
  {
    NatToStringRoundTrip(m);
    NatToStringRoundTrip(n);
  }
}
