/** Python string operations that the solver scripts rely on: str.strip(),
    the substring test `t in s`, file.readlines(), str.lower() and
    str.replace() on single characters; and the optional value the other
    modules share. */
module Text {

  /** A value that may be missing (Python's None). */
  datatype Option<T> = None | Some(value: T)

  /** Python's str.isspace() for one character: the characters str.strip()
      removes when called without arguments (ASCII controls 9-13 and 28-31,
      the space, and the Unicode separators). */
  predicate IsSpace(c: char) {
    var n := c as int;
    (9 <= n <= 13) || (28 <= n <= 32) || n == 0x85 || n == 0xA0 || n == 0x1680
    || (0x2000 <= n <= 0x200A) || n == 0x2028 || n == 0x2029 || n == 0x202F
    || n == 0x205F || n == 0x3000
  }

  predicate AllSpace(s: string) {
    forall i :: 0 <= i < |s| ==> IsSpace(s[i])
  }

  /** No whitespace at either end. */
  predicate Trimmed(s: string) {
    s == [] || (!IsSpace(s[0]) && !IsSpace(s[|s| - 1]))
  }

  // The strip functions carry no postconditions of their own: facts about
  // them come from the lemmas below, which keeps the solver from unfolding
  // them without end on literal strings.

  /** The first index at or after i whose character is not whitespace, or
      |s| when there is none. */
  function SpaceEnd(s: string, i: nat): (k: nat)
    requires i <= |s|
    ensures i <= k <= |s|
    decreases |s| - i
  {
    if i < |s| && IsSpace(s[i]) then SpaceEnd(s, i + 1) else i
  }

  /** The last index at or before j that follows a character that is not
      whitespace, or 0 when there is none. */
  function SpaceStart(s: string, j: nat): (k: nat)
    requires j <= |s|
    ensures k <= j
  {
    if j > 0 && IsSpace(s[j - 1]) then SpaceStart(s, j - 1) else j
  }

  /** str.lstrip(). */
  function StripLeft(s: string): string {
    s[SpaceEnd(s, 0)..]
  }

  /** str.rstrip(). */
  function StripRight(s: string): string {
    s[..SpaceStart(s, |s|)]
  }

  /** str.strip(). */
  function Strip(s: string): string {
    StripRight(StripLeft(s))
  }

  lemma {:induction false} SpaceEndSpec(s: string, i: nat)
    requires i <= |s|
    ensures forall k :: i <= k < SpaceEnd(s, i) ==> IsSpace(s[k])
    ensures SpaceEnd(s, i) == |s| || !IsSpace(s[SpaceEnd(s, i)])
    decreases |s| - i
  {
    if i < |s| && IsSpace(s[i]) {
      SpaceEndSpec(s, i + 1);
    }
  }

  lemma {:induction false} SpaceStartSpec(s: string, j: nat)
    requires j <= |s|
    ensures forall k :: SpaceStart(s, j) <= k < j ==> IsSpace(s[k])
    ensures SpaceStart(s, j) == 0 || !IsSpace(s[SpaceStart(s, j) - 1])
  {
    if j > 0 && IsSpace(s[j - 1]) {
      SpaceStartSpec(s, j - 1);
    }
  }

  /** str.strip() cuts s into whitespace, a trimmed middle, and whitespace,
      and returns the middle. */
  lemma StripSpec(s: string)
    ensures |Strip(s)| <= |StripLeft(s)| <= |s|
    ensures var i := |s| - |StripLeft(s)|;
      Strip(s) == s[i..i + |Strip(s)|] && AllSpace(s[..i]) && AllSpace(s[i + |Strip(s)|..])
    ensures Trimmed(Strip(s))
  {
    var l := StripLeft(s);
    SpaceEndSpec(s, 0);
    SpaceStartSpec(l, |l|);
    var i, j := SpaceEnd(s, 0), SpaceStart(l, |l|);
    assert Strip(s) == s[i..i + j];
    assert s[i + j..] == l[j..];
  }

  /** Whitespace followed by x, where x does not start with whitespace:
      lstrip leaves x. */
  lemma StripLeftPadded(a: string, x: string)
    requires AllSpace(a)
    requires x == [] || !IsSpace(x[0])
    ensures StripLeft(a + x) == x
  {
    var s := a + x;
    SpaceEndSpec(s, 0);
    assert s[|a|..] == x;
  }

  /** x followed by whitespace, where x does not end with whitespace:
      rstrip leaves x. */
  lemma StripRightPadded(x: string, b: string)
    requires AllSpace(b)
    requires x == [] || !IsSpace(x[|x| - 1])
    ensures StripRight(x + b) == x
  {
    var s := x + b;
    SpaceStartSpec(s, |s|);
    assert s[..|x|] == x;
  }

  /** The characterisation of str.strip(): surrounding a trimmed string with
      whitespace on both sides and stripping gives the string back. */
  lemma StripPadded(a: string, x: string, b: string)
    requires AllSpace(a) && AllSpace(b) && Trimmed(x)
    ensures Strip(a + x + b) == x
  {
    if x == [] {
      assert a + x + b == a + b;
      StripLeftPadded(a + b, []);
      assert a + b + [] == a + b;
    } else {
      assert a + x + b == a + (x + b);
      StripLeftPadded(a, x + b);
      StripRightPadded(x, b);
    }
  }

  /** A trimmed string is its own strip; in particular strip is idempotent. */
  lemma StripTrimmed(x: string)
    requires Trimmed(x)
    ensures Strip(x) == x
  {
    StripPadded([], x, []);
    assert [] + x + [] == x;
  }

  /** Stripping a trimmed line that ends in a newline drops exactly the newline. */
  lemma StripLine(x: string)
    requires Trimmed(x)
    ensures Strip(x + "\n") == x
  {
    StripPadded([], x, "\n");
    assert [] + x + "\n" == x + "\n";
  }

  /** t occurs in s starting at index i. */
  predicate OccursAt(s: string, t: string, i: int) {
    0 <= i <= |s| - |t| && s[i..i + |t|] == t
  }

  /** Python's substring test `t in s`. */
  predicate Contains(s: string, t: string) {
    exists i | 0 <= i <= |s| - |t| :: OccursAt(s, t, i)
  }

  /** A string that lacks some character of t cannot contain t. */
  lemma MissingCharNotContained(s: string, t: string, c: char)
    requires c in t && c !in s
    ensures !Contains(s, t)
  {
    var k :| 0 <= k < |t| && t[k] == c;
    forall i | 0 <= i <= |s| - |t|
      ensures !OccursAt(s, t, i)
    {
      assert s[i..i + |t|][k] == s[i + k] != c;
    }
  }

  /** An occurrence of a newline-free string cannot straddle a newline, so
      when neither `a` (ending in a newline) nor `b` contains t, `a + b`
      does not either. */
  lemma NotContainedAcrossNewline(a: string, b: string, t: string)
    requires |a| > 0 && a[|a| - 1] == '\n' && '\n' !in t
    requires !Contains(a, t) && !Contains(b, t)
    ensures !Contains(a + b, t)
  {
    var s := a + b;
    forall i | 0 <= i <= |s| - |t|
      ensures !OccursAt(s, t, i)
    {
      if i + |t| <= |a| {
        assert s[i..i + |t|] == a[i..i + |t|];
        assert !OccursAt(a, t, i);
      } else if i >= |a| {
        assert s[i..i + |t|] == b[i - |a|..i - |a| + |t|];
        assert !OccursAt(b, t, i - |a|);
      } else {
        assert s[i..i + |t|][|a| - 1 - i] == '\n';
      }
    }
  }

  /** The concatenation of a list of strings ("".join). */
  function Concat(ls: seq<string>): string {
    if ls == [] then [] else ls[0] + Concat(ls[1..])
  }

  lemma {:induction false} ConcatAppend(a: seq<string>, b: seq<string>)
    ensures Concat(a + b) == Concat(a) + Concat(b)
    decreases |a|
  {
    if a == [] {
      assert a + b == b;
    } else {
      assert (a + b)[1..] == a[1..] + b;
      ConcatAppend(a[1..], b);
    }
  }

  /** A newline occurs in s only at its last position, if at all. */
  predicate NewlineOnlyAtEnd(s: string) {
    forall j :: 0 <= j < |s| - 1 ==> s[j] != '\n'
  }

  /** A complete line: non-empty, ends in a newline, no other newline. */
  predicate Terminated(s: string) {
    |s| > 0 && s[|s| - 1] == '\n' && NewlineOnlyAtEnd(s)
  }

  /** The length of the first line of t, its newline included. */
  function LineLength(t: string): (k: nat)
    requires |t| > 0
    ensures 0 < k <= |t|
    ensures NewlineOnlyAtEnd(t[..k])
    ensures k == |t| || t[k - 1] == '\n'
  {
    if t[0] == '\n' || |t| == 1 then 1
    else
      var k := 1 + LineLength(t[1..]);
      assert t[..k] == [t[0]] + t[1..][..k - 1];
      k
  }

  /** file.readlines() without newline translation: the lines of t, each
      keeping its terminating newline; the last one may lack it. */
  function ReadLines(t: string): (ls: seq<string>)
    ensures Concat(ls) == t
    ensures forall i :: 0 <= i < |ls| ==> |ls[i]| > 0 && NewlineOnlyAtEnd(ls[i])
    ensures forall i :: 0 <= i < |ls| - 1 ==> Terminated(ls[i])
    decreases |t|
  {
    if t == [] then []
    else
      var k := LineLength(t);
      var rest := ReadLines(t[k..]);
      assert t[..k] + t[k..] == t;
      [t[..k]] + rest
  }

  lemma {:induction false} LineLengthOfTerminated(l: string, rest: string)
    requires Terminated(l)
    ensures LineLength(l + rest) == |l|
    decreases |l|
  {
    var t := l + rest;
    if |l| > 1 {
      assert t[0] == l[0] != '\n';
      assert t[1..] == l[1..] + rest;
      LineLengthOfTerminated(l[1..], rest);
    }
  }

  /** readlines() is the inverse of writing complete lines one after another. */
  lemma {:induction false} ReadLinesOfConcat(ls: seq<string>)
    requires forall i :: 0 <= i < |ls| ==> Terminated(ls[i])
    ensures ReadLines(Concat(ls)) == ls
    decreases |ls|
  {
    if ls != [] {
      var t := Concat(ls);
      LineLengthOfTerminated(ls[0], Concat(ls[1..]));
      assert t[..|ls[0]|] == ls[0];
      assert t[|ls[0]|..] == Concat(ls[1..]);
      ReadLinesOfConcat(ls[1..]);
      assert ls == [ls[0]] + ls[1..];
    }
  }

  /** ASCII case folding of one character. */
  function LowerChar(c: char): (d: char)
    ensures 'A' <= c <= 'Z' ==> 'a' <= d <= 'z' && d as int == c as int + 32
    ensures !('A' <= c <= 'Z') ==> d == c
  {
    if 'A' <= c <= 'Z' then (c as int + 32) as char else c
  }

  /** str.lower(), restricted to ASCII letters. */
  function Lower(s: string): (r: string)
    ensures |r| == |s|
    ensures forall i :: 0 <= i < |s| ==> r[i] == LowerChar(s[i])
  {
    if s == [] then [] else [LowerChar(s[0])] + Lower(s[1..])
  }

  /** str.replace(x, y) for one-character `x` and `y`. */
  function ReplaceChar(s: string, x: char, y: char): (r: string)
    ensures |r| == |s|
    ensures forall i :: 0 <= i < |s| ==> r[i] == (if s[i] == x then y else s[i])
  {
    if s == [] then [] else [if s[0] == x then y else s[0]] + ReplaceChar(s[1..], x, y)
  }
}
