/** The stand-in partitioner split.py. It never looks at the query: it writes
    n cubes, each a conjunction of `true`s, and makes line i one `true`
    longer than line i - 1 so that no two cubes are the same text (the
    thunk cache would otherwise merge the sub-problems). */
module Split {
  import opened Text

  /** itertools.repeat(w, k), collected into a list. */
  function Repeat(w: string, k: nat): (r: seq<string>)
    ensures |r| == k
    ensures forall i :: 0 <= i < k ==> r[i] == w
  {
    if k == 0 then [] else [w] + Repeat(w, k - 1)
  }

  /** sep.join(parts). */
  function JoinWith(sep: string, parts: seq<string>): string {
    if |parts| == 0 then ""
    else if |parts| == 1 then parts[0]
    else parts[0] + sep + JoinWith(sep, parts[1..])
  }

  /** Line i of the cubes file, as the f-string in main() formats it. */
  function CubeLine(i: nat): string {
    "(and " + JoinWith(" ", Repeat("true", i + 1)) + ")\n"
  }

  /** The lines main() writes for `-n n`: range(n) is empty when n <= 0. */
  function CubeLines(n: int): seq<string> {
    seq(if n > 0 then n else 0, i requires 0 <= i => CubeLine(i))
  }

  /** The whole cubes file. */
  function CubesFile(n: int): string {
    Concat(CubeLines(n))
  }

  /** main(): writes one line per iteration of `for i in range(n)`. The query
      path is taken and never read, so the output is a function of n alone. */
  method WriteCubes(query: string, n: int) returns (out: string)
    ensures out == CubesFile(n)
  {
    out := "";
    var i := 0;
    while i < n
      invariant 0 <= i <= (if n > 0 then n else 0)
      invariant out == Concat(CubeLines(i))
    {
      assert CubeLines(i + 1) == CubeLines(i) + [CubeLine(i)];
      ConcatAppend(CubeLines(i), [CubeLine(i)]);
      out := out + CubeLine(i);
      i := i + 1;
    }
    assert CubeLines(i) == CubeLines(n);
  }

  /** " true" repeated k times. */
  function TrueTokens(k: nat): (r: string)
    ensures |r| == 5 * k
  {
    if k == 0 then "" else " true" + TrueTokens(k - 1)
  }

  lemma {:induction false} JoinedTrues(k: nat)
    requires k >= 1
    ensures " " + JoinWith(" ", Repeat("true", k)) == TrueTokens(k)
  {
    if k > 1 {
      JoinedTrues(k - 1);
      assert Repeat("true", k)[1..] == Repeat("true", k - 1);
    }
  }

  /** Line i is "(and" followed by i + 1 space-separated `true` tokens and ")". */
  lemma CubeLineShape(i: nat)
    ensures CubeLine(i) == "(and" + TrueTokens(i + 1) + ")\n"
    ensures |CubeLine(i)| == 5 * i + 11
  {
    JoinedTrues(i + 1);
    assert "(and " + JoinWith(" ", Repeat("true", i + 1))
        == "(and" + (" " + JoinWith(" ", Repeat("true", i + 1)));
  }

  lemma {:induction false} NoNewlineInTokens(k: nat)
    ensures '\n' !in TrueTokens(k)
  {
    if k > 0 {
      NoNewlineInTokens(k - 1);
    }
  }

  /** Every line is a complete line, and once stripped it is non-empty: the
      cube itself without the newline. */
  lemma CubeLineWellFormed(i: nat)
    ensures Terminated(CubeLine(i))
    ensures Strip(CubeLine(i)) == "(and" + TrueTokens(i + 1) + ")"
    ensures Strip(CubeLine(i)) != []
  {
    CubeLineShape(i);
    NoNewlineInTokens(i + 1);
    var body := "(and" + TrueTokens(i + 1) + ")";
    assert CubeLine(i) == body + "\n";
    forall j | 0 <= j < |body|
      ensures body[j] != '\n'
    {
      if 4 <= j < |body| - 1 {
        assert body[j] == TrueTokens(i + 1)[j - 4];
      }
    }
    StripLine(body);
  }

  /** All generated lines are pairwise distinct. */
  lemma CubeLinesDistinct(i: nat, j: nat)
    requires i != j
    ensures CubeLine(i) != CubeLine(j)
  {
    CubeLineShape(i);
    CubeLineShape(j);
  }

  /** The file holds exactly max(n, 0) newline-terminated lines, and reading
      it back line by line gives the lines that were written, in order. */
  lemma CubesFileLines(n: int)
    ensures ReadLines(CubesFile(n)) == CubeLines(n)
    ensures |ReadLines(CubesFile(n))| == (if n > 0 then n else 0)
    ensures forall i :: 0 <= i < |CubeLines(n)| ==> Terminated(CubeLines(n)[i])
  {
    forall i | 0 <= i < |CubeLines(n)|
      ensures Terminated(CubeLines(n)[i])
    {
      CubeLineWellFormed(i);
    }
    ReadLinesOfConcat(CubeLines(n));
  }
}
