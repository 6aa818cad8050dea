/** The cube-and-conquer solver of smt.py. A node merges the base query with
    its cube into an instance, may try the solver on it under a timeout, and
    on a timeout (or when initial splits are asked for) has the partitioner
    propose cubes, solves one child per cube and folds the children's answers
    with a SAT-dominant merge.

    The thunk framework is replaced by direct recursion, the solver and the
    partitioner are parameters (`Oracle`, `Partitioner`), and since the
    recursion has no depth bound a `fuel` argument bounds it; running out of
    fuel is its own outcome, `OutOfFuel`. */
module Smt {
  import opened Text
  import Split

  /** The Result enum. */
  datatype Result = SAT | UNSAT | TIMEOUT

  /** Result.name, the text a node returns. */
  function Name(r: Result): string {
    match r
    case SAT => "SAT"
    case UNSAT => "UNSAT"
    case TIMEOUT => "TIMEOUT"
  }

  /** The answers a completed node can return. */
  predicate IsVerdict(s: string) {
    s == "SAT" || s == "UNSAT"
  }

  /** The exceptions that abort a node. */
  datatype Error =
    | BadReturnCode(code: int)    // the solver exited with a non-zero status
    | NoVerdict(output: string)   // exit status 0, but neither ^sat$ nor ^unsat$ matched
    | SplitFailed                 // the partitioner exited with a non-zero status
    | EmptyReduce                 // functools.reduce over no children

  /** What base_solve does: return a Result or raise. */
  datatype Outcome = Classified(result: Result) | Failed(error: Error)

  /** What evaluating a node gives: its answer text, an exception, or the
      fuel bound reached before the node finished. */
  datatype Eval = Answer(value: string) | Fail(error: Error) | OutOfFuel

  /** One run of the solver process: its exit status and its combined
      stdout and stderr, or the expiry of the timeout. */
  datatype Process = Exited(code: int, output: string) | TimedOut

  /** The solver: an instance text and a timeout in seconds to a run. */
  type Oracle = (string, real) -> Process

  /** The partitioner: an instance text and a cube count to the contents of
      the cubes file it writes, or None when it exits with a non-zero status. */
  type Partitioner = (string, int) -> Option<string>

  // ---------------------------------------------------------------------
  // merge_query_and_cube

  /** The base-query lines that are copied into the instance: those that do
      not contain "check-sat". */
  function KeptLines(ls: seq<string>): seq<string> {
    if ls == [] then []
    else
      var last := ls[|ls| - 1];
      KeptLines(ls[..|ls| - 1]) + (if Contains(last, "check-sat") then [] else [last])
  }

  /** The instance file merge_query_and_cube writes for a query and a cube. */
  function Instance(query: string, cube: string): string {
    Concat(KeptLines(ReadLines(query))) + "(assert " + Strip(cube) + ")\n" + "(check-sat)"
  }

  /** merge_query_and_cube: copy the query line by line, dropping every line
      that mentions check-sat, then write the cube's assertion and a single
      check-sat. */
  method MergeQueryAndCube(query: string, cube: string) returns (merged: string)
    ensures merged == Instance(query, cube)
  {
    var lines := ReadLines(query);
    merged := "";
    var i := 0;
    while i < |lines|
      invariant 0 <= i <= |lines|
      invariant merged == Concat(KeptLines(lines[..i]))
    {
      assert lines[..i + 1][..i] == lines[..i];
      assert lines[..i + 1][i] == lines[i];
      var kept := KeptLines(lines[..i]);
      if Contains(lines[i], "check-sat") {
        assert KeptLines(lines[..i + 1]) == kept;
      } else {
        assert KeptLines(lines[..i + 1]) == kept + [lines[i]];
        ConcatAppend(kept, [lines[i]]);
        assert Concat([lines[i]]) == lines[i];
        merged := merged + lines[i];
      }
      i := i + 1;
    }
    assert lines[..i] == lines;
    merged := merged + "(assert ";
    merged := merged + Strip(cube);
    merged := merged + ")\n";
    merged := merged + "(check-sat)";
  }

  /** a is a subsequence of b: b with some elements deleted, order kept. */
  predicate Subsequence(a: seq<string>, b: seq<string>) {
    if a == [] then true
    else if b == [] then false
    else (a[|a| - 1] == b[|b| - 1] && Subsequence(a[..|a| - 1], b[..|b| - 1]))
         || Subsequence(a, b[..|b| - 1])
  }

  /** The kept lines are exactly the lines without "check-sat", in their
      original order. */
  lemma {:induction false} KeptLinesExact(ls: seq<string>)
    ensures forall l :: l in KeptLines(ls) ==> l in ls && !Contains(l, "check-sat")
    ensures forall i :: 0 <= i < |ls| && !Contains(ls[i], "check-sat") ==> ls[i] in KeptLines(ls)
    ensures Subsequence(KeptLines(ls), ls)
  {
    if ls != [] {
      var init, last := ls[..|ls| - 1], ls[|ls| - 1];
      KeptLinesExact(init);
      assert ls == init + [last];
      forall i | 0 <= i < |ls| && !Contains(ls[i], "check-sat")
        ensures ls[i] in KeptLines(ls)
      {
        if i < |init| {
          assert ls[i] == init[i];
        }
      }
      var k := KeptLines(init);
      if Contains(last, "check-sat") {
        assert KeptLines(ls) == k;
        if k != [] {
          assert Subsequence(k, ls);
        }
      } else {
        var kl := k + [last];
        assert KeptLines(ls) == kl;
        assert kl[..|kl| - 1] == k;
      }
    }
  }

  /** Every copy of a line without check-sat is kept, and no copy of a line
      with it: with the order kept (KeptLinesExact), this pins the kept lines
      down completely. */
  lemma {:induction false} KeptLinesCount(ls: seq<string>)
    ensures forall l :: multiset(KeptLines(ls))[l] == (if Contains(l, "check-sat") then 0 else multiset(ls)[l])
  {
    if ls != [] {
      var init, last := ls[..|ls| - 1], ls[|ls| - 1];
      KeptLinesCount(init);
      assert ls == init + [last];
      assert multiset(ls) == multiset(init) + multiset{last};
      var k := KeptLines(init);
      if Contains(last, "check-sat") {
        assert KeptLines(ls) == k;
      } else {
        assert KeptLines(ls) == k + [last];
        assert multiset(KeptLines(ls)) == multiset(k) + multiset{last};
      }
    }
  }

  lemma DirectiveLacksC(l: string, w: string)
    requires 'c' !in w
    requires l in {"(set-info :status " + w + ")", "(set-info :status " + w + ")\n", "(exit)", "(exit)\n"}
    ensures 'c' !in l
  {
    var pre := "(set-info :status ";
    assert 'c' !in pre && 'c' !in ")" && 'c' !in ")\n" && 'c' !in "(exit)" && 'c' !in "(exit)\n";
    if l == pre + w + ")" || l == pre + w + ")\n" {
      assert l == pre + w + ")" || l == pre + (w + ")\n");
    }
  }

  /** A status directive `(set-info :status w)` for any status word w without
      a `c` (sat, unsat and unknown among them) and an `(exit)` directive are
      kept, with or without their newline: none of them holds a `c`, so none
      contains check-sat. */
  lemma DirectivesKept(ls: seq<string>, i: int, w: string)
    requires 0 <= i < |ls| && 'c' !in w
    requires ls[i] in {"(set-info :status " + w + ")", "(set-info :status " + w + ")\n", "(exit)", "(exit)\n"}
    ensures ls[i] in KeptLines(ls)
  {
    var l := ls[i];
    DirectiveLacksC(l, w);
    MissingCharNotContained(l, "check-sat", 'c');
    KeptLinesExact(ls);
  }

  lemma {:induction false} ConcatEndsWithNewline(ls: seq<string>)
    requires |ls| > 0
    requires forall i :: 0 <= i < |ls| ==> Terminated(ls[i])
    ensures |Concat(ls)| > 0 && Concat(ls)[|Concat(ls)| - 1] == '\n'
  {
    if |ls| > 1 {
      ConcatEndsWithNewline(ls[1..]);
    }
  }

  /** Lines kept from complete lines are complete lines. */
  lemma KeptTerminated(ls: seq<string>)
    requires forall i :: 0 <= i < |ls| ==> Terminated(ls[i])
    ensures forall j :: 0 <= j < |KeptLines(ls)| ==> Terminated(KeptLines(ls)[j])
  {
    KeptLinesExact(ls);
    var k := KeptLines(ls);
    forall j | 0 <= j < |k|
      ensures Terminated(k[j])
    {
      assert k[j] in ls;
    }
  }

  lemma {:induction false} KeptPartFree(ls: seq<string>)
    requires forall i :: 0 <= i < |ls| ==> NewlineOnlyAtEnd(ls[i])
    requires forall i :: 0 <= i < |ls| - 1 ==> Terminated(ls[i])
    ensures !Contains(Concat(KeptLines(ls)), "check-sat")
  {
    if ls != [] {
      var init, last := ls[..|ls| - 1], ls[|ls| - 1];
      KeptPartFree(init);
      var k := KeptLines(init);
      assert KeptLines(ls) == k + (if Contains(last, "check-sat") then [] else [last]);
      if Contains(last, "check-sat") {
        assert KeptLines(ls) == k;
      } else {
        ConcatAppend(k, [last]);
        assert Concat([last]) == last;
        if k == [] {
          assert Concat(KeptLines(ls)) == last;
        } else {
          KeptTerminated(init);
          ConcatEndsWithNewline(k);
          assert '\n' !in "check-sat";
          NotContainedAcrossNewline(Concat(k), last, "check-sat");
        }
      }
    }
  }

  /** In the instance, the part copied from the query holds no check-sat at
      all: the only check-sat directives are the one written after the cube
      (and any inside the cube text itself). */
  lemma InstanceQueryPartFree(query: string, cube: string)
    ensures var part := Concat(KeptLines(ReadLines(query)));
      Instance(query, cube) == part + "(assert " + Strip(cube) + ")\n" + "(check-sat)"
      && !Contains(part, "check-sat")
  {
    KeptPartFree(ReadLines(query));
  }

  // ---------------------------------------------------------------------
  // base_solve

  /** `$` without the MULTILINE flag matches at position p of o when p is the
      end of o, or p is the position of a newline that ends o. */
  predicate EndAnchor(o: string, p: int) {
    p == |o| || (0 <= p == |o| - 1 && o[p] == '\n')
  }

  /** re.search("^" + w + "$", o) for a literal word w: `^` matches only at
      position 0, so the search succeeds iff w starts o and `$` holds right
      after it. */
  predicate AnchoredSearch(w: string, o: string) {
    |w| <= |o| && o[..|w|] == w && EndAnchor(o, |w|)
  }

  /** The search succeeds exactly on w and on w followed by one newline. */
  lemma AnchoredSearchExact(w: string, o: string)
    ensures AnchoredSearch(w, o) <==> (o == w || o == w + "\n")
  {
    if o == w + "\n" {
      assert o[..|w|] == w;
    }
    if AnchoredSearch(w, o) && |o| == |w| + 1 {
      assert o == o[..|w|] + [o[|w|]];
    }
  }

  /** The answer classification of base_solve, given how the solver run ended. */
  function BaseSolve(p: Process): Outcome {
    match p
    case TimedOut => Classified(TIMEOUT)
    case Exited(code, o) =>
      if code != 0 then Failed(BadReturnCode(code))
      else if AnchoredSearch("sat", o) then Classified(SAT)
      else if AnchoredSearch("unsat", o) then Classified(UNSAT)
      else Failed(NoVerdict(o))
  }

  /** base_solve answers SAT or UNSAT only for a clean exit whose whole output
      is that word (one trailing newline allowed), TIMEOUT only on a timeout,
      and raises on every other run. */
  lemma BaseSolveClassification(p: Process)
    ensures BaseSolve(p) == Classified(SAT) <==> p == Exited(0, "sat") || p == Exited(0, "sat\n")
    ensures BaseSolve(p) == Classified(UNSAT) <==> p == Exited(0, "unsat") || p == Exited(0, "unsat\n")
    ensures BaseSolve(p) == Classified(TIMEOUT) <==> p == TimedOut
    ensures p.Exited? && p.code != 0 ==> BaseSolve(p) == Failed(BadReturnCode(p.code))
    ensures BaseSolve(p).Failed? <==>
      p.Exited? && (p.code != 0 || p.output !in {"sat", "sat\n", "unsat", "unsat\n"})
  {
    if p.Exited? {
      AnchoredSearchExact("sat", p.output);
      AnchoredSearchExact("unsat", p.output);
    }
  }

  // ---------------------------------------------------------------------
  // solve_cube: nodes, split parameters and children

  /** The arguments of one solve_cube thunk, the shared query aside. */
  datatype Node = Node(cube: string, initialSplits: int, splits: int,
                       timeout: real, timeoutFactor: real)

  /** splits_now: the initial split count if positive, else the online one. */
  function SplitsNow(n: Node): int {
    if n.initialSplits > 0 then n.initialSplits else n.splits
  }

  /** next_timeout: the node's own timeout when it made an attempt, scaled by
      the factor only when it split without one. */
  function NextTimeout(n: Node): real {
    if n.initialSplits == 0 then n.timeout else n.timeout * n.timeoutFactor
  }

  /** The cube of the child for a stripped cube line. */
  function ChildCube(parentCube: string, line: string): string {
    "(and " + Strip(parentCube) + " " + line + ")\n"
  }

  /** The child thunk for a stripped cube line. */
  function Child(parent: Node, line: string): Node {
    Node(ChildCube(parent.cube, line), 0, parent.splits, NextTimeout(parent), parent.timeoutFactor)
  }

  /** The cube lines, stripped, with the empty ones dropped. */
  function NonBlank(lines: seq<string>): seq<string> {
    if lines == [] then []
    else
      var l := Strip(lines[|lines| - 1]);
      NonBlank(lines[..|lines| - 1]) + (if |l| > 0 then [l] else [])
  }

  /** One child per non-blank cube line, in file order. */
  function Children(lines: seq<string>, parent: Node): seq<Node> {
    var ls := NonBlank(lines);
    seq(|ls|, i requires 0 <= i < |ls| => Child(parent, ls[i]))
  }

  /** One more line adds at most its own child. */
  lemma ChildrenSnoc(lines: seq<string>, parent: Node)
    requires lines != []
    ensures var l := Strip(lines[|lines| - 1]);
      Children(lines, parent) == Children(lines[..|lines| - 1], parent) + (if |l| > 0 then [Child(parent, l)] else [])
  {
  }

  /** The loop of solve_cube that reads the cubes file and appends one child
      thunk to `subsolves` per non-empty stripped line. */
  method BuildChildren(cubes: string, parent: Node) returns (subsolves: seq<Node>)
    ensures subsolves == Children(ReadLines(cubes), parent)
  {
    var lines := ReadLines(cubes);
    subsolves := [];
    var i := 0;
    while i < |lines|
      invariant 0 <= i <= |lines|
      invariant subsolves == Children(lines[..i], parent)
    {
      assert lines[..i + 1][..i] == lines[..i];
      ChildrenSnoc(lines[..i + 1], parent);
      var l := Strip(lines[i]);
      if |l| > 0 {
        subsolves := subsolves + [Child(parent, l)];
      }
      i := i + 1;
    }
    assert lines[..i] == lines;
  }

  /** Every entry of NonBlank is a trimmed, non-empty line. */
  lemma {:induction false} NonBlankLines(lines: seq<string>)
    ensures |NonBlank(lines)| <= |lines|
    ensures forall i :: 0 <= i < |NonBlank(lines)| ==> NonBlank(lines)[i] != [] && Trimmed(NonBlank(lines)[i])
  {
    if lines != [] {
      var init := lines[..|lines| - 1];
      NonBlankLines(init);
      StripSpec(lines[|lines| - 1]);
    }
  }

  /** Every cube line, stripped, in file order. */
  function StrippedLines(lines: seq<string>): (r: seq<string>)
    ensures |r| == |lines| && forall i :: 0 <= i < |lines| ==> r[i] == Strip(lines[i])
  {
    seq(|lines|, i requires 0 <= i < |lines| => Strip(lines[i]))
  }

  /** A list of strings with the empty ones dropped, order kept. */
  function DropEmpty(st: seq<string>): seq<string> {
    if st == [] then []
    else
      var l := st[|st| - 1];
      DropEmpty(st[..|st| - 1]) + (if |l| > 0 then [l] else [])
  }

  /** DropEmpty keeps the order of what it keeps. */
  lemma {:induction false} DropEmptyOrder(st: seq<string>)
    ensures Subsequence(DropEmpty(st), st)
  {
    if st != [] {
      var init, l := st[..|st| - 1], st[|st| - 1];
      DropEmptyOrder(init);
      var k := DropEmpty(init);
      if |l| > 0 {
        var kl := k + [l];
        assert DropEmpty(st) == kl;
        assert kl[..|kl| - 1] == k;
      } else if k != [] {
        assert DropEmpty(st) == k;
        assert Subsequence(k, st);
      }
    }
  }

  /** DropEmpty keeps every copy of a non-empty string and no empty one. */
  lemma {:induction false} DropEmptyCount(st: seq<string>)
    ensures forall l :: multiset(DropEmpty(st))[l] == (if l == [] then 0 else multiset(st)[l])
  {
    if st != [] {
      var init, l := st[..|st| - 1], st[|st| - 1];
      DropEmptyCount(init);
      assert st == init + [l];
      assert multiset(st) == multiset(init) + multiset{l};
      var k := DropEmpty(init);
      if |l| > 0 {
        assert DropEmpty(st) == k + [l];
        assert multiset(k + [l]) == multiset(k) + multiset{l};
      } else {
        assert DropEmpty(st) == k;
      }
    }
  }

  /** DropEmpty drops exactly the empty strings. */
  lemma {:induction false} DropEmptyLength(st: seq<string>)
    ensures |DropEmpty(st)| == |st| - multiset(st)[[]]
  {
    if st != [] {
      var init, l := st[..|st| - 1], st[|st| - 1];
      DropEmptyLength(init);
      assert st == init + [l];
      assert multiset(st) == multiset(init) + multiset{l};
    }
  }

  lemma DropEmptyExact(st: seq<string>)
    ensures Subsequence(DropEmpty(st), st)
    ensures forall l :: multiset(DropEmpty(st))[l] == (if l == [] then 0 else multiset(st)[l])
    ensures |DropEmpty(st)| == |st| - multiset(st)[[]]
  {
    DropEmptyOrder(st);
    DropEmptyCount(st);
    DropEmptyLength(st);
  }

  /** Nothing is dropped from a list without empty strings. */
  lemma {:induction false} DropEmptyAll(st: seq<string>)
    requires forall i :: 0 <= i < |st| ==> st[i] != []
    ensures DropEmpty(st) == st
  {
    if st != [] {
      var init := st[..|st| - 1];
      assert forall i :: 0 <= i < |init| ==> init[i] == st[i];
      DropEmptyAll(init);
      assert st == init + [st[|st| - 1]];
    }
  }

  lemma {:induction false} NonBlankIsDropEmpty(lines: seq<string>)
    ensures NonBlank(lines) == DropEmpty(StrippedLines(lines))
  {
    if lines != [] {
      var init := lines[..|lines| - 1];
      NonBlankIsDropEmpty(init);
      var st := StrippedLines(lines);
      assert st[..|st| - 1] == StrippedLines(init);
    }
  }

  /** NonBlank is exactly the stripped lines with the empty ones dropped:
      the non-empty ones in file order, each as many times as it occurs, so
      there are as many as the lines that are not blank. */
  lemma NonBlankExact(lines: seq<string>)
    ensures Subsequence(NonBlank(lines), StrippedLines(lines))
    ensures forall l :: multiset(NonBlank(lines))[l] == (if l == [] then 0 else multiset(StrippedLines(lines))[l])
    ensures |NonBlank(lines)| == |lines| - multiset(StrippedLines(lines))[[]]
  {
    NonBlankIsDropEmpty(lines);
    DropEmptyExact(StrippedLines(lines));
  }

  lemma DropEmptyMembers(st: seq<string>)
    ensures forall i :: 0 <= i < |st| && st[i] != [] ==> st[i] in DropEmpty(st)
    ensures forall x :: x in DropEmpty(st) ==> x in st
  {
    DropEmptyExact(st);
    forall i | 0 <= i < |st| && st[i] != []
      ensures st[i] in DropEmpty(st)
    {
      assert st[i] in st;
      assert multiset(DropEmpty(st))[st[i]] > 0;
    }
    forall x | x in DropEmpty(st)
      ensures x in st
    {
      assert multiset(DropEmpty(st))[x] > 0;
    }
  }

  /** Each non-blank line yields an entry of NonBlank, and every entry is
      some line stripped. */
  lemma NonBlankMembers(lines: seq<string>)
    ensures forall i :: 0 <= i < |lines| && StrippedLines(lines)[i] != [] ==> StrippedLines(lines)[i] in NonBlank(lines)
    ensures forall x :: x in NonBlank(lines) ==> x in StrippedLines(lines)
  {
    NonBlankIsDropEmpty(lines);
    DropEmptyMembers(StrippedLines(lines));
  }

  /** When no line is blank, NonBlank is the stripped lines themselves. */
  lemma NonBlankAll(lines: seq<string>)
    requires forall i :: 0 <= i < |lines| ==> Strip(lines[i]) != []
    ensures |NonBlank(lines)| == |lines|
    ensures forall i :: 0 <= i < |lines| ==> NonBlank(lines)[i] == Strip(lines[i])
  {
    NonBlankIsDropEmpty(lines);
    DropEmptyAll(StrippedLines(lines));
  }

  /** Children inherit the online split count and the factor, start with no
      initial splits and get the parent's next timeout; each child's cube,
      stripped, is the conjunction of the parent's stripped cube and its line. */
  lemma ChildrenInherit(lines: seq<string>, parent: Node)
    ensures forall c :: c in Children(lines, parent) ==>
      c.initialSplits == 0 && c.splits == parent.splits && c.timeoutFactor == parent.timeoutFactor
      && c.timeout == (if parent.initialSplits == 0 then parent.timeout else parent.timeout * parent.timeoutFactor)
    ensures forall i :: 0 <= i < |Children(lines, parent)| ==>
      Strip(Children(lines, parent)[i].cube) == "(and " + Strip(parent.cube) + " " + NonBlank(lines)[i] + ")"
  {
    var ls := NonBlank(lines);
    NonBlankLines(lines);
    forall i | 0 <= i < |ls|
      ensures Strip(Children(lines, parent)[i].cube) == "(and " + Strip(parent.cube) + " " + ls[i] + ")"
    {
      var body := "(and " + Strip(parent.cube) + " " + ls[i] + ")";
      assert ChildCube(parent.cube, ls[i]) == body + "\n";
      StripLine(body);
    }
  }

  // ---------------------------------------------------------------------
  // merge and the fold over the children

  /** merge: "SAT" if either stripped argument is "SAT", else the first
      argument unchanged; nothing checks the second one. */
  function Merge(a: string, b: string): string {
    if Strip(a) == "SAT" || Strip(b) == "SAT" then "SAT" else a
  }

  lemma StripVerdicts()
    ensures Strip("SAT") == "SAT" && Strip("UNSAT") == "UNSAT"
  {
    StripTrimmed("SAT");
    StripTrimmed("UNSAT");
  }

  /** On the answers nodes return, merge is logical disjunction on
      satisfiability: commutative, associative, with UNSAT as unit and SAT as
      absorbing element. */
  lemma MergeOnVerdicts(a: string, b: string, c: string)
    requires IsVerdict(a) && IsVerdict(b) && IsVerdict(c)
    ensures IsVerdict(Merge(a, b))
    ensures Merge(a, b) == "SAT" <==> a == "SAT" || b == "SAT"
    ensures Merge(a, b) == Merge(b, a)
    ensures Merge(Merge(a, b), c) == Merge(a, Merge(b, c))
    ensures Merge("UNSAT", a) == a && Merge(a, "UNSAT") == a
  {
    StripVerdicts();
  }

  /** merge returns its first argument unchanged whenever neither stripped
      argument is "SAT", whatever the second one is, and "SAT" otherwise.
      Outside the verdicts it is therefore not symmetric. */
  lemma MergeKeepsFirst(a: string, b: string)
    ensures Strip(a) != "SAT" && Strip(b) != "SAT" ==> Merge(a, b) == a
    ensures Strip(a) == "SAT" || Strip(b) == "SAT" ==> Merge(a, b) == "SAT"
    ensures Merge("UNSAT", "garbage") == "UNSAT"
    ensures Merge("garbage", "UNSAT") == "garbage"
  {
    StripVerdicts();
    StripTrimmed("garbage");
  }

  /** functools.reduce(merge, children) over evaluated children: the first
      child that did not answer (left to right) decides the outcome, since
      forcing it raises; an empty list raises, as reduce has no initializer;
      a single child is returned as it is. */
  function FoldMerge(es: seq<Eval>): (r: Eval)
    ensures |es| == 0 ==> r == Fail(EmptyReduce)
    ensures r.Answer? <==> |es| > 0 && forall i :: 0 <= i < |es| ==> es[i].Answer?
    ensures (forall i :: 0 <= i < |es| && es[i].Answer? ==> IsVerdict(es[i].value))
            ==> (r.Answer? ==> IsVerdict(r.value))
  {
    if |es| == 0 then Fail(EmptyReduce)
    else if |es| == 1 then es[0]
    else
      var acc := FoldMerge(es[..|es| - 1]);
      var last := es[|es| - 1];
      if !acc.Answer? then acc
      else if !last.Answer? then last
      else Answer(Merge(acc.value, last.value))
  }

  /** When all children answered and one of them stripped is "SAT", the fold
      is "SAT": exactly that text once a merge has happened, and the lone
      child itself when there is only one. */
  lemma {:induction false} FoldMergeSat(es: seq<Eval>, k: int)
    requires forall i :: 0 <= i < |es| ==> es[i].Answer?
    requires 0 <= k < |es| && Strip(es[k].value) == "SAT"
    ensures FoldMerge(es).Answer? && Strip(FoldMerge(es).value) == "SAT"
    ensures |es| > 1 ==> FoldMerge(es) == Answer("SAT")
  {
    if |es| > 1 {
      var init, last := es[..|es| - 1], es[|es| - 1];
      var acc := FoldMerge(init);
      assert FoldMerge(es) == Answer(Merge(acc.value, last.value));
      if k < |init| {
        assert init[k] == es[k];
        FoldMergeSat(init, k);
      }
      StripTrimmed("SAT");
    }
  }

  /** When all children answered and none of them stripped is "SAT", the fold
      is the first child's answer: every later one is dropped. */
  lemma {:induction false} FoldMergeNoSat(es: seq<Eval>)
    requires |es| > 0 && forall i :: 0 <= i < |es| ==> es[i].Answer?
    requires forall i :: 0 <= i < |es| ==> Strip(es[i].value) != "SAT"
    ensures FoldMerge(es) == es[0]
  {
    if |es| > 1 {
      var init, last := es[..|es| - 1], es[|es| - 1];
      assert forall j :: 0 <= j < |init| ==> init[j] == es[j];
      FoldMergeNoSat(init);
      assert Strip(last.value) != "SAT";
    }
  }

  /** The attempt phase: solve directly under the node's own timeout when the
      node has no initial splits; None means "go on and split" (no attempt,
      or the attempt timed out). */
  function Attempt(query: string, n: Node, oracle: Oracle): Option<Eval> {
    if n.initialSplits != 0 then None
    else
      match BaseSolve(oracle(Instance(query, n.cube), n.timeout))
      case Failed(e) => Some(Fail(e))
      case Classified(r) => if r == TIMEOUT then None else Some(Answer(Name(r)))
  }

  /** The split phase up to the children: run the partitioner on the instance
      with splits_now cubes and build one child per non-blank line. */
  function Spawn(query: string, n: Node, part: Partitioner): Option<seq<Node>> {
    match part(Instance(query, n.cube), SplitsNow(n))
    case None => None
    case Some(cubes) => Some(Children(ReadLines(cubes), n))
  }

  /** solve_cube: attempt, else split, solve the children and fold. */
  function SolveCube(query: string, n: Node, oracle: Oracle, part: Partitioner, fuel: nat): (r: Eval)
    ensures r.Answer? ==> IsVerdict(r.value)
    decreases fuel, 0, 0
  {
    if fuel == 0 then OutOfFuel
    else
      match Attempt(query, n, oracle)
      case Some(e) => e
      case None =>
        match Spawn(query, n, part)
        case None => Fail(SplitFailed)
        case Some(children) => FoldMerge(SolveAll(query, children, oracle, part, fuel - 1))
  }

  /** The children's evaluations, in order. */
  function SolveAll(query: string, ns: seq<Node>, oracle: Oracle, part: Partitioner, fuel: nat): (rs: seq<Eval>)
    ensures |rs| == |ns|
    ensures forall i :: 0 <= i < |rs| && rs[i].Answer? ==> IsVerdict(rs[i].value)
    decreases fuel, 1, |ns|
  {
    if ns == [] then []
    else [SolveCube(query, ns[0], oracle, part, fuel)] + SolveAll(query, ns[1..], oracle, part, fuel)
  }

  /** The root node of solve: the trivial cube "true". */
  function RootNode(initialSplits: int, splits: int, timeout: real, timeoutFactor: real): Node {
    Node("true\n", initialSplits, splits, timeout, timeoutFactor)
  }

  /** solve: evaluate the root node. A completed solve answers "SAT" or
      "UNSAT"; TIMEOUT never escapes a node. */
  function Solve(query: string, initialSplits: int, splits: int, timeout: real, timeoutFactor: real,
                 oracle: Oracle, part: Partitioner, fuel: nat): (r: Eval)
    ensures r.Answer? ==> IsVerdict(r.value)
  {
    SolveCube(query, RootNode(initialSplits, splits, timeout, timeoutFactor), oracle, part, fuel)
  }

  /** With no initial splits the solver is called with the node's own timeout,
      and a non-timeout answer is the node's answer, whatever the partitioner. */
  lemma AttemptAnswers(query: string, n: Node, oracle: Oracle, part: Partitioner, fuel: nat, r: Result)
    requires fuel > 0 && n.initialSplits == 0
    requires BaseSolve(oracle(Instance(query, n.cube), n.timeout)) == Classified(r) && r != TIMEOUT
    ensures forall p: Partitioner :: SolveCube(query, n, oracle, p, fuel) == Answer(Name(r))
  {
  }

  /** With initial splits (positive or negative) the node makes no attempt:
      the solver is not consulted on its instance, whatever it would say. */
  lemma NoAttemptWithInitialSplits(query: string, n: Node)
    requires n.initialSplits != 0
    ensures forall o: Oracle :: Attempt(query, n, o) == None
  {
  }

  /** A node that split into at least one child, all of which finished,
      answers SAT iff some child answered SAT, and UNSAT iff every child
      answered UNSAT. */
  lemma SplitNodeVerdict(query: string, n: Node, oracle: Oracle, part: Partitioner, fuel: nat)
    requires fuel > 0 && Attempt(query, n, oracle).None? && Spawn(query, n, part).Some?
    requires var rs := SolveAll(query, Spawn(query, n, part).value, oracle, part, fuel - 1);
      |rs| > 0 && forall i :: 0 <= i < |rs| ==> rs[i].Answer?
    ensures var rs := SolveAll(query, Spawn(query, n, part).value, oracle, part, fuel - 1);
      (SolveCube(query, n, oracle, part, fuel) == Answer("SAT") <==> exists i :: 0 <= i < |rs| && rs[i] == Answer("SAT"))
      && (SolveCube(query, n, oracle, part, fuel) == Answer("UNSAT") <==> forall i :: 0 <= i < |rs| ==> rs[i] == Answer("UNSAT"))
  {
    var rs := SolveAll(query, Spawn(query, n, part).value, oracle, part, fuel - 1);
    var r := SolveCube(query, n, oracle, part, fuel);
    assert r == FoldMerge(rs);
    StripTrimmed("SAT");
    StripTrimmed("UNSAT");
    if i :| 0 <= i < |rs| && rs[i] == Answer("SAT") {
      FoldMergeSat(rs, i);
    } else {
      assert forall i :: 0 <= i < |rs| ==> rs[i] == Answer("UNSAT");
      FoldMergeNoSat(rs);
    }
  }

  // ---------------------------------------------------------------------
  // Fuel: the bound never changes a finished outcome

  /** Pointwise, ys agrees with xs wherever xs finished. */
  predicate Extends(xs: seq<Eval>, ys: seq<Eval>) {
    |xs| == |ys| && forall i :: 0 <= i < |xs| && xs[i] != OutOfFuel ==> ys[i] == xs[i]
  }

  lemma {:induction false} FoldMergeExtends(xs: seq<Eval>, ys: seq<Eval>)
    requires Extends(xs, ys) && FoldMerge(xs) != OutOfFuel
    ensures FoldMerge(ys) == FoldMerge(xs)
  {
    if |xs| > 1 {
      var xi, yi := xs[..|xs| - 1], ys[..|ys| - 1];
      var acc := FoldMerge(xi);
      if acc != OutOfFuel {
        FoldMergeExtends(xi, yi);
      }
    }
  }

  /** More fuel never changes an outcome that was reached: OutOfFuel is only
      an artefact of the bound. */
  lemma FuelMonotone(query: string, n: Node, oracle: Oracle, part: Partitioner, fuel: nat, fuel': nat)
    requires fuel <= fuel'
    requires SolveCube(query, n, oracle, part, fuel) != OutOfFuel
    ensures SolveCube(query, n, oracle, part, fuel') == SolveCube(query, n, oracle, part, fuel)
    decreases fuel, 1, 0
  {
    if Attempt(query, n, oracle).None? && Spawn(query, n, part).Some? {
      SplitMonotone(query, Spawn(query, n, part).value, oracle, part, fuel, fuel');
    }
  }

  /** The fold over a node's children, once finished, is the same under any
      larger fuel bound. */
  lemma SplitMonotone(query: string, cs: seq<Node>, oracle: Oracle, part: Partitioner, fuel: nat, fuel': nat)
    requires 0 < fuel <= fuel'
    requires FoldMerge(SolveAll(query, cs, oracle, part, fuel - 1)) != OutOfFuel
    ensures FoldMerge(SolveAll(query, cs, oracle, part, fuel' - 1)) == FoldMerge(SolveAll(query, cs, oracle, part, fuel - 1))
    decreases fuel, 0, 0
  {
    SolveAllMonotone(query, cs, oracle, part, fuel - 1, fuel' - 1);
    FoldMergeExtends(SolveAll(query, cs, oracle, part, fuel - 1), SolveAll(query, cs, oracle, part, fuel' - 1));
  }

  lemma {:induction false} SolveAllMonotone(query: string, ns: seq<Node>, oracle: Oracle, part: Partitioner, fuel: nat, fuel': nat)
    requires fuel <= fuel'
    ensures Extends(SolveAll(query, ns, oracle, part, fuel), SolveAll(query, ns, oracle, part, fuel'))
    decreases fuel, 2, |ns|
  {
    if ns != [] {
      if SolveCube(query, ns[0], oracle, part, fuel) != OutOfFuel {
        FuelMonotone(query, ns[0], oracle, part, fuel, fuel');
      }
      SolveAllMonotone(query, ns[1..], oracle, part, fuel, fuel');
    }
  }

  // ---------------------------------------------------------------------
  // Timeout escalation over the whole tree

  /** The children of every node of a generation, in order. */
  function SpawnAll(query: string, ns: seq<Node>, part: Partitioner): seq<Node> {
    if ns == [] then []
    else
      (match Spawn(query, ns[0], part) case None => [] case Some(cs) => cs)
      + SpawnAll(query, ns[1..], part)
  }

  /** The nodes that can be created at depth k below the root (whether or not
      their parents' attempts would have answered). */
  function Generation(query: string, root: Node, part: Partitioner, k: nat): seq<Node> {
    if k == 0 then [root] else SpawnAll(query, Generation(query, root, part, k - 1), part)
  }

  /** Every node has no initial splits, timeout t, split count s and
      factor f. */
  predicate Settled(ns: seq<Node>, t: real, s: int, f: real) {
    forall m :: m in ns ==> m.initialSplits == 0 && m.timeout == t && m.splits == s && m.timeoutFactor == f
  }

  lemma {:induction false} SpawnAllUniform(query: string, ns: seq<Node>, part: Partitioner,
                                           t: real, s: int, f: real)
    requires forall m :: m in ns ==> NextTimeout(m) == t && m.splits == s && m.timeoutFactor == f
    ensures Settled(SpawnAll(query, ns, part), t, s, f)
  {
    if ns != [] {
      SpawnAllUniform(query, ns[1..], part, t, s, f);
      match Spawn(query, ns[0], part)
      case None =>
      case Some(cs) => ChildrenInherit(ReadLines(part(Instance(query, ns[0].cube), SplitsNow(ns[0])).value), ns[0]);
    }
  }

  /** Every node below the root has no initial splits, the root's online split
      count and factor, and one and the same timeout: the root's timeout when
      the root attempted, the root's timeout times the factor when it split
      straight away. The factor is applied at most once on any path. */
  lemma {:induction false} TimeoutEscalatesOnce(query: string, root: Node, part: Partitioner, k: nat)
    requires k >= 1
    ensures Settled(Generation(query, root, part, k), NextTimeout(root), root.splits, root.timeoutFactor)
  {
    var t := NextTimeout(root);
    if k == 1 {
      SpawnAllUniform(query, [root], part, t, root.splits, root.timeoutFactor);
    } else {
      TimeoutEscalatesOnce(query, root, part, k - 1);
      SpawnAllUniform(query, Generation(query, root, part, k - 1), part, t, root.splits, root.timeoutFactor);
    }
  }

  // ---------------------------------------------------------------------
  // solve_cube with split.py as the partitioner

  /** split.py as a partitioner: it always succeeds and ignores the instance. */
  function SplitPy(instance: string, n: int): Option<string> {
    Some(Split.CubesFile(n))
  }

  /** Fed by split.py, a splitting node creates exactly splits_now children
      (none when splits_now <= 0), child i for cube line i. */
  lemma SplitPyChildren(query: string, n: Node)
    ensures Spawn(query, n, SplitPy).Some?
    ensures var cs := Spawn(query, n, SplitPy).value;
      |cs| == (if SplitsNow(n) > 0 then SplitsNow(n) else 0)
      && forall i :: 0 <= i < |cs| ==>
           cs[i] == Child(n, "(and" + Split.TrueTokens(i + 1) + ")")
  {
    var lines := Split.CubeLines(SplitsNow(n));
    Split.CubesFileLines(SplitsNow(n));
    forall i | 0 <= i < |lines|
      ensures Strip(lines[i]) != [] && Strip(lines[i]) == "(and" + Split.TrueTokens(i + 1) + ")"
    {
      Split.CubeLineWellFormed(i);
    }
    NonBlankAll(lines);
  }

  /** With split.py and splits_now <= 0 a node that reaches the split phase
      has no children, and the fold over them fails. */
  lemma SplitPyNoCubesFails(query: string, n: Node, oracle: Oracle, fuel: nat)
    requires fuel > 0 && SplitsNow(n) <= 0 && Attempt(query, n, oracle).None?
    ensures SolveCube(query, n, oracle, SplitPy, fuel) == Fail(EmptyReduce)
  {
    SplitPyChildren(query, n);
  }
}
