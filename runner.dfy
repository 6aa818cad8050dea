/** The pure helpers of the benchmark runner runner.py: the mapping from a
    SAT solver's exit status to a result, the command-line flag spelling of
    an input field, the parsing of a flag's text into a field value, the
    classification of a solver's output, and the worker-strategy flag of the
    painless solver. */
module Runner {
  import opened Text
  import Smt

  // ---------------------------------------------------------------------
  // returncode_to_result

  /** SAT-competition exit codes: 10 is satisfiable, 20 unsatisfiable, and
      every other status carries no verdict. */
  function ReturncodeToResult(code: int): (r: Option<string>)
    ensures r == Some("sat") <==> code == 10
    ensures r == Some("unsat") <==> code == 20
    ensures r.None? <==> code != 10 && code != 20
  {
    if code == 10 then Some("sat")
    else if code == 20 then Some("unsat")
    else None
  }

  // ---------------------------------------------------------------------
  // argize

  /** The characters of the class [a-z0-9_]. */
  predicate FieldChar(c: char) {
    ('a' <= c <= 'z') || ('0' <= c <= '9') || c == '_'
  }

  predicate AllFieldChars(s: string) {
    forall i :: 0 <= i < |s| ==> FieldChar(s[i])
  }

  /** The return expression of argize: "--" and the name with every
      underscore turned into a dash. */
  function Argize(s: string): (r: string)
    ensures |r| == |s| + 2 && r[..2] == "--"
    ensures forall i :: 0 <= i < |s| ==> r[i + 2] == (if s[i] == '_' then '-' else s[i])
    ensures '_' !in r
  {
    var r := "--" + ReplaceChar(s, '_', '-');
    assert forall i :: 0 <= i < |s| ==> r[i + 2] == ReplaceChar(s, '_', '-')[i];
    r
  }

  /** Reading a flag back as a field name: drop "--" and turn dashes back
      into underscores. */
  function FieldOfFlag(f: string): (s: string)
    requires |f| >= 2
    ensures |s| == |f| - 2
  {
    ReplaceChar(f[2..], '-', '_')
  }

  /** For names without a dash, argize loses nothing: the field name can be
      read back from the flag. */
  lemma ArgizeRoundTrip(s: string)
    requires '-' !in s
    ensures FieldOfFlag(Argize(s)) == s
  {
    var f := Argize(s);
    assert forall i :: 0 <= i < |s| ==> f[2..][i] == f[i + 2];
  }

  /** Hence distinct dash-free names get distinct flags. */
  lemma ArgizeInjective(s: string, t: string)
    requires '-' !in s && '-' !in t
    requires Argize(s) == Argize(t)
    ensures s == t
  {
    ArgizeRoundTrip(s);
    ArgizeRoundTrip(t);
  }

  /** The length of the longest prefix of s drawn from [a-z0-9_]: what the
      greedy `[a-z0-9_]*` consumes from the start of s. */
  function FieldPrefix(s: string): (k: nat)
    ensures k <= |s| && AllFieldChars(s[..k])
    ensures k == |s| || !FieldChar(s[k])
  {
    if s == [] || !FieldChar(s[0]) then 0
    else
      var k := 1 + FieldPrefix(s[1..]);
      assert s[..k] == [s[0]] + s[1..][..k - 1];
      k
  }

  /** re.match("[a-z0-9_]*", s): the span of the match anchored at the
      start, or None when there is no match. The star also matches the empty
      string, so a match always exists. */
  function MatchFieldStar(s: string): (m: Option<nat>)
    ensures m.Some? ==> m.value <= |s| && AllFieldChars(s[..m.value])
  {
    Some(FieldPrefix(s))
  }

  /** argize as written: None stands for the failing assertion. */
  function ArgizeAsWritten(s: string): Option<string> {
    if MatchFieldStar(s).Some? then Some(Argize(s)) else None
  }

  /** The assertion never fires: every string is argized, including names
      outside [a-z0-9_]*. For "a-b" the flag "--a-b" reads back as the
      field "a_b", so the round trip fails. */
  lemma ArgizeAsWrittenAcceptsAll(s: string)
    ensures ArgizeAsWritten(s) == Some(Argize(s))
    ensures ArgizeAsWritten("a-b") == Some("--a-b")
    ensures !AllFieldChars("a-b") && FieldOfFlag(Argize("a-b")) != "a-b"
  {
    var f := Argize("a-b");
    assert f == "--a-b" by {
      assert forall i :: 0 <= i < 3 ==> f[i + 2] == "a-b"[i];
    }
    assert FieldOfFlag(f)[1] == '_';
  }

  /** argize with the evidently intended check, re.fullmatch: only names made
      of [a-z0-9_] are accepted. */
  function ArgizeChecked(s: string): (r: Option<string>)
    ensures r.Some? <==> AllFieldChars(s)
    ensures r.Some? ==> r.value == Argize(s) && FieldOfFlag(r.value) == s
  {
    if FieldPrefix(s) == |s| then
      assert '-' !in s by {
        assert s[..|s|] == s;
      }
      ArgizeRoundTrip(s);
      Some(Argize(s))
    else
      assert !FieldChar(s[FieldPrefix(s)]);
      None
  }

  // ---------------------------------------------------------------------
  // parse

  /** The field types parse is given: str, bool, or a type it cannot parse.
      `OtherType` stands only for types outside str, int, float and bool: the
      int and float conversions are not part of this model, so no
      `OtherType` names either of them. */
  datatype FieldType = StrType | BoolType | OtherType(name: string)

  datatype Value = StrValue(s: string) | BoolValue(b: bool)

  /** The two ValueErrors parse raises. */
  datatype ParseError = InvalidBoolean(text: string) | UnparsableType(ty: string, text: string)

  datatype Parsed = Ok(value: Value) | Err(error: ParseError)

  function Parse(ty: FieldType, s: string): (r: Parsed)
    ensures ty == StrType ==> r == Ok(StrValue(s))
    ensures ty.OtherType? ==> r == Err(UnparsableType(ty.name, s))
    ensures ty == BoolType ==> (r.Ok? ==> r.value.BoolValue?) && (r.Err? ==> r.error == InvalidBoolean(s))
  {
    match ty
    case StrType => Ok(StrValue(s))
    case BoolType =>
      if Lower(s) == "true" then Ok(BoolValue(true))
      else if Lower(s) == "false" then Ok(BoolValue(false))
      else Err(InvalidBoolean(s))
    case OtherType(name) => Err(UnparsableType(name, s))
  }

  /** s spells w up to the case of ASCII letters. */
  predicate SpellsIgnoringCase(s: string, w: string) {
    |s| == |w| && forall i :: 0 <= i < |s| ==> LowerChar(s[i]) == w[i]
  }

  lemma LowerIs(s: string, w: string)
    ensures Lower(s) == w <==> SpellsIgnoringCase(s, w)
  {
    if SpellsIgnoringCase(s, w) {
      assert forall i :: 0 <= i < |s| ==> Lower(s)[i] == w[i];
    }
  }

  /** A boolean field is true exactly for the casings of "true", false for
      those of "false", and an error for everything else. */
  lemma ParseBool(s: string)
    ensures Parse(BoolType, s) == Ok(BoolValue(true)) <==> SpellsIgnoringCase(s, "true")
    ensures Parse(BoolType, s) == Ok(BoolValue(false)) <==> SpellsIgnoringCase(s, "false")
    ensures Parse(BoolType, s).Err? <==> !SpellsIgnoringCase(s, "true") && !SpellsIgnoringCase(s, "false")
  {
    LowerIs(s, "true");
    LowerIs(s, "false");
  }

  /** Case does not matter for a boolean field. */
  lemma ParseBoolIgnoresCase(s: string, t: string)
    requires Lower(s) == Lower(t)
    ensures Parse(BoolType, s).Ok? <==> Parse(BoolType, t).Ok?
    ensures Parse(BoolType, s).Ok? ==> Parse(BoolType, s) == Parse(BoolType, t)
  {
  }

  function TypeOf(v: Value): FieldType {
    match v
    case StrValue(_) => StrType
    case BoolValue(_) => BoolType
  }

  /** str(v) in Python: a string is itself, a boolean is "True" or "False". */
  function Show(v: Value): string {
    match v
    case StrValue(s) => s
    case BoolValue(b) => if b then "True" else "False"
  }

  /** parse undoes str: every value comes back from its own text. */
  lemma ParseShow(v: Value)
    ensures Parse(TypeOf(v), Show(v)) == Ok(v)
  {
    if v.BoolValue? {
      ParseBool(Show(v));
      if v.b {
        assert SpellsIgnoringCase("True", "true");
      } else {
        assert SpellsIgnoringCase("False", "false");
        assert !SpellsIgnoringCase("False", "true");
      }
    }
  }

  // ---------------------------------------------------------------------
  // run_solver: classifying a solver's output

  /** How a solver subprocess ended: with its standard output, or killed at
      the timeout. */
  datatype SolverRun = Finished(output: string) | Expired

  datatype Classification = Reported(result: string) | CannotParse(output: string)

  /** The if/elif chain of run_solver: "unsat" is searched for first, then
      "sat", anywhere in the output; a timeout reports "TIMEOUT". */
  function ClassifyRun(run: SolverRun): Classification {
    match run
    case Expired => Reported("TIMEOUT")
    case Finished(o) =>
      if Contains(o, "unsat") then Reported("unsat")
      else if Contains(o, "sat") then Reported("sat")
      else CannotParse(o)
  }

  /** Every occurrence of "unsat" holds one of "sat". */
  lemma UnsatContainsSat(o: string)
    requires Contains(o, "unsat")
    ensures Contains(o, "sat")
  {
    var i :| 0 <= i <= |o| - 5 && OccursAt(o, "unsat", i);
    assert o[i + 2..i + 5] == o[i..i + 5][2..];
    assert OccursAt(o, "sat", i + 2);
  }

  /** The output reports unsat whenever "unsat" occurs, even though "sat"
      then occurs too; sat only when "sat" occurs and "unsat" does not; it
      cannot be parsed exactly when "sat" does not occur at all. */
  lemma ClassifyRunSpec(run: SolverRun)
    ensures run.Expired? <==> ClassifyRun(run) == Reported("TIMEOUT")
    ensures ClassifyRun(run) == Reported("unsat") <==> run.Finished? && Contains(run.output, "unsat")
    ensures ClassifyRun(run) == Reported("sat") <==>
      run.Finished? && Contains(run.output, "sat") && !Contains(run.output, "unsat")
    ensures ClassifyRun(run).CannotParse? <==> run.Finished? && !Contains(run.output, "sat")
  {
    if run.Finished? && Contains(run.output, "unsat") {
      UnsatContainsSat(run.output);
    }
  }

  /** On the outputs that smt.py's base_solve accepts, the runner reports the
      same verdict, in lower case. */
  lemma ClassifyAgreesWithBaseSolve(o: string, r: Smt.Result)
    requires Smt.BaseSolve(Smt.Exited(0, o)) == Smt.Classified(r) && r != Smt.TIMEOUT
    ensures ClassifyRun(Finished(o)) == Reported(Lower(Smt.Name(r)))
  {
    Smt.BaseSolveClassification(Smt.Exited(0, o));
    if r == Smt.SAT {
      ClassifySatOutput(o);
      assert Lower("SAT") == "sat";
    } else {
      ClassifyUnsatOutput(o);
      assert Lower("UNSAT") == "unsat";
    }
  }

  lemma ClassifySatOutput(o: string)
    requires o == "sat" || o == "sat\n"
    ensures ClassifyRun(Finished(o)) == Reported("sat")
  {
    assert OccursAt(o, "sat", 0);
    assert |o| < 5;
  }

  lemma ClassifyUnsatOutput(o: string)
    requires o == "unsat" || o == "unsat\n"
    ensures ClassifyRun(Finished(o)) == Reported("unsat")
  {
    assert OccursAt(o, "unsat", 0);
  }

  // ---------------------------------------------------------------------
  // The painless worker strategy

  /** "-wkr-strat=4" (divide and conquer) for the "dnc" mode, and
      "-wkr-strat=1" (portfolio) for every other mode. */
  function PainlessModeFlag(mode: string): (f: string)
    ensures |f| == 12 && f[..11] == "-wkr-strat="
    ensures f[11] == '4' <==> mode == "dnc"
    ensures f[11] == '1' <==> mode != "dnc"
  {
    "-wkr-strat=" + (if mode == "dnc" then "4" else "1")
  }
}
