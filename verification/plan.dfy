/**
 The scaffolding plan: a compact string such as `E3B1` naming the
 scaffolders to run (Ezra, Bridger) and how many times in a row
 (scara.py, lines 97-113). Tokenizing follows `re.findall('(.)(\d+)', plan)`,
 which silently skips characters that do not start a match.
 */
module Plan {
  import opened Wrappers
  import opened Decimal

  datatype Scaffolder = Ezra | Bridger

  /** One `(.)(\d+)` match: any character but a line break, then a maximal digit run. */
  datatype Token = Token(op: char, digits: string)

  datatype Step = Step(kind: Scaffolder, count: nat)

  datatype PlanError =
    | InvalidOperation(op: char, plan: string)
    | InvalidCount(count: nat, plan: string)

  /** The validated plan and whether any step runs Bridger. */
  datatype ParsedPlan = ParsedPlan(steps: seq<Step>, bridger: bool)

  const DefaultPlan := "E3B1"
  const MaxCount := 9

  predicate WellFormed(t: Token) {
    t.op != '\n' && |t.digits| > 0 && AllDigits(t.digits)
  }

  /** Length of the digit run at the start of `s`. */
  function DigitRun(s: string): (n: nat)
    ensures n <= |s| && AllDigits(s[..n])
    ensures n < |s| ==> !IsDigit(s[n])
  {
    if |s| == 0 || !IsDigit(s[0]) then 0
    else
      var n := 1 + DigitRun(s[1..]);
      assert s[..n] == [s[0]] + s[1..][..n - 1];
      n
  }

  /** All non-overlapping matches of `(.)(\d+)`, scanning left to right. */
  function Tokenize(s: string): (ts: seq<Token>)
    ensures forall i :: 0 <= i < |ts| ==> WellFormed(ts[i])
    decreases |s|
  {
    if |s| < 2 then []
    else if s[0] != '\n' && IsDigit(s[1]) then
      var n := DigitRun(s[1..]);
      [Token(s[0], s[1..][..n])] + Tokenize(s[1..][n..])
    else Tokenize(s[1..])
  }

  /** The plan text that lists `ts` back to back. */
  function Render(ts: seq<Token>): string {
    if ts == [] then "" else [ts[0].op] + ts[0].digits + Render(ts[1..])
  }

  /** A digit run stops at the first non-digit. */
  lemma {:induction false} DigitRunOf(digits: string, rest: string)
    requires AllDigits(digits)
    requires |rest| > 0 ==> !IsDigit(rest[0])
    ensures DigitRun(digits + rest) == |digits|
  {
    if |digits| > 0 {
      assert (digits + rest)[1..] == digits[1..] + rest;
      DigitRunOf(digits[1..], rest);
    } else {
      assert digits + rest == rest;
    }
  }

  /** One match at the front of the text: the operation, its digit run, and the scan resumes after it. */
  lemma TokenizeStep(op: char, digits: string, rest: string)
    requires WellFormed(Token(op, digits))
    requires |rest| > 0 ==> !IsDigit(rest[0])
    ensures Tokenize([op] + digits + rest) == [Token(op, digits)] + Tokenize(rest)
  {
    var s := [op] + digits + rest;
    assert s[1..] == digits + rest;
    DigitRunOf(digits, rest);
    assert s[1..][..|digits|] == digits;
    assert s[1..][|digits|..] == rest;
  }

  /**
   Tokenizing a rendered token list gives the list back, provided no
   operation character is itself a digit (which would merge into the
   previous digit run).
   */
  lemma {:induction false} TokenizeRender(ts: seq<Token>)
    requires forall i :: 0 <= i < |ts| ==> WellFormed(ts[i]) && !IsDigit(ts[i].op)
    ensures Tokenize(Render(ts)) == ts
  {
    if ts != [] {
      var rest := Render(ts[1..]);
      assert |rest| > 0 ==> rest[0] == ts[1].op;
      TokenizeStep(ts[0].op, ts[0].digits, rest);
      TokenizeRender(ts[1..]);
    }
  }

  function Count(t: Token): nat
    requires WellFormed(t)
  {
    DigitsValue(t.digits)
  }

  predicate ValidOp(c: char) { c == 'E' || c == 'B' }

  predicate ValidToken(t: Token)
    requires WellFormed(t)
  {
    ValidOp(t.op) && 1 <= Count(t) <= MaxCount
  }

  function KindOf(c: char): Scaffolder
    requires ValidOp(c)
  {
    if c == 'B' then Bridger else Ezra
  }

  /** The error the source reports for the first bad token: an unknown operation is checked before the count. */
  function ErrorFor(t: Token, plan: string): PlanError
    requires WellFormed(t)
  {
    if !ValidOp(t.op) then InvalidOperation(t.op, plan) else InvalidCount(Count(t), plan)
  }

  /** Checks the tokens in order and stops at the first invalid one. */
  function Validate(ts: seq<Token>, plan: string): (r: Result<seq<Step>, PlanError>)
    requires forall i :: 0 <= i < |ts| ==> WellFormed(ts[i])
    ensures r.Success? <==> forall i :: 0 <= i < |ts| ==> ValidToken(ts[i])
    ensures r.Success? ==> |r.value| == |ts| && forall i :: 0 <= i < |ts| ==>
      r.value[i] == Step(KindOf(ts[i].op), Count(ts[i]))
    ensures r.Failure? ==> exists i :: (0 <= i < |ts| && !ValidToken(ts[i]) &&
      (forall j :: 0 <= j < i ==> ValidToken(ts[j])) && r.error == ErrorFor(ts[i], plan))
  {
    if ts == [] then Success([])
    else
      var t := ts[0];
      if !ValidToken(t) then Failure(ErrorFor(t, plan))
      else
        match Validate(ts[1..], plan)
        case Failure(e) =>
          var i :| 0 <= i < |ts| - 1 && !ValidToken(ts[1..][i]) &&
            (forall j :: 0 <= j < i ==> ValidToken(ts[1..][j])) && e == ErrorFor(ts[1..][i], plan);
          assert forall j :: 0 <= j < i + 1 ==> ValidToken(ts[j]) by {
            forall j | 0 <= j < i + 1 ensures ValidToken(ts[j]) {
              if j > 0 { assert ts[j] == ts[1..][j - 1]; }
            }
          }
          assert ts[i + 1] == ts[1..][i];
          Failure(e)
        case Success(steps) =>
          assert forall i :: 1 <= i < |ts| ==> ts[i] == ts[1..][i - 1];
          Success([Step(KindOf(t.op), Count(t))] + steps)
  }

  /** Whether some step runs Bridger, computed as the source does while scanning. */
  function AnyBridger(steps: seq<Step>): bool {
    if steps == [] then false else steps[0].kind == Bridger || AnyBridger(steps[1..])
  }

  lemma {:induction false} AnyBridgerExists(steps: seq<Step>)
    ensures AnyBridger(steps) <==> exists i :: 0 <= i < |steps| && steps[i].kind == Bridger
  {
    if steps != [] {
      AnyBridgerExists(steps[1..]);
      if AnyBridger(steps[1..]) {
        var i :| 0 <= i < |steps| - 1 && steps[1..][i].kind == Bridger;
        assert steps[i + 1].kind == Bridger;
      }
      if exists i :: 0 <= i < |steps| && steps[i].kind == Bridger {
        var i :| 0 <= i < |steps| && steps[i].kind == Bridger;
        if i > 0 { assert steps[1..][i - 1].kind == Bridger; }
      }
    }
  }

  /** Parses and validates a plan (scara.py:97-113). */
  function ParsePlan(plan: string): Result<ParsedPlan, PlanError> {
    var ts := Tokenize(plan);
    match Validate(ts, plan)
    case Failure(e) => Failure(e)
    case Success(steps) => Success(ParsedPlan(steps, AnyBridger(steps)))
  }

  /**
   A plan is accepted exactly when every token has operation `E` or `B` and
   a count in 1..9; then there is one step per token, and the Bridger flag
   says whether some token is a `B`.
   */
  lemma ParsePlanSpec(plan: string)
    ensures var ts := Tokenize(plan);
      ParsePlan(plan).Success? <==> forall i :: 0 <= i < |ts| ==> ValidToken(ts[i])
    ensures var ts := Tokenize(plan); var r := ParsePlan(plan);
      r.Success? ==> (|r.value.steps| == |ts| &&
        (forall i :: 0 <= i < |ts| ==> r.value.steps[i] == Step(KindOf(ts[i].op), Count(ts[i]))) &&
        (r.value.bridger <==> exists i :: 0 <= i < |ts| && ts[i].op == 'B'))
  {
    var ts := Tokenize(plan);
    var v := Validate(ts, plan);
    if v.Success? {
      AnyBridgerExists(v.value);
      if exists i :: 0 <= i < |ts| && ts[i].op == 'B' {
        var i :| 0 <= i < |ts| && ts[i].op == 'B';
        assert v.value[i].kind == Bridger;
      }
    }
  }

  /** The per-repetition schedule: each step's scaffolder repeated `count` times. */
  function Expand(steps: seq<Step>): seq<Scaffolder> {
    if steps == [] then [] else seq(steps[0].count, _ => steps[0].kind) + Expand(steps[1..])
  }

  function TotalCount(steps: seq<Step>): nat {
    if steps == [] then 0 else steps[0].count + TotalCount(steps[1..])
  }

  lemma {:induction false} ExpandLength(steps: seq<Step>)
    ensures |Expand(steps)| == TotalCount(steps)
  {
    if steps != [] {
      ExpandLength(steps[1..]);
    }
  }

  /** A character that is not followed by a digit starts no match. */
  lemma TokenizeSkip(c: char, rest: string)
    requires |rest| > 0 ==> !IsDigit(rest[0]) || c == '\n'
    ensures Tokenize([c] + rest) == Tokenize(rest)
  {
    assert ([c] + rest)[1..] == rest;
  }

  /** The default plan runs Ezra three times, then Bridger once. */
  lemma ParseDefaultPlan()
    ensures ParsePlan("E3B1") == Success(ParsedPlan([Step(Ezra, 3), Step(Bridger, 1)], true))
  {
    DefaultTokens();
    var ts := [Token('E', "3"), Token('B', "1")];
    assert DigitsValue("3") == 3 && DigitsValue("1") == 1;
    assert ValidToken(ts[0]) && ValidToken(ts[1]);
    var v := Validate(ts, "E3B1");
    assert v.value[0] == Step(Ezra, 3) && v.value[1] == Step(Bridger, 1);
    assert v.value == [Step(Ezra, 3), Step(Bridger, 1)];
    assert AnyBridger(v.value) by {
      assert v.value[1..] == [Step(Bridger, 1)];
    }
  }

  lemma DefaultTokens()
    ensures Tokenize("E3B1") == [Token('E', "3"), Token('B', "1")]
  {
    TokenizeStep('B', "1", "");
    assert ['B'] + "1" + "" == "B1";
    TokenizeStep('E', "3", "B1");
    assert ['E'] + "3" + "B1" == "E3B1";
  }

  /** A count above nine rejects the plan. */
  lemma ParseCountTooLarge()
    ensures ParsePlan("B10") == Failure(InvalidCount(10, "B10"))
  {
    TokenizeStep('B', "10", "");
    assert ['B'] + "10" + "" == "B10";
    assert DigitsValue("10") == 10 by { assert "10"[..1] == "1"; }
  }

  /** An operation other than `E` or `B` rejects the plan. */
  lemma ParseUnknownOperation()
    ensures ParsePlan("X1") == Failure(InvalidOperation('X', "X1"))
  {
    TokenizeStep('X', "1", "");
    assert ['X'] + "1" + "" == "X1";
  }

  /** Characters that are not digits, before text that does not start with a digit, start no match and are skipped. */
  lemma {:induction false} ParseSkipsNoise(noise: string, rest: string)
    requires forall i :: 0 <= i < |noise| ==> !IsDigit(noise[i])
    requires |rest| > 0 ==> !IsDigit(rest[0])
    ensures Tokenize(noise + rest) == Tokenize(rest)
  {
    if noise != [] {
      ParseSkipsNoise(noise[1..], rest);
      var tail := noise[1..] + rest;
      assert noise + rest == [noise[0]] + tail;
      assert |tail| > 0 ==> !IsDigit(tail[0]) by {
        if |noise| > 1 { assert tail[0] == noise[1]; }
      }
      TokenizeSkip(noise[0], tail);
      assert Tokenize(noise + rest) == Tokenize(tail);
    } else {
      assert noise + rest == rest;
    }
  }
}
