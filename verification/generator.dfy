/** The per-grade problem generator: the rule table, operand drawing with the
    runtime's `NaN` propagation, the validity check, the bounded retry loop over a
    window of recently issued texts, and the deterministic fallback.

    Randomness is supplied: every attempt reads one `Draw`, whose naturals stand for
    the values `Math.random()` produced. */
module ProblemGenerator {
  import opened Wrappers
  import opened Arith

  /** A runtime number that may be `NaN`: `None` is `NaN` (or `undefined` used as a number). */
  type Num = Option<int>

  const Million := 1000000
  const MaxAttempts := 20
  const WindowCap := 100

  /** One operation's rule. Absent fields are `None`, as in the source's object literals. */
  datatype Rule = Rule(
    maxResult: Option<int>,
    noNegative: bool,
    maxNum1: Option<int>,
    minNum: Option<int>,
    maxNum: Option<int>,
    minFactor: Option<int>,
    maxFactor: Option<int>,
    wholeDivision: bool,
    maxDecimals: Option<int>,
    maxDivisor: Option<int>)

  const EmptyRule := Rule(None, false, None, None, None, None, None, false, None, None)

  /** A grade's configuration. Its `maxNum` is never read by the drawing code, which
      looks for `maxNum` in the per-operation rule instead. */
  datatype GradeConfig = GradeConfig(maxNum: int, operations: seq<Op>, rules: map<Op, Rule>)

  predicate WellFormed(c: GradeConfig) {
    |c.operations| >= 1 && forall op :: op in c.operations ==> op in c.rules
  }

  function AddRule(maxResult: int, minNum: Option<int>): Rule {
    EmptyRule.(maxResult := Some(maxResult), minNum := minNum)
  }

  function SubRule(maxNum1: int, minNum: Option<int>): Rule {
    EmptyRule.(noNegative := true, maxNum1 := Some(maxNum1), minNum := minNum)
  }

  function MulRule(minFactor: int, maxFactor: int): Rule {
    EmptyRule.(minFactor := Some(minFactor), maxFactor := Some(maxFactor))
  }

  /** The constant rule table of grades 1 to 6. */
  function GradeConfigs(grade: int): (c: Option<GradeConfig>)
    ensures c.Some? <==> 1 <= grade <= 6
    ensures c.Some? ==> WellFormed(c.value) && c.value.operations[0] == Add
    ensures c.Some? ==> forall op :: op in c.value.rules ==> c.value.rules[op].maxNum.None?
  {
    if grade == 1 then
      Some(GradeConfig(20, [Add, Sub], map[Add := AddRule(20, None), Sub := SubRule(20, None)]))
    else if grade == 2 then
      Some(GradeConfig(100, [Add, Sub],
        map[Add := AddRule(100, Some(20)), Sub := SubRule(100, Some(20))]))
    else if grade == 3 then
      Some(GradeConfig(1000, [Add, Sub, Mul],
        map[Add := AddRule(1000, Some(100)), Sub := SubRule(1000, Some(100)),
            Mul := MulRule(2, 9)]))
    else if grade == 4 then
      Some(GradeConfig(10000, [Add, Sub, Mul, Div],
        map[Add := AddRule(10000, Some(1000)), Sub := SubRule(10000, Some(1000)),
            Mul := MulRule(10, 99),
            Div := EmptyRule.(wholeDivision := true, maxDivisor := Some(9))]))
    else if grade == 5 then
      Some(GradeConfig(100000, [Add, Sub, Mul, Div],
        map[Add := AddRule(100000, Some(10000)), Sub := SubRule(100000, Some(10000)),
            Mul := MulRule(100, 999),
            Div := EmptyRule.(maxDecimals := Some(1), maxDivisor := Some(99))]))
    else if grade == 6 then
      Some(GradeConfig(1000000, [Add, Sub, Mul, Div],
        map[Add := AddRule(1000000, Some(100000)), Sub := SubRule(1000000, Some(100000)),
            Mul := MulRule(1000, 9999),
            Div := EmptyRule.(maxDecimals := Some(2), maxDivisor := Some(999))]))
    else None
  }

  // ---------------------------------------------------------------------------
  // Runtime number helpers: `NaN` absorbs every operation it meets.

  function Min(a: int, b: int): int { if a <= b then a else b }
  function Max(a: int, b: int): int { if a >= b then a else b }

  function JsMin(a: Num, b: Num): Num {
    if a.None? || b.None? then None else Some(Min(a.value, b.value))
  }

  function JsMax(a: Num, b: Num): Num {
    if a.None? || b.None? then None else Some(Max(a.value, b.value))
  }

  function JsMinus(a: Num, b: Num): Num {
    if a.None? || b.None? then None else Some(a.value - b.value)
  }

  function JsTimes(a: Num, b: Num): Num {
    if a.None? || b.None? then None else Some(a.value * b.value)
  }

  /** `Math.floor(a / b)` for a divisor that is `NaN` or a draw of at least 1. */
  function JsFloorDiv(a: Num, b: Num): Num
    requires b.Some? ==> b.value >= 1
  {
    if a.None? || b.None? then None else Some(a.value / b.value)
  }

  /** A field is truthy when present and not zero. */
  predicate Truthy(a: Option<int>) {
    a.Some? && a.value != 0
  }

  /** `a || b` on optional numeric fields. */
  function JsOr(a: Option<int>, b: Option<int>): Option<int> {
    if Truthy(a) then a else b
  }

  // ---------------------------------------------------------------------------
  // Drawing.

  /** `getRandomNumber(min, max)`: both bounds are clamped to at most a million, the
      lower one to at least 1 and the upper one to at least the lower; the draw `d`
      picks a value of that range. */
  function RandomNumber(min: Num, max: Num, d: nat): (r: Num)
    ensures r.Some? <==> min.Some? && max.Some?
    ensures r.Some? ==>
      var lo := Max(1, Min(min.value, Million));
      lo <= r.value <= Max(lo, Min(max.value, Million))
  {
    var lo := JsMax(Some(1), JsMin(min, Some(Million)));
    var hi := JsMax(lo, JsMin(max, Some(Million)));
    if lo.None? || hi.None? then None else Some(lo.value + d % (hi.value - lo.value + 1))
  }

  /** Every value of the clamped range is produced by some draw. */
  lemma RandomNumberCoversRange(min: int, max: int, v: int)
    requires Max(1, Min(min, Million)) <= v <= Max(Max(1, Min(min, Million)), Min(max, Million))
    ensures RandomNumber(Some(min), Some(max), v - Max(1, Min(min, Million))) == Some(v)
  {
    var lo := Max(1, Min(min, Million));
    var hi := Max(lo, Min(max, Million));
    assert JsMax(Some(1), JsMin(Some(min), Some(Million))) == Some(lo);
    assert JsMax(Some(lo), JsMin(Some(max), Some(Million))) == Some(hi);
    var d: nat := v - lo;
    var m: nat := hi - lo + 1;
    assert 0 <= d < m;
    ModSmall(d, m);
  }

  lemma ModSmall(d: nat, m: nat)
    requires d < m
    ensures d % m == d
  {
  }

  /** `getRandomOperation`: the draw picks one of the listed operations. */
  function RandomOperation(ops: seq<Op>, d: nat): (op: Op)
    requires |ops| > 0
    ensures op in ops
  {
    ops[d % |ops|]
  }

  /** Every listed operation is picked by some draw. */
  lemma RandomOperationCovers(ops: seq<Op>, op: Op)
    requires op in ops
    ensures exists d: nat :: RandomOperation(ops, d) == op
  {
    var i :| 0 <= i < |ops| && ops[i] == op;
    ModSmall(i, |ops|);
    assert RandomOperation(ops, i) == op;
  }

  /** One attempt's draws: the operation, then the two `getRandomNumber` calls. */
  datatype Draw = Draw(op: nat, first: nat, second: nat)

  /** `generateNumbers`: the operands drawn for `op` under `rule`. `minNum` defaults to
      1 when absent, while `maxNum` comes from the rule, where no rule of the table
      sets it. */
  function GenerateNumbers(op: Op, rule: Rule, d1: nat, d2: nat): (r: (Num, Num))
  {
    var minNum := if rule.minNum.None? then Some(1) else rule.minNum;
    match op
    case Add =>
      var num1 := RandomNumber(minNum, JsMin(JsOr(rule.maxNum1, rule.maxNum), Some(10000)), d1);
      var num2 := RandomNumber(minNum, JsMin(JsMinus(rule.maxResult, num1), Some(10000)), d2);
      (num1, num2)
    case Sub =>
      var num1 := RandomNumber(minNum, JsMin(JsOr(rule.maxNum1, rule.maxNum), Some(10000)), d1);
      var num2 := RandomNumber(minNum, JsMin(num1, Some(10000)), d2);
      (num1, num2)
    case Mul =>
      (RandomNumber(rule.minFactor, JsMin(rule.maxFactor, Some(100)), d1),
       RandomNumber(rule.minFactor, JsMin(rule.maxFactor, Some(100)), d2))
    case Div =>
      // Both branches of the source's `wholeDivision` test draw alike.
      var num2 := RandomNumber(Some(2), JsMin(rule.maxDivisor, Some(20)), d1);
      var k := RandomNumber(Some(2), JsMin(Some(10), JsFloorDiv(rule.maxNum, num2)), d2);
      (JsTimes(num2, k), num2)
  }

  /** A subtraction draw never has a subtrahend above the minuend. */
  lemma SubtractionDrawOrdered(rule: Rule, d1: nat, d2: nat)
    requires GenerateNumbers(Sub, rule, d1, d2).1.Some?
    ensures var (n1, n2) := GenerateNumbers(Sub, rule, d1, d2);
      n1.Some? && 1 <= n2.value <= n1.value
  {
  }

  /** Without a `maxNum1` and a `maxNum` in the rule, an addition draw is `NaN`. */
  lemma AdditionDrawIsNaN(rule: Rule, d1: nat, d2: nat)
    requires !Truthy(rule.maxNum1) && rule.maxNum.None?
    ensures GenerateNumbers(Add, rule, d1, d2).0.None?
  {
  }

  /** Without a `maxNum` in the rule, a division draw's dividend is `NaN`. */
  lemma DivisionDrawIsNaN(rule: Rule, d1: nat, d2: nat)
    requires rule.maxNum.None?
    ensures GenerateNumbers(Div, rule, d1, d2).0.None?
  {
  }

  /** `getSafeNumbers`: the fallback operands of a grade and operation. */
  function SafeNumbers(grade: int, op: Op): (int, int) {
    match op
    case Add => (grade * 10, grade * 5)
    case Sub => (grade * 20, grade * 10)
    case Mul => (grade * 2, grade)
    case Div => (grade * 10, grade)
  }

  // ---------------------------------------------------------------------------
  // Validity and answers.

  /** `isValidProblem`: a draw is rejected when an operand is `NaN`, a no-negative
      subtraction would go below zero, a sum passes its rule's `maxResult` or a
      million, a product passes a million, or a division has a zero divisor, a
      remainder where whole division is required or no decimals are allowed, or a
      quotient above a million. */
  predicate IsValidProblem(n1: Num, n2: Num, op: Op, rule: Rule)
    ensures IsValidProblem(n1, n2, op, rule) ==> n1.Some? && n2.Some?
    ensures IsValidProblem(n1, n2, op, rule) && op == Sub && rule.noNegative ==>
      n2.value <= n1.value
    ensures IsValidProblem(n1, n2, op, rule) && op == Add ==>
      n1.value + n2.value <= Million
      && (Truthy(rule.maxResult) ==> n1.value + n2.value <= rule.maxResult.value)
    ensures IsValidProblem(n1, n2, op, rule) && op == Mul ==> n1.value * n2.value <= Million
    ensures IsValidProblem(n1, n2, op, rule) && op == Div ==>
      n2.value != 0
      && (rule.wholeDivision || !Truthy(rule.maxDecimals) ==> n1.value % n2.value == 0)
      && (n1.value as real) / (n2.value as real) <= Million as real
  {
    if n1.None? || n2.None? then false
    else
      var a := n1.value;
      var b := n2.value;
      match op
      case Sub => !(rule.noNegative && a < b)
      case Add =>
        !(Truthy(rule.maxResult) && a + b > rule.maxResult.value) && !(a + b > Million)
      case Mul => !(a * b > Million)
      case Div =>
        // JavaScript's `%` is zero exactly when Dafny's is, whatever the signs.
        && b != 0
        && !(rule.wholeDivision && a % b != 0)
        && !((a as real) / (b as real) > Million as real)
        && !(a % b != 0 && !Truthy(rule.maxDecimals))
  }

  /** The generator's `calculateAnswer`: exact for `+ - *`, and for `÷` the quotient
      rounded to hundredths, or 0 for a zero divisor. */
  function CalculateAnswer(a: int, b: int, op: Op): (r: real)
    ensures op != Div ==> (r.Floor as real) == r
    ensures op == Add ==> r == (a + b) as real
    ensures op == Sub ==> r == (a - b) as real
    ensures op == Mul ==> r == (a * b) as real
    ensures op == Div ==> IsHundredths(r)
    ensures op == Div && b == 0 ==> r == 0.0
    ensures op == Div && b != 0 ==> -0.005 <= r - (a as real) / (b as real) <= 0.005
    ensures op == Div && b != 0 && a % b == 0 ==> r == (a / b) as real
  {
    match op
    case Add => (a + b) as real
    case Sub => (a - b) as real
    case Mul => (a * b) as real
    case Div =>
      if b == 0 then
        IntegerIsHundredths(0);
        0.0
      else
        if a % b == 0 then
          ExactQuotientUnrounded(a, b);
          DivideRounded(a, b)
        else DivideRounded(a, b)
  }

  /** An exact integer quotient survives rounding to hundredths. */
  lemma ExactQuotientUnrounded(a: int, b: int)
    requires b != 0 && a % b == 0
    ensures DivideRounded(a, b) == (a / b) as real
  {
    var q := a / b;
    assert a == q * b;
    assert (a as real) == (q as real) * (b as real);
    assert (a as real) / (b as real) == q as real;
    IntegerIsHundredths(q);
    Round2Hundredths(q as real);
  }

  lemma IntegerIsHundredths(q: int)
    ensures IsHundredths(q as real)
  {
    assert (q as real) * 100.0 == (q * 100) as real;
    assert ((q * 100) as real).Floor == q * 100;
  }

  /** The stored answer of an accepted draw: rounded to hundredths again for `÷`,
      otherwise passed through `Math.round`. */
  function FinalAnswer(op: Op, answer: real): real {
    if op == Div then Round2(answer) else RoundHalfUp(answer) as real
  }

  /** The second rounding changes nothing: the stored answer is the calculated one. */
  lemma FinalAnswerIsCalculated(a: int, b: int, op: Op)
    ensures FinalAnswer(op, CalculateAnswer(a, b, op)) == CalculateAnswer(a, b, op)
  {
    var r := CalculateAnswer(a, b, op);
    if op == Div {
      if b == 0 {
        IntegerIsHundredths(0);
        Round2Hundredths(0.0);
      } else {
        Round2Idempotent((a as real) / (b as real));
      }
    } else {
      var n := r.Floor;
      assert r == n as real;
      assert RoundHalfUp(r) == n;
    }
  }

  // ---------------------------------------------------------------------------
  // The recent-text window: an insertion-ordered set of at most a hundred texts.

  type Window = seq<string>

  predicate Distinct(w: Window) {
    forall i, j :: 0 <= i < j < |w| ==> w[i] != w[j]
  }

  predicate WindowOk(w: Window) {
    |w| <= WindowCap && Distinct(w)
  }

  /** Adds `t` to the window; when that makes it exceed the cap, the earliest-inserted
      text is evicted. */
  function Remember(w: Window, t: string): (w': Window)
    ensures t in w'
    ensures t in w ==> w' == w
    ensures t !in w && |w| < WindowCap ==> w' == w + [t]
    ensures t !in w && |w| == WindowCap ==> w' == w[1..] + [t]
    ensures WindowOk(w) ==> WindowOk(w')
  {
    if t in w then w
    else
      var grown := w + [t];
      if |grown| > WindowCap then
        assert grown[1..][|grown| - 2] == t;
        grown[1..]
      else grown
  }

  /** On overflow the window loses exactly its oldest text and gains the new one. */
  lemma RememberEvictsOldest(w: Window, t: string, x: string)
    requires WindowOk(w) && |w| == WindowCap && t !in w
    ensures x in Remember(w, t) <==> x == t || (x in w && x != w[0])
  {
    if x in w && x != w[0] {
      var i :| 0 <= i < |w| && w[i] == x;
      assert Remember(w, t)[i - 1] == x;
    }
  }

  /** `clearRecentProblems`. */
  function ClearRecentProblems(w: Window): (w': Window)
    ensures |w'| == 0
  {
    []
  }

  // ---------------------------------------------------------------------------
  // Generation.

  /** The operation and operands attempt `d` draws under configuration `c`. */
  function Candidate(c: GradeConfig, d: Draw): (r: (Op, Num, Num))
    requires WellFormed(c)
    ensures r.0 in c.operations
  {
    var op := RandomOperation(c.operations, d.op);
    var (n1, n2) := GenerateNumbers(op, c.rules[op], d.first, d.second);
    (op, n1, n2)
  }

  /** The problem an accepted draw becomes; `attempts` offsets the clock reading in its id. */
  function MakeProblem(grade: int, difficulty: string, op: Op, a: int, b: int, id: int): Problem {
    Problem(id, a, b, op, FinalAnswer(op, CalculateAnswer(a, b, op)), grade, difficulty,
      ProblemText(a, op, b))
  }

  /** What every accepted problem satisfies: it comes from a valid draw of one of the
      grade's operations and its text and answer are those of its operands. */
  ghost predicate Accepted(c: GradeConfig, grade: int, difficulty: string, now: int, p: Problem)
    requires WellFormed(c)
  {
    && p.op in c.operations
    && IsValidProblem(Some(p.num1), Some(p.num2), p.op, c.rules[p.op])
    && p.text == ProblemText(p.num1, p.op, p.num2)
    && p.answer == CalculateAnswer(p.num1, p.num2, p.op)
    && p.grade == grade && p.difficulty == difficulty
    && now <= p.id < now + MaxAttempts
    && exists d: Draw :: Candidate(c, d) == (p.op, Some(p.num1), Some(p.num2))
  }

  /** Attempt `d` draws a valid problem under `c`. */
  predicate Valid(c: GradeConfig, d: Draw)
    requires WellFormed(c)
  {
    var (op, n1, n2) := Candidate(c, d);
    IsValidProblem(n1, n2, op, c.rules[op])
  }

  /** The text of a valid attempt. */
  function AttemptText(c: GradeConfig, d: Draw): string
    requires WellFormed(c) && Valid(c, d)
  {
    var (op, n1, n2) := Candidate(c, d);
    ProblemText(n1.value, op, n2.value)
  }

  /** Attempt `d` is kept: its draw is valid and its text is not in the window. */
  predicate Fresh(c: GradeConfig, d: Draw, w: Window)
    requires WellFormed(c)
  {
    Valid(c, d) && AttemptText(c, d) !in w
  }

  /** The problem a kept attempt becomes, with id `id`. */
  function Attempt(c: GradeConfig, grade: int, difficulty: string, d: Draw, id: int): Problem
    requires WellFormed(c) && Valid(c, d)
  {
    var (op, n1, n2) := Candidate(c, d);
    MakeProblem(grade, difficulty, op, n1.value, n2.value, id)
  }

  /** Attempt `j` is the first attempt from `k` on that is kept. */
  predicate FirstKeptFrom(c: GradeConfig, draws: seq<Draw>, w: Window, k: nat, j: nat)
    requires WellFormed(c) && MaxAttempts <= |draws|
  {
    && k <= j < MaxAttempts && Fresh(c, draws[j], w)
    && forall i :: k <= i < j ==> !Fresh(c, draws[i], w)
  }

  /** The retry loop from attempt `k` on: a draw is retried when it is invalid or its
      text is in the window; the first kept attempt `j` becomes the problem, with id
      `now + j`, and its text enters the window. */
  function TryAttempts(c: GradeConfig, grade: int, difficulty: string, draws: seq<Draw>,
                       k: nat, now: int, w: Window): (r: Option<(Problem, Window)>)
    requires WellFormed(c) && k <= MaxAttempts <= |draws|
    ensures r.None? <==> forall j :: k <= j < MaxAttempts ==> !Fresh(c, draws[j], w)
    ensures r.Some? ==>
      exists j: nat :: FirstKeptFrom(c, draws, w, k, j)
                      && r.value.0 == Attempt(c, grade, difficulty, draws[j], now + j)
    ensures r.Some? ==> Accepted(c, grade, difficulty, now, r.value.0)
    ensures r.Some? ==> r.value.0.text !in w && r.value.1 == Remember(w, r.value.0.text)
    decreases MaxAttempts - k
  {
    if k == MaxAttempts then None
    else if Fresh(c, draws[k], w) then
      var p := Attempt(c, grade, difficulty, draws[k], now + k);
      AttemptAccepted(c, grade, difficulty, draws[k], now, k);
      assert FirstKeptFrom(c, draws, w, k, k);
      Some((p, Remember(w, p.text)))
    else
      var r := TryAttempts(c, grade, difficulty, draws, k + 1, now, w);
      FirstKeptStep(c, draws, w, k);
      r
  }

  /** Skipping an attempt that is not kept leaves the first kept attempt unchanged. */
  lemma FirstKeptStep(c: GradeConfig, draws: seq<Draw>, w: Window, k: nat)
    requires WellFormed(c) && k < MaxAttempts <= |draws| && !Fresh(c, draws[k], w)
    ensures forall j: nat :: FirstKeptFrom(c, draws, w, k + 1, j) ==> FirstKeptFrom(c, draws, w, k, j)
  {
  }

  /** A valid attempt at index `k` is an accepted problem carrying the attempt's text. */
  lemma AttemptAccepted(c: GradeConfig, grade: int, difficulty: string, d: Draw, now: int, k: nat)
    requires WellFormed(c) && Valid(c, d) && k < MaxAttempts
    ensures var p := Attempt(c, grade, difficulty, d, now + k);
      p.text == AttemptText(c, d) && Accepted(c, grade, difficulty, now, p)
  {
    var (op, n1, n2) := Candidate(c, d);
    FinalAnswerIsCalculated(n1.value, n2.value, op);
    assert Candidate(c, d) == (op, Some(n1.value), Some(n2.value));
  }

  /** The fallback: the first listed operation on `getSafeNumbers` operands, with the
      calculated answer left unrounded. */
  function Fallback(c: GradeConfig, grade: int, difficulty: string, now: int): Problem
    requires WellFormed(c)
  {
    var op := c.operations[0];
    var (a, b) := SafeNumbers(grade, op);
    Problem(now, a, b, op, CalculateAnswer(a, b, op), grade, difficulty, ProblemText(a, op, b))
  }

  /** The outcome of `generateProblem`: the problem (`None` for `null`) and the window after. */
  datatype GenResult = GenResult(problem: Option<Problem>, window: Window)

  /** `generateProblem(grade, difficulty)` with the clock reading `now` and the draws
      of its twenty attempts. */
  function GenerateProblem(grade: int, difficulty: string, draws: seq<Draw>, now: int,
                           w: Window): (r: GenResult)
    requires |draws| >= MaxAttempts
    ensures r.problem.None? <==> GradeConfigs(grade).None?
    ensures r.problem.None? ==> r.window == w
    ensures WindowOk(w) ==> WindowOk(r.window)
    ensures r.problem.Some? ==>
      var p := r.problem.value;
      var c := GradeConfigs(grade).value;
      || (Accepted(c, grade, difficulty, now, p) && p.text !in w && p.text in r.window
          && r.window == Remember(w, p.text))
      || (p == Fallback(c, grade, difficulty, now) && r.window == w)
  {
    match GradeConfigs(grade)
    case None => GenResult(None, w)
    case Some(c) =>
      match TryAttempts(c, grade, difficulty, draws, 0, now, w)
      case Some((p, w')) => GenResult(Some(p), w')
      case None => GenResult(Some(Fallback(c, grade, difficulty, now)), w)
  }

  /** `generateProblem` takes the first of its twenty attempts that is kept, with the
      attempt's index added to the clock reading as its id, and falls back exactly when
      no attempt is kept. */
  lemma GenerateProblemTakesFirstKept(grade: int, difficulty: string, draws: seq<Draw>, now: int,
                                      w: Window)
    requires |draws| >= MaxAttempts && GradeConfigs(grade).Some?
    ensures var r := GenerateProblem(grade, difficulty, draws, now, w);
      var c := GradeConfigs(grade).value;
      && r.problem.Some?
      && (|| (exists j: nat :: FirstKeptFrom(c, draws, w, 0, j)
                && r.problem.value == Attempt(c, grade, difficulty, draws[j], now + j)
                && r.window == Remember(w, r.problem.value.text))
          || ((forall j :: 0 <= j < MaxAttempts ==> !Fresh(c, draws[j], w))
                && r.problem.value == Fallback(c, grade, difficulty, now) && r.window == w))
  {
    var c := GradeConfigs(grade).value;
    var t := TryAttempts(c, grade, difficulty, draws, 0, now, w);
    assert GenerateProblem(grade, difficulty, draws, now, w)
      == if t.Some? then GenResult(Some(t.value.0), t.value.1)
         else GenResult(Some(Fallback(c, grade, difficulty, now)), w);
  }

  // ---------------------------------------------------------------------------
  // Consequences of the table as written.

  /** In every grade, an addition or division draw is rejected, because its first
      operand is `NaN`. */
  lemma {:induction false} AdditionAndDivisionNeverAccepted(grade: int, d: Draw)
    requires GradeConfigs(grade).Some?
    ensures var c := GradeConfigs(grade).value;
      var (op, n1, n2) := Candidate(c, d);
      op == Add || op == Div ==> !IsValidProblem(n1, n2, op, c.rules[op])
  {
    var c := GradeConfigs(grade).value;
    var op := RandomOperation(c.operations, d.op);
    if op == Add {
      assert !Truthy(c.rules[Add].maxNum1) by {
        assert c.rules[Add].maxNum1 == None;
      }
      AdditionDrawIsNaN(c.rules[op], d.first, d.second);
    } else if op == Div {
      DivisionDrawIsNaN(c.rules[op], d.first, d.second);
    }
  }

  /** Hence every problem the loop accepts is a subtraction or a multiplication. */
  lemma AcceptedIsSubOrMul(grade: int, difficulty: string, draws: seq<Draw>, now: int, w: Window)
    requires |draws| >= MaxAttempts
    requires GenerateProblem(grade, difficulty, draws, now, w).problem.Some?
    ensures var p := GenerateProblem(grade, difficulty, draws, now, w).problem.value;
      || p.op == Sub || p.op == Mul
      || (p.op == Add && p.num1 == 10 * grade && p.num2 == 5 * grade)
  {
    var c := GradeConfigs(grade).value;
    var p := GenerateProblem(grade, difficulty, draws, now, w).problem.value;
    if p != Fallback(c, grade, difficulty, now) {
      var d: Draw :| Candidate(c, d) == (p.op, Some(p.num1), Some(p.num2));
      AdditionAndDivisionNeverAccepted(grade, d);
    }
  }

  /** The fallback is `10g + 5g` with answer `15g`, and it is valid under the grade's
      own addition rule. */
  lemma FallbackIsValidAddition(grade: int, difficulty: string, now: int)
    requires GradeConfigs(grade).Some?
    ensures var c := GradeConfigs(grade).value;
      var p := Fallback(c, grade, difficulty, now);
      && p.op == Add && p.num1 == 10 * grade && p.num2 == 5 * grade
      && p.answer == (15 * grade) as real
      && IsValidProblem(Some(p.num1), Some(p.num2), Add, c.rules[Add])
  {
  }

  /** The clamps collapse the upper grades' subtraction and multiplication draws to a
      single problem each. */
  lemma UpperGradesCollapse(d: Draw)
    ensures GenerateNumbers(Sub, GradeConfigs(5).value.rules[Sub], d.first, d.second)
      == (Some(10000), Some(10000))
    ensures GenerateNumbers(Mul, GradeConfigs(5).value.rules[Mul], d.first, d.second)
      == (Some(100), Some(100))
    ensures GenerateNumbers(Sub, GradeConfigs(6).value.rules[Sub], d.first, d.second)
      == (Some(100000), Some(100000))
    ensures GenerateNumbers(Mul, GradeConfigs(6).value.rules[Mul], d.first, d.second)
      == (Some(1000), Some(1000))
  {
  }
}
