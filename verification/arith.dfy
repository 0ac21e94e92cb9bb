/** The arithmetic shared by the generator, the practice store and the importers:
    the four operators, the two rounding rules, the canonical problem text and the
    problem record itself. */
module Arith {
  import opened Wrappers
  import opened Numerals

  datatype Op = Add | Sub | Mul | Div

  /** The operator's glyph as it appears in problem texts: `+ - * ÷`. */
  function Glyph(op: Op): char {
    match op
    case Add => '+'
    case Sub => '-'
    case Mul => '*'
    case Div => '÷'
  }

  /** The operator a one-glyph string names, if it names one of `+ - * ÷`. */
  function ParseOp(s: string): (r: Option<Op>)
    ensures r.Some? <==> s in ["+", "-", "*", "÷"]
    ensures r.Some? ==> s == [Glyph(r.value)]
  {
    if s == "+" then Some(Add)
    else if s == "-" then Some(Sub)
    else if s == "*" then Some(Mul)
    else if s == "÷" then Some(Div)
    else None
  }

  lemma ParseOpOfGlyph(op: Op)
    ensures ParseOp([Glyph(op)]) == Some(op)
  {
  }

  /** `Math.round`: the nearest integer, halves rounded up. */
  function RoundHalfUp(x: real): (n: int)
    ensures (n as real) - 0.5 <= x < (n as real) + 0.5
  {
    (x + 0.5).Floor
  }

  /** `Number(x.toFixed(2))` on the exact value of `x`: the nearest hundredth,
      halves rounded away from zero. */
  function Round2(x: real): (r: real)
    ensures IsHundredths(r)
    ensures -0.005 <= r - x <= 0.005
    ensures x >= 0.0 ==> r >= 0.0
  {
    var k := if x >= 0.0 then (x * 100.0 + 0.5).Floor else -((-x * 100.0 + 0.5).Floor);
    assert ((k as real) / 100.0) * 100.0 == k as real;
    (k as real) / 100.0
  }

  /** A whole number of hundredths. */
  predicate IsHundredths(r: real) {
    ((r * 100.0).Floor as real) == r * 100.0
  }

  /** Rounding to hundredths leaves a value that already is in hundredths alone. */
  lemma Round2Hundredths(x: real)
    requires IsHundredths(x)
    ensures Round2(x) == x
  {
    var k := (x * 100.0).Floor;
    assert x == (k as real) / 100.0;
    if x >= 0.0 {
      assert x * 100.0 + 0.5 == (k as real) + 0.5;
      assert (x * 100.0 + 0.5).Floor == k;
    } else {
      assert -x * 100.0 + 0.5 == (-k as real) + 0.5;
      assert (-x * 100.0 + 0.5).Floor == -k;
    }
  }

  /** Rounding to hundredths is idempotent. */
  lemma Round2Idempotent(x: real)
    ensures Round2(Round2(x)) == Round2(x)
  {
    Round2Hundredths(Round2(x));
  }

  /** `x.toFixed(1)` read as a number, for a non-negative `x`: the nearest tenth,
      halves rounded up. */
  function Round1(x: real): (r: real)
    requires x >= 0.0
    ensures ((r * 10.0).Floor as real) == r * 10.0
    ensures -0.05 <= r - x <= 0.05
    ensures 0.0 <= r && (x <= 100.0 ==> r <= 100.0)
  {
    var k := (x * 10.0 + 0.5).Floor;
    assert ((k as real) / 10.0) * 10.0 == k as real;
    (k as real) / 10.0
  }

  /** The exact quotient of two integers, rounded to hundredths. */
  function DivideRounded(a: int, b: int): real
    requires b != 0
  {
    Round2((a as real) / (b as real))
  }

  /** A problem's canonical text `"{num1} {op} {num2} = ?"`. */
  function ProblemText(num1: int, op: Op, num2: int): string {
    IntToString(num1) + " " + [Glyph(op)] + " " + IntToString(num2) + " = ?"
  }

  /** A practice problem as the server hands it out. */
  datatype Problem = Problem(
    id: int,
    num1: int,
    num2: int,
    op: Op,
    answer: real,
    grade: int,
    difficulty: string,
    text: string)
}
