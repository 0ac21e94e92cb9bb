/** The import side of the file handler: operator normalisation, the importer's own
    answer calculation, grade inference and validity check, the CSV row and
    Word-text pipelines that turn input into problems, and the dispatch on the
    uploaded file's extension. The CSV parser's rows and the Word document's raw
    text are supplied as values. */
module FileHandler {
  import opened Wrappers
  import opened Numerals
  import opened Arith
  import ProblemGenerator

  // ---------------------------------------------------------------------------
  // Operator normalisation.

  /** `s.replace(c, d)` with a one-character pattern: only the first occurrence changes. */
  function ReplaceFirst(s: string, c: char, d: char): (r: string)
    ensures |r| == |s|
    ensures c !in s ==> r == s
    ensures c in s ==> exists i :: 0 <= i < |s| && s[i] == c && c !in s[..i] && r == s[i := d]
  {
    if |s| == 0 then s
    else if s[0] == c then
      assert c !in s[..0];
      [d] + s[1..]
    else
      var rest := ReplaceFirst(s[1..], c, d);
      if c in s[1..] then
        var i :| 0 <= i < |s[1..]| && s[1..][i] == c && c !in s[1..][..i] && rest == s[1..][i := d];
        assert s[..i + 1] == [s[0]] + s[1..][..i];
        assert [s[0]] + rest == s[i + 1 := d];
        [s[0]] + rest
      else
        [s[0]] + rest
  }

  /** The normalised form of a one-character operator. */
  function NormalizeChar(c: char): char {
    if c == '×' then '*' else if c == '/' then '÷' else c
  }

  /** `operation.replace('×', '*').replace('/', '÷')`. */
  function Normalize(s: string): (r: string)
    ensures |r| == |s|
    ensures |s| == 1 ==> r == [NormalizeChar(s[0])]
  {
    ReplaceFirst(ReplaceFirst(s, '×', '*'), '/', '÷')
  }

  /** A one-glyph operator is recognised after normalisation exactly when it is one of
      `+ - * ÷ × /`. */
  lemma NormalizedOperatorRecognised(c: char)
    ensures ParseOp(Normalize([c])).Some? <==> c in "+-*÷×/"
  {
  }

  // ---------------------------------------------------------------------------
  // Answer, grade and validity.

  datatype CalcError = DivisionByZero | InvalidOperation(op: string)

  /** The importer's `calculateAnswer`: it throws for a zero divisor and for an
      operator other than `+ - * ÷`, and otherwise agrees with the generator's
      calculation. */
  function CalculateAnswer(num1: int, num2: int, opText: string): (r: Result<real, CalcError>)
    ensures r.Success? <==> ParseOp(opText).Some? && !(opText == "÷" && num2 == 0)
    ensures r == Failure(DivisionByZero) <==> opText == "÷" && num2 == 0
    ensures r.Success? ==>
      r.value == ProblemGenerator.CalculateAnswer(num1, num2, ParseOp(opText).value)
    ensures r.Success? && opText != "÷" ==> (r.value.Floor as real) == r.value
  {
    match ParseOp(opText)
    case None => Failure(InvalidOperation(opText))
    case Some(op) =>
      match op
      case Add => Success((num1 + num2) as real)
      case Sub => Success((num1 - num2) as real)
      case Mul => Success((num1 * num2) as real)
      case Div => if num2 == 0 then Failure(DivisionByZero) else Success(DivideRounded(num1, num2))
  }

  /** The grade a Word problem is given, from the larger operand. */
  function DetermineGrade(num1: int, num2: int): (g: int)
    ensures 1 <= g <= 6
    ensures var m := if num1 >= num2 then num1 else num2;
      g == 1 + (if m > 20 then 1 else 0) + (if m > 100 then 1 else 0)
             + (if m > 1000 then 1 else 0) + (if m > 10000 then 1 else 0)
             + (if m > 100000 then 1 else 0)
  {
    var m := if num1 >= num2 then num1 else num2;
    if m <= 20 then 1
    else if m <= 100 then 2
    else if m <= 1000 then 3
    else if m <= 10000 then 4
    else if m <= 100000 then 5
    else 6
  }

  /** Larger operands never lower the grade. */
  lemma DetermineGradeMonotone(a: int, b: int, c: int, d: int)
    requires (if a >= b then a else b) <= (if c >= d then c else d)
    ensures DetermineGrade(a, b) <= DetermineGrade(c, d)
  {
  }

  /** The importer's `isValidProblem`: operands and answer are numbers, the operator is
      one of `+ - * ÷` and the grade lies in 1..6. */
  predicate IsValidProblem(num1: Option<int>, num2: Option<int>, answer: Option<real>,
                           opText: string, grade: int)
  {
    && num1.Some? && num2.Some? && answer.Some?
    && opText in ["+", "-", "*", "÷"]
    && 1 <= grade <= 6
  }

  /** What every imported problem satisfies. */
  predicate Imported(p: Problem) {
    && p.text == ProblemText(p.num1, p.op, p.num2)
    && !(p.op == Div && p.num2 == 0)
    && p.answer == ProblemGenerator.CalculateAnswer(p.num1, p.num2, p.op)
    && 1 <= p.grade <= 6
    && p.difficulty == "medium"
  }

  /** The problem record both importers build; its text uses the normalised operator. */
  function Build(num1: int, num2: int, opText: string, answer: real, grade: int, id: int)
    : Option<Problem>
  {
    if IsValidProblem(Some(num1), Some(num2), Some(answer), opText, grade) then
      Some(Problem(id, num1, num2, ParseOp(opText).value, answer, grade, "medium",
        IntToString(num1) + " " + opText + " " + IntToString(num2) + " = ?"))
    else None
  }

  // ---------------------------------------------------------------------------
  // Collecting problems: each accepted item becomes the next problem, whose id is the
  // clock reading plus the number accepted before it.

  function Collect<T>(items: seq<T>, f: (T, nat) -> Option<Problem>, acc: seq<Problem>)
    : (r: seq<Problem>)
    ensures |acc| <= |r| <= |acc| + |items|
    ensures r[..|acc|] == acc
    ensures (forall i, k :: 0 <= i < |items| ==> f(items[i], k).None?) ==> r == acc
    decreases |items|
  {
    if |items| == 0 then acc
    else
      var r := match f(items[0], |acc|)
        case Some(p) => Collect(items[1..], f, acc + [p])
        case None => Collect(items[1..], f, acc);
      assert forall i :: 0 <= i < |items[1..]| ==> items[1..][i] == items[i + 1];
      assert r[..|acc|] == acc by {
        if f(items[0], |acc|).Some? {
          assert r[..|acc| + 1][..|acc|] == r[..|acc|];
        }
      }
      r
  }

  /** Every problem past the accumulator is the one some item yields at its position. */
  lemma {:induction false} CollectProvenance<T>(items: seq<T>, f: (T, nat) -> Option<Problem>,
                                               acc: seq<Problem>)
    ensures var r := Collect(items, f, acc);
      forall j :: |acc| <= j < |r| ==> exists i :: 0 <= i < |items| && f(items[i], j) == Some(r[j])
    decreases |items|
  {
    if |items| > 0 {
      var r := Collect(items, f, acc);
      match f(items[0], |acc|)
      case Some(p) =>
        CollectProvenance(items[1..], f, acc + [p]);
        assert r == Collect(items[1..], f, acc + [p]);
        assert r[..|acc| + 1] == acc + [p];
        forall j | |acc| <= j < |r| ensures exists i :: 0 <= i < |items| && f(items[i], j) == Some(r[j]) {
          if j == |acc| {
            assert r[j] == r[..|acc| + 1][j] == p;
            assert f(items[0], j) == Some(r[j]);
          } else {
            var i :| 0 <= i < |items[1..]| && f(items[1..][i], j) == Some(r[j]);
            assert items[1..][i] == items[i + 1];
          }
        }
      case None =>
        CollectProvenance(items[1..], f, acc);
        assert r == Collect(items[1..], f, acc);
        forall j | |acc| <= j < |r| ensures exists i :: 0 <= i < |items| && f(items[i], j) == Some(r[j]) {
          var i :| 0 <= i < |items[1..]| && f(items[1..][i], j) == Some(r[j]);
          assert items[1..][i] == items[i + 1];
        }
    }
  }

  /** The problem an item contributes: itself when accepted, nothing otherwise. */
  function Kept(o: Option<Problem>): (r: seq<Problem>)
    ensures |r| <= 1
  {
    match o
    case Some(p) => [p]
    case None => []
  }

  /** Collecting one more item appends exactly that item's problem, numbered by how
      many were accepted before it: the collection keeps item order and takes one
      problem per accepted item. */
  lemma {:induction false} CollectAppend<T>(items: seq<T>, x: T, f: (T, nat) -> Option<Problem>,
                                           acc: seq<Problem>)
    ensures Collect(items + [x], f, acc)
         == Collect(items, f, acc) + Kept(f(x, |Collect(items, f, acc)|))
    decreases |items|
  {
    var all := items + [x];
    if |items| == 0 {
      assert all == [x];
      assert all[1..] == [];
    } else {
      assert all[0] == items[0];
      assert all[1..] == items[1..] + [x];
      match f(items[0], |acc|)
      case Some(p) => CollectAppend(items[1..], x, f, acc + [p]);
      case None => CollectAppend(items[1..], x, f, acc);
    }
  }

  /** When the item at each position yields the matching problem, numbered after the
      accumulator, the collection is the accumulator followed by those problems. */
  lemma {:induction false} CollectAll<T>(items: seq<T>, f: (T, nat) -> Option<Problem>,
                                        acc: seq<Problem>, ps: seq<Problem>)
    requires |ps| == |items|
    requires forall j :: 0 <= j < |items| ==> f(items[j], |acc| + j) == Some(ps[j])
    ensures Collect(items, f, acc) == acc + ps
    decreases |items|
  {
    if |items| == 0 {
      assert acc + ps == acc;
    } else {
      assert f(items[0], |acc| + 0) == Some(ps[0]);
      forall j | 0 <= j < |items[1..]|
        ensures f(items[1..][j], |acc + [ps[0]]| + j) == Some(ps[1..][j])
      {
        assert f(items[j + 1], |acc| + (j + 1)) == Some(ps[j + 1]);
      }
      CollectAll(items[1..], f, acc + [ps[0]], ps[1..]);
      assert acc + [ps[0]] + ps[1..] == acc + ps;
    }
  }

  /** An item that yields a problem whatever its index makes the collection grow. */
  lemma {:induction false} CollectKeeps<T>(items: seq<T>, f: (T, nat) -> Option<Problem>,
                                          acc: seq<Problem>, i: nat)
    requires i < |items| && forall k :: f(items[i], k).Some?
    ensures |Collect(items, f, acc)| > |acc|
    decreases |items|
  {
    if i == 0 {
      assert f(items[0], |acc|).Some?;
    } else {
      assert items[1..][i - 1] == items[i];
      match f(items[0], |acc|)
      case Some(p) => CollectKeeps(items[1..], f, acc + [p], i - 1);
      case None => CollectKeeps(items[1..], f, acc, i - 1);
    }
  }

  // ---------------------------------------------------------------------------
  // CSV rows.

  /** A parsed CSV row: column name to cell text. */
  type Row = map<string, string>

  /** `row.UPPER || row.lower`: an empty upper-case cell falls through to the lower-case one. */
  function Cell(row: Row, upper: string, lower: string): Option<string> {
    if upper in row && row[upper] != "" then Some(row[upper])
    else if lower in row then Some(row[lower])
    else None
  }

  /** `parseInt` of a cell; a missing cell reads as `NaN`. */
  function NumberCell(row: Row, upper: string, lower: string): Option<int> {
    match Cell(row, upper, lower)
    case None => None
    case Some(text) => ParseInt(text)
  }

  /** The conditions under which a row yields a problem; any other row is skipped. */
  predicate RowAccepted(row: Row) {
    var op := Cell(row, "OPERATION", "operation");
    var num1 := NumberCell(row, "NUM1", "num1");
    var num2 := NumberCell(row, "NUM2", "num2");
    var grade := NumberCell(row, "GRADE", "grade");
    && op.Some? && num1.Some? && num2.Some? && grade.Some?
    && ParseOp(Normalize(op.value)).Some?
    && !(ParseOp(Normalize(op.value)).value == Div && num2.value == 0)
    && 1 <= grade.value <= 6
  }

  /** One row of `importFromCsv`: a missing operator cell throws, `NaN` operands or grade
      skip the row, a throwing calculation skips it, and so does a failed validity check. */
  function RowProblem(row: Row, index: nat, now: int): (r: Option<Problem>)
    ensures r.Some? <==> RowAccepted(row)
    ensures r.Some? ==> Imported(r.value) && r.value.id == now + index
    ensures r.Some? ==>
      && NumberCell(row, "NUM1", "num1") == Some(r.value.num1)
      && NumberCell(row, "NUM2", "num2") == Some(r.value.num2)
      && NumberCell(row, "GRADE", "grade") == Some(r.value.grade)
      && Cell(row, "OPERATION", "operation").Some?
      && ParseOp(Normalize(Cell(row, "OPERATION", "operation").value)) == Some(r.value.op)
  {
    match Cell(row, "OPERATION", "operation")
    case None => None
    case Some(raw) =>
      var opText := Normalize(raw);
      var num1 := NumberCell(row, "NUM1", "num1");
      var num2 := NumberCell(row, "NUM2", "num2");
      var grade := NumberCell(row, "GRADE", "grade");
      if num1.None? || num2.None? || grade.None? then None
      else
        match CalculateAnswer(num1.value, num2.value, opText)
        case Failure(_) => None
        case Success(answer) =>
          Build(num1.value, num2.value, opText, answer, grade.value, now + index)
  }

  datatype ImportError = UnsupportedFormat | NoValidProblems

  /** `importFromCsv`: the problems of the accepted rows in row order; it fails only when
      no row is accepted. */
  function ImportCsv(rows: seq<Row>, now: int): (r: Result<seq<Problem>, ImportError>)
    ensures r.Failure? <==> forall i :: 0 <= i < |rows| ==> !RowAccepted(rows[i])
    ensures r.Failure? ==> r.error == NoValidProblems
    ensures r.Success? ==> 1 <= |r.value| <= |rows|
    ensures r.Success? ==> forall j :: 0 <= j < |r.value| ==>
      Imported(r.value[j]) && r.value[j].id == now + j
    ensures r.Success? ==> r.value == CsvProblems(rows, now)
  {
    CsvProblemsFacts(rows, now);
    var ps := CsvProblems(rows, now);
    if |ps| == 0 then Failure(NoValidProblems) else Success(ps)
  }

  /** The problems of the accepted rows, numbered from the clock reading. */
  function CsvProblems(rows: seq<Row>, now: int): seq<Problem> {
    Collect(rows, (row: Row, k: nat) => RowProblem(row, k, now), [])
  }

  lemma CsvProblemsFacts(rows: seq<Row>, now: int)
    ensures var ps := CsvProblems(rows, now);
      && (|ps| == 0 <==> forall i :: 0 <= i < |rows| ==> !RowAccepted(rows[i]))
      && |ps| <= |rows|
      && forall j :: 0 <= j < |ps| ==> Imported(ps[j]) && ps[j].id == now + j
  {
    var f := (row: Row, k: nat) => RowProblem(row, k, now);
    var ps := CsvProblems(rows, now);
    assert ps == Collect(rows, f, []);
    CollectProvenance(rows, f, []);
    if i :| 0 <= i < |rows| && RowAccepted(rows[i]) {
      CollectKeeps(rows, f, [], i);
    }
    forall j | 0 <= j < |ps| ensures Imported(ps[j]) && ps[j].id == now + j {
      var i :| 0 <= i < |rows| && f(rows[i], j) == Some(ps[j]);
    }
  }

  /** One more row adds exactly its own problem, numbered after those before it. */
  lemma CsvProblemsAppend(rows: seq<Row>, row: Row, now: int)
    ensures CsvProblems(rows + [row], now)
         == CsvProblems(rows, now) + Kept(RowProblem(row, |CsvProblems(rows, now)|, now))
  {
    CollectAppend(rows, row, (row: Row, k: nat) => RowProblem(row, k, now), []);
  }

  /** A CSV row holding a problem's operands, operator and grade in the lower-case
      columns. */
  function ProblemRow(p: Problem): Row {
    map["num1" := IntToString(p.num1), "num2" := IntToString(p.num2),
        "operation" := [Glyph(p.op)], "grade" := IntToString(p.grade)]
  }

  function ProblemRows(ps: seq<Problem>): (rows: seq<Row>)
    ensures |rows| == |ps| && forall i :: 0 <= i < |ps| ==> rows[i] == ProblemRow(ps[i])
  {
    seq(|ps|, i requires 0 <= i < |ps| => ProblemRow(ps[i]))
  }

  lemma NormalizeGlyph(op: Op)
    ensures Normalize([Glyph(op)]) == [Glyph(op)]
  {
  }

  /** Each cell of a problem's row: the upper-case columns are absent, so the
      lower-case ones are read. */
  lemma ProblemRowCells(p: Problem)
    ensures Cell(ProblemRow(p), "OPERATION", "operation") == Some([Glyph(p.op)])
    ensures Cell(ProblemRow(p), "NUM1", "num1") == Some(IntToString(p.num1))
    ensures Cell(ProblemRow(p), "NUM2", "num2") == Some(IntToString(p.num2))
    ensures Cell(ProblemRow(p), "GRADE", "grade") == Some(IntToString(p.grade))
  {
    var row := ProblemRow(p);
    assert row.Keys == {"num1", "num2", "operation", "grade"};
    assert "OPERATION" !in row.Keys && "NUM1" !in row.Keys;
    assert "NUM2" !in row.Keys && "GRADE" !in row.Keys;
  }

  lemma NumberCellOfInt(row: Row, upper: string, lower: string, i: int)
    requires Cell(row, upper, lower) == Some(IntToString(i))
    ensures NumberCell(row, upper, lower) == Some(i)
  {
    ParseIntOfIntToString(i);
  }

  /** The row of an imported problem reads back as that problem under the row's id. */
  lemma RowProblemOfProblemRow(p: Problem, index: nat, now: int)
    requires Imported(p)
    ensures RowProblem(ProblemRow(p), index, now) == Some(p.(id := now + index))
  {
    var row := ProblemRow(p);
    ProblemRowCells(p);
    NumberCellOfInt(row, "NUM1", "num1", p.num1);
    NumberCellOfInt(row, "NUM2", "num2", p.num2);
    NumberCellOfInt(row, "GRADE", "grade", p.grade);
    NormalizeGlyph(p.op);
    ParseOpOfGlyph(p.op);
  }

  lemma RowYieldsProblem(p: Problem, index: nat, now: int)
    requires Imported(p) && p.id == now + index
    ensures RowProblem(ProblemRow(p), index, now) == Some(p)
  {
    var q := p.(id := now + index);
    assert q == p;
    RowProblemOfProblemRow(p, index, now);
  }

  /** Each row written from a numbered list of imported problems reads back as the
      problem it was written from. */
  lemma RowsYieldProblems(ps: seq<Problem>, now: int)
    requires forall j :: 0 <= j < |ps| ==> Imported(ps[j]) && ps[j].id == now + j
    ensures forall j :: 0 <= j < |ps| ==> RowProblem(ProblemRows(ps)[j], j, now) == Some(ps[j])
  {
    forall j | 0 <= j < |ps| ensures RowProblem(ProblemRows(ps)[j], j, now) == Some(ps[j]) {
      RowYieldsProblem(ps[j], j, now);
    }
  }

  /** Rows written from imported problems import back as exactly those problems. */
  lemma CsvProblemsOfProblemRows(ps: seq<Problem>, now: int)
    requires forall j :: 0 <= j < |ps| ==> Imported(ps[j]) && ps[j].id == now + j
    ensures CsvProblems(ProblemRows(ps), now) == ps
  {
    var rows := ProblemRows(ps);
    var f := (row: Row, k: nat) => RowProblem(row, k, now);
    var start: seq<Problem> := [];
    forall j | 0 <= j < |rows|
      ensures f(rows[j], |start| + j) == Some(ps[j])
    {
      assert rows[j] == ProblemRow(ps[j]) && |start| + j == j;
      RowYieldsProblem(ps[j], j, now);
    }
    CollectAll(rows, f, start, ps);
    assert start + ps == ps;
  }

  /** `importFromCsv` on the rows of a non-empty list of imported problems, numbered
      from the clock reading, gives that list back. */
  lemma ImportCsvOfProblemRows(ps: seq<Problem>, now: int)
    requires |ps| >= 1
    requires forall j :: 0 <= j < |ps| ==> Imported(ps[j]) && ps[j].id == now + j
    ensures ImportCsv(ProblemRows(ps), now) == Success(ps)
  {
    CsvProblemsOfProblemRows(ps, now);
  }

  // ---------------------------------------------------------------------------
  // Word text: the scanner for `(\d+)\s*([+\-*×÷])\s*(\d+)\s*=\s*(\?|_+)`, global flag.

  predicate IsOpGlyph(c: char) {
    c == '+' || c == '-' || c == '*' || c == '×' || c == '÷'
  }

  predicate IsUnderscore(c: char) {
    c == '_'
  }

  /** Every character from `i` up to `j` satisfies `f`. */
  predicate Run(s: string, i: nat, j: nat, f: char -> bool) {
    i <= j <= |s| && forall k :: i <= k < j ==> f(s[k])
  }

  /** The text from `p` has the pattern's shape, with the digit runs `p..e1` and
      `r0..e2`, the operator at `q`, `=` at `t` and the answer mark at `u`. */
  predicate Shape(s: string, p: nat, e1: nat, q: nat, r0: nat, e2: nat, t: nat, u: nat) {
    && p < e1 && Run(s, p, e1, IsDigit)
    && Run(s, e1, q, IsSpace) && q < |s| && IsOpGlyph(s[q])
    && Run(s, q + 1, r0, IsSpace)
    && r0 < e2 && Run(s, r0, e2, IsDigit)
    && Run(s, e2, t, IsSpace) && t < |s| && s[t] == '='
    && Run(s, t + 1, u, IsSpace) && u < |s| && (s[u] == '?' || s[u] == '_')
  }

  /** Where a match whose answer mark starts at `u` ends: after the `?`, or after the
      run of underscores. */
  function MarkEnd(s: string, u: nat): (e: nat)
    requires u < |s| && (s[u] == '?' || s[u] == '_')
    ensures u < e <= |s|
  {
    if s[u] == '?' then u + 1 else SpanWhile(s, u, IsUnderscore)
  }

  /** The captured digits and operator glyph of one match. */
  datatype Match = Match(left: string, glyph: char, right: string)

  /** The match starting exactly at `p`, with the position after it. The pattern never
      gains from backtracking: a shorter digit or space run would leave a digit or a
      space where the pattern needs something else, so greedy runs decide it. */
  function MatchAt(s: string, p: nat): (r: Option<(Match, nat)>)
    requires p <= |s|
    ensures r.Some? ==> p < r.value.1 <= |s|
    ensures r.Some? ==>
      var m := r.value.0;
      |m.left| >= 1 && AllDigits(m.left) && |m.right| >= 1 && AllDigits(m.right)
      && IsOpGlyph(m.glyph) && p + |m.left| <= |s| && s[p..p + |m.left|] == m.left
  {
    var e1 := SpanWhile(s, p, IsDigit);
    if e1 == p then None
    else
      var q := SpanWhile(s, e1, IsSpace);
      if q == |s| || !IsOpGlyph(s[q]) then None
      else
        var r0 := SpanWhile(s, q + 1, IsSpace);
        var e2 := SpanWhile(s, r0, IsDigit);
        if e2 == r0 then None
        else
          var t := SpanWhile(s, e2, IsSpace);
          if t == |s| || s[t] != '=' then None
          else
            var u := SpanWhile(s, t + 1, IsSpace);
            var m := Match(s[p..e1], s[q], s[r0..e2]);
            if u == |s| || (s[u] != '?' && s[u] != '_') then None
            else Some((m, MarkEnd(s, u)))
  }

  /** A match is found only where the text has the pattern's shape, and its captures
      are the shape's digit runs and operator. */
  lemma MatchAtShape(s: string, p: nat)
    requires p <= |s| && MatchAt(s, p).Some?
    ensures exists e1: nat, q: nat, r0: nat, e2: nat, t: nat, u: nat ::
      && Shape(s, p, e1, q, r0, e2, t, u)
      && MatchAt(s, p).value == (Match(s[p..e1], s[q], s[r0..e2]), MarkEnd(s, u))
  {
    var e1 := SpanWhile(s, p, IsDigit);
    var q := SpanWhile(s, e1, IsSpace);
    var r0 := SpanWhile(s, q + 1, IsSpace);
    var e2 := SpanWhile(s, r0, IsDigit);
    var t := SpanWhile(s, e2, IsSpace);
    var u := SpanWhile(s, t + 1, IsSpace);
    assert p < e1 && q < |s| && IsOpGlyph(s[q]) && r0 < e2;
    assert t < |s| && s[t] == '=' && u < |s| && (s[u] == '?' || s[u] == '_');
    var m := (Match(s[p..e1], s[q], s[r0..e2]), MarkEnd(s, u));
    assert MatchAt(s, p).value == m;
    ShapeOfSpans(s, p, e1, q, r0, e2, t, u);
  }

  /** The greedy runs the matcher measures, with the characters it checks between
      them, form the pattern's shape. */
  lemma ShapeOfSpans(s: string, p: nat, e1: nat, q: nat, r0: nat, e2: nat, t: nat, u: nat)
    requires p <= |s| && e1 == SpanWhile(s, p, IsDigit) && q == SpanWhile(s, e1, IsSpace)
    requires q < |s| && r0 == SpanWhile(s, q + 1, IsSpace) && e2 == SpanWhile(s, r0, IsDigit)
    requires t == SpanWhile(s, e2, IsSpace)
    requires t < |s| && u == SpanWhile(s, t + 1, IsSpace)
    requires p < e1 && IsOpGlyph(s[q]) && r0 < e2 && s[t] == '='
    requires u < |s| && (s[u] == '?' || s[u] == '_')
    ensures Shape(s, p, e1, q, r0, e2, t, u)
  {
  }

  /** Conversely, wherever the text has the pattern's shape the match is found, with
      exactly those captures: each run is already as long as it can be, since the
      character after it cannot continue it. */
  lemma MatchAtOfShape(s: string, p: nat, e1: nat, q: nat, r0: nat, e2: nat, t: nat, u: nat)
    requires Shape(s, p, e1, q, r0, e2, t, u)
    ensures MatchAt(s, p) == Some((Match(s[p..e1], s[q], s[r0..e2]), MarkEnd(s, u)))
  {
    LeftSpansOfShape(s, p, e1, q, r0, e2, t, u);
    RightSpansOfShape(s, p, e1, q, r0, e2, t, u);
  }

  /** The runs up to the second operand's digits end where the shape says. */
  lemma LeftSpansOfShape(s: string, p: nat, e1: nat, q: nat, r0: nat, e2: nat, t: nat, u: nat)
    requires Shape(s, p, e1, q, r0, e2, t, u)
    ensures SpanWhile(s, p, IsDigit) == e1 && SpanWhile(s, e1, IsSpace) == q
    ensures SpanWhile(s, q + 1, IsSpace) == r0
  {
    assert !IsDigit(s[e1]) by {
      if e1 < q { assert IsSpace(s[e1]); }
    }
    SpanWhileStops(s, p, e1, IsDigit);
    SpanWhileStops(s, e1, q, IsSpace);
    assert !IsSpace(s[r0]) by { assert IsDigit(s[r0]); }
    SpanWhileStops(s, q + 1, r0, IsSpace);
  }

  /** The runs from the second operand's digits on end where the shape says. */
  lemma RightSpansOfShape(s: string, p: nat, e1: nat, q: nat, r0: nat, e2: nat, t: nat, u: nat)
    requires Shape(s, p, e1, q, r0, e2, t, u)
    ensures SpanWhile(s, r0, IsDigit) == e2 && SpanWhile(s, e2, IsSpace) == t
    ensures SpanWhile(s, t + 1, IsSpace) == u
  {
    assert !IsDigit(s[e2]) by {
      if e2 < t { assert IsSpace(s[e2]); }
    }
    SpanWhileStops(s, r0, e2, IsDigit);
    SpanWhileStops(s, e2, t, IsSpace);
    SpanWhileStops(s, t + 1, u, IsSpace);
  }

  /** `k` is the first position at or after `p` where a match starts. */
  predicate LeftmostMatch(s: string, p: nat, k: nat)
    requires p <= |s|
  {
    p <= k < |s| && MatchAt(s, k).Some? && forall i :: p <= i < k ==> MatchAt(s, i).None?
  }

  /** The `exec` loop from `p`: the leftmost match at or after `p`, then the search
      resumes where that match ended. */
  function ScanFrom(s: string, p: nat): (ms: seq<Match>)
    requires p <= |s|
    ensures forall i :: 0 <= i < |ms| ==>
      |ms[i].left| >= 1 && AllDigits(ms[i].left) && |ms[i].right| >= 1 && AllDigits(ms[i].right)
      && IsOpGlyph(ms[i].glyph)
    decreases |s| - p
  {
    if p == |s| then []
    else
      match MatchAt(s, p)
      case Some((m, e)) => [m] + ScanFrom(s, e)
      case None => ScanFrom(s, p + 1)
  }

  lemma ScanFromAtMatch(s: string, p: nat)
    requires p < |s| && MatchAt(s, p).Some?
    ensures ScanFrom(s, p) == [MatchAt(s, p).value.0] + ScanFrom(s, MatchAt(s, p).value.1)
  {
  }

  lemma ScanFromSkip(s: string, p: nat)
    requires p < |s| && MatchAt(s, p).None?
    ensures ScanFrom(s, p) == ScanFrom(s, p + 1)
  {
  }

  /** The scan finds nothing exactly when no match starts at or after `p`. */
  lemma {:induction false} ScanFromEmpty(s: string, p: nat)
    requires p <= |s|
    ensures ScanFrom(s, p) == [] <==> forall k :: p <= k < |s| ==> MatchAt(s, k).None?
    decreases |s| - p
  {
    if p == |s| {
    } else if MatchAt(s, p).Some? {
      ScanFromAtMatch(s, p);
    } else {
      ScanFromSkip(s, p);
      ScanFromEmpty(s, p + 1);
      if forall k :: p + 1 <= k < |s| ==> MatchAt(s, k).None? {
        forall k | p <= k < |s| ensures MatchAt(s, k).None? {
          if k == p { } else { assert p + 1 <= k; }
        }
      }
    }
  }

  /** Otherwise the scan takes the leftmost match and resumes where that match ends. */
  lemma {:induction false} ScanFromLeftmost(s: string, p: nat)
    requires p <= |s| && ScanFrom(s, p) != []
    ensures exists k :: && LeftmostMatch(s, p, k)
                        && ScanFrom(s, p) == [MatchAt(s, k).value.0] + ScanFrom(s, MatchAt(s, k).value.1)
    decreases |s| - p
  {
    if MatchAt(s, p).None? {
      ScanFromSkip(s, p);
      ScanFromLeftmost(s, p + 1);
      var k :| LeftmostMatch(s, p + 1, k)
        && ScanFrom(s, p + 1) == [MatchAt(s, k).value.0] + ScanFrom(s, MatchAt(s, k).value.1);
      assert LeftmostMatch(s, p, k);
    } else {
      ScanFromAtMatch(s, p);
      assert LeftmostMatch(s, p, p);
    }
  }

  function Scan(s: string): seq<Match> {
    ScanFrom(s, 0)
  }

  /** Where each part of a canonical problem text sits. */
  lemma ProblemTextLayout(A: string, g: char, B: string, s: string)
    requires s == A + " " + [g] + " " + B + " = ?"
    ensures |s| == |A| + |B| + 7
    ensures s[..|A|] == A && s[|A| + 3..|A| + 3 + |B|] == B
    ensures s[|A|] == ' ' && s[|A| + 1] == g && s[|A| + 2] == ' '
    ensures s[|A| + 3 + |B|] == ' ' && s[|A| + 4 + |B|] == '=' && s[|A| + 5 + |B|] == ' '
    ensures s[|A| + 6 + |B|] == '?'
  {
    assert s == (A + [' ', g, ' ']) + (B + [' ', '=', ' ', '?']);
    assert s[..|A|] == A;
    assert s[|A| + 3..] == B + [' ', '=', ' ', '?'];
    assert s[|A| + 3..][..|B|] == B;
  }

  /** The character layout of a canonical problem text with operands of `la` and `lb`
      digits: digits, space, operator, space, digits, space, `=`, space, `?`. */
  predicate CanonicalLayout(s: string, la: nat, lb: nat) {
    && |s| == la + lb + 7 && la >= 1 && lb >= 1
    && (forall k :: 0 <= k < la ==> IsDigit(s[k]))
    && s[la] == ' ' && IsOpGlyph(s[la + 1]) && s[la + 2] == ' '
    && (forall k :: la + 3 <= k < la + 3 + lb ==> IsDigit(s[k]))
    && s[la + 3 + lb] == ' ' && s[la + 4 + lb] == '=' && s[la + 5 + lb] == ' '
    && s[la + 6 + lb] == '?'
  }

  lemma LayoutOfProblemText(A: string, g: char, B: string, s: string)
    requires |A| >= 1 && AllDigits(A) && |B| >= 1 && AllDigits(B) && IsOpGlyph(g)
    requires s == A + " " + [g] + " " + B + " = ?"
    ensures CanonicalLayout(s, |A|, |B|)
    ensures s[..|A|] == A && s[|A| + 3..|A| + 3 + |B|] == B && s[|A| + 1] == g
  {
    ProblemTextLayout(A, g, B, s);
    assert forall k :: 0 <= k < |A| ==> s[k] == s[..|A|][k];
    var lo := |A| + 3;
    forall k | lo <= k < lo + |B| ensures IsDigit(s[k]) {
      assert s[k] == s[lo..lo + |B|][k - lo];
    }
  }

  /** Every run the matcher measures in a canonical layout ends where the layout says. */
  lemma SpansOfLayout(s: string, la: nat, lb: nat)
    requires CanonicalLayout(s, la, lb)
    ensures SpanWhile(s, 0, IsDigit) == la
    ensures SpanWhile(s, la, IsSpace) == la + 1
    ensures SpanWhile(s, la + 2, IsSpace) == la + 3
    ensures SpanWhile(s, la + 3, IsDigit) == la + 3 + lb
    ensures SpanWhile(s, la + 3 + lb, IsSpace) == la + 4 + lb
    ensures SpanWhile(s, la + 5 + lb, IsSpace) == la + 6 + lb
  {
    LayoutIsShape(s, la, lb);
    LeftSpansOfShape(s, 0, la, la + 1, la + 3, la + 3 + lb, la + 4 + lb, la + 6 + lb);
    RightSpansOfShape(s, 0, la, la + 1, la + 3, la + 3 + lb, la + 4 + lb, la + 6 + lb);
  }

  /** A canonical layout is one instance of the pattern's shape. */
  lemma LayoutIsShape(s: string, la: nat, lb: nat)
    requires CanonicalLayout(s, la, lb)
    ensures Shape(s, 0, la, la + 1, la + 3, la + 3 + lb, la + 4 + lb, la + 6 + lb)
  {
  }

  /** A canonical layout is one match that spans the whole text. */
  lemma MatchAtLayout(s: string, la: nat, lb: nat)
    requires CanonicalLayout(s, la, lb)
    ensures MatchAt(s, 0) == Some((Match(s[..la], s[la + 1], s[la + 3..la + 3 + lb]), |s|))
  {
    SpansOfLayout(s, la, lb);
  }

  /** Scanning a canonical problem text finds exactly its operands and operator. */
  lemma ScanProblemText(a: nat, op: Op, b: nat)
    ensures Scan(ProblemText(a, op, b)) == [Match(NatToString(a), Glyph(op), NatToString(b))]
  {
    var s := ProblemText(a, op, b);
    var A, B := NatToString(a), NatToString(b);
    ProblemTextOfNats(a, op, b);
    ScanLayout(s, |A|, |B|);
  }

  /** The text of a problem with non-negative operands has the canonical layout, with
      the operands' digits and the operator's glyph in their places. */
  lemma ProblemTextOfNats(a: nat, op: Op, b: nat)
    ensures var s, A, B := ProblemText(a, op, b), NatToString(a), NatToString(b);
      && CanonicalLayout(s, |A|, |B|)
      && s[..|A|] == A && s[|A| + 1] == Glyph(op) && s[|A| + 3..|A| + 3 + |B|] == B
  {
    var A, B := NatToString(a), NatToString(b);
    assert IntToString(a) == A && IntToString(b) == B;
    LayoutOfProblemText(A, Glyph(op), B, ProblemText(a, op, b));
  }

  /** A canonical layout scans as its one match. */
  lemma ScanLayout(s: string, la: nat, lb: nat)
    requires CanonicalLayout(s, la, lb)
    ensures Scan(s) == [Match(s[..la], s[la + 1], s[la + 3..la + 3 + lb])]
  {
    MatchAtLayout(s, la, lb);
    assert ScanFrom(s, |s|) == [];
  }

  /** One match of `importFromWord`: the operator is normalised, the grade inferred,
      and a zero divisor makes the calculation throw and the match be skipped. */
  function WordProblem(m: Match, index: nat, now: int): (r: Option<Problem>)
    ensures IsOpGlyph(m.glyph) && AllDigits(m.left) && AllDigits(m.right) ==>
      (r.Some? <==> !(m.glyph == '÷' && ParseDecimal(m.right) == 0))
    ensures r.Some? ==> Imported(r.value) && r.value.id == now + index
    ensures r.Some? ==>
      && AllDigits(m.left) && AllDigits(m.right)
      && r.value.num1 == ParseDecimal(m.left) && r.value.num2 == ParseDecimal(m.right)
      && ParseOp(Normalize([m.glyph])) == Some(r.value.op)
      && r.value.grade == DetermineGrade(ParseDecimal(m.left), ParseDecimal(m.right))
  {
    if !(AllDigits(m.left) && AllDigits(m.right)) then None
    else
      var num1 := ParseDecimal(m.left);
      var num2 := ParseDecimal(m.right);
      var opText := Normalize([m.glyph]);
      match CalculateAnswer(num1, num2, opText)
      case Failure(_) => None
      case Success(answer) =>
        Build(num1, num2, opText, answer, DetermineGrade(num1, num2), now + index)
  }

  /** A scanned match is skipped exactly when it divides by zero. */
  predicate MatchAccepted(m: Match)
    requires AllDigits(m.right)
  {
    !(m.glyph == '÷' && ParseDecimal(m.right) == 0)
  }

  /** `importFromWord`: the problems of every match in text order, skipping only
      divisions by zero; it fails when nothing survives. */
  function ImportWord(text: string, now: int): (r: Result<seq<Problem>, ImportError>)
    ensures var ms := Scan(text);
      r.Failure? <==> forall i :: 0 <= i < |ms| ==> !MatchAccepted(ms[i])
    ensures r.Failure? ==> r.error == NoValidProblems
    ensures r.Success? ==> forall j :: 0 <= j < |r.value| ==>
      Imported(r.value[j]) && r.value[j].id == now + j
    ensures r.Success? ==> r.value == WordProblems(Scan(text), now)
  {
    WordProblemsFacts(Scan(text), now);
    var ps := WordProblems(Scan(text), now);
    if |ps| == 0 then Failure(NoValidProblems) else Success(ps)
  }

  /** The problems of the accepted matches, numbered from the clock reading. */
  function WordProblems(ms: seq<Match>, now: int): seq<Problem> {
    Collect(ms, (m: Match, k: nat) => WordProblem(m, k, now), [])
  }

  lemma WordProblemsFacts(ms: seq<Match>, now: int)
    requires forall i :: 0 <= i < |ms| ==>
      IsOpGlyph(ms[i].glyph) && AllDigits(ms[i].left) && AllDigits(ms[i].right)
    ensures var ps := WordProblems(ms, now);
      && (|ps| == 0 <==> forall i :: 0 <= i < |ms| ==> !MatchAccepted(ms[i]))
      && |ps| <= |ms|
      && forall j :: 0 <= j < |ps| ==> Imported(ps[j]) && ps[j].id == now + j
  {
    var f := (m: Match, k: nat) => WordProblem(m, k, now);
    var ps := WordProblems(ms, now);
    assert ps == Collect(ms, f, []);
    CollectProvenance(ms, f, []);
    if i :| 0 <= i < |ms| && MatchAccepted(ms[i]) {
      CollectKeeps(ms, f, [], i);
    }
    forall j | 0 <= j < |ps| ensures Imported(ps[j]) && ps[j].id == now + j {
      var i :| 0 <= i < |ms| && f(ms[i], j) == Some(ps[j]);
    }
  }

  /** One more match adds exactly its own problem, numbered after those before it. */
  lemma WordProblemsAppend(ms: seq<Match>, m: Match, now: int)
    ensures WordProblems(ms + [m], now)
         == WordProblems(ms, now) + Kept(WordProblem(m, |WordProblems(ms, now)|, now))
  {
    CollectAppend(ms, m, (m: Match, k: nat) => WordProblem(m, k, now), []);
  }

  /** A canonical problem text of non-negative operands imports as that same problem. */
  lemma ImportWordOfProblemText(a: nat, op: Op, b: nat, now: int)
    requires !(op == Div && b == 0)
    ensures ImportWord(ProblemText(a, op, b), now) == Success([Problem(now, a, b, op,
      ProblemGenerator.CalculateAnswer(a, b, op), DetermineGrade(a, b), "medium",
      ProblemText(a, op, b))])
  {
    var m := Match(NatToString(a), Glyph(op), NatToString(b));
    ScanProblemText(a, op, b);
    ParseDecimalOfNatToString(a);
    ParseDecimalOfNatToString(b);
    ParseOpOfGlyph(op);
    var f := (m: Match, k: nat) => WordProblem(m, k, now);
    var p := WordProblem(m, 0, now);
    assert p.Some?;
    assert WordProblems([m], now) == Collect([m], f, []) == Collect([], f, [p.value]);
  }

  // ---------------------------------------------------------------------------
  // Dispatch on the file name.

  /** The position of the last `c` in `s`. */
  function LastIndexOf(s: string, c: char): (r: Option<nat>)
    ensures r.Some? ==> r.value < |s| && s[r.value] == c && c !in s[r.value + 1..]
    ensures r.None? ==> c !in s
  {
    if |s| == 0 then None
    else if s[|s| - 1] == c then Some(|s| - 1)
    else
      var r := LastIndexOf(s[..|s| - 1], c);
      assert s == s[..|s| - 1] + [s[|s| - 1]];
      if r.Some? then
        assert s[r.value + 1..] == s[..|s| - 1][r.value + 1..] + [s[|s| - 1]];
        r
      else r
  }

  /** The part of a path after its last `/`. */
  function Basename(path: string): (b: string)
    ensures '/' !in b
  {
    match LastIndexOf(path, '/')
    case None => path
    case Some(i) => path[i + 1..]
  }

  /** `path.extname`: from the last `.` of the base name to its end, or empty when the
      base name has no `.`, only a leading one, or is `..`. */
  function ExtName(path: string): (e: string)
    ensures e == "" || e[0] == '.'
    ensures e != "" ==> '.' !in e[1..]
  {
    var base := Basename(path);
    match LastIndexOf(base, '.')
    case None => ""
    case Some(d) =>
      if d == 0 || base == ".." then "" else base[d..]
  }

  function LowerChar(c: char): char {
    if 'A' <= c <= 'Z' then (c as int + 32) as char else c
  }

  /** `toLowerCase` on the letters an extension test can see. */
  function ToLower(s: string): (r: string)
    ensures |r| == |s| && forall i :: 0 <= i < |s| ==> r[i] == LowerChar(s[i])
  {
    seq(|s|, i requires 0 <= i < |s| => LowerChar(s[i]))
  }

  /** An uploaded file: its original name, and what the CSV parser or the document
      text extractor makes of its content. */
  datatype Upload = Upload(originalName: string, rows: seq<Row>, text: string)

  /** `importFromFile`: `.csv` and `.docx` in any letter case go to their importers,
      every other extension is rejected. */
  function ImportFromFile(file: Upload, now: int): (r: Result<seq<Problem>, ImportError>)
    ensures var ext := ToLower(ExtName(file.originalName));
      && (ext == ".csv" ==> r == ImportCsv(file.rows, now))
      && (ext == ".docx" ==> r == ImportWord(file.text, now))
      && (r == Failure(UnsupportedFormat) <==> ext != ".csv" && ext != ".docx")
    ensures r.Success? ==> |r.value| >= 1 && forall j :: 0 <= j < |r.value| ==> Imported(r.value[j])
  {
    var ext := ToLower(ExtName(file.originalName));
    if ext == ".csv" then ImportCsv(file.rows, now)
    else if ext == ".docx" then ImportWord(file.text, now)
    else Failure(UnsupportedFormat)
  }

  /** `ExtName(x + [c] + y)` finds the `c` before `y` when `y` has none. */
  lemma {:induction false} LastIndexOfSplit(x: string, c: char, y: string)
    requires c !in y
    ensures LastIndexOf(x + [c] + y, c) == Some(|x|)
    decreases |y|
  {
    var s := x + [c] + y;
    if |y| > 0 {
      assert s[..|s| - 1] == x + [c] + y[..|y| - 1];
      assert s[|s| - 1] == y[|y| - 1];
      LastIndexOfSplit(x, c, y[..|y| - 1]);
    }
  }

  /** A file name `stem.ext` with a non-empty stem and extension and no directory part
      has the extension `.ext`. */
  lemma ExtNameOfStem(stem: string, ext: string)
    requires |stem| >= 1 && |ext| >= 1
    requires '/' !in stem && '/' !in ext && '.' !in ext
    ensures ExtName(stem + "." + ext) == "." + ext
  {
    var name := stem + "." + ext;
    assert '/' !in name by {
      assert forall k :: 0 <= k < |name| ==> name[k] == '/' ==> false by {
        forall k | 0 <= k < |name| ensures name[k] != '/' {
          if k < |stem| { assert name[k] == stem[k]; }
          else if k > |stem| { assert name[k] == ext[k - |stem| - 1]; }
        }
      }
    }
    assert Basename(name) == name;
    LastIndexOfSplit(stem, '.', ext);
    assert name[|stem|..] == "." + ext;
  }

  /** Any file named `stem.csv` or `stem.CSV` goes to the CSV importer. */
  lemma CsvNamesDispatchToCsv(stem: string, file: Upload, now: int)
    requires |stem| >= 1 && '/' !in stem
    requires file.originalName == stem + ".csv" || file.originalName == stem + ".CSV"
    ensures ImportFromFile(file, now) == ImportCsv(file.rows, now)
  {
    var ext := if file.originalName == stem + ".csv" then "csv" else "CSV";
    assert file.originalName == stem + "." + ext;
    ExtNameOfStem(stem, ext);
    LowerCsv(ext);
  }

  lemma LowerCsv(ext: string)
    requires ext == "csv" || ext == "CSV"
    ensures ToLower("." + ext) == ".csv"
  {
    var lowered := ToLower("." + ext);
    assert lowered[0] == '.' && lowered[1] == 'c' && lowered[2] == 's' && lowered[3] == 'v';
  }
}
