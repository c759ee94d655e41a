/**
 * The grade aggregator (`grade_calc`) and the decisions `print_grade_table`
 * takes before rendering. Python's `float()` is an abstract parser
 * returning None where Python raises ValueError; arithmetic is on reals.
 */
module Grades {
  import opened Wrappers
  import opened Selector
  import opened Classifier

  /** `float(s)`: None stands for ValueError. */
  type FloatParser = string -> Option<real>

  /** `s.split(' ')[0]`. */
  function FirstToken(s: string): string {
    if s == [] || s[0] == ' ' then [] else [s[0]] + FirstToken(s[1..])
  }

  /** The first token is the longest prefix without a space. */
  lemma {:induction false} FirstTokenIsLongestPrefix(s: string)
    ensures FirstToken(s) <= s && ' ' !in FirstToken(s)
    ensures |FirstToken(s)| < |s| ==> s[|FirstToken(s)|] == ' '
  {
    if s != [] && s[0] != ' ' {
      FirstTokenIsLongestPrefix(s[1..]);
    }
  }

  /** How one row counts: not at all, or with its credit and score. */
  datatype Share = Skip | Share(credit: real, score: real)

  /** Credit-weighted score sum and credit sum. */
  datatype Totals = Totals(weighted: real, credits: real)

  function Add(a: Totals, b: Totals): Totals {
    Totals(a.weighted + b.weighted, a.credits + b.credits)
  }

  /**
   * Lines 187-189: the credit and score a row counts with, or Skip when its
   * score is empty or `--`, or when either number does not parse.
   */
  function Contribution(g: GradeRow, parse: FloatParser): Share {
    if g.score != "" && g.score != "--" then
      match parse(g.credit)
      case None => Skip
      case Some(c) =>
        match parse(FirstToken(g.score))
        case None => Skip
        case Some(x) => Share(c, x)
    else Skip
  }

  /** Lines 188-189: a counted row adds credit times score, and credit. */
  function Extend(t: Totals, o: Share): Totals {
    match o
    case Skip => t
    case Share(c, x) => Totals(t.weighted + c * x, t.credits + c)
  }

  function RowTotals(rows: seq<GradeRow>, parse: FloatParser): Totals {
    if rows == [] then Totals(0.0, 0.0)
    else Extend(RowTotals(rows[..|rows| - 1], parse), Contribution(rows[|rows| - 1], parse))
  }

  lemma ExtendAdd(a: Totals, t: Totals, o: Share)
    ensures Extend(Add(a, t), o) == Add(a, Extend(t, o))
  {
  }

  function TableTotals(table: seq<seq<GradeRow>>, parse: FloatParser): Totals {
    if table == [] then Totals(0.0, 0.0)
    else Add(TableTotals(table[..|table| - 1], parse), RowTotals(table[|table| - 1], parse))
  }

  /** Lines 192-195: the weighted mean, or 0 when no credit was counted. */
  function Average(t: Totals): real {
    if t.credits != 0.0 then t.weighted / t.credits else 0.0
  }

  /** All categories' rows, in order. */
  function Flatten(table: seq<seq<GradeRow>>): seq<GradeRow> {
    if table == [] then [] else Flatten(table[..|table| - 1]) + table[|table| - 1]
  }

  /**
   * `grade_calc`: over every category and row, add credit times score and
   * credit for each row that counts; the mean is 0 when no credit counted.
   */
  method GradeCalc(table: seq<seq<GradeRow>>, parse: FloatParser) returns (avg: real, credits: real)
    ensures credits == TableTotals(table, parse).credits
    ensures avg == Average(TableTotals(table, parse))
    ensures credits != 0.0 ==> avg * credits == TableTotals(table, parse).weighted
    ensures credits == 0.0 ==> avg == 0.0
  {
    var gradesum := 0.0;
    var scoresum := 0.0;
    for c := 0 to |table|
      invariant Totals(gradesum, scoresum) == TableTotals(table[..c], parse)
    {
      var cat := table[c];
      assert table[..c + 1][..c] == table[..c];
      for j := 0 to |cat|
        invariant Totals(gradesum, scoresum) == Add(TableTotals(table[..c], parse), RowTotals(cat[..j], parse))
      {
        var g := cat[j];
        ghost var o := Contribution(g, parse);
        ghost var before := Totals(gradesum, scoresum);
        if g.score != "" && g.score != "--" {
          var credit := parse(g.credit);
          if credit.Some? {
            var score := parse(FirstToken(g.score));
            if score.Some? {
              gradesum := gradesum + credit.value * score.value;
              scoresum := scoresum + credit.value;
              assert o == Share(credit.value, score.value);
              assert Extend(before, o) == Totals(before.weighted + credit.value * score.value, before.credits + credit.value);
            } else {
              assert o == Skip;
            }
          } else {
            assert o == Skip;
          }
        } else {
          assert o == Skip;
        }
        assert Totals(gradesum, scoresum) == Extend(before, o);
        assert cat[..j + 1][..j] == cat[..j];
        ExtendAdd(TableTotals(table[..c], parse), RowTotals(cat[..j], parse), o);
      }
      assert cat[..|cat|] == cat;
    }
    assert table[..|table|] == table;
    credits := scoresum;
    if scoresum != 0.0 {
      avg := gradesum / scoresum;
    } else {
      avg := 0.0;
    }
  }

  lemma {:induction false} RowTotalsConcat(a: seq<GradeRow>, b: seq<GradeRow>, parse: FloatParser)
    ensures RowTotals(a + b, parse) == Add(RowTotals(a, parse), RowTotals(b, parse))
  {
    if b == [] {
      assert a + b == a;
    } else {
      assert (a + b)[..|a + b| - 1] == a + b[..|b| - 1];
      assert (a + b)[|a + b| - 1] == b[|b| - 1];
      RowTotalsConcat(a, b[..|b| - 1], parse);
      ExtendAdd(RowTotals(a, parse), RowTotals(b[..|b| - 1], parse), Contribution(b[|b| - 1], parse));
    }
  }

  /** The split into categories does not matter: the sums are those of all rows together. */
  lemma {:induction false} TableTotalsFlatten(table: seq<seq<GradeRow>>, parse: FloatParser)
    ensures TableTotals(table, parse) == RowTotals(Flatten(table), parse)
  {
    if table != [] {
      TableTotalsFlatten(table[..|table| - 1], parse);
      RowTotalsConcat(Flatten(table[..|table| - 1]), table[|table| - 1], parse);
    }
  }

  /** The rows that count, in order. */
  function Counted(rows: seq<GradeRow>, parse: FloatParser): seq<GradeRow> {
    if rows == [] then []
    else Counted(rows[..|rows| - 1], parse)
         + (if Contribution(rows[|rows| - 1], parse).Share? then [rows[|rows| - 1]] else [])
  }

  /**
   * A row adds to both sums or to neither: dropping every row that does
   * not count (empty or `--` score, unparsable number) changes nothing.
   */
  lemma {:induction false} SkippedRowsIgnored(rows: seq<GradeRow>, parse: FloatParser)
    ensures RowTotals(Counted(rows, parse), parse) == RowTotals(rows, parse)
  {
    if rows != [] {
      var init := rows[..|rows| - 1];
      var last := rows[|rows| - 1];
      SkippedRowsIgnored(init, parse);
      if Contribution(last, parse).Share? {
        var counted := Counted(init, parse) + [last];
        assert counted[..|counted| - 1] == Counted(init, parse);
        assert counted[|counted| - 1] == last;
        assert RowTotals(counted, parse) == Extend(RowTotals(Counted(init, parse), parse), Contribution(last, parse));
      } else {
        assert Counted(rows, parse) == Counted(init, parse) + [];
        assert Counted(rows, parse) == Counted(init, parse);
        assert RowTotals(rows, parse) == Extend(RowTotals(init, parse), Skip);
      }
    }
  }

  /** Every counted row has positive credit and a score in `[lo, hi]`. */
  predicate ScoresWithin(rows: seq<GradeRow>, parse: FloatParser, lo: real, hi: real) {
    forall k :: 0 <= k < |rows| && Contribution(rows[k], parse).Share? ==>
      Contribution(rows[k], parse).credit > 0.0 &&
      lo <= Contribution(rows[k], parse).score <= hi
  }

  /** Bounds `lo * credits <= weighted <= hi * credits` on non-negative credits. */
  predicate Bounded(t: Totals, lo: real, hi: real) {
    t.credits >= 0.0 && lo * t.credits <= t.weighted <= hi * t.credits
  }

  /** One counted row with positive credit and a score in `[lo, hi]` keeps the bounds. */
  lemma ExtendBounded(t: Totals, c: real, x: real, lo: real, hi: real)
    requires Bounded(t, lo, hi) && c > 0.0 && lo <= x <= hi
    ensures Bounded(Extend(t, Share(c, x)), lo, hi)
  {
  }

  lemma {:induction false} WeightedWithin(rows: seq<GradeRow>, parse: FloatParser, lo: real, hi: real)
    requires ScoresWithin(rows, parse, lo, hi)
    ensures Bounded(RowTotals(rows, parse), lo, hi)
  {
    if rows != [] {
      var init := rows[..|rows| - 1];
      var o := Contribution(rows[|rows| - 1], parse);
      assert ScoresWithin(init, parse, lo, hi) by {
        forall k | 0 <= k < |init| ensures init[k] == rows[k] { }
      }
      WeightedWithin(init, parse, lo, hi);
      if o.Share? {
        ExtendBounded(RowTotals(init, parse), o.credit, o.score, lo, hi);
      }
    }
  }

  /** A quotient `w / c` with `c > 0` and `lo * c <= w <= hi * c` lies in `[lo, hi]`. */
  lemma QuotientWithin(w: real, c: real, lo: real, hi: real)
    requires c > 0.0 && lo * c <= w <= hi * c
    ensures lo <= w / c <= hi
  {
  }

  /**
   * With positive credits and scores in `[lo, hi]`, the mean lies in
   * `[lo, hi]` as soon as any credit counted.
   */
  lemma AverageWithin(rows: seq<GradeRow>, parse: FloatParser, lo: real, hi: real)
    requires ScoresWithin(rows, parse, lo, hi)
    requires RowTotals(rows, parse).credits != 0.0
    ensures lo <= Average(RowTotals(rows, parse)) <= hi
  {
    WeightedWithin(rows, parse, lo, hi);
    var t := RowTotals(rows, parse);
    QuotientWithin(t.weighted, t.credits, lo, hi);
  }

  /** Lines 240-244: whether any requested category has a row. */
  method HasGrades(gradeTable: seq<seq<GradeRow>>) returns (flag: bool)
    ensures flag <==> exists k :: 0 <= k < |gradeTable| && gradeTable[k] != []
  {
    flag := false;
    for k := 0 to |gradeTable|
      invariant forall j :: 0 <= j < k ==> gradeTable[j] == []
    {
      if gradeTable[k] != [] {
        flag := true;
        return;
      }
    }
  }

  /** Lines 246-249: the rows added to the displayed table, category by category. */
  method ListRows(gradeTable: seq<seq<GradeRow>>) returns (rows: seq<GradeRow>)
    ensures rows == Flatten(gradeTable)
  {
    rows := [];
    for c := 0 to |gradeTable|
      invariant rows == Flatten(gradeTable[..c])
    {
      var cat := gradeTable[c];
      assert gradeTable[..c + 1][..c] == gradeTable[..c];
      for j := 0 to |cat|
        invariant rows == Flatten(gradeTable[..c]) + cat[..j]
      {
        assert cat[..j + 1] == cat[..j] + [cat[j]];
        rows := rows + [cat[j]];
      }
      assert cat[..|cat|] == cat;
    }
    assert gradeTable[..|gradeTable|] == gradeTable;
  }

  /** What `print_grade_table` shows, short of the table layout. */
  datatype GradeReport = GradeReport(categories: string, rows: seq<GradeRow>, avg: real, credits: real)

  /**
   * `print_grade_table`: normalise the selector, classify, and fail (None)
   * when every requested category came back empty; otherwise list every row
   * in category order and aggregate a second classification of the page.
   */
  method PrintGradeTable(table: seq<Row>, selector: string, parse: FloatParser) returns (report: Option<GradeReport>)
    ensures var cats := NormalizeSelector(selector);
            var grades := SpecifiedGrades(table, cats);
            && (report.None? <==> forall k :: 0 <= k < |grades| ==> grades[k] == [])
            && (report.Some? ==> report.value == GradeReport(cats, Flatten(grades),
                  Average(TableTotals(grades, parse)), TableTotals(grades, parse).credits))
  {
    var cats := NormalizeSelector(selector);
    var gradeTable := GetSpecifiedGrade(table, cats);
    var flag := HasGrades(gradeTable);
    if !flag {
      return None;
    }
    var rows := ListRows(gradeTable);
    var again := GetSpecifiedGrade(table, cats);
    var avg, credits := GradeCalc(again, parse);
    report := Some(GradeReport(cats, rows, avg, credits));
  }
}
