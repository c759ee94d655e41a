/**
 * The category classifier of the grade page (`find_course_cat`,
 * `get_grade_info`, `get_specified_grade`). A table row is abstracted to its
 * cell texts and its whole text; the five category headers are found in the
 * row text by substring search.
 */
module Classifier {
  import opened Glyphs
  import opened Selector

  /** One `<tr>` element: the texts of its `<td>` cells and its full text. */
  datatype Row = Row(cells: seq<string>, text: string)

  /** What a grade row keeps: course name, credit and score, as text. */
  datatype GradeRow = GradeRow(name: string, credit: string, score: string)

  /** The five category headers, in category order 1..5. */
  const CourseCategories: seq<string> :=
    ["校公共必修课", "院系公共必修课", "专业必修课", "专业选修课", "任选课"]

  /** `pat` occurs in `text` starting at offset `k`. */
  predicate OccursAt(pat: string, text: string, k: int) {
    0 <= k && k + |pat| <= |text| && text[k..k + |pat|] == pat
  }

  /** The header text of category `i`. */
  function Header(i: int): string
    requires 1 <= i <= 5
  {
    CourseCategories[i - 1]
  }

  /**
   * `find_course_cat(i, content)` read as a truth value (lines 163 and 165
   * test its list of matches for emptiness). The headers hold no
   * regular-expression operators, so a match is a plain occurrence.
   */
  predicate FindCourseCat(i: int, content: string)
    requires 1 <= i <= 5
  {
    Contains(Header(i), content)
  }

  /** Substring search: `pat` occurs in `text` at the front or further on. */
  predicate Contains(pat: string, text: string)
    decreases |text|
  {
    |pat| <= |text| && (text[..|pat|] == pat || (text != [] && Contains(pat, text[1..])))
  }

  /** The search finds `pat` exactly when it occurs at some offset. */
  lemma {:induction false} ContainsIff(pat: string, text: string)
    ensures Contains(pat, text) <==> exists k :: 0 <= k <= |text| - |pat| && OccursAt(pat, text, k)
    decreases |text|
  {
    if |pat| <= |text| && text != [] {
      ContainsIff(pat, text[1..]);
      if text[..|pat|] == pat {
        assert text[0..|pat|] == text[..|pat|];
        assert OccursAt(pat, text, 0);
      }
      if Contains(pat, text[1..]) {
        var k :| 0 <= k <= |text[1..]| - |pat| && OccursAt(pat, text[1..], k);
        assert text[k + 1..k + 1 + |pat|] == text[1..][k..k + |pat|];
        assert OccursAt(pat, text, k + 1);
      }
      if exists k :: 0 <= k <= |text| - |pat| && OccursAt(pat, text, k) {
        var k :| 0 <= k <= |text| - |pat| && OccursAt(pat, text, k);
        if k > 0 {
          assert text[1..][k - 1..k - 1 + |pat|] == text[k..k + |pat|];
          assert OccursAt(pat, text[1..], k - 1);
        } else {
          assert text[..|pat|] == text[0..|pat|];
        }
      }
    } else if |pat| <= |text| {
      assert text[0..|pat|] == text[..|pat|];
      assert OccursAt(pat, text, 0) <==> text[..|pat|] == pat;
    }
  }

  /** A header occurs in a header text only at offset 0 of its own text. */
  lemma HeaderNotInOther(i: int, j: int, k: int)
    requires 1 <= i <= 5 && 1 <= j <= 5 && OccursAt(Header(i), Header(j), k)
    ensures i == j && k == 0
  {
    var h := Header(i);
    var t := Header(j);
    assert t[k] == h[0] && t[k + 2] == h[2] by {
      assert t[k..k + |h|][0] == h[0] && t[k..k + |h|][2] == h[2];
    }
    assert i == 1 || i == 2 || i == 3 || i == 4 || i == 5;
    assert j == 1 || j == 2 || j == 3 || j == 4 || j == 5;
  }

  /**
   * A row whose text is category `j`'s header holds header `i` exactly when
   * `i == j`: no header text occurs inside another one.
   */
  lemma HeaderOnlyItself(i: int, j: int)
    requires 1 <= i <= 5 && 1 <= j <= 5
    ensures FindCourseCat(i, Header(j)) <==> i == j
  {
    ContainsIff(Header(i), Header(j));
    if FindCourseCat(i, Header(j)) {
      var k :| 0 <= k <= |Header(j)| - |Header(i)| && OccursAt(Header(i), Header(j), k);
      HeaderNotInOther(i, j, k);
    } else {
      assert OccursAt(Header(j), Header(j), 0);
    }
  }

  /** Line 161: a row with exactly eight cells is a grade row. */
  predicate IsDataRow(r: Row) {
    |r.cells| == 8
  }

  /** Line 162: cells 2, 3 and 5, the name with its glyphs spelled out. */
  function GradeOf(r: Row): GradeRow
    requires IsDataRow(r)
  {
    GradeRow(Normalized(r.cells[2]), r.cells[3], r.cells[5])
  }

  /** The grade rows of the data rows among `rows`, in document order. */
  function Extract(rows: seq<Row>): seq<GradeRow> {
    if rows == [] then []
    else
      var last := rows[|rows| - 1];
      Extract(rows[..|rows| - 1]) + (if IsDataRow(last) then [GradeOf(last)] else [])
  }

  /** Index of the first row whose text holds header `h`, or `|rows|` if none does. */
  function FirstWith(h: int, rows: seq<Row>): (r: nat)
    requires 1 <= h <= 5
    ensures r <= |rows|
    ensures forall j :: 0 <= j < r ==> !FindCourseCat(h, rows[j].text)
    ensures r < |rows| ==> FindCourseCat(h, rows[r].text)
  {
    if rows == [] then 0
    else if FindCourseCat(h, rows[0].text) then 0
    else 1 + FirstWith(h, rows[1..])
  }

  /** One past the last row whose text holds header `i`, or 0 if none does. */
  function LastStart(i: int, rows: seq<Row>): (r: nat)
    requires 1 <= i <= 5
    ensures r <= |rows|
    ensures r > 0 ==> FindCourseCat(i, rows[r - 1].text)
    ensures forall j :: r <= j < |rows| ==> !FindCourseCat(i, rows[j].text)
  {
    if rows == [] then 0
    else if FindCourseCat(i, rows[|rows| - 1].text) then |rows|
    else LastStart(i, rows[..|rows| - 1])
  }

  /**
   * How many rows the scan for category `i` reads: through the first row
   * holding header `i + 1` when `i < 5`, otherwise all of them.
   */
  function ScanEnd(i: int, rows: seq<Row>): (e: nat)
    requires 1 <= i <= 5
    ensures e <= |rows|
  {
    if i < 5 && FirstWith(i + 1, rows) < |rows| then FirstWith(i + 1, rows) + 1 else |rows|
  }

  /**
   * Reference definition of what the scan for category `i` returns: the
   * grade rows read after the last header-`i` row and up to where the scan
   * stops.
   */
  function Classify(i: int, rows: seq<Row>): seq<GradeRow>
    requires 1 <= i <= 5
  {
    var e := ScanEnd(i, rows);
    Extract(rows[LastStart(i, rows[..e])..e])
  }

  /** Reading one more row extends the extracted grade rows by that row's. */
  lemma ExtractSnoc(rows: seq<Row>, s: nat, k: nat)
    requires s <= k < |rows|
    ensures Extract(rows[s..k + 1]) == Extract(rows[s..k]) + (if IsDataRow(rows[k]) then [GradeOf(rows[k])] else [])
  {
    assert rows[s..k + 1][..k - s] == rows[s..k];
  }

  lemma LastStartSnoc(i: int, rows: seq<Row>, k: nat)
    requires 1 <= i <= 5 && k < |rows|
    ensures LastStart(i, rows[..k + 1]) == if FindCourseCat(i, rows[k].text) then k + 1 else LastStart(i, rows[..k])
  {
  }

  lemma FirstWithAt(h: int, rows: seq<Row>, k: nat)
    requires 1 <= h <= 5 && k < |rows|
    requires forall j :: 0 <= j < k ==> !FindCourseCat(h, rows[j].text)
    requires FindCourseCat(h, rows[k].text)
    ensures FirstWith(h, rows) == k
  {
  }

  /** The scan returns at row `k`: the result is what was gathered through it. */
  lemma ClassifyStopsAt(i: int, rows: seq<Row>, k: nat)
    requires 1 <= i < 5 && k < |rows|
    requires forall j :: 0 <= j < k ==> !FindCourseCat(i + 1, rows[j].text)
    requires FindCourseCat(i + 1, rows[k].text)
    ensures Classify(i, rows) == Gathered(i, rows, k + 1)
  {
  }

  /** The scan reads every row: the result is what was gathered through the last. */
  lemma ClassifyRunsToEnd(i: int, rows: seq<Row>)
    requires 1 <= i <= 5
    requires i < 5 ==> forall j :: 0 <= j < |rows| ==> !FindCourseCat(i + 1, rows[j].text)
    ensures Classify(i, rows) == Gathered(i, rows, |rows|)
  {
    assert rows[..|rows|] == rows;
  }

  /** The accumulator after one row: lines 161-164. */
  function Step(i: int, acc: seq<GradeRow>, r: Row): seq<GradeRow>
    requires 1 <= i <= 5
  {
    if FindCourseCat(i, r.text) then []
    else if IsDataRow(r) then acc + [GradeOf(r)]
    else acc
  }

  /** One step keeps the accumulator equal to the grade rows after the last header. */
  lemma StepKeepsGathered(i: int, rows: seq<Row>, k: nat)
    requires 1 <= i <= 5 && k < |rows|
    ensures Step(i, Gathered(i, rows, k), rows[k])
         == Gathered(i, rows, k + 1)
  {
    LastStartSnoc(i, rows, k);
    if !FindCourseCat(i, rows[k].text) {
      ExtractSnoc(rows, LastStart(i, rows[..k]), k);
    }
  }

  /** What the scan holds after reading the first `k` rows without returning. */
  function Gathered(i: int, rows: seq<Row>, k: nat): seq<GradeRow>
    requires 1 <= i <= 5 && k <= |rows|
  {
    Extract(rows[LastStart(i, rows[..k])..k])
  }

  /** Lines 161-164 for one row: append its grade row, then reset on header `i`. */
  method ReadRow(i: int, acc: seq<GradeRow>, info: Row) returns (result: seq<GradeRow>)
    requires 1 <= i <= 5
    ensures result == Step(i, acc, info)
  {
    result := acc;
    if |info.cells| == 8 {
      var name := ReplaceSomeWord(info.cells[2]);
      result := result + [GradeRow(name, info.cells[3], info.cells[5])];
    }
    if FindCourseCat(i, info.text) {
      result := [];
    }
  }

  /**
   * `get_grade_info` (lines 158-167): read the rows in order, and return on
   * the first row holding header `i + 1` (only for `i < 5`).
   */
  method GetGradeInfo(i: int, table: seq<Row>) returns (result: seq<GradeRow>)
    requires 1 <= i <= 5
    ensures result == Classify(i, table)
  {
    result := [];
    for k := 0 to |table|
      invariant i < 5 ==> forall j :: 0 <= j < k ==> !FindCourseCat(i + 1, table[j].text)
      invariant result == Gathered(i, table, k)
    {
      var info := table[k];
      result := ReadRow(i, result, info);
      StepKeepsGathered(i, table, k);
      if i < 5 && FindCourseCat(i + 1, info.text) {
        ClassifyStopsAt(i, table, k);
        return;
      }
    }
    ClassifyRunsToEnd(i, table);
  }

  lemma {:induction false} ExtractConcat(a: seq<Row>, b: seq<Row>)
    ensures Extract(a + b) == Extract(a) + Extract(b)
  {
    if b == [] {
      assert a + b == a;
    } else {
      assert (a + b)[..|a + b| - 1] == a + b[..|b| - 1];
      ExtractConcat(a, b[..|b| - 1]);
    }
  }

  /**
   * For `i < 5`, nothing after the first row holding header `i + 1` can
   * change the result: the rows that follow it are never read.
   */
  lemma ClassifyIgnoresRowsAfterStop(i: int, rows: seq<Row>, extra: seq<Row>)
    requires 1 <= i < 5 && FirstWith(i + 1, rows) < |rows|
    ensures Classify(i, rows + extra) == Classify(i, rows)
  {
    var all := rows + extra;
    var f := FirstWith(i + 1, rows);
    assert all[f] == rows[f];
    assert forall j :: 0 <= j < f ==> all[j] == rows[j];
    assert FirstWith(i + 1, all) == f;
    assert all[..f + 1] == rows[..f + 1];
  }

  /**
   * For the last category there is no next header: every row is read, so a
   * grade row appended at the end is appended to the result.
   */
  lemma ClassifyLastCategoryReadsToEnd(rows: seq<Row>, r: Row)
    requires IsDataRow(r) && !FindCourseCat(5, r.text)
    ensures Classify(5, rows + [r]) == Classify(5, rows) + [GradeOf(r)]
  {
    var all := rows + [r];
    assert all[..|all|] == all && rows[..|rows|] == rows;
    assert all[..|all| - 1] == rows;
    var s := LastStart(5, all);
    assert s == LastStart(5, rows);
    assert all[s..][..|all[s..]| - 1] == rows[s..];
  }

  /** A row holding header `i` discards everything gathered so far. */
  lemma ClassifyResetsOnHeader(i: int, rows: seq<Row>, h: Row)
    requires 1 <= i <= 5 && FindCourseCat(i, h.text)
    requires i < 5 ==> forall j :: 0 <= j < |rows| ==> !FindCourseCat(i + 1, rows[j].text)
    ensures Classify(i, rows + [h]) == []
  {
  }

  /** No row of `rows` holds header `h`. */
  predicate NoHeader(h: int, rows: seq<Row>)
    requires 1 <= h <= 5
  {
    forall j :: 0 <= j < |rows| ==> !FindCourseCat(h, rows[j].text)
  }

  lemma NoHeaderConcat(h: int, a: seq<Row>, b: seq<Row>)
    requires 1 <= h <= 5 && NoHeader(h, a) && NoHeader(h, b)
    ensures NoHeader(h, a + b)
  {
  }

  lemma {:induction false} FirstWithAfter(h: int, a: seq<Row>, b: seq<Row>)
    requires 1 <= h <= 5 && NoHeader(h, a)
    ensures FirstWith(h, a + b) == |a| + FirstWith(h, b)
  {
    if a == [] {
      assert a + b == b;
    } else {
      assert (a + b)[0] == a[0] && (a + b)[1..] == a[1..] + b;
      FirstWithAfter(h, a[1..], b);
    }
  }

  lemma {:induction false} LastStartBefore(i: int, a: seq<Row>, b: seq<Row>)
    requires 1 <= i <= 5 && NoHeader(i, b)
    ensures LastStart(i, a + b) == LastStart(i, a)
  {
    if b == [] {
      assert a + b == a;
    } else {
      assert (a + b)[|a + b| - 1] == b[|b| - 1];
      assert (a + b)[..|a + b| - 1] == a + b[..|b| - 1];
      LastStartBefore(i, a, b[..|b| - 1]);
    }
  }

  /** The scan stops at `stop`, the first row holding header `i + 1`. */
  lemma ClassifyStopRow(i: int, pre: seq<Row>, stop: Row, after: seq<Row>)
    requires 1 <= i < 5 && NoHeader(i + 1, pre) && FindCourseCat(i + 1, stop.text)
    ensures Classify(i, pre + [stop] + after) == Extract((pre + [stop])[LastStart(i, pre + [stop])..])
  {
    var all := pre + [stop] + after;
    assert all == pre + ([stop] + after);
    FirstWithAfter(i + 1, pre, [stop] + after);
    assert FirstWith(i + 1, [stop] + after) == 0;
    assert all[..|pre| + 1] == pre + [stop];
  }

  /**
   * With a header-`i` row, then only rows holding neither header, then a
   * row holding header `i + 1` that is not itself a grade row, the result is
   * exactly the grade rows strictly between the two headers.
   */
  lemma ClassifyBetweenHeaders(i: int, before: seq<Row>, h: Row, body: seq<Row>, stop: Row, after: seq<Row>)
    requires 1 <= i < 5
    requires NoHeader(i + 1, before) && FindCourseCat(i, h.text) && !FindCourseCat(i + 1, h.text)
    requires NoHeader(i, body) && NoHeader(i + 1, body)
    requires FindCourseCat(i + 1, stop.text) && !FindCourseCat(i, stop.text) && !IsDataRow(stop)
    ensures Classify(i, before + [h] + body + [stop] + after) == Extract(body)
  {
    var head := before + [h];
    NoHeaderConcat(i + 1, before, [h]);
    NoHeaderConcat(i + 1, head, body);
    ClassifyStopRow(i, head + body, stop, after);
    var tail := body + [stop];
    assert head + body + [stop] == head + tail;
    NoHeaderConcat(i, body, [stop]);
    LastStartBefore(i, head, tail);
    assert LastStart(i, head) == |head|;
    assert (head + tail)[|head|..] == tail;
    ExtractConcat(body, [stop]);
    assert Extract([stop]) == [] by { assert [stop][..0] == []; }
  }

  /**
   * The row that stops the scan is read before the stop test: when it is a
   * grade row and does not hold header `i`, it is the last row returned.
   */
  lemma ClassifyKeepsStopRow(i: int, rows: seq<Row>)
    requires 1 <= i < 5 && FirstWith(i + 1, rows) < |rows|
    requires IsDataRow(rows[FirstWith(i + 1, rows)]) && !FindCourseCat(i, rows[FirstWith(i + 1, rows)].text)
    ensures Classify(i, rows) != [] && Classify(i, rows)[|Classify(i, rows)| - 1] == GradeOf(rows[FirstWith(i + 1, rows)])
  {
  }

  /** Without a header-`i` row before the stop, every grade row read is kept. */
  lemma ClassifyWithoutOwnHeader(i: int, rows: seq<Row>)
    requires 1 <= i <= 5 && NoHeader(i, rows[..ScanEnd(i, rows)])
    ensures Classify(i, rows) == Extract(rows[..ScanEnd(i, rows)])
  {
  }

  /** The letters of a normalised selector, each mapped to its category's result, in order. */
  function SpecifiedGrades(table: seq<Row>, sel: string): seq<seq<GradeRow>>
    requires forall k :: 0 <= k < |sel| ==> IsCategoryLetter(sel[k])
  {
    seq(|sel|, k requires 0 <= k < |sel| => Classify(CategoryIndex(sel[k]), table))
  }

  /**
   * `get_specified_grade`: one independent scan of the whole table per
   * letter, in the selector's order.
   */
  method GetSpecifiedGrade(table: seq<Row>, sel: string) returns (result: seq<seq<GradeRow>>)
    requires forall k :: 0 <= k < |sel| ==> IsCategoryLetter(sel[k])
    ensures |result| == |sel|
    ensures forall k :: 0 <= k < |sel| ==> result[k] == Classify(CategoryIndex(sel[k]), table)
    ensures result == SpecifiedGrades(table, sel)
  {
    result := [];
    for k := 0 to |sel|
      invariant |result| == k
      invariant forall j :: 0 <= j < k ==> result[j] == Classify(CategoryIndex(sel[j]), table)
    {
      var rows := GetGradeInfo(CategoryIndex(sel[k]), table);
      result := result + [rows];
    }
  }
}
