/**
 * `struct_course_table`: a 14 by 7 grid of periods and weekdays, filled in
 * place from the courses' meetings (the last write to a cell wins), then
 * turned into 14 labelled rows of rendered cells. The table layout itself
 * (column headers, rules) is not modelled.
 */
module Schedule {
  import opened Wrappers
  import opened Numbers
  import opened Glyphs
  import opened Courses

  /** The grid's rows (periods of a day) and columns (days of a week). */
  const Periods: nat := 14
  const Days: nat := 7

  /** A cell of `mat`: empty, or the `[name, room, teacher]` of the course written there. */
  datatype Slot = Empty | Occupied(name: string, room: string, teacher: string)

  function SlotOf(c: CourseEntry): Slot {
    Occupied(c.name, c.room, c.teacher)
  }

  /**
   * Python's `xs[k]` on a list of length `len`: a negative `k` counts from
   * the end, and anything outside `[-len, len)` raises IndexError (None).
   */
  function PyIndex(k: int, len: nat): (r: Option<nat>)
    ensures r.Some? <==> -(len as int) <= k < len
    ensures r.Some? ==> r.value == k % len
  {
    if 0 <= k < len then Some(k) else if -(len as int) <= k < 0 then Some(k + len) else None
  }

  /** The cell `mat[period][day]` a meeting writes, or None where Python raises. */
  function Cell(m: Meeting): Option<(nat, nat)> {
    match PyIndex(m.period, Periods)
    case None => None
    case Some(p) =>
      match PyIndex(m.day, Days)
      case None => None
      case Some(d) => Some((p, d))
  }

  /** Whether one of the meetings writes cell `(p, d)`. */
  predicate Writes(ms: seq<Meeting>, p: nat, d: nat) {
    ms != [] && (Writes(ms[..|ms| - 1], p, d) || Cell(ms[|ms| - 1]) == Some((p, d)))
  }

  lemma {:induction false} WritesIff(ms: seq<Meeting>, p: nat, d: nat)
    ensures Writes(ms, p, d) <==> exists i :: 0 <= i < |ms| && Cell(ms[i]) == Some((p, d))
  {
    if ms != [] {
      var init := ms[..|ms| - 1];
      WritesIff(init, p, d);
      assert forall i :: 0 <= i < |init| ==> init[i] == ms[i];
    }
  }

  /** Every meeting of every course names a cell of the grid. */
  predicate InGrid(courses: seq<CourseEntry>) {
    forall k, i :: 0 <= k < |courses| && 0 <= i < |courses[k].meetings| ==> Cell(courses[k].meetings[i]).Some?
  }

  /** The cell after all writes: written by the last course that names it, else empty. */
  function Occupant(courses: seq<CourseEntry>, p: nat, d: nat): Slot {
    if courses == [] then Empty
    else if Writes(courses[|courses| - 1].meetings, p, d) then SlotOf(courses[|courses| - 1])
    else Occupant(courses[..|courses| - 1], p, d)
  }

  /** Line 296: an occupied cell shows `name\nteacher@room`, the name with glyphs replaced. */
  function Render(s: Slot): string {
    match s
    case Empty => ""
    case Occupied(name, room, teacher) => Normalized(name) + "\n" + teacher + "@" + room
  }

  /** Row `p` of the table: its number, then the seven rendered cells. */
  function TableRow(courses: seq<CourseEntry>, p: nat): (row: seq<string>)
    ensures |row| == Days + 1 && row[0] == ShowNat(p + 1)
    ensures forall d :: 0 <= d < Days ==> row[d + 1] == Render(Occupant(courses, p, d))
  {
    [ShowNat(p + 1)] + seq(Days, d requires 0 <= d < Days => Render(Occupant(courses, p, d)))
  }

  function Table(courses: seq<CourseEntry>): (t: seq<seq<string>>)
    ensures |t| == Periods && forall p :: 0 <= p < Periods ==> t[p] == TableRow(courses, p)
  {
    seq(Periods, p requires 0 <= p < Periods => TableRow(courses, p))
  }

  /** Meetings inside the grid's bounds name the cell `(period, day)` itself. */
  lemma CellInRange(m: Meeting)
    requires 0 <= m.day < Days && 0 <= m.period < Periods
    ensures Cell(m) == Some((m.period as nat, m.day as nat))
  {
  }

  /** Python's negative indices wrap: day -1 is the last column, period -14 the first row. */
  lemma CellWraps(m: Meeting)
    requires -(Days as int) <= m.day < 0 && -(Periods as int) <= m.period < 0
    ensures Cell(m) == Some(((m.period + Periods) as nat, (m.day + Days) as nat))
  {
  }

  /** A meeting names no cell exactly when Python's indexing raises. */
  lemma CellNone(m: Meeting)
    ensures Cell(m).None? <==> !(-(Periods as int) <= m.period < Periods) || !(-(Days as int) <= m.day < Days)
  {
  }

  /** A cell is empty exactly when no course's meeting names it. */
  lemma {:induction false} OccupantEmptyIff(courses: seq<CourseEntry>, p: nat, d: nat)
    ensures Occupant(courses, p, d) == Empty <==> forall k :: 0 <= k < |courses| ==> !Writes(courses[k].meetings, p, d)
  {
    if courses != [] {
      var init := courses[..|courses| - 1];
      OccupantEmptyIff(init, p, d);
      assert forall k :: 0 <= k < |init| ==> init[k] == courses[k];
    }
  }

  /** A non-empty cell holds the last course, in list order, that names it. */
  lemma {:induction false} OccupantLastWriter(courses: seq<CourseEntry>, p: nat, d: nat)
    requires Occupant(courses, p, d) != Empty
    ensures exists k :: (0 <= k < |courses| && Writes(courses[k].meetings, p, d) &&
                         Occupant(courses, p, d) == SlotOf(courses[k]) &&
                         forall j :: k < j < |courses| ==> !Writes(courses[j].meetings, p, d))
  {
    var last := |courses| - 1;
    var init := courses[..last];
    if Writes(courses[last].meetings, p, d) {
      assert Occupant(courses, p, d) == SlotOf(courses[last]);
    } else {
      assert Occupant(courses, p, d) == Occupant(init, p, d);
      OccupantLastWriter(init, p, d);
      var k :| 0 <= k < |init| && Writes(init[k].meetings, p, d) &&
        Occupant(init, p, d) == SlotOf(init[k]) &&
        forall j :: k < j < |init| ==> !Writes(init[j].meetings, p, d);
      assert init[k] == courses[k];
      assert forall j :: k < j < |courses| ==> !Writes(courses[j].meetings, p, d) by {
        forall j | k < j < |courses|
          ensures !Writes(courses[j].meetings, p, d)
        {
          if j < last {
            assert init[j] == courses[j];
          }
        }
      }
    }
  }

  /** Rows are numbered 1 to 14, and the labels read back as those numbers. */
  lemma RowLabels(courses: seq<CourseEntry>, p: nat)
    requires p < Periods
    ensures ParseInt(Table(courses)[p][0]) == Some(p + 1)
  {
    assert ShowInt(p + 1) == ShowNat(p + 1);
    ParseShowInt(p + 1);
  }

  /** What the cells after one more course hold, given the cells before it. */
  lemma OccupantSnoc(courses: seq<CourseEntry>, k: nat, p: nat, d: nat)
    requires k < |courses|
    ensures Occupant(courses[..k + 1], p, d) ==
      if Writes(courses[k].meetings, p, d) then SlotOf(courses[k]) else Occupant(courses[..k], p, d)
  {
    assert courses[..k + 1][..k] == courses[..k];
  }

  lemma WritesSnoc(ms: seq<Meeting>, j: nat, p: nat, d: nat)
    requires j < |ms|
    ensures Writes(ms[..j + 1], p, d) <==> Writes(ms[..j], p, d) || Cell(ms[j]) == Some((p, d))
  {
    assert ms[..j + 1][..j] == ms[..j];
  }

  /**
   * Lines 291-292 for one course: write the course into the cell of each
   * of its meetings, in order; false stands for the IndexError of a meeting
   * outside the grid. After a failure the grid holds the writes made before
   * it and is left unspecified: the only caller discards it.
   */
  method PlaceCourse(mat: array2<Slot>, course: CourseEntry) returns (ok: bool)
    requires mat.Length0 == Periods && mat.Length1 == Days
    modifies mat
    ensures ok <==> forall i :: 0 <= i < |course.meetings| ==> Cell(course.meetings[i]).Some?
    ensures ok ==> forall p, d :: 0 <= p < Periods && 0 <= d < Days ==>
      mat[p, d] == if Writes(course.meetings, p, d) then SlotOf(course) else old(mat[p, d])
  {
    for j := 0 to |course.meetings|
      invariant forall p, d :: 0 <= p < Periods && 0 <= d < Days ==>
        mat[p, d] == if Writes(course.meetings[..j], p, d) then SlotOf(course) else old(mat[p, d])
      invariant forall i :: 0 <= i < j ==> Cell(course.meetings[i]).Some?
    {
      var m := course.meetings[j];
      var row := PyIndex(m.period, Periods);
      if row.None? {
        return false;
      }
      var col := PyIndex(m.day, Days);
      if col.None? {
        return false;
      }
      assert Cell(m) == Some((row.value, col.value));
      forall p, d | 0 <= p < Periods && 0 <= d < Days
        ensures Writes(course.meetings[..j + 1], p, d) <==> Writes(course.meetings[..j], p, d) || (p, d) == (row.value, col.value)
      {
        WritesSnoc(course.meetings, j, p, d);
      }
      mat[row.value, col.value] := SlotOf(course);
    }
    assert course.meetings[..|course.meetings|] == course.meetings;
    ok := true;
  }

  /** Lines 294-299 for one row: the heading, then each cell of row `p` rendered. */
  method RenderRow(mat: array2<Slot>, p: nat, heading: string) returns (row: seq<string>)
    requires mat.Length0 == Periods && mat.Length1 == Days && p < Periods
    ensures |row| == Days + 1 && row[0] == heading
    ensures forall d :: 0 <= d < Days ==> row[d + 1] == Render(mat[p, d])
  {
    row := [heading];
    for d := 0 to Days
      invariant |row| == d + 1 && row[0] == heading
      invariant forall e :: 0 <= e < d ==> row[e + 1] == Render(mat[p, e])
    {
      var cell := mat[p, d];
      if cell.Occupied? {
        var name := ReplaceSomeWord(cell.name);
        row := row + [name + "\n" + cell.teacher + "@" + cell.room];
      } else {
        row := row + [""];
      }
    }
  }

  /**
   * `struct_course_table` (lines 285-303): write every meeting's course
   * into `mat[period][day]`, then render each of the 14 rows after its
   * number. None stands for the IndexError of a meeting outside the grid.
   */
  method StructCourseTable(courses: seq<CourseEntry>) returns (r: Option<seq<seq<string>>>)
    ensures r.Some? <==> InGrid(courses)
    ensures r.Some? ==> r.value == Table(courses)
  {
    var mat := new Slot[Periods, Days]((p, d) => Empty);
    for k := 0 to |courses|
      invariant forall p, d :: 0 <= p < Periods && 0 <= d < Days ==> mat[p, d] == Occupant(courses[..k], p, d)
      invariant forall k', i :: 0 <= k' < k && 0 <= i < |courses[k'].meetings| ==> Cell(courses[k'].meetings[i]).Some?
    {
      var ok := PlaceCourse(mat, courses[k]);
      if !ok {
        return None;
      }
      forall p, d | 0 <= p < Periods && 0 <= d < Days
        ensures mat[p, d] == Occupant(courses[..k + 1], p, d)
      {
        OccupantSnoc(courses, k, p, d);
      }
    }
    assert courses[..|courses|] == courses;
    var table: seq<seq<string>> := [];
    var n := 1;
    for p := 0 to Periods
      invariant n == p + 1 && |table| == p
      invariant forall q, d :: 0 <= q < Periods && 0 <= d < Days ==> mat[q, d] == Occupant(courses, q, d)
      invariant forall q :: 0 <= q < p ==> table[q] == TableRow(courses, q)
    {
      var row := RenderRow(mat, p, ShowNat(n));
      forall i | 0 <= i < Days + 1
        ensures row[i] == TableRow(courses, p)[i]
      {
        if i > 0 {
          assert row[(i - 1) + 1] == Render(mat[p, i - 1]);
        }
      }
      assert row == TableRow(courses, p);
      table := table + [row];
      n := n + 1;
    }
    assert table == Table(courses);
    r := Some(table);
  }
}
