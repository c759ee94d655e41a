/**
 * The join step of `get_course_info` and its helper `tuple_conv`: the
 * course pattern's matches (start offset plus the two captured groups), the
 * teacher list and a finder for the time-slot pattern are inputs; the
 * regular expressions themselves are not modelled.
 */
module Courses {
  import opened Wrappers
  import opened Numbers

  /** One match of the course pattern: where it starts in the page, the course name and the room. */
  datatype CourseMatch = CourseMatch(start: nat, name: string, room: string)

  /** A converted time-slot capture: the weekday index and the period index. */
  datatype Meeting = Meeting(day: int, period: int)

  /** One element of `get_course_info`'s result: `course_info[k] + [teacher_name[k]] + course[k]`. */
  datatype CourseEntry = CourseEntry(name: string, room: string, teacher: string, meetings: seq<Meeting>)

  /**
   * How `get_course_info` fails: `int()` raising on a captured string, the
   * IndexError of `course_pos[i+1]` when only one course matched, and the
   * IndexError of `teacher_name[k]` when there are fewer teachers than courses.
   */
  datatype CourseError = BadNumber(text: string) | OneCourseMatch | MissingTeacher(index: nat)

  /**
   * `course_time_pattern.findall(page, pos, endpos)`: the (day, period)
   * captures of the time-slot pattern inside `[pos, endpos)`.
   */
  type SlotFinder = (nat, nat) -> seq<(string, string)>

  /**
   * A list comprehension whose elements may raise: the values in order, or
   * the first element's exception.
   */
  function Collect<T, E>(rs: seq<Result<T, E>>): Result<seq<T>, E> {
    if rs == [] then Ok([])
    else match Collect(rs[..|rs| - 1])
      case Err(e) => Err(e)
      case Ok(vs) =>
        match rs[|rs| - 1]
        case Err(e) => Err(e)
        case Ok(v) => Ok(vs + [v])
  }

  /** Once a prefix has failed, the whole comprehension fails the same way. */
  lemma {:induction false} CollectErrPrefix<T, E>(rs: seq<Result<T, E>>, k: nat)
    requires k <= |rs| && Collect(rs[..k]).Err?
    ensures Collect(rs) == Collect(rs[..k])
    decreases |rs| - k
  {
    if k < |rs| {
      assert rs[..k + 1][..k] == rs[..k];
      CollectErrPrefix(rs, k + 1);
    } else {
      assert rs[..k] == rs;
    }
  }

  lemma {:induction false} CollectLength<T, E>(rs: seq<Result<T, E>>)
    ensures Collect(rs).Ok? ==> |Collect(rs).value| == |rs|
  {
    if rs != [] {
      CollectLength(rs[..|rs| - 1]);
    }
  }

  /**
   * A comprehension succeeds exactly when every element does, and then holds
   * every element's value in order; otherwise it fails with the first failure.
   */
  lemma {:induction false} CollectMeaning<T, E>(rs: seq<Result<T, E>>)
    ensures Collect(rs).Ok? <==> forall k :: 0 <= k < |rs| ==> rs[k].Ok?
    ensures Collect(rs).Ok? ==>
      |Collect(rs).value| == |rs| && forall k :: 0 <= k < |rs| ==> rs[k] == Ok(Collect(rs).value[k])
    ensures Collect(rs).Err? ==>
      exists k :: 0 <= k < |rs| && rs[k] == Err(Collect(rs).error) && forall j :: 0 <= j < k ==> rs[j].Ok?
  {
    if rs != [] {
      var init := rs[..|rs| - 1];
      CollectMeaning(init);
      assert forall k :: 0 <= k < |init| ==> init[k] == rs[k];
      if Collect(init).Err? {
        var k :| 0 <= k < |init| && init[k] == Err(Collect(init).error) && forall j :: 0 <= j < k ==> init[j].Ok?;
        assert rs[k] == Err(Collect(rs).error);
      }
    }
  }

  lemma CollectPair<T, E>(x: Result<T, E>, y: Result<T, E>)
    ensures Collect([x, y]) ==
      match x
      case Err(e) => Err(e)
      case Ok(u) => (match y case Err(e) => Err(e) case Ok(v) => Ok([u, v]))
  {
    assert [x, y][..1] == [x];
    assert [x][..0] == [];
    match x
    case Err(e) =>
      assert Collect([x]) == Err(e);
    case Ok(u) =>
      assert Collect([x]) == Ok([] + [u]);
      assert [] + [u] == [u];
      if y.Ok? {
        assert [u] + [y.value] == [u, y.value];
      }
  }

  /** `int(s)`, raising with the string it rejects. */
  function IntOf(s: string): Result<int, string> {
    match ParseInt(s)
    case None => Err(s)
    case Some(n) => Ok(n)
  }

  /** `int(i) for i in strs`, each element on its own. */
  function IntsOf(strs: seq<string>): (rs: seq<Result<int, string>>)
    ensures |rs| == |strs| && forall k :: 0 <= k < |strs| ==> rs[k] == IntOf(strs[k])
  {
    seq(|strs|, k requires 0 <= k < |strs| => IntOf(strs[k]))
  }

  /** `tuple_conv` as a value: the integers, or the first string `int()` rejects. */
  function IntTuple(strs: seq<string>): Result<seq<int>, string> {
    Collect(IntsOf(strs))
  }

  /** `tuple_conv` (lines 120-124): convert each captured string with `int()`, in order. */
  method TupleConv(strs: seq<string>) returns (r: Result<seq<int>, string>)
    ensures r == IntTuple(strs)
  {
    ghost var rs := IntsOf(strs);
    var ints: seq<int> := [];
    for k := 0 to |strs|
      invariant Collect(rs[..k]) == Ok(ints)
    {
      assert rs[..k + 1][..k] == rs[..k];
      var n := ParseInt(strs[k]);
      if n.None? {
        assert Collect(rs[..k + 1]) == Err(strs[k]);
        CollectErrPrefix(rs, k + 1);
        return Err(strs[k]);
      }
      ints := ints + [n.value];
    }
    assert rs[..|strs|] == rs;
    r := Ok(ints);
  }

  /**
   * `tuple_conv` succeeds exactly when every string is an integer literal,
   * and then yields each string's integer in order; otherwise it reports the
   * first string that is not one.
   */
  lemma IntTupleMeaning(strs: seq<string>)
    ensures IntTuple(strs).Ok? <==> forall k :: 0 <= k < |strs| ==> ParseInt(strs[k]).Some?
    ensures IntTuple(strs).Ok? ==>
      |IntTuple(strs).value| == |strs| &&
      forall k :: 0 <= k < |strs| ==> ParseInt(strs[k]) == Some(IntTuple(strs).value[k])
    ensures IntTuple(strs).Err? ==>
      exists k :: 0 <= k < |strs| && strs[k] == IntTuple(strs).error && ParseInt(strs[k]).None? &&
        forall j :: 0 <= j < k ==> ParseInt(strs[j]).Some?
  {
    var rs := IntsOf(strs);
    CollectMeaning(rs);
    assert forall k :: 0 <= k < |strs| ==> (rs[k].Ok? <==> ParseInt(strs[k]).Some?);
    if IntTuple(strs).Err? {
      var k :| 0 <= k < |rs| && rs[k] == Err(Collect(rs).error) && forall j :: 0 <= j < k ==> rs[j].Ok?;
      assert strs[k] == IntTuple(strs).error && ParseInt(strs[k]).None?;
    }
  }

  /** Canonical decimal strings convert back to the integers they show. */
  lemma IntTupleShowInt(strs: seq<string>, ns: seq<int>)
    requires |strs| == |ns| && forall k :: 0 <= k < |ns| ==> strs[k] == ShowInt(ns[k])
    ensures IntTuple(strs) == Ok(ns)
  {
    forall k | 0 <= k < |ns|
      ensures ParseInt(strs[k]) == Some(ns[k])
    {
      ParseShowInt(ns[k]);
    }
    IntTupleMeaning(strs);
    assert IntTuple(strs).value == ns;
  }

  /** One time-slot capture through `tuple_conv`: weekday first, then period. */
  function ToMeeting(p: (string, string)): Result<Meeting, string> {
    match IntOf(p.0)
    case Err(e) => Err(e)
    case Ok(day) =>
      match IntOf(p.1)
      case Err(e) => Err(e)
      case Ok(period) => Ok(Meeting(day, period))
  }

  /** `tuple_conv` on a pair of captures agrees with `ToMeeting`. */
  lemma IntTuplePair(p: (string, string))
    ensures IntTuple([p.0, p.1]).Ok? <==> ToMeeting(p).Ok?
    ensures ToMeeting(p).Ok? ==> IntTuple([p.0, p.1]).value == [ToMeeting(p).value.day, ToMeeting(p).value.period]
    ensures ToMeeting(p).Err? ==> IntTuple([p.0, p.1]).error == ToMeeting(p).error
  {
    assert IntsOf([p.0, p.1]) == [IntOf(p.0), IntOf(p.1)];
    CollectPair(IntOf(p.0), IntOf(p.1));
  }

  /** `[tuple_conv(i) for i in captures]`: the meetings, or the first string `int()` rejects. */
  function Meetings(captures: seq<(string, string)>): Result<seq<Meeting>, string> {
    Collect(MeetingsOf(captures))
  }

  function MeetingsOf(captures: seq<(string, string)>): (rs: seq<Result<Meeting, string>>)
    ensures |rs| == |captures| && forall k :: 0 <= k < |captures| ==> rs[k] == ToMeeting(captures[k])
  {
    seq(|captures|, k requires 0 <= k < |captures| => ToMeeting(captures[k]))
  }

  /** The comprehensions at lines 222-223 and 224: convert every capture found in `[lo, hi)`. */
  method DecodeWindow(finder: SlotFinder, lo: nat, hi: nat) returns (r: Result<seq<Meeting>, string>)
    ensures r == Meetings(finder(lo, hi))
  {
    var captures := finder(lo, hi);
    ghost var rs := MeetingsOf(captures);
    var ms: seq<Meeting> := [];
    for k := 0 to |captures|
      invariant Collect(rs[..k]) == Ok(ms)
    {
      assert rs[..k + 1][..k] == rs[..k];
      var ns := TupleConv([captures[k].0, captures[k].1]);
      IntTuplePair(captures[k]);
      if ns.Err? {
        assert Collect(rs[..k + 1]) == Err(ns.error);
        CollectErrPrefix(rs, k + 1);
        return Err(ns.error);
      }
      ms := ms + [Meeting(ns.value[0], ns.value[1])];
    }
    assert rs[..|captures|] == rs;
    r := Ok(ms);
  }

  /**
   * The slot window of course `k`: from its own start to the next course's
   * start, and to the end of the page for the last course.
   */
  function Window(starts: seq<nat>, len: nat, k: nat): (w: (nat, nat))
    requires k < |starts|
  {
    if k + 1 < |starts| then (starts[k], starts[k + 1]) else (starts[k], len)
  }

  /** Offsets of successive matches grow strictly and stay within the page. */
  predicate Ascending(starts: seq<nat>, len: nat) {
    (forall k :: 0 < k < |starts| ==> starts[k - 1] < starts[k]) &&
    (starts != [] ==> starts[|starts| - 1] <= len)
  }

  /** The windows are non-empty intervals, each ending where the next begins. */
  lemma WindowsContiguous(starts: seq<nat>, len: nat)
    requires Ascending(starts, len)
    ensures forall k :: 0 <= k < |starts| ==> Window(starts, len, k).0 <= Window(starts, len, k).1
    ensures forall k :: 0 < k < |starts| ==> Window(starts, len, k - 1).1 == Window(starts, len, k).0
    ensures starts != [] ==> Window(starts, len, 0).0 == starts[0]
    ensures starts != [] ==> Window(starts, len, |starts| - 1).1 == len
  {
  }

  /** Start offsets below `starts[m]` belong to earlier matches. */
  lemma {:induction false} StartsBelow(starts: seq<nat>, len: nat, j: nat, m: nat)
    requires Ascending(starts, len) && j < m < |starts|
    ensures starts[j] < starts[m]
    decreases m - j
  {
    if j + 1 < m {
      StartsBelow(starts, len, j + 1, m);
    }
  }

  /** Disjoint: an offset lies in at most one window. */
  lemma WindowsDisjoint(starts: seq<nat>, len: nat, j: nat, k: nat, x: nat)
    requires Ascending(starts, len) && j < k < |starts|
    requires Window(starts, len, j).0 <= x < Window(starts, len, j).1
    ensures !(Window(starts, len, k).0 <= x < Window(starts, len, k).1)
  {
    if j + 1 < k {
      StartsBelow(starts, len, j + 1, k);
    }
  }

  /** Covering: every offset from the first match to the end of the page lies in some window. */
  lemma {:induction false} WindowsCover(starts: seq<nat>, len: nat, x: nat)
    requires Ascending(starts, len) && starts != [] && starts[0] <= x < len
    ensures exists k :: 0 <= k < |starts| && Window(starts, len, k).0 <= x < Window(starts, len, k).1
  {
    if |starts| == 1 || x < starts[1] {
      assert Window(starts, len, 0).0 <= x < Window(starts, len, 0).1;
    } else {
      var rest := starts[1..];
      assert Ascending(rest, len) by {
        assert forall k :: 0 < k < |rest| ==> rest[k - 1] == starts[k] && rest[k] == starts[k + 1];
      }
      WindowsCover(rest, len, x);
      var k :| 0 <= k < |rest| && Window(rest, len, k).0 <= x < Window(rest, len, k).1;
      assert Window(rest, len, k) == Window(starts, len, k + 1);
    }
  }

  function Starts(matches: seq<CourseMatch>): (starts: seq<nat>)
    ensures |starts| == |matches| && forall k :: 0 <= k < |matches| ==> starts[k] == matches[k].start
  {
    seq(|matches|, k requires 0 <= k < |matches| => matches[k].start)
  }

  /** The meetings in the window of course `k`. */
  function WindowMeetings(matches: seq<CourseMatch>, finder: SlotFinder, len: nat, k: nat): Result<seq<Meeting>, string>
    requires k < |matches|
  {
    var w := Window(Starts(matches), len, k);
    Meetings(finder(w.0, w.1))
  }

  /** `course`: every window's meetings, or the first string `int()` rejects. */
  function Slots(matches: seq<CourseMatch>, finder: SlotFinder, len: nat): Result<seq<seq<Meeting>>, string> {
    Collect(WindowsOf(matches, finder, len))
  }

  function WindowsOf(matches: seq<CourseMatch>, finder: SlotFinder, len: nat): (rs: seq<Result<seq<Meeting>, string>>)
    ensures |rs| == |matches| && forall k :: 0 <= k < |matches| ==> rs[k] == WindowMeetings(matches, finder, len, k)
  {
    seq(|matches|, k requires 0 <= k < |matches| => WindowMeetings(matches, finder, len, k))
  }

  /**
   * The join the code intends (lines 216-227): course `k` is the `k`-th
   * match with the `k`-th teacher and the meetings of its window. A failing
   * window is reported before a missing teacher, as in the code.
   */
  function CourseInfo(matches: seq<CourseMatch>, teachers: seq<string>, finder: SlotFinder, len: nat)
    : Result<seq<CourseEntry>, CourseError>
  {
    match Slots(matches, finder, len)
    case Err(e) => Err(BadNumber(e))
    case Ok(course) =>
      if |teachers| < |matches| || |course| != |matches| then Err(MissingTeacher(|teachers|))
      else Ok(Join(matches, teachers, course))
  }

  /** `course_info[k] + [teacher_name[k]] + course[k]` for every `k`. */
  function Join(matches: seq<CourseMatch>, teachers: seq<string>, course: seq<seq<Meeting>>): (r: seq<CourseEntry>)
    requires |matches| <= |teachers| && |matches| <= |course|
    ensures |r| == |matches| && forall k :: 0 <= k < |matches| ==>
      r[k] == CourseEntry(matches[k].name, matches[k].room, teachers[k], course[k])
  {
    seq(|matches|, k requires 0 <= k < |matches| =>
      CourseEntry(matches[k].name, matches[k].room, teachers[k], course[k]))
  }

  /**
   * One entry per match, in order: the match's name and room, the teacher
   * at the same index and the converted captures of the match's window; the
   * join fails exactly when a window holds a non-integer or teachers run out.
   */
  lemma CourseInfoMeaning(matches: seq<CourseMatch>, teachers: seq<string>, finder: SlotFinder, len: nat)
    ensures CourseInfo(matches, teachers, finder, len).Ok? <==>
      |teachers| >= |matches| &&
      forall k :: 0 <= k < |matches| ==> WindowMeetings(matches, finder, len, k).Ok?
    ensures CourseInfo(matches, teachers, finder, len).Ok? ==>
      var r := CourseInfo(matches, teachers, finder, len).value;
      |r| == |matches| &&
      forall k :: 0 <= k < |matches| ==>
        r[k] == CourseEntry(matches[k].name, matches[k].room, teachers[k], WindowMeetings(matches, finder, len, k).value)
  {
    CollectMeaning(WindowsOf(matches, finder, len));
  }

  /**
   * The join as written: with exactly one match, `i` is still 0 from line
   * 219 when line 224 reads `course_pos[i+1]`, so the call fails.
   */
  function CourseInfoAsWritten(matches: seq<CourseMatch>, teachers: seq<string>, finder: SlotFinder, len: nat)
    : Result<seq<CourseEntry>, CourseError>
  {
    if |matches| == 1 then Err(OneCourseMatch) else CourseInfo(matches, teachers, finder, len)
  }

  /**
   * The code agrees with the intended join except with exactly one match,
   * where it fails even though the intended join (the one window running
   * to the end of the page) succeeds whenever a teacher is there and the
   * captures are integers.
   */
  lemma OneMatchDiffers(matches: seq<CourseMatch>, teachers: seq<string>, finder: SlotFinder, len: nat)
    ensures |matches| != 1 ==> CourseInfoAsWritten(matches, teachers, finder, len) == CourseInfo(matches, teachers, finder, len)
    ensures |matches| == 1 ==> CourseInfoAsWritten(matches, teachers, finder, len) == Err(OneCourseMatch)
    ensures |matches| == 1 && |teachers| >= 1 && Meetings(finder(matches[0].start, len)).Ok? ==>
      CourseInfo(matches, teachers, finder, len) ==
      Ok([CourseEntry(matches[0].name, matches[0].room, teachers[0], Meetings(finder(matches[0].start, len)).value)])
  {
    if |matches| == 1 && |teachers| >= 1 && Meetings(finder(matches[0].start, len)).Ok? {
      assert WindowMeetings(matches, finder, len, 0) == Meetings(finder(matches[0].start, len));
      CourseInfoMeaning(matches, teachers, finder, len);
      assert CourseInfo(matches, teachers, finder, len).value ==
        [CourseEntry(matches[0].name, matches[0].room, teachers[0], Meetings(finder(matches[0].start, len)).value)];
    }
  }

  /** A page with a single course and a single teacher, on which the code fails. */
  lemma OneMatchExample(finder: SlotFinder)
    requires finder(0, 10) == []
    ensures CourseInfoAsWritten([CourseMatch(0, "C", "R")], ["T"], finder, 10) == Err(OneCourseMatch)
    ensures CourseInfo([CourseMatch(0, "C", "R")], ["T"], finder, 10) == Ok([CourseEntry("C", "R", "T", [])])
  {
    OneMatchDiffers([CourseMatch(0, "C", "R")], ["T"], finder, 10);
  }

  /**
   * Lines 219-224 as written: decode each window but the last in a loop
   * whose index outlives it, then the last window from `course_pos[i+1]`.
   */
  method DecodeWindows(matches: seq<CourseMatch>, finder: SlotFinder, len: nat)
    returns (r: Result<seq<seq<Meeting>>, CourseError>)
    ensures |matches| == 1 ==> r == Err(OneCourseMatch)
    ensures |matches| != 1 ==> r == match Slots(matches, finder, len) case Err(e) => Err(BadNumber(e)) case Ok(c) => Ok(c)
  {
    ghost var ws := WindowsOf(matches, finder, len);
    var course: seq<seq<Meeting>> := [];
    if matches != [] {
      var i := 0;
      for k := 0 to |matches| - 1
        invariant i == (if k == 0 then 0 else k - 1)
        invariant Collect(ws[..k]) == Ok(course)
      {
        assert ws[..k + 1][..k] == ws[..k];
        var window := DecodeWindow(finder, matches[k].start, matches[k + 1].start);
        assert ws[k] == window;
        if window.Err? {
          assert Collect(ws[..k + 1]) == Err(window.error);
          CollectErrPrefix(ws, k + 1);
          return Err(BadNumber(window.error));
        }
        course := course + [window.value];
        i := k;
      }
      if i + 1 >= |matches| {
        return Err(OneCourseMatch);
      }
      assert ws[..i + 2] == ws && ws[..i + 2][..i + 1] == ws[..i + 1];
      var window := DecodeWindow(finder, matches[i + 1].start, len);
      assert ws[i + 1] == window;
      if window.Err? {
        return Err(BadNumber(window.error));
      }
      course := course + [window.value];
    } else {
      assert ws == [];
    }
    r := Ok(course);
  }

  /**
   * `get_course_info`'s join (lines 216-227) as written: the windows'
   * meetings, then one entry per match with the teacher at the same index.
   */
  method GetCourseInfo(matches: seq<CourseMatch>, teachers: seq<string>, finder: SlotFinder, len: nat)
    returns (r: Result<seq<CourseEntry>, CourseError>)
    ensures r == CourseInfoAsWritten(matches, teachers, finder, len)
  {
    var slots := DecodeWindows(matches, finder, len);
    if slots.Err? {
      return Err(slots.error);
    }
    CollectLength(WindowsOf(matches, finder, len));
    r := JoinEntries(matches, teachers, slots.value);
  }

  /**
   * Lines 226-227: one entry per match, reading the teacher at the same
   * index; the first index without a teacher raises.
   */
  method JoinEntries(matches: seq<CourseMatch>, teachers: seq<string>, course: seq<seq<Meeting>>)
    returns (r: Result<seq<CourseEntry>, CourseError>)
    requires |course| == |matches|
    ensures |teachers| < |matches| ==> r == Err(MissingTeacher(|teachers|))
    ensures |teachers| >= |matches| ==> r == Ok(Join(matches, teachers, course))
  {
    var result: seq<CourseEntry> := [];
    for k := 0 to |matches|
      invariant k <= |teachers| && |result| == k
      invariant forall j :: 0 <= j < k ==>
        result[j] == CourseEntry(matches[j].name, matches[j].room, teachers[j], course[j])
    {
      if k >= |teachers| {
        return Err(MissingTeacher(k));
      }
      result := result + [CourseEntry(matches[k].name, matches[k].room, teachers[k], course[k])];
    }
    assert result == Join(matches, teachers, course);
    r := Ok(result);
  }
}
