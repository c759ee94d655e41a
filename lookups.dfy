/**
 * The two first-match lookups: `determine_semester_id`, which finds a
 * semester by its `year:term` selector, and `course_no2id`, which finds an
 * electable course by its number. The pages the candidates come from are
 * inputs; the program's `exit()` on a miss is the None result.
 */
module Lookups {
  import opened Wrappers

  /** Python's `s.split(sep)` for a one-character separator: the pieces between separators. */
  function Split(s: string, sep: char): (parts: seq<string>)
    ensures |parts| >= 1
  {
    if s == [] then [[]]
    else
      var rest := Split(s[..|s| - 1], sep);
      if s[|s| - 1] == sep then rest + [[]]
      else rest[..|rest| - 1] + [rest[|rest| - 1] + [s[|s| - 1]]]
  }

  /** `sep.join(parts)`. */
  function Join(parts: seq<string>, sep: char): string
    requires |parts| >= 1
  {
    if |parts| == 1 then parts[0] else Join(parts[..|parts| - 1], sep) + [sep] + parts[|parts| - 1]
  }

  /** Joining the pieces again gives back the string. */
  lemma {:induction false} JoinSplit(s: string, sep: char)
    ensures Join(Split(s, sep), sep) == s
  {
    if s != [] {
      var init := s[..|s| - 1];
      var rest := Split(init, sep);
      JoinSplit(init, sep);
      if s[|s| - 1] == sep {
        assert (rest + [[]])[..|rest|] == rest;
      } else {
        var r2 := rest[..|rest| - 1] + [rest[|rest| - 1] + [s[|s| - 1]]];
        assert r2[..|r2| - 1] == rest[..|rest| - 1];
        if |rest| > 1 {
          assert rest == rest[..|rest| - 1] + [rest[|rest| - 1]];
        }
        assert s == init + [s[|s| - 1]];
      }
    }
  }

  /** No piece holds the separator. */
  lemma {:induction false} SplitPiecesFree(s: string, sep: char)
    ensures forall k :: 0 <= k < |Split(s, sep)| ==> sep !in Split(s, sep)[k]
  {
    if s != [] {
      SplitPiecesFree(s[..|s| - 1], sep);
    }
  }

  /** Splitting a string without the separator gives the string alone. */
  lemma {:induction false} SplitFree(s: string, sep: char)
    requires sep !in s
    ensures Split(s, sep) == [s]
  {
    if s != [] {
      SplitFree(s[..|s| - 1], sep);
      assert s == s[..|s| - 1] + [s[|s| - 1]];
    }
  }

  /** Appending a separator-free tail extends the last piece. */
  lemma {:induction false} SplitAppendFree(a: string, b: string, sep: char)
    requires sep !in b
    ensures Split(a + b, sep) ==
      Split(a, sep)[..|Split(a, sep)| - 1] + [Split(a, sep)[|Split(a, sep)| - 1] + b]
  {
    if b == [] {
      assert a + b == a;
      var ra := Split(a, sep);
      assert ra[|ra| - 1] + b == ra[|ra| - 1];
      assert ra == ra[..|ra| - 1] + [ra[|ra| - 1]];
    } else {
      var b' := b[..|b| - 1];
      assert (a + b)[..|a + b| - 1] == a + b';
      assert (a + b)[|a + b| - 1] == b[|b| - 1];
      SplitAppendFree(a, b', sep);
      assert b[|b| - 1] in b;
      var ra := Split(a, sep);
      var rest := Split(a + b', sep);
      assert rest[..|rest| - 1] == ra[..|ra| - 1];
      assert rest[|rest| - 1] == ra[|ra| - 1] + b';
      assert b == b' + [b[|b| - 1]];
      assert ra[|ra| - 1] + b' + [b[|b| - 1]] == ra[|ra| - 1] + b;
    }
  }

  /**
   * Splitting undoes joining, for pieces that do not hold the separator:
   * `Split` and `Join` are inverse to each other.
   */
  lemma {:induction false} SplitJoin(parts: seq<string>, sep: char)
    requires |parts| >= 1 && forall k :: 0 <= k < |parts| ==> sep !in parts[k]
    ensures Split(Join(parts, sep), sep) == parts
  {
    if |parts| == 1 {
      SplitFree(parts[0], sep);
    } else {
      var init := parts[..|parts| - 1];
      SplitJoin(init, sep);
      var j := Join(init, sep) + [sep];
      assert Split(j, sep) == init + [[]] by {
        assert j[..|j| - 1] == Join(init, sep);
      }
      SplitAppendFree(j, parts[|parts| - 1], sep);
      assert (init + [[]])[..|init|] == init;
      assert (init + [[]])[|init|] + parts[|parts| - 1] == parts[|parts| - 1];
      assert parts == init + [parts[|parts| - 1]];
    }
  }

  /** A semester on the course-table page: `(id, schoolYear, name)`. */
  datatype SemesterInfo = SemesterInfo(id: string, schoolYear: string, name: string)

  /** Line 150: `list(i)[1:] == semester`, the selector split at `:`. */
  predicate SemesterMatches(s: SemesterInfo, parts: seq<string>) {
    parts == [s.schoolYear, s.name]
  }

  /**
   * `determine_semester_id` (lines 144-154): the id of the first semester
   * whose school year and term name are the selector's two `:`-separated
   * pieces; None where the program exits.
   */
  method DetermineSemesterId(semesters: seq<SemesterInfo>, selector: string) returns (r: Option<string>)
    ensures r.None? <==> forall k :: 0 <= k < |semesters| ==> !SemesterMatches(semesters[k], Split(selector, ':'))
    ensures r.Some? ==> exists k :: (0 <= k < |semesters| && SemesterMatches(semesters[k], Split(selector, ':')) &&
                                     r.value == semesters[k].id &&
                                     forall j :: 0 <= j < k ==> !SemesterMatches(semesters[j], Split(selector, ':')))
  {
    var parts := Split(selector, ':');
    for k := 0 to |semesters|
      invariant forall j :: 0 <= j < k ==> !SemesterMatches(semesters[j], parts)
    {
      if [semesters[k].schoolYear, semesters[k].name] == parts {
        return Some(semesters[k].id);
      }
    }
    return None;
  }

  /**
   * A `year:term` selector, neither part holding a colon, matches exactly
   * the semesters of that year and term.
   */
  lemma SelectorMatches(s: SemesterInfo, year: string, term: string)
    requires ':' !in year && ':' !in term
    ensures SemesterMatches(s, Split(year + ":" + term, ':')) <==> s.schoolYear == year && s.name == term
  {
    assert year + ":" + term == Join([year, term], ':') by {
      assert [year, term][..1] == [year];
    }
    SplitJoin([year, term], ':');
  }

  /** A selector without a colon matches no semester. */
  lemma SelectorNeedsColon(s: SemesterInfo, selector: string)
    requires ':' !in selector
    ensures !SemesterMatches(s, Split(selector, ':'))
  {
    SplitFree(selector, ':');
  }

  /** A course on the election page: `(id, no, name, teachers, rooms)`. */
  datatype ElectableCourse = ElectableCourse(id: string, no: string, name: string, teachers: string, rooms: string)

  /**
   * `course_no2id` (lines 386-393): the id of the first course whose number
   * is `courseNo`; None where the program exits.
   */
  method CourseNoToId(courses: seq<ElectableCourse>, courseNo: string) returns (r: Option<string>)
    ensures r.None? <==> forall k :: 0 <= k < |courses| ==> courses[k].no != courseNo
    ensures r.Some? ==> exists k :: (0 <= k < |courses| && courses[k].no == courseNo &&
                                     r.value == courses[k].id &&
                                     forall j :: 0 <= j < k ==> courses[j].no != courseNo)
  {
    for k := 0 to |courses|
      invariant forall j :: 0 <= j < k ==> courses[j].no != courseNo
    {
      if courses[k].no == courseNo {
        return Some(courses[k].id);
      }
    }
    return None;
  }
}
