# NKU-EAMIS record layer in Dafny

A model of the part of `nkueamis/nkueamis.py` that works on fragments
already taken from the university's academic-affairs pages. That part turns
them into normalised records for display:

- the course-category selector of the grade report and its dispatch (`print_grade_table`, `get_specified_grade`);
- the category classifier over the rows of the grade page (`find_course_cat`, `get_grade_info`);
- the credit-weighted grade aggregator (`grade_calc`);
- the Roman-numeral glyph substitution (`replace_some_word`);
- the positional join of course matches, teachers and time-slot windows (`get_course_info`, `tuple_conv`);
- the 14 by 7 timetable grid (`struct_course_table`);
- the two first-match lookups (`determine_semester_id`, `course_no2id`).

Modules, one per component:

| module | file | models |
|---|---|---|
| `Wrappers` | wrappers.dfy | `Option` and `Result` |
| `Glyphs` | glyphs.dfy | `replace_some_word` |
| `Numbers` | numbers.dfy | Python's `int()` on a string and `str()` on an integer |
| `Selector` | selector.dfy | selector normalisation (lines 233-236) |
| `Classifier` | classifier.dfy | `find_course_cat`, `get_grade_info`, `get_specified_grade` |
| `Grades` | grades.dfy | `grade_calc` and the decisions of `print_grade_table` |
| `Courses` | courses.dfy | `tuple_conv` and the windowing and join of `get_course_info` |
| `Schedule` | schedule.dfy | `struct_course_table` |
| `Lookups` | lookups.dfy | the loops of `determine_semester_id` and `course_no2id` |

The imperative routines are methods with loops and invariants. Each is
proved equal to a reference function, whose properties are lemmas, or
states its property in its ensures (the lookups and `Grades.HasGrades`):

- `get_grade_info`, `grade_calc` and `tuple_conv`;
- the loops of `get_course_info`;
- `replace_some_word`;
- `struct_course_table`, which fills an `array2` in place;
- the lookups.

Inputs that stand in for code this model does not include:

- A grade-page row is a `Row`: its cell texts and its whole text, as BeautifulSoup would give them.
- `float()` is a parameter, a partial function from strings to reals.
- The time-slot pattern's `findall(text, pos, endpos)` is a parameter: it maps a window to the captured string pairs.
- The matches of the course pattern are an input: start offset, name and room.
- The teacher names are an input list.

Behaviour of the code worth knowing:

- `int()` in `tuple_conv` (line 123) raises on a non-integer capture, and the exception leaves `get_course_info`; the capture is not skipped. `Courses.CourseInfo` reports it as `BadNumber`.
- `mat[j[1]][j[0]] = i[:3]` (line 292) raises IndexError for a meeting outside the 14 by 7 grid, unless Python's negative indexing wraps it (day -1 is the last column); the meeting is not skipped. `Schedule.StructCourseTable` returns None exactly when some meeting lies outside `[-7, 7)` for the day or `[-14, 14)` for the period.
- The glyph substitution is applied when a cell is rendered (line 297), not when it is placed. The rendered table is the same either way.

## Model

All paths are in `nkueamis/nkueamis.py`.

| member | source | states |
|---|---|---|
| Glyphs.ReplaceSomeWord | nkueamis/nkueamis.py:128-133 | the four `str.replace` passes in turn equal rewriting every glyph to its ASCII spelling at once |
| Glyphs.PartialNormalizedStep | nkueamis/nkueamis.py:131-132 | pass `n` touches only the characters the earlier passes left alone, because no target spelling contains a glyph |
| Glyphs.NormalizedConcat | nkueamis/nkueamis.py:128-133 | the substitution respects concatenation, so the other characters keep their order |
| Glyphs.NormalizedGlyphFree | nkueamis/nkueamis.py:128-133 | no glyph U+2160..U+2163 survives |
| Glyphs.NormalizedIdentity | nkueamis/nkueamis.py:128-133 | a string without those glyphs is returned unchanged |
| Glyphs.NormalizedIdempotent | nkueamis/nkueamis.py:128-133 | substituting twice is substituting once |
| Glyphs.NormalizedExample | nkueamis/nkueamis.py:129-130 | a title ending in U+2161 ends in `II` afterwards |
| Numbers.ShowNat | nkueamis/nkueamis.py:294 | `str(n)` is a non-empty string of digits without a leading zero |
| Numbers.ParseShowInt | nkueamis/nkueamis.py:123 | `int(str(n)) == n` for every integer |
| Numbers.ParseIntRejectsFileSeparator | nkueamis/nkueamis.py:123 | `int()` rejects `"\x1c5"`: U+001C is not stripped |
| Selector.NormalizeSelector | nkueamis/nkueamis.py:233-236 | the result is strictly ascending, holds only `A`..`E`, and holds a letter exactly when some character upper-cases to it |
| Selector.AscendingUnique | nkueamis/nkueamis.py:234-235 | de-duplicating and sorting leaves one canonical string per set of letters |
| Selector.SelectorDependsOnLettersOnly | nkueamis/nkueamis.py:233-236 | two selectors requesting the same letters normalise identically, whatever their case, order, repeats or other characters |
| Selector.CategoryIndex | nkueamis/nkueamis.py:173-176 | `ord(c) - 65 + 1` maps `A`..`E` to the categories 1..5 in order |
| Classifier.HeaderOnlyItself | nkueamis/nkueamis.py:71 | a row whose text is the header of category `j` is recognised as a header of category `i` exactly when `i == j` |
| Classifier.ContainsIff | nkueamis/nkueamis.py:113-116 | the search for a literal header succeeds exactly when the header occurs at some offset of the text |
| Classifier.HeaderNotInOther | nkueamis/nkueamis.py:113-116 | a header occurs inside another header's text only as that text itself |
| Classifier.FirstWith | nkueamis/nkueamis.py:165 | the index of the first row holding a header, with no earlier row holding it |
| Classifier.LastStart | nkueamis/nkueamis.py:163-164 | one past the last row holding a header, with no later row holding it |
| Classifier.ReadRow | nkueamis/nkueamis.py:161-164 | one row appends its grade row when it has eight cells, then resets on header `i` |
| Classifier.StepKeepsGathered | nkueamis/nkueamis.py:160-164 | after each row, the accumulator holds the grade rows after the last header-`i` row read so far |
| Classifier.GetGradeInfo | nkueamis/nkueamis.py:158-167 | the scan returns the grade rows after the last header-`i` row, up to and including the first header-`(i+1)` row (all rows for `i = 5`) |
| Classifier.ClassifyStopsAt | nkueamis/nkueamis.py:165-166 | the scan's result at its early return |
| Classifier.ClassifyRunsToEnd | nkueamis/nkueamis.py:167 | the scan's result when no row stops it |
| Classifier.ExtractConcat | nkueamis/nkueamis.py:160-162 | the extracted grade rows of two row ranges concatenate in document order |
| Classifier.ClassifyIgnoresRowsAfterStop | nkueamis/nkueamis.py:165-166 | for `i < 5`, rows after the first header-`(i+1)` row never change the result |
| Classifier.ClassifyLastCategoryReadsToEnd | nkueamis/nkueamis.py:165-167 | for `i = 5`, a grade row appended at the end of the page is appended to the result |
| Classifier.ClassifyResetsOnHeader | nkueamis/nkueamis.py:163-164 | a final row holding header `i` empties the result |
| Classifier.ClassifyStopRow | nkueamis/nkueamis.py:163-166 | the result is fixed by the rows through the first header-`(i+1)` row |
| Classifier.ClassifyBetweenHeaders | nkueamis/nkueamis.py:158-167 | between a header-`i` row and a header-`(i+1)` row, the result is exactly the grade rows in between |
| Classifier.ClassifyKeepsStopRow | nkueamis/nkueamis.py:161-166 | the row that stops the scan is read first, so an eight-cell stop row is the last row of the result |
| Classifier.ClassifyWithoutOwnHeader | nkueamis/nkueamis.py:160-167 | without a header-`i` row, every grade row before the stop is kept |
| Classifier.GetSpecifiedGrade | nkueamis/nkueamis.py:171-177 | one independent scan per selector letter, in the selector's order, one list per letter |
| Grades.FirstTokenIsLongestPrefix | nkueamis/nkueamis.py:188 | `s.split(' ')[0]` is the longest prefix of `s` without a space |
| Grades.GradeCalc | nkueamis/nkueamis.py:181-196 | the credit sum and the mean are those of the reference totals; `avg * credits` is the weighted sum when credits are not 0; `avg` is 0 when they are |
| Grades.RowTotalsConcat | nkueamis/nkueamis.py:184-191 | the sums over two row lists add up |
| Grades.TableTotalsFlatten | nkueamis/nkueamis.py:184-191 | the split into categories does not change the sums |
| Grades.SkippedRowsIgnored | nkueamis/nkueamis.py:186-191 | dropping every row that does not count changes neither sum: a row adds to both sums or to neither |
| Grades.ExtendBounded | nkueamis/nkueamis.py:188-189 | a counted row with positive credit and a score in `[lo, hi]` keeps the weighted sum between `lo` and `hi` times the credit sum |
| Grades.WeightedWithin | nkueamis/nkueamis.py:184-191 | with positive credits and scores in `[lo, hi]`, the weighted sum lies between `lo` and `hi` times the credit sum |
| Grades.AverageWithin | nkueamis/nkueamis.py:192-196 | with positive credits and scores in `[lo, hi]`, the mean lies in `[lo, hi]` once any credit counted |
| Grades.HasGrades | nkueamis/nkueamis.py:240-244 | the flag is set exactly when some requested category has a row |
| Grades.ListRows | nkueamis/nkueamis.py:245-249 | the listed rows are every category's rows, in order |
| Grades.PrintGradeTable | nkueamis/nkueamis.py:232-257 | fails exactly when every requested category is empty; otherwise reports the normalised selector, all rows in category order, and the aggregate of the classification |
| Courses.CollectMeaning | nkueamis/nkueamis.py:222-224 | a comprehension whose elements may raise succeeds exactly when every element does and then holds their values in order; otherwise it raises the first element's exception |
| Courses.TupleConv | nkueamis/nkueamis.py:120-124 | the loop converts the strings in order and stops at the first one `int()` rejects |
| Courses.IntTupleMeaning | nkueamis/nkueamis.py:120-124 | `tuple_conv` succeeds exactly when every string is an integer literal, then yields each one's value in order; otherwise it reports the first string that is not one |
| Courses.IntTupleShowInt | nkueamis/nkueamis.py:120-124 | decimal spellings of integers convert back to those integers |
| Courses.IntTuplePair | nkueamis/nkueamis.py:120-124 | `tuple_conv` on a day and period capture gives the meeting `(day, period)`, or the rejected string |
| Courses.DecodeWindow | nkueamis/nkueamis.py:222-224 | the comprehension over one window's captures yields its meetings or the first rejected string |
| Courses.WindowsContiguous | nkueamis/nkueamis.py:221-224 | for ascending offsets, each window is an interval that ends where the next begins; the first starts at the first offset and the last ends at the page's end |
| Courses.WindowsDisjoint | nkueamis/nkueamis.py:221-224 | no offset lies in two windows |
| Courses.WindowsCover | nkueamis/nkueamis.py:221-224 | every offset from the first match to the end of the page lies in some window |
| Courses.CourseInfoMeaning | nkueamis/nkueamis.py:216-227 | the intended join succeeds exactly when there are enough teachers and every window converts; then there is one entry per match, in order |
| Courses.OneMatchDiffers | nkueamis/nkueamis.py:219-224 | the code agrees with the intended join except with exactly one match, where it always fails |
| Courses.OneMatchExample | nkueamis/nkueamis.py:219-224 | one course with one teacher and no time slots: the code fails while the intended join gives the one entry |
| Courses.DecodeWindows | nkueamis/nkueamis.py:219-224 | the windowing loop gives every window's meetings, except that one match fails with IndexError |
| Courses.JoinEntries | nkueamis/nkueamis.py:226-227 | with enough teachers, the entries are the reference definition `Courses.Join`, whose content `Courses.CourseInfoMeaning` states; otherwise IndexError at the first index without a teacher |
| Courses.GetCourseInfo | nkueamis/nkueamis.py:206-228 | the whole routine equals the join as written |
| Schedule.PyIndex | nkueamis/nkueamis.py:292 | Python list indexing: defined exactly on `[-len, len)`, and there it selects position `k mod len` |
| Schedule.CellInRange | nkueamis/nkueamis.py:292 | a meeting inside the grid writes `mat[period][day]` itself |
| Schedule.CellWraps | nkueamis/nkueamis.py:292 | negative indices wrap to the other end of the row or column |
| Schedule.CellNone | nkueamis/nkueamis.py:292 | a meeting names no cell exactly when Python's indexing raises |
| Schedule.WritesIff | nkueamis/nkueamis.py:291-292 | a course writes a cell exactly when one of its meetings names it |
| Schedule.OccupantEmptyIff | nkueamis/nkueamis.py:289-292 | a cell stays empty exactly when no meeting of any course names it |
| Schedule.OccupantLastWriter | nkueamis/nkueamis.py:290-292 | an occupied cell holds the name, room and teacher of the last course, in list order, that names it |
| Schedule.PlaceCourse | nkueamis/nkueamis.py:291-292 | one course's writes to the array: the cells its meetings name get the course, every other cell is unchanged; fails exactly when a meeting lies outside the grid |
| Schedule.RenderRow | nkueamis/nkueamis.py:293-301 | a row is its label followed by the seven rendered cells: empty, or `name\nteacher@room` with the substitution applied to the name |
| Schedule.StructCourseTable | nkueamis/nkueamis.py:285-303 | succeeds exactly when every meeting names a grid cell, and then returns the reference definition `Schedule.Table`: fourteen rows of a label and seven rendered occupants, whose content `Schedule.RowLabels`, `Schedule.OccupantEmptyIff` and `Schedule.OccupantLastWriter` state |
| Schedule.RowLabels | nkueamis/nkueamis.py:294 | the row labels read back as 1..14 |
| Lookups.Split | nkueamis/nkueamis.py:145 | `s.split(sep)` has at least one piece |
| Lookups.JoinSplit | nkueamis/nkueamis.py:145 | joining the pieces of a split gives back the string |
| Lookups.SplitJoin | nkueamis/nkueamis.py:145 | splitting a join of separator-free pieces gives back the pieces |
| Lookups.SplitPiecesFree | nkueamis/nkueamis.py:145 | no piece holds the separator |
| Lookups.SplitFree | nkueamis/nkueamis.py:145 | a string without the separator splits into itself alone |
| Lookups.DetermineSemesterId | nkueamis/nkueamis.py:144-154 | the id of the first semester whose school year and term equal the selector's pieces; None, standing for the exit, exactly when none does |
| Lookups.SelectorMatches | nkueamis/nkueamis.py:145-150 | a `year:term` selector with colon-free parts matches exactly the semesters of that year and term |
| Lookups.SelectorNeedsColon | nkueamis/nkueamis.py:145-150 | a selector without a colon matches no semester |
| Lookups.CourseNoToId | nkueamis/nkueamis.py:386-393 | the id of the first course with the given number; None, standing for the exit, exactly when none has it |

## Left out

- Network and session I/O (`requests`, `log_in`, `struct_course_data`, the exam and election pages, cookies): outside the record layer. `test_net` is glue.
- The regular-expression engine: the outputs of `findall` and `finditer` are inputs. For the time-slot pattern that input is a finder function of the window. `find_course_cat` is modelled as substring search, which is exact because the five header texts contain no pattern operators.
- BeautifulSoup: a row is abstracted to its cell texts and whole text.
- Rendering: `prettytable` layout, column headers and alignment; all `print` output; `docopt`, `input` and `getpass`. `Grades.PrintGradeTable` returns what would be shown rather than printing it.
- The on-disk `elect_data` pickle cache and the interactive election retry loop: filesystem and network state.
- Floating-point arithmetic: `grade_calc` is computed over reals with an abstract `float()` parser, so IEEE rounding, infinities and NaN are not modelled.
- `exit()`: modelled as a None result, not as process termination.
- `get_std_detail`, `get_semester_info`, `get_std_course_id`, the exam table and `setup.py`: regular-expression or packaging glue.
- Numbers.ParseInt: strips the six ASCII whitespace characters `int()` strips (tab, LF, VT, FF, CR, space), then takes an optional sign and ASCII digits; U+001C..U+001F, which `str.isspace` accepts, are rejected. Python's `int()` also accepts underscores between digits, non-ASCII digits and non-ASCII whitespace, which the model rejects.
- Selector.Upper: upper-cases ASCII letters only. A non-ASCII character whose Python upper case contains one of `A`..`E` is not modelled as requesting that letter. U+1E9A is one: it upper-cases to `A` followed by a modifier letter.
- Classifier.GetGradeInfo: requires a category 1..5. `get_specified_grade` is only called with a normalised selector, so other category numbers never reach it.
- Classifier.GetSpecifiedGrade: requires a selector of letters `A`..`E`, which is what `print_grade_table` passes.
- Courses.JoinEntries: requires one window per match, which is how the calling routine builds them.
- Schedule.StructCourseTable: the IndexError of an out-of-grid meeting is a None result, and the partly filled grid is discarded.
- Grades.PrintGradeTable: the second call of `get_specified_grade` is on the same page, so its result equals the first. The model does not capture a page changing between the two calls.

## Findings

| source | as written | input that shows it | evidently intended | confidence | as-written member | corrected member |
|---|---|---|---|---|---|---|
| nkueamis/nkueamis.py:219-224 | `i` is only rebound by the loop over `range(len(course_pos) - 1)` at line 221, so with exactly one course match it stays 0 from line 219 and `course_pos[i+1]` at line 224 raises IndexError | one course match at offset 0 with one teacher and no time slots on a page of length 10 (`Courses.OneMatchExample`) | the last course's window is `[course_pos[n-1], len)`, so one match gives one entry | not executed | Courses.CourseInfoAsWritten | Courses.CourseInfo |
