/**
 * The category selector of `print_grade_table`: any string; its letters
 * A..E, in either case, name the five course categories.
 */
module Selector {

  const Letters: string := "ABCDE"

  predicate IsCategoryLetter(c: char) {
    'A' <= c <= 'E'
  }

  /** `str.upper` on one character (ASCII letters). */
  function Upper(c: char): char {
    if 'a' <= c <= 'z' then (c as int - 32) as char else c
  }

  /** Some character of `s` upper-cases to `c`. */
  predicate Requested(s: string, c: char) {
    exists k :: 0 <= k < |s| && Upper(s[k]) == c
  }

  predicate StrictlyAscending(s: string) {
    forall j, k :: 0 <= j < k < |s| ==> s[j] < s[k]
  }

  /** The letters of `cands`, in their order, that `s` requests. */
  function Keep(cands: string, s: string): (r: string)
    ensures forall c :: c in r <==> c in cands && Requested(s, c)
    ensures forall k :: 0 <= k < |r| ==> r[k] in cands
  {
    if cands == [] then [] else
      var rest := Keep(cands[1..], s);
      if Requested(s, cands[0]) then [cands[0]] + rest else rest
  }

  lemma {:induction false} KeepAscending(cands: string, s: string)
    requires StrictlyAscending(cands)
    ensures StrictlyAscending(Keep(cands, s))
  {
    if cands != [] {
      KeepAscending(cands[1..], s);
      var rest := Keep(cands[1..], s);
      forall k | 0 <= k < |rest| ensures cands[0] < rest[k] {
        var j :| 0 < j < |cands| && cands[j] == rest[k];
      }
    }
  }

  /**
   * Lines 233-236: upper-case, keep A..E, drop repeats, sort. The result is
   * strictly ascending and holds exactly the category letters requested.
   */
  function NormalizeSelector(s: string): (r: string)
    ensures StrictlyAscending(r)
    ensures forall k :: 0 <= k < |r| ==> IsCategoryLetter(r[k])
    ensures forall c :: c in r <==> IsCategoryLetter(c) && Requested(s, c)
  {
    KeepAscending(Letters, s);
    Keep(Letters, s)
  }

  lemma AscendingLe(s: string, j: nat, k: nat)
    requires StrictlyAscending(s) && j <= k < |s|
    ensures s[j] <= s[k]
  {
  }

  lemma SameMembersSameEmptiness(a: string, b: string)
    requires forall c :: c in a <==> c in b
    ensures a == [] <==> b == []
  {
    if a != [] { assert a[0] in b; }
    if b != [] { assert b[0] in a; }
  }

  /** Two strictly ascending strings over the same characters are equal. */
  lemma {:induction false} AscendingUnique(a: string, b: string)
    requires StrictlyAscending(a) && StrictlyAscending(b)
    requires forall c :: c in a <==> c in b
    ensures a == b
  {
    SameMembersSameEmptiness(a, b);
    if a != [] {
      assert a[0] in b && b[0] in a;
      var ka :| 0 <= ka < |b| && b[ka] == a[0];
      var kb :| 0 <= kb < |a| && a[kb] == b[0];
      AscendingLe(b, 0, ka);
      AscendingLe(a, 0, kb);
      forall c ensures c in a[1..] <==> c in b[1..] {
        if c in a[1..] {
          var k :| 1 <= k < |a| && a[k] == c;
          assert a[0] < c && c in b;
        }
        if c in b[1..] {
          var k :| 1 <= k < |b| && b[k] == c;
          assert b[0] < c && c in a;
        }
      }
      AscendingUnique(a[1..], b[1..]);
    }
  }

  /**
   * The normalised selector depends only on which letters are requested:
   * case, order, repetition and every other character are irrelevant.
   */
  lemma SelectorDependsOnLettersOnly(s: string, t: string)
    requires forall c :: IsCategoryLetter(c) ==> (Requested(s, c) <==> Requested(t, c))
    ensures NormalizeSelector(s) == NormalizeSelector(t)
  {
    AscendingUnique(NormalizeSelector(s), NormalizeSelector(t));
  }

  /** Line 173 with the `+1` of line 176: the letter's category number 1..5. */
  function CategoryIndex(c: char): (i: int)
    requires IsCategoryLetter(c)
    ensures 1 <= i <= 5 && Letters[i - 1] == c
  {
    (c as int) - 65 + 1
  }
}
