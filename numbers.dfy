/**
 * Python's `int(s)` on a captured string and `str(n)` on a non-negative
 * integer, for the decimal forms the portal's pages use.
 */
module Numbers {
  import opened Wrappers

  predicate IsDigit(c: char) {
    '0' <= c <= '9'
  }

  predicate AllDigits(s: string) {
    forall k :: 0 <= k < |s| ==> IsDigit(s[k])
  }

  /**
   * The six ASCII whitespace characters `int()` strips from both ends (tab,
   * LF, VT, FF, CR, space); U+001C..U+001F, which `str.isspace` accepts, are
   * not among them.
   */
  predicate IsSpace(c: char) {
    c == ' ' || c == '\t' || c == '\n' || c == '\r' || c == '\U{000B}' || c == '\U{000C}'
  }

  function TrimLeft(s: string): (r: string)
    ensures |r| <= |s| && (r != [] ==> !IsSpace(r[0]))
    ensures r == s[|s| - |r|..]
  {
    if s != [] && IsSpace(s[0]) then TrimLeft(s[1..]) else s
  }

  function TrimRight(s: string): (r: string)
    ensures |r| <= |s| && (r != [] ==> !IsSpace(r[|r| - 1]))
    ensures r == s[..|r|]
  {
    if s != [] && IsSpace(s[|s| - 1]) then TrimRight(s[..|s| - 1]) else s
  }

  function Trim(s: string): string {
    TrimLeft(TrimRight(s))
  }

  /** The value of a string of decimal digits, most significant first. */
  function DigitsValue(s: string): nat
    requires AllDigits(s)
  {
    if s == [] then 0
    else DigitsValue(s[..|s| - 1]) * 10 + (s[|s| - 1] as int - '0' as int)
  }

  function ParseDigits(s: string): Option<nat> {
    if s != [] && AllDigits(s) then Some(DigitsValue(s)) else None
  }

  /**
   * `int(s)`: surrounding whitespace, an optional sign, then one or more
   * decimal digits; anything else is the source's ValueError (None).
   */
  function ParseInt(s: string): Option<int> {
    var t := Trim(s);
    if t != [] && t[0] == '-' then
      match ParseDigits(t[1..])
      case Some(n) => Some(0 - n as int)
      case None => None
    else if t != [] && t[0] == '+' then
      match ParseDigits(t[1..])
      case Some(n) => Some(n)
      case None => None
    else
      match ParseDigits(t)
      case Some(n) => Some(n)
      case None => None
  }

  function DigitChar(d: nat): (c: char)
    requires d < 10
    ensures IsDigit(c) && c as int - '0' as int == d
  {
    ('0' as int + d) as char
  }

  /** `str(n)` for a non-negative integer: canonical decimal, no leading zeros. */
  function ShowNat(n: nat): (s: string)
    ensures s != [] && AllDigits(s)
    ensures n > 0 ==> s[0] != '0'
  {
    if n < 10 then [DigitChar(n)] else ShowNat(n / 10) + [DigitChar(n % 10)]
  }

  /** `str(n)` for any integer. */
  function ShowInt(n: int): string {
    if n < 0 then "-" + ShowNat(-n) else ShowNat(n)
  }

  lemma {:induction false} DigitsValueShowNat(n: nat)
    ensures DigitsValue(ShowNat(n)) == n
  {
    if n >= 10 {
      var s := ShowNat(n);
      assert s[..|s| - 1] == ShowNat(n / 10);
      DigitsValueShowNat(n / 10);
    }
  }

  lemma TrimUnchanged(s: string)
    requires s != [] && !IsSpace(s[0]) && !IsSpace(s[|s| - 1])
    ensures Trim(s) == s
  {
  }

  /** `int()` rejects a number preceded by U+001C, which it does not strip. */
  lemma ParseIntRejectsFileSeparator()
    ensures ParseInt("\U{001C}5") == None
  {
    var s := "\U{001C}5";
    assert !IsSpace(s[0]) && !IsSpace(s[1]);
    TrimUnchanged(s);
    assert s[0] != '-' && s[0] != '+' && !IsDigit(s[0]);
    assert ParseDigits(s) == None;
  }

  /** `int(str(n)) == n`: the canonical decimal spelling parses back. */
  lemma ParseShowInt(n: int)
    ensures ParseInt(ShowInt(n)) == Some(n)
  {
    var body := if n < 0 then -n else n;
    DigitsValueShowNat(body);
    var s := ShowInt(n);
    TrimUnchanged(s);
    if n < 0 {
      assert s[1..] == ShowNat(-n);
    }
  }
}
