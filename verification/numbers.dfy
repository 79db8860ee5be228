/** Python's `int(s)` for a string argument in base 10, restricted to ASCII
    digits: surrounding whitespace is ignored, one sign is allowed, and digits
    may be grouped with single underscores (`int(" 1_0 ") == 10`). The
    whitespace `int()` ignores is not quite the whitespace `strip()` removes. */
module Numbers {
  import opened Maybe
  import opened Text

  predicate IsDigit(c: char) {
    '0' <= c <= '9'
  }

  function DigitValue(c: char): nat
    requires IsDigit(c)
  {
    c as int - '0' as int
  }

  predicate AllDigits(s: string) {
    forall i :: 0 <= i < |s| ==> IsDigit(s[i])
  }

  /** Digits, possibly separated by single underscores, starting and ending
      with a digit: what `int()` accepts after the sign. */
  predicate IsDigitGroups(s: string)
    decreases |s|
  {
    && |s| > 0 && IsDigit(s[|s| - 1])
    && (|| |s| == 1
        || IsDigitGroups(s[..|s| - 1])
        || (|s| >= 3 && s[|s| - 2] == '_' && IsDigitGroups(s[..|s| - 2])))
  }

  /** The decimal value of the digits of `s`; other characters are skipped. */
  function GroupsValue(s: string): nat {
    if |s| == 0 then 0
    else if IsDigit(s[|s| - 1]) then 10 * GroupsValue(s[..|s| - 1]) + DigitValue(s[|s| - 1])
    else GroupsValue(s[..|s| - 1])
  }

  /** The whitespace `int()` skips around a number: what `str.isspace()`
      accepts except the ASCII separators U+001C..U+001F, which CPython keeps
      as they are and then refuses as part of the number. */
  predicate IsIntSpace(c: char) {
    IsSpace(c) && !('\U{1C}' <= c <= '\U{1F}')
  }

  /** `s` without the whitespace `int()` skips at its start. */
  function UnpadStart(s: string): (r: string)
    ensures |r| <= |s| && r == s[|s| - |r|..]
    ensures |r| == 0 || !IsIntSpace(r[0])
    ensures forall k :: 0 <= k < |s| - |r| ==> IsIntSpace(s[k])
  {
    if |s| > 0 && IsIntSpace(s[0]) then
      var r := UnpadStart(s[1..]);
      assert forall k :: 1 <= k < |s| - |r| ==> s[k] == s[1..][k - 1];
      r
    else s
  }

  /** `s` without the whitespace `int()` skips at its end. */
  function UnpadEnd(s: string): (r: string)
    ensures |r| <= |s| && r == s[..|r|]
    ensures |r| == 0 || !IsIntSpace(r[|r| - 1])
    ensures forall k :: |r| <= k < |s| ==> IsIntSpace(s[k])
  {
    if |s| > 0 && IsIntSpace(s[|s| - 1]) then UnpadEnd(s[..|s| - 1]) else s
  }

  /** The text `int()` reads as a number. */
  function Unpad(s: string): string {
    UnpadEnd(UnpadStart(s))
  }

  /** `int(s)`; `None` where Python raises `ValueError`. */
  function ParseInt(s: string): (r: Option<int>)
    ensures |s| > 0 && AllDigits(s) ==> r == Some(GroupsValue(s))
  {
    UnpadDigits(s);
    AllDigitsAreGroups(s);
    ParseSigned(Unpad(s))
  }

  /** `int()` of an already stripped string: an optional sign, then digit groups. */
  function ParseSigned(t: string): Option<int> {
    if |t| > 0 && (t[0] == '+' || t[0] == '-') then
      var body := t[1..];
      if IsDigitGroups(body) then
        Some(if t[0] == '-' then -(GroupsValue(body) as int) else GroupsValue(body))
      else None
    else if IsDigitGroups(t) then Some(GroupsValue(t))
    else None
  }

  /** A plain run of digits is one digit group. */
  lemma {:induction false} AllDigitsAreGroups(s: string)
    ensures |s| > 0 && AllDigits(s) ==> IsDigitGroups(s)
    decreases |s|
  {
    if |s| > 1 && AllDigits(s) {
      AllDigitsAreGroups(s[..|s| - 1]);
    }
  }

  /** `int()` reads a digit string whole. */
  lemma UnpadDigits(s: string)
    ensures |s| > 0 && AllDigits(s) ==> Unpad(s) == s
  {
    if |s| > 0 && AllDigits(s) {
      DigitNotIntSpace(s[0]);
      DigitNotIntSpace(s[|s| - 1]);
      assert UnpadStart(s) == s;
      assert UnpadEnd(s) == s;
    }
  }

  lemma DigitNotIntSpace(c: char)
    requires IsDigit(c)
    ensures !IsIntSpace(c)
  {
  }

  /** A separator U+001C..U+001F stays in front of the digit, so `int("\x1c1")`
      raises, although `"\x1c1".strip() == "1"`. */
  lemma SeparatorNotSkipped(s: string)
    requires |s| == 2 && '\U{1C}' <= s[0] <= '\U{1F}' && IsDigit(s[1])
    ensures Strip(s) == s[1..]
    ensures ParseInt(s) == None
  {
    StripSeparatorDigit(s);
    UnpadSeparatorDigit(s);
    SeparatorDigitNotGroups(s);
  }

  lemma StripSeparatorDigit(s: string)
    requires |s| == 2 && '\U{1C}' <= s[0] <= '\U{1F}' && IsDigit(s[1])
    ensures Strip(s) == s[1..]
  {
    assert IsSpace(s[0]) && !IsSpace(s[1]);
    assert TrimStart(s) == TrimStart(s[1..]);
    assert TrimStart(s[1..]) == s[1..];
    assert TrimEnd(s[1..]) == s[1..];
  }

  lemma UnpadSeparatorDigit(s: string)
    requires |s| == 2 && '\U{1C}' <= s[0] <= '\U{1F}' && IsDigit(s[1])
    ensures Unpad(s) == s
  {
    assert !IsIntSpace(s[0]) && !IsIntSpace(s[1]);
    assert UnpadStart(s) == s;
    assert UnpadEnd(s) == s;
  }

  lemma SeparatorDigitNotGroups(s: string)
    requires |s| == 2 && !IsDigit(s[0]) && s[0] != '+' && s[0] != '-'
    ensures ParseSigned(s) == None
  {
    assert !IsDigitGroups(s[..1]);
  }

  /** Two ASCII digits parse to their two-digit value. */
  lemma TwoDigits(s: string)
    requires |s| == 2 && AllDigits(s)
    ensures ParseInt(s) == Some(10 * DigitValue(s[0]) + DigitValue(s[1]))
  {
    OneDigit(s[..1]);
    LastDigit(s);
    assert GroupsValue(s) == 10 * DigitValue(s[0]) + DigitValue(s[1]);
  }

  lemma OneDigit(s: string)
    requires |s| == 1 && IsDigit(s[0])
    ensures GroupsValue(s) == DigitValue(s[0])
  {
    assert s[..0] == [];
  }

  /** A space followed by one digit parses to that digit, as `int(" 5") == 5`. */
  lemma SpaceDigit(s: string)
    requires |s| == 2 && s[0] == ' ' && IsDigit(s[1])
    ensures ParseInt(s) == Some(DigitValue(s[1]))
  {
    UnpadSpaceDigit(s);
    OneDigitSigned(s[1..]);
  }

  lemma UnpadSpaceDigit(s: string)
    requires |s| == 2 && s[0] == ' ' && IsDigit(s[1])
    ensures Unpad(s) == s[1..]
  {
    UnpadOneDigit(s[1..]);
    BlankIsIntSpace();
    UnpadSkipsFirst(s);
  }

  lemma UnpadOneDigit(d: string)
    requires |d| == 1 && IsDigit(d[0])
    ensures Unpad(d) == d
  {
    DigitNotIntSpace(d[0]);
    assert UnpadStart(d) == d;
    assert UnpadEnd(d) == d;
  }

  lemma BlankIsIntSpace()
    ensures IsIntSpace(' ')
  {
  }

  lemma UnpadSkipsFirst(s: string)
    requires |s| > 0 && IsIntSpace(s[0])
    ensures Unpad(s) == Unpad(s[1..])
  {
  }

  lemma OneDigitSigned(d: string)
    requires |d| == 1 && IsDigit(d[0])
    ensures ParseSigned(d) == Some(DigitValue(d[0]))
  {
    OneDigit(d);
    assert IsDigitGroups(d);
  }

  /** Four ASCII digits parse to their four-digit value. */
  lemma FourDigits(s: string)
    requires |s| == 4 && AllDigits(s)
    ensures GroupsValue(s) == 1000 * DigitValue(s[0]) + 100 * DigitValue(s[1])
                              + 10 * DigitValue(s[2]) + DigitValue(s[3])
    ensures ParseInt(s) == Some(GroupsValue(s)) && GroupsValue(s) <= 9999
  {
    var a, b, c, d := DigitValue(s[0]), DigitValue(s[1]), DigitValue(s[2]), DigitValue(s[3]);
    LastDigit(s[..1]);
    LastDigit(s[..2]);
    LastDigit(s[..3]);
    LastDigit(s);
    assert s[..1][..0] == [] && s[..2][..1] == s[..1] && s[..3][..2] == s[..2];
    assert GroupsValue(s[..1]) == a;
    assert GroupsValue(s[..2]) == 10 * a + b;
    assert GroupsValue(s[..3]) == 100 * a + 10 * b + c;
  }

  lemma LastDigit(s: string)
    requires |s| > 0 && AllDigits(s)
    ensures GroupsValue(s) == 10 * GroupsValue(s[..|s| - 1]) + DigitValue(s[|s| - 1])
  {
  }
}
