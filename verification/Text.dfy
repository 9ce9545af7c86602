/** String helpers of the languages the repository is written in. */
module Text {

  function AsciiLower(c: char): char {
    if 'A' <= c <= 'Z' then (c as int + 32) as char else c
  }

  function LowerAscii(s: string): string {
    seq(|s|, i requires 0 <= i < |s| => AsciiLower(s[i]))
  }

  /** Lower-casing one rune, exact wherever the result is ASCII: besides A-Z only the Kelvin sign and the
      dotted capital I have an ASCII lower case. Other letters are left alone. */
  function LowerChar(c: char): char {
    if c == '\U{212A}' then 'k'
    else if c == '\U{0130}' then 'i'
    else AsciiLower(c)
  }

  function Lower(s: string): string {
    seq(|s|, i requires 0 <= i < |s| => LowerChar(s[i]))
  }

  /** White space as Go's unicode.IsSpace has it, plus the two code points only JavaScript trims. */
  predicate IsSpace(c: char, js: bool) {
    var n := c as int;
    9 <= n <= 13 || n == 32 || n == 0xA0 || n == 0x1680 || 0x2000 <= n <= 0x200A
    || n == 0x2028 || n == 0x2029 || n == 0x202F || n == 0x205F || n == 0x3000
    || (if js then n == 0xFEFF else n == 0x85)
  }

  function TrimLeft(s: string, js: bool): string {
    if s != [] && IsSpace(s[0], js) then TrimLeft(s[1..], js) else s
  }

  function TrimRight(s: string, js: bool): string {
    if s != [] && IsSpace(s[|s| - 1], js) then TrimRight(s[..|s| - 1], js) else s
  }

  function Trim(s: string, js: bool): string {
    TrimRight(TrimLeft(s, js), js)
  }

  predicate AllSpace(s: string, js: bool) {
    forall i :: 0 <= i < |s| ==> IsSpace(s[i], js)
  }

  lemma {:induction false} TrimLeftIsExact(s: string, js: bool) returns (before: string)
    ensures s == before + TrimLeft(s, js) && AllSpace(before, js)
    ensures TrimLeft(s, js) != "" ==> !IsSpace(TrimLeft(s, js)[0], js)
  {
    before := "";
    if s != [] && IsSpace(s[0], js) {
      var rest := TrimLeftIsExact(s[1..], js);
      before := [s[0]] + rest;
      assert s == [s[0]] + s[1..];
    }
  }

  lemma {:induction false} TrimRightIsExact(s: string, js: bool) returns (after: string)
    ensures s == TrimRight(s, js) + after && AllSpace(after, js)
    ensures TrimRight(s, js) != "" ==> !IsSpace(TrimRight(s, js)[|TrimRight(s, js)| - 1], js)
  {
    after := "";
    if s != [] && IsSpace(s[|s| - 1], js) {
      var rest := TrimRightIsExact(s[..|s| - 1], js);
      after := rest + [s[|s| - 1]];
      assert s == s[..|s| - 1] + [s[|s| - 1]];
    }
  }

  /** Trimming takes white space off both ends, all of it, and nothing else. */
  lemma TrimIsExact(s: string, js: bool) returns (before: string, after: string)
    ensures s == before + Trim(s, js) + after && AllSpace(before, js) && AllSpace(after, js)
    ensures var t := Trim(s, js); t != "" ==> !IsSpace(t[0], js) && !IsSpace(t[|t| - 1], js)
  {
    var left := TrimLeft(s, js);
    before := TrimLeftIsExact(s, js);
    after := TrimRightIsExact(left, js);
    var t := Trim(s, js);
    assert left == t + after;
    assert t != "" ==> t[0] == left[0];
    assert s == before + (t + after);
  }

  /** In ASCII codes: the capitals 65 to 90 move by 32, and nothing else does. */
  lemma LowerIsExact(c: char)
    ensures 65 <= c as int <= 90 ==> AsciiLower(c) as int == c as int + 32
    ensures !(65 <= c as int <= 90) ==> AsciiLower(c) == c
    ensures c as int < 128 ==> LowerChar(c) == AsciiLower(c)
  {
  }

  predicate IsPrefix(p: string, s: string) {
    |p| <= |s| && s[..|p|] == p
  }
}
