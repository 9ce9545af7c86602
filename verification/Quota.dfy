/** The admin page's quota field: bytes printed as "1.5 GiB" and read back, in exact arithmetic. */
module Quota {
  import opened Basics
  import Text

  // ---------------------------------------------------------------------
  // Decimal numerals
  // ---------------------------------------------------------------------

  function Digit(d: nat): char
    requires d < 10
  {
    (48 + d) as char
  }

  predicate IsDigit(c: char) {
    '0' <= c <= '9'
  }

  predicate AllDigits(s: string) {
    forall i :: 0 <= i < |s| ==> IsDigit(s[i])
  }

  function Print(n: nat): string {
    if n < 10 then [Digit(n)] else Print(n / 10) + [Digit(n % 10)]
  }

  function ParseNat(s: string): nat
    requires AllDigits(s)
  {
    if s == [] then 0 else ParseNat(s[..|s| - 1]) * 10 + (s[|s| - 1] as int - 48)
  }

  lemma ParsePlus(s: string, d: nat)
    requires AllDigits(s) && d < 10
    ensures AllDigits(s + [Digit(d)]) && ParseNat(s + [Digit(d)]) == ParseNat(s) * 10 + d
  {
    assert (s + [Digit(d)])[..|s|] == s;
  }

  lemma {:induction false} ParsePrint(n: nat)
    ensures Print(n) != [] && AllDigits(Print(n)) && ParseNat(Print(n)) == n
  {
    if n < 10 {
      ParsePlus([], n);
      assert [] + [Digit(n)] == [Digit(n)];
    } else {
      ParsePrint(n / 10);
      ParsePlus(Print(n / 10), n % 10);
    }
  }

  // ---------------------------------------------------------------------
  // Rounding
  // ---------------------------------------------------------------------

  /** The integer nearest a / b, the larger of two: both toFixed and Math.round. */
  function Nearest(a: nat, b: nat): nat
    requires b > 0
  {
    (2 * a + b) / (2 * b)
  }

  lemma NearestBounds(a: nat, b: nat)
    requires b > 0
    ensures 2 * a - b < 2 * (Nearest(a, b) * b) <= 2 * a + b
  {
    var q := Nearest(a, b);
    assert q * (2 * b) == 2 * (q * b);
    assert 2 * a + b == (2 * b) * q + (2 * a + b) % (2 * b);
  }

  lemma NearestUnique(a: nat, b: nat, q: nat)
    requires b > 0 && 2 * a - b < 2 * (q * b) <= 2 * a + b
    ensures Nearest(a, b) == q
  {
    assert q * (2 * b) == 2 * (q * b);
    DivUnique(2 * a + b, 2 * b, q);
  }

  /** Rounding depends on the fraction, not on how it is written. */
  lemma NearestScales(a: nat, b: nat, k: nat)
    requires b > 0 && k > 0
    ensures k * b > 0 && Nearest(k * a, k * b) == Nearest(a, b)
  {
    var q := Nearest(a, b);
    NearestBounds(a, b);
    MulMonotone(1, k, b);
    ScaleBounds(a, b, q * b, k);
    assert q * (k * b) == k * (q * b);
    NearestUnique(k * a, k * b, q);
  }

  lemma ScaleBounds(a: nat, b: nat, p: int, k: nat)
    requires k > 0 && 2 * a - b < 2 * p <= 2 * a + b
    ensures 2 * (k * a) - k * b < 2 * (k * p) <= 2 * (k * a) + k * b
  {
    var lo, hi := 2 * p - (2 * a - b), 2 * a + b - 2 * p;
    MulMonotone(1, lo, k);
    MulMonotone(0, hi, k);
    assert lo * k == 2 * (k * p) - 2 * (k * a) + k * b;
    assert hi * k == 2 * (k * a) + k * b - 2 * (k * p);
  }

  // ---------------------------------------------------------------------
  // fmtQuota
  // ---------------------------------------------------------------------

  const KIB: nat := 1024
  const MIB: nat := 1_048_576
  const GIB: nat := 1_073_741_824
  const TIB: nat := 1_099_511_627_776
  const PIB: nat := 1_125_899_906_842_624

  function Ten(d: nat): nat {
    if d == 0 then 1 else if d == 1 then 10 else 100
  }

  /** (q / 10^d).toFixed(d) for d of 1 or 2. */
  function Fixed(q: nat, d: nat): string
    requires d == 1 || d == 2
  {
    Print(q / Ten(d)) + "." +
    (if d == 1 then [Digit(q % 10)] else [Digit(q % 100 / 10), Digit(q % 10)])
  }

  function DropZeros(s: string): string {
    if s != [] && s[|s| - 1] == '0' then DropZeros(s[..|s| - 1]) else s
  }

  /** replace(/\.?0+$/, "") */
  function StripZeros(s: string): string {
    var r := DropZeros(s);
    if r != s && r != [] && r[|r| - 1] == '.' then r[..|r| - 1] else r
  }

  function UnitFor(n: nat): (string, nat)
    requires n >= KIB
  {
    if n >= TIB then ("TiB", TIB) else if n >= GIB then ("GiB", GIB)
    else if n >= MIB then ("MiB", MIB) else ("KiB", KIB)
  }

  function Decimals(n: nat): nat
    requires n >= KIB
  {
    if n < 10 * UnitFor(n).1 then 2 else 1
  }

  /** The numeral's digits as an integer: n / unit to Decimals(n) places. */
  function Scaled(n: nat): nat
    requires n >= KIB
  {
    var size := UnitFor(n).1;
    Nearest(n * Ten(Decimals(n)), size)
  }

  function FmtQuota(n: nat): string {
    if n == 0 then ""
    else if n < KIB then Print(n) + " B"
    else StripZeros(Fixed(Scaled(n), Decimals(n))) + " " + UnitFor(n).0
  }

  // ---------------------------------------------------------------------
  // parseQuota
  // ---------------------------------------------------------------------

  function UnitSize(u: string): Option<nat> {
    if u == "" || u == "b" then Some(1)
    else if u == "k" || u == "kb" || u == "kib" then Some(KIB)
    else if u == "m" || u == "mb" || u == "mib" then Some(MIB)
    else if u == "g" || u == "gb" || u == "gib" then Some(GIB)
    else if u == "t" || u == "tb" || u == "tib" then Some(TIB)
    else if u == "p" || u == "pb" || u == "pib" then Some(PIB)
    else None
  }

  predicate IsUnlimited(t: string) {
    var w := Text.LowerAscii(t);
    w == "\U{65e0}\U{9650}" || w == "\U{4e0d}\U{9650}" || w == "\U{4e0d}\U{7edf}\U{8ba1}"
    || w == "unlimited" || w == "inf" || w == "none" || w == "-"
  }

  predicate IsNumeral(c: char) {
    IsDigit(c) || c == '.'
  }

  predicate IsLetter(c: char) {
    'a' <= c <= 'z' || 'A' <= c <= 'Z'
  }

  /** How many leading characters are digits or points. */
  function NumeralLength(s: string): (n: nat)
    ensures n <= |s|
  {
    if s != [] && IsNumeral(s[0]) then 1 + NumeralLength(s[1..]) else 0
  }

  function PointAt(s: string): (n: nat)
    ensures n <= |s|
  {
    if s != [] && s[0] != '.' then 1 + PointAt(s[1..]) else 0
  }

  /** A numeral as mantissa / 10^places; [0-9]*\.?[0-9]+ is what the pattern accepts. */
  datatype Decimal = Decimal(mantissa: nat, places: nat)

  function ParseDecimal(s: string): Option<Decimal> {
    var i := PointAt(s);
    if i == |s| then
      if s != [] && AllDigits(s) then Some(Decimal(ParseNat(s), 0)) else None
    else
      var frac := s[i + 1..];
      if AllDigits(s[..i]) && AllDigits(frac) && frac != [] then Some(Decimal(ParseNat(s[..i] + frac), |frac|))
      else None
  }

  function Pow10(k: nat): (r: nat)
    ensures r > 0
  {
    if k == 0 then 1 else 10 * Pow10(k - 1)
  }

  /** A numeral, optional white space, an optional unit. */
  function ParseAmount(t: string): Option<nat> {
    var n := NumeralLength(t);
    Scale(ParseDecimal(t[..n]), Text.TrimLeft(t[n..], true))
  }

  function Scale(v: Option<Decimal>, unit: string): Option<nat> {
    if !(forall i :: 0 <= i < |unit| ==> IsLetter(unit[i])) then None
    else
      var size := UnitSize(Text.LowerAscii(unit));
      if v.None? || size.None? then None
      else Some(Nearest(v.value.mantissa * size.value, Pow10(v.value.places)))
  }

  /** None for input that is not understood (null); 0 for no quota. */
  function ParseQuota(s: string): Option<nat> {
    var t := Text.Trim(s, true);
    if t == "" || IsUnlimited(t) then Some(0) else ParseAmount(t)
  }

  // ---------------------------------------------------------------------
  // Reading a printed numeral
  // ---------------------------------------------------------------------

  lemma DropZerosPlus(s: string, c: char)
    ensures DropZeros(s + [c]) == if c == '0' then DropZeros(s) else s + [c]
  {
    assert (s + [c])[..|s|] == s;
  }

  lemma {:induction false} PointAtAfterDigits(w: string, frac: string)
    requires AllDigits(w)
    ensures PointAt(w) == |w|
    ensures PointAt(w + "." + frac) == |w|
  {
    var s := w + "." + frac;
    if w != [] {
      PointAtAfterDigits(w[1..], frac);
      assert s[1..] == w[1..] + "." + frac;
    }
  }

  lemma ParseWhole(w: nat)
    ensures ParseDecimal(Print(w)) == Some(Decimal(w, 0))
  {
    ParsePrint(w);
    PointAtAfterDigits(Print(w), "");
  }

  lemma ParseFraction(w: nat, frac: string)
    requires AllDigits(frac) && frac != []
    ensures AllDigits(Print(w) + frac)
    ensures ParseDecimal(Print(w) + "." + frac) == Some(Decimal(ParseNat(Print(w) + frac), |frac|))
  {
    ParsePrint(w);
    PointAtAfterDigits(Print(w), frac);
    var s := Print(w) + "." + frac;
    assert s[..|Print(w)|] == Print(w) && s[|Print(w)| + 1..] == frac;
  }

  /** Stripping zeros never changes the value. */
  lemma StrippedValue(q: nat, d: nat) returns (v: Decimal)
    requires d == 1 || d == 2
    ensures ParseDecimal(StripZeros(Fixed(q, d))) == Some(v)
    ensures v.places <= d && v.mantissa * Ten(d - v.places) == q
    ensures v.places > 0 ==> v.mantissa % 10 != 0
  {
    if d == 1 {
      v := StrippedTenths(q);
    } else {
      v := StrippedHundredths(q);
    }
  }

  lemma OnePlace(w: nat, f: nat)
    requires f < 10
    ensures ParseDecimal(Print(w) + "." + [Digit(f)]) == Some(Decimal(w * 10 + f, 1))
  {
    ParsePrint(w);
    ParsePlus(Print(w), f);
    ParseFraction(w, [Digit(f)]);
  }

  lemma TwoPlaces(w: nat, f: nat, g: nat)
    requires f < 10 && g < 10
    ensures ParseDecimal(Print(w) + "." + [Digit(f), Digit(g)]) == Some(Decimal(w * 100 + f * 10 + g, 2))
  {
    var p := Print(w);
    ParsePrint(w);
    ParsePlus(p, f);
    ParsePlus(p + [Digit(f)], g);
    assert p + [Digit(f), Digit(g)] == p + [Digit(f)] + [Digit(g)];
    ParseFraction(w, [Digit(f), Digit(g)]);
  }

  lemma TenthsStripped(p: string, f: nat)
    requires f < 10 && p != [] && AllDigits(p)
    ensures StripZeros(p + "." + [Digit(f)]) == if f != 0 then p + "." + [Digit(f)] else p
  {
    DropZerosPlus(p + ".", Digit(f));
    DropZerosPlus(p, '.');
  }

  lemma HundredthsStripped(p: string, f: nat, g: nat)
    requires f < 10 && g < 10 && p != [] && AllDigits(p)
    ensures StripZeros(p + "." + [Digit(f), Digit(g)])
            == if g != 0 then p + "." + [Digit(f), Digit(g)] else if f != 0 then p + "." + [Digit(f)] else p
  {
    var s := p + "." + [Digit(f), Digit(g)];
    assert s == (p + ".") + [Digit(f)] + [Digit(g)];
    DropZerosPlus((p + ".") + [Digit(f)], Digit(g));
    DropZerosPlus(p + ".", Digit(f));
    DropZerosPlus(p, '.');
  }

  lemma StrippedTenths(q: nat) returns (v: Decimal)
    ensures ParseDecimal(StripZeros(Fixed(q, 1))) == Some(v)
    ensures v.places <= 1 && v.mantissa * Ten(1 - v.places) == q
    ensures v.places > 0 ==> v.mantissa % 10 != 0
  {
    var w, f := q / 10, q % 10;
    ParsePrint(w);
    TenthsStripped(Print(w), f);
    if f != 0 {
      OnePlace(w, f);
      v := Decimal(q, 1);
    } else {
      ParseWhole(w);
      v := Decimal(w, 0);
    }
  }

  lemma ThreeParts(q: nat)
    ensures q == q / 100 * 100 + q % 100 / 10 * 10 + q % 10
  {
    assert q % 100 % 10 == q % 10;
  }

  lemma StrippedHundredths(q: nat) returns (v: Decimal)
    ensures ParseDecimal(StripZeros(Fixed(q, 2))) == Some(v)
    ensures v.places <= 2 && v.mantissa * Ten(2 - v.places) == q
    ensures v.places > 0 ==> v.mantissa % 10 != 0
  {
    var w, f, g := q / 100, q % 100 / 10, q % 10;
    ThreeParts(q);
    ParsePrint(w);
    HundredthsStripped(Print(w), f, g);
    if g != 0 {
      TwoPlaces(w, f, g);
      v := Decimal(q, 2);
    } else if f != 0 {
      OnePlace(w, f);
      v := Decimal(w * 10 + f, 1);
    } else {
      ParseWhole(w);
      v := Decimal(w, 0);
    }
  }

  // ---------------------------------------------------------------------
  // Round trip
  // ---------------------------------------------------------------------

  lemma {:induction false} NumeralLengthStops(num: string, rest: string)
    requires forall i :: 0 <= i < |num| ==> IsNumeral(num[i])
    requires rest == [] || !IsNumeral(rest[0])
    ensures NumeralLength(num + rest) == |num|
  {
    if num == [] {
      assert num + rest == rest;
    } else {
      NumeralLengthStops(num[1..], rest);
      assert (num + rest)[1..] == num[1..] + rest;
    }
  }

  lemma ParsedIsNumeral(s: string)
    requires ParseDecimal(s).Some?
    ensures s != [] && forall i :: 0 <= i < |s| ==> IsNumeral(s[i])
  {
    var p := PointAt(s);
    PointIsPoint(s);
    forall i | 0 <= i < |s| ensures IsNumeral(s[i]) {
      if p < |s| {
        if i < p { assert s[..p][i] == s[i]; } else if i > p { assert s[p + 1..][i - p - 1] == s[i]; }
      }
    }
  }

  lemma {:induction false} PointIsPoint(s: string)
    ensures PointAt(s) < |s| ==> s[PointAt(s)] == '.'
  {
    if s != [] && s[0] != '.' {
      PointIsPoint(s[1..]);
    }
  }

  lemma NothingToTrim(t: string)
    requires t != [] && !Text.IsSpace(t[0], true) && !Text.IsSpace(t[|t| - 1], true)
    ensures Text.Trim(t, true) == t
  {
  }

  lemma NumeralIsNotUnlimited(t: string)
    requires t != [] && IsNumeral(t[0])
    ensures !IsUnlimited(t)
  {
    assert Text.LowerAscii(t)[0] == t[0];
  }

  lemma NumeralThenUnit(num: string, unit: string)
    requires num != [] && unit != [] && forall i :: 0 <= i < |num| ==> IsNumeral(num[i])
    requires IsLetter(unit[0])
    ensures var t := num + " " + unit;
            NumeralLength(t) == |num| && t[..|num|] == num && Text.TrimLeft(t[|num|..], true) == unit
  {
    var t, rest := num + " " + unit, " " + unit;
    assert t == num + rest;
    NumeralLengthStops(num, rest);
    assert t[|num|..] == rest && rest[1..] == unit;
    assert Text.TrimLeft(unit, true) == unit;
  }

  lemma AmountIsParsed(num: string, unit: string)
    requires num != [] && IsNumeral(num[0]) && unit != [] && unit[|unit| - 1] == 'B'
    ensures ParseQuota(num + " " + unit) == ParseAmount(num + " " + unit)
  {
    var t := num + " " + unit;
    assert t[0] == num[0] && t[|t| - 1] == 'B';
    NothingToTrim(t);
    NumeralIsNotUnlimited(t);
  }

  lemma AmountSplits(num: string, unit: string)
    requires num != [] && unit != [] && forall i :: 0 <= i < |num| ==> IsNumeral(num[i])
    requires IsLetter(unit[0])
    ensures ParseAmount(num + " " + unit) == Scale(ParseDecimal(num), unit)
  {
    NumeralThenUnit(num, unit);
  }

  /** "<numeral> <unit>" is read as the numeral times the unit, rounded. */
  lemma ParseNumeralAndUnit(num: string, unit: string)
    requires ParseDecimal(num).Some?
    requires unit != [] && unit[|unit| - 1] == 'B' && IsLetter(unit[0])
    ensures ParseQuota(num + " " + unit) == Scale(ParseDecimal(num), unit)
  {
    ParsedIsNumeral(num);
    AmountIsParsed(num, unit);
    AmountSplits(num, unit);
  }

  predicate AllLetters(u: string) {
    forall i :: 0 <= i < |u| ==> IsLetter(u[i])
  }

  lemma NumeralEnds(num: string)
    requires ParseDecimal(num).Some?
    ensures num != [] && IsNumeral(num[0]) && IsDigit(num[|num| - 1])
  {
    ParsedIsNumeral(num);
    var i := PointAt(num);
    if i < |num| {
      assert num[i + 1..][|num| - i - 2] == num[|num| - 1];
    }
  }

  lemma AmountParts(num: string, sp: string, u: string)
    requires ParseDecimal(num).Some? && Text.AllSpace(sp, true) && AllLetters(u)
    ensures var t := num + sp + u;
            && NumeralLength(t) == |num| && t[..|num|] == num && Text.TrimLeft(t[|num|..], true) == u
  {
    var t, rest := num + sp + u, sp + u;
    ParsedIsNumeral(num);
    assert t == num + rest;
    assert sp != [] ==> rest[0] == sp[0];
    assert sp == [] ==> rest == u;
    NumeralLengthStops(num, rest);
    assert t[|num|..] == rest;
    SpaceIsTrimmed(sp, u);
  }

  lemma LetterIsNoSpace(c: char)
    requires IsLetter(c)
    ensures !Text.IsSpace(c, true)
  {
    assert 65 <= c as int <= 122;
  }

  lemma {:induction false} SpaceIsTrimmed(sp: string, u: string)
    requires Text.AllSpace(sp, true) && AllLetters(u)
    ensures Text.TrimLeft(sp + u, true) == u
  {
    if sp == [] {
      assert sp + u == u;
      if u != [] {
        LetterIsNoSpace(u[0]);
      }
    } else {
      assert (sp + u)[1..] == sp[1..] + u;
      SpaceIsTrimmed(sp[1..], u);
    }
  }

  /** A numeral, any white space and letters are read as the numeral times what the letters stand for. */
  lemma AmountIsRead(num: string, sp: string, u: string)
    requires ParseDecimal(num).Some? && Text.AllSpace(sp, true) && AllLetters(u) && (u == "" ==> sp == "")
    ensures ParseQuota(num + sp + u) == Scale(ParseDecimal(num), u)
  {
    var t := num + sp + u;
    NumeralEnds(num);
    AmountParts(num, sp, u);
    assert t[0] == num[0];
    assert u != "" ==> t[|t| - 1] == u[|u| - 1];
    assert u == "" ==> t == num;
    NothingToTrim(t);
    NumeralIsNotUnlimited(t);
  }

  /** The spellings of a unit, in lower case. */
  predicate Spells(low: string, letter: string) {
    low == letter || low == letter + "b" || low == letter + "ib"
  }

  /** Every accepted spelling, in any case and after any white space, and its factor; any other is refused. */
  lemma UnitsAreRead(num: string, sp: string, u: string)
    requires ParseDecimal(num).Some? && Text.AllSpace(sp, true) && AllLetters(u) && (u == "" ==> sp == "")
    ensures var r, low, v := ParseQuota(num + sp + u), Text.LowerAscii(u), ParseDecimal(num).value;
            && (low == "" || low == "b" ==> r == Some(Nearest(v.mantissa, Pow10(v.places))))
            && (Spells(low, "k") ==> r == Some(Nearest(v.mantissa * 1024, Pow10(v.places))))
            && (Spells(low, "m") ==> r == Some(Nearest(v.mantissa * 1_048_576, Pow10(v.places))))
            && (Spells(low, "g") ==> r == Some(Nearest(v.mantissa * 1_073_741_824, Pow10(v.places))))
            && (Spells(low, "t") ==> r == Some(Nearest(v.mantissa * 1_099_511_627_776, Pow10(v.places))))
            && (Spells(low, "p") ==> r == Some(Nearest(v.mantissa * 1_125_899_906_842_624, Pow10(v.places))))
            && (r.Some? <==> low == "" || low == "b" || Spells(low, "k") || Spells(low, "m") || Spells(low, "g")
                             || Spells(low, "t") || Spells(low, "p"))
  {
    AmountIsRead(num, sp, u);
    UnitSizes(Text.LowerAscii(u));
  }

  lemma UnitSizes(low: string)
    ensures low == "" || low == "b" ==> UnitSize(low) == Some(1)
    ensures Spells(low, "k") ==> UnitSize(low) == Some(1024)
    ensures Spells(low, "m") ==> UnitSize(low) == Some(1_048_576)
    ensures Spells(low, "g") ==> UnitSize(low) == Some(1_073_741_824)
    ensures Spells(low, "t") ==> UnitSize(low) == Some(1_099_511_627_776)
    ensures Spells(low, "p") ==> UnitSize(low) == Some(1_125_899_906_842_624)
    ensures UnitSize(low).Some? <==>
              low == "" || low == "b" || Spells(low, "k") || Spells(low, "m") || Spells(low, "g")
              || Spells(low, "t") || Spells(low, "p")
  {
    assert "k" + "b" == "kb" && "k" + "ib" == "kib" && "m" + "b" == "mb" && "m" + "ib" == "mib";
    assert "g" + "b" == "gb" && "g" + "ib" == "gib" && "t" + "b" == "tb" && "t" + "ib" == "tib";
    assert "p" + "b" == "pb" && "p" + "ib" == "pib";
  }

  /** A word for no quota, in any case; the Chinese ones by their code points. */
  predicate MeansUnlimited(low: string) {
    || low == "unlimited" || low == "inf" || low == "none" || low == "-"
    || low == [0x65e0 as char, 0x9650 as char] || low == [0x4e0d as char, 0x9650 as char]
    || low == [0x4e0d as char, 0x7edf as char, 0x8ba1 as char]
  }

  ghost predicate IsAmount(t: string) {
    exists num, sp, u :: && t == num + sp + u && ParseDecimal(num).Some?
                         && Text.AllSpace(sp, true) && AllLetters(u)
  }

  lemma ReadIsAmount(t: string)
    requires ParseAmount(t).Some?
    ensures IsAmount(t)
  {
    var n := NumeralLength(t);
    var sp := Text.TrimLeftIsExact(t[n..], true);
    var u := Text.TrimLeft(t[n..], true);
    assert t == t[..n] + sp + u;
    assert AllLetters(u);
  }

  lemma UnlimitedIff(t: string)
    ensures IsUnlimited(t) <==> MeansUnlimited(Text.LowerAscii(t))
  {
  }

  /** What is understood at all: nothing or a word for no quota, which mean 0, or a numeral, white space and
      letters, which are read as above. */
  lemma UnderstoodIsAmount(s: string)
    ensures var t := Text.Trim(s, true);
            if t == "" || MeansUnlimited(Text.LowerAscii(t)) then ParseQuota(s) == Some(0)
            else ParseQuota(s).Some? ==> IsAmount(t)
  {
    var t := Text.Trim(s, true);
    UnlimitedIff(t);
    if t != "" && !IsUnlimited(t) && ParseAmount(t).Some? {
      ReadIsAmount(t);
    }
  }

  lemma ScaleByUnit(v: Decimal, unit: string, size: nat)
    requires UnitSize(Text.LowerAscii(unit)) == Some(size) && forall i :: 0 <= i < |unit| ==> IsLetter(unit[i])
    ensures Scale(Some(v), unit) == Some(Nearest(v.mantissa * size, Pow10(v.places)))
  {
  }

  lemma UnitNames()
    ensures UnitSize(Text.LowerAscii("B")) == Some(1)
    ensures UnitSize(Text.LowerAscii("KiB")) == Some(KIB)
    ensures UnitSize(Text.LowerAscii("MiB")) == Some(MIB)
    ensures UnitSize(Text.LowerAscii("GiB")) == Some(GIB)
    ensures UnitSize(Text.LowerAscii("TiB")) == Some(TIB)
  {
    assert Text.LowerAscii("B") == "b";
    assert Text.LowerAscii("KiB") == "kib";
    assert Text.LowerAscii("MiB") == "mib";
    assert Text.LowerAscii("GiB") == "gib";
    assert Text.LowerAscii("TiB") == "tib";
  }

  lemma PowersOfTen()
    ensures Pow10(0) == 1 && Pow10(1) == 10 && Pow10(2) == 100
  {
    assert Pow10(1) == 10 * Pow10(0);
    assert Pow10(2) == 10 * Pow10(1);
  }

  lemma SameFraction(v: Decimal, q: nat, d: nat, size: nat)
    requires (d == 1 || d == 2) && v.places <= d && v.mantissa * Ten(d - v.places) == q
    ensures Nearest(v.mantissa * size, Pow10(v.places)) == Nearest(q * size, Ten(d))
  {
    PowersOfTen();
    var k := Ten(d - v.places);
    assert k * (v.mantissa * size) == (v.mantissa * k) * size;
    NearestScales(v.mantissa * size, Ten(v.places), k);
  }

  /** The byte count the numeral q denotes in the unit and to the precision n is printed with. */
  function Denoted(n: nat, q: nat): nat
    requires n >= KIB
  {
    Nearest(q * UnitFor(n).1, Ten(Decimals(n)))
  }

  /** What reading back a printed quota yields: the printed numeral times its unit, rounded to bytes. */
  lemma ReadBack(n: nat)
    requires n >= KIB
    ensures ParseQuota(FmtQuota(n)) == Some(Denoted(n, Scaled(n)))
  {
    var v := StrippedValue(Scaled(n), Decimals(n));
    UnitNames();
    ParseNumeralAndUnit(StripZeros(Fixed(Scaled(n), Decimals(n))), UnitFor(n).0);
    ScaleByUnit(v, UnitFor(n).0, UnitFor(n).1);
    SameFraction(v, Scaled(n), Decimals(n), UnitFor(n).1);
  }

  /** v has no more than one or two decimals, and none with as many is nearer to n units of that size. */
  predicate PrintsNearest(v: Decimal, n: nat, size: nat) {
    if n < 10 * size
    then v.places <= 2 && 2 * Gap(v.mantissa * Ten(2 - v.places) * size, n * 100) <= size
    else v.places <= 1 && 2 * Gap(v.mantissa * Ten(1 - v.places) * size, n * 10) <= size
  }

  /** What is printed from one KiB on: the unit is the largest not above the count, and the numeral is the count in
      that unit, nearest with two decimals under ten and with one from there, trailing zeros stripped. */
  lemma PrintedForm(n: nat) returns (num: string, v: Decimal)
    requires n >= 1024
    ensures ParseDecimal(num) == Some(v) && (v.places > 0 ==> v.mantissa % 10 != 0)
    ensures n < 1_048_576 ==> FmtQuota(n) == num + " " + "KiB" && PrintsNearest(v, n, 1024)
    ensures 1_048_576 <= n < 1_073_741_824 ==> FmtQuota(n) == num + " " + "MiB" && PrintsNearest(v, n, 1_048_576)
    ensures 1_073_741_824 <= n < 1_099_511_627_776 ==>
              FmtQuota(n) == num + " " + "GiB" && PrintsNearest(v, n, 1_073_741_824)
    ensures 1_099_511_627_776 <= n ==>
              FmtQuota(n) == num + " " + "TiB" && PrintsNearest(v, n, 1_099_511_627_776)
  {
    num := StripZeros(Fixed(Scaled(n), Decimals(n)));
    v := StrippedValue(Scaled(n), Decimals(n));
    ScaledIsNearest(n, v);
  }

  lemma ScaledIsNearest(n: nat, v: Decimal)
    requires n >= KIB && v.places <= Decimals(n) && v.mantissa * Ten(Decimals(n) - v.places) == Scaled(n)
    ensures PrintsNearest(v, n, UnitFor(n).1)
  {
    NearestBounds(n * Ten(Decimals(n)), UnitFor(n).1);
  }

  /** Below one KiB nothing is lost: the count is printed in full. */
  lemma SmallQuotasRoundTrip(n: nat)
    requires n < 1024
    ensures ParseQuota(FmtQuota(n)) == Some(n)
    ensures FmtQuota(n) == if n == 0 then "" else Print(n) + " B"
  {
    if n > 0 {
      ParseWhole(n);
      UnitNames();
      ParseNumeralAndUnit(Print(n), "B");
      ScaleByUnit(Decimal(n, 0), "B", 1);
      assert Print(n) + " " + "B" == Print(n) + " B";
      NearestUnique(n, 1, n);
    }
  }

  function Gap(a: nat, b: nat): nat {
    if a < b then b - a else a - b
  }

  lemma TimesGap(a: nat, b: nat, d: nat)
    ensures d * Gap(a, b) == Gap(a * d, b * d)
  {
    MulMonotone(Min(a, b), Max(a, b), d);
    if a < b {
      assert d * (b - a) == b * d - a * d;
    } else {
      assert d * (a - b) == a * d - b * d;
    }
  }

  /** Rounding to a grid and back to integers. */
  lemma NearestTwice(n: nat, d: nat, size: nat)
    requires d > 0 && size > 0
    ensures 2 * Gap(Nearest(Nearest(n * d, size) * size, d) * d, n * d) <= size + d
  {
    NearestBounds(n * d, size);
    NearestBounds(Nearest(n * d, size) * size, d);
  }

  lemma DenotedIsNear(n: nat)
    requires n >= KIB
    ensures 2 * Ten(Decimals(n)) * Gap(Denoted(n, Scaled(n)), n) <= UnitFor(n).1 + Ten(Decimals(n))
  {
    NearestTwice(n, Ten(Decimals(n)), UnitFor(n).1);
    TimesGap(Denoted(n, Scaled(n)), n, Ten(Decimals(n)));
  }

  lemma DenotedIsHalfPercentNear(n: nat)
    requires n >= KIB
    ensures 200 * Gap(Denoted(n, Scaled(n)), n) <= n + 100
  {
    DenotedIsNear(n);
    assert n >= UnitFor(n).1 && (Decimals(n) == 1 ==> n >= 10 * UnitFor(n).1);
  }

  /** Otherwise the error is at most half of the last printed digit, and half a byte of rounding. */
  lemma ErrorBound(n: nat)
    requires n >= KIB
    ensures var r := ParseQuota(FmtQuota(n));
            r.Some? && 2 * Ten(Decimals(n)) * Gap(r.value, n) <= UnitFor(n).1 + Ten(Decimals(n))
  {
    ReadBack(n);
    DenotedIsNear(n);
  }

  /** Whatever unit and precision are chosen, at most half a percent is lost, and half a byte of rounding. */
  lemma HalfPercent(n: nat)
    requires n >= KIB
    ensures var r := ParseQuota(FmtQuota(n)); r.Some? && 200 * Gap(r.value, n) <= n + 100
  {
    ReadBack(n);
    DenotedIsHalfPercentNear(n);
  }

  lemma PrintedIsOnlyChoice(n: nat, q: nat)
    requires n >= KIB && Denoted(n, q) == n
    ensures q == Scaled(n)
  {
    var d, size := Ten(Decimals(n)), UnitFor(n).1;
    NearestBounds(q * size, d);
    NearestUnique(n * d, size, q);
  }

  lemma WholeUnitsAreExact(n: nat)
    requires n >= KIB && n % UnitFor(n).1 == 0
    ensures Denoted(n, n / UnitFor(n).1 * Ten(Decimals(n))) == n
  {
    var d, size := Ten(Decimals(n)), UnitFor(n).1;
    var k := n / size;
    assert n == k * size;
    assert (k * d) * size == n * d;
    NearestUnique((k * d) * size, d, n);
  }

  lemma BestChoice(n: nat)
    requires n >= KIB
    ensures Denoted(n, Scaled(n)) == n <==> exists q: nat :: Denoted(n, q) == n
    ensures n % UnitFor(n).1 == 0 ==> Denoted(n, Scaled(n)) == n
  {
    forall q: nat | Denoted(n, q) == n ensures q == Scaled(n) {
      PrintedIsOnlyChoice(n, q);
    }
    if n % UnitFor(n).1 == 0 {
      WholeUnitsAreExact(n);
    }
  }

  /** Some multiple of m lies in the w integers up to x exactly when the last one does. */
  lemma LastMultiple(x: nat, m: nat, w: nat, q: nat)
    requires m > 0 && q * m <= x < q * m + w
    ensures x % m < w
  {
    assert x == x / m * m + x % m;
    if x / m < q {
      MulMonotone(x / m + 1, q, m);
      assert false;
    }
    MulMonotone(q, x / m, m);
  }

  /** The nearest integer to q steps is n exactly when twice the steps end in the 2 d integers up to x. */
  lemma NearestIff(n: nat, d: nat, size: nat, q: nat)
    requires d > 0
    ensures var x := 2 * (n * d) + d - 1;
            Nearest(q * size, d) == n <==> q * (2 * size) <= x < q * (2 * size) + 2 * d
  {
    assert q * (2 * size) == 2 * (q * size);
    if Nearest(q * size, d) == n {
      NearestBounds(q * size, d);
    } else if 2 * (q * size) - d < 2 * (n * d) <= 2 * (q * size) + d {
      NearestUnique(q * size, d, n);
    }
  }

  /** Whether a numeral denotes n can be computed: the last multiple of a unit's step up to n is near enough. */
  lemma DenotedIff(n: nat)
    requires n >= KIB
    ensures var d, size := Ten(Decimals(n)), UnitFor(n).1;
            (exists q: nat :: Denoted(n, q) == n) <==> (2 * (n * d) + d - 1) % (2 * size) < 2 * d
  {
    var d, size := Ten(Decimals(n)), UnitFor(n).1;
    SomeMultipleIff(n, d, size);
    assert forall q: nat :: Denoted(n, q) == Nearest(q * size, d);
  }

  lemma SomeMultipleIff(n: nat, d: nat, size: nat)
    requires d > 0 && size > 0
    ensures (exists q: nat :: Nearest(q * size, d) == n) <==> (2 * (n * d) + d - 1) % (2 * size) < 2 * d
  {
    var x, m := 2 * (n * d) + d - 1, 2 * size;
    if x % m < 2 * d {
      assert x == x / m * m + x % m;
      NearestIff(n, d, size, x / m);
    }
    forall q: nat | Nearest(q * size, d) == n ensures x % m < 2 * d {
      NearestIff(n, d, size, q);
      LastMultiple(x, m, 2 * d, q);
    }
  }

  /** A byte count survives exactly when some numeral of the printed precision denotes it: fmtQuota never
      loses what its own format could have expressed. In numbers: exactly when twice the count, in printed
      steps, is that close above a multiple of twice the unit. In particular every whole number of units
      survives. */
  lemma RoundTripIff(n: nat)
    requires n >= KIB
    ensures ParseQuota(FmtQuota(n)) == Some(n) <==> exists q: nat :: Denoted(n, q) == n
    ensures var d, size := Ten(Decimals(n)), UnitFor(n).1;
            ParseQuota(FmtQuota(n)) == Some(n) <==> (2 * (n * d) + d - 1) % (2 * size) < 2 * d
    ensures n % UnitFor(n).1 == 0 ==> ParseQuota(FmtQuota(n)) == Some(n)
  {
    ReadBack(n);
    BestChoice(n);
    DenotedIff(n);
  }
}
