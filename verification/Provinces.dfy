/** The province codes an agent probes, from a comma-separated setting. */
module Provinces {
  import Text

  const DEFAULTS: seq<string> := ["bj", "sh", "gd", "js", "zj", "sc", "hb"]

  predicate IsCodeChar(c: char) {
    'a' <= c <= 'z' || '0' <= c <= '9' || c == '-'
  }

  predicate ValidCode(p: string) {
    forall i :: 0 <= i < |p| ==> IsCodeChar(p[i])
  }

  function CommaAt(s: string): (n: nat)
    ensures n <= |s|
    ensures n < |s| ==> s[n] == ','
  {
    if s != [] && s[0] != ',' then 1 + CommaAt(s[1..]) else 0
  }

  /** strings.Split(s, ",") */
  function Split(s: string): seq<string>
    decreases |s|
  {
    var i := CommaAt(s);
    if i == |s| then [s] else [s[..i]] + Split(s[i + 1..])
  }

  function Join(codes: seq<string>): string {
    if codes == [] then "" else if |codes| == 1 then codes[0] else codes[0] + "," + Join(codes[1..])
  }

  function Normal(p: string): string {
    Text.Lower(Text.Trim(p, false))
  }

  /** The distinct valid codes, in order of first appearance. */
  function Collected(parts: seq<string>): seq<string> {
    if parts == [] then []
    else
      var out, p := Collected(parts[..|parts| - 1]), Normal(parts[|parts| - 1]);
      if p == "" || p in out || !ValidCode(p) then out else out + [p]
  }

  function Selected(v: string): seq<string> {
    var t := Text.Trim(v, false);
    if t == "" || Collected(Split(t)) == [] then DEFAULTS else Collected(Split(t))
  }

  method SelectedProvinces(env: string) returns (codes: seq<string>)
    ensures codes == Selected(env)
  {
    var v := Text.Trim(env, false);
    if v == "" {
      return DEFAULTS;
    }
    var parts := Split(v);
    var seen: set<string> := {};
    codes := [];
    for i := 0 to |parts|
      invariant codes == Collected(parts[..i])
      invariant forall p :: p in seen <==> p in codes
    {
      assert parts[..i + 1][..i] == parts[..i];
      var p := Normal(parts[i]);
      if p == "" || p in seen || !ValidCode(p) {
        continue;
      }
      seen := seen + {p};
      codes := codes + [p];
    }
    assert parts[..|parts|] == parts;
    if codes == [] {
      return DEFAULTS;
    }
  }

  // ---------------------------------------------------------------------
  // What is selected
  // ---------------------------------------------------------------------

  predicate NoComma(s: string) {
    forall i :: 0 <= i < |s| ==> s[i] != ','
  }

  lemma {:induction false} BeforeComma(s: string)
    ensures NoComma(s[..CommaAt(s)])
  {
    if s != [] && s[0] != ',' {
      BeforeComma(s[1..]);
      assert s[..CommaAt(s)] == [s[0]] + s[1..][..CommaAt(s[1..])];
    }
  }

  /** The tokens hold no comma, and joined by commas they are the text. */
  lemma {:induction false} SplitIsExact(s: string)
    ensures Split(s) != [] && Join(Split(s)) == s
    ensures forall i :: 0 <= i < |Split(s)| ==> NoComma(Split(s)[i])
    decreases |s|
  {
    var n := CommaAt(s);
    BeforeComma(s);
    if n == |s| {
      assert s[..n] == s;
    } else {
      var rest := Split(s[n + 1..]);
      SplitIsExact(s[n + 1..]);
      assert Split(s)[1..] == rest;
      assert s == s[..n] + "," + s[n + 1..];
    }
  }

  /** A province code: not empty, and all small letters, digits and hyphens, given by their ASCII codes. */
  predicate IsCode(p: string) {
    p != "" && forall i :: 0 <= i < |p| ==> 97 <= p[i] as int <= 122 || 48 <= p[i] as int <= 57 || p[i] as int == 45
  }

  lemma IsCodeIff(p: string)
    ensures IsCode(p) <==> p != "" && ValidCode(p)
  {
    forall i | 0 <= i < |p|
      ensures IsCodeChar(p[i]) <==> 97 <= p[i] as int <= 122 || 48 <= p[i] as int <= 57 || p[i] as int == 45
    {
    }
  }

  predicate Denotes(token: string, code: string) {
    Text.Lower(Text.Trim(token, false)) == code
  }

  /** The codes some token denotes, each at the place of the first such token. */
  ghost predicate InOrderOfFirst(tokens: seq<string>, codes: seq<string>, at: seq<int>) {
    && |at| == |codes|
    && (forall i :: 0 <= i < |at| ==>
          && 0 <= at[i] < |tokens| && IsCode(codes[i]) && Denotes(tokens[at[i]], codes[i])
          && forall j :: 0 <= j < at[i] ==> !Denotes(tokens[j], codes[i]))
    && (forall i, j :: 0 <= i < j < |at| ==> at[i] < at[j])
    && (forall j, code :: 0 <= j < |tokens| && IsCode(code) && Denotes(tokens[j], code) ==> code in codes)
  }

  lemma InOrderSkips(tokens: seq<string>, codes: seq<string>, at: seq<int>, last: string)
    requires InOrderOfFirst(tokens, codes, at) && (!IsCode(Normal(last)) || Normal(last) in codes)
    ensures InOrderOfFirst(tokens + [last], codes, at)
  {
    var all := tokens + [last];
    assert forall j :: 0 <= j < |tokens| ==> all[j] == tokens[j];
    assert all[|tokens|] == last;
  }

  lemma InOrderTakes(tokens: seq<string>, codes: seq<string>, at: seq<int>, last: string)
    requires InOrderOfFirst(tokens, codes, at) && IsCode(Normal(last)) && Normal(last) !in codes
    ensures InOrderOfFirst(tokens + [last], codes + [Normal(last)], at + [|tokens|])
  {
    var all, codes', p := tokens + [last], codes + [Normal(last)], Normal(last);
    assert forall j :: 0 <= j < |tokens| ==> all[j] == tokens[j];
    assert all[|tokens|] == last && Denotes(last, p) && codes'[|codes|] == p;
    forall j, code | 0 <= j < |all| && IsCode(code) && Denotes(all[j], code) ensures code in codes' {
      if j < |tokens| {
        assert code in codes;
      }
    }
  }

  lemma {:induction false} CollectedInOrder(tokens: seq<string>) returns (at: seq<int>)
    ensures InOrderOfFirst(tokens, Collected(tokens), at)
  {
    at := [];
    if tokens != [] {
      var init, last := tokens[..|tokens| - 1], tokens[|tokens| - 1];
      at := CollectedInOrder(init);
      IsCodeIff(Normal(last));
      assert tokens == init + [last];
      if IsCode(Normal(last)) && Normal(last) !in Collected(init) {
        InOrderTakes(init, Collected(init), at, last);
        at := at + [|init|];
      } else {
        InOrderSkips(init, Collected(init), at, last);
      }
    }
  }

  ghost predicate SomeCode(tokens: seq<string>) {
    exists j, code :: 0 <= j < |tokens| && IsCode(code) && Denotes(tokens[j], code)
  }

  lemma CollectedIff(tokens: seq<string>, at: seq<int>)
    requires InOrderOfFirst(tokens, Collected(tokens), at)
    ensures SomeCode(tokens) <==> Collected(tokens) != []
  {
    if Collected(tokens) != [] {
      assert Denotes(tokens[at[0]], Collected(tokens)[0]);
    }
  }

  /** Selected are exactly the codes that some comma-separated token of the trimmed setting denotes when trimmed
      and lower-cased, each once and in order of first appearance; and the seven defaults if there is none. */
  lemma SelectedIsExact(v: string) returns (tokens: seq<string>, at: seq<int>)
    ensures Join(tokens) == Text.Trim(v, false) && tokens != [] && forall i :: 0 <= i < |tokens| ==> NoComma(tokens[i])
    ensures SomeCode(tokens) ==> InOrderOfFirst(tokens, Selected(v), at)
    ensures !SomeCode(tokens) ==> Selected(v) == ["bj", "sh", "gd", "js", "zj", "sc", "hb"]
  {
    var t := Text.Trim(v, false);
    tokens := Split(t);
    SplitIsExact(t);
    at := CollectedInOrder(tokens);
    CollectedIff(tokens, at);
    if t == "" {
      BlankHasNoCode();
    }
  }

  lemma BlankHasNoCode()
    ensures Collected(Split("")) == []
  {
    assert Split("") == [""];
    assert Normal("") == "";
    assert [""][..0] == [];
  }

  // ---------------------------------------------------------------------
  // What comes out is well-formed
  // ---------------------------------------------------------------------

  predicate WellFormed(codes: seq<string>) {
    && (forall i :: 0 <= i < |codes| ==> codes[i] != "" && ValidCode(codes[i]))
    && (forall i, j :: 0 <= i < j < |codes| ==> codes[i] != codes[j])
  }

  lemma {:induction false} CollectedIsWellFormed(parts: seq<string>)
    ensures WellFormed(Collected(parts))
  {
    if parts != [] {
      CollectedIsWellFormed(parts[..|parts| - 1]);
    }
  }

  lemma SelectedIsWellFormed(v: string)
    ensures Selected(v) != [] && WellFormed(Selected(v))
  {
    CollectedIsWellFormed(Split(Text.Trim(v, false)));
    assert WellFormed(DEFAULTS);
  }

  // ---------------------------------------------------------------------
  // and is read back unchanged
  // ---------------------------------------------------------------------

  lemma CodeCharsAreStable(c: char)
    requires IsCodeChar(c)
    ensures !Text.IsSpace(c, false) && Text.LowerChar(c) == c && c != ','
  {
  }

  lemma CodeIsNormal(p: string)
    requires p != "" && ValidCode(p)
    ensures Normal(p) == p
  {
    CodeCharsAreStable(p[0]);
    CodeCharsAreStable(p[|p| - 1]);
    assert Text.Trim(p, false) == p;
    forall i | 0 <= i < |p| ensures Text.LowerChar(p[i]) == p[i] {
      CodeCharsAreStable(p[i]);
    }
  }

  lemma {:induction false} CommaAfterCode(p: string, rest: string)
    requires ValidCode(p)
    ensures CommaAt(p) == |p| && CommaAt(p + "," + rest) == |p|
  {
    if p != [] {
      CodeCharsAreStable(p[0]);
      CommaAfterCode(p[1..], rest);
      assert (p + "," + rest)[1..] == p[1..] + "," + rest;
    }
  }

  lemma {:induction false} SplitJoin(codes: seq<string>)
    requires codes != [] && forall i :: 0 <= i < |codes| ==> ValidCode(codes[i])
    ensures Split(Join(codes)) == codes
    decreases |codes|
  {
    if |codes| == 1 {
      CommaAfterCode(codes[0], "");
      assert codes == [codes[0]];
    } else {
      var rest := codes[1..];
      var s := Join(codes);
      CommaAfterCode(codes[0], Join(rest));
      SplitJoin(rest);
      assert s[..|codes[0]|] == codes[0] && s[|codes[0]| + 1..] == Join(rest);
      assert codes == [codes[0]] + rest;
    }
  }

  lemma {:induction false} CollectedKeepsCodes(codes: seq<string>)
    requires WellFormed(codes)
    ensures Collected(codes) == codes
  {
    if codes != [] {
      var init, p := codes[..|codes| - 1], codes[|codes| - 1];
      CollectedKeepsCodes(init);
      CodeIsNormal(p);
      assert p !in init;
    }
  }

  lemma {:induction false} JoinEnds(codes: seq<string>)
    requires codes != [] && WellFormed(codes)
    ensures var s := Join(codes);
            s != "" && IsCodeChar(s[0]) && IsCodeChar(s[|s| - 1])
    decreases |codes|
  {
    if |codes| > 1 {
      JoinEnds(codes[1..]);
    }
  }

  /** Writing the selection back as a setting changes nothing. */
  lemma SelectedIsIdempotent(v: string)
    ensures Selected(Join(Selected(v))) == Selected(v)
  {
    var codes := Selected(v);
    SelectedIsWellFormed(v);
    JoinEnds(codes);
    var s := Join(codes);
    CodeCharsAreStable(s[0]);
    CodeCharsAreStable(s[|s| - 1]);
    assert Text.Trim(s, false) == s;
    SplitJoin(codes);
    CollectedKeepsCodes(codes);
  }
}
