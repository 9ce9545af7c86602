/** Quoting for the install scripts, against the languages that read it back. */
module Quoting {
  import opened Basics

  /** strings.ReplaceAll of the apostrophe. */
  function Replaced(s: string, quote: string): string {
    if s == [] then [] else (if s[0] == '\'' then quote else [s[0]]) + Replaced(s[1..], quote)
  }

  function ShQuote(s: string): string {
    "'" + Replaced(s, "'\\''") + "'"
  }

  function PsQuote(s: string): string {
    "'" + Replaced(s, "''") + "'"
  }

  function Prepend(c: char, r: Option<string>): Option<string> {
    if r.Some? then Some([c] + r.value) else None
  }

  // ---------------------------------------------------------------------
  // The POSIX shell (Shell Command Language, sections 2.2.1 and 2.2.2)
  // ---------------------------------------------------------------------

  /** Characters that end the word or are expanded when not quoted; double quotes are not modelled. */
  predicate IsSpecial(c: char) {
    c in "|&;<>()$`\" \t\n*?[#~=%{}!"
  }

  /** The one literal word s denotes, outside quotes at its start; None if it is not one literal word. */
  function ShWord(s: string): Option<string>
    decreases |s|
  {
    if s == [] then Some("")
    else if s[0] == '\'' then ShQuoted(s[1..])
    else if s[0] == '\\' then
      if |s| == 1 then None
      else if s[1] == '\n' then ShWord(s[2..])
      else Prepend(s[1], ShWord(s[2..]))
    else if IsSpecial(s[0]) then None
    else Prepend(s[0], ShWord(s[1..]))
  }

  function ShQuoted(s: string): Option<string>
    decreases |s|
  {
    if s == [] then None
    else if s[0] == '\'' then ShWord(s[1..])
    else Prepend(s[0], ShQuoted(s[1..]))
  }

  lemma {:induction false} ShQuotedReadsBack(s: string)
    ensures ShQuoted(Replaced(s, "'\\''") + "'") == Some(s)
  {
    var q := "'";
    if s == [] {
      assert ([] + q)[1..] == [];
    } else {
      ShQuotedReadsBack(s[1..]);
      var rest := Replaced(s[1..], "'\\''") + q;
      var all := Replaced(s, "'\\''") + q;
      assert s == [s[0]] + s[1..];
      if s[0] == '\'' {
        assert all == "'\\''" + rest;
        assert all[1..] == "\\''" + rest;
        assert all[1..][2..] == "'" + rest;
        assert all[1..][2..][1..] == rest;
        assert ShWord(all[1..][2..]) == ShQuoted(rest);
        assert ShWord(all[1..]) == Prepend('\'', ShWord(all[1..][2..]));
      } else {
        assert all == [s[0]] + rest;
        assert all[1..] == rest;
      }
    }
  }

  /** The shell reads every string back. */
  lemma ShQuoteRoundTrip(s: string)
    ensures ShWord(ShQuote(s)) == Some(s)
  {
    ShQuotedReadsBack(s);
    assert ShQuote(s)[1..] == Replaced(s, "'\\''") + "'";
  }

  // ---------------------------------------------------------------------
  // PowerShell verbatim strings
  // ---------------------------------------------------------------------

  /** PowerShell takes four typographic quotes for an apostrophe. */
  predicate IsTypographic(c: char) {
    '\U{2018}' <= c <= '\U{201B}'
  }

  predicate IsPsQuote(c: char) {
    c == '\'' || IsTypographic(c)
  }

  /** The rest of a verbatim string: a doubled quote stands for one, a single one must be the last character. */
  function PsBody(s: string): Option<string>
    decreases |s|
  {
    if s == [] then None
    else if !IsPsQuote(s[0]) then Prepend(s[0], PsBody(s[1..]))
    else if |s| == 1 then Some("")
    else if IsPsQuote(s[1]) then Prepend(s[1], PsBody(s[2..]))
    else None
  }

  function PsString(s: string): Option<string> {
    if s != [] && IsPsQuote(s[0]) then PsBody(s[1..]) else None
  }

  function Quotes(s: string): nat {
    if s == [] then 0 else (if IsPsQuote(s[0]) then 1 else 0) + Quotes(s[1..])
  }

  function Typographic(s: string): nat {
    if s == [] then 0 else (if IsTypographic(s[0]) then 1 else 0) + Typographic(s[1..])
  }

  /** A verbatim string spends two quotes on each it denotes, and one to end. */
  lemma {:induction false} PsBodySpends(s: string)
    requires PsBody(s).Some?
    ensures Quotes(s) == 2 * Quotes(PsBody(s).value) + 1
    decreases |s|
  {
    if !IsPsQuote(s[0]) {
      PsBodySpends(s[1..]);
      assert ([s[0]] + PsBody(s[1..]).value)[1..] == PsBody(s[1..]).value;
    } else if |s| > 1 {
      PsBodySpends(s[2..]);
      assert ([s[1]] + PsBody(s[2..]).value)[1..] == PsBody(s[2..]).value;
      assert s[1..][1..] == s[2..];
    } else {
      assert s[1..] == [];
    }
  }

  lemma {:induction false} PsEscapingSpends(s: string)
    ensures Quotes(Replaced(s, "''") + "'") + Typographic(s) == 2 * Quotes(s) + 1
  {
    var q := "'";
    if s == [] {
      assert ([] + q)[1..] == [];
    } else {
      PsEscapingSpends(s[1..]);
      var rest := Replaced(s[1..], "''") + q;
      var all := Replaced(s, "''") + q;
      if s[0] == '\'' {
        assert all == "''" + rest;
        assert all[1..] == "'" + rest;
        assert all[1..][1..] == rest;
      } else {
        assert all == [s[0]] + rest;
        assert all[1..] == rest;
      }
    }
  }

  lemma {:induction false} PsBodyReadsBack(s: string)
    requires Typographic(s) == 0
    ensures PsBody(Replaced(s, "''") + "'") == Some(s)
  {
    var q := "'";
    if s != [] {
      PsBodyReadsBack(s[1..]);
      var rest := Replaced(s[1..], "''") + q;
      var all := Replaced(s, "''") + q;
      assert s == [s[0]] + s[1..];
      if s[0] == '\'' {
        assert all == "''" + rest;
        assert all[2..] == rest;
      } else {
        assert all == [s[0]] + rest;
        assert all[1..] == rest;
      }
    }
  }

  /** PowerShell reads a string back exactly when it holds no typographic quote; ASCII text always survives. */
  lemma PsQuoteRoundTripIff(s: string)
    ensures PsString(PsQuote(s)) == Some(s) <==> Typographic(s) == 0
  {
    var body := Replaced(s, "''") + "'";
    assert PsQuote(s)[1..] == body;
    if Typographic(s) == 0 {
      PsBodyReadsBack(s);
    } else if PsBody(body).Some? {
      PsBodySpends(body);
      PsEscapingSpends(s);
    }
  }
}
