/**
 * Quoting for reuse as input: the `@Q` transform, and what the lexer and the
 * word parser make of its output.
 */
module Quoting {
  import opened Wrappers
  import L = LexSpec
  import W = WordParser

  /** The source is exactly one word, which may be taken for a reserved word or not. */
  predicate WordToken(t: string, reserved: bool) { L.Tokens(t, 0, 0) == Ok([L.Token(L.Word(reserved), 0, |t|)]) }

  predicate OneWord(t: string) { WordToken(t, true) || WordToken(t, false) }

  /** The text of parts that contain no expansion. */
  function TextOf(parts: seq<W.WordPart>): (r: Option<string>) {
    if parts == [] then Some([])
    else if parts[0].Expansion? || TextOf(parts[1..]).None? then None
    else Some(parts[0].text + TextOf(parts[1..]).value)
  }

  lemma TextOfCons(part: W.WordPart, rest: seq<W.WordPart>)
    requires !part.Expansion? && TextOf(rest).Some?
    ensures TextOf([part] + rest) == Some(part.text + TextOf(rest).value)
  {
    assert ([part] + rest)[1..] == rest;
  }

  lemma OneWordExactly(t: string)
    requires t != [] && L.StartsWord(t[0])
    ensures OneWord(t) <==> L.WordRest(t, 0, 0) == L.At(|t|) && L.WordKind(t).Word?
    ensures WordToken(t, false) <==> L.WordRest(t, 0, 0) == L.At(|t|) && L.WordKind(t) == L.Word(false)
  {
    L.LoneWord(t, 0);
  }

  // ----- @Q -----

  /** Every quote inside becomes: close the quote, an escaped quote, open again. */
  function QuotesReplaced(s: string): (r: string) {
    if s == [] then []
    else (if s[0] == '\'' then "'\\''" else [s[0]]) + QuotesReplaced(s[1..])
  }

  function AtQ(s: string): (r: string) { "'" + QuotesReplaced(s) + "'" }

  /** Position `p` is inside a quotation and the rest of `t` is the rest of the quoted form. */
  predicate Inside(t: string, p: nat, s: string) { p <= |t| && t[p..] == QuotesReplaced(s) + "'" }

  lemma InsidePlain(t: string, p: nat, s: string)
    requires Inside(t, p, s) && s != [] && s[0] != '\''
    ensures p < |t| && t[p] == s[0] && Inside(t, p + 1, s[1..])
  {
    assert t[p..][0] == s[0];
    assert t[p..][1..] == QuotesReplaced(s[1..]) + "'";
  }

  lemma InsideQuote(t: string, p: nat, s: string)
    requires Inside(t, p, s) && s != [] && s[0] == '\''
    ensures p + 4 <= |t| && t[p] == '\'' && t[p + 1] == '\\' && t[p + 2] == '\'' && t[p + 3] == '\''
    ensures Inside(t, p + 4, s[1..])
  {
    var tail := t[p..];
    assert QuotesReplaced(s) == "'\\''" + QuotesReplaced(s[1..]);
    assert tail == "'\\''" + (QuotesReplaced(s[1..]) + "'");
    assert tail[0] == '\'' && tail[1] == '\\' && tail[2] == '\'' && tail[3] == '\'';
    assert tail[4..] == QuotesReplaced(s[1..]) + "'";
    assert t[p + 4..] == tail[4..];
  }

  lemma InsideEnd(t: string, p: nat)
    requires Inside(t, p, [])
    ensures p + 1 == |t| && t[p] == '\''
  {
    assert t[p..] == "'";
    assert t[p..][0] == '\'';
  }

  lemma {:induction false} LexInside(t: string, p: nat, start: nat, s: string)
    requires Inside(t, p, s)
    ensures var r := L.SingleRest(t, p, start);
            r.At? && L.WordRest(t, r.pos, 0) == L.At(|t|)
    decreases |s|
  {
    if s == [] {
      InsideEnd(t, p);
    } else if s[0] != '\'' {
      InsidePlain(t, p, s);
      LexInside(t, p + 1, start, s[1..]);
    } else {
      InsideQuote(t, p, s);
      LexInside(t, p + 4, p + 3, s[1..]);
      assert L.WordPart(t, p + 1, 0) == L.At(p + 3);
      assert L.WordPart(t, p + 3, 0) == L.SingleRest(t, p + 4, p + 3);
    }
  }

  /** For every string, the quoted form is one word token, spans all of it and is never a reserved word. */
  lemma AtQIsOneWord(s: string)
    ensures OneWord(AtQ(s)) && WordToken(AtQ(s), false)
  {
    var t := AtQ(s);
    assert t[1..] == QuotesReplaced(s) + "'";
    LexInside(t, 1, 0, s);
    assert t[0] == '\'';
    assert L.WordPart(t, 0, 0) == L.SingleRest(t, 1, 0);
    OneWordExactly(t);
  }

  /** The parts behind the closing quote at `q` complete the quoted text from `p` to `s`. */
  ghost predicate Completes(t: string, p: nat, q: nat, s: string, scan: W.Scanner)
    requires p <= q <= |t| && W.Advances(scan)
  {
    q < |t| && TextOf(W.Parts(t, q + 1, [], scan)).Some? && t[p..q] + TextOf(W.Parts(t, q + 1, [], scan)).value == s
  }

  lemma {:induction false} ParseInside(t: string, p: nat, s: string, scan: W.Scanner)
    requires Inside(t, p, s) && W.Advances(scan)
    ensures Completes(t, p, W.QuoteEnd(t, p), s, scan)
    decreases |s|
  {
    if s == [] {
      InsideEnd(t, p);
      assert W.QuoteEnd(t, p) == p && t[p..p] == [];
      assert W.Parts(t, p + 1, [], scan) == [];
    } else if s[0] != '\'' {
      InsidePlain(t, p, s);
      ParseInside(t, p + 1, s[1..], scan);
      var q := W.QuoteEnd(t, p + 1);
      assert t[p..q] == [s[0]] + t[p + 1..q];
      assert s == [s[0]] + s[1..];
    } else {
      InsideQuote(t, p, s);
      ParseInside(t, p + 4, s[1..], scan);
      ParseQuote(t, p, s, scan);
    }
  }

  lemma ParseQuote(t: string, p: nat, s: string, scan: W.Scanner)
    requires s != [] && s[0] == '\'' && W.Advances(scan)
    requires p + 4 <= |t| && t[p] == '\'' && t[p + 1] == '\\' && t[p + 2] == '\'' && t[p + 3] == '\''
    requires Completes(t, p + 4, W.QuoteEnd(t, p + 4), s[1..], scan)
    ensures Completes(t, p, p, s, scan)
  {
    var q := W.QuoteEnd(t, p + 4);
    var quoted, rest := W.SingleQuoted(t[p + 4..q]), W.Parts(t, q + 1, [], scan);
    PartsAfterQuote(t, p, scan);
    TextOfCons(quoted, rest);
    TextOfCons(W.Literal("'"), [quoted] + rest);
    assert s == "'" + s[1..];
    assert t[p..p] + s == s;
  }

  lemma PartsAfterQuote(t: string, p: nat, scan: W.Scanner)
    requires p + 4 <= |t| && t[p + 1] == '\\' && t[p + 2] == '\'' && t[p + 3] == '\'' && W.Advances(scan)
    requires W.QuoteEnd(t, p + 4) < |t|
    ensures var q := W.QuoteEnd(t, p + 4);
            W.Parts(t, p + 1, [], scan) ==
            [W.Literal("'")] + ([W.SingleQuoted(t[p + 4..q])] + W.Parts(t, q + 1, [], scan))
  {
    assert [] + W.Pushed('\'') == "'";
    assert W.Parts(t, p + 1, [], scan) == W.Parts(t, p + 3, "'", scan);
  }

  /** For every string, the parts of the quoted form contain no expansion and concatenate to the string. */
  lemma AtQRoundTrips(s: string, scan: W.Scanner)
    requires W.Advances(scan)
    ensures TextOf(W.Parts(AtQ(s), 0, [], scan)) == Some(s)
  {
    var t := AtQ(s);
    assert t[0] == '\'' && t[1..] == QuotesReplaced(s) + "'";
    ParseInside(t, 1, s, scan);
    var q := W.QuoteEnd(t, 1);
    TextOfCons(W.SingleQuoted(t[1..q]), W.Parts(t, q + 1, [], scan));
    assert W.Parts(t, 0, [], scan) == [W.SingleQuoted(t[1..q])] + W.Parts(t, q + 1, [], scan);
  }
}
