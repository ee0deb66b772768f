/**
 * The word parser: the raw text of one word, quotes and all, is split into
 * literal, quoted and expanded parts. Texts are byte sequences.
 */
module WordParser {
  import opened Wrappers
  import Utf8

  datatype WordPart = Literal(text: string) | SingleQuoted(text: string) | Expansion(source: string)

  /**
   * The scanner of everything that is not literal text: double quotes,
   * parameters, command, arithmetic and process substitutions. It returns the
   * part, or nothing for a lone dollar sign, and the position behind it.
   */
  type Scanner = (string, nat) -> (Option<WordPart>, nat)

  ghost predicate Advances(scan: Scanner) {
    forall t, p: nat | p < |t| :: p < scan(t, p).1 <= |t|
  }

  /** Pushing one byte onto a string as a character: a byte above 127 takes two. */
  function Pushed(c: char): (s: string)
    ensures |s| == if c as int < 128 then 1 else 2
  {
    if c as int < 128 then [c]
    else [(0xC0 + c as int / 64 % 4) as char, (0x80 + c as int % 64) as char]
  }

  function Flushed(lit: string): seq<WordPart> { if lit == [] then [] else [Literal(lit)] }

  predicate Is(t: string, p: nat, c: char) { p < |t| && t[p] == c }

  /** Where a single-quoted text that starts at `p` ends. */
  function QuoteEnd(t: string, p: nat): (q: nat)
    requires p <= |t|
    ensures p <= q <= |t|
    decreases |t| - p
  {
    if p == |t| || t[p] == '\'' then p else QuoteEnd(t, p + 1)
  }

  // ----- ANSI-C quoting -----

  datatype Read = Read(text: string, pos: nat)

  datatype Numeral = Numeral(value: nat, pos: nat)

  function Octal(t: string, p: nat, count: nat, value: nat): (r: Numeral)
    requires p <= |t| && value < 256 && count <= 3
    ensures p <= r.pos <= |t| && r.value < 256
    ensures p < |t| && '0' <= t[p] <= '7' && count < 3 ==> p < r.pos
    decreases |t| - p
  {
    if p < |t| && count < 3 && '0' <= t[p] <= '7'
    then Octal(t, p + 1, count + 1, (value * 8 + (t[p] as int - '0' as int)) % 256)
    else Numeral(value, p)
  }

  function HexDigit(c: char): (d: Option<nat>)
    ensures d.Some? ==> d.value < 16
  {
    if '0' <= c <= '9' then Some(c as int - '0' as int)
    else if 'a' <= c <= 'f' then Some(c as int - 'a' as int + 10)
    else if 'A' <= c <= 'F' then Some(c as int - 'A' as int + 10)
    else None
  }

  function Hex(t: string, p: nat, count: nat, value: nat): (r: Numeral)
    requires p <= |t| && value < 256 && count <= 2
    ensures p <= r.pos <= |t| && r.value < 256
    decreases |t| - p
  {
    if p < |t| && count < 2 && HexDigit(t[p]).Some?
    then Hex(t, p + 1, count + 1, (value * 16 + HexDigit(t[p]).value) % 256)
    else Numeral(value, p)
  }

  function SimpleEscape(c: char): (r: Option<char>) {
    if c == 'n' then Some('\n')
    else if c == 't' then Some('\t')
    else if c == 'r' then Some('\r')
    else if c == 'a' then Some(7 as char)
    else if c == 'b' then Some(8 as char)
    else if c == 'e' || c == 'E' then Some(27 as char)
    else if c == 'f' then Some(12 as char)
    else if c == 'v' then Some(11 as char)
    else if c == '\\' || c == '\'' || c == '"' then Some(c)
    else None
  }

  /** The escape whose backslash is just before `p`. */
  function Escape(t: string, p: nat): (r: Read)
    requires p < |t|
    ensures p < r.pos <= |t|
  {
    if SimpleEscape(t[p]).Some? then Read([SimpleEscape(t[p]).value], p + 1)
    else if '0' <= t[p] <= '7' then var n := Octal(t, p, 0, 0); Read(Pushed(n.value as char), n.pos)
    else if t[p] == 'x' then var n := Hex(t, p + 1, 0, 0); Read(Pushed(n.value as char), n.pos)
    else Read(['\\'] + Pushed(t[p]), p + 1)
  }

  /** A byte read as a character of its own, in UTF-8. */
  function ByteRead(code: int, pos: nat): Read
    requires 0 <= code < 256
  {
    var bytes := Utf8.Encode(code);
    Read(seq(|bytes|, i requires 0 <= i < |bytes| => bytes[i] as char), pos)
  }

  lemma PushedIsUtf8(c: char)
    requires c as int < 256
    ensures Read(Pushed(c), 0) == ByteRead(c as int, 0)
  {
  }

  predicate IsOctal(t: string, p: nat) { p < |t| && '0' <= t[p] <= '7' }

  function DigitAt(t: string, p: nat): int
    requires p < |t|
  {
    t[p] as int - '0' as int
  }

  lemma OctalValue(t: string, p: nat)
    requires IsOctal(t, p)
    ensures Octal(t, p, 0, 0) ==
            if !IsOctal(t, p + 1) then Numeral(DigitAt(t, p), p + 1)
            else if !IsOctal(t, p + 2) then Numeral(8 * DigitAt(t, p) + DigitAt(t, p + 1), p + 2)
            else Numeral((64 * DigitAt(t, p) + 8 * DigitAt(t, p + 1) + DigitAt(t, p + 2)) % 256, p + 3)
  {
    if IsOctal(t, p + 1) {
      if IsOctal(t, p + 2) {
        assert Octal(t, p + 3, 3, (8 * (8 * DigitAt(t, p) + DigitAt(t, p + 1)) + DigitAt(t, p + 2)) % 256).pos == p + 3;
      }
      assert Octal(t, p, 0, 0) == Octal(t, p + 1, 1, DigitAt(t, p));
    }
  }

  /** One, two or three octal digits denote the byte with their octal number, modulo 256. */
  lemma OctalDenotes(t: string, p: nat)
    requires IsOctal(t, p)
    ensures Escape(t, p) ==
            if !IsOctal(t, p + 1) then ByteRead(DigitAt(t, p), p + 1)
            else if !IsOctal(t, p + 2) then ByteRead(8 * DigitAt(t, p) + DigitAt(t, p + 1), p + 2)
            else ByteRead((64 * DigitAt(t, p) + 8 * DigitAt(t, p + 1) + DigitAt(t, p + 2)) % 256, p + 3)
  {
    OctalValue(t, p);
    OctalEscape(t, p);
  }

  lemma OctalEscape(t: string, p: nat)
    requires IsOctal(t, p)
    ensures var n := Octal(t, p, 0, 0); Escape(t, p) == ByteRead(n.value, n.pos)
  {
    PushedIsUtf8(Octal(t, p, 0, 0).value as char);
  }

  /** The digits of base 16 in order, small and capital. */
  lemma HexDigitsInOrder(d: nat)
    requires d < 16
    ensures HexDigit("0123456789abcdef"[d]) == HexDigit("0123456789ABCDEF"[d]) == Some(d)
  {
  }

  lemma HexValue(t: string, p: nat)
    requires p <= |t|
    ensures Hex(t, p, 0, 0) ==
            if p == |t| || HexDigit(t[p]).None? then Numeral(0, p)
            else if p + 1 == |t| || HexDigit(t[p + 1]).None? then Numeral(HexDigit(t[p]).value, p + 1)
            else Numeral(16 * HexDigit(t[p]).value + HexDigit(t[p + 1]).value, p + 2)
  {
    if p < |t| && HexDigit(t[p]).Some? {
      var first := HexDigit(t[p]).value;
      assert Hex(t, p, 0, 0) == Hex(t, p + 1, 1, first);
      if p + 1 < |t| && HexDigit(t[p + 1]).Some? {
        assert Hex(t, p + 1, 1, first) == Hex(t, p + 2, 2, 16 * first + HexDigit(t[p + 1]).value);
      }
    }
  }

  /** Behind `x`, at most two hexadecimal digits denote the byte with their number; without any it is zero. */
  lemma HexDenotes(t: string, p: nat)
    requires p < |t| && t[p] == 'x'
    ensures Escape(t, p) ==
            if p + 1 == |t| || HexDigit(t[p + 1]).None? then ByteRead(0, p + 1)
            else if p + 2 == |t| || HexDigit(t[p + 2]).None? then ByteRead(HexDigit(t[p + 1]).value, p + 2)
            else ByteRead(16 * HexDigit(t[p + 1]).value + HexDigit(t[p + 2]).value, p + 3)
  {
    HexValue(t, p + 1);
    HexEscape(t, p);
  }

  lemma HexEscape(t: string, p: nat)
    requires p < |t| && t[p] == 'x'
    ensures var n := Hex(t, p + 1, 0, 0); Escape(t, p) == ByteRead(n.value, n.pos)
  {
    PushedIsUtf8(Hex(t, p + 1, 0, 0).value as char);
  }

  /** The codes that letters stand for behind a backslash; quotes and the backslash stand for themselves. */
  function LetterCode(c: char): (code: Option<nat>) {
    match c
    case 'a' => Some(7)
    case 'b' => Some(8)
    case 't' => Some(9)
    case 'n' => Some(10)
    case 'v' => Some(11)
    case 'f' => Some(12)
    case 'r' => Some(13)
    case 'e' => Some(27)
    case 'E' => Some(27)
    case '"' => Some(34)
    case '\'' => Some(39)
    case '\\' => Some(92)
    case _ => None
  }

  lemma LettersDenote(t: string, p: nat)
    requires p < |t| && LetterCode(t[p]).Some?
    ensures Escape(t, p) == Read([LetterCode(t[p]).value as char], p + 1)
  {
  }

  function AnsiC(t: string, p: nat): (r: Read)
    requires p <= |t|
    ensures p <= r.pos <= |t|
    decreases |t| - p
  {
    if p == |t| then Read([], p)
    else if t[p] == '\'' then Read([], p + 1)
    else if t[p] == '\\' && p + 1 == |t| then Read([], p + 1)
    else
      var first := AnsiCStep(t, p);
      var rest := AnsiC(t, first.pos);
      Read(first.text + rest.text, rest.pos)
  }

  /** What one character or escape contributes. */
  function AnsiCStep(t: string, p: nat): (r: Read)
    requires p < |t| && (t[p] == '\\' ==> p + 1 < |t|)
    ensures p < r.pos <= |t|
  {
    if t[p] == '\\' then Escape(t, p + 1) else Read(Pushed(t[p]), p + 1)
  }

  /** The text read from `start` is `before` and whatever is still read from `p`. */
  predicate AnsiCSplit(t: string, start: nat, before: string, p: nat)
    requires start <= |t| && p <= |t|
  {
    AnsiC(t, start) == Read(before + AnsiC(t, p).text, AnsiC(t, p).pos)
  }

  lemma AnsiCContinues(t: string, start: nat, before: string, p: nat)
    requires start <= |t| && p < |t| && t[p] != '\'' && (t[p] == '\\' ==> p + 1 < |t|)
    requires AnsiCSplit(t, start, before, p)
    ensures AnsiCSplit(t, start, before + AnsiCStep(t, p).text, AnsiCStep(t, p).pos)
  {
    var step := AnsiCStep(t, p);
    assert before + (step.text + AnsiC(t, step.pos).text) == before + step.text + AnsiC(t, step.pos).text;
  }

  lemma AnsiCEnds(t: string, start: nat, before: string, p: nat)
    requires start <= |t| && p <= |t| && AnsiCSplit(t, start, before, p)
    ensures p == |t| ==> AnsiC(t, start) == Read(before, p)
    ensures Is(t, p, '\'') || (Is(t, p, '\\') && p + 1 == |t|) ==> AnsiC(t, start) == Read(before, p + 1)
  {
    assert before + [] == before;
  }

  // ----- the parts of a word -----

  predicate StartsExpansion(t: string, p: nat)
    requires p < |t|
  {
    || t[p] == '"' || t[p] == '`'
    || (t[p] == '$' && !Is(t, p + 1, '\''))
    || ((t[p] == '<' || t[p] == '>') && Is(t, p + 1, '('))
  }

  /** The parts from position `p` on, when `lit` is the literal text collected so far. */
  function Parts(t: string, p: nat, lit: string, scan: Scanner): (r: seq<WordPart>)
    requires p <= |t| && Advances(scan)
    decreases |t| - p
  {
    if p == |t| then Flushed(lit)
    else if t[p] == '\'' then
      var q := QuoteEnd(t, p + 1);
      Flushed(lit) + [SingleQuoted(t[p + 1..q])] + Parts(t, if q < |t| then q + 1 else q, [], scan)
    else if t[p] == '\\' then
      if p + 1 == |t| then Parts(t, p + 1, lit, scan)
      else if t[p + 1] == '\n' then Parts(t, p + 2, lit, scan)
      else Parts(t, p + 2, lit + Pushed(t[p + 1]), scan)
    else if t[p] == '$' && Is(t, p + 1, '\'') then
      var r := AnsiC(t, p + 2);
      Flushed(lit) + [Literal(r.text)] + Parts(t, r.pos, [], scan)
    else if StartsExpansion(t, p) then
      var (part, q) := scan(t, p);
      if part.Some? then Flushed(lit) + [part.value] + Parts(t, q, [], scan)
      else Flushed(lit) + Parts(t, q, "$", scan)
    else Parts(t, p + 1, lit + Pushed(t[p]), scan)
  }

  lemma Regroup(parts: seq<WordPart>, flushed: seq<WordPart>, part: WordPart, rest: seq<WordPart>)
    ensures parts + (flushed + [part] + rest) == parts + flushed + [part] + rest
    ensures parts + (flushed + rest) == parts + flushed + rest
  {
  }

  /** A double quote, a backquote, a dollar sign that opens no quotation and `<(` or `>(` are left to the scanner. */
  lemma ExpansionsStart(t: string, scan: Scanner)
    requires Advances(scan) && t != [] && scan(t, 0).0.Some?
    requires t[0] in "\"`" || (t[0] == '$' && (|t| == 1 || t[1] != '\'')) || (t[0] in "<>" && |t| > 1 && t[1] == '(')
    ensures Parts(t, 0, [], scan) == [scan(t, 0).0.value] + Parts(t, scan(t, 0).1, [], scan)
  {
    assert t[0] != '\'' && t[0] != '\\' && !(t[0] == '$' && Is(t, 1, '\'')) && StartsExpansion(t, 0);
    ScannerTakesOver(t, scan);
  }

  lemma ScannerTakesOver(t: string, scan: Scanner)
    requires Advances(scan) && t != [] && scan(t, 0).0.Some? && StartsExpansion(t, 0)
    requires t[0] != '\'' && t[0] != '\\' && !(t[0] == '$' && Is(t, 1, '\''))
    ensures Parts(t, 0, [], scan) == [scan(t, 0).0.value] + Parts(t, scan(t, 0).1, [], scan)
  {
    var part, rest := scan(t, 0).0.value, Parts(t, scan(t, 0).1, [], scan);
    assert Parts(t, 0, [], scan) == Flushed([]) + [part] + rest;
    assert Flushed([]) + [part] == [part];
  }

  /** Outside quotes a backslash stands for the byte behind it, and takes a line end away. */
  lemma EscapesDenote(c: char, scan: Scanner)
    requires Advances(scan)
    ensures Parts(['\\', c], 0, [], scan) == if c == '\n' then [] else [Literal(Pushed(c))]
  {
    var t := ['\\', c];
    assert [] + Pushed(c) == Pushed(c);
    assert forall lit :: Parts(t, 2, lit, scan) == Flushed(lit);
  }

  class Parser {
    const text: string
    const scan: Scanner
    var pos: nat
    var lit: string
    var parts: seq<WordPart>

    constructor (word: string, scanner: Scanner)
      requires Advances(scanner)
      ensures text == word && scan == scanner && Valid() && Whole() == Parts(word, 0, [], scanner) && pos == 0
    {
      text, scan, pos, lit, parts := word, scanner, 0, [], [];
    }

    ghost predicate Valid()
      reads this
    {
      pos <= |text| && Advances(scan)
    }

    /** Everything the word comes to: the parts so far and those still to be read. */
    ghost function Whole(): (r: seq<WordPart>)
      requires Valid()
      reads this
    {
      parts + Parts(text, pos, lit, scan)
    }

    method Flush()
      modifies this`lit, this`parts
      ensures lit == [] && parts == old(parts) + Flushed(old(lit))
    {
      if lit != [] {
        parts := parts + [Literal(lit)];
        lit := [];
      }
    }

    method ParseSingleQuotedPart()
      requires Valid() && Is(text, pos, '\'')
      modifies this`pos, this`lit, this`parts
      ensures Valid() && pos > old(pos) && Whole() == old(Whole())
    {
      Flush();
      pos := pos + 1;
      var start := pos;
      while pos < |text| && text[pos] != '\''
        invariant start <= pos <= |text| && QuoteEnd(text, pos) == QuoteEnd(text, start)
        invariant lit == [] && parts == old(parts) + Flushed(old(lit))
      {
        pos := pos + 1;
      }
      parts := parts + [SingleQuoted(text[start..pos])];
      if pos < |text| { pos := pos + 1; }
      Regroup(old(parts), Flushed(old(lit)), SingleQuoted(text[start..QuoteEnd(text, start)]),
              Parts(text, pos, [], scan));
    }

    method ParseEscapedLiteral()
      requires Valid() && Is(text, pos, '\\')
      modifies this`pos, this`lit
      ensures Valid() && pos > old(pos) && Whole() == old(Whole())
    {
      pos := pos + 1;
      if pos >= |text| { return; }
      if text[pos] == '\n' {
        pos := pos + 1;
        return;
      }
      lit := lit + Pushed(text[pos]);
      pos := pos + 1;
    }

    method ParseOctalDigits() returns (value: nat)
      requires Valid()
      modifies this`pos
      ensures Valid() && Numeral(value, pos) == Octal(text, old(pos), 0, 0)
    {
      value := 0;
      var count := 0;
      while pos < |text| && count < 3 && '0' <= text[pos] <= '7'
        invariant Valid() && value < 256 && 0 <= count <= 3
        invariant Octal(text, pos, count, value) == Octal(text, old(pos), 0, 0)
      {
        value := (value * 8 + (text[pos] as int - '0' as int)) % 256;
        pos, count := pos + 1, count + 1;
      }
    }

    method ParseHexDigits() returns (value: nat)
      requires Valid()
      modifies this`pos
      ensures Valid() && Numeral(value, pos) == Hex(text, old(pos), 0, 0)
    {
      value := 0;
      var count := 0;
      while pos < |text| && count < 2
        invariant Valid() && value < 256 && 0 <= count <= 2
        invariant Hex(text, pos, count, value) == Hex(text, old(pos), 0, 0)
      {
        var digit := HexDigit(text[pos]);
        if digit.None? { break; }
        value := (value * 16 + digit.value) % 256;
        pos, count := pos + 1, count + 1;
      }
    }

    method AnsiCEscape() returns (result: string)
      requires Valid() && pos < |text|
      modifies this`pos
      ensures Valid() && Read(result, pos) == Escape(text, old(pos))
    {
      var c := text[pos];
      var simple := SimpleEscape(c);
      if simple.Some? {
        pos := pos + 1;
        return [simple.value];
      }
      if '0' <= c <= '7' {
        var value := ParseOctalDigits();
        return Pushed(value as char);
      }
      pos := pos + 1;
      if c == 'x' {
        var value := ParseHexDigits();
        return Pushed(value as char);
      }
      return ['\\'] + Pushed(c);
    }

    method ParseAnsiCQuoted() returns (result: string)
      requires Valid()
      modifies this`pos
      ensures Valid() && pos >= old(pos) && Read(result, pos) == AnsiC(text, old(pos))
    {
      result := [];
      assert AnsiCSplit(text, pos, result, pos);
      while pos < |text|
        invariant Valid() && pos >= old(pos) && AnsiCSplit(text, old(pos), result, pos)
        decreases |text| - pos
      {
        AnsiCEnds(text, old(pos), result, pos);
        if text[pos] == '\'' || (text[pos] == '\\' && pos + 1 == |text|) {
          pos := pos + 1;
          return;
        }
        AnsiCContinues(text, old(pos), result, pos);
        var piece := ParseAnsiCPiece();
        result := result + piece;
      }
      AnsiCEnds(text, old(pos), result, pos);
    }

    /** One character or one escape of an ANSI-C quoted text. */
    method ParseAnsiCPiece() returns (result: string)
      requires Valid() && pos < |text| && (text[pos] == '\\' ==> pos + 1 < |text|)
      modifies this`pos
      ensures Valid() && Read(result, pos) == AnsiCStep(text, old(pos))
    {
      if text[pos] == '\\' {
        pos := pos + 1;
        result := AnsiCEscape();
      } else {
        result := Pushed(text[pos]);
        pos := pos + 1;
      }
    }

    method ParseDollarPart()
      requires Valid() && Is(text, pos, '$')
      modifies this`pos, this`lit, this`parts
      ensures Valid() && pos > old(pos) && Whole() == old(Whole())
    {
      if Is(text, pos + 1, '\'') {
        Flush();
        pos := pos + 2;
        var result := ParseAnsiCQuoted();
        parts := parts + [Literal(result)];
        Regroup(old(parts), Flushed(old(lit)), Literal(result), Parts(text, pos, [], scan));
      } else {
        ParseExpansion();
      }
    }

    method ParseExpansion()
      requires Valid() && pos < |text| && text[pos] != '\'' && text[pos] != '\\' && StartsExpansion(text, pos)
      modifies this`pos, this`lit, this`parts
      ensures Valid() && pos > old(pos) && Whole() == old(Whole())
    {
      Flush();
      var (part, next) := scan(text, pos);
      pos := next;
      Regroup(old(parts), Flushed(old(lit)), if part.Some? then part.value else Literal("$"),
              Parts(text, pos, if part.Some? then [] else "$", scan));
      if part.Some? { parts := parts + [part.value]; } else { lit := "$"; }
    }

    method ParseWordPart()
      requires Valid() && pos < |text|
      modifies this`pos, this`lit, this`parts
      ensures Valid() && pos > old(pos) && Whole() == old(Whole())
    {
      var c := text[pos];
      if c == '\'' {
        ParseSingleQuotedPart();
      } else if c == '\\' {
        ParseEscapedLiteral();
      } else if c == '$' {
        ParseDollarPart();
      } else if StartsExpansion(text, pos) {
        ParseExpansion();
      } else {
        lit := lit + Pushed(c);
        pos := pos + 1;
      }
    }

    method ParseWordParts() returns (r: seq<WordPart>)
      requires Valid()
      modifies this`pos, this`lit, this`parts
      ensures r == old(Whole())
    {
      while pos < |text|
        invariant Valid() && Whole() == old(Whole())
        decreases |text| - pos
      {
        ParseWordPart();
      }
      Flush();
      r := parts;
    }
  }
}
