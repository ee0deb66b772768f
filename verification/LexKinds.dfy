/**
 * What the kind of a token says about its text: operators are spelled as in the
 * table below and taken as long as possible, and whether a word is a bracket or
 * may be a reserved word depends on its text alone.
 */
module LexKinds {
  import opened LexSpec

  /** The spelling of every kind that is no word. */
  function Spelling(k: Kind): (s: string) {
    match k
    case Word(_) | Eof => ""
    case Semi => ";"
    case Newline => "\n"
    case Pipe => "|"
    case AndAnd => "&&"
    case OrOr => "||"
    case Amp => "&"
    case PipeAmp => "|&"
    case Less => "<"
    case Greater => ">"
    case GreaterGreater => ">>"
    case GreaterPipe => ">|"
    case LessLess => "<<"
    case LessLessDash => "<<-"
    case LessLessLess => "<<<"
    case LessGreater => "<>"
    case AmpGreater => "&>"
    case AmpGreaterGreater => "&>>"
    case LParen => "("
    case RParen => ")"
    case DblLBracket => "[["
    case DblRBracket => "]]"
  }

  predicate StartsWith(t: string, p: nat, s: string) { p + |s| <= |t| && t[p..p + |s|] == s }

  /** Spelled by its kind, and by no longer spelling. */
  ghost predicate Spelled(t: string, tok: Token)
    requires tok.start < tok.end <= |t|
  {
    && t[tok.start..tok.end] == Spelling(tok.kind)
    && forall k: Kind :: StartsWith(t, tok.start, Spelling(k)) ==> |Spelling(k)| <= tok.end - tok.start
  }

  /** The start of a process substitution. */
  predicate IsProcess(t: string, p: nat) { StartsWith(t, p, "<(") || StartsWith(t, p, ">(") }

  predicate Breaks(c: char) { c in " \t\n;&|<>()" }

  const KEYWORDS: set<string> := {
    "if", "then", "else", "elif", "fi", "do", "done", "case", "esac", "while", "until", "for",
    "in", "function", "select", "time", "!", "{", "}"}

  /** A word is no bracket, breaks off where a word must, and may be reserved exactly if it reads so. */
  predicate IsWordText(t: string, tok: Token)
    requires tok.kind.Word? && tok.start < tok.end <= |t|
  {
    var text := t[tok.start..tok.end];
    && text != "[[" && text != "]]" && !Breaks(t[tok.start]) && (tok.end == |t| || Breaks(t[tok.end]))
    && (tok.kind.isReservedCandidate <==>
        text in KEYWORDS)
  }

  /** What a token's kind says about the source. */
  ghost predicate Kinded(t: string, tok: Token)
    requires tok.start < tok.end <= |t|
  {
    if tok.kind.Word? then
      if IsProcess(t, tok.start) then !tok.kind.isReservedCandidate else IsWordText(t, tok)
    else Spelled(t, tok) && !IsProcess(t, tok.start)
  }

  lemma SpellingFits(t: string, p: nat, k: Kind)
    requires p < |t|
    ensures StartsWith(t, p, Spelling(k)) <==>
            var s := Spelling(k);
            && (|s| > 0 ==> t[p] == s[0]) && (|s| > 1 ==> Is(t, p + 1, s[1])) && (|s| > 2 ==> Is(t, p + 2, s[2]))
  {
    var s := Spelling(k);
    assert |s| <= 3;
    if p + |s| <= |t| {
      var here := t[p..p + |s|];
      assert (|s| > 0 ==> here[0] == t[p]) && (|s| > 1 ==> here[1] == t[p + 1]) && (|s| > 2 ==> here[2] == t[p + 2]);
    }
  }

  lemma SpellingHere(t: string, p: nat, k: Kind)
    requires StartsWith(t, p, Spelling(k)) && p < |t|
    ensures var s := Spelling(k);
            && (|s| > 0 ==> t[p] == s[0]) && (|s| > 1 ==> Is(t, p + 1, s[1])) && (|s| > 2 ==> Is(t, p + 2, s[2]))
  {
    SpellingFits(t, p, k);
  }

  lemma OperatorIsLongest(t: string, p: nat, k: Kind)
    requires p < |t| && t[p] in "&|<>" && StartsWith(t, p, Spelling(k))
    ensures |Spelling(k)| <= Operator(t, p).end - p
  {
    SpellingHere(t, p, k);
  }

  lemma OperatorIsSpelled(t: string, p: nat)
    requires p < |t| && t[p] in "&|<>"
    ensures Spelled(t, Operator(t, p))
  {
    var tok := Operator(t, p);
    SpellingFits(t, p, tok.kind);
    assert |Spelling(tok.kind)| == tok.end - p;
    forall k: Kind | StartsWith(t, p, Spelling(k)) ensures |Spelling(k)| <= tok.end - p { OperatorIsLongest(t, p, k); }
  }

  lemma MarkIsSpelled(t: string, p: nat, kind: Kind)
    requires p < |t| && t[p] in "\n;()" && Spelling(kind) == [t[p]]
    ensures Spelled(t, Token(kind, p, p + 1))
  {
    assert t[p..p + 1] == [t[p]];
    forall k: Kind | StartsWith(t, p, Spelling(k)) ensures |Spelling(k)| <= 1 { SpellingHere(t, p, k); }
  }

  lemma {:induction false} WordStops(t: string, p: nat, d: nat)
    requires p <= |t| && WordRest(t, p, d).At?
    ensures var q := WordRest(t, p, d).pos; q == |t| || IsWordBreak(t[q])
    decreases |t| - p
  {
    if p < |t| && !IsWordBreak(t[p]) { WordStops(t, WordPart(t, p, d).pos, d); }
  }

  lemma BreaksAreWordBreaks(c: char)
    ensures Breaks(c) <==> IsWordBreak(c)
  {
  }

  /** Only a process substitution starts with `<(` or `>(`. */
  lemma ProcessHere(t: string, p: nat)
    requires p < |t|
    ensures IsProcess(t, p) <==> (t[p] == '<' || t[p] == '>') && Is(t, p + 1, '(')
  {
    if p + 2 <= |t| { assert t[p..p + 2] == [t[p], t[p + 1]]; }
  }

  lemma ReservedAreKeywords(text: string)
    ensures text in RESERVED_WORDS <==> text in KEYWORDS || text == "[[" || text == "]]"
  {
    assert RESERVED_WORDS[0..19] + ["[[", "]]"] == RESERVED_WORDS;
  }

  lemma KeywordsArePlain(text: string)
    requires text in KEYWORDS
    ensures '\'' !in text && '"' !in text && '\\' !in text && '$' !in text
  {
  }

  lemma WordKindIsText(text: string)
    ensures WordKind(text) == DblLBracket <==> text == "[["
    ensures WordKind(text) == DblRBracket <==> text == "]]"
    ensures text != "[[" && text != "]]" ==> WordKind(text) == Word(text in KEYWORDS)
  {
    ReservedAreKeywords(text);
    if text in KEYWORDS { KeywordsArePlain(text); }
  }

  lemma WordIsKinded(t: string, p: nat, d: nat)
    requires p < |t| && !IsWordBreak(t[p]) && WordRest(t, p, d).At? && p < WordRest(t, p, d).pos
    ensures var q := WordRest(t, p, d).pos; Kinded(t, Token(WordKind(t[p..q]), p, q))
  {
    var q := WordRest(t, p, d).pos;
    var text, tok := t[p..q], Token(WordKind(t[p..q]), p, q);
    WordStops(t, p, d);
    WordKindIsText(text);
    BreaksAreWordBreaks(t[p]);
    if q < |t| { BreaksAreWordBreaks(t[q]); }
    ProcessHere(t, p);
    if !tok.kind.Word? { BracketIsSpelled(t, tok); }
  }

  lemma BracketIsSpelled(t: string, tok: Token)
    requires tok.start < tok.end <= |t| && t[tok.start..tok.end] == Spelling(tok.kind)
    requires tok.kind == DblLBracket || tok.kind == DblRBracket
    ensures Spelled(t, tok)
  {
    assert t[tok.start] == t[tok.start..tok.end][0];
    forall k: Kind | StartsWith(t, tok.start, Spelling(k)) ensures |Spelling(k)| <= 2 {
      SpellingHere(t, tok.start, k);
    }
  }

  lemma TokenAtIsKinded(t: string, p: nat, d: nat)
    requires p < |t| && t[p] != ' ' && t[p] != '\t' && t[p] != '#' && TokenAt(t, p, d).Ok?
    ensures Kinded(t, TokenAt(t, p, d).value)
  {
    var tok := TokenAt(t, p, d).value;
    ProcessHere(t, p);
    if t[p] in "\n;()" {
      MarkIsSpelled(t, p, tok.kind);
    } else if t[p] in "&|<>" {
      if !IsProcess(t, p) { OperatorIsSpelled(t, p); }
    } else {
      WordIsKinded(t, p, d);
    }
  }

  lemma {:induction false} TokenIsKinded(t: string, p: nat, d: nat)
    requires p <= |t| && TokenFrom(t, p, d).Ok? && TokenFrom(t, p, d).value.kind != Eof
    ensures Kinded(t, TokenFrom(t, p, d).value)
    decreases |t| - p
  {
    var q := SkipBlanks(t, p);
    BlanksSkipped(t, p);
    if t[q] == '#' { TokenIsKinded(t, CommentEnd(t, q), d); } else { TokenAtIsKinded(t, q, d); }
  }

  ghost predicate AllKinded(t: string, tokens: seq<Token>) {
    forall i :: 0 <= i < |tokens| ==> tokens[i].start < tokens[i].end <= |t| && Kinded(t, tokens[i])
  }

  /** For every accepted source, the kind of each token says what its text is. */
  lemma {:induction false} TokensAreKinded(t: string, p: nat, d: nat)
    requires p <= |t| && Tokens(t, p, d).Ok?
    ensures AllKinded(t, Tokens(t, p, d).value)
    decreases |t| - p
  {
    var first := TokenFrom(t, p, d).value;
    if first.kind != Eof {
      TokenIsKinded(t, p, d);
      TokensAreKinded(t, first.end, d);
      KindedCons(t, first, Tokens(t, first.end, d).value);
    }
  }

  lemma KindedCons(t: string, first: Token, rest: seq<Token>)
    requires first.start < first.end <= |t| && Kinded(t, first) && AllKinded(t, rest)
    ensures AllKinded(t, [first] + rest)
  {
  }
}
