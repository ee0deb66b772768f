/**
 * Word expansion into argument fields. Every byte of a field carries a mark
 * saying whether it was quoted, and a parameter such as `$@` spreads a word
 * over several fields. Parameter and arithmetic expansion may change the shell
 * state, so how often a part is expanded matters.
 */
module FieldExpansion {
  import opened Wrappers

  datatype Part =
    | Literal(text: string)
    | SingleQuoted(text: string)
    | DoubleQuoted(parts: seq<Part>)
    | Parameter(name: string)
    | Arithmetic(expr: string)
    | Substitution

  /** The expansions that read and change the shell state. */
  datatype Env<!S> = Env(
    parameter: (string, nat, S) -> (string, S),
    arithmetic: (string, S) -> (string, S),
    elements: (string, S) -> seq<string>,
    home: S -> Option<string>)

  const MAX_EXPAND_DEPTH: nat := 50

  /** A byte of expanded text; quoted bytes are literal for pathname expansion. */
  datatype Mark = Mark(byte: char, literal: bool)

  function Marks(s: string, literal: bool): (r: seq<Mark>)
    ensures |r| == |s|
  {
    seq(|s|, i requires 0 <= i < |s| => Mark(s[i], literal))
  }

  function Zip(text: string, mask: seq<bool>): (r: seq<Mark>)
    requires |text| == |mask|
    ensures |r| == |text|
  {
    seq(|text|, i requires 0 <= i < |text| => Mark(text[i], mask[i]))
  }

  lemma ZipAppend(text: string, mask: seq<bool>, value: string, literal: bool)
    requires |text| == |mask|
    ensures Zip(text + value, mask + seq(|value|, _ => literal)) == Zip(text, mask) + Marks(value, literal)
  {
  }

  // ----- the single-field path -----

  function PartMarks<S>(env: Env<S>, part: Part, st: S, quoted: bool, depth: nat): (r: (seq<Mark>, S))
    decreases part
  {
    if depth > MAX_EXPAND_DEPTH then ([], st)
    else
      match part
      case Literal(s) => (Marks(s, quoted), st)
      case SingleQuoted(s) => (Marks(s, true), st)
      case DoubleQuoted(parts) => PartsMarks(env, parts, st, true, depth + 1)
      case Parameter(name) => var (value, next) := env.parameter(name, depth + 1, st); (Marks(value, quoted), next)
      case Arithmetic(expr) => var (value, next) := env.arithmetic(expr, st); (Marks(value, quoted), next)
      case Substitution => ([], st)
  }

  function PartsMarks<S>(env: Env<S>, parts: seq<Part>, st: S, quoted: bool, depth: nat): (r: (seq<Mark>, S))
    decreases parts
  {
    if parts == [] then ([], st)
    else
      var last := |parts| - 1;
      var (before, mid) := PartsMarks(env, parts[..last], st, quoted, depth);
      var (marks, next) := PartMarks(env, parts[last], mid, quoted, depth);
      (before + marks, next)
  }

  // ----- which parameters spread over several fields -----

  /** The first occurrence of a byte at or behind `from`, or the length. */
  function FindByte(s: string, c: char, from: nat): (i: nat)
    requires from <= |s|
    ensures from <= i <= |s| && (i < |s| ==> s[i] == c)
    ensures forall k | from <= k < i :: s[k] != c
    decreases |s| - from
  {
    if from == |s| || s[from] == c then from else FindByte(s, c, from + 1)
  }

  predicate IsAll(s: string, k: nat) { k + 3 <= |s| && s[k] == '[' && s[k + 1] == '@' && s[k + 2] == ']' }

  /** The first occurrence of `[@]`, or the length. */
  function FindAll(s: string, from: nat): (i: nat)
    requires from <= |s|
    ensures from <= i <= |s| && (i < |s| ==> IsAll(s, i))
    ensures forall k | from <= k < i :: !IsAll(s, k)
    decreases |s| - from
  {
    if from == |s| || IsAll(s, from) then from else FindAll(s, from + 1)
  }

  /** The syntactic test that decides which path a word takes. */
  predicate IsMultiFieldParameterName(name: string) {
    name == "@" ||
    var pos := FindAll(name, 0);
    pos < |name| && (pos + 3 == |name| || name[pos + 3] == ':')
  }

  function WithoutBang(base: string): string { if base != [] && base[0] == '!' then base[1..] else base }

  predicate UsableBase(base: string) { WithoutBang(base) != [] && WithoutBang(base)[0] != '#' }

  /** Whether the expansion itself treats a name as multi-field. */
  predicate ExpandsToFields(name: string) {
    name == "@" ||
    var start := FindByte(name, '[', 0);
    start < |name| &&
    var end := FindByte(name, ']', start);
    end < |name| && name[start + 1..end] == "@" && UsableBase(name[..start])
  }

  /**
   * The expansion asks for `[@]` behind a base that names something, and for
   * nothing behind it; the syntactic test asks for the end or `:` behind `[@]`,
   * and for nothing in front of it. So each accepts names that the other refuses.
   */
  lemma NamesDisagreeExactly(name: string)
    requires name != "@"
    ensures var pos := FindAll(name, 0);
            var base := name[..pos];
            var usable := '[' !in base && Designates(base);
            var ends := pos < |name| ==> pos + 3 == |name| || name[pos + 3] == ':';
            && (ExpandsToFields(name) <==> pos < |name| && usable)
            && (IsMultiFieldParameterName(name) && !ExpandsToFields(name) <==> pos < |name| && ends && !usable)
            && (ExpandsToFields(name) && !IsMultiFieldParameterName(name) <==> pos < |name| && usable && !ends)
  {
    FieldNames(name);
    assert UsableBase(name[..FindAll(name, 0)]) == Designates(name[..FindAll(name, 0)]);
  }

  /** A name, or a `!` and a name; a length is not one. */
  predicate Designates(base: string) {
    base != "" && base != "!" && base[0] != '#' && (base[0] == '!' ==> base[1] != '#')
  }

  lemma FieldNames(name: string)
    requires name != "@"
    ensures var pos := FindAll(name, 0);
            ExpandsToFields(name) <==> pos < |name| && '[' !in name[..pos] && UsableBase(name[..pos])
  {
    var pos, start := FindAll(name, 0), FindByte(name, '[', 0);
    FirstBracket(name, start);
    if start < pos {
      assert name[..pos][start] == '[';
    } else if pos < |name| {
      assert IsAll(name, pos) && start == pos;
    }
  }

  lemma FirstBracket(name: string, start: nat)
    requires start <= |name|
    ensures var end := FindByte(name, ']', start);
            end < |name| && start < end && name[start] == '[' && name[start + 1..end] == "@" <==> IsAll(name, start)
  {
    var end := FindByte(name, ']', start);
    if end < |name| && start < end && name[start + 1..end] == "@" {
      assert name[start + 1] == name[start + 1..end][0];
    }
    if IsAll(name, start) {
      assert end == start + 2;
      assert name[start + 1..start + 2] == [name[start + 1]];
    }
  }

  // ----- the multi-field path -----

  datatype Atom = Text(text: string, literal: bool) | Fields(elements: seq<string>, literal: bool)

  function PartAtoms<S>(env: Env<S>, part: Part, st: S, quoted: bool, depth: nat): (r: (seq<Atom>, S))
    decreases part, 0
  {
    match part
    case Literal(s) => ([Text(s, quoted)], st)
    case SingleQuoted(s) => ([Text(s, true)], st)
    case DoubleQuoted(parts) => Atoms(env, parts, st, true, depth + 1)
    case Parameter(name) =>
      if ExpandsToFields(name) then ([Fields(env.elements(name, st), quoted)], st)
      else var (value, next) := env.parameter(name, depth + 1, st); ([Text(value, quoted)], next)
    case Arithmetic(expr) => var (value, next) := env.arithmetic(expr, st); ([Text(value, quoted)], next)
    case Substitution => ([], st)
  }

  function Atoms<S>(env: Env<S>, parts: seq<Part>, st: S, quoted: bool, depth: nat): (r: (seq<Atom>, S))
    decreases parts, 1
  {
    if depth > MAX_EXPAND_DEPTH || parts == [] then ([], st)
    else
      var last := |parts| - 1;
      var (before, mid) := Atoms(env, parts[..last], st, quoted, depth);
      var (atoms, next) := PartAtoms(env, parts[last], mid, quoted, depth);
      (before + atoms, next)
  }

  predicate HasFields(atoms: seq<Atom>) { exists a :: a in atoms && a.Fields? }

  /** The marked bytes of atoms, one after the other. */
  function Flat(atoms: seq<Atom>): (r: seq<Mark>) {
    if atoms == [] then [] else Flat(atoms[..|atoms| - 1]) + FlatAtom(atoms[|atoms| - 1])
  }

  function FlatAtom(a: Atom): (r: seq<Mark>) { Join(Pieces(a)) }

  lemma Regroup(a: seq<Mark>, b: seq<Mark>, c: seq<Mark>)
    ensures a + b + c == a + (b + c)
  {
  }

  lemma FlatSnoc(atoms: seq<Atom>, a: Atom)
    ensures Flat(atoms + [a]) == Flat(atoms) + FlatAtom(a)
  {
    assert (atoms + [a])[..|atoms|] == atoms;
  }

  lemma {:induction false} FlatAppend(a: seq<Atom>, b: seq<Atom>)
    ensures Flat(a + b) == Flat(a) + Flat(b)
  {
    if b == [] {
      assert a + b == a;
    } else {
      var init, last := b[..|b| - 1], b[|b| - 1];
      calc {
        Flat(a + b);
        { assert a + b == a + init + [last]; }
        Flat(a + init + [last]);
        { FlatSnoc(a + init, last); }
        Flat(a + init) + FlatAtom(last);
        { FlatAppend(a, init); }
        Flat(a) + Flat(init) + FlatAtom(last);
        { Regroup(Flat(a), Flat(init), FlatAtom(last)); }
        Flat(a) + (Flat(init) + FlatAtom(last));
      }
    }
  }

  lemma FlatOne(a: Atom)
    ensures Flat([a]) == FlatAtom(a)
  {
    assert [a][..0] == [];
  }

  // ----- fields as pieces welded end to end -----

  /** What one atom contributes: its first piece continues a field, each later piece starts one. */
  function Pieces(a: Atom): (r: seq<seq<Mark>>)
    ensures |r| >= 1
  {
    match a
    case Text(text, literal) => [Marks(text, literal)]
    case Fields(elements, literal) =>
      if elements == [] then [[]]
      else seq(|elements|, i requires 0 <= i < |elements| => Marks(elements[i], literal))
  }

  /** Two runs of fields put side by side: the last of one and the first of the other become one. */
  function Weld(a: seq<seq<Mark>>, b: seq<seq<Mark>>): (r: seq<seq<Mark>>)
    requires a != [] && b != []
    ensures |r| == |a| + |b| - 1
  {
    a[..|a| - 1] + [a[|a| - 1] + b[0]] + b[1..]
  }

  function WeldAll(atoms: seq<Atom>): (r: seq<seq<Mark>>)
    ensures r != []
  {
    if atoms == [] then [[]] else Weld(WeldAll(atoms[..|atoms| - 1]), Pieces(atoms[|atoms| - 1]))
  }

  function Join(fields: seq<seq<Mark>>): (r: seq<Mark>) {
    if fields == [] then [] else fields[0] + Join(fields[1..])
  }

  lemma {:induction false} JoinAppend(a: seq<seq<Mark>>, b: seq<seq<Mark>>)
    ensures Join(a + b) == Join(a) + Join(b)
  {
    if a == [] {
      assert a + b == b;
    } else {
      JoinAppend(a[1..], b);
      assert (a + b)[1..] == a[1..] + b;
      Regroup(a[0], Join(a[1..]), Join(b));
    }
  }

  lemma JoinOne(m: seq<Mark>)
    ensures Join([m]) == m
  {
    assert [m][1..] == [];
  }

  lemma WeldJoins(a: seq<seq<Mark>>, b: seq<seq<Mark>>)
    requires a != [] && b != []
    ensures Join(Weld(a, b)) == Join(a) + Join(b)
  {
    var init, end := a[..|a| - 1], a[|a| - 1];
    JoinAppend(init + [end + b[0]], b[1..]);
    JoinAppend(init, [end + b[0]]);
    JoinAppend(init, [end]);
    JoinOne(end + b[0]);
    JoinOne(end);
    assert a == init + [end];
    assert Join(b) == b[0] + Join(b[1..]);
    assert Join(init) + (end + b[0]) + Join(b[1..]) == Join(init) + end + (b[0] + Join(b[1..]));
  }

  /** How many fields the multi-field parameters add. */
  function Extra(atoms: seq<Atom>): (n: nat) {
    if atoms == [] then 0
    else
      var a := atoms[|atoms| - 1];
      Extra(atoms[..|atoms| - 1]) + if a.Fields? && a.elements != [] then |a.elements| - 1 else 0
  }

  /** The fields concatenate to the atoms, and there is one more than the parameters add. */
  lemma {:induction false} FieldsConserveText(atoms: seq<Atom>)
    ensures Join(WeldAll(atoms)) == Flat(atoms)
    ensures |WeldAll(atoms)| == 1 + Extra(atoms)
  {
    if atoms == [] {
      JoinOne([]);
    } else {
      var init, a := atoms[..|atoms| - 1], atoms[|atoms| - 1];
      FieldsConserveText(init);
      WeldJoins(WeldAll(init), Pieces(a));
    }
  }

  /** Without multi-field parameters both paths produce the same marked bytes and the same state. */
  lemma {:induction false} PathsAgree<S>(env: Env<S>, parts: seq<Part>, st: S, quoted: bool, depth: nat)
    requires !HasFields(Atoms(env, parts, st, quoted, depth).0)
    ensures Flat(Atoms(env, parts, st, quoted, depth).0) == PartsMarks(env, parts, st, quoted, depth).0
    ensures Atoms(env, parts, st, quoted, depth).1 == PartsMarks(env, parts, st, quoted, depth).1
    decreases parts, 1
  {
    if depth > MAX_EXPAND_DEPTH {
      TooDeepAddsNothing(env, parts, st, quoted, depth);
    } else if parts != [] {
      var last := |parts| - 1;
      var (before, mid) := Atoms(env, parts[..last], st, quoted, depth);
      var (atoms, next) := PartAtoms(env, parts[last], mid, quoted, depth);
      forall a | a in before || a in atoms ensures !a.Fields? { assert a in before + atoms; }
      PathsAgree(env, parts[..last], st, quoted, depth);
      PathsAgreeOnPart(env, parts[last], mid, quoted, depth);
      FlatAppend(before, atoms);
    }
  }

  lemma {:induction false} TooDeepAddsNothing<S>(env: Env<S>, parts: seq<Part>, st: S, quoted: bool, depth: nat)
    requires depth > MAX_EXPAND_DEPTH
    ensures PartsMarks(env, parts, st, quoted, depth) == ([], st)
  {
    if parts != [] {
      TooDeepAddsNothing(env, parts[..|parts| - 1], st, quoted, depth);
      var none: seq<Mark> := [];
      assert none + none == none;
    }
  }

  lemma {:induction false} PathsAgreeOnPart<S>(env: Env<S>, part: Part, st: S, quoted: bool, depth: nat)
    requires depth <= MAX_EXPAND_DEPTH && !HasFields(PartAtoms(env, part, st, quoted, depth).0)
    ensures Flat(PartAtoms(env, part, st, quoted, depth).0) == PartMarks(env, part, st, quoted, depth).0
    ensures PartAtoms(env, part, st, quoted, depth).1 == PartMarks(env, part, st, quoted, depth).1
    decreases part, 0
  {
    var atoms := PartAtoms(env, part, st, quoted, depth).0;
    match part
    case DoubleQuoted(parts) =>
      PathsAgree(env, parts, st, true, depth + 1);
    case Substitution =>
    case _ =>
      var a := atoms[0];
      assert a in atoms;
      assert atoms == [a];
      FlatOne(a);
      JoinOne(Marks(a.text, a.literal));
  }

  // ----- a whole word, and how often it is expanded -----

  predicate PartHasMultiName(part: Part)
    decreases part, 0
  {
    match part
    case Parameter(name) => IsMultiFieldParameterName(name)
    case DoubleQuoted(parts) => HasMultiName(parts)
    case _ => false
  }

  /** Whether any parameter of a word looks multi-field. */
  predicate HasMultiName(parts: seq<Part>)
    decreases parts, 1
  {
    parts != [] && (HasMultiName(parts[..|parts| - 1]) || PartHasMultiName(parts[|parts| - 1]))
  }

  predicate PartHasFieldName(part: Part, depth: nat)
    decreases part, 0
  {
    match part
    case Parameter(name) => ExpandsToFields(name)
    case DoubleQuoted(parts) => HasFieldName(parts, depth + 1)
    case _ => false
  }

  /** Whether any parameter of a word, within the nesting limit, really expands to fields. */
  predicate HasFieldName(parts: seq<Part>, depth: nat)
    decreases parts, 1
  {
    && depth <= MAX_EXPAND_DEPTH && parts != []
    && (HasFieldName(parts[..|parts| - 1], depth) || PartHasFieldName(parts[|parts| - 1], depth))
  }

  lemma AtomsSnoc<S>(env: Env<S>, parts: seq<Part>, i: nat, st: S, quoted: bool, depth: nat)
    requires i < |parts| && depth <= MAX_EXPAND_DEPTH
    ensures var (before, mid) := Atoms(env, parts[..i], st, quoted, depth);
            var (atoms, next) := PartAtoms(env, parts[i], mid, quoted, depth);
            && Atoms(env, parts[..i + 1], st, quoted, depth) == (before + atoms, next)
            && (HasFields(before + atoms) <==> HasFields(before) || HasFields(atoms))
  {
    assert parts[..i + 1][..i] == parts[..i] && parts[..i + 1][i] == parts[i];
    var (before, mid) := Atoms(env, parts[..i], st, quoted, depth);
    HasFieldsAppend(before, PartAtoms(env, parts[i], mid, quoted, depth).0);
  }

  lemma HasFieldsAppend(a: seq<Atom>, b: seq<Atom>)
    ensures HasFields(a + b) <==> HasFields(a) || HasFields(b)
  {
    if HasFields(a) { var x :| x in a && x.Fields?; assert x in a + b; }
    if HasFields(b) { var x :| x in b && x.Fields?; assert x in a + b; }
  }

  lemma {:induction false} FieldsComeFromNames<S>(env: Env<S>, parts: seq<Part>, st: S, quoted: bool, depth: nat)
    ensures HasFields(Atoms(env, parts, st, quoted, depth).0) <==> HasFieldName(parts, depth)
    decreases parts, 1
  {
    if depth <= MAX_EXPAND_DEPTH && parts != [] {
      var last := |parts| - 1;
      var (before, mid) := Atoms(env, parts[..last], st, quoted, depth);
      FieldsComeFromNames(env, parts[..last], st, quoted, depth);
      FieldsComeFromPart(env, parts[last], mid, quoted, depth);
      HasFieldsAppend(before, PartAtoms(env, parts[last], mid, quoted, depth).0);
    }
  }

  lemma {:induction false} FieldsComeFromPart<S>(env: Env<S>, part: Part, st: S, quoted: bool, depth: nat)
    ensures HasFields(PartAtoms(env, part, st, quoted, depth).0) <==> PartHasFieldName(part, depth)
    decreases part, 0
  {
    if part.DoubleQuoted? {
      FieldsComeFromNames(env, part.parts, st, true, depth + 1);
    } else if part.Parameter? && ExpandsToFields(part.name) {
      assert Fields(env.elements(part.name, st), quoted) in PartAtoms(env, part, st, quoted, depth).0;
    }
  }

  function Bytes(marks: seq<Mark>): (r: string)
    ensures |r| == |marks|
  {
    seq(|marks|, i requires 0 <= i < |marks| => marks[i].byte)
  }

  /** A leading tilde is replaced by the home directory, and the whole field becomes unquoted. */
  function TildeMarks(home: Option<string>, marks: seq<Mark>): (r: seq<Mark>) {
    if home.Some? && marks != [] && marks[0].byte == '~' && (|marks| == 1 || marks[1].byte == '/')
    then Marks(home.value + Bytes(marks)[1..], false)
    else marks
  }

  function SingleField<S>(env: Env<S>, parts: seq<Part>, st: S): (r: (seq<seq<Mark>>, S)) {
    var (marks, next) := PartsMarks(env, parts, st, false, 0);
    ([TildeMarks(env.home(next), marks)], next)
  }

  // ----- what quoting does to the marks -----

  predicate AllLiteral(marks: seq<Mark>, literal: bool) { forall i :: 0 <= i < |marks| ==> marks[i].literal == literal }

  predicate HasQuotes(parts: seq<Part>) {
    exists i :: 0 <= i < |parts| && (parts[i].SingleQuoted? || parts[i].DoubleQuoted?)
  }

  /** Inside quotes every byte is literal, whatever it comes from ... */
  lemma {:induction false} QuotedIsLiteral<S>(env: Env<S>, parts: seq<Part>, st: S, depth: nat)
    ensures AllLiteral(PartsMarks(env, parts, st, true, depth).0, true)
    decreases parts, 1
  {
    if parts != [] {
      var last := |parts| - 1;
      QuotedIsLiteral(env, parts[..last], st, depth);
      QuotedPartIsLiteral(env, parts[last], PartsMarks(env, parts[..last], st, true, depth).1, depth);
    }
  }

  lemma {:induction false} QuotedPartIsLiteral<S>(env: Env<S>, part: Part, st: S, depth: nat)
    ensures AllLiteral(PartMarks(env, part, st, true, depth).0, true)
    decreases part, 0
  {
    if part.DoubleQuoted? { QuotedIsLiteral(env, part.parts, st, depth + 1); }
  }

  /** ... also a quoted part of a word that is not quoted as a whole ... */
  lemma QuotesMakeLiteral<S>(env: Env<S>, part: Part, st: S, quoted: bool, depth: nat)
    requires part.SingleQuoted? || part.DoubleQuoted?
    ensures AllLiteral(PartMarks(env, part, st, quoted, depth).0, true)
  {
    if part.DoubleQuoted? { QuotedIsLiteral(env, part.parts, st, depth + 1); }
  }

  /** ... and outside quotes none is. */
  lemma {:induction false} UnquotedIsActive<S>(env: Env<S>, parts: seq<Part>, st: S, depth: nat)
    requires !HasQuotes(parts)
    ensures AllLiteral(PartsMarks(env, parts, st, false, depth).0, false)
    decreases |parts|
  {
    if parts != [] {
      var last := |parts| - 1;
      assert !(parts[last].SingleQuoted? || parts[last].DoubleQuoted?);
      UnquotedIsActive(env, parts[..last], st, depth);
    }
  }

  /** But a text that starts like a home directory loses all its marks when the home directory is filled in. */
  lemma TildeDropsMarks<S>(env: Env<S>, parts: seq<Part>, st: S)
    ensures var (marks, next) := PartsMarks(env, parts, st, false, 0);
            var field := SingleField(env, parts, st).0[0];
            var text := Bytes(marks);
            if env.home(next).Some? && text != [] && text[0] == '~' && (|text| == 1 || text[1] == '/')
            then Bytes(field) == env.home(next).value + text[1..] && AllLiteral(field, false)
            else field == marks
  {
  }

  /** So a quoted pattern below `~` becomes active. */
  lemma QuotedTildeIsActive<S>(env: Env<S>, st: S)
    requires env.home(st) == Some("/h")
    ensures SingleField(env, [SingleQuoted("~/*")], st) == ([Marks("/h/*", false)], st)
  {
    var text, quoted := "~/*", [SingleQuoted("~/*")];
    assert quoted[..0] == [] && [] + Marks(text, true) == Marks(text, true);
    assert PartsMarks(env, quoted, st, false, 0) == (Marks(text, true), st);
    assert Bytes(Marks(text, true)) == text && text[1..] == "/*" && "/h" + "/*" == "/h/*";
  }

  /** Atoms that contribute nothing at all. */
  predicate Blank(atoms: seq<Atom>) {
    forall i | 0 <= i < |atoms| :: if atoms[i].Text? then atoms[i].text == [] else atoms[i].elements == []
  }

  function WordFields<S>(env: Env<S>, parts: seq<Part>, st: S): (r: (seq<seq<Mark>>, S)) {
    var (atoms, next) := Atoms(env, parts, st, false, 0);
    if !HasMultiName(parts) then SingleField(env, parts, st)
    else if !HasFields(atoms) then SingleField(env, parts, next)
    else if Blank(atoms) then ([], next)
    else (WeldAll(atoms), next)
  }

  /** The fields of several words; each starts in the state its predecessor left. */
  function ArgvFields<S>(env: Env<S>, words: seq<seq<Part>>, st: S): (r: (seq<seq<Mark>>, S)) {
    if words == [] then ([], st)
    else
      var last := |words| - 1;
      var (before, mid) := ArgvFields(env, words[..last], st);
      var (fields, next) := WordFields(env, words[last], mid);
      (before + fields, next)
  }

  /** Words that look multi-field and are not. */
  predicate ExpandsTwice(parts: seq<Part>) { HasMultiName(parts) && !HasFieldName(parts, 0) }

  /** The state passes through a word's expansions twice exactly for the words that only look multi-field. */
  lemma WordsAreExpandedOnceOrTwice<S>(env: Env<S>, parts: seq<Part>, st: S)
    ensures var once := PartsMarks(env, parts, st, false, 0).1;
            && (ExpandsTwice(parts) ==> WordFields(env, parts, st) == SingleField(env, parts, once))
            && (!HasMultiName(parts) ==> WordFields(env, parts, st).1 == once)
            && (HasFieldName(parts, 0) && HasMultiName(parts) ==>
                  WordFields(env, parts, st).1 == Atoms(env, parts, st, false, 0).1)
  {
    FieldsComeFromNames(env, parts, st, false, 0);
    if ExpandsTwice(parts) { PathsAgree(env, parts, st, false, 0); }
  }

  /** A word where this shows: a length next to a counter adds two to the counter. */
  lemma CounterAdvancesTwice(env: Env<int>, st: int)
    requires forall name, depth, n :: env.parameter(name, depth, n).1 == n
    requires forall expr, n :: env.arithmetic(expr, n).1 == n + 1
    ensures WordFields(env, [Parameter("#a[@]"), Arithmetic("i++")], st).1 == st + 2
  {
    var length, counter := Parameter("#a[@]"), Arithmetic("i++");
    var parts := [length, counter];
    LooksMultiField();
    NamesSnoc([], length);
    NamesSnoc([length], counter);
    assert [] + [length] == [length] && [length] + [counter] == parts;
    WordsAreExpandedOnceOrTwice(env, parts, st);
    OnePass(env, st);
    OnePass(env, st + 1);
  }

  lemma NamesSnoc(parts: seq<Part>, part: Part)
    ensures HasMultiName(parts + [part]) <==> HasMultiName(parts) || PartHasMultiName(part)
    ensures HasFieldName(parts + [part], 0) <==> HasFieldName(parts, 0) || PartHasFieldName(part, 0)
  {
    assert (parts + [part])[..|parts|] == parts;
  }

  lemma LooksMultiField()
    ensures IsMultiFieldParameterName("#a[@]") && !ExpandsToFields("#a[@]")
  {
    var name := "#a[@]";
    assert IsAll(name, 2) && !IsAll(name, 0) && !IsAll(name, 1);
    assert FindAll(name, 0) == 2;
    assert name[..2][0] == '#';
    NamesDisagreeExactly(name);
  }

  lemma OnePass(env: Env<int>, st: int)
    requires forall name, depth, n :: env.parameter(name, depth, n).1 == n
    requires forall expr, n :: env.arithmetic(expr, n).1 == n + 1
    ensures PartsMarks(env, [Parameter("#a[@]"), Arithmetic("i++")], st, false, 0).1 == st + 1
  {
    var parts := [Parameter("#a[@]"), Arithmetic("i++")];
    assert parts[..1] == [Parameter("#a[@]")] && parts[..1][..0] == [];
    assert PartsMarks(env, parts[..1], st, false, 0).1 == st;
  }

  // ----- the expander -----

  datatype ExpandedWord = ExpandedWord(text: string, wasQuoted: bool, literal: seq<bool>)

  /** A field whose text and mask line up and spell the given marks. */
  predicate Spells(w: ExpandedWord, marks: seq<Mark>) {
    && |w.literal| == |w.text|
    && Zip(w.text, w.literal) == marks
    && (w.wasQuoted <==> exists i :: 0 <= i < |w.literal| && w.literal[i])
  }

  predicate SpellAll(words: seq<ExpandedWord>, fields: seq<seq<Mark>>) {
    |words| == |fields| && forall i | 0 <= i < |words| :: Spells(words[i], fields[i])
  }

  predicate Aligned(fields: seq<string>, masks: seq<seq<bool>>) {
    |fields| == |masks| && forall i | 0 <= i < |fields| :: |fields[i]| == |masks[i]|
  }

  function ZipAll(fields: seq<string>, masks: seq<seq<bool>>): (r: seq<seq<Mark>>)
    requires Aligned(fields, masks)
    ensures |r| == |fields|
  {
    seq(|fields|, i requires 0 <= i < |fields| => Zip(fields[i], masks[i]))
  }

  method PushMasked(text: string, mask: seq<bool>, value: string, literal: bool) returns (t: string, m: seq<bool>)
    requires |text| == |mask|
    ensures |t| == |m| && Zip(t, m) == Zip(text, mask) + Marks(value, literal)
  {
    ZipAppend(text, mask, value, literal);
    t := text + value;
    m := mask + seq(|value|, _ => literal);
  }

  method MakeWord(text: string, literal: seq<bool>) returns (w: ExpandedWord)
    requires |text| == |literal|
    ensures Spells(w, Zip(text, literal))
  {
    var wasQuoted := false;
    for i := 0 to |literal|
      invariant wasQuoted <==> exists k :: 0 <= k < i && literal[k]
    {
      if literal[i] { wasQuoted := true; }
    }
    w := ExpandedWord(text, wasQuoted, literal);
  }

  method MakeWords(fields: seq<string>, masks: seq<seq<bool>>) returns (words: seq<ExpandedWord>)
    requires Aligned(fields, masks)
    ensures SpellAll(words, ZipAll(fields, masks))
  {
    words := [];
    for i := 0 to |fields|
      invariant |words| == i
      invariant forall k | 0 <= k < i :: Spells(words[k], ZipAll(fields, masks)[k])
    {
      var w := MakeWord(fields[i], masks[i]);
      words := words + [w];
    }
  }

  /** Starts a field for each element. */
  method StartFields(fields: seq<string>, masks: seq<seq<bool>>, elements: seq<string>, literal: bool)
    returns (f: seq<string>, m: seq<seq<bool>>)
    requires Aligned(fields, masks)
    ensures Aligned(f, m) && |f| == |fields| + |elements|
    ensures forall k | 0 <= k < |fields| :: f[k] == fields[k] && m[k] == masks[k]
    ensures forall k | 0 <= k < |elements| :: Zip(f[|fields| + k], m[|fields| + k]) == Marks(elements[k], literal)
  {
    f, m := fields, masks;
    for i := 0 to |elements|
      invariant |f| == |fields| + i && Aligned(f, m)
      invariant forall k | 0 <= k < |fields| :: f[k] == fields[k] && m[k] == masks[k]
      invariant forall k | 0 <= k < i :: Zip(f[|fields| + k], m[|fields| + k]) == Marks(elements[k], literal)
    {
      f, m := f + [elements[i]], m + [seq(|elements[i]|, _ => literal)];
      assert Zip(f[|fields| + i], m[|fields| + i]) == Marks(elements[i], literal);
    }
  }

  /** Appends an atom's first piece to the last field and starts a field for each later piece. */
  method AppendElements(fields: seq<string>, masks: seq<seq<bool>>, elements: seq<string>, literal: bool)
    returns (f: seq<string>, m: seq<seq<bool>>)
    requires fields != [] && Aligned(fields, masks) && elements != []
    ensures f != [] && Aligned(f, m)
    ensures ZipAll(f, m) == Weld(ZipAll(fields, masks), Pieces(Fields(elements, literal)))
  {
    var last := |fields| - 1;
    var text, mask := PushMasked(fields[last], masks[last], elements[0], literal);
    f, m := StartFields(fields[last := text], masks[last := mask], elements[1..], literal);
    ghost var pieces := Pieces(Fields(elements, literal));
    forall k | 1 <= k < |elements| ensures ZipAll(f, m)[last + k] == pieces[k] {
      assert elements[1..][k - 1] == elements[k];
      assert ZipAll(f, m)[last + k] == Zip(f[|fields| + (k - 1)], m[|fields| + (k - 1)]);
    }
    WeldedAt(ZipAll(f, m), ZipAll(fields, masks), pieces);
  }

  lemma WeldedAt(r: seq<seq<Mark>>, a: seq<seq<Mark>>, b: seq<seq<Mark>>)
    requires a != [] && b != [] && |r| == |a| + |b| - 1
    requires forall k | 0 <= k < |a| - 1 :: r[k] == a[k]
    requires r[|a| - 1] == a[|a| - 1] + b[0]
    requires forall k | 1 <= k < |b| :: r[|a| - 1 + k] == b[k]
    ensures r == Weld(a, b)
  {
    forall k | 0 <= k < |r| ensures r[k] == Weld(a, b)[k] {
      if k >= |a| { assert r[|a| - 1 + (k - |a| + 1)] == b[k - |a| + 1]; }
    }
  }

  lemma WeldBlank(a: seq<seq<Mark>>)
    requires a != []
    ensures Weld(a, [[]]) == a
  {
    assert a[|a| - 1] + [] == a[|a| - 1];
  }

  lemma {:induction false} BlankWelds(atoms: seq<Atom>)
    requires Blank(atoms)
    ensures WeldAll(atoms) == [[]]
  {
    if atoms != [] {
      BlankWelds(atoms[..|atoms| - 1]);
      WeldBlank([[]]);
      assert Pieces(atoms[|atoms| - 1]) == [[]];
    }
  }

  /** The field list built atom by atom. */
  method AssembleFields(atoms: seq<Atom>) returns (fields: seq<string>, masks: seq<seq<bool>>, hadText: bool)
    ensures Aligned(fields, masks) && ZipAll(fields, masks) == WeldAll(atoms)
    ensures hadText <==> !Blank(atoms)
  {
    fields, masks, hadText := [[]], [[]], false;
    assert ZipAll(fields, masks) == [[]];
    for i := 0 to |atoms|
      invariant fields != [] && Aligned(fields, masks) && ZipAll(fields, masks) == WeldAll(atoms[..i])
      invariant hadText <==> !Blank(atoms[..i])
    {
      var a := atoms[i];
      assert atoms[..i + 1][..i] == atoms[..i] && atoms[..i + 1][i] == a;
      WeldBlank(ZipAll(fields, masks));
      BlankSnoc(atoms, i);
      if a.Text? {
        if a.text != [] {
          assert Pieces(a) == Pieces(Fields([a.text], a.literal));
          fields, masks := AppendElements(fields, masks, [a.text], a.literal);
          hadText := true;
        } else {
          assert Pieces(a) == [[]];
        }
      } else if a.elements != [] {
        fields, masks := AppendElements(fields, masks, a.elements, a.literal);
        hadText := true;
      }
    }
    assert atoms[..|atoms|] == atoms;
  }

  /** A word whose atoms are all empty disappears. */
  method FieldsOrNothing(atoms: seq<Atom>) returns (words: seq<ExpandedWord>)
    ensures SpellAll(words, if Blank(atoms) then [] else WeldAll(atoms))
  {
    var fields, masks, hadText := AssembleFields(atoms);
    if !hadText {
      BlankWelds(atoms);
      assert |ZipAll(fields, masks)[0]| == 0;
      if |fields| == 1 && fields[0] == [] { return []; }
    }
    words := MakeWords(fields, masks);
  }

  lemma BlankSnoc(atoms: seq<Atom>, i: nat)
    requires i < |atoms|
    ensures Blank(atoms[..i + 1]) <==>
            Blank(atoms[..i]) && if atoms[i].Text? then atoms[i].text == [] else atoms[i].elements == []
  {
    if Blank(atoms[..i + 1]) {
      forall k | 0 <= k < i
        ensures if atoms[..i][k].Text? then atoms[..i][k].text == [] else atoms[..i][k].elements == []
      {
        assert atoms[..i + 1][k] == atoms[..i][k];
      }
      assert atoms[..i + 1][i] == atoms[i];
    }
  }

  class Expander<S> {
    const env: Env<S>
    var state: S

    constructor (e: Env<S>, initial: S)
      ensures env == e && state == initial
    {
      env, state := e, initial;
    }

    method ExpandPartMasked(part: Part, text0: string, mask0: seq<bool>, quoted: bool, depth: nat)
      returns (text: string, mask: seq<bool>)
      requires |text0| == |mask0|
      modifies this
      ensures |text| == |mask|
      ensures var (marks, next) := PartMarks(env, part, old(state), quoted, depth);
              Zip(text, mask) == Zip(text0, mask0) + marks && state == next
      decreases part, 0
    {
      text, mask := text0, mask0;
      if depth > MAX_EXPAND_DEPTH { return; }
      match part
      case Literal(s) => text, mask := PushMasked(text, mask, s, quoted);
      case SingleQuoted(s) => text, mask := PushMasked(text, mask, s, true);
      case DoubleQuoted(parts) => text, mask := ExpandPartsMasked(parts, text, mask, true, depth + 1);
      case Parameter(name) =>
        var (value, next) := env.parameter(name, depth + 1, state);
        state := next;
        text, mask := PushMasked(text, mask, value, quoted);
      case Arithmetic(expr) =>
        var (value, next) := env.arithmetic(expr, state);
        state := next;
        text, mask := PushMasked(text, mask, value, quoted);
      case Substitution =>
    }

    method ExpandPartsMasked(parts: seq<Part>, text0: string, mask0: seq<bool>, quoted: bool, depth: nat)
      returns (text: string, mask: seq<bool>)
      requires |text0| == |mask0|
      modifies this
      ensures |text| == |mask|
      ensures var (marks, next) := PartsMarks(env, parts, old(state), quoted, depth);
              Zip(text, mask) == Zip(text0, mask0) + marks && state == next
      decreases parts, 1
    {
      text, mask := text0, mask0;
      for i := 0 to |parts|
        invariant |text| == |mask|
        invariant var (marks, next) := PartsMarks(env, parts[..i], old(state), quoted, depth);
                  Zip(text, mask) == Zip(text0, mask0) + marks && state == next
      {
        assert parts[..i + 1][..i] == parts[..i] && parts[..i + 1][i] == parts[i];
        text, mask := ExpandPartMasked(parts[i], text, mask, quoted, depth);
      }
      assert parts[..|parts|] == parts;
    }

    /** The single-field path. */
    method ExpandWordMasked(parts: seq<Part>) returns (text: string, mask: seq<bool>)
      modifies this
      ensures |text| == |mask| && ([Zip(text, mask)], state) == SingleField(env, parts, old(state))
    {
      text, mask := ExpandPartsMasked(parts, [], [], false, 0);
      ghost var marks := PartsMarks(env, parts, old(state), false, 0).0;
      assert Zip(text, mask) == marks;
      if text != [] && text[0] == '~' && (|text| == 1 || text[1] == '/') {
        var home := env.home(state);
        if home.Some? {
          assert text[1..] == Bytes(marks)[1..];
          text := home.value + text[1..];
          mask := seq(|text|, _ => false);
          assert Zip(text, mask) == Marks(text, false);
        }
      }
    }

    method CollectMultiAtoms(parts: seq<Part>, atoms0: seq<Atom>, hasFields0: bool, quoted: bool, depth: nat)
      returns (atoms: seq<Atom>, hasFields: bool)
      modifies this
      ensures var (added, next) := Atoms(env, parts, old(state), quoted, depth);
              && atoms == atoms0 + added && state == next
              && (hasFields <==> hasFields0 || HasFields(added))
      decreases parts, 1
    {
      atoms, hasFields := atoms0, hasFields0;
      if depth > MAX_EXPAND_DEPTH { return; }
      for i := 0 to |parts|
        invariant var (added, next) := Atoms(env, parts[..i], old(state), quoted, depth);
                  && atoms == atoms0 + added && state == next
                  && (hasFields <==> hasFields0 || HasFields(added))
      {
        AtomsSnoc(env, parts, i, old(state), quoted, depth);
        atoms, hasFields := CollectPartAtoms(parts[i], atoms, hasFields, quoted, depth);
      }
      assert parts[..|parts|] == parts;
    }

    method CollectPartAtoms(part: Part, atoms0: seq<Atom>, hasFields0: bool, quoted: bool, depth: nat)
      returns (atoms: seq<Atom>, hasFields: bool)
      modifies this
      ensures var (added, next) := PartAtoms(env, part, old(state), quoted, depth);
              && atoms == atoms0 + added && state == next
              && (hasFields <==> hasFields0 || HasFields(added))
      decreases part, 0
    {
      atoms, hasFields := atoms0, hasFields0;
      match part
      case Literal(s) => atoms := atoms + [Text(s, quoted)];
      case SingleQuoted(s) => atoms := atoms + [Text(s, true)];
      case DoubleQuoted(parts) => atoms, hasFields := CollectMultiAtoms(parts, atoms, hasFields, true, depth + 1);
      case Parameter(name) =>
        if ExpandsToFields(name) {
          hasFields := true;
          ghost var added := Fields(env.elements(name, state), quoted);
          assert added in [added];
          atoms := atoms + [Fields(env.elements(name, state), quoted)];
        } else {
          var (value, next) := env.parameter(name, depth + 1, state);
          state := next;
          atoms := atoms + [Text(value, quoted)];
        }
      case Arithmetic(expr) =>
        var (value, next) := env.arithmetic(expr, state);
        state := next;
        atoms := atoms + [Text(value, quoted)];
      case Substitution =>
    }

    /** The multi-field path; nothing when the word has no multi-field parameter after all. */
    method ExpandWordMulti(parts: seq<Part>) returns (r: Option<seq<ExpandedWord>>)
      modifies this
      ensures var (atoms, next) := Atoms(env, parts, old(state), false, 0);
              && state == next
              && (r.None? <==> !HasFields(atoms))
              && (r.Some? ==> SpellAll(r.value, if Blank(atoms) then [] else WeldAll(atoms)))
    {
      var atoms, hasFields := CollectMultiAtoms(parts, [], false, false, 0);
      assert atoms == Atoms(env, parts, old(state), false, 0).0;
      if !hasFields { return None; }
      var words := FieldsOrNothing(atoms);
      r := Some(words);
    }

    /** The argument fields of one word. */
    method ExpandWordArgv(parts: seq<Part>) returns (words: seq<ExpandedWord>)
      modifies this
      ensures var (fields, next) := WordFields(env, parts, old(state)); SpellAll(words, fields) && state == next
    {
      if HasMultiName(parts) {
        var multi := ExpandWordMulti(parts);
        if multi.Some? { return multi.value; }
      }
      var text, literal := ExpandWordMasked(parts);
      var w := MakeWord(text, literal);
      words := [w];
    }

    /** The argument fields of all words, expanded from left to right. */
    method ExpandWordsArgv(words: seq<seq<Part>>) returns (result: seq<ExpandedWord>)
      modifies this
      ensures var (fields, next) := ArgvFields(env, words, old(state)); SpellAll(result, fields) && state == next
    {
      result := [];
      for i := 0 to |words|
        invariant var (fields, next) := ArgvFields(env, words[..i], old(state));
                  SpellAll(result, fields) && state == next
      {
        assert words[..i + 1][..i] == words[..i] && words[..i + 1][i] == words[i];
        var expanded := ExpandWordArgv(words[i]);
        result := result + expanded;
      }
      assert words[..|words|] == words;
    }
  }
}
