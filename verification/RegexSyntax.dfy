/**
 * The syntax of `=~` patterns: how pattern text reads as a tree.
 */
module RegexSyntax {
  import opened Wrappers
  import GlobSpec
  import RuntimeGlob

  type Elem = GlobSpec.Elem

  // ----- reading a pattern -----

  datatype Quant = Once | Maybe | Any | Many

  function QuantAt(pat: string, k: nat): (q: Quant) {
    if k >= |pat| then Once
    else if pat[k] == '*' then Any
    else if pat[k] == '+' then Many
    else if pat[k] == '?' then Maybe
    else Once
  }

  /** The element a non-empty pattern starts with, and its length. */
  function ElemAt(pat: string): (r: (nat, Elem))
    requires pat != []
    ensures 1 <= r.0 <= |pat|
  {
    if pat[0] == '.' then (1, GlobSpec.AnyOne)
    else if pat[0] == '[' then ClassAt(pat)
    else if pat[0] == '\\' && |pat| > 1 then (2, GlobSpec.Lit(pat[1]))
    else (1, GlobSpec.Lit(pat[0]))
  }

  function ClassAt(pat: string): (r: (nat, Elem))
    requires pat != []
    ensures 1 <= r.0 <= |pat|
  {
    var negated := |pat| > 1 && (pat[1] == '^' || pat[1] == '!');
    var (end, ranges) := RuntimeGlob.Items(pat, if negated then 2 else 1, false);
    (if end < |pat| then end + 1 else end, GlobSpec.Class(negated, ranges))
  }

  /** What is left of the pattern behind its first element and quantifier. */
  function AfterElem(pat: string): (r: string)
    requires pat != []
    ensures |r| < |pat|
  {
    var k := ElemAt(pat).0;
    if QuantAt(pat, k) == Once then pat[k..] else pat[k + 1..]
  }

  function ElemQuant(pat: string): Quant
    requires pat != []
  {
    QuantAt(pat, ElemAt(pat).0)
  }

  /** The `)` that closes the group whose body starts at `i`. */
  function CloseParen(pat: string, i: nat, depth: nat): (r: Option<nat>)
    ensures r.Some? ==> i <= r.value < |pat|
    decreases |pat| - i
  {
    if i >= |pat| then None
    else if pat[i] == '\\' then CloseParen(pat, i + 2, depth)
    else if pat[i] == '(' then CloseParen(pat, i + 1, depth + 1)
    else if pat[i] == ')' then if depth <= 1 then Some(i) else CloseParen(pat, i + 1, depth - 1)
    else CloseParen(pat, i + 1, depth)
  }

  /** The alternatives of a group body: split at `|` outside nested groups. */
  function Alternatives(pat: string, i: nat, depth: int, current: string): (r: seq<string>)
    requires i <= |pat|
    ensures r != [] && forall a :: a in r ==> |a| <= |current| + |pat| - i
    decreases |pat| - i
  {
    if i == |pat| then [current]
    else if pat[i] == '\\' && i + 1 < |pat| then Alternatives(pat, i + 2, depth, current + [pat[i], pat[i + 1]])
    else if pat[i] == '(' then Alternatives(pat, i + 1, depth + 1, current + [pat[i]])
    else if pat[i] == ')' then Alternatives(pat, i + 1, depth - 1, current + [pat[i]])
    else if pat[i] == '|' && depth == 0 then [current] + Alternatives(pat, i + 1, depth, "")
    else Alternatives(pat, i + 1, depth, current + [pat[i]])
  }

  /** A group at the front of a pattern: its alternatives and where it closes. */
  datatype Group = Group(alts: seq<string>, close: nat)

  function GroupAt(pat: string): (r: Option<Group>)
    requires pat != []
    ensures r.Some? ==> r.value.close < |pat| && forall a :: a in r.value.alts ==> |a| < |pat|
  {
    match CloseParen(pat, 1, 1)
    case None => None
    case Some(close) => Some(Group(Alternatives(pat[1..close], 0, 0, ""), close))
  }

  function GroupQuant(pat: string, g: Group): Quant { QuantAt(pat, g.close + 1) }

  function AfterGroup(pat: string, g: Group): (r: string)
    requires g.close < |pat|
    ensures |r| < |pat|
  {
    if GroupQuant(pat, g) == Once then pat[g.close + 1..] else pat[g.close + 2..]
  }

  // ----- patterns as trees -----

  datatype Pat =
    | End
    | Broken
    | One(elem: Elem, quant: Quant, rest: Pat)
    | Grp(alts: seq<Pat>, quant: Quant, rest: Pat)

  /**
   * The tree of a pattern.  At the top level groups may be quantified and are
   * the ones captured; inside a group, a quantifier behind a nested group is
   * an ordinary byte.
   */
  function Read(pat: string, top: bool): (p: Pat)
    decreases |pat|, 1
  {
    if pat == [] then End
    else if pat[0] == '(' then ReadGroup(pat, top)
    else ReadElem(pat, top)
  }

  function ReadElem(pat: string, top: bool): (p: Pat)
    requires pat != []
    decreases |pat|, 0
  {
    One(ElemAt(pat).1, ElemQuant(pat), Read(AfterElem(pat), top))
  }

  function ReadGroup(pat: string, top: bool): (p: Pat)
    requires pat != []
    decreases |pat|, 0
  {
    match GroupAt(pat)
    case None => Broken
    case Some(g) =>
      var alts := seq(|g.alts|, k requires 0 <= k < |g.alts| => Read(g.alts[k], false));
      if top then Grp(alts, GroupQuant(pat, g), Read(AfterGroup(pat, g), true))
      else Grp(alts, Once, Read(pat[g.close + 1..], false))
  }

  function ReadAll(alts: seq<string>): (ps: seq<Pat>)
    ensures |ps| == |alts| && forall k :: 0 <= k < |alts| ==> ps[k] == Read(alts[k], false)
  {
    seq(|alts|, k requires 0 <= k < |alts| => Read(alts[k], false))
  }

  lemma ReadsGroup(pat: string, g: Group)
    requires pat != [] && pat[0] == '(' && GroupAt(pat) == Some(g)
    ensures Read(pat, true) == Grp(ReadAll(g.alts), GroupQuant(pat, g), Read(AfterGroup(pat, g), true))
  {
    assert Read(pat, true) == ReadGroup(pat, true);
    assert ReadGroup(pat, true).alts == ReadAll(g.alts);
  }

  lemma ReadsNested(pat: string, g: Group)
    requires pat != [] && pat[0] == '(' && GroupAt(pat) == Some(g)
    ensures Read(pat, false) == Grp(ReadAll(g.alts), Once, Read(pat[g.close + 1..], false))
  {
    assert Read(pat, false) == ReadGroup(pat, false);
    assert ReadGroup(pat, false).alts == ReadAll(g.alts);
  }

  lemma ReadsElem(pat: string)
    requires pat != [] && pat[0] != '('
    ensures Read(pat, true) == One(ElemAt(pat).1, ElemQuant(pat), Read(AfterElem(pat), true))
  {
    assert Read(pat, true) == ReadElem(pat, true);
  }
}
