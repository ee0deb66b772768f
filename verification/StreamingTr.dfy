/**
 * The streaming `tr` stage: a reader that decodes, edits and re-encodes a byte
 * stream delivered in arbitrary chunks, and the whole-input function it equals.
 */
module StreamingTr {
  import opened Wrappers
  import opened Utf8

  datatype Stage = Stage(delete: bool, squeeze: bool, complement: bool,
                         fromChars: seq<Scalar>, toChars: seq<Scalar>)

  // ----- what one character becomes -----

  predicate InFromSet(st: Stage, ch: Scalar) {
    (ch in st.fromChars) != st.complement
  }

  /** The ASCII characters from `b` on that are not in `chars`, in order. */
  function AsciiComplement(chars: seq<Scalar>, b: nat): (r: seq<Scalar>)
    requires b <= 128
    decreases 128 - b
  {
    if b == 128 then []
    else (if b in chars then [] else [b]) + AsciiComplement(chars, b + 1)
  }

  function TranslateSet(st: Stage): seq<Scalar> {
    if st.complement then AsciiComplement(st.fromChars, 0) else st.fromChars
  }

  function Position(s: seq<Scalar>, ch: Scalar): (i: nat)
    ensures i <= |s| && (i < |s| ==> s[i] == ch) && ch !in s[..i]
    ensures i == |s| <==> ch !in s
  {
    if s == [] || s[0] == ch then 0 else
      var i := 1 + Position(s[1..], ch);
      assert s[..i] == [s[0]] + s[1..][..i - 1];
      i
  }

  function Translate(st: Stage, ch: Scalar): (r: Scalar) {
    var i := Position(TranslateSet(st), ch);
    if i == |TranslateSet(st)| || st.toChars == [] then ch
    else if i < |st.toChars| then st.toChars[i]
    else st.toChars[|st.toChars| - 1]
  }

  /** What is emitted for `ch` after `prev` was emitted last, if anything. */
  function Emitted(st: Stage, prev: Option<Scalar>, ch: Scalar): (r: Option<Scalar>) {
    if st.delete then
      if InFromSet(st, ch) then None
      else if st.squeeze && ch in st.toChars && prev == Some(ch) then None
      else Some(ch)
    else if st.squeeze && st.toChars == [] then
      if ch in st.fromChars && prev == Some(ch) then None else Some(ch)
    else
      var t := Translate(st, ch);
      if st.squeeze && t in st.toChars && prev == Some(t) then None else Some(t)
  }

  function Edit(st: Stage, prev: Option<Scalar>, cs: seq<Scalar>): (r: seq<Scalar>)
    decreases |cs|
  {
    if cs == [] then []
    else match Emitted(st, prev, cs[0])
      case None => Edit(st, prev, cs[1..])
      case Some(e) => [e] + Edit(st, Some(e), cs[1..])
  }

  function LastOr(prev: Option<Scalar>, out: seq<Scalar>): Option<Scalar> {
    if out == [] then prev else Some(out[|out| - 1])
  }

  lemma {:induction false} EditResumes(st: Stage, prev: Option<Scalar>, a: seq<Scalar>, b: seq<Scalar>)
    ensures Edit(st, prev, a + b) ==
            Edit(st, prev, a) + Edit(st, LastOr(prev, Edit(st, prev, a)), b)
    decreases |a|
  {
    if a == [] {
      assert a + b == b;
    } else {
      assert (a + b)[1..] == a[1..] + b;
      var e := Emitted(st, prev, a[0]);
      EditResumes(st, if e.Some? then e else prev, a[1..], b);
    }
  }

  // ----- what the three modes promise -----

  /** The characters outside the set, or with complement those inside. */
  function Keep(st: Stage, cs: seq<Scalar>): (r: seq<Scalar>) {
    if cs == [] then []
    else (if (cs[0] in st.fromChars) == st.complement then [cs[0]] else []) + Keep(st, cs[1..])
  }

  /** Deleting without squeezing filters out exactly the members of the set. */
  lemma {:induction false} DeleteFilters(st: Stage, prev: Option<Scalar>, cs: seq<Scalar>)
    requires st.delete && !st.squeeze
    ensures Edit(st, prev, cs) == Keep(st, cs)
    decreases |cs|
  {
    if cs != [] {
      DeleteFilters(st, prev, cs[1..]);
      DeleteFilters(st, Some(cs[0]), cs[1..]);
      assert [] + Keep(st, cs[1..]) == Keep(st, cs[1..]);
    }
  }

  /** Translating without squeezing replaces each character on its own. */
  lemma {:induction false} TranslateMaps(st: Stage, prev: Option<Scalar>, cs: seq<Scalar>)
    requires !st.delete && !st.squeeze
    ensures |Edit(st, prev, cs)| == |cs|
    ensures forall i :: 0 <= i < |cs| ==> Edit(st, prev, cs)[i] == Translate(st, cs[i])
    decreases |cs|
  {
    if cs != [] { TranslateMaps(st, Some(Translate(st, cs[0])), cs[1..]); }
  }

  /** What stands in place `i` of the replacement; the last one also stands for all behind it. */
  function Replacement(st: Stage, i: nat): Scalar
    requires st.toChars != []
  {
    if i < |st.toChars| then st.toChars[i] else st.toChars[|st.toChars| - 1]
  }

  /** A character becomes what stands in its first place in the set ... */
  lemma MembersAreReplaced(st: Stage, prev: Option<Scalar>, cs: seq<Scalar>, k: nat, i: nat)
    requires !st.delete && !st.squeeze && !st.complement && st.toChars != []
    requires k < |cs| && i < |st.fromChars| && cs[k] == st.fromChars[i] && cs[k] !in st.fromChars[..i]
    ensures |Edit(st, prev, cs)| == |cs| && Edit(st, prev, cs)[k] == Replacement(st, i)
  {
    TranslateMaps(st, prev, cs);
    FirstPlace(st.fromChars, cs[k], i);
  }

  lemma {:induction false} FirstPlace(s: seq<Scalar>, ch: Scalar, i: nat)
    requires i < |s| && s[i] == ch && ch !in s[..i]
    ensures Position(s, ch) == i
    decreases i
  {
    if i > 0 {
      assert s[..i] == [s[0]] + s[1..][..i - 1];
      FirstPlace(s[1..], ch, i - 1);
    }
  }

  /** The ASCII characters below `ch` that are not in `chars`. */
  ghost function Below(chars: seq<Scalar>, b: nat, ch: Scalar): set<int> {
    set x: int | b <= x < ch && x !in chars
  }

  /** ... and with complement, in its place among the ASCII characters outside the set. */
  lemma OthersAreReplaced(st: Stage, prev: Option<Scalar>, cs: seq<Scalar>, k: nat)
    requires !st.delete && !st.squeeze && st.complement && st.toChars != []
    requires k < |cs| && cs[k] < 128 && cs[k] !in st.fromChars
    ensures |Edit(st, prev, cs)| == |cs| && Edit(st, prev, cs)[k] == Replacement(st, |Below(st.fromChars, 0, cs[k])|)
  {
    TranslateMaps(st, prev, cs);
    PlaceInComplement(st.fromChars, 0, cs[k]);
  }

  lemma PositionCons(x: Scalar, s: seq<Scalar>, ch: Scalar)
    ensures Position([x] + s, ch) == if x == ch then 0 else 1 + Position(s, ch)
  {
    assert ([x] + s)[1..] == s;
  }

  lemma BelowStep(chars: seq<Scalar>, b: nat, ch: Scalar)
    requires b < ch
    ensures |Below(chars, b, ch)| == |Below(chars, b + 1, ch)| + if b in chars then 0 else 1
  {
    if b in chars {
      assert Below(chars, b, ch) == Below(chars, b + 1, ch);
    } else {
      assert Below(chars, b, ch) == Below(chars, b + 1, ch) + {b as int};
    }
  }

  lemma {:induction false} PlaceInComplement(chars: seq<Scalar>, b: nat, ch: Scalar)
    requires b <= ch < 128 && ch !in chars
    ensures Position(AsciiComplement(chars, b), ch) == |Below(chars, b, ch)|
    ensures |Below(chars, b, ch)| < |AsciiComplement(chars, b)|
    decreases ch - b
  {
    ComplementStep(chars, b, ch);
    if b == ch {
      assert Below(chars, b, ch) == {};
    } else {
      PlaceInComplement(chars, b + 1, ch);
      BelowStep(chars, b, ch);
    }
  }

  lemma ComplementStep(chars: seq<Scalar>, b: nat, ch: Scalar)
    requires b < 128
    ensures var all, more := AsciiComplement(chars, b), AsciiComplement(chars, b + 1);
            && |all| == |more| + (if b in chars then 0 else 1)
            && Position(all, ch) ==
               if b in chars then Position(more, ch) else if b == ch then 0 else 1 + Position(more, ch)
  {
    var more := AsciiComplement(chars, b + 1);
    assert [] + more == more;
    PositionCons(b, more, ch);
  }

  /** Every other character stays as it is. */
  lemma RestIsUnchanged(st: Stage, prev: Option<Scalar>, cs: seq<Scalar>, k: nat)
    requires !st.delete && !st.squeeze && k < |cs|
    requires st.toChars == [] ||
             if st.complement then cs[k] in st.fromChars || cs[k] >= 128 else cs[k] !in st.fromChars
    ensures |Edit(st, prev, cs)| == |cs| && Edit(st, prev, cs)[k] == cs[k]
  {
    TranslateMaps(st, prev, cs);
    if st.complement { ComplementMembers(st.fromChars, 0, cs[k]); }
  }

  lemma {:induction false} ComplementMembers(chars: seq<Scalar>, b: nat, ch: Scalar)
    requires b <= 128
    ensures ch in AsciiComplement(chars, b) <==> b <= ch < 128 && ch !in chars
    decreases 128 - b
  {
    if b < 128 { ComplementMembers(chars, b + 1, ch); }
  }

  /** The set whose repeats a squeezing stage removes. */
  function SqueezeSet(st: Stage): seq<Scalar> {
    if !st.delete && st.toChars == [] then st.fromChars else st.toChars
  }

  /** What was emitted just before `out[i]`, when `prev` preceded `out`. */
  function Before(prev: Option<Scalar>, out: seq<Scalar>, i: nat): (r: Option<Scalar>)
    requires i < |out|
  {
    if i == 0 then prev else Some(out[i - 1])
  }

  predicate NoRepeats(prev: Option<Scalar>, out: seq<Scalar>, squeezed: seq<Scalar>) {
    forall i :: 0 <= i < |out| && out[i] in squeezed ==> Before(prev, out, i) != Some(out[i])
  }

  /** A squeezing stage never emits a member of its set twice in a row. */
  lemma {:induction false} SqueezeLeavesNoRepeats(st: Stage, prev: Option<Scalar>, cs: seq<Scalar>)
    requires st.squeeze
    ensures NoRepeats(prev, Edit(st, prev, cs), SqueezeSet(st))
    decreases |cs|
  {
    if cs != [] {
      var e := Emitted(st, prev, cs[0]);
      if e.None? {
        SqueezeLeavesNoRepeats(st, prev, cs[1..]);
      } else {
        var later := Edit(st, e, cs[1..]);
        SqueezeLeavesNoRepeats(st, e, cs[1..]);
        var out := [e.value] + later;
        forall i | 0 < i < |out| && out[i] in SqueezeSet(st)
          ensures Before(prev, out, i) != Some(out[i])
        {
          assert out[i] == later[i - 1];
          assert Before(prev, out, i) == Before(e, later, i - 1);
        }
      }
    }
  }

  /** Without each member of the set that repeats the character before it. */
  function Collapse(prev: Option<Scalar>, xs: seq<Scalar>, squeezed: seq<Scalar>): (r: seq<Scalar>)
    decreases |xs|
  {
    if xs == [] then []
    else (if xs[0] in squeezed && prev == Some(xs[0]) then [] else [xs[0]]) + Collapse(Some(xs[0]), xs[1..], squeezed)
  }

  lemma CollapseCons(prev: Option<Scalar>, x: Scalar, xs: seq<Scalar>, squeezed: seq<Scalar>)
    ensures Collapse(prev, [x] + xs, squeezed) ==
            (if x in squeezed && prev == Some(x) then [] else [x]) + Collapse(Some(x), xs, squeezed)
  {
    assert ([x] + xs)[1..] == xs;
  }

  /** A squeezing stage holds back a character exactly if it repeats the last one and is in the set. */
  lemma EmittedSqueezing(st: Stage, prev: Option<Scalar>, ch: Scalar)
    requires st.squeeze
    ensures var raw := Emitted(st.(squeeze := false), prev, ch);
            Emitted(st, prev, ch) == if raw.Some? && raw.value in SqueezeSet(st) && prev == raw then None else raw
  {
    var plain := st.(squeeze := false);
    if !st.delete {
      assert TranslateSet(plain) == TranslateSet(st);
      assert Emitted(plain, prev, ch) == Some(Translate(plain, ch)) == Some(Translate(st, ch));
    }
  }

  /** Squeezing removes from what the stage would emit otherwise exactly the repeats of members of its set. */
  lemma {:induction false} SqueezeCollapses(st: Stage, prev: Option<Scalar>, cs: seq<Scalar>)
    requires st.squeeze
    ensures Edit(st, prev, cs) == Collapse(prev, Edit(st.(squeeze := false), prev, cs), SqueezeSet(st))
    decreases |cs|
  {
    if cs != [] {
      var plain := st.(squeeze := false);
      var raw := Emitted(plain, prev, cs[0]);
      EmittedSqueezing(st, prev, cs[0]);
      if raw.None? {
        SqueezeCollapses(st, prev, cs[1..]);
      } else {
        SqueezeCollapses(st, raw, cs[1..]);
        CollapseCons(prev, raw.value, Edit(plain, raw, cs[1..]), SqueezeSet(st));
      }
    }
  }

  // ----- the whole-input function -----

  /** All characters of a finished stream: an undecided tail becomes one replacement. */
  function AllChars(bs: seq<Byte>): (cs: seq<Scalar>) {
    Decode(bs).0 + if Decode(bs).1 == [] then [] else [REPLACEMENT]
  }

  function Tr(st: Stage, prev: Option<Scalar>, bs: seq<Byte>): (out: seq<Byte>) {
    EncodeAll(Edit(st, prev, AllChars(bs)))
  }

  /** A stage that edits nothing copies every well-formed stream unchanged. */
  lemma IdentityCopies(st: Stage, cs: seq<Scalar>)
    requires st.delete && !st.squeeze && forall c :: c in cs ==> !InFromSet(st, c)
    ensures Tr(st, None, EncodeAll(cs)) == EncodeAll(cs)
  {
    DecodeInvertsEncode(cs);
    assert cs + [] == cs;
    DeleteFilters(st, None, cs);
    KeepAll(st, cs);
  }

  lemma {:induction false} KeepAll(st: Stage, cs: seq<Scalar>)
    requires forall c :: c in cs ==> !InFromSet(st, c)
    ensures Keep(st, cs) == cs
    decreases |cs|
  {
    if cs != [] {
      assert !InFromSet(st, cs[0]);
      KeepAll(st, cs[1..]);
      assert [cs[0]] + cs[1..] == cs;
    }
  }

  lemma AllCharsResume(a: seq<Byte>, b: seq<Byte>)
    ensures AllChars(a + b) == Decode(a).0 + AllChars(Decode(a).1 + b)
  {
    DecodeResumes(a, b);
    var t := Decode(a).1 + b;
    Regroup(Decode(a).0, Decode(t).0, if Decode(t).1 == [] then [] else [REPLACEMENT]);
  }

  lemma Regroup(a: seq<Scalar>, b: seq<Scalar>, c: seq<Scalar>)
    ensures a + b + c == a + (b + c)
  {
  }

  lemma TrResumes(st: Stage, prev: Option<Scalar>, a: seq<Byte>, b: seq<Byte>)
    ensures var now := Edit(st, prev, Decode(a).0);
            Tr(st, prev, a + b) == EncodeAll(now) + Tr(st, LastOr(prev, now), Decode(a).1 + b)
  {
    var now := Edit(st, prev, Decode(a).0);
    var tail := Decode(a).1 + b;
    AllCharsResume(a, b);
    EditResumes(st, prev, Decode(a).0, AllChars(tail));
    EncodeAllAppend(now, Edit(st, LastOr(prev, now), AllChars(tail)));
  }

  lemma TrFinishes(st: Stage, prev: Option<Scalar>, pending: seq<Byte>)
    requires HeadOf(pending).Empty? || HeadOf(pending).Incomplete?
    ensures Tr(st, prev, pending) == EncodeAll(Edit(st, prev, Lossy(pending)))
  {
    assert [] + [REPLACEMENT] == [REPLACEMENT];
  }

  // ----- the reader -----

  /** One more character: what it adds to the output and to the last emitted character. */
  lemma EditSnoc(stage: Stage, prev: Option<Scalar>, chars: seq<Scalar>, ch: Scalar)
    ensures var now, all := Edit(stage, prev, chars), Edit(stage, prev, chars + [ch]);
            var e := Emitted(stage, LastOr(prev, now), ch);
            && EncodeAll(all) == EncodeAll(now) + (if e.Some? then Encode(e.value) else [])
            && LastOr(prev, all) == if e.Some? then e else LastOr(prev, now)
  {
    var now := Edit(stage, prev, chars);
    var e := Emitted(stage, LastOr(prev, now), ch);
    var next := Edit(stage, LastOr(prev, now), [ch]);
    EditResumes(stage, prev, chars, [ch]);
    EncodeAllAppend(now, next);
    assert next == if e.Some? then [e.value] else [];
    if e.Some? { assert EncodeAll(next) == Encode(e.value) + []; }
  }

  class TrStreamReader {
    const stage: Stage
    /** What the upstream reads will still deliver; then end of input. */
    var inner: seq<seq<Byte>>
    var inputPending: seq<Byte>
    var outputPending: seq<Byte>
    var outputOffset: nat
    var finished: bool
    var prev: Option<Scalar>

    ghost predicate Valid()
      reads this
    {
      && outputOffset <= |outputPending|
      && (HeadOf(inputPending).Empty? || HeadOf(inputPending).Incomplete?)
      && forall i :: 0 <= i < |inner| ==> inner[i] != []
    }

    /** Everything that reading to the end will still return. */
    ghost function Remaining(): (out: seq<Byte>)
      reads this
      requires Valid()
    {
      outputPending[outputOffset..] +
      if finished then [] else Tr(stage, prev, inputPending + Flatten(inner))
    }

    constructor (inner: seq<seq<Byte>>, stage: Stage)
      requires forall i :: 0 <= i < |inner| ==> inner[i] != []
      ensures Valid() && this.stage == stage && this.inner == inner
      ensures Remaining() == Tr(stage, None, Flatten(inner))
    {
      this.inner, this.stage := inner, stage;
      inputPending, outputPending, outputOffset := [], [], 0;
      finished, prev := false, None;
      new;
      assert [] + Flatten(inner) == Flatten(inner);
      assert [] + Tr(stage, None, Flatten(inner)) == Tr(stage, None, Flatten(inner));
    }

    method EmitChar(ch: Scalar)
      modifies this`outputPending, this`prev
      ensures outputPending == old(outputPending) + Encode(ch) && prev == Some(ch)
    {
      outputPending := outputPending + Encode(ch);
      prev := Some(ch);
    }

    method ProcessChar(ch: Scalar)
      modifies this`outputPending, this`prev
      ensures match Emitted(stage, old(prev), ch)
              case None => prev == old(prev) && outputPending == old(outputPending)
              case Some(e) => prev == Some(e) && outputPending == old(outputPending) + Encode(e)
    {
      if stage.delete {
        var inSet := ch in stage.fromChars;
        if (if stage.complement then !inSet else inSet) { return; }
        if stage.squeeze && ch in stage.toChars && prev == Some(ch) { return; }
        EmitChar(ch);
        return;
      }
      if stage.squeeze && stage.toChars == [] {
        if ch in stage.fromChars && prev == Some(ch) { return; }
        EmitChar(ch);
        return;
      }
      var translated := Translate(stage, ch);
      if stage.squeeze && translated in stage.toChars && prev == Some(translated) { return; }
      EmitChar(translated);
    }

    method ProcessChars(chars: seq<Scalar>)
      modifies this`outputPending, this`prev
      ensures var now := Edit(stage, old(prev), chars);
              && outputPending == old(outputPending) + EncodeAll(now)
              && prev == LastOr(old(prev), now)
    {
      var i := 0;
      assert chars[..0] == [];
      while i < |chars|
        invariant 0 <= i <= |chars|
        invariant outputPending == old(outputPending) + EncodeAll(Edit(stage, old(prev), chars[..i]))
        invariant prev == LastOr(old(prev), Edit(stage, old(prev), chars[..i]))
      {
        assert chars[..i + 1] == chars[..i] + [chars[i]];
        EditSnoc(stage, old(prev), chars[..i], chars[i]);
        ProcessChar(chars[i]);
        i := i + 1;
      }
      assert chars[..|chars|] == chars;
    }

    /** One round of the drain loop: a run of whole characters, or one bad byte. */
    method DrainOnce() returns (more: bool, chars: seq<Scalar>)
      modifies this`inputPending
      ensures Decode(old(inputPending)) == (chars + Decode(inputPending).0, Decode(inputPending).1)
      ensures more ==> |inputPending| < |old(inputPending)|
      ensures !more ==> Decode(inputPending) == ([], inputPending)
    {
      ghost var before := inputPending;
      var valid := ValidUpTo(inputPending);
      ghost var prefix, suffix := before[..valid], before[valid..];
      ValidPrefixDecodes(before);
      assert prefix + suffix == before && [] + suffix == suffix;
      DecodeResumes(prefix, suffix);
      if valid == |inputPending| {
        assert prefix == before;
        chars := Decode(inputPending).0;
        inputPending := [];
        assert chars + [] == chars;
        return false, chars;
      }
      if valid > 0 {
        LossyOnValid(prefix);
        chars := Lossy(inputPending[..valid]);
        inputPending := inputPending[valid..];
        return true, chars;
      }
      assert suffix == before;
      if HeadOf(inputPending).Invalid? {
        OneBadByte(before);
        chars := Lossy(inputPending[..1]);
        inputPending := inputPending[1..];
        return true, chars;
      }
      assert [] + Decode(before).0 == Decode(before).0;
      return false, [];
    }

    method ProcessUtf8Chunk(chunk: seq<Byte>) returns (chars: seq<Scalar>)
      modifies this`inputPending
      ensures (chars, inputPending) == Decode(old(inputPending) + chunk)
    {
      inputPending := inputPending + chunk;
      ghost var all := inputPending;
      chars := [];
      var more := true;
      assert [] + Decode(all).0 == Decode(all).0;
      while more
        invariant Decode(all) == (chars + Decode(inputPending).0, Decode(inputPending).1)
        invariant !more ==> Decode(inputPending) == ([], inputPending)
        decreases more, |inputPending|
      {
        var now;
        more, now := DrainOnce();
        assert chars + (now + Decode(inputPending).0) == chars + now + Decode(inputPending).0;
        chars := chars + now;
      }
      assert chars + [] == chars;
    }

    /** Hands out at most `n` bytes of pending output. */
    method TakePendingOutput(n: nat) returns (out: seq<Byte>)
      requires outputOffset <= |outputPending|
      modifies this`outputPending, this`outputOffset
      ensures outputOffset <= |outputPending| && |out| <= n
      ensures old(outputPending[outputOffset..]) == out + outputPending[outputOffset..]
      ensures n > 0 && out == [] ==> outputPending[outputOffset..] == []
    {
      if outputOffset >= |outputPending| {
        outputPending, outputOffset := [], 0;
        return [];
      }
      var remaining := outputPending[outputOffset..];
      var toCopy := if |remaining| < n then |remaining| else n;
      out := remaining[..toCopy];
      outputOffset := outputOffset + toCopy;
      assert remaining == out + outputPending[outputOffset..];
      if outputOffset == |outputPending| {
        outputPending, outputOffset := [], 0;
      }
    }

    /** One upstream read: more input is edited, or the stream is finished off. */
    method Refill()
      requires Valid() && !finished && outputPending[outputOffset..] == []
      modifies this
      ensures Valid() && Remaining() == old(Remaining())
      ensures |inner| < |old(inner)| || (finished && inner == old(inner))
    {
      ghost var left := outputPending[..outputOffset];
      assert outputPending == left;
      if inner == [] {
        assert inputPending + [] == inputPending;
        TrFinishes(stage, prev, inputPending);
        var chars := Lossy(inputPending);
        inputPending := [];
        ProcessChars(chars);
        finished := true;
      } else {
        ghost var a, b := inputPending + inner[0], Flatten(inner[1..]);
        assert a + b == inputPending + Flatten(inner);
        TrResumes(stage, prev, a, b);
        var chars := ProcessUtf8Chunk(inner[0]);
        inner := inner[1..];
        ProcessChars(chars);
      }
    }

    /**
     * Every read returns the next piece of the whole output and nothing else,
     * whatever the buffer size and however the input was cut; an empty answer
     * to a non-empty buffer means that the whole output has been returned.
     */
    method Read(n: nat) returns (out: seq<Byte>)
      requires Valid()
      modifies this
      ensures Valid() && |out| <= n
      ensures old(Remaining()) == out + Remaining()
      ensures n > 0 && out == [] ==> old(Remaining()) == []
    {
      if n == 0 { return []; }
      while true
        invariant Valid() && Remaining() == old(Remaining())
        decreases |inner|, !finished
      {
        out := TakePendingOutput(n);
        if out != [] || finished { return; }
        Refill();
      }
    }
  }
}
