/**
 * UTF-8 as section 4 of RFC 3629 gives it: what the bytes at the front of a
 * buffer decide, and the character stream a buffer stands for when an
 * undecided tail has to wait for more input.
 */
module Utf8 {
  type Byte = b: int | 0 <= b < 256
  type Scalar = c: int | 0 <= c < 0xD800 || 0xE000 <= c < 0x110000

  const REPLACEMENT: Scalar := 0xFFFD

  /** Decision about the first character of a buffer. */
  datatype Head = Empty | Complete(len: nat, ch: Scalar) | Incomplete | Invalid(errorLen: nat)

  predicate Continues(b: Byte) { 0x80 <= b <= 0xBF }

  /** The second bytes that may follow a lead byte of a three- or four-byte form. */
  predicate SecondAllowed(lead: Byte, b: Byte) {
    match lead
    case 0xE0 => 0xA0 <= b <= 0xBF
    case 0xED => 0x80 <= b <= 0x9F
    case 0xF0 => 0x90 <= b <= 0xBF
    case 0xF4 => 0x80 <= b <= 0x8F
    case _ => Continues(b)
  }

  /** Appends the six payload bits of a continuation byte. */
  function Shift(high: int, b: Byte): int { high * 64 + b - 0x80 }

  function HeadOf(bs: seq<Byte>): (h: Head)
    ensures h.Empty? <==> bs == []
    ensures h.Complete? ==> 1 <= h.len <= |bs|
    ensures h.Invalid? ==> 1 <= h.errorLen <= |bs|
  {
    if bs == [] then Empty
    else if bs[0] < 0x80 then Complete(1, bs[0])
    else if 0xC2 <= bs[0] <= 0xDF then
      if |bs| < 2 then Incomplete
      else if !Continues(bs[1]) then Invalid(1)
      else Complete(2, Shift(bs[0] - 0xC0, bs[1]))
    else if 0xE0 <= bs[0] <= 0xEF then
      if |bs| < 2 then Incomplete
      else if !SecondAllowed(bs[0], bs[1]) then Invalid(1)
      else if |bs| < 3 then Incomplete
      else if !Continues(bs[2]) then Invalid(2)
      else Complete(3, Shift(Shift(bs[0] - 0xE0, bs[1]), bs[2]))
    else if 0xF0 <= bs[0] <= 0xF4 then
      if |bs| < 2 then Incomplete
      else if !SecondAllowed(bs[0], bs[1]) then Invalid(1)
      else if |bs| < 3 then Incomplete
      else if !Continues(bs[2]) then Invalid(2)
      else if |bs| < 4 then Incomplete
      else if !Continues(bs[3]) then Invalid(3)
      else Complete(4, Shift(Shift(Shift(bs[0] - 0xF0, bs[1]), bs[2]), bs[3]))
    else Invalid(1)
  }

  /** A decision, once taken, does not depend on what follows. */
  lemma HeadIsStable(bs: seq<Byte>, more: seq<Byte>)
    requires HeadOf(bs).Complete? || HeadOf(bs).Invalid?
    ensures HeadOf(bs + more) == HeadOf(bs)
  {
  }

  /** The characters of `bs` and the undecided tail, one character at a time. */
  function Decode(bs: seq<Byte>): (r: (seq<Scalar>, seq<Byte>))
    ensures HeadOf(r.1).Empty? || HeadOf(r.1).Incomplete?
    ensures |r.1| <= |bs|
    decreases |bs|
  {
    match HeadOf(bs)
    case Complete(len, ch) =>
      var (rest, tail) := Decode(bs[len..]);
      ([ch] + rest, tail)
    case Invalid(_) =>
      var (rest, tail) := Decode(bs[1..]);
      ([REPLACEMENT] + rest, tail)
    case _ => ([], bs)
  }

  /** Decoding can be interrupted anywhere: only the undecided tail must be kept. */
  lemma {:induction false} DecodeResumes(a: seq<Byte>, b: seq<Byte>)
    ensures Decode(a + b) ==
            (Decode(a).0 + Decode(Decode(a).1 + b).0, Decode(Decode(a).1 + b).1)
    decreases |a|
  {
    var h := HeadOf(a);
    if h.Complete? || h.Invalid? {
      var k := if h.Complete? then h.len else 1;
      HeadIsStable(a, b);
      assert (a + b)[k..] == a[k..] + b;
      DecodeResumes(a[k..], b);
      var c := if h.Complete? then h.ch else REPLACEMENT;
      var later := Decode(Decode(a).1 + b).0;
      assert [c] + Decode(a[k..]).0 + later == [c] + (Decode(a[k..]).0 + later);
    } else {
      assert [] + Decode(a + b).0 == Decode(a + b).0;
    }
  }

  function Flatten(chunks: seq<seq<Byte>>): (bs: seq<Byte>) {
    if chunks == [] then [] else chunks[0] + Flatten(chunks[1..])
  }

  /** Decoding chunk by chunk, keeping only the tail between chunks. */
  function DecodeChunks(pending: seq<Byte>, chunks: seq<seq<Byte>>): (r: (seq<Scalar>, seq<Byte>))
    decreases |chunks|
  {
    if chunks == [] then ([], pending)
    else
      var (now, tail) := Decode(pending + chunks[0]);
      var (later, last) := DecodeChunks(tail, chunks[1..]);
      (now + later, last)
  }

  /** However a stream is cut, the characters and the tail are those of the whole. */
  lemma {:induction false} ChunkingIsIrrelevant(pending: seq<Byte>, chunks: seq<seq<Byte>>)
    requires Decode(pending) == ([], pending)
    ensures DecodeChunks(pending, chunks) == Decode(pending + Flatten(chunks))
    decreases |chunks|
  {
    if chunks == [] {
      assert pending + Flatten(chunks) == pending;
    } else {
      var first, later := pending + chunks[0], Flatten(chunks[1..]);
      assert first + later == pending + Flatten(chunks);
      DecodeResumes(first, later);
      TailWaits(first);
      ChunkingIsIrrelevant(Decode(first).1, chunks[1..]);
    }
  }

  lemma TailWaits(bs: seq<Byte>)
    ensures Decode(Decode(bs).1) == ([], Decode(bs).1)
  {
  }

  // ----- encoding -----

  function Encode(c: Scalar): (bs: seq<Byte>)
    ensures 1 <= |bs| <= 4
  {
    if c < 0x80 then [c]
    else if c < 0x800 then [0xC0 + c / 64, 0x80 + c % 64]
    else if c < 0x10000 then [0xE0 + c / 4096, 0x80 + c / 64 % 64, 0x80 + c % 64]
    else [0xF0 + c / 262144, 0x80 + c / 4096 % 64, 0x80 + c / 64 % 64, 0x80 + c % 64]
  }

  function EncodeAll(cs: seq<Scalar>): (bs: seq<Byte>) {
    if cs == [] then [] else Encode(cs[0]) + EncodeAll(cs[1..])
  }

  lemma {:induction false} EncodeAllAppend(a: seq<Scalar>, b: seq<Scalar>)
    ensures EncodeAll(a + b) == EncodeAll(a) + EncodeAll(b)
    decreases |a|
  {
    if a == [] {
      assert a + b == b;
    } else {
      assert (a + b)[1..] == a[1..] + b;
      EncodeAllAppend(a[1..], b);
    }
  }

  /** Splitting off six payload bits and putting them back. */
  lemma SixBits(c: nat)
    ensures Shift(c / 64, 0x80 + c % 64) == c && Continues(0x80 + c % 64)
  {
  }

  lemma EncodedHead(c: Scalar)
    ensures HeadOf(Encode(c)) == Complete(|Encode(c)|, c)
  {
    var q := c / 64;
    var r := q / 64;
    SixBits(c);
    SixBits(q);
    SixBits(r);
    assert c / 4096 == r && c / 262144 == r / 64 && c / 4096 % 64 == r % 64;
    if c < 0x80 {
    } else if c < 0x800 {
      assert Encode(c) == [0xC0 + q, 0x80 + c % 64];
    } else if c < 0x10000 {
      assert Encode(c) == [0xE0 + r, 0x80 + q % 64, 0x80 + c % 64];
    } else {
      assert Encode(c) == [0xF0 + r / 64, 0x80 + r % 64, 0x80 + q % 64, 0x80 + c % 64];
    }
  }

  lemma SixBitsBack(high: nat, b: Byte)
    requires Continues(b)
    ensures Shift(high, b) / 64 == high && 0x80 + Shift(high, b) % 64 == b
  {
  }

  /** A complete character is its encoding: what is accepted is exactly what is ever written. */
  lemma HeadIsEncoding(bs: seq<Byte>)
    requires HeadOf(bs).Complete?
    ensures bs[..HeadOf(bs).len] == Encode(HeadOf(bs).ch)
  {
    var h := HeadOf(bs);
    if h.len == 2 {
      SixBitsBack(bs[0] - 0xC0, bs[1]);
    } else if h.len == 3 {
      SixBitsBack(bs[0] - 0xE0, bs[1]);
      SixBitsBack(Shift(bs[0] - 0xE0, bs[1]), bs[2]);
      assert h.ch / 4096 == h.ch / 64 / 64;
    } else if h.len == 4 {
      FourIsEncoding(bs);
    }
  }

  lemma FourIsEncoding(bs: seq<Byte>)
    requires HeadOf(bs).Complete? && HeadOf(bs).len == 4
    ensures bs[..4] == Encode(HeadOf(bs).ch)
  {
    var high, ch := Shift(bs[0] - 0xF0, bs[1]), HeadOf(bs).ch;
    SixBitsBack(bs[0] - 0xF0, bs[1]);
    SixBitsBack(high, bs[2]);
    SixBitsBack(Shift(high, bs[2]), bs[3]);
    assert ch / 4096 == ch / 64 / 64 && ch / 262144 == ch / 4096 / 64;
  }

  predicate StartOf(bs: seq<Byte>, c: Scalar) { |bs| < |Encode(c)| && bs == Encode(c)[..|bs|] }

  /** A buffer has to wait exactly if it is the start of an encoding. */
  lemma WaitsExactlyForTheRest(bs: seq<Byte>)
    ensures HeadOf(bs).Incomplete? <==> bs != [] && exists c: Scalar :: StartOf(bs, c)
  {
    if HeadOf(bs).Incomplete? { var c := WaitingStarts(bs); }
    if bs != [] && exists c: Scalar :: StartOf(bs, c) {
      var c: Scalar :| StartOf(bs, c);
      StartsWait(bs, c);
    }
  }

  lemma WaitingStarts(bs: seq<Byte>) returns (c: Scalar)
    requires HeadOf(bs).Incomplete?
    ensures StartOf(bs, c)
  {
    var fill: seq<Byte> := [if bs[0] == 0xE0 then 0xA0 else if bs[0] == 0xF0 then 0x90 else 0x80, 0x80, 0x80];
    var all := bs + fill[|bs| - 1..];
    var h := HeadOf(all);
    assert h.Complete? && h.len > |bs|;
    HeadIsEncoding(all);
    assert bs == all[..h.len][..|bs|];
    c := h.ch;
  }

  lemma StartsWait(bs: seq<Byte>, c: Scalar)
    requires bs != [] && StartOf(bs, c)
    ensures HeadOf(bs).Incomplete?
  {
    EncodedHead(c);
    assert Encode(c) == bs + Encode(c)[|bs|..];
    if HeadOf(bs).Complete? || HeadOf(bs).Invalid? { HeadIsStable(bs, Encode(c)[|bs|..]); }
  }

  /** Every character sequence survives encoding and decoding, with nothing left over. */
  lemma {:induction false} DecodeInvertsEncode(cs: seq<Scalar>)
    ensures Decode(EncodeAll(cs)) == (cs, [])
    decreases |cs|
  {
    if cs != [] {
      var front, back := Encode(cs[0]), EncodeAll(cs[1..]);
      EncodedHead(cs[0]);
      HeadIsStable(front, back);
      assert (front + back)[|front|..] == back;
      DecodeInvertsEncode(cs[1..]);
      assert [cs[0]] + cs[1..] == cs;
    }
  }

  // ----- the standard library's view of a buffer -----

  /** Length of the longest prefix made of complete characters. */
  function ValidUpTo(bs: seq<Byte>): (n: nat)
    ensures n <= |bs|
    decreases |bs|
  {
    var h := HeadOf(bs);
    if h.Complete? then h.len + ValidUpTo(bs[h.len..]) else 0
  }

  lemma HeadOfPrefix(bs: seq<Byte>, n: nat)
    requires HeadOf(bs).Complete? && HeadOf(bs).len <= n <= |bs|
    ensures HeadOf(bs[..n]) == HeadOf(bs)
  {
  }

  lemma {:induction false} ValidPrefixDecodes(bs: seq<Byte>)
    ensures Decode(bs[..ValidUpTo(bs)]).1 == []
    ensures ValidUpTo(bs[..ValidUpTo(bs)]) == ValidUpTo(bs)
    ensures !HeadOf(bs[ValidUpTo(bs)..]).Complete?
    decreases |bs|
  {
    var h := HeadOf(bs);
    if h.Complete? {
      var rest := bs[h.len..];
      ValidPrefixDecodes(rest);
      HeadOfPrefix(bs, ValidUpTo(bs));
      assert bs[..ValidUpTo(bs)][h.len..] == rest[..ValidUpTo(rest)];
      assert rest[ValidUpTo(rest)..] == bs[ValidUpTo(bs)..];
    } else {
      assert bs[..0] == [] && bs[0..] == bs;
    }
  }

  /** Lossy conversion of a whole buffer: one replacement per maximal bad part. */
  function Lossy(bs: seq<Byte>): (cs: seq<Scalar>)
    decreases |bs|
  {
    match HeadOf(bs)
    case Empty => []
    case Complete(len, ch) => [ch] + Lossy(bs[len..])
    case Invalid(n) => [REPLACEMENT] + Lossy(bs[n..])
    case Incomplete => [REPLACEMENT]
  }

  /** On a buffer of complete characters, lossy conversion is plain decoding. */
  lemma {:induction false} LossyOnValid(bs: seq<Byte>)
    requires ValidUpTo(bs) == |bs|
    ensures Lossy(bs) == Decode(bs).0
    decreases |bs|
  {
    var h := HeadOf(bs);
    if h.Complete? { LossyOnValid(bs[h.len..]); }
  }

  lemma OneBadByte(bs: seq<Byte>)
    requires HeadOf(bs).Invalid?
    ensures Lossy(bs[..1]) == [REPLACEMENT]
  {
    var one := bs[..1];
    assert one == [bs[0]] && one[1..] == [];
    if HeadOf(one).Invalid? { assert Lossy(one) == [REPLACEMENT] + Lossy(one[1..]); }
  }
}
