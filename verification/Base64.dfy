/**
 * The base64 encoder and decoder that carry bodies across the host boundary
 * (section 4 of RFC 4648), in the two places that each implement one half.
 */
module Base64 {
  import opened Wrappers

  type Byte = n: nat | n < 256

  /** The alphabet. */
  function Symbol(v: nat): (c: char)
    requires v < 64
  {
    if v < 26 then 'A' + v as char
    else if v < 52 then 'a' + (v - 26) as char
    else if v < 62 then '0' + (v - 52) as char
    else if v == 62 then '+' else '/'
  }

  /** The position of a byte in the alphabet; everything else is skipped. */
  function Value(c: char): (v: Option<nat>)
    ensures v.Some? ==> v.value < 64 && Symbol(v.value) == c
  {
    if 'A' <= c <= 'Z' then Some(c as nat - 'A' as nat)
    else if 'a' <= c <= 'z' then Some(c as nat - 'a' as nat + 26)
    else if '0' <= c <= '9' then Some(c as nat - '0' as nat + 52)
    else if c == '+' then Some(62)
    else if c == '/' then Some(63)
    else None
  }

  lemma ValueOfSymbol(v: nat)
    requires v < 64
    ensures Value(Symbol(v)) == Some(v)
  {
  }

  function Triple(b0: Byte, b1: Byte, b2: Byte): (n: nat)
    ensures n < 0x100_0000
  {
    b0 * 0x10000 + b1 * 0x100 + b2
  }

  function Sextet(triple: nat, shift: nat): (v: nat)
    requires shift < 4
    ensures v < 64
  {
    (if shift == 3 then triple / 0x4_0000
     else if shift == 2 then triple / 0x1000
     else if shift == 1 then triple / 0x40
     else triple) % 64
  }

  function EncodedChunk(chunk: seq<Byte>): (r: string)
    requires 1 <= |chunk| <= 3
    ensures |r| == 4
  {
    var t := Triple(chunk[0], if |chunk| > 1 then chunk[1] else 0, if |chunk| > 2 then chunk[2] else 0);
    [Symbol(Sextet(t, 3)), Symbol(Sextet(t, 2)),
     if |chunk| > 1 then Symbol(Sextet(t, 1)) else '=',
     if |chunk| > 2 then Symbol(Sextet(t, 0)) else '=']
  }

  /** Four symbols hold the bits of a chunk from the highest on; `=` stands for each byte that is missing. */
  lemma ChunkIsItsBits(chunk: seq<Byte>) returns (v0: nat, v1: nat, v2: nat, v3: nat)
    requires 1 <= |chunk| <= 3
    ensures v0 < 64 && v1 < 64 && v2 < 64 && v3 < 64
    ensures var r := EncodedChunk(chunk);
            && Value(r[0]) == Some(v0) && Value(r[1]) == Some(v1)
            && (if |chunk| > 1 then Value(r[2]) == Some(v2) else r[2] == '=')
            && (if |chunk| > 2 then Value(r[3]) == Some(v3) else r[3] == '=')
    ensures var b1: nat, b2: nat := if |chunk| > 1 then chunk[1] else 0, if |chunk| > 2 then chunk[2] else 0;
            v0 * 0x4_0000 + v1 * 0x1000 + v2 * 0x40 + v3 == 0x1_0000 * chunk[0] as int + 0x100 * b1 + b2
  {
    var t := Triple(chunk[0], if |chunk| > 1 then chunk[1] else 0, if |chunk| > 2 then chunk[2] else 0);
    v0, v1, v2, v3 := Sextet(t, 3), Sextet(t, 2), Sextet(t, 1), Sextet(t, 0);
    ValueOfSymbol(v0);
    ValueOfSymbol(v1);
    ValueOfSymbol(v2);
    ValueOfSymbol(v3);
    SextetsOfTriple(t);
  }

  lemma SextetsOfTriple(t: nat)
    requires t < 0x100_0000
    ensures Sextet(t, 3) * 0x4_0000 + Sextet(t, 2) * 0x1000 + Sextet(t, 1) * 0x40 + Sextet(t, 0) == t
  {
    assert t / 0x1000 == t / 0x40 / 0x40 && t / 0x4_0000 == t / 0x1000 / 0x40;
  }

  function Encoded(data: seq<Byte>): (r: string) {
    if data == [] then []
    else if |data| <= 3 then EncodedChunk(data)
    else EncodedChunk(data[..3]) + Encoded(data[3..])
  }

  lemma {:induction false} EncodedLength(data: seq<Byte>)
    ensures |Encoded(data)| == (|data| + 2) / 3 * 4
  {
    if |data| > 3 {
      EncodedLength(data[3..]);
      assert |Encoded(data)| == 4 + |Encoded(data[3..])|;
      assert (|data| - 3 + 2) / 3 == (|data| + 2) / 3 - 1;
    } else if data != [] {
      assert (|data| + 2) / 3 == 1;
    }
  }

  /** One chunk of the input from position `i` on. */
  lemma EncodedContinues(data: seq<Byte>, i: nat, end: nat, out: string)
    requires i < |data| && end == if i + 3 <= |data| then i + 3 else |data|
    ensures out + Encoded(data[i..]) == out + EncodedChunk(data[i..end]) + Encoded(data[end..])
  {
    var rest := data[i..];
    if |rest| <= 3 {
      assert rest == data[i..end] && data[end..] == [];
    } else {
      assert rest[..3] == data[i..end] && rest[3..] == data[end..];
    }
  }

  method Encode(data: seq<Byte>) returns (out: string)
    ensures out == Encoded(data)
    ensures |out| == (|data| + 2) / 3 * 4
  {
    out := [];
    var i := 0;
    assert data[0..] == data;
    while i < |data|
      invariant 0 <= i <= |data|
      invariant out + Encoded(data[i..]) == Encoded(data)
    {
      var end := if i + 3 <= |data| then i + 3 else |data|;
      EncodedContinues(data, i, end, out);
      out := out + EncodedChunk(data[i..end]);
      i := end;
    }
    EncodedLength(data);
  }

  /** The bytes decoded from a state with `bits` unread bits, fewer than eight, in the buffer. */
  function DecodedFrom(input: string, buf: nat, bits: nat): (r: seq<Byte>) {
    if input == [] then []
    else
      var v := Value(input[0]);
      if v.None? then DecodedFrom(input[1..], buf, bits)
      else
        var filled := buf * 64 + v.value;
        if bits + 6 < 8 then DecodedFrom(input[1..], filled, bits + 6)
        else [filled / Pow2(bits - 2) % 256] + DecodedFrom(input[1..], filled % Pow2(bits - 2), bits - 2)
  }

  function Pow2(n: nat): (r: nat)
    ensures r >= 1
  {
    if n == 0 then 1 else 2 * Pow2(n - 1)
  }

  lemma SmallPowers()
    ensures Pow2(0) == 1 && Pow2(2) == 4 && Pow2(4) == 16 && Pow2(6) == 64
  {
    assert Pow2(1) == 2 && Pow2(3) == 8 && Pow2(5) == 32;
  }

  /** The buffer holds no more than its bits, so twelve plus two bits never overflow it. */
  method Decode(input: string) returns (out: seq<Byte>)
    ensures out == DecodedFrom(input, 0, 0)
  {
    out := [];
    var buf: nat, bits: nat := 0, 0;
    SmallPowers();
    for i := 0 to |input|
      invariant bits in {0, 2, 4, 6} && buf < Pow2(bits)
      invariant out + DecodedFrom(input[i..], buf, bits) == DecodedFrom(input, 0, 0)
    {
      assert input[i..][0] == input[i] && input[i..][1..] == input[i + 1..];
      var v := Value(input[i]);
      if v.None? { continue; }
      buf := buf * 64 + v.value;
      assert buf < 0x1000;
      bits := bits + 6;
      if bits >= 8 {
        bits := bits - 8;
        out := out + [buf / Pow2(bits) % 256];
        buf := buf % Pow2(bits);
      }
    }
  }

  // ----- round trip -----

  lemma TakeSymbol(v: nat, rest: string, buf: nat, bits: nat)
    requires v < 64
    ensures DecodedFrom([Symbol(v)] + rest, buf, bits) ==
            if bits + 6 < 8 then DecodedFrom(rest, buf * 64 + v, bits + 6)
            else [(buf * 64 + v) / Pow2(bits - 2) % 256] + DecodedFrom(rest, (buf * 64 + v) % Pow2(bits - 2), bits - 2)
  {
    ValueOfSymbol(v);
    assert ([Symbol(v)] + rest)[1..] == rest;
  }

  lemma TwoDigits(base: nat, low: nat, high: nat, step: nat)
    requires high < base && low < 64 && (base == 64 || base == 16 || base == 4)
    requires step == 16 || step == 4 || step == 1
    ensures (high * 64 + low) % step == low % step
  {
  }

  lemma TakeFirst(v0: nat, rest: string)
    requires v0 < 64
    ensures DecodedFrom([Symbol(v0)] + rest, 0, 0) == DecodedFrom(rest, v0, 6)
  {
    TakeSymbol(v0, rest, 0, 0);
  }

  lemma TakeSecond(v0: nat, v1: nat, rest: string)
    requires v0 < 64 && v1 < 64
    ensures DecodedFrom([Symbol(v1)] + rest, v0, 6) == [(v0 * 64 + v1) / 16] + DecodedFrom(rest, v1 % 16, 4)
  {
    SmallPowers();
    TwoDigits(64, v1, v0, 16);
    assert (v0 * 64 + v1) / 16 < 256;
    TakeSymbol(v1, rest, v0, 6);
  }

  lemma TakeThird(v1: nat, v2: nat, rest: string)
    requires v1 < 64 && v2 < 64
    ensures DecodedFrom([Symbol(v2)] + rest, v1 % 16, 4) == [(v1 % 16 * 64 + v2) / 4] + DecodedFrom(rest, v2 % 4, 2)
  {
    SmallPowers();
    TwoDigits(16, v2, v1 % 16, 4);
    assert (v1 % 16 * 64 + v2) / 4 < 256;
    TakeSymbol(v2, rest, v1 % 16, 4);
  }

  lemma TakeFourth(v2: nat, v3: nat, rest: string)
    requires v2 < 64 && v3 < 64
    ensures DecodedFrom([Symbol(v3)] + rest, v2 % 4, 2) == [v2 % 4 * 64 + v3] + DecodedFrom(rest, 0, 0)
  {
    SmallPowers();
    TakeSymbol(v3, rest, v2 % 4, 2);
  }

  lemma PaddingIsSkipped(buf: nat, bits: nat)
    ensures DecodedFrom("=", buf, bits) == [] && DecodedFrom("==", buf, bits) == []
  {
    assert "="[1..] == [] && "=="[1..] == "=";
  }

  /** The four sextets of a triple whose bytes are cut at the sextet boundaries. */
  lemma SextetsOf(h0: nat, l0: nat, h1: nat, l1: nat, h2: nat, l2: nat)
    requires h0 < 64 && l0 < 4 && h1 < 16 && l1 < 16 && h2 < 4 && l2 < 64
    ensures var t := Triple(h0 * 4 + l0, h1 * 16 + l1, h2 * 64 + l2);
            && Sextet(t, 3) == h0 && Sextet(t, 2) == l0 * 16 + h1
            && Sextet(t, 1) == l1 * 4 + h2 && Sextet(t, 0) == l2
  {
    var t := Triple(h0 * 4 + l0, h1 * 16 + l1, h2 * 64 + l2);
    var v1, v2 := l0 * 16 + h1, l1 * 4 + h2;
    assert t == h0 * 0x4_0000 + v1 * 0x1000 + v2 * 0x40 + l2;
    assert t / 0x40 == h0 * 0x1000 + v1 * 0x40 + v2;
    assert t / 0x1000 == h0 * 0x40 + v1;
    assert t / 0x4_0000 == h0;
  }

  lemma SextetsRejoin(h0: nat, l0: nat, h1: nat, l1: nat, h2: nat, l2: nat)
    requires h0 < 64 && l0 < 4 && h1 < 16 && l1 < 16 && h2 < 4 && l2 < 64
    ensures (h0 * 64 + (l0 * 16 + h1)) / 16 == h0 * 4 + l0
    ensures ((l0 * 16 + h1) % 16 * 64 + (l1 * 4 + h2)) / 4 == h1 * 16 + l1
    ensures (l1 * 4 + h2) % 4 * 64 + l2 == h2 * 64 + l2
  {
    assert (l0 * 16 + h1) % 16 == h1;
    assert (l1 * 4 + h2) % 4 == h2;
  }

  lemma TripleSplits(b0: Byte, b1: Byte, b2: Byte)
    ensures var t := Triple(b0, b1, b2);
            && (Sextet(t, 3) * 64 + Sextet(t, 2)) / 16 == b0
            && (Sextet(t, 2) % 16 * 64 + Sextet(t, 1)) / 4 == b1
            && Sextet(t, 1) % 4 * 64 + Sextet(t, 0) == b2
  {
    var h0, l0, h1, l1, h2, l2 := b0 / 4, b0 % 4, b1 / 16, b1 % 16, b2 / 64, b2 % 64;
    assert b0 == h0 * 4 + l0 && b1 == h1 * 16 + l1 && b2 == h2 * 64 + l2;
    SextetsOf(h0, l0, h1, l1, h2, l2);
    SextetsRejoin(h0, l0, h1, l1, h2, l2);
  }

  lemma ChunkDecodes(chunk: seq<Byte>, rest: string)
    requires 1 <= |chunk| <= 3 && (|chunk| < 3 ==> rest == [])
    ensures DecodedFrom(EncodedChunk(chunk) + rest, 0, 0) == chunk + DecodedFrom(rest, 0, 0)
  {
    var b1: Byte, b2: Byte := if |chunk| > 1 then chunk[1] else 0, if |chunk| > 2 then chunk[2] else 0;
    var t := Triple(chunk[0], b1, b2);
    TripleSplits(chunk[0], b1, b2);
    SextetsDecode(chunk, Sextet(t, 3), Sextet(t, 2), Sextet(t, 1), Sextet(t, 0), rest);
  }

  lemma SextetsDecode(chunk: seq<Byte>, v0: nat, v1: nat, v2: nat, v3: nat, rest: string)
    requires 1 <= |chunk| <= 3 && (|chunk| < 3 ==> rest == [])
    requires v0 < 64 && v1 < 64 && v2 < 64 && v3 < 64 && (v0 * 64 + v1) / 16 == chunk[0]
    requires |chunk| > 1 ==> (v1 % 16 * 64 + v2) / 4 == chunk[1]
    requires |chunk| > 2 ==> v2 % 4 * 64 + v3 == chunk[2]
    ensures var third, fourth := if |chunk| > 1 then Symbol(v2) else '=', if |chunk| > 2 then Symbol(v3) else '=';
            DecodedFrom([Symbol(v0), Symbol(v1), third, fourth] + rest, 0, 0) == chunk + DecodedFrom(rest, 0, 0)
  {
    var third, fourth := if |chunk| > 1 then Symbol(v2) else '=', if |chunk| > 2 then Symbol(v3) else '=';
    var tail := [third, fourth] + rest;
    assert [Symbol(v0), Symbol(v1), third, fourth] + rest == [Symbol(v0)] + ([Symbol(v1)] + tail);
    TakeFirst(v0, [Symbol(v1)] + tail);
    TakeSecond(v0, v1, tail);
    OthersDecode(chunk, v1, v2, v3, tail, rest);
    assert chunk == [chunk[0]] + chunk[1..];
  }

  lemma OthersDecode(chunk: seq<Byte>, v1: nat, v2: nat, v3: nat, tail: string, rest: string)
    requires 1 <= |chunk| <= 3 && (|chunk| < 3 ==> rest == [])
    requires v1 < 64 && v2 < 64 && v3 < 64 && (|chunk| > 1 ==> (v1 % 16 * 64 + v2) / 4 == chunk[1])
    requires |chunk| > 2 ==> v2 % 4 * 64 + v3 == chunk[2]
    requires tail == [if |chunk| > 1 then Symbol(v2) else '=', if |chunk| > 2 then Symbol(v3) else '='] + rest
    ensures DecodedFrom(tail, v1 % 16, 4) == chunk[1..] + DecodedFrom(rest, 0, 0)
  {
    if |chunk| == 1 {
      assert tail == "==";
      PaddingIsSkipped(v1 % 16, 4);
    } else {
      TailDecodes(chunk, v1, v2, v3, tail, rest);
    }
  }

  lemma TailDecodes(chunk: seq<Byte>, v1: nat, v2: nat, v3: nat, tail: string, rest: string)
    requires 2 <= |chunk| <= 3 && (|chunk| < 3 ==> rest == [])
    requires v1 < 64 && v2 < 64 && v3 < 64 && (v1 % 16 * 64 + v2) / 4 == chunk[1]
    requires |chunk| > 2 ==> v2 % 4 * 64 + v3 == chunk[2]
    requires tail == [Symbol(v2), if |chunk| > 2 then Symbol(v3) else '='] + rest
    ensures DecodedFrom(tail, v1 % 16, 4) == chunk[1..] + DecodedFrom(rest, 0, 0)
  {
    var last := tail[1..];
    assert tail == [Symbol(v2)] + last;
    TakeThird(v1, v2, last);
    if |chunk| == 2 {
      assert last == "=";
      PaddingIsSkipped(v2 % 4, 2);
      assert chunk[1..] == [chunk[1]];
    } else {
      assert last == [Symbol(v3)] + rest;
      TakeFourth(v2, v3, rest);
      assert chunk[1..] == [chunk[1], chunk[2]];
    }
  }

  /** Decoding what was encoded gives every byte string back. */
  lemma {:induction false} RoundTrip(data: seq<Byte>)
    ensures DecodedFrom(Encoded(data), 0, 0) == data
  {
    if 0 < |data| <= 3 {
      ChunkDecodes(data, []);
      assert EncodedChunk(data) + [] == EncodedChunk(data);
    } else if data != [] {
      RoundTrip(data[3..]);
      ChunkDecodes(data[..3], Encoded(data[3..]));
      assert data == data[..3] + data[3..];
    }
  }

  /** Bytes outside the alphabet change nothing. */
  function Letters(input: string): (r: string) {
    if input == [] then [] else (if Value(input[0]).Some? then [input[0]] else []) + Letters(input[1..])
  }

  lemma {:induction false} OnlyLettersMatter(input: string, buf: nat, bits: nat)
    ensures DecodedFrom(input, buf, bits) == DecodedFrom(Letters(input), buf, bits)
    decreases |input|
  {
    if input != [] {
      var v := Value(input[0]);
      if v.None? {
        OnlyLettersMatter(input[1..], buf, bits);
        assert Letters(input) == Letters(input[1..]);
      } else {
        var filled := buf * 64 + v.value;
        if bits + 6 < 8 { OnlyLettersMatter(input[1..], filled, bits + 6); }
        else { OnlyLettersMatter(input[1..], filled % Pow2(bits - 2), bits - 2); }
        TakeSymbol(v.value, Letters(input[1..]), buf, bits);
      }
    }
  }
}
