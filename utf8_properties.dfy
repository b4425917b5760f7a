/** What the UTF-8 code of the legend reader guarantees, stated against the
    encoding of section 3 of RFC 3629: decoding inverts encoding, the
    validator accepts every canonical encoding of scalar values and rejects
    the malformed forms it checks for, and an accepted view splits into
    characters that cover it exactly. */
module Utf8Properties {
  import opened Types
  import opened Utf8

  /** Unicode scalar values: the code points UTF-8 may encode. */
  predicate IsScalar(c: u32) {
    c <= 0xD7FF || 0xE000 <= c <= 0x10FFFF
  }

  /** `c` can be laid out in `n` bytes with the bit pattern of RFC 3629
      section 3 (1 byte: 7 bits, 2: 11, 3: 16, 4: 21). */
  predicate Fits(c: u32, n: nat) {
    (n == 1 && c < 0x80) || (n == 2 && c < 0x800) ||
    (n == 3 && c < 0x10000) || (n == 4 && c < 0x200000)
  }

  /** Fewest bytes the layout needs for `c`: the width of its canonical
      encoding. */
  function MinWidth(c: u32): (n: nat)
    requires c < 0x200000
    ensures Fits(c, n) && forall m :: 1 <= m < n ==> !Fits(c, m)
  {
    if c < 0x80 then 1 else if c < 0x800 then 2 else if c < 0x10000 then 3 else 4
  }

  /** The `n`-byte layout of `c`: a leader carrying the high bits, then
      `n - 1` bytes 10xxxxxx. Wider than `MinWidth(c)` it is an overlong form. */
  function EncodeWidth(c: u32, n: nat): (b: seq<u8>)
    requires Fits(c, n)
    ensures |b| == n
  {
    if n == 1 then
      [c as u8]
    else if n == 2 then
      [(0xC0 | (c >> 6)) as u8, (0x80 | (c & 0x3F)) as u8]
    else if n == 3 then
      [(0xE0 | (c >> 12)) as u8, (0x80 | ((c >> 6) & 0x3F)) as u8, (0x80 | (c & 0x3F)) as u8]
    else
      [(0xF0 | (c >> 18)) as u8, (0x80 | ((c >> 12) & 0x3F)) as u8,
       (0x80 | ((c >> 6) & 0x3F)) as u8, (0x80 | (c & 0x3F)) as u8]
  }

  /** The canonical UTF-8 encoding of a scalar value. */
  function Encode(c: u32): (b: seq<u8>)
    requires IsScalar(c)
    ensures 1 <= |b| <= 4 && IsChar(b)
  {
    LeaderSizeOfLayout(c, MinWidth(c));
    EncodeWidth(c, MinWidth(c))
  }

  /** The canonical encodings of `cs`, one after another. */
  function EncodeAll(cs: seq<u32>): (b: seq<u8>)
    requires forall i :: 0 <= i < |cs| ==> IsScalar(cs[i])
  {
    if cs == [] then [] else Encode(cs[0]) + EncodeAll(cs[1..])
  }

  /** The leader of an `n`-byte layout announces either `n` bytes or an
      invalid leader; it announces `n` exactly when the value is not too
      large for the table (a 2-byte layout also needs a value of at least
      0x80, otherwise its leader is 0xC0 or 0xC1). */
  lemma LeaderSizeOfLayout(c: u32, n: nat)
    requires Fits(c, n)
    ensures var s := CharSize(EncodeWidth(c, n)[0]); s == 0 || s == n
    ensures IsChar(EncodeWidth(c, n)) <==> (n == 2 ==> c >= 0x80) && (n == 4 ==> c < 0x140000)
  {
    var b0 := EncodeWidth(c, n)[0];
    if n == 2 {
      assert c >= 0x80 <==> b0 >= 0xC2;
    } else if n == 4 {
      assert c < 0x140000 <==> b0 <= 0xF4;
    }
  }

  /** Decoding any layout whose leader the table accepts gives back the
      value laid out: the masks of `utf8_chop_char` undo the layout. */
  lemma DecodeLayout(c: u32, n: nat)
    requires Fits(c, n) && IsChar(EncodeWidth(c, n))
    ensures DecodeChar(EncodeWidth(c, n)) == c
  {
    if n == 2 {
      DecodeLayout2(c);
    } else if n == 3 {
      DecodeLayout3(c);
    } else if n == 4 {
      DecodeLayout4(c);
    }
  }

  lemma DecodeLayout2(c: u32)
    requires Fits(c, 2) && IsChar(EncodeWidth(c, 2))
    ensures DecodeChar(EncodeWidth(c, 2)) == c
  {
    var b0, b1 := (0xC0 | (c >> 6)) as u8, (0x80 | (c & 0x3F)) as u8;
    MasksUndoLayout2(c);
    assert EncodeWidth(c, 2) == [b0, b1];
  }

  lemma DecodeLayout3(c: u32)
    requires Fits(c, 3) && IsChar(EncodeWidth(c, 3))
    ensures DecodeChar(EncodeWidth(c, 3)) == c
  {
    var b0, b1, b2 := (0xE0 | (c >> 12)) as u8, (0x80 | ((c >> 6) & 0x3F)) as u8, (0x80 | (c & 0x3F)) as u8;
    MasksUndoLayout3(c);
    assert EncodeWidth(c, 3) == [b0, b1, b2];
  }

  lemma DecodeLayout4(c: u32)
    requires Fits(c, 4) && IsChar(EncodeWidth(c, 4))
    ensures DecodeChar(EncodeWidth(c, 4)) == c
  {
    var b := EncodeWidth(c, 4);
    LeaderSizeOfLayout(c, 4);
    DecodeFourBytes(b);
    MasksUndoLayout4(c);
  }

  lemma DecodeFourBytes(b: seq<u8>)
    requires IsChar(b) && |b| == 4
    ensures DecodeChar(b) ==
      ((b[0] & 0x07) as u32 << 18) | ((b[1] & 0x3F) as u32 << 12) | ((b[2] & 0x3F) as u32 << 6) | (b[3] & 0x3F) as u32
  {
  }

  // The bit-level facts behind the multi-byte cases, kept apart from the
  // sequences so the solver sees only bit-vectors.
  lemma MasksUndoLayout2(c: u32)
    requires c < 0x800
    ensures var b0, b1 := (0xC0 | (c >> 6)) as u8, (0x80 | (c & 0x3F)) as u8;
      ((b0 & 0x1F) as u32 << 6) | (b1 & 0x3F) as u32 == c
  {
  }

  lemma MasksUndoLayout3(c: u32)
    requires c < 0x10000
    ensures var b0, b1, b2 := (0xE0 | (c >> 12)) as u8, (0x80 | ((c >> 6) & 0x3F)) as u8, (0x80 | (c & 0x3F)) as u8;
      ((b0 & 0x0F) as u32 << 12) | ((b1 & 0x3F) as u32 << 6) | (b2 & 0x3F) as u32 == c
  {
  }

  lemma MasksUndoLayout4(c: u32)
    requires c < 0x140000
    ensures var b0, b1 := (0xF0 | (c >> 18)) as u8, (0x80 | ((c >> 12) & 0x3F)) as u8;
      var b2, b3 := (0x80 | ((c >> 6) & 0x3F)) as u8, (0x80 | (c & 0x3F)) as u8;
      ((b0 & 0x07) as u32 << 18) | ((b1 & 0x3F) as u32 << 12) | ((b2 & 0x3F) as u32 << 6) | (b3 & 0x3F) as u32 == c
  {
  }

  /** Round trip: decoding the canonical encoding of a scalar value yields
      that value. */
  lemma DecodeEncode(c: u32)
    requires IsScalar(c)
    ensures DecodeChar(Encode(c)) == c
  {
    DecodeLayout(c, MinWidth(c));
  }

  /** The validator accepts an `n`-byte layout of `c` on its own exactly when
      it is the canonical encoding of a scalar value: overlong forms,
      surrogates and values above 0x10FFFF are all refused. */
  lemma AcceptedLayout(c: u32, n: nat)
    requires Fits(c, n)
    ensures Accepted(EncodeWidth(c, n)) <==> n == MinWidth(c) && IsScalar(c)
  {
    var b := EncodeWidth(c, n);
    LeaderSizeOfLayout(c, n);
    if IsChar(b) {
      DecodeLayout(c, n);
      assert b[..n] == b;
      assert b[n..] == [];
      assert Accepted(b) <==> ValueAccepted(n, c);
    } else {
      assert !Accepted(b);
    }
  }

  /** An accepted prefix does not change the verdict on what follows it:
      the validator restarts at every character boundary. */
  lemma {:induction false} AcceptedAppend(p: seq<u8>, q: seq<u8>)
    requires Accepted(p)
    ensures Accepted(p + q) == Accepted(q)
    decreases |p|
  {
    if |p| > 0 {
      var n := CharSize(p[0]);
      assert (p + q)[..n] == p[..n];
      assert (p + q)[n..] == p[n..] + q;
      AcceptedAppend(p[n..], q);
    } else {
      assert p + q == q;
    }
  }

  /** The validator accepts the concatenated canonical encoding of any
      sequence of scalar values. */
  lemma {:induction false} AcceptsEncodings(cs: seq<u32>)
    requires forall i :: 0 <= i < |cs| ==> IsScalar(cs[i])
    ensures Accepted(EncodeAll(cs))
  {
    if cs != [] {
      AcceptedLayout(cs[0], MinWidth(cs[0]));
      AcceptsEncodings(cs[1..]);
      AcceptedAppend(Encode(cs[0]), EncodeAll(cs[1..]));
    }
  }

  /** The cases `utf8_validate` checks, each rejected wherever it occurs
      after an accepted prefix: an invalid leader, a character cut short by
      the end of the view, a 3-byte value below 0x800 or in the surrogate
      range, and a 4-byte value outside [0x10000, 0x10FFFF]. */
  lemma ValidatorRejects(p: seq<u8>, q: seq<u8>)
    requires Accepted(p) && |q| > 0
    ensures CharSize(q[0]) == 0 ==> !Accepted(p + q)
    ensures CharSize(q[0]) > |q| ==> !Accepted(p + q)
    ensures CharSize(q[0]) == 3 <= |q| ==>
      (DecodeChar(q[..3]) < 0x800 || 0xD800 <= DecodeChar(q[..3]) <= 0xDFFF) ==> !Accepted(p + q)
    ensures CharSize(q[0]) == 4 <= |q| ==>
      !(0x10000 <= DecodeChar(q[..4]) <= 0x10FFFF) ==> !Accepted(p + q)
  {
    AcceptedAppend(p, q);
  }

  /** Any non-canonical layout (overlong, surrogate or beyond 0x10FFFF) is
      rejected wherever it stands after an accepted prefix, whatever follows. */
  lemma RejectsNonCanonical(p: seq<u8>, c: u32, n: nat, q: seq<u8>)
    requires Accepted(p) && Fits(c, n) && !(n == MinWidth(c) && IsScalar(c))
    ensures !Accepted(p + EncodeWidth(c, n) + q)
  {
    var b := EncodeWidth(c, n);
    AcceptedLayout(c, n);
    LeaderSizeOfLayout(c, n);
    assert (b + q)[..n] == b[..n] == b;
    assert b[n..] == [];
    AcceptedAppend(p, b + q);
    assert p + b + q == p + (b + q);
  }

  /** The validator is weaker than the syntax of RFC 3629: it never looks
      at the top bits of trailing bytes, so `C2 41` is accepted and decodes
      to 0x81, whose canonical encoding is `C2 81`. */
  lemma TrailingBytesUnchecked()
    ensures Accepted([0xC2, 0x41]) && DecodeChar([0xC2, 0x41]) == 0x81
    ensures Encode(0x81) == [0xC2, 0x81]
  {
    assert [0xC2, 0x41][2..] == [];
  }

  /** One decoded character: its code point and the bytes it came from. */
  datatype Char = Char(code: u32, bytes: seq<u8>)

  /** The characters repeated chopping produces from an accepted view. That
      this function is well defined is the statement that chopping never
      reads past the end of an accepted view. */
  function Chars(b: seq<u8>): (cs: seq<Char>)
    requires Accepted(b)
    ensures forall i :: 0 <= i < |cs| ==> IsChar(cs[i].bytes) && cs[i].code == DecodeChar(cs[i].bytes)
    ensures |b| == 0 <==> cs == []
    decreases |b|
  {
    if |b| == 0 then []
    else
      var n := CharSize(b[0]);
      [Char(DecodeChar(b[..n]), b[..n])] + Chars(b[n..])
  }

  /** The bytes of `cs`, one character after another. */
  function Concat(cs: seq<Char>): seq<u8> {
    if cs == [] then [] else cs[0].bytes + Concat(cs[1..])
  }

  /** Chopping an accepted view until it is empty consumes it exactly: the
      characters' bytes put back together are the view. */
  lemma {:induction false} ChopsConsumeView(b: seq<u8>)
    requires Accepted(b)
    ensures Concat(Chars(b)) == b
    decreases |b|
  {
    if |b| > 0 {
      var n := CharSize(b[0]);
      assert 1 <= n <= |b|;
      ChopsConsumeView(b[n..]);
      var cs := Chars(b);
      assert cs[0].bytes == b[..n] && cs[1..] == Chars(b[n..]);
      calc {
        Concat(cs);
        cs[0].bytes + Concat(cs[1..]);
        b[..n] + b[n..];
        { assert b[..n] + b[n..] == b; }
        b;
      }
    }
  }

  /** Decoding the whole canonical encoding of a sequence of scalar values,
      character by character, gives back that sequence, and each character
      keeps the bytes of its own canonical encoding. */
  lemma {:induction false} CharsOfEncodings(cs: seq<u32>)
    requires forall i :: 0 <= i < |cs| ==> IsScalar(cs[i])
    ensures Accepted(EncodeAll(cs))
    ensures |Chars(EncodeAll(cs))| == |cs|
    ensures forall i :: 0 <= i < |cs| ==> Chars(EncodeAll(cs))[i] == Char(cs[i], Encode(cs[i]))
  {
    AcceptsEncodings(cs);
    if cs != [] {
      var e, rest := Encode(cs[0]), EncodeAll(cs[1..]);
      var n := |e|;
      CharsOfEncodings(cs[1..]);
      DecodeEncode(cs[0]);
      assert (e + rest)[0] == e[0];
      assert (e + rest)[..n] == e;
      assert (e + rest)[n..] == rest;
      assert Chars(e + rest) == [Char(cs[0], e)] + Chars(rest);
    }
  }

  /** What one call of `ChopChar` does to the character decomposition of an
      accepted view: it takes off the first character and leaves an accepted
      rest. */
  lemma ChopTakesFirstChar(s: StringView)
    requires s.Valid() && s.size > 0 && Accepted(s.Bytes())
    ensures var n := CharSize(s.buf[s.offset]);
      1 <= n <= s.size &&
      var first := s.buf[s.offset..s.offset + n];
      var rest := StringView(s.buf, s.offset + n, s.size - n);
      Accepted(rest.Bytes()) &&
      Chars(s.Bytes()) == [Char(DecodeChar(first), first)] + Chars(rest.Bytes())
  {
    var b := s.Bytes();
    var n := CharSize(b[0]);
    assert b[..n] == s.buf[s.offset..s.offset + n];
    assert b[n..] == s.buf[s.offset + n..s.offset + s.size];
  }
}
