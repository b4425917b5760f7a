/** UTF-8 handling of the font legend: the leader-size table, the unchecked
    one-character decoder that advances a byte-view cursor, the whole-view
    validator and the whitespace test used when pairing legend characters
    with glyph cells. Bytes are 8-bit and code points 32-bit bit-vectors, so
    the masks and shifts of the decoder are the ones the C code uses. */
module Utf8 {
  import opened Types

  /** A non-owning view of `size` bytes of `buf`, starting at `offset`:
      the C pair (data pointer, length), with the pointer written as an
      offset into the buffer it points into. */
  datatype StringView = StringView(buf: seq<u8>, offset: nat, size: nat) {
    predicate Valid() { offset + size <= |buf| }

    function Bytes(): (b: seq<u8>)
      requires Valid()
      ensures |b| == size
    {
      buf[offset..offset + size]
    }
  }

  /** The leader-size table, laid out as the source writes it: 16 rows of 16
      entries, so the entry of byte `b` is in row `b >> 4`, column `b & 0xF`. */
  const CharSizeTable: seq<seq<nat>> := [
    [1, 1, 1, 1, 1, 1, 1, 1, 1, 1, 1, 1, 1, 1, 1, 1],  // 0
    [1, 1, 1, 1, 1, 1, 1, 1, 1, 1, 1, 1, 1, 1, 1, 1],  // 1
    [1, 1, 1, 1, 1, 1, 1, 1, 1, 1, 1, 1, 1, 1, 1, 1],  // 2
    [1, 1, 1, 1, 1, 1, 1, 1, 1, 1, 1, 1, 1, 1, 1, 1],  // 3
    [1, 1, 1, 1, 1, 1, 1, 1, 1, 1, 1, 1, 1, 1, 1, 1],  // 4
    [1, 1, 1, 1, 1, 1, 1, 1, 1, 1, 1, 1, 1, 1, 1, 1],  // 5
    [1, 1, 1, 1, 1, 1, 1, 1, 1, 1, 1, 1, 1, 1, 1, 1],  // 6
    [1, 1, 1, 1, 1, 1, 1, 1, 1, 1, 1, 1, 1, 1, 1, 1],  // 7
    [0, 0, 0, 0, 0, 0, 0, 0, 0, 0, 0, 0, 0, 0, 0, 0],  // 8
    [0, 0, 0, 0, 0, 0, 0, 0, 0, 0, 0, 0, 0, 0, 0, 0],  // 9
    [0, 0, 0, 0, 0, 0, 0, 0, 0, 0, 0, 0, 0, 0, 0, 0],  // A
    [0, 0, 0, 0, 0, 0, 0, 0, 0, 0, 0, 0, 0, 0, 0, 0],  // B
    [0, 0, 2, 2, 2, 2, 2, 2, 2, 2, 2, 2, 2, 2, 2, 2],  // C
    [2, 2, 2, 2, 2, 2, 2, 2, 2, 2, 2, 2, 2, 2, 2, 2],  // D
    [3, 3, 3, 3, 3, 3, 3, 3, 3, 3, 3, 3, 3, 3, 3, 3],  // E
    [4, 4, 4, 4, 4, 0, 0, 0, 0, 0, 0, 0, 0, 0, 0, 0]   // F
  ]

  /** Number of bytes of the encoded character that starts with `leader`;
      0 marks a byte that cannot start a character. The table rules out the
      overlong 2-byte leaders 0xC0 and 0xC1 and every leader above 0xF4. */
  function CharSize(leader: u8): (n: nat)
    ensures leader <= 0x7F ==> n == 1
    ensures 0x80 <= leader <= 0xC1 ==> n == 0
    ensures 0xC2 <= leader <= 0xDF ==> n == 2
    ensures 0xE0 <= leader <= 0xEF ==> n == 3
    ensures 0xF0 <= leader <= 0xF4 ==> n == 4
    ensures 0xF5 <= leader ==> n == 0
  {
    CharSizeTable[(leader >> 4) as int][(leader & 0xF) as int]
  }

  /** The bytes `c` form one character as far as the decoder can tell: a
      leader with a non-zero size, followed by exactly enough bytes. */
  predicate IsChar(c: seq<u8>) {
    |c| >= 1 && |c| == CharSize(c[0])
  }

  /** The code point the switch in `utf8_chop_char` computes. Trailing bytes
      are masked, never checked, so `[0xC2, 0x41]` decodes to 0x81. */
  function DecodeChar(c: seq<u8>): (code: u32)
    requires IsChar(c)
    ensures |c| == 1 ==> code < 0x80
    ensures |c| == 2 ==> 0x80 <= code < 0x800
    ensures |c| == 3 ==> code <= 0xFFFF
    ensures |c| == 4 ==> code < 0x140000
  {
    match |c|
    case 1 =>
      c[0] as u32
    case 2 =>
      ((c[0] & 0x1F) as u32 << 6) |
      (c[1] & 0x3F) as u32
    case 3 =>
      ((c[0] & 0x0F) as u32 << 12) |
      ((c[1] & 0x3F) as u32 << 6) |
      (c[2] & 0x3F) as u32
    case 4 =>
      ((c[0] & 0x07) as u32 << 18) |
      ((c[1] & 0x3F) as u32 << 12) |
      ((c[2] & 0x3F) as u32 << 6) |
      (c[3] & 0x3F) as u32
  }

  /** `utf8_chop_char`: decodes the character at the front of `s` and returns
      the view of its bytes, its code point, and the cursor advanced past it
      (the C function writes that cursor back through its pointer argument).
      The source leaves invalid input undefined; here it is excluded. */
  method ChopChar(s: StringView) returns (result: StringView, code: u32, rest: StringView)
    requires s.Valid() && s.size > 0
    requires CharSize(s.buf[s.offset]) != 0 && CharSize(s.buf[s.offset]) <= s.size
    ensures result.Valid() && rest.Valid() && result.buf == rest.buf == s.buf
    ensures result.offset == s.offset && result.size == CharSize(s.buf[s.offset])
    ensures rest.offset == s.offset + result.size && rest.size == s.size - result.size
    ensures IsChar(result.Bytes()) && code == DecodeChar(result.Bytes())
    ensures s.Bytes() == result.Bytes() + rest.Bytes()
  {
    var charSize := CharSize(s.buf[s.offset]);
    result := StringView(s.buf, s.offset, charSize);
    code := DecodeChar(s.buf[s.offset..s.offset + charSize]);
    rest := StringView(s.buf, s.offset + charSize, s.size - charSize);
  }

  /** The range checks `utf8_validate` applies to a decoded character of
      `n` bytes: 3-byte values must lie in [0x800, 0xFFFF] outside the
      surrogates [0xD800, 0xDFFF], 4-byte values in [0x10000, 0x10FFFF]. */
  predicate ValueAccepted(n: nat, code: u32) {
    (n == 3 ==> !(code < 0x0800 || code > 0xFFFF) && !(0xD800 <= code <= 0xDFFF)) &&
    (n == 4 ==> !(code < 0x10000 || code > 0x10FFFF))
  }

  /** The byte strings `utf8_validate` accepts: a sequence of characters with
      valid leaders, none truncated, each passing the range checks. Trailing
      bytes are not checked, so this is weaker than the UTF-8 syntax of
      section 4 of RFC 3629. */
  predicate Accepted(b: seq<u8>)
    decreases |b|
  {
    |b| == 0 ||
    (var n := CharSize(b[0]);
     n != 0 && n <= |b| && ValueAccepted(n, DecodeChar(b[..n])) && Accepted(b[n..]))
  }

  /** `utf8_validate`: walks the whole view one character at a time. */
  method Validate(view: StringView) returns (ok: bool)
    requires view.Valid()
    ensures ok == Accepted(view.Bytes())
  {
    var iter := view;
    while iter.size > 0
      invariant iter.Valid() && iter.buf == view.buf
      invariant Accepted(view.Bytes()) == Accepted(iter.Bytes())
      decreases iter.size
    {
      var charSize := CharSize(iter.buf[iter.offset]);
      if charSize == 0 || iter.size < charSize {
        return false;
      }

      var _, code, next := ChopChar(iter);
      assert iter.Bytes()[..charSize] == iter.buf[iter.offset..iter.offset + charSize];
      assert iter.Bytes()[charSize..] == next.Bytes();

      if charSize == 3 {
        if code < 0x0800 || code > 0xFFFF {
          return false;
        }
        // The UTF-16 surrogate range encodes no character.
        if 0xD800 <= code <= 0xDFFF {
          return false;
        }
      }
      if charSize == 4 {
        if code < 0x10000 || code > 0x10FFFF {
          return false;
        }
      }
      iter := next;
    }
    return true;
  }

  /** `char_is_space`: exactly space, tab, line feed, form feed and carriage
      return. */
  predicate CharIsSpace(code: u32): (r: bool)
    ensures r <==> code in {0x20, 0x09, 0x0A, 0x0C, 0x0D}
    // every space is a one-byte ASCII character
    ensures r ==> code < 0x80 && CharSize(code as u8) == 1
  {
    code == 0x0020 ||  // space
    code == 0x0009 ||  // character tabulation
    code == 0x000A ||  // end of line
    code == 0x000C ||  // form feed
    code == 0x000D     // carriage return
  }
}
