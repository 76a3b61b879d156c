/**
 Strict UTF-8 as Python's `bytes.decode()` applies it: a byte string decodes
 only if it is a concatenation of the well-formed byte sequences of Table 3-7
 of the Unicode Standard (section 3.9). Overlong forms, encoded surrogates,
 values above U+10FFFF and truncated sequences are all errors.

 Validity is defined independently of the decoder, as "is the encoding of
 some string"; the decoder is shown to succeed exactly on valid input and
 to be the inverse of the encoder.
 */
module Utf8 {
  import opened Optional
  import opened Words

  /** Continuation bytes, 0x80..0xBF. */
  predicate IsTail(b: Byte) {
    0x80 <= b <= 0xBF
  }

  /** The UTF-8 encoding of one scalar value: 1 to 4 bytes by magnitude,
      each continuation byte carrying six bits. */
  function EncodeChar(c: char): (r: Bytes)
    ensures 1 <= |r| <= 4
  {
    var cp := c as int;
    if cp < 0x80 then [cp as Byte]
    else if cp < 0x800 then
      [(0xC0 + cp / 0x40) as Byte, (0x80 + cp % 0x40) as Byte]
    else if cp < 0x1_0000 then
      [(0xE0 + cp / 0x40 / 0x40) as Byte, (0x80 + cp / 0x40 % 0x40) as Byte, (0x80 + cp % 0x40) as Byte]
    else
      [(0xF0 + cp / 0x40 / 0x40 / 0x40) as Byte, (0x80 + cp / 0x40 / 0x40 % 0x40) as Byte,
       (0x80 + cp / 0x40 % 0x40) as Byte, (0x80 + cp % 0x40) as Byte]
  }

  /** `t.encode()`. */
  function Encode(t: string): Bytes
    decreases |t|
  {
    if |t| == 0 then [] else EncodeChar(t[0]) + Encode(t[1..])
  }

  /** Valid UTF-8: the bytes some string encodes to. */
  ghost predicate IsUtf8(s: Bytes) {
    exists t: string :: Encode(t) == s
  }

  /** The scalar value and the length of the well-formed sequence that
      starts `s`, or None when `s` does not start with one. The accepted
      second bytes after E0, ED, F0 and F4 are narrowed exactly as the
      table prescribes. */
  function DecodeFirst(s: Bytes): (r: Option<(char, nat)>)
    requires |s| > 0
    ensures r.Some? ==> 1 <= r.value.1 <= |s| && r.value.1 <= 4
  {
    var b0 := s[0] as int;
    if b0 < 0x80 then Some((b0 as char, 1))
    else if 0xC2 <= b0 <= 0xDF then
      if |s| >= 2 && IsTail(s[1]) then
        Some((((b0 - 0xC0) * 0x40 + (s[1] as int - 0x80)) as char, 2))
      else None
    else if 0xE0 <= b0 <= 0xEF then
      var lo := if b0 == 0xE0 then 0xA0 else 0x80;
      var hi := if b0 == 0xED then 0x9F else 0xBF;
      if |s| >= 3 && lo <= s[1] as int <= hi && IsTail(s[2]) then
        Some((((b0 - 0xE0) * 0x1000 + (s[1] as int - 0x80) * 0x40 + (s[2] as int - 0x80)) as char, 3))
      else None
    else if 0xF0 <= b0 <= 0xF4 then
      var lo := if b0 == 0xF0 then 0x90 else 0x80;
      var hi := if b0 == 0xF4 then 0x8F else 0xBF;
      if |s| >= 4 && lo <= s[1] as int <= hi && IsTail(s[2]) && IsTail(s[3]) then
        Some((((b0 - 0xF0) * 0x4_0000 + (s[1] as int - 0x80) * 0x1000
               + (s[2] as int - 0x80) * 0x40 + (s[3] as int - 0x80)) as char, 4))
      else None
    else None
  }

  /** Six-bit digits: splitting q * 64 + r recovers q and r. */
  lemma SixBits(q: int, r: int)
    requires 0 <= r < 0x40
    ensures (q * 0x40 + r) / 0x40 == q
    ensures (q * 0x40 + r) % 0x40 == r
  {
  }

  /** The bytes a successful `DecodeFirst` consumed are the encoding of
      the character it produced. */
  lemma DecodeFirstConsumesEncoding(s: Bytes)
    requires |s| > 0 && DecodeFirst(s).Some?
    ensures EncodeChar(DecodeFirst(s).value.0) == s[..DecodeFirst(s).value.1]
  {
    if s[0] < 0x80 {
    } else if s[0] <= 0xDF {
      ConsumesTwo(s);
    } else if s[0] <= 0xEF {
      ConsumesThree(s);
    } else {
      ConsumesFour(s);
    }
  }

  lemma ConsumesTwo(s: Bytes)
    requires |s| > 0 && DecodeFirst(s).Some? && 0x80 <= s[0] <= 0xDF
    ensures EncodeChar(DecodeFirst(s).value.0) == s[..2]
  {
    var b0, x1 := s[0] as int, s[1] as int - 0x80;
    var cp := DecodeFirst(s).value.0 as int;
    assert cp == (b0 - 0xC0) * 0x40 + x1;
    SixBits(b0 - 0xC0, x1);
  }

  lemma ConsumesThree(s: Bytes)
    requires |s| > 0 && DecodeFirst(s).Some? && 0xE0 <= s[0] <= 0xEF
    ensures EncodeChar(DecodeFirst(s).value.0) == s[..3]
  {
    var b0, x1, x2 := s[0] as int, s[1] as int - 0x80, s[2] as int - 0x80;
    var cp := DecodeFirst(s).value.0 as int;
    assert cp == ((b0 - 0xE0) * 0x40 + x1) * 0x40 + x2;
    SixBits((b0 - 0xE0) * 0x40 + x1, x2);
    SixBits(b0 - 0xE0, x1);
  }

  lemma ConsumesFour(s: Bytes)
    requires |s| > 0 && DecodeFirst(s).Some? && 0xF0 <= s[0]
    ensures EncodeChar(DecodeFirst(s).value.0) == s[..4]
  {
    var b0, x1, x2, x3 := s[0] as int, s[1] as int - 0x80, s[2] as int - 0x80, s[3] as int - 0x80;
    var cp := DecodeFirst(s).value.0 as int;
    assert cp == (((b0 - 0xF0) * 0x40 + x1) * 0x40 + x2) * 0x40 + x3;
    SixBits(((b0 - 0xF0) * 0x40 + x1) * 0x40 + x2, x3);
    SixBits((b0 - 0xF0) * 0x40 + x1, x2);
    SixBits(b0 - 0xF0, x1);
  }

  /** `s.decode()`: None where Python raises `UnicodeDecodeError`. */
  function Decode(s: Bytes): (r: Option<string>)
    ensures r.Some? ==> Encode(r.value) == s
    decreases |s|
  {
    if |s| == 0 then Some([])
    else match DecodeFirst(s)
      case None => None
      case Some((c, n)) =>
        match Decode(s[n..])
        case None => None
        case Some(rest) =>
          DecodeStep(s, rest);
          Some([c] + rest)
  }

  /** A decoded first character followed by the decoding of the remainder
      encodes back to the whole input. */
  lemma DecodeStep(s: Bytes, rest: string)
    requires |s| > 0 && DecodeFirst(s).Some?
    requires Encode(rest) == s[DecodeFirst(s).value.1..]
    ensures Encode([DecodeFirst(s).value.0] + rest) == s
  {
    var n := DecodeFirst(s).value.1;
    DecodeFirstConsumesEncoding(s);
    assert ([DecodeFirst(s).value.0] + rest)[1..] == rest;
    assert s == s[..n] + s[n..];
  }

  /** Decoding the first character of an encoding gives that character back. */
  lemma DecodeFirstOfEncoding(c: char, t: Bytes)
    ensures DecodeFirst(EncodeChar(c) + t) == Some((c, |EncodeChar(c)|))
  {
    var cp := c as int;
    if cp < 0x80 {
    } else if cp < 0x800 {
      DecodeTwo(c, t);
    } else if cp < 0x1_0000 {
      DecodeThree(c, t);
    } else {
      DecodeFour(c, t);
    }
  }

  lemma DecodeTwo(c: char, t: Bytes)
    requires 0x80 <= c as int < 0x800
    ensures DecodeFirst(EncodeChar(c) + t) == Some((c, 2))
  {
    var s := EncodeChar(c) + t;
    var q, r := c as int / 0x40, c as int % 0x40;
    assert s[0] as int == 0xC0 + q && s[1] as int == 0x80 + r;
    assert (q * 0x40 + r) as char == c;
  }

  lemma DecodeThree(c: char, t: Bytes)
    requires 0x800 <= c as int < 0x1_0000
    ensures DecodeFirst(EncodeChar(c) + t) == Some((c, 3))
  {
    var s := EncodeChar(c) + t;
    var q, r := c as int / 0x40, c as int % 0x40;
    var q2, r2 := q / 0x40, q % 0x40;
    assert s[0] as int == 0xE0 + q2 && s[1] as int == 0x80 + r2 && s[2] as int == 0x80 + r;
    assert ((q2 * 0x40 + r2) * 0x40 + r) as char == c;
  }

  lemma DecodeFour(c: char, t: Bytes)
    requires 0x1_0000 <= c as int
    ensures DecodeFirst(EncodeChar(c) + t) == Some((c, 4))
  {
    var s := EncodeChar(c) + t;
    var q, r := c as int / 0x40, c as int % 0x40;
    var q2, r2 := q / 0x40, q % 0x40;
    var q3, r3 := q2 / 0x40, q2 % 0x40;
    assert s[0] as int == 0xF0 + q3 && s[1] as int == 0x80 + r3;
    assert s[2] as int == 0x80 + r2 && s[3] as int == 0x80 + r;
    assert (((q3 * 0x40 + r3) * 0x40 + r2) * 0x40 + r) as char == c;
  }

  /** Encoding then decoding is the identity. */
  lemma {:induction false} DecodeEncode(t: string)
    ensures Decode(Encode(t)) == Some(t)
    decreases |t|
  {
    if |t| > 0 {
      var e := EncodeChar(t[0]);
      DecodeFirstOfEncoding(t[0], Encode(t[1..]));
      assert (e + Encode(t[1..]))[|e|..] == Encode(t[1..]);
      DecodeEncode(t[1..]);
      assert [t[0]] + t[1..] == t;
    }
  }

  /** `bytes.decode()` fails exactly on invalid UTF-8. */
  lemma DecodeSucceedsIffUtf8(s: Bytes)
    ensures Decode(s).Some? <==> IsUtf8(s)
  {
    if IsUtf8(s) {
      var t :| Encode(t) == s;
      DecodeEncode(t);
    }
  }

  /** The characters whose encoding is an ASCII whitespace byte. */
  predicate IsSpaceChar(c: char) {
    c == ' ' || '\t' <= c <= '\r'
  }

  lemma EncodeCharSpace(c: char)
    ensures (exists i :: 0 <= i < |EncodeChar(c)| && IsSpace(EncodeChar(c)[i])) <==> IsSpaceChar(c)
  {
    if c as int >= 0x80 {
      assert forall i :: 0 <= i < |EncodeChar(c)| ==> EncodeChar(c)[i] >= 0x80;
    } else {
      assert EncodeChar(c)[0] as int == c as int;
      assert IsSpaceChar(c) <==> c as int == 0x20 || 0x09 <= c as int <= 0x0D;
    }
  }

  /** A text encodes to a single `split()` word exactly when it is
      non-empty and holds no ASCII whitespace character. */
  lemma {:induction false} EncodeIsWord(t: string)
    ensures IsWord(Encode(t)) <==> |t| > 0 && forall i :: 0 <= i < |t| ==> !IsSpaceChar(t[i])
    decreases |t|
  {
    if |t| > 0 {
      var e, rest := EncodeChar(t[0]), Encode(t[1..]);
      EncodeCharSpace(t[0]);
      assert Encode(t) == e + rest;
      if |t| > 1 {
        EncodeIsWord(t[1..]);
        assert forall i :: 1 <= i < |t| ==> t[i] == t[1..][i - 1];
        assert forall i :: 0 <= i < |rest| ==> Encode(t)[|e| + i] == rest[i];
      } else {
        assert rest == [];
      }
      assert forall i :: 0 <= i < |e| ==> Encode(t)[i] == e[i];
    }
  }

  /** ASCII text encodes to its own code units: `"token".encode()` is `b"token"`. */
  lemma {:induction false} EncodeAscii(t: string)
    requires forall i :: 0 <= i < |t| ==> t[i] as int < 0x80
    ensures Encode(t) == Ascii(t)
    decreases |t|
  {
    if |t| > 0 {
      EncodeAscii(t[1..]);
      assert Ascii(t) == [t[0] as int as Byte] + Ascii(t[1..]);
    }
  }
}
