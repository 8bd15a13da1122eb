/**
 * UTF-8 as `String::from_utf8_lossy` reads it: the input is cut into
 * chunks, each either one well-formed scalar value (Table 3-7 of the
 * Unicode standard) or the longest prefix of a well-formed sequence that
 * is present (at least one byte), and every invalid chunk becomes one
 * U+FFFD REPLACEMENT CHARACTER.
 */
module Utf8 {
  import opened IppTypes

  const REPLACEMENT: char := '\U{FFFD}'

  predicate IsContinuation(b: byte)
  {
    0x80 <= b < 0xC0
  }

  /** How many bytes a sequence starting with `b` has; 0 for bytes that never start one. */
  function LeadWidth(b: byte): nat
  {
    if b < 0x80 then 1
    else if 0xC2 <= b < 0xE0 then 2
    else if 0xE0 <= b < 0xF0 then 3
    else if 0xF0 <= b < 0xF5 then 4
    else 0
  }

  /** The second byte of a three- or four-byte sequence excludes overlongs, surrogates and values past U+10FFFF. */
  predicate SecondByteOk(lead: byte, b: byte)
  {
    if lead == 0xE0 then 0xA0 <= b < 0xC0
    else if lead == 0xED then 0x80 <= b < 0xA0
    else if lead == 0xF0 then 0x90 <= b < 0xC0
    else if lead == 0xF4 then 0x80 <= b < 0x90
    else IsContinuation(b)
  }

  /** The chunk at the front of a non-empty input and how many bytes it spans. */
  datatype Chunk = Scalar(len: nat) | Invalid(len: nat)

  function NextChunk(s: seq<byte>): (c: Chunk)
    requires |s| > 0
    ensures 1 <= c.len <= 4 && c.len <= |s|
    ensures c.Scalar? ==> c.len == LeadWidth(s[0])
  {
    var w := LeadWidth(s[0]);
    if w == 1 then Scalar(1)
    else if w == 2 then
      if |s| > 1 && IsContinuation(s[1]) then Scalar(2) else Invalid(1)
    else if w == 3 then
      if !(|s| > 1 && SecondByteOk(s[0], s[1])) then Invalid(1)
      else if !(|s| > 2 && IsContinuation(s[2])) then Invalid(2)
      else Scalar(3)
    else if w == 4 then
      if !(|s| > 1 && SecondByteOk(s[0], s[1])) then Invalid(1)
      else if !(|s| > 2 && IsContinuation(s[2])) then Invalid(2)
      else if !(|s| > 3 && IsContinuation(s[3])) then Invalid(3)
      else Scalar(4)
    else Invalid(1)
  }

  predicate ValidUtf8(s: seq<byte>)
    decreases |s|
  {
    s == [] || (NextChunk(s).Scalar? && ValidUtf8(s[NextChunk(s).len..]))
  }

  predicate IsScalarValue(x: int)
  {
    0 <= x < 0xD800 || 0xE000 <= x < 0x11_0000
  }

  /** The code point a well-formed chunk stands for. */
  function ScalarOf(s: seq<byte>): (x: int)
    requires |s| > 0 && NextChunk(s).Scalar?
    ensures IsScalarValue(x)
  {
    var n := NextChunk(s).len;
    if n == 1 then s[0]
    else if n == 2 then (s[0] as int - 0xC0) * 64 + (s[1] as int - 0x80)
    else if n == 3 then ((s[0] as int - 0xE0) * 64 + (s[1] as int - 0x80)) * 64 + (s[2] as int - 0x80)
    else (((s[0] as int - 0xF0) * 64 + (s[1] as int - 0x80)) * 64 + (s[2] as int - 0x80)) * 64 + (s[3] as int - 0x80)
  }

  function DecodeLossy(s: seq<byte>): (t: string)
    decreases |s|
  {
    if s == [] then []
    else
      var c := NextChunk(s);
      (if c.Scalar? then [ScalarOf(s) as char] else [REPLACEMENT]) + DecodeLossy(s[c.len..])
  }

  /** The shortest UTF-8 form of one character. */
  function EncodeChar(c: char): (b: seq<byte>)
    ensures 1 <= |b| <= 4
  {
    var x := c as int;
    if x < 0x80 then [x]
    else if x < 0x800 then [0xC0 + x / 64, 0x80 + x % 64]
    else if x < 0x1_0000 then [0xE0 + x / 64 / 64, 0x80 + x / 64 % 64, 0x80 + x % 64]
    else [0xF0 + x / 64 / 64 / 64, 0x80 + x / 64 / 64 % 64, 0x80 + x / 64 % 64, 0x80 + x % 64]
  }

  function EncodeUtf8(t: string): seq<byte>
  {
    if t == [] then [] else EncodeChar(t[0]) + EncodeUtf8(t[1..])
  }

  /** The encoding of a character is read back as one well-formed chunk carrying that character. */
  lemma EncodeCharIsChunk(c: char, rest: seq<byte>)
    ensures NextChunk(EncodeChar(c) + rest) == Scalar(|EncodeChar(c)|)
    ensures ScalarOf(EncodeChar(c) + rest) == c as int
  {
    var s := EncodeChar(c) + rest;
    var x := c as int;
    assert s[..|EncodeChar(c)|] == EncodeChar(c);
    if x < 0x80 {
    } else if x < 0x800 {
      assert s[0] == 0xC0 + x / 64 && s[1] == 0x80 + x % 64;
    } else if x < 0x1_0000 {
      assert s[0] == 0xE0 + x / 64 / 64 && s[1] == 0x80 + x / 64 % 64 && s[2] == 0x80 + x % 64;
    } else {
      assert s[0] == 0xF0 + x / 64 / 64 / 64 && s[1] == 0x80 + x / 64 / 64 % 64;
      assert s[2] == 0x80 + x / 64 % 64 && s[3] == 0x80 + x % 64;
    }
  }

  lemma DivMod64(q: int, r: int)
    requires 0 <= r < 64
    ensures (q * 64 + r) / 64 == q && (q * 64 + r) % 64 == r
  {
  }

  /** A well-formed chunk is exactly the encoding of the character it decodes to. */
  lemma ChunkIsEncoding(s: seq<byte>)
    requires |s| > 0 && NextChunk(s).Scalar?
    ensures EncodeChar(ScalarOf(s) as char) == s[..NextChunk(s).len]
  {
    var n := NextChunk(s).len;
    var x := ScalarOf(s);
    if n == 2 {
      DivMod64(s[0] as int - 0xC0, s[1] as int - 0x80);
    } else if n == 3 {
      var hi := (s[0] as int - 0xE0) * 64 + (s[1] as int - 0x80);
      DivMod64(hi, s[2] as int - 0x80);
      DivMod64(s[0] as int - 0xE0, s[1] as int - 0x80);
      assert EncodeChar(x as char) == [0xE0 + x / 64 / 64, 0x80 + x / 64 % 64, 0x80 + x % 64];
    } else if n == 4 {
      var hi := (s[0] as int - 0xF0) * 64 + (s[1] as int - 0x80);
      var mid := hi * 64 + (s[2] as int - 0x80);
      DivMod64(mid, s[3] as int - 0x80);
      DivMod64(hi, s[2] as int - 0x80);
      DivMod64(s[0] as int - 0xF0, s[1] as int - 0x80);
      assert EncodeChar(x as char) ==
        [0xF0 + x / 64 / 64 / 64, 0x80 + x / 64 / 64 % 64, 0x80 + x / 64 % 64, 0x80 + x % 64];
    }
  }

  /** Lossy decoding loses nothing on text that was produced by encoding. */
  lemma {:induction false} DecodeEncode(t: string)
    ensures DecodeLossy(EncodeUtf8(t)) == t
    ensures ValidUtf8(EncodeUtf8(t))
  {
    if t != [] {
      var s := EncodeUtf8(t);
      EncodeCharIsChunk(t[0], EncodeUtf8(t[1..]));
      assert s[|EncodeChar(t[0])|..] == EncodeUtf8(t[1..]);
      DecodeEncode(t[1..]);
    }
  }

  /** On well-formed input the decoded text is exactly the text those bytes encode. */
  lemma {:induction false} EncodeDecodeValid(s: seq<byte>)
    requires ValidUtf8(s)
    ensures EncodeUtf8(DecodeLossy(s)) == s
  {
    if s != [] {
      var n := NextChunk(s).len;
      var c := ScalarOf(s) as char;
      var t := DecodeLossy(s);
      assert t == [c] + DecodeLossy(s[n..]);
      assert t[0] == c && t[1..] == DecodeLossy(s[n..]);
      ChunkIsEncoding(s);
      EncodeDecodeValid(s[n..]);
      assert s == s[..n] + s[n..];
    }
  }

  /** Decoding never produces more characters than there are bytes. */
  lemma {:induction false} DecodeLossyShorter(s: seq<byte>)
    ensures |DecodeLossy(s)| <= |s|
    decreases |s|
  {
    if s != [] {
      DecodeLossyShorter(s[NextChunk(s).len..]);
    }
  }
}
