/**
 * The UTF-8 codec behind Python's `str.encode("utf-8")` and
 * `bytes.decode("utf-8")` (strict mode): a Dafny `char` is a Unicode scalar
 * value, encoded in one to four bytes; the decoder rejects overlong forms,
 * surrogates, code points above U+10FFFF and truncated sequences.
 */
module Utf8 {
  import opened Wrappers
  import opened Binary
  import opened Exceptions

  /** The bytes that encode one scalar value, written with nested quotients by 64. */
  function EncodeChar(c: char): (r: Bytes)
    ensures 1 <= |r| <= 4
    ensures (|r| == 1) == (c as int < 0x80)
    ensures (|r| == 4) == (c as int >= 0x10000)
  {
    var cp := c as int;
    var q1 := cp / 64;
    var q2 := q1 / 64;
    var q3 := q2 / 64;
    if cp < 0x80 then
      [cp as byte]
    else if cp < 0x800 then
      [(0xC0 + q1) as byte, (0x80 + cp % 64) as byte]
    else if cp < 0x10000 then
      [(0xE0 + q2) as byte, (0x80 + q1 % 64) as byte, (0x80 + cp % 64) as byte]
    else
      [(0xF0 + q3) as byte, (0x80 + q2 % 64) as byte, (0x80 + q1 % 64) as byte, (0x80 + cp % 64) as byte]
  }

  /** The byte strings joined end to end; parts of one to four bytes make one to four bytes per part. */
  function Concat(parts: seq<Bytes>): (r: Bytes)
    ensures (forall k :: 0 <= k < |parts| ==> 1 <= |parts[k]|) ==> |parts| <= |r|
    ensures (forall k :: 0 <= k < |parts| ==> |parts[k]| <= 4) ==> |r| <= 4 * |parts|
    ensures (forall k :: 0 <= k < |parts| ==> |parts[k]| == 4) ==> |r| == 4 * |parts|
  {
    if parts == [] then [] else parts[0] + Concat(parts[1..])
  }

  /**
   * `str.encode("utf-8")`: the bytes of each character, in order; one to four
   * bytes per character, and exactly four for characters beyond U+FFFF.
   */
  function Encode(s: string): (r: Bytes)
    ensures |s| <= |r| <= 4 * |s|
    ensures (forall i :: 0 <= i < |s| ==> s[i] as int >= 0x10000) ==> |r| == 4 * |s|
  {
    Concat(seq(|s|, i requires 0 <= i < |s| => EncodeChar(s[i])))
  }

  /** The encoding of a non-empty string is its first character's bytes followed by the rest's. */
  lemma EncodeCons(s: string)
    requires s != []
    ensures Encode(s) == EncodeChar(s[0]) + Encode(s[1..])
  {
    var parts := seq(|s|, i requires 0 <= i < |s| => EncodeChar(s[i]));
    assert parts[1..] == seq(|s| - 1, i requires 0 <= i < |s| - 1 => EncodeChar(s[1..][i]));
  }

  predicate IsContinuation(b: byte) {
    0x80 <= b < 0xC0
  }

  /**
   * Decodes the scalar value at the head of `b`, returning it with the number
   * of bytes it occupies.
   */
  function DecodeChar(b: Bytes): (r: Result<(char, nat), Error>)
    requires |b| > 0
    ensures r.Success? ==> 1 <= r.value.1 <= |b| && r.value.1 <= 4
    ensures r.Failure? ==> r.error == UnicodeDecodeError
  {
    var b0 := b[0] as int;
    if b0 < 0x80 then
      Success((b0 as char, 1))
    else if 0xC2 <= b0 < 0xE0 then
      if |b| >= 2 && IsContinuation(b[1]) then
        var cp := (b0 - 0xC0) * 64 + (b[1] as int - 0x80);
        Success((cp as char, 2))
      else Failure(UnicodeDecodeError)
    else if 0xE0 <= b0 < 0xF0 then
      if |b| >= 3 && IsContinuation(b[1]) && IsContinuation(b[2]) then
        var cp := ((b0 - 0xE0) * 64 + (b[1] as int - 0x80)) * 64 + (b[2] as int - 0x80);
        if cp < 0x800 || (0xD800 <= cp < 0xE000) then Failure(UnicodeDecodeError)
        else Success((cp as char, 3))
      else Failure(UnicodeDecodeError)
    else if 0xF0 <= b0 < 0xF5 then
      if |b| >= 4 && IsContinuation(b[1]) && IsContinuation(b[2]) && IsContinuation(b[3]) then
        var cp := (((b0 - 0xF0) * 64 + (b[1] as int - 0x80)) * 64 + (b[2] as int - 0x80)) * 64 + (b[3] as int - 0x80);
        if cp < 0x10000 || cp >= 0x110000 then Failure(UnicodeDecodeError)
        else Success((cp as char, 4))
      else Failure(UnicodeDecodeError)
    else
      Failure(UnicodeDecodeError)
  }

  function Decode(b: Bytes): (r: Result<string, Error>)
    ensures r.Success? ==> |r.value| <= |b| <= 4 * |r.value|
    ensures r.Failure? ==> r.error == UnicodeDecodeError
    decreases |b|
  {
    if b == [] then Success([])
    else
      var head :- DecodeChar(b);
      var rest :- Decode(b[head.1..]);
      Success([head.0] + rest)
  }

  /** One scalar value survives encoding and decoding, whatever bytes follow it. */
  lemma DecodeEncodeChar(c: char, rest: Bytes)
    ensures DecodeChar(EncodeChar(c) + rest) == Success((c, |EncodeChar(c)|))
  {
    var cp := c as int;
    var q1 := cp / 64;
    var q2 := q1 / 64;
    var q3 := q2 / 64;
    assert cp == q1 * 64 + cp % 64;
    assert q1 == q2 * 64 + q1 % 64;
    assert q2 == q3 * 64 + q2 % 64;
    assert cp as char == c;
  }

  /** Decoding undoes encoding: `s.encode("utf-8").decode("utf-8") == s`. */
  lemma {:induction false} DecodeEncode(s: string)
    ensures Decode(Encode(s)) == Success(s)
  {
    if s != [] {
      var e := EncodeChar(s[0]);
      var b := Encode(s);
      EncodeCons(s);
      DecodeEncodeChar(s[0], Encode(s[1..]));
      assert b[|e|..] == Encode(s[1..]);
      DecodeEncode(s[1..]);
      assert Decode(b) == Success([s[0]] + s[1..]);
      assert [s[0]] + s[1..] == s;
    }
  }

  /** Encoding is injective, so distinct labels give distinct associated data. */
  lemma EncodeInjective(s: string, t: string)
    requires Encode(s) == Encode(t)
    ensures s == t
  {
    DecodeEncode(s);
    DecodeEncode(t);
  }
}
