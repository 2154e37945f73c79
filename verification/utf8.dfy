/** UTF-8 as Python's strict 'utf-8' codec reads and writes it (RFC 3629):
    no overlong forms, no encoded surrogates, nothing above U+10FFFF.
    A Dafny `char` is a Unicode scalar value, as a Python `str` element is
    a code point; lone surrogates, which a `str` may hold but no UTF-8
    decoder ever produces, are outside the model. */
module Utf8 {
  import opened Wrappers
  import opened Octets

  predicate IsContinuation(b: int) { 0x80 <= b < 0xC0 }

  /** The bytes that encode one character. */
  function EncodeChar(c: char): (bs: seq<byte>)
    ensures 1 <= |bs| <= 4
    ensures (bs[0] < 0x80) <==> |bs| == 1
    ensures forall k :: 1 <= k < |bs| ==> IsContinuation(bs[k])
  {
    var n := c as int;
    if n < 0x80 then
      [n]
    else if n < 0x800 then
      [0xC0 + n / 64, 0x80 + n % 64]
    else if n < 0x1_0000 then
      [0xE0 + n / 64 / 64, 0x80 + n / 64 % 64, 0x80 + n % 64]
    else
      [0xF0 + n / 64 / 64 / 64, 0x80 + n / 64 / 64 % 64, 0x80 + n / 64 % 64, 0x80 + n % 64]
  }

  /** `str.encode('utf-8')`. */
  function Encode(s: string): (bs: seq<byte>)
    ensures |bs| >= |s|
    ensures s == [] <==> bs == []
  {
    if s == [] then [] else EncodeChar(s[0]) + Encode(s[1..])
  }

  /** The first character of `bs` and the number of bytes it takes, or
      `None` when `bs` does not start with a well-formed UTF-8 sequence. */
  function DecodeFirst(bs: seq<byte>): (r: Option<(char, nat)>)
    requires |bs| > 0
    ensures r.Some? ==> 1 <= r.value.1 <= |bs| && r.value.1 <= 4
    ensures r.Some? ==> EncodeChar(r.value.0) == bs[..r.value.1]
  {
    var b0: int := bs[0];
    if b0 < 0x80 then
      assert bs[..1] == [bs[0]];
      Some((b0 as char, 1))
    else if 0xC2 <= b0 <= 0xDF then DecodeTwo(bs)
    else if 0xE0 <= b0 <= 0xEF then DecodeThree(bs)
    else if 0xF0 <= b0 <= 0xF4 then DecodeFour(bs)
    else None
  }

  /** A two-byte sequence: lead byte C2..DF, one continuation byte. */
  function DecodeTwo(bs: seq<byte>): (r: Option<(char, nat)>)
    requires |bs| > 0 && 0xC2 <= bs[0] <= 0xDF
    ensures r.Some? <==> |bs| >= 2 && IsContinuation(bs[1])
    ensures r.Some? ==> r.value.1 == 2 && EncodeChar(r.value.0) == bs[..2]
  {
    if |bs| >= 2 && IsContinuation(bs[1]) then
      var b0: int, b1: int := bs[0], bs[1];
      var n := (b0 - 0xC0) * 64 + (b1 - 0x80);
      Two(b0, b1);
      assert bs[..2] == [bs[0], bs[1]];
      Some((n as char, 2))
    else None
  }

  /** A three-byte sequence: lead byte E0..EF, two continuation bytes, the
      first narrowed after E0 (no overlong form) and after ED (no surrogate). */
  function DecodeThree(bs: seq<byte>): (r: Option<(char, nat)>)
    requires |bs| > 0 && 0xE0 <= bs[0] <= 0xEF
    ensures r.Some? ==> r.value.1 == 3 && |bs| >= 3 && EncodeChar(r.value.0) == bs[..3]
  {
    var b0: int := bs[0];
    var lo := if b0 == 0xE0 then 0xA0 else 0x80;
    var hi := if b0 == 0xED then 0xA0 else 0xC0;
    if |bs| >= 3 && lo <= bs[1] < hi && IsContinuation(bs[2]) then
      var b1: int, b2: int := bs[1], bs[2];
      var n := ((b0 - 0xE0) * 64 + (b1 - 0x80)) * 64 + (b2 - 0x80);
      Three(b0, b1, b2);
      assert bs[..3] == [bs[0], bs[1], bs[2]];
      Some((n as char, 3))
    else None
  }

  /** A four-byte sequence: lead byte F0..F4, three continuation bytes, the
      first narrowed after F0 (no overlong form) and after F4 (nothing above
      U+10FFFF). */
  function DecodeFour(bs: seq<byte>): (r: Option<(char, nat)>)
    requires |bs| > 0 && 0xF0 <= bs[0] <= 0xF4
    ensures r.Some? ==> r.value.1 == 4 && |bs| >= 4 && EncodeChar(r.value.0) == bs[..4]
  {
    var b0: int := bs[0];
    var lo := if b0 == 0xF0 then 0x90 else 0x80;
    var hi := if b0 == 0xF4 then 0x90 else 0xC0;
    if |bs| >= 4 && lo <= bs[1] < hi && IsContinuation(bs[2]) && IsContinuation(bs[3]) then
      var b1: int, b2: int, b3: int := bs[1], bs[2], bs[3];
      var n := (((b0 - 0xF0) * 64 + (b1 - 0x80)) * 64 + (b2 - 0x80)) * 64 + (b3 - 0x80);
      Four(b0, b1, b2, b3);
      assert bs[..4] == [bs[0], bs[1], bs[2], bs[3]];
      Some((n as char, 4))
    else None
  }

  /** `bytes.decode('utf-8')`: `None` where Python raises UnicodeDecodeError. */
  function Decode(bs: seq<byte>): (r: Option<string>)
    ensures r.Some? ==> Encode(r.value) == bs
    decreases |bs|
  {
    if bs == [] then Some([])
    else
      var first := DecodeFirst(bs);
      if first.None? then None
      else
        var c, k := first.value.0, first.value.1;
        var rest := Decode(bs[k..]);
        if rest.None? then None
        else
          EncodeCons(bs, k, c, rest.value);
          Some([c] + rest.value)
  }

  /** Gluing one decoded character to the decoded rest. */
  lemma EncodeCons(bs: seq<byte>, k: nat, c: char, s: string)
    requires k <= |bs| && EncodeChar(c) == bs[..k] && Encode(s) == bs[k..]
    ensures Encode([c] + s) == bs
  {
    assert ([c] + s)[0] == c && ([c] + s)[1..] == s;
    assert bs == bs[..k] + bs[k..];
  }

  // The arithmetic of one sequence of each length, in both directions.

  lemma Two(b0: int, b1: int)
    requires 0xC2 <= b0 <= 0xDF && IsContinuation(b1)
    ensures var n := (b0 - 0xC0) * 64 + (b1 - 0x80);
      0x80 <= n < 0x800 && EncodeChar(n as char) == [b0, b1]
  {
    var n := (b0 - 0xC0) * 64 + (b1 - 0x80);
    assert n / 64 == b0 - 0xC0 && n % 64 == b1 - 0x80;
  }

  lemma Three(b0: int, b1: int, b2: int)
    requires 0xE0 <= b0 <= 0xEF && IsContinuation(b1) && IsContinuation(b2)
    requires b0 == 0xE0 ==> b1 >= 0xA0
    requires b0 == 0xED ==> b1 < 0xA0
    ensures var n := ((b0 - 0xE0) * 64 + (b1 - 0x80)) * 64 + (b2 - 0x80);
      (0x800 <= n < 0xD800 || 0xE000 <= n < 0x1_0000) && EncodeChar(n as char) == [b0, b1, b2]
  {
    var q := (b0 - 0xE0) * 64 + (b1 - 0x80);
    var n := q * 64 + (b2 - 0x80);
    assert n / 64 == q && n % 64 == b2 - 0x80;
    assert q / 64 == b0 - 0xE0 && q % 64 == b1 - 0x80;
  }

  lemma Four(b0: int, b1: int, b2: int, b3: int)
    requires 0xF0 <= b0 <= 0xF4 && IsContinuation(b1) && IsContinuation(b2) && IsContinuation(b3)
    requires b0 == 0xF0 ==> b1 >= 0x90
    requires b0 == 0xF4 ==> b1 < 0x90
    ensures var n := (((b0 - 0xF0) * 64 + (b1 - 0x80)) * 64 + (b2 - 0x80)) * 64 + (b3 - 0x80);
      0x1_0000 <= n < 0x11_0000 && EncodeChar(n as char) == [b0, b1, b2, b3]
  {
    var q1 := (b0 - 0xF0) * 64 + (b1 - 0x80);
    var q := q1 * 64 + (b2 - 0x80);
    var n := q * 64 + (b3 - 0x80);
    assert n / 64 == q && n % 64 == b3 - 0x80;
    assert q / 64 == q1 && q % 64 == b2 - 0x80;
    assert q1 / 64 == b0 - 0xF0 && q1 % 64 == b1 - 0x80;
  }

  lemma DecodeFirstTwo(c: char, rest: seq<byte>)
    requires 0x80 <= c as int < 0x800
    ensures DecodeFirst(EncodeChar(c) + rest) == Some((c, 2))
  {
    var n := c as int;
    var b0, b1 := 0xC0 + n / 64, 0x80 + n % 64;
    assert EncodeChar(c) == [b0, b1];
    var bs := EncodeChar(c) + rest;
    assert bs[0] == b0 && bs[1] == b1;
    assert (b0 - 0xC0) * 64 + (b1 - 0x80) == n;
  }

  lemma DecodeFirstThree(c: char, rest: seq<byte>)
    requires 0x800 <= c as int < 0x1_0000
    ensures DecodeFirst(EncodeChar(c) + rest) == Some((c, 3))
  {
    var n := c as int;
    var q := n / 64;
    var b0, b1, b2 := 0xE0 + q / 64, 0x80 + q % 64, 0x80 + n % 64;
    assert EncodeChar(c) == [b0, b1, b2];
    var bs := EncodeChar(c) + rest;
    assert bs[0] == b0 && bs[1] == b1 && bs[2] == b2;
    assert n == q * 64 + n % 64 && q == (q / 64) * 64 + q % 64;
    assert ((b0 - 0xE0) * 64 + (b1 - 0x80)) * 64 + (b2 - 0x80) == n;
  }

  lemma DecodeFirstFour(c: char, rest: seq<byte>)
    requires 0x1_0000 <= c as int
    ensures DecodeFirst(EncodeChar(c) + rest) == Some((c, 4))
  {
    var n := c as int;
    var q := n / 64;
    var q1 := q / 64;
    var b0, b1, b2, b3 := 0xF0 + q1 / 64, 0x80 + q1 % 64, 0x80 + q % 64, 0x80 + n % 64;
    assert EncodeChar(c) == [b0, b1, b2, b3];
    var bs := EncodeChar(c) + rest;
    assert bs[0] == b0 && bs[1] == b1 && bs[2] == b2 && bs[3] == b3;
    assert n == q * 64 + n % 64 && q == q1 * 64 + q % 64 && q1 == (q1 / 64) * 64 + q1 % 64;
    assert (((b0 - 0xF0) * 64 + (b1 - 0x80)) * 64 + (b2 - 0x80)) * 64 + (b3 - 0x80) == n;
  }

  /** Decoding the encoding of one character, followed by anything, reads
      back that character and exactly its bytes. */
  lemma DecodeFirstEncodeChar(c: char, rest: seq<byte>)
    ensures DecodeFirst(EncodeChar(c) + rest) == Some((c, |EncodeChar(c)|))
  {
    var n := c as int;
    if n < 0x80 {
    } else if n < 0x800 {
      DecodeFirstTwo(c, rest);
    } else if n < 0x1_0000 {
      DecodeFirstThree(c, rest);
    } else {
      DecodeFirstFour(c, rest);
    }
  }

  /** Encoding then decoding gives back the text. */
  lemma {:induction false} DecodeEncode(s: string)
    ensures Decode(Encode(s)) == Some(s)
  {
    if s != [] {
      var e := EncodeChar(s[0]);
      DecodeFirstEncodeChar(s[0], Encode(s[1..]));
      assert (e + Encode(s[1..]))[|e|..] == Encode(s[1..]);
      DecodeEncode(s[1..]);
      assert [s[0]] + s[1..] == s;
    }
  }
}
