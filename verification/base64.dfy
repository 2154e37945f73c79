/** The "base64" encoding of section 4 of RFC 4648: the standard alphabet
    A-Z, a-z, 0-9, '+', '/' and '=' padding, as Python's `base64.b64encode`
    writes it.  Decoding is strict: every character must belong to the
    alphabet and padding may only end the text.  The bits that padding
    leaves over in the last character are not checked, as Python does not
    check them either. */
module Base64 {
  import opened Wrappers
  import opened Octets

  const Pad: char := '='

  predicate IsAlphabet(c: char)
  {
    'A' <= c <= 'Z' || 'a' <= c <= 'z' || '0' <= c <= '9' || c == '+' || c == '/'
  }

  /** The character that stands for the six bits `v`. */
  function CharOf(v: int): (c: char)
    requires 0 <= v < 64
    ensures IsAlphabet(c)
  {
    if v < 26 then ('A' as int + v) as char
    else if v < 52 then ('a' as int + v - 26) as char
    else if v < 62 then ('0' as int + v - 52) as char
    else if v == 62 then '+'
    else '/'
  }

  /** The six bits a character stands for, or `None` outside the alphabet. */
  function ValueOf(c: char): (r: Option<int>)
    ensures r.Some? <==> IsAlphabet(c)
    ensures r.Some? ==> 0 <= r.value < 64
  {
    if 'A' <= c <= 'Z' then Some(c as int - 'A' as int)
    else if 'a' <= c <= 'z' then Some(c as int - 'a' as int + 26)
    else if '0' <= c <= '9' then Some(c as int - '0' as int + 52)
    else if c == '+' then Some(62)
    else if c == '/' then Some(63)
    else None
  }

  lemma ValueOfCharOf(v: int)
    requires 0 <= v < 64
    ensures ValueOf(CharOf(v)) == Some(v)
  {
  }

  /** `base64.b64encode`: every three bytes become four characters, and a
      last group of one or two bytes is padded with '='. */
  function Encode(bs: seq<byte>): (s: string)
    ensures |s| == (|bs| + 2) / 3 * 4
  {
    if |bs| == 0 then []
    else if |bs| == 1 then
      [CharOf(bs[0] / 4), CharOf(bs[0] % 4 * 16), Pad, Pad]
    else if |bs| == 2 then
      [CharOf(bs[0] / 4), CharOf(bs[0] % 4 * 16 + bs[1] / 16), CharOf(bs[1] % 16 * 4), Pad]
    else
      var rest := Encode(bs[3..]);
      assert (|bs| - 3 + 2) / 3 == (|bs| + 2) / 3 - 1;
      EncodeGroup(bs[0], bs[1], bs[2]) + rest
  }

  /** Three bytes, that is 24 bits, as four characters of six bits each. */
  function EncodeGroup(b0: byte, b1: byte, b2: byte): (q: string)
    ensures |q| == 4
  {
    [CharOf(b0 / 4), CharOf(b0 % 4 * 16 + b1 / 16), CharOf(b1 % 16 * 4 + b2 / 64), CharOf(b2 % 64)]
  }

  /** Four characters back to three, two or (padded) one byte; padding is
      admitted only when the quad is the last one. */
  function DecodeQuad(q: string, last: bool): (r: Option<seq<byte>>)
    requires |q| == 4
    ensures r.Some? ==> 1 <= |r.value| <= 3
    ensures r.Some? && !last ==> |r.value| == 3
  {
    match (ValueOf(q[0]), ValueOf(q[1]), ValueOf(q[2]), ValueOf(q[3]))
    case (Some(v0), Some(v1), Some(v2), Some(v3)) =>
      Some([v0 * 4 + v1 / 16, v1 % 16 * 16 + v2 / 4, v2 % 4 * 64 + v3])
    case (Some(v0), Some(v1), Some(v2), None) =>
      if last && q[3] == Pad then Some([v0 * 4 + v1 / 16, v1 % 16 * 16 + v2 / 4]) else None
    case (Some(v0), Some(v1), None, None) =>
      if last && q[2] == Pad && q[3] == Pad then Some([v0 * 4 + v1 / 16]) else None
    case _ => None
  }

  /** `base64.b64decode` on canonical input: `None` where Python raises
      binascii.Error. */
  function Decode(s: string): (r: Option<seq<byte>>)
    ensures r.Some? ==> |s| % 4 == 0
    ensures r.Some? ==> |s| / 4 * 3 - 2 <= |r.value| <= |s| / 4 * 3
  {
    if s == [] then Some([])
    else if |s| < 4 then None
    else
      match DecodeQuad(s[..4], |s| == 4)
      case None => None
      case Some(head) =>
        match Decode(s[4..])
        case None => None
        case Some(tail) => Some(head + tail)
  }

  /** A quad of one byte and two pads reads back that byte. */
  lemma DecodeOne(b0: byte)
    ensures DecodeQuad([CharOf(b0 / 4), CharOf(b0 % 4 * 16), Pad, Pad], true) == Some([b0])
  {
    var v0, v1 := b0 / 4, b0 % 4 * 16;
    ValueOfCharOf(v0);
    ValueOfCharOf(v1);
    assert v0 * 4 + v1 / 16 == b0;
  }

  /** A quad of two bytes and one pad reads back those bytes. */
  lemma DecodeTwo(b0: byte, b1: byte)
    ensures DecodeQuad([CharOf(b0 / 4), CharOf(b0 % 4 * 16 + b1 / 16), CharOf(b1 % 16 * 4), Pad], true)
         == Some([b0, b1])
  {
    var v0, v1, v2 := b0 / 4, b0 % 4 * 16 + b1 / 16, b1 % 16 * 4;
    ValueOfCharOf(v0);
    ValueOfCharOf(v1);
    ValueOfCharOf(v2);
    assert v0 * 4 + v1 / 16 == b0;
    assert v1 % 16 * 16 + v2 / 4 == b1;
  }

  /** A quad of three bytes reads back those bytes. */
  lemma DecodeThree(b0: byte, b1: byte, b2: byte, last: bool)
    ensures DecodeQuad(EncodeGroup(b0, b1, b2), last) == Some([b0, b1, b2])
  {
    var v0, v1, v2, v3 := b0 / 4, b0 % 4 * 16 + b1 / 16, b1 % 16 * 4 + b2 / 64, b2 % 64;
    ValueOfCharOf(v0);
    ValueOfCharOf(v1);
    ValueOfCharOf(v2);
    ValueOfCharOf(v3);
    SplitThree(b0, b1, b2);
  }

  /** The arithmetic of cutting 24 bits into four sixes and back. */
  lemma SplitThree(b0: byte, b1: byte, b2: byte)
    ensures var v0, v1, v2, v3 := b0 / 4, b0 % 4 * 16 + b1 / 16, b1 % 16 * 4 + b2 / 64, b2 % 64;
      v0 * 4 + v1 / 16 == b0 && v1 % 16 * 16 + v2 / 4 == b1 && v2 % 4 * 64 + v3 == b2
  {
    var v0, v1, v2, v3 := b0 / 4, b0 % 4 * 16 + b1 / 16, b1 % 16 * 4 + b2 / 64, b2 % 64;
    assert v0 * 4 + v1 / 16 == b0;
    assert v1 % 16 * 16 + v2 / 4 == b1;
    assert v2 % 4 * 64 + v3 == b2;
  }

  /** A text of one quad decodes as that quad does at the end. */
  lemma DecodeLastQuad(q: string, head: seq<byte>)
    requires |q| == 4 && DecodeQuad(q, true) == Some(head)
    ensures Decode(q) == Some(head)
  {
    assert q[..4] == q && q[4..] == [];
    assert head + [] == head;
  }

  lemma DecodeEncodeOne(b0: byte)
    ensures Decode(Encode([b0])) == Some([b0])
  {
    var bs := [b0];
    var q := [CharOf(b0 / 4), CharOf(b0 % 4 * 16), Pad, Pad];
    assert Encode(bs) == q;
    DecodeOne(b0);
    DecodeLastQuad(q, bs);
  }

  lemma DecodeEncodeTwo(b0: byte, b1: byte)
    ensures Decode(Encode([b0, b1])) == Some([b0, b1])
  {
    var bs := [b0, b1];
    var q := [CharOf(b0 / 4), CharOf(b0 % 4 * 16 + b1 / 16), CharOf(b1 % 16 * 4), Pad];
    assert Encode(bs) == q;
    DecodeTwo(b0, b1);
    DecodeLastQuad(q, bs);
  }

  /** Encoding takes the bytes three by three. */
  lemma EncodeStep(bs: seq<byte>)
    requires |bs| >= 3
    ensures Encode(bs)[..4] == EncodeGroup(bs[0], bs[1], bs[2])
    ensures Encode(bs)[4..] == Encode(bs[3..])
  {
    var q, t := EncodeGroup(bs[0], bs[1], bs[2]), Encode(bs[3..]);
    assert Encode(bs) == q + t;
    assert (q + t)[..4] == q && (q + t)[4..] == t;
  }

  /** A quad that encodes three bytes, in front of a text that decodes. */
  lemma DecodeGroupCons(s: string, b0: byte, b1: byte, b2: byte, tail: seq<byte>)
    requires |s| >= 4 && s[..4] == EncodeGroup(b0, b1, b2) && Decode(s[4..]) == Some(tail)
    ensures Decode(s) == Some([b0, b1, b2] + tail)
  {
    DecodeThree(b0, b1, b2, |s| == 4);
  }

  /** Decoding what was encoded gives back the bytes. */
  lemma {:induction false} DecodeEncode(bs: seq<byte>)
    ensures Decode(Encode(bs)) == Some(bs)
  {
    if |bs| == 0 {
      assert Encode(bs) == [];
    } else if |bs| == 1 {
      assert bs == [bs[0]];
      DecodeEncodeOne(bs[0]);
    } else if |bs| == 2 {
      assert bs == [bs[0], bs[1]];
      DecodeEncodeTwo(bs[0], bs[1]);
    } else {
      assert [bs[0], bs[1], bs[2]] + bs[3..] == bs;
      DecodeEncode(bs[3..]);
      EncodeStep(bs);
      DecodeGroupCons(Encode(bs), bs[0], bs[1], bs[2], bs[3..]);
    }
  }

  /** An encoding holds only alphabet characters and padding, all of them
      ASCII. */
  lemma {:induction false} EncodeAlphabet(bs: seq<byte>)
    ensures forall k :: 0 <= k < |Encode(bs)| ==> IsAlphabet(Encode(bs)[k]) || Encode(bs)[k] == Pad
  {
    if |bs| >= 3 {
      EncodeStep(bs);
      EncodeAlphabet(bs[3..]);
      var s := Encode(bs);
      assert s == s[..4] + s[4..];
    }
  }
}
