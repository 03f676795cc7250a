/** Convert.ToBase64String: the base 64 encoding of section 4 of RFC 4648 (alphabet
    A-Z a-z 0-9 + /, padded with '=' to a multiple of four characters), and its decoder. */
module Base64 {
  import opened Wrappers
  import opened Utf8

  /** The character of the 64-character alphabet for a six-bit value. */
  function Digit(v: int): char
    requires 0 <= v < 64
  {
    if v < 26 then ('A' as int + v) as char
    else if v < 52 then ('a' as int + (v - 26)) as char
    else if v < 62 then ('0' as int + (v - 52)) as char
    else if v == 62 then '+'
    else '/'
  }

  /** The six-bit value of an alphabet character; None for any other character, the pad included. */
  function ValueOf(c: char): Option<int> {
    if 'A' <= c <= 'Z' then Some(c as int - 'A' as int)
    else if 'a' <= c <= 'z' then Some(c as int - 'a' as int + 26)
    else if '0' <= c <= '9' then Some(c as int - '0' as int + 52)
    else if c == '+' then Some(62)
    else if c == '/' then Some(63)
    else None
  }

  predicate IsAlphabet(c: char) { ValueOf(c).Some? }

  lemma ValueOfDigit(v: int)
    requires 0 <= v < 64
    ensures ValueOf(Digit(v)) == Some(v)
  {
  }

  /** The four characters of a group of one to three bytes; a short group is padded. */
  function EncodeGroup(g: seq<byte>): (q: string)
    requires 1 <= |g| <= 3
    ensures |q| == 4
  {
    var b0 := g[0] as int;
    var b1 := if |g| >= 2 then g[1] as int else 0;
    var b2 := if |g| == 3 then g[2] as int else 0;
    [Digit(b0 / 4), Digit(b0 % 4 * 16 + b1 / 16),
     if |g| >= 2 then Digit(b1 % 16 * 4 + b2 / 64) else '=',
     if |g| == 3 then Digit(b2 % 64) else '=']
  }

  /** The encoding of bs: four characters per three bytes, the last group padded. */
  function Encode(bs: seq<byte>): (s: string)
    ensures |s| == 4 * ((|bs| + 2) / 3)
  {
    if |bs| == 0 then ""
    else if |bs| <= 3 then EncodeGroup(bs)
    else EncodeGroup(bs[..3]) + Encode(bs[3..])
  }

  /** Every character of an encoding is an alphabet character or the pad. */
  lemma {:induction false} EncodeAlphabet(bs: seq<byte>)
    ensures forall i :: 0 <= i < |Encode(bs)| ==> IsAlphabet(Encode(bs)[i]) || Encode(bs)[i] == '='
  {
    if |bs| > 3 {
      EncodeAlphabet(bs[3..]);
      var s := Encode(bs);
      forall i | 0 <= i < |s|
        ensures IsAlphabet(s[i]) || s[i] == '='
      {
        if i >= 4 {
          assert s[i] == Encode(bs[3..])[i - 4];
        }
      }
    }
  }

  /** The bytes of one group of four characters; padding is accepted only in the last group,
      and the bits it drops must be zero. */
  function DecodeGroup(q: string, last: bool): Option<seq<byte>>
    requires |q| == 4
  {
    if ValueOf(q[0]).None? || ValueOf(q[1]).None? then None
    else
      var n0, n1 := ValueOf(q[0]).value, ValueOf(q[1]).value;
      if last && q[2] == '=' && q[3] == '=' then
        if n1 % 16 == 0 then Some([(n0 * 4 + n1 / 16) as byte]) else None
      else if ValueOf(q[2]).None? then None
      else
        var n2 := ValueOf(q[2]).value;
        if last && q[3] == '=' then
          if n2 % 4 == 0 then Some([(n0 * 4 + n1 / 16) as byte, (n1 % 16 * 16 + n2 / 4) as byte]) else None
        else if ValueOf(q[3]).None? then None
        else
          var n3 := ValueOf(q[3]).value;
          Some([(n0 * 4 + n1 / 16) as byte, (n1 % 16 * 16 + n2 / 4) as byte, (n2 % 4 * 64 + n3) as byte])
  }

  /** Decoding of a padded base 64 text; None when s is not the encoding of any byte string. */
  function Decode(s: string): Option<seq<byte>>
    decreases |s|
  {
    if s == "" then Some([])
    else if |s| < 4 then None
    else match DecodeGroup(s[..4], |s| == 4)
      case None => None
      case Some(g) =>
        match Decode(s[4..])
        case None => None
        case Some(rest) => Some(g + rest)
  }

  /** One byte: two characters and two pads. */
  lemma DecodeEncodeOne(g: seq<byte>)
    requires |g| == 1
    ensures DecodeGroup(EncodeGroup(g), true) == Some(g)
  {
    var b0 := g[0] as int;
    var n1 := b0 % 4 * 16;
    ValueOfDigit(b0 / 4);
    ValueOfDigit(n1);
    assert b0 / 4 * 4 + n1 / 16 == b0;
    assert [(b0 / 4 * 4 + n1 / 16) as byte] == g;
  }

  /** Two bytes: three characters and one pad. */
  lemma DecodeEncodeTwo(g: seq<byte>)
    requires |g| == 2
    ensures DecodeGroup(EncodeGroup(g), true) == Some(g)
  {
    var b0, b1 := g[0] as int, g[1] as int;
    var n1, n2 := b0 % 4 * 16 + b1 / 16, b1 % 16 * 4;
    ValueOfDigit(b0 / 4);
    ValueOfDigit(n1);
    ValueOfDigit(n2);
    assert b0 / 4 * 4 + n1 / 16 == b0;
    assert n1 % 16 * 16 + n2 / 4 == b1;
    assert [(b0 / 4 * 4 + n1 / 16) as byte, (n1 % 16 * 16 + n2 / 4) as byte] == g;
  }

  /** Three bytes: four characters, in any group. */
  lemma DecodeEncodeThree(g: seq<byte>, last: bool)
    requires |g| == 3
    ensures DecodeGroup(EncodeGroup(g), last) == Some(g)
  {
    var b0, b1, b2 := g[0] as int, g[1] as int, g[2] as int;
    var n1, n2 := b0 % 4 * 16 + b1 / 16, b1 % 16 * 4 + b2 / 64;
    ValueOfDigit(b0 / 4);
    ValueOfDigit(n1);
    ValueOfDigit(n2);
    ValueOfDigit(b2 % 64);
    assert b0 / 4 * 4 + n1 / 16 == b0;
    assert n1 % 16 * 16 + n2 / 4 == b1;
    assert n2 % 4 * 64 + b2 % 64 == b2;
    assert [(b0 / 4 * 4 + n1 / 16) as byte, (n1 % 16 * 16 + n2 / 4) as byte,
            (n2 % 4 * 64 + b2 % 64) as byte] == g;
  }

  /** A group decodes to the bytes it was encoded from; a short group only as the last one. */
  lemma DecodeEncodeGroup(g: seq<byte>, last: bool)
    requires 1 <= |g| <= 3
    requires |g| < 3 ==> last
    ensures DecodeGroup(EncodeGroup(g), last) == Some(g)
  {
    if |g| == 1 {
      DecodeEncodeOne(g);
    } else if |g| == 2 {
      DecodeEncodeTwo(g);
    } else {
      DecodeEncodeThree(g, last);
    }
  }

  /** Decoding inverts encoding: the credential text determines the bytes it was made from. */
  lemma {:induction false} DecodeEncode(bs: seq<byte>)
    ensures Decode(Encode(bs)) == Some(bs)
  {
    var s := Encode(bs);
    if 1 <= |bs| <= 3 {
      DecodeEncodeGroup(bs, true);
      assert s[..4] == s && s[4..] == "";
      assert bs + [] == bs;
    } else if |bs| > 3 {
      DecodeEncodeGroup(bs[..3], |s| == 4);
      assert s[..4] == EncodeGroup(bs[..3]);
      assert s[4..] == Encode(bs[3..]);
      DecodeEncode(bs[3..]);
      assert bs == bs[..3] + bs[3..];
    }
  }
}
