/** Uri.EscapeDataString and Uri.UnescapeDataString: percent-encoding as in section 2.1 of
    RFC 3986, keeping only the unreserved characters of its section 2.3 (ALPHA, DIGIT, '-',
    '.', '_', '~') and escaping every other UTF-8 byte as '%' and two upper-case hex digits. */
module PercentEncoding {
  import opened Wrappers
  import Utf8

  predicate IsUnreserved(c: char) {
    ('A' <= c <= 'Z') || ('a' <= c <= 'z') || ('0' <= c <= '9') || c == '-' || c == '.' || c == '_' || c == '~'
  }

  function HexDigit(v: int): char
    requires 0 <= v < 16
  {
    if v < 10 then ('0' as int + v) as char else ('A' as int + v - 10) as char
  }

  /** The value of a hex digit of either case. */
  function HexValue(c: char): Option<int> {
    if '0' <= c <= '9' then Some(c as int - '0' as int)
    else if 'A' <= c <= 'F' then Some(c as int - 'A' as int + 10)
    else if 'a' <= c <= 'f' then Some(c as int - 'a' as int + 10)
    else None
  }

  /** Escapes bytes: an unreserved ASCII byte stands for itself, any other becomes %HH. */
  function EscapeBytes(bs: seq<Utf8.byte>): string {
    if bs == [] then ""
    else
      var c := (bs[0] as int) as char;
      (if IsUnreserved(c) then [c] else ['%', HexDigit(bs[0] as int / 16), HexDigit(bs[0] as int % 16)])
      + EscapeBytes(bs[1..])
  }

  /** Uri.EscapeDataString. */
  function EscapeDataString(s: string): string {
    EscapeBytes(Utf8.Encode(s))
  }

  /** The bytes a text stands for: a '%' with two hex digits is one byte, any other
      character stands for its own UTF-8 bytes. */
  function PercentDecode(s: string): seq<Utf8.byte> {
    if s == [] then []
    else if s[0] == '%' && |s| >= 3 && HexValue(s[1]).Some? && HexValue(s[2]).Some? then
      [(HexValue(s[1]).value * 16 + HexValue(s[2]).value) as Utf8.byte] + PercentDecode(s[3..])
    else Utf8.EncodeChar(s[0]) + PercentDecode(s[1..])
  }

  /** Uri.UnescapeDataString: the text the escapes spell when they form UTF-8; otherwise
      the input unchanged. */
  function UnescapeDataString(s: string): string {
    match Utf8.Decode(PercentDecode(s))
    case Some(t) => t
    case None => s
  }

  /** The output of escaping consists of unreserved characters, '%' and upper-case hex digits. */
  lemma {:induction false} EscapeBytesAlphabet(bs: seq<Utf8.byte>)
    ensures forall i :: 0 <= i < |EscapeBytes(bs)| ==>
      var c := EscapeBytes(bs)[i]; IsUnreserved(c) || c == '%'
  {
    if bs != [] {
      EscapeBytesAlphabet(bs[1..]);
      var c := (bs[0] as int) as char;
      var head: string := if IsUnreserved(c) then [c] else ['%', HexDigit(bs[0] as int / 16), HexDigit(bs[0] as int % 16)];
      assert EscapeBytes(bs) == head + EscapeBytes(bs[1..]);
      forall i | 0 <= i < |EscapeBytes(bs)|
        ensures IsUnreserved(EscapeBytes(bs)[i]) || EscapeBytes(bs)[i] == '%'
      {
        if i >= |head| {
          assert EscapeBytes(bs)[i] == EscapeBytes(bs[1..])[i - |head|];
        }
      }
    }
  }

  /** Escaping loses nothing: the escapes spell exactly the bytes that were escaped. */
  lemma {:induction false} PercentDecodeEscapeBytes(bs: seq<Utf8.byte>)
    ensures PercentDecode(EscapeBytes(bs)) == bs
  {
    if bs != [] {
      var b := bs[0] as int;
      var c := b as char;
      var rest := EscapeBytes(bs[1..]);
      PercentDecodeEscapeBytes(bs[1..]);
      if IsUnreserved(c) {
        assert EscapeBytes(bs) == [c] + rest;
        assert ([c] + rest)[1..] == rest;
      } else {
        var t := ['%', HexDigit(b / 16), HexDigit(b % 16)] + rest;
        assert EscapeBytes(bs) == t;
        assert HexValue(t[1]) == Some(b / 16) && HexValue(t[2]) == Some(b % 16);
        assert t[3..] == rest;
      }
      assert bs == [bs[0]] + bs[1..];
    }
  }

  /** Unescaping undoes escaping, for every string. */
  lemma UnescapeEscape(s: string)
    ensures UnescapeDataString(EscapeDataString(s)) == s
  {
    PercentDecodeEscapeBytes(Utf8.Encode(s));
    Utf8.DecodeEncode(s);
  }

  /** A text with no '%' stands for its own UTF-8 bytes. */
  lemma {:induction false} PercentDecodeNoEscapes(s: string)
    requires '%' !in s
    ensures PercentDecode(s) == Utf8.Encode(s)
  {
    if s != [] {
      assert s[0] != '%';
      assert '%' !in s[1..] by {
        assert forall i :: 0 <= i < |s[1..]| ==> s[1..][i] == s[i + 1];
      }
      PercentDecodeNoEscapes(s[1..]);
    }
  }

  /** Unescaping leaves a text without '%' unchanged. */
  lemma UnescapeNoEscapes(s: string)
    requires '%' !in s
    ensures UnescapeDataString(s) == s
  {
    PercentDecodeNoEscapes(s);
    Utf8.DecodeEncode(s);
  }
  /** A text of unreserved characters only is its own escape. */
  lemma {:induction false} EscapeUnreserved(s: string)
    requires forall i :: 0 <= i < |s| ==> IsUnreserved(s[i])
    ensures EscapeDataString(s) == s
  {
    if s != [] {
      EscapeUnreserved(s[1..]);
      var bs := Utf8.Encode(s);
      assert bs == Utf8.EncodeChar(s[0]) + Utf8.Encode(s[1..]);
      assert Utf8.EncodeChar(s[0]) == [(s[0] as int) as Utf8.byte];
      assert bs[1..] == Utf8.Encode(s[1..]);
      assert s == [s[0]] + s[1..];
    }
  }

  /** An escaped text holds no '&', '=' or '?', so it cannot break a query string apart. */
  lemma EscapeHasNoDelimiters(s: string)
    ensures '&' !in EscapeDataString(s) && '=' !in EscapeDataString(s) && '?' !in EscapeDataString(s)
  {
    EscapeBytesAlphabet(Utf8.Encode(s));
  }
}
