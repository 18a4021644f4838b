/**
 * encodeURIComponent of ECMA-262 (section "URI Handling Functions") over
 * strings of Unicode scalar values: every character outside the unreserved set
 * is written as the percent-escaped bytes of its UTF-8 encoding, with
 * upper-case hexadecimal digits.
 */
module Uri {
  import opened Wrappers
  import opened Seqs

  type Byte = b: int | 0 <= b < 256

  /** The characters encodeURIComponent leaves as they are: letters, digits and - _ . ! ~ * ' ( ). */
  predicate Unreserved(c: char)
  {
    ('A' <= c <= 'Z') || ('a' <= c <= 'z') || ('0' <= c <= '9')
    || c == '-' || c == '_' || c == '.' || c == '!' || c == '~' || c == '*' || c == '\'' || c == '(' || c == ')'
  }

  /** The UTF-8 encoding of one scalar value, one to four bytes. */
  function Utf8(c: char): (bytes: seq<Byte>)
    ensures 1 <= |bytes| <= 4
    ensures |bytes| == 1 <==> c as int < 0x80
    ensures |bytes| == 1 ==> bytes[0] == c as int
  {
    var cp := c as int;
    if cp < 0x80 then [cp]
    else if cp < 0x800 then [0xC0 + cp / 0x40, 0x80 + cp % 0x40]
    else if cp < 0x1_0000 then [0xE0 + cp / 0x1000, 0x80 + (cp / 0x40) % 0x40, 0x80 + cp % 0x40]
    else [0xF0 + cp / 0x4_0000, 0x80 + (cp / 0x1000) % 0x40, 0x80 + (cp / 0x40) % 0x40, 0x80 + cp % 0x40]
  }

  /** The UTF-8 encoding of a string. */
  function Utf8String(s: string): (bytes: seq<Byte>)
  {
    FlatMap(Utf8, s)
  }

  function HexUpper(d: int): (c: char)
    requires 0 <= d < 16
  {
    "0123456789ABCDEF"[d]
  }

  /** The value of a hexadecimal digit of either case, if `c` is one. */
  function HexValue(c: char): (r: Option<int>)
    ensures r.Some? ==> 0 <= r.value < 16
  {
    if '0' <= c <= '9' then Some(c as int - '0' as int)
    else if 'A' <= c <= 'F' then Some(c as int - 'A' as int + 10)
    else if 'a' <= c <= 'f' then Some(c as int - 'a' as int + 10)
    else None
  }

  /** "%XY" for one byte. */
  function PercentByte(b: Byte): (e: string)
  {
    ['%', HexUpper(b / 16), HexUpper(b % 16)]
  }

  /** An unreserved character stays; any other is the escapes of its UTF-8 bytes, one escape for ASCII. */
  function EncodeChar(c: char): (e: string)
  {
    if Unreserved(c) then [c]
    else if c as int < 0x80 then PercentByte(c as int)
    else FlatMap(PercentByte, Utf8(c))
  }

  /**
   * encodeURIComponent: the output holds only unreserved characters and the
   * '%' of escapes; DecodeEncode reads it back.
   */
  function EncodeURIComponent(s: string): (e: string)
    ensures Safe(e)
  {
    EscapesSafe(s);
    FlatMap(EncodeChar, s)
  }

  /** The one-escape case for ASCII is the general case for a one-byte encoding. */
  lemma EncodeCharBytes(c: char)
    requires !Unreserved(c)
    ensures EncodeChar(c) == FlatMap(PercentByte, Utf8(c))
  {
    if c as int < 0x80 {
      var b := c as int;
      assert Utf8(c) == [b] + [];
      FlatMapCons<Byte, char>(PercentByte, b, []);
    }
  }

  predicate Safe(r: string)
  {
    forall k :: 0 <= k < |r| ==> Unreserved(r[k]) || r[k] == '%'
  }

  lemma SafeAppend(a: string, b: string)
    requires Safe(a) && Safe(b)
    ensures Safe(a + b)
  {
    assert forall k :: 0 <= k < |a + b| ==> (a + b)[k] == if k < |a| then a[k] else b[k - |a|];
  }

  /** Percent escapes consist of '%' and upper-case hexadecimal digits only. */
  lemma {:induction false} PercentBytesSafe(bs: seq<Byte>)
    ensures Safe(FlatMap(PercentByte, bs))
  {
    if bs != [] {
      PercentBytesSafe(bs[1..]);
      SafeAppend(PercentByte(bs[0]), FlatMap(PercentByte, bs[1..]));
    }
  }

  /** The escaped characters are only unreserved characters and the '%' of escapes. */
  lemma {:induction false} EscapesSafe(s: string)
    ensures Safe(FlatMap(EncodeChar, s))
  {
    if s != [] {
      EscapesSafe(s[1..]);
      var e := EncodeChar(s[0]);
      if Unreserved(s[0]) {
        assert e == [s[0]];
      } else {
        EncodeCharBytes(s[0]);
        PercentBytesSafe(Utf8(s[0]));
      }
      SafeAppend(e, FlatMap(EncodeChar, s[1..]));
    }
  }

  /**
   * Reading an encoded string back into bytes: "%XY" is the byte XY, an
   * unreserved character its own code; anything else is malformed.
   */
  function PercentDecode(e: string): (r: Option<seq<Byte>>)
    decreases |e|
  {
    if e == [] then Some([])
    else if e[0] == '%' then
      if |e| < 3 || HexValue(e[1]).None? || HexValue(e[2]).None? then None
      else
        Prepend([HexValue(e[1]).value * 16 + HexValue(e[2]).value], PercentDecode(e[3..]))
    else if Unreserved(e[0]) then
      Prepend([e[0] as int], PercentDecode(e[1..]))
    else None
  }

  lemma HexDigitReads(d: int)
    requires 0 <= d < 16
    ensures HexValue(HexUpper(d)) == Some(d)
  {
  }

  lemma PercentByteDecodes(b: Byte, rest: string)
    ensures PercentDecode(PercentByte(b) + rest) == Prepend([b], PercentDecode(rest))
  {
    var e := PercentByte(b) + rest;
    assert e[0] == '%' && e[1] == HexUpper(b / 16) && e[2] == HexUpper(b % 16) && e[3..] == rest;
    HexDigitReads(b / 16);
    HexDigitReads(b % 16);
  }

  lemma {:induction false} PercentBytesDecode(bs: seq<Byte>, rest: string)
    ensures PercentDecode(FlatMap(PercentByte, bs) + rest) == Prepend(bs, PercentDecode(rest))
  {
    if bs == [] {
      assert FlatMap(PercentByte, bs) + rest == rest;
      PrependNothing(PercentDecode(rest));
    } else {
      var head := PercentByte(bs[0]);
      var escaped := FlatMap(PercentByte, bs[1..]);
      assert FlatMap(PercentByte, bs) == head + escaped;
      assert FlatMap(PercentByte, bs) + rest == head + (escaped + rest);
      PercentBytesDecode(bs[1..], rest);
      PercentByteDecodes(bs[0], escaped + rest);
      PrependPrepend([bs[0]], bs[1..], PercentDecode(rest));
      assert [bs[0]] + bs[1..] == bs;
    }
  }

  /** Unreserved characters are ASCII, so each is its own one-byte UTF-8 encoding. */
  lemma UnreservedIsAscii(c: char)
    requires Unreserved(c)
    ensures Utf8(c) == [c as int]
  {
  }

  /** Decoding the encoding of any string gives back its UTF-8 bytes. */
  lemma {:induction false} DecodeEncode(s: string)
    ensures PercentDecode(EncodeURIComponent(s)) == Some(Utf8String(s))
  {
    if s != [] {
      var c := s[0];
      var rest := EncodeURIComponent(s[1..]);
      DecodeEncode(s[1..]);
      assert EncodeURIComponent(s) == EncodeChar(c) + rest;
      assert Utf8String(s) == Utf8(c) + Utf8String(s[1..]);
      if Unreserved(c) {
        UnreservedIsAscii(c);
        assert (EncodeChar(c) + rest)[1..] == rest;
      } else {
        EncodeCharBytes(c);
        PercentBytesDecode(Utf8(c), rest);
      }
    }
  }

  /** A single character is encoded as EncodeChar writes it. */
  lemma EncodeSingle(c: char)
    ensures EncodeURIComponent([c]) == EncodeChar(c)
  {
    FlatMapCons(EncodeChar, c, []);
    assert [c] + [] == [c];
  }

  /** Encoding works character by character, so it distributes over concatenation. */
  lemma EncodeAppend(a: string, b: string)
    ensures EncodeURIComponent(a + b) == EncodeURIComponent(a) + EncodeURIComponent(b)
  {
    FlatMapAppend(EncodeChar, a, b);
  }

  /** A string made of unreserved characters only is left as it is. */
  lemma {:induction false} EncodeUnreserved(s: string)
    requires forall k :: 0 <= k < |s| ==> Unreserved(s[k])
    ensures EncodeURIComponent(s) == s
  {
    if s != [] {
      EncodeUnreserved(s[1..]);
      assert s == [s[0]] + s[1..];
    }
  }
}
