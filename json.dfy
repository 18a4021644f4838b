/**
 * JSON.stringify of ECMA-262 (section "JSON.stringify") over the values of
 * JsValues, with no replacer and no indentation, and the reverse reading of
 * its string literals.
 */
module Json {
  import opened Wrappers
  import opened JsValues
  import Text
  import Seqs
  import Uri
  import Dates

  function HexLower(d: int): (h: char)
    requires 0 <= d < 16
  {
    "0123456789abcdef"[d]
  }

  /**
   * The escape QuoteJSONString writes for one character: the two-character
   * escapes for quote, backslash, backspace, tab, line feed, form feed and
   * carriage return, \u00xx with lower-case digits for the remaining control
   * characters, and the character itself otherwise.
   */
  function EscapeChar(c: char): (e: string)
    ensures 1 <= |e|
    ensures |e| == 1 <==> c != '"' && c != '\\' && c as int >= 0x20
  {
    var n := c as int;
    if c == '"' then "\\\""
    else if c == '\\' then "\\\\"
    else if n == 0x08 then "\\b"
    else if n == 0x09 then "\\t"
    else if n == 0x0A then "\\n"
    else if n == 0x0C then "\\f"
    else if n == 0x0D then "\\r"
    else if n < 0x20 then ['\\', 'u', '0', '0', HexLower(n / 16), HexLower(n % 16)]
    else [c]
  }

  /** The characters of `s`, each written as QuoteJSONString escapes it. */
  function EscapeString(s: string): (e: string)
  {
    Seqs.FlatMap(EscapeChar, s)
  }

  /**
   * QuoteJSONString: the string literal for `s`, between double quotes, with
   * at least one character inside for each of `s`; a string with nothing to
   * escape is quoted as it is. UnquoteQuote reads it back.
   */
  function Quote(s: string): (q: string)
    ensures |q| >= |s| + 2 && q[0] == '"' && q[|q| - 1] == '"'
    ensures (forall k :: 0 <= k < |s| ==> s[k] != '"' && s[k] != '\\' && s[k] as int >= 0x20) ==>
      q == "\"" + s + "\""
  {
    var q := "\"" + EscapeString(s) + "\"";
    EscapeLength(s);
    assert (forall k :: 0 <= k < |s| ==> s[k] != '"' && s[k] != '\\' && s[k] as int >= 0x20) ==> EscapeString(s) == s by {
      if forall k :: 0 <= k < |s| ==> s[k] != '"' && s[k] != '\\' && s[k] as int >= 0x20 {
        EscapePlain(s);
      }
    }
    q
  }

  /** Number::toString of an integer: its decimal digits, with a leading minus sign when negative. */
  function IntString(i: int): (r: string)
    ensures 1 <= |r|
  {
    if i < 0 then "-" + NatString(-i) else NatString(i)
  }

  function NatString(n: nat): (r: string)
    ensures 1 <= |r| && Text.AllDigits(r)
    ensures Text.DecimalValue(r) == n
    decreases n
  {
    if n < 10 then [Text.DigitChar(n)]
    else
      var r := NatString(n / 10) + [Text.DigitChar(n % 10)];
      assert r[..|r| - 1] == NatString(n / 10);
      r
  }

  /** The entries of `parts` separated by commas. */
  function JoinCommas(parts: seq<string>): (s: string)
  {
    if parts == [] then ""
    else if |parts| == 1 then parts[0]
    else parts[0] + "," + JoinCommas(parts[1..])
  }

  /**
   * The JSON text of `v`, or None where JSON.stringify returns undefined: for
   * undefined itself. An object property whose value is undefined is skipped;
   * an undefined array element becomes null. A Date goes through
   * Date.prototype.toJSON: a valid one is quoted in the format of toISOString,
   * an Invalid Date is null.
   */
  function Stringify(v: JsValue): (r: Option<string>)
    ensures r.Some? <==> v != Undefined
    decreases v, 1, 0
  {
    match v
    case Undefined => None
    case Null => Some("null")
    case Bool(b) => Some(if b then "true" else "false")
    case Int(i) => Some(IntString(i))
    case Str(s) => Some(Quote(s))
    case Obj(props) => Some("{" + JoinCommas(Members(props, v)) + "}")
    case Arr(elems) => Some("[" + JoinCommas(Elements(elems, v)) + "]")
    case DateV(t) => Some(if Dates.ValidTime(t) then Quote(Dates.IsoString(t)) else "null")
    case InvalidDate => Some("null")
  }

  /** The "key":value members of an object, leaving out the properties whose value is undefined. */
  function Members(props: seq<(string, JsValue)>, ghost parent: JsValue): (r: seq<string>)
    requires forall k :: 0 <= k < |props| ==> props[k].1 < parent
    ensures |r| <= |props|
    decreases parent, 0, |props|
  {
    if props == [] then []
    else
      var sv := Stringify(props[0].1);
      var rest := Members(props[1..], parent);
      if sv.Some? then [Quote(props[0].0) + ":" + sv.value] + rest else rest
  }

  /** The texts of an array's elements, with undefined written as null. */
  function Elements(elems: seq<JsValue>, ghost parent: JsValue): (r: seq<string>)
    requires forall k :: 0 <= k < |elems| ==> elems[k] < parent
    ensures |r| == |elems|
    decreases parent, 0, |elems|
  {
    if elems == [] then []
    else
      var sv := Stringify(elems[0]);
      [if sv.Some? then sv.value else "null"] + Elements(elems[1..], parent)
  }

  /**
   * Reading back the inside of a string literal made of the escapes Quote
   * produces: a backslash escape stands for the character it names, \uXXXX
   * for that code point; a bare quote, a bare control character or a malformed
   * escape is an error. Unlike JSON.parse, it rejects every surrogate
   * escape, so a pair such as \uD83D\uDE00 is an error.
   */
  function Unescape(e: string): (r: Option<string>)
    decreases |e|
  {
    if e == [] then Some([])
    else if e[0] == '\\' then
      if |e| < 2 then None
      else if e[1] == '"' then Prepend(['"'], Unescape(e[2..]))
      else if e[1] == '\\' then Prepend(['\\'], Unescape(e[2..]))
      else if e[1] == '/' then Prepend(['/'], Unescape(e[2..]))
      else if e[1] == 'b' then Prepend([0x08 as char], Unescape(e[2..]))
      else if e[1] == 't' then Prepend([0x09 as char], Unescape(e[2..]))
      else if e[1] == 'n' then Prepend([0x0A as char], Unescape(e[2..]))
      else if e[1] == 'f' then Prepend([0x0C as char], Unescape(e[2..]))
      else if e[1] == 'r' then Prepend([0x0D as char], Unescape(e[2..]))
      else if e[1] == 'u' then
        if |e| < 6 then None
        else
          var h := [Uri.HexValue(e[2]), Uri.HexValue(e[3]), Uri.HexValue(e[4]), Uri.HexValue(e[5])];
          if h[0].None? || h[1].None? || h[2].None? || h[3].None? then None
          else
            var n := ((h[0].value * 16 + h[1].value) * 16 + h[2].value) * 16 + h[3].value;
            if 0xD800 <= n < 0xE000 then None   // a lone surrogate half is not a scalar value
            else Prepend([n as char], Unescape(e[6..]))
      else None
    else if e[0] == '"' || (e[0] as int) < 0x20 then None
    else Prepend([e[0]], Unescape(e[1..]))
  }

  /** The string a JSON string literal stands for. */
  function Unquote(q: string): (r: Option<string>)
  {
    if |q| >= 2 && q[0] == '"' && q[|q| - 1] == '"' then Unescape(q[1..|q| - 1]) else None
  }

  lemma EscapeCharUnescapes(c: char, rest: string)
    ensures Unescape(EscapeChar(c) + rest) == Prepend([c], Unescape(rest))
  {
    var n := c as int;
    if |EscapeChar(c)| == 1 {
      PlainUnescapes(c, rest);
    } else if c == '"' || c == '\\' || n == 0x08 || n == 0x09 || n == 0x0A || n == 0x0C || n == 0x0D {
      ShortEscapeUnescapes(c, rest);
    } else {
      HexEscapeUnescapes(c, rest);
    }
  }

  lemma PlainUnescapes(c: char, rest: string)
    requires c != '"' && c != '\\' && c as int >= 0x20
    ensures Unescape(EscapeChar(c) + rest) == Prepend([c], Unescape(rest))
  {
    var e := [c] + rest;
    assert EscapeChar(c) == [c];
    assert e[0] == c && e[1..] == rest;
  }

  lemma ShortEscapeUnescapes(c: char, rest: string)
    requires c == '"' || c == '\\' || c as int in {0x08, 0x09, 0x0A, 0x0C, 0x0D}
    ensures Unescape(EscapeChar(c) + rest) == Prepend([c], Unescape(rest))
  {
    var x := if c == '"' then '"' else if c == '\\' then '\\' else if c as int == 0x08 then 'b'
      else if c as int == 0x09 then 't' else if c as int == 0x0A then 'n' else if c as int == 0x0C then 'f' else 'r';
    assert EscapeChar(c) == ['\\', x];
    var e := ['\\', x] + rest;
    assert e[0] == '\\' && e[1] == x && e[2..] == rest;
  }

  lemma HexEscapeUnescapes(c: char, rest: string)
    requires c as int < 0x20 && c as int !in {0x08, 0x09, 0x0A, 0x0C, 0x0D}
    ensures Unescape(EscapeChar(c) + rest) == Prepend([c], Unescape(rest))
  {
    var n := c as int;
    var e := EscapeChar(c) + rest;
    assert EscapeChar(c) == ['\\', 'u', '0', '0', HexLower(n / 16), HexLower(n % 16)];
    assert e[0] == '\\' && e[1] == 'u' && e[6..] == rest;
    assert e[2] == '0' && e[3] == '0' && e[4] == HexLower(n / 16) && e[5] == HexLower(n % 16);
    HexLowerReads(n / 16);
    HexLowerReads(n % 16);
  }

  lemma HexLowerReads(d: int)
    requires 0 <= d < 16
    ensures Uri.HexValue(HexLower(d)) == Some(d)
  {
  }

  /** A string with no quote, no backslash and no control character needs no escape. */
  lemma {:induction false} EscapePlain(s: string)
    requires forall k :: 0 <= k < |s| ==> s[k] != '"' && s[k] != '\\' && s[k] as int >= 0x20
    ensures EscapeString(s) == s
  {
    if s != [] {
      EscapePlain(s[1..]);
      assert EscapeChar(s[0]) == [s[0]];
      assert s == [s[0]] + s[1..];
    }
  }

  /** Reading back an escaped string gives the original string. */
  lemma {:induction false} UnescapeEscape(s: string)
    ensures Unescape(EscapeString(s)) == Some(s)
  {
    if s != [] {
      UnescapeEscape(s[1..]);
      EscapeCharUnescapes(s[0], EscapeString(s[1..]));
      assert [s[0]] + s[1..] == s;
    }
  }

  /** The partner of Quote: JSON.parse of the literal gives back the string. */
  lemma UnquoteQuote(s: string)
    ensures Unquote(Quote(s)) == Some(s)
  {
    var q := Quote(s);
    assert q[1..|q| - 1] == EscapeString(s);
    UnescapeEscape(s);
  }

  /** Every character is written as at least one character. */
  lemma {:induction false} EscapeLength(s: string)
    ensures |EscapeString(s)| >= |s|
  {
    if s != [] {
      EscapeLength(s[1..]);
    }
  }

  /** A string value stringifies to a literal that reads back as the same string. */
  lemma StringifyString(s: string)
    ensures Stringify(Str(s)).Some? && Unquote(Stringify(Str(s)).value) == Some(s)
  {
    UnquoteQuote(s);
  }
}
