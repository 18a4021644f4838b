/**
 * The concrete cases the attribute strategies are expected to handle: the
 * filters of a hash attribute, a Date serialized as an ISO string, and the
 * string parse of a Date attribute.
 */
module RegistryFixtures {
  import opened Wrappers
  import opened JsValues
  import opened TypeRegistry
  import Dates
  import Text
  import Json
  import Uri

  /** Fixture: filtering by a string such as "json" sends the string as it is. */
  lemma HashFilterString(v: JsValue)
    requires v == Str("json")
    ensures SerializeFilter(HashType, v) == v
  {
    assert TypeOf(v) == "string";
    assert "string"[0] != "object"[0];
  }

  /** Fixture: filtering by {foo: "bar"} sends its percent-encoded JSON. */
  lemma HashFilterObject(v: JsValue)
    requires v == Obj([("foo", Str("bar"))])
    ensures SerializeFilter(HashType, v) == Str("%7B%22foo%22%3A%22bar%22%7D")
  {
    var json := "{\"foo\":\"bar\"}";
    assert Json.Stringify(v) == Some(json) by { StringifyFooBar(); }
    assert Uri.EncodeURIComponent(json) == "%7B%22foo%22%3A%22bar%22%7D" by { EncodeFooBar(json); }
    HashFilterOfObject(v, json);
  }

  lemma StringifyFooBar()
    ensures Json.Stringify(Obj([("foo", Str("bar"))])) == Some("{\"foo\":\"bar\"}")
  {
    var v := Obj([("foo", Str("bar"))]);
    var member := "\"foo\":\"bar\"";
    assert Json.Members(v.props, v) == [member] by { MemberFooBar(v, member); }
    assert Json.JoinCommas([member]) == member;
    assert "{" + member + "}" == "{\"foo\":\"bar\"}";
  }

  lemma MemberFooBar(v: JsValue, member: string)
    requires v == Obj([("foo", Str("bar"))]) && member == "\"foo\":\"bar\""
    ensures Json.Members(v.props, v) == [member]
  {
    assert Json.Quote("foo") == "\"foo\"" by { QuotePlain("foo"); }
    assert Json.Quote("bar") == "\"bar\"" by {
      QuotePlain("bar");
      assert "\"" + "bar" + "\"" == "\"bar\"";
    }
    OneMember(v, "foo", "bar", "\"foo\"", "\"bar\"");
    assert "\"foo\"" + ":" + "\"bar\"" == member;
  }

  /** The members of an object with one string property: its quoted key, a colon and its quoted value. */
  lemma OneMember(v: JsValue, key: string, val: string, qk: string, qv: string)
    requires v == Obj([(key, Str(val))]) && Json.Quote(key) == qk && Json.Quote(val) == qv
    ensures Json.Members(v.props, v) == [qk + ":" + qv]
  {
    assert v.props[1..] == [];
  }

  lemma QuotePlain(s: string)
    requires |s| == 3 && forall k :: 0 <= k < 3 ==> 'a' <= s[k] <= 'z'
    ensures Json.Quote(s) == "\"" + s + "\""
  {
    Json.EscapePlain(s);
  }

  lemma EncodeFooBar(json: string)
    requires json == "{\"foo\":\"bar\"}"
    ensures Uri.EncodeURIComponent(json) == "%7B%22foo%22%3A%22bar%22%7D"
  {
    FooBarPieces();
    EncodeFooBarHead();
    EncodeFooBarTail();
    Uri.EncodeAppend("{\"foo\":\"", "bar\"}");
  }

  lemma FooBarPieces()
    ensures "{\"foo\":\"" + "bar\"}" == "{\"foo\":\"bar\"}"
    ensures "%7B%22foo%22%3A%22" + "bar%22%7D" == "%7B%22foo%22%3A%22bar%22%7D"
  {
  }

  lemma EncodeFooBarHead()
    ensures Uri.EncodeURIComponent("{\"foo\":\"") == "%7B%22foo%22%3A%22"
  {
    assert "{\"" + "foo" + "\":\"" == "{\"foo\":\"";
    assert "%7B%22" + "foo" + "%22%3A%22" == "%7B%22foo%22%3A%22";
    EncodeBraceQuote();
    EncodeFoo();
    EncodeQuoteColonQuote();
    Uri.EncodeAppend("{\"", "foo");
    Uri.EncodeAppend("{\"" + "foo", "\":\"");
  }

  lemma EncodeBraceQuote()
    ensures Uri.EncodeURIComponent("{\"") == "%7B%22"
  {
    assert "{\"" == ['{'] + ['"'];
    Uri.EncodeAppend(['{'], ['"']);
    EscapeOpenBrace();
    EscapeQuote();
  }

  lemma EncodeFoo()
    ensures Uri.EncodeURIComponent("foo") == "foo"
  {
    Uri.EncodeUnreserved("foo");
  }

  lemma EncodeQuoteColonQuote()
    ensures Uri.EncodeURIComponent("\":\"") == "%22%3A%22"
  {
    assert "\":\"" == (['"'] + [':']) + ['"'];
    Uri.EncodeAppend(['"'] + [':'], ['"']);
    Uri.EncodeAppend(['"'], [':']);
    EscapeQuote();
    EscapeColon();
    assert ("%22" + "%3A") + "%22" == "%22%3A%22";
  }

  lemma EncodeFooBarTail()
    ensures Uri.EncodeURIComponent("bar\"}") == "bar%22%7D"
  {
    assert "bar\"}" == ("bar" + ['"']) + ['}'];
    Uri.EncodeAppend("bar" + ['"'], ['}']);
    Uri.EncodeAppend("bar", ['"']);
    EncodeBar();
    EscapeQuote();
    EscapeCloseBrace();
    assert ("bar" + "%22") + "%7D" == "bar%22%7D";
  }

  lemma EncodeBar()
    ensures Uri.EncodeURIComponent("bar") == "bar"
  {
    Uri.EncodeUnreserved("bar");
  }

  lemma EscapeQuote()
    ensures Uri.EncodeURIComponent(['"']) == "%22"
  {
    Uri.EncodeSingle('"');
  }

  lemma EscapeColon()
    ensures Uri.EncodeURIComponent([':']) == "%3A"
  {
    Uri.EncodeSingle(':');
  }

  lemma EscapeOpenBrace()
    ensures Uri.EncodeURIComponent(['{']) == "%7B"
  {
    Uri.EncodeSingle('{');
  }

  lemma EscapeCloseBrace()
    ensures Uri.EncodeURIComponent(['}']) == "%7D"
  {
    Uri.EncodeSingle('}');
  }

  /**
   * Fixture: the Date of Feb 28 2013 12:00:00 PST, eight hours behind UTC,
   * serializes as "2013-02-28T20:00:00.000Z".
   */
  lemma SerializeDateFixture(t: int)
    requires t == Dates.Compose(Dates.Fields(2013, 1, 28, 12, 0, 0, 0)) + 8 * Dates.MsPerHour
    ensures Serialize(DateType, DateV(t)) == Ok(Str("2013-02-28T20:00:00.000Z"))
  {
    var g := Dates.Fields(2013, 1, 28, 20, 0, 0, 0);
    assert t == Dates.Compose(g) by { Dates.LaterHours(Dates.Fields(2013, 1, 28, 12, 0, 0, 0), 8); }
    Instant2013(t, g);
    IsoSerializeOf(t, "2013-02-28T20:00:00.000Z");
  }

  lemma Instant2013(t: int, g: Dates.Fields)
    requires g == Dates.Fields(2013, 1, 28, 20, 0, 0, 0) && t == Dates.Compose(g)
    ensures Dates.ValidTime(t) && Dates.IsoString(t) == "2013-02-28T20:00:00.000Z"
  {
    assert Dates.Canonical(g) by { assert !Dates.IsLeapYear(2013); }
    assert Dates.ValidTime(t) by { Dates.ComposeValid(g); }
    assert Dates.Decompose(t) == g by { Dates.DecomposeCompose(g); }
    Format2013(g);
  }

  /** The date strategy serializes a valid Date to its ISO string. */
  lemma IsoSerializeOf(t: int, iso: string)
    requires Dates.ValidTime(t) && Dates.IsoString(t) == iso
    ensures Serialize(DateType, DateV(t)) == Ok(Str(iso))
  {
  }

  lemma Format2013(g: Dates.Fields)
    requires g == Dates.Fields(2013, 1, 28, 20, 0, 0, 0) && Dates.Canonical(g)
    ensures Dates.FormatFields(g) == "2013-02-28T20:00:00.000Z"
  {
    assert Dates.YearString(g.year) == "2013" by { Year2013(g.year); }
    assert Text.Digits(g.month + 1, 2) == "02" by { TwoDigits(g.month + 1, 0, 2); }
    assert Text.Digits(g.day, 2) == "28" by { TwoDigits(g.day, 2, 8); }
    assert Text.Digits(g.hour, 2) == "20" by { TwoDigits(g.hour, 2, 0); }
    assert Text.Digits(g.minute, 2) == "00" by { TwoDigits(g.minute, 0, 0); }
    assert Text.Digits(g.second, 2) == "00" by { TwoDigits(g.second, 0, 0); }
    assert Text.Digits(g.ms, 3) == "000" by { ThreeDigits(g.ms, 0, 0, 0); }
    Dates.IsoLayout(g);
    Concat2013();
  }

  lemma Concat2013()
    ensures Dates.IsoText("2013", "02", "28", "20", "00", "00", "000") == "2013-02-28T20:00:00.000Z"
  {
  }

  lemma Year2013(y: int)
    requires y == 2013
    ensures Dates.YearString(y) == "2013"
  {
  }

  lemma TwoDigits(n: nat, a: nat, b: nat)
    requires a < 10 && b < 10 && n == 10 * a + b
    ensures Text.Digits(n, 2) == [Text.DigitChar(a), Text.DigitChar(b)]
  {
  }

  lemma ThreeDigits(n: nat, a: nat, b: nat, c: nat)
    requires a < 10 && b < 10 && c < 10 && n == 100 * a + 10 * b + c
    ensures Text.Digits(n, 3) == [Text.DigitChar(a), Text.DigitChar(b), Text.DigitChar(c)]
  {
    assert n / 10 == 10 * a + b && n % 10 == c;
    TwoDigits(n / 10, a, b);
  }

  /**
   * Fixture: the string "2018-01-06T16:36:00-08:00" deserializes to the Date
   * 2018-01-06T16:36:00.008Z. The offset is not read as one: its hours "08"
   * land in the milliseconds position of the split.
   */
  lemma DeserializeDateFixture(s: string)
    requires s == "2018-01-06T16:36:00-08:00"
    ensures Deserialize(DateType, Str(s)) == DateV(Dates.Compose(Dates.Fields(2018, 0, 6, 16, 36, 0, 8)))
    ensures Serialize(DateType, Deserialize(DateType, Str(s))) == Ok(Str("2018-01-06T16:36:00.008Z"))
  {
    var g := Dates.Fields(2018, 0, 6, 16, 36, 0, 8);
    var runs := ["2018", "01", "06", "16", "36", "00", "08", "00"];
    assert Text.SplitNonDigits(s) == runs by { Split2018(s, runs); }
    assert Dates.ParseParts(runs) == Some(Dates.Compose(g)) by { Parts2018(runs, g); }
    Instant2018(Dates.Compose(g), g);
    IsoSerializeOf(Dates.Compose(g), "2018-01-06T16:36:00.008Z");
  }

  lemma Split2018(s: string, runs: seq<string>)
    requires s == "2018-01-06T16:36:00-08:00" && runs == ["2018", "01", "06", "16", "36", "00", "08", "00"]
    ensures Text.SplitNonDigits(s) == runs
  {
    var seps := "--T::-:";
    Text.Rejoin8(runs, seps);
    Concat2018();
    assert forall k :: 0 <= k < |runs| ==> Text.AllDigits(runs[k]);
    assert forall k :: 0 <= k < |seps| ==> !Text.IsDigit(seps[k]);
    Text.SplitRejoinRuns(runs, seps);
  }

  lemma Concat2018()
    ensures ("2018" + "-") + (("01" + "-") + (("06" + "T") + (("16" + ":") + (("36" + ":") + (("00" + "-")
      + (("08" + ":") + "00")))))) == "2018-01-06T16:36:00-08:00"
  {
  }

  lemma Parts2018(runs: seq<string>, g: Dates.Fields)
    requires runs == ["2018", "01", "06", "16", "36", "00", "08", "00"]
    requires g == Dates.Fields(2018, 0, 6, 16, 36, 0, 8)
    ensures forall k :: 0 <= k < |runs| ==> Text.AllDigits(runs[k])
    ensures Dates.ParseParts(runs) == Some(Dates.Compose(g))
  {
    assert forall k :: 0 <= k < |runs| ==> Text.AllDigits(runs[k]);
    assert Text.DecimalValue(runs[0]) == 2018 by { Year2018(2018); Text.ReadBack4(2018); }
    assert Text.DecimalValue(runs[1]) == 1 by { ReadTwo(runs[1], 0, 1); }
    assert Text.DecimalValue(runs[2]) == 6 by { ReadTwo(runs[2], 0, 6); }
    assert Text.DecimalValue(runs[3]) == 16 by { ReadTwo(runs[3], 1, 6); }
    assert Text.DecimalValue(runs[4]) == 36 by { ReadTwo(runs[4], 3, 6); }
    assert Text.DecimalValue(runs[5]) == 0 by { ReadTwo(runs[5], 0, 0); }
    assert Text.DecimalValue(runs[6]) == 8 by { ReadTwo(runs[6], 0, 8); }
    assert Dates.Canonical(g);
    Dates.ParseRunsOfFields(runs, g);
  }

  /** A two-digit run reads back as its number. */
  lemma ReadTwo(r: string, a: nat, b: nat)
    requires a < 10 && b < 10 && r == [Text.DigitChar(a), Text.DigitChar(b)]
    ensures Text.AllDigits(r) && Text.DecimalValue(r) == 10 * a + b
  {
    TwoDigits(10 * a + b, a, b);
    Text.ReadBack2(10 * a + b);
  }

  lemma Instant2018(t: int, g: Dates.Fields)
    requires g == Dates.Fields(2018, 0, 6, 16, 36, 0, 8) && t == Dates.Compose(g)
    ensures Dates.ValidTime(t) && Dates.IsoString(t) == "2018-01-06T16:36:00.008Z"
  {
    assert Dates.Canonical(g);
    assert Dates.ValidTime(t) by { Dates.ComposeValid(g); }
    assert Dates.Decompose(t) == g by { Dates.DecomposeCompose(g); }
    Format2018(g);
  }

  lemma Format2018(g: Dates.Fields)
    requires g == Dates.Fields(2018, 0, 6, 16, 36, 0, 8) && Dates.Canonical(g)
    ensures Dates.FormatFields(g) == "2018-01-06T16:36:00.008Z"
  {
    assert Dates.YearString(g.year) == "2018" by { Year2018(g.year); }
    assert Text.Digits(g.month + 1, 2) == "01" by { TwoDigits(g.month + 1, 0, 1); }
    assert Text.Digits(g.day, 2) == "06" by { TwoDigits(g.day, 0, 6); }
    assert Text.Digits(g.hour, 2) == "16" by { TwoDigits(g.hour, 1, 6); }
    assert Text.Digits(g.minute, 2) == "36" by { TwoDigits(g.minute, 3, 6); }
    assert Text.Digits(g.second, 2) == "00" by { TwoDigits(g.second, 0, 0); }
    assert Text.Digits(g.ms, 3) == "008" by { ThreeDigits(g.ms, 0, 0, 8); }
    Dates.IsoLayout(g);
    Concat2018Iso();
  }

  lemma Concat2018Iso()
    ensures Dates.IsoText("2018", "01", "06", "16", "36", "00", "008") == "2018-01-06T16:36:00.008Z"
  {
  }

  lemma Year2018(y: int)
    requires y == 2018
    ensures Dates.YearString(y) == "2018"
  {
  }
}
