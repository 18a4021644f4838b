/**
 * The string and number conversions the date strategy relies on: splitting a
 * string on every non-digit character (`s.split(/\D/)`), ToNumber of a string of
 * decimal digits, zero-padded decimal rendering, and ToInt32 (the `| 0` operator).
 */
module Text {

  predicate IsDigit(c: char)
  {
    '0' <= c <= '9'
  }

  predicate AllDigits(s: string)
  {
    forall i :: 0 <= i < |s| ==> IsDigit(s[i])
  }

  /** The number of characters of `s` that are not decimal digits. */
  function NonDigitCount(s: string): (n: nat)
  {
    if s == [] then 0 else (if IsDigit(s[0]) then 0 else 1) + NonDigitCount(s[1..])
  }

  /**
   * `s.split(/\D/)`: the maximal runs of digits between consecutive non-digit
   * characters, including the empty runs. The empty string splits into [""].
   */
  function SplitNonDigits(s: string): (parts: seq<string>)
    ensures |parts| == NonDigitCount(s) + 1
    ensures forall k :: 0 <= k < |parts| ==> AllDigits(parts[k])
  {
    if s == [] then [""]
    else
      var p := SplitNonDigits(s[1..]);
      if IsDigit(s[0]) then [[s[0]] + p[0]] + p[1..] else [""] + p
  }

  /** The non-digit characters of `s`, in order: the separators SplitNonDigits drops. */
  function NonDigits(s: string): (r: string)
    ensures |r| == NonDigitCount(s)
    ensures forall k :: 0 <= k < |r| ==> !IsDigit(r[k])
  {
    if s == [] then [] else (if IsDigit(s[0]) then [] else [s[0]]) + NonDigits(s[1..])
  }

  /** Gluing the parts back together with the separators between them. */
  function Rejoin(parts: seq<string>, seps: string): (s: string)
    requires |parts| == |seps| + 1
  {
    if |seps| == 0 then parts[0] else parts[0] + [seps[0]] + Rejoin(parts[1..], seps[1..])
  }

  /** One step of Rejoin from part `i` on: that part, its separator, then the rest. */
  lemma RejoinAt(parts: seq<string>, seps: string, i: nat)
    requires |parts| == |seps| + 1 && i < |seps|
    ensures Rejoin(parts[i..], seps[i..]) == parts[i] + [seps[i]] + Rejoin(parts[i + 1..], seps[i + 1..])
  {
    assert parts[i..][1..] == parts[i + 1..];
    assert seps[i..][1..] == seps[i + 1..];
  }

  /** Eight parts and seven separators rejoined, written out part by part. */
  lemma Rejoin8(parts: seq<string>, seps: string)
    requires |parts| == 8 && |seps| == 7
    ensures Rejoin(parts, seps) ==
      (parts[0] + [seps[0]]) + ((parts[1] + [seps[1]]) + ((parts[2] + [seps[2]]) + ((parts[3] + [seps[3]])
      + ((parts[4] + [seps[4]]) + ((parts[5] + [seps[5]]) + ((parts[6] + [seps[6]]) + parts[7]))))))
  {
    assert parts[0..] == parts && seps[0..] == seps;
    RejoinAt(parts, seps, 0);
    RejoinAt(parts, seps, 1);
    RejoinAt(parts, seps, 2);
    RejoinAt(parts, seps, 3);
    RejoinAt(parts, seps, 4);
    RejoinAt(parts, seps, 5);
    RejoinAt(parts, seps, 6);
    assert Rejoin(parts[7..], seps[7..]) == parts[7];
  }

  /** A character put before the first part comes first in the rejoined string. */
  lemma RejoinPrepend(c: char, parts: seq<string>, seps: string)
    requires |parts| == |seps| + 1
    ensures Rejoin([[c] + parts[0]] + parts[1..], seps) == [c] + Rejoin(parts, seps)
  {
    var q := [[c] + parts[0]] + parts[1..];
    assert q[0] == [c] + parts[0] && q[1..] == parts[1..];
  }

  /** SplitNonDigits loses nothing: the parts and the separators rebuild the input. */
  lemma {:induction false} SplitRejoin(s: string)
    ensures Rejoin(SplitNonDigits(s), NonDigits(s)) == s
  {
    if s != [] {
      var p := SplitNonDigits(s[1..]);
      SplitRejoin(s[1..]);
      if IsDigit(s[0]) {
        assert NonDigits(s) == NonDigits(s[1..]);
        RejoinPrepend(s[0], p, NonDigits(s[1..]));
      } else {
        var q, seps := [""] + p, NonDigits(s);
        assert q[0] == "" && q[1..] == p;
        assert seps[0] == s[0] && seps[1..] == NonDigits(s[1..]);
        assert Rejoin(q, seps) == [s[0]] + Rejoin(p, NonDigits(s[1..]));
      }
      assert s == [s[0]] + s[1..];
    }
  }

  /** A pure digit string is a single part. */
  lemma {:induction false} SplitAllDigits(a: string)
    requires AllDigits(a)
    ensures SplitNonDigits(a) == [a]
  {
    if a != [] {
      assert AllDigits(a[1..]) by { assert forall k :: 0 <= k < |a| - 1 ==> a[1..][k] == a[k + 1]; }
      SplitAllDigits(a[1..]);
      assert a == [a[0]] + a[1..];
    }
  }

  /** A digit run, one separator, then anything: the run is the first part. */
  lemma {:induction false} SplitCons(a: string, c: char, rest: string)
    requires AllDigits(a) && !IsDigit(c)
    ensures SplitNonDigits(a + ([c] + rest)) == [a] + SplitNonDigits(rest)
  {
    var s := a + ([c] + rest);
    if a == [] {
      assert s == [c] + rest && s[1..] == rest;
    } else {
      assert s[1..] == a[1..] + ([c] + rest);
      assert AllDigits(a[1..]) by { assert forall k :: 0 <= k < |a| - 1 ==> a[1..][k] == a[k + 1]; }
      SplitCons(a[1..], c, rest);
      assert a == [a[0]] + a[1..];
    }
  }

  /** Runs of digits joined by non-digit separators split back into exactly those runs. */
  lemma {:induction false} SplitRejoinRuns(runs: seq<string>, seps: string)
    requires |runs| == |seps| + 1
    requires forall k :: 0 <= k < |runs| ==> AllDigits(runs[k])
    requires forall k :: 0 <= k < |seps| ==> !IsDigit(seps[k])
    ensures SplitNonDigits(Rejoin(runs, seps)) == runs
  {
    if |seps| == 0 {
      SplitAllDigits(runs[0]);
    } else {
      var rest := Rejoin(runs[1..], seps[1..]);
      SplitRejoinRuns(runs[1..], seps[1..]);
      SplitCons(runs[0], seps[0], rest);
      assert runs[0] + [seps[0]] + rest == runs[0] + ([seps[0]] + rest);
      assert runs == [runs[0]] + runs[1..];
    }
  }

  function DigitValue(c: char): (v: nat)
    requires IsDigit(c)
  {
    (c as int - '0' as int) as nat
  }

  function DigitChar(d: nat): (c: char)
    requires d < 10
    ensures IsDigit(c) && DigitValue(c) == d
  {
    ('0' as int + d) as char
  }

  /** ToNumber of a string of decimal digits, where the empty string is 0. */
  function DecimalValue(s: string): (v: nat)
    requires AllDigits(s)
  {
    if s == [] then 0
    else
      assert AllDigits(s[..|s| - 1]) by { assert forall k :: 0 <= k < |s| - 1 ==> s[..|s| - 1][k] == s[k]; }
      DecimalValue(s[..|s| - 1]) * 10 + DigitValue(s[|s| - 1])
  }

  function Pow10(w: nat): (p: nat)
    ensures p >= 1
  {
    if w == 0 then 1 else 10 * Pow10(w - 1)
  }

  /** `n` written in decimal with exactly `w` digits, padded with leading zeros (the low digits when n >= 10^w). */
  function Digits(n: nat, w: nat): (s: string)
    ensures |s| == w && AllDigits(s)
  {
    if w == 0 then [] else Digits(n / 10, w - 1) + [DigitChar(n % 10)]
  }

  /** Reading back a padded rendering gives the number, when it fits the width. */
  lemma {:induction false} DecimalValueOfDigits(n: nat, w: nat)
    requires n < Pow10(w)
    ensures DecimalValue(Digits(n, w)) == n
  {
    if w > 0 {
      var q, d := n / 10, n % 10;
      assert n == q * 10 + d;
      assert q < Pow10(w - 1);
      DecimalValueOfDigits(q, w - 1);
      var s := Digits(n, w);
      assert s == Digits(q, w - 1) + [DigitChar(d)];
      assert s[..|s| - 1] == Digits(q, w - 1);
      assert DigitValue(s[|s| - 1]) == d;
    }
  }

  /** DecimalValueOfDigits at the widths the Date Time String Format uses. */
  lemma ReadBack2(n: nat)
    requires n < 100
    ensures DecimalValue(Digits(n, 2)) == n
  {
    assert Pow10(2) == 100;
    DecimalValueOfDigits(n, 2);
  }

  lemma ReadBack3(n: nat)
    requires n < 1000
    ensures DecimalValue(Digits(n, 3)) == n
  {
    assert Pow10(3) == 1000;
    DecimalValueOfDigits(n, 3);
  }

  lemma ReadBack4(n: nat)
    requires n < 10000
    ensures DecimalValue(Digits(n, 4)) == n
  {
    assert Pow10(4) == 10000;
    DecimalValueOfDigits(n, 4);
  }

  /** ToInt32: the integer congruent to `x` modulo 2^32 in [-2^31, 2^31). */
  function ToInt32(x: int): (r: int)
    ensures -0x8000_0000 <= r < 0x8000_0000
    ensures (x - r) % 0x1_0000_0000 == 0
    ensures 0 <= x < 0x8000_0000 ==> r == x
  {
    var m := x % 0x1_0000_0000;
    if m >= 0x8000_0000 then m - 0x1_0000_0000 else m
  }
}
