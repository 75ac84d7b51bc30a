/** `sanitizeForJson` and `sanitizeObjectForJson` (src/core/sanitize.ts):
    control characters other than tab, line feed and carriage return are
    written as `\uXXXX` escapes (section 7 of RFC 8259), in strings and in
    every string of a JSON value. */
module Sanitize {
  import opened Wrappers
  import opened Json

  /** The characters `/[\x00-\x08\x0B\x0C\x0E-\x1F]/` matches. */
  predicate IsControl(c: char) {
    c <= '\U{8}' || c == '\U{B}' || c == '\U{C}' || ('\U{E}' <= c <= '\U{1F}')
  }

  /** `'\\u' + c.charCodeAt(0).toString(16).padStart(4, '0')` for a control
      character: four lower-case hex digits. */
  function ControlEscape(c: char): (r: string)
    requires IsControl(c)
    ensures |r| == 6
  {
    var n := c as int;
    "\\u" + Hex4Digits(n)
  }

  /** `n.toString(16).padStart(4, '0')` for `n` below 0x10000. */
  function Hex4Digits(n: nat): (r: string)
    requires n < 0x10000
    ensures |r| == 4 && forall k :: 0 <= k < 4 ==> '0' <= r[k] <= '9' || 'a' <= r[k] <= 'f'
  {
    var q := n / 16;
    [HexDigit(q / 16 / 16), HexDigit(q / 16 % 16), HexDigit(q % 16), HexDigit(n % 16)]
  }

  /** What the replacement makes of one character. */
  function SanitizeChar(c: char): string {
    if IsControl(c) then ControlEscape(c) else [c]
  }

  /** `sanitizeForJson`: every match of the global regex replaced. */
  function SanitizeForJson(s: string): string {
    FlatMap(s, SanitizeChar)
  }

  /** How many characters of `s` are replaced. */
  function ControlCount(s: string): nat
    decreases |s|
  {
    if s == [] then 0 else ControlCount(s[..|s| - 1]) + if IsControl(s[|s| - 1]) then 1 else 0
  }

  predicate NoControl(s: string) {
    forall k :: 0 <= k < |s| ==> !IsControl(s[k])
  }

  /** `sanitizeObjectForJson`: strings sanitized, arrays element by element,
      objects member by member with their keys as they were, and numbers,
      booleans and `null` returned as they are. */
  function SanitizeValue(v: Json): Json
    decreases v
  {
    match v
    case JString(s) => JString(SanitizeForJson(s))
    case JArray(items) => JArray(seq(|items|, i requires 0 <= i < |items| => SanitizeValue(items[i])))
    case JObject(members) =>
      JObject(seq(|members|, i requires 0 <= i < |members| => (members[i].0, SanitizeValue(members[i].1))))
    case _ => v
  }

  /** Every string in a JSON value is free of the replaced characters. */
  predicate Clean(v: Json)
    decreases v
  {
    match v
    case JString(s) => NoControl(s)
    case JArray(items) => forall i :: 0 <= i < |items| ==> Clean(items[i])
    case JObject(members) => forall i :: 0 <= i < |members| ==> Clean(members[i].1)
    case _ => true
  }

  // ---- properties ----

  lemma HexDigitNotControl(d: nat)
    requires d < 16
    ensures !IsControl(HexDigit(d)) && HexDigit(d) != '\\'
  {
  }

  /** The replacement of one character holds no replaced character. */
  lemma SanitizeCharClean(c: char)
    ensures NoControl(SanitizeChar(c))
  {
    if IsControl(c) {
      var n := c as int;
      var q := n / 16;
      HexDigitNotControl(q / 16 / 16);
      HexDigitNotControl(q / 16 % 16);
      HexDigitNotControl(q % 16);
      HexDigitNotControl(n % 16);
    }
  }

  lemma NoControlConcat(a: string, b: string)
    requires NoControl(a) && NoControl(b)
    ensures NoControl(a + b)
  {
    forall k | 0 <= k < |a + b| ensures !IsControl((a + b)[k]) {
      if k >= |a| {
        assert (a + b)[k] == b[k - |a|];
      }
    }
  }

  /** The output holds no character of 0x00-0x08, 0x0B, 0x0C or 0x0E-0x1F. */
  lemma {:induction false} SanitizedIsClean(s: string)
    ensures NoControl(SanitizeForJson(s))
    decreases |s|
  {
    if s != [] {
      SanitizedIsClean(s[..|s| - 1]);
      SanitizeCharClean(s[|s| - 1]);
      NoControlConcat(SanitizeForJson(s[..|s| - 1]), SanitizeChar(s[|s| - 1]));
    }
  }

  /** A string without those characters comes back as it is: tab, line
      feed, carriage return and everything from 0x20 up are kept. */
  lemma {:induction false} CleanUnchanged(s: string)
    requires NoControl(s)
    ensures SanitizeForJson(s) == s
    decreases |s|
  {
    if s != [] {
      var init := s[..|s| - 1];
      assert NoControl(init) by {
        forall k | 0 <= k < |init| ensures !IsControl(init[k]) {
          assert init[k] == s[k];
        }
      }
      CleanUnchanged(init);
      assert init + [s[|s| - 1]] == s;
    }
  }

  /** Sanitizing twice is sanitizing once. */
  lemma Idempotent(s: string)
    ensures SanitizeForJson(SanitizeForJson(s)) == SanitizeForJson(s)
  {
    SanitizedIsClean(s);
    CleanUnchanged(SanitizeForJson(s));
  }

  /** Each replaced character grows the text by five: `\u` and four digits
      replace one character. */
  lemma {:induction false} SanitizedLength(s: string)
    ensures |SanitizeForJson(s)| == |s| + 5 * ControlCount(s)
    decreases |s|
  {
    if s != [] {
      SanitizedLength(s[..|s| - 1]);
    }
  }

  /** The replacement works character by character. */
  lemma SanitizeConcat(a: string, b: string)
    ensures SanitizeForJson(a + b) == SanitizeForJson(a) + SanitizeForJson(b)
  {
    FlatMapConcat(a, b, SanitizeChar);
  }

  /** What one character becomes: a control character its escape, any
      other character itself. */
  lemma SanitizeOne(c: char)
    ensures SanitizeForJson([c]) == if IsControl(c) then ControlEscape(c) else [c]
  {
    FlatMapOne(c, SanitizeChar);
  }

  lemma HexDigitValue(d: nat)
    requires d < 16
    ensures IsHex(HexDigit(d)) && HexValue(HexDigit(d)) == d
  {
  }

  /** The escape is the `\uXXXX` form of section 7 of RFC 8259: read as the
      body of a JSON string, the six characters stand for the character they
      replaced. */
  lemma EscapeReadsBack(c: char)
    requires IsControl(c)
    ensures ParseEscape(ControlEscape(c)) == Some((c, 6))
  {
    var n := c as int;
    var e := ControlEscape(c);
    assert e[2..] == Hex4Digits(n);
    Hex4Of(n);
  }

  /** Four hex digits written for `n` read back as `n`. */
  lemma Hex4Of(n: nat)
    requires n < 0x10000
    ensures Hex4(Hex4Digits(n)) == Some(n)
  {
    var q := n / 16;
    var a, b, d, f := q / 16 / 16, q / 16 % 16, q % 16, n % 16;
    HexDigitValue(a);
    HexDigitValue(b);
    HexDigitValue(d);
    HexDigitValue(f);
    assert n == 16 * q + f;
    assert q == 16 * (q / 16) + d;
    assert q / 16 == 16 * a + b;
  }

  /** The sanitized value has the shape of the original: the same
      constructor, arrays of the same length, objects with the same keys in
      the same order, and scalars other than strings unchanged. */
  lemma SameShape(v: Json)
    ensures var r := SanitizeValue(v);
      (v.JString? <==> r.JString?) && (v.JArray? <==> r.JArray?) && (v.JObject? <==> r.JObject?)
      && (v.JArray? ==>
            |r.items| == |v.items| && forall i :: 0 <= i < |v.items| ==> r.items[i] == SanitizeValue(v.items[i]))
      && (v.JObject? ==>
            |r.members| == |v.members|
            && forall i :: 0 <= i < |v.members| ==>
                 r.members[i].0 == v.members[i].0 && r.members[i].1 == SanitizeValue(v.members[i].1))
      && (v.JNull? || v.JBool? || v.JNumber? ==> r == v)
      && (v.JString? ==> r.str == SanitizeForJson(v.str))
  {
  }

  /** Every string of the sanitized value is free of control characters. */
  lemma {:induction false} SanitizedValueClean(v: Json)
    ensures Clean(SanitizeValue(v))
    decreases v
  {
    match v
    case JString(s) => SanitizedIsClean(s);
    case JArray(items) =>
      forall i | 0 <= i < |items| ensures Clean(SanitizeValue(v).items[i]) {
        SanitizedValueClean(items[i]);
      }
    case JObject(members) =>
      forall i | 0 <= i < |members| ensures Clean(SanitizeValue(v).members[i].1) {
        SanitizedValueClean(members[i].1);
      }
    case _ =>
  }

  /** A value whose strings are already clean comes back as it is, so the
      recursive sanitizer is idempotent too. */
  lemma {:induction false} CleanValueUnchanged(v: Json)
    requires Clean(v)
    ensures SanitizeValue(v) == v
    decreases v
  {
    match v
    case JString(s) => CleanUnchanged(s);
    case JArray(items) =>
      forall i | 0 <= i < |items| ensures SanitizeValue(items[i]) == items[i] {
        CleanValueUnchanged(items[i]);
      }
      assert SanitizeValue(v).items == items;
    case JObject(members) =>
      forall i | 0 <= i < |members| ensures SanitizeValue(members[i].1) == members[i].1 {
        CleanValueUnchanged(members[i].1);
      }
      assert SanitizeValue(v).members == members;
    case _ =>
  }

  lemma ValueIdempotent(v: Json)
    ensures SanitizeValue(SanitizeValue(v)) == SanitizeValue(v)
  {
    SanitizedValueClean(v);
    CleanValueUnchanged(SanitizeValue(v));
  }
}
