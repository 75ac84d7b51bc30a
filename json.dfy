/** JSON text (RFC 8259) as `JSON.stringify` writes it and `JSON.parse` reads
    it. Numbers keep their lexeme; an object keeps its members in text order,
    duplicates included, and a property read sees the last duplicate, as
    `JSON.parse` does. */
module Json {
  import opened Wrappers
  import opened JsString

  datatype Json =
    | JNull
    | JBool(b: bool)
    | JNumber(text: string)
    | JString(str: string)
    | JArray(items: seq<Json>)
    | JObject(members: seq<(string, Json)>)

  // ---- writing ----

  function HexDigit(d: nat): (c: char)
    requires d < 16
  {
    if d < 10 then DigitChar(d) else ('a' as int + d - 10) as char
  }

  /** How `JSON.stringify` writes one character inside a string literal. */
  function EscapeChar(c: char): string
  {
    if c == '"' then "\\\""
    else if c == '\\' then "\\\\"
    else if c == '\U{8}' then "\\b"
    else if c == '\t' then "\\t"
    else if c == '\n' then "\\n"
    else if c == '\U{C}' then "\\f"
    else if c == '\r' then "\\r"
    else if c < ' ' then "\\u00" + [HexDigit(c as int / 16), HexDigit(c as int % 16)]
    else [c]
  }

  function EscapeString(s: string): string
  {
    if s == [] then "" else EscapeChar(s[0]) + EscapeString(s[1..])
  }

  /** A JSON string literal. */
  function Quote(s: string): string { "\"" + EscapeString(s) + "\"" }

  // ---- reading ----

  predicate IsJsonSpace(c: char) { c == ' ' || c == '\t' || c == '\n' || c == '\r' }

  function SkipSpace(s: string): (r: string)
    ensures |r| <= |s|
  {
    if s != [] && IsJsonSpace(s[0]) then SkipSpace(s[1..]) else s
  }

  predicate IsHex(c: char) { '0' <= c <= '9' || 'a' <= c <= 'f' || 'A' <= c <= 'F' }

  function HexValue(c: char): nat
    requires IsHex(c)
    ensures HexValue(c) < 16
  {
    if '0' <= c <= '9' then c as int - '0' as int
    else if 'a' <= c <= 'f' then c as int - 'a' as int + 10
    else c as int - 'A' as int + 10
  }

  /** Four hex digits at the start of `s`. */
  function Hex4(s: string): (r: Option<nat>)
    ensures r.Some? ==> r.value < 0x10000
  {
    if |s| >= 4 && IsHex(s[0]) && IsHex(s[1]) && IsHex(s[2]) && IsHex(s[3]) then
      Some(((HexValue(s[0]) * 16 + HexValue(s[1])) * 16 + HexValue(s[2])) * 16 + HexValue(s[3]))
    else None
  }

  /** The character a `\uXXXX` escape stands for; a surrogate half, which a
      Dafny string cannot hold, reads as U+FFFD. */
  function CodeChar(n: nat): char
    requires n < 0x10000
  {
    if 0xD800 <= n < 0xE000 then '\U{FFFD}' else n as char
  }

  /** The escape sequence at the start of `s` (which starts with a
      backslash): the character it stands for and its length. */
  function ParseEscape(s: string): (r: Option<(char, nat)>)
    requires |s| >= 1
    ensures r.Some? ==> 2 <= r.value.1 <= |s|
  {
    if |s| < 2 then None
    else
      var e := s[1];
      if e == '"' || e == '\\' || e == '/' then Some((e, 2))
      else if e == 'b' then Some(('\U{8}', 2))
      else if e == 'f' then Some(('\U{C}', 2))
      else if e == 'n' then Some(('\n', 2))
      else if e == 'r' then Some(('\r', 2))
      else if e == 't' then Some(('\t', 2))
      else if e == 'u' then
        match Hex4(s[2..])
        case None => None
        case Some(hi) =>
          if 0xD800 <= hi < 0xDC00 && |s| >= 12 && s[6] == '\\' && s[7] == 'u'
             && Hex4(s[8..]).Some? && 0xDC00 <= Hex4(s[8..]).value < 0xE000 then
            var lo := Hex4(s[8..]).value;
            Some(((0x10000 + (hi - 0xD800) * 0x400 + (lo - 0xDC00)) as char, 12))
          else Some((CodeChar(hi), 6))
      else None
  }

  /** The body of a string literal after its opening quote, up to and
      including the closing quote. */
  function ParseStringBody(s: string, acc: string): (r: Option<(string, string)>)
    decreases |s|
    ensures r.Some? ==> |r.value.1| < |s|
  {
    if s == [] then None
    else if s[0] == '"' then Some((acc, s[1..]))
    else if s[0] < ' ' then None
    else if s[0] != '\\' then ParseStringBody(s[1..], acc + [s[0]])
    else
      match ParseEscape(s)
      case None => None
      case Some((c, n)) => ParseStringBody(s[n..], acc + [c])
  }

  /** Length of the run of decimal digits at the start of `s`. */
  function Digits(s: string): (n: nat)
    ensures n <= |s|
  {
    DigitRun(s)
  }

  /** Length of the number lexeme at the start of `s` (0 when there is none):
      `-? (0 | [1-9][0-9]*) (. [0-9]+)? ([eE] [+-]? [0-9]+)?`. */
  function NumberLength(s: string): (n: nat)
    ensures n <= |s|
  {
    var a := if s != [] && s[0] == '-' then 1 else 0;
    var t := s[a..];
    var i := if t != [] && t[0] == '0' then 1 else if t != [] && IsDigit(t[0]) then Digits(t) else 0;
    if i == 0 then 0
    else
      var f := if i < |t| && t[i] == '.' && Digits(t[i + 1..]) > 0 then 1 + Digits(t[i + 1..]) else 0;
      var j := i + f;
      var e := if j < |t| && (t[j] == 'e' || t[j] == 'E') then
                 (var sg := if j + 1 < |t| && (t[j + 1] == '+' || t[j + 1] == '-') then 1 else 0;
                  var d := Digits(t[j + 1 + sg..]);
                  if d > 0 then 1 + sg + d else 0)
               else 0;
      a + j + e
  }

  /** A literal, a string or a number at the start of `s`. */
  function ParseScalar(s: string): (r: Option<(Json, string)>)
    requires s != []
    ensures r.Some? ==> |r.value.1| < |s|
  {
    if StartsWith(s, "null") then Some((JNull, s[4..]))
    else if StartsWith(s, "true") then Some((JBool(true), s[4..]))
    else if StartsWith(s, "false") then Some((JBool(false), s[5..]))
    else if s[0] == '"' then
      match ParseStringBody(s[1..], "")
      case None => None
      case Some((str, rest)) => Some((JString(str), rest))
    else
      var n := NumberLength(s);
      if n == 0 then None else Some((JNumber(s[..n]), s[n..]))
  }

  /** A JSON value at the start of `s` (which starts after any white space). */
  function ParseValue(s: string): (r: Option<(Json, string)>)
    decreases |s|, 0
    ensures r.Some? ==> |r.value.1| < |s|
  {
    if s == [] then None
    else if s[0] == '[' then ParseArray(SkipSpace(s[1..]))
    else if s[0] == '{' then ParseObject(SkipSpace(s[1..]))
    else ParseScalar(s)
  }

  /** What follows `[` and white space. */
  function ParseArray(s: string): (r: Option<(Json, string)>)
    decreases |s|, 3
    ensures r.Some? ==> |r.value.1| < |s|
  {
    if s != [] && s[0] == ']' then Some((JArray([]), s[1..])) else ParseItems(s, [])
  }

  /** Array elements (after `[` or `,`) up to the closing `]`. */
  function ParseItems(s: string, acc: seq<Json>): (r: Option<(Json, string)>)
    decreases |s|, 2
    ensures r.Some? ==> |r.value.1| < |s|
  {
    match ParseValue(s)
    case None => None
    case Some((v, rest)) =>
      var t := SkipSpace(rest);
      if t != [] && t[0] == ',' then ParseItems(SkipSpace(t[1..]), acc + [v])
      else if t != [] && t[0] == ']' then Some((JArray(acc + [v]), t[1..]))
      else None
  }

  /** What follows `{` and white space. */
  function ParseObject(s: string): (r: Option<(Json, string)>)
    decreases |s|, 3
    ensures r.Some? ==> |r.value.1| < |s|
  {
    if s != [] && s[0] == '}' then Some((JObject([]), s[1..])) else ParseMembers(s, [])
  }

  /** One `"key" : value` member. */
  function ParseMember(s: string): (r: Option<((string, Json), string)>)
    decreases |s|, 1
    ensures r.Some? ==> |r.value.1| < |s|
  {
    if s == [] || s[0] != '"' then None
    else
      match ParseStringBody(s[1..], "")
      case None => None
      case Some((key, rest)) =>
        var t := SkipSpace(rest);
        if t == [] || t[0] != ':' then None
        else
          match ParseValue(SkipSpace(t[1..]))
          case None => None
          case Some((v, rest2)) => Some(((key, v), rest2))
  }

  /** Object members (after `{` or `,`) up to the closing `}`. */
  function ParseMembers(s: string, acc: seq<(string, Json)>): (r: Option<(Json, string)>)
    decreases |s|, 2
    ensures r.Some? ==> |r.value.1| < |s|
  {
    match ParseMember(s)
    case None => None
    case Some((m, rest)) =>
      var u := SkipSpace(rest);
      if u != [] && u[0] == ',' then ParseMembers(SkipSpace(u[1..]), acc + [m])
      else if u != [] && u[0] == '}' then Some((JObject(acc + [m]), u[1..]))
      else None
  }

  /** `JSON.parse(text)`, with `None` where it throws a SyntaxError. */
  function Parse(text: string): Option<Json>
  {
    match ParseValue(SkipSpace(text))
    case None => None
    case Some((v, rest)) => if SkipSpace(rest) == [] then Some(v) else None
  }

  /** The value a property read `obj[key]` sees: the last member named `key`. */
  function Get(members: seq<(string, Json)>, key: string): (r: Option<Json>)
    ensures r.Some? <==> exists k :: 0 <= k < |members| && members[k].0 == key
    ensures r.Some? ==> exists k :: (0 <= k < |members| && members[k] == (key, r.value)
          && forall j :: k < j < |members| ==> members[j].0 != key)
  {
    if members == [] then None
    else if members[|members| - 1].0 == key then Some(members[|members| - 1].1)
    else Get(members[..|members| - 1], key)
  }

  /** Reading `obj.key` as a string: `Some` exactly when `typeof obj.key === 'string'`. */
  function GetString(v: Json, key: string): Option<string>
  {
    if v.JObject? then
      match Get(v.members, key)
      case Some(JString(s)) => Some(s)
      case _ => None
    else None
  }

  // ---- round trip ----

  lemma {:induction false} StringRoundTrip(x: string, acc: string, rest: string)
    ensures ParseStringBody(EscapeString(x) + "\"" + rest, acc) == Some((acc + x, rest))
    decreases |x|
  {
    var s := EscapeString(x) + "\"" + rest;
    if x == [] {
      assert s == "\"" + rest;
      assert s[1..] == rest;
      assert acc + x == acc;
    } else {
      var c := x[0];
      var e := EscapeChar(c);
      var tail := EscapeString(x[1..]) + "\"" + rest;
      assert EscapeString(x) == e + EscapeString(x[1..]);
      Regroup(e, EscapeString(x[1..]), "\"", rest);
      assert s == e + tail;
      StringRoundTrip(x[1..], acc + [c], rest);
      assert x == [c] + x[1..];
      Reassociate(acc, [c], x[1..]);
      EscapeCharStep(c, acc, tail);
    }
  }

  lemma EscapeCharStep(c: char, acc: string, tail: string)
    ensures ParseStringBody(EscapeChar(c) + tail, acc) == ParseStringBody(tail, acc + [c])
  {
    var s := EscapeChar(c) + tail;
    if c == '"' || c == '\\' || c == '\U{8}' || c == '\t' || c == '\n' || c == '\U{C}' || c == '\r' {
      assert ParseEscape(s) == Some((c, 2));
      assert s[2..] == tail;
    } else if c < ' ' {
      var n := c as int;
      var h := s[2..];
      assert h[..4] == ['0', '0', HexDigit(n / 16), HexDigit(n % 16)];
      assert s[6..] == tail;
      assert Hex4(h) == Some(n);
      assert CodeChar(n) == c;
      assert ParseEscape(s) == Some((c, 6));
    } else {
      assert s[1..] == tail;
    }
  }

  /** A flat object whose members all have string values. */
  function StringObject(ms: seq<(string, string)>): Json
  {
    JObject(StringPairs(ms))
  }

  function StringPairs(ms: seq<(string, string)>): (r: seq<(string, Json)>)
    ensures |r| == |ms| && forall k :: 0 <= k < |ms| ==> r[k] == (ms[k].0, JString(ms[k].1))
  {
    if ms == [] then [] else [(ms[0].0, JString(ms[0].1))] + StringPairs(ms[1..])
  }

  /** `JSON.stringify` of such an object: `{"k":"v",...}` without spaces. */
  function StringifyStringObject(ms: seq<(string, string)>): string
  {
    "{" + StringMembers(ms) + "}"
  }

  function StringMembers(ms: seq<(string, string)>): string
  {
    if ms == [] then ""
    else if |ms| == 1 then MemberText(ms[0].0, ms[0].1)
    else MemberText(ms[0].0, ms[0].1) + "," + StringMembers(ms[1..])
  }

  /** One `"key":"value"` member. */
  function MemberText(k: string, v: string): string
  {
    Quote(k) + ":" + Quote(v)
  }

  lemma QuoteRead(x: string, rest: string)
    ensures ParseStringBody((Quote(x) + rest)[1..], "") == Some((x, rest))
  {
    assert (Quote(x) + rest)[1..] == EscapeString(x) + "\"" + rest;
    StringRoundTrip(x, "", rest);
    assert "" + x == x;
  }

  lemma ValueOfQuote(x: string, tail: string)
    ensures ParseValue(Quote(x) + tail) == Some((JString(x), tail))
  {
    var s := Quote(x) + tail;
    assert s[0] == '"';
    assert !StartsWith(s, "null") && !StartsWith(s, "true") && !StartsWith(s, "false");
    QuoteRead(x, tail);
    assert ParseScalar(s) == Some((JString(x), tail));
  }

  lemma ReadMember(s: string, k: string, t: string, v: Json, tail: string)
    requires s != [] && s[0] == '"' && ParseStringBody(s[1..], "") == Some((k, t))
    requires t != [] && t[0] == ':' && t[1..] != [] && t[1] == '"'
    requires ParseValue(t[1..]) == Some((v, tail))
    ensures ParseMember(s) == Some(((k, v), tail))
  {
    assert SkipSpace(t) == t;
    assert SkipSpace(t[1..]) == t[1..];
  }

  lemma MemberStep(k: string, v: string, tail: string)
    ensures ParseMember(MemberText(k, v) + tail) == Some(((k, JString(v)), tail))
  {
    var vs := Quote(v) + tail;
    QuoteFront(v, tail);
    var t := ":" + vs;
    Lead(':', vs);
    Regroup4(Quote(k), ":", Quote(v), tail);
    QuoteFront(k, t);
    QuoteRead(k, t);
    ValueOfQuote(v, tail);
    ReadMember(Quote(k) + t, k, t, JString(v), tail);
  }

  lemma Regroup3(a: string, b: string, c: string)
    ensures a + b + c == a + (b + c)
  {
  }

  lemma Regroup4(a: string, b: string, c: string, d: string)
    ensures a + b + c + d == a + (b + (c + d))
  {
  }

  lemma Lead(c: char, x: string)
    ensures ([c] + x)[0] == c && ([c] + x)[1..] == x
  {
  }

  lemma QuoteFront(x: string, rest: string)
    ensures Quote(x) + rest != [] && (Quote(x) + rest)[0] == '"'
  {
    assert Quote(x) + rest == "\"" + (EscapeString(x) + "\"" + rest);
  }

  /** A member followed by a comma and the next member. */
  lemma NextMember(k: string, v: string, more: string, acc: seq<(string, Json)>)
    requires more != [] && more[0] == '"'
    ensures ParseMembers(MemberText(k, v) + "," + more, acc) == ParseMembers(more, acc + [(k, JString(v))])
  {
    var s := MemberText(k, v) + "," + more;
    Regroup3(MemberText(k, v), ",", more);
    MemberStep(k, v, "," + more);
    ReadMembersComma(s, (k, JString(v)), more, acc);
  }

  /** The last member, followed by the closing brace. */
  lemma LastMember(k: string, v: string, rest: string, acc: seq<(string, Json)>)
    ensures ParseMembers(MemberText(k, v) + "}" + rest, acc) == Some((JObject(acc + [(k, JString(v))]), rest))
  {
    var s := MemberText(k, v) + "}" + rest;
    Regroup3(MemberText(k, v), "}", rest);
    MemberStep(k, v, "}" + rest);
    ReadMembersClose(s, (k, JString(v)), rest, acc);
  }

  lemma ReadMembersComma(s: string, m: (string, Json), more: string, acc: seq<(string, Json)>)
    requires ParseMember(s) == Some((m, "," + more)) && more != [] && more[0] == '"'
    ensures ParseMembers(s, acc) == ParseMembers(more, acc + [m])
  {
    var u := "," + more;
    assert SkipSpace(u) == u;
    assert u[1..] == more;
    assert SkipSpace(more) == more;
  }

  lemma ReadMembersClose(s: string, m: (string, Json), rest: string, acc: seq<(string, Json)>)
    requires ParseMember(s) == Some((m, "}" + rest))
    ensures ParseMembers(s, acc) == Some((JObject(acc + [m]), rest))
  {
    var u := "}" + rest;
    assert SkipSpace(u) == u;
    assert u[1..] == rest;
  }

  /** The members text of two or more members: the first, a comma, the others. */
  lemma MembersSplit(ms: seq<(string, string)>, rest: string)
    requires |ms| >= 2
    ensures var more := StringMembers(ms[1..]) + "}" + rest;
      StringMembers(ms) + "}" + rest == MemberText(ms[0].0, ms[0].1) + "," + more
      && more != [] && more[0] == '"'
  {
    var a := MemberText(ms[0].0, ms[0].1) + ",";
    var x := StringMembers(ms[1..]);
    MembersStart(ms[1..]);
    Regroup(a, x, "}", rest);
  }

  lemma Regroup(a: string, x: string, b: string, c: string)
    ensures a + x + b + c == a + (x + b + c)
    ensures x != [] ==> (x + b + c)[0] == x[0]
  {
    assert a + x + b + c == a + (x + b + c);
  }

  /** The members text starts with the opening quote of the first key. */
  lemma MembersStart(ms: seq<(string, string)>)
    requires |ms| >= 1
    ensures |StringMembers(ms)| >= 1 && StringMembers(ms)[0] == '"'
  {
    var q := Quote(ms[0].0);
    assert q[0] == '"';
    var m := MemberText(ms[0].0, ms[0].1);
    assert m == q + (":" + Quote(ms[0].1));
    assert m[0] == '"';
    if |ms| > 1 {
      assert StringMembers(ms) == m + ("," + StringMembers(ms[1..]));
    }
  }

  lemma PairsCons(ms: seq<(string, string)>, acc: seq<(string, Json)>)
    requires |ms| >= 1
    ensures acc + [(ms[0].0, JString(ms[0].1))] + StringPairs(ms[1..]) == acc + StringPairs(ms)
  {
    assert StringPairs(ms) == [(ms[0].0, JString(ms[0].1))] + StringPairs(ms[1..]);
  }

  lemma {:induction false} MembersRoundTrip(ms: seq<(string, string)>, acc: seq<(string, Json)>, rest: string)
    requires |ms| >= 1
    ensures ParseMembers(StringMembers(ms) + "}" + rest, acc) == Some((JObject(acc + StringPairs(ms)), rest))
    decreases |ms|
  {
    var k := ms[0].0;
    var v := ms[0].1;
    PairsCons(ms, acc);
    if |ms| == 1 {
      LastMember(k, v, rest, acc);
      assert StringPairs(ms[1..]) == [];
      assert acc + [(k, JString(v))] + [] == acc + [(k, JString(v))];
    } else {
      MembersSplit(ms, rest);
      NextMember(k, v, StringMembers(ms[1..]) + "}" + rest, acc);
      MembersRoundTrip(ms[1..], acc + [(k, JString(v))], rest);
    }
  }

  /** The text after the opening brace of a non-empty string object. */
  lemma ObjectBody(ms: seq<(string, string)>)
    requires |ms| >= 1
    ensures var s := StringifyStringObject(ms);
      |s| >= 2 && s[0] == '{' && s[1..] == StringMembers(ms) + "}" + "" && s[1] == '"'
  {
    MembersStart(ms);
    Braced(StringMembers(ms));
  }

  lemma Braced(x: string)
    requires x != [] && x[0] == '"'
    ensures var s := "{" + x + "}";
      |s| >= 2 && s[0] == '{' && s[1..] == x + "}" + "" && s[1] == '"'
  {
    var s := "{" + x + "}";
    assert s[1..] == x + "}";
    assert x + "}" + "" == x + "}";
  }

  lemma NoLeadingSpace(s: string)
    requires s != [] && !IsJsonSpace(s[0])
    ensures SkipSpace(s) == s
  {
  }

  /** `JSON.parse(JSON.stringify(obj))` gives back a flat string object. */
  lemma StringObjectRoundTrip(ms: seq<(string, string)>)
    ensures Parse(StringifyStringObject(ms)) == Some(StringObject(ms))
  {
    var s := StringifyStringObject(ms);
    if ms == [] {
      assert s == "{}";
      assert ParseValue(s) == Some((JObject([]), ""));
    } else {
      ObjectBody(ms);
      NoLeadingSpace(s);
      NoLeadingSpace(s[1..]);
      MembersRoundTrip(ms, [], "");
      NoneBefore(StringPairs(ms));
      ValueOfObject(s);
      ParseWhole(s, StringObject(ms));
    }
  }

  lemma NoneBefore<T>(x: seq<T>)
    ensures [] + x == x
  {
  }

  lemma ValueOfObject(s: string)
    requires s != [] && s[0] == '{'
    ensures ParseValue(s) == ParseObject(SkipSpace(s[1..]))
  {
  }

  lemma ParseWhole(s: string, v: Json)
    requires SkipSpace(s) == s && ParseValue(s) == Some((v, ""))
    ensures Parse(s) == Some(v)
  {
  }

  lemma {:induction false} EscapeStringNoNewline(x: string)
    ensures '\n' !in EscapeString(x)
    decreases |x|
  {
    if x != [] { EscapeStringNoNewline(x[1..]); }
  }

  lemma QuoteNoNewline(x: string)
    ensures '\n' !in Quote(x)
  {
    EscapeStringNoNewline(x);
  }

  lemma {:induction false} MembersNoNewline(ms: seq<(string, string)>)
    ensures '\n' !in StringMembers(ms)
    decreases |ms|
  {
    if ms != [] {
      QuoteNoNewline(ms[0].0);
      QuoteNoNewline(ms[0].1);
      if |ms| > 1 {
        MembersNoNewline(ms[1..]);
      }
    }
  }

  /** `JSON.stringify` of a string object is one line between braces. */
  lemma StringifyOneLine(ms: seq<(string, string)>)
    ensures var s := StringifyStringObject(ms);
      |s| >= 2 && s[0] == '{' && s[|s| - 1] == '}' && '\n' !in s
  {
    MembersNoNewline(ms);
  }
}
