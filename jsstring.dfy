/** The JavaScript string built-ins the core relies on, over `seq<char>`:
    trimming with ECMAScript's white-space set, searching, splitting and
    joining, ASCII lower-casing, and the decimal conversions behind
    `String(n)` and `parseInt(s, 10)`. */
module JsString {
  import opened Wrappers

  /** ECMAScript LineTerminator: what `.` in a regular expression refuses and
      where `^`/`$` match in multi-line mode. */
  predicate IsLineTerminator(c: char) {
    c == '\n' || c == '\r' || c == '\U{2028}' || c == '\U{2029}'
  }

  /** `^` in multi-line mode: the start of the text or just after a line
      terminator. */
  predicate LineStart(s: string, i: int) {
    i == 0 || (0 < i <= |s| && IsLineTerminator(s[i - 1]))
  }

  /** What the regular-expression fragment `(.+)$` accepts: one or more
      characters, none a line terminator. */
  predicate DotPlus(s: string) {
    |s| > 0 && forall k :: 0 <= k < |s| ==> !IsLineTerminator(s[k])
  }

  /** ECMAScript WhiteSpace or LineTerminator: what `trim()` removes and what
      `\s` matches. */
  predicate IsWhitespace(c: char) {
    c == '\t' || c == '\U{B}' || c == '\U{C}' || c == ' ' || c == '\U{A0}' || c == '\U{FEFF}'
    || c == '\U{1680}' || ('\U{2000}' <= c <= '\U{200A}') || c == '\U{202F}' || c == '\U{205F}'
    || c == '\U{3000}' || IsLineTerminator(c)
  }

  predicate AllWhitespace(s: string) {
    forall i :: 0 <= i < |s| ==> IsWhitespace(s[i])
  }

  lemma WhitespaceCons(c: char, s: string)
    requires IsWhitespace(c) && AllWhitespace(s)
    ensures AllWhitespace([c] + s)
  {
    forall i | 0 <= i < |[c] + s| ensures IsWhitespace(([c] + s)[i]) {
      if i > 0 {
        assert ([c] + s)[i] == s[i - 1];
      }
    }
  }

  lemma WhitespaceSnoc(s: string, c: char)
    requires AllWhitespace(s) && IsWhitespace(c)
    ensures AllWhitespace(s + [c])
  {
    forall i | 0 <= i < |s + [c]| ensures IsWhitespace((s + [c])[i]) {
      if i < |s| {
        assert (s + [c])[i] == s[i];
      }
    }
  }

  /** `s.trimStart()` */
  function TrimStart(s: string): (r: string)
    ensures |r| <= |s| && r == s[|s| - |r|..]
    ensures AllWhitespace(s[..|s| - |r|])
    ensures r == [] || !IsWhitespace(r[0])
  {
    if |s| > 0 && IsWhitespace(s[0]) then
      var r := TrimStart(s[1..]);
      SliceCons(s, |s| - |r|);
      WhitespaceCons(s[0], s[1..][..|s| - 1 - |r|]);
      r
    else s
  }

  /** `s.trimEnd()` */
  function TrimEnd(s: string): (r: string)
    ensures |r| <= |s| && r == s[..|r|]
    ensures AllWhitespace(s[|r|..])
    ensures r == [] || !IsWhitespace(r[|r| - 1])
  {
    if |s| > 0 && IsWhitespace(s[|s| - 1]) then
      var r := TrimEnd(s[..|s| - 1]);
      SliceSnoc(s, |r|);
      WhitespaceSnoc(s[..|s| - 1][|r|..], s[|s| - 1]);
      r
    else s
  }

  /** `s.trim()` */
  function Trim(s: string): (r: string)
    ensures |r| <= |s|
    ensures r == [] || (!IsWhitespace(r[0]) && !IsWhitespace(r[|r| - 1]))
  {
    TrimEnd(TrimStart(s))
  }

  /** `trim()` removes the leading and the trailing white space and nothing
      else: what it returns sits between two runs of white space. */
  lemma TrimBetweenWhitespace(s: string)
    ensures var r := Trim(s);
      exists i :: 0 <= i && i + |r| <= |s| && r == s[i..i + |r|] && AllWhitespace(s[..i]) && AllWhitespace(s[i + |r|..])
  {
    var t := TrimStart(s);
    var r := TrimEnd(t);
    var i := |s| - |t|;
    TrimParts(s, t, r, i);
  }

  /** The end trimmed from the start-trimmed text, as slices of the text. */
  lemma TrimParts(s: string, t: string, r: string, i: nat)
    requires i <= |s| && t == s[i..] && AllWhitespace(s[..i])
    requires |r| <= |t| && r == t[..|r|] && AllWhitespace(t[|r|..])
    ensures r == s[i..i + |r|] && AllWhitespace(s[i + |r|..])
  {
    SliceOfSlice(s, i, |s|, 0, |r|);
    SliceOfSlice(s, i, |s|, |r|, |t|);
  }

  /** Leading white space is what `trimStart()` removes. */
  lemma {:induction false} TrimStartSkip(ws: string, t: string)
    requires AllWhitespace(ws) && (t == [] || !IsWhitespace(t[0]))
    ensures TrimStart(ws + t) == t
    decreases |ws|
  {
    if ws != [] {
      assert (ws + t)[0] == ws[0] && (ws + t)[1..] == ws[1..] + t;
      TrimStartSkip(ws[1..], t);
    }
  }

  /** Trailing white space is what `trimEnd()` removes. */
  lemma {:induction false} TrimEndSkip(s: string, v: string)
    requires AllWhitespace(v)
    ensures TrimEnd(s + v) == TrimEnd(s)
    decreases |v|
  {
    if v == [] {
      assert s + v == s;
    } else {
      var init := v[..|v| - 1];
      assert (s + v)[..|s + v| - 1] == s + init;
      assert (s + v)[|s + v| - 1] == v[|v| - 1];
      assert IsWhitespace(v[|v| - 1]);
      TrimEndSkip(s, init);
    }
  }

  /** White space appended to a string does not change its trim. */
  lemma TrimAppendWhitespace(s: string, v: string)
    requires AllWhitespace(v)
    ensures Trim(s + v) == Trim(s)
  {
    var r := TrimStart(s);
    var ws := s[..|s| - |r|];
    assert s == ws + r;
    if |r| == 0 {
      assert s == ws;
      BlankTrim(s, v);
    } else {
      assert s + v == ws + (r + v);
      TrimStartSkip(ws, r + v);
      TrimEndSkip(r, v);
    }
  }

  /** White space followed by white space trims to nothing, as it alone does. */
  lemma BlankTrim(s: string, v: string)
    requires AllWhitespace(s) && AllWhitespace(v)
    ensures Trim(s + v) == Trim(s)
  {
    var e := s[..0];
    assert AllWhitespace(s + v) by {
      forall i | 0 <= i < |s + v| ensures IsWhitespace((s + v)[i]) {
        if i >= |s| { assert (s + v)[i] == v[i - |s|]; }
      }
    }
    assert (s + v) + e == s + v && s + e == s;
    TrimStartSkip(s + v, e);
    TrimStartSkip(s, e);
  }

  /** `trimEnd()` keeps every character up to the last non-space one. */
  lemma TrimEndKeepsChar(s: string, i: nat)
    requires i < |s| && !IsWhitespace(s[i])
    ensures i < |TrimEnd(s)|
  {
  }

  /** A string is its end-trimmed text followed by white space. */
  lemma TrimEndSplit(s: string)
    ensures s == TrimEnd(s) + s[|TrimEnd(s)|..] && AllWhitespace(s[|TrimEnd(s)|..])
  {
    var t := TrimEnd(s);
    assert s == s[..|t|] + s[|t|..];
  }

  /** Trimming the end twice trims no more than once. */
  lemma TrimEndTwice(s: string)
    ensures TrimEnd(TrimEnd(s)) == TrimEnd(s)
  {
  }

  /** Trimming leaves a string alone that neither starts nor ends with white space. */
  lemma TrimKeeps(s: string)
    requires s != [] && !IsWhitespace(s[0]) && !IsWhitespace(s[|s| - 1])
    ensures Trim(s) == s
  {
  }

  predicate StartsWith(s: string, p: string) { |p| <= |s| && s[..|p|] == p }

  predicate EndsWith(s: string, p: string) { |p| <= |s| && s[|s| - |p|..] == p }

  lemma StartsWithAppend(a: string, b: string)
    ensures StartsWith(a + b, a) && EndsWith(a + b, b)
  {
    assert (a + b)[..|a|] == a;
    assert (a + b)[|a + b| - |b|..] == b;
  }

  lemma StartsWithExtend(s: string, p: string, x: string)
    requires StartsWith(s, p)
    ensures StartsWith(s + x, p)
  {
    assert (s + x)[..|p|] == s[..|p|];
  }

  /** `s` holds `p` at position `i`. */
  predicate OccursAt(s: string, p: string, i: int) {
    0 <= i && i + |p| <= |s| && s[i..i + |p|] == p
  }

  /** `s.indexOf(p, from)`, with `None` for -1. */
  function IndexOfFrom(s: string, p: string, from: nat): (r: Option<nat>)
    decreases |s| - from
    ensures r.Some? ==> from <= r.value && OccursAt(s, p, r.value)
    ensures r.Some? ==> forall k :: from <= k < r.value ==> !OccursAt(s, p, k)
    ensures r.None? ==> forall k :: from <= k ==> !OccursAt(s, p, k)
  {
    if from + |p| > |s| then None
    else if s[from..from + |p|] == p then Some(from)
    else IndexOfFrom(s, p, from + 1)
  }

  /** `s.indexOf(p)` */
  function IndexOf(s: string, p: string): (r: Option<nat>)
    ensures r.Some? ==> OccursAt(s, p, r.value) && forall k :: 0 <= k < r.value ==> !OccursAt(s, p, k)
    ensures r.None? ==> forall k :: !OccursAt(s, p, k)
  {
    IndexOfFrom(s, p, 0)
  }

  /** `s.includes(p)` */
  predicate Contains(s: string, p: string) { IndexOf(s, p).Some? }

  lemma ContainsAt(s: string, p: string, i: int)
    requires OccursAt(s, p, i)
    ensures Contains(s, p)
  {
  }

  /** `s.lastIndexOf(p)`, searching from position `upTo` downward. */
  function LastIndexOfUpTo(s: string, p: string, upTo: nat): (r: Option<nat>)
    ensures r.Some? ==> r.value <= upTo && OccursAt(s, p, r.value)
    ensures r.Some? ==> forall k :: r.value < k <= upTo ==> !OccursAt(s, p, k)
    ensures r.None? ==> forall k :: k <= upTo ==> !OccursAt(s, p, k)
  {
    if OccursAt(s, p, upTo) then Some(upTo)
    else if upTo == 0 then None
    else LastIndexOfUpTo(s, p, upTo - 1)
  }

  /** `s.lastIndexOf(p)` */
  function LastIndexOf(s: string, p: string): (r: Option<nat>)
    ensures r.Some? ==> OccursAt(s, p, r.value) && forall k :: r.value < k ==> !OccursAt(s, p, k)
    ensures r.None? ==> forall k :: !OccursAt(s, p, k)
  {
    var r := LastIndexOfUpTo(s, p, |s|);
    assert forall k :: k > |s| ==> !OccursAt(s, p, k);
    r
  }

  /** `parts.join(sep)` */
  function Join(parts: seq<string>, sep: string): string
  {
    if |parts| == 0 then ""
    else if |parts| == 1 then parts[0]
    else parts[0] + sep + Join(parts[1..], sep)
  }

  lemma JoinAppend(parts: seq<string>, last: string, sep: string)
    requires |parts| > 0
    ensures Join(parts + [last], sep) == Join(parts, sep) + sep + last
  {
    if |parts| == 1 {
      assert parts + [last] == [parts[0], last];
    } else {
      assert (parts + [last])[1..] == parts[1..] + [last];
      JoinAppend(parts[1..], last, sep);
    }
  }

  /** `s.split(c)` for a one-character separator. */
  function Split(s: string, c: char): (r: seq<string>)
    decreases |s|
    ensures |r| >= 1
    ensures forall k :: 0 <= k < |r| ==> c !in r[k]
    ensures Join(r, [c]) == s
  {
    match IndexOf(s, [c])
    case None =>
      assert forall k :: 0 <= k < |s| ==> s[k] != c by {
        forall k | 0 <= k < |s| ensures s[k] != c {
          assert !OccursAt(s, [c], k);
          assert s[k..k + 1] == [s[k]];
        }
      }
      [s]
    case Some(i) =>
      assert s[i] == c by { assert s[i..i + 1] == [c]; }
      var head := s[..i];
      assert c !in head by {
        forall k | 0 <= k < i ensures head[k] != c {
          assert !OccursAt(s, [c], k);
          assert s[k..k + 1] == [s[k]];
        }
      }
      var rest := Split(s[i + 1..], c);
      assert s == head + [c] + s[i + 1..];
      [head] + rest
  }

  lemma {:induction false} SplitJoin(parts: seq<string>, c: char)
    requires |parts| >= 1
    requires forall k :: 0 <= k < |parts| ==> c !in parts[k]
    ensures Split(Join(parts, [c]), c) == parts
  {
    var s := Join(parts, [c]);
    if |parts| == 1 {
      assert forall k :: !OccursAt(s, [c], k) by {
        forall k ensures !OccursAt(s, [c], k) {
          if 0 <= k && k + 1 <= |s| { assert s[k..k + 1][0] == s[k]; }
        }
      }
    } else {
      var h := parts[0];
      var t := Join(parts[1..], [c]);
      assert s == h + [c] + t;
      assert OccursAt(s, [c], |h|);
      assert forall k :: 0 <= k < |h| ==> !OccursAt(s, [c], k) by {
        forall k | 0 <= k < |h| ensures !OccursAt(s, [c], k) {
          assert s[k] == h[k];
        }
      }
      assert s[|h| + 1..] == t;
      SplitJoin(parts[1..], c);
    }
  }

  lemma {:induction false} JoinConcat(a: seq<string>, b: seq<string>, sep: string)
    requires |a| >= 1 && |b| >= 1
    ensures Join(a + b, sep) == Join(a, sep) + sep + Join(b, sep)
    decreases |a|
  {
    assert (a + b)[0] == a[0];
    if |a| == 1 {
      assert (a + b)[1..] == b;
    } else {
      assert (a + b)[1..] == a[1..] + b;
      JoinConcat(a[1..], b, sep);
    }
  }

  /** Splitting around one separator splits each side. */
  lemma SplitConcat(x: string, y: string, c: char)
    ensures Split(x + [c] + y, c) == Split(x, c) + Split(y, c)
  {
    var px := Split(x, c);
    var py := Split(y, c);
    JoinConcat(px, py, [c]);
    assert forall k :: 0 <= k < |px + py| ==> c !in (px + py)[k] by {
      forall k | 0 <= k < |px + py| ensures c !in (px + py)[k] {
        if k >= |px| { assert (px + py)[k] == py[k - |px|]; }
      }
    }
    SplitJoin(px + py, c);
  }

  /** Two separators in a row leave an empty part between the two sides. */
  lemma SplitDouble(x: string, y: string, c: char, cc: string)
    requires cc == [c, c]
    ensures Split(x + cc + y, c) == Split(x, c) + [[]] + Split(y, c)
  {
    var e := x[..0];
    var z := e + [c] + y;
    assert x + cc + y == x + [c] + z by {
      assert e + [c] == [c];
    }
    SplitConcat(x, z, c);
    SplitConcat(e, y, c);
    SplitNothing(e, c);
  }

  /** The empty string splits into one empty part. */
  lemma SplitNothing(e: string, c: char)
    requires |e| == 0
    ensures Split(e, c) == [e]
  {
  }

  /** Appending a character other than the separator lengthens the last
      part. */
  lemma SplitSnoc(x: string, ch: char, c: char)
    requires ch != c
    ensures var p := Split(x, c);
      Split(x + [ch], c) == p[..|p| - 1] + [p[|p| - 1] + [ch]]
  {
    var p := Split(x, c);
    var init, last := p[..|p| - 1], p[|p| - 1];
    var q := init + [last + [ch]];
    assert p == init + [last];
    if init == [] {
      assert Join(q, [c]) == x + [ch];
    } else {
      JoinAppend(init, last, [c]);
      JoinAppend(init, last + [ch], [c]);
      assert Join(q, [c]) == x + [ch];
    }
    assert forall k :: 0 <= k < |q| ==> c !in q[k] by {
      forall k | 0 <= k < |q| ensures c !in q[k] {
        if k < |init| { assert q[k] == p[k]; }
      }
    }
    SplitJoin(q, c);
    assert Split(Join(q, [c]), c) == q;
  }

  /** `q` keeps the parts of `p` but the last, and extends the last by
      white space. */
  predicate Extends(p: seq<string>, q: seq<string>) {
    1 <= |p| <= |q| && (forall k :: 0 <= k < |p| - 1 ==> q[k] == p[k])
    && |p[|p| - 1]| <= |q[|p| - 1]| && q[|p| - 1][..|p[|p| - 1]|] == p[|p| - 1]
    && AllWhitespace(q[|p| - 1][|p[|p| - 1]|..])
  }

  /** An extended last part trims to the same text. */
  lemma ExtendsTrim(p: seq<string>, q: seq<string>)
    requires Extends(p, q)
    ensures Trim(q[|p| - 1]) == Trim(p[|p| - 1])
  {
    var a, b := p[|p| - 1], q[|p| - 1];
    var v := b[|a|..];
    assert b == a + v;
    TrimAppendWhitespace(a, v);
  }

  /** Every part that an extension keeps trims to the same text. */
  lemma ExtendsTrimAll(p: seq<string>, q: seq<string>)
    requires Extends(p, q)
    ensures forall k :: 0 <= k < |p| ==> Trim(p[k]) == Trim(q[k])
  {
    ExtendsTrim(p, q);
  }

  /** White space appended to `x` extends its parts. */
  lemma {:induction false} SplitAppendWhitespace(x: string, w: string, c: char)
    requires AllWhitespace(w)
    ensures Extends(Split(x, c), Split(x + w, c))
    decreases |w|
  {
    var p := Split(x, c);
    if w == [] {
      assert x + w == x;
      assert p[|p| - 1][|p[|p| - 1]|..] == [];
    } else {
      var w', ch := w[..|w| - 1], w[|w| - 1];
      SplitAppendWhitespace(x, w', c);
      var q' := Split(x + w', c);
      assert x + w == (x + w') + [ch];
      if ch == c {
        SplitConcat(x + w', [], c);
        assert (x + w') + [c] + [] == x + w;
        assert Split(x + w, c) == q' + Split([], c);
        ExtendsNewPart(p, q', c);
      } else {
        SplitSnoc(x + w', ch, c);
        assert Split(x + w, c) == q'[..|q'| - 1] + [q'[|q'| - 1] + [ch]];
        ExtendsLastPart(p, q', ch);
      }
    }
  }

  lemma ExtendsNewPart(p: seq<string>, q: seq<string>, c: char)
    requires Extends(p, q)
    ensures Extends(p, q + Split([], c))
  {
    assert Split([], c) == [[]];
  }

  lemma ExtendsLastPart(p: seq<string>, q: seq<string>, ch: char)
    requires Extends(p, q) && IsWhitespace(ch)
    ensures Extends(p, q[..|q| - 1] + [q[|q| - 1] + [ch]])
  {
    var r := q[..|q| - 1] + [q[|q| - 1] + [ch]];
    var n := |p| - 1;
    if n == |q| - 1 {
      var l, l' := p[n], q[n];
      assert r[n] == l' + [ch];
      assert (l' + [ch])[..|l|] == l;
      assert (l' + [ch])[|l|..] == l'[|l|..] + [ch];
      WhitespaceSnoc(l'[|l|..], ch);
    } else {
      assert r[n] == q[n];
    }
  }

  /** `trim()` leaves nothing exactly of an all-whitespace string. */
  lemma TrimEmpty(s: string)
    ensures Trim(s) == "" <==> AllWhitespace(s)
  {
    var r := TrimStart(s);
    if Trim(s) == "" {
      assert AllWhitespace(r[0..]);
      assert s[..|s| - |r|] == s;
    }
  }

  /** The parts of an all-whitespace string joined by a whitespace separator
      are whitespace. */
  lemma {:induction false} JoinWhitespace(parts: seq<string>, sep: string)
    requires AllWhitespace(Join(parts, sep))
    ensures forall k :: 0 <= k < |parts| ==> AllWhitespace(parts[k])
    decreases |parts|
  {
    if |parts| >= 2 {
      var j := Join(parts[1..], sep);
      var s := Join(parts, sep);
      assert s == parts[0] + sep + j;
      forall i | 0 <= i < |parts[0]| ensures IsWhitespace(parts[0][i]) {
        assert parts[0][i] == s[i];
      }
      forall i | 0 <= i < |j| ensures IsWhitespace(j[i]) {
        assert j[i] == s[|parts[0]| + |sep| + i];
      }
      JoinWhitespace(parts[1..], sep);
      forall k | 1 <= k < |parts| ensures AllWhitespace(parts[k]) {
        assert parts[k] == parts[1..][k - 1];
      }
    }
  }

  /** ASCII lower-casing, the part of `toLowerCase()` the model relies on. */
  function LowerChar(c: char): char {
    if 'A' <= c <= 'Z' then (c as int + 32) as char else c
  }

  function Lower(s: string): (r: string)
    ensures |r| == |s| && forall k :: 0 <= k < |s| ==> r[k] == LowerChar(s[k])
  {
    if s == [] then [] else [LowerChar(s[0])] + Lower(s[1..])
  }

  /** `c.repeat(n)` */
  function Repeat(c: char, n: nat): (r: string)
    ensures |r| == n && forall k :: 0 <= k < n ==> r[k] == c
  {
    if n == 0 then "" else [c] + Repeat(c, n - 1)
  }

  /** Number of consecutive `c` characters at the start of `s`. */
  function RunLength(s: string, c: char): (n: nat)
    ensures n <= |s| && (forall k :: 0 <= k < n ==> s[k] == c) && (n == |s| || s[n] != c)
  {
    if s != [] && s[0] == c then 1 + RunLength(s[1..], c) else 0
  }

  lemma RunLengthOfRepeat(c: char, n: nat, rest: string)
    requires rest == [] || rest[0] != c
    ensures RunLength(Repeat(c, n) + rest, c) == n
  {
    var s := Repeat(c, n) + rest;
    var m := RunLength(s, c);
    assert forall k :: 0 <= k < n ==> s[k] == c;
    assert n < |s| ==> s[n] == rest[0];
  }

  // ---- decimal digits ----

  predicate IsDigit(c: char) { '0' <= c <= '9' }

  predicate AllDigits(s: string) { forall k :: 0 <= k < |s| ==> IsDigit(s[k]) }

  function DigitValue(c: char): nat requires IsDigit(c) { c as int - '0' as int }

  function DigitChar(d: nat): (c: char)
    requires d < 10
    ensures IsDigit(c) && DigitValue(c) == d
  {
    ('0' as int + d) as char
  }

  /** The value of a string of decimal digits. */
  function DigitsValue(s: string): nat
    requires AllDigits(s)
  {
    if s == [] then 0 else DigitsValue(s[..|s| - 1]) * 10 + DigitValue(s[|s| - 1])
  }

  /** `String(n)` for a natural number: its shortest decimal form. */
  function NatToString(n: nat): (r: string)
    ensures |r| >= 1 && AllDigits(r)
    ensures DigitsValue(r) == n
    ensures r[0] != '0' || r == "0"
  {
    if n < 10 then [DigitChar(n)]
    else
      var h := NatToString(n / 10);
      var r := h + [DigitChar(n % 10)];
      assert r[..|r| - 1] == h;
      r
  }

  /** Number of decimal digits at the start of `s`. */
  function DigitRun(s: string): (n: nat)
    ensures n <= |s| && AllDigits(s[..n]) && (n == |s| || !IsDigit(s[n]))
  {
    if s != [] && IsDigit(s[0]) then
      var n := 1 + DigitRun(s[1..]);
      assert s[..n] == [s[0]] + s[1..][..n - 1];
      n
    else 0
  }

  lemma DigitRunAll(s: string, rest: string)
    requires AllDigits(s)
    requires rest == [] || !IsDigit(rest[0])
    ensures DigitRun(s + rest) == |s|
  {
    var t := s + rest;
    assert forall k :: 0 <= k < |s| ==> t[k] == s[k];
    assert |s| < |t| ==> t[|s|] == rest[0];
  }

  /** The length of the sign `parseInt` accepts at the front of `t`. */
  function SignLength(t: string): (n: nat)
    ensures n <= |t| && (n == 1 <==> t != [] && (t[0] == '+' || t[0] == '-'))
  {
    if t != [] && (t[0] == '+' || t[0] == '-') then 1 else 0
  }

  /** `parseInt(s, 10)`, with `None` for NaN: leading white space, an optional
      sign, then the longest run of decimal digits; whatever follows is
      ignored. The `ensures` here only bounds the shape of the value; a
      caller that needs the value itself invokes `ParseIntJsSpec`. */
  function ParseIntJs(s: string): (r: Option<int>)
    ensures r.Some? ==> exists d :: d != "" && AllDigits(d) && (r.value == DigitsValue(d) || r.value == -(DigitsValue(d) as int))
  {
    ParseTrimmed(TrimStart(s))
  }

  /** What `parseInt` reads: after the leading white space and an optional
      sign, a number exactly when a digit follows, whose value is that of the
      longest run of digits there, negated after `-`. */
  lemma ParseIntJsSpec(s: string)
    ensures var r := ParseIntJs(s); var t := TrimStart(s); var body := t[SignLength(t)..]; var n := DigitRun(body);
      (r.Some? <==> n > 0)
      && (r.Some? ==> r.value == if SignLength(t) == 1 && t[0] == '-' then -(DigitsValue(body[..n]) as int) else DigitsValue(body[..n]))
  {
  }

  /** `parseInt` once the leading white space is gone. */
  function ParseTrimmed(t: string): (r: Option<int>)
    ensures r.Some? ==> exists d :: d != "" && AllDigits(d) && (r.value == DigitsValue(d) || r.value == -(DigitsValue(d) as int))
  {
    var sign := SignLength(t);
    var body := t[sign..];
    var n := DigitRun(body);
    if n == 0 then None
    else
      var v: int := DigitsValue(body[..n]);
      Some(if sign == 1 && t[0] == '-' then -v else v)
  }

  /** `parseInt` of digits followed by anything but a digit. */
  lemma ParseTrimmedDigits(d: string, rest: string)
    requires d != "" && AllDigits(d) && (rest == [] || !IsDigit(rest[0]))
    ensures ParseTrimmed(d + rest) == Some(DigitsValue(d))
  {
    var t := d + rest;
    assert t[0] == d[0];
    assert t[0..] == t;
    DigitRunAll(d, rest);
    assert t[..|d|] == d;
  }

  /** `parseInt` of text that starts with `-`, or with neither a sign nor a
      digit, is no positive number. */
  lemma ParseTrimmedNotPositive(t: string)
    requires t == [] || t[0] == '-' || (t[0] != '+' && !IsDigit(t[0]))
    ensures ParseTrimmed(t).None? || ParseTrimmed(t).value <= 0
  {
    if t != [] && t[0] != '-' {
      assert t[0..] == t;
    }
  }

  /** Text that does not start with white space is its own `trimStart()`. */
  lemma TrimStartKeeps(s: string)
    requires s == [] || !IsWhitespace(s[0])
    ensures TrimStart(s) == s
  {
  }

  lemma DigitNotSpace(c: char)
    requires IsDigit(c)
    ensures !IsWhitespace(c)
  {
  }

  lemma ParseIntOfNat(n: nat)
    ensures ParseIntJs(NatToString(n)) == Some(n)
  {
    var s := NatToString(n);
    DigitNotSpace(s[0]);
    assert TrimStart(s) == s;
    assert !(s[0] == '+' || s[0] == '-');
    assert s[0..] == s;
    DigitRunAll(s, "");
    assert s + "" == s;
    WholePrefix(s);
  }
}
