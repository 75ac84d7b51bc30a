/** Task identifiers: their numeric suffix, the next free id, the accepted
    formats and renaming the prefix (src/utils/id.ts). A prefix is matched
    literally. */
module TaskIds {
  import opened Wrappers
  import opened JsString
  import opened Tasks
  import opened Parser

  // ---- extractIdNumber ----

  /** Number of decimal digits at the end of `s`. */
  function TrailingDigits(s: string): (n: nat)
    ensures n <= |s| && AllDigits(s[|s| - n..]) && (n == |s| || !IsDigit(s[|s| - n - 1]))
  {
    if s != [] && IsDigit(s[|s| - 1]) then
      var m := TrailingDigits(s[..|s| - 1]);
      DigitsSnoc(s, m);
      1 + m
    else 0
  }

  /** A digit at the end lengthens the run of trailing digits before it. */
  lemma DigitsSnoc(s: string, m: nat)
    requires s != [] && IsDigit(s[|s| - 1])
    requires m <= |s| - 1 && AllDigits(s[..|s| - 1][|s| - 1 - m..])
    requires m == |s| - 1 || !IsDigit(s[..|s| - 1][|s| - 1 - m - 1])
    ensures AllDigits(s[|s| - (m + 1)..]) && (m + 1 == |s| || !IsDigit(s[|s| - (m + 1) - 1]))
  {
    assert s[|s| - (m + 1)..] == s[..|s| - 1][|s| - 1 - m..] + [s[|s| - 1]];
  }

  /** `/-(\d+)$/` matches `id` with its `-` at `k`. */
  predicate SuffixAt(id: string, k: int) {
    0 <= k < |id| - 1 && id[k] == '-' && AllDigits(id[k + 1..])
  }

  /** `extractIdNumber`: the number after the last `-` when only digits
      follow it, `None` for null. */
  function ExtractIdNumber(id: string): (r: Option<nat>)
    ensures r.Some? ==> var k := |id| - TrailingDigits(id) - 1; SuffixAt(id, k) && r.value == DigitsValue(id[k + 1..])
  {
    var n := TrailingDigits(id);
    if 0 < n < |id| && id[|id| - n - 1] == '-' then Some(DigitsValue(id[|id| - n..])) else None
  }

  /** The digit run after the match's `-` is the whole run of trailing digits. */
  lemma SuffixRun(id: string, k: int)
    requires SuffixAt(id, k)
    ensures TrailingDigits(id) == |id| - k - 1
  {
    var n := TrailingDigits(id);
    assert forall j :: |id| - n <= j < |id| ==> IsDigit(id[j]) by {
      forall j | |id| - n <= j < |id| ensures IsDigit(id[j]) {
        assert id[j] == id[|id| - n..][j - (|id| - n)];
      }
    }
    assert forall j :: k + 1 <= j < |id| ==> IsDigit(id[j]) by {
      forall j | k + 1 <= j < |id| ensures IsDigit(id[j]) {
        assert id[j] == id[k + 1..][j - (k + 1)];
      }
    }
  }

  /** Whenever the pattern matches, `extractIdNumber` returns its number: so
      it is `None` exactly when the pattern does not match. */
  lemma ExtractIdNumberFinds(id: string, k: int)
    requires SuffixAt(id, k)
    ensures ExtractIdNumber(id) == Some(DigitsValue(id[k + 1..]))
  {
    SuffixRun(id, k);
  }

  // ---- findMaxIdNumber ----

  /** `findMaxIdNumber`: the largest number among the ids, 0 when none has
      one. */
  method FindMaxIdNumber(ids: seq<string>) returns (max: nat)
    ensures forall i :: 0 <= i < |ids| && ExtractIdNumber(ids[i]).Some? ==> ExtractIdNumber(ids[i]).value <= max
    ensures max == 0 || exists i :: 0 <= i < |ids| && ExtractIdNumber(ids[i]) == Some(max)
  {
    max := 0;
    for i := 0 to |ids|
      invariant forall j :: 0 <= j < i && ExtractIdNumber(ids[j]).Some? ==> ExtractIdNumber(ids[j]).value <= max
      invariant max == 0 || exists j :: 0 <= j < i && ExtractIdNumber(ids[j]) == Some(max)
    {
      var num := ExtractIdNumber(ids[i]);
      if num.Some? && num.value > max {
        max := num.value;
      }
    }
  }

  // ---- generateNextId ----

  predicate IsIdChar(c: char) {
    'a' <= c <= 'z' || 'A' <= c <= 'Z' || IsDigit(c) || c == '-'
  }

  /** Number of id characters at the start of `s`. */
  function IdRun(s: string): (n: nat)
    ensures n <= |s| && (forall k :: 0 <= k < n ==> IsIdChar(s[k])) && (n == |s| || !IsIdChar(s[n]))
  {
    if s != [] && IsIdChar(s[0]) then 1 + IdRun(s[1..]) else 0
  }

  /** The captures of `/^## ([a-zA-Z0-9-]+)/gm` from position `i` on. A match
      holds no line terminator, so the matches are those at each line start. */
  function ArchiveIdsFrom(s: string, i: nat): (r: seq<string>)
    decreases |s| - i
    ensures forall j :: 0 <= j < |r| ==> r[j] != [] && forall k :: 0 <= k < |r[j]| ==> IsIdChar(r[j][k])
  {
    if i >= |s| then []
    else
      var head := if LineStart(s, i) && OccursAt(s, "## ", i) && i + 3 < |s| && IsIdChar(s[i + 3])
        then [s[i + 3..i + 3 + IdRun(s[i + 3..])]] else [];
      head + ArchiveIdsFrom(s, i + 1)
  }

  /** `generateNextId`: one more than the largest number among the ids of
      `tasks.md` and of the archive, after the prefix. The files are read
      by the caller: `tasks` is `None` when `tasks.md` does not exist, and
      `archive` the archive's text when it exists. */
  method GenerateNextId(prefix: string, tasks: Option<SimblFile>, archive: Option<string>) returns (id: string)
    ensures IsNextId(id, prefix, AllIds(tasks, archive))
    ensures forall x :: x in AllIds(tasks, archive) ==> x != id
    ensures PrefixFormat(id, prefix)
  {
    var allIds: seq<string> := [];
    if tasks.Some? {
      var ts := AllTasks(tasks.value);
      allIds := allIds + seq(|ts|, k requires 0 <= k < |ts| => ts[k].id);
    }
    if archive.Some? {
      allIds := allIds + ArchiveIdsFrom(archive.value, 0);
    }
    assert allIds == AllIds(tasks, archive);
    var maxNum := FindMaxIdNumber(allIds);
    id := prefix + "-" + NatToString(maxNum + 1);
    NextAfterMax(allIds, maxNum, prefix, id);
  }

  /** One above the largest number, after the prefix, is the next id. */
  lemma NextAfterMax(ids: seq<string>, max: nat, prefix: string, id: string)
    requires forall i :: 0 <= i < |ids| && ExtractIdNumber(ids[i]).Some? ==> ExtractIdNumber(ids[i]).value <= max
    requires max == 0 || exists i :: 0 <= i < |ids| && ExtractIdNumber(ids[i]) == Some(max)
    requires id == prefix + "-" + NatToString(max + 1)
    ensures IsNextId(id, prefix, ids) && PrefixFormat(id, prefix)
    ensures forall x :: x in ids ==> x != id
  {
    NextNumber(prefix, max + 1);
    AboveMax(ids, max, id);
    if max != 0 {
      var i :| 0 <= i < |ids| && ExtractIdNumber(ids[i]) == Some(max);
      assert ids[i] in ids;
    }
  }

  /** `id` is the id `generateNextId` makes from `ids`: the prefix, `-`, and
      in shortest decimal form the number one above the largest number among
      the ids, or 1 when none has a number. */
  predicate IsNextId(id: string, prefix: string, ids: seq<string>) {
    ExtractIdNumber(id).Some? &&
    var n := ExtractIdNumber(id).value;
    id == prefix + "-" + NatToString(n)
    && (forall x :: x in ids && ExtractIdNumber(x).Some? ==> ExtractIdNumber(x).value < n)
    && (n == 1 || exists x :: x in ids && ExtractIdNumber(x) == Some(n - 1))
  }

  /** `IsNextId` leaves no choice: there is one next id for the ids. */
  lemma NextIdUnique(a: string, b: string, prefix: string, ids: seq<string>)
    requires IsNextId(a, prefix, ids) && IsNextId(b, prefix, ids)
    ensures a == b
  {
    NextNumberAtMost(a, b, prefix, ids);
    NextNumberAtMost(b, a, prefix, ids);
  }

  /** The number of one next id is not below that of another. */
  lemma NextNumberAtMost(a: string, b: string, prefix: string, ids: seq<string>)
    requires IsNextId(a, prefix, ids) && IsNextId(b, prefix, ids)
    ensures ExtractIdNumber(b).value <= ExtractIdNumber(a).value
  {
    var nb := ExtractIdNumber(b).value;
    if nb != 1 {
      var x :| x in ids && ExtractIdNumber(x) == Some(nb - 1);
    }
  }

  /** An id whose number is above every number among the ids is none of them. */
  lemma AboveMax(ids: seq<string>, max: nat, id: string)
    requires forall i :: 0 <= i < |ids| && ExtractIdNumber(ids[i]).Some? ==> ExtractIdNumber(ids[i]).value <= max
    requires ExtractIdNumber(id) == Some(max + 1)
    ensures forall x :: x in ids ==> x != id
    ensures forall x :: x in ids && ExtractIdNumber(x).Some? ==> ExtractIdNumber(x).value < max + 1
  {
    forall x | x in ids ensures x != id && (ExtractIdNumber(x).Some? ==> ExtractIdNumber(x).value < max + 1) {
      var i :| 0 <= i < |ids| && ids[i] == x;
    }
  }

  /** The ids `generateNextId` collects, in order. */
  function AllIds(tasks: Option<SimblFile>, archive: Option<string>): seq<string> {
    (if tasks.Some? then var ts := AllTasks(tasks.value); seq(|ts|, k requires 0 <= k < |ts| => ts[k].id) else [])
    + (if archive.Some? then ArchiveIdsFrom(archive.value, 0) else [])
  }

  /** `prefix-n` carries the number `n`, and has the format of the prefix. */
  lemma NextNumber(prefix: string, n: nat)
    ensures var id := prefix + "-" + NatToString(n);
      ExtractIdNumber(id) == Some(n) && PrefixFormat(id, prefix)
  {
    var digits := NatToString(n);
    var id := prefix + "-" + digits;
    assert id[|prefix| + 1..] == digits;
    assert id[..|prefix| + 1] == prefix + "-";
    ExtractIdNumberFinds(id, |prefix|);
  }

  // ---- isValidId ----

  predicate IsLetter(c: char) { 'a' <= c <= 'z' || 'A' <= c <= 'Z' }

  predicate IsAlnum(c: char) { IsLetter(c) || IsDigit(c) }

  /** `^<prefix>-\d+$` */
  predicate PrefixFormat(id: string, prefix: string) {
    StartsWith(id, prefix + "-") && |id| > |prefix| + 1 && AllDigits(id[|prefix| + 1..])
  }

  /** `^[a-zA-Z][a-zA-Z0-9]*-\d+$` */
  predicate GenericFormat(id: string) {
    exists k | 1 <= k < |id| - 1 ::
      IsLetter(id[0]) && (forall j | 1 <= j < k :: IsAlnum(id[j])) && id[k] == '-' && AllDigits(id[k + 1..])
  }

  /** `isValidId(id, prefix)`: an empty prefix counts as none. */
  predicate IsValidId(id: string, prefix: Option<string>) {
    if prefix.Some? && prefix.value != "" then PrefixFormat(id, prefix.value) else GenericFormat(id)
  }

  /** Every valid id carries a number. */
  lemma ValidIdNumber(id: string, prefix: Option<string>)
    requires IsValidId(id, prefix)
    ensures ExtractIdNumber(id).Some?
  {
    if prefix.Some? && prefix.value != "" {
      ExtractIdNumberFinds(id, |prefix.value|);
    } else {
      var k :| 1 <= k < |id| - 1 && id[k] == '-' && AllDigits(id[k + 1..]);
      ExtractIdNumberFinds(id, k);
    }
  }

  // ---- updateIdPrefix ----

  /** The text `## <prefix>-` that starts an id heading. */
  function HeadingPattern(prefix: string): string { "## " + prefix + "-" }

  /** What `/(^## )<from>-(\d+)/gm` must find at `i`. */
  predicate RenameAt(s: string, from: string, i: nat) {
    var pat := HeadingPattern(from);
    LineStart(s, i) && OccursAt(s, pat, i) && i + |pat| < |s| && IsDigit(s[i + |pat|])
  }

  /** `content.replace(/(^## )<from>-(\d+)/gm, "$1<to>-$2")` from position
      `i` on: each match keeps its `## ` and its digits and swaps the prefix.
      A match ends in digits, which are no line terminator, so scanning on
      right after the `-` finds the same matches. */
  function UpdateFrom(s: string, from: string, to: string, i: nat): string
    decreases |s| - i
  {
    if i >= |s| then ""
    else if RenameAt(s, from, i) then HeadingPattern(to) + UpdateFrom(s, from, to, i + |HeadingPattern(from)|)
    else [s[i]] + UpdateFrom(s, from, to, i + 1)
  }

  /** `updateIdPrefix(content, oldPrefix, newPrefix)` */
  function UpdateIdPrefix(content: string, from: string, to: string): string {
    UpdateFrom(content, from, to, 0)
  }

  /** Text with no id heading to rename comes back unchanged. */
  lemma {:induction false} NothingToRename(s: string, from: string, to: string, i: nat)
    requires i <= |s|
    requires forall j :: i <= j < |s| ==> !RenameAt(s, from, j)
    ensures UpdateFrom(s, from, to, i) == s[i..]
    decreases |s| - i
  {
    if i < |s| {
      NothingToRename(s, from, to, i + 1);
      SuffixCons(s, i);
    }
  }

  /** Renaming a prefix to itself changes nothing. */
  lemma {:induction false} RenameToSame(s: string, p: string, i: nat)
    requires i <= |s|
    ensures UpdateFrom(s, p, p, i) == s[i..]
    decreases |s| - i
  {
    if i < |s| {
      var pat := HeadingPattern(p);
      if RenameAt(s, p, i) {
        RenameToSame(s, p, i + |pat|);
        RenameKeeps(s, p, i, pat);
      } else {
        RenameToSame(s, p, i + 1);
        SuffixCons(s, i);
      }
    }
  }

  /** A match renamed to its own prefix is the text it matched. */
  lemma RenameKeeps(s: string, p: string, i: nat, pat: string)
    requires pat == HeadingPattern(p) && RenameAt(s, p, i)
    requires UpdateFrom(s, p, p, i + |pat|) == s[i + |pat|..]
    ensures UpdateFrom(s, p, p, i) == s[i..]
  {
    var n := |pat|;
    assert UpdateFrom(s, p, p, i) == pat + s[i + n..];
    assert OccursAt(s, pat, i);
    MatchThenRest(s, pat, i);
  }

  /** A text found at `i` followed by what comes after it is the suffix from `i`. */
  lemma MatchThenRest(s: string, pat: string, i: nat)
    requires OccursAt(s, pat, i)
    ensures pat + s[i + |pat|..] == s[i..]
  {
    SuffixSplit(s, i, |pat|);
  }

  /** A one-line id heading `## <from>-<digits><rest>` becomes
      `## <to>-<digits><rest>`. */
  lemma RenameHeading(from: string, to: string, digits: string, rest: string)
    requires digits != [] && AllDigits(digits)
    requires forall k :: 0 <= k < |rest| ==> !IsLineTerminator(rest[k])
    ensures UpdateIdPrefix("## " + from + "-" + digits + rest, from, to) == "## " + to + "-" + digits + rest
  {
    var pat := HeadingPattern(from);
    var s := pat + digits + rest;
    assert s == "## " + from + "-" + digits + rest;
    assert OccursAt(s, pat, 0) by {
      assert s[..|pat|] == pat;
    }
    assert s[|pat|] == digits[0];
    assert RenameAt(s, from, 0);
    forall j | |pat| <= j < |s| ensures !RenameAt(s, from, j) {
      assert !IsLineTerminator(s[j - 1]) by {
        if j - 1 < |pat| + |digits| {
          assert j - 1 == |pat| - 1 || s[j - 1] == digits[j - 1 - |pat|];
        } else {
          assert s[j - 1] == rest[j - 1 - |pat| - |digits|];
        }
      }
    }
    NothingToRename(s, from, to, |pat|);
    assert s[|pat|..] == digits + rest;
  }
}
