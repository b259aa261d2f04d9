/** The Ruby `String` and `Array` built-ins the spec class relies on:
    `strip`, `rstrip`, `each_line`, `split`, `join`, `start_with?`-style
    anchored prefixes, and `gsub(pattern, '')` with a literal pattern.
    Strings are sequences of characters, as Ruby strings are sequences of
    characters when indexed. */
module Strings {
  import opened Wrappers

  /** The regular-expression class `\s`: space, tab, line feed, vertical
      tab, form feed and carriage return. */
  predicate IsSpace(c: char) {
    c == ' ' || c == '\t' || c == '\n' || c == '\U{B}' || c == '\U{C}' || c == '\r'
  }

  /** What `strip` and `rstrip` remove: `\s` and the null character. */
  predicate IsStripChar(c: char) {
    IsSpace(c) || c == '\0'
  }

  predicate AllStripChars(s: string) {
    forall i :: 0 <= i < |s| ==> IsStripChar(s[i])
  }

  /** ActiveSupport's `blank?` on a string: nothing but white space. */
  predicate IsBlank(s: string) {
    forall i :: 0 <= i < |s| ==> IsSpace(s[i])
  }

  predicate StartsWith(s: string, prefix: string) {
    prefix <= s
  }

  /** A text that differs from `prefix` at some index does not start with it. */
  lemma DiffersAt(s: string, prefix: string, i: nat)
    requires i < |prefix| && i < |s| && s[i] != prefix[i]
    ensures !StartsWith(s, prefix)
  {
  }

  predicate EndsWithNewline(s: string) {
    |s| > 0 && s[|s| - 1] == '\n'
  }

  /** `pat` occurs in `s` at index `i`. */
  predicate OccursAt(s: string, pat: string, i: nat) {
    i + |pat| <= |s| && s[i..i + |pat|] == pat
  }

  predicate Contains(s: string, pat: string) {
    exists i: nat :: i <= |s| && OccursAt(s, pat, i)
  }

  lemma ContainsShift(c: char, s: string, pat: string)
    requires pat != [] && !OccursAt([c] + s, pat, 0)
    ensures Contains([c] + s, pat) <==> Contains(s, pat)
  {
    if Contains(s, pat) {
      var i: nat :| i <= |s| && OccursAt(s, pat, i);
      ConsSlice(c, s, i, |pat|);
      assert OccursAt([c] + s, pat, i + 1);
    }
    if Contains([c] + s, pat) {
      var i: nat :| i <= |[c] + s| && OccursAt([c] + s, pat, i);
      assert i > 0;
      var j: nat := i - 1;
      ConsSlice(c, s, j, |pat|);
      assert OccursAt(s, pat, j);
    }
  }

  /** A slice of `[c] + s` past `c` is a slice of `s`. */
  lemma ConsSlice(c: char, s: string, j: nat, n: nat)
    requires j + n <= |s|
    ensures ([c] + s)[j + 1..j + 1 + n] == s[j..j + n]
  {
    assert forall k :: 1 <= k <= |s| ==> ([c] + s)[k] == s[k - 1];
  }

  /** An occurrence past the first character is one in the tail. */
  lemma OccursShift(s: string, pat: string, j: nat)
    requires 0 < j && s != []
    ensures OccursAt(s, pat, j) <==> OccursAt(s[1..], pat, j - 1)
  {
    if j + |pat| <= |s| {
      assert s[j..j + |pat|] == s[1..][j - 1..j - 1 + |pat|];
    }
  }

  /** Number of leading `\s` characters: what a regular expression's
      greedy `\s*` consumes. */
  function SpanSpace(s: string): (n: nat)
    ensures n <= |s|
    ensures forall i :: 0 <= i < n ==> IsSpace(s[i])
    ensures n < |s| ==> !IsSpace(s[n])
  {
    if s != [] && IsSpace(s[0]) then 1 + SpanSpace(s[1..]) else 0
  }

  /** Number of leading characters before the first line feed: what `.*`
      consumes. */
  function SpanLine(s: string): (n: nat)
    ensures n <= |s|
    ensures forall i :: 0 <= i < n ==> s[i] != '\n'
    ensures n < |s| ==> s[n] == '\n'
  {
    if s != [] && s[0] != '\n' then 1 + SpanLine(s[1..]) else 0
  }

  /** The span of leading white space is fixed by the first other
      character. */
  lemma SpanSpaceIs(s: string, n: nat)
    requires n <= |s| && forall i :: 0 <= i < n ==> IsSpace(s[i])
    requires n < |s| ==> !IsSpace(s[n])
    ensures SpanSpace(s) == n
  {
  }

  /** The span of leading non-line-feed characters is fixed by where the
      first line feed is. */
  lemma SpanLineIs(s: string, n: nat)
    requires n <= |s| && forall i :: 0 <= i < n ==> s[i] != '\n'
    requires n < |s| ==> s[n] == '\n'
    ensures SpanLine(s) == n
  {
  }

  /** `lstrip`: the suffix left after the leading strip characters. */
  function LStrip(s: string): (r: string)
    ensures |r| <= |s| && r == s[|s| - |r|..]
    ensures AllStripChars(s[..|s| - |r|])
    ensures r == [] || !IsStripChar(r[0])
  {
    if s != [] && IsStripChar(s[0]) then
      var r := LStrip(s[1..]);
      LStripStep(s, r);
      r
    else s
  }

  lemma LStripStep(s: string, r: string)
    requires s != [] && IsStripChar(s[0])
    requires |r| <= |s| - 1 && r == s[1..][|s| - 1 - |r|..] && AllStripChars(s[1..][..|s| - 1 - |r|])
    ensures r == s[|s| - |r|..] && AllStripChars(s[..|s| - |r|])
  {
    var k := |s| - |r|;
    assert forall i :: 1 <= i < k ==> s[..k][i] == s[1..][..k - 1][i - 1];
  }

  /** `rstrip`: the prefix left after the trailing strip characters. */
  function RStrip(s: string): (r: string)
    ensures |r| <= |s| && r == s[..|r|]
    ensures AllStripChars(s[|r|..])
    ensures r == [] || !IsStripChar(r[|r| - 1])
  {
    if s != [] && IsStripChar(s[|s| - 1]) then RStrip(s[..|s| - 1]) else s
  }

  /** No strip character at either end. */
  predicate IsStripped(v: string) {
    v == [] || (!IsStripChar(v[0]) && !IsStripChar(v[|v| - 1]))
  }

  /** `strip`: `lstrip` then `rstrip`. */
  function Strip(s: string): (r: string)
    ensures |r| <= |s|
    ensures IsStripped(r)
  {
    RStrip(LStrip(s))
  }

  lemma StripOfSpaces(s: string)
    requires AllStripChars(s)
    ensures Strip(s) == []
  {
  }

  lemma {:induction false} LStripPadded(a: string, t: string)
    requires AllStripChars(a) && (t == [] || !IsStripChar(t[0]))
    ensures LStrip(a + t) == t
    decreases |a|
  {
    if a != [] {
      assert (a + t)[1..] == a[1..] + t;
      LStripPadded(a[1..], t);
    }
  }

  lemma {:induction false} RStripPadded(t: string, b: string)
    requires AllStripChars(b) && (t == [] || !IsStripChar(t[|t| - 1]))
    ensures RStrip(t + b) == t
    decreases |b|
  {
    if b == [] {
      assert t + b == t;
    } else {
      assert (t + b)[..|t + b| - 1] == t + b[..|b| - 1];
      RStripPadded(t, b[..|b| - 1]);
    }
  }

  /** Trailing strip characters make no difference to `rstrip`. */
  lemma RStripTrailing(t: string, w: string)
    requires AllStripChars(w)
    ensures RStrip(t + w) == RStrip(t)
  {
    var r := RStrip(t);
    var w0 := t[|r|..];
    assert t == r + w0;
    assert t + w == r + (w0 + w);
    StripCharsAppend(w0, w);
    RStripPadded(r, w0 + w);
  }

  lemma StripCharsAppend(a: string, b: string)
    requires AllStripChars(a) && AllStripChars(b)
    ensures AllStripChars(a + b)
  {
    assert forall i :: |a| <= i < |a + b| ==> (a + b)[i] == b[i - |a|];
  }

  /** `rstrip` only looks at the end: text in front of a part that keeps a
      character stays. */
  lemma RStripAppend(a: string, b: string)
    requires b != [] && !IsStripChar(b[0])
    ensures RStrip(a + b) == a + RStrip(b)
  {
    var r := RStrip(b);
    assert a + b == (a + r) + b[|r|..];
    RStripPadded(a + r, b[|r|..]);
  }

  /** `strip` gives back a stripped text from between any white space:
      what `strip` removes is exactly the padding. */
  lemma StripPadded(a: string, v: string, b: string)
    requires AllStripChars(a) && AllStripChars(b) && IsStripped(v)
    ensures Strip(a + v + b) == v
  {
    if v == [] {
      assert a + v + b == a + b;
      StripOfSpaces(a + b);
    } else {
      assert a + v + b == a + (v + b);
      LStripPadded(a, v + b);
      RStripPadded(v, b);
    }
  }

  /** Length of the first line of `s`, its line feed included. */
  function LineLength(s: string): (n: nat)
    requires s != []
    ensures 0 < n <= |s|
    ensures forall i :: 0 <= i < n - 1 ==> s[i] != '\n'
    ensures n < |s| ==> s[n - 1] == '\n'
  {
    if s[0] == '\n' || |s| == 1 then 1 else 1 + LineLength(s[1..])
  }

  /** One element of `each_line`: non-empty, and a line feed at most as its
      last character. */
  predicate IsLine(l: string) {
    l != [] && forall i :: 0 <= i < |l| - 1 ==> l[i] != '\n'
  }

  function Concat(ls: seq<string>): string {
    if ls == [] then [] else ls[0] + Concat(ls[1..])
  }

  /** `each_line`: the lines of `s`, each with its line feed; only the last
      may lack one. */
  function Lines(s: string): (ls: seq<string>)
    ensures Concat(ls) == s
    ensures forall i :: 0 <= i < |ls| ==> IsLine(ls[i])
    ensures forall i :: 0 <= i < |ls| - 1 ==> EndsWithNewline(ls[i])
    decreases |s|
  {
    if s == [] then []
    else
      var n := LineLength(s);
      var rest := Lines(s[n..]);
      LinesCons(s, n, rest);
      [s[..n]] + rest
  }

  /** The first line, then the lines of what follows it. */
  lemma LinesCons(s: string, n: nat, rest: seq<string>)
    requires 0 < n <= |s| && (forall i :: 0 <= i < n - 1 ==> s[i] != '\n') && (n < |s| ==> s[n - 1] == '\n')
    requires Concat(rest) == s[n..] && forall i :: 0 <= i < |rest| ==> IsLine(rest[i])
    requires forall i :: 0 <= i < |rest| - 1 ==> EndsWithNewline(rest[i])
    requires rest == [] <==> n == |s|
    ensures var ls := [s[..n]] + rest;
      Concat(ls) == s && (forall i :: 0 <= i < |ls| ==> IsLine(ls[i])) &&
      forall i :: 0 <= i < |ls| - 1 ==> EndsWithNewline(ls[i])
  {
    var ls := [s[..n]] + rest;
    assert ls[1..] == rest;
    assert s[..n] + s[n..] == s;
    assert forall i :: 1 <= i < |ls| ==> ls[i] == rest[i - 1];
  }

  /** `Array#join(sep)`. */
  function Join(ss: seq<string>, sep: string): string {
    if ss == [] then []
    else if |ss| == 1 then ss[0]
    else ss[0] + sep + Join(ss[1..], sep)
  }

  /** The joined text starts with the first element. */
  lemma JoinHead(ss: seq<string>, sep: string)
    requires ss != []
    ensures |Join(ss, sep)| >= |ss[0]| && Join(ss, sep)[..|ss[0]|] == ss[0]
  {
    if |ss| > 1 {
      assert Join(ss, sep) == ss[0] + (sep + Join(ss[1..], sep));
    }
  }

  /** First occurrence of `pat` in `s` at or after `from`. */
  function FindText(s: string, pat: string, from: nat): (r: Option<nat>)
    ensures r.Some? ==> from <= r.value && OccursAt(s, pat, r.value)
    ensures r.Some? ==> forall j :: from <= j < r.value ==> !OccursAt(s, pat, j)
    ensures r.None? ==> forall j :: from <= j ==> !OccursAt(s, pat, j)
    decreases |s| - from
  {
    if from + |pat| > |s| then None
    else if OccursAt(s, pat, from) then Some(from)
    else FindText(s, pat, from + 1)
  }

  /** A field that a separator closes at the first occurrence: no copy
      of `sep` starts inside `field` and runs into the closing `sep`. */
  predicate ClosedAtFirst(field: string, sep: string) {
    forall j :: 0 <= j < |field| ==> !OccursAt(field + sep, sep, j)
  }

  /** `split(sep)` with a literal separator, before Ruby drops the empty
      trailing fields: the fields are cut at the leftmost occurrences, so
      every field but the last ends where the next `sep` first begins. */
  function SplitAll(s: string, sep: string): (parts: seq<string>)
    requires sep != []
    ensures |parts| > 0
    ensures Join(parts, sep) == s
    ensures forall i :: 0 <= i < |parts| ==> !Contains(parts[i], sep)
    ensures forall i :: 0 <= i < |parts| - 1 ==> ClosedAtFirst(parts[i], sep)
    ensures FindText(s, sep, 0).None? <==> |parts| == 1
    ensures FindText(s, sep, 0).Some? ==> parts[0] == s[..FindText(s, sep, 0).value]
    decreases |s|
  {
    match FindText(s, sep, 0)
    case None => [s]
    case Some(k) =>
      var rest := SplitAll(s[k + |sep|..], sep);
      SplitCons(s, sep, k, rest);
      [s[..k]] + rest
  }

  /** The first field, cut at the first separator, then the fields of
      what follows that separator. */
  lemma SplitCons(s: string, sep: string, k: nat, rest: seq<string>)
    requires sep != [] && OccursAt(s, sep, k)
    requires forall j :: 0 <= j < k ==> !OccursAt(s, sep, j)
    requires |rest| > 0 && Join(rest, sep) == s[k + |sep|..]
    requires forall i :: 0 <= i < |rest| ==> !Contains(rest[i], sep)
    requires forall i :: 0 <= i < |rest| - 1 ==> ClosedAtFirst(rest[i], sep)
    ensures Join([s[..k]] + rest, sep) == s
    ensures forall i :: 0 <= i < |rest| + 1 ==> !Contains(([s[..k]] + rest)[i], sep)
    ensures forall i :: 0 <= i < |rest| ==> ClosedAtFirst(([s[..k]] + rest)[i], sep)
  {
    SplitConsJoin(s, sep, k, rest);
    FirstFieldFree(s, sep, k);
    FirstFieldClosed(s, sep, k);
    ConsFields(s[..k], rest, sep);
  }

  lemma SplitConsJoin(s: string, sep: string, k: nat, rest: seq<string>)
    requires OccursAt(s, sep, k) && |rest| > 0 && Join(rest, sep) == s[k + |sep|..]
    ensures Join([s[..k]] + rest, sep) == s
  {
    var parts := [s[..k]] + rest;
    assert s == s[..k] + sep + s[k + |sep|..] by {
      assert s[k..k + |sep|] == sep;
    }
    assert parts[1..] == rest;
  }

  /** Field properties of `[head] + rest` from those of its parts. */
  lemma ConsFields(head: string, rest: seq<string>, sep: string)
    requires !Contains(head, sep) && (|rest| > 0 ==> ClosedAtFirst(head, sep))
    requires forall i :: 0 <= i < |rest| ==> !Contains(rest[i], sep)
    requires forall i :: 0 <= i < |rest| - 1 ==> ClosedAtFirst(rest[i], sep)
    ensures forall i :: 0 <= i < |rest| + 1 ==> !Contains(([head] + rest)[i], sep)
    ensures forall i :: 0 <= i < |rest| ==> ClosedAtFirst(([head] + rest)[i], sep)
  {
    var parts := [head] + rest;
    forall i | 1 <= i < |rest| + 1 ensures parts[i] == rest[i - 1] { }
  }

  lemma FirstFieldFree(s: string, sep: string, k: nat)
    requires sep != [] && k <= |s| && forall j :: 0 <= j < k ==> !OccursAt(s, sep, j)
    ensures !Contains(s[..k], sep)
  {
    var head := s[..k];
    forall j: nat | OccursAt(head, sep, j) ensures false {
      assert s[j..j + |sep|] == head[j..j + |sep|];
      assert OccursAt(s, sep, j);
    }
  }

  lemma FirstFieldClosed(s: string, sep: string, k: nat)
    requires OccursAt(s, sep, k) && forall j :: 0 <= j < k ==> !OccursAt(s, sep, j)
    ensures ClosedAtFirst(s[..k], sep)
  {
    var t := s[..k] + sep;
    assert t == s[..k + |sep|];
    forall j | 0 <= j < k && OccursAt(t, sep, j) ensures false {
      assert t[j..j + |sep|] == s[j..j + |sep|];
      assert OccursAt(s, sep, j);
    }
  }

  /** Ruby's `split` with no limit suppresses trailing empty fields. */
  function DropTrailingEmpty(ss: seq<string>): (r: seq<string>)
    ensures |r| <= |ss| && r == ss[..|r|]
    ensures forall i :: |r| <= i < |ss| ==> ss[i] == []
    ensures r == [] || r[|r| - 1] != []
  {
    if ss != [] && ss[|ss| - 1] == [] then DropTrailingEmpty(ss[..|ss| - 1]) else ss
  }

  /** `String#split(sep)` for a literal, non-empty separator. */
  function Split(s: string, sep: string): seq<string>
    requires sep != []
  {
    DropTrailingEmpty(SplitAll(s, sep))
  }

  /** Splitting and joining again gives back the text, up to the trailing
      separators whose empty fields `split` drops. */
  lemma {:induction false} JoinSplit(s: string, sep: string)
    requires sep != []
    ensures exists k: nat :: s == Join(Split(s, sep), sep) + Repeat(sep, k)
  {
    var all := SplitAll(s, sep);
    var kept := Split(s, sep);
    JoinDropped(all, kept, sep);
  }

  function Repeat(sep: string, k: nat): string {
    if k == 0 then [] else sep + Repeat(sep, k - 1)
  }

  lemma {:induction false} JoinDropped(all: seq<string>, kept: seq<string>, sep: string)
    requires |kept| <= |all| && kept == all[..|kept|]
    requires forall i :: |kept| <= i < |all| ==> all[i] == []
    requires |all| > 0
    ensures exists k: nat :: Join(all, sep) == Join(kept, sep) + Repeat(sep, k)
    decreases |all|
  {
    if |kept| == |all| {
      assert kept == all;
      assert Join(all, sep) == Join(kept, sep) + Repeat(sep, 0);
    } else if |all| == 1 {
      assert kept == [] && all == [[]];
      assert Join(all, sep) == Join(kept, sep) + Repeat(sep, 0);
    } else {
      JoinSnoc(all[..|all| - 1], all[|all| - 1], sep);
      assert all[..|all| - 1] + [all[|all| - 1]] == all;
      var k: nat :| Join(all[..|all| - 1], sep) == Join(kept, sep) + Repeat(sep, k) by {
        assert kept == all[..|all| - 1][..|kept|];
        JoinDropped(all[..|all| - 1], kept, sep);
      }
      RepeatSnoc(sep, k);
      assert Join(all, sep) == Join(kept, sep) + Repeat(sep, k + 1);
    }
  }

  lemma {:induction false} JoinSnoc(ss: seq<string>, x: string, sep: string)
    requires ss != []
    ensures Join(ss + [x], sep) == Join(ss, sep) + sep + x
    decreases |ss|
  {
    if |ss| == 1 {
      assert (ss + [x])[1..] == [x];
    } else {
      assert (ss + [x])[1..] == ss[1..] + [x];
      JoinSnoc(ss[1..], x, sep);
    }
  }

  lemma {:induction false} RepeatSnoc(sep: string, k: nat)
    ensures Repeat(sep, k) + sep == Repeat(sep, k + 1)
  {
    if k > 0 {
      RepeatSnoc(sep, k - 1);
    }
  }

  /** Splitting the empty text gives no fields at all. */
  lemma SplitEmpty(sep: string)
    requires sep != []
    ensures Split([], sep) == []
  {
    assert SplitAll([], sep) == [[]];
  }

  /** `gsub(pat, '')` with a literal pattern: every leftmost,
      non-overlapping occurrence removed. The result differs from the text
      exactly when the pattern is non-empty and occurs in it. */
  function DeleteAll(s: string, pat: string): (r: string)
    ensures |r| <= |s|
    ensures r != s <==> pat != [] && Contains(s, pat)
    decreases |s|
  {
    if pat == [] || |s| < |pat| then
      assert !Contains(s, pat) || pat == [];
      s
    else if s[..|pat|] == pat then
      assert OccursAt(s, pat, 0);
      DeleteAll(s[|pat|..], pat)
    else
      var tail := DeleteAll(s[1..], pat);
      assert s == [s[0]] + s[1..];
      ContainsShift(s[0], s[1..], pat);
      [s[0]] + tail
  }
}
