/** `RPMSpec#to_string`: the document is patched in place, not printed
    afresh. The Version and Release lines are substituted, the text after
    the first `%changelog` line replaced by the entries, the span of
    Requires/BuildRequires lines replaced by the rendered lists, and the new
    file lines inserted before the end of the main `%files` section. Where
    Ruby would raise on `nil`, the result is the error of that point. */
module Render {
  import opened Wrappers
  import opened Strings
  import opened Matchers
  import opened SpecData

  /** The points where `to_string` raises, in the order it reaches them. */
  datatype RenderError =
    | NoChangelogLine            // contents.index "\n", nil
    | ChangelogLineUnterminated  // nil + 1
    | NoRequiresLine             // nil < brp
    | NoBuildRequiresLine        // rp < nil
    | NoTopRequiresLine          // nil > lbrp
    | NoTopBuildRequiresLine     // lrp > nil
    | DepsLineUnterminated       // tp...nil
    | RequiresUnset              // nil.collect
    | BuildRequiresUnset         // nil.collect
    | NoFilesLine                // nil + 1
    | NoFilesEnd                 // nil - 1
    | NewFilesUnset              // nil.join

  function Found<T>(o: Option<T>, e: RenderError): (r: Result<T, RenderError>)
    ensures r.Ok? <==> o.Some?
  {
    match o
    case Some(v) => Ok(v)
    case None => Err(e)
  }

  // ---------------------------------------------------------------------
  // Searching the whole document

  /** `index(regexp, from)`: the first position at or after `from` where
      the pattern matches. */
  function IndexOf(s: string, mk: Marker, from: nat): (r: Option<nat>)
    ensures r.Some? ==> from <= r.value && MarkerAt(s, r.value, mk)
    ensures r.Some? ==> forall p :: from <= p < r.value ==> !MarkerAt(s, p, mk)
    ensures r.None? ==> forall p :: from <= p ==> !MarkerAt(s, p, mk)
    decreases |s| + 1 - from
  {
    if from > |s| then None
    else if MarkerAt(s, from, mk) then Some(from)
    else IndexOf(s, mk, from + 1)
  }

  /** The last position at or before `limit` where the pattern matches. */
  function RIndexOf(s: string, mk: Marker, limit: nat): (r: Option<nat>)
    ensures r.Some? ==> r.value <= limit && MarkerAt(s, r.value, mk)
    ensures r.Some? ==> forall p :: r.value < p <= limit ==> !MarkerAt(s, p, mk)
    ensures r.None? ==> forall p: nat :: p <= limit ==> !MarkerAt(s, p, mk)
  {
    if MarkerAt(s, limit, mk) then Some(limit)
    else if limit == 0 then None
    else RIndexOf(s, mk, limit - 1)
  }

  /** Where `rindex` starts looking back from in a string of length `n`: a
      negative position counts from the end, and a position past the end
      is the end; a result below zero means there is nowhere to look. */
  function RStart(n: nat, pos: int): (q: int)
    ensures q <= n
    ensures 0 <= pos ==> q == if pos < n then pos else n
    ensures pos < 0 ==> q == pos + n
  {
    var p := if pos < 0 then pos + n else pos;
    if p > n then n else p
  }

  /** `rindex(regexp, pos)`: the last match at or before the start
      position, or none. */
  function RIndex(s: string, mk: Marker, pos: int): (r: Option<nat>)
    ensures RStart(|s|, pos) < 0 ==> r.None?
    ensures r.Some? ==> r.value <= RStart(|s|, pos) && MarkerAt(s, r.value, mk)
    ensures r.Some? ==> forall p :: r.value < p <= RStart(|s|, pos) ==> !MarkerAt(s, p, mk)
    ensures r.None? ==> forall p: nat :: p <= RStart(|s|, pos) ==> !MarkerAt(s, p, mk)
  {
    var q := RStart(|s|, pos);
    if q < 0 then None else RIndexOf(s, mk, q)
  }

  // ---------------------------------------------------------------------
  // gsub! on Version and Release

  /** `gsub!(/^Kw\s*(.*)$/, repl)` on the text `t`, where `atStart` says
      whether `^` holds at its first character. A match takes the keyword,
      then every white-space character (line feeds included), then the rest
      of that line. */
  function SubstituteFrom(t: string, atStart: bool, kw: string, repl: string): string
    decreases |t|
  {
    if t == [] then []
    else if atStart && kw != [] && StartsWith(t, kw) then
      var a := t[|kw|..];
      var n := SpanSpace(a);
      var m := SpanLine(a[n..]);
      repl + SubstituteFrom(a[n..][m..], false, kw, repl)
    else [t[0]] + SubstituteFrom(t[1..], t[0] == '\n', kw, repl)
  }

  /** `contents.gsub!(SPEC_VERSION_MATCHER, "Version: #{value}")` and its
      Release twin. */
  function SubstituteField(s: string, mk: Marker, value: string): string {
    SubstituteFrom(s, true, Keyword(mk), Keyword(mk) + " " + value)
  }

  /** The contents after both substitutions; `nil` interpolates as the
      empty text. */
  function SubstitutedContents(m: Metadata): string {
    var c := SubstituteField(m.contents, VersionLine, m.version.GetOr([]));
    SubstituteField(c, ReleaseLine, m.release.GetOr([]))
  }

  /** A line of `kw` whose value is on the line itself. */
  predicate KeepsValueOnLine(l: string, kw: string) {
    StartsWith(l, kw) ==> !IsBlank(l[|kw|..])
  }

  /** Each line of `kw` replaced by `repl` (keeping its line feed). */
  function ReplaceLines(ls: seq<string>, kw: string, repl: string): (r: seq<string>)
    ensures |r| == |ls|
  {
    if ls == [] then []
    else
      var l := ls[0];
      [if StartsWith(l, kw) then repl + (if EndsWithNewline(l) then "\n" else []) else l]
        + ReplaceLines(ls[1..], kw, repl)
  }

  lemma {:induction false} SpanSpaceAppend(x: string, y: string)
    requires SpanSpace(x) < |x|
    ensures SpanSpace(x + y) == SpanSpace(x)
  {
    var n := SpanSpace(x);
    assert (x + y)[n] == x[n];
    assert forall i :: 0 <= i < n ==> (x + y)[i] == x[i];
  }

  lemma {:induction false} SpanLineAppend(x: string, y: string)
    requires SpanLine(x) < |x|
    ensures SpanLine(x + y) == SpanLine(x)
  {
    var n := SpanLine(x);
    assert (x + y)[n] == x[n];
    assert forall i :: 0 <= i < n ==> (x + y)[i] == x[i];
  }

  /** Where no match starts, the first character is copied. */
  lemma CopyFirst(t: string, atStart: bool, kw: string, repl: string)
    requires t != [] && !(atStart && kw != [] && StartsWith(t, kw))
    ensures SubstituteFrom(t, atStart, kw, repl) == [t[0]] + SubstituteFrom(t[1..], t[0] == '\n', kw, repl)
  {
  }

  /** A piece of a line that does not start a match here is copied
      character by character; `^` next holds after its line feed. */
  lemma {:induction false} CopyRest(u: string, rest: string, atStart: bool, kw: string, repl: string)
    requires u != [] && forall i :: 0 <= i < |u| - 1 ==> u[i] != '\n'
    requires EndsWithNewline(u) || rest == []
    requires !(atStart && kw != [] && StartsWith(u + rest, kw))
    ensures SubstituteFrom(u + rest, atStart, kw, repl) == u + SubstituteFrom(rest, EndsWithNewline(u), kw, repl)
    decreases |u|
  {
    var t := u + rest;
    assert t[0] == u[0] && t[1..] == u[1..] + rest;
    CopyFirst(t, atStart, kw, repl);
    if |u| == 1 {
      assert u[1..] + rest == rest && u == [u[0]];
      assert EndsWithNewline(u) == (u[0] == '\n');
    } else {
      assert u[0] != '\n';
      assert EndsWithNewline(u[1..]) == EndsWithNewline(u);
      CopyRest(u[1..], rest, false, kw, repl);
      assert u == [u[0]] + u[1..];
    }
  }

  /** A keyword without line feeds cannot start across the end of a line
      that does not start with it. */
  lemma NoMatchAcross(l: string, rest: string, kw: string)
    requires IsLine(l) && (EndsWithNewline(l) || rest == [])
    requires forall i :: 0 <= i < |kw| ==> kw[i] != '\n'
    requires !StartsWith(l, kw)
    ensures !StartsWith(l + rest, kw)
  {
    if |l| >= |kw| {
      assert (l + rest)[..|kw|] == l[..|kw|];
    } else {
      assert (l + rest)[|l| - 1] == l[|l| - 1];
    }
  }

  /** A line that is not a `kw` line is copied. */
  lemma CopyLine(l: string, rest: string, kw: string, repl: string)
    requires IsLine(l) && (EndsWithNewline(l) || rest == [])
    requires forall i :: 0 <= i < |kw| ==> kw[i] != '\n'
    requires !StartsWith(l, kw)
    ensures SubstituteFrom(l + rest, true, kw, repl) == l + SubstituteFrom(rest, EndsWithNewline(l), kw, repl)
  {
    NoMatchAcross(l, rest, kw);
    CopyRest(l, rest, true, kw, repl);
  }

  /** `(.*)$` stops at the line feed that ends the line. */
  lemma MatchTail(w: string, rest: string)
    requires w != [] && forall i :: 0 <= i < |w| - 1 ==> w[i] != '\n'
    requires EndsWithNewline(w) || rest == []
    ensures (w + rest)[SpanLine(w + rest)..] == if EndsWithNewline(w) then "\n" + rest else []
  {
    var k := |w| - 1;
    if EndsWithNewline(w) {
      assert SpanLine(w) == k;
      SpanLineAppend(w, rest);
      assert (w + rest)[k..] == w[k..] + rest;
      assert w[k..] == "\n";
    } else {
      assert w + rest == w;
    }
  }

  /** One match: the keyword, the white space after it, the rest of the
      line. */
  lemma MatchHere(t: string, kw: string, repl: string)
    requires t != [] && kw != [] && StartsWith(t, kw)
    ensures var a := t[|kw|..];
      SubstituteFrom(t, true, kw, repl) ==
      repl + SubstituteFrom(a[SpanSpace(a)..][SpanLine(a[SpanSpace(a)..])..], false, kw, repl)
  {
  }

  /** After a line feed, `^` holds again. */
  lemma AfterLineFeed(rest: string, kw: string, repl: string)
    ensures SubstituteFrom("\n" + rest, false, kw, repl) == "\n" + SubstituteFrom(rest, true, kw, repl)
  {
    assert ("\n" + rest)[1..] == rest;
  }

  /** The white space after the keyword ends on the line itself. */
  lemma ValueOnLine(l: string, rest: string, kw: string)
    requires kw != [] && StartsWith(l, kw) && !IsBlank(l[|kw|..])
    ensures StartsWith(l + rest, kw)
    ensures var v, a := l[|kw|..], (l + rest)[|kw|..];
      SpanSpace(v) < |v| && a[SpanSpace(a)..] == v[SpanSpace(v)..] + rest
  {
    var t := l + rest;
    var v := l[|kw|..];
    var a := t[|kw|..];
    assert StartsWith(t, kw) && a == v + rest by {
      assert t[..|kw|] == l[..|kw|];
    }
    var n := SpanSpace(a);
    assert n == SpanSpace(v) && n < |v| by {
      var i :| 0 <= i < |v| && !IsSpace(v[i]);
      SpanSpaceAppend(v, rest);
    }
  }

  /** A `kw` line with its value on the line is matched up to its line
      feed. */
  lemma MatchLine(l: string, rest: string, kw: string, repl: string)
    requires IsLine(l) && (EndsWithNewline(l) || rest == [])
    requires kw != [] && StartsWith(l, kw) && !IsBlank(l[|kw|..])
    ensures SubstituteFrom(l + rest, true, kw, repl) ==
      repl + SubstituteFrom(if EndsWithNewline(l) then "\n" + rest else [], false, kw, repl)
  {
    var t := l + rest;
    var v := l[|kw|..];
    ValueOnLine(l, rest, kw);
    MatchHere(t, kw, repl);
    var w := v[SpanSpace(v)..];
    assert EndsWithNewline(w) == EndsWithNewline(l);
    MatchTail(w, rest);
  }

  /** A `kw` line with its value on the line becomes `repl`, keeping its
      line feed. */
  lemma ReplaceLine(l: string, rest: string, kw: string, repl: string)
    requires IsLine(l) && (EndsWithNewline(l) || rest == [])
    requires kw != [] && StartsWith(l, kw) && !IsBlank(l[|kw|..])
    ensures SubstituteFrom(l + rest, true, kw, repl) ==
      repl + (if EndsWithNewline(l) then "\n" else []) + SubstituteFrom(rest, EndsWithNewline(l), kw, repl)
  {
    if EndsWithNewline(l) {
      MatchLine(l, rest, kw, repl);
      AfterLineFeed(rest, kw, repl);
    } else {
      assert rest == [] && l + rest == l;
      MatchLine(l, [], kw, repl);
    }
  }

  /** Line by line: when every `kw` line has its value on the line, the
      substitution replaces exactly those lines and copies the rest. */
  lemma {:induction false} SubstituteLines(ls: seq<string>, kw: string, repl: string)
    requires forall i :: 0 <= i < |ls| ==> IsLine(ls[i])
    requires forall i :: 0 <= i < |ls| - 1 ==> EndsWithNewline(ls[i])
    requires forall i :: 0 <= i < |ls| ==> KeepsValueOnLine(ls[i], kw)
    requires kw != [] && forall i :: 0 <= i < |kw| ==> kw[i] != '\n'
    ensures SubstituteFrom(Concat(ls), true, kw, repl) == Concat(ReplaceLines(ls, kw, repl))
  {
    if ls != [] {
      var l, rest := ls[0], Concat(ls[1..]);
      assert Concat(ls) == l + rest;
      SubstituteLines(ls[1..], kw, repl);
      if |ls| == 1 {
        assert rest == [];
        assert ReplaceLines(ls[1..], kw, repl) == [];
      }
      if EndsWithNewline(l) || |ls| == 1 {
        if StartsWith(l, kw) {
          ReplaceLine(l, rest, kw, repl);
        } else {
          CopyLine(l, rest, kw, repl);
        }
        if !EndsWithNewline(l) {
          assert SubstituteFrom(rest, false, kw, repl) == [];
        }
      }
    }
  }

  /** `gsub!` on a document whose Version (or Release) lines all carry a
      value: every such line becomes `Version: value`, the others stay. */
  lemma SubstituteFieldLines(s: string, mk: Marker, value: string)
    requires mk == VersionLine || mk == ReleaseLine
    requires forall i :: 0 <= i < |Lines(s)| ==> KeepsValueOnLine(Lines(s)[i], Keyword(mk))
    ensures SubstituteField(s, mk, value) ==
      Concat(ReplaceLines(Lines(s), Keyword(mk), Keyword(mk) + " " + value))
  {
    SubstituteLines(Lines(s), Keyword(mk), Keyword(mk) + " " + value);
  }

  /** A Version line without a value: `\s*` crosses the line feed, so the
      substitution swallows the whole next line (one that does not start
      with white space), e.g. the Release line. */
  lemma SubstituteSwallows(next: string, value: string)
    requires next != [] && !IsSpace(next[0]) && forall i :: 0 <= i < |next| ==> next[i] != '\n'
    ensures SubstituteField(Keyword(VersionLine) + "\n" + next + "\n", VersionLine, value) ==
      Keyword(VersionLine) + " " + value + "\n"
  {
    var kw := Keyword(VersionLine);
    var t, repl := kw + "\n" + next + "\n", kw + " " + value;
    SwallowSpans(kw, next);
    MatchHere(t, kw, repl);
    LineFeedCopied(kw, repl);
  }

  /** The pieces of that text: the keyword, the line feed `\s*` takes, and
      the next line, which `.*` takes. */
  lemma SwallowSpans(kw: string, next: string)
    requires kw != [] && next != [] && !IsSpace(next[0]) && forall i :: 0 <= i < |next| ==> next[i] != '\n'
    ensures var t := kw + "\n" + next + "\n";
      var a := t[|kw|..];
      StartsWith(t, kw) && SpanSpace(a) == 1 && a[1..][SpanLine(a[1..])..] == "\n"
  {
    var t := kw + "\n" + next + "\n";
    var a := "\n" + next + "\n";
    assert t[..|kw|] == kw && t[|kw|..] == a;
    assert IsSpace(a[0]) && a[1] == next[0];
    SpanSpaceIs(a, 1);
    var b := next + "\n";
    assert a[1..] == b && b[|next|..] == "\n";
    assert forall i :: 0 <= i < |next| ==> b[i] == next[i];
    SpanLineIs(b, |next|);
  }

  lemma LineFeedCopied(kw: string, repl: string)
    ensures SubstituteFrom("\n", false, kw, repl) == "\n"
  {
    assert "\n"[1..] == [];
  }

  // ---------------------------------------------------------------------
  // The changelog

  /** `contents[0...cpn + 1] + entries.join("\n\n")`, where `cp` is the
      first `%changelog` line and `cpn` the first line feed from there. */
  function ReplaceChangelog(c: string, entries: seq<string>): Result<string, RenderError> {
    var cp :- Found(IndexOf(c, ChangelogLine, 0), NoChangelogLine);
    var cpn :- Found(FindText(c, "\n", cp), ChangelogLineUnterminated);
    Ok(c[..cpn + 1] + Join(entries, "\n\n"))
  }

  /** No line feed starts inside a copy of a keyword. */
  lemma NoLineFeedUnder(c: string, cp: nat, kw: string)
    requires cp + |kw| <= |c| && c[cp..cp + |kw|] == kw && forall i :: 0 <= i < |kw| ==> kw[i] != '\n'
    ensures forall j :: cp <= j < cp + |kw| ==> !OccursAt(c, "\n", j)
  {
    forall j: nat ensures !(cp <= j < cp + |kw| && OccursAt(c, "\n", j)) {
      if cp <= j < cp + |kw| {
        assert c[j..j + 1][0] == c[j] == c[cp..cp + |kw|][j - cp];
      }
    }
  }

  /** The text up to and including the first `%changelog` line is kept and
      everything after it replaced by the entries; the rewrite fails when
      there is no such line or it is the last line without a line feed. */
  lemma ReplaceChangelogResult(c: string, entries: seq<string>)
    ensures IndexOf(c, ChangelogLine, 0).None? ==> ReplaceChangelog(c, entries) == Err(NoChangelogLine)
    ensures IndexOf(c, ChangelogLine, 0).Some? ==>
      var cp := IndexOf(c, ChangelogLine, 0).value;
      var k := cp + |Keyword(ChangelogLine)|;
      if k < |c| then c[k] == '\n' && ReplaceChangelog(c, entries) == Ok(c[..k + 1] + Join(entries, "\n\n"))
      else ReplaceChangelog(c, entries) == Err(ChangelogLineUnterminated)
  {
    if IndexOf(c, ChangelogLine, 0).Some? {
      ChangelogLineEnd(c, IndexOf(c, ChangelogLine, 0).value);
    }
  }

  /** A `%changelog` line ends right after its keyword: at a line feed or
      at the end of the text. */
  lemma ChangelogLineEnd(c: string, cp: nat)
    requires MarkerAt(c, cp, ChangelogLine)
    ensures var k := cp + |Keyword(ChangelogLine)|;
      (k < |c| ==> c[k] == '\n' && FindText(c, "\n", cp) == Some(k)) &&
      (k >= |c| ==> FindText(c, "\n", cp) == None)
  {
    var kw := Keyword(ChangelogLine);
    var k := cp + |kw|;
    assert c[cp..k] == c[cp..][..|kw|] == kw;
    NoLineFeedUnder(c, cp, kw);
    if k < |c| {
      assert c[cp..][|kw|] == c[k];
      assert c[k..k + 1][0] == c[k];
      assert OccursAt(c, "\n", k);
    }
  }

  // ---------------------------------------------------------------------
  // Requires and BuildRequires

  /** `rs.collect { |r| "#{prefix}#{r}" }`. */
  function Prefixed(prefix: string, rs: seq<string>): (r: seq<string>)
    ensures |r| == |rs| && forall i :: 0 <= i < |rs| ==> r[i] == prefix + rs[i]
  {
    if rs == [] then [] else [prefix + rs[0]] + Prefixed(prefix, rs[1..])
  }

  /** The requirement lines inserted in place of the old ones. */
  function DepLines(reqs: seq<string>, breqs: seq<string>): string {
    Join(Prefixed("Requires: ", reqs) + Prefixed("BuildRequires: ", breqs), "\n")
  }

  /** A Requires or BuildRequires line starts at `p`. */
  predicate DepLineAt(c: string, p: nat) {
    MarkerAt(c, p, RequiresLine) || MarkerAt(c, p, BuildRequiresLine)
  }

  /** Where the backward searches start: the first `%package` line, or the
      last character (`rindex` from -1). */
  function TopLimit(c: string): int {
    match IndexOf(c, PackageLine, 0)
    case Some(pp) => pp
    case None => |c| - 1
  }

  /** Lines 226-228: `tp`, the earlier of the first Requires and the first
      BuildRequires line. */
  function FirstDepLine(c: string): Result<nat, RenderError> {
    var rp :- Found(IndexOf(c, RequiresLine, 0), NoRequiresLine);
    var brp :- Found(IndexOf(c, BuildRequiresLine, 0), NoBuildRequiresLine);
    Ok(if rp < brp then rp else brp)
  }

  /** Lines 230-235: `ltp`, the later of the last Requires and the last
      BuildRequires line at or before the first `%package` line. */
  function LastDepLine(c: string): Result<nat, RenderError> {
    var pp: int := match IndexOf(c, PackageLine, 0) case Some(p) => p case None => -1;
    var lrp :- Found(RIndex(c, RequiresLine, pp), NoTopRequiresLine);
    var lbrp :- Found(RIndex(c, BuildRequiresLine, pp), NoTopBuildRequiresLine);
    Ok(if lrp > lbrp then lrp else lbrp)
  }

  /** Lines 226-237: the span `tp...ltpn` that `slice!` removes. */
  function DepSpan(c: string): Result<(nat, nat), RenderError> {
    var tp :- FirstDepLine(c);
    var ltp :- LastDepLine(c);
    var ltpn :- Found(FindText(c, "\n", ltp), DepsLineUnterminated);
    Ok((tp, ltpn))
  }

  /** Lines 239-242: the span replaced by the rendered lists. */
  function SpliceDeps(c: string, reqs: Option<seq<string>>, breqs: Option<seq<string>>): Result<string, RenderError> {
    var span :- DepSpan(c);
    var rs :- Found(reqs, RequiresUnset);
    var bs :- Found(breqs, BuildRequiresUnset);
    Ok(c[..span.0] + DepLines(rs, bs) + c[span.1..])
  }

  /** `tp` is the first Requires/BuildRequires line. */
  predicate FirstDepLineAt(c: string, tp: nat) {
    DepLineAt(c, tp) && forall p: nat :: p < tp ==> !DepLineAt(c, p)
  }

  /** `l` is the last Requires/BuildRequires line starting no later than
      `TopLimit(c)`. */
  predicate LastDepLineAt(c: string, l: nat) {
    DepLineAt(c, l) && l <= TopLimit(c) && forall p: nat :: l < p <= TopLimit(c) ==> !DepLineAt(c, p)
  }

  /** `e` is the line feed that ends the line holding position `l`. */
  predicate LineEndOf(c: string, l: nat, e: nat) {
    l <= e < |c| && c[e] == '\n' && forall j :: l <= j < e ==> c[j] != '\n'
  }

  lemma FirstDepLineIs(c: string)
    ensures FirstDepLine(c).Ok? ==> FirstDepLineAt(c, FirstDepLine(c).value)
  {
  }

  lemma LastDepLineIs(c: string)
    ensures LastDepLine(c).Ok? ==> LastDepLineAt(c, LastDepLine(c).value)
  {
    if LastDepLine(c).Ok? {
      var t := TopLimit(c);
      RIndexTop(c, RequiresLine);
      RIndexTop(c, BuildRequiresLine);
      var lrp, lbrp := RIndexOf(c, RequiresLine, t).value, RIndexOf(c, BuildRequiresLine, t).value;
      assert LastDepLine(c).value == if lrp > lbrp then lrp else lbrp;
      LastOfTwo(c, t, lrp, lbrp);
    }
  }

  /** Both backward searches of `LastDepLine` run from `TopLimit(c)`. */
  lemma RIndexTop(c: string, mk: Marker)
    ensures var pp: int := match IndexOf(c, PackageLine, 0) case Some(p) => p case None => -1;
      RIndex(c, mk, pp) == if TopLimit(c) < 0 then None else RIndexOf(c, mk, TopLimit(c))
  {
  }

  /** `l` is the last match of `mk` at or before `t`. */
  predicate LastMarkerAt(c: string, mk: Marker, l: nat, t: nat) {
    l <= t && MarkerAt(c, l, mk) && forall p :: l < p <= t ==> !MarkerAt(c, p, mk)
  }

  /** The later of the last Requires and the last BuildRequires line is the
      last line of either kind. */
  lemma LastOfTwo(c: string, t: nat, lrp: nat, lbrp: nat)
    requires t == TopLimit(c)
    requires LastMarkerAt(c, RequiresLine, lrp, t) && LastMarkerAt(c, BuildRequiresLine, lbrp, t)
    ensures LastDepLineAt(c, if lrp > lbrp then lrp else lbrp)
  {
  }

  lemma FindLineEnd(c: string, l: nat)
    ensures FindText(c, "\n", l).Some? ==> LineEndOf(c, l, FindText(c, "\n", l).value)
  {
    if FindText(c, "\n", l).Some? {
      var e := FindText(c, "\n", l).value;
      forall j | l <= j < e ensures c[j] != '\n' {
        assert !OccursAt(c, "\n", j);
      }
      assert OccursAt(c, "\n", e);
    }
  }

  /** The span `slice!` removes starts at the first Requires/BuildRequires
      line and ends at the line feed of the last one before the first
      `%package`. */
  lemma DepSpanShape(c: string)
    ensures DepSpan(c).Ok? ==>
      FirstDepLine(c).Ok? && LastDepLine(c).Ok? &&
      DepSpan(c).value.0 == FirstDepLine(c).value &&
      FirstDepLineAt(c, FirstDepLine(c).value) && LastDepLineAt(c, LastDepLine(c).value) &&
      FirstDepLine(c).value <= LastDepLine(c).value &&
      LineEndOf(c, LastDepLine(c).value, DepSpan(c).value.1)
  {
    if DepSpan(c).Ok? {
      var tp, ltp := FirstDepLine(c).value, LastDepLine(c).value;
      assert DepSpan(c).value == (tp, FindText(c, "\n", ltp).value);
      FirstDepLineIs(c);
      LastDepLineIs(c);
      FindLineEnd(c, ltp);
    }
  }

  /** When the splice succeeds, the text before the first Requires or
      BuildRequires line is kept, then come the rendered lists, then the
      text from the line feed that ends the last such line before the
      first `%package`. */
  lemma SpliceDepsShape(c: string, reqs: Option<seq<string>>, breqs: Option<seq<string>>)
    ensures SpliceDeps(c, reqs, breqs).Ok? ==>
      reqs.Some? && breqs.Some? && DepSpan(c).Ok? &&
      var (tp, e) := DepSpan(c).value;
      FirstDepLineAt(c, tp) && LastDepLine(c).Ok? && tp <= LastDepLine(c).value &&
      LineEndOf(c, LastDepLine(c).value, e) &&
      SpliceDeps(c, reqs, breqs).value[..tp] == c[..tp] &&
      SpliceDeps(c, reqs, breqs).value == c[..tp] + DepLines(reqs.value, breqs.value) + c[e..]
  {
    SpliceDepsOk(c, reqs, breqs);
    if SpliceDeps(c, reqs, breqs).Ok? {
      DepSpanShape(c);
      var (tp, e) := DepSpan(c).value;
      KeepsPrefix(c, tp, DepLines(reqs.value, breqs.value), e);
    }
  }

  /** A successful splice found the span and both lists. */
  lemma SpliceDepsOk(c: string, reqs: Option<seq<string>>, breqs: Option<seq<string>>)
    ensures SpliceDeps(c, reqs, breqs).Ok? ==>
      reqs.Some? && breqs.Some? && DepSpan(c).Ok? && DepSpan(c).value.0 <= |c| && DepSpan(c).value.1 <= |c| &&
      SpliceDeps(c, reqs, breqs).value ==
        c[..DepSpan(c).value.0] + DepLines(reqs.value, breqs.value) + c[DepSpan(c).value.1..]
  {
  }

  /** Text put after position `tp` leaves the prefix before it. */
  lemma KeepsPrefix(c: string, tp: nat, x: string, e: nat)
    requires tp <= e <= |c|
    ensures (c[..tp] + x + c[e..])[..tp] == c[..tp]
  {
  }

  /** The splice needs a Requires and a BuildRequires line. */
  lemma SpliceDepsNeedsLines(c: string, reqs: Option<seq<string>>, breqs: Option<seq<string>>)
    ensures (forall p: nat :: !MarkerAt(c, p, RequiresLine)) ==> SpliceDeps(c, reqs, breqs) == Err(NoRequiresLine)
    ensures (exists p: nat :: MarkerAt(c, p, RequiresLine)) && (forall p: nat :: !MarkerAt(c, p, BuildRequiresLine)) ==>
      SpliceDeps(c, reqs, breqs) == Err(NoBuildRequiresLine)
  {
  }

  // ---------------------------------------------------------------------
  // The new file lines

  /** Lines 245-247: `lfp`, the first subpackage `%files` line after the
      first bare `%files` line, or else the first `%changelog` line. */
  function FilesEnd(c: string): Result<nat, RenderError> {
    var fp :- Found(IndexOf(c, FilesLine, 0), NoFilesLine);
    match IndexOf(c, SubpkgFilesLine, fp + 1)
    case Some(lfp) => Ok(lfp)
    case None => Found(IndexOf(c, ChangelogLine, 0), NoFilesEnd)
  }

  /** The text `new_files.join("\n") + "\n"`. */
  function NewFilesText(files: seq<string>): string {
    Join(files, "\n") + "\n"
  }

  /** Where `insert(lfp - 1, ...)` puts the text: `insert(-1, ...)` appends. */
  function InsertPoint(c: string, lfp: nat): nat
    requires lfp <= |c|
  {
    if lfp == 0 then |c| else lfp - 1
  }

  /** Line 249: the new file lines inserted just before `lfp - 1`. */
  function InsertNewFiles(c: string, nf: Option<seq<string>>): Result<string, RenderError> {
    var lfp :- FilesEnd(c);
    var files :- Found(nf, NewFilesUnset);
    var q := if lfp <= |c| then InsertPoint(c, lfp) else |c|;
    Ok(c[..q] + NewFilesText(files) + c[q..])
  }

  /** `fp` is the first bare `%files` line. */
  predicate FirstFilesLineAt(c: string, fp: nat) {
    MarkerAt(c, fp, FilesLine) && forall p: nat :: p < fp ==> !MarkerAt(c, p, FilesLine)
  }

  /** `lfp` is the first subpackage `%files` line after `fp`, or, when
      there is none, the first `%changelog` line. */
  predicate SectionEndAt(c: string, fp: nat, lfp: nat) {
    if exists p: nat :: fp < p <= |c| && MarkerAt(c, p, SubpkgFilesLine) then
      fp < lfp && MarkerAt(c, lfp, SubpkgFilesLine) &&
      forall p: nat :: fp < p < lfp ==> !MarkerAt(c, p, SubpkgFilesLine)
    else
      MarkerAt(c, lfp, ChangelogLine) && forall p: nat :: p < lfp ==> !MarkerAt(c, p, ChangelogLine)
  }

  /** `lfp` ends the main `%files` section. */
  lemma FilesEndIs(c: string)
    ensures FilesEnd(c).Ok? ==>
      IndexOf(c, FilesLine, 0).Some? && FirstFilesLineAt(c, IndexOf(c, FilesLine, 0).value) &&
      FilesEnd(c).value <= |c| && SectionEndAt(c, IndexOf(c, FilesLine, 0).value, FilesEnd(c).value)
    ensures IndexOf(c, FilesLine, 0).None? ==> FilesEnd(c) == Err(NoFilesLine)
  {
    match IndexOf(c, FilesLine, 0)
    case None =>
    case Some(fp) =>
      match IndexOf(c, SubpkgFilesLine, fp + 1)
      case Some(lfp) =>
      case None =>
        assert !exists p: nat :: fp < p <= |c| && MarkerAt(c, p, SubpkgFilesLine);
  }

  /** The document is kept around the inserted text, which goes just before
      the line feed that precedes `lfp` (or at the end when `lfp` is 0); the
      new file lines must be set. */
  lemma InsertNewFilesShape(c: string, nf: Option<seq<string>>)
    ensures InsertNewFiles(c, nf).Ok? ==>
      nf.Some? && FilesEnd(c).Ok? && FilesEnd(c).value <= |c| &&
      var lfp := FilesEnd(c).value;
      var q := InsertPoint(c, lfp);
      var t := NewFilesText(nf.value);
      var r := InsertNewFiles(c, nf).value;
      (lfp > 0 ==> c[q] == '\n') &&
      |r| == |c| + |t| && r[..q] == c[..q] && r[q..q + |t|] == t && r[q + |t|..] == c[q..]
    ensures FilesEnd(c).Ok? && nf.None? ==> InsertNewFiles(c, nf) == Err(NewFilesUnset)
  {
    if InsertNewFiles(c, nf).Ok? {
      FilesEndIs(c);
      var q := InsertPoint(c, FilesEnd(c).value);
      InsertNewFilesOk(c, nf);
      SpliceParts(c, q, NewFilesText(nf.value));
    }
  }

  /** A successful insertion found the end of the files section and the
      new file lines. */
  lemma InsertNewFilesOk(c: string, nf: Option<seq<string>>)
    ensures InsertNewFiles(c, nf).Ok? ==>
      nf.Some? && FilesEnd(c).Ok? &&
      var q := if FilesEnd(c).value <= |c| then InsertPoint(c, FilesEnd(c).value) else |c|;
      InsertNewFiles(c, nf).value == c[..q] + NewFilesText(nf.value) + c[q..]
  {
  }

  /** The three parts of `c` with `t` put in at `q`. */
  lemma SpliceParts(c: string, q: nat, t: string)
    requires q <= |c|
    ensures var r := c[..q] + t + c[q..];
      |r| == |c| + |t| && r[..q] == c[..q] && r[q..q + |t|] == t && r[q + |t|..] == c[q..]
  {
    var r := c[..q] + t + c[q..];
    assert r[..q] == c[..q];
    assert r[q..q + |t|] == t;
    assert r[q + |t|..] == c[q..];
  }

  /** The first match at or after `from` is what `index` finds. */
  lemma IndexOfAt(s: string, mk: Marker, from: nat, q: nat)
    requires from <= q && MarkerAt(s, q, mk)
    requires forall p: nat :: from <= p < q ==> !MarkerAt(s, p, mk)
    ensures IndexOf(s, mk, from) == Some(q)
    decreases q - from
  {
    if from < q {
      IndexOfAt(s, mk, from + 1, q);
    }
  }

  lemma SampleFilesEnd(c: string)
    requires c == "%files\n/a\n%files b\n"
    ensures FilesEnd(c) == Ok(10)
  {
    SampleMarkers(c);
    SampleNoSubpkg(c);
    IndexOfAt(c, FilesLine, 0, 0);
    IndexOfAt(c, SubpkgFilesLine, 1, 10);
  }

  lemma SampleMarkers(c: string)
    requires c == "%files\n/a\n%files b\n"
    ensures MarkerAt(c, 0, FilesLine) && MarkerAt(c, 10, SubpkgFilesLine)
  {
    assert c[0..][..6] == "%files" && c[0..][6] == '\n';
    assert c[9] == '\n' && c[10..][..6] == "%files";
  }

  lemma SampleNoSubpkg(c: string)
    requires c == "%files\n/a\n%files b\n"
    ensures forall p: nat :: 1 <= p < 10 ==> !MarkerAt(c, p, SubpkgFilesLine)
  {
    forall p: nat | 1 <= p < 10 ensures !MarkerAt(c, p, SubpkgFilesLine) {
      if p == 7 {
        assert c[p..][0] == '/';
      } else {
        assert !LineStart(c, p);
      }
    }
  }

  lemma SampleGlued(x: string, y: string)
    requires x == "%files\n/a" && y == "\n%files b\n"
    ensures x + "/c\n" + y == "%files\n/a/c\n\n%files b\n"
  {
    var z := x + "/c\n" + y;
    assert |z| == 22;
    forall i | 0 <= i < 22 ensures z[i] == "%files\n/a/c\n\n%files b\n"[i] {
    }
  }

  /** When the line before the next `%files` line is not blank, the
      insertion puts the first new file on that line: from the last
      character of that line through the whole first new file, there is
      no line feed. */
  lemma InsertGlues(c: string, files: seq<string>)
    requires FilesEnd(c).Ok? && 2 <= FilesEnd(c).value <= |c|
    requires c[FilesEnd(c).value - 2] != '\n'
    requires files != [] && forall i :: 0 <= i < |files[0]| ==> files[0][i] != '\n'
    ensures InsertNewFiles(c, Some(files)).Ok?
    ensures var q := FilesEnd(c).value - 1;
      var r := InsertNewFiles(c, Some(files)).value;
      |r| >= q + |files[0]| && r[..q] == c[..q] && r[q..q + |files[0]|] == files[0] &&
      forall i :: q - 1 <= i < q + |files[0]| ==> r[i] != '\n'
  {
    var q := FilesEnd(c).value - 1;
    var t := NewFilesText(files);
    InsertAtEnd(c, files);
    JoinHead(files, "\n");
    GlueAt(c, q, t, files[0]);
    var r := c[..q] + t + c[q..];
    assert InsertNewFiles(c, Some(files)).value == r;
  }

  /** Where the files section ends inside the document, the new file lines
      go in just before the line feed that precedes that end. */
  lemma InsertAtEnd(c: string, files: seq<string>)
    requires FilesEnd(c).Ok? && 1 <= FilesEnd(c).value <= |c|
    ensures var q := FilesEnd(c).value - 1;
      InsertNewFiles(c, Some(files)) == Ok(c[..q] + NewFilesText(files) + c[q..])
  {
  }

  /** `t` put in at `q`, right after a character that is not a line feed,
      continues that character's line with the first line of `t`. */
  lemma GlueAt(c: string, q: nat, t: string, f: string)
    requires 1 <= q <= |c| && c[q - 1] != '\n'
    requires |t| >= |f| && t[..|f|] == f && forall i :: 0 <= i < |f| ==> f[i] != '\n'
    ensures var r := c[..q] + t + c[q..];
      |r| >= q + |f| && r[..q] == c[..q] && r[q..q + |f|] == f &&
      forall i :: q - 1 <= i < q + |f| ==> r[i] != '\n'
  {
    var r := c[..q] + t + c[q..];
    SpliceParts(c, q, t);
    assert r[q..q + |f|] == r[q..q + |t|][..|f|];
    assert r[q - 1] == r[..q][q - 1];
    forall i | q <= i < q + |f| ensures r[i] != '\n' {
      assert r[i] == r[q..q + |f|][i - q];
    }
  }

  /** For example, with no blank line before `%files b`, `/c` joins `/a`
      and the blank line lands after the new files. */
  lemma InsertGluesSample(c: string)
    requires c == "%files\n/a\n%files b\n"
    ensures InsertNewFiles(c, Some(["/c"])) == Ok("%files\n/a/c\n\n%files b\n")
  {
    SampleFilesEnd(c);
    assert NewFilesText(["/c"]) == "/c\n" by {
      assert Join(["/c"], "\n") == "/c";
    }
    assert InsertPoint(c, 10) == 9;
    SampleGlued(c[..9], c[9..]);
  }

  // ---------------------------------------------------------------------
  // The whole rendering

  /** `to_string`: substitute, rewrite the changelog, splice the
      requirements, insert the new files. */
  function Render(m: Metadata): Result<string, RenderError> {
    var c1 := SubstitutedContents(m);
    var c2 :- ReplaceChangelog(c1, m.changelogEntries);
    var c3 :- SpliceDeps(c2, m.reqs, m.buildReqs);
    InsertNewFiles(c3, m.newFiles)
  }

  /** Rendering needs both requirement lists and the new file lines: before
      update_deps_from and update_files_from have run, `to_string` raises. */
  lemma RenderNeedsUpdates(m: Metadata)
    ensures Render(m).Ok? ==> m.reqs.Some? && m.buildReqs.Some? && m.newFiles.Some?
  {
    if Render(m).Ok? {
      var c2 := ReplaceChangelog(SubstitutedContents(m), m.changelogEntries).value;
      SpliceDepsShape(c2, m.reqs, m.buildReqs);
      InsertNewFilesShape(SpliceDeps(c2, m.reqs, m.buildReqs).value, m.newFiles);
    }
  }

  lemma ChangelogErrors(c: string, entries: seq<string>)
    ensures ReplaceChangelog(c, entries).Err? ==>
      ReplaceChangelog(c, entries).error in {NoChangelogLine, ChangelogLineUnterminated}
  {
  }

  lemma SpliceErrors(c: string, rs: seq<string>, bs: seq<string>)
    ensures SpliceDeps(c, Some(rs), Some(bs)).Err? ==>
      SpliceDeps(c, Some(rs), Some(bs)).error !in {RequiresUnset, BuildRequiresUnset, NewFilesUnset}
  {
    match FirstDepLine(c)
    case Err(_) =>
    case Ok(_) =>
      match LastDepLine(c)
      case Err(_) =>
      case Ok(_) =>
  }

  lemma InsertErrors(c: string, files: seq<string>)
    ensures InsertNewFiles(c, Some(files)).Err? ==> InsertNewFiles(c, Some(files)).error in {NoFilesLine, NoFilesEnd}
  {
  }

  /** With both requirement lists and the new file lines set, rendering
      fails only for want of a line the document lacks. */
  lemma RenderFailsOnlyOnShape(m: Metadata)
    ensures m.reqs.Some? && m.buildReqs.Some? && m.newFiles.Some? && Render(m).Err? ==>
      Render(m).error !in {RequiresUnset, BuildRequiresUnset, NewFilesUnset}
  {
    if m.reqs.Some? && m.buildReqs.Some? && m.newFiles.Some? {
      var c1 := SubstitutedContents(m);
      ChangelogErrors(c1, m.changelogEntries);
      var c2 := ReplaceChangelog(c1, m.changelogEntries);
      if c2.Ok? {
        SpliceErrors(c2.value, m.reqs.value, m.buildReqs.value);
        var c3 := SpliceDeps(c2.value, m.reqs, m.buildReqs);
        if c3.Ok? {
          InsertErrors(c3.value, m.newFiles.value);
        }
      }
    }
  }
}
