/** The regular expressions of `Polisher::RPMSpec` (COMMENT_MATCHER to
    SPEC_SUBPKG_FILES_MATCHER), written out as predicates on a text and a
    position, and the text each one captures after `strip`.

    The parser applies them to one line of `each_line` (position 0); the
    renderer applies `index`/`rindex` with them to the whole document, where
    `^` matches at the start and after every line feed and `$` before every
    line feed and at the end. */
module Matchers {
  import opened Wrappers
  import opened Strings

  /** The anchor `^`. */
  predicate LineStart(s: string, p: nat) {
    p == 0 || (p <= |s| && s[p - 1] == '\n')
  }

  /** The markers that both the parser and the renderer look for. */
  datatype Marker =
    | VersionLine        // /^Version:\s*(.*)$/
    | ReleaseLine        // /^Release:\s*(.*)$/
    | RequiresLine       // /^Requires:\s*(.*)$/
    | BuildRequiresLine  // /^BuildRequires:\s*(.*)$/
    | PackageLine        // /^%package\s(.*)$/
    | ChangelogLine      // /^%changelog$/
    | FilesLine          // /^%files$/
    | SubpkgFilesLine    // /^%files\s*(.*)$/

  function Keyword(mk: Marker): (k: string)
    ensures |k| >= 6
  {
    match mk
    case VersionLine => "Version:"
    case ReleaseLine => "Release:"
    case RequiresLine => "Requires:"
    case BuildRequiresLine => "BuildRequires:"
    case PackageLine => "%package"
    case ChangelogLine => "%changelog"
    case FilesLine => "%files"
    case SubpkgFilesLine => "%files"
  }

  /** The pattern of `mk`, without its `^`, matches at the start of `t`.
      `\s*(.*)$` always matches, so most patterns need only their keyword;
      `%package` needs one white-space character after it, and the two
      patterns ending in `$` right after the keyword need a line feed or the
      end of the text there. */
  predicate PatternAt(t: string, mk: Marker) {
    var k := Keyword(mk);
    StartsWith(t, k) &&
    match mk
    case PackageLine => |t| > |k| && IsSpace(t[|k|])
    case ChangelogLine => |t| == |k| || t[|k|] == '\n'
    case FilesLine => |t| == |k| || t[|k|] == '\n'
    case _ => true
  }

  /** The pattern of `mk`, anchor included, matches in `s` starting at `p`. */
  predicate MarkerAt(s: string, p: nat, mk: Marker) {
    p <= |s| && LineStart(s, p) && PatternAt(s[p..], mk)
  }

  /** `l =~ M` for one line `l` of `each_line`: a line has no line feed
      before its last character, so the only place `^` can be followed by a
      keyword is the start of the line. */
  predicate LineIs(l: string, mk: Marker) {
    PatternAt(l, mk)
  }

  /** `$1.strip` after a match of `mk` on line `l`. Stripping makes it the
      same whichever way `\s*`, `\s` and `(.*)$` split the rest of the line.
      Total, so that it can be named before the match is known; on a line
      that matches it is the capture. */
  function Capture(l: string, mk: Marker): (c: string)
    ensures |c| <= |l|
  {
    var n := if mk.PackageLine? then |Keyword(mk)| + 1 else |Keyword(mk)|;
    if n <= |l| then Strip(l[n..]) else []
  }

  /** COMMENT_MATCHER, /^\s*#.* /: optional white space, then `#`. */
  predicate IsComment(l: string) {
    var n := SpanSpace(l);
    n < |l| && l[n] == '#'
  }

  /** GEM_NAME_MATCHER, /^%global\s*gem_name\s(.*)$/, and its capture. */
  function GemNameCapture(l: string): (r: Option<string>)
    ensures r.Some? ==> StartsWith(l, "%global")
  {
    if !StartsWith(l, "%global") then None
    else
      var t := l[7..];
      var u := t[SpanSpace(t)..];
      if StartsWith(u, "gem_name") && |u| > 8 && IsSpace(u[8]) then Some(Strip(u[9..])) else None
  }

  /** SPEC_NAME_MATCHER, /^Name:\s*rubygem-(.*)$/, and its capture. */
  function SpecNameCapture(l: string): (r: Option<string>)
    ensures r.Some? ==> StartsWith(l, "Name:")
  {
    if !StartsWith(l, "Name:") then None
    else
      var t := l[5..];
      var u := t[SpanSpace(t)..];
      if StartsWith(u, "rubygem-") then Some(Strip(u[8..])) else None
  }

  /** The literal macro reference a `Name:` line may carry instead of a
      name. */
  const GemNameMacro := "%{gem_name}"

  const GemOpen := "rubygem("

  /** The requirement string `rubygem(name)` that update_deps_from renders. */
  function GemReq(name: string): string {
    GemOpen + name + ")"
  }

  /** The text after the last `rubygem(` in `b`: the greedy leading `.*` of
      SPEC_GEM_REQ_MATCHER leaves the capture at the last opening. */
  function AfterLastOpen(b: string): (r: Option<string>)
    ensures r.Some? ==> |r.value| + |GemOpen| <= |b| && OccursAt(b, GemOpen, |b| - |r.value| - |GemOpen|)
    ensures r.Some? ==> r.value == b[|b| - |r.value|..]
    ensures r.Some? ==> forall j :: |b| - |r.value| - |GemOpen| < j ==> !OccursAt(b, GemOpen, j)
    ensures r.None? ==> forall j :: !OccursAt(b, GemOpen, j)
    decreases |b|
  {
    if |b| < |GemOpen| then None
    else
      match AfterLastOpen(b[1..])
      case Some(x) =>
        LastOpenShift(b, x);
        Some(x)
      case None =>
        NoOpenShift(b);
        if b[..|GemOpen|] == GemOpen then Some(b[|GemOpen|..]) else None
  }

  /** The last opening in `b[1..]` is the last one in `b`. */
  lemma LastOpenShift(b: string, x: string)
    requires b != [] && |x| + |GemOpen| <= |b| - 1
    requires OccursAt(b[1..], GemOpen, |b| - 1 - |x| - |GemOpen|) && x == b[1..][|b| - 1 - |x|..]
    requires forall j :: |b| - 1 - |x| - |GemOpen| < j ==> !OccursAt(b[1..], GemOpen, j)
    ensures OccursAt(b, GemOpen, |b| - |x| - |GemOpen|) && x == b[|b| - |x|..]
    ensures forall j :: |b| - |x| - |GemOpen| < j ==> !OccursAt(b, GemOpen, j)
  {
    forall j | |b| - |x| - |GemOpen| < j ensures !OccursAt(b, GemOpen, j) {
      OccursShift(b, GemOpen, j);
    }
    OccursShift(b, GemOpen, |b| - |x| - |GemOpen|);
  }

  /** Without an opening in `b[1..]`, only position 0 can hold one. */
  lemma NoOpenShift(b: string)
    requires |b| >= |GemOpen| && forall j :: !OccursAt(b[1..], GemOpen, j)
    ensures forall j :: 0 < j ==> !OccursAt(b, GemOpen, j)
    ensures OccursAt(b, GemOpen, 0) <==> b[..|GemOpen|] == GemOpen
  {
    forall j | 0 < j ensures !OccursAt(b, GemOpen, j) {
      OccursShift(b, GemOpen, j);
    }
  }

  /** SPEC_GEM_REQ_MATCHER, /^.*\s*rubygem\((.*)\)$/, on one line: the line
      ends in `)` and has a `rubygem(` before it. */
  function LineGemReqName(seg: string): Option<string> {
    if seg != [] && seg[|seg| - 1] == ')' then AfterLastOpen(seg[..|seg| - 1]) else None
  }

  function FirstGemReqName(segs: seq<string>): Option<string> {
    if segs == [] then None
    else if LineGemReqName(segs[0]).Some? then LineGemReqName(segs[0])
    else FirstGemReqName(segs[1..])
  }

  /** `r =~ SPEC_GEM_REQ_MATCHER` and `$1`, read one line at a time: the
      first line of `r` that matches on its own decides. This is Ruby's
      match exactly when `r` has no line feed; across a line feed Ruby's
      `\s*` may carry a match begun on one line into the next, which this
      reading does not follow. */
  function GemReqName(r: string): Option<string> {
    FirstGemReqName(SplitAll(r, "\n"))
  }

  /** A text without line feeds is one field of `split("\n")`. */
  lemma SingleLine(r: string)
    requires forall i :: 0 <= i < |r| ==> r[i] != '\n'
    ensures SplitAll(r, "\n") == [r]
  {
    forall j: nat ensures !OccursAt(r, "\n", j) {
      if j + 1 <= |r| {
        assert r[j..j + 1][0] == r[j];
      }
    }
    assert FindText(r, "\n", 0).None?;
  }

  lemma GemReqOneLine(name: string)
    requires forall i :: 0 <= i < |name| ==> name[i] != '\n'
    ensures forall i :: 0 <= i < |GemReq(name)| ==> GemReq(name)[i] != '\n'
  {
    var r := GemReq(name);
    forall i | 0 <= i < |r| ensures r[i] != '\n' {
      if i < |GemOpen| {
        assert r[i] == GemOpen[i];
      } else if i < |GemOpen| + |name| {
        assert r[i] == name[i - |GemOpen|];
      } else {
        assert r[i] == ')';
      }
    }
  }

  /** The name in `rubygem(name)` is recovered, unless it itself contains
      a line feed or a `rubygem(`. */
  lemma {:induction false} GemReqRoundTrip(name: string)
    requires !Contains(name, GemOpen)
    requires forall i :: 0 <= i < |name| ==> name[i] != '\n'
    ensures GemReqName(GemReq(name)) == Some(name)
  {
    var r := GemReq(name);
    GemReqOneLine(name);
    SingleLine(r);
    assert r[..|r| - 1] == GemOpen + name;
    var b := GemOpen + name;
    var tail := b[1..];
    assert tail == "ubygem(" + name;
    assert tail[7..] == name;
    forall j: nat | j <= |tail| ensures !OccursAt(tail, GemOpen, j) {
      if OccursAt(tail, GemOpen, j) {
        assert tail[j..j + |GemOpen|][0] == tail[j];
        assert tail[j] == 'r';
        if j >= 7 {
          assert tail[j..j + |GemOpen|] == tail[7..][j - 7..j - 7 + |GemOpen|];
          assert OccursAt(name, GemOpen, j - 7);
        }
      }
    }
    assert b[..|GemOpen|] == GemOpen;
    assert AfterLastOpen(b) == Some(b[|GemOpen|..]);
    assert b[|GemOpen|..] == name;
  }

  /** Every `rubygem(name)` is a library requirement, whatever its name
      captures, as long as the name is on one line. */
  lemma GemReqIsGemReq(name: string)
    requires forall i :: 0 <= i < |name| ==> name[i] != '\n'
    ensures GemReqName(GemReq(name)).Some?
  {
    var r := GemReq(name);
    GemReqOneLine(name);
    SingleLine(r);
    var b := r[..|r| - 1];
    assert b[..|GemOpen|] == GemOpen;
    if AfterLastOpen(b[1..]).None? {
      assert AfterLastOpen(b).Some?;
    }
  }
}
