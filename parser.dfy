/** `RPMSpec.parse`: one pass over the lines of the document. The state of
    the scan is the three flags, the current subpackage name and the
    metadata record; `Step` is one turn of the `each_line` block: `Classify`
    picks the branch of its `if`/`elsif` chain, in the source's order of
    precedence, and `Apply` carries it out. */
module Parser {
  import opened Wrappers
  import opened Strings
  import opened Matchers
  import opened SpecData
  import opened Sequences

  datatype ScanState = ScanState(
    inSubpackage: bool,
    inChangelog: bool,
    inFiles: bool,
    subpkgName: Option<string>,
    meta: Metadata)

  /** The state before the first line: `meta = {:contents => spec}`. */
  function Initial(spec: string): ScanState {
    ScanState(false, false, false, None,
      Metadata(spec, None, None, None, None, None, None, [], [], None))
  }

  /** The key file lines go to: the subpackage name, or the gem name when
      there is none. */
  function FilesTarget(st: ScanState): Option<string> {
    if st.subpkgName.None? then st.meta.gemName else st.subpkgName
  }

  /** The `Name:` branch is taken: a `rubygem-` name that is not the literal
      `%{gem_name}`. */
  predicate TakesSpecName(l: string) {
    SpecNameCapture(l).Some? && SpecNameCapture(l).value != GemNameMacro
  }

  /** The branches of the chain, in order. */
  datatype Branch =
    | CommentLine
    | GemNameDefinition   // %global gem_name
    | SpecName            // Name: rubygem-
    | VersionTag
    | ReleaseTag
    | SubpackageStart     // %package
    | RequiresTag
    | BuildRequiresTag
    | ChangelogStart      // %changelog
    | MainFilesStart      // %files
    | SubpkgFilesStart    // %files <name>
    | ChangelogText
    | FilesText
    | Ignored

  /** The first branch whose condition holds. */
  function Classify(st: ScanState, l: string): Branch {
    if IsComment(l) then CommentLine
    else if GemNameCapture(l).Some? then GemNameDefinition
    else if TakesSpecName(l) then SpecName
    else if LineIs(l, VersionLine) then VersionTag
    else if LineIs(l, ReleaseLine) then ReleaseTag
    else if LineIs(l, PackageLine) then SubpackageStart
    else if LineIs(l, RequiresLine) && !st.inSubpackage then RequiresTag
    else if LineIs(l, BuildRequiresLine) && !st.inSubpackage then BuildRequiresTag
    else if LineIs(l, ChangelogLine) then ChangelogStart
    else if LineIs(l, FilesLine) then MainFilesStart
    else if LineIs(l, SubpkgFilesLine) then SubpkgFilesStart
    else if st.inChangelog then ChangelogText
    else if st.inFiles then FilesText
    else Ignored
  }

  /** The first five branches of the chain, each picked by its condition
      once the earlier ones fail. */
  lemma ClassifyHead(st: ScanState, l: string)
    ensures IsComment(l) ==> Classify(st, l) == CommentLine
    ensures (!IsComment(l) && GemNameCapture(l).Some?) ==> Classify(st, l) == GemNameDefinition
    ensures (!IsComment(l) && GemNameCapture(l).None? && TakesSpecName(l)) ==> Classify(st, l) == SpecName
    ensures (!IsComment(l) && GemNameCapture(l).None? && !TakesSpecName(l) && LineIs(l, VersionLine)) ==>
      Classify(st, l) == VersionTag
    ensures (!IsComment(l) && GemNameCapture(l).None? && !TakesSpecName(l) && !LineIs(l, VersionLine)
             && LineIs(l, ReleaseLine)) ==>
      Classify(st, l) == ReleaseTag
  {
  }

  /** None of the first five branches takes the line. */
  predicate PastHead(l: string) {
    !IsComment(l) && GemNameCapture(l).None? && !TakesSpecName(l) && !LineIs(l, VersionLine) && !LineIs(l, ReleaseLine)
  }

  /** Past those, the next six branches, in the same way. */
  lemma ClassifySection(st: ScanState, l: string)
    requires PastHead(l)
    ensures LineIs(l, PackageLine) ==> Classify(st, l) == SubpackageStart
    ensures (!LineIs(l, PackageLine) && LineIs(l, RequiresLine) && !st.inSubpackage) ==> Classify(st, l) == RequiresTag
    ensures (!LineIs(l, PackageLine) && !(LineIs(l, RequiresLine) && !st.inSubpackage)
             && LineIs(l, BuildRequiresLine) && !st.inSubpackage) ==>
      Classify(st, l) == BuildRequiresTag
    ensures (!LineIs(l, PackageLine) && !(LineIs(l, RequiresLine) && !st.inSubpackage)
             && !(LineIs(l, BuildRequiresLine) && !st.inSubpackage)) ==>
      (LineIs(l, ChangelogLine) ==> Classify(st, l) == ChangelogStart) &&
      ((!LineIs(l, ChangelogLine) && LineIs(l, FilesLine)) ==> Classify(st, l) == MainFilesStart) &&
      ((!LineIs(l, ChangelogLine) && !LineIs(l, FilesLine) && LineIs(l, SubpkgFilesLine)) ==>
         Classify(st, l) == SubpkgFilesStart)
  {
  }

  /** The line matches none of the eleven patterns that come before the two
      mode branches. */
  predicate Unmatched(st: ScanState, l: string) {
    !IsComment(l) && GemNameCapture(l).None? && !TakesSpecName(l)
    && !LineIs(l, VersionLine) && !LineIs(l, ReleaseLine) && !LineIs(l, PackageLine)
    && !(LineIs(l, RequiresLine) && !st.inSubpackage)
    && !(LineIs(l, BuildRequiresLine) && !st.inSubpackage)
    && !LineIs(l, ChangelogLine) && !LineIs(l, FilesLine) && !LineIs(l, SubpkgFilesLine)
  }

  /** What a files-section line adds: `sl = l.strip.unrpmize`, stored
      under the target key unless blank; the key is created either way. */
  function AddFileLine(fs: seq<FileList>, k: Option<string>, sl: string): seq<FileList> {
    var fs1 := EnsureKey(fs, k);
    if IsBlank(sl) then fs1 else AppendEntry(fs1, k, sl)
  }

  /** Adding a file line keeps the keys distinct and the lines non-blank,
      and the target key exists afterwards. */
  lemma AddFileLineKeeps(fs: seq<FileList>, k: Option<string>, sl: string)
    ensures DistinctKeys(fs) ==> DistinctKeys(AddFileLine(fs, k, sl))
    ensures NoBlankEntries(fs) ==> NoBlankEntries(AddFileLine(fs, k, sl))
    ensures HasKey(AddFileLine(fs, k, sl), k)
  {
    var fs1 := EnsureKey(fs, k);
    if !IsBlank(sl) {
      AppendEntryNoBlank(fs1, k, sl);
      assert HasKey(fs1, k);
      var i :| 0 <= i < |fs1| && fs1[i].pkg == k;
      assert AddFileLine(fs, k, sl)[i].pkg == k;
    }
  }

  /** The effect of a branch on the state. */
  function Apply(st: ScanState, b: Branch, l: string, unrpmize: string -> string): ScanState {
    var m := st.meta;
    match b
    case CommentLine => st
    case GemNameDefinition => st.(meta := m.(gemName := GemNameCapture(l)))
    case SpecName => st.(meta := m.(gemName := SpecNameCapture(l)))
    case VersionTag => st.(meta := m.(version := Some(Capture(l, VersionLine))))
    case ReleaseTag => st.(meta := m.(release := Some(Capture(l, ReleaseLine))))
    case SubpackageStart => st.(subpkgName := Some(Capture(l, PackageLine)), inSubpackage := true)
    case RequiresTag => st.(meta := m.(reqs := Some(m.reqs.GetOr([]) + [Capture(l, RequiresLine)])))
    case BuildRequiresTag =>
      st.(meta := m.(buildReqs := Some(m.buildReqs.GetOr([]) + [Capture(l, BuildRequiresLine)])))
    case ChangelogStart => st.(inChangelog := true)
    case MainFilesStart => st.(subpkgName := None, inFiles := true)
    case SubpkgFilesStart => st.(subpkgName := Some(Capture(l, SubpkgFilesLine)), inFiles := true)
    case ChangelogText => st.(meta := m.(changelog := Some(m.changelog.GetOr([]) + l)))
    case FilesText => st.(meta := m.(files := AddFileLine(m.files, FilesTarget(st), unrpmize(Strip(l)))))
    case Ignored => st
  }

  /** No branch changes the document, merges two file lists or stores a
      blank file line. */
  lemma ApplyPreserves(st: ScanState, b: Branch, l: string, unrpmize: string -> string)
    ensures Apply(st, b, l, unrpmize).meta.contents == st.meta.contents
    ensures DistinctKeys(st.meta.files) ==> DistinctKeys(Apply(st, b, l, unrpmize).meta.files)
    ensures NoBlankEntries(st.meta.files) ==> NoBlankEntries(Apply(st, b, l, unrpmize).meta.files)
  {
    if b == FilesText {
      AddFileLineKeeps(st.meta.files, FilesTarget(st), unrpmize(Strip(l)));
    }
  }

  /** One turn of the `each_line` block. */
  function Step(st: ScanState, l: string, unrpmize: string -> string): ScanState {
    Apply(st, Classify(st, l), l, unrpmize)
  }

  /** The state after the lines `ls`, one `Step` each, in order. */
  function Scan(st: ScanState, ls: seq<string>, unrpmize: string -> string): ScanState
    decreases |ls|
  {
    if ls == [] then st else Step(Scan(st, ls[..|ls| - 1], unrpmize), ls[|ls| - 1], unrpmize)
  }

  /** Lines 121-123: the changelog text split on blank lines, each piece
      stripped; none when no changelog line was collected. `compact!`
      removes nothing, because `strip` never gives `nil`. */
  function ChangelogEntries(changelog: Option<string>): (entries: seq<string>)
    ensures changelog.None? ==> entries == []
    ensures changelog.Some? ==>
      |entries| == |Split(changelog.value, "\n\n")| &&
      forall i :: 0 <= i < |entries| ==> entries[i] == Strip(Split(changelog.value, "\n\n")[i])
  {
    match changelog
    case None => []
    case Some(text) => StripAll(Split(text, "\n\n"))
  }

  /** `collect! { |c| c.strip }`. */
  function StripAll(ss: seq<string>): (r: seq<string>)
    ensures |r| == |ss| && forall i :: 0 <= i < |ss| ==> r[i] == Strip(ss[i])
  {
    if ss == [] then [] else [Strip(ss[0])] + StripAll(ss[1..])
  }

  /** The metadata `RPMSpec.parse` builds from a document. */
  function Parse(spec: string, unrpmize: string -> string): Metadata {
    var st := Scan(Initial(spec), Lines(spec), unrpmize);
    st.meta.(changelogEntries := ChangelogEntries(st.meta.changelog))
  }

  // ---------------------------------------------------------------------
  // Which branch a line takes

  lemma PrefixChar(l: string, p: string, i: nat)
    requires StartsWith(l, p) && i < |p|
    ensures l[i] == p[i]
  {
    assert l[..|p|][i] == l[i];
  }

  lemma NotComment(l: string)
    requires l != [] && !IsSpace(l[0]) && l[0] != '#'
    ensures !IsComment(l)
  {
    assert SpanSpace(l) == 0;
  }

  lemma NoGlobalLine(l: string)
    requires |l| >= 2 && (l[0] != '%' || l[1] != 'g')
    ensures GemNameCapture(l).None?
  {
    var g := "%global";
    assert g[0] == '%' && g[1] == 'g';
    if l[0] != '%' {
      DiffersAt(l, g, 0);
    } else {
      DiffersAt(l, g, 1);
    }
  }

  lemma NoSpecNameLine(l: string)
    requires l != [] && l[0] != 'N'
    ensures SpecNameCapture(l).None?
  {
  }

  /** A line starting with `V`, `R` or `B`, or with `%` followed by a letter
      other than `g`, is no comment and no name line. */
  lemma NoNameLine(l: string)
    requires |l| >= 2
    requires l[0] in "VRB" || (l[0] == '%' && l[1] != 'g')
    ensures !IsComment(l) && GemNameCapture(l).None? && SpecNameCapture(l).None?
  {
    assert !IsSpace(l[0]) && l[0] != '#';
    NotComment(l);
    NoGlobalLine(l);
    NoSpecNameLine(l);
  }

  /** Two markers whose keywords differ at index `i` never match the same
      line. */
  lemma KeywordsClash(l: string, a: Marker, b: Marker, i: nat)
    requires i < |Keyword(a)| && i < |Keyword(b)| && Keyword(a)[i] != Keyword(b)[i]
    requires LineIs(l, a)
    ensures !LineIs(l, b)
  {
    PrefixChar(l, Keyword(a), i);
    if LineIs(l, b) {
      PrefixChar(l, Keyword(b), i);
    }
  }

  /** The first two characters of a line that matches `mk` are those of its
      keyword. */
  lemma LeadOf(l: string, mk: Marker)
    requires LineIs(l, mk)
    ensures |l| >= 2 && l[0] == Keyword(mk)[0] && l[1] == Keyword(mk)[1]
  {
    PrefixChar(l, Keyword(mk), 0);
    PrefixChar(l, Keyword(mk), 1);
  }

  /** A Requires: or BuildRequires: line outside a subpackage takes the
      branch that collects it. */
  lemma ClassifyDepLine(st: ScanState, l: string, mk: Marker)
    requires mk == RequiresLine || mk == BuildRequiresLine
    requires LineIs(l, mk) && !st.inSubpackage
    ensures Classify(st, l) == if mk == RequiresLine then RequiresTag else BuildRequiresTag
  {
    LeadOf(l, mk);
    NoNameLine(l);
    KeywordsClash(l, mk, VersionLine, 0);
    KeywordsClash(l, mk, ReleaseLine, 2);
    KeywordsClash(l, mk, PackageLine, 0);
    if mk == BuildRequiresLine {
      KeywordsClash(l, mk, RequiresLine, 0);
    }
  }

  /** A %package line takes the branch that sets `in_subpackage`. */
  lemma ClassifyPackageLine(st: ScanState, l: string)
    requires LineIs(l, PackageLine)
    ensures Classify(st, l) == SubpackageStart
  {
    LeadOf(l, PackageLine);
    NoNameLine(l);
    KeywordsClash(l, PackageLine, VersionLine, 0);
    KeywordsClash(l, PackageLine, ReleaseLine, 0);
  }

  /** The first characters of a %changelog or %files line rule out every
      pattern before its own. */
  lemma PercentLine(l: string, mk: Marker)
    requires mk == ChangelogLine || mk == FilesLine || mk == SubpkgFilesLine
    requires LineIs(l, mk)
    ensures !IsComment(l) && GemNameCapture(l).None? && SpecNameCapture(l).None?
    ensures !LineIs(l, VersionLine) && !LineIs(l, ReleaseLine) && !LineIs(l, PackageLine)
    ensures !LineIs(l, RequiresLine) && !LineIs(l, BuildRequiresLine)
  {
    LeadOf(l, mk);
    NoNameLine(l);
    KeywordsClash(l, mk, VersionLine, 0);
    KeywordsClash(l, mk, ReleaseLine, 0);
    KeywordsClash(l, mk, PackageLine, 1);
    KeywordsClash(l, mk, RequiresLine, 0);
    KeywordsClash(l, mk, BuildRequiresLine, 0);
  }

  /** A %changelog line takes the branch that sets `in_changelog`. */
  lemma ClassifyChangelogLine(st: ScanState, l: string)
    requires LineIs(l, ChangelogLine)
    ensures Classify(st, l) == ChangelogStart
  {
    PercentLine(l, ChangelogLine);
  }

  /** A bare %files line takes the branch that selects the main package;
      `%files <name>` the one that selects the subpackage. */
  lemma ClassifyFilesLine(st: ScanState, l: string, mk: Marker)
    requires mk == FilesLine || mk == SubpkgFilesLine
    requires LineIs(l, mk)
    ensures mk == FilesLine ==> Classify(st, l) == MainFilesStart
    ensures mk == SubpkgFilesLine && !LineIs(l, FilesLine) ==> Classify(st, l) == SubpkgFilesStart
  {
    if mk == FilesLine {
      PercentLine(l, FilesLine);
      KeywordsClash(l, FilesLine, ChangelogLine, 1);
    } else {
      PercentLine(l, SubpkgFilesLine);
      KeywordsClash(l, SubpkgFilesLine, ChangelogLine, 1);
    }
  }

  /** What each branch leaves alone. */
  lemma ApplyFrame(st: ScanState, b: Branch, l: string, unrpmize: string -> string)
    ensures b.CommentLine? || b.Ignored? ==> Apply(st, b, l, unrpmize) == st
    ensures Apply(st, b, l, unrpmize).meta.gemName != st.meta.gemName ==> b.GemNameDefinition? || b.SpecName?
    ensures Apply(st, b, l, unrpmize).inSubpackage <==> st.inSubpackage || b.SubpackageStart?
    ensures Apply(st, b, l, unrpmize).inChangelog <==> st.inChangelog || b.ChangelogStart?
    ensures Apply(st, b, l, unrpmize).meta.changelog != st.meta.changelog ==> b.ChangelogText?
    ensures Apply(st, b, l, unrpmize).meta.files != st.meta.files ==> b.FilesText?
  {
  }

  /** The two mode branches are taken exactly by unmatched lines. */
  lemma ClassifyUnmatched(st: ScanState, l: string)
    ensures Unmatched(st, l) ==>
      Classify(st, l) == if st.inChangelog then ChangelogText else if st.inFiles then FilesText else Ignored
    ensures Classify(st, l).ChangelogText? ==> Unmatched(st, l) && st.inChangelog
    ensures Classify(st, l).FilesText? ==> Unmatched(st, l) && !st.inChangelog && st.inFiles
  {
  }

  // ---------------------------------------------------------------------
  // What one line does

  /** A comment line changes nothing. */
  lemma StepComment(st: ScanState, l: string, unrpmize: string -> string)
    requires IsComment(l)
    ensures Step(st, l, unrpmize) == st
  {
    ApplyFrame(st, CommentLine, l, unrpmize);
  }

  /** `Name: rubygem-%{gem_name}` never overwrites the gem name. */
  lemma StepMacroName(st: ScanState, l: string, unrpmize: string -> string)
    requires SpecNameCapture(l) == Some(GemNameMacro)
    ensures Step(st, l, unrpmize).meta.gemName == st.meta.gemName
  {
    ClassifyMacroName(st, l);
    ApplyFrame(st, Classify(st, l), l, unrpmize);
  }

  lemma ClassifyMacroName(st: ScanState, l: string)
    requires SpecNameCapture(l) == Some(GemNameMacro)
    ensures !Classify(st, l).GemNameDefinition? && !Classify(st, l).SpecName?
  {
    assert StartsWith(l, "Name:");
    assert l[0] == 'N' && |l| >= 2;
    NoGlobalLine(l);
    assert !TakesSpecName(l);
    ClassifyNames(st, l);
  }

  /** The two name branches are taken exactly under their conditions. */
  lemma ClassifyNames(st: ScanState, l: string)
    ensures Classify(st, l).GemNameDefinition? ==> GemNameCapture(l).Some?
    ensures Classify(st, l).SpecName? ==> TakesSpecName(l)
  {
  }

  /** One line changes `in_subpackage` exactly when it is a %package line. */
  lemma StepSubpackage(st: ScanState, l: string, unrpmize: string -> string)
    ensures Step(st, l, unrpmize).inSubpackage <==> st.inSubpackage || LineIs(l, PackageLine)
  {
    ApplyFrame(st, Classify(st, l), l, unrpmize);
    if LineIs(l, PackageLine) {
      ClassifyPackageLine(st, l);
    }
  }

  function DepField(m: Metadata, mk: Marker): Option<seq<string>> {
    if mk == RequiresLine then m.reqs else m.buildReqs
  }

  lemma ApplyDepField(st: ScanState, b: Branch, l: string, mk: Marker, unrpmize: string -> string)
    requires mk == RequiresLine || mk == BuildRequiresLine
    ensures DepField(Apply(st, b, l, unrpmize).meta, mk) ==
      if b == (if mk == RequiresLine then RequiresTag else BuildRequiresTag)
      then Some(DepField(st.meta, mk).GetOr([]) + [Capture(l, mk)])
      else DepField(st.meta, mk)
  {
  }

  lemma ClassifyDepTag(st: ScanState, l: string, mk: Marker)
    requires mk == RequiresLine || mk == BuildRequiresLine
    ensures Classify(st, l) == (if mk == RequiresLine then RequiresTag else BuildRequiresTag) <==>
      LineIs(l, mk) && !st.inSubpackage
  {
    if LineIs(l, mk) && !st.inSubpackage {
      ClassifyDepLine(st, l, mk);
    }
  }

  /** One line adds to the requirements of kind `mk` exactly when it is a
      line of that kind outside a subpackage, and then adds its capture at
      the end. */
  lemma StepDepField(st: ScanState, l: string, mk: Marker, unrpmize: string -> string)
    requires mk == RequiresLine || mk == BuildRequiresLine
    ensures DepField(Step(st, l, unrpmize).meta, mk) ==
      if LineIs(l, mk) && !st.inSubpackage then Some(DepField(st.meta, mk).GetOr([]) + [Capture(l, mk)])
      else DepField(st.meta, mk)
  {
    ClassifyDepTag(st, l, mk);
    ApplyDepField(st, Classify(st, l), l, mk, unrpmize);
  }

  /** One line sets `in_changelog` exactly when it is a %changelog line. */
  lemma StepChangelogMode(st: ScanState, l: string, unrpmize: string -> string)
    ensures Step(st, l, unrpmize).inChangelog <==> st.inChangelog || LineIs(l, ChangelogLine)
  {
    ApplyFrame(st, Classify(st, l), l, unrpmize);
    if LineIs(l, ChangelogLine) {
      ClassifyChangelogLine(st, l);
    }
  }

  /** After a bare %files line, file lines go to the gem name's key. */
  lemma StepMainFiles(st: ScanState, l: string, unrpmize: string -> string)
    requires LineIs(l, FilesLine)
    ensures Step(st, l, unrpmize).inFiles
    ensures FilesTarget(Step(st, l, unrpmize)) == st.meta.gemName
  {
    ClassifyFilesLine(st, l, FilesLine);
  }

  /** After `%files <x>`, file lines go to the key `x`. */
  lemma StepSubpkgFiles(st: ScanState, l: string, unrpmize: string -> string)
    requires LineIs(l, SubpkgFilesLine) && !LineIs(l, FilesLine)
    ensures Step(st, l, unrpmize).inFiles
    ensures FilesTarget(Step(st, l, unrpmize)) == Some(Capture(l, SubpkgFilesLine))
  {
    ClassifyFilesLine(st, l, SubpkgFilesLine);
  }

  /** A line that matches no pattern goes to the changelog once %changelog
      has been seen, otherwise to the current file list in a files section,
      and otherwise changes nothing. */
  lemma StepUnmatched(st: ScanState, l: string, unrpmize: string -> string)
    requires Unmatched(st, l)
    ensures st.inChangelog ==>
      Step(st, l, unrpmize) == st.(meta := st.meta.(changelog := Some(st.meta.changelog.GetOr([]) + l)))
    ensures !st.inChangelog && st.inFiles ==>
      Step(st, l, unrpmize) ==
        st.(meta := st.meta.(files := AddFileLine(st.meta.files, FilesTarget(st), unrpmize(Strip(l)))))
    ensures !st.inChangelog && !st.inFiles ==> Step(st, l, unrpmize) == st
  {
    ClassifyUnmatched(st, l);
    ApplyModes(st, Classify(st, l), l, unrpmize);
  }

  /** What each of the first five branches does to the state. */
  lemma ApplyHead(st: ScanState, b: Branch, l: string, unrpmize: string -> string)
    ensures b == CommentLine ==> Apply(st, b, l, unrpmize) == st
    ensures b == GemNameDefinition ==>
      Apply(st, b, l, unrpmize) == st.(meta := st.meta.(gemName := GemNameCapture(l)))
    ensures b == SpecName ==>
      Apply(st, b, l, unrpmize) == st.(meta := st.meta.(gemName := SpecNameCapture(l)))
    ensures b == VersionTag ==>
      Apply(st, b, l, unrpmize) == st.(meta := st.meta.(version := Some(Capture(l, VersionLine))))
    ensures b == ReleaseTag ==>
      Apply(st, b, l, unrpmize) == st.(meta := st.meta.(release := Some(Capture(l, ReleaseLine))))
  {
  }

  /** What each of the next six branches does to the state. */
  lemma ApplySection(st: ScanState, b: Branch, l: string, unrpmize: string -> string)
    ensures b == SubpackageStart ==>
      Apply(st, b, l, unrpmize) == st.(subpkgName := Some(Capture(l, PackageLine)), inSubpackage := true)
    ensures b == RequiresTag ==>
      Apply(st, b, l, unrpmize) ==
        st.(meta := st.meta.(reqs := Some(st.meta.reqs.GetOr([]) + [Capture(l, RequiresLine)])))
    ensures b == BuildRequiresTag ==>
      Apply(st, b, l, unrpmize) ==
        st.(meta := st.meta.(buildReqs := Some(st.meta.buildReqs.GetOr([]) + [Capture(l, BuildRequiresLine)])))
    ensures b == ChangelogStart ==> Apply(st, b, l, unrpmize) == st.(inChangelog := true)
    ensures b == MainFilesStart ==> Apply(st, b, l, unrpmize) == st.(subpkgName := None, inFiles := true)
    ensures b == SubpkgFilesStart ==>
      Apply(st, b, l, unrpmize) == st.(subpkgName := Some(Capture(l, SubpkgFilesLine)), inFiles := true)
  {
  }

  /** What the two mode branches and the fall-through do to the state. */
  lemma ApplyModes(st: ScanState, b: Branch, l: string, unrpmize: string -> string)
    ensures b == ChangelogText ==>
      Apply(st, b, l, unrpmize) == st.(meta := st.meta.(changelog := Some(st.meta.changelog.GetOr([]) + l)))
    ensures b == FilesText ==>
      Apply(st, b, l, unrpmize) ==
        st.(meta := st.meta.(files := AddFileLine(st.meta.files, FilesTarget(st), unrpmize(Strip(l)))))
    ensures b == Ignored ==> Apply(st, b, l, unrpmize) == st
  {
  }

  /** Only such a line changes the changelog text or the file lists: in
      particular no line reaches the file lists after %changelog. */
  lemma StepTextOnlyUnmatched(st: ScanState, l: string, unrpmize: string -> string)
    ensures Step(st, l, unrpmize).meta.changelog != st.meta.changelog ==> Unmatched(st, l) && st.inChangelog
    ensures Step(st, l, unrpmize).meta.files != st.meta.files ==>
      Unmatched(st, l) && !st.inChangelog && st.inFiles
  {
    ClassifyUnmatched(st, l);
    ApplyFrame(st, Classify(st, l), l, unrpmize);
  }

  // ---------------------------------------------------------------------
  // Properties of the whole scan

  /** `parse` stores the input unchanged under `:contents`. */
  lemma {:induction false} ScanKeepsContents(st: ScanState, ls: seq<string>, unrpmize: string -> string)
    ensures Scan(st, ls, unrpmize).meta.contents == st.meta.contents
    decreases |ls|
  {
    if ls != [] {
      ScanKeepsContents(st, ls[..|ls| - 1], unrpmize);
      var before := Scan(st, ls[..|ls| - 1], unrpmize);
      ApplyPreserves(before, Classify(before, ls[|ls| - 1]), ls[|ls| - 1], unrpmize);
    }
  }

  lemma ParseKeepsContents(spec: string, unrpmize: string -> string)
    ensures Parse(spec, unrpmize).contents == spec
  {
    ScanKeepsContents(Initial(spec), Lines(spec), unrpmize);
  }

  /** The pattern of `mk` as a test on lines, and its capture. */
  function LineTest(mk: Marker): string -> bool {
    l => LineIs(l, mk)
  }

  function CaptureOf(mk: Marker): string -> string {
    l => Capture(l, mk)
  }

  /** Index of the first line of `ls` that matches `mk`, or `|ls|`. */
  function FirstLineIndex(ls: seq<string>, mk: Marker): nat {
    FirstIndex(ls, LineTest(mk))
  }

  /** The captures of the `mk` lines before the first %package line, in
      order. */
  function TopLevelCaptures(ls: seq<string>, mk: Marker): seq<string> {
    Collect(ls[..FirstLineIndex(ls, PackageLine)], LineTest(mk), CaptureOf(mk))
  }

  function NonEmpty(s: seq<string>): Option<seq<string>> {
    if s == [] then None else Some(s)
  }

  /** `in_subpackage` is set by the first %package line and stays set. */
  lemma {:induction false} ScanSubpackage(spec: string, ls: seq<string>, unrpmize: string -> string)
    ensures Scan(Initial(spec), ls, unrpmize).inSubpackage <==> FirstLineIndex(ls, PackageLine) < |ls|
    decreases |ls|
  {
    if ls != [] {
      var init, l := ls[..|ls| - 1], ls[|ls| - 1];
      assert ls == init + [l];
      ScanSubpackage(spec, init, unrpmize);
      FirstIndexSnoc(init, l, LineTest(PackageLine));
      StepSubpackage(Scan(Initial(spec), init, unrpmize), l, unrpmize);
    }
  }

  /** One more line extends the top-level captures of kind `mk` exactly
      when it is such a line and no %package line came before it. */
  lemma TopLevelStep(init: seq<string>, l: string, mk: Marker, inSubpackage: bool)
    requires mk == RequiresLine || mk == BuildRequiresLine
    requires inSubpackage <==> FirstLineIndex(init, PackageLine) < |init|
    ensures TopLevelCaptures(init + [l], mk) ==
      if LineIs(l, mk) && !inSubpackage then TopLevelCaptures(init, mk) + [Capture(l, mk)]
      else TopLevelCaptures(init, mk)
  {
    CollectBeforeSnoc(init, l, LineTest(PackageLine), LineTest(mk), CaptureOf(mk));
    if LineIs(l, PackageLine) && LineIs(l, mk) {
      LeadOf(l, PackageLine);
      LeadOf(l, mk);
    }
  }

  lemma NonEmptySnoc(before: Option<seq<string>>, prev: seq<string>, c: string)
    requires before == NonEmpty(prev)
    ensures Some(before.GetOr([]) + [c]) == NonEmpty(prev + [c])
  {
  }

  /** Requires: and BuildRequires: lines are collected, trimmed and in
      document order, exactly while no %package line has been seen. */
  lemma {:induction false} ScanDeps(spec: string, ls: seq<string>, mk: Marker, unrpmize: string -> string)
    requires mk == RequiresLine || mk == BuildRequiresLine
    ensures DepField(Scan(Initial(spec), ls, unrpmize).meta, mk) == NonEmpty(TopLevelCaptures(ls, mk))
    decreases |ls|
  {
    if ls == [] {
      assert TopLevelCaptures(ls, mk) == [];
    } else {
      var init, l := ls[..|ls| - 1], ls[|ls| - 1];
      assert ls == init + [l];
      ScanDeps(spec, init, mk, unrpmize);
      ScanSubpackage(spec, init, unrpmize);
      var st := Scan(Initial(spec), init, unrpmize);
      TopLevelStep(init, l, mk, st.inSubpackage);
      StepDepField(st, l, mk, unrpmize);
      NonEmptySnoc(DepField(st.meta, mk), TopLevelCaptures(init, mk), Capture(l, mk));
    }
  }

  lemma ParseDeps(spec: string, mk: Marker, unrpmize: string -> string)
    requires mk == RequiresLine || mk == BuildRequiresLine
    ensures DepField(Parse(spec, unrpmize), mk) == NonEmpty(TopLevelCaptures(Lines(spec), mk))
  {
    ScanDeps(spec, Lines(spec), mk, unrpmize);
  }

  /** `in_changelog` is set by the first %changelog line and never reset,
      and no changelog text exists before it. */
  lemma {:induction false} ScanChangelogMode(spec: string, ls: seq<string>, unrpmize: string -> string)
    ensures Scan(Initial(spec), ls, unrpmize).inChangelog <==> FirstLineIndex(ls, ChangelogLine) < |ls|
    ensures Scan(Initial(spec), ls, unrpmize).meta.changelog.Some? ==>
      Scan(Initial(spec), ls, unrpmize).inChangelog
    decreases |ls|
  {
    if ls != [] {
      var init, l := ls[..|ls| - 1], ls[|ls| - 1];
      assert ls == init + [l];
      ScanChangelogMode(spec, init, unrpmize);
      FirstIndexSnoc(init, l, LineTest(ChangelogLine));
      var st := Scan(Initial(spec), init, unrpmize);
      StepChangelogMode(st, l, unrpmize);
      StepTextOnlyUnmatched(st, l, unrpmize);
    }
  }

  /** Without a %changelog line there are no changelog entries. */
  lemma ParseWithoutChangelog(spec: string, unrpmize: string -> string)
    requires forall i :: 0 <= i < |Lines(spec)| ==> !LineIs(Lines(spec)[i], ChangelogLine)
    ensures Parse(spec, unrpmize).changelog.None?
    ensures Parse(spec, unrpmize).changelogEntries == []
  {
    ScanChangelogMode(spec, Lines(spec), unrpmize);
  }

  /** Every file list of the scan has its own key, and no stored file line
      is blank. */
  lemma {:induction false} ScanFilesWellFormed(st: ScanState, ls: seq<string>, unrpmize: string -> string)
    requires DistinctKeys(st.meta.files) && NoBlankEntries(st.meta.files)
    ensures DistinctKeys(Scan(st, ls, unrpmize).meta.files)
    ensures NoBlankEntries(Scan(st, ls, unrpmize).meta.files)
    decreases |ls|
  {
    if ls != [] {
      ScanFilesWellFormed(st, ls[..|ls| - 1], unrpmize);
      var before := Scan(st, ls[..|ls| - 1], unrpmize);
      ApplyPreserves(before, Classify(before, ls[|ls| - 1]), ls[|ls| - 1], unrpmize);
    }
  }

  lemma ParseFilesWellFormed(spec: string, unrpmize: string -> string)
    ensures DistinctKeys(Parse(spec, unrpmize).files)
    ensures NoBlankEntries(Parse(spec, unrpmize).files)
  {
    ScanFilesWellFormed(Initial(spec), Lines(spec), unrpmize);
  }
}
