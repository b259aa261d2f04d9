# Polisher RPMSpec in Dafny

A model of `Polisher::RPMSpec`, the part of Polisher that reads an RPM spec
file of a Ruby gem package, updates it to a new gem release, and writes it
back. It covers the three operations of the class and the regular
expressions they share.

- `RPMSpec.parse` scans the document in one `each_line` pass. The scan keeps:
  - three flags: inside a subpackage, inside the changelog, inside a files section;
  - the current subpackage name;
  - a metadata record: gem name, version, release, Requires, BuildRequires,
    file lists per package, and the raw changelog text.

  Each line takes the first branch of a fixed `if`/`elsif` chain. At the end,
  the changelog text is split into entries.
- `update_to` applies three updates in order:
  - it rebuilds both dependency lists against the gem's dependencies;
  - it computes the gem files the manifest does not yet cover (`new_files`);
  - it sets the version and release, and puts a new changelog entry in front.
- `to_string` patches the stored document:
  - it substitutes the Version and Release lines;
  - it replaces the text after `%changelog` with the entries;
  - it replaces the span of Requires/BuildRequires lines with the rendered lists;
  - it inserts the new file lines before the end of the main `%files` section.

## Module layout

| Module | File | What it holds |
|---|---|---|
| `Wrappers` | `wrappers.dfy` | `Option` and `Result` |
| `Strings` | `strings.dfy` | the Ruby built-ins the class uses: `strip`, `rstrip`, `each_line`, `split`, `join`, and `gsub` with a literal pattern |
| `Sequences` | `sequences.dfy` | generic filter, collect and partition facts |
| `Matchers` | `matchers.dfy` | the matcher constants as predicates on a line or on a document position, with their captures |
| `SpecData` | `specdata.dfy` | the metadata hash as a record; `meta[:files]` as an ordered list of key/list pairs |
| `Parser` | `parser.dfy` | `parse` as functions (`Classify`, `Apply`, `Step`, `Scan`, `Parse`) and lemmas about them |
| `Reconcile` | `reconcile.dfy` | the three update steps as functions on values, and their lemmas |
| `Render` | `render.dfy` | `index`, `rindex`, `gsub!`, `slice!` and `insert` on the document; each step of `to_string` and its result |
| `Polisher` | `polisher.dfy` | the class `RPMSpec`, holding its metadata in a field, and the gem `GemSource`, whose file array is changed in place |

Each imperative method of `RPMSpec` is proved against the function of
`Parser`, `Reconcile` or `Render` that states what it computes.

The string conversions `rpmize`/`unrpmize` are function parameters. So is
`stamp`: the date, author and global version at the head of the changelog
entry. `to_string` raises on `nil` at several points. There the model
returns a `RenderError` naming that point, in the order Ruby reaches them.
It does not require the document to contain the lines it patches.

## Model

| member | source | states |
|---|---|---|
| Strings.Lines | lib/polisher/rpmspec.rb:63 | `each_line` splits the document into non-empty lines that concatenate back to it; every line but the last ends in a line feed, and no line has one elsewhere |
| Strings.Strip | lib/polisher/rpmspec.rb:69 | definition of `strip` as `lstrip` then `rstrip`: no strip character is left at either end, and the result is no longer than the input; Strings.StripPadded fixes it on every input |
| Strings.RStrip | lib/polisher/rpmspec.rb:204 | `rstrip`: a prefix of the text, everything after it is white space, and it does not itself end in white space |
| Strings.StripPadded | lib/polisher/rpmspec.rb:69 | `strip` removes exactly the white-space padding around a stripped text |
| Strings.SplitAll | lib/polisher/rpmspec.rb:122 | the fields of `split` join back to the text and no field contains the separator; the cuts are the leftmost ones, so each field but the last ends where the next separator first begins, and the first field ends at the first separator |
| Strings.Join | lib/polisher/rpmspec.rb:223 | definition of `Array#join(sep)`: the elements with `sep` between each two; Strings.SplitAll and Strings.JoinSplit tie it to `split` |
| Strings.FindText | lib/polisher/rpmspec.rb:221 | `index("\n", from)`: the first occurrence at or after `from`, and none when there is none |
| Strings.Split | lib/polisher/rpmspec.rb:122 | definition of `split(sep)`: the fields of Strings.SplitAll with the trailing empty ones dropped; specified by Strings.JoinSplit and Strings.SplitEmpty |
| Strings.JoinSplit | lib/polisher/rpmspec.rb:122 | joining the fields of `split` gives back the text, less trailing separators |
| Strings.SplitEmpty | lib/polisher/rpmspec.rb:122 | splitting the empty text gives no entries |
| Strings.DeleteAll | lib/polisher/rpmspec.rb:179 | `gsub(sf, '')` changes the file name exactly when `sf` is non-empty and occurs in it |
| Matchers.IsComment | lib/polisher/rpmspec.rb:14 | definition of COMMENT_MATCHER on one line: optional white space, then `#`; Parser.StepComment states its branch |
| Matchers.GemNameCapture | lib/polisher/rpmspec.rb:15 | GEM_NAME_MATCHER and `$1.strip`: `%global`, white space, `gem_name`, one white-space character, then the stripped rest; a capture only on a `%global` line |
| Matchers.SpecNameCapture | lib/polisher/rpmspec.rb:16 | SPEC_NAME_MATCHER and `$1.strip`: `Name:`, white space, `rubygem-`, then the stripped rest; a capture only on a `Name:` line |
| Matchers.PatternAt | lib/polisher/rpmspec.rb:17-25 | definition of the keyword matchers at a line start: the keyword, plus the white space `%package\s` needs and the end of line `%changelog$` and `%files$` need; Parser.KeywordsClash and Parser.PercentLine state which of them can share a line |
| Matchers.LineIs | lib/polisher/rpmspec.rb:17-25 | definition of `l =~ M` for one line of `each_line`, where `^` can only be the start of the line; used by every Parser.Classify* and Parser.Step* row |
| Matchers.MarkerAt | lib/polisher/rpmspec.rb:17-25 | definition of a match of `M` at a position of the whole document, which needs a line start there; Render.IndexOf and Render.RIndexOf search for it |
| Matchers.Capture | lib/polisher/rpmspec.rb:17-25 | `$1.strip` of a keyword matcher: the stripped rest of the line after the keyword (after one more character for `%package`), never longer than the line |
| Matchers.GemReqName | lib/polisher/rpmspec.rb:21 | SPEC_GEM_REQ_MATCHER and `$1` on a requirement string, read line by line; specified by Matchers.AfterLastOpen, Matchers.GemReqRoundTrip and Matchers.GemReqIsGemReq, and exact only without a line feed (see "Left out") |
| Matchers.AfterLastOpen | lib/polisher/rpmspec.rb:21 | the text after the last `rubygem(` is the capture that the greedy leading `.*` leaves |
| Matchers.GemReqRoundTrip | lib/polisher/rpmspec.rb:21 | SPEC_GEM_REQ_MATCHER gives back the name of a rendered `rubygem(name)` when the name is on one line and holds no `rubygem(` |
| Matchers.GemReqIsGemReq | lib/polisher/rpmspec.rb:165 | every rendered `rubygem(name)` of a one-line name matches SPEC_GEM_REQ_MATCHER |
| SpecData.EnsureKey | lib/polisher/rpmspec.rb:113-114 | the default on `files[k]` adds key `k` at the end only when it is missing, and keeps the keys distinct |
| SpecData.AppendEntry | lib/polisher/rpmspec.rb:117 | `files[k] << e` appends `e` to the list of `k` and leaves every other list unchanged |
| SpecData.AppendEntryNoBlank | lib/polisher/rpmspec.rb:117 | appending a non-blank line keeps every stored line non-blank |
| Parser.TakesSpecName | lib/polisher/rpmspec.rb:72-73 | definition of the Name branch condition: a `rubygem-` capture that is not the literal `%{gem_name}`; Parser.StepMacroName states the exception |
| Parser.FilesTarget | lib/polisher/rpmspec.rb:112 | definition of `tgt`: the subpackage name, or the gem name when there is none; Parser.StepMainFiles and Parser.StepSubpkgFiles state where file lines go |
| Parser.Classify | lib/polisher/rpmspec.rb:64-118 | definition of the `if`/`elsif` chain as the first branch whose condition holds; the precedence is stated by Parser.ClassifyPackageLine, ClassifyDepLine, PercentLine, ClassifyChangelogLine, ClassifyFilesLine and ClassifyDepTag |
| Parser.Apply | lib/polisher/rpmspec.rb:64-118 | definition of each branch body as a change of the scan state; specified by Parser.ApplyFrame, ApplyPreserves and AddFileLineKeeps |
| Parser.Step | lib/polisher/rpmspec.rb:63-118 | definition of one turn of the `each_line` block, the body of the branch Parser.Classify picks; specified by the Parser.Step* rows |
| Parser.Scan | lib/polisher/rpmspec.rb:63-119 | definition of the state after the lines in turn; specified by Parser.ScanKeepsContents, ScanSubpackage, ScanDeps, ScanChangelogMode and ScanFilesWellFormed |
| Parser.Parse | lib/polisher/rpmspec.rb:57-126 | definition of the metadata `parse` builds: the scan of every line, then the changelog entries; specified by Parser.ParseKeepsContents, ParseDeps, ParseWithoutChangelog and ParseFilesWellFormed |
| Parser.ClassifyPackageLine | lib/polisher/rpmspec.rb:82-84 | a `%package` line takes the subpackage branch in every state: none of the comment, gem-name, Name, Version and Release patterns tried before it matches such a line |
| Parser.ClassifyDepLine | lib/polisher/rpmspec.rb:86-94 | a Requires (BuildRequires) line outside a subpackage takes the branch that collects it: no earlier pattern matches it, and a BuildRequires line is no Requires line |
| Parser.PercentLine | lib/polisher/rpmspec.rb:64-94 | a `%changelog` or `%files` line matches none of the patterns tried before those branches |
| Parser.ClassifyChangelogLine | lib/polisher/rpmspec.rb:96-97 | a `%changelog` line takes the branch that sets the changelog flag, in every state |
| Parser.ClassifyFilesLine | lib/polisher/rpmspec.rb:99-105 | a bare `%files` line selects the main package, and a `%files x` line that is not a bare one selects the subpackage, in every state |
| Parser.ClassifyDepTag | lib/polisher/rpmspec.rb:86-94 | a line takes a requirement branch exactly when it matches that tag outside a subpackage |
| Parser.ApplyFrame | lib/polisher/rpmspec.rb:63-118 | each branch changes only its own fields; the subpackage and changelog flags are never reset |
| Parser.ApplyPreserves | lib/polisher/rpmspec.rb:62-118 | no branch changes `:contents`, merges two file keys or stores a blank file line |
| Parser.AddFileLineKeeps | lib/polisher/rpmspec.rb:111-117 | a files-section line creates its target key, and stores its text only when non-blank |
| Parser.StepComment | lib/polisher/rpmspec.rb:64-65 | a comment line changes nothing |
| Parser.StepMacroName | lib/polisher/rpmspec.rb:72-74 | `Name: rubygem-%{gem_name}` never overwrites the gem name |
| Parser.StepSubpackage | lib/polisher/rpmspec.rb:82-84 | one line sets the subpackage flag exactly when it is a `%package` line |
| Parser.StepDepField | lib/polisher/rpmspec.rb:86-94 | one line appends its trimmed capture to Requires (BuildRequires) exactly when it is such a line outside a subpackage |
| Parser.StepChangelogMode | lib/polisher/rpmspec.rb:96-97 | one line sets the changelog flag exactly when it is a `%changelog` line |
| Parser.StepMainFiles | lib/polisher/rpmspec.rb:99-112 | after a bare `%files` line, file lines go to the current gem name's key |
| Parser.StepSubpkgFiles | lib/polisher/rpmspec.rb:103-112 | after `%files x`, file lines go to key `x` |
| Parser.StepUnmatched | lib/polisher/rpmspec.rb:107-117 | an unmatched line is appended to the changelog text once `%changelog` was seen, else added to the current file list in a files section, else changes nothing |
| Parser.StepTextOnlyUnmatched | lib/polisher/rpmspec.rb:107-117 | only unmatched lines change the changelog text or the file lists; after `%changelog` none reaches the file lists |
| Parser.ChangelogEntries | lib/polisher/rpmspec.rb:121-123 | the entries are the `"\n\n"` pieces of the changelog text, each stripped and in order; there are none without a changelog |
| Parser.StripAll | lib/polisher/rpmspec.rb:123 | `collect!` with `strip` strips each element and removes none |
| Parser.ScanKeepsContents | lib/polisher/rpmspec.rb:62-119 | the scan never changes `:contents` |
| Parser.ParseKeepsContents | lib/polisher/rpmspec.rb:57-126 | `parse` stores the input unchanged under `:contents` |
| Parser.ScanSubpackage | lib/polisher/rpmspec.rb:82-84 | the subpackage flag is set exactly when some `%package` line has been seen |
| Parser.ScanDeps | lib/polisher/rpmspec.rb:86-94 | Requires (BuildRequires) are the trimmed captures of the matching lines before the first `%package` line, in order; unset when there are none |
| Parser.ParseDeps | lib/polisher/rpmspec.rb:57-126 | the same for the whole document |
| Parser.ScanChangelogMode | lib/polisher/rpmspec.rb:96-109 | the changelog flag is set exactly when some `%changelog` line has been seen, and changelog text exists only then |
| Parser.ParseWithoutChangelog | lib/polisher/rpmspec.rb:107-122 | without a `%changelog` line there is no changelog text and there are no entries |
| Parser.ScanFilesWellFormed | lib/polisher/rpmspec.rb:111-117 | during the scan every file key is distinct and no stored file line is blank |
| Parser.ParseFilesWellFormed | lib/polisher/rpmspec.rb:57-126 | every file key of a parsed document is distinct, and no stored file line is blank |
| Reconcile.GemReqs | lib/polisher/rpmspec.rb:165 | each dependency `d` becomes `rubygem(d)`, in order |
| Reconcile.Natives | lib/polisher/rpmspec.rb:146-152 | definition of `non_gem_requires` after the loop: the old entries SPEC_GEM_REQ_MATCHER does not match, in order; Reconcile.DepsPartition and Polisher.RPMSpec.SortDeps specify it |
| Reconcile.Extras | lib/polisher/rpmspec.rb:146-152 | definition of `extra_gem_requires` after the loop: the library entries naming a gem outside the dependencies, in order; Reconcile.DepsPartition and Polisher.RPMSpec.SortDeps specify it |
| Reconcile.RebuildDeps | lib/polisher/rpmspec.rb:139-170 | definition of the rebuilt list: natives, then extras, then every dependency rendered; specified by Reconcile.DepsPartition, RebuildDepsContents and RebuildDepsIdempotent |
| Reconcile.DepsPartition | lib/polisher/rpmspec.rb:146-152 | the loop sorts each old entry into exactly one of native, extra and current: the three are a permutation of the old list |
| Reconcile.RebuildDepsContents | lib/polisher/rpmspec.rb:139-170 | every native and every extra old entry survives; a current one survives only as a rendered dependency; every dependency is rendered; the natives come first, in order |
| Reconcile.GemReqsNames | lib/polisher/rpmspec.rb:147-165 | each rendered requirement names one of the dependencies again, for one-line dependency names without a `rubygem(` of their own |
| Reconcile.RebuildDepsIdempotent | lib/polisher/rpmspec.rb:139-170 | rebuilding a second time against the same plain names changes nothing |
| Reconcile.Covers | lib/polisher/rpmspec.rb:178-180 | a gem file is covered exactly when a non-empty manifest line occurs in its name |
| Reconcile.Dedup | lib/polisher/rpmspec.rb:176 | `a & a` has the same elements as `a`, each once, in the order of their first occurrences in `a` |
| Reconcile.FileStep | lib/polisher/rpmspec.rb:178-183 | definition of one turn of the inner block: every copy of the gem file deleted, and its rpmized form appended unless the manifest covers it; specified through Reconcile.PassOrigin and PassOverExact |
| Reconcile.PassOver | lib/polisher/rpmspec.rb:176-184 | definition of the inner loop over the gem files in order; specified by Reconcile.PassOverExact, and Polisher.RPMSpec.FilePass is proved against it |
| Reconcile.Pass | lib/polisher/rpmspec.rb:176-184 | definition of one package pass over `new_source.files & to_add`, which is `Reconcile.Dedup` of `to_add` since both names hold one array; specified by Reconcile.PassOrigin, PassDropsCovered and PassCollision |
| Reconcile.NewFiles | lib/polisher/rpmspec.rb:172-187 | with no package, `new_files` is the gem's file list unchanged |
| Reconcile.PassOrigin | lib/polisher/rpmspec.rb:176-184 | whatever one pass leaves is the rpmized form of a gem file that the package's manifest does not cover |
| Reconcile.NewFilesOrigin | lib/polisher/rpmspec.rb:172-187 | over any number of packages, every line of `new_files` is one gem file rpmized once per package, where each package's manifest missed the form the file had when that package's pass reached it |
| Reconcile.CoveredLater | lib/polisher/rpmspec.rb:175-184 | a gem file that a package's manifest covers is dropped when that package is alone, yet a package before it that covers nothing lets it through rpmized, and then the covering manifest no longer matches it, so it ends up rpmized twice |
| Reconcile.PassDropsCovered | lib/polisher/rpmspec.rb:176-184 | a covered gem file is never left by the pass of the package that covers it |
| Reconcile.PassOverExact | lib/polisher/rpmspec.rb:176-184 | partway through the inner loop, the list is the files not yet visited, then the rpmized uncovered files visited so far, in order |
| Reconcile.OnePackage | lib/polisher/rpmspec.rb:172-187 | with one package, `new_files` is the rpmized form of each distinct uncovered gem file, in order |
| Reconcile.PassCollision | lib/polisher/rpmspec.rb:176-183 | for any two uncovered files where `rpmize` maps the first onto the second, the pass leaves one line where `Kept` has two, because deleting the second also deletes the first one's rpmized form |
| Reconcile.ChangelogEntry | lib/polisher/rpmspec.rb:199-204 | definition of the heredoc entry after `rstrip`; Reconcile.ChangelogEntryLines fixes its text |
| Reconcile.ChangelogEntryLines | lib/polisher/rpmspec.rb:199-204 | the new entry is its header line then `- Update to version v`, with trailing white space of `v` removed |
| Reconcile.Updated | lib/polisher/rpmspec.rb:131-135 | `update_to` keeps the document, gem name, file lists and changelog text; it sets both requirement lists and `new_files`; it sets the version to the gem's and the release to `1%{?dist}`; it puts the new entry for that version in front of the old ones |
| Render.Found | lib/polisher/rpmspec.rb:220-249 | a search result becomes `Ok` exactly when something was found |
| Render.IndexOf | lib/polisher/rpmspec.rb:220-247 | `index(regexp, from)` gives the first match at or after `from`, or none |
| Render.RIndexOf | lib/polisher/rpmspec.rb:233-234 | the last match at or before the limit, or none |
| Render.RIndex | lib/polisher/rpmspec.rb:233-234 | `rindex(regexp, pos)` gives the last match at or before the start position, or none; a negative position counts from the end, one past the end is the end, and nothing is found when the start falls before 0 |
| Render.SubstituteFrom | lib/polisher/rpmspec.rb:216-217 | definition of `gsub!(/^Kw\s*(.*)$/, repl)`: at each line start with the keyword, the keyword, the white space after it (line feeds included) and the rest of that line are replaced; specified by Render.SubstituteFieldLines and Render.SubstituteSwallows |
| Render.SubstituteField | lib/polisher/rpmspec.rb:216-217 | definition of one `gsub!` with the replacement `Kw v`; Render.SubstituteFieldLines states its result line by line |
| Render.SubstitutedContents | lib/polisher/rpmspec.rb:216-217 | definition of the document after both substitutions, with an unset value interpolated as empty text |
| Render.SubstituteFieldLines | lib/polisher/rpmspec.rb:216-217 | when every Version (Release) line carries a value, `gsub!` replaces exactly those lines by `Version: v` and copies every other line |
| Render.SubstituteSwallows | lib/polisher/rpmspec.rb:216 | a Version line without a value swallows the next line, because `\s*` crosses the line feed |
| Render.ReplaceChangelog | lib/polisher/rpmspec.rb:220-223 | definition of the changelog step; specified by Render.ReplaceChangelogResult |
| Render.ReplaceChangelogResult | lib/polisher/rpmspec.rb:220-223 | everything up to the line feed of the first `%changelog` line is kept, and the rest replaced by the entries joined with a blank line; without that line, or without a line feed after it, it raises |
| Render.FirstDepLine | lib/polisher/rpmspec.rb:226-228 | definition of `tp`, the earlier of the first Requires and the first BuildRequires line; specified by Render.FirstDepLineIs |
| Render.LastDepLine | lib/polisher/rpmspec.rb:230-235 | definition of `ltp`, the later of the two `rindex` results from `pp`; specified by Render.LastDepLineIs |
| Render.DepSpan | lib/polisher/rpmspec.rb:226-237 | definition of the span `tp...ltpn` that `slice!` removes; specified by Render.DepSpanShape |
| Render.DepLines | lib/polisher/rpmspec.rb:239-241 | definition of the inserted text: a `Requires: r` line per requirement, then a `BuildRequires: r` line per build requirement, joined by line feeds |
| Render.SpliceDeps | lib/polisher/rpmspec.rb:226-242 | definition of the requirements step; specified by Render.SpliceDepsShape and Render.SpliceDepsNeedsLines |
| Render.FirstDepLineIs | lib/polisher/rpmspec.rb:226-228 | `tp` is the first Requires or BuildRequires line |
| Render.LastDepLineIs | lib/polisher/rpmspec.rb:230-235 | `ltp` is the last Requires or BuildRequires line at or before the first `%package` line, or before the end of the document |
| Render.DepSpanShape | lib/polisher/rpmspec.rb:226-237 | the removed span runs from the first requirement line to the line feed ending the last top-level one |
| Render.SpliceDepsShape | lib/polisher/rpmspec.rb:239-242 | the text before the first requirement line is kept, then come the rendered `Requires:` and `BuildRequires:` lines, then the text from that line feed on |
| Render.SpliceDepsNeedsLines | lib/polisher/rpmspec.rb:226-228 | with no Requires line, or with no BuildRequires line, `to_string` raises at that comparison |
| Render.FilesEnd | lib/polisher/rpmspec.rb:245-247 | definition of `lfp`; specified by Render.FilesEndIs |
| Render.InsertNewFiles | lib/polisher/rpmspec.rb:249 | definition of the new-files step; specified by Render.InsertNewFilesShape and Render.InsertGlues |
| Render.FilesEndIs | lib/polisher/rpmspec.rb:245-247 | `lfp` is the first `%files…` line after the first bare `%files`, or else the first `%changelog` line |
| Render.InsertNewFilesShape | lib/polisher/rpmspec.rb:249 | the joined new file lines, with a closing line feed, go in just before the line feed that precedes `lfp` (at the end when `lfp` is 0); the document is otherwise kept; unset new files raise |
| Render.InsertGlues | lib/polisher/rpmspec.rb:245-249 | for any document whose line before `lfp` (the next `%files…` line, or else `%changelog`) is not empty, even if it holds only white space, the first new file is glued onto that line: no line feed separates them |
| Render.InsertGluesSample | lib/polisher/rpmspec.rb:245-249 | for example, `/c` inserted into `%files`, `/a`, `%files b` yields the line `/a/c`, and the blank line lands after it |
| Render.Render | lib/polisher/rpmspec.rb:212-253 | definition of `to_string` as its four steps in order, stopping at the first error; specified by Render.RenderNeedsUpdates, Render.RenderFailsOnlyOnShape and Polisher.UpdatedRenders |
| Render.RenderNeedsUpdates | lib/polisher/rpmspec.rb:212-249 | `to_string` succeeds only once both requirement lists and `new_files` are set |
| Render.RenderFailsOnlyOnShape | lib/polisher/rpmspec.rb:212-249 | with those set, `to_string` fails only for want of a line the document lacks |
| Polisher.RPMSpec.Parse | lib/polisher/rpmspec.rb:57-126 | the `each_line` loop computes `Parser.Parse`, and so every property of it above |
| Polisher.RPMSpec.EachLine | lib/polisher/rpmspec.rb:63-80 | one turn of the loop is `Parser.Step` |
| Polisher.RPMSpec.EachSectionLine | lib/polisher/rpmspec.rb:82-105 | the remaining matcher branches are `Parser.Step` |
| Polisher.RPMSpec.EachTextLine | lib/polisher/rpmspec.rb:107-117 | the changelog and file-line branches are `Parser.Step` |
| Polisher.RPMSpec.UpdateTo | lib/polisher/rpmspec.rb:131-135 | the metadata become `Reconcile.Updated`, and the gem's own file array becomes `new_files` |
| Polisher.RPMSpec.UpdateDepsFrom | lib/polisher/rpmspec.rb:139-170 | both requirement lists become the rebuilt ones; nothing else changes |
| Polisher.RPMSpec.SortDeps | lib/polisher/rpmspec.rb:146-152 | the loop collects the natives and the extras of the old list, in order |
| Polisher.RPMSpec.UpdateFilesFrom | lib/polisher/rpmspec.rb:172-188 | the package loop leaves `Reconcile.NewFiles` in the gem's own file array and stores it as `new_files` |
| Polisher.RPMSpec.FilePass | lib/polisher/rpmspec.rb:176-184 | one pass of the inner loop changes the file array in place to `Reconcile.Pass` |
| Polisher.RPMSpec.UpdateMetadataFrom | lib/polisher/rpmspec.rb:190-205 | the version becomes the gem's, the release `1%{?dist}`, and one entry goes in front of the old entries |
| Polisher.RPMSpec.ToString | lib/polisher/rpmspec.rb:212-253 | the result is `Render.Render`; the stored document keeps the Version/Release substitutions made by `gsub!` |
| Polisher.UpdatedRenders | lib/polisher/rpmspec.rb:212-249 | after `update_to`, `to_string` fails only on a document without the lines it patches |

## Left out

- `lib/polisher/gemfile.rb` and `lib/polisher/yum.rb` are not part of this model. The first runs Bundler inside a changed working directory. The second shells out to `yum`. Only the name lists they produce matter, and those are the fields of `GemSource`.
- `method_missing` (rpmspec.rb:43-51) is dynamic dispatch onto the metadata hash. The record's fields are read directly instead.
- `AUTHOR`, `Time.now` and the global `$version` (rpmspec.rb:12, 200) come from the environment, the clock and global state. Together they form the `stamp` parameter.
- The bodies of `String#rpmize`/`#unrpmize` come from a file that is not part of this model. They are uninterpreted function parameters, so the `FILE_MACRO_MATCHERS` and `FILE_MACRO_REPLACEMENTS` tables (rpmspec.rb:27-34) are not modelled.
- Backslash sequences in a `gsub!` replacement string (`\1`, `\\`) are not interpreted. Versions and releases are taken literally.
- `blank?` is modelled for `\s` white space. ActiveSupport's Unicode white space beyond that is not modelled.
- `RPMSpec.new` with its default empty hash is not modelled. Every model `RPMSpec` holds a complete record. A hash without `:contents` would make `to_string` raise on `nil`.
- `update_files_from` stores under `:new_files` the very array that is `new_source.files` (rpmspec.rb:173, 187). A caller's later change to either array would show in the other and in `to_string`. The model copies the value into the metadata, so that sharing is not captured.
- The caller's string passed to `parse` is the same object as `:contents`. `gsub!` in `to_string` therefore also changes the caller's string. The model has no aliasing of strings: the change shows only in the metadata field.
- Render.SubstituteFieldLines: stated only for documents whose Version/Release lines all carry a value on the line. For a line without one the result is not line by line; Render.SubstituteSwallows shows that case.
- Reconcile.PassDropsCovered, Reconcile.PassOverExact and Reconcile.OnePackage: stated only when `rpmize` never maps one file of the list onto another. Reconcile.PassCollision shows what happens otherwise.
- Reconcile.NewFiles: "a covered gem file never reaches `new_files`" is stated only per pass (Reconcile.PassDropsCovered) and for one package (Reconcile.OnePackage). With several packages each pass tests the survivors of the one before, already rpmized, and rpmizes them again; Reconcile.NewFilesOrigin states what the whole loop does keep, and Reconcile.CoveredLater shows a covered file surviving.
- Matchers.GemReqName: exact only for requirement strings without a line feed, which are all that `parse` stores. Across a line feed Ruby's `\s*` can carry a match begun on one line onto a `rubygem(` on the next, giving a different `$1`; the model reads each line on its own instead.
- Reconcile.RebuildDepsIdempotent: stated only for dependency names on one line and without a `rubygem(` of their own. Other names need not match SPEC_GEM_REQ_MATCHER again.
- Ruby's version: before 2.6, `slice!(tp...nil)` raises on the `nil` end, which is the `DepsLineUnterminated` error. From 2.6 on, the same call removes through the end of the document; the model follows the older behaviour.
- Integer widths do not arise: all positions are unbounded naturals, as Ruby's are.
