/** `Polisher::RPMSpec`: an object holding the metadata hash of one RPM
    spec. `parse` builds it line by line, `update_to` changes it to follow a
    new gem release, and `to_string` patches the stored document. Each method
    is proved against the function of `Parser`, `Reconcile` or `Render` that
    states what it computes. */
module Polisher {
  import opened Wrappers
  import opened Strings
  import opened Matchers
  import opened SpecData
  import opened Parser
  import opened Reconcile
  import opened Render
  import Sequences

  /** What the update methods read from the gem: its version, the names of
      its runtime and development dependencies, and its file list, an array
      that `update_files_from` changes in place. */
  class GemSource {
    const version: string
    const deps: seq<string>
    const devDeps: seq<string>
    var files: seq<string>

    constructor (version: string, deps: seq<string>, devDeps: seq<string>, files: seq<string>)
      ensures this.version == version && this.deps == deps && this.devDeps == devDeps
      ensures this.files == files
    {
      this.version := version;
      this.deps := deps;
      this.devDeps := devDeps;
      this.files := files;
    }
  }

  class RPMSpec {
    var metadata: Metadata

    constructor (metadata: Metadata)
      ensures this.metadata == metadata
    {
      this.metadata := metadata;
    }

    /** `RPMSpec.parse(spec)`: the `each_line` loop with its chain of
        branches, then the changelog split into entries. */
    static method Parse(spec: string, unrpmize: string -> string) returns (r: RPMSpec)
      ensures fresh(r)
      ensures r.metadata == Parser.Parse(spec, unrpmize)
    {
      var inSubpackage, inChangelog, inFiles := false, false, false;
      var subpkgName: Option<string> := None;
      var meta := Initial(spec).meta;
      var ls := Lines(spec);
      var i := 0;
      while i < |ls|
        invariant 0 <= i <= |ls|
        invariant ScanState(inSubpackage, inChangelog, inFiles, subpkgName, meta) == Scan(Initial(spec), ls[..i], unrpmize)
      {
        var next := EachLine(ScanState(inSubpackage, inChangelog, inFiles, subpkgName, meta), ls[i], unrpmize);
        inSubpackage, inChangelog, inFiles, subpkgName, meta :=
          next.inSubpackage, next.inChangelog, next.inFiles, next.subpkgName, next.meta;
        assert ls[..i + 1][..i] == ls[..i];
        i := i + 1;
      }
      assert ls[..i] == ls;
      meta := meta.(changelogEntries := ChangelogEntries(meta.changelog));
      r := new RPMSpec(meta);
    }

    /** One turn of the `each_line` block of `parse`, on the flags, the
        subpackage name and the metadata of `st`: the branches for comments
        and the name, version and release tags. */
    static method EachLine(st: ScanState, l: string, unrpmize: string -> string) returns (next: ScanState)
      ensures next == Step(st, l, unrpmize)
    {
      var meta := st.meta;
      ClassifyHead(st, l);
      ApplyHead(st, Classify(st, l), l, unrpmize);
      if IsComment(l) {
        next := st;
      } else if GemNameCapture(l).Some? {
        next := st.(meta := meta.(gemName := GemNameCapture(l)));
      } else if TakesSpecName(l) {
        next := st.(meta := meta.(gemName := SpecNameCapture(l)));
      } else if LineIs(l, VersionLine) {
        next := st.(meta := meta.(version := Some(Capture(l, VersionLine))));
      } else if LineIs(l, ReleaseLine) {
        next := st.(meta := meta.(release := Some(Capture(l, ReleaseLine))));
      } else {
        next := EachSectionLine(st, l, unrpmize);
      }
    }

    /** The branches of the chain for `%package`, the requirement tags,
        `%changelog` and the two `%files` forms. */
    static method EachSectionLine(st: ScanState, l: string, unrpmize: string -> string) returns (next: ScanState)
      requires PastHead(l)
      ensures next == Step(st, l, unrpmize)
    {
      var inSubpackage, meta := st.inSubpackage, st.meta;
      ClassifySection(st, l);
      ApplySection(st, Classify(st, l), l, unrpmize);
      if LineIs(l, PackageLine) {
        next := st.(subpkgName := Some(Capture(l, PackageLine)), inSubpackage := true);
      } else if LineIs(l, RequiresLine) && !inSubpackage {
        next := st.(meta := meta.(reqs := Some(meta.reqs.GetOr([]) + [Capture(l, RequiresLine)])));
      } else if LineIs(l, BuildRequiresLine) && !inSubpackage {
        next := st.(meta := meta.(buildReqs := Some(meta.buildReqs.GetOr([]) + [Capture(l, BuildRequiresLine)])));
      } else if LineIs(l, ChangelogLine) {
        next := st.(inChangelog := true);
      } else if LineIs(l, FilesLine) {
        next := st.(subpkgName := None, inFiles := true);
      } else if LineIs(l, SubpkgFilesLine) {
        next := st.(subpkgName := Some(Capture(l, SubpkgFilesLine)), inFiles := true);
      } else {
        next := EachTextLine(st, l, unrpmize);
      }
    }

    /** A line no pattern claims: changelog text once `%changelog` has been
        seen, else a file line inside a `%files` section. */
    static method EachTextLine(st: ScanState, l: string, unrpmize: string -> string) returns (next: ScanState)
      requires Unmatched(st, l)
      ensures next == Step(st, l, unrpmize)
    {
      var meta := st.meta;
      StepUnmatched(st, l, unrpmize);
      if st.inChangelog {
        next := st.(meta := meta.(changelog := Some(meta.changelog.GetOr([]) + l)));
      } else if st.inFiles {
        var tgt := if st.subpkgName.None? then meta.gemName else st.subpkgName;
        var files := EnsureKey(meta.files, tgt);
        var sl := unrpmize(Strip(l));
        if !IsBlank(sl) {
          files := AppendEntry(files, tgt, sl);
        }
        assert files == AddFileLine(meta.files, FilesTarget(st), sl);
        next := st.(meta := meta.(files := files));
      } else {
        next := st;
      }
    }

    /** `update_to(new_source)`: dependencies, then files, then version,
        release and changelog. */
    method UpdateTo(src: GemSource, rpmize: string -> string, stamp: string)
      modifies this, src
      ensures metadata == Updated(old(metadata), src.version, src.deps, src.devDeps, old(src.files), rpmize, stamp)
      ensures src.files == NewFiles(old(metadata).files, old(src.files), rpmize)
    {
      UpdateDepsFrom(src);
      UpdateFilesFrom(src, rpmize);
      UpdateMetadataFrom(src, stamp);
    }

    /** `update_deps_from`: two loops sort the old entries into natives and
        extras, then each list is rebuilt with the gem's dependencies. */
    method UpdateDepsFrom(src: GemSource)
      modifies this
      ensures metadata == old(metadata).(
        reqs := Some(RebuildDeps(old(metadata).reqs, src.deps)),
        buildReqs := Some(RebuildDeps(old(metadata).buildReqs, src.devDeps)))
    {
      var reqNatives, reqExtras := SortDeps(metadata.reqs.GetOr([]), src.deps);
      var breqNatives, breqExtras := SortDeps(metadata.buildReqs.GetOr([]), src.devDeps);
      metadata := metadata.(
        reqs := Some(reqNatives + reqExtras + GemReqs(src.deps)),
        buildReqs := Some(breqNatives + breqExtras + GemReqs(src.devDeps)));
    }

    /** One `each` loop of `update_deps_from` over the old list `rs`. */
    static method SortDeps(rs: seq<string>, deps: seq<string>) returns (natives: seq<string>, extras: seq<string>)
      ensures natives == Natives(rs) && extras == Extras(rs, deps)
    {
      natives, extras := [], [];
      var i := 0;
      while i < |rs|
        invariant 0 <= i <= |rs|
        invariant natives == Natives(rs[..i]) && extras == Extras(rs[..i], deps)
      {
        var r := rs[i];
        var name := GemReqName(r);
        if name.None? {
          natives := natives + [r];
        } else if name.value !in deps {
          extras := extras + [r];
        }
        SortStep(rs, i, deps);
        i := i + 1;
      }
      assert rs[..i] == rs;
    }

    /** `update_files_from`: for each package, every file still to add is
        deleted from the gem's own file array and put back rpmized unless the
        package's manifest covers it; the array, changed in place, becomes
        `:new_files`. */
    method UpdateFilesFrom(src: GemSource, rpmize: string -> string)
      modifies this, src
      ensures src.files == NewFiles(old(metadata).files, old(src.files), rpmize)
      ensures metadata == old(metadata).(newFiles := Some(src.files))
    {
      ghost var start := src.files;
      var fs := metadata.files;
      var k := 0;
      while k < |fs|
        invariant 0 <= k <= |fs|
        invariant metadata == old(metadata) && fs == metadata.files
        invariant src.files == NewFiles(fs[..k], start, rpmize)
      {
        FilePass(src, fs[k].entries, rpmize);
        assert fs[..k + 1][..k] == fs[..k];
        k := k + 1;
      }
      assert fs[..k] == fs;
      metadata := metadata.(newFiles := Some(src.files));
    }

    /** One turn of the outer loop of `update_files_from`, for a package
        whose manifest is `sfs`: the inner loop over `new_source.files &
        to_add`. */
    static method FilePass(src: GemSource, sfs: seq<string>, rpmize: string -> string)
      modifies src
      ensures src.files == Pass(old(src.files), sfs, rpmize)
    {
      var gs := Dedup(src.files);
      var j := 0;
      while j < |gs|
        invariant 0 <= j <= |gs|
        invariant src.files == PassOver(old(src.files), sfs, gs[..j], rpmize)
      {
        var g := gs[j];
        var hasFile := Covers(sfs, g);
        src.files := RemoveAll(src.files, g);
        if !hasFile {
          src.files := src.files + [rpmize(g)];
        }
        PassOverStep(old(src.files), sfs, gs, j, rpmize);
        j := j + 1;
      }
      assert gs[..j] == gs;
    }

    /** `update_metadata_from`: the gem's version, the fixed release and a
        new changelog entry in front. */
    method UpdateMetadataFrom(src: GemSource, stamp: string)
      modifies this
      ensures metadata == old(metadata).(
        version := Some(src.version),
        release := Some(Release),
        changelogEntries := [ChangelogEntry(stamp, src.version)] + old(metadata).changelogEntries)
    {
      metadata := metadata.(version := Some(src.version), release := Some(Release));
      var entry := ChangelogEntry(stamp, src.version);
      metadata := metadata.(changelogEntries := [entry] + metadata.changelogEntries);
    }

    /** `to_string`: `gsub!` changes the stored document itself, so the
        substituted contents stay in the metadata; the rest is built on a
        copy. */
    method ToString() returns (r: Result<string, RenderError>)
      modifies this
      ensures r == Render.Render(old(metadata))
      ensures metadata == old(metadata).(contents := SubstitutedContents(old(metadata)))
    {
      var contents := metadata.contents;
      contents := SubstituteField(contents, VersionLine, metadata.version.GetOr([]));
      contents := SubstituteField(contents, ReleaseLine, metadata.release.GetOr([]));
      metadata := metadata.(contents := contents);
      var withChangelog :- ReplaceChangelog(contents, metadata.changelogEntries);
      var withDeps :- SpliceDeps(withChangelog, metadata.reqs, metadata.buildReqs);
      r := InsertNewFiles(withDeps, metadata.newFiles);
    }
  }

  /** After `update_to`, `to_string` no longer meets an unset list: it
      fails only on a document without the lines it patches. */
  lemma UpdatedRenders(m: Metadata, version: string, deps: seq<string>, devDeps: seq<string>,
                        files: seq<string>, rpmize: string -> string, stamp: string)
    ensures var u := Updated(m, version, deps, devDeps, files, rpmize, stamp);
      Render.Render(u).Err? ==> Render.Render(u).error !in {RequiresUnset, BuildRequiresUnset, NewFilesUnset}
  {
    RenderFailsOnlyOnShape(Updated(m, version, deps, devDeps, files, rpmize, stamp));
  }
}
