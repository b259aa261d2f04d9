/** The metadata hash of an `RPMSpec` as a record with one field per key.
    A key that Ruby leaves unset (`nil`) is `None`; `:files` and
    `:changelog_entries` are always read through `||=`, so an empty sequence
    stands for both `nil` and empty there. */
module SpecData {
  import opened Wrappers
  import opened Strings

  /** One pair of `meta[:files]`: a package key (the gem name or a
      subpackage name, `nil` while no gem name is known) and its file
      lines. The sequence of pairs keeps the hash's insertion order. */
  datatype FileList = FileList(pkg: Option<string>, entries: seq<string>)

  datatype Metadata = Metadata(
    contents: string,                    // :contents, the document
    gemName: Option<string>,             // :gem_name
    version: Option<string>,             // :version
    release: Option<string>,             // :release
    reqs: Option<seq<string>>,           // :requires
    buildReqs: Option<seq<string>>,      // :build_requires
    changelog: Option<string>,           // :changelog, the raw text after %changelog
    files: seq<FileList>,                // :files
    changelogEntries: seq<string>,       // :changelog_entries, newest first
    newFiles: Option<seq<string>>)       // :new_files, set by update_files_from

  /** A hash has each key once. */
  predicate DistinctKeys(fs: seq<FileList>) {
    forall i, j :: 0 <= i < j < |fs| ==> fs[i].pkg != fs[j].pkg
  }

  predicate HasKey(fs: seq<FileList>, k: Option<string>) {
    exists i :: 0 <= i < |fs| && fs[i].pkg == k
  }

  /** No stored file line is blank. */
  predicate NoBlankEntries(fs: seq<FileList>) {
    forall i, j :: 0 <= i < |fs| && 0 <= j < |fs[i].entries| ==> !IsBlank(fs[i].entries[j])
  }

  /** `files[k] ||= []`: a new key goes at the end, an existing one is left
      alone. */
  function EnsureKey(fs: seq<FileList>, k: Option<string>): (r: seq<FileList>)
    ensures HasKey(r, k)
    ensures HasKey(fs, k) ==> r == fs
    ensures !HasKey(fs, k) ==> r == fs + [FileList(k, [])]
    ensures DistinctKeys(fs) ==> DistinctKeys(r)
    ensures NoBlankEntries(fs) ==> NoBlankEntries(r)
  {
    if HasKey(fs, k) then fs
    else
      assert (fs + [FileList(k, [])])[|fs|].pkg == k;
      fs + [FileList(k, [])]
  }

  /** `files[k] << e`: the line goes at the end of the list of key `k`, and
      every other list is unchanged. */
  function AppendEntry(fs: seq<FileList>, k: Option<string>, e: string): (r: seq<FileList>)
    ensures |r| == |fs|
    ensures forall i :: 0 <= i < |fs| ==> r[i].pkg == fs[i].pkg
    ensures forall i :: 0 <= i < |fs| ==>
      r[i].entries == if fs[i].pkg == k then fs[i].entries + [e] else fs[i].entries
    ensures DistinctKeys(fs) ==> DistinctKeys(r)
  {
    if fs == [] then []
    else
      var head := if fs[0].pkg == k then FileList(k, fs[0].entries + [e]) else fs[0];
      [head] + AppendEntry(fs[1..], k, e)
  }

  /** Appending a non-blank line keeps every stored line non-blank. */
  lemma AppendEntryNoBlank(fs: seq<FileList>, k: Option<string>, e: string)
    requires !IsBlank(e)
    ensures NoBlankEntries(fs) ==> NoBlankEntries(AppendEntry(fs, k, e))
  {
    var r := AppendEntry(fs, k, e);
    if NoBlankEntries(fs) {
      forall i, j | 0 <= i < |r| && 0 <= j < |r[i].entries| ensures !IsBlank(r[i].entries[j]) {
        if fs[i].pkg == k && j == |fs[i].entries| {
          assert r[i].entries[j] == e;
        } else {
          assert r[i].entries[j] == fs[i].entries[j];
        }
      }
    }
  }
}
